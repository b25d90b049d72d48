# xarm-cuber: a verified model of the arm-control core

xarm-cuber drives a six-servo xArm that solves a Rubik's cube. A vision planner
publishes move codes. A policy-driven actuator turns each code into arm motion
through a servo bus. That bus talks to MicroPython firmware over a serial REPL.

This project models that core in Dafny and proves properties about it. It covers
five parts:

- **The position bus** (`PositionBus`, with the static configuration in `Config`).
  - `write_positions` looks up each joint's servo id, clamps the target to the
    joint's limits and truncates it. It skips the write when the target is within
    the dead-band of the cached last position. Otherwise it issues `run` and stores
    the clamped value in the cache.
  - `read_positions` runs under a 10-try retry and names the decoded array by joint.
  - `connect` dispatches on the connection kind and refuses a second connect.
  - Torque on and off walk servo ids 1..6.
- **The serial link** (`ServoSerial`, with `Json` and `Text`).
  - the control bytes of the constructor handshake;
  - the raw-mode and friendly-mode frames `run_command` writes;
  - the two reply parsers;
  - the text of every command builder;
  - `get_position`, `get_positions` and `set_positions`.

  The port is an abstract trace of writes, drain reads and reads-until-marker. What
  the firmware sends back is a parameter. Bytes are characters below 256 (`Utf8`):
  commands go out UTF-8 encoded. A raw-mode reply is decoded strictly, so bytes that
  are not UTF-8 raise. A friendly-mode reply is decoded dropping what does not decode.
  On the bus side, whether a call returns or raises is a parameter, a function from
  the command to its outcome (`PositionBus.Answer`).
- **The follower and leader adapters** (`Follower`, `Teleop`).
  - the `joint` ↔ `joint.pos` renaming;
  - `send_action`;
  - default-pose selection by task name;
  - five-fold homing;
  - torque sequencing (the follower loads, the leader then unloads).
- **The action channel** (`CubeSolver`, `ActionController`).
  - the planner's move-name → code mapping, with its busy handling;
  - one pass of the actuator's `run_robot` loop over the task table;
  - the structure of `execute_task`'s policy loop;
  - the weighted-L1 end-position test.
- **The camera lookup script** (`FindCameras`): parsing the `v4l2-ctl --list-devices`
  listing, and `main`'s exit logic and printed configuration.

Python dicts are ordered association lists `seq<(string, V)>`, because insertion
order decides the order of `run` commands. `str.find` returns -1 when the pattern is
absent, and slicing follows Python's rules for negative and out-of-range bounds
(`Text.Slice`). Python's `int()` of a float truncates toward zero (`PositionBus.Trunc`).

The model follows the code where the design description of the system says
otherwise:

- **Reads overwrite the cache.** A successful `get_positions` replaces the whole
  position cache, even on an attempt that then fails on a seventh element
  (`src/xarm/lerobot/xarm_bus.py:75`). The design says the cache is updated only by
  writes. The model follows the code (`PositionBus.ReadPositions`, `CacheAfter`).
- **Exhausted retries re-raise the last error.** After ten failed attempts the retry
  decorator raises the last attempt's error, not a dedicated read-failure error.
- **Homing repeats are no-ops.** Homing sends the pose five times, although the
  comment says three. Nothing is read between the sends, so on a connected bus the
  dead-band turns sends 2..5 into no-ops. `Follower.HomingSendsOnce` proves this.
- **The actuator never resets `action`.** Only the planner writes it.
- **Codes 4 and 5 name the same task.**
- **A failing first task skips recentering.** If the first task raises, the
  recentering task is skipped.
- **A task with no policy iteration raises.** When the time budget is already spent
  at the loop's first check, `print(action_values)` reads a variable that was never
  assigned. The task raises `UnboundLocalError` and skips its second homing
  (`src/action_controller.py:69-70`).
- **A reply that is not UTF-8 aborts the write.** In raw mode such a reply raises
  `UnicodeDecodeError`. `write_positions` then stops before recording that servo's
  position in the cache.

## Model

| member | source | states |
|---|---|---|
| Config.MotorIdOf | src/xarm/lerobot/config_xarm_follower.py:44-51 | a name has a servo id exactly when it is one of the six joints; ids lie in 1..6 and joint i of the declaration order has id i+1 |
| Config.NameOfMotor | src/xarm/lerobot/config_xarm_follower.py:52 | `motorid2name` is defined exactly on ids 1..6 and is the inverse of `joint2motorid` |
| Config.MotorIdsDistinct | src/xarm/lerobot/config_xarm_follower.py:44-51 | `joint2motorid` is one-to-one |
| Config.LimitsOf | src/xarm/lerobot/config_xarm_follower.py:35-42 | `joint_limits` has the same keys as `joint2motorid`, every min ≤ max with min ≥ 0; gripper [0,1500], joint_2 [70,1000], the others [0,1000] |
| Config.DefaultFollowerConfig | src/xarm/lerobot/config_xarm_follower.py:18-32 | defaults: port /dev/ttyUSB0, serial with no address, runtime 250, six joints, tolerance 3, no relative-target limit, drain size 50, bus object `bus_servo` |
| Config.DefaultLeaderConfig | src/xarm/lerobot/config_xarm_leader.py:9-10 | the leader configuration is the follower's with port /dev/ttyUSB1 |
| Text.Find | src/xarm/xarm_remote/bus_servo_serial.py:75 | `find` gives the first offset where the pattern occurs, or -1 when it occurs nowhere |
| Text.Slice | src/xarm/xarm_remote/bus_servo_serial.py:75 | Python slicing: negative bounds count from the end, bounds are clipped to the string, and a reversed range is empty |
| Text.ParseIntOfString | src/xarm/xarm_remote/bus_servo_serial.py:112 | `int()` reads back the decimal text of every integer |
| Json.Decode | src/xarm/xarm_remote/bus_servo_serial.py:114-120 | a payload that is not a JSON array of integers is rejected with the payload itself, never returned as a partial array |
| Json.DecodeListRepr | src/xarm/xarm_remote/bus_servo_serial.py:114-118 | decoding what Python prints for a list of integers gives the list back |
| Utf8.Decode | src/xarm/xarm_remote/bus_servo_serial.py:75 | strict `bytes.decode()` returns no more characters than there were bytes |
| Utf8.DecodeIgnoring | src/xarm/xarm_remote/bus_servo_serial.py:70 | `decode(errors='ignore')` returns no more characters than there were bytes |
| Utf8.DecodeEncode | src/xarm/xarm_remote/bus_servo_serial.py:44 | decoding the UTF-8 encoding of any text gives that text back |
| Utf8.EncodeDecode | src/xarm/xarm_remote/bus_servo_serial.py:75 | the strict decoder accepts only byte strings that are the encoding of what it returns, so over-long forms, surrogates and truncated sequences are rejected |
| Utf8.PointEncodes | src/xarm/xarm_remote/bus_servo_serial.py:75 | re-encoding one decoded code point gives back exactly the bytes it was decoded from |
| Utf8.DecodeIgnoringAgrees | src/xarm/xarm_remote/bus_servo_serial.py:70 | on bytes the strict decoder accepts, decoding with ignored errors gives the same text |
| Utf8.DecodeIgnoringEncode | src/xarm/xarm_remote/bus_servo_serial.py:49 | decoding with ignored errors undoes encoding |
| Utf8.EncodeAppend | src/xarm/xarm_remote/bus_servo_serial.py:44 | encoding a concatenation concatenates the encodings |
| Utf8.EncodeAscii | src/xarm/xarm_remote/bus_servo_serial.py:44 | ASCII text encodes to itself |
| Utf8.EncodeAvoids | src/xarm/xarm_remote/bus_servo_serial.py:44 | encoding introduces no ASCII character the text did not hold, since every byte of a non-ASCII code point is above 0x7F |
| Utf8.DecodeIgnoringAvoids | src/xarm/xarm_remote/bus_servo_serial.py:70 | decoding with ignored errors introduces no ASCII character the bytes did not hold |
| Utf8.DecodeIgnoringAsciiPrefix | src/xarm/xarm_remote/bus_servo_serial.py:70 | an ASCII prefix decodes to itself, ahead of the decoding of the rest |
| Utf8.DecodeIgnoringAppend | src/xarm/xarm_remote/bus_servo_serial.py:70 | decoding with ignored errors splits at any point where an ASCII byte starts the second part |
| ServoSerial.EnterRawMode | src/xarm/xarm_remote/bus_servo_serial.py:53-58 | entering raw mode writes Ctrl-C then Ctrl-A and nothing else |
| ServoSerial.Reset | src/xarm/xarm_remote/bus_servo_serial.py:27-31 | the constructor first writes Ctrl-B then Ctrl-C and nothing else |
| ServoSerial.Handshake | src/xarm/xarm_remote/bus_servo_serial.py:27-35 | the constructor writes 0x02 0x03, followed by 0x03 0x01 exactly when raw mode is on |
| ServoSerial.Open | src/xarm/xarm_remote/bus_servo_serial.py:15-35 | a port that cannot be opened gives `PortOpenError` with nothing written; otherwise the link carries the given server, drain size and mode, after the handshake |
| ServoSerial.HandshakeSelectsMode | src/xarm/xarm_remote/bus_servo_serial.py:27-35 | whatever REPL mode the firmware was in, the handshake leaves it at the raw prompt when raw mode is on and at the friendly prompt otherwise |
| ServoSerial.RawFrameSubmitsOnce | src/xarm/xarm_remote/bus_servo_serial.py:42-44 | the raw frame's only Ctrl-D is its last byte, and what precedes it decodes as UTF-8 to `print(server.cmd)\n` |
| ServoSerial.CookedFrameSubmitsOnce | src/xarm/xarm_remote/bus_servo_serial.py:48-49 | the friendly frame decodes as UTF-8 to `server.cmd\r\n`, and its first carriage return is the one before its final line feed |
| ServoSerial.ParseRawResult | src/xarm/xarm_remote/bus_servo_serial.py:73-75 | the raw reply text never contains a carriage return and is no longer than what was read |
| ServoSerial.RawReplyParsed | src/xarm/xarm_remote/bus_servo_serial.py:73-75 | the text between `OK` and the first carriage return of a raw reply is exactly the printed value |
| ServoSerial.RawReplyOutcome | src/xarm/xarm_remote/bus_servo_serial.py:42-45 | in raw mode, printed bytes without `\r` or `>` come back decoded when they are UTF-8, and otherwise raise `UnicodeDecodeError` carrying them |
| ServoSerial.ParseResult | src/xarm/xarm_remote/bus_servo_serial.py:77-79 | the friendly reply text never contains a carriage return or a line feed |
| ServoSerial.CookedParse | src/xarm/xarm_remote/bus_servo_serial.py:77-79 | after the echoed command and up to the prompt, a friendly reply yields exactly the printed value |
| ServoSerial.CookedReplyOutcome | src/xarm/xarm_remote/bus_servo_serial.py:46-50 | in friendly mode, when the echo is unambiguous, printed bytes without line ends or `>` come back decoded with undecodable bytes dropped |
| ServoSerial.ReadThroughPrompt | src/xarm/xarm_remote/bus_servo_serial.py:74 | `read_until(b'>')` returns a prefix of the input ending at the first `>`, or all of it when none arrives |
| ServoSerial.RunCommand | src/xarm/xarm_remote/bus_servo_serial.py:40-79 | raw mode writes exactly the raw frame; it returns text exactly when the bytes between `OK` and the first carriage return are UTF-8, and otherwise raises `UnicodeDecodeError` on them. Friendly mode drains first, writes exactly the friendly frame, and times out exactly when no `>>>` arrives. Returned text holds no carriage return |
| ServoSerial.RawRoundTrip | src/xarm/xarm_remote/bus_servo_serial.py:42-45 | in raw mode, text without `\r` or `>` that the firmware prints UTF-8 encoded comes back unchanged, whatever follows the prompt |
| ServoSerial.CookedRoundTrip | src/xarm/xarm_remote/bus_servo_serial.py:46-50 | in friendly mode, when the echo is unambiguous, text without line ends or `>` that the firmware prints UTF-8 encoded comes back unchanged |
| ServoSerial.CallTextRoundTrip | src/xarm/xarm_remote/bus_servo_serial.py:81-136 | reading back the text a builder produces gives its method name and its arguments |
| ServoSerial.CommandTextInjective | src/xarm/xarm_remote/bus_servo_serial.py:81-136 | two different calls never produce the same text |
| ServoSerial.RunText | src/xarm/xarm_remote/bus_servo_serial.py:81-82 | `run` writes `run(id, p, runtime)`, with `None` when no runtime is given |
| ServoSerial.ThreeArgText | src/xarm/xarm_remote/bus_servo_serial.py:81-100 | a builder with three arguments writes `name(a, b, c)` |
| ServoSerial.TwoArgText | src/xarm/xarm_remote/bus_servo_serial.py:84-94 | a builder with two arguments writes `name(a, b)` |
| ServoSerial.OneArgText | src/xarm/xarm_remote/bus_servo_serial.py:90-136 | a builder with one argument writes `name(a)` |
| ServoSerial.NoArgText | src/xarm/xarm_remote/bus_servo_serial.py:108-115 | a builder without arguments writes `name()` |
| ServoSerial.Call | src/xarm/xarm_remote/bus_servo_serial.py:81-136 | a builder writes the frame of its command's text in the link's mode. In raw mode it fails exactly when the reply payload is not UTF-8, with `UnicodeDecodeError`. In friendly mode it fails exactly when no prompt arrives, with the timeout |
| ServoSerial.CallRoundTrip | src/xarm/xarm_remote/bus_servo_serial.py:81-136 | a call whose firmware prints one line of text without `>` is read back as that text, in raw mode and, when the echo is unambiguous, in friendly mode |
| ServoSerial.ReadPosition | src/xarm/xarm_remote/bus_servo_serial.py:111-112 | `get_position` succeeds exactly when the call answers with an integer's text |
| ServoSerial.ReadPositionRoundTrip | src/xarm/xarm_remote/bus_servo_serial.py:111-112 | a firmware printing position n is read back as n, in raw mode and, when the echo is unambiguous, in friendly mode |
| ServoSerial.ReadPositions | src/xarm/xarm_remote/bus_servo_serial.py:114-120 | `get_positions` returns the decoded array when the answer decodes, and otherwise raises with the answer; it never returns part of an array |
| ServoSerial.ReadPositionsRoundTrip | src/xarm/xarm_remote/bus_servo_serial.py:114-120 | a firmware printing the list xs is read back as xs in raw mode, and in friendly mode when the echo is unambiguous |
| ServoSerial.WriteGoals | src/xarm/xarm_remote/bus_servo_serial.py:122-124 | `set_positions` with other than six goals fails its assertion before writing anything; with six it writes the call and fails exactly when the call does, with the call's error |
| PositionBus.NewBus | src/xarm/lerobot/xarm_bus.py:17-20 | a new bus is unconnected and its cache holds `num_joints` copies of -10 |
| PositionBus.Connect | src/xarm/lerobot/xarm_bus.py:22-47 | connect succeeds exactly when the bus is unconnected and either the serial port opens or a network kind has a non-empty address; a failure stores no transport; a second connect is refused without traffic; serial opens a raw-mode link after the handshake |
| PositionBus.ConnectTwice | src/xarm/lerobot/xarm_bus.py:22-24 | connecting an already connected bus is refused and changes nothing |
| PositionBus.SendInOrder | src/xarm/lerobot/xarm_bus.py:60-70 | commands go out in order until one raises: what is sent is a prefix ending at the raising command, whose error is returned, and every earlier one returned; success exactly when every command returns |
| PositionBus.EnableTorque | src/xarm/lerobot/xarm_bus.py:60-64 | `load` goes to servos 1..6 in that order until a call raises, and that call's error is returned; it succeeds exactly when all six return; without a transport nothing is sent |
| PositionBus.DisableTorque | src/xarm/lerobot/xarm_bus.py:66-70 | `unload` goes to servos 1..6 in that order until a call raises, and that call's error is returned; it succeeds exactly when all six return; without a transport nothing is sent |
| PositionBus.DisableTorqueAnswered | src/xarm/lerobot/xarm_bus.py:66-70 | when every `unload` returns, exactly the six `unload`s are sent and the call succeeds |
| PositionBus.EnableTorqueHoldsAll | src/xarm/lerobot/xarm_bus.py:60-64 | whatever the servos' state, after a successful `enable_torque` every servo holds torque |
| PositionBus.DisableTorqueReleasesAll | src/xarm/lerobot/xarm_bus.py:66-70 | whatever the servos' state, after a successful `disable_torque` every servo is limp |
| PositionBus.Target | src/xarm/lerobot/xarm_bus.py:85 | the clamped, truncated position lies within the limits and equals the floor of an in-range request |
| PositionBus.ClampFloat | src/xarm/lerobot/xarm_bus.py:85 | Python's `max(lo, min(hi, x))` on a float: NaN and +inf become the upper limit and -inf the lower one, so the result is always finite and within the limits |
| PositionBus.TargetFloat | src/xarm/lerobot/xarm_bus.py:85 | the position sent for any float lies within the limits; NaN and +inf give the upper limit and -inf the lower one |
| PositionBus.TargetFloatFinite | src/xarm/lerobot/xarm_bus.py:85 | on finite floats the float clamp is the real-valued one |
| PositionBus.TruncIsFloor | src/xarm/lerobot/xarm_bus.py:85 | `int()` of a non-negative float is its floor |
| PositionBus.TargetOf | src/xarm/lerobot/xarm_bus.py:83-85 | the position computed for a joint lies within that joint's limits |
| PositionBus.WriteEntry | src/xarm/lerobot/xarm_bus.py:81-88 | an unknown joint raises `KeyError`, a slot past the cache raises `IndexError`; inside the dead-band nothing changes; outside it one `run` of the clamped target is sent, and only when it returns is that slot updated; a raising `run` leaves the cache as it was |
| PositionBus.WriteAll | src/xarm/lerobot/xarm_bus.py:80-88 | every `run` carries a position within its joint's limits and the given runtime; at most one per entry; the cache keeps its length |
| PositionBus.WritePositions | src/xarm/lerobot/xarm_bus.py:80-88 | the bus keeps its configuration and transport, and every command sent stays within limits |
| PositionBus.WriteAllSends | src/xarm/lerobot/xarm_bus.py:86-88 | when every call returns, a joint receives `run` exactly when its clamped target is farther than the tolerance from the cache as it was before the call |
| PositionBus.WriteAllSlot | src/xarm/lerobot/xarm_bus.py:85-88 | when every call returns, a written joint's slot ends at the clamped target, not the requested value, when it was outside the dead-band, and keeps its value otherwise |
| PositionBus.WriteAllUntargeted | src/xarm/lerobot/xarm_bus.py:86-88 | slots of joints not named are unchanged and receive no `run` |
| PositionBus.WriteAllOk | src/xarm/lerobot/xarm_bus.py:80-88 | distinct known joints on a connected bus never raise when every call returns |
| PositionBus.WriteAllFails | src/xarm/lerobot/xarm_bus.py:80-88 | on distinct known joints of a connected bus the write fails exactly when a `run` raised; that `run` is the last command sent, its error is returned, and every earlier command returned |
| PositionBus.WriteAllAcknowledged | src/xarm/lerobot/xarm_bus.py:86-88 | whatever the transport answers, every cache slot the write changed holds the position of a `run` to that servo that returned |
| PositionBus.WriteAllQuiet | src/xarm/lerobot/xarm_bus.py:86 | when every entry is inside the dead-band, nothing is sent and the cache is unchanged |
| PositionBus.WriteTwiceIsQuiet | src/xarm/lerobot/xarm_bus.py:86-88 | with a non-negative tolerance, writing the same targets a second time sends nothing |
| PositionBus.FreshBusSendsEveryJoint | src/xarm/lerobot/xarm_bus.py:20 | on a fresh connected bus, with a tolerance below 10, the first write sends `run` to every named joint |
| PositionBus.FirstGood | src/xarm/lerobot/xarm_bus.py:72-77 | the attempt the retry returns is the first that decodes with at most six positions; none before it does |
| PositionBus.Named | src/xarm/lerobot/xarm_bus.py:76-77 | position i is named by `motorid2name[i+1]`, with its value unchanged |
| PositionBus.ReadPositions | src/xarm/lerobot/xarm_bus.py:72-78 | at most ten `get_positions`; the first accepted attempt is returned named, and its array replaces the cache; after ten failures the last error is raised, and the cache holds the last decoded array |
| Follower.MotorFeatures | src/xarm/lerobot/xarm_follower.py:32-33 | six features, all float, each a joint name followed by `.pos`, in joint order |
| Follower.ActionFeatures | src/xarm/lerobot/xarm_follower.py:46-48 | the action features are the motor features |
| Follower.Rename | src/xarm/lerobot/xarm_follower.py:103 | every key k becomes `k.pos` with its value and position unchanged |
| Follower.GoalOf | src/xarm/lerobot/xarm_follower.py:117 | the goal never has more entries than the action |
| Follower.GoalOfRename | src/xarm/lerobot/xarm_follower.py:117 | stripping `.pos` after renaming gives back the original entries |
| Follower.RenameGoalOf | src/xarm/lerobot/xarm_follower.py:117-127 | renaming the goal gives exactly the action's `.pos` entries; other keys are dropped |
| Follower.PosEntries | src/xarm/lerobot/xarm_follower.py:117 | every entry kept ends in `.pos` |
| Follower.GetObservation | src/xarm/lerobot/xarm_follower.py:100-103 | the observation is the bus read with every key renamed to `k.pos`, and stripping the suffix gives the named read back |
| Follower.SendAction | src/xarm/lerobot/xarm_follower.py:116-127 | returns exactly the requested `.pos` entries, unclamped; every `run` uses the explicit runtime or else the configured one |
| Follower.SendActionDeadband | src/xarm/lerobot/xarm_follower.py:124-126 | a joint receives `run` exactly when its clamped target is outside the configured tolerance of the cache |
| Follower.SendTwiceIsQuiet | src/xarm/lerobot/xarm_follower.py:116-127 | sending the same action twice issues nothing the second time |
| Follower.DefaultPose | src/xarm/lerobot/xarm_follower.py:132-135 | the gripper is at 600 exactly when the lower-cased task contains `flip` or `move cube to center`, and at 0 otherwise; joints 1..5 are at 500, 125, 500, 500, 500 |
| Follower.PoseAction | src/xarm/lerobot/xarm_follower.py:138-142 | pose value i goes to joint i of the fixed joint list under its `.pos` key |
| Follower.SendRepeatedly | src/xarm/lerobot/xarm_follower.py:141-143 | every command of the repeated sends is a `run` within limits with runtime 1000 |
| Follower.MoveToDefault | src/xarm/lerobot/xarm_follower.py:129-144 | homing only sends `run`s within limits with runtime 1000 |
| Follower.PoseSentOnce | src/xarm/lerobot/xarm_follower.py:141-143 | five sends of the same pose issue only the first send's commands |
| Follower.HomingSendsOnce | src/xarm/lerobot/xarm_follower.py:129-144 | on a connected bus homing succeeds with exactly the commands of a single send of the default pose |
| Follower.Configure | src/xarm/lerobot/xarm_follower.py:97-98 | configure loads servos 1..6 in order and succeeds exactly when every `load` returns |
| Follower.Connect | src/xarm/lerobot/xarm_follower.py:54-64 | a failed bus connect is passed on unchanged with nothing sent; the port traffic is the bus connect's; a connected bus keeps its cache, and success means servos 1..6 were loaded and every `load` returned |
| Teleop.ActionFeatures | src/xarm/lerobot/xarm_teleop.py:20-22 | the leader's action features are the follower's |
| Teleop.FeedbackFeatures | src/xarm/lerobot/xarm_teleop.py:24-26 | the leader has no feedback features |
| Teleop.Configure | src/xarm/lerobot/xarm_teleop.py:43-44 | the leader's configure unloads servos 1..6 in order |
| Teleop.Connect | src/xarm/lerobot/xarm_teleop.py:36-44 | a failed follower connect is passed on; otherwise the follower's `load`s are followed by the leader's `unload`s, and a successful connect sends `load` 1..6, then `unload` 1..6, and nothing else |
| Teleop.ConnectLeavesServosLimp | src/xarm/lerobot/xarm_teleop.py:36-44 | after the follower's configure every servo holds, and at the end of connect every servo is limp |
| Teleop.GetAction | src/xarm/lerobot/xarm_teleop.py:46-47 | the leader's action is the follower's observation |
| Teleop.SendFeedback | src/xarm/lerobot/xarm_teleop.py:49-50 | feedback is always refused as not implemented |
| Teleop.MoveToDefault | src/xarm/lerobot/xarm_teleop.py:55-57 | the follower's homing followed by `unload` of servos 1..6; a failed homing is passed on; when every `unload` returns, the result is exactly the homing's commands then the six `unload`s |
| Teleop.MoveToDefaultLeavesServosLimp | src/xarm/lerobot/xarm_teleop.py:55-57 | after the leader's homing every servo is limp |
| CubeSolver.ActionCode | src/cube_solver.py:37-48 | a move name has a code exactly when it is one of the five names, and code c names move c-1 of the list |
| CubeSolver.ActionCodeBijective | src/cube_solver.py:37-46 | flip, rotate_left, rotate_right, rotate_upper_left and rotate_upper_right get codes 1..5 in that order |
| CubeSolver.Tick | src/cube_solver.py:22-51 | a busy pass clears the pending move first; no move writes 0 and keeps the announced move; a known move writes its code; an unknown one raises before writing, leaving the code unchanged; codes stay in 0..5 |
| ActionController.TaskOf | src/action_controller.py:73-80 | the table is defined exactly on codes 1..6, each with a positive time budget |
| ActionController.TaskTableShape | src/action_controller.py:73-80 | codes 4 and 5 map to the same task; all other codes map to distinct tasks |
| ActionController.TaskPoses | src/xarm/lerobot/xarm_follower.py:132-135 | of the table's tasks, only flipping and recentering home with the gripper open |
| ActionController.PlannerCodesAreTasks | src/cube_solver.py:36-51 | every code the planner publishes is 0 or a table code other than recentering |
| ActionController.Tick | src/action_controller.py:86-109 | code 0 only observes and never sets busy; a busy flag left set is then cleared. Any other code sets busy first. An unknown code runs nothing and raises `KeyError`. A failing first task skips recentering; otherwise the task then recentering run. Busy ends false and `action` is never written |
| ActionController.TickBusyDiscipline | src/action_controller.py:92-109 | every task of a pass runs while busy is set, and busy is clear when the pass ends, whatever fails |
| ActionController.Loop | src/action_controller.py:41-56 | the loop stops at the first iteration that is out of time or sees an end position; every earlier iteration was in time and saw none |
| ActionController.TaskTrace | src/action_controller.py:37-70 | a task observes and homes, runs observe-then-send iterations, observes once more when it stopped at an end position, and homes again |
| ActionController.ExecuteTask | src/action_controller.py:33-70 | a task fails exactly when its time is already up at the first check: it has then observed and homed once, raises `UnboundLocalError` for `action_values` and does not home again; otherwise it ends with its second homing |
| ActionController.ExecuteTaskSends | src/action_controller.py:37-70 | a task sends the policy's output of exactly the iterations before the loop stops, in order |
| ActionController.IsEndPosition | src/action_controller.py:124-146 | true exactly when, for one of the three weight/target pairs, the weighted L1 distance is below the threshold |
| ActionController.AtTargetIsEnd | src/action_controller.py:124-146 | a position equal to one of the targets is an end position for any positive threshold |
| ActionController.NonPositiveThresholdNeverEnds | src/action_controller.py:124-146 | with a threshold of zero or less nothing is an end position, as all weights are non-negative |
| ActionController.DeviationNonNegative | src/action_controller.py:137 | a weighted L1 distance with non-negative weights is non-negative |
| FindCameras.FirstPart | scripts/find_cameras.py:24-27 | the first part of a line that starts with `/dev/video`, and no earlier part does |
| FindCameras.FirstLine | scripts/find_cameras.py:21-27 | the first line mentioning `video` with such a part, and no earlier line has one |
| FindCameras.FirstBlock | scripts/find_cameras.py:13-27 | the first block naming the USB path with such a line, and no earlier block has one |
| FindCameras.FindWebcam | scripts/find_cameras.py:8-30 | a failed listing gives None; a result starts with `/dev/video`; None exactly when no block naming the USB path has a device line |
| FindCameras.FindWebcamIsFirst | scripts/find_cameras.py:13-27 | the device returned is the first hit in block, then line, then part order |
| FindCameras.CamerasConfig | scripts/find_cameras.py:52 | the printed configuration is a `top` entry, then a `front` entry, each an OpenCV camera on its device at 640x480 and 30 fps; the two devices sit at the `index_or_path` offsets in that order |
| FindCameras.Main | scripts/find_cameras.py:32-54 | exit status 1 unless there are exactly two arguments and both cameras are found; otherwise the configuration for the two devices is printed |

## Left out

- Serial I/O, the wall-clock loop of `_read_until` and every `time.sleep`. The port is a trace plus supplied reply text, and a timeout is a failure outcome.
- The retry decorator's 30 ms delay. Only the attempt count is modelled.
- The HTTP and websocket clients. `connect` only records which transport would be built, and their own connection failures are not modelled.
- The `max_relative_target` branch of `send_action` and `ensure_safe_goal_position`. The latter belongs to a library that is not part of this model. Follower.SendAction, Follower.SendRepeatedly, Follower.MoveToDefault and Teleop.MoveToDefault therefore require the limit to be unset, which is its default.
- Cameras: connecting them, their observation images and white-balance settings, and `disconnect`.
- The `calibrate` argument of `connect`, because `is_calibrated` is always true and `calibrate` does nothing.
- Policy inference, the dataset, rerun logging and the loop cadence of `execute_task`. The elapsed times and the policy's predictions are parameters of the loop.
- ActionController.Tick: task outcomes are a parameter, so errors raised inside `execute_task` are not traced back to individual follower calls. ActionController.ExecuteTask gives the one failure the task raises on its own.
- PositionBus.Answer: a bus call's outcome is a function of the command alone, so a transport that answers the same command differently over time is not modelled. Over the serial link that outcome is ServoSerial.Call's, but the two are not composed.
- PositionBus.Target: takes a finite real, as does every `write_positions` entry in the model; PositionBus.TargetFloat gives the clamp of NaN and the infinities on its own.
- The vision planner, which is a parameter of CubeSolver.Tick. Its image handling, plotting and logging are left out too.
- Multiprocessing and the locks around the shared values: one pass of each loop is modelled against sampled values.
- `print_open_ports`, `is_connected` and `disconnect` of the bus, which do no modelled work.
- Messages printed to stderr by the camera script.
- Json.Decode: only arrays of integers are accepted. Other JSON values that `json.loads` accepts are rejected, since the firmware only prints integer lists.
- Text.ParseIntOfString: the parser it reads back through accepts surrounding whitespace, one sign and ASCII digits, but not the underscores or non-ASCII digits that Python's `int()` also allows.
- ServoSerial.CallTextRoundTrip: stated only for calls without a list argument (`run_mult`, `set_positions`), because reading a list back would need a comma-aware split.
- ServoSerial.HandshakeSelectsMode: the REPL mode machine is a simplified description of the firmware, not its code.
- ActionController.IsEndPosition: uses exact real arithmetic instead of float32 tensors, and requires six joint values as the policy outputs.
- ActionController.Loop: requires the last supplied clock reading to be past the time budget, so that the loop ends.
