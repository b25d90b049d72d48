/** `XArmFollower`: the arm as a robot of the learning framework. It renames the bus's
    joint names to feature keys `joint.pos` and back, writes actions through the bus
    with the configured runtime and tolerance, and homes the arm to a pose chosen by
    the task's name. Cameras are not part of this model. */
module Follower {
  import opened Wrappers
  import opened Text
  import opened Config
  import opened PositionBus
  import ServoSerial

  /** The suffix of every motor feature key. */
  const PosSuffix := ".pos"

  /** The type a feature is declared with; the motor features are all `float`. */
  datatype FeatureType = Float

  /** `_motors_ft`: `joint.pos -> float` for each joint, in the joints' order. */
  function MotorFeatures(): (r: seq<(string, FeatureType)>)
    ensures |r| == NumServos
    ensures forall i :: 0 <= i < |r| ==> r[i].1 == Float
    ensures forall i :: 0 <= i < |r| ==> EndsWith(r[i].0, PosSuffix)
                                         && RemoveSuffix(r[i].0, PosSuffix) == JointNames[i]
  {
    var r := Rename(Entries(JointNames, 0.0));
    RenamedKeys(JointNames, r);
    Typed(r)
  }

  /** Each renamed key ends in `.pos`, and stripping it gives back the name. */
  lemma RenamedKeys(names: seq<string>, r: seq<(string, real)>)
    requires |r| == |names| && forall i :: 0 <= i < |r| ==> r[i].0 == names[i] + PosSuffix
    ensures forall i :: 0 <= i < |r| ==> EndsWith(r[i].0, PosSuffix) && RemoveSuffix(r[i].0, PosSuffix) == names[i]
  {
    forall i | 0 <= i < |r|
      ensures EndsWith(r[i].0, PosSuffix) && RemoveSuffix(r[i].0, PosSuffix) == names[i]
    {
      RemoveSuffixOfAppended(names[i], PosSuffix);
    }
  }

  function Entries(names: seq<string>, v: real): (r: seq<(string, real)>)
    ensures |r| == |names| && forall i :: 0 <= i < |names| ==> r[i] == (names[i], v)
  {
    if names == [] then [] else [(names[0], v)] + Entries(names[1..], v)
  }

  function Typed(keys: seq<(string, real)>): (r: seq<(string, FeatureType)>)
    ensures |r| == |keys| && forall i :: 0 <= i < |keys| ==> r[i] == (keys[i].0, Float)
  {
    if keys == [] then [] else [(keys[0].0, Float)] + Typed(keys[1..])
  }

  /** `action_features`, and the motor part of `observation_features`. */
  function ActionFeatures(): (r: seq<(string, FeatureType)>)
    ensures r == MotorFeatures()
  {
    MotorFeatures()
  }

  // ---------------------------------------------------------------------------
  // Renaming

  /** `{f"{motor}.pos": val for motor, val in d.items()}`. */
  function Rename(d: seq<(string, real)>): (r: seq<(string, real)>)
    ensures |r| == |d|
    ensures forall i :: 0 <= i < |d| ==> r[i] == (d[i].0 + PosSuffix, d[i].1)
  {
    if d == [] then [] else [(d[0].0 + PosSuffix, d[0].1)] + Rename(d[1..])
  }

  /** `{key.removesuffix(".pos"): val for key, val in action.items() if key.endswith(".pos")}`. */
  function GoalOf(action: seq<(string, real)>): (r: seq<(string, real)>)
    ensures |r| <= |action|
  {
    if action == [] then []
    else
      var rest := GoalOf(action[1..]);
      if EndsWith(action[0].0, PosSuffix) then [(RemoveSuffix(action[0].0, PosSuffix), action[0].1)] + rest
      else rest
  }

  /** The entries of an action whose key ends in `.pos`, in order. */
  function PosEntries(action: seq<(string, real)>): (r: seq<(string, real)>)
    ensures forall i :: 0 <= i < |r| ==> EndsWith(r[i].0, PosSuffix)
  {
    if action == [] then []
    else if EndsWith(action[0].0, PosSuffix) then [action[0]] + PosEntries(action[1..])
    else PosEntries(action[1..])
  }

  /** Stripping the suffix undoes the renaming: joint names come back unchanged. */
  lemma {:induction false} GoalOfRename(d: seq<(string, real)>)
    ensures GoalOf(Rename(d)) == d
    decreases |d|
  {
    if d != [] {
      var e := (d[0].0 + PosSuffix, d[0].1);
      var r := Rename(d);
      assert r == [e] + Rename(d[1..]);
      RemoveSuffixOfAppended(d[0].0, PosSuffix);
      GoalOfCons(e, Rename(d[1..]));
      GoalOfRename(d[1..]);
      assert d == [d[0]] + d[1..];
    }
  }

  lemma GoalOfCons(e: (string, real), rest: seq<(string, real)>)
    ensures GoalOf([e] + rest) ==
              (if EndsWith(e.0, PosSuffix) then [(RemoveSuffix(e.0, PosSuffix), e.1)] else []) + GoalOf(rest)
  {
    assert ([e] + rest)[1..] == rest;
  }

  /** Renaming the goal gives back exactly the `.pos` entries of the action. */
  lemma {:induction false} RenameGoalOf(action: seq<(string, real)>)
    ensures Rename(GoalOf(action)) == PosEntries(action)
    decreases |action|
  {
    if action != [] {
      RenameGoalOf(action[1..]);
      var rest := GoalOf(action[1..]);
      if EndsWith(action[0].0, PosSuffix) {
        var k := action[0].0;
        assert RemoveSuffix(k, PosSuffix) + PosSuffix == k;
        var g := [(RemoveSuffix(k, PosSuffix), action[0].1)] + rest;
        assert Rename(g)[1..] == Rename(rest);
        assert Rename(g) == [action[0]] + Rename(rest);
      }
    }
  }

  // ---------------------------------------------------------------------------
  // Observation and action

  /** `get_observation()` without the cameras: the bus reading, renamed. */
  method GetObservation(b: Bus, replies: seq<Result<seq<int>>>)
    returns (b': Bus, cmds: seq<Command>, r: Result<seq<(string, real)>>)
    requires |replies| == MaxTries
    ensures b'.config == b.config && b'.transport == b.transport
    ensures b.transport.Some? && FirstGood(replies).Some? ==>
              r == Ok(Rename(Named(replies[FirstGood(replies).value].value)))
    ensures b.transport.None? || FirstGood(replies).None? ==> r.Err?
    ensures r.Ok? ==> FirstGood(replies).Some? && GoalOf(r.value) == Named(replies[FirstGood(replies).value].value)
  {
    var read;
    b', cmds, read := ReadPositions(b, replies);
    if read.Err? {
      return b', cmds, Err(read.error);
    }
    GoalOfRename(read.value);
    r := Ok(Rename(read.value));
  }

  /** The runtime `send_action` writes with: the explicit argument, else the
      configured one. */
  function RuntimeOf(config: ArmConfig, runtime: Option<int>): int {
    if runtime.Some? then runtime.value else config.servoRuntime
  }

  /** `send_action(action, servo_runtime)` when no relative-target limit is configured:
      the `.pos` entries, with the suffix stripped, go to `write_positions` with the
      configured tolerance; the entries written are returned under their feature
      keys. */
  function SendAction(b: Bus, action: seq<(string, real)>, runtime: Option<int>, answer: Answer)
    : (r: (Bus, seq<Command>, Result<seq<(string, real)>>))
    requires b.config.maxRelativeTarget.None?
    ensures r.0.config == b.config && r.0.transport == b.transport
    ensures r.2.Ok? ==> r.2.value == PosEntries(action)
    ensures forall i :: 0 <= i < |r.1| ==>
              RunWithinLimits(r.1[i]) && r.1[i].runtime == Some(RuntimeOf(b.config, runtime))
  {
    var goal := GoalOf(action);
    var w := WriteAll(b.cache, goal, Some(RuntimeOf(b.config, runtime)), b.config.posTol, b.transport.Some?, answer);
    RenameGoalOf(action);
    (b.(cache := w.cache), w.cmds, if w.result.Err? then Err(w.result.error) else Ok(Rename(goal)))
  }

  /** A joint receives `run` exactly when its clamped target lies outside the configured
      tolerance of the cached position (`Issues`). */
  lemma SendActionDeadband(b: Bus, action: seq<(string, real)>, runtime: Option<int>, answer: Answer, k: int)
    requires b.config.maxRelativeTarget.None? && b.transport.Some? && AllAnswer(answer)
    requires WellFormed(b.cache, GoalOf(action)) && 0 <= k < |GoalOf(action)|
    ensures var g := GoalOf(action)[k];
            (Sends(SendAction(b, action, runtime, answer).1, SlotOf(g.0) + 1)
             <==> Issues(b.cache, g.0, g.1, b.config.posTol))
  {
    var goal := GoalOf(action);
    var rt := Some(RuntimeOf(b.config, runtime));
    SendActionWrites(b, action, runtime, answer);
    WriteAllSends(b.cache, goal, rt, b.config.posTol, answer, k);
  }

  /** The commands of `send_action` are those of `write_positions` on the goal. */
  lemma SendActionWrites(b: Bus, action: seq<(string, real)>, runtime: Option<int>, answer: Answer)
    requires b.config.maxRelativeTarget.None?
    ensures SendAction(b, action, runtime, answer).1
            == WriteAll(b.cache, GoalOf(action), Some(RuntimeOf(b.config, runtime)), b.config.posTol, b.transport.Some?, answer).cmds
  {
  }

  // ---------------------------------------------------------------------------
  // Homing

  const FlipPose: seq<int> := [600, 500, 125, 500, 500, 500]
  const RestPose: seq<int> := [0, 500, 125, 500, 500, 500]

  /** The default pose for a task: the gripper is opened to 600 for flipping and for
      moving the cube to the center. */
  function DefaultPose(task: string): (pose: seq<int>)
    ensures |pose| == NumServos
    ensures pose[1..] == [500, 125, 500, 500, 500]
    ensures pose[0] == 600 <==> Contains(Lower(task), "flip") || Contains(Lower(task), "move cube to center")
    ensures pose[0] != 600 ==> pose[0] == 0
  {
    var t := Lower(task);
    if Contains(t, "flip") || Contains(t, "move cube to center") then FlipPose else RestPose
  }

  /** `{f"{joint}.pos": pwm for joint, pwm in zip(joints, pose)}`. */
  function PoseAction(pose: seq<int>): (action: seq<(string, real)>)
    requires |pose| == NumServos
    ensures |action| == NumServos
    ensures forall i :: 0 <= i < NumServos ==> action[i] == (JointNames[i] + PosSuffix, pose[i] as real)
  {
    Rename(PoseEntries(pose))
  }

  function PoseEntries(pose: seq<int>): (r: seq<(string, real)>)
    requires |pose| <= NumServos
    ensures |r| == |pose| && forall i :: 0 <= i < |pose| ==> r[i] == (JointNames[i], pose[i] as real)
  {
    if pose == [] then []
    else PoseEntries(pose[..|pose| - 1]) + [(JointNames[|pose| - 1], pose[|pose| - 1] as real)]
  }

  /** The number of times homing sends the pose. */
  const HomingRepeats := 5

  /** `send_action(action, servo_runtime=1000)` repeated `n` times; an error ends the
      loop. */
  function SendRepeatedly(b: Bus, action: seq<(string, real)>, n: nat, answer: Answer)
    : (r: (Bus, seq<Command>, Result<()>))
    requires b.config.maxRelativeTarget.None?
    ensures r.0.config == b.config && r.0.transport == b.transport
    ensures forall i :: 0 <= i < |r.1| ==> RunWithinLimits(r.1[i]) && r.1[i].runtime == Some(1000)
    decreases n
  {
    if n == 0 then (b, [], Ok(()))
    else
      var once := SendAction(b, action, Some(1000), answer);
      if once.2.Err? then (once.0, once.1, Err(once.2.error))
      else
        var rest := SendRepeatedly(once.0, action, n - 1, answer);
        (rest.0, once.1 + rest.1, rest.2)
  }

  /** `move_to_default_position(task)`. */
  function MoveToDefault(b: Bus, task: string, answer: Answer): (r: (Bus, seq<Command>, Result<()>))
    requires b.config.maxRelativeTarget.None?
    ensures r.0.config == b.config && r.0.transport == b.transport
    ensures forall i :: 0 <= i < |r.1| ==> RunWithinLimits(r.1[i]) && r.1[i].runtime == Some(1000)
  {
    SendRepeatedly(b, PoseAction(DefaultPose(task)), HomingRepeats, answer)
  }

  lemma JointNamesDistinct()
    ensures forall k, l :: 0 <= k < l < |JointNames| ==> JointNames[k] != JointNames[l]
  {
  }

  /** The homing goal names the six joints once each. */
  lemma PoseGoalWellFormed(cache: seq<int>, pose: seq<int>)
    requires |pose| == NumServos && |cache| >= NumServos
    ensures GoalOf(PoseAction(pose)) == PoseEntries(pose)
    ensures WellFormed(cache, PoseEntries(pose))
  {
    GoalOfRename(PoseEntries(pose));
    JointNamesDistinct();
    var e := PoseEntries(pose);
    forall k | 0 <= k < |e|
      ensures MotorIdOf(e[k].0).Some? && SlotOf(e[k].0) < |cache|
    {
      assert e[k].0 == JointNames[k];
    }
  }

  /** A second send of the same action issues nothing: the first left every named
      joint's cache within the tolerance of its target. */
  lemma SendTwiceIsQuiet(b: Bus, action: seq<(string, real)>, runtime: Option<int>, answer: Answer)
    requires b.config.maxRelativeTarget.None? && b.transport.Some? && b.config.posTol >= 0 && AllAnswer(answer)
    requires WellFormed(b.cache, GoalOf(action))
    ensures var once := SendAction(b, action, runtime, answer);
            var twice := SendAction(once.0, action, runtime, answer);
            once.2.Ok? && twice.0 == once.0 && twice.1 == [] && twice.2.Ok?
  {
    var goal := GoalOf(action);
    var rt := Some(RuntimeOf(b.config, runtime));
    WriteAllOk(b.cache, goal, rt, b.config.posTol, answer);
    WriteTwiceIsQuiet(b.cache, goal, rt, b.config.posTol, answer);
  }

  /** Sends after a quiet one stay quiet. */
  lemma {:induction false} RepeatQuietFrom(b: Bus, action: seq<(string, real)>, n: nat, answer: Answer)
    requires b.config.maxRelativeTarget.None?
    requires var once := SendAction(b, action, Some(1000), answer); once.0 == b && once.1 == [] && once.2.Ok?
    ensures SendRepeatedly(b, action, n, answer) == (b, [], Ok(()))
    decreases n
  {
    if n > 0 {
      RepeatQuietFrom(b, action, n - 1, answer);
      var once := SendAction(b, action, Some(1000), answer);
      var rest := SendRepeatedly(b, action, n - 1, answer);
      assert SendRepeatedly(b, action, n, answer) == (rest.0, once.1 + rest.1, rest.2);
      assert once.1 + rest.1 == [];
    }
  }

  /** Once a send leaves the bus quiet, the repeats add nothing to it. */
  lemma QuietAfterFirst(b: Bus, action: seq<(string, real)>, n: nat, answer: Answer)
    requires b.config.maxRelativeTarget.None?
    requires var once := SendAction(b, action, Some(1000), answer);
             var twice := SendAction(once.0, action, Some(1000), answer);
             once.2.Ok? && twice.0 == once.0 && twice.1 == [] && twice.2.Ok?
    ensures var once := SendAction(b, action, Some(1000), answer);
            SendRepeatedly(b, action, n + 1, answer) == (once.0, once.1, Ok(()))
  {
    var once := SendAction(b, action, Some(1000), answer);
    RepeatQuietFrom(once.0, action, n, answer);
    var rest := SendRepeatedly(once.0, action, n, answer);
    assert SendRepeatedly(b, action, n + 1, answer) == (rest.0, once.1 + rest.1, rest.2);
    assert once.1 + rest.1 == once.1;
  }

  /** Sending a pose five times issues only the first send's commands. */
  lemma PoseSentOnce(b: Bus, pose: seq<int>, answer: Answer)
    requires b.config.maxRelativeTarget.None? && b.transport.Some? && b.config.posTol >= 0 && AllAnswer(answer)
    requires |pose| == NumServos && |b.cache| >= NumServos
    ensures var once := SendAction(b, PoseAction(pose), Some(1000), answer);
            SendRepeatedly(b, PoseAction(pose), HomingRepeats, answer) == (once.0, once.1, Ok(()))
  {
    PoseGoalWellFormed(b.cache, pose);
    SendTwiceIsQuiet(b, PoseAction(pose), Some(1000), answer);
    QuietAfterFirst(b, PoseAction(pose), HomingRepeats - 1, answer);
  }

  /** Homing sends the pose five times, but on a connected bus only the first send
      issues commands: the whole homing issues exactly the first send's commands. */
  lemma HomingSendsOnce(b: Bus, task: string, answer: Answer)
    requires b.config.maxRelativeTarget.None? && b.transport.Some? && b.config.posTol >= 0
    requires |b.cache| >= NumServos && AllAnswer(answer)
    ensures var once := SendAction(b, PoseAction(DefaultPose(task)), Some(1000), answer);
            MoveToDefault(b, task, answer) == (once.0, once.1, Ok(()))
  {
    PoseSentOnce(b, DefaultPose(task), answer);
  }

  // ---------------------------------------------------------------------------
  // Connection

  /** `is_calibrated`: the arm needs no calibration. */
  const IsCalibrated := true

  /** `configure()`: enable torque on every servo. */
  function Configure(b: Bus, answer: Answer): (r: (seq<Command>, Result<()>))
    ensures b.transport.None? ==> r == ([], Err(NoTransport))
    ensures r.1.Ok? <==> b.transport.Some? && Answered(LoadAll(MotorIds), answer)
    ensures r.1.Ok? ==> |r.0| == NumServos && forall i :: 0 <= i < NumServos ==> r.0[i] == ServoSerial.Load(i + 1)
  {
    EnableTorque(b, answer)
  }

  /** The outcome of `connect()`: the bus, the commands sent, the result and the
      traffic of opening the port. */
  datatype Connection = Connection(bus: Bus, cmds: seq<Command>, result: Result<()>, events: seq<ServoSerial.PortEvent>)

  /** `connect()` without cameras: connect the bus, then configure. A failed bus
      connect leaves the follower as it was and configures nothing. */
  function Connect(b: Bus, portOpens: bool, answer: Answer): (r: Connection)
    ensures r.events == PositionBus.Connect(b, portOpens).2
    ensures PositionBus.Connect(b, portOpens).1.Err? ==>
              r.bus == b && r.cmds == [] && r.result == PositionBus.Connect(b, portOpens).1
    ensures PositionBus.Connect(b, portOpens).1.Ok? ==> r.bus.transport.Some? && r.bus.cache == b.cache
    ensures r.result.Ok? ==> PositionBus.Connect(b, portOpens).1.Ok? && Answered(LoadAll(MotorIds), answer)
    ensures r.result.Ok? ==> |r.cmds| == NumServos && forall i :: 0 <= i < NumServos ==> r.cmds[i] == ServoSerial.Load(i + 1)
  {
    var (b1, c, events) := PositionBus.Connect(b, portOpens);
    if c.Err? then Connection(b, [], c, events)
    else
      var (cmds, res) := Configure(b1, answer);
      Connection(b1, cmds, res, events)
  }
}
