/** Static configuration of the follower arm: joint names, servo ids, joint limits
    and the configuration record with its defaults. */
module Config {
  import opened Wrappers

  /** The six joints, in declaration order: the gripper, then arm joints 1..5. */
  const JointNames: seq<string> := ["gripper", "joint_1", "joint_2", "joint_3", "joint_4", "joint_5"]

  /** Servo ids run over 1..NumServos. */
  const NumServos := 6

  predicate IsServoId(id: int) {
    1 <= id <= NumServos
  }

  /** `joint2motorid[name]`: the servo id of a joint, `None` for a name that is not a key. */
  function MotorIdOf(name: string): (r: Option<int>)
    ensures r.Some? <==> name in JointNames
    ensures r.Some? ==> IsServoId(r.value) && JointNames[r.value - 1] == name
  {
    if name == "gripper" then Some(1)
    else if name == "joint_1" then Some(2)
    else if name == "joint_2" then Some(3)
    else if name == "joint_3" then Some(4)
    else if name == "joint_4" then Some(5)
    else if name == "joint_5" then Some(6)
    else None
  }

  /** `motorid2name[id]`, built in the source by inverting `joint2motorid`. */
  function NameOfMotor(id: int): (r: Option<string>)
    ensures r.Some? <==> IsServoId(id)
    ensures r.Some? ==> MotorIdOf(r.value) == Some(id)
  {
    if IsServoId(id) then Some(JointNames[id - 1]) else None
  }

  /** Distinct joints have distinct servo ids: `joint2motorid` is one-to-one. */
  lemma MotorIdsDistinct(a: string, b: string)
    requires MotorIdOf(a).Some? && MotorIdOf(b).Some? && a != b
    ensures MotorIdOf(a) != MotorIdOf(b)
  {
  }

  datatype Limits = Limits(min: int, max: int)

  /** `joint_limits[name]` at its default: the gripper opens to 1500, joint 2 has a
      raised minimum of 70, every other joint spans 0..1000. */
  function LimitsOf(name: string): (r: Option<Limits>)
    ensures r.Some? <==> MotorIdOf(name).Some?
    ensures r.Some? ==> 0 <= r.value.min <= r.value.max
    ensures name == "gripper" ==> r == Some(Limits(0, 1500))
    ensures name == "joint_2" ==> r == Some(Limits(70, 1000))
    ensures r.Some? && name != "gripper" && name != "joint_2" ==> r == Some(Limits(0, 1000))
  {
    if name == "gripper" then Some(Limits(0, 1500))
    else if name == "joint_2" then Some(Limits(70, 1000))
    else if MotorIdOf(name).Some? then Some(Limits(0, 1000))
    else None
  }

  /** The fields of the follower (and leader) configuration that the core reads. */
  datatype ArmConfig = ArmConfig(
    port: string,
    connectionType: string,          // "serial", "http" or "websocket"
    address: Option<string>,         // for the network transports
    servoRuntime: int,               // milliseconds a `run` should take
    numJoints: int,
    posTol: int,                     // dead-band of `write_positions`
    maxRelativeTarget: Option<real>,
    maxReadSize: int,                // bytes per drain read of the serial link
    remoteBusServer: string          // name of the bus object on the firmware
  )

  /** `XArmFollowerConfig()` with every default. */
  function DefaultFollowerConfig(): (c: ArmConfig)
    ensures c.port == "/dev/ttyUSB0"
    ensures c.connectionType == "serial" && c.address == None
    ensures c.servoRuntime == 250 && c.numJoints == NumServos && c.posTol == 3
    ensures c.maxRelativeTarget == None
    ensures c.maxReadSize == 50 && c.remoteBusServer == "bus_servo"
  {
    ArmConfig("/dev/ttyUSB0", "serial", None, 250, 6, 3, None, 50, "bus_servo")
  }

  /** `XArmLeaderConfig()`: the follower defaults on a second port. */
  function DefaultLeaderConfig(): (c: ArmConfig)
    ensures c.port == "/dev/ttyUSB1"
    ensures c == DefaultFollowerConfig().(port := "/dev/ttyUSB1")
  {
    DefaultFollowerConfig().(port := "/dev/ttyUSB1")
  }
}
