/** `XArmLeader`: a teleoperator built around a follower on its own port. The leader
    arm is moved by hand, so after connecting it releases every servo; its actions are
    the follower's observations. */
module Teleop {
  import opened Wrappers
  import opened Config
  import opened PositionBus
  import Follower

  /** `action_features`: the follower's. */
  function ActionFeatures(): (r: seq<(string, Follower.FeatureType)>)
    ensures r == Follower.ActionFeatures()
  {
    Follower.MotorFeatures()
  }

  /** `feedback_features`: the leader accepts no feedback. */
  function FeedbackFeatures(): (r: seq<(string, Follower.FeatureType)>)
    ensures |r| == 0
  {
    []
  }

  /** `configure()`: release every servo. */
  function Configure(b: Bus, answer: Answer): (r: (seq<Command>, Result<()>))
    ensures b.transport.None? ==> r == ([], Err(NoTransport))
    ensures r.1.Ok? <==> b.transport.Some? && Answered(UnloadAll(MotorIds), answer)
    ensures r.1.Ok? ==> |r.0| == NumServos && forall i :: 0 <= i < NumServos ==> r.0[i] == ServoSerial.Unload(i + 1)
  {
    DisableTorque(b, answer)
  }

  /** `connect()`: the follower's connect (bus, then `load` 1..6), then the leader's
      own configure (`unload` 1..6); a failure of the follower's connect skips the
      leader's configure. */
  function Connect(b: Bus, portOpens: bool, answer: Answer): (r: Follower.Connection)
    ensures var f := Follower.Connect(b, portOpens, answer);
            && (f.result.Err? ==> r == f)
            && (f.result.Ok? ==> r.bus == f.bus && r.bus.transport.Some? && r.events == f.events
                                 && |f.cmds| <= |r.cmds| && r.cmds[..|f.cmds|] == f.cmds)
    ensures r.result.Ok? ==> |r.cmds| == 2 * NumServos
    ensures r.result.Ok? ==> forall i :: 0 <= i < NumServos ==> r.cmds[i] == ServoSerial.Load(i + 1)
    ensures r.result.Ok? ==> forall i :: NumServos <= i < 2 * NumServos ==>
              r.cmds[i] == ServoSerial.Unload(i - NumServos + 1)
  {
    var f := Follower.Connect(b, portOpens, answer);
    if f.result.Err? then f
    else
      var (unload, res) := Configure(f.bus, answer);
      if res.Ok? then
        JoinedCommands(f.cmds, unload);
        f.(cmds := f.cmds + unload, result := res)
      else
        assert (f.cmds + unload)[..|f.cmds|] == f.cmds;
        f.(cmds := f.cmds + unload, result := res)
  }

  /** The follower's `load`s followed by the leader's `unload`s, by position. */
  lemma JoinedCommands(load: seq<Command>, unload: seq<Command>)
    requires |load| == NumServos && forall i :: 0 <= i < NumServos ==> load[i] == ServoSerial.Load(i + 1)
    requires |unload| == NumServos && forall i :: 0 <= i < NumServos ==> unload[i] == ServoSerial.Unload(i + 1)
    ensures var c := load + unload;
            && |c| == 2 * NumServos
            && (forall i :: 0 <= i < NumServos ==> c[i] == ServoSerial.Load(i + 1))
            && (forall i :: NumServos <= i < 2 * NumServos ==> c[i] == ServoSerial.Unload(i - NumServos + 1))
  {
  }

  /** After `connect`, every servo was holding once the follower had configured it, and
      every servo ends limp, whatever state the servos started in. */
  lemma ConnectLeavesServosLimp(b: Bus, portOpens: bool, answer: Answer, torque: seq<bool>)
    requires Connect(b, portOpens, answer).result.Ok? && |torque| == NumServos
    ensures var cmds := Connect(b, portOpens, answer).cmds;
            forall i :: 0 <= i < NumServos ==> TorqueAfter(torque, cmds[..NumServos])[i]
    ensures var cmds := Connect(b, portOpens, answer).cmds;
            forall i :: 0 <= i < NumServos ==> !TorqueAfter(torque, cmds)[i]
  {
    var f := Follower.Connect(b, portOpens, answer);
    var b1 := f.bus;
    var cmds := Connect(b, portOpens, answer).cmds;
    var load := EnableTorque(b1, answer);
    var unload := DisableTorque(b1, answer);
    assert f.cmds == load.0 && load.1.Ok?;
    assert cmds == load.0 + unload.0 && unload.1.Ok?;
    assert cmds[..NumServos] == load.0;
    EnableTorqueHoldsAll(b1, answer, torque);
    TorqueAfterAppend(torque, load.0, unload.0);
    DisableTorqueReleasesAll(b1, answer, TorqueAfter(torque, load.0));
  }

  /** `get_action()`: the follower's observation, unchanged. */
  method GetAction(b: Bus, replies: seq<Result<seq<int>>>)
    returns (b': Bus, cmds: seq<Command>, r: Result<seq<(string, real)>>)
    requires |replies| == MaxTries
    ensures b'.config == b.config && b'.transport == b.transport
    ensures b.transport.Some? && FirstGood(replies).Some? ==>
              r == Ok(Follower.Rename(Named(replies[FirstGood(replies).value].value)))
    ensures b.transport.None? || FirstGood(replies).None? ==> r.Err?
  {
    b', cmds, r := Follower.GetObservation(b, replies);
  }

  /** `send_feedback()`: always refused. */
  function SendFeedback(feedback: seq<(string, real)>): (r: Result<()>)
    ensures r.Err? && r.error == NotImplemented
  {
    Err(NotImplemented)
  }

  /** `move_to_default_position(task)`: home through the follower, then release every
      servo. */
  function MoveToDefault(b: Bus, task: string, answer: Answer): (r: (Bus, seq<Command>, Result<()>))
    requires b.config.maxRelativeTarget.None?
    ensures var home := Follower.MoveToDefault(b, task, answer);
            && (home.2.Err? ==> r == home)
            && (home.2.Ok? ==> r.0 == home.0 && |home.1| <= |r.1| && r.1[..|home.1|] == home.1)
            && (home.2.Ok? && b.transport.Some? && Answered(UnloadAll(MotorIds), answer) ==>
                  r == (home.0, home.1 + UnloadAll(MotorIds), Ok(())))
  {
    var home := Follower.MoveToDefault(b, task, answer);
    if home.2.Err? then home
    else
      var d := DisableTorque(home.0, answer);
      assert (home.1 + d.0)[..|home.1|] == home.1;
      DisableTorqueAnswered(home.0, answer);
      (home.0, home.1 + d.0, d.1)
  }

  /** Only `run` and the final `unload`s touch the servos' torque, and `run` leaves it
      alone: after homing, every servo is limp. */
  lemma MoveToDefaultLeavesServosLimp(b: Bus, task: string, answer: Answer, torque: seq<bool>)
    requires b.config.maxRelativeTarget.None? && |torque| == NumServos
    requires MoveToDefault(b, task, answer).2.Ok?
    ensures forall i :: 0 <= i < NumServos ==> !TorqueAfter(torque, MoveToDefault(b, task, answer).1)[i]
  {
    var home := Follower.MoveToDefault(b, task, answer);
    var d := DisableTorque(home.0, answer);
    var before := TorqueAfter(torque, home.1);
    TorqueAfterAppend(torque, home.1, d.0);
    DisableTorqueReleasesAll(home.0, answer, before);
  }
}
