/** `XArmBus`: the position cache, the transport and the write/read rules of the arm.

    The bus is an immutable record threaded through the operations; each operation
    returns the commands it issues to the transport, in order. What a transport
    answers to `get_positions` is supplied as one outcome per attempt. */
module PositionBus {
  import opened Wrappers
  import opened Config
  import ServoSerial

  type Command = ServoSerial.Command

  /** The transport `connect` stores in `self.xarm`. The network transports are only
      named: their clients are not part of this model. */
  datatype Transport =
    | Serial(link: ServoSerial.Link)
    | Http(address: string)
    | Socket(address: string)

  datatype Bus = Bus(config: ArmConfig, transport: Option<Transport>, cache: seq<int>)

  /** The value every cache slot starts from. */
  const Unknown := -10

  function Repeat(v: int, n: nat): (r: seq<int>)
    ensures |r| == n && forall i :: 0 <= i < n ==> r[i] == v
  {
    if n == 0 then [] else [v] + Repeat(v, n - 1)
  }

  /** `XArmBus(config)`: not connected, every slot of the cache unknown. */
  function NewBus(config: ArmConfig): (b: Bus)
    ensures b.config == config && b.transport == None
    ensures |b.cache| == if config.numJoints < 0 then 0 else config.numJoints
    ensures forall i :: 0 <= i < |b.cache| ==> b.cache[i] == Unknown
  {
    Bus(config, None, Repeat(Unknown, if config.numJoints < 0 then 0 else config.numJoints))
  }

  // ---------------------------------------------------------------------------
  // connect

  /** The conditions under which `connect` stores a transport. */
  predicate ConnectSucceeds(b: Bus, portOpens: bool) {
    && b.transport.None?
    && (|| (b.config.connectionType == "serial" && portOpens)
        || ((b.config.connectionType == "http" || b.config.connectionType == "websocket")
            && b.config.address.Some? && b.config.address.value != ""))
  }

  /** `connect()`; `portOpens` says whether the serial device can be opened. The
      serial transport is always opened in raw mode. */
  function Connect(b: Bus, portOpens: bool): (r: (Bus, Result<()>, seq<ServoSerial.PortEvent>))
    ensures r.1.Ok? <==> ConnectSucceeds(b, portOpens)
    ensures r.1.Err? ==> r.0 == b
    ensures b.transport.Some? ==> r.1 == Err(AlreadyConnected) && r.2 == []
    ensures r.1.Ok? ==> r.0 == b.(transport := r.0.transport) && r.0.transport.Some?
    ensures r.1.Ok? && b.config.connectionType == "serial" ==>
              r.0.transport == Some(Serial(ServoSerial.Link(b.config.remoteBusServer, b.config.maxReadSize, true)))
              && r.2 == ServoSerial.Handshake(b.config.maxReadSize, true)
    ensures b.config.connectionType != "serial" ==> r.2 == []
  {
    var c := b.config;
    if b.transport.Some? then (b, Err(AlreadyConnected), [])
    else if c.connectionType == "serial" then
      var (link, events) := ServoSerial.Open(portOpens, c.remoteBusServer, c.maxReadSize, true);
      if link.Err? then (b, Err(link.error), events)
      else (b.(transport := Some(Serial(link.value))), Ok(()), events)
    else if c.connectionType == "http" then
      if c.address.None? || c.address.value == "" then (b, Err(ConfigError("Address required for HTTP connection")), [])
      else (b.(transport := Some(Http(c.address.value))), Ok(()), [])
    else if c.connectionType == "websocket" then
      if c.address.None? || c.address.value == "" then (b, Err(ConfigError("Address required for WebSocket connection")), [])
      else (b.(transport := Some(Socket(c.address.value))), Ok(()), [])
    else (b, Err(ConfigError("Unsupported connection type: " + c.connectionType)), [])
  }

  /** A second `connect` after a successful one is refused and changes nothing. */
  lemma ConnectTwice(b: Bus, portOpens: bool, again: bool)
    requires ConnectSucceeds(b, portOpens)
    ensures var b1 := Connect(b, portOpens).0;
            Connect(b1, again) == (b1, Err(AlreadyConnected), [])
  {
  }

  // ---------------------------------------------------------------------------
  // Transport answers

  /** What the transport does with a call: `Ok` when the call returns, the error it
      raises otherwise (over the serial link, an undecodable raw reply or a missing
      prompt). */
  type Answer = Command -> Result<()>

  /** Every call returns. */
  ghost predicate AllAnswer(answer: Answer) {
    forall c :: answer(c).Ok?
  }

  /** Every command sent returned. */
  ghost predicate Answered(cmds: seq<Command>, answer: Answer) {
    forall i :: 0 <= i < |cmds| ==> answer(cmds[i]).Ok?
  }

  lemma AllAnswered(cmds: seq<Command>, answer: Answer)
    requires AllAnswer(answer)
    ensures Answered(cmds, answer)
  {
  }

  /** Calls the transport with `cmds` in order until one raises: the commands sent, the
      raising one included, and the outcome. */
  function SendInOrder(cmds: seq<Command>, answer: Answer): (r: (seq<Command>, Result<()>))
    ensures |r.0| <= |cmds| && r.0 == cmds[..|r.0|]
    ensures r.1.Ok? <==> Answered(cmds, answer)
    ensures r.1.Ok? ==> r.0 == cmds
    ensures r.1.Err? ==> r.0 != [] && r.1 == answer(r.0[|r.0| - 1]) && Answered(r.0[..|r.0| - 1], answer)
    decreases |cmds|
  {
    if cmds == [] then ([], Ok(()))
    else if answer(cmds[0]).Err? then
      assert [cmds[0]][..0] == [];
      ([cmds[0]], answer(cmds[0]))
    else
      var rest := SendInOrder(cmds[1..], answer);
      AnsweredAppend([cmds[0]], cmds[1..], answer);
      assert [cmds[0]] + cmds[1..] == cmds;
      if rest.1.Err? then
        AnsweredAppend([cmds[0]], rest.0[..|rest.0| - 1], answer);
        assert ([cmds[0]] + rest.0)[..|rest.0|] == [cmds[0]] + rest.0[..|rest.0| - 1];
        ([cmds[0]] + rest.0, rest.1)
      else ([cmds[0]] + rest.0, rest.1)
  }

  // ---------------------------------------------------------------------------
  // Torque

  /** The servo ids `enable_torque` and `disable_torque` walk over, in order. */
  const MotorIds: seq<int> := [1, 2, 3, 4, 5, 6]

  lemma MotorIdsInOrder()
    ensures |MotorIds| == NumServos && forall i :: 0 <= i < NumServos ==> MotorIds[i] == i + 1
  {
  }

  function LoadAll(ids: seq<int>): (cmds: seq<Command>)
    ensures |cmds| == |ids| && forall i :: 0 <= i < |ids| ==> cmds[i] == ServoSerial.Load(ids[i])
  {
    if ids == [] then [] else [ServoSerial.Load(ids[0])] + LoadAll(ids[1..])
  }

  function UnloadAll(ids: seq<int>): (cmds: seq<Command>)
    ensures |cmds| == |ids| && forall i :: 0 <= i < |ids| ==> cmds[i] == ServoSerial.Unload(ids[i])
  {
    if ids == [] then [] else [ServoSerial.Unload(ids[0])] + UnloadAll(ids[1..])
  }

  /** `enable_torque()`: `load` for ids 1..6 in order until a call raises; without a
      transport the first call fails and nothing is sent. */
  function EnableTorque(b: Bus, answer: Answer): (r: (seq<Command>, Result<()>))
    ensures b.transport.None? ==> r == ([], Err(NoTransport))
    ensures b.transport.Some? ==> r.0 != [] && |r.0| <= NumServos && r.0 == LoadAll(MotorIds)[..|r.0|]
    ensures r.1.Ok? <==> b.transport.Some? && Answered(LoadAll(MotorIds), answer)
    ensures r.1.Ok? ==> |r.0| == NumServos && forall i :: 0 <= i < NumServos ==> r.0[i] == ServoSerial.Load(i + 1)
    ensures r.1.Err? && b.transport.Some? ==> r.1 == answer(r.0[|r.0| - 1])
  {
    if b.transport.None? then ([], Err(NoTransport))
    else
      MotorIdsInOrder();
      var cmds := LoadAll(MotorIds);
      var r := SendInOrder(cmds, answer);
      r
  }

  /** `disable_torque()`: `unload` for ids 1..6 in order until a call raises. */
  function DisableTorque(b: Bus, answer: Answer): (r: (seq<Command>, Result<()>))
    ensures b.transport.None? ==> r == ([], Err(NoTransport))
    ensures b.transport.Some? ==> r.0 != [] && |r.0| <= NumServos && r.0 == UnloadAll(MotorIds)[..|r.0|]
    ensures r.1.Ok? <==> b.transport.Some? && Answered(UnloadAll(MotorIds), answer)
    ensures r.1.Ok? ==> |r.0| == NumServos && forall i :: 0 <= i < NumServos ==> r.0[i] == ServoSerial.Unload(i + 1)
    ensures r.1.Err? && b.transport.Some? ==> r.1 == answer(r.0[|r.0| - 1])
  {
    if b.transport.None? then ([], Err(NoTransport))
    else
      MotorIdsInOrder();
      var cmds := UnloadAll(MotorIds);
      var r := SendInOrder(cmds, answer);
      r
  }

  /** When every `unload` returns, `disable_torque` sends all six. */
  lemma DisableTorqueAnswered(b: Bus, answer: Answer)
    ensures b.transport.Some? && Answered(UnloadAll(MotorIds), answer) ==>
              DisableTorque(b, answer) == (UnloadAll(MotorIds), Ok(()))
  {
    if b.transport.Some? && Answered(UnloadAll(MotorIds), answer) {
      var r := DisableTorque(b, answer);
      var u := UnloadAll(MotorIds);
      assert |r.0| == |u|;
      assert u[..|u|] == u;
      assert r.0 == u;
      assert r.1.Ok?;
      match r.1.value {
        case () =>
      }
    }
  }

  /** Whether each servo holds its position (`load`) or is limp (`unload`), as the
      firmware keeps it: slot `i` is servo `i + 1`. */
  function TorqueAfter(torque: seq<bool>, cmds: seq<Command>): (t: seq<bool>)
    ensures |t| == |torque|
    decreases |cmds|
  {
    if cmds == [] then torque
    else
      var c := cmds[|cmds| - 1];
      var before := TorqueAfter(torque, cmds[..|cmds| - 1]);
      if (c.Load? || c.Unload?) && 1 <= c.id <= |before| then before[c.id - 1 := c.Load?]
      else before
  }

  /** Commands act in order: the state after `a + b` is `b` applied to the state after `a`. */
  lemma {:induction false} TorqueAfterAppend(torque: seq<bool>, a: seq<Command>, b: seq<Command>)
    ensures TorqueAfter(torque, a + b) == TorqueAfter(TorqueAfter(torque, a), b)
    decreases |b|
  {
    if b == [] {
      assert a + b == a;
    } else {
      var ab := a + b;
      assert ab[..|ab| - 1] == a + b[..|b| - 1];
      assert ab[|ab| - 1] == b[|b| - 1];
      TorqueAfterAppend(torque, a, b[..|b| - 1]);
    }
  }

  /** The last command acts on the state the others left. */
  lemma TorqueAfterSnoc(torque: seq<bool>, cmds: seq<Command>, c: Command)
    ensures var before := TorqueAfter(torque, cmds);
            TorqueAfter(torque, cmds + [c]) ==
              if (c.Load? || c.Unload?) && 1 <= c.id <= |before| then before[c.id - 1 := c.Load?] else before
  {
    assert (cmds + [c])[..|cmds|] == cmds;
  }

  lemma {:induction false} TorqueAfterLoads(torque: seq<bool>, n: nat)
    requires n <= NumServos == |torque|
    ensures forall i :: 0 <= i < n ==> TorqueAfter(torque, LoadAll(MotorIds[..n]))[i]
    ensures forall i :: n <= i < NumServos ==> TorqueAfter(torque, LoadAll(MotorIds[..n]))[i] == torque[i]
  {
    if n > 0 {
      TorqueAfterLoads(torque, n - 1);
      var pre := LoadAll(MotorIds[..n - 1]);
      assert LoadAll(MotorIds[..n]) == pre + [ServoSerial.Load(n)];
      TorqueAfterSnoc(torque, pre, ServoSerial.Load(n));
    }
  }

  lemma {:induction false} TorqueAfterUnloads(torque: seq<bool>, n: nat)
    requires n <= NumServos == |torque|
    ensures forall i :: 0 <= i < n ==> !TorqueAfter(torque, UnloadAll(MotorIds[..n]))[i]
    ensures forall i :: n <= i < NumServos ==> TorqueAfter(torque, UnloadAll(MotorIds[..n]))[i] == torque[i]
  {
    if n > 0 {
      TorqueAfterUnloads(torque, n - 1);
      var pre := UnloadAll(MotorIds[..n - 1]);
      assert UnloadAll(MotorIds[..n]) == pre + [ServoSerial.Unload(n)];
      TorqueAfterSnoc(torque, pre, ServoSerial.Unload(n));
    }
  }

  /** Whatever state the servos were in, `enable_torque` leaves all six holding. */
  lemma EnableTorqueHoldsAll(b: Bus, answer: Answer, torque: seq<bool>)
    requires EnableTorque(b, answer).1.Ok? && |torque| == NumServos
    ensures forall i :: 0 <= i < NumServos ==> TorqueAfter(torque, EnableTorque(b, answer).0)[i]
  {
    TorqueAfterLoads(torque, NumServos);
    assert MotorIds[..NumServos] == MotorIds;
  }

  /** Whatever state the servos were in, `disable_torque` leaves all six limp. */
  lemma DisableTorqueReleasesAll(b: Bus, answer: Answer, torque: seq<bool>)
    requires DisableTorque(b, answer).1.Ok? && |torque| == NumServos
    ensures forall i :: 0 <= i < NumServos ==> !TorqueAfter(torque, DisableTorque(b, answer).0)[i]
  {
    TorqueAfterUnloads(torque, NumServos);
    assert MotorIds[..NumServos] == MotorIds;
  }

  // ---------------------------------------------------------------------------
  // write_positions

  function Abs(x: int): int {
    if x < 0 then -x else x
  }

  /** `max(lo, min(hi, x))`. */
  function Clamp(lo: int, hi: int, x: real): (r: real)
    ensures lo <= hi ==> lo as real <= r <= hi as real
    ensures lo as real <= x <= hi as real ==> r == x
  {
    var m := if x < hi as real then x else hi as real;
    if m > lo as real then m else lo as real
  }

  /** Python's `int()` of a float: truncation toward zero. */
  function Trunc(x: real): int {
    if x >= 0.0 then x.Floor else -((-x).Floor)
  }

  /** For the non-negative values the joint limits allow, truncation is the floor. */
  lemma TruncIsFloor(x: real)
    requires x >= 0.0
    ensures Trunc(x) == x.Floor
    ensures Trunc(x) as real <= x < Trunc(x) as real + 1.0
  {
  }

  /** The position sent for a requested `x`: clamped to the limits, then truncated. */
  function Target(lim: Limits, x: real): (t: int)
    ensures lim.min <= lim.max ==> lim.min <= t <= lim.max
    ensures lim.min <= lim.max && lim.min as real <= x <= lim.max as real && x >= 0.0 ==> t == x.Floor
  {
    var c := Clamp(lim.min, lim.max, x);
    if c >= 0.0 then c.Floor else -((-c).Floor)
  }

  /** A Python float: a finite value, or one of IEEE 754's non-finite values. Only the
      comparisons `min` and `max` make are modelled. */
  datatype Float = Finite(v: real) | NaN | PosInf | NegInf

  /** IEEE 754 `a < b`: false whenever either side is NaN. */
  predicate Less(a: Float, b: Float) {
    match (a, b)
    case (NaN, _) => false
    case (_, NaN) => false
    case (NegInf, NegInf) => false
    case (NegInf, _) => true
    case (_, PosInf) => !a.PosInf?
    case (PosInf, _) => false
    case (_, NegInf) => false
    case (Finite(x), Finite(y)) => x < y
  }

  /** Python's two-argument `min`: a later argument replaces the first only when it
      compares strictly less. */
  function PyMin(a: Float, b: Float): Float {
    if Less(b, a) then b else a
  }

  /** Python's two-argument `max`: a later argument replaces the first only when the
      first compares strictly less. */
  function PyMax(a: Float, b: Float): Float {
    if Less(a, b) then b else a
  }

  /** `max(lo, min(hi, x))` on a Python float; the limits are integers. */
  function ClampFloat(lo: int, hi: int, x: Float): (r: Float)
    ensures r.Finite?
    ensures lo <= hi ==> lo as real <= r.v <= hi as real
    ensures x.NaN? || x.PosInf? ==> r == Finite(if lo < hi then hi as real else lo as real)
    ensures x.NegInf? ==> r == Finite(lo as real)
  {
    PyMax(Finite(lo as real), PyMin(Finite(hi as real), x))
  }

  /** The position sent for a requested float: clamped to the limits, then truncated.
      The clamp never yields a non-finite value, so `int()` never raises. */
  function TargetFloat(lim: Limits, x: Float): (t: int)
    ensures lim.min <= lim.max ==> lim.min <= t <= lim.max
    ensures lim.min <= lim.max && (x.NaN? || x.PosInf?) ==> t == lim.max
    ensures x.NegInf? ==> t == lim.min
  {
    Trunc(ClampFloat(lim.min, lim.max, x).v)
  }

  /** On finite floats the float clamp is the real-valued one, so the rest of the model
      can take positions as reals. */
  lemma TargetFloatFinite(lim: Limits, x: real)
    ensures ClampFloat(lim.min, lim.max, Finite(x)) == Finite(Clamp(lim.min, lim.max, x))
    ensures TargetFloat(lim, Finite(x)) == Target(lim, x)
  {
  }

  /** The cache slot of a known joint. */
  function SlotOf(name: string): int
    requires MotorIdOf(name).Some?
  {
    MotorIdOf(name).value - 1
  }

  /** The target of a known joint. */
  function TargetOf(name: string, x: real): (t: int)
    requires MotorIdOf(name).Some?
    ensures LimitsOf(name).value.min <= t <= LimitsOf(name).value.max
  {
    Target(LimitsOf(name).value, x)
  }

  /** A command `run` may carry: a servo id and a position within that joint's limits. */
  predicate RunWithinLimits(c: Command) {
    && c.Run?
    && IsServoId(c.id)
    && LimitsOf(NameOfMotor(c.id).value).value.min <= c.p <= LimitsOf(NameOfMotor(c.id).value).value.max
  }

  datatype WriteOutcome = WriteOutcome(cache: seq<int>, cmds: seq<Command>, result: Result<()>)


  /** Whether the write of `x` to joint `name` passes the dead-band of the cache. */
  predicate Issues(cache: seq<int>, name: string, x: real, tol: int)
    requires MotorIdOf(name).Some? && SlotOf(name) < |cache|
  {
    Abs(cache[SlotOf(name)] - TargetOf(name, x)) > tol
  }

  /** One entry of `write_positions`: look up the servo and the limits, clamp, compare
      with the cache, and `run` only outside the dead-band. The cache records the
      target only once `run` has returned; a raising `run` was still sent. */
  function WriteEntry(cache: seq<int>, name: string, x: real, runtime: Option<int>, tol: int, connected: bool,
                      answer: Answer)
    : (r: WriteOutcome)
    ensures MotorIdOf(name).None? ==> r == WriteOutcome(cache, [], Err(KeyError(name)))
    ensures MotorIdOf(name).Some? && SlotOf(name) >= |cache| ==> r == WriteOutcome(cache, [], Err(IndexError))
    ensures MotorIdOf(name).Some? && SlotOf(name) < |cache| ==>
              var run := ServoSerial.Run(SlotOf(name) + 1, TargetOf(name, x), runtime);
              if !Issues(cache, name, x, tol) then r == WriteOutcome(cache, [], Ok(()))
              else if !connected then r == WriteOutcome(cache, [], Err(NoTransport))
              else if answer(run).Err? then r == WriteOutcome(cache, [run], answer(run))
              else r == WriteOutcome(cache[SlotOf(name) := TargetOf(name, x)], [run], Ok(()))
  {
    var id := MotorIdOf(name);
    if id.None? then WriteOutcome(cache, [], Err(KeyError(name)))
    else
      var lim := LimitsOf(name).value;
      var pos := Target(lim, x);
      var slot := id.value - 1;
      if slot >= |cache| then WriteOutcome(cache, [], Err(IndexError))
      else if Abs(cache[slot] - pos) > tol then
        var run := ServoSerial.Run(id.value, pos, runtime);
        if !connected then WriteOutcome(cache, [], Err(NoTransport))
        else if answer(run).Err? then WriteOutcome(cache, [run], answer(run))
        else WriteOutcome(cache[slot := pos], [run], Ok(()))
      else WriteOutcome(cache, [], Ok(()))
  }

  /** `write_positions(positions, servo_runtime, pos_tol)` over the entries of the dict
      in order; the first failing entry stops the loop, keeping what came before. */
  function WriteAll(cache: seq<int>, entries: seq<(string, real)>, runtime: Option<int>, tol: int, connected: bool,
                    answer: Answer)
    : (r: WriteOutcome)
    ensures |r.cache| == |cache|
    ensures forall i :: 0 <= i < |r.cmds| ==> RunWithinLimits(r.cmds[i]) && r.cmds[i].runtime == runtime
    ensures |r.cmds| <= |entries|
    ensures !connected ==> r.cmds == [] && r.cache == cache
    decreases |entries|
  {
    if entries == [] then WriteOutcome(cache, [], Ok(()))
    else
      var first := WriteEntry(cache, entries[0].0, entries[0].1, runtime, tol, connected, answer);
      if first.result.Err? then first
      else
        var rest := WriteAll(first.cache, entries[1..], runtime, tol, connected, answer);
        WriteOutcome(rest.cache, first.cmds + rest.cmds, rest.result)
  }

  /** `write_positions` on the bus: the cache is updated, the commands go to the
      transport. */
  function WritePositions(b: Bus, entries: seq<(string, real)>, runtime: Option<int>, tol: int, answer: Answer)
    : (r: (Bus, seq<Command>, Result<()>))
    ensures r.0.config == b.config && r.0.transport == b.transport && |r.0.cache| == |b.cache|
    ensures forall i :: 0 <= i < |r.1| ==> RunWithinLimits(r.1[i])
  {
    var w := WriteAll(b.cache, entries, runtime, tol, b.transport.Some?, answer);
    (b.(cache := w.cache), w.cmds, w.result)
  }

  // ---------------------------------------------------------------------------
  // Properties of write_positions

  /** The entries name distinct, known joints whose slots the cache has. */
  predicate WellFormed(cache: seq<int>, entries: seq<(string, real)>) {
    && (forall k :: 0 <= k < |entries| ==> MotorIdOf(entries[k].0).Some? && SlotOf(entries[k].0) < |cache|)
    && (forall k, l :: 0 <= k < l < |entries| ==> entries[k].0 != entries[l].0)
  }

  /** No entry names the joint of slot `j`. */
  predicate Untargeted(entries: seq<(string, real)>, j: int) {
    forall k :: 0 <= k < |entries| && MotorIdOf(entries[k].0).Some? ==> SlotOf(entries[k].0) != j
  }

  /** Whether servo `id` receives a `run`. */
  predicate Sends(cmds: seq<Command>, id: int) {
    exists i :: 0 <= i < |cmds| && cmds[i].Run? && cmds[i].id == id
  }

  lemma SendsAppend(a: seq<Command>, b: seq<Command>, id: int)
    ensures Sends(a + b, id) <==> Sends(a, id) || Sends(b, id)
  {
    if Sends(a + b, id) {
      var i :| 0 <= i < |a + b| && (a + b)[i].Run? && (a + b)[i].id == id;
      if i >= |a| {
        assert b[i - |a|] == (a + b)[i];
      }
    }
    if Sends(a, id) {
      var i :| 0 <= i < |a| && a[i].Run? && a[i].id == id;
      assert (a + b)[i] == a[i];
    }
    if Sends(b, id) {
      var i :| 0 <= i < |b| && b[i].Run? && b[i].id == id;
      assert (a + b)[|a| + i] == b[i];
    }
  }

  lemma WellFormedTail(cache: seq<int>, cache2: seq<int>, entries: seq<(string, real)>)
    requires WellFormed(cache, entries) && |entries| >= 1 && |cache2| == |cache|
    ensures WellFormed(cache2, entries[1..])
    ensures Untargeted(entries[1..], SlotOf(entries[0].0))
  {
    forall k, l | 0 <= k < l < |entries[1..]|
      ensures entries[1..][k].0 != entries[1..][l].0
    {
      assert entries[1..][k] == entries[k + 1] && entries[1..][l] == entries[l + 1];
    }
    forall k | 0 <= k < |entries[1..]| && MotorIdOf(entries[1..][k].0).Some?
      ensures SlotOf(entries[1..][k].0) != SlotOf(entries[0].0)
    {
      assert entries[1..][k] == entries[k + 1];
      MotorIdsDistinct(entries[0].0, entries[k + 1].0);
    }
  }

  /** A slot no entry names keeps its value and its servo receives no `run`. */
  lemma {:induction false} WriteAllUntargeted(cache: seq<int>, entries: seq<(string, real)>, runtime: Option<int>,
                                              tol: int, connected: bool, answer: Answer, j: int)
    requires 0 <= j < |cache| && Untargeted(entries, j)
    ensures WriteAll(cache, entries, runtime, tol, connected, answer).cache[j] == cache[j]
    ensures !Sends(WriteAll(cache, entries, runtime, tol, connected, answer).cmds, j + 1)
    decreases |entries|
  {
    if entries != [] {
      var first := WriteEntry(cache, entries[0].0, entries[0].1, runtime, tol, connected, answer);
      if first.result.Ok? {
        assert Untargeted(entries[1..], j) by {
          forall k | 0 <= k < |entries[1..]| && MotorIdOf(entries[1..][k].0).Some?
            ensures SlotOf(entries[1..][k].0) != j
          {
            assert entries[1..][k] == entries[k + 1];
          }
        }
        WriteAllUntargeted(first.cache, entries[1..], runtime, tol, connected, answer, j);
        SendsAppend(first.cmds, WriteAll(first.cache, entries[1..], runtime, tol, connected, answer).cmds, j + 1);
      }
    }
  }

  /** With distinct known joints whose slots the cache has, a connected bus writes every
      entry. */
  lemma {:induction false} WriteAllOk(cache: seq<int>, entries: seq<(string, real)>, runtime: Option<int>, tol: int,
                                      answer: Answer)
    requires WellFormed(cache, entries) && AllAnswer(answer)
    ensures WriteAll(cache, entries, runtime, tol, true, answer).result.Ok?
    decreases |entries|
  {
    if entries != [] {
      var first := WriteEntry(cache, entries[0].0, entries[0].1, runtime, tol, true, answer);
      WellFormedTail(cache, first.cache, entries);
      WriteAllOk(first.cache, entries[1..], runtime, tol, answer);
    }
  }

  lemma AnsweredAppend(a: seq<Command>, b: seq<Command>, answer: Answer)
    ensures Answered(a + b, answer) <==> Answered(a, answer) && Answered(b, answer)
    ensures b != [] ==> (a + b)[..|a + b| - 1] == a + b[..|b| - 1] && (a + b)[|a + b| - 1] == b[|b| - 1]
  {
    if Answered(a + b, answer) {
      forall i | 0 <= i < |b|
        ensures answer(b[i]).Ok?
      {
        assert (a + b)[|a| + i] == b[i];
      }
      forall i | 0 <= i < |a|
        ensures answer(a[i]).Ok?
      {
        assert (a + b)[i] == a[i];
      }
    }
    if Answered(a, answer) && Answered(b, answer) {
      forall i | 0 <= i < |a + b|
        ensures answer((a + b)[i]).Ok?
      {
        if i >= |a| {
          assert (a + b)[i] == b[i - |a|];
        }
      }
    }
  }

  /** On a known joint of a connected bus an entry fails exactly when the one `run` it
      sent raised. */
  lemma WriteEntryOutcome(cache: seq<int>, name: string, x: real, runtime: Option<int>, tol: int, answer: Answer)
    requires MotorIdOf(name).Some? && SlotOf(name) < |cache|
    ensures var r := WriteEntry(cache, name, x, runtime, tol, true, answer);
            && |r.cmds| <= 1 && |r.cache| == |cache|
            && (r.result.Ok? <==> Answered(r.cmds, answer))
            && (r.result.Err? ==> |r.cmds| == 1 && r.result == answer(r.cmds[0]))
  {
    var r := WriteEntry(cache, name, x, runtime, tol, true, answer);
    if r.cmds != [] {
      assert Answered(r.cmds, answer) <==> answer(r.cmds[0]).Ok?;
    }
  }

  /** The outcome fails exactly when a command raised, and that command is the last one
      sent, every earlier one having returned; the error is the one it raised. */
  ghost predicate FailsAtLast(r: WriteOutcome, answer: Answer) {
    && (r.result.Ok? <==> Answered(r.cmds, answer))
    && (r.result.Err? ==> r.cmds != [] && r.result == answer(r.cmds[|r.cmds| - 1])
                          && Answered(r.cmds[..|r.cmds| - 1], answer))
  }

  /** Commands that all returned, sent ahead of an outcome that fails at its last
      command, keep it failing at its last command. */
  lemma FailsAtLastAfter(cmds: seq<Command>, r: WriteOutcome, answer: Answer)
    requires Answered(cmds, answer) && FailsAtLast(r, answer)
    ensures FailsAtLast(WriteOutcome(r.cache, cmds + r.cmds, r.result), answer)
  {
    AnsweredAppend(cmds, r.cmds, answer);
    if r.result.Err? {
      AnsweredAppend(cmds, r.cmds[..|r.cmds| - 1], answer);
    }
  }

  /** On well-formed entries of a connected bus the write fails exactly when a `run`
      raised, and that `run` is the last command sent, whose error is returned. */
  lemma {:induction false} WriteAllFails(cache: seq<int>, entries: seq<(string, real)>, runtime: Option<int>,
                                         tol: int, answer: Answer)
    requires WellFormed(cache, entries)
    ensures FailsAtLast(WriteAll(cache, entries, runtime, tol, true, answer), answer)
    decreases |entries|
  {
    if entries == [] {
      assert WriteAll(cache, entries, runtime, tol, true, answer).cmds == [];
    } else {
      var first := WriteEntry(cache, entries[0].0, entries[0].1, runtime, tol, true, answer);
      WriteEntryOutcome(cache, entries[0].0, entries[0].1, runtime, tol, answer);
      if first.result.Ok? {
        var rest := WriteAll(first.cache, entries[1..], runtime, tol, true, answer);
        WellFormedTail(cache, first.cache, entries);
        WriteAllFails(first.cache, entries[1..], runtime, tol, answer);
        FailsAtLastAfter(first.cmds, rest, answer);
      } else {
        assert first.cmds[..0] == [];
        assert FailsAtLast(first, answer);
      }
    }
  }

  /** A slot one entry changes holds the position of the one `run` it sent, which
      returned; a failing entry changes nothing. */
  lemma WriteEntryAcknowledged(cache: seq<int>, name: string, x: real, runtime: Option<int>, tol: int,
                               connected: bool, answer: Answer, j: int)
    requires 0 <= j < |cache|
    ensures var e := WriteEntry(cache, name, x, runtime, tol, connected, answer);
            && |e.cache| == |cache|
            && (e.result.Err? ==> e.cache == cache)
            && (e.cache[j] != cache[j] ==>
                  e.cmds == [ServoSerial.Run(j + 1, e.cache[j], runtime)] && answer(e.cmds[0]).Ok?)
  {
  }

  /** Whatever the transport answers, every slot the write changed holds the position of
      a `run` that was sent to its servo and returned: the cache only records
      acknowledged positions. */
  lemma {:induction false} WriteAllAcknowledged(cache: seq<int>, entries: seq<(string, real)>, runtime: Option<int>,
                                                tol: int, connected: bool, answer: Answer, j: int)
    requires 0 <= j < |cache|
    ensures var r := WriteAll(cache, entries, runtime, tol, connected, answer);
            r.cache[j] != cache[j] ==>
              ServoSerial.Run(j + 1, r.cache[j], runtime) in r.cmds
              && answer(ServoSerial.Run(j + 1, r.cache[j], runtime)).Ok?
    decreases |entries|
  {
    var r := WriteAll(cache, entries, runtime, tol, connected, answer);
    if entries != [] && r.cache[j] != cache[j] {
      var first := WriteEntry(cache, entries[0].0, entries[0].1, runtime, tol, connected, answer);
      WriteEntryAcknowledged(cache, entries[0].0, entries[0].1, runtime, tol, connected, answer, j);
      assert first.result.Ok?;
      var rest := WriteAll(first.cache, entries[1..], runtime, tol, connected, answer);
      assert r == WriteOutcome(rest.cache, first.cmds + rest.cmds, rest.result);
      WriteAllAcknowledged(first.cache, entries[1..], runtime, tol, connected, answer, j);
    }
  }

  /** Each entry is decided against the cache as it was before the call: its slot ends
      at the target when the target was outside the dead-band, and keeps its value
      otherwise. */
  lemma {:induction false} WriteAllSlot(cache: seq<int>, entries: seq<(string, real)>, runtime: Option<int>,
                                        tol: int, answer: Answer, k: int)
    requires WellFormed(cache, entries) && AllAnswer(answer) && 0 <= k < |entries|
    ensures WriteAll(cache, entries, runtime, tol, true, answer).cache[SlotOf(entries[k].0)] ==
              if Issues(cache, entries[k].0, entries[k].1, tol) then TargetOf(entries[k].0, entries[k].1)
              else cache[SlotOf(entries[k].0)]
    decreases |entries|
  {
    var first := WriteEntry(cache, entries[0].0, entries[0].1, runtime, tol, true, answer);
    WellFormedTail(cache, first.cache, entries);
    if k == 0 {
      WriteAllUntargeted(first.cache, entries[1..], runtime, tol, true, answer, SlotOf(entries[0].0));
    } else {
      assert entries[1..][k - 1] == entries[k];
      assert SlotOf(entries[k].0) != SlotOf(entries[0].0) by {
        MotorIdsDistinct(entries[0].0, entries[k].0);
      }
      WriteAllSlot(first.cache, entries[1..], runtime, tol, answer, k - 1);
    }
  }

  /** When every call returns, one entry of a connected bus writes its target exactly
      when it is outside the dead-band. */
  lemma WriteEntryAnswered(cache: seq<int>, name: string, x: real, runtime: Option<int>, tol: int,
                           answer: Answer)
    requires MotorIdOf(name).Some? && SlotOf(name) < |cache| && AllAnswer(answer)
    ensures WriteEntry(cache, name, x, runtime, tol, true, answer)
            == if Issues(cache, name, x, tol)
               then WriteOutcome(cache[SlotOf(name) := TargetOf(name, x)],
                                 [ServoSerial.Run(SlotOf(name) + 1, TargetOf(name, x), runtime)], Ok(()))
               else WriteOutcome(cache, [], Ok(()))
  {
    assert answer(ServoSerial.Run(SlotOf(name) + 1, TargetOf(name, x), runtime)).Ok?;
  }

  /** An entry neither sends to another joint's servo nor moves that joint's dead-band. */
  lemma WriteEntryElsewhere(cache: seq<int>, name: string, x: real, runtime: Option<int>, tol: int,
                            answer: Answer, other: string, y: real)
    requires MotorIdOf(name).Some? && SlotOf(name) < |cache| && AllAnswer(answer)
    requires MotorIdOf(other).Some? && SlotOf(other) < |cache| && SlotOf(other) != SlotOf(name)
    ensures var e := WriteEntry(cache, name, x, runtime, tol, true, answer);
            && !Sends(e.cmds, SlotOf(other) + 1)
            && (Issues(e.cache, other, y, tol) <==> Issues(cache, other, y, tol))
  {
    WriteEntryAnswered(cache, name, x, runtime, tol, answer);
    var e := WriteEntry(cache, name, x, runtime, tol, true, answer);
    assert e.cache[SlotOf(other)] == cache[SlotOf(other)];
  }

  /** On well-formed entries the first write succeeds and the rest continue from its
      cache. */
  lemma WriteAllCons(cache: seq<int>, entries: seq<(string, real)>, runtime: Option<int>, tol: int, answer: Answer)
    requires WellFormed(cache, entries) && AllAnswer(answer) && entries != []
    ensures var first := WriteEntry(cache, entries[0].0, entries[0].1, runtime, tol, true, answer);
            var rest := WriteAll(first.cache, entries[1..], runtime, tol, true, answer);
            && first.result.Ok?
            && WriteAll(cache, entries, runtime, tol, true, answer) == WriteOutcome(rest.cache, first.cmds + rest.cmds, rest.result)
  {
    WriteEntryAnswered(cache, entries[0].0, entries[0].1, runtime, tol, answer);
  }

  /** A servo receives `run` exactly when its entry's target was outside the dead-band
      of the cache as it was before the call. */
  lemma {:induction false} WriteAllSends(cache: seq<int>, entries: seq<(string, real)>, runtime: Option<int>,
                                         tol: int, answer: Answer, k: int)
    requires WellFormed(cache, entries) && AllAnswer(answer) && 0 <= k < |entries|
    ensures (Sends(WriteAll(cache, entries, runtime, tol, true, answer).cmds, SlotOf(entries[k].0) + 1)
             <==> Issues(cache, entries[k].0, entries[k].1, tol))
    decreases |entries|
  {
    var first := WriteEntry(cache, entries[0].0, entries[0].1, runtime, tol, true, answer);
    var rest := WriteAll(first.cache, entries[1..], runtime, tol, true, answer);
    var id := SlotOf(entries[k].0) + 1;
    WriteEntryAnswered(cache, entries[0].0, entries[0].1, runtime, tol, answer);
    WriteAllCons(cache, entries, runtime, tol, answer);
    WellFormedTail(cache, first.cache, entries);
    SendsAppend(first.cmds, rest.cmds, id);
    if k == 0 {
      WriteAllSendsFirst(cache, entries, runtime, tol, answer);
    } else {
      assert entries[1..][k - 1] == entries[k];
      MotorIdsDistinct(entries[0].0, entries[k].0);
      WriteEntryElsewhere(cache, entries[0].0, entries[0].1, runtime, tol, answer, entries[k].0, entries[k].1);
      WriteAllSends(first.cache, entries[1..], runtime, tol, answer, k - 1);
    }
  }

  /** The first entry's servo is sent to by the first write alone. */
  lemma WriteAllSendsFirst(cache: seq<int>, entries: seq<(string, real)>, runtime: Option<int>, tol: int,
                           answer: Answer)
    requires WellFormed(cache, entries) && AllAnswer(answer) && entries != []
    ensures var first := WriteEntry(cache, entries[0].0, entries[0].1, runtime, tol, true, answer);
            var rest := WriteAll(first.cache, entries[1..], runtime, tol, true, answer);
            var id := SlotOf(entries[0].0) + 1;
            && !Sends(rest.cmds, id)
            && (Sends(first.cmds, id) <==> Issues(cache, entries[0].0, entries[0].1, tol))
  {
    var first := WriteEntry(cache, entries[0].0, entries[0].1, runtime, tol, true, answer);
    WellFormedTail(cache, first.cache, entries);
    WriteAllUntargeted(first.cache, entries[1..], runtime, tol, true, answer, SlotOf(entries[0].0));
    if Issues(cache, entries[0].0, entries[0].1, tol) {
      assert first.cmds[0].Run? && first.cmds[0].id == SlotOf(entries[0].0) + 1;
    }
  }

  /** Entries all inside the dead-band change nothing and send nothing. */
  lemma {:induction false} WriteAllQuiet(cache: seq<int>, entries: seq<(string, real)>, runtime: Option<int>,
                                         tol: int, connected: bool, answer: Answer)
    requires WellFormed(cache, entries)
    requires forall k :: 0 <= k < |entries| ==> !Issues(cache, entries[k].0, entries[k].1, tol)
    ensures WriteAll(cache, entries, runtime, tol, connected, answer) == WriteOutcome(cache, [], Ok(()))
    decreases |entries|
  {
    if entries != [] {
      WellFormedTail(cache, cache, entries);
      forall k | 0 <= k < |entries[1..]|
        ensures !Issues(cache, entries[1..][k].0, entries[1..][k].1, tol)
      {
        assert entries[1..][k] == entries[k + 1];
      }
      WriteAllQuiet(cache, entries[1..], runtime, tol, connected, answer);
    }
  }

  /** Writing the same positions twice with a non-negative tolerance: the second call
      sends nothing and leaves the cache as the first call left it. */
  lemma WriteTwiceIsQuiet(cache: seq<int>, entries: seq<(string, real)>, runtime: Option<int>, tol: int,
                          answer: Answer)
    requires WellFormed(cache, entries) && AllAnswer(answer) && tol >= 0
    ensures var once := WriteAll(cache, entries, runtime, tol, true, answer);
            WriteAll(once.cache, entries, runtime, tol, true, answer) == WriteOutcome(once.cache, [], Ok(()))
  {
    var once := WriteAll(cache, entries, runtime, tol, true, answer);
    assert WellFormed(once.cache, entries);
    forall k | 0 <= k < |entries|
      ensures !Issues(once.cache, entries[k].0, entries[k].1, tol)
    {
      WriteAllSlot(cache, entries, runtime, tol, answer, k);
    }
    WriteAllQuiet(once.cache, entries, runtime, tol, true, answer);
  }

  /** On a fresh, connected bus every joint's first write is sent when the tolerance is
      below 10: no target lies within the dead-band of the initial -10. */
  lemma FreshBusSendsEveryJoint(config: ArmConfig, t: Transport, entries: seq<(string, real)>,
                                runtime: Option<int>, tol: int, answer: Answer)
    requires WellFormed(NewBus(config).cache, entries) && AllAnswer(answer) && tol < 10
    ensures var r := WritePositions(NewBus(config).(transport := Some(t)), entries, runtime, tol, answer);
            r.2.Ok? && forall k :: 0 <= k < |entries| ==> Sends(r.1, SlotOf(entries[k].0) + 1)
  {
    var cache := NewBus(config).cache;
    WriteAllOk(cache, entries, runtime, tol, answer);
    forall k | 0 <= k < |entries|
      ensures Sends(WriteAll(cache, entries, runtime, tol, true, answer).cmds, SlotOf(entries[k].0) + 1)
    {
      assert Issues(cache, entries[k].0, entries[k].1, tol);
      WriteAllSends(cache, entries, runtime, tol, answer, k);
    }
  }

  // ---------------------------------------------------------------------------
  // read_positions

  /** `@retry(tries=10)`. */
  const MaxTries := 10

  /** An attempt that `read_positions` accepts: the array decoded and every index has a
      joint name (`motorid2name[i + 1]` raises `KeyError` past the sixth). */
  predicate Good(reply: Result<seq<int>>) {
    reply.Ok? && |reply.value| <= NumServos
  }

  /** The first accepted attempt, if any. */
  function FirstGood(replies: seq<Result<seq<int>>>): (r: Option<nat>)
    ensures r.Some? ==> r.value < |replies| && Good(replies[r.value])
    ensures r.Some? ==> forall j :: 0 <= j < r.value ==> !Good(replies[j])
    ensures r.None? ==> forall j :: 0 <= j < |replies| ==> !Good(replies[j])
  {
    if replies == [] then None
    else if Good(replies[0]) then Some(0)
    else
      var r := FirstGood(replies[1..]);
      if r.None? then None else Some(r.value + 1)
  }

  /** The cache after some attempts: every decoded array replaces it, accepted or not. */
  function CacheAfter(cache: seq<int>, replies: seq<Result<seq<int>>>): seq<int>
    decreases |replies|
  {
    if replies == [] then cache
    else if replies[|replies| - 1].Ok? then replies[|replies| - 1].value
    else CacheAfter(cache, replies[..|replies| - 1])
  }

  /** The error a failed attempt raises. */
  function AttemptError(reply: Result<seq<int>>): Error
    requires !Good(reply)
  {
    if reply.Err? then reply.error else KeyError("7")
  }

  /** `{motorid2name[i + 1]: float(pos) for i, pos in enumerate(positions)}`. */
  function Named(xs: seq<int>): (r: seq<(string, real)>)
    requires |xs| <= NumServos
    ensures |r| == |xs|
    ensures forall i :: 0 <= i < |xs| ==> r[i] == (JointNames[i], xs[i] as real)
    ensures forall i :: 0 <= i < |xs| ==> MotorIdOf(r[i].0) == Some(i + 1)
  {
    if xs == [] then []
    else Named(xs[..|xs| - 1]) + [(NameOfMotor(|xs|).value, xs[|xs| - 1] as real)]
  }

  /** `read_positions()` under its retry: `replies[i]` is what the transport's
      `get_positions` gives on attempt `i`. Each attempt that decodes an array
      overwrites the whole cache before its names are looked up; the first accepted
      attempt is returned, and after ten failed attempts the last error is raised. */
  method ReadPositions(b: Bus, replies: seq<Result<seq<int>>>)
    returns (b': Bus, cmds: seq<Command>, r: Result<seq<(string, real)>>)
    requires |replies| == MaxTries
    ensures b'.config == b.config && b'.transport == b.transport
    ensures forall i :: 0 <= i < |cmds| ==> cmds[i] == ServoSerial.GetPositions
    ensures b.transport.None? ==> b' == b && cmds == [] && r == Err(NoTransport)
    ensures b.transport.Some? && FirstGood(replies).Some? ==>
              var k := FirstGood(replies).value;
              && r == Ok(Named(replies[k].value))
              && b'.cache == replies[k].value
              && |cmds| == k + 1
    ensures b.transport.Some? && FirstGood(replies).None? ==>
              && r == Err(AttemptError(replies[MaxTries - 1]))
              && b'.cache == CacheAfter(b.cache, replies)
              && |cmds| == MaxTries
  {
    if b.transport.None? {
      return b, [], Err(NoTransport);
    }
    var cache := b.cache;
    cmds := [];
    var i := 0;
    while i < MaxTries
      invariant 0 <= i <= MaxTries
      invariant |cmds| == i && forall j :: 0 <= j < i ==> cmds[j] == ServoSerial.GetPositions
      invariant forall j :: 0 <= j < i ==> !Good(replies[j])
      invariant cache == CacheAfter(b.cache, replies[..i])
    {
      cmds := cmds + [ServoSerial.GetPositions];
      var reply := replies[i];
      assert replies[..i + 1][..i] == replies[..i];
      if reply.Ok? {
        cache := reply.value;
        if |reply.value| <= NumServos {
          assert FirstGood(replies) == Some(i) by {
            var f := FirstGood(replies);
            if f.None? || f.value != i {
              assert false;
            }
          }
          return b.(cache := cache), cmds, Ok(Named(reply.value));
        }
      }
      i := i + 1;
    }
    assert replies[..MaxTries] == replies;
    return b.(cache := cache), cmds, Err(AttemptError(replies[MaxTries - 1]));
  }
}
