/** The actuator side of the action channel (`run_robot`): it reads the code the planner
    publishes, looks it up in the task table, runs the task and then the recentering
    task while `busy` is set, and clears `busy` afterwards. A task runs a learned policy
    between two homing moves until its time is up or the policy's output looks like a
    finished move. The policy, the clock and the follower's failures are parameters. */
module ActionController {
  import opened Wrappers
  import Text
  import CubeSolver
  import Follower

  /** A task: the instruction given to the policy and its time budget in seconds. */
  datatype Task = Task(name: string, seconds: int)

  /** The code of the task that moves the cube back to the center. */
  const Recenter := 6

  /** `action_id2task_and_time`. */
  function TaskOf(code: int): (r: Option<Task>)
    ensures r.Some? <==> 1 <= code <= Recenter
    ensures r.Some? ==> r.value.seconds > 0
  {
    if code == 1 then Some(Task("Flip the Cube", 20))
    else if code == 2 then Some(Task("Rotate Left Cube", 60))
    else if code == 3 then Some(Task("Rotate Right Cube", 60))
    else if code == 4 then Some(Task("Torn Left Top Cube", 60))
    else if code == 5 then Some(Task("Torn Left Top Cube", 60))
    else if code == 6 then Some(Task("Move Cube to Center", 60))
    else None
  }

  /** Codes 4 and 5 (the two upper rotations) run the same task; the other codes run
      different ones. */
  lemma TaskTableShape()
    ensures TaskOf(4) == TaskOf(5)
    ensures forall c, d :: 1 <= c < d <= Recenter && !(c == 4 && d == 5) ==> TaskOf(c) != TaskOf(d)
  {
  }

  /** The default pose of each task: the gripper opens for flipping and recentering and
      stays closed for the rotations. */
  lemma TaskPoses(code: int)
    requires 1 <= code <= Recenter
    ensures Follower.DefaultPose(TaskOf(code).value.name)[0] == if code == 1 || code == Recenter then 600 else 0
  {
    var name := TaskOf(code).value.name;
    if code == 1 {
      FlipMatched(name);
    } else if code == Recenter {
      CenterMatched(name);
    } else {
      RotationsNotMatched(name);
    }
  }

  lemma FlipMatched(name: string)
    requires name == "Flip the Cube"
    ensures Text.Contains(Text.Lower(name), "flip")
  {
    var t := Text.Lower(name);
    assert t[..4] == "flip";
    Text.ContainsWhenOccurs(t, "flip", 0);
  }

  lemma CenterMatched(name: string)
    requires name == "Move Cube to Center"
    ensures Text.Contains(Text.Lower(name), "move cube to center")
  {
    CenterHead(name);
    CenterTail(name);
    Text.ContainsJoined(Text.Lower(name), "move cube ", "to center", 0);
    assert "move cube " + "to center" == "move cube to center";
  }

  lemma CenterHead(name: string)
    requires name == "Move Cube to Center"
    ensures Text.OccursAt(Text.Lower(name), "move cube ", 0)
  {
    assert Text.Lower(name)[..10] == "move cube ";
  }

  lemma CenterTail(name: string)
    requires name == "Move Cube to Center"
    ensures Text.OccursAt(Text.Lower(name), "to center", 10)
  {
    assert Text.Lower(name)[10..19] == "to center";
  }

  /** The rotation task names contain neither pattern once lower-cased: each lacks a
      letter of each pattern. */
  lemma RotationsNotMatched(name: string)
    requires name == "Rotate Left Cube" || name == "Rotate Right Cube" || name == "Torn Left Top Cube"
    ensures var t := Text.Lower(name);
            !Text.Contains(t, "flip") && !Text.Contains(t, "move cube to center")
  {
    if name == "Rotate Left Cube" {
      RotateLeftNotMatched(name);
    } else if name == "Rotate Right Cube" {
      RotateRightNotMatched(name);
    } else {
      TornLeftNotMatched(name);
    }
  }

  lemma RotateLeftNotMatched(name: string)
    requires name == "Rotate Left Cube"
    ensures !Text.Contains(Text.Lower(name), "flip") && !Text.Contains(Text.Lower(name), "move cube to center")
  {
    LacksM(name);
    LacksFlipLetter(name, 'i', 'I', 2);
  }

  lemma RotateRightNotMatched(name: string)
    requires name == "Rotate Right Cube"
    ensures !Text.Contains(Text.Lower(name), "flip") && !Text.Contains(Text.Lower(name), "move cube to center")
  {
    LacksM(name);
    LacksFlipLetter(name, 'f', 'F', 0);
  }

  lemma TornLeftNotMatched(name: string)
    requires name == "Torn Left Top Cube"
    ensures !Text.Contains(Text.Lower(name), "flip") && !Text.Contains(Text.Lower(name), "move cube to center")
  {
    LacksM(name);
    LacksFlipLetter(name, 'i', 'I', 2);
  }

  lemma LacksM(name: string)
    requires forall i :: 0 <= i < |name| ==> name[i] != 'm' && name[i] != 'M'
    ensures !Text.Contains(Text.Lower(name), "move cube to center")
  {
    Text.LowerAvoids(name, 'm', 'M');
    Text.AbsentCharNotContained(Text.Lower(name), "move cube to center", 0);
  }

  /** A name lacking the letter `c` of `flip`, in either case, does not match `flip`. */
  lemma LacksFlipLetter(name: string, c: char, upper: char, j: nat)
    requires j < 4 && "flip"[j] == c && upper as int == c as int - 32
    requires forall i :: 0 <= i < |name| ==> name[i] != c && name[i] != upper
    ensures !Text.Contains(Text.Lower(name), "flip")
  {
    Text.LowerAvoids(name, c, upper);
    Text.AbsentCharNotContained(Text.Lower(name), "flip", j);
  }

  /** Every code the planner publishes is 0 or names a task of the table other than
      recentering, so the actuator's lookup never fails on the planner's codes. */
  lemma PlannerCodesAreTasks(p: CubeSolver.Planner, busy: bool, estimate: (string, bool) -> string)
    requires p.action == 0 || (TaskOf(p.action).Some? && p.action != Recenter)
    ensures var next := CubeSolver.Tick(p, busy, estimate).0.action;
            next == 0 || (TaskOf(next).Some? && next != Recenter)
  {
  }

  // ---------------------------------------------------------------------------
  // One actuator tick

  /** What the actuator does, in order. */
  datatype Event =
    | Observe
    | SetBusy
    | RunTask(task: Task)
    | ClearBusy
    | Home(name: string)
    | Send(values: seq<real>)

  /** The shared values: the actuator's `busy` flag and the planner's `action` code. */
  datatype Channel = Channel(busy: bool, action: int)

  /** The tasks a trace runs, in order. */
  function Runs(trace: seq<Event>): (r: seq<Task>)
    ensures |r| <= |trace|
  {
    if trace == [] then []
    else (if trace[0].RunTask? then [trace[0].task] else []) + Runs(trace[1..])
  }

  /** The `busy` flag after one event. */
  function BusyStep(busy: bool, e: Event): bool {
    if e.SetBusy? then true else if e.ClearBusy? then false else busy
  }

  /** The `busy` flag after a trace. */
  function BusyAfter(busy: bool, trace: seq<Event>): bool
    decreases |trace|
  {
    if trace == [] then busy else BusyAfter(BusyStep(busy, trace[0]), trace[1..])
  }

  /** Every task in the trace starts while `busy` is set. */
  predicate RunsWhileBusy(busy: bool, trace: seq<Event>)
    decreases |trace|
  {
    trace == [] || ((trace[0].RunTask? ==> busy) && RunsWhileBusy(BusyStep(busy, trace[0]), trace[1..]))
  }

  /** The `finally` clause: `busy` is cleared if it is set. */
  function Finish(ch: Channel, busy: bool, trace: seq<Event>, result: Result<()>): (r: (Channel, seq<Event>, Result<()>))
    ensures r.0 == Channel(false, ch.action) && r.2 == result
    ensures |r.1| >= |trace| && r.1[..|trace|] == trace && Runs(r.1) == Runs(trace)
    ensures RunsWhileBusy(busy, r.1[|trace|..]) && !BusyAfter(busy, r.1[|trace|..])
  {
    var tail: seq<Event> := if busy then [ClearBusy] else [];
    RunsAppend(trace, tail);
    assert (trace + tail)[..|trace|] == trace;
    assert (trace + tail)[|trace|..] == tail;
    (Channel(false, ch.action), trace + tail, result)
  }

  /** One pass of `run_robot`'s loop. `observed` is the outcome of reading the follower
      and `outcome` that of running a task; the loop catches every error, so it is
      reported here and the next pass starts from the returned channel. */
  function Tick(ch: Channel, observed: Result<()>, outcome: Task -> Result<()>): (r: (Channel, seq<Event>, Result<()>))
    ensures r.0 == Channel(false, ch.action)
    ensures |r.1| >= 1
    ensures ch.action == 0 ==> Runs(r.1) == [] && r.2 == observed && r.1[0] == Observe
    ensures ch.action == 0 ==> forall i :: 0 <= i < |r.1| ==> !r.1[i].SetBusy?
    ensures ch.action == 0 ==> r.1 == [Observe] + (if ch.busy then [ClearBusy] else [])
    ensures ch.action != 0 ==> r.1[0] == SetBusy
    ensures ch.action != 0 && TaskOf(ch.action).None? ==>
              Runs(r.1) == [] && r.2 == Err(KeyError(Text.IntToString(ch.action)))
    ensures TaskOf(ch.action).Some? && outcome(TaskOf(ch.action).value).Err? ==>
              Runs(r.1) == [TaskOf(ch.action).value] && r.2 == outcome(TaskOf(ch.action).value)
    ensures TaskOf(ch.action).Some? && outcome(TaskOf(ch.action).value).Ok? ==>
              Runs(r.1) == [TaskOf(ch.action).value, TaskOf(Recenter).value] && r.2 == outcome(TaskOf(Recenter).value)
  {
    var (busy, trace, result) := TickBody(ch, observed, outcome);
    Finish(ch, busy, trace, result)
  }

  /** The `try` block of a pass: the `busy` flag when it ends, what it did, and how it
      ended. */
  function TickBody(ch: Channel, observed: Result<()>, outcome: Task -> Result<()>): (r: (bool, seq<Event>, Result<()>))
    ensures |r.1| >= 1
    ensures RunsWhileBusy(ch.busy, r.1) && BusyAfter(ch.busy, r.1) == r.0
    ensures ch.action == 0 ==> Runs(r.1) == [] && r.2 == observed && r.1[0] == Observe
    ensures ch.action == 0 ==> r.0 == ch.busy && forall i :: 0 <= i < |r.1| ==> !r.1[i].SetBusy?
    ensures ch.action != 0 ==> r.1[0] == SetBusy
    ensures ch.action != 0 && TaskOf(ch.action).None? ==>
              Runs(r.1) == [] && r.2 == Err(KeyError(Text.IntToString(ch.action)))
    ensures TaskOf(ch.action).Some? && outcome(TaskOf(ch.action).value).Err? ==>
              Runs(r.1) == [TaskOf(ch.action).value] && r.2 == outcome(TaskOf(ch.action).value)
    ensures TaskOf(ch.action).Some? && outcome(TaskOf(ch.action).value).Ok? ==>
              Runs(r.1) == [TaskOf(ch.action).value, TaskOf(Recenter).value] && r.2 == outcome(TaskOf(Recenter).value)
  {
    if ch.action == 0 then
      EventCons(ch.busy, Observe, []);
      (ch.busy, [Observe], observed)
    else
      EventCons(ch.busy, SetBusy, []);
      match TaskOf(ch.action)
      case None =>
        (true, [SetBusy], Err(KeyError(Text.IntToString(ch.action))))
      case Some(t) =>
        var center := TaskOf(Recenter).value;
        EventCons(true, RunTask(center), []);
        EventCons(true, RunTask(t), []);
        EventCons(true, RunTask(t), [RunTask(center)]);
        if outcome(t).Err? then
          EventCons(ch.busy, SetBusy, [RunTask(t)]);
          (true, [SetBusy, RunTask(t)], outcome(t))
        else
          EventCons(ch.busy, SetBusy, [RunTask(t), RunTask(center)]);
          (true, [SetBusy, RunTask(t), RunTask(center)], outcome(center))
  }

  /** The trace functions, one event at a time. */
  lemma EventCons(busy: bool, e: Event, rest: seq<Event>)
    ensures Runs([e] + rest) == (if e.RunTask? then [e.task] else []) + Runs(rest)
    ensures BusyAfter(busy, [e] + rest) == BusyAfter(BusyStep(busy, e), rest)
    ensures RunsWhileBusy(busy, [e] + rest) <==> (e.RunTask? ==> busy) && RunsWhileBusy(BusyStep(busy, e), rest)
  {
    assert ([e] + rest)[1..] == rest;
  }

  lemma {:induction false} RunsAppend(a: seq<Event>, b: seq<Event>)
    ensures Runs(a + b) == Runs(a) + Runs(b)
    decreases |a|
  {
    if a == [] {
      assert a + b == b;
    } else {
      var ab := a + b;
      assert ab[0] == a[0];
      assert ab[1..] == a[1..] + b;
      RunsAppend(a[1..], b);
    }
  }

  lemma {:induction false} RunsWhileBusyAppend(busy: bool, a: seq<Event>, b: seq<Event>)
    ensures RunsWhileBusy(busy, a + b) <==> RunsWhileBusy(busy, a) && RunsWhileBusy(BusyAfter(busy, a), b)
    ensures BusyAfter(busy, a + b) == BusyAfter(BusyAfter(busy, a), b)
    decreases |a|
  {
    if a == [] {
      assert a + b == b;
    } else {
      var ab := a + b;
      assert ab[0] == a[0];
      assert ab[1..] == a[1..] + b;
      RunsWhileBusyAppend(BusyStep(busy, a[0]), a[1..], b);
    }
  }

  /** Whatever the outcome, every task of a tick runs while `busy` is set, and `busy` is
      clear when the tick ends. */
  lemma TickBusyDiscipline(ch: Channel, observed: Result<()>, outcome: Task -> Result<()>)
    ensures var r := Tick(ch, observed, outcome);
            RunsWhileBusy(ch.busy, r.1) && !BusyAfter(ch.busy, r.1)
  {
    var (busy, trace, result) := TickBody(ch, observed, outcome);
    var r := Tick(ch, observed, outcome);
    assert r == Finish(ch, busy, trace, result);
    assert r.1 == trace + r.1[|trace|..];
    RunsWhileBusyAppend(ch.busy, trace, r.1[|trace|..]);
  }

  // ---------------------------------------------------------------------------
  // execute_task

  /** Why the policy loop stopped. */
  datatype Stop = TimeUp | EndReached

  /** The policy loop from iteration `i`: `elapsed[j]` is the time since the loop
      started, read when iteration `j` checks the budget, and `predictions[j]` the
      policy's output in that iteration. Gives the iteration at which the loop stops. */
  function Loop(elapsed: seq<real>, predictions: seq<seq<real>>, limit: real, i: nat): (r: (nat, Stop))
    requires |predictions| == |elapsed| && i < |elapsed|
    requires forall j :: 0 <= j < |predictions| ==> |predictions[j]| == 6
    requires elapsed[|elapsed| - 1] >= limit
    ensures i <= r.0 < |elapsed|
    ensures forall j :: i <= j < r.0 ==> elapsed[j] < limit && !IsEndPosition(predictions[j], MaxDeviation)
    ensures r.1 == TimeUp ==> elapsed[r.0] >= limit
    ensures r.1 == EndReached ==> elapsed[r.0] < limit && IsEndPosition(predictions[r.0], MaxDeviation)
    decreases |elapsed| - i
  {
    if elapsed[i] >= limit then (i, TimeUp)
    else if IsEndPosition(predictions[i], MaxDeviation) then (i, EndReached)
    else Loop(elapsed, predictions, limit, i + 1)
  }

  /** The events of the first `n` full iterations: observe, then send the prediction. */
  function Iterations(predictions: seq<seq<real>>, n: nat): (r: seq<Event>)
    requires n <= |predictions|
    ensures |r| == 2 * n
    ensures forall j :: 0 <= j < n ==> r[2 * j] == Observe && r[2 * j + 1] == Send(predictions[j])
  {
    if n == 0 then [] else Iterations(predictions, n - 1) + [Observe, Send(predictions[n - 1])]
  }

  /** The events of a task whose policy loop ran `n` full iterations: observe, home,
      the iterations, one more observation if the loop stopped on an end position, and
      home again. */
  function TaskTrace(name: string, predictions: seq<seq<real>>, n: nat, ended: bool): (r: seq<Event>)
    requires n <= |predictions|
    ensures |r| == 2 * n + (if ended then 4 else 3)
    ensures r[..2] == [Observe, Home(name)] && r[|r| - 1] == Home(name)
    ensures forall j :: 0 <= j < n ==> r[2 * j + 2] == Observe && r[2 * j + 3] == Send(predictions[j])
    ensures ended ==> r[|r| - 2] == Observe
  {
    var body := Iterations(predictions, n) + (if ended then [Observe] else []);
    var r := [Observe, Home(name)] + body + [Home(name)];
    assert forall j :: 0 <= j < n ==> r[2 * j + 2] == body[2 * j] && r[2 * j + 3] == body[2 * j + 1];
    r
  }

  /** `execute_task(task)`: the events and how the task ended. The closing
      `print(action_values)` reads the last prediction; when the time is already up at
      the first check the loop never assigned it, so the task raises
      `UnboundLocalError` there and skips the second homing. */
  function ExecuteTask(task: Task, elapsed: seq<real>, predictions: seq<seq<real>>): (r: (seq<Event>, Result<()>))
    requires |predictions| == |elapsed| > 0
    requires forall j :: 0 <= j < |predictions| ==> |predictions[j]| == 6
    requires elapsed[|elapsed| - 1] >= task.seconds as real
    ensures r.1.Err? <==> elapsed[0] >= task.seconds as real
    ensures r.1.Err? ==> r == ([Observe, Home(task.name)], Err(UnboundLocal("action_values")))
    ensures |r.0| >= 2 && r.0[..2] == [Observe, Home(task.name)]
    ensures r.1.Ok? ==> r.0[|r.0| - 1] == Home(task.name) && |r.0| >= 3
  {
    var stop := Loop(elapsed, predictions, task.seconds as real, 0);
    if stop == (0, TimeUp) then ([Observe, Home(task.name)], Err(UnboundLocal("action_values")))
    else (TaskTrace(task.name, predictions, stop.0, stop.1 == EndReached), Ok(()))
  }

  /** The task sends the policy's output of every iteration before the loop stops, each
      inside the time budget and none an end position; the loop stops on the first
      iteration that is out of time or at an end position. */
  lemma ExecuteTaskSends(task: Task, elapsed: seq<real>, predictions: seq<seq<real>>)
    requires |predictions| == |elapsed| > 0
    requires forall j :: 0 <= j < |predictions| ==> |predictions[j]| == 6
    requires elapsed[|elapsed| - 1] >= task.seconds as real
    ensures var stop := Loop(elapsed, predictions, task.seconds as real, 0);
            var r := ExecuteTask(task, elapsed, predictions).0;
            && Sent(r) == predictions[..stop.0]
            && (forall j :: 0 <= j < stop.0 ==> elapsed[j] < task.seconds as real && !IsEndPosition(predictions[j], MaxDeviation))
            && (elapsed[stop.0] >= task.seconds as real || IsEndPosition(predictions[stop.0], MaxDeviation))
  {
    var stop := Loop(elapsed, predictions, task.seconds as real, 0);
    TaskTraceSent(task.name, predictions, stop.0, stop.1 == EndReached);
    if stop == (0, TimeUp) {
      SentOfNone([Observe, Home(task.name)]);
    }
  }

  /** The values a trace sends, in order. */
  function Sent(trace: seq<Event>): (r: seq<seq<real>>)
    ensures |r| <= |trace|
  {
    if trace == [] then []
    else (if trace[0].Send? then [trace[0].values] else []) + Sent(trace[1..])
  }

  lemma {:induction false} SentAppend(a: seq<Event>, b: seq<Event>)
    ensures Sent(a + b) == Sent(a) + Sent(b)
    decreases |a|
  {
    if a == [] {
      assert a + b == b;
    } else {
      var ab := a + b;
      assert ab[0] == a[0];
      assert ab[1..] == a[1..] + b;
      SentAppend(a[1..], b);
    }
  }

  lemma SentOfNone(trace: seq<Event>)
    requires forall i :: 0 <= i < |trace| ==> !trace[i].Send?
    ensures Sent(trace) == []
  {
    if trace != [] {
      SentOfNone(trace[1..]);
    }
  }

  lemma {:induction false} IterationsSent(predictions: seq<seq<real>>, n: nat)
    requires n <= |predictions|
    ensures Sent(Iterations(predictions, n)) == predictions[..n]
    decreases n
  {
    if n > 0 {
      IterationsSent(predictions, n - 1);
      var step: seq<Event> := [Observe, Send(predictions[n - 1])];
      SentAppend(Iterations(predictions, n - 1), step);
      assert step == [Observe] + [Send(predictions[n - 1])];
      SentAppend([Observe], [Send(predictions[n - 1])]);
      SentOfNone([Observe]);
      assert Sent([Send(predictions[n - 1])]) == [predictions[n - 1]] by {
        assert [Send(predictions[n - 1])][1..] == [];
      }
      assert predictions[..n] == predictions[..n - 1] + [predictions[n - 1]];
    }
  }

  lemma TaskTraceSent(name: string, predictions: seq<seq<real>>, n: nat, ended: bool)
    requires n <= |predictions|
    ensures Sent(TaskTrace(name, predictions, n, ended)) == predictions[..n]
  {
    var tail: seq<Event> := (if ended then [Observe] else []) + [Home(name)];
    var head: seq<Event> := [Observe, Home(name)];
    var it := Iterations(predictions, n);
    assert TaskTrace(name, predictions, n, ended) == head + (it + tail);
    SentAppend(head, it + tail);
    SentAppend(it, tail);
    SentOfNone(head);
    SentOfNone(tail);
    IterationsSent(predictions, n);
  }

  // ---------------------------------------------------------------------------
  // is_position_end_position

  /** The three reference poses (a finished move) and how much each joint counts. */
  const Weights: seq<seq<real>> := [
    [0.0, 1.0, 0.05, 0.1, 0.8, 0.2],
    [0.3, 1.0, 0.6, 0.0, 0.4, 0.5],
    [0.3, 1.0, 0.6, 0.0, 0.4, 0.5]]
  const Targets: seq<seq<real>> := [
    [0.0, 500.0, 185.0, 900.0, 870.0, 500.0],
    [50.0, 950.0, 50.0, 650.0, 500.0, 500.0],
    [50.0, 150.0, 50.0, 650.0, 500.0, 500.0]]

  /** The default threshold `max_derivation`. */
  const MaxDeviation: real := 70.0

  function AbsReal(x: real): real {
    if x < 0.0 then -x else x
  }

  /** `weight @ (position - target).abs()`. */
  function Deviation(w: seq<real>, p: seq<real>, t: seq<real>): real
    requires |w| == |p| == |t|
  {
    if w == [] then 0.0 else w[0] * AbsReal(p[0] - t[0]) + Deviation(w[1..], p[1..], t[1..])
  }

  /** The pairs from `k` on, tried in order until one is close enough. */
  function CloseFrom(p: seq<real>, maxDeviation: real, k: nat): (r: bool)
    requires |p| == 6 && k <= |Targets|
    ensures r <==> exists j :: k <= j < |Targets| && Deviation(Weights[j], p, Targets[j]) < maxDeviation
    decreases |Targets| - k
  {
    if k == |Targets| then false
    else if Deviation(Weights[k], p, Targets[k]) < maxDeviation then true
    else CloseFrom(p, maxDeviation, k + 1)
  }

  /** `is_position_end_position(position, max_derivation)`. */
  function IsEndPosition(p: seq<real>, maxDeviation: real): (r: bool)
    requires |p| == 6
    ensures r <==> exists j :: 0 <= j < |Targets| && Deviation(Weights[j], p, Targets[j]) < maxDeviation
  {
    CloseFrom(p, maxDeviation, 0)
  }

  lemma {:induction false} DeviationSelf(w: seq<real>, t: seq<real>)
    requires |w| == |t|
    ensures Deviation(w, t, t) == 0.0
    decreases |w|
  {
    if w != [] {
      DeviationSelf(w[1..], t[1..]);
    }
  }

  lemma {:induction false} DeviationNonNegative(w: seq<real>, p: seq<real>, t: seq<real>)
    requires |w| == |p| == |t|
    requires forall i :: 0 <= i < |w| ==> w[i] >= 0.0
    ensures Deviation(w, p, t) >= 0.0
    decreases |w|
  {
    if w != [] {
      DeviationNonNegative(w[1..], p[1..], t[1..]);
    }
  }

  /** A position exactly at a reference pose is an end position for any positive
      threshold. */
  lemma AtTargetIsEnd(p: seq<real>, k: nat, maxDeviation: real)
    requires k < |Targets| && p == Targets[k] && maxDeviation > 0.0
    ensures IsEndPosition(p, maxDeviation)
  {
    DeviationSelf(Weights[k], Targets[k]);
  }

  /** All weights are non-negative, so with a threshold of zero or less nothing is an
      end position. */
  lemma NonPositiveThresholdNeverEnds(p: seq<real>, maxDeviation: real)
    requires |p| == 6 && maxDeviation <= 0.0
    ensures !IsEndPosition(p, maxDeviation)
  {
    forall j | 0 <= j < |Targets|
      ensures Deviation(Weights[j], p, Targets[j]) >= 0.0
    {
      DeviationNonNegative(Weights[j], p, Targets[j]);
    }
  }
}
