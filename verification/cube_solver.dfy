/** The planner side of the action channel (`run_planner`): each frame it asks the vision
    planner for the next move and publishes the move's code in the shared `action`
    value. The vision planner itself is a parameter: `estimate` gives the planner's
    current action after a step, from the action it had pending and the `busy` flag. */
module CubeSolver {
  import opened Wrappers

  /** The move names the planner knows, in code order: name `i` has code `i + 1`. */
  const MoveNames: seq<string> := ["flip", "rotate_left", "rotate_right", "rotate_upper_left", "rotate_upper_right"]

  /** The code published for a move name; an unknown name has none. */
  function ActionCode(name: string): (r: Option<int>)
    ensures r.Some? <==> name in MoveNames
    ensures r.Some? ==> 1 <= r.value <= |MoveNames| && MoveNames[r.value - 1] == name
  {
    if name == "flip" then Some(1)
    else if name == "rotate_left" then Some(2)
    else if name == "rotate_right" then Some(3)
    else if name == "rotate_upper_left" then Some(4)
    else if name == "rotate_upper_right" then Some(5)
    else None
  }

  /** Each name gets its own code, and every code 1..5 is used. */
  lemma ActionCodeBijective()
    ensures forall i :: 0 <= i < |MoveNames| ==> ActionCode(MoveNames[i]) == Some(i + 1)
  {
    forall i | 0 <= i < |MoveNames|
      ensures ActionCode(MoveNames[i]) == Some(i + 1)
    {
      var r := ActionCode(MoveNames[i]);
      assert MoveNames[r.value - 1] == MoveNames[i];
      MoveNamesDistinct();
    }
  }

  lemma MoveNamesDistinct()
    ensures forall k, l :: 0 <= k < l < |MoveNames| ==> MoveNames[k] != MoveNames[l]
  {
  }

  /** The planner's state: its pending action, the last move it announced
      (`executing_action`), and the shared `action` value. */
  datatype Planner = Planner(pending: string, executing: string, action: int)

  /** One pass of the loop body, from clearing the pending action to publishing a code.
      An unknown move raises before `action` is written; the loop catches it, so the
      error is reported here and the next pass starts from the returned state. */
  function Tick(p: Planner, busy: bool, estimate: (string, bool) -> string): (r: (Planner, Result<()>))
    ensures var seen := if busy then "" else p.pending;
            var next := estimate(seen, busy);
            && r.0.pending == next
            && (next == "" ==> r.0.executing == p.executing && r.0.action == 0 && r.1.Ok?)
            && (next != "" ==> r.0.executing == next)
            && (next != "" && next in MoveNames ==> r.0.action == ActionCode(next).value && r.1.Ok?)
            && (next != "" && next !in MoveNames ==> r.0.action == p.action && r.1 == Err(UnknownAction(next)))
    ensures 0 <= p.action <= |MoveNames| ==> 0 <= r.0.action <= |MoveNames|
  {
    var seen := if busy then "" else p.pending;
    var next := estimate(seen, busy);
    if next == "" then (Planner(next, p.executing, 0), Ok(()))
    else
      var code := ActionCode(next);
      if code.None? then (Planner(next, next, p.action), Err(UnknownAction(next)))
      else (Planner(next, next, code.value), Ok(()))
  }
}
