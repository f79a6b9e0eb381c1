/** The states table of database/state_management.py: division to ladder_running. */
module StateManagement {
  import opened Wrappers
  import opened Table

  datatype State = State(division: string, ladderRunning: int)

  function ForDivision(d: string): State -> bool { (s: State) => s.division == d }

  /** Row i is the first row, in storage order, for division d. */
  ghost predicate FirstStateOf(rows: seq<State>, d: string, i: int) {
    0 <= i < |rows| && rows[i].division == d &&
    forall j :: 0 <= j < i ==> rows[j].division != d
  }

  /**
   * is_ladder_running: false when no row exists for d; otherwise whether
   * the first row's ladder_running equals 1, so any other stored value
   * reads as not running.
   */
  function IsLadderRunning(rows: seq<State>, d: string): (r: bool)
    ensures (forall i :: 0 <= i < |rows| ==> rows[i].division != d) ==> !r
    ensures r <==> exists i :: FirstStateOf(rows, d, i) && rows[i].ladderRunning == 1
  {
    match First(rows, ForDivision(d))
    case None => false
    case Some(i) =>
      assert FirstStateOf(rows, d, i);
      assert forall k :: FirstStateOf(rows, d, k) ==> k == i;
      rows[i].ladderRunning == 1
  }

  /**
   * Only the first row for d is read: rows stored after it, for any
   * division, do not change the answer.
   */
  lemma {:induction false} LaterRowsAreIgnored(rows: seq<State>, d: string, later: seq<State>)
    requires exists i :: FirstStateOf(rows, d, i)
    ensures IsLadderRunning(rows + later, d) == IsLadderRunning(rows, d)
  {
    var i :| FirstStateOf(rows, d, i);
    assert FirstStateOf(rows + later, d, i);
    assert forall k :: FirstStateOf(rows + later, d, k) ==> k == i;
    assert forall k :: FirstStateOf(rows, d, k) ==> k == i;
  }
}
