/** The cascade `set_value` and `remove_option` run, as functions on the
    81 cells: each function gives the board the corresponding call leaves
    behind, following the same calls in the same order. */
module Cascade {
  import opened Groups
  import opened Cells

  /** `Cell.set_value(v)` on cell `i`: write the value and clear the
      options, then broadcast the removal of `v`. Each nested assignment
      lowers the count of unassigned cells, which bounds the cascade. */
  function AfterSetValue(s: seq<Cell>, i: int, v: int): (r: seq<Cell>)
    requires WellFormed(s) && 0 <= i < BOARD_SIZE && v != 0
    ensures WellFormed(r) && Unassigned(r) <= Unassigned(s[i := Cell(v, [])])
    decreases Unassigned(s) + (if s[i].value == 0 then 0 else 1), 2, 0
  {
    UnassignedUpdate(s, i, Cell(v, []));
    WellFormedUpdate(s, i, Cell(v, []));
    AfterBroadcast(s[i := Cell(v, [])], i, v)
  }

  /** The row, then the column, then the box of cell `i` each remove `v`
      from their members. */
  function AfterBroadcast(s: seq<Cell>, i: int, v: int): (r: seq<Cell>)
    requires WellFormed(s) && 0 <= i < BOARD_SIZE
    ensures WellFormed(r) && Unassigned(r) <= Unassigned(s)
    decreases Unassigned(s), 5, 0
  {
    GroupPeers(i);
    var afterRow := AfterRemoveOptionFromCells(s, Rows()[RowOf(i)].cells, v);
    var afterCol := AfterRemoveOptionFromCells(afterRow, Cols()[ColOf(i)].cells, v);
    AfterRemoveOptionFromCells(afterCol, Boxes()[BoxOf(i)].cells, v)
  }

  /** The `remove_option` of a group: `remove_option(v)` on each of the cells
      `ms`, first to last. */
  function AfterRemoveOptionFromCells(s: seq<Cell>, ms: seq<int>, v: int): (r: seq<Cell>)
    requires WellFormed(s) && forall p :: 0 <= p < |ms| ==> 0 <= ms[p] < BOARD_SIZE
    ensures WellFormed(r) && Unassigned(r) <= Unassigned(s)
    decreases Unassigned(s), 4, |ms|
  {
    if ms == [] then s
    else
      var before := AfterRemoveOptionFromCells(s, ms[..|ms| - 1], v);
      AfterRemoveOption(before, ms[|ms| - 1], v)
  }

  /** Handling one more member of the list is one more `remove_option`. */
  lemma RemoveFromCellsStep(s: seq<Cell>, ms: seq<int>, n: int, v: int)
    requires WellFormed(s) && 0 <= n < |ms| && forall p :: 0 <= p < |ms| ==> 0 <= ms[p] < BOARD_SIZE
    ensures AfterRemoveOptionFromCells(s, ms[..n + 1], v) ==
      AfterRemoveOption(AfterRemoveOptionFromCells(s, ms[..n], v), ms[n], v)
  {
    assert ms[..n + 1][..n] == ms[..n];
  }

  /** `Cell.remove_option(v)` on cell `j`: nothing on an assigned cell;
      otherwise `v` leaves the options, and a single remaining option is
      assigned. */
  function AfterRemoveOption(s: seq<Cell>, j: int, v: int): (r: seq<Cell>)
    requires WellFormed(s) && 0 <= j < BOARD_SIZE
    ensures WellFormed(r) && Unassigned(r) <= Unassigned(s)
    decreases Unassigned(s), 3, 0
  {
    if s[j].value != 0 then s
    else
      assert WellFormedCell(s[j]);
      var rest := Eliminate(s[j].options, v);
      var removed := s[j := Cell(0, rest)];
      UnassignedUpdate(s, j, Cell(0, rest));
      WellFormedUpdate(s, j, Cell(0, rest));
      if |rest| == 1 then
        UnassignedUpdate(removed, j, Cell(rest[0], []));
        AfterSetValue(removed, j, rest[0])
      else removed
  }

  /** The cascade of `set_value` never unassigns a cell or gives an option
      back, beyond the write to cell `i` itself. */
  lemma {:induction false} SetValueNarrows(s: seq<Cell>, i: int, v: int)
    requires WellFormed(s) && 0 <= i < BOARD_SIZE && v != 0
    ensures Narrows(s[i := Cell(v, [])], AfterSetValue(s, i, v))
    decreases Unassigned(s) + (if s[i].value == 0 then 0 else 1), 2, 0
  {
    UnassignedUpdate(s, i, Cell(v, []));
    WellFormedUpdate(s, i, Cell(v, []));
    BroadcastNarrows(s[i := Cell(v, [])], i, v);
  }

  /** The three group passes of a broadcast only narrow the board. */
  lemma {:induction false} BroadcastNarrows(s: seq<Cell>, i: int, v: int)
    requires WellFormed(s) && 0 <= i < BOARD_SIZE
    ensures Narrows(s, AfterBroadcast(s, i, v))
    decreases Unassigned(s), 5, 0
  {
    GroupPeers(i);
    var afterRow := AfterRemoveOptionFromCells(s, Rows()[RowOf(i)].cells, v);
    RemoveFromCellsNarrows(s, Rows()[RowOf(i)].cells, v);
    NarrowsUnassigned(s, afterRow);
    var afterCol := AfterRemoveOptionFromCells(afterRow, Cols()[ColOf(i)].cells, v);
    RemoveFromCellsNarrows(afterRow, Cols()[ColOf(i)].cells, v);
    NarrowsUnassigned(afterRow, afterCol);
    NarrowsTransitive(s, afterRow, afterCol);
    RemoveFromCellsNarrows(afterCol, Boxes()[BoxOf(i)].cells, v);
    NarrowsTransitive(s, afterCol, AfterBroadcast(s, i, v));
  }

  /** A group pass only narrows the board. */
  lemma {:induction false} RemoveFromCellsNarrows(s: seq<Cell>, ms: seq<int>, v: int)
    requires WellFormed(s) && forall p :: 0 <= p < |ms| ==> 0 <= ms[p] < BOARD_SIZE
    ensures Narrows(s, AfterRemoveOptionFromCells(s, ms, v))
    decreases Unassigned(s), 4, |ms|
  {
    if ms != [] {
      var before := AfterRemoveOptionFromCells(s, ms[..|ms| - 1], v);
      RemoveFromCellsNarrows(s, ms[..|ms| - 1], v);
      NarrowsUnassigned(s, before);
      RemoveOptionNarrows(before, ms[|ms| - 1], v);
      NarrowsTransitive(s, before, AfterRemoveOptionFromCells(s, ms, v));
    }
  }

  /** One `remove_option` only narrows the board. */
  lemma {:induction false} RemoveOptionNarrows(s: seq<Cell>, j: int, v: int)
    requires WellFormed(s) && 0 <= j < BOARD_SIZE
    ensures Narrows(s, AfterRemoveOption(s, j, v))
    decreases Unassigned(s), 3, 0
  {
    if s[j].value == 0 {
      assert WellFormedCell(s[j]);
      var rest := Eliminate(s[j].options, v);
      var removed := s[j := Cell(0, rest)];
      UnassignedUpdate(s, j, Cell(0, rest));
      WellFormedUpdate(s, j, Cell(0, rest));
      if |rest| == 1 {
        var forced := removed[j := Cell(rest[0], [])];
        assert Narrower(s[j], forced[j]);
        assert Narrows(s, forced);
        SetValueNarrows(removed, j, rest[0]);
        NarrowsTransitive(s, forced, AfterRemoveOption(s, j, v));
      } else {
        assert Narrower(s[j], removed[j]);
      }
    }
  }

  /** What `remove_option(v)` does to cell `j`. On an assigned cell it
      changes nothing. On an unassigned cell, `v` leaves the options and the
      other cells stay as they were, unless exactly one option is left; then
      that option is assigned and the rest of the board only narrows. Either
      way the cell does not list `v` afterwards. */
  lemma RemoveOptionOutcome(s: seq<Cell>, j: int, v: int)
    requires WellFormed(s) && 0 <= j < BOARD_SIZE
    ensures s[j].value != 0 ==> AfterRemoveOption(s, j, v) == s
    ensures s[j].value == 0 && |Eliminate(s[j].options, v)| != 1 ==>
      AfterRemoveOption(s, j, v) == s[j := Cell(0, Eliminate(s[j].options, v))]
    ensures s[j].value == 0 && |Eliminate(s[j].options, v)| == 1 ==>
      Narrows(s[j := Cell(Eliminate(s[j].options, v)[0], [])], AfterRemoveOption(s, j, v))
    ensures AfterRemoveOption(s, j, v)[j].value == 0 ==> v !in AfterRemoveOption(s, j, v)[j].options
  {
    if s[j].value == 0 {
      assert WellFormedCell(s[j]);
      var rest := Eliminate(s[j].options, v);
      var removed := s[j := Cell(0, rest)];
      if |rest| == 1 {
        assert removed[j := Cell(rest[0], [])] == s[j := Cell(rest[0], [])];
        var after := AfterRemoveOption(s, j, v);
        SetValueNarrows(removed, j, rest[0]);
        assert Narrower(s[j := Cell(rest[0], [])][j], after[j]);
      }
    }
  }

  /** One member more of a group handled: with `before` the board after
      the first `n` members and `after` the board once member `n` has had
      `v` removed, the group pass so far still only narrows, is justified,
      keeps the cell `src` holding `v`, and leaves no unassigned member among
      the first `n + 1` listing `v`. */
  lemma MemberStep(start: seq<Cell>, before: seq<Cell>, after: seq<Cell>, ms: seq<int>, n: int, v: int, src: int)
    requires WellFormed(start) && 0 <= n < |ms| && forall p :: 0 <= p < |ms| ==> 0 <= ms[p] < BOARD_SIZE
    requires 0 <= src < BOARD_SIZE && start[src].value == v && v != 0
    requires before == AfterRemoveOptionFromCells(start, ms[..n], v)
    requires after == AfterRemoveOption(before, ms[n], v)
    requires Narrows(start, before) && Justified(start, before) && Justified(before, after)
    requires forall p :: 0 <= p < n && before[ms[p]].value == 0 ==> v !in before[ms[p]].options
    ensures after == AfterRemoveOptionFromCells(start, ms[..n + 1], v)
    ensures Narrows(start, after) && Justified(start, after) && after[src].value == v
    ensures Unassigned(after) <= Unassigned(start)
    ensures forall p :: 0 <= p < n + 1 && after[ms[p]].value == 0 ==> v !in after[ms[p]].options
  {
    RemoveFromCellsStep(start, ms, n, v);
    RemoveOptionOutcome(before, ms[n], v);
    RemoveOptionNarrows(before, ms[n], v);
    NarrowsTransitive(start, before, after);
    JustifiedTransitive(start, before, after);
    NarrowsUnassigned(start, after);
    assert Narrower(start[src], after[src]);
    forall p | 0 <= p < n && after[ms[p]].value == 0
      ensures v !in after[ms[p]].options
    {
      assert Narrower(before[ms[p]], after[ms[p]]);
    }
  }

  /** The last loop of `Grid.__init__`: the first `n` givens handled in
      index order, each non-zero one by `set_value`. */
  function AfterGivens(s: seq<Cell>, givens: seq<int>, n: nat): (r: seq<Cell>)
    requires WellFormed(s) && n <= |givens| && n <= BOARD_SIZE
    ensures WellFormed(r)
    ensures forall k :: 0 <= k < n && givens[k] != 0 ==> r[k].value == givens[k]
  {
    if n == 0 then s
    else
      var before := AfterGivens(s, givens, n - 1);
      if givens[n - 1] == 0 then before
      else
        var after := AfterSetValue(before, n - 1, givens[n - 1]);
        SetValueNarrows(before, n - 1, givens[n - 1]);
        assert forall k :: 0 <= k < n - 1 && givens[k] != 0 ==> Narrower(before[k], after[k]);
        after
  }

  /** With every given 0, handling the givens leaves the board as it was. */
  lemma {:induction false} ZeroGivensKeepBoard(s: seq<Cell>, givens: seq<int>, n: nat)
    requires WellFormed(s) && n <= |givens| && n <= BOARD_SIZE
    requires forall k :: 0 <= k < |givens| ==> givens[k] == 0
    ensures AfterGivens(s, givens, n) == s
  {
    if n > 0 {
      ZeroGivensKeepBoard(s, givens, n - 1);
    }
  }

  /** With every given 0, `Grid.__init__` leaves 81 fresh cells. */
  lemma ZeroGivensFresh(givens: seq<int>)
    requires |givens| == BOARD_SIZE && forall k :: 0 <= k < |givens| ==> givens[k] == 0
    ensures forall k :: 0 <= k < BOARD_SIZE ==> AfterGivens(FreshBoard(), givens, BOARD_SIZE)[k] == NewCell()
  {
    ZeroGivensKeepBoard(FreshBoard(), givens, BOARD_SIZE);
  }
}
