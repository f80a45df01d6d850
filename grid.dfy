/** The grid: 81 cells held in one array and addressed by index, the 27
    groups built over those indices, and the candidate elimination of
    `Cell.set_value`, `Cell.remove_option` and the groups' `remove_option`,
    which call each other until no cell is left with a single option. */
module Solver {
  import opened Groups
  import opened Cells
  import opened Cascade

  class Grid {
    /** The cells, row-major; the position of a cell is its index. */
    const cells: array<Cell>
    const rows: seq<Group>
    const cols: seq<Group>
    const boxes: seq<Group>

    /** The groups never change; every cell keeps the cell invariant. */
    ghost predicate Valid()
      reads this, cells
    {
      cells.Length == BOARD_SIZE && WellFormed(cells[..]) &&
      rows == Rows() && cols == Cols() && boxes == Boxes()
    }

    /** `Grid.__init__`: the rows, columns and boxes, 81 fresh cells, then
        each non-zero given assigned in index order. */
    constructor (givens: seq<int>)
      requires |givens| == BOARD_SIZE
      ensures Valid() && fresh(cells)
      ensures forall k :: 0 <= k < BOARD_SIZE && givens[k] != 0 ==> cells[k].value == givens[k]
      ensures Propagated(cells[..], {})
      ensures cells[..] == AfterGivens(FreshBoard(), givens, BOARD_SIZE)
      ensures (forall k :: 0 <= k < BOARD_SIZE ==> givens[k] == 0) ==>
        forall k :: 0 <= k < BOARD_SIZE ==> cells[k] == NewCell()
    {
      rows := seq(9, r requires 0 <= r < 9 => NewGroup(Row, RowIndices(9 * r)).value);

      var builtCols := BuildCols();
      cols := builtCols;
      var builtBoxes := BuildBoxes();
      boxes := builtBoxes;

      // The cells hold no group references here (a cell finds its groups by
      // index), so allocating them after the groups changes nothing.
      var arena := new Cell[BOARD_SIZE](_ => NewCell());
      assert forall k :: 0 <= k < BOARD_SIZE ==> arena[..][k] == NewCell();
      assert arena[..] == FreshBoard();
      cells := arena;
      new;
      FreshPropagated();
      AssignGivens(givens);
      if forall k :: 0 <= k < BOARD_SIZE ==> givens[k] == 0 {
        ZeroGivensFresh(givens);
      }
    }

    /** The column loop of `Grid.__init__`: column `c` takes every ninth
        cell from index `c`. */
    static method BuildCols() returns (built: seq<Group>)
      ensures built == Cols()
    {
      built := [];
      for c := 0 to 9
        invariant built == Cols()[..c]
      {
        var col := NewGroup(Col, ColIndices(c));
        built := built + [col.value];
      }
    }

    /** The box loop of `Grid.__init__`: for each band start, the boxes
        whose corners lie 0, 3 and 6 cells further on. */
    static method BuildBoxes() returns (built: seq<Group>)
      ensures built == Boxes()
    {
      BoxCorners();
      built := [];
      for band := 0 to 3
        invariant built == Boxes()[..3 * band]
      {
        var x := BAND_STARTS[band];
        for m := 0 to 3
          invariant built == Boxes()[..3 * band + m]
        {
          var ii := x + 3 * m;
          Split(3 * band + m, 3, band, m);
          var box := NewGroup(Box, BoxIndices(ii));
          built := built + [box.value];
        }
      }
    }

    /** The last loop of `Grid.__init__`: each non-zero given is assigned, in
        index order. */
    method AssignGivens(givens: seq<int>)
      requires Valid() && Propagated(cells[..], {}) && |givens| == BOARD_SIZE
      modifies cells
      ensures Valid() && Propagated(cells[..], {})
      ensures cells[..] == AfterGivens(old(cells[..]), givens, BOARD_SIZE)
    {
      for ii := 0 to BOARD_SIZE
        invariant Valid() && Propagated(cells[..], {})
        invariant cells[..] == AfterGivens(old(cells[..]), givens, ii)
      {
        if givens[ii] != 0 {
          SetValue(ii, givens[ii], {});
        }
      }
    }

    /** `Cell.set_value`: record `v` in cell `i`, clear its options, and
        broadcast the removal of `v` to its groups. Cells whose broadcast is
        still running further up the call chain are in `pending`. */
    method SetValue(i: int, v: int, ghost pending: set<int>)
      requires Valid() && 0 <= i < BOARD_SIZE && v != 0
      requires Propagated(cells[..], pending + {i})
      modifies cells
      ensures Valid()
      ensures cells[..] == AfterSetValue(old(cells[..]), i, v)
      ensures Narrows(old(cells[..])[i := Cell(v, [])], cells[..])
      ensures Justified(old(cells[..])[i := Cell(v, [])], cells[..])
      ensures forall k :: 0 <= k < BOARD_SIZE && SameUnit(i, k) && cells[k].value == 0 ==> v !in cells[k].options
      ensures Propagated(cells[..], pending)
      decreases Unassigned(cells[..]) + (if cells[i].value == 0 then 0 else 1), 2
    {
      ghost var before := cells[..];
      AssignKeepsPropagated(before, i, v, pending);
      UnassignedUpdate(before, i, Cell(v, []));
      WellFormedUpdate(before, i, Cell(v, []));
      cells[i] := Cell(v, []);
      assert cells[..] == before[i := Cell(v, [])];
      Broadcast(i, v, pending);
      FinishPropagation(cells[..], i, pending);
    }

    /** The second half of `Cell.set_value`: remove the value `v` of cell `i`
        from every cell of its row, then its column, then its box. */
    method Broadcast(i: int, v: int, ghost pending: set<int>)
      requires Valid() && 0 <= i < BOARD_SIZE && v != 0 && cells[i].value == v
      requires Propagated(cells[..], pending + {i})
      modifies cells
      ensures Valid()
      ensures cells[..] == AfterBroadcast(old(cells[..]), i, v)
      ensures Narrows(old(cells[..]), cells[..])
      ensures Justified(old(cells[..]), cells[..])
      ensures forall k :: 0 <= k < BOARD_SIZE && SameUnit(i, k) && cells[k].value == 0 ==> v !in cells[k].options
      ensures Propagated(cells[..], pending + {i})
      decreases Unassigned(cells[..]), 5
    {
      ghost var written := cells[..];
      GroupPeers(i);
      RemoveOptionFromGroup(rows[RowOf(i)], v, i, pending + {i});
      ghost var afterRow := cells[..];
      RemoveOptionFromGroup(cols[ColOf(i)], v, i, pending + {i});
      ghost var afterCol := cells[..];
      RemoveOptionFromGroup(boxes[BoxOf(i)], v, i, pending + {i});
      BroadcastCovers(afterRow, afterCol, cells[..], i, v);
      ThreePasses(written, afterRow, afterCol, cells[..]);
    }

    /** `Cell.remove_option`: on an unassigned cell, drop `v` from its
        options if present; then, if exactly one option is left, assign it.
        It is only ever called for a digit another cell of `j`'s row, column
        or box holds. */
    method RemoveOption(j: int, v: int, ghost pending: set<int>)
      requires Valid() && 0 <= j < BOARD_SIZE
      requires cells[j].value == 0 ==> HeldByPeer(cells[..], j, v)
      requires Propagated(cells[..], pending)
      modifies cells
      ensures Valid()
      ensures cells[..] == AfterRemoveOption(old(cells[..]), j, v)
      ensures Narrows(old(cells[..]), cells[..])
      ensures Justified(old(cells[..]), cells[..])
      ensures Propagated(cells[..], pending)
      decreases Unassigned(cells[..]), 3
    {
      if cells[j].value == 0 {
        ghost var before := cells[..];
        assert WellFormedCell(before[j]);
        ghost var rest := Eliminate(before[j].options, v);
        EliminateKeepsPropagated(before, j, v, pending);
        UnassignedUpdate(before, j, Cell(0, rest));
        if v in cells[j].options {
          cells[j] := cells[j].(options := RemoveFirst(cells[j].options, v));
        }
        assert cells[..] == before[j := Cell(0, rest)];
        if |cells[j].options| == 1 {
          ghost var removed := cells[..];
          SetValue(j, cells[j].options[0], pending);
          assert removed[j := Cell(rest[0], [])] == before[j := Cell(rest[0], [])];
          ForcedAssignment(before, j, v, cells[..]);
        } else {
          EliminateJustified(before, j, v);
          assert Narrower(before[j], cells[j]);
        }
      }
    }

    /** The `remove_option` of `Row`, `Col` and `Group`: `remove_option(v)`
        on each member cell, in order. The value `v` is that of cell `src`,
        which shares a group with every member. */
    method RemoveOptionFromGroup(g: Group, v: int, ghost src: int, ghost pending: set<int>)
      requires Valid() && Around(src, g)
      requires 0 <= src < BOARD_SIZE && v != 0 && cells[src].value == v
      requires Propagated(cells[..], pending)
      modifies cells
      ensures Valid()
      ensures cells[..] == AfterRemoveOptionFromCells(old(cells[..]), g.cells, v)
      ensures Narrows(old(cells[..]), cells[..])
      ensures Justified(old(cells[..]), cells[..])
      ensures cells[src].value == v && Unassigned(cells[..]) <= old(Unassigned(cells[..]))
      ensures forall m :: m in g.cells && cells[m].value == 0 ==> v !in cells[m].options
      ensures Propagated(cells[..], pending)
      decreases Unassigned(cells[..]), 4
    {
      ghost var start := cells[..];
      for n := 0 to |g.cells|
        invariant Valid()
        invariant cells[..] == AfterRemoveOptionFromCells(start, g.cells[..n], v)
        invariant Narrows(start, cells[..]) && Justified(start, cells[..])
        invariant cells[src].value == v && Unassigned(cells[..]) <= Unassigned(start)
        invariant forall p :: 0 <= p < n && cells[g.cells[p]].value == 0 ==> v !in cells[g.cells[p]].options
        invariant Propagated(cells[..], pending)
      {
        ghost var before := cells[..];
        assert SameUnit(src, g.cells[n]);
        RemoveOption(g.cells[n], v, pending);
        MemberStep(start, before, cells[..], g.cells, n, v, src);
      }
      assert g.cells[..|g.cells|] == g.cells;
      EveryMember(cells[..], g.cells, v);
    }
  }
}
