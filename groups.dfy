/** The fixed layout of the 9x9 board: the three group classes (`Row`, `Col`
    and `Group`, here one datatype with a kind), the size check their
    constructors make, and the index arithmetic that places each of the 81
    cells in its row, its column and its 3x3 box. */
module Groups {

  /** Number of cells on the board. */
  const BOARD_SIZE := 81
  /** Number of cells a row, a column or a box must be given. */
  const GROUP_SIZE := 9

  datatype Result<T, E> = Ok(value: T) | Err(error: E)

  /** `Row`, `Col` and `Group` (the 3x3 box) differ only in their names. */
  datatype GroupKind = Row | Col | Box

  /** A constructed group: its kind and the board indices of its cells, in order. */
  datatype Group = Group(kind: GroupKind, cells: seq<int>)

  /** The `ValueError` a group constructor raises on a wrong number of cells.
      The source's error carries a message that lists the cells it received;
      the model keeps the group kind and the number of cells instead. */
  datatype GroupError = WrongSize(kind: GroupKind, received: nat)

  /** The constructor of `Row`, `Col` and `Group`: it accepts exactly nine
      cells and keeps them in the order given. */
  function NewGroup(kind: GroupKind, cells: seq<int>): (r: Result<Group, GroupError>)
    ensures r.Ok? <==> |cells| == GROUP_SIZE
    ensures r.Ok? ==> r.value.kind == kind && r.value.cells == cells
    ensures r.Err? ==> r.error.received == |cells| && r.error.kind == kind
  {
    if |cells| == GROUP_SIZE then Ok(Group(kind, cells)) else Err(WrongSize(kind, |cells|))
  }

  /** The row, column and box a board index belongs to. */
  function RowOf(k: int): int { k / 9 }
  function ColOf(k: int): int { k % 9 }
  function BoxOf(k: int): int { 3 * (k / 27) + (k % 9) / 3 }

  /** True when cells `a` and `k` share a row, a column or a box. */
  predicate SameUnit(a: int, k: int)
  {
    RowOf(a) == RowOf(k) || ColOf(a) == ColOf(k) || BoxOf(a) == BoxOf(k)
  }

  /** The slice `cells[start:start + 9]` that makes one row. */
  function RowIndices(start: int): seq<int>
  {
    seq(9, j => start + j)
  }

  /** `range(c, 81, 9)`: the indices of column `c` (for 0 <= c < 9 the range
      has exactly nine elements). */
  function ColIndices(c: int): seq<int>
  {
    seq(9, j => c + 9 * j)
  }

  /** The nine indices of the box whose top-left cell is `ii`. */
  function BoxIndices(ii: int): seq<int>
  {
    [ii, ii + 1, ii + 2, ii + 9, ii + 10, ii + 11, ii + 18, ii + 19, ii + 20]
  }

  /** First index of each band of three boxes: `[0, 27, 54]`. */
  const BAND_STARTS: seq<int> := [0, 27, 54]

  /** Top-left cell of box `b`, numbering boxes band by band, left to right. */
  function BoxCorner(b: int): int { 27 * (b / 3) + 3 * (b % 3) }

  /** The groups the grid builds, as reference values. */
  function Rows(): seq<Group> { seq(9, r => Group(Row, RowIndices(9 * r))) }
  function Cols(): seq<Group> { seq(9, c => Group(Col, ColIndices(c))) }
  function Boxes(): seq<Group> { seq(9, b => Group(Box, BoxIndices(BoxCorner(b)))) }

  /** The box corners, in the order the grid visits them, are
      0, 3, 6, 27, 30, 33, 54, 57, 60. */
  lemma BoxCorners()
    ensures seq(9, BoxCorner) == [0, 3, 6, 27, 30, 33, 54, 57, 60]
    ensures forall b :: 0 <= b < 9 ==> BoxCorner(b) == BAND_STARTS[b / 3] + 3 * (b % 3)
  {
  }

  /** Row `r` holds the indices 9r .. 9r+8. */
  lemma RowAt(t: int, j: int)
    requires 0 <= t < 9 && 0 <= j < 9
    ensures |Rows()[t].cells| == GROUP_SIZE && Rows()[t].cells[j] == 9 * t + j
  {
  }

  /** Column `c` holds c, c+9, .., c+72. */
  lemma ColAt(t: int, j: int)
    requires 0 <= t < 9 && 0 <= j < 9
    ensures |Cols()[t].cells| == GROUP_SIZE && Cols()[t].cells[j] == t + 9 * j
  {
  }

  /** Box `b` holds its corner plus 0, 1, 2, 9, 10, 11, 18, 19, 20. */
  lemma BoxAt(t: int, j: int)
    requires 0 <= t < 9 && 0 <= j < 9
    ensures |Boxes()[t].cells| == GROUP_SIZE && Boxes()[t].cells[j] == BoxCorner(t) + 9 * (j / 3) + j % 3
  {
  }

  /** Every group holds nine distinct board indices. */
  lemma GroupsWellFormed()
    ensures forall t :: 0 <= t < 9 ==> |Rows()[t].cells| == |Cols()[t].cells| == |Boxes()[t].cells| == GROUP_SIZE
    ensures forall t, j :: 0 <= t < 9 && 0 <= j < 9 ==>
      0 <= Rows()[t].cells[j] < BOARD_SIZE && 0 <= Cols()[t].cells[j] < BOARD_SIZE && 0 <= Boxes()[t].cells[j] < BOARD_SIZE
    ensures forall t, j, l :: 0 <= t < 9 && 0 <= j < l < 9 ==>
      Rows()[t].cells[j] != Rows()[t].cells[l] && Cols()[t].cells[j] != Cols()[t].cells[l] && Boxes()[t].cells[j] != Boxes()[t].cells[l]
  {
    forall t, j | 0 <= t < 9 && 0 <= j < 9
      ensures 0 <= Rows()[t].cells[j] < BOARD_SIZE && 0 <= Cols()[t].cells[j] < BOARD_SIZE && 0 <= Boxes()[t].cells[j] < BOARD_SIZE
    {
      RowAt(t, j); ColAt(t, j); BoxAt(t, j);
    }
    forall t, j, l | 0 <= t < 9 && 0 <= j < l < 9
      ensures Rows()[t].cells[j] != Rows()[t].cells[l] && Cols()[t].cells[j] != Cols()[t].cells[l] && Boxes()[t].cells[j] != Boxes()[t].cells[l]
    {
      RowAt(t, j); RowAt(t, l);
      ColAt(t, j); ColAt(t, l);
      var k := Boxes()[t].cells[j];
      BoxPosition(k, t, j);
      BoxPosition(k, t, l);
    }
  }

  /** The three groups numbered `t` hold nine indices of the board each. */
  lemma GroupsInRange(t: int)
    requires 0 <= t < 9
    ensures |Rows()[t].cells| == |Cols()[t].cells| == |Boxes()[t].cells| == GROUP_SIZE
    ensures forall p :: 0 <= p < |Rows()[t].cells| ==> 0 <= Rows()[t].cells[p] < BOARD_SIZE
    ensures forall p :: 0 <= p < |Cols()[t].cells| ==> 0 <= Cols()[t].cells[p] < BOARD_SIZE
    ensures forall p :: 0 <= p < |Boxes()[t].cells| ==> 0 <= Boxes()[t].cells[p] < BOARD_SIZE
  {
    forall p | 0 <= p < 9
      ensures 0 <= Rows()[t].cells[p] < BOARD_SIZE && 0 <= Cols()[t].cells[p] < BOARD_SIZE && 0 <= Boxes()[t].cells[p] < BOARD_SIZE
    {
      RowAt(t, p); ColAt(t, p); BoxAt(t, p);
    }
  }

  /** Quotient and remainder are determined by any decomposition with an
      in-range remainder. */
  lemma Split(k: int, d: int, q: int, r: int)
    requires d in {3, 9, 27} && k == d * q + r && 0 <= r < d
    ensures k / d == q && k % d == r
  {
  }

  /** Writing an index as band, row within the band, box within the band
      and column within the box. */
  lemma Digits(k: int, band: int, down: int, shift: int, across: int)
    requires 0 <= band < 3 && 0 <= down < 3 && 0 <= shift < 3 && 0 <= across < 3
    requires k == 27 * band + 9 * down + 3 * shift + across
    ensures k / 27 == band && (k % 27) / 9 == down && (k % 9) / 3 == shift && k % 3 == across
  {
    Split(k, 27, band, 9 * down + 3 * shift + across);
    Split(k % 27, 9, down, 3 * shift + across);
    Split(k, 9, 3 * band + down, 3 * shift + across);
    Split(k % 9, 3, shift, across);
    Split(k, 3, 9 * band + 3 * down + shift, across);
  }

  /** Every index is the sum of its band, row-in-band, box-in-band and
      column-in-box parts. */
  lemma Recompose(k: int)
    requires 0 <= k < BOARD_SIZE
    ensures k == 27 * (k / 27) + 9 * ((k % 27) / 9) + 3 * ((k % 9) / 3) + k % 3
  {
    var band, r := k / 27, k % 27;
    var down, e := r / 9, r % 9;
    var shift, across := e / 3, e % 3;
    Split(k, 9, 3 * band + down, e);
    Split(k, 3, 9 * band + 3 * down + shift, across);
  }

  /** The box that holds index `k` at position `j` is box `BoxOf(k)`. */
  lemma BoxPosition(k: int, t: int, j: int)
    requires 0 <= k < BOARD_SIZE && 0 <= t < 9 && 0 <= j < 9
    ensures Boxes()[t].cells[j] == k <==> t == BoxOf(k) && j == 3 * ((k % 27) / 9) + k % 3
  {
    BoxAt(t, j);
    var band, shift, down, across := t / 3, t % 3, j / 3, j % 3;
    assert t == 3 * band + shift && j == 3 * down + across;
    if Boxes()[t].cells[j] == k {
      Digits(k, band, down, shift, across);
    }
    if t == BoxOf(k) && j == 3 * ((k % 27) / 9) + k % 3 {
      var kb, kd, ks, ka := k / 27, (k % 27) / 9, (k % 9) / 3, k % 3;
      Recompose(k);
      assert 0 <= kb < 3 && 0 <= kd < 3 && 0 <= ks < 3 && 0 <= ka < 3;
      assert t == 3 * kb + ks && j == 3 * kd + ka;
      assert band == kb && shift == ks;
      assert down == kd && across == ka;
    }
  }

  /** Every cell lies in exactly one row, one column and one box: the group
      of each kind that holds `k` is the one `RowOf`, `ColOf` and `BoxOf` name. */
  lemma Membership(k: int)
    requires 0 <= k < BOARD_SIZE
    ensures 0 <= RowOf(k) < 9 && 0 <= ColOf(k) < 9 && 0 <= BoxOf(k) < 9
    ensures forall t :: 0 <= t < 9 ==> (k in Rows()[t].cells <==> t == RowOf(k))
    ensures forall t :: 0 <= t < 9 ==> (k in Cols()[t].cells <==> t == ColOf(k))
    ensures forall t :: 0 <= t < 9 ==> (k in Boxes()[t].cells <==> t == BoxOf(k))
  {
    RowMembership(k);
    ColMembership(k);
    BoxMembership(k);
  }

  lemma RowMembership(k: int)
    requires 0 <= k < BOARD_SIZE
    ensures 0 <= RowOf(k) < 9
    ensures forall t :: 0 <= t < 9 ==> (k in Rows()[t].cells <==> t == RowOf(k))
  {
    Split(k, 9, k / 9, k % 9);
    RowAt(RowOf(k), k % 9);
    forall t | 0 <= t < 9 && k in Rows()[t].cells
      ensures t == RowOf(k)
    {
      var l :| 0 <= l < 9 && Rows()[t].cells[l] == k;
      RowAt(t, l);
      Split(k, 9, t, l);
    }
  }

  lemma ColMembership(k: int)
    requires 0 <= k < BOARD_SIZE
    ensures 0 <= ColOf(k) < 9
    ensures forall t :: 0 <= t < 9 ==> (k in Cols()[t].cells <==> t == ColOf(k))
  {
    Split(k, 9, k / 9, k % 9);
    ColAt(ColOf(k), k / 9);
    forall t | 0 <= t < 9 && k in Cols()[t].cells
      ensures t == ColOf(k)
    {
      var l :| 0 <= l < 9 && Cols()[t].cells[l] == k;
      ColAt(t, l);
      Split(k, 9, l, t);
    }
  }

  lemma BoxMembership(k: int)
    requires 0 <= k < BOARD_SIZE
    ensures 0 <= BoxOf(k) < 9
    ensures forall t :: 0 <= t < 9 ==> (k in Boxes()[t].cells <==> t == BoxOf(k))
  {
    Recompose(k);
    BoxPosition(k, BoxOf(k), 3 * ((k % 27) / 9) + k % 3);
    forall t | 0 <= t < 9 && k in Boxes()[t].cells
      ensures t == BoxOf(k)
    {
      var l :| 0 <= l < 9 && Boxes()[t].cells[l] == k;
      BoxPosition(k, t, l);
    }
  }

  /** Every member of `g` is a cell of the board that shares a group with
      cell `i`. */
  predicate Around(i: int, g: Group)
  {
    forall p :: 0 <= p < |g.cells| ==> 0 <= g.cells[p] < BOARD_SIZE && SameUnit(i, g.cells[p])
  }

  /** The row, the column and the box of cell `i` hold only cells of the
      board, and each of them shares a group with `i`. */
  lemma GroupPeers(i: int)
    requires 0 <= i < BOARD_SIZE
    ensures 0 <= RowOf(i) < 9 && 0 <= ColOf(i) < 9 && 0 <= BoxOf(i) < 9
    ensures Around(i, Rows()[RowOf(i)]) && Around(i, Cols()[ColOf(i)]) && Around(i, Boxes()[BoxOf(i)])
  {
    Membership(i);
    GroupsInRange(RowOf(i));
    GroupsInRange(ColOf(i));
    GroupsInRange(BoxOf(i));
    forall p | 0 <= p < 9
      ensures SameUnit(i, Rows()[RowOf(i)].cells[p]) && SameUnit(i, Cols()[ColOf(i)].cells[p]) && SameUnit(i, Boxes()[BoxOf(i)].cells[p])
    {
      Membership(Rows()[RowOf(i)].cells[p]);
      Membership(Cols()[ColOf(i)].cells[p]);
      Membership(Boxes()[BoxOf(i)].cells[p]);
    }
  }
}
