/** The state of one cell (its value, 0 while unassigned, and its list of
    remaining options), the list operation `remove_option` performs on it, and
    the predicates that describe how the 81 cells of a grid may evolve. */
module Cells {
  import opened Groups

  /** A cell: `value` is 0 while the cell is unassigned. */
  datatype Cell = Cell(value: int, options: seq<int>)

  /** An option list: digits 1..9, strictly ascending (so free of duplicates);
      equivalently, a subsequence of [1, 2, .., 9]. */
  predicate IsOptionList(s: seq<int>)
  {
    (forall j :: 0 <= j < |s| ==> 1 <= s[j] <= 9) &&
    (forall j, l :: 0 <= j < l < |s| ==> s[j] < s[l])
  }

  /** `Cell.__init__`: value 0 and every digit as an option, in ascending order. */
  function NewCell(): (c: Cell)
    ensures c.value == 0
    ensures IsOptionList(c.options) && |c.options| == 9
    ensures forall d :: d in c.options <==> 1 <= d <= 9
    ensures c.options == [1, 2, 3, 4, 5, 6, 7, 8, 9]
  {
    var options := seq(9, x => x + 1);
    assert options == [1, 2, 3, 4, 5, 6, 7, 8, 9];
    Cell(0, options)
  }

  /** Position `j` of an option list holds a digit of at least j + 1. */
  lemma {:induction false} OptionAtLeast(s: seq<int>, j: int)
    requires IsOptionList(s) && 0 <= j < |s|
    ensures s[j] >= j + 1
  {
    if j > 0 {
      OptionAtLeast(s, j - 1);
    }
  }

  /** An option list never has more than nine entries. */
  lemma OptionListBound(s: seq<int>)
    requires IsOptionList(s)
    ensures |s| <= 9
  {
    if |s| > 0 {
      OptionAtLeast(s, |s| - 1);
    }
  }

  /** Index of the first occurrence of `x` in `s`. */
  function FirstIndex(s: seq<int>, x: int): (i: nat)
    requires x in s
    ensures i < |s| && s[i] == x && x !in s[..i]
  {
    if s[0] == x then 0 else 1 + FirstIndex(s[1..], x)
  }

  /** Position in the original list of entry `j` of the list that lacks
      the entry at position `i`. */
  function Skip(j: int, i: int): int { if j < i then j else j + 1 }

  /** Python's `list.remove(x)` on a list that holds `x`: the first
      occurrence of `x` is taken out; the entries before it stay where they
      are and the entries after it move down by one. */
  function RemoveFirst(s: seq<int>, x: int): (r: seq<int>)
    requires x in s
    ensures |r| == |s| - 1
    ensures forall j :: 0 <= j < |r| ==> r[j] == s[Skip(j, FirstIndex(s, x))]
  {
    if s[0] == x then s[1..] else [s[0]] + RemoveFirst(s[1..], x)
  }

  /** Removing an entry from a strictly ascending list of digits leaves one. */
  lemma RemoveKeepsOptionList(s: seq<int>, x: int)
    requires IsOptionList(s) && x in s
    ensures IsOptionList(RemoveFirst(s, x))
  {
    var i := FirstIndex(s, x);
    var r := RemoveFirst(s, x);
    forall j, l | 0 <= j < l < |r| ensures r[j] < r[l] {
      assert r[j] == s[Skip(j, i)] && r[l] == s[Skip(l, i)];
    }
  }

  /** Removing a digit from an option list yields an option list without
      that digit and with every other digit kept. */
  lemma RemoveFromOptionList(s: seq<int>, x: int)
    requires x in s
    ensures IsOptionList(s) ==> IsOptionList(RemoveFirst(s, x))
    ensures IsOptionList(s) ==> forall y :: y in RemoveFirst(s, x) <==> y in s && y != x
  {
    if !IsOptionList(s) {
      return;
    }
    RemoveKeepsOptionList(s, x);
    var i := FirstIndex(s, x);
    var r := RemoveFirst(s, x);
    forall j | 0 <= j < |r| ensures r[j] != x {
      assert r[j] == s[Skip(j, i)];
    }
    forall y | y in s && y != x
      ensures y in r
    {
      var l :| 0 <= l < |s| && s[l] == y;
      var j := if l < i then l else l - 1;
      assert r[j] == s[Skip(j, i)];
    }
  }

  /** The first step of `remove_option` on an unassigned cell: `v` is taken
      out of the options if it is among them, and nothing else changes. */
  function Eliminate(options: seq<int>, v: int): (r: seq<int>)
    ensures |r| == if v in options then |options| - 1 else |options|
    ensures IsOptionList(options) ==> IsOptionList(r)
    ensures IsOptionList(options) ==> forall y :: y in r <==> y in options && y != v
  {
    if v in options then RemoveFromOptionList(options, v); RemoveFirst(options, v) else options
  }

  /** A cell the grid can hold: an assigned value has no options left. */
  predicate WellFormedCell(c: Cell)
  {
    IsOptionList(c.options) && (c.value != 0 ==> c.options == [])
  }

  predicate WellFormed(s: seq<Cell>)
  {
    |s| == BOARD_SIZE && forall k {:trigger WellFormedCell(s[k])} :: 0 <= k < |s| ==> WellFormedCell(s[k])
  }

  /** Replacing a cell by a well-formed one keeps the grid well-formed. */
  lemma WellFormedUpdate(s: seq<Cell>, i: int, c: Cell)
    requires WellFormed(s) && 0 <= i < |s| && WellFormedCell(c)
    ensures WellFormed(s[i := c])
  {
    var t := s[i := c];
    forall k | 0 <= k < |t| ensures WellFormedCell(t[k]) {
      if k != i { assert WellFormedCell(s[k]); }
    }
  }

  /** Number of unassigned cells: the measure that bounds cascading. */
  function Unassigned(s: seq<Cell>): (n: nat)
    ensures n <= |s|
  {
    if s == [] then 0 else (if s[0].value == 0 then 1 else 0) + Unassigned(s[1..])
  }

  /** Replacing one cell changes the count by that cell's contribution only:
      assigning an unassigned cell lowers it by exactly one, and a change
      of options alone leaves it as it was. */
  lemma {:induction false} UnassignedUpdate(s: seq<Cell>, i: int, c: Cell)
    requires 0 <= i < |s|
    ensures Unassigned(s[i := c]) ==
      Unassigned(s) - (if s[i].value == 0 then 1 else 0) + (if c.value == 0 then 1 else 0)
  {
    if i == 0 {
      assert s[i := c][1..] == s[1..];
    } else {
      assert s[i := c][1..] == s[1..][i - 1 := c];
      UnassignedUpdate(s[1..], i - 1, c);
    }
  }

  /** The 81 cells `Grid.__init__` creates, before any given is assigned. */
  function FreshBoard(): (b: seq<Cell>)
    ensures WellFormed(b)
    ensures forall k :: 0 <= k < |b| ==> b[k].value == 0 && |b[k].options| == 9
  {
    var b := seq(BOARD_SIZE, _ => NewCell());
    assert forall k :: 0 <= k < BOARD_SIZE ==> WellFormedCell(b[k]);
    b
  }

  /** The fresh board has no assigned cell and no cell with a single option,
      so nothing is owed to the cascade. */
  lemma FreshPropagated()
    ensures Propagated(FreshBoard(), {})
  {
  }

  /** `c1` is a later state of `c0`: a value once assigned is kept and the
      options only shrink. */
  predicate Narrower(c0: Cell, c1: Cell)
  {
    (c0.value != 0 ==> c1.value == c0.value) &&
    (forall x :: x in c1.options ==> x in c0.options)
  }

  /** Every cell of `s1` is a later state of the same cell of `s0`. */
  predicate Narrows(s0: seq<Cell>, s1: seq<Cell>)
  {
    |s0| == |s1| && forall k :: 0 <= k < |s1| ==> Narrower(s0[k], s1[k])
  }

  lemma NarrowsTransitive(s0: seq<Cell>, s1: seq<Cell>, s2: seq<Cell>)
    requires Narrows(s0, s1) && Narrows(s1, s2)
    ensures Narrows(s0, s2)
  {
    assert forall k :: 0 <= k < |s2| ==> Narrower(s0[k], s1[k]) && Narrower(s1[k], s2[k]);
  }

  /** Narrowing never unassigns a cell, so the count of unassigned cells
      cannot grow. */
  lemma {:induction false} NarrowsUnassigned(s0: seq<Cell>, s1: seq<Cell>)
    requires Narrows(s0, s1)
    ensures Unassigned(s1) <= Unassigned(s0)
  {
    if s1 != [] {
      assert Narrower(s0[0], s1[0]);
      assert Narrows(s0[1..], s1[1..]) by {
        forall k | 0 <= k < |s1| - 1 ensures Narrower(s0[1..][k], s1[1..][k]) {
          assert Narrower(s0[k + 1], s1[k + 1]);
        }
      }
      NarrowsUnassigned(s0[1..], s1[1..]);
    }
  }

  /** Another cell of the row, column or box of `k` holds the value `x`. */
  predicate HeldByPeer(s: seq<Cell>, k: int, x: int)
  {
    exists p :: 0 <= p < |s| && p != k && SameUnit(p, k) && s[p].value == x
  }

  /** Every change from `s0` to `s1` has a reason `remove_option` could give:
      a cell assigned since `s0` took one of its `s0` options, and each option
      a cell has lost, other than the value it was assigned, is the value in
      `s1` of another cell of its row, column or box. */
  predicate Justified(s0: seq<Cell>, s1: seq<Cell>)
  {
    |s0| == |s1| &&
    forall k :: 0 <= k < |s1| && s0[k].value == 0 ==>
      (s1[k].value != 0 ==> s1[k].value in s0[k].options) &&
      forall x :: x in s0[k].options && x !in s1[k].options && x != s1[k].value ==> HeldByPeer(s1, k, x)
  }

  /** A value held by a peer stays held while the board only narrows. */
  lemma HeldByPeerNarrows(s1: seq<Cell>, s2: seq<Cell>, k: int, x: int)
    requires Narrows(s1, s2) && x != 0 && HeldByPeer(s1, k, x)
    ensures HeldByPeer(s2, k, x)
  {
    var p :| 0 <= p < |s1| && p != k && SameUnit(p, k) && s1[p].value == x;
    assert Narrower(s1[p], s2[p]);
  }

  /** Justified changes compose, as long as each step only narrows. */
  lemma JustifiedTransitive(s0: seq<Cell>, s1: seq<Cell>, s2: seq<Cell>)
    requires WellFormed(s0) && WellFormed(s1)
    requires Narrows(s0, s1) && Narrows(s1, s2)
    requires Justified(s0, s1) && Justified(s1, s2)
    ensures Justified(s0, s2)
  {
    forall k | 0 <= k < |s2| && s0[k].value == 0
      ensures s2[k].value != 0 ==> s2[k].value in s0[k].options
      ensures forall x :: x in s0[k].options && x !in s2[k].options && x != s2[k].value ==> HeldByPeer(s2, k, x)
    {
      assert WellFormedCell(s0[k]) && WellFormedCell(s1[k]);
      assert Narrower(s0[k], s1[k]) && Narrower(s1[k], s2[k]);
      forall x | x in s0[k].options && x !in s2[k].options && x != s2[k].value
        ensures HeldByPeer(s2, k, x)
      {
        var l :| 0 <= l < |s0[k].options| && s0[k].options[l] == x;
        if s1[k].value == 0 && x in s1[k].options {
        } else {
          assert HeldByPeer(s1, k, x);
          HeldByPeerNarrows(s1, s2, k, x);
        }
      }
    }
  }

  /** Three passes that each narrow and are each justified make one such
      change. */
  lemma ThreePasses(s0: seq<Cell>, s1: seq<Cell>, s2: seq<Cell>, s3: seq<Cell>)
    requires WellFormed(s0) && WellFormed(s1) && WellFormed(s2)
    requires Narrows(s0, s1) && Narrows(s1, s2) && Narrows(s2, s3)
    requires Justified(s0, s1) && Justified(s1, s2) && Justified(s2, s3)
    ensures Narrows(s0, s3) && Justified(s0, s3)
  {
    NarrowsTransitive(s0, s1, s2);
    NarrowsTransitive(s0, s2, s3);
    JustifiedTransitive(s0, s1, s2);
    JustifiedTransitive(s0, s2, s3);
  }

  /** A fact about each position of a member list is a fact about each
      member. */
  lemma EveryMember(s: seq<Cell>, ms: seq<int>, v: int)
    requires forall p :: 0 <= p < |ms| ==> 0 <= ms[p] < |s|
    requires forall p :: 0 <= p < |ms| && s[ms[p]].value == 0 ==> v !in s[ms[p]].options
    ensures forall m :: m in ms && s[m].value == 0 ==> v !in s[m].options
  {
    forall m | m in ms && s[m].value == 0
      ensures v !in s[m].options
    {
      var p :| 0 <= p < |ms| && ms[p] == m;
    }
  }

  /** The option step of `remove_option(v)` on an unassigned cell is
      justified when a peer holds `v`, and so is assigning the one option
      it may leave. */
  lemma EliminateJustified(s: seq<Cell>, j: int, v: int)
    requires 0 <= j < |s| && s[j].value == 0 && IsOptionList(s[j].options)
    requires HeldByPeer(s, j, v)
    ensures Justified(s, s[j := Cell(0, Eliminate(s[j].options, v))])
    ensures |Eliminate(s[j].options, v)| == 1 ==>
      Justified(s, s[j := Cell(Eliminate(s[j].options, v)[0], [])])
  {
    var rest := Eliminate(s[j].options, v);
    var p :| 0 <= p < |s| && p != j && SameUnit(p, j) && s[p].value == v;
    var t := s[j := Cell(0, rest)];
    assert t[p].value == v;
    assert HeldByPeer(t, j, v);
    if |rest| == 1 {
      var u := s[j := Cell(rest[0], [])];
      assert u[p].value == v;
      assert HeldByPeer(u, j, v);
      assert rest == [rest[0]];
    }
  }
  /** When `remove_option(v)` leaves an unassigned cell a single option and
      the `set_value` of that option only narrows and justifies its changes,
      the whole call only narrows the board and justifies its changes. */
  lemma ForcedAssignment(s: seq<Cell>, j: int, v: int, after: seq<Cell>)
    requires WellFormed(s) && 0 <= j < |s| && s[j].value == 0 && HeldByPeer(s, j, v)
    requires |Eliminate(s[j].options, v)| == 1
    requires Narrows(s[j := Cell(Eliminate(s[j].options, v)[0], [])], after)
    requires Justified(s[j := Cell(Eliminate(s[j].options, v)[0], [])], after)
    ensures Narrows(s, after) && Justified(s, after)
  {
    assert WellFormedCell(s[j]);
    var rest := Eliminate(s[j].options, v);
    var forced := s[j := Cell(rest[0], [])];
    EliminateJustified(s, j, v);
    WellFormedUpdate(s, j, Cell(rest[0], []));
    assert Narrower(s[j], forced[j]);
    NarrowsTransitive(s, forced, after);
    JustifiedTransitive(s, forced, after);
  }


  /** Every assigned cell outside `pending` has had its value taken out of the
      options of each unassigned cell in its row, column and box. */
  predicate Consistent(s: seq<Cell>, pending: set<int>)
  {
    forall a, k {:trigger SameUnit(a, k)} ::
      0 <= a < |s| && 0 <= k < |s| && a !in pending && SameUnit(a, k) && s[a].value != 0 && s[k].value == 0
      ==> s[a].value !in s[k].options
  }

  /** No unassigned cell outside `pending` is left with exactly one option. */
  predicate SinglesAssigned(s: seq<Cell>, pending: set<int>)
  {
    forall k :: 0 <= k < |s| && k !in pending && s[k].value == 0 ==> |s[k].options| != 1
  }

  /** The cascade has run to completion for every cell outside `pending`. */
  predicate Propagated(s: seq<Cell>, pending: set<int>)
  {
    Consistent(s, pending) && SinglesAssigned(s, pending)
  }

  /** Assigning a digit to cell `i` keeps the cascade complete for every
      cell outside `pending` and `i` itself. */
  lemma AssignKeepsPropagated(s: seq<Cell>, i: int, v: int, pending: set<int>)
    requires 0 <= i < |s| && v != 0 && Propagated(s, pending + {i})
    ensures Propagated(s[i := Cell(v, [])], pending + {i})
  {
  }

  /** Taking `v` out of the options of unassigned cell `j` keeps every
      assigned value out of its peers' options; the cascade stays complete
      unless exactly one option is left, and then only `j` is owed an
      assignment. */
  lemma EliminateKeepsPropagated(s: seq<Cell>, j: int, v: int, pending: set<int>)
    requires 0 <= j < |s| && s[j].value == 0 && IsOptionList(s[j].options)
    requires Propagated(s, pending)
    ensures Propagated(s[j := Cell(0, Eliminate(s[j].options, v))], pending + {j})
    ensures |Eliminate(s[j].options, v)| != 1 ==> Propagated(s[j := Cell(0, Eliminate(s[j].options, v))], pending)
  {
  }

  /** Once an assigned cell's value is out of the options of every
      unassigned peer, that cell no longer needs to be pending. */
  lemma FinishPropagation(s: seq<Cell>, i: int, pending: set<int>)
    requires 0 <= i < |s| && s[i].value != 0
    requires Propagated(s, pending + {i})
    requires forall k :: 0 <= k < |s| && SameUnit(i, k) && s[k].value == 0 ==> s[i].value !in s[k].options
    ensures Propagated(s, pending)
  {
  }

  /** After `v` has been removed along the row, then the column, then the
      box of cell `i`, with each pass only narrowing the cells, no unassigned
      cell that shares a group with `i` still lists `v`. */
  lemma BroadcastCovers(s1: seq<Cell>, s2: seq<Cell>, s3: seq<Cell>, i: int, v: int)
    requires 0 <= i < BOARD_SIZE && |s1| == BOARD_SIZE
    requires Narrows(s1, s2) && Narrows(s2, s3)
    requires forall m :: 0 <= m < BOARD_SIZE && m in Rows()[RowOf(i)].cells && s1[m].value == 0 ==> v !in s1[m].options
    requires forall m :: 0 <= m < BOARD_SIZE && m in Cols()[ColOf(i)].cells && s2[m].value == 0 ==> v !in s2[m].options
    requires forall m :: 0 <= m < BOARD_SIZE && m in Boxes()[BoxOf(i)].cells && s3[m].value == 0 ==> v !in s3[m].options
    ensures forall k :: 0 <= k < BOARD_SIZE && SameUnit(i, k) && s3[k].value == 0 ==> v !in s3[k].options
  {
    Membership(i);
    forall k | 0 <= k < BOARD_SIZE && SameUnit(i, k) && s3[k].value == 0
      ensures v !in s3[k].options
    {
      Membership(k);
      assert Narrower(s1[k], s2[k]) && Narrower(s2[k], s3[k]);
    }
  }
}
