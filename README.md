# Sudoku constraint propagation (solver.py), modelled in Dafny

`solver.py` keeps a Sudoku board as 81 `Cell` objects. Each cell holds a
`value` (0 while unassigned) and a list of remaining `options`. The cells
are shared by 27 groups: 9 `Row`s, 9 `Col`s and 9 `Group`s (the 3x3
boxes).

The rules of the file:

- `Cell.set_value` records a digit, clears the cell's options and asks
  the cell's row, column and box to `remove_option` that digit.
- `Cell.remove_option` drops the digit from an unassigned cell. When
  exactly one option remains, it assigns that option, which calls
  `set_value` again. Eliminations therefore cascade through the board.
- `Grid.__init__` lays out the groups by index arithmetic and then
  assigns every non-zero given, in index order.

The model has four modules.

- `Groups` (groups.dfy) holds the fixed layout:
  - the size check of the three group constructors, with its
    `ValueError` path as an `Err` result;
  - the index lists of the rows, columns and boxes;
  - `RowOf`, `ColOf` and `BoxOf`, which name the groups that hold a
    given index;
  - lemmas stating that each cell lies in exactly one row, one column and
    one box.
- `Cells` (cells.dfy) holds the state of one cell:
  - the `Cell` value and the fresh cell;
  - Python's `list.remove` on the option list;
  - predicates for how a board may evolve. `Narrows` says assigned values
    stay and options only shrink. `Propagated` says the cascade has run to
    completion. `Unassigned` counts the unassigned cells and bounds the
    cascade.
- `Cascade` (cascade.dfy) restates the cascade as functions on the 81
  cells. `AfterSetValue`, `AfterBroadcast`, `AfterRemoveOptionFromCells` and
  `AfterRemoveOption` make the same calls in the same order as
  `set_value`, the group `remove_option` and `Cell.remove_option`, and
  give the board each call leaves behind. `AfterGivens` does the same for
  the loop over the givens.
- `Solver` (grid.dfy) holds `class Grid`:
  - the cells, in one array indexed like the Python list;
  - the row, column and box groups built by the constructor's loops;
  - the mutually recursive methods `SetValue`, `Broadcast`, `RemoveOption`
    and `RemoveOptionFromGroup`, which update the array in place. Each
    one leaves exactly the board the matching `Cascade` function computes
    from the board it started with.

Several things are proved:

- Every operation keeps each cell well-formed: an assigned cell has no
  options, and the options stay a strictly ascending list of digits 1..9.
- No operation unassigns a cell or adds an option back.
- The cascade terminates. Each nested assignment lowers the number of
  unassigned cells.
- After `SetValue(i, v)`, no unassigned cell that shares a group with `i`
  lists `v`.
- Every change an elimination makes has a reason (`Justified`). A cell
  the cascade assigns takes one of its options. Every option a cell loses,
  other than the value it is assigned, is the value of another cell of
  its row, column or box. For `SetValue(i, v)` this covers the changes
  after the write to cell `i`; the options the write itself clears from
  cell `i` are not covered.
- Each method's final board is exactly the `Cascade` function of the
  board it started with. This fixes the order of the eliminations and
  which cells the cascade assigns, not only which changes are allowed.
- After construction, the board is exactly `AfterGivens` applied to the
  81 fresh cells. Every non-zero given sits in its cell, and no
  unassigned cell lists the value of an assigned peer or is left with a
  single option.

Later revisions of the program add more deduction and error reporting.
This file has none of it, and the model adds none:

- There are no hidden singles, naked subsets, X-Wing or solve loop.
- No `Contradiction` is raised when options run out or when a given
  overwrites a different value.
- There is no recursion-depth cap.
- Nothing checks that an assigned value is among the cell's options.
- The check for a single remaining option is made even when the removed
  digit was not present.

## Model

| member | source | states |
|---|---|---|
| Groups.NewGroup | solver.py:48-53 | Constructing a `Row` (and, identically, a `Col` at 68-73 or a `Group` at 88-93) succeeds exactly when it is given nine cells, and then keeps them in the given order. Otherwise it fails. The model's error records the group kind and the number of cells in place of the source's `ValueError` message. |
| Groups.RowAt | solver.py:112-114 | Row `t` has nine members, and member `j` is index `9t + j`: the slice `cells[9t:9t+9]`. |
| Groups.ColAt | solver.py:117-121 | Column `t` has nine members, and member `j` is index `t + 9j`: `range(t, 81, 9)`. |
| Groups.BoxAt | solver.py:123-132 | Box `t` has nine members, and member `j` is its corner plus `9*(j/3) + j%3`, i.e. the corner plus 0, 1, 2, 9, 10, 11, 18, 19, 20. |
| Groups.BoxCorners | solver.py:123-126 | The boxes are visited with corners 0, 3, 6, 27, 30, 33, 54, 57, 60. Box `b`'s corner is band start `[0, 27, 54][b/3]` plus `3*(b%3)`. |
| Groups.GroupsWellFormed | solver.py:112-132 | Every row, column and box holds exactly nine indices, all on the board and pairwise distinct. |
| Groups.GroupsInRange | solver.py:112-132 | The row, column and box numbered `t` each hold nine indices, all on the board. |
| Groups.BoxPosition | solver.py:127-130 | Box `t` holds index `k` at position `j` exactly when `t` is `BoxOf(k)` and `j` is `k`'s row within the band times 3 plus its column within the box. |
| Groups.RowMembership | solver.py:112-114 | Index `k` is in row `t` if and only if `t == k / 9`. |
| Groups.ColMembership | solver.py:117-121 | Index `k` is in column `t` if and only if `t == k % 9`. |
| Groups.BoxMembership | solver.py:123-132 | Index `k` is in box `t` if and only if `t == BoxOf(k)`. |
| Groups.GroupPeers | solver.py:16-18 | Every member of the row, the column and the box that `set_value` sends `remove_option` to is a board cell sharing a group with the cell being assigned. |
| Groups.Membership | solver.py:112-132 | Every cell lies in exactly one row, one column and one box, namely those named by `RowOf`, `ColOf` and `BoxOf`. These take the place of the back-references `set_row`, `set_col` and `set_group` store. |
| Cells.NewCell | solver.py:7-9 | A fresh cell is unassigned, and its options are exactly 1..9 in ascending order. |
| Cells.OptionAtLeast | solver.py:8 | In a strictly ascending list of digits, position `j` holds at least `j + 1`. |
| Cells.OptionListBound | solver.py:8 | An option list never has more than nine entries. |
| Cells.FirstIndex | solver.py:33 | The position `list.remove` takes out: an occurrence of `x` with no earlier occurrence. |
| Cells.RemoveFirst | solver.py:33 | `list.remove(x)` shortens the list by one. The entries before the first `x` keep their places and the later ones move down by one. |
| Cells.RemoveKeepsOptionList | solver.py:33 | Removing an entry from an option list leaves a strictly ascending list of digits. |
| Cells.RemoveFromOptionList | solver.py:31-33 | Removing a digit from an option list leaves an option list. It holds every other digit and not the removed one. |
| Cells.Eliminate | solver.py:31-33 | The option step of `remove_option`: the list loses one entry exactly when `v` was present. On an option list, the result holds exactly the old options other than `v`. |
| Cells.WellFormedUpdate | solver.py:13-14 | Writing one well-formed cell keeps the whole board well-formed. |
| Cells.Unassigned | solver.py:30 | The count of unassigned cells is at most the number of cells. |
| Cells.UnassignedUpdate | solver.py:30 | Replacing one cell changes the unassigned count only by that cell's own contribution. Assigning an unassigned cell lowers it by exactly one; an options-only change leaves it unchanged. |
| Cells.NarrowsTransitive | solver.py:13-14 | Two successive narrowings make one narrowing. |
| Cells.NarrowsUnassigned | solver.py:30 | A narrowing never raises the count of unassigned cells: values are never reset to 0. |
| Cells.HeldByPeerNarrows | solver.py:30 | A digit held by another cell of the row, column or box stays held while the board only narrows. |
| Cells.JustifiedTransitive | solver.py:29-37 | Two successive narrowing changes, each justified, make one justified change: every new assignment took an option the cell had at the start, and every option lost since is the value of a peer. |
| Cells.ThreePasses | solver.py:16-18 | The row, column and box passes of `set_value`, each narrowing and justified, together make one narrowing, justified change. |
| Cells.FreshBoard | solver.py:108 | The board `Grid.__init__` starts from: 81 well-formed cells, each unassigned with all nine options. |
| Cells.ForcedAssignment | solver.py:35-37 | When `remove_option` leaves an unassigned cell one option, and the `set_value` of that option only narrows the board and justifies its changes, then the whole call only narrows the board and justifies its changes, measured from the board before the removal. |
| Cells.EliminateJustified | solver.py:29-37 | When a peer holds `v`, removing `v` from an unassigned cell is a justified change. Assigning the one option it may leave is justified as well: the only other option the cell had is `v`. |
| Cells.AssignKeepsPropagated | solver.py:13-14 | Assigning a cell keeps the cascade complete for every cell other than the one just assigned and those already pending. |
| Cells.EliminateKeepsPropagated | solver.py:31-35 | Eliminating a digit from an unassigned cell keeps assigned values out of peers' options. Only a cell left with a single option becomes owed an assignment. |
| Cells.FinishPropagation | solver.py:16-18 | Once a cell's value is gone from all its unassigned peers, that cell's broadcast is complete. |
| Cells.BroadcastCovers | solver.py:16-18 | Removing `v` from the row, then the column, then the box of `i` leaves no unassigned peer of `i` listing `v`. This holds even though later passes may assign more cells. |
| Cascade.AfterSetValue | solver.py:11-18 | The board `set_value(v)` on cell `i` leaves: the write, then the broadcast. It is well-formed and has no more unassigned cells than the board just after the write. This bounds the nested assignments. |
| Cascade.AfterBroadcast | solver.py:16-18 | The row pass, then the column pass, then the box pass of cell `i`'s groups. The result is well-formed and never has more unassigned cells. |
| Cascade.AfterRemoveOptionFromCells | solver.py:57-59 | `remove_option(v)` on each listed cell, first to last (likewise `Col` at 77-79 and `Group` at 97-99). The result is well-formed and never has more unassigned cells. |
| Cascade.AfterRemoveOption | solver.py:29-37 | `Cell.remove_option(v)`: nothing on an assigned cell; otherwise `v` is removed and a single remaining option is assigned through `set_value`. The result is well-formed and never has more unassigned cells. |
| Cascade.RemoveFromCellsStep | solver.py:58-59 | Handling one more cell of the list is one more `remove_option` on the board the earlier cells left. |
| Cascade.SetValueNarrows | solver.py:11-18 | Apart from the write to cell `i`, the `set_value` cascade never unassigns a cell and never gives an option back. |
| Cascade.BroadcastNarrows | solver.py:16-18 | The three group passes never unassign a cell and never give an option back. |
| Cascade.RemoveFromCellsNarrows | solver.py:57-59 | A group's `remove_option` never unassigns a cell and never gives an option back. |
| Cascade.RemoveOptionNarrows | solver.py:29-37 | `Cell.remove_option` never unassigns a cell and never gives an option back. |
| Cascade.RemoveOptionOutcome | solver.py:29-37 | On an assigned cell, `remove_option` changes nothing. On an unassigned cell, `v` leaves the options and no other cell changes, unless exactly one option is left; then that option is assigned and the rest of the board only narrows. Afterwards the cell, if still unassigned, does not list `v`. |
| Cascade.MemberStep | solver.py:58-59 | After one more member of a group is handled, the pass so far is still the `AfterRemoveOptionFromCells` of the longer prefix. It still only narrows and justifies its changes, keeps the source cell holding `v`, and leaves none of the handled unassigned members listing `v`. |
| Cascade.AfterGivens | solver.py:134-136 | The givens handled in index order, each non-zero one by `set_value`. Every non-zero given among the first `n` is its cell's value afterwards, even when a later cascade assigned cells. |
| Cascade.ZeroGivensKeepBoard | solver.py:134-136 | With every given 0, the loop over the givens leaves the board unchanged. |
| Cascade.ZeroGivensFresh | solver.py:107-136 | With every given 0, `Grid.__init__` leaves 81 fresh cells. |
| Solver.Grid.constructor | solver.py:107-136 | Builds the 27 groups and 81 fresh well-formed cells, then assigns each non-zero given. The final board is exactly `AfterGivens` of the fresh board and the givens. Every non-zero given is its cell's value, and the board is fully propagated. With every given 0, all 81 cells are left fresh. |
| Solver.Grid.BuildCols | solver.py:116-121 | The column loop builds exactly the nine columns: column `c` holds indices `c, c + 9, ..., c + 72`. |
| Solver.Grid.BuildBoxes | solver.py:123-132 | The box loop builds exactly the nine boxes, band by band, with corners 0, 3, 6, 27, 30, 33, 54, 57, 60. |
| Solver.Grid.AssignGivens | solver.py:134-136 | Handles the givens in index order and assigns each non-zero one. A given overwrites whatever a cascade left in its cell. The final board is exactly `AfterGivens` of the starting board, and the board stays fully propagated. |
| Solver.Grid.SetValue | solver.py:11-18 | The final board is exactly `AfterSetValue` of the starting board. Cell `i` ends with value `v` and no options. The rest of the board only narrows from the state just after the write, and every change is justified: a cell the cascade assigned took one of its options, and any other option a cell lost is the value of a peer. No unassigned cell in `i`'s row, column or box still lists `v`. Every cell outside the callers' pending set is propagated. |
| Solver.Grid.Broadcast | solver.py:16-18 | The final board is exactly `AfterBroadcast` of the starting board. The row, column and box passes only narrow the board, make only justified changes, and leave no unassigned peer of `i` listing `v`. |
| Solver.Grid.RemoveOption | solver.py:29-37 | The final board is exactly `AfterRemoveOption` of the starting board. The call only narrows the board, and every change it makes is justified. The cells outside the pending set stay propagated. |
| Solver.Grid.RemoveOptionFromGroup | solver.py:57-59 | The `remove_option` of `Row` (identically `Col` at 77-79 and `Group` at 97-99). The final board is exactly `AfterRemoveOptionFromCells` of the starting board and the group's cells. The pass only narrows the board, and every change is justified. The source cell keeps `v`, and no unassigned member of the group is left listing `v`. |

## Left out

- `__str__` on `Cell`, `Row`, `Col`, `Group` and `Grid` produces only text and is not modelled.
- The `print` tracing in `set_value` and `remove_option` is console output with no effect on state, and is not modelled.
- `Cell.index` is used only by those prints, so a cell is identified by its array position instead.
- The `__main__` demo puzzle is not modelled.
- Groups.NewGroup: the `ValueError` the source raises wraps a second `ValueError` whose message lists the cell objects received. The model's `WrongSize` error keeps only the group kind and the count of cells.
- Solver.Grid.RemoveOption: requires, when cell `j` is unassigned, that another cell of its row, column or box holds `v`.
  - The source has no such check.
  - Its only caller, the group broadcast of `set_value`, always meets it.
  - The requirement is what lets the contract explain every removed option by a peer's value.
- Solver.Grid.constructor: requires exactly 81 givens.
  - For most other lengths the source fails, with the `ValueError` of a short last row or an `IndexError` while building the columns.
  - Longer inputs made of whole extra rows whose entries are all 0 are accepted by the source. The model does not cover them.
- Cell back-references (`set_row`, `set_col`, `set_group` and the registration loops in the group constructors) are replaced by the index functions `RowOf`, `ColOf` and `BoxOf`. `Groups.Membership` proves these name the one row, column and box holding each cell. Object identity and aliasing are therefore not modelled.
- Solver.Grid.constructor: allocates the cell array after building the groups, while the source creates the cells first.
  - The groups hold indices rather than cell references, so the order has no effect on the result.
  - The group constructors' `ValueError` path cannot be reached here, since every group list has nine entries.
- The ghost `pending` parameter of the elimination methods is proof bookkeeping. It names the cells whose broadcast is still running further up the call chain, and has no counterpart in the source.
- Python integers are unbounded, and so are Dafny's `int`. No width or wrap-around arises.
