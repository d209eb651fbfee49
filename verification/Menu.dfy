/** Keyboard selection in a menu: rows of varying length, some of them unselectable. */
module Menu {
  import opened Text

  datatype Fields = Fields(disabled: bool, noInteractionOnHover: bool)

  datatype MenuItem =
    | Item(fields: Fields)
    | Separator
    | ItemsRow(entries: seq<Fields>)
    | Submenu(children: seq<MenuItem>)
    | Header(clickable: bool)
  {
    function ItemsLen(): Option<nat> {
      match this
      case Item(_) => Some(1)
      case Separator => None
      case ItemsRow(entries) => Some(|entries|)
      case Submenu(children) => Some(|children| + 1)
      case Header(clickable) => Some(if clickable then 1 else 0)
    }

    predicate Selectable() {
      match this
      case Item(fields) => !fields.disabled && !fields.noInteractionOnHover
      case ItemsRow(entries) => exists f <- entries :: !f.disabled && !f.noInteractionOnHover
      case Separator => false
      case Submenu(children) => children != []
      case Header(clickable) => clickable
    }

    /** `items_len().map_or(0, |l| l.saturating_sub(1))`. */
    function LastItem(): nat {
      var len := ItemsLen().GetOr(0);
      if len == 0 then 0 else len - 1
    }
  }

  datatype SelectAction = Index(row: nat, item: nat) | Previous | Next

  // ----- the row search

  /** `enumerate().cycle().skip(skip).take(n)` over `n` rows. */
  function Forward(n: nat, skip: nat): seq<nat>
    requires n > 0
  {
    seq(n, d requires 0 <= d < n => (skip + d) % n)
  }

  /** `enumerate().rev().cycle().skip(skip).take(n)`. */
  function Backward(n: nat, skip: nat): seq<nat>
    requires n > 0
  {
    seq(n, d requires 0 <= d < n => n - 1 - (skip + d) % n)
  }

  function FirstSelectable(items: seq<MenuItem>, rows: seq<nat>): (r: Option<nat>)
    requires forall i :: 0 <= i < |rows| ==> rows[i] < |items|
    ensures r.Some? ==> r.value < |items| && items[r.value].Selectable()
  {
    if rows == [] then None
    else if items[rows[0]].Selectable() then Some(rows[0])
    else FirstSelectable(items, rows[1..])
  }

  function NextRow(items: seq<MenuItem>, row: nat): (r: nat)
    requires row < |items|
    ensures r < |items|
  {
    FirstSelectable(items, Forward(|items|, row + 1)).GetOr(row)
  }

  function PreviousRow(items: seq<MenuItem>, row: nat): (r: nat)
    requires row < |items|
    ensures r < |items|
  {
    FirstSelectable(items, Backward(|items|, |items| - row)).GetOr(row)
  }

  /** Where an action moves the selection. */
  function Select(items: seq<MenuItem>, action: SelectAction, row: Option<nat>, item: Option<nat>): (nat, nat)
    requires row.Some? ==> row.value < |items|
  {
    match action
    case Index(r, i) => (r, i)
    case Previous =>
      if row.None? then (0, 0)
      else if item.Some? && item.value > 0 then (row.value, item.value - 1)
      else var r := PreviousRow(items, row.value); (r, items[r].LastItem())
    case Next =>
      if row.None? then (0, 0)
      else if item.Some? && item.value < items[row.value].LastItem() then (row.value, item.value + 1)
      else (NextRow(items, row.value), 0)
  }

  class SubMenu {
    const items: seq<MenuItem>
    var selectedRow: Option<nat>
    var selectedItem: Option<nat>
    var hoveredRow: Option<nat>

    constructor (items: seq<MenuItem>)
      ensures this.items == items && selectedRow == selectedItem == hoveredRow == None
    {
      this.items := items;
      selectedRow, selectedItem, hoveredRow := None, None, None;
    }

    method SelectInternal(action: SelectAction)
      requires selectedRow.Some? ==> selectedRow.value < |items|
      modifies this
      ensures selectedRow == Some(Select(items, action, old(selectedRow), old(selectedItem)).0)
      ensures selectedItem == Some(Select(items, action, old(selectedRow), old(selectedItem)).1)
      ensures hoveredRow == selectedRow
    {
      var row, item := 0, 0;
      if action.Index? {
        row, item := action.row, action.item;
      } else if selectedRow.Some? {
        row := selectedRow.value;
        if action.Previous? {
          if selectedItem.Some? && selectedItem.value > 0 {
            item := selectedItem.value - 1;
          } else {
            row := PreviousRow(items, row);
            item := items[row].LastItem();
          }
        } else if selectedItem.Some? && selectedItem.value < items[row].LastItem() {
          item := selectedItem.value + 1;
        } else {
          row := NextRow(items, row);
        }
      }
      selectedRow, selectedItem, hoveredRow := Some(row), Some(item), Some(row);
    }

    /** Selects the first selectable row, or leaves the selection alone if there is none. */
    method SelectFirstSelectable() returns (found: bool)
      requires selectedRow.Some? ==> selectedRow.value < |items|
      modifies this
      ensures found <==> exists r :: 0 <= r < |items| && items[r].Selectable()
      ensures found ==> selectedRow.Some? && selectedItem == Some(0) && IsCell(items, (selectedRow.value, 0))
      ensures found ==> forall r :: 0 <= r < selectedRow.value ==> !items[r].Selectable()
      ensures !found ==> unchanged(this)
    {
      for r := 0 to |items|
        invariant forall q :: 0 <= q < r ==> !items[q].Selectable()
        invariant unchanged(this)
      {
        if items[r].Selectable() {
          SelectInternal(Index(r, 0));
          SelectableHasItems(items[r]);
          return true;
        }
      }
      return false;
    }
  }

  // ----- cells and their rank

  /** A cell: an item of a selectable row. */
  predicate IsCell(items: seq<MenuItem>, cell: (nat, nat)) {
    cell.0 < |items| && items[cell.0].Selectable() && cell.1 < items[cell.0].ItemsLen().GetOr(0)
  }

  lemma SelectableHasItems(item: MenuItem)
    requires item.Selectable()
    ensures item.ItemsLen().Some? && item.ItemsLen().value == item.LastItem() + 1
  {
  }

  /** How many cells stand in the rows before `row`. */
  function CellsBefore(items: seq<MenuItem>, row: nat): nat
    requires row <= |items|
  {
    if row == 0 then 0
    else CellsBefore(items, row - 1) + if items[row - 1].Selectable() then items[row - 1].ItemsLen().GetOr(0) else 0
  }

  function CellCount(items: seq<MenuItem>): nat {
    CellsBefore(items, |items|)
  }

  /** The position of a cell in reading order. */
  function Rank(items: seq<MenuItem>, cell: (nat, nat)): nat
    requires IsCell(items, cell)
  {
    CellsBefore(items, cell.0) + cell.1
  }

  lemma {:induction false} CellsBeforeGrows(items: seq<MenuItem>, a: nat, b: nat)
    requires a <= b <= |items|
    ensures CellsBefore(items, a) <= CellsBefore(items, b)
    ensures (forall r :: a <= r < b ==> !items[r].Selectable()) ==> CellsBefore(items, a) == CellsBefore(items, b)
    decreases b
  {
    if a < b {
      CellsBeforeGrows(items, a, b - 1);
    }
  }

  lemma RankBounds(items: seq<MenuItem>, cell: (nat, nat))
    requires IsCell(items, cell)
    ensures Rank(items, cell) < CellCount(items)
  {
    CellsBeforeGrows(items, cell.0 + 1, |items|);
  }

  lemma RankIsInjective(items: seq<MenuItem>, c: (nat, nat), d: (nat, nat))
    requires IsCell(items, c) && IsCell(items, d) && Rank(items, c) == Rank(items, d)
    ensures c == d
  {
    if c.0 < d.0 {
      CellsBeforeGrows(items, c.0 + 1, d.0);
    } else if d.0 < c.0 {
      CellsBeforeGrows(items, d.0 + 1, c.0);
    }
  }

  lemma {:induction false} FirstSelectableIsFirst(items: seq<MenuItem>, rows: seq<nat>) returns (k: nat)
    requires forall i :: 0 <= i < |rows| ==> rows[i] < |items|
    requires exists i :: 0 <= i < |rows| && items[rows[i]].Selectable()
    ensures k < |rows| && FirstSelectable(items, rows) == Some(rows[k])
    ensures forall j :: 0 <= j < k ==> !items[rows[j]].Selectable()
  {
    if items[rows[0]].Selectable() {
      k := 0;
    } else {
      var i :| 0 <= i < |rows| && items[rows[i]].Selectable();
      assert rows[1..][i - 1] == rows[i];
      k := FirstSelectableIsFirst(items, rows[1..]);
      k := k + 1;
    }
  }

  /** The next selectable row, possibly after wrapping around to the same row. */
  lemma NextRowSkipsNone(items: seq<MenuItem>, row: nat)
    requires row < |items| && items[row].Selectable()
    ensures var r := NextRow(items, row);
            && items[r].Selectable()
            && (r > row ==> forall q :: row < q < r ==> !items[q].Selectable())
            && (r <= row ==> forall q :: row < q < |items| || 0 <= q < r ==> !items[q].Selectable())
  {
    var n := |items|;
    var rows := Forward(n, row + 1);
    forall d | 0 <= d < n ensures rows[d] == if row + 1 + d < n then row + 1 + d else row + 1 + d - n {
      WrapOnce(row + 1 + d, n);
    }
    assert rows[n - 1] == row;
    var k := FirstSelectableIsFirst(items, rows);
    var r := NextRow(items, row);
    forall q | 0 <= q < n && (if r > row then row < q < r else q > row || q < r) ensures !items[q].Selectable() {
      var d := if q > row then q - row - 1 else q + n - row - 1;
      assert rows[d] == q;
    }
  }

  lemma PreviousRowSkipsNone(items: seq<MenuItem>, row: nat)
    requires row < |items| && items[row].Selectable()
    ensures var r := PreviousRow(items, row);
            && items[r].Selectable()
            && (r < row ==> forall q :: r < q < row ==> !items[q].Selectable())
            && (r >= row ==> forall q :: 0 <= q < row || r < q < |items| ==> !items[q].Selectable())
  {
    var n := |items|;
    var rows := Backward(n, n - row);
    forall d | 0 <= d < n ensures rows[d] == if d < row then row - 1 - d else row - 1 - d + n {
      WrapOnce(n - row + d, n);
    }
    assert rows[n - 1] == row;
    var k := FirstSelectableIsFirst(items, rows);
    var r := PreviousRow(items, row);
    forall q | 0 <= q < n && (if r < row then r < q < row else q < row || q > r) ensures !items[q].Selectable() {
      var d := if q < row then row - 1 - q else row - 1 - q + n;
      assert rows[d] == q;
    }
  }

  lemma WrapOnce(a: nat, n: nat)
    requires 0 < n && a < 2 * n
    ensures a % n == if a < n then a else a - n
  {
    if a >= n {
      assert a % n == (a - n) % n;
    }
  }

  // ----- one cycle

  function NextCell(items: seq<MenuItem>, cell: (nat, nat)): (nat, nat)
    requires IsCell(items, cell)
  {
    Select(items, Next, Some(cell.0), Some(cell.1))
  }

  function PreviousCell(items: seq<MenuItem>, cell: (nat, nat)): (nat, nat)
    requires IsCell(items, cell)
  {
    Select(items, Previous, Some(cell.0), Some(cell.1))
  }

  /** `Next` moves to the next cell in reading order, and from the last one to the first. */
  lemma NextAdvancesRank(items: seq<MenuItem>, cell: (nat, nat))
    requires IsCell(items, cell)
    ensures IsCell(items, NextCell(items, cell))
    ensures Rank(items, NextCell(items, cell))
         == if Rank(items, cell) + 1 < CellCount(items) then Rank(items, cell) + 1 else 0
  {
    var (row, item) := cell;
    SelectableHasItems(items[row]);
    RankBounds(items, cell);
    if item == items[row].LastItem() {
      NextRowSkipsNone(items, row);
      var r := NextRow(items, row);
      SelectableHasItems(items[r]);
      if r > row {
        CellsBeforeGrows(items, row + 1, r);
        CellsBeforeGrows(items, r + 1, |items|);
      } else {
        CellsBeforeGrows(items, row + 1, |items|);
        CellsBeforeGrows(items, 0, r);
      }
    } else {
      RankBounds(items, (row, item + 1));
    }
  }

  lemma PreviousLowersRank(items: seq<MenuItem>, cell: (nat, nat))
    requires IsCell(items, cell)
    ensures IsCell(items, PreviousCell(items, cell))
    ensures Rank(items, PreviousCell(items, cell))
         == if Rank(items, cell) > 0 then Rank(items, cell) - 1 else CellCount(items) - 1
  {
    var (row, item) := cell;
    SelectableHasItems(items[row]);
    if item == 0 {
      PreviousRowSkipsNone(items, row);
      var r := PreviousRow(items, row);
      SelectableHasItems(items[r]);
      if r < row {
        CellsBeforeGrows(items, r + 1, row);
      } else {
        CellsBeforeGrows(items, 0, row);
        CellsBeforeGrows(items, r + 1, |items|);
      }
    }
  }

  /** `Next` and `Previous` undo each other. */
  lemma NextAndPreviousAreInverse(items: seq<MenuItem>, cell: (nat, nat))
    requires IsCell(items, cell)
    ensures IsCell(items, NextCell(items, cell)) && PreviousCell(items, NextCell(items, cell)) == cell
    ensures IsCell(items, PreviousCell(items, cell)) && NextCell(items, PreviousCell(items, cell)) == cell
  {
    RankBounds(items, cell);
    var next, previous := NextCell(items, cell), PreviousCell(items, cell);
    NextAdvancesRank(items, cell);
    PreviousLowersRank(items, next);
    RankIsInjective(items, PreviousCell(items, next), cell);
    PreviousLowersRank(items, cell);
    NextAdvancesRank(items, previous);
    RankIsInjective(items, NextCell(items, previous), cell);
  }

  /** The cell after `steps` presses of `Next`. */
  ghost function After(items: seq<MenuItem>, cell: (nat, nat), steps: nat): (c: (nat, nat))
    requires IsCell(items, cell)
    ensures IsCell(items, c)
  {
    if steps == 0 then cell
    else
      var c := After(items, cell, steps - 1);
      NextAdvancesRank(items, c);
      NextCell(items, c)
  }

  lemma {:induction false} RankAfter(items: seq<MenuItem>, cell: (nat, nat), steps: nat)
    requires IsCell(items, cell) && steps <= CellCount(items)
    ensures var rank := Rank(items, cell) + steps;
            Rank(items, After(items, cell, steps)) == if rank < CellCount(items) then rank else rank - CellCount(items)
  {
    RankBounds(items, cell);
    if steps == 0 {
    } else {
      RankAfter(items, cell, steps - 1);
      NextAdvancesRank(items, After(items, cell, steps - 1));
    }
  }

  /** Menu movement is one cycle: from any cell, pressing `Next` reaches every cell at exactly one
      step before the step that returns to the start. */
  lemma NextIsOneCycle(items: seq<MenuItem>, start: (nat, nat), target: (nat, nat)) returns (steps: nat)
    requires IsCell(items, start) && IsCell(items, target)
    ensures steps < CellCount(items) && After(items, start, steps) == target
    ensures forall m: nat :: m < CellCount(items) && After(items, start, m) == target ==> m == steps
    ensures After(items, start, CellCount(items)) == start
  {
    RankBounds(items, start);
    RankBounds(items, target);
    var total, a, b := CellCount(items), Rank(items, start), Rank(items, target);
    steps := if a <= b then b - a else total + b - a;
    RankAfter(items, start, steps);
    RankIsInjective(items, After(items, start, steps), target);
    forall m: nat | m < total && After(items, start, m) == target ensures m == steps {
      RankAfter(items, start, m);
    }
    RankAfter(items, start, total);
    RankIsInjective(items, After(items, start, total), start);
  }

  /** With nothing selected, `Next` and `Previous` pick row 0 whatever it is: they land on a cell
      exactly when that row is selectable. */
  lemma FirstPressPicksRowZero(items: seq<MenuItem>, action: SelectAction, item: Option<nat>)
    requires items != [] && !action.Index?
    ensures IsCell(items, Select(items, action, None, item)) <==> items[0].Selectable()
  {
    if items[0].Selectable() {
      SelectableHasItems(items[0]);
    }
  }


  /** A menu that starts with a separator: the first press lands on it, not on the item below. */
  lemma SeparatorIsPicked(action: SelectAction)
    requires !action.Index?
    ensures var items := [Separator, Item(Fields(false, false))];
            && items[1].Selectable()
            && Select(items, action, None, None) == (0, 0)
            && !IsCell(items, (0, 0))
  {
  }

  /** What the cells are: an item that is neither disabled nor inert, any item of a row with one such
      item, a submenu that is not empty with its entries, and a clickable header; never a separator. */
  lemma CellsAre(items: seq<MenuItem>, row: nat, item: nat)
    requires row < |items|
    ensures IsCell(items, (row, item)) <==>
              match items[row]
              case Item(fields) => item == 0 && !fields.disabled && !fields.noInteractionOnHover
              case Separator => false
              case ItemsRow(entries) =>
                item < |entries| && exists f <- entries :: !f.disabled && !f.noInteractionOnHover
              case Submenu(children) => 0 < |children| && item <= |children|
              case Header(clickable) => clickable && item == 0
  {
  }
}
