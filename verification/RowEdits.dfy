/** ICH, DCH and ECH: columns moved and blanked inside one row of the viewport. */
module RowEdits {
  import opened Cells
  import opened RowCopy
  import opened Scrolling
  import opened Shorts
  import opened Terminals
  import opened ScrollRegions

  datatype RowOp = InsertBlanks(n: int) | DeleteColumns(n: int) | EraseColumns(n: int)

  /** How many of the columns from `x` to the viewport's last one an operation takes. */
  function Taken(x: int, right: int, n: int): int {
    Min(right - x + 1, Count(n))
  }

  function RowEdited(row: Row, x: nat, right: nat, op: RowOp, attr: Attr): (r: Row)
    requires x <= right && op.n <= 0x7FFF
    ensures |r| == |row|
  {
    var n := Taken(x, right, op.n);
    var kept := right - x + 1 - n;
    match op
    case InsertBlanks(_) => Filled(Copied(row, row, x, x + n, kept), x, n, SPACE, attr)
    case DeleteColumns(_) => Filled(Copied(row, row, x + n, x, kept), right - n + 1, n, SPACE, attr)
    case EraseColumns(_) => Filled(row, x, n, SPACE, attr)
  }

  function Edited(s: Term, view: Rect, op: RowOp): Term
    requires op.n <= 0x7FFF
  {
    var t := s.(pendingWrap := false);
    var x := Between(t.x, view.left, view.right);
    if view.top <= t.y <= view.bottom && 0 <= t.y < |t.screen| && 0 <= x <= view.right
    then t.(screen := t.screen[t.y := RowEdited(t.screen[t.y], x, view.right, op, t.attr)])
    else t
  }

  /** Whatever glyphs the row holds, it stays a partition into whole glyphs. */
  lemma RowEditedOk(row: Row, x: nat, right: nat, op: RowOp, attr: Attr)
    requires RowOk(row) && x <= right && op.n <= 0x7FFF
    ensures RowOk(RowEdited(row, x, right, op, attr))
  {
    var n := Taken(x, right, op.n);
    var kept := right - x + 1 - n;
    CopiedOk(row, row, x, x + n, kept);
    CopiedOk(row, row, x + n, x, kept);
    FilledOk(Copied(row, row, x, x + n, kept), x, n, SPACE, attr);
    FilledOk(Copied(row, row, x + n, x, kept), right - n + 1, n, SPACE, attr);
    FilledOk(row, x, n, SPACE, attr);
  }

  /** On single-column content: what column `k` shows after `n` columns from `x` on were inserted, deleted or erased. */
  function EditedCell(row: Row, x: nat, right: nat, op: RowOp, attr: Attr, k: nat): Cell
    requires x <= right < |row| && op.n <= 0x7FFF && k < |row|
  {
    var n := Taken(x, right, op.n);
    if k < x || k > right then row[k]
    else match op
      case InsertBlanks(_) => if k < x + n then Space(attr) else row[k - n]
      case DeleteColumns(_) => if k > right - n then Space(attr) else row[k + n]
      case EraseColumns(_) => if k < x + n then Space(attr) else row[k]
  }

  lemma RowEditedCell(row: Row, x: nat, right: nat, op: RowOp, attr: Attr, k: nat)
    requires SingleRow(row) && x <= right < |row| <= 0x7FFF && op.n <= 0x7FFF && k < |row|
    ensures SingleRow(RowEdited(row, x, right, op, attr))
    ensures RowEdited(row, x, right, op, attr)[k] == EditedCell(row, x, right, op, attr, k)
  {
    hide SingleRow, Space;
    var n := Taken(x, right, op.n);
    var kept := right - x + 1 - n;
    var r := RowEdited(row, x, right, op, attr);
    match op
    case InsertBlanks(_) =>
      hide Copied, Filled;
      MovedThenBlank(row, x, x + n, kept, x, n, attr, r, k);
    case DeleteColumns(_) =>
      hide Copied, Filled;
      MovedThenBlank(row, x + n, x, kept, right - n + 1, n, attr, r, k);
    case EraseColumns(_) =>
      hide Filled;
      BlankedCell(row, x, n, attr, r, k);
  }

  lemma BlankedCell(row: Row, left: nat, n: nat, attr: Attr, r: Row, k: nat)
    requires SingleRow(row) && left + n <= |row| && k < |row| && r == Filled(row, left, n, SPACE, attr)
    ensures SingleRow(r) && r[k] == if left <= k < left + n then Space(attr) else row[k]
  {
    FilledSingle(row, left, n, SPACE, attr);
  }

  /** `kept` columns copied inside the row, then `n` columns blanked. */
  lemma MovedThenBlank(row: Row, from: nat, to: nat, kept: nat, left: nat, n: nat, attr: Attr, r: Row, k: nat)
    requires SingleRow(row) && from + kept <= |row| && to + kept <= |row| && left + n <= |row| && k < |row|
    requires r == Filled(Copied(row, row, from, to, kept), left, n, SPACE, attr)
    ensures SingleRow(r)
    ensures r[k] == if left <= k < left + n then Space(attr)
                    else if to <= k < to + kept then row[from + (k - to)] else row[k]
  {
    var c := Copied(row, row, from, to, kept);
    CopiedSingle(row, row, from, to, kept);
    assert SingleRow(c);
    FilledSingle(c, left, n, SPACE, attr);
  }

  /**
    ICH, DCH and ECH act on the cursor's row, from the cursor's column to the viewport's last one: the count is taken
    as it is, columns pushed out are lost and columns that come free are blank in the current attribute.
   */
  lemma EditedShows(t: Term, view: Rect, width: nat, op: RowOp, k: nat, y: nat)
    requires ViewOk(view, width, t.screen) && op.n <= 0x7FFF && y < |t.screen| && k < width
    requires view.top <= t.y <= view.bottom ==> SingleRow(t.screen[t.y])
    ensures var u := Edited(t, view, op);
            var n := Max(1, op.n);
            var x := Between(t.x, view.left, view.right);
            && u.(screen := t.screen) == t.(pendingWrap := false)
            && |u.screen| == |t.screen| && |u.screen[y]| == width
            && (y != t.y || y < view.top || y > view.bottom || k < x || k > view.right ==> u.screen[y][k] == t.screen[y][k])
            && (y == t.y && view.top <= y <= view.bottom && x <= k <= view.right ==>
                  u.screen[y][k] ==
                    match op
                    case InsertBlanks(_) => if k < x + n then Cell([0x20], 0, 1, t.attr) else t.screen[y][k - n]
                    case DeleteColumns(_) => if k + n > view.right then Cell([0x20], 0, 1, t.attr) else t.screen[y][k + n]
                    case EraseColumns(_) => if k < x + n then Cell([0x20], 0, 1, t.attr) else t.screen[y][k])
  {
    hide RowEdited, SingleRow, RowOk;
    if view.top <= t.y <= view.bottom {
      RowEditedCell(t.screen[t.y], Between(t.x, view.left, view.right), view.right, op, t.attr, k);
    }
  }

  /** ICH n and then DCH n: the row is back, except the last n columns of the viewport, which are blank. */
  lemma InsertThenDeleteColumns(row: Row, x: nat, right: nat, n: int, attr: Attr, k: nat)
    requires SingleRow(row) && x <= right < |row| <= 0x7FFF && n <= 0x7FFF && k < |row|
    ensures var r := RowEdited(RowEdited(row, x, right, InsertBlanks(n), attr), x, right, DeleteColumns(n), attr);
            r[k] == if x <= k <= right && right - Max(1, n) < k then Space(attr) else row[k]
  {
    hide RowEdited;
    var a := RowEdited(row, x, right, InsertBlanks(n), attr);
    RowEditedCell(row, x, right, InsertBlanks(n), attr, k);
    RowEditedCell(a, x, right, DeleteColumns(n), attr, k);
    var m := Taken(x, right, n);
    if x <= k && k + m <= right { RowEditedCell(row, x, right, InsertBlanks(n), attr, k + m); }
  }
}
