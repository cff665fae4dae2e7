/**
  The screen buffer: a ring of rows. Logical row y is stored at (rowOrigin + y) mod height.
 */
module ScreenBuffers {
  import opened Cells
  import opened RowCopy
  import opened RunLayouts
  import opened Scrolling
  import opened Resizing
  import opened LinearText
  import opened ScreenRows
  import opened RowStores
  import opened Shorts

  const SHORT_MAX: nat := 32767

  /** Where logical row `y` is stored: one step around the ring at most. */
  function Physical(origin: nat, y: nat, height: nat): (i: nat)
    requires origin < height && y < height
    ensures i < height
  {
    if origin + y < height then origin + y else origin + y - height
  }

  /** It is the remainder the ring index is defined by. */
  lemma PhysicalIsRemainder(origin: nat, y: nat, height: nat)
    requires origin < height && y < height
    ensures Physical(origin, y, height) == (origin + y) % height
  {}

  /** The rows in logical order. */
  function Logical(rows: seq<Row>, origin: nat): (s: seq<Row>)
    requires rows != [] ==> origin < |rows|
    ensures |s| == |rows|
  {
    seq(|rows|, y requires 0 <= y < |rows| => rows[Physical(origin, y, |rows|)])
  }

  /** Different logical rows are stored apart. */
  lemma PhysicalInjective(origin: nat, y: nat, z: nat, height: nat)
    requires origin < height && y < height && z < height && Physical(origin, y, height) == Physical(origin, z, height)
    ensures y == z
  {}

  /** `s` starting from its `count`-th row, the rows before it following at the end. */
  function Rotated(s: seq<Row>, count: nat): (r: seq<Row>)
    requires count <= |s|
    ensures |r| == |s|
  {
    s[count..] + s[..count]
  }

  /** Moving the origin rotates what is seen. */
  lemma RingRotates(rows: seq<Row>, origin: nat, count: nat)
    requires origin < |rows| && count < |rows|
    ensures Logical(rows, Physical(origin, count, |rows|)) == Rotated(Logical(rows, origin), count)
  {
    assert forall y :: 0 <= y < |rows| ==>
      Logical(rows, Physical(origin, count, |rows|))[y] == Rotated(Logical(rows, origin), count)[y];
  }

  lemma Linearized(rows: seq<Row>, origin: nat)
    requires origin < |rows|
    ensures Logical(rows, origin) == Rotated(rows, origin)
  {
    var l, r := Logical(rows, origin), Rotated(rows, origin);
    forall y | 0 <= y < |rows| ensures l[y] == r[y] {
    }
  }

  lemma LogicalUpdate(rows: seq<Row>, origin: nat, y: nat, row: Row)
    requires origin < |rows| && y < |rows|
    ensures Logical(rows[Physical(origin, y, |rows|) := row], origin) == Logical(rows, origin)[y := row]
  {
    var l, r := Logical(rows[Physical(origin, y, |rows|) := row], origin), Logical(rows, origin)[y := row];
    forall z | 0 <= z < |rows| ensures l[z] == r[z] {
      if Physical(origin, y, |rows|) == Physical(origin, z, |rows|) { PhysicalInjective(origin, y, z, |rows|); }
    }
  }

  /** Rows turned in the store are rows turned on the screen. */
  lemma TurnedBand(s: seq<Row>, t: seq<Row>, top: nat, bottom: nat, count: nat)
    requires top <= bottom < |s| && count <= bottom - top + 1 && |t| == |s|
    requires forall i :: 0 <= i < |s| ==> t[i] == s[Turned(i, top, bottom + 1, count)]
    ensures t == BandRotated(s, top, bottom, count)
  {
    var r := BandRotated(s, top, bottom, count);
    forall i | 0 <= i < |s| ensures t[i] == r[i] {}
  }

  lemma TurnedAll(s: seq<Row>, t: seq<Row>, count: nat)
    requires count <= |s| == |t|
    requires forall i :: 0 <= i < |s| ==> t[i] == s[Turned(i, 0, |s|, count)]
    ensures t == Rotated(s, count)
  {
    var r := Rotated(s, count);
    forall i | 0 <= i < |s| ensures t[i] == r[i] {}
  }

  lemma LogicalIdentity(rows: seq<Row>)
    ensures Logical(rows, 0) == rows
  {
    forall y | 0 <= y < |rows| ensures Logical(rows, 0)[y] == rows[y] {
    }
  }

  /** Rows [from, to) replaced by `blank`. */
  function Blanked(s: seq<Row>, from: nat, to: nat, blank: Row): (r: seq<Row>)
    ensures |r| == |s|
  {
    seq(|s|, y requires 0 <= y < |s| => if from <= y < to then blank else s[y])
  }

  /** Rotating and refilling the rows that left is shifting. */
  lemma RotateIsShift(s: seq<Row>, dy: int, count: nat, blank: Row)
    requires s != [] && dy != 0 && count == (if dy < 0 then -dy else dy) < |s|
    ensures dy < 0 ==> Blanked(Rotated(s, count), |s| - count, |s|, blank) == ShiftRows(s, 0, |s| - 1, dy, blank)
    ensures dy > 0 ==> Blanked(Rotated(s, |s| - count), 0, count, blank) == ShiftRows(s, 0, |s| - 1, dy, blank)
  {}

  /** Rows [top, bottom] rotated by `count`. */
  function BandRotated(s: seq<Row>, top: nat, bottom: nat, count: nat): (r: seq<Row>)
    requires top <= bottom < |s| && count <= bottom - top + 1
    ensures |r| == |s|
  {
    s[..top] + Rotated(s[top..bottom + 1], count) + s[bottom + 1..]
  }

  lemma BandIsShift(s: seq<Row>, top: nat, bottom: nat, dy: int, count: nat, blank: Row)
    requires top <= bottom < |s| && dy != 0
    requires count == Min(if dy < 0 then -dy else dy, bottom - top + 1)
    ensures dy < 0 ==> Blanked(BandRotated(s, top, bottom, count), bottom - count + 1, bottom + 1, blank)
                       == ShiftRows(s, top, bottom, dy, blank)
    ensures dy > 0 ==> Blanked(BandRotated(s, top, bottom, bottom - top + 1 - count), top, top + count, blank)
                       == ShiftRows(s, top, bottom, dy, blank)
  {}

  /** Copying the saved columns into row `z` gives that row of the final screen. */
  ghost predicate BackRow(screen: seq<Row>, saved: Row, m: Rect, to: nat, final: seq<Row>, z: int) {
    && 0 <= z < |screen| == |final| && m.left <= m.right
    && RowOk(final[z]) && final[z] == Copied(screen[z], saved, 0, to, m.right - m.left + 1)
  }

  lemma BackRows(was: seq<Row>, width: nat, filled: seq<Row>, saved: seq<Row>, source: Rect, clip: Rect, m: Rect,
                 dx: int, dy: int, ch: Char32, attr: Attr, final: seq<Row>)
    requires ScreenOk(was, width) && |filled| == |was|
    requires 0 <= source.left && 0 <= source.top && source.bottom < |was|
    requires 0 <= clip.left && 0 <= clip.top && clip.bottom < |was|
    requires m == Moved(source, clip, dx, dy) && HasArea(m) && |saved| == m.bottom - m.top + 1
    requires forall y :: 0 <= y < |saved| ==> saved[y] == SavedRow(was[m.top + y], m, attr)
    requires forall y :: 0 <= y < |was| ==> filled[y] == FilledRow(was[y], Intersect(source, clip), y, ch, attr)
    requires final == ScrollRect(was, source, clip, dx, dy, ch, attr)
    ensures forall y :: 0 <= y < |saved| ==> BackRow(filled, saved[y], m, m.left + dx, final, m.top + dy + y)
  {
    forall y | 0 <= y < |saved| ensures BackRow(filled, saved[y], m, m.left + dx, final, m.top + dy + y) {
      var z := m.top + dy + y;
      ScrollRectRowOk(was, width, source, clip, dx, dy, ch, attr, z);
      assert final[z] == ScrollRectRow(was, source, clip, dx, dy, ch, attr, z);
    }
  }

  /** Rows [lo, hi) of `over`, the rest of `under`. */
  function Overlaid(under: seq<Row>, over: seq<Row>, lo: int, hi: int): (r: seq<Row>)
    requires |under| == |over|
    ensures |r| == |under|
  {
    seq(|under|, y requires 0 <= y < |under| => if lo <= y < hi then over[y] else under[y])
  }

  lemma OverlaidScroll(was: seq<Row>, filled: seq<Row>, source: Rect, clip: Rect, m: Rect,
                       dx: int, dy: int, ch: Char32, attr: Attr)
    requires 0 <= source.left && 0 <= source.top && source.bottom < |was| && 0 <= clip.left && |filled| == |was|
    requires m == Moved(source, clip, dx, dy)
    requires forall y :: 0 <= y < |was| ==> filled[y] == FilledRow(was[y], Intersect(source, clip), y, ch, attr)
    ensures var final := ScrollRect(was, source, clip, dx, dy, ch, attr);
            final == if HasArea(m) then Overlaid(filled, final, m.top + dy, m.bottom + dy + 1) else filled
  {}

  class ScreenBuffer {
    const store: RowStore
    var width: nat
    var height: nat
    var view: Rect
    var rowOrigin: nat

    ghost predicate Valid()
      reads this, store, store.Repr
    {
      && 1 <= width <= SHORT_MAX && 1 <= height <= SHORT_MAX
      && store.Valid(width) && |store.storage| == height && rowOrigin < height
      && 0 <= view.left <= view.right < width && 0 <= view.top <= view.bottom < height
    }

    /** The screen as every reader sees it. */
    ghost function Screen(): (s: seq<Row>)
      requires Valid()
      reads this, store, store.Repr
      ensures |s| == height
    {
      Logical(store.Contents(), rowOrigin)
    }

    lemma ScreenValid()
      requires Valid()
      ensures ScreenOk(Screen(), width)
    {
      store.ContentsOk(width);
    }

    constructor (w: nat, h: nat)
      requires 1 <= w <= SHORT_MAX && 1 <= h <= SHORT_MAX
      ensures Valid() && width == w && height == h && view == Whole(w, h) && fresh(store) && fresh(store.Repr)
      ensures Screen() == seq(h, _ => Uniform(w, SPACE, DEFAULT_ATTR))
    {
      width, height, view, rowOrigin := w, h, Whole(w, h), 0;
      store := new RowStore(w, h, DEFAULT_ATTR);
    }

    /** Where logical row `y` is stored. */
    function Index(y: nat): (i: nat)
      requires rowOrigin < height && y < height
      reads this
      ensures i < height
    {
      Physical(rowOrigin, y, height)
    }

    /** The row object logical row `y` is held by. */
    method StoredRow(y: nat) returns (r: ScreenRow)
      requires Valid() && y < height
      ensures RowHeld(r, width) && r.cells == Screen()[y] && r in store.Repr
    {
      r := store.storage[Index(y)];
    }

    /** A change of one stored row is a change of one logical row. */
    lemma RowReplaced(y: nat, was: seq<Row>, row: Row)
      requires Valid() && y < height && |was| == height && store.Contents() == was[Index(y) := row]
      ensures Screen() == Logical(was, rowOrigin)[y := row]
    {
      LogicalUpdate(was, rowOrigin, y, row);
    }

    /** Text output on row `y`. */
    method WriteRun(y: nat, x: nat, run: seq<Char32>, widths: seq<nat>, cellCount: nat, allSingleWidth: bool, attr: Attr,
                    ghost ws: seq<nat>, ghost cells: seq<Cell>)
      requires Valid() && y < height && run != [] && x + cellCount <= width
      requires ws == Widths(run, widths, allSingleWidth) && |ws| == |run| && Positive(ws) && cellCount == Total(ws)
      requires cells == Run(run, ws, attr)
      modifies store.Repr
      ensures Valid() && Screen() == old(Screen())[y := Splice(old(Screen())[y], x, cells)]
    {
      ghost var was := store.Contents();
      store.WriteText(Index(y), width, x, run, widths, cellCount, allSingleWidth, attr, ws, cells);
      RowReplaced(y, was, Splice(was[Index(y)], x, cells));
    }

    /** One code point on row `y`. */
    method PutGlyph(x: nat, y: nat, ch: Char32, w: int, attr: Attr)
      requires Valid() && y < height
      modifies store.Repr
      ensures Valid() && Screen() == old(Screen())[y := Put(old(Screen())[y], x, [ch], w, attr)]
    {
      ghost var was := store.Contents();
      store.PutGlyph(Index(y), width, x, ch, w, attr);
      RowReplaced(y, was, Put(was[Index(y)], x, [ch], w, attr));
    }

    method SetAttr(x: nat, y: nat, attr: Attr)
      requires Valid() && y < height
      modifies store.Repr
      ensures Valid() && Screen() == old(Screen())[y := Painted(old(Screen())[y], x, x + 1, attr)]
    {
      ghost var was := store.Contents();
      store.SetAttr(Index(y), width, x, attr);
      RowReplaced(y, was, Painted(was[Index(y)], x, x + 1, attr));
    }

    /** Columns copied into row `y` from a row that is not on the screen. */
    method CopyInto(y: nat, src: ScreenRow, from: nat, to: nat, n: nat)
      requires Valid() && y < height && RowHeld(src, |src.cells|) && src !in store.Repr
      modifies store.Repr
      ensures Valid() && Screen() == old(Screen())[y := Copied(old(Screen())[y], src.cells, from, to, n)]
    {
      ghost var was, given := store.Contents(), src.cells;
      store.CopyInto(Index(y), width, src, from, to, n);
      RowReplaced(y, was, Copied(was[Index(y)], given, from, to, n));
    }

    /** Columns of row `y` copied from a copy of the row. */
    method CopyColumns(y: nat, from: nat, to: nat, n: nat)
      requires Valid() && y < height
      modifies store.Repr
      ensures Valid() && Screen() == old(Screen())[y := Copied(old(Screen())[y], old(Screen())[y], from, to, n)]
    {
      var saved := new ScreenRow.CopyOf(store.storage[Index(y)]);
      assert saved.cells == Screen()[y];
      CopyInto(y, saved, from, to, n);
    }

    /** Brings the rows into logical order without changing what is seen. */
    method LinearizeRows()
      requires Valid()
      modifies this`rowOrigin, store`storage
      ensures Valid() && rowOrigin == 0 && Screen() == old(Screen()) && store.Owned() && Screen() == store.Contents()
    {
      assert store.Owned();
      hide RowStore.Valid, RowStore.Contents, Logical, Rotated;
      if rowOrigin != 0 {
        Linearized(store.Contents(), rowOrigin);
        RotateStore();
      }
      LogicalIdentity(store.Contents());
    }

    method RotateStore()
      requires Valid() && rowOrigin != 0
      modifies this`rowOrigin, store`storage
      ensures Valid() && rowOrigin == 0 && store.Owned()
      ensures store.Contents() == Rotated(old(store.Contents()), old(rowOrigin))
    {
      hide Logical, RowStore.Contents;
      ghost var was := store.Contents();
      store.Rotate(0, height, rowOrigin, width);
      TurnedAll(was, store.Contents(), rowOrigin);
      rowOrigin := 0;
    }

    method FillRow(y: nat, ch: Char32, attr: Attr)
      requires Valid() && y < height
      modifies store.Repr
      ensures Valid() && Screen() == old(Screen())[y := Uniform(width, ch, attr)]
    {
      ghost var was := store.Contents();
      store.ResetRow(Index(y), width, ch, attr);
      RowReplaced(y, was, Uniform(width, ch, attr));
    }

    /** Fills logical rows [from, to). */
    method FillRows(from: nat, to: nat, ch: Char32, attr: Attr)
      requires Valid() && from <= to <= height
      modifies store.Repr
      ensures Valid() && Screen() == Blanked(old(Screen()), from, to, Uniform(width, ch, attr))
    {
      hide RowStore.Valid, RowStore.Contents, Logical;
      ghost var was := Screen();
      var y := from;
      while y != to
        invariant from <= y <= to && Valid()
        invariant Screen() == Blanked(was, from, y, Uniform(width, ch, attr))
      {
        FillRow(y, ch, attr);
        y := y + 1;
      }
    }

    /** Ring path: the whole screen moves by moving the origin. */
    method ScrollRing(dy: int, ch: Char32, attr: Attr)
      requires Valid() && dy != 0
      modifies this`rowOrigin, store.Repr
      ensures Valid()
      ensures Screen() == ShiftRows(old(Screen()), 0, height - 1, dy, Uniform(width, ch, attr))
    {
      hide RowStore.Valid, RowStore.Contents, Logical;
      var count := Min(if dy < 0 then -dy else dy, height);
      if count == height {
        rowOrigin := 0;
        FillRows(0, height, ch, attr);
        return;
      }
      if dy < 0 {
        ScrollRingUp(count, dy, ch, attr);
      } else {
        ScrollRingDown(count, ch, attr);
      }
    }

    method ScrollRingUp(count: nat, ghost dy: int, ch: Char32, attr: Attr)
      requires Valid() && 0 < count < height && dy == 0 - count
      modifies this`rowOrigin, store.Repr
      ensures Valid()
      ensures Screen() == ShiftRows(old(Screen()), 0, height - 1, dy, Uniform(width, ch, attr))
    {
      ghost var was, h, blank := Screen(), height, Uniform(width, ch, attr);
      RingRotates(store.Contents(), rowOrigin, count);
      rowOrigin := Physical(rowOrigin, count, height);
      assert Screen() == Rotated(was, count);
      FillRows(height - count, height, ch, attr);
      assert Screen() == Blanked(Rotated(was, count), h - count, h, blank);
      RotateIsShift(was, dy, count, blank);
    }

    method ScrollRingDown(count: nat, ch: Char32, attr: Attr)
      requires Valid() && 0 < count < height
      modifies this`rowOrigin, store.Repr
      ensures Valid()
      ensures Screen() == ShiftRows(old(Screen()), 0, height - 1, count, Uniform(width, ch, attr))
    {
      ghost var was, h, blank := Screen(), height, Uniform(width, ch, attr);
      RingRotates(store.Contents(), rowOrigin, height - count);
      rowOrigin := Physical(rowOrigin, height - count, height);
      assert Screen() == Rotated(was, h - count);
      FillRows(0, count, ch, attr);
      assert Screen() == Blanked(Rotated(was, h - count), 0, count, blank);
      RotateIsShift(was, count, count, blank);
    }

    /** Row path: whole rows of a band move; the rows they leave behind are refilled, whatever they held. */
    method ScrollBand(top: nat, bottom: nat, dy: int, ch: Char32, attr: Attr)
      requires Valid() && rowOrigin == 0 && dy != 0 && top <= bottom < height
      modifies store`storage, store.Repr
      ensures Valid()
      ensures Screen() == ShiftRows(old(Screen()), top, bottom, dy, Uniform(width, ch, attr))
    {
      hide RowStore.Valid, RowStore.Contents, Logical, Uniform, BandRotated, Blanked, ShiftRows;
      var count := Min(if dy < 0 then -dy else dy, bottom - top + 1);
      ghost var was, blank := Screen(), Uniform(width, ch, attr);
      if dy < 0 {
        RotateBand(top, bottom, count);
        FillRows(bottom - count + 1, bottom + 1, ch, attr);
        assert Screen() == Blanked(BandRotated(was, top, bottom, count), bottom - count + 1, bottom + 1, blank);
      } else {
        RotateBand(top, bottom, bottom - top + 1 - count);
        FillRows(top, top + count, ch, attr);
        assert Screen() == Blanked(BandRotated(was, top, bottom, bottom - top + 1 - count), top, top + count, blank);
      }
      BandIsShift(was, top, bottom, dy, count, blank);
    }

    /** The rows of a band change places; their storage is kept. */
    method RotateBand(top: nat, bottom: nat, count: nat)
      requires Valid() && rowOrigin == 0 && top <= bottom < height && count <= bottom - top + 1
      modifies store`storage
      ensures Valid() && Screen() == BandRotated(old(Screen()), top, bottom, count)
    {
      ghost var was := store.Contents();
      LogicalIdentity(was);
      store.Rotate(top, bottom + 1, count, width);
      TurnedBand(was, store.Contents(), top, bottom, count);
      LogicalIdentity(store.Contents());
    }

    /** Rectangle path: save the part that moves, fill the source, put the saved part back. */
    method ScrollRectangle(source: Rect, clip: Rect, dx: int, dy: int, ch: Char32, attr: Attr)
      requires Valid() && rowOrigin == 0
      requires 0 <= source.left && 0 <= source.top && source.bottom < height
      requires 0 <= clip.left && 0 <= clip.top && clip.bottom < height
      modifies store.Repr
      ensures Valid() && Screen() == ScrollRect(old(Screen()), source, clip, dx, dy, ch, attr)
    {
      hide RowStore.Valid, RowStore.Contents, Logical, RowHeld, FilledRow, SavedRow, ScrollRectRow, BackRow, Uniform;
      ghost var was := Screen();
      ScreenValid();
      var m := Moved(source, clip, dx, dy);
      if HasArea(m) {
        var saved, cells := SaveRows(m, attr);
        FillRectangle(Intersect(source, clip), ch, attr);
        OverlaidScroll(was, Screen(), source, clip, m, dx, dy, ch, attr);
        BackRows(was, width, Screen(), cells, source, clip, m, dx, dy, ch, attr,
                 ScrollRect(was, source, clip, dx, dy, ch, attr));
        PutRowsBack(saved, cells, m, m.left + dx, m.top + dy, ScrollRect(was, source, clip, dx, dy, ch, attr));
      } else {
        FillRectangle(Intersect(source, clip), ch, attr);
        OverlaidScroll(was, Screen(), source, clip, m, dx, dy, ch, attr);
      }
    }

    /** Rows that are off the screen, each holding its part of the moving columns. */
    ghost predicate Saved(saved: seq<ScreenRow>, cells: seq<Row>)
      reads this, store, saved
    {
      && |cells| == |saved|
      && forall y :: 0 <= y < |saved| ==> saved[y] !in store.Repr && RowHeld(saved[y], width) && saved[y].cells == cells[y]
    }

    method SaveRow(y: nat, m: Rect, attr: Attr) returns (r: ScreenRow)
      requires Valid() && y < height && HasArea(m) && 0 <= m.left
      ensures fresh(r) && RowHeld(r, width) && r.cells == SavedRow(Screen()[y], m, attr)
    {
      hide RowStore.Valid, RowStore.Contents, Logical, Copied, Uniform;
      var src := StoredRow(y);
      r := SavedCopy(src, width, attr, m.left, 0, m.right - m.left + 1);
    }

    method SaveRows(m: Rect, attr: Attr) returns (saved: seq<ScreenRow>, ghost cells: seq<Row>)
      requires Valid() && HasArea(m) && 0 <= m.left && 0 <= m.top && m.bottom < height
      ensures fresh(set r | r in saved) && Saved(saved, cells)
      ensures |saved| == m.bottom - m.top + 1
      ensures forall y :: 0 <= y < |saved| ==> cells[y] == SavedRow(Screen()[m.top + y], m, attr)
    {
      hide RowStore.Valid, RowStore.Contents, Logical, RowHeld, Copied, Uniform;
      saved, cells := [], [];
      var y := 0;
      while y != m.bottom - m.top + 1
        invariant 0 <= y == |saved| <= m.bottom - m.top + 1
        invariant fresh(set r | r in saved) && Saved(saved, cells)
        invariant forall z :: 0 <= z < y ==> cells[z] == SavedRow(Screen()[m.top + z], m, attr)
      {
        var r := SaveRow(m.top + y, m, attr);
        saved, cells := saved + [r], cells + [r.cells];
        y := y + 1;
      }
    }

    method FillRectangle(r: Rect, ch: Char32, attr: Attr)
      requires Valid() && (HasArea(r) ==> 0 <= r.left && 0 <= r.top && r.bottom < height)
      modifies store.Repr
      ensures Valid()
      ensures forall y :: 0 <= y < height ==> Screen()[y] == FilledRow(old(Screen())[y], r, y, ch, attr)
    {
      hide RowStore.Valid, RowStore.Contents, Logical;
      if !HasArea(r) { return; }
      ghost var was := Screen();
      var y := r.top;
      while y <= r.bottom
        invariant r.top <= y <= r.bottom + 1 && Valid()
        invariant forall z :: 0 <= z < height ==>
                    Screen()[z] == if z < y then FilledRow(was[z], r, z, ch, attr) else was[z]
      {
        FillCells(y, r.left, r.right - r.left + 1, ch, attr);
        y := y + 1;
      }
    }

    method FillCells(y: nat, left: nat, n: nat, ch: Char32, attr: Attr)
      requires Valid() && y < height
      modifies store.Repr
      ensures Valid() && Screen() == old(Screen())[y := Filled(old(Screen())[y], left, n, ch, attr)]
    {
      hide RowStore.Valid, RowStore.Contents, Logical, Put, Uniform;
      ghost var was := Screen();
      var x := 0;
      while x != n
        invariant 0 <= x <= n && Valid()
        invariant Screen() == was[y := Filled(was[y], left, x, ch, attr)]
      {
        PutGlyph(left + x, y, ch, 1, attr);
        x := x + 1;
      }
    }

    method PutRowsBack(saved: seq<ScreenRow>, ghost cells: seq<Row>, m: Rect, left: nat, top: nat, ghost final: seq<Row>)
      requires Valid() && |final| == height && Saved(saved, cells)
      requires forall y :: 0 <= y < |saved| ==> BackRow(Screen(), cells[y], m, left, final, top + y)
      modifies store.Repr
      ensures Valid() && Screen() == Overlaid(old(Screen()), final, top, top + |saved|)
    {
      hide RowStore.Valid, RowStore.Contents, Logical;
      ghost var filled := Screen();
      var y := 0;
      while y != |saved|
        invariant 0 <= y <= |saved| && Valid() && Saved(saved, cells)
        invariant Screen() == Overlaid(filled, final, top, top + y)
      {
        assert BackRow(filled, cells[y], m, left, final, top + y);
        CopyInto(top + y, saved[y], 0, left, m.right - m.left + 1);
        y := y + 1;
      }
    }

    /** ScrollConsoleScreenBuffer. */
    method Scroll(sr: Rect, clip: Rect, useClip: bool, destX: int, destY: int, ch: Char32, attr: Attr)
      requires Valid()
      modifies this`rowOrigin, store`storage, store.Repr
      ensures Valid()
      ensures Screen() == Scrolled(old(Screen()), width, sr, clip, useClip, destX, destY, ch, attr)
    {
      hide ScrolledClamped, RowStore.Valid, RowStore.Contents, Logical;
      var dx, dy := destX - sr.left, destY - sr.top;
      var source := Clamp(sr, width, height);
      if !HasArea(source) { return; }
      var c := if useClip then Clamp(clip, width, height) else Whole(width, height);
      if !HasArea(c) { return; }
      ScrollClamped(source, c, dx, dy, ch, attr);
    }

    method ScrollClamped(source: Rect, clip: Rect, dx: int, dy: int, ch: Char32, attr: Attr)
      requires Valid() && HasArea(source)
      requires 0 <= source.left && 0 <= source.top && source.bottom < height
      requires 0 <= clip.left && 0 <= clip.top && clip.bottom < height
      modifies this`rowOrigin, store`storage, store.Repr
      ensures Valid()
      ensures Screen() == ScrolledClamped(old(Screen()), width, source, clip, dx, dy, ch, attr)
    {
      hide RowStore.Valid, RowStore.Contents, Logical;
      if dx == 0 && dy != 0 && source == Whole(width, height) && clip == Whole(width, height) {
        ScrollRing(dy, ch, attr);
        return;
      }
      LinearizeRows();
      if dx == 0 && dy != 0 && source.left == 0 && source.right == width - 1 && clip == source {
        ScrollBand(source.top, source.bottom, dy, ch, attr);
        return;
      }
      ScrollRectangle(source, clip, dx, dy, ch, attr);
    }

    /** console_viewport::set_rect: a size that fits is kept, and so is a rectangle inside the buffer. */
    static function FittedView(r: Rect, width: nat, height: nat): (v: Rect)
      requires 1 <= width && 1 <= height
      ensures 0 <= v.left <= v.right < width && 0 <= v.top <= v.bottom < height
      ensures 1 <= r.right - r.left + 1 <= width ==> v.right - v.left == r.right - r.left
      ensures 1 <= r.bottom - r.top + 1 <= height ==> v.bottom - v.top == r.bottom - r.top
      ensures 0 <= r.left <= r.right < width && 0 <= r.top <= r.bottom < height ==> v == r
    {
      var w := Between(r.right - r.left + 1, 1, width);
      var h := Between(r.bottom - r.top + 1, 1, height);
      var left := Between(r.left, 0, width - w);
      var top := Between(r.top, 0, height - h);
      Rect(left, top, left + w - 1, top + h - 1)
    }

    static function Distance(a: int, b: int): nat { if a < b then b - a else a - b }

    /** No rectangle of its size inside the buffer begins nearer to where it was asked for, across or down. */
    static lemma FittedIsNearest(r: Rect, u: Rect, width: nat, height: nat)
      requires 1 <= width && 1 <= height && 0 <= u.left && u.right < width && 0 <= u.top && u.bottom < height
      requires var v := FittedView(r, width, height);
               u.right - u.left == v.right - v.left && u.bottom - u.top == v.bottom - v.top
      ensures var v := FittedView(r, width, height);
              Distance(v.left, r.left) <= Distance(u.left, r.left) && Distance(v.top, r.top) <= Distance(u.top, r.top)
    {}

    /** Sizes below one column or row are corrected; the overlap with the old size is kept. */
    method Resize(newWidth: int, newHeight: int)
      requires Valid() && newWidth <= SHORT_MAX && newHeight <= SHORT_MAX
      modifies this, store
      ensures Valid() && fresh(store.Repr - old(store.Repr))
      ensures width == Max(newWidth, 1) && height == Max(newHeight, 1)
      ensures if width == old(width) && height == old(height) then Screen() == old(Screen()) && view == old(view)
              else Screen() == Resized(old(Screen()), width, height) && view == FittedView(old(view), width, height)
    {
      var w, h := Max(newWidth, 1), Max(newHeight, 1);
      if w == width && h == height { return; }
      ResizeTo(w, h);
    }

    method ResizeTo(w: nat, h: nat)
      requires Valid() && 1 <= w <= SHORT_MAX && 1 <= h <= SHORT_MAX
      modifies this, store
      ensures Valid() && fresh(store.Repr) && width == w && height == h
      ensures Screen() == Resized(old(Screen()), w, h) && view == FittedView(old(view), w, h)
    {
      hide RowStore.Valid, RowStore.Contents, Logical, Resized;
      LinearizeRows();
      store.Resize(width, w, h);
      width, height, view := w, h, FittedView(view, w, h);
      LogicalIdentity(store.Contents());
    }

    /** The attribute at a cell; the default one outside the row. */
    method ReadAttr(x: nat, y: nat) returns (attr: Attr)
      requires Valid() && y < height
      ensures attr == if x < width then Screen()[y][x].attr else DEFAULT_ATTR
    {
      var r := StoredRow(y);
      if x < width { r.AttrAtIs(x); }
      attr := r.AttrAt(x);
    }

    /** WriteConsoleOutputCharacter: the attributes of the cells written stay. */
    method WriteChar32Linear(x0: int, y0: int, text: seq<Char32>, measure: Char32 -> int) returns (n: nat)
      requires Valid()
      modifies store.Repr
      ensures Valid()
      ensures if 0 <= x0 < width && 0 <= y0 < height
              then Screen() == Written(old(Screen()), width, measure, text, x0, y0)
                   && n == Counted(height, width, measure, text, x0, y0)
              else Screen() == old(Screen()) && n == 0
    {
      hide RowOk, RowStore.Valid, RowStore.Contents, Logical, Written, Counted;
      if !(0 <= x0 < width && 0 <= y0 < height) { return 0; }
      ScreenValid();
      n := 0;
      var y: nat := y0;
      ghost var final := Written(Screen(), width, measure, text, x0, y0);
      ghost var total := Counted(height, width, measure, text, x0, y0);
      assert text[0..] == text;
      while y < height && n < |text|
        invariant y0 <= y <= height && n <= |text| && Valid()
        invariant Underway(Screen(), width, measure, text, n, if y == y0 then x0 else 0, y, final, total)
      {
        var x := if y == y0 then x0 else 0;
        n := WriteRowFrom(x, y, text, n, measure, final, total);
        y := y + 1;
      }
      UnderwayDone(Screen(), width, measure, text, n, if y == y0 then x0 else 0, y, final, total);
    }

    /** The part of a linear write that lands in one row. */
    method WriteRowFrom(x0: nat, y: nat, text: seq<Char32>, n0: nat, measure: Char32 -> int,
                        ghost final: seq<Row>, ghost total: nat) returns (n: nat)
      requires Valid() && y < height && n0 <= |text|
      requires Underway(Screen(), width, measure, text, n0, x0, y, final, total)
      modifies store.Repr
      ensures n <= |text| && Valid() && Underway(Screen(), width, measure, text, n, 0, y + 1, final, total)
    {
      hide Underway, RowStore.Valid, RowStore.Contents, Logical, Put, Painted, PutAt;
      var x: int := x0;
      n := n0;
      while n < |text| && x < width
        invariant n <= |text| && -0x8000 <= x && Valid()
        invariant Underway(Screen(), width, measure, text, n, x, y, final, total)
      {
        var cw := Columns(measure, text[n]);
        UnderwayPut(Screen(), width, measure, text, n, x, y, final, total, cw);
        WriteKeepingAttrs(x, y, text[n], cw);
        x := Short(x + cw);
        n := n + 1;
      }
      UnderwayRow(Screen(), width, measure, text, n, x, y, final, total);
    }

    /** One code point in the column `x` is cast to; every cell keeps its attribute. */
    method WriteKeepingAttrs(x: int, y: nat, ch: Char32, cw: nat)
      requires Valid() && y < height && -0x8000 <= x < width && (cw == 1 || cw == 2)
      modifies store.Repr
      ensures Valid()
      ensures Screen() == old(Screen())[y := PutAt(old(Screen())[y], x, ch, cw)]
    {
      hide RowOk, RowStore.Valid, RowStore.Contents, Logical;
      ghost var was := Screen();
      ScreenValid();
      var attr := ReadAttr(ColumnCast(x), y);
      var nextAttr := ReadAttr(ColumnCast(x + 1), y);
      PutGlyph(ColumnCast(x), y, ch, cw, attr);
      if cw == 2 {
        ghost var row := Screen()[y];
        SetAttr(ColumnCast(x + 1), y, nextAttr);
        assert ColumnCast(x + 1) >= width || x < 0 ==> Painted(row, ColumnCast(x + 1), ColumnCast(x + 1) + 1, nextAttr) == row;
      }
      assert Screen()[y] == PutAt(was[y], x, ch, cw);
      assert forall z :: 0 <= z < height && z != y ==> Screen()[z] == was[z];
    }

    /** The cast of a SHORT to the column type of a row. */
    static function ColumnCast(x: int): (w: nat)
      requires -0x8000 <= x <= 0x7FFF
      ensures 0 <= x ==> w == x
      ensures x < 0 ==> w >= 0x8000
    {
      x % 0x1_0000
    }

    /** ReadConsoleOutputCharacterW. */
    method ReadWcharsLinear(x0: int, y0: int, max: nat) returns (out: seq<nat>)
      requires Valid()
      ensures ScreenOk(Screen(), width)
      ensures out == if 0 <= x0 < width && 0 <= y0 < height then Read(Screen(), width, x0, y0, 0, max) else []
    {
      hide Read, RowOk, RowStore.Valid, RowStore.Contents, Logical;
      ScreenValid();
      out := [];
      if !(0 <= x0 < width && 0 <= y0 < height) { return; }
      var cells: nat := 0;
      var y := y0;
      while y < height && cells < max
        invariant y0 <= y <= height
        invariant out + Read(Screen(), width, if y == y0 then x0 else 0, y, cells, max)
               == Read(Screen(), width, x0, y0, 0, max)
      {
        var x := if y == y0 then x0 else 0;
        var part;
        part, cells := ReadRowFrom(x, y, cells, max);
        out := out + part;
        y := y + 1;
      }
      ReadDone(Screen(), width, if y == y0 then x0 else 0, y, cells, max);
    }

    method ReadRowFrom(x0: nat, y: nat, cells0: nat, max: nat) returns (part: seq<nat>, cells: nat)
      requires Valid() && y < height && ScreenOk(Screen(), width)
      ensures part + Read(Screen(), width, 0, y + 1, cells, max) == Read(Screen(), width, x0, y, cells0, max)
    {
      hide RowOk, RowStore.Valid, RowStore.Contents, Logical, Read, TrailingHalf, LeadingHalf, Unit;
      part, cells := [], cells0;
      var row := StoredRow(y);
      ghost var s := Screen();
      var x := x0;
      while x < width && cells < max
        invariant part + Read(s, width, x, y, cells, max) == Read(s, width, x0, y, cells0, max)
      {
        ghost var before := part;
        HalvesAgree(row, x);
        if row.TrailingAt(x) && cells != 0 {
        } else if row.TrailingAt(x) || (row.LeadingAt(x) && cells + 1 == max) {
          part := part + [SPACE];
        } else {
          var glyph := row.GlyphAt(x);
          part := part + [Unit(glyph)];
        }
        ReadStep(s, width, x, y, cells, max, before, part);
        x, cells := x + 1, cells + 1;
      }
      ReadRowEnd(s, width, x, y, cells, max);
    }

    /** The row's own tests find the halves of wide glyphs. */
    lemma HalvesAgree(row: ScreenRow, x: nat)
      requires row.Valid() && x < |row.cells|
      ensures row.TrailingAt(x) <==> TrailingHalf(row.cells, x)
      ensures row.LeadingAt(x) <==> LeadingHalf(row.cells, x)
    {
      row.ReadsCells(x);
      row.ReadsCells(x + 1);
    }
  }
}
