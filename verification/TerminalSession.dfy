/** Terminal state over a screen buffer, and text output that works a row at a time. */
module TerminalSessions {
  import opened Cells
  import opened Scrolling
  import opened LinearText
  import opened RowStores
  import opened ScreenBuffers
  import opened Shorts
  import opened Terminals
  import opened TextRows
  import opened ScrollRegions
  import opened CursorOnlyText
  import opened RowCopy
  import RowEdits

  class Session {
    const buffer: ScreenBuffer
    const measure: Char32 -> int
    var x: int
    var y: int
    var pendingWrap: bool
    var regionTop: int
    var regionBottom: int
    var attr: Attr

    constructor (b: ScreenBuffer, m: Char32 -> int)
      requires b.Valid()
      ensures buffer == b && measure == m && Valid()
      ensures State() == Term(b.view.left, b.view.top, false, 1, 0, 0x07, b.Screen())
    {
      buffer, measure := b, m;
      x, y, pendingWrap, regionTop, regionBottom, attr := b.view.left, b.view.top, false, 1, 0, 0x07;
    }

    ghost predicate Valid()
      reads this, buffer, buffer.store, buffer.store.Repr
    {
      buffer.Valid()
    }

    ghost function State(): Term
      requires Valid()
      reads this, buffer, buffer.store, buffer.store.Repr
    {
      Term(x, y, pendingWrap, regionTop, regionBottom, attr, buffer.Screen())
    }

    lemma ViewValid()
      requires Valid()
      ensures ViewOk(buffer.view, buffer.width, buffer.Screen())
    {
      buffer.ScreenValid();
    }

    /** Scrolls a region, with blanks in the default attribute. */
    method ScrollIn(r: Rect, destY: int)
      requires Valid()
      modifies buffer`rowOrigin, buffer.store`storage, buffer.store.Repr
      ensures Valid() && buffer.Screen() == RegionScrolled(old(State()), buffer.width, r, destY)
    {
      buffer.Scroll(r, r, true, r.left, destY, SPACE, attr);
    }

    /** The line feed of processed output: the region is the whole viewport when none is set. */
    method LineFeed()
      requires Valid()
      modifies this`x, this`y, buffer`rowOrigin, buffer.store`storage, buffer.store.Repr
      ensures Valid() && State() == Terminals.LineFeed(old(State()), buffer.view, buffer.width)
    {
      hide RowStore.Valid, RowStore.Contents, Logical, Scrolled;
      var r := Region(regionTop, regionBottom, buffer.view);
      assert r.top <= r.bottom;
      if y == r.bottom && y >= r.top {
        ScrollIn(r, r.top - 1);
        y := r.bottom;
      } else {
        y := Min(buffer.view.bottom, Short(y + 1));
      }
      x := buffer.view.left;
    }

    /** The longest prefix of `text` that fits before the right edge; `widths` stays empty while all are 1. */
    method MeasureRow(text: seq<Char32>, right: int) returns (consumed: nat, widths: seq<nat>, cellCount: nat, allSingleWidth: bool)
      ensures consumed == Fit(measure, text, x, right) && cellCount == Total(WidthsOf(measure, text[..consumed]))
      ensures (if allSingleWidth then Ones(consumed) else widths) == WidthsOf(measure, text[..consumed])
    {
      hide Fit, Total, WidthsOf, MeasuredTo;
      consumed, widths, cellCount, allSingleWidth := 0, [], 0, true;
      MeasuredNone(measure, text, x, right);
      while consumed < |text|
        invariant consumed <= |text|
        invariant MeasuredTo(measure, text, x, right, consumed, cellCount)
        invariant (if allSingleWidth then Ones(consumed) else widths) == WidthsOf(measure, text[..consumed])
        invariant allSingleWidth ==> widths == []
      {
        var cw := Columns(measure, text[consumed]);
        MeasureNext(measure, text, x, right, consumed, cellCount);
        if x + cellCount + cw - 1 > right { break; }
        widths, allSingleWidth := NoteWidth(widths, allSingleWidth, consumed, cw);
        cellCount := cellCount + cw;
        consumed := consumed + 1;
      }
      Measured(measure, text, x, right, consumed, cellCount);
    }

    /** The array of widths comes into being with the first width that is not 1. */
    static method NoteWidth(widths0: seq<nat>, allSingle0: bool, consumed: nat, cw: nat)
      returns (widths: seq<nat>, allSingleWidth: bool)
      requires allSingle0 ==> widths0 == []
      ensures (if allSingleWidth then Ones(consumed + 1) else widths)
           == (if allSingle0 then Ones(consumed) else widths0) + [cw]
      ensures allSingleWidth ==> widths == []
    {
      widths, allSingleWidth := widths0, allSingle0;
      if cw != 1 {
        if allSingleWidth { widths := Ones(consumed); }
        allSingleWidth := false;
      }
      if !allSingleWidth { widths := widths + [cw]; }
      if allSingleWidth { assert Ones(consumed + 1) == Ones(consumed) + [1]; }
    }

    /** Writes as much of `text` as fits in the cursor's row. */
    method WriteTextRow(text: seq<Char32>) returns (consumed: nat, rowEnd: bool)
      requires Valid() && text != []
      modifies this`x, this`y, buffer.store.Repr
      ensures Valid()
      ensures var t := Clamped(old(State()), buffer.view);
              && consumed == Fit(measure, text, t.x, buffer.view.right)
              && State() == RowWritten(t, buffer.view, measure, text)
      ensures rowEnd <==> x > buffer.view.right || consumed < |text|
    {
      hide RowStore.Valid, RowStore.Contents, Logical, Run;
      var view := buffer.view;
      x := Between(x, view.left, view.right);
      y := Between(y, view.top, view.bottom);
      ghost var t := Clamped(old(State()), view);
      assert State() == t;
      var widths, cellCount, allSingleWidth;
      consumed, widths, cellCount, allSingleWidth := MeasureRow(text, view.right);
      if consumed != 0 {
        ghost var ws := WidthsOf(measure, text[..consumed]);
        ghost var run := Run(text[..consumed], ws, attr);
        FitIsMaximal(measure, text, x, view.right);
        RunOk(text[..consumed], WidthsOf(measure, text[..consumed]), attr);
        ViewValid();
        buffer.WriteRun(y, x, text[..consumed], widths, cellCount, allSingleWidth, attr, ws, run);
        x := x + cellCount;
      }
      rowEnd := x > view.right || consumed < |text|;
    }

    /** Text without control characters: the loop over rows puts what code point by code point would. */
    method ApplyText(text: seq<Char32>)
      requires Valid() && Placeable(buffer.view, measure, text)
      modifies this`x, this`y, this`pendingWrap, buffer`rowOrigin, buffer.store`storage, buffer.store.Repr
      ensures Valid()
      ensures State() == Terminals.ApplyText(old(State()), buffer.view, buffer.width, measure, text)
    {
      hide RowStore.Valid, RowStore.Contents, Logical, PutChar, ScreenOk;
      var view := buffer.view;
      ghost var target := Terminals.ApplyText(State(), view, buffer.width, measure, text);
      x := Between(x, view.left, view.right);
      y := Between(y, view.top, view.bottom);
      if text == [] { return; }
      TakePendingWrap(text);
      var remaining := text;
      while remaining != []
        invariant Valid() && Placeable(view, measure, remaining)
        invariant remaining == [] ==> State() == target
        invariant remaining != [] ==>
          InView(State(), view) && !pendingWrap && PutText(State(), view, buffer.width, measure, remaining) == target
        decreases |remaining|, x != view.left
      {
        remaining := NextRow(remaining);
      }
    }

    /** A delayed wrap is taken by the first code point of the next text. */
    method TakePendingWrap(text: seq<Char32>)
      requires Valid() && InView(State(), buffer.view) && text != [] && Placeable(buffer.view, measure, text)
      modifies this`x, this`y, this`pendingWrap, buffer`rowOrigin, buffer.store`storage, buffer.store.Repr
      ensures Valid() && InView(State(), buffer.view) && !pendingWrap
      ensures PutText(State(), buffer.view, buffer.width, measure, text)
           == PutText(old(State()), buffer.view, buffer.width, measure, text)
    {
      hide RowStore.Valid, RowStore.Contents, Logical, PutText, Terminals.LineFeed, ScreenOk;
      ViewValid();
      TakeWrap(State(), buffer.view, buffer.width, measure, text);
      var was := pendingWrap;
      pendingWrap := false;
      LineFeedOk(State(), buffer.view, buffer.width);
      if was && x == buffer.view.right { LineFeed(); }
    }

    /** One turn of the loop: a row of text, and the line feed or the delayed wrap after it. */
    method NextRow(text: seq<Char32>) returns (remaining: seq<Char32>)
      requires Valid() && InView(State(), buffer.view) && !pendingWrap && text != []
      requires Placeable(buffer.view, measure, text)
      modifies this`x, this`y, this`pendingWrap, buffer`rowOrigin, buffer.store`storage, buffer.store.Repr
      ensures Valid() && Placeable(buffer.view, measure, remaining)
      ensures |remaining| < |text| || (remaining == text && old(x) != buffer.view.left && x == buffer.view.left)
      ensures remaining == [] ==> State() == PutText(old(State()), buffer.view, buffer.width, measure, text)
      ensures remaining != [] ==>
        InView(State(), buffer.view) && !pendingWrap &&
        PutText(State(), buffer.view, buffer.width, measure, remaining)
          == PutText(old(State()), buffer.view, buffer.width, measure, text)
    {
      hide RowStore.Valid, RowStore.Contents, Logical, PutText, PutChar, Terminals.LineFeed, ScreenOk, Run;
      ghost var t := State();
      ViewValid();
      assert Clamped(t, buffer.view) == t;
      ghost var u := RowWritten(t, buffer.view, measure, text);
      RowStep(t, buffer.view, buffer.width, measure, text);
      var consumed, rowEnd := WriteTextRow(text);
      remaining := text[consumed..];
      if remaining == [] {
        if rowEnd { x, pendingWrap := buffer.view.right, true; }
      } else {
        assert rowEnd;
        RowFed(t, buffer.view, buffer.width, measure, text, u);
        LineFeed();
      }
    }

    /** The region operations. */
    method Perform(op: RegionOp)
      requires Valid()
      modifies this`x, this`y, this`pendingWrap, buffer`rowOrigin, buffer.store`storage, buffer.store.Repr
      ensures Valid() && State() == ScrollRegions.Perform(old(State()), buffer.view, buffer.width, op)
    {
      hide RowStore.Valid, RowStore.Contents, Logical, Region, Short, Terminals.LineFeed;
      hide Scrolled, ScreenOk;
      pendingWrap := false;
      var r := Region(regionTop, regionBottom, buffer.view);
      match op
      case LF => LineFeed();
      case RI =>
        x := Between(x, buffer.view.left, buffer.view.right);
        y := Between(y, buffer.view.top, buffer.view.bottom);
        if y == r.top { ScrollIn(r, Short(r.top + 1)); } else { y := y - 1; }
      case SU(n) => ScrollIn(r, Short(r.top - Count(n)));
      case SD(n) => ScrollIn(r, Short(r.top + Count(n)));
      case IL(n) =>
        if r.top <= y <= r.bottom { ScrollIn(Rect(r.left, y, r.right, r.bottom), Short(y + Count(n))); }
      case DL(n) =>
        if r.top <= y <= r.bottom { ScrollIn(Rect(r.left, y, r.right, r.bottom), Short(y - Count(n))); }
    }

    /** ICH, DCH and ECH on the cursor's row. */
    method EditRow(op: RowEdits.RowOp)
      requires Valid() && op.n <= 0x7FFF
      modifies this`pendingWrap, buffer.store.Repr
      ensures Valid() && State() == RowEdits.Edited(old(State()), buffer.view, op)
    {
      hide RowStore.Valid, RowStore.Contents, Logical, RowEdits.RowEdited, ScreenOk;
      var view := buffer.view;
      pendingWrap := false;
      if y < view.top || y > view.bottom { return; }
      var left := Between(x, view.left, view.right);
      var n := RowEdits.Taken(left, view.right, op.n);
      EditColumns(left, n, view.right, op);
    }

    method EditColumns(left: nat, n: nat, right: nat, op: RowEdits.RowOp)
      requires Valid() && op.n <= 0x7FFF && 0 <= y < buffer.height
      requires left <= right && n == RowEdits.Taken(left, right, op.n)
      modifies buffer.store.Repr
      ensures Valid()
      ensures buffer.Screen() ==
              old(buffer.Screen())[y := RowEdits.RowEdited(old(buffer.Screen())[y], left, right, op, attr)]
    {
      hide RowStore.Valid, RowStore.Contents, Logical, Copied, Filled, ScreenOk;
      var kept := right - left + 1 - n;
      match op
      case InsertBlanks(_) =>
        MoveColumns(left, left + n, kept);
        buffer.FillCells(y, left, n, SPACE, attr);
      case DeleteColumns(_) =>
        MoveColumns(left + n, left, kept);
        buffer.FillCells(y, right - n + 1, n, SPACE, attr);
      case EraseColumns(_) =>
        buffer.FillCells(y, left, n, SPACE, attr);
    }

    /** Columns of the cursor's row copied from a copy of the row. */
    method MoveColumns(from: nat, to: nat, n: nat)
      requires Valid() && 0 <= y < buffer.height
      modifies buffer.store.Repr
      ensures Valid()
      ensures buffer.Screen() == old(buffer.Screen())[y := Copied(old(buffer.Screen())[y], old(buffer.Screen())[y], from, to, n)]
    {
      if n > 0 { buffer.CopyColumns(y, from, to, n); }
    }

    /** Text the terminal already shows: the cursor moves, the screen stays. */
    method ApplyTextCursorOnly(text: seq<Char32>)
      requires Valid()
      modifies this`x, this`y, this`pendingWrap
      ensures Valid() && PosOf(State()) == CursorText(old(PosOf(State())), buffer.view, measure, text)
    {
      hide RowStore.Valid, RowStore.Contents, Logical, Fit, Total, WidthsOf, ScreenOk;
      var view := buffer.view;
      x := Between(x, view.left, view.right);
      y := Between(y, view.top, view.bottom);
      if text == [] { return; }
      var was := pendingWrap;
      pendingWrap := false;
      if was && x == view.right { LineFeedCursorOnly(); }
      ghost var target := CursorRows(Pos(x, y, pendingWrap), view, measure, text);
      var remaining := text;
      while remaining != []
        invariant !pendingWrap || remaining == []
        invariant if remaining == [] then Pos(x, y, pendingWrap) == target
                  else CursorRows(Pos(x, y, pendingWrap), view, measure, remaining) == target
        decreases |remaining|
      {
        var consumed, _, cellCount, _ := MeasureRow(remaining, view.right);
        if consumed == 0 { break; }
        x := x + cellCount;
        remaining := remaining[consumed..];
        if remaining != [] {
          LineFeedCursorOnly();
        } else if x > view.right {
          x, pendingWrap := view.right, true;
        }
      }
    }

    method LineFeedCursorOnly()
      requires Valid()
      modifies this`x, this`y
      ensures Pos(x, y, pendingWrap) == CursorFeed(old(Pos(x, y, pendingWrap)), buffer.view)
    {
      if y >= buffer.view.bottom { y := buffer.view.bottom; } else { y := Short(y + 1); }
      x := buffer.view.left;
    }
  }
}
