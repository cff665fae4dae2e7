/**
  Text that the terminal already shows moves the cursor and leaves the screen alone. Its rows are those of
  the full path, but a first code point that has no room stops it, whatever follows.
 */
module CursorOnlyText {
  import opened Cells
  import opened Scrolling
  import opened LinearText
  import opened Shorts
  import opened Terminals
  import opened TextRows

  datatype Pos = Pos(x: int, y: int, pendingWrap: bool)

  function PosOf(t: Term): Pos { Pos(t.x, t.y, t.pendingWrap) }

  /** A line feed that does not scroll. */
  function CursorFeed(c: Pos, view: Rect): Pos {
    c.(x := view.left, y := if c.y >= view.bottom then view.bottom else Short(c.y + 1))
  }

  function CursorRows(c: Pos, view: Rect, measure: Char32 -> int, text: seq<Char32>): Pos
    decreases |text|
  {
    var n := Fit(measure, text, c.x, view.right);
    if n == 0 then c
    else
      var moved := c.(x := c.x + Total(WidthsOf(measure, text[..n])));
      if n < |text| then CursorRows(CursorFeed(moved, view), view, measure, text[n..])
      else if moved.x > view.right then Pos(view.right, moved.y, true)
      else moved
  }

  /** Where the first code point of a text would go. */
  function CursorStart(c: Pos, view: Rect): Pos {
    var b := Pos(Between(c.x, view.left, view.right), Between(c.y, view.top, view.bottom), false);
    if c.pendingWrap && b.x == view.right then CursorFeed(b, view) else b
  }

  function CursorText(c: Pos, view: Rect, measure: Char32 -> int, text: seq<Char32>): Pos {
    if text == [] then c.(x := Between(c.x, view.left, view.right), y := Between(c.y, view.top, view.bottom))
    else CursorRows(CursorStart(c, view), view, measure, text)
  }

  ghost predicate NoRegion(t: Term) { t.regionTop == 1 && t.regionBottom <= 0 }

  lemma FeedsAgree(t: Term, view: Rect, width: nat, x: int)
    requires ViewOk(view, width, t.screen) && NoRegion(t) && view.top <= t.y <= view.bottom
    ensures PosOf(LineFeed(t.(x := x), view, width)) == CursorFeed(PosOf(t.(x := x)), view)
    ensures NoRegion(LineFeed(t, view, width))
  {}

  /** Row after row, as long as the first code point has room. */
  lemma {:induction false} RowsAgree(t: Term, view: Rect, width: nat, measure: Char32 -> int, text: seq<Char32>)
    requires ViewOk(view, width, t.screen) && InView(t, view) && NoRegion(t) && !t.pendingWrap
    requires view.left < view.right && text != [] && t.x + Columns(measure, text[0]) - 1 <= view.right
    ensures CursorRows(PosOf(t), view, measure, text) == PosOf(PutText(t, view, width, measure, text))
    decreases |text|
  {
    hide PutText, PutChar, LineFeed, ScreenOk, Run;
    var n := Fit(measure, text, t.x, view.right);
    var u := RowWritten(t, view, measure, text);
    RowStep(t, view, width, measure, text);
    assert u.x == t.x + Total(WidthsOf(measure, text[..n]));
    if n < |text| {
      LineFeedOk(u, view, width);
      FeedsAgree(u, view, width, u.x);
      RowsAgree(LineFeed(u, view, width), view, width, measure, text[n..]);
    }
  }

  /** The first code point of a text has room where it would go. */
  predicate FirstFits(t: Term, view: Rect, measure: Char32 -> int, text: seq<Char32>) {
    text != [] ==> CursorStart(PosOf(t), view).x + Columns(measure, text[0]) - 1 <= view.right
  }

  /** Both paths end at the same cursor, with the same wrap delayed or not. */
  ghost predicate Agree(t: Term, view: Rect, width: nat, measure: Char32 -> int, text: seq<Char32>) {
    CursorText(PosOf(t), view, measure, text) == PosOf(ApplyText(t, view, width, measure, text))
  }

  /**
    The cursor-only path ends where the full path ends, for every text whose first code point has room
    where it would go, in a viewport of two or more columns without a scroll region.
   */
  lemma CursorOnlyAgrees(t: Term, view: Rect, width: nat, measure: Char32 -> int, text: seq<Char32>)
    requires ViewOk(view, width, t.screen) && NoRegion(t) && view.left < view.right
    requires FirstFits(t, view, measure, text)
    ensures Agree(t, view, width, measure, text)
  {
    hide PutChar, LineFeed, ScreenOk, Run, CursorRows;
    if text != [] {
      var b := Clamped(t, view);
      var c := b.(pendingWrap := false);
      TakeWrap(b, view, width, measure, text);
      LineFeedOk(c, view, width);
      FeedsAgree(c, view, width, c.x);
      RowsAgree(if b.pendingWrap && b.x == view.right then LineFeed(c, view, width) else c, view, width, measure, text);
    }
  }

  // ---- A first code point without room ----

  /** Rows only lead down. */
  lemma {:induction false} RowsLeadDown(c: Pos, view: Rect, measure: Char32 -> int, text: seq<Char32>)
    requires c.y <= view.bottom < 0x7FFF && -0x8000 <= c.y
    ensures c.y <= CursorRows(c, view, measure, text).y <= view.bottom
    decreases |text|
  {
    hide Total, WidthsOf;
    var n := Fit(measure, text, c.x, view.right);
    if 0 < n < |text| {
      var moved := c.(x := c.x + Total(WidthsOf(measure, text[..n])));
      RowsLeadDown(CursorFeed(moved, view), view, measure, text[n..]);
    }
  }

  /** The full path takes a line feed first, and then goes on as the cursor-only path would from the left edge. */
  lemma MisfitGoesOn(t: Term, view: Rect, width: nat, measure: Char32 -> int, text: seq<Char32>)
    requires ViewOk(view, width, t.screen) && NoRegion(t) && view.left < view.right
    requires !FirstFits(t, view, measure, text)
    ensures var b := Clamped(t, view);
            && CursorText(PosOf(t), view, measure, text) == Pos(view.right, b.y, false)
            && PosOf(ApplyText(t, view, width, measure, text)) ==
               CursorRows(CursorFeed(Pos(view.right, b.y, false), view), view, measure, text)
  {
    hide PutChar, LineFeed, ScreenOk, Run, PutText;
    var b := Clamped(t, view);
    assert !b.pendingWrap && b.x == view.right && Columns(measure, text[0]) == 2;
    LineFeedOk(b, view, width);
    FeedsAgree(b, view, width, b.x);
    RowFull(b, view, width, measure, text, b);
    RowsAgree(LineFeed(b, view, width), view, width, measure, text);
  }

  /**
    Then the two paths agree exactly where the cursor is on the last row and the text, laid out from the left
    edge of that row, leaves the cursor on the last column with the column still free.
   */
  lemma CursorOnlyMisfit(t: Term, view: Rect, width: nat, measure: Char32 -> int, text: seq<Char32>)
    requires ViewOk(view, width, t.screen) && NoRegion(t) && view.left < view.right
    requires !FirstFits(t, view, measure, text)
    ensures Agree(t, view, width, measure, text) <==>
            && Clamped(t, view).y == view.bottom
            && CursorRows(Pos(view.left, view.bottom, false), view, measure, text) == Pos(view.right, view.bottom, false)
  {
    hide ApplyText, CursorText, CursorRows, ScreenOk;
    var b := Clamped(t, view);
    MisfitGoesOn(t, view, width, measure, text);
    RowsLeadDown(CursorFeed(Pos(view.right, b.y, false), view), view, measure, text);
  }

  /** Both halves, for every text. */
  lemma CursorOnlyExact(t: Term, view: Rect, width: nat, measure: Char32 -> int, text: seq<Char32>)
    requires ViewOk(view, width, t.screen) && NoRegion(t) && view.left < view.right
    ensures Agree(t, view, width, measure, text) <==>
            || FirstFits(t, view, measure, text)
            || (Clamped(t, view).y == view.bottom &&
                CursorRows(Pos(view.left, view.bottom, false), view, measure, text) == Pos(view.right, view.bottom, false))
  {
    hide Agree, ScreenOk, CursorRows;
    if FirstFits(t, view, measure, text) {
      CursorOnlyAgrees(t, view, width, measure, text);
    } else {
      CursorOnlyMisfit(t, view, width, measure, text);
    }
  }

  /** So above the last row they agree exactly where the first code point has room. */
  lemma CursorOnlyAboveLastRow(t: Term, view: Rect, width: nat, measure: Char32 -> int, text: seq<Char32>)
    requires ViewOk(view, width, t.screen) && NoRegion(t) && view.left < view.right
    requires Clamped(t, view).y < view.bottom
    ensures Agree(t, view, width, measure, text) <==> FirstFits(t, view, measure, text)
  {
    hide Agree, ScreenOk, CursorRows, FirstFits;
    CursorOnlyExact(t, view, width, measure, text);
  }

  /** And a code point alone needs a viewport of three columns for it. */
  lemma CursorOnlyMisfitAlone(t: Term, view: Rect, width: nat, measure: Char32 -> int, ch: Char32)
    requires ViewOk(view, width, t.screen) && NoRegion(t) && view.left < view.right
    requires !FirstFits(t, view, measure, [ch])
    ensures Agree(t, view, width, measure, [ch]) <==> view.right == view.left + 2 && Clamped(t, view).y == view.bottom
  {
    hide Agree, ScreenOk;
    CursorOnlyMisfit(t, view, width, measure, [ch]);
    assert Columns(measure, [ch][0]) == 2;
    assert Fit(measure, [ch], view.left, view.right) == 1 by { assert [ch][1..] == []; }
    assert [ch][..1] == [ch] && WidthsOf(measure, [ch]) == [2] && Total([2][..0]) == 0;
  }
}
