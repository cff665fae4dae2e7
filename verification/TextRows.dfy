/** Text output a row at a time is text output code point by code point. */
module TextRows {
  import opened Cells
  import opened Scrolling
  import opened LinearText
  import opened Terminals

  /** Two terminals that agree after the first code point agree after the text. */
  lemma PutTextFirst(a: Term, b: Term, view: Rect, width: nat, measure: Char32 -> int, text: seq<Char32>)
    requires text != [] && PutChar(a, view, width, measure, text[0]) == PutChar(b, view, width, measure, text[0])
    ensures PutText(a, view, width, measure, text) == PutText(b, view, width, measure, text)
  {
    hide PutChar;
    PutTextCons(a, view, width, measure, text);
    PutTextCons(b, view, width, measure, text);
  }

  lemma LineFeedIgnoresColumn(t: Term, view: Rect, width: nat, x: int)
    ensures LineFeed(t.(x := x), view, width) == LineFeed(t, view, width)
  {}

  /** The cursor after a row's worth of text: it may stand one past the right edge. */
  function RowWritten(t: Term, view: Rect, measure: Char32 -> int, text: seq<Char32>): Term {
    var prefix := text[..Fit(measure, text, t.x, view.right)];
    var run := Run(prefix, WidthsOf(measure, prefix), t.attr);
    if prefix == [] then t else Drawn(t, run).(x := t.x + |run|)
  }

  /**
    One row of a text: what is left goes on after a line feed exactly as it would code point by code
    point, and when nothing is left the wrap after the last column is delayed.
   */
  lemma RowStep(t: Term, view: Rect, width: nat, measure: Char32 -> int, text: seq<Char32>)
    requires ViewOk(view, width, t.screen) && InView(t, view) && !t.pendingWrap && text != []
    requires Placeable(view, measure, text)
    ensures var n := Fit(measure, text, t.x, view.right);
            var u := RowWritten(t, view, measure, text);
            && ViewOk(view, width, u.screen) && view.left <= u.x <= view.right + 1 && u.y == t.y && !u.pendingWrap
            && (n == |text| ==>
                  PutText(t, view, width, measure, text) ==
                  if u.x > view.right then u.(x := view.right, pendingWrap := true) else u)
            && (n < |text| ==>
                  PutText(t, view, width, measure, text) ==
                  PutText(LineFeed(u, view, width), view, width, measure, text[n..]))
  {
    hide PutText, PutChar, LineFeed, Run, ScreenOk;
    var n := Fit(measure, text, t.x, view.right);
    if n == 0 {
      assert text[n..] == text;
      RowFull(t, view, width, measure, text, t);
    } else {
      var run := Run(text[..n], WidthsOf(measure, text[..n]), t.attr);
      FirstRow(t, view, width, measure, text, n, run);
      var u := Drawn(t, run).(x := t.x + |run|);
      assert RowWritten(t, view, measure, text) == u;
      if n == |text| {
        assert text[..n] == text;
      } else {
        assert PutText(t, view, width, measure, text) == PutText(LineFeed(u, view, width), view, width, measure, text[n..]) by {
          CutAt(t, view, width, measure, text, n);
          RestOfRows(t, view, width, measure, text, n, run);
        }
      }
    }
  }

  lemma FirstRow(t: Term, view: Rect, width: nat, measure: Char32 -> int, text: seq<Char32>, n: nat, run: seq<Cell>)
    requires ViewOk(view, width, t.screen) && InView(t, view) && !t.pendingWrap
    requires 0 < n == Fit(measure, text, t.x, view.right) && run == Run(text[..n], WidthsOf(measure, text[..n]), t.attr)
    ensures t.x + |run| <= view.right + 1 && ViewOk(view, width, Drawn(t, run).screen)
    ensures PutText(t, view, width, measure, text[..n]) == Advance(Drawn(t, run), view, |run|)
    ensures run != []
  {
    hide PutText, PutChar, Run;
    FitIsMaximal(measure, text, t.x, view.right);
    var w := WidthsOf(measure, text[..n]);
    TotalPositive(w);
    RunOk(text[..n], w, t.attr);
    DrawnOk(t, view, width, run);
    PutRow(t, view, width, measure, text[..n], w, run);
  }

  lemma CutAt(t: Term, view: Rect, width: nat, measure: Char32 -> int, text: seq<Char32>, n: nat)
    requires n <= |text|
    ensures PutText(t, view, width, measure, text)
         == PutText(PutText(t, view, width, measure, text[..n]), view, width, measure, text[n..])
  {
    hide PutChar;
    PutTextConcat(t, view, width, measure, text[..n], text[n..]);
    assert text[..n] + text[n..] == text;
  }

  /** Behind a row's worth of columns the next code point has no room. */
  lemma RestOfRows(t: Term, view: Rect, width: nat, measure: Char32 -> int, text: seq<Char32>, n: nat, run: seq<Cell>)
    requires InView(t, view) && !t.pendingWrap && t.x + |run| <= view.right + 1 && run != []
    requires Placeable(view, measure, text) && 0 < n == Fit(measure, text, t.x, view.right) < |text|
    requires |run| == Total(WidthsOf(measure, text[..n])) && ViewOk(view, width, Drawn(t, run).screen)
    ensures PutText(Advance(Drawn(t, run), view, |run|), view, width, measure, text[n..])
         == PutText(LineFeed(Drawn(t, run).(x := t.x + |run|), view, width), view, width, measure, text[n..])
  {
    hide PutText, PutChar, LineFeed, ScreenOk;
    assert text[n..][0] == text[n];
    NoRoomForNext(measure, text, n, t.x, view.right);
    RowFull(Advance(Drawn(t, run), view, |run|), view, width, measure, text[n..], Drawn(t, run).(x := t.x + |run|));
  }

  lemma NoRoomForNext(measure: Char32 -> int, text: seq<Char32>, n: nat, x: int, right: int)
    requires x <= right + 1 && n == Fit(measure, text, x, right) < |text|
    ensures x + Total(WidthsOf(measure, text[..n])) + Columns(measure, text[n]) > right + 1
  {
    FitIsMaximal(measure, text, x, right);
    WidthsSnoc(measure, text, n);
  }

  /** Where the next code point has no room, it goes on after a line feed. */
  lemma RowFull(v: Term, view: Rect, width: nat, measure: Char32 -> int, text: seq<Char32>, u: Term)
    requires ViewOk(view, width, v.screen) && InView(v, view) && text != [] && Placeable(view, measure, [text[0]])
    requires if v.pendingWrap then v.x == view.right else v.x + Columns(measure, text[0]) - 1 > view.right
    requires u == v.(x := u.x, pendingWrap := false)
    ensures PutText(v, view, width, measure, text)
         == PutText(LineFeed(u, view, width), view, width, measure, text)
  {
    hide PutText, Scrolled, ScreenOk;
    LineFeedIgnoresColumn(v.(pendingWrap := false), view, width, u.x);
    PutAfterFeed(v, view, width, measure, text[0]);
    PutTextFirst(LineFeed(u, view, width), v, view, width, measure, text);
  }

  /** The first `n` code points fit, in `cells` columns. */
  ghost predicate MeasuredTo(measure: Char32 -> int, text: seq<Char32>, x: int, right: int, n: nat, cells: nat) {
    && n <= |text|
    && n + Fit(measure, text[n..], x + cells, right) == Fit(measure, text, x, right)
    && cells == Total(WidthsOf(measure, text[..n]))
  }

  lemma MeasureNext(measure: Char32 -> int, text: seq<Char32>, x: int, right: int, n: nat, cells: nat)
    requires MeasuredTo(measure, text, x, right, n, cells) && n < |text|
    ensures var cw := Columns(measure, text[n]);
            if x + cells + cw - 1 > right then n == Fit(measure, text, x, right)
            else MeasuredTo(measure, text, x, right, n + 1, cells + cw)
    ensures WidthsOf(measure, text[..n + 1]) == WidthsOf(measure, text[..n]) + [Columns(measure, text[n])]
  {
    hide WidthsOf, Total, Columns, Fit;
    FitNext(measure, text, x + cells, right, n);
    WidthsSnoc(measure, text, n);
  }

  lemma MeasuredNone(measure: Char32 -> int, text: seq<Char32>, x: int, right: int)
    ensures MeasuredTo(measure, text, x, right, 0, 0) && WidthsOf(measure, text[..0]) == []
  {
    assert text[0..] == text;
  }

  lemma Measured(measure: Char32 -> int, text: seq<Char32>, x: int, right: int, n: nat, cells: nat)
    requires MeasuredTo(measure, text, x, right, n, cells)
    requires n < |text| ==> x + cells + Columns(measure, text[n]) - 1 > right
    ensures n == Fit(measure, text, x, right) && cells == Total(WidthsOf(measure, text[..n]))
  {
    hide Columns, Total, WidthsOf;
    if n < |text| { FitNext(measure, text, x + cells, right, n); }
  }

  lemma FitNext(measure: Char32 -> int, text: seq<Char32>, x: int, right: int, n: nat)
    requires n < |text|
    ensures var cw := Columns(measure, text[n]);
            Fit(measure, text[n..], x, right) == if x + cw - 1 > right then 0 else 1 + Fit(measure, text[n + 1..], x + cw, right)
  {
    hide Columns;
    assert text[n..][0] == text[n] && text[n..][1..] == text[n + 1..];
  }

  lemma WidthsSnoc(measure: Char32 -> int, text: seq<Char32>, n: nat)
    requires n < |text|
    ensures WidthsOf(measure, text[..n + 1]) == WidthsOf(measure, text[..n]) + [Columns(measure, text[n])]
    ensures Total(WidthsOf(measure, text[..n + 1])) == Total(WidthsOf(measure, text[..n])) + Columns(measure, text[n])
  {
    var w := WidthsOf(measure, text[..n + 1]);
    assert w[..n] == WidthsOf(measure, text[..n]);
  }

  /** After a full row the rest of the text goes on at the left edge of the next one: the loop makes progress. */
  lemma RowFed(t: Term, view: Rect, width: nat, measure: Char32 -> int, text: seq<Char32>, u: Term)
    requires ViewOk(view, width, u.screen) && InView(t, view) && !u.pendingWrap && text != [] && u.y == t.y
    requires Placeable(view, measure, text)
    ensures var v := LineFeed(u, view, width);
            var rest := text[Fit(measure, text, t.x, view.right)..];
            && InView(v, view) && !v.pendingWrap && v.x == view.left && Placeable(view, measure, rest)
            && (|rest| < |text| || (rest == text && t.x != view.left))
  {
    LineFeedOk(u, view, width);
    RestPlaceable(view, measure, text, Fit(measure, text, t.x, view.right));
    if t.x == view.left { ProgressAtLeftEdge(view, measure, text); }
  }

  lemma RestPlaceable(view: Rect, measure: Char32 -> int, text: seq<Char32>, n: nat)
    requires n <= |text| && Placeable(view, measure, text)
    ensures Placeable(view, measure, text[n..])
  {
    assert forall i :: 0 <= i < |text[n..]| ==> text[n..][i] == text[n + i];
  }

  /** A delayed wrap is taken by the first code point of the next text. */
  lemma TakeWrap(b: Term, view: Rect, width: nat, measure: Char32 -> int, text: seq<Char32>)
    requires ViewOk(view, width, b.screen) && InView(b, view) && text != [] && Placeable(view, measure, text)
    ensures var c := b.(pendingWrap := false);
            PutText(if b.pendingWrap && b.x == view.right then LineFeed(c, view, width) else c, view, width, measure, text)
              == PutText(b, view, width, measure, text)
  {
    hide PutText, Scrolled, ScreenOk;
    var c := b.(pendingWrap := false);
    if b.pendingWrap && b.x == view.right {
      PutAfterFeed(b, view, width, measure, text[0]);
      PutTextFirst(LineFeed(c, view, width), b, view, width, measure, text);
    } else {
      PutTextFirst(c, b, view, width, measure, text);
    }
  }
}
