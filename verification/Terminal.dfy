/**
  What the terminal does with text and line feeds, one code point at a time: delayed wrap, the scroll
  region and the screen. The batch form that works a row at a time is proved against this one.
 */
module Terminals {
  import opened Cells
  import opened Scrolling
  import opened LinearText
  import opened Shorts

  /** Cursor, delayed wrap, DECSTBM margins (1-based, relative to the viewport), attribute and screen. */
  datatype Term = Term(x: int, y: int, pendingWrap: bool, regionTop: int, regionBottom: int, attr: Attr, screen: seq<Row>)

  /** The viewport and the buffer it lies in. */
  ghost predicate ViewOk(view: Rect, width: nat, s: seq<Row>) {
    && 0 <= view.left <= view.right < width <= 32767 && 0 <= view.top <= view.bottom < |s| <= 32767
    && ScreenOk(s, width)
  }

  predicate InView(t: Term, view: Rect) {
    view.left <= t.x <= view.right && view.top <= t.y <= view.bottom
  }

  function Clamped(t: Term, view: Rect): Term {
    t.(x := Between(t.x, view.left, view.right), y := Between(t.y, view.top, view.bottom))
  }

  /** DECSTBM margins as a rectangle of the buffer; the whole viewport when unset or degenerate. */
  function Region(regionTop: int, regionBottom: int, view: Rect): Rect {
    if regionTop == 1 && regionBottom <= 0 then view
    else
      var height := view.bottom - view.top + 1;
      var top := Between(regionTop, 1, height);
      var bottom := if regionBottom <= 0 then height else Between(regionBottom, 1, height);
      if top >= bottom then view else Rect(view.left, view.top + top - 1, view.right, view.top + bottom - 1)
  }

  /** The rows of `r` moved by `dy`, as every region operation scrolls. */
  function RegionScrolled(t: Term, width: nat, r: Rect, destY: int): seq<Row> {
    Scrolled(t.screen, width, r, r, true, r.left, destY, SPACE, t.attr)
  }

  /** LF: at the region's bottom the region scrolls up, elsewhere the cursor goes down; to the left edge always. */
  function LineFeed(t: Term, view: Rect, width: nat): Term {
    var r := Region(t.regionTop, t.regionBottom, view);
    if t.y == r.bottom then t.(screen := RegionScrolled(t, width, r, r.top - 1), x := view.left)
    else t.(y := Min(view.bottom, Short(t.y + 1)), x := view.left)
  }

  /** One code point: a pending wrap or a missing column first moves to the next row. */
  function PutChar(t: Term, view: Rect, width: nat, measure: Char32 -> int, ch: Char32): Term {
    var cw := Columns(measure, ch);
    var wrapped := if t.pendingWrap && t.x == view.right then LineFeed(t.(pendingWrap := false), view, width)
                   else t.(pendingWrap := false);
    var placed := if wrapped.x + cw - 1 > view.right then LineFeed(wrapped, view, width) else wrapped;
    Advance(Drawn(placed, Glyph([ch], cw, t.attr)), view, cw)
  }

  /** Columns drawn over row `y` from column `x`, where the row has room for them. */
  function DrawnOver(s: seq<Row>, x: int, y: int, run: seq<Cell>): (r: seq<Row>)
    ensures |r| == |s|
  {
    if 0 <= y < |s| && 0 <= x && x + |run| <= |s[y]| then s[y := Splice(s[y], x, run)] else s
  }

  /** Columns drawn at the cursor. */
  function Drawn(t: Term, run: seq<Cell>): Term {
    t.(screen := DrawnOver(t.screen, t.x, t.y, run))
  }

  /** Past the right edge the cursor holds on the last column and the wrap is delayed. */
  function Advance(t: Term, view: Rect, columns: nat): Term {
    if t.x + columns > view.right then t.(x := view.right, pendingWrap := true) else t.(x := t.x + columns)
  }

  /** A whole text, code point by code point. */
  function PutText(t: Term, view: Rect, width: nat, measure: Char32 -> int, text: seq<Char32>): Term {
    if text == [] then t
    else PutChar(PutText(t, view, width, measure, text[..|text| - 1]), view, width, measure, text[|text| - 1])
  }

  function ApplyText(t: Term, view: Rect, width: nat, measure: Char32 -> int, text: seq<Char32>): Term {
    PutText(Clamped(t, view), view, width, measure, text)
  }

  /** Every code point has room in an empty row: what text output needs to make progress. */
  ghost predicate Placeable(view: Rect, measure: Char32 -> int, text: seq<Char32>) {
    view.left < view.right || forall i :: 0 <= i < |text| ==> Columns(measure, text[i]) == 1
  }

  /** A cursor in the viewport stays where it is; any other goes to the nearest edge, column and row on their own. */
  lemma ClampedIsNearest(t: Term, view: Rect)
    requires view.left <= view.right && view.top <= view.bottom
    ensures var u := Clamped(t, view);
            && InView(u, view) && u.(x := t.x, y := t.y) == t
            && (view.left <= t.x <= view.right ==> u.x == t.x) && (view.top <= t.y <= view.bottom ==> u.y == t.y)
            && (t.x < view.left ==> u.x == view.left) && (t.x > view.right ==> u.x == view.right)
            && (t.y < view.top ==> u.y == view.top) && (t.y > view.bottom ==> u.y == view.bottom)
  {}

  // ---- Invariants ----

  lemma LineFeedOk(t: Term, view: Rect, width: nat)
    requires ViewOk(view, width, t.screen) && view.top <= t.y <= view.bottom
    ensures var u := LineFeed(t, view, width);
            ViewOk(view, width, u.screen) && |u.screen| == |t.screen| &&
            InView(u, view) && u.x == view.left && u.pendingWrap == t.pendingWrap
  {
    var r := Region(t.regionTop, t.regionBottom, view);
    ScrolledOk(t.screen, width, r, r, true, r.left, r.top - 1, SPACE, t.attr);
  }

  // ---- Which way lines move ----

  /** Lines move as a whole, or every glyph is one column wide. */
  ghost predicate Movable(view: Rect, width: nat, s: seq<Row>) {
    (view.left == 0 && view.right == width - 1) || SingleColumns(s)
  }

  /** What column `x` of row `y` shows after the lines of `r` have gone up by `up`, or down where it is negative. */
  function MovedCell(s: seq<Row>, attr: Attr, r: Rect, up: int, x: nat, y: nat): Cell
    requires y < |s| && x < |s[y]|
    requires Inside(r, x, y) && r.top <= y + up <= r.bottom ==> 0 <= y + up < |s| && x < |s[y + up]|
  {
    if !Inside(r, x, y) then s[y][x]
    else if r.top <= y + up <= r.bottom then s[y + up][x]
    else Cell([0x20], 0, 1, attr)
  }

  lemma LinesMove(t: Term, view: Rect, width: nat, r: Rect, up: int, x: nat, y: nat)
    requires ViewOk(view, width, t.screen) && Movable(view, width, t.screen) && y < |t.screen| && x < width && up != 0
    requires r.left == view.left && r.right == view.right && view.top <= r.top <= r.bottom <= view.bottom
    ensures |RegionScrolled(t, width, r, r.top - up)[y]| == width
    ensures RegionScrolled(t, width, r, r.top - up)[y][x] == MovedCell(t.screen, t.attr, r, up, x, y)
  {
    hide Scrolled;
    ScrollPointwise(t.screen, width, r, r, true, r.left, r.top - up, SPACE, t.attr, x, y);
  }

  /**
    LF on the region's last line: every other line of it shows what was on the line below, the last one is
    blank, and nothing else changes. Anywhere else the screen stays and the cursor goes down, as far as the viewport goes.
   */
  lemma LineFeedShows(t: Term, view: Rect, width: nat, x: nat, y: nat)
    requires ViewOk(view, width, t.screen) && Movable(view, width, t.screen) && view.top <= t.y <= view.bottom
    requires y < |t.screen| && x < width
    ensures var u := LineFeed(t, view, width);
            var r := Region(t.regionTop, t.regionBottom, view);
            && u.x == view.left && u.pendingWrap == t.pendingWrap && |u.screen| == |t.screen| && |u.screen[y]| == width
            && u.y == (if t.y == r.bottom || t.y == view.bottom then t.y else t.y + 1)
            && u.screen[y][x] == if t.y != r.bottom || !Inside(r, x, y) then t.screen[y][x]
                                 else if y < r.bottom then t.screen[y + 1][x]
                                 else Cell([0x20], 0, 1, t.attr)
  {
    hide RegionScrolled;
    var r := Region(t.regionTop, t.regionBottom, view);
    LineFeedOk(t, view, width);
    LinesMove(t, view, width, r, 1, x, y);
  }

  lemma DrawnOk(t: Term, view: Rect, width: nat, run: seq<Cell>)
    requires ViewOk(view, width, t.screen) && InView(t, view) && RowOk(run) && t.x + |run| <= view.right + 1
    ensures ViewOk(view, width, Drawn(t, run).screen)
    ensures Drawn(t, run).screen == t.screen[t.y := Splice(t.screen[t.y], t.x, run)]
  {
    SpliceOk(t.screen[t.y], t.x, run);
  }

  lemma PutCharOk(t: Term, view: Rect, width: nat, measure: Char32 -> int, ch: Char32)
    requires ViewOk(view, width, t.screen) && InView(t, view) && Placeable(view, measure, [ch])
    ensures ViewOk(view, width, PutChar(t, view, width, measure, ch).screen)
    ensures InView(PutChar(t, view, width, measure, ch), view)
  {
    var cw := Columns(measure, ch);
    assert [ch][0] == ch;
    var cleared := t.(pendingWrap := false);
    LineFeedOk(cleared, view, width);
    var wrapped := if t.pendingWrap && t.x == view.right then LineFeed(cleared, view, width) else cleared;
    LineFeedOk(wrapped, view, width);
    var placed := if wrapped.x + cw - 1 > view.right then LineFeed(wrapped, view, width) else wrapped;
    GlyphOk([ch], cw, t.attr);
    DrawnOk(placed, view, width, Glyph([ch], cw, t.attr));
  }

  /**
    A code point that has room and finds no delayed wrap: its columns take it in the current attribute, a glyph it
    cuts becomes spaces, nothing else changes, and the cursor goes behind it or waits on the last column.
   */
  lemma PutCharShows(t: Term, view: Rect, width: nat, measure: Char32 -> int, ch: Char32, x: nat, y: nat)
    requires ViewOk(view, width, t.screen) && InView(t, view) && y < |t.screen| && x < width
    requires !(t.pendingWrap && t.x == view.right) && t.x + Columns(measure, ch) - 1 <= view.right
    ensures var u := PutChar(t, view, width, measure, ch);
            var end := t.x + if measure(ch) >= 2 then 2 else 1;
            && |u.screen| == |t.screen| && |u.screen[y]| == width
            && u.screen[y][x] == (if y != t.y then t.screen[y][x]
                                  else if t.x <= x < end then Cell([ch], x - t.x, end - t.x, t.attr)
                                  else if Touches(t.screen[y], x, t.x, end) then Cell([0x20], 0, 1, t.screen[y][x].attr)
                                  else t.screen[y][x])
            && u.y == t.y && u.x == Min(end, view.right) && (u.pendingWrap <==> end == view.right + 1)
  {
    hide RowOk;
  }

  lemma {:induction false} PutTextOk(t: Term, view: Rect, width: nat, measure: Char32 -> int, text: seq<Char32>)
    requires ViewOk(view, width, t.screen) && InView(t, view) && Placeable(view, measure, text)
    ensures ViewOk(view, width, PutText(t, view, width, measure, text).screen)
    ensures InView(PutText(t, view, width, measure, text), view)
  {
    hide PutChar, ScreenOk;
    if text != [] {
      PutTextOk(t, view, width, measure, text[..|text| - 1]);
      assert Placeable(view, measure, [text[|text| - 1]]);
      PutCharOk(PutText(t, view, width, measure, text[..|text| - 1]), view, width, measure, text[|text| - 1]);
    }
  }

  // ---- Text output does not depend on how it is cut ----

  lemma {:induction false} PutTextConcat(t: Term, view: Rect, width: nat, measure: Char32 -> int,
                                         a: seq<Char32>, b: seq<Char32>)
    ensures PutText(t, view, width, measure, a + b) == PutText(PutText(t, view, width, measure, a), view, width, measure, b)
  {
    hide PutChar;
    if b == [] {
      assert a + b == a;
    } else {
      PutTextConcat(t, view, width, measure, a, b[..|b| - 1]);
      assert (a + b)[..|a + b| - 1] == a + b[..|b| - 1];
    }
  }

  /** Cells, attributes, cursor and pending wrap after `a` and then `b` are those after `a + b`. */
  lemma TextCutAnywhere(t: Term, view: Rect, width: nat, measure: Char32 -> int, a: seq<Char32>, b: seq<Char32>)
    requires ViewOk(view, width, t.screen) && Placeable(view, measure, a + b)
    ensures ApplyText(ApplyText(t, view, width, measure, a), view, width, measure, b)
         == ApplyText(t, view, width, measure, a + b)
  {
    hide PutChar, PutText, ScreenOk;
    forall i | 0 <= i < |a| && view.left >= view.right ensures Columns(measure, a[i]) == 1 {
      assert (a + b)[i] == a[i];
    }
    PutTextOk(Clamped(t, view), view, width, measure, a);
    PutTextConcat(Clamped(t, view), view, width, measure, a, b);
  }

  // ---- A row at a time ----

  /** The most code points that fit from column `x` to `right`. */
  function Fit(measure: Char32 -> int, text: seq<Char32>, x: int, right: int): (n: nat)
    ensures n <= |text|
  {
    if text == [] || x + Columns(measure, text[0]) - 1 > right then 0
    else 1 + Fit(measure, text[1..], x + Columns(measure, text[0]), right)
  }

  function WidthsOf(measure: Char32 -> int, text: seq<Char32>): (w: seq<nat>)
    ensures |w| == |text| && forall i :: 0 <= i < |w| ==> w[i] == Columns(measure, text[i])
  {
    seq(|text|, i requires 0 <= i < |text| => Columns(measure, text[i]))
  }

  /** The prefix fits, and one more code point would not. */
  lemma {:induction false} FitIsMaximal(measure: Char32 -> int, text: seq<Char32>, x: int, right: int)
    requires x <= right + 1
    ensures var n := Fit(measure, text, x, right);
            x + Total(WidthsOf(measure, text[..n])) <= right + 1 &&
            (n < |text| ==> x + Total(WidthsOf(measure, text[..n + 1])) > right + 1)
  {
    if text != [] {
      var cw := Columns(measure, text[0]);
      if x + cw - 1 <= right {
        FitIsMaximal(measure, text[1..], x + cw, right);
        var n := Fit(measure, text[1..], x + cw, right);
        PrefixTotal(measure, text, n);
        if n + 1 < |text| { PrefixTotal(measure, text, n + 1); }
      } else {
        PrefixTotal(measure, text, 0);
      }
    }
  }

  lemma PrefixTotal(measure: Char32 -> int, text: seq<Char32>, n: nat)
    requires n < |text|
    ensures Total(WidthsOf(measure, text[..n + 1]))
         == Columns(measure, text[0]) + Total(WidthsOf(measure, text[1..][..n]))
  {
    assert text[..n + 1] == [text[0]] + text[1..][..n];
    TotalCons(measure, text[0], text[1..][..n]);
  }

  lemma {:induction false} TotalCons(measure: Char32 -> int, ch: Char32, rest: seq<Char32>)
    ensures Total(WidthsOf(measure, [ch] + rest)) == Columns(measure, ch) + Total(WidthsOf(measure, rest))
  {
    var w := WidthsOf(measure, [ch] + rest);
    if rest == [] {
      assert w[..0] == [];
    } else {
      var n := |rest| - 1;
      TotalCons(measure, ch, rest[..n]);
      assert w[..|w| - 1] == WidthsOf(measure, [ch] + rest[..n]);
      assert WidthsOf(measure, rest)[..n] == WidthsOf(measure, rest[..n]);
    }
  }

  /** Progress at the left edge is exactly: the view has two columns, or the next code point needs one. */
  lemma ProgressAtLeftEdge(view: Rect, measure: Char32 -> int, text: seq<Char32>)
    requires view.left <= view.right && text != []
    ensures Fit(measure, text, view.left, view.right) > 0 <==> view.left < view.right || Columns(measure, text[0]) == 1
  {}

  /** The cursor's row has room for `n` columns. */
  ghost predicate HasRoom(t: Term, n: nat) {
    0 <= t.y < |t.screen| && 0 <= t.x && t.x + n <= |t.screen[t.y]| && RowOk(t.screen[t.y])
  }

  /** Code points that fit in the rest of the row are one measured run, and the wrap after the last column is delayed. */
  lemma {:induction false} PutRow(t: Term, view: Rect, width: nat, measure: Char32 -> int,
                                  text: seq<Char32>, w: seq<nat>, run: seq<Cell>)
    requires |text| == |w| && run == Run(text, w, t.attr)
    requires w == WidthsOf(measure, text) && text != []
    requires HasRoom(t, |run|) && !t.pendingWrap && t.x + |run| <= view.right + 1
    ensures PutText(t, view, width, measure, text) == Advance(Drawn(t, run), view, |run|)
  {
    hide PutChar;
    var n := |text| - 1;
    var cw := Columns(measure, text[n]);
    var first := Run(text[..n], w[..n], t.attr);
    assert run == first + Glyph([text[n]], cw, t.attr);
    if n == 0 {
      assert PutText(t, view, width, measure, text[..n]) == t;
      assert run == Glyph([text[n]], cw, t.attr);
      PutOne(t, view, width, measure, text[n]);
    } else {
      assert w[..n] == WidthsOf(measure, text[..n]);
      PutRow(t, view, width, measure, text[..n], w[..n], first);
      TotalPositive(w[..n]);
      RunOk(text[..n], w[..n], t.attr);
      PutBehind(t, view, width, measure, first, text[n]);
    }
  }

  lemma PutOne(t: Term, view: Rect, width: nat, measure: Char32 -> int, ch: Char32)
    requires !t.pendingWrap && t.x + Columns(measure, ch) <= view.right + 1
    ensures var cw := Columns(measure, ch);
            PutChar(t, view, width, measure, ch) == Advance(Drawn(t, Glyph([ch], cw, t.attr)), view, cw)
  {
    var cleared := t.(pendingWrap := false);
    assert cleared == t;
  }

  /** A code point put behind columns just drawn is drawn together with them. */
  lemma PutBehind(t: Term, view: Rect, width: nat, measure: Char32 -> int, run: seq<Cell>, ch: Char32)
    requires RowOk(run) && run != [] && HasRoom(t, |run| + Columns(measure, ch)) && !t.pendingWrap
    requires t.x + |run| + Columns(measure, ch) <= view.right + 1
    ensures var cw := Columns(measure, ch);
            PutChar(Advance(Drawn(t, run), view, |run|), view, width, measure, ch)
              == Advance(Drawn(t, run + Glyph([ch], cw, t.attr)), view, |run| + cw)
  {
    var g := Glyph([ch], Columns(measure, ch), t.attr);
    var u := Drawn(t, run).(x := t.x + |run|);
    PutOne(u, view, width, measure, ch);
    DrawnBehind(t.screen, t.x, t.y, run, g);
  }

  lemma DrawnBehind(s: seq<Row>, x: nat, y: nat, a: seq<Cell>, b: seq<Cell>)
    requires y < |s| && x + |a| + |b| <= |s[y]| && RowOk(s[y]) && RowOk(a) && a != []
    ensures DrawnOver(DrawnOver(s, x, y, a), x + |a|, y, b) == DrawnOver(s, x, y, a + b)
  {
    SpliceCompose(s[y], x, a, b);
  }

  /** A code point that has no room, or finds a delayed wrap, goes where it would go after a line feed. */
  lemma PutAfterFeed(t: Term, view: Rect, width: nat, measure: Char32 -> int, ch: Char32)
    requires ViewOk(view, width, t.screen) && InView(t, view) && Placeable(view, measure, [ch])
    requires if t.pendingWrap then t.x == view.right else t.x + Columns(measure, ch) - 1 > view.right
    ensures PutChar(LineFeed(t.(pendingWrap := false), view, width), view, width, measure, ch)
         == PutChar(t, view, width, measure, ch)
  {
    assert [ch][0] == ch;
    LineFeedOk(t.(pendingWrap := false), view, width);
  }

  lemma PutTextCons(t: Term, view: Rect, width: nat, measure: Char32 -> int, text: seq<Char32>)
    requires text != []
    ensures PutText(t, view, width, measure, text)
         == PutText(PutChar(t, view, width, measure, text[0]), view, width, measure, text[1..])
  {
    PutTextConcat(t, view, width, measure, [text[0]], text[1..]);
    assert text == [text[0]] + text[1..];
    assert [text[0]][..0] == [];
    assert PutText(t, view, width, measure, []) == t;
  }
}
