/** What a scroll does to the screen, in logical row order, and the pointwise law all of its paths refine. */
module Scrolling {
  import opened Cells
  import opened RowCopy
  import opened Shorts

  type Row = seq<Cell>

  datatype Rect = Rect(left: int, top: int, right: int, bottom: int)

  predicate HasArea(r: Rect) { r.left <= r.right && r.top <= r.bottom }

  predicate Inside(r: Rect, x: int, y: int) { r.left <= x <= r.right && r.top <= y <= r.bottom }

  function Clamp(r: Rect, width: int, height: int): Rect {
    Rect(Max(r.left, 0), Max(r.top, 0), Min(r.right, width - 1), Min(r.bottom, height - 1))
  }

  function Intersect(a: Rect, b: Rect): Rect {
    Rect(Max(a.left, b.left), Max(a.top, b.top), Min(a.right, b.right), Min(a.bottom, b.bottom))
  }

  function Whole(width: int, height: int): Rect { Rect(0, 0, width - 1, height - 1) }

  ghost predicate ScreenOk(s: seq<Row>, width: nat) {
    forall y :: 0 <= y < |s| ==> |s[y]| == width && RowOk(s[y])
  }

  /** Every glyph on the screen is one column wide and one code point. */
  ghost predicate SingleColumns(s: seq<Row>) {
    forall y, x :: 0 <= y < |s| && 0 <= x < |s[y]| ==> s[y][x].pos == 0 && s[y][x].width == 1
  }

  // ---- Whole rows ----

  /** Rows [top, bottom] moved by `dy`; uncovered ones are blank. */
  function ShiftRows(s: seq<Row>, top: nat, bottom: nat, dy: int, blank: Row): (r: seq<Row>)
    requires top <= bottom < |s|
    ensures |r| == |s|
  {
    seq(|s|, y requires 0 <= y < |s| =>
      if !(top <= y <= bottom) then s[y]
      else if top <= y - dy <= bottom then s[y - dy]
      else blank)
  }

  // ---- A rectangle, by way of saved rows ----

  /** Single-column writes of one character over columns [left, left + n). */
  function Filled(row: Row, left: nat, n: nat, ch: Char32, attr: Attr): (r: Row)
    ensures |r| == |row|
  {
    if n == 0 then row else Put(Filled(row, left, n - 1, ch, attr), left + n - 1, [ch], 1, attr)
  }

  function FilledRow(row: Row, r: Rect, y: int, ch: Char32, attr: Attr): (t: Row)
    requires HasArea(r) ==> 0 <= r.left
    ensures |t| == |row|
  {
    if HasArea(r) && r.top <= y <= r.bottom then Filled(row, r.left, r.right - r.left + 1, ch, attr) else row
  }

  /** What is left of `source` once everything that would land outside `clip` is dropped. */
  function Moved(source: Rect, clip: Rect, dx: int, dy: int): Rect {
    Intersect(source, Rect(clip.left - dx, clip.top - dy, clip.right - dx, clip.bottom - dy))
  }

  /** The saved copy of row `y` of the part that moves. */
  function SavedRow(row: Row, m: Rect, attr: Attr): (r: Row)
    requires HasArea(m) && 0 <= m.left
    ensures |r| == |row|
  {
    Copied(Uniform(|row|, SPACE, attr), row, m.left, 0, m.right - m.left + 1)
  }

  /** Row `y`: the fill, then the saved columns put back at their destination. */
  function ScrollRectRow(s: seq<Row>, source: Rect, clip: Rect, dx: int, dy: int, ch: Char32, attr: Attr, y: nat): (r: Row)
    requires 0 <= source.left && 0 <= source.top && source.bottom < |s| && 0 <= clip.left && y < |s|
    ensures |r| == |s[y]|
  {
    var m := Moved(source, clip, dx, dy);
    var f := FilledRow(s[y], Intersect(source, clip), y, ch, attr);
    if HasArea(m) && m.top <= y - dy <= m.bottom
    then Copied(f, SavedRow(s[y - dy], m, attr), 0, m.left + dx, m.right - m.left + 1)
    else f
  }

  function ScrollRect(s: seq<Row>, source: Rect, clip: Rect, dx: int, dy: int, ch: Char32, attr: Attr): (t: seq<Row>)
    requires 0 <= source.left && 0 <= source.top && source.bottom < |s| && 0 <= clip.left
    ensures |t| == |s|
  {
    seq(|s|, y requires 0 <= y < |s| => ScrollRectRow(s, source, clip, dx, dy, ch, attr, y))
  }

  /** A scroll of a source inside the buffer through a clip inside the buffer. */
  function ScrolledClamped(s: seq<Row>, width: nat, source: Rect, clip: Rect, dx: int, dy: int,
                           ch: Char32, attr: Attr): (t: seq<Row>)
    requires 0 <= source.left && 0 <= source.top && source.bottom < |s| && 0 <= clip.left && HasArea(source)
    ensures |t| == |s|
  {
    if dx == 0 && dy != 0 && source.left == 0 && source.right == width - 1 && clip == source then
      ShiftRows(s, source.top, source.bottom, dy, Uniform(width, ch, attr))
    else ScrollRect(s, source, clip, dx, dy, ch, attr)
  }

  /** ScrollConsoleScreenBuffer: the content of `sr` moves to `dest`, seen through the clip. */
  function Scrolled(s: seq<Row>, width: nat, sr: Rect, clip: Rect, useClip: bool, destX: int, destY: int,
                    ch: Char32, attr: Attr): (t: seq<Row>)
    ensures |t| == |s|
  {
    var dx, dy := destX - sr.left, destY - sr.top;
    var source := Clamp(sr, width, |s|);
    var c := if useClip then Clamp(clip, width, |s|) else Whole(width, |s|);
    if !HasArea(source) || !HasArea(c) then s else ScrolledClamped(s, width, source, c, dx, dy, ch, attr)
  }

  // ---- The pointwise law ----

  /** A cell in the clip takes its source cell if there is one, else the fill if it lies in the source. */
  function ScrolledCell(s: seq<Row>, source: Rect, clip: Rect, dx: int, dy: int, fill: Cell, x: nat, y: nat): Cell
    requires y < |s| && x < |s[y]|
    requires Inside(source, x - dx, y - dy) ==> 0 <= y - dy < |s| && 0 <= x - dx < |s[y - dy]|
  {
    if !Inside(clip, x, y) then s[y][x]
    else if Inside(source, x - dx, y - dy) then s[y - dy][x - dx]
    else if Inside(source, x, y) then fill
    else s[y][x]
  }

  /** The row paths obey the pointwise law on any content. */
  lemma ShiftRowsPointwise(s: seq<Row>, width: nat, source: Rect, dy: int, ch: Char32, attr: Attr, x: nat, y: nat)
    requires ScreenOk(s, width) && y < |s| && x < width
    requires source.left == 0 && source.right == width - 1 && 0 <= source.top <= source.bottom < |s|
    ensures |ShiftRows(s, source.top, source.bottom, dy, Uniform(width, ch, attr))[y]| == width
    ensures ShiftRows(s, source.top, source.bottom, dy, Uniform(width, ch, attr))[y][x] ==
            ScrolledCell(s, source, source, 0, dy, Cell([ch], 0, 1, attr), x, y)
  {}

  ghost predicate SingleRow(row: Row) {
    forall x :: 0 <= x < |row| ==> row[x].pos == 0 && row[x].width == 1
  }

  lemma {:induction false} FilledSingle(row: Row, left: nat, n: nat, ch: Char32, attr: Attr)
    requires SingleRow(row) && left + n <= |row|
    ensures forall x :: 0 <= x < |row| ==>
              Filled(row, left, n, ch, attr)[x] == if left <= x < left + n then Cell([ch], 0, 1, attr) else row[x]
  {
    if n > 0 { FilledSingle(row, left, n - 1, ch, attr); }
  }

  lemma {:induction false} CopiedSingle(dst: Row, src: Row, from: nat, to: nat, n: nat)
    requires SingleRow(dst) && SingleRow(src) && from + n <= |src| && to + n <= |dst|
    ensures forall x :: 0 <= x < |dst| ==>
              Copied(dst, src, from, to, n)[x] == if to <= x < to + n then src[from + (x - to)] else dst[x]
  {
    if n > 0 {
      CopiedSingle(dst, src, from, to, n - 1);
      CopiedStep(dst, src, from, to, n - 1);
    }
  }

  lemma FilledRowCell(row: Row, r: Rect, y: int, ch: Char32, attr: Attr, x: nat)
    requires SingleRow(row) && x < |row| && (HasArea(r) ==> 0 <= r.left && r.right < |row|)
    ensures SingleRow(FilledRow(row, r, y, ch, attr))
    ensures FilledRow(row, r, y, ch, attr)[x] == if Inside(r, x, y) then Cell([ch], 0, 1, attr) else row[x]
  {
    if HasArea(r) && r.top <= y <= r.bottom { FilledSingle(row, r.left, r.right - r.left + 1, ch, attr); }
  }

  /** Saving columns and putting them back moves them, over the columns they cover and no others. */
  lemma SavedRowCell(dst: Row, row: Row, m: Rect, dx: int, attr: Attr, x: nat)
    requires SingleRow(dst) && SingleRow(row) && |dst| == |row| && x < |row|
    requires HasArea(m) && 0 <= m.left && m.right < |row| && 0 <= m.left + dx && m.right + dx < |row|
    ensures Copied(dst, SavedRow(row, m, attr), 0, m.left + dx, m.right - m.left + 1)[x] ==
            if m.left <= x - dx <= m.right then row[x - dx] else dst[x]
  {
    hide Copied;
    var n := m.right - m.left + 1;
    CopiedSingle(Uniform(|row|, SPACE, attr), row, m.left, 0, n);
    CopiedSingle(dst, SavedRow(row, m, attr), 0, m.left + dx, n);
  }

  /** The rectangle path obeys the pointwise law where all glyphs are one column wide. */
  lemma ScrollRectPointwise(s: seq<Row>, width: nat, source: Rect, clip: Rect, dx: int, dy: int,
                            ch: Char32, attr: Attr, x: nat, y: nat)
    requires ScreenOk(s, width) && SingleColumns(s) && y < |s| && x < width
    requires 0 <= source.left && source.right < width && 0 <= source.top && source.bottom < |s| && HasArea(source)
    requires 0 <= clip.left && clip.right < width && 0 <= clip.top && clip.bottom < |s| && HasArea(clip)
    ensures ScrollRectRow(s, source, clip, dx, dy, ch, attr, y)[x] ==
            ScrolledCell(s, source, clip, dx, dy, Cell([ch], 0, 1, attr), x, y)
  {
    hide Copied, Filled, Uniform, RowOk;
    var m := Moved(source, clip, dx, dy);
    var fr := Intersect(source, clip);
    FilledRowCell(s[y], fr, y, ch, attr, x);
    if HasArea(m) && m.top <= y - dy <= m.bottom {
      SavedRowCell(FilledRow(s[y], fr, y, ch, attr), s[y - dy], m, dx, attr, x);
    }
  }

  lemma {:induction false} FilledOk(row: Row, left: nat, n: nat, ch: Char32, attr: Attr)
    requires RowOk(row)
    ensures RowOk(Filled(row, left, n, ch, attr))
  {
    if n > 0 {
      FilledOk(row, left, n - 1, ch, attr);
      PutOk(Filled(row, left, n - 1, ch, attr), left + n - 1, [ch], 1, attr);
    }
  }

  /** A scroll keeps every row a partition into whole glyphs. */
  lemma ScrolledOk(s: seq<Row>, width: nat, sr: Rect, clip: Rect, useClip: bool, destX: int, destY: int,
                   ch: Char32, attr: Attr)
    requires ScreenOk(s, width)
    ensures ScreenOk(Scrolled(s, width, sr, clip, useClip, destX, destY, ch, attr), width)
  {
    var dx, dy := destX - sr.left, destY - sr.top;
    var source := Clamp(sr, width, |s|);
    var c := if useClip then Clamp(clip, width, |s|) else Whole(width, |s|);
    UniformOk(width, ch, attr);
    if HasArea(source) && HasArea(c)
       && !(dx == 0 && dy != 0 && source.left == 0 && source.right == width - 1 && c == source) {
      ScrollRectOk(s, width, source, c, dx, dy, ch, attr);
    }
  }

  lemma ScrollRectOk(s: seq<Row>, width: nat, source: Rect, clip: Rect, dx: int, dy: int, ch: Char32, attr: Attr)
    requires ScreenOk(s, width)
    requires 0 <= source.left && 0 <= source.top && source.bottom < |s| && 0 <= clip.left
    ensures ScreenOk(ScrollRect(s, source, clip, dx, dy, ch, attr), width)
  {
    forall y | 0 <= y < |s| ensures RowOk(ScrollRectRow(s, source, clip, dx, dy, ch, attr, y)) {
      ScrollRectRowOk(s, width, source, clip, dx, dy, ch, attr, y);
    }
  }

  lemma ScrollRectRowOk(s: seq<Row>, width: nat, source: Rect, clip: Rect, dx: int, dy: int,
                        ch: Char32, attr: Attr, y: nat)
    requires ScreenOk(s, width) && y < |s|
    requires 0 <= source.left && 0 <= source.top && source.bottom < |s| && 0 <= clip.left
    ensures RowOk(ScrollRectRow(s, source, clip, dx, dy, ch, attr, y))
  {
    var m := Moved(source, clip, dx, dy);
    var fr := Intersect(source, clip);
    var f := FilledRow(s[y], fr, y, ch, attr);
    if HasArea(fr) && fr.top <= y <= fr.bottom { FilledOk(s[y], fr.left, fr.right - fr.left + 1, ch, attr); }
    if HasArea(m) && m.top <= y - dy <= m.bottom {
      UniformOk(width, SPACE, attr);
      CopiedOk(Uniform(width, SPACE, attr), s[y - dy], m.left, 0, m.right - m.left + 1);
      CopiedOk(f, SavedRow(s[y - dy], m, attr), 0, m.left + dx, m.right - m.left + 1);
    }
  }

  lemma ScrolledPointwise(s: seq<Row>, width: nat, source: Rect, clip: Rect, dx: int, dy: int,
                          ch: Char32, attr: Attr, x: nat, y: nat)
    requires ScreenOk(s, width) && y < |s| && x < width
    requires 0 <= source.left && source.right < width && 0 <= source.top && source.bottom < |s| && HasArea(source)
    requires 0 <= clip.left && clip.right < width && 0 <= clip.top && clip.bottom < |s| && HasArea(clip)
    requires SingleColumns(s) || (dx == 0 && dy != 0 && source.left == 0 && source.right == width - 1 && clip == source)
    ensures var t := ScrolledClamped(s, width, source, clip, dx, dy, ch, attr);
            |t[y]| == width && t[y][x] == ScrolledCell(s, source, clip, dx, dy, Cell([ch], 0, 1, attr), x, y)
  {
    hide ShiftRows, ScrollRectRow;
    if dx == 0 && dy != 0 && source.left == 0 && source.right == width - 1 && clip == source {
      ShiftRowsPointwise(s, width, source, dy, ch, attr, x, y);
    } else {
      ScrollRectPointwise(s, width, source, clip, dx, dy, ch, attr, x, y);
    }
  }

  lemma ClampedInside(r: Rect, width: int, height: int, x: int, y: int)
    ensures Inside(Clamp(r, width, height), x, y) <==> Inside(r, x, y) && 0 <= x < width && 0 <= y < height
  {}

  /**
    The pointwise law of every scroll, whichever path it takes: a cell that the clip lets through takes what
    moved onto it, else the fill where it was left behind. It is exact on any content when whole rows move inside
    their own clip, and on single-column content otherwise.
   */
  lemma ScrollPointwise(s: seq<Row>, width: nat, sr: Rect, clip: Rect, useClip: bool, destX: int, destY: int,
                        ch: Char32, attr: Attr, x: nat, y: nat)
    requires ScreenOk(s, width) && y < |s| && x < width
    requires SingleColumns(s) ||
             (destX == sr.left && destY != sr.top && sr.left <= 0 && width - 1 <= sr.right &&
              Clamp(sr, width, |s|) == if useClip then Clamp(clip, width, |s|) else Whole(width, |s|))
    ensures var dx, dy := destX - sr.left, destY - sr.top;
            var t := Scrolled(s, width, sr, clip, useClip, destX, destY, ch, attr);
            && |t[y]| == width
            && t[y][x] == if useClip && !Inside(clip, x, y) then s[y][x]
                          else if Inside(sr, x - dx, y - dy) && 0 <= x - dx < width && 0 <= y - dy < |s| then s[y - dy][x - dx]
                          else if Inside(sr, x, y) then Cell([ch], 0, 1, attr)
                          else s[y][x]
  {
    hide Clamp, SingleColumns, RowOk, ScrolledClamped;
    var source := Clamp(sr, width, |s|);
    var c := if useClip then Clamp(clip, width, |s|) else Whole(width, |s|);
    var dx, dy := destX - sr.left, destY - sr.top;
    ClampedInside(sr, width, |s|, x, y);
    ClampedInside(sr, width, |s|, x - dx, y - dy);
    ClampedInside(clip, width, |s|, x, y);
    ClampBounds(sr, width, |s|);
    ClampBounds(clip, width, |s|);
    if HasArea(source) && HasArea(c) {
      ScrolledPointwise(s, width, source, c, dx, dy, ch, attr, x, y);
      var fill := Cell([ch], 0, 1, attr);
      assert ScrolledCell(s, source, c, dx, dy, fill, x, y) ==
             if useClip && !Inside(clip, x, y) then s[y][x]
             else if Inside(sr, x - dx, y - dy) && 0 <= x - dx < width && 0 <= y - dy < |s| then s[y - dy][x - dx]
             else if Inside(sr, x, y) then fill
             else s[y][x] by {
        hide Inside, HasArea;
      }
    }
  }

  lemma ClampBounds(r: Rect, width: int, height: int)
    ensures var c := Clamp(r, width, height);
            0 <= c.left && c.right < width && 0 <= c.top && c.bottom < height &&
            (r.left <= 0 && width - 1 <= r.right ==> c.left == 0 && c.right == width - 1)
  {}

  /** Rows outside the clip never change, on any content. */
  lemma ScrollFrame(s: seq<Row>, width: nat, sr: Rect, clip: Rect, destX: int, destY: int,
                    ch: Char32, attr: Attr, y: nat)
    requires y < |s| && !(clip.top <= y <= clip.bottom)
    ensures Scrolled(s, width, sr, clip, true, destX, destY, ch, attr)[y] == s[y]
  {}
}
