/** Resizing the screen copies the rows' overlap onto blank rows of the new size. */
module Resizing {
  import opened Cells
  import opened RowCopy
  import opened Scrolling

  const DEFAULT_ATTR: Attr := 0x07

  function ResizedRow(row: Row, newWidth: nat): (r: Row)
    ensures |r| == newWidth
  {
    Copied(Uniform(newWidth, SPACE, DEFAULT_ATTR), row, 0, 0, |row|)
  }

  function Resized(s: seq<Row>, newWidth: nat, newHeight: nat): (t: seq<Row>)
    ensures |t| == newHeight
  {
    seq(newHeight, y requires 0 <= y < newHeight =>
      if y < |s| then ResizedRow(s[y], newWidth) else Uniform(newWidth, SPACE, DEFAULT_ATTR))
  }

  lemma ResizedRowOk(row: Row, newWidth: nat)
    requires RowOk(row)
    ensures RowOk(ResizedRow(row, newWidth))
  {
    UniformOk(newWidth, SPACE, DEFAULT_ATTR);
    CopiedOk(Uniform(newWidth, SPACE, DEFAULT_ATTR), row, 0, 0, |row|);
  }

  /** Columns left of a glyph edge that the copy has reached are not touched again. */
  lemma {:induction false} CopiedKeeps(dst: Row, src: Row, from: nat, to: nat, m: nat, n: nat)
    requires RowOk(dst) && RowOk(src) && m <= n && to + m <= |dst|
    requires Boundary(Copied(dst, src, from, to, m), to + m)
    ensures Boundary(Copied(dst, src, from, to, n), to + m)
    ensures forall k :: 0 <= k < to + m ==> Copied(dst, src, from, to, n)[k] == Copied(dst, src, from, to, m)[k]
    decreases n
  {
    if m < n {
      CopiedKeeps(dst, src, from, to, m, n - 1);
      if from + n <= |src| && to + n <= |dst| && src[from + n - 1].pos == 0 {
        var done := Copied(dst, src, from, to, n - 1);
        CopiedOk(dst, src, from, to, n - 1);
        assert CellOk(src, from + n - 1);
        PutKeeps(done, to + m, to + n - 1, src[from + n - 1].glyph, src[from + n - 1].width, src[from + n - 1].attr);
      }
    }
  }

  /** A glyph write right of a glyph edge leaves everything left of the edge alone. */
  lemma PutKeeps(cells: Row, edge: nat, col: nat, glyph: seq<Char32>, width: nat, attr: Attr)
    requires RowOk(cells) && edge <= col < |cells| && Boundary(cells, edge) && glyph != [] && width > 0
    ensures Boundary(Put(cells, col, glyph, width, attr), edge)
    ensures forall k :: 0 <= k < edge ==> Put(cells, col, glyph, width, attr)[k] == cells[k]
  {
    forall k | 0 <= k < edge ensures End(cells, k) <= edge {
      SpanBoundary(cells, k);
      if End(cells, k) > edge { SpanShared(cells, k, edge); }
    }
  }

  /**
    Where both sizes have a column, its glyph survives a resize whenever it fits the new width:
    every column keeps its place in its glyph, under the glyph's leading attribute.
   */
  lemma ResizeKeeps(row: Row, newWidth: nat, x: nat)
    requires RowOk(row) && x < |row| && End(row, x) <= newWidth
    ensures x < newWidth && ResizedRow(row, newWidth)[x] == LeveledCell(row, x)
  {
    SpanBoundary(row, x);
    var blank := Uniform(newWidth, SPACE, DEFAULT_ATTR);
    var e := End(row, x);
    UniformOk(newWidth, SPACE, DEFAULT_ATTR);
    assert CellOk(row, 0);
    EndOfLast(row, e);
    CopiedIsSplice(blank, row, 0, 0, e);
    LeveledOk(row, 0, e);
    SpliceAligned(blank, 0, Leveled(row, 0, e));
    CopiedKeeps(blank, row, 0, 0, e, |row|);
  }

  /** A glyph cut by the new right edge keeps the columns there is room for, as a glyph that wide. */
  lemma ResizeClips(row: Row, newWidth: nat, x: nat)
    requires RowOk(row) && x < |row| && x < newWidth < End(row, x)
    ensures 0 <= Lead(row, x) <= x
    ensures ResizedRow(row, newWidth)[x] == Cell(row[x].glyph, row[x].pos, newWidth - Lead(row, x), row[Lead(row, x)].attr)
  {
    SpanBoundary(row, x);
    var blank := Uniform(newWidth, SPACE, DEFAULT_ATTR);
    var lead := Lead(row, x);
    UniformOk(newWidth, SPACE, DEFAULT_ATTR);
    assert CellOk(row, 0);
    SpanShared(row, x, newWidth - 1);
    SpanShared(row, x, lead);
    CopiedIsClipped(blank, row, 0, 0, newWidth);
    CopiedEnds(blank, row, 0, 0, newWidth, |row|);
  }

  /** Columns the row did not have are blank. */
  lemma ResizeFills(row: Row, newWidth: nat, x: nat)
    requires RowOk(row) && |row| <= x < newWidth
    ensures ResizedRow(row, newWidth)[x] == Cell([0x20], 0, 1, 0x07)
  {
    var blank := Uniform(newWidth, SPACE, DEFAULT_ATTR);
    if row != [] {
      UniformOk(newWidth, SPACE, DEFAULT_ATTR);
      assert CellOk(row, 0);
      EndOfLast(row, |row|);
      CopiedIsSplice(blank, row, 0, 0, |row|);
    }
  }

  /**
    Every cell of a resized screen: glyphs keep their columns under their leading attribute, one that the new right
    edge cuts keeps those there is room for, and columns and rows that were not there are blank in the default attribute.
   */
  lemma ResizedShows(s: seq<Row>, width: nat, newWidth: nat, newHeight: nat, x: nat, y: nat)
    requires ScreenOk(s, width) && x < newWidth && y < newHeight
    ensures y < |s| && x < width ==> 0 <= Lead(s[y], x) <= x
    ensures var t := Resized(s, newWidth, newHeight);
            && |t| == newHeight && |t[y]| == newWidth
            && t[y][x] == if y >= |s| || x >= width then Cell([0x20], 0, 1, 0x07)
                          else
                            var lead := Lead(s[y], x);
                            var room := newWidth - lead;
                            Cell(s[y][x].glyph, s[y][x].pos, if s[y][x].width <= room then s[y][x].width else room, s[y][lead].attr)
  {
    hide ResizedRow;
    if y < |s| {
      if x >= width {
        ResizeFills(s[y], newWidth, x);
      } else {
        SpanBoundary(s[y], x);
        if End(s[y], x) <= newWidth { ResizeKeeps(s[y], newWidth, x); } else { ResizeClips(s[y], newWidth, x); }
      }
    }
  }

  lemma EndOfLast(row: Row, e: nat)
    requires RowOk(row) && 0 < e <= |row| && Boundary(row, e)
    ensures End(row, e - 1) == e
  {
    assert CellOk(row, e - 1);
  }

  /** Growing and shrinking back restores a row whose glyphs have one attribute each. */
  lemma GrowShrinkRow(row: Row, wider: nat)
    requires RowOk(row) && Level(row) && |row| <= wider
    ensures ResizedRow(ResizedRow(row, wider), |row|) == row
  {
    var g := ResizedRow(row, wider);
    ResizedRowOk(row, wider);
    forall x | 0 <= x < |row| ensures g[x] == row[x] {
      SpanBoundary(row, x);
      ResizeKeeps(row, wider, x);
    }
    forall x | 0 <= x < |row| ensures ResizedRow(g, |row|)[x] == row[x] {
      SpanBoundary(row, x);
      ResizeKeeps(g, |row|, x);
      assert LeveledCell(row, x) == row[x];
    }
  }

  /** Growing the screen and shrinking it back restores every row whose wide glyphs have one attribute. */
  lemma GrowShrink(s: seq<Row>, width: nat, wider: nat, taller: nat)
    requires ScreenOk(s, width) && width <= wider && |s| <= taller
    ensures var t := Resized(Resized(s, wider, taller), width, |s|);
            |t| == |s| && forall y :: 0 <= y < |s| && Level(s[y]) ==> t[y] == s[y]
  {
    forall y | 0 <= y < |s| && Level(s[y]) ensures Resized(Resized(s, wider, taller), width, |s|)[y] == s[y] {
      GrowShrinkRow(s[y], wider);
    }
  }

  /** The condition is exact: a row comes back if and only if its wide glyphs have one attribute each. */
  lemma GrowShrinkOnlyLevel(row: Row, wider: nat)
    requires RowOk(row) && |row| <= wider && ResizedRow(ResizedRow(row, wider), |row|) == row
    ensures Level(row)
  {
    var g := ResizedRow(row, wider);
    ResizedRowOk(row, wider);
    forall x | 0 <= x < |row| ensures g[x] == LeveledCell(row, x) {
      SpanBoundary(row, x);
      ResizeKeeps(row, wider, x);
    }
    forall x | 0 <= x < |row| ensures LeveledCell(row, x) == row[x] {
      SpanBoundary(row, x);
      ResizeKeeps(g, |row|, x);
    }
  }
}
