/**
  The abstract screen row: one cell per column, each knowing the glyph it belongs to,
  its place inside that glyph and its own attribute. Every row writer is specified by
  one operation on it, `Splice`.
 */
module Cells {

  /** A char32_t code point. The row never computes with its value. */
  type Char32 = nat

  /** A Win32 attribute WORD without the two LVB half-glyph bits, which are never stored. */
  type Attr = nat

  /** Column `pos` (0 = leading) of a glyph that is `width` columns wide. */
  datatype Cell = Cell(glyph: seq<Char32>, pos: nat, width: nat, attr: Attr)

  const SPACE: Char32 := 0x20

  function Space(attr: Attr): Cell {
    Cell([SPACE], 0, 1, attr)
  }

  /** Column `k` agrees with its neighbours on the glyph it belongs to. */
  ghost predicate CellOk(cells: seq<Cell>, k: nat)
    requires k < |cells|
  {
    var c := cells[k];
    && c.glyph != []
    && c.pos < c.width
    && c.pos <= k
    && k - c.pos + c.width <= |cells|
    && (c.pos + 1 < c.width ==>
          cells[k + 1].glyph == c.glyph && cells[k + 1].pos == c.pos + 1 && cells[k + 1].width == c.width)
    && (c.pos + 1 == c.width && k + 1 < |cells| ==> cells[k + 1].pos == 0)
  }

  /** The columns are partitioned into whole glyphs. */
  ghost predicate RowOk(cells: seq<Cell>) {
    forall k :: 0 <= k < |cells| ==> CellOk(cells, k)
  }

  /** `k` is an edge between glyphs (or an end of the row). */
  predicate Boundary(cells: seq<Cell>, k: nat)
    requires k <= |cells|
  {
    k == |cells| || cells[k].pos == 0
  }

  /** First column of the glyph at `k`; the row's end is its own start. */
  function Lead(cells: seq<Cell>, k: nat): int
    requires k <= |cells|
  {
    if k == |cells| then k else k - cells[k].pos
  }

  /** Column after the glyph at `k`. */
  function End(cells: seq<Cell>, k: nat): int
    requires k < |cells|
  {
    k - cells[k].pos + cells[k].width
  }

  /** The glyph at column `k` has a column in [lo, hi), or is cut by the empty range at lo == hi. */
  predicate Touches(cells: seq<Cell>, k: nat, lo: nat, hi: nat)
    requires k < |cells|
  {
    Lead(cells, k) < hi && lo < End(cells, k)
  }

  /** What `Splice` puts in column `k`. */
  function SpliceCell(cells: seq<Cell>, lo: nat, run: seq<Cell>, k: nat): Cell
    requires k < |cells|
  {
    if lo <= k < lo + |run| then run[k - lo]
    else if Touches(cells, k, lo, lo + |run|) then Space(cells[k].attr)
    else cells[k]
  }

  /**
    The meaning of every row write: `run` takes the columns from `lo`, a glyph that is only partly
    covered becomes one space per uncovered column with its attributes kept, and nothing else changes.
   */
  function Splice(cells: seq<Cell>, lo: nat, run: seq<Cell>): (r: seq<Cell>)
    requires lo + |run| <= |cells|
    ensures |r| == |cells|
  {
    seq(|cells|, k requires 0 <= k < |cells| => SpliceCell(cells, lo, run, k))
  }

  /** The columns of one glyph. */
  function Glyph(text: seq<Char32>, width: nat, attr: Attr): (r: seq<Cell>)
    ensures |r| == width
  {
    seq(width, j requires 0 <= j < width => Cell(text, j, width, attr))
  }

  /** Columns taken by `widths`. */
  function Total(widths: seq<nat>): nat {
    if widths == [] then 0 else Total(widths[..|widths| - 1]) + widths[|widths| - 1]
  }

  /** The columns of a measured run: one glyph per code point. */
  function Run(text: seq<Char32>, widths: seq<nat>, attr: Attr): (r: seq<Cell>)
    requires |text| == |widths|
    ensures |r| == Total(widths)
  {
    if text == [] then []
    else
      var n := |text| - 1;
      Run(text[..n], widths[..n], attr) + Glyph([text[n]], widths[n], attr)
  }

  function Ones(n: nat): (r: seq<nat>)
    ensures |r| == n && forall i :: 0 <= i < n ==> r[i] == 1
  {
    seq(n, _ => 1)
  }

  ghost predicate Positive(widths: seq<nat>) {
    forall i :: 0 <= i < |widths| ==> 1 <= widths[i]
  }

  /** A glyph's columns after it is cut at the right edge of the row. */
  function Clipped(col: nat, width: int, rowWidth: nat): nat
    requires col < rowWidth && width > 0
  {
    if col + width > rowWidth then rowWidth - col else width
  }

  /** One glyph write: nothing outside the row or without columns, cut at the right edge. */
  function Put(cells: seq<Cell>, col: nat, glyph: seq<Char32>, width: int, attr: Attr): (r: seq<Cell>)
    ensures |r| == |cells|
  {
    if col < |cells| && width > 0 then Splice(cells, col, Glyph(glyph, Clipped(col, width, |cells|), attr))
    else cells
  }

  /** An attribute write over [start, end). */
  function Painted(c: seq<Cell>, start: nat, end: nat, attr: Attr): (r: seq<Cell>)
    ensures |r| == |c|
  {
    seq(|c|, k requires 0 <= k < |c| => if start <= k < end then c[k].(attr := attr) else c[k])
  }

  /** `n` equal columns. */
  function Uniform(n: nat, ch: Char32, attr: Attr): (r: seq<Cell>)
    ensures |r| == n
  {
    seq(n, _ => Cell([ch], 0, 1, attr))
  }

  /** Every glyph is a single code point: what every writer of the screen buffer stores. */
  ghost predicate SingleCodepoint(cells: seq<Cell>) {
    forall k :: 0 <= k < |cells| ==> |cells[k].glyph| == 1
  }

  // ---- Shape lemmas ----

  lemma PreviousColumn(cells: seq<Cell>, k: nat)
    requires RowOk(cells) && 0 < k < |cells| && cells[k].pos > 0
    ensures cells[k - 1].glyph == cells[k].glyph
    ensures cells[k - 1].width == cells[k].width && cells[k - 1].pos == cells[k].pos - 1
  {
    assert CellOk(cells, k - 1);
  }

  /** Every column of a glyph sees the same glyph. */
  lemma {:induction false} SpanForward(cells: seq<Cell>, k: nat, m: nat)
    requires RowOk(cells) && k < |cells| && cells[k].pos + m < cells[k].width
    ensures k + m < |cells|
    ensures cells[k + m].glyph == cells[k].glyph && cells[k + m].width == cells[k].width
    ensures cells[k + m].pos == cells[k].pos + m
  {
    assert CellOk(cells, k);
    if m > 0 {
      SpanForward(cells, k, m - 1);
      assert CellOk(cells, k + m - 1);
    }
  }

  lemma {:induction false} SpanBackward(cells: seq<Cell>, k: nat, m: nat)
    requires RowOk(cells) && k < |cells| && m <= cells[k].pos
    ensures m <= k
    ensures cells[k - m].glyph == cells[k].glyph && cells[k - m].width == cells[k].width
    ensures cells[k - m].pos == cells[k].pos - m
  {
    assert CellOk(cells, k);
    if m > 0 {
      SpanBackward(cells, k, m - 1);
      assert CellOk(cells, k - (m - 1));
      PreviousColumn(cells, k - (m - 1));
    }
  }

  /** Both columns of one glyph have the same first and last column. */
  lemma SpanShared(cells: seq<Cell>, k: nat, j: nat)
    requires RowOk(cells) && k < |cells| && j < |cells|
    requires Lead(cells, k) <= j < End(cells, k)
    ensures Lead(cells, j) == Lead(cells, k) && End(cells, j) == End(cells, k)
    ensures cells[j].glyph == cells[k].glyph && cells[j].width == cells[k].width
  {
    if j >= k {
      SpanForward(cells, k, j - k);
    } else {
      SpanBackward(cells, k, k - j);
    }
  }

  /** Both ends of a glyph are boundaries. */
  lemma SpanBoundary(cells: seq<Cell>, k: nat)
    requires RowOk(cells) && k < |cells|
    ensures 0 <= Lead(cells, k) <= k < End(cells, k) <= |cells|
    ensures Boundary(cells, Lead(cells, k)) && Boundary(cells, End(cells, k))
  {
    assert CellOk(cells, k);
    SpanBackward(cells, k, cells[k].pos);
    SpanForward(cells, k, cells[k].width - 1 - cells[k].pos);
    assert CellOk(cells, End(cells, k) - 1);
  }

  lemma GlyphOk(text: seq<Char32>, width: nat, attr: Attr)
    requires text != []
    ensures RowOk(Glyph(text, width, attr))
  {
    var g := Glyph(text, width, attr);
    forall k | 0 <= k < |g| ensures CellOk(g, k) {}
  }

  /** Whole glyphs beside whole glyphs are whole glyphs. */
  lemma ConcatOk(a: seq<Cell>, b: seq<Cell>)
    requires RowOk(a) && RowOk(b)
    ensures RowOk(a + b)
  {
    var r := a + b;
    forall k | 0 <= k < |r| ensures CellOk(r, k) {
      if k < |a| {
        assert CellOk(a, k);
        if k + 1 == |a| && b != [] { assert CellOk(b, 0); }
      } else {
        assert CellOk(b, k - |a|);
      }
    }
  }

  /** A row may be cut at a boundary. */
  lemma SliceOk(cells: seq<Cell>, lo: nat, hi: nat)
    requires RowOk(cells) && lo <= hi <= |cells| && Boundary(cells, lo) && Boundary(cells, hi)
    ensures RowOk(cells[lo..hi])
  {
    var r := cells[lo..hi];
    forall k | 0 <= k < |r| ensures CellOk(r, k) {
      var j := lo + k;
      SpanBoundary(cells, j);
      assert CellOk(cells, j);
      if Lead(cells, j) < lo {
        SpanShared(cells, j, lo);
        assert false;
      }
      if End(cells, j) > hi {
        SpanShared(cells, j, hi);
        assert false;
      }
    }
  }

  lemma {:induction false} RunOk(text: seq<Char32>, widths: seq<nat>, attr: Attr)
    requires |text| == |widths|
    ensures RowOk(Run(text, widths, attr))
    ensures SingleCodepoint(Run(text, widths, attr))
    ensures forall k :: 0 <= k < Total(widths) ==> Run(text, widths, attr)[k].attr == attr
  {
    if text != [] {
      var n := |text| - 1;
      RunOk(text[..n], widths[..n], attr);
      GlyphOk([text[n]], widths[n], attr);
      ConcatOk(Run(text[..n], widths[..n], attr), Glyph([text[n]], widths[n], attr));
    }
  }

  // ---- Laws of Splice ----

  /** A write keeps the row a partition into whole glyphs. */
  lemma SpliceOk(cells: seq<Cell>, lo: nat, run: seq<Cell>)
    requires RowOk(cells) && RowOk(run) && lo + |run| <= |cells|
    ensures RowOk(Splice(cells, lo, run))
  {
    var r := Splice(cells, lo, run);
    var hi := lo + |run|;
    forall k | 0 <= k < |r| ensures CellOk(r, k) {
      SpanBoundary(cells, k);
      if lo <= k < hi {
        assert CellOk(run, k - lo);
        if k + 1 == hi && hi < |cells| {
          SpanBoundary(cells, hi);
          assert CellOk(cells, hi);
        }
      } else {
        assert CellOk(cells, k);
        if k + 1 < |cells| {
          SpanBoundary(cells, k + 1);
          assert CellOk(cells, k + 1);
          if k + 1 < End(cells, k) {
            SpanShared(cells, k, k + 1);
          }
          if k + 1 == lo < hi {
            assert CellOk(run, 0);
          }
        }
      }
    }
  }

  /** Writing `a` and then `b` right after it is writing `a + b`: a row write may be cut at any glyph edge. */
  lemma SpliceCompose(cells: seq<Cell>, lo: nat, a: seq<Cell>, b: seq<Cell>)
    requires RowOk(cells) && RowOk(a) && a != [] && lo + |a| + |b| <= |cells|
    ensures Splice(Splice(cells, lo, a), lo + |a|, b) == Splice(cells, lo, a + b)
  {
    var m := Splice(cells, lo, a);
    var l := Splice(m, lo + |a|, b);
    var r := Splice(cells, lo, a + b);
    forall k | 0 <= k < |cells| ensures l[k] == r[k] {
      SpanBoundary(cells, k);
      if lo <= k < lo + |a| {
        assert CellOk(a, k - lo);
      }
    }
  }

  /** At glyph boundaries a write cuts nothing. */
  lemma SpliceAligned(cells: seq<Cell>, lo: nat, run: seq<Cell>)
    requires RowOk(cells) && lo + |run| <= |cells|
    requires Boundary(cells, lo) && Boundary(cells, lo + |run|)
    ensures Splice(cells, lo, run) == cells[..lo] + run + cells[lo + |run|..]
  {
    var hi := lo + |run|;
    var r := cells[..lo] + run + cells[hi..];
    forall k | 0 <= k < |cells| ensures Splice(cells, lo, run)[k] == r[k] {
      SpanBoundary(cells, k);
      if k < lo && Touches(cells, k, lo, hi) {
        SpanShared(cells, k, lo);
        assert false;
      }
      if k >= hi && Touches(cells, k, lo, hi) && hi < |cells| {
        SpanShared(cells, k, hi);
        assert false;
      }
    }
  }

  /** Blanking the glyph cut at `lo` makes `lo` a boundary and keeps the others. */
  lemma BlankCut(cells: seq<Cell>, c: nat)
    requires RowOk(cells) && c <= |cells|
    ensures RowOk(Splice(cells, c, [])) && Boundary(Splice(cells, c, []), c)
    ensures forall k :: 0 <= k <= |cells| && Boundary(cells, k) ==> Boundary(Splice(cells, c, []), k)
    ensures Boundary(cells, c) ==> Splice(cells, c, []) == cells
  {
    SpliceOk(cells, c, []);
    if c < |cells| { SpanBoundary(cells, c); }
    if Boundary(cells, c) {
      SpliceAligned(cells, c, []);
      assert cells[..c] + [] + cells[c..] == cells;
    }
  }

  /** A write equals blanking the glyphs cut by its two ends and then replacing whole glyphs. */
  lemma SpliceByBlanking(cells: seq<Cell>, lo: nat, run: seq<Cell>)
    requires RowOk(cells) && RowOk(run) && run != [] && lo + |run| <= |cells|
    ensures var b := Splice(Splice(cells, lo, []), lo + |run|, []);
            RowOk(b) && Boundary(b, lo) && Boundary(b, lo + |run|) &&
            Splice(cells, lo, run) == b[..lo] + run + b[lo + |run|..]
  {
    var hi := lo + |run|;
    var a := Splice(cells, lo, []);
    BlankCut(cells, lo);
    BlankCut(a, hi);
    var b := Splice(a, hi, []);
    var r := b[..lo] + run + b[hi..];
    forall k | 0 <= k < |cells| ensures Splice(cells, lo, run)[k] == r[k] {
      SpanBoundary(cells, k);
      SpanBoundary(a, k);
      if lo <= Lead(cells, k) && End(cells, k) <= hi {
      } else if !Touches(cells, k, lo, hi) {
      } else if k < lo || k >= hi {
        if Lead(cells, k) < lo {
          assert a[k] == Space(cells[k].attr);
        } else {
          assert a[k] == cells[k];
        }
      }
    }
  }

  lemma PutOk(cells: seq<Cell>, col: nat, glyph: seq<Char32>, width: int, attr: Attr)
    requires RowOk(cells) && glyph != []
    ensures RowOk(Put(cells, col, glyph, width, attr))
  {
    if col < |cells| && width > 0 {
      var w := Clipped(col, width, |cells|);
      GlyphOk(glyph, w, attr);
      SpliceOk(cells, col, Glyph(glyph, w, attr));
    }
  }

  /** The partition does not depend on attributes. */
  lemma SameGlyphsOk(a: seq<Cell>, b: seq<Cell>)
    requires RowOk(a) && |a| == |b|
    requires forall k :: 0 <= k < |a| ==> b[k] == a[k].(attr := b[k].attr)
    ensures RowOk(b)
  {
    forall k | 0 <= k < |b| ensures CellOk(b, k) {
      assert CellOk(a, k);
    }
  }

  lemma PaintedOk(cells: seq<Cell>, start: nat, end: nat, attr: Attr)
    requires RowOk(cells)
    ensures RowOk(Painted(cells, start, end, attr))
  {
    SameGlyphsOk(cells, Painted(cells, start, end, attr));
  }

  /** The glyphs of a measured run written one after the other. */
  function PutEach(cells: seq<Cell>, col: nat, text: seq<Char32>, widths: seq<nat>, attr: Attr): seq<Cell>
    requires |text| == |widths|
  {
    if text == [] then cells
    else
      var n := |text| - 1;
      Put(PutEach(cells, col, text[..n], widths[..n], attr), col + Total(widths[..n]), [text[n]], widths[n], attr)
  }

  /** Writing a measured run is writing its glyphs one by one, whichever way the run is stored. */
  lemma {:induction false} RunIsGlyphByGlyph(cells: seq<Cell>, col: nat, text: seq<Char32>, widths: seq<nat>, attr: Attr)
    requires RowOk(cells) && text != [] && |text| == |widths| && Positive(widths)
    requires col + Total(widths) <= |cells|
    ensures Splice(cells, col, Run(text, widths, attr)) == PutEach(cells, col, text, widths, attr)
  {
    var n := |text| - 1;
    if n == 0 {
      assert Run(text, widths, attr) == Glyph([text[0]], widths[0], attr);
    } else {
      assert widths[..n][0] >= 1;
      RunIsGlyphByGlyph(cells, col, text[..n], widths[..n], attr);
      RunOk(text[..n], widths[..n], attr);
      TotalPositive(widths[..n]);
      SpliceCompose(cells, col, Run(text[..n], widths[..n], attr), Glyph([text[n]], widths[n], attr));
    }
  }

  lemma {:induction false} TotalPositive(widths: seq<nat>)
    requires Positive(widths) && widths != []
    ensures Total(widths) > 0
  {}

  lemma UniformOk(n: nat, ch: Char32, attr: Attr)
    ensures RowOk(Uniform(n, ch, attr))
  {
    var u := Uniform(n, ch, attr);
    forall k | 0 <= k < n ensures CellOk(u, k) {}
  }
}
