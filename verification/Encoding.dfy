/**
  How a row stores its glyphs: one code point buffer and one 16-bit word per column
  (15 bits of offset, one trailing bit), with a past-the-end word after the last column.
  The stored form is an exact function of the cells.
 */
module Encoding {
  import opened Cells
  import opened Shorts

  const TRAILING_FLAG: nat := 0x8000
  const OFFSET_MASK: nat := 0x7FFF

  function OffsetOf(word: nat): nat { word % TRAILING_FLAG }

  predicate IsTrailing(word: nat) { word / TRAILING_FLAG % 2 == 1 }

  /** The code points of the row, each glyph once. */
  function Flat(cells: seq<Cell>): seq<Char32> {
    if cells == [] then []
    else
      var n := |cells| - 1;
      Flat(cells[..n]) + (if cells[n].pos == 0 then cells[n].glyph else [])
  }

  /** Where the glyph at column `k` starts in the code points; at the row's end, their number. */
  function Offset(cells: seq<Cell>, k: nat): nat
    requires k <= |cells| && 0 <= Lead(cells, k)
  {
    |Flat(cells[..Lead(cells, k)])|
  }

  function Word(cells: seq<Cell>, k: nat): nat
    requires k <= |cells| && 0 <= Lead(cells, k)
  {
    Offset(cells, k) + if Boundary(cells, k) then 0 else TRAILING_FLAG
  }

  ghost predicate WordOk(cells: seq<Cell>, words: seq<nat>, k: nat)
    requires k <= |cells| && k < |words|
  {
    0 <= Lead(cells, k) && words[k] == Word(cells, k)
  }

  /** `text` and `words` store exactly `cells` (attributes aside). */
  ghost predicate Encodes(text: seq<Char32>, words: seq<nat>, cells: seq<Cell>) {
    && |words| == |cells| + 1
    && text == Flat(cells)
    && forall k :: 0 <= k <= |cells| ==> WordOk(cells, words, k)
  }

  /**
    Offset space a row may come to need while it is rewritten: per glyph the larger of its code points
    and its columns, because a cut glyph becomes one space per column before its text is replaced.
   */
  function Demand(cells: seq<Cell>): nat {
    if cells == [] then 0
    else
      var n := |cells| - 1;
      Demand(cells[..n]) + (if cells[n].pos == 0 then Max(|cells[n].glyph|, cells[n].width) else 0)
  }

  /** The 15 offset bits are enough. */
  predicate TextFits(cells: seq<Cell>) {
    Demand(cells) <= OFFSET_MASK
  }

  // ---- Demand ----

  lemma {:induction false} DemandConcat(a: seq<Cell>, b: seq<Cell>)
    ensures Demand(a + b) == Demand(a) + Demand(b)
  {
    if b == [] {
      assert a + b == a;
    } else {
      DemandConcat(a, b[..|b| - 1]);
      assert (a + b)[..|a + b| - 1] == a + b[..|b| - 1];
    }
  }

  lemma {:induction false} DemandBoundsText(cells: seq<Cell>)
    ensures |Flat(cells)| <= Demand(cells)
  {
    if cells != [] { DemandBoundsText(cells[..|cells| - 1]); }
  }

  lemma {:induction false} DemandTrailing(cells: seq<Cell>)
    requires forall k :: 0 <= k < |cells| ==> cells[k].pos > 0
    ensures Demand(cells) == 0
  {
    if cells != [] { DemandTrailing(cells[..|cells| - 1]); }
  }

  lemma DemandSpan(g: seq<Cell>, c: Cell)
    requires |g| == c.width > 0
    requires forall j :: 0 <= j < |g| ==> g[j].pos == j && g[j].glyph == c.glyph && g[j].width == c.width
    ensures Demand(g) == Max(|c.glyph|, c.width)
  {
    DemandTrailing(g[1..]);
    DemandConcat(g[..1], g[1..]);
    assert g == g[..1] + g[1..];
    assert g[..1][..0] == [];
  }

  /** A partition into whole glyphs needs at least one offset a column. */
  lemma {:induction false} DemandBoundsWidth(cells: seq<Cell>)
    requires RowOk(cells)
    ensures |cells| <= Demand(cells)
    decreases |cells|
  {
    if cells != [] {
      var k := |cells| - 1;
      SpanBoundary(cells, k);
      var l := Lead(cells, k);
      assert CellOk(cells, 0);
      SliceOk(cells, 0, l);
      DemandBoundsWidth(cells[..l]);
      forall j | 0 <= j < |cells[l..]|
        ensures cells[l..][j].pos == j && cells[l..][j].glyph == cells[k].glyph && cells[l..][j].width == cells[k].width
      {
        SpanShared(cells, k, l + j);
      }
      DemandSpan(cells[l..], cells[k]);
      DemandConcat(cells[..l], cells[l..]);
      assert cells == cells[..l] + cells[l..];
    }
  }

  /** One code point a column is the least a row can need. */
  lemma {:induction false} DemandRun(text: seq<Char32>, widths: seq<nat>, attr: Attr)
    requires |text| == |widths| && Positive(widths)
    ensures Demand(Run(text, widths, attr)) == Total(widths)
  {
    if text != [] {
      var n := |text| - 1;
      DemandRun(text[..n], widths[..n], attr);
      DemandSpan(Glyph([text[n]], widths[n], attr), Cell([text[n]], 0, widths[n], attr));
      DemandConcat(Run(text[..n], widths[..n], attr), Glyph([text[n]], widths[n], attr));
    }
  }

  lemma DemandThree(a: seq<Cell>, b: seq<Cell>, c: seq<Cell>)
    ensures Demand(a + b + c) == Demand(a) + Demand(b) + Demand(c)
  {
    DemandConcat(a, b);
    DemandConcat(a + b, c);
  }

  function Spaces(cells: seq<Cell>): (r: seq<Cell>)
    ensures |r| == |cells|
  {
    seq(|cells|, k requires 0 <= k < |cells| => Space(cells[k].attr))
  }

  lemma SpacesOk(cells: seq<Cell>)
    ensures RowOk(Spaces(cells))
  {
    var r := Spaces(cells);
    forall k | 0 <= k < |r| ensures CellOk(r, k) {}
  }

  lemma {:induction false} SpacesText(cells: seq<Cell>)
    ensures Flat(Spaces(cells)) == seq(|cells|, _ => SPACE)
    ensures Demand(Spaces(cells)) == |cells|
  {
    if cells != [] {
      var n := |cells| - 1;
      SpacesText(cells[..n]);
      assert Spaces(cells)[..n] == Spaces(cells[..n]);
    }
  }

  lemma SpacesWord(cells: seq<Cell>, k: nat)
    requires k < |cells|
    ensures Lead(Spaces(cells), k) == k && Word(Spaces(cells), k) == k
  {
    SpacesText(cells[..k]);
    assert Spaces(cells)[..k] == Spaces(cells[..k]);
  }

  /** Blanking the glyph cut at `c` replaces its columns by spaces. */
  lemma BlankReplaces(cells: seq<Cell>, c: nat)
    requires RowOk(cells) && c < |cells| && cells[c].pos > 0
    ensures 0 <= Lead(cells, c) < c < End(cells, c) <= |cells|
    ensures var g := cells[Lead(cells, c)..End(cells, c)];
            Splice(cells, c, []) == Replaced(cells, Lead(cells, c), Spaces(g))
  {
    SpanBoundary(cells, c);
    var l, e := Lead(cells, c), End(cells, c);
    var r := Replaced(cells, l, Spaces(cells[l..e]));
    forall k | 0 <= k < |cells| ensures Splice(cells, c, [])[k] == r[k] {
      SpanBoundary(cells, k);
      if Touches(cells, k, c, c) {
        SpanShared(cells, k, c);
      } else if l <= k < e {
        SpanShared(cells, c, k);
        assert false;
      }
    }
  }

  lemma SpacesNeedLess(cells: seq<Cell>, lo: nat, hi: nat)
    requires RowOk(cells) && lo <= hi <= |cells| && Boundary(cells, lo) && Boundary(cells, hi)
    ensures Demand(Spaces(cells[lo..hi])) <= Demand(cells[lo..hi])
  {
    SliceOk(cells, lo, hi);
    DemandBoundsWidth(cells[lo..hi]);
    SpacesText(cells[lo..hi]);
  }

  lemma DemandInside(cells: seq<Cell>, lo: nat, hi: nat, other: seq<Cell>)
    requires lo <= hi <= |cells|
    ensures Demand(cells[..lo] + other + cells[hi..]) + Demand(cells[lo..hi]) == Demand(cells) + Demand(other)
  {
    DemandThree(cells[..lo], other, cells[hi..]);
    DemandThree(cells[..lo], cells[lo..hi], cells[hi..]);
    assert cells == cells[..lo] + cells[lo..hi] + cells[hi..];
  }

  /** Blanking never needs more room. */
  lemma BlankDemand(cells: seq<Cell>, c: nat)
    requires RowOk(cells) && c <= |cells|
    ensures Demand(Splice(cells, c, [])) <= Demand(cells)
  {
    BlankCut(cells, c);
    if c < |cells| && cells[c].pos > 0 {
      BlankReplaces(cells, c);
      SpanBoundary(cells, c);
      BlankDemandAt(cells, Lead(cells, c), End(cells, c), Splice(cells, c, []));
    }
  }

  lemma BlankDemandAt(cells: seq<Cell>, lo: nat, hi: nat, blanked: seq<Cell>)
    requires RowOk(cells) && lo <= hi <= |cells| && Boundary(cells, lo) && Boundary(cells, hi)
    requires blanked == Replaced(cells, lo, Spaces(cells[lo..hi]))
    ensures Demand(blanked) <= Demand(cells)
  {
    SpacesNeedLess(cells, lo, hi);
    DemandInside(cells, lo, hi, Spaces(cells[lo..hi]));
  }

  /** A write frees at least its columns and needs what its run needs: single code points fit where the row fitted. */
  lemma SpliceDemand(cells: seq<Cell>, lo: nat, run: seq<Cell>)
    requires RowOk(cells) && RowOk(run) && run != [] && lo + |run| <= |cells|
    ensures Demand(Splice(cells, lo, run)) + |run| <= Demand(cells) + Demand(run)
  {
    var hi := lo + |run|;
    var a := Splice(cells, lo, []);
    var b := Splice(a, hi, []);
    BlankCut(cells, lo);
    BlankDemand(cells, lo);
    BlankDemand(a, hi);
    SpliceByBlanking(cells, lo, run);
    SliceOk(b, lo, hi);
    DemandBoundsWidth(b[lo..hi]);
    DemandInside(b, lo, hi, run);
  }

  // ---- Flat ----

  lemma {:induction false} FlatConcat(a: seq<Cell>, b: seq<Cell>)
    ensures Flat(a + b) == Flat(a) + Flat(b)
  {
    if b == [] {
      assert a + b == a;
    } else {
      var n := |b| - 1;
      FlatConcat(a, b[..n]);
      assert (a + b)[..|a + b| - 1] == a + b[..n];
    }
  }

  lemma {:induction false} FlatTrailing(cells: seq<Cell>)
    requires forall k :: 0 <= k < |cells| ==> cells[k].pos > 0
    ensures Flat(cells) == []
  {
    if cells != [] { FlatTrailing(cells[..|cells| - 1]); }
  }

  lemma FlatGlyph(text: seq<Char32>, width: nat, attr: Attr)
    requires width > 0
    ensures Flat(Glyph(text, width, attr)) == text
  {
    var g := Glyph(text, width, attr);
    FlatTrailing(g[1..]);
    FlatConcat(g[..1], g[1..]);
    assert g == g[..1] + g[1..];
    assert Flat(g[..1]) == text by { assert g[..1][..0] == []; }
  }

  lemma {:induction false} FlatRun(text: seq<Char32>, widths: seq<nat>, attr: Attr)
    requires |text| == |widths| && Positive(widths)
    ensures Flat(Run(text, widths, attr)) == text
  {
    if text != [] {
      var n := |text| - 1;
      FlatRun(text[..n], widths[..n], attr);
      FlatGlyph([text[n]], widths[n], attr);
      FlatConcat(Run(text[..n], widths[..n], attr), Glyph([text[n]], widths[n], attr));
    }
  }

  lemma FlatPrefix(cells: seq<Cell>, lo: nat, hi: nat)
    requires lo <= hi <= |cells|
    ensures Flat(cells[..hi]) == Flat(cells[..lo]) + Flat(cells[lo..hi])
    ensures |Flat(cells[..lo])| <= |Flat(cells[..hi])|
  {
    FlatConcat(cells[..lo], cells[lo..hi]);
    assert cells[..hi] == cells[..lo] + cells[lo..hi];
  }

  /** The text depends on the glyphs only. */
  lemma {:induction false} FlatSameShape(a: seq<Cell>, b: seq<Cell>)
    requires |a| == |b|
    requires forall k :: 0 <= k < |a| ==> a[k].glyph == b[k].glyph && a[k].pos == b[k].pos
    ensures Flat(a) == Flat(b)
  {
    if a != [] {
      FlatSameShape(a[..|a| - 1], b[..|b| - 1]);
    }
  }

  /** A row whose glyphs are single code points holds at most one code point a column, so its offsets fit. */
  lemma {:induction false} SingleCodepointLength(cells: seq<Cell>)
    requires SingleCodepoint(cells)
    ensures |Flat(cells)| <= |cells|
  {
    if cells != [] {
      SingleCodepointLength(cells[..|cells| - 1]);
    }
  }

  /** So every offset of a row of up to 32767 columns, the sentinel included, fits the 15 offset bits. */
  lemma SingleCodepointOffsets(cells: seq<Cell>, k: nat)
    requires RowOk(cells) && SingleCodepoint(cells) && k <= |cells| <= OFFSET_MASK
    ensures 0 <= Lead(cells, k) && Offset(cells, k) <= OFFSET_MASK
  {
    if k < |cells| { SpanBoundary(cells, k); }
    SingleCodepointLength(cells[..Lead(cells, k)]);
  }

  // ---- Reading the stored form back ----

  lemma SpanText(cells: seq<Cell>, k: nat)
    requires RowOk(cells) && k < |cells|
    ensures 0 <= Lead(cells, k) < End(cells, k) <= |cells|
    ensures Flat(cells[Lead(cells, k)..End(cells, k)]) == cells[k].glyph
  {
    SpanBoundary(cells, k);
    var g := cells[Lead(cells, k)..End(cells, k)];
    forall j | 0 <= j < |g| ensures g[j].glyph == cells[k].glyph && g[j].pos == j {
      SpanShared(cells, k, Lead(cells, k) + j);
    }
    FlatSameShape(g, Glyph(cells[k].glyph, cells[k].width, cells[k].attr));
    FlatGlyph(cells[k].glyph, cells[k].width, cells[k].attr);
  }

  /** Three consecutive parts of a row are three consecutive parts of its text. */
  lemma FlatThree(a: seq<Cell>, b: seq<Cell>, c: seq<Cell>)
    ensures Flat(a + b + c) == Flat(a) + Flat(b) + Flat(c)
    ensures |Flat(a + b)| == |Flat(a)| + |Flat(b)|
  {
    FlatConcat(a, b);
    FlatConcat(a + b, c);
  }

  lemma FlatParts(cells: seq<Cell>, lo: nat, hi: nat)
    requires lo <= hi <= |cells|
    ensures Flat(cells) == Flat(cells[..lo]) + Flat(cells[lo..hi]) + Flat(cells[hi..])
    ensures |Flat(cells[..hi])| == |Flat(cells[..lo])| + |Flat(cells[lo..hi])|
  {
    var a, b, c := cells[..lo], cells[lo..hi], cells[hi..];
    assert cells == a + b + c && cells[..hi] == a + b;
    FlatThree(a, b, c);
  }

  /** The stored text between a glyph's offsets is the glyph. */
  lemma GlyphSlice(cells: seq<Cell>, k: nat)
    requires RowOk(cells) && k < |cells|
    ensures 0 <= Lead(cells, k) && End(cells, k) <= |cells|
    ensures var lo := Offset(cells, k);
            Boundary(cells, End(cells, k)) &&
            Offset(cells, End(cells, k)) == lo + |cells[k].glyph| <= |Flat(cells)| &&
            Flat(cells)[lo..lo + |cells[k].glyph|] == cells[k].glyph
  {
    hide RowOk, Flat;
    SpanBoundary(cells, k);
    SpanText(cells, k);
    FlatParts(cells, Lead(cells, k), End(cells, k));
    SliceOfMiddle(Flat(cells[..Lead(cells, k)]), cells[k].glyph, Flat(cells[End(cells, k)..]));
  }

  lemma SliceOfMiddle<T>(a: seq<T>, b: seq<T>, c: seq<T>)
    ensures (a + b + c)[|a|..|a| + |b|] == b
    ensures (a + b + c)[..|a|] == a
    ensures (a + b + c)[|a| + |b|..] == c
  {}

  lemma WordBits(cells: seq<Cell>, k: nat)
    requires RowOk(cells) && k <= |cells| && TextFits(cells)
    ensures 0 <= Lead(cells, k)
    ensures OffsetOf(Word(cells, k)) == Offset(cells, k) <= |Flat(cells)|
    ensures IsTrailing(Word(cells, k)) <==> !Boundary(cells, k)
  {
    DemandBoundsText(cells);
    if k < |cells| { SpanBoundary(cells, k); }
    FlatPrefix(cells, Lead(cells, k), |cells|);
    assert cells[..|cells|] == cells;
  }

  /** Offsets never decrease from one column to the next, and the last one is the text's length. */
  lemma OffsetsMonotone(cells: seq<Cell>, j: nat, k: nat)
    requires RowOk(cells) && j <= k <= |cells|
    ensures 0 <= Lead(cells, j) <= Lead(cells, k)
    ensures Offset(cells, j) <= Offset(cells, k) <= Offset(cells, |cells|) == |Flat(cells)|
  {
    if k < |cells| { SpanBoundary(cells, k); }
    if j < |cells| { SpanBoundary(cells, j); }
    if Lead(cells, k) < Lead(cells, j) {
      SpanShared(cells, k, j);
      assert false;
    }
    FlatPrefix(cells, Lead(cells, j), Lead(cells, k));
    FlatPrefix(cells, Lead(cells, k), |cells|);
    assert cells[..|cells|] == cells;
  }

  /** Offsets and trailing bits determine the place, the width and the number of code points of every glyph. */
  lemma WordsUnique(words: seq<nat>, a: seq<Cell>, b: seq<Cell>)
    requires RowOk(a) && RowOk(b) && TextFits(a) && TextFits(b) && |words| == |a| + 1 == |b| + 1
    requires forall k :: 0 <= k <= |a| ==> WordOk(a, words, k) && WordOk(b, words, k)
    ensures forall k :: 0 <= k <= |a| ==> (Boundary(a, k) <==> Boundary(b, k))
    ensures forall k :: 0 <= k < |a| ==>
              a[k].pos == b[k].pos && a[k].width == b[k].width && |a[k].glyph| == |b[k].glyph|
  {
    forall k | 0 <= k <= |a| ensures Boundary(a, k) <==> Boundary(b, k) {
      assert WordOk(a, words, k) && WordOk(b, words, k);
      WordBits(a, k);
      WordBits(b, k);
    }
    forall k | 0 <= k < |a|
      ensures a[k].pos == b[k].pos && a[k].width == b[k].width && |a[k].glyph| == |b[k].glyph|
    {
      SpanBoundary(a, k);
      SpanBoundary(b, k);
      SameLead(a, b, k);
      SameEnd(a, b, k);
      SameLength(words, a, b, k);
    }
  }

  lemma SameLength(words: seq<nat>, a: seq<Cell>, b: seq<Cell>, k: nat)
    requires RowOk(a) && RowOk(b) && TextFits(a) && TextFits(b) && |words| == |a| + 1 == |b| + 1 && k < |a|
    requires forall j :: 0 <= j <= |a| ==> WordOk(a, words, j) && WordOk(b, words, j)
    requires End(a, k) == End(b, k)
    ensures |a[k].glyph| == |b[k].glyph|
  {
    GlyphSlice(a, k);
    GlyphSlice(b, k);
    assert WordOk(a, words, k) && WordOk(b, words, k);
    assert WordOk(a, words, End(a, k)) && WordOk(b, words, End(b, k));
    WordBits(a, k);
    WordBits(b, k);
    WordBits(a, End(a, k));
    WordBits(b, End(b, k));
  }

  /** The stored form determines the glyphs: two rows stored alike show the same glyph in every column. */
  lemma EncodingUnique(text: seq<Char32>, words: seq<nat>, a: seq<Cell>, b: seq<Cell>)
    requires RowOk(a) && RowOk(b) && TextFits(a) && TextFits(b)
    requires Encodes(text, words, a) && Encodes(text, words, b)
    ensures |a| == |b|
    ensures forall k :: 0 <= k < |a| ==> a[k] == b[k].(attr := a[k].attr)
  {
    WordsUnique(words, a, b);
    forall k | 0 <= k < |a| ensures a[k] == b[k].(attr := a[k].attr) {
      GlyphSlice(a, k);
      GlyphSlice(b, k);
      assert WordOk(a, words, k) && WordOk(b, words, k);
      WordBits(a, k);
      WordBits(b, k);
    }
  }

  lemma SameLead(a: seq<Cell>, b: seq<Cell>, k: nat)
    requires RowOk(a) && RowOk(b) && |a| == |b| && k < |a|
    requires forall j :: 0 <= j <= |a| ==> (Boundary(a, j) <==> Boundary(b, j))
    ensures Lead(a, k) == Lead(b, k)
  {
    SpanBoundary(a, k);
    SpanBoundary(b, k);
    if Lead(a, k) < Lead(b, k) {
      SpanShared(a, k, Lead(b, k));
    }
    if Lead(b, k) < Lead(a, k) {
      SpanShared(b, k, Lead(a, k));
    }
  }

  lemma SameEnd(a: seq<Cell>, b: seq<Cell>, k: nat)
    requires RowOk(a) && RowOk(b) && |a| == |b| && k < |a|
    requires forall j :: 0 <= j <= |a| ==> (Boundary(a, j) <==> Boundary(b, j))
    ensures End(a, k) == End(b, k)
  {
    SpanBoundary(a, k);
    SpanBoundary(b, k);
    if End(a, k) < End(b, k) {
      SpanShared(b, k, End(a, k));
    }
    if End(b, k) < End(a, k) {
      SpanShared(a, k, End(b, k));
    }
  }

  // ---- Replacing whole glyphs in the stored form ----

  function Replaced(cells: seq<Cell>, lo: nat, run: seq<Cell>): seq<Cell>
    requires lo + |run| <= |cells|
  {
    cells[..lo] + run + cells[lo + |run|..]
  }

  lemma ReplacedOk(cells: seq<Cell>, lo: nat, run: seq<Cell>)
    requires RowOk(cells) && RowOk(run) && lo + |run| <= |cells|
    requires Boundary(cells, lo) && Boundary(cells, lo + |run|)
    ensures RowOk(Replaced(cells, lo, run))
  {
    SpliceAligned(cells, lo, run);
    SpliceOk(cells, lo, run);
  }

  lemma BoundaryOffset(cells: seq<Cell>, k: nat)
    requires k <= |cells| && Boundary(cells, k)
    ensures Lead(cells, k) == k && Offset(cells, k) == |Flat(cells[..k])|
  {}

  /** The text of a row put together from three parts. */
  lemma FlatReplaced(cells: seq<Cell>, lo: nat, run: seq<Cell>)
    requires lo + |run| <= |cells|
    ensures Flat(Replaced(cells, lo, run)) == Flat(cells[..lo]) + Flat(run) + Flat(cells[lo + |run|..])
  {
    FlatThree(cells[..lo], run, cells[lo + |run|..]);
  }

  /** The code points of the replaced glyphs are replaced in place. */
  lemma ReplacedText(cells: seq<Cell>, lo: nat, run: seq<Cell>)
    requires lo + |run| <= |cells|
    requires Boundary(cells, lo) && Boundary(cells, lo + |run|)
    ensures var f := Flat(cells); var s := Offset(cells, lo); var e := Offset(cells, lo + |run|);
            s <= e <= |f| &&
            Flat(Replaced(cells, lo, run)) == f[..s] + Flat(run) + f[e..]
  {
    BoundaryOffset(cells, lo);
    BoundaryOffset(cells, lo + |run|);
    FlatParts(cells, lo, lo + |run|);
    FlatReplaced(cells, lo, run);
    SliceOfMiddle(Flat(cells[..lo]), Flat(cells[lo..lo + |run|]), Flat(cells[lo + |run|..]));
  }

  lemma ReplacedLead(cells: seq<Cell>, lo: nat, run: seq<Cell>, k: nat)
    requires RowOk(cells) && RowOk(run) && lo + |run| <= |cells| && k <= |cells|
    requires Boundary(cells, lo) && Boundary(cells, lo + |run|)
    ensures var r := Replaced(cells, lo, run); var hi := lo + |run|;
            0 <= Lead(r, k) && 0 <= Lead(cells, k) &&
            (k < lo ==> Lead(r, k) == Lead(cells, k)) &&
            (lo <= k < hi ==> 0 <= Lead(run, k - lo) && Lead(r, k) == lo + Lead(run, k - lo)
                              && Boundary(r, k) == Boundary(run, k - lo)) &&
            (hi <= k ==> hi <= Lead(cells, k) == Lead(r, k)) &&
            (!(lo <= k < hi) ==> Boundary(r, k) == Boundary(cells, k))
  {
    var hi := lo + |run|;
    ReplacedOk(cells, lo, run);
    if k < |cells| {
      SpanBoundary(cells, k);
      SpanBoundary(Replaced(cells, lo, run), k);
    }
    if lo <= k < hi {
      SpanBoundary(run, k - lo);
    }
    if hi <= k < |cells| && Lead(cells, k) < hi {
      SpanShared(cells, k, hi);
      assert false;
    }
  }

  lemma ReplacedOffsetInside(cells: seq<Cell>, lo: nat, run: seq<Cell>, m: nat)
    requires lo + |run| <= |cells| && m <= |run|
    ensures |Flat(Replaced(cells, lo, run)[..lo + m])| == |Flat(cells[..lo])| + |Flat(run[..m])|
  {
    assert Replaced(cells, lo, run)[..lo + m] == cells[..lo] + run[..m];
    FlatConcat(cells[..lo], run[..m]);
  }

  lemma ReplacedOffsetAfter(cells: seq<Cell>, lo: nat, run: seq<Cell>, l: nat)
    requires lo + |run| <= l <= |cells|
    ensures |Flat(Replaced(cells, lo, run)[..l])| ==
            |Flat(cells[..l])| - |Flat(cells[..lo + |run|])| + |Flat(cells[..lo])| + |Flat(run)|
  {
    assert Replaced(cells, lo, run)[..l] == Replaced(cells[..l], lo, run);
    FlatReplaced(cells[..l], lo, run);
    assert cells[..l][..lo] == cells[..lo];
    assert cells[..l][lo + |run|..] == cells[lo + |run|..l];
    FlatPrefix(cells, lo + |run|, l);
  }

  /** Left of the replaced columns offsets stay. */
  lemma OffsetBefore(cells: seq<Cell>, lo: nat, run: seq<Cell>, k: nat)
    requires RowOk(cells) && RowOk(run) && lo + |run| <= |cells| && k < lo
    requires Boundary(cells, lo) && Boundary(cells, lo + |run|)
    ensures var r := Replaced(cells, lo, run);
            0 <= Lead(r, k) && 0 <= Lead(cells, k) && Word(r, k) == Word(cells, k)
  {
    ReplacedLead(cells, lo, run, k);
    assert Replaced(cells, lo, run)[..Lead(cells, k)] == cells[..Lead(cells, k)];
  }

  /** Inside them they are the run's own, moved to where the old text started. */
  lemma OffsetInside(cells: seq<Cell>, lo: nat, run: seq<Cell>, k: nat)
    requires RowOk(cells) && RowOk(run) && lo + |run| <= |cells| && lo <= k < lo + |run|
    requires Boundary(cells, lo) && Boundary(cells, lo + |run|)
    ensures var r := Replaced(cells, lo, run);
            0 <= Lead(r, k) && 0 <= Lead(run, k - lo) &&
            Word(r, k) == Offset(cells, lo) + Word(run, k - lo)
  {
    ReplacedLead(cells, lo, run, k);
    BoundaryOffset(cells, lo);
    SpanBoundary(run, k - lo);
    ReplacedOffsetInside(cells, lo, run, Lead(run, k - lo));
  }

  /** Right of them they shift by the change in length. */
  lemma OffsetAfter(cells: seq<Cell>, lo: nat, run: seq<Cell>, k: nat)
    requires RowOk(cells) && RowOk(run) && lo + |run| <= k <= |cells|
    requires Boundary(cells, lo) && Boundary(cells, lo + |run|)
    ensures var r := Replaced(cells, lo, run);
            0 <= Lead(r, k) && 0 <= Lead(cells, k) &&
            Word(r, k) == Word(cells, k) - Offset(cells, lo + |run|) + Offset(cells, lo) + |Flat(run)|
  {
    ReplacedLead(cells, lo, run, k);
    BoundaryOffset(cells, lo);
    BoundaryOffset(cells, lo + |run|);
    var l := Lead(cells, k);
    assert l <= |cells| by { if k < |cells| { SpanBoundary(cells, k); } }
    ReplacedOffsetAfter(cells, lo, run, l);
  }

  ghost predicate WordLaidOut(col: nat, base: nat, cells: seq<Cell>, words: seq<nat>, k: nat)
    requires col <= k < col + |cells| && k < |words|
  {
    0 <= Lead(cells, k - col) && words[k] == base + Word(cells, k - col)
  }

  /** The words from `col` on are those of `cells`, their text starting at `base`. */
  ghost predicate LaidOut(col: nat, base: nat, cells: seq<Cell>, words: seq<nat>) {
    forall k :: col <= k < col + |cells| && k < |words| ==> WordLaidOut(col, base, cells, words, k)
  }

  /** The columns hold glyphs of one code point, of the places and widths of `run`. */
  predicate Matching(cells: seq<Cell>, col: nat, run: seq<Cell>) {
    && col + |run| <= |cells|
    && forall j :: 0 <= j < |run| ==>
         cells[col + j].pos == run[j].pos && cells[col + j].width == run[j].width && |cells[col + j].glyph| == 1
  }

  lemma MatchingRoom(cells: seq<Cell>, col: nat, run: seq<Cell>)
    requires Matching(cells, col, run)
    ensures col + |run| <= |cells|
  {}

  lemma {:induction false} FlatMatching(a: seq<Cell>, b: seq<Cell>)
    requires |a| == |b| && SingleCodepoint(b)
    requires forall k :: 0 <= k < |a| ==> a[k].pos == b[k].pos && |a[k].glyph| == 1
    ensures |Flat(a)| == |Flat(b)|
  {
    if a != [] { FlatMatching(a[..|a| - 1], b[..|b| - 1]); }
  }

  lemma MatchingEdges(cells: seq<Cell>, col: nat, run: seq<Cell>)
    requires RowOk(cells) && RowOk(run) && run != [] && Matching(cells, col, run)
    ensures Boundary(cells, col) && Boundary(cells, col + |run|)
  {
    var n := |run| - 1;
    assert CellOk(run, 0);
    assert cells[col].pos == run[0].pos;
    LastColumn(run);
    SpanBoundary(cells, col + n);
    assert cells[col + n].pos == run[n].pos && cells[col + n].width == run[n].width;
  }

  lemma LastColumn(run: seq<Cell>)
    requires RowOk(run) && run != []
    ensures End(run, |run| - 1) == |run|
  {
    SpanBoundary(run, |run| - 1);
  }

  /** Columns that match a run are stored as the run would be, from where their own text starts. */
  lemma MatchingLaysOut(cells: seq<Cell>, col: nat, run: seq<Cell>, words: seq<nat>)
    requires RowOk(cells) && RowOk(run) && run != [] && SingleCodepoint(run) && Matching(cells, col, run)
    requires |words| == |cells| + 1 && forall k :: 0 <= k <= |cells| ==> WordOk(cells, words, k)
    ensures Boundary(cells, col) && Boundary(cells, col + |run|)
    ensures LaidOut(col, Offset(cells, col), run, words)
    ensures Offset(cells, col + |run|) == Offset(cells, col) + |Flat(run)| <= |Flat(cells)|
  {
    hide Flat, RowOk, Matching, SingleCodepoint, WordOk;
    MatchingRoom(cells, col, run);
    MatchingEdges(cells, col, run);
    forall k | col <= k < col + |run| && k < |words| ensures WordLaidOut(col, Offset(cells, col), run, words, k) {
      MatchingWordAt(cells, col, run, words, k);
    }
    MatchingLength(cells, col, run);
  }

  lemma MatchingWordAt(cells: seq<Cell>, col: nat, run: seq<Cell>, words: seq<nat>, k: nat)
    requires RowOk(cells) && RowOk(run) && SingleCodepoint(run) && Matching(cells, col, run)
    requires Boundary(cells, col) && Boundary(cells, col + |run|) && col <= k < col + |run|
    requires |words| == |cells| + 1 && WordOk(cells, words, k)
    ensures WordLaidOut(col, Offset(cells, col), run, words, k)
  {
    hide Flat, RowOk;
    var own := cells[col..col + |run|];
    SliceOk(cells, col, col + |run|);
    assert cells == Replaced(cells, col, own);
    OffsetInside(cells, col, own, k);
    MatchingWord(own, run, k - col);
  }

  lemma MatchingLength(cells: seq<Cell>, col: nat, run: seq<Cell>)
    requires RowOk(cells) && SingleCodepoint(run) && Matching(cells, col, run)
    requires Boundary(cells, col) && Boundary(cells, col + |run|)
    ensures Offset(cells, col + |run|) == Offset(cells, col) + |Flat(run)| <= |Flat(cells)|
  {
    hide Flat, RowOk;
    var end := col + |run|;
    BoundaryOffset(cells, col);
    BoundaryOffset(cells, end);
    FlatPrefix(cells, col, end);
    FlatMatching(cells[col..end], run);
    OffsetsMonotone(cells, end, |cells|);
  }

  lemma MatchingWord(a: seq<Cell>, b: seq<Cell>, k: nat)
    requires RowOk(a) && RowOk(b) && |a| == |b| && SingleCodepoint(b) && k < |a|
    requires forall j :: 0 <= j < |a| ==> a[j].pos == b[j].pos && |a[j].glyph| == 1
    ensures 0 <= Lead(a, k) == Lead(b, k) && Word(a, k) == Word(b, k)
  {
    SpanBoundary(b, k);
    FlatMatching(a[..Lead(b, k)], b[..Lead(b, k)]);
  }

  /** Columns stored as a run would be, up to where its text ends: with the run in their place the words are the same. */
  lemma SameWords(cells: seq<Cell>, col: nat, run: seq<Cell>, words: seq<nat>)
    requires RowOk(cells) && RowOk(run) && col + |run| <= |cells|
    requires Boundary(cells, col) && Boundary(cells, col + |run|)
    requires |words| == |cells| + 1 && forall k :: 0 <= k <= |cells| ==> WordOk(cells, words, k)
    requires LaidOut(col, Offset(cells, col), run, words)
    requires Offset(cells, col + |run|) == Offset(cells, col) + |Flat(run)|
    ensures var r := Replaced(cells, col, run);
            RowOk(r) && |r| == |cells| && forall k :: 0 <= k <= |cells| ==> WordOk(r, words, k)
  {
    hide Flat;
    OffsetsMonotone(cells, col, col + |run|);
    OffsetsMonotone(cells, col + |run|, |cells|);
    var s, e := Offset(cells, col), Offset(cells, col + |run|);
    var text := Flat(cells);
    ReplacedEncodes(cells, col, run, text, words, text[..s] + Flat(run) + text[e..], words);
  }

  lemma SameAsReplaced(cells: seq<Cell>, col: nat, run: seq<Cell>)
    requires col + |run| <= |cells| && SingleCodepoint(run)
    requires var r := Replaced(cells, col, run);
             |r| == |cells| && forall k :: 0 <= k < |cells| ==>
               cells[k].pos == r[k].pos && cells[k].width == r[k].width && |cells[k].glyph| == |r[k].glyph|
    ensures Matching(cells, col, run)
  {
    var r := Replaced(cells, col, run);
    forall j | 0 <= j < |run|
      ensures cells[col + j].pos == run[j].pos && cells[col + j].width == run[j].width && |cells[col + j].glyph| == 1
    {
      assert r[col + j] == run[j];
    }
  }

  /** Such columns match the run. */
  lemma LaidOutMatches(cells: seq<Cell>, col: nat, run: seq<Cell>, words: seq<nat>)
    requires RowOk(cells) && TextFits(cells) && RowOk(run) && SingleCodepoint(run) && col + |run| <= |cells|
    requires Boundary(cells, col) && Boundary(cells, col + |run|) && TextFits(Replaced(cells, col, run))
    requires |words| == |cells| + 1 && forall k :: 0 <= k <= |cells| ==> WordOk(cells, words, k)
    requires LaidOut(col, Offset(cells, col), run, words)
    requires Offset(cells, col + |run|) == Offset(cells, col) + |Flat(run)|
    ensures Matching(cells, col, run)
  {
    hide *;
    SameWords(cells, col, run, words);
    WordsUnique(words, cells, Replaced(cells, col, run));
    SameAsReplaced(cells, col, run);
  }

  /** The concrete step shared by the splicing writers: rewritten text and words store the replaced row. */
  lemma ReplacedEncodes(was: seq<Cell>, lo: nat, run: seq<Cell>, oldText: seq<Char32>, oldWords: seq<nat>,
                        text: seq<Char32>, words: seq<nat>)
    requires RowOk(was) && RowOk(run) && lo + |run| <= |was|
    requires Boundary(was, lo) && Boundary(was, lo + |run|)
    requires Encodes(oldText, oldWords, was) && |words| == |oldWords|
    requires var s := Offset(was, lo); var e := Offset(was, lo + |run|);
             s <= e <= |oldText| && text == oldText[..s] + Flat(run) + oldText[e..]
    requires forall k :: 0 <= k < lo ==> words[k] == oldWords[k]
    requires LaidOut(lo, Offset(was, lo), run, words)
    requires forall k :: lo + |run| <= k < |words| ==>
               words[k] == oldWords[k] + |Flat(run)| - (Offset(was, lo + |run|) - Offset(was, lo))
    ensures RowOk(Replaced(was, lo, run)) && Encodes(text, words, Replaced(was, lo, run))
  {
    var r := Replaced(was, lo, run);
    ReplacedOk(was, lo, run);
    ReplacedText(was, lo, run);
    forall k | 0 <= k <= |r| ensures WordOk(r, words, k) {
      if k < lo {
        OffsetBefore(was, lo, run, k);
        assert WordOk(was, oldWords, k);
      } else if k < lo + |run| {
        OffsetInside(was, lo, run, k);
        assert WordLaidOut(lo, Offset(was, lo), run, words, k);
      } else {
        OffsetAfter(was, lo, run, k);
        assert WordOk(was, oldWords, k);
      }
    }
  }

  lemma LaidOutFrame(col: nat, base: nat, cells: seq<Cell>, a: seq<nat>, b: seq<nat>)
    requires LaidOut(col, base, cells, a) && |a| == |b|
    requires forall k :: col <= k < col + |cells| && k < |a| ==> a[k] == b[k]
    ensures LaidOut(col, base, cells, b)
  {
    forall k | col <= k < col + |cells| && k < |b| ensures WordLaidOut(col, base, cells, b, k) {
      assert WordLaidOut(col, base, cells, a, k);
    }
  }

  /** A glyph reaching over the end of columns laid out as `r` has its offset before the end of r's text. */
  lemma CutByEnd(cells: seq<Cell>, words: seq<nat>, col: nat, start: nat, r: seq<Cell>, end: nat)
    requires RowOk(cells) && TextFits(cells) && |words| == |cells| + 1
    requires forall k :: 0 <= k <= |cells| ==> WordOk(cells, words, k)
    requires RowOk(r) && r != [] && col + |r| == end < |cells| && !Boundary(cells, end)
    requires LaidOut(col, start, r, words)
    ensures 0 <= Lead(cells, end) && Offset(cells, end) < start + |Flat(r)|
  {
    assert Lead(cells, end - 1) == Lead(cells, end) >= 0 by {
      PreviousColumn(cells, end);
      SpanBoundary(cells, end);
    }
    assert OffsetOf(words[end - 1]) == Offset(cells, end - 1) by {
      assert WordOk(cells, words, end - 1);
      WordBits(cells, end - 1);
    }
    LastWord(r);
    assert WordLaidOut(col, start, r, words, end - 1);
  }

  lemma LastWord(r: seq<Cell>)
    requires RowOk(r) && r != []
    ensures var k := |r| - 1;
            0 <= Lead(r, k) && Offset(r, k) < |Flat(r)| &&
            Word(r, k) == Offset(r, k) + if Boundary(r, k) then 0 else TRAILING_FLAG
  {
    assert CellOk(r, |r| - 1);
    GlyphSlice(r, |r| - 1);
  }

  /** Writing a single code point needs no room the row does not have. */
  lemma PutFits(cells: seq<Cell>, col: nat, glyph: seq<Char32>, width: int, attr: Attr)
    requires RowOk(cells) && TextFits(cells) && |glyph| == 1
    ensures TextFits(Put(cells, col, glyph, width, attr))
  {
    if col < |cells| && width > 0 {
      var w := Clipped(col, width, |cells|);
      GlyphOk(glyph, w, attr);
      DemandSpan(Glyph(glyph, w, attr), Cell(glyph, 0, w, attr));
      SpliceDemand(cells, col, Glyph(glyph, w, attr));
    }
  }
}
