/** Copying columns from one row to another, glyph by glyph from the leading columns. */
module RowCopy {
  import opened Cells

  /** The row after the first `n` columns have been copied, as far as both rows go. */
  function Copied(dst: seq<Cell>, src: seq<Cell>, from: nat, to: nat, n: nat): (r: seq<Cell>)
    ensures |r| == |dst|
  {
    if n == 0 then dst
    else
      var done := Copied(dst, src, from, to, n - 1);
      if |src| < from + n || |dst| < to + n then done else CopiedColumn(done, src, from + n - 1, to + n - 1)
  }

  /** A glyph is copied at its leading column. */
  function CopiedColumn(dst: seq<Cell>, src: seq<Cell>, sc: nat, to: nat): (r: seq<Cell>)
    requires sc < |src|
    ensures |r| == |dst|
  {
    if src[sc].pos > 0 then dst else Put(dst, to, src[sc].glyph, src[sc].width, src[sc].attr)
  }

  lemma CopiedStep(dst: seq<Cell>, src: seq<Cell>, from: nat, to: nat, i: nat)
    requires from + i < |src| && to + i < |dst|
    ensures Copied(dst, src, from, to, i + 1) == CopiedColumn(Copied(dst, src, from, to, i), src, from + i, to + i)
  {}

  /** Columns right of either row are dropped. */
  lemma {:induction false} CopiedEnds(dst: seq<Cell>, src: seq<Cell>, from: nat, to: nat, i: nat, n: nat)
    requires i <= n && (i == n || |src| <= from + i || |dst| <= to + i)
    ensures Copied(dst, src, from, to, i) == Copied(dst, src, from, to, n)
    decreases n
  {
    if i < n { CopiedEnds(dst, src, from, to, i, n - 1); }
  }

  lemma {:induction false} CopiedOk(dst: seq<Cell>, src: seq<Cell>, from: nat, to: nat, n: nat)
    requires RowOk(dst) && RowOk(src)
    ensures RowOk(Copied(dst, src, from, to, n))
  {
    if n > 0 {
      CopiedOk(dst, src, from, to, n - 1);
      if from + n <= |src| && to + n <= |dst| {
        var c := src[from + n - 1];
        assert CellOk(src, from + n - 1);
        PutOk(Copied(dst, src, from, to, n - 1), to + n - 1, c.glyph, c.width, c.attr);
      }
    }
  }

  /** Columns [lo, hi) of a row with each glyph's columns all carrying its leading column's attribute. */
  function Leveled(src: seq<Cell>, lo: nat, hi: nat): (r: seq<Cell>)
    requires RowOk(src) && lo <= hi <= |src|
    ensures |r| == hi - lo
  {
    seq(hi - lo, j requires 0 <= j < hi - lo => LeveledCell(src, lo + j))
  }

  function LeveledCell(src: seq<Cell>, k: nat): Cell
    requires RowOk(src) && k < |src|
  {
    SpanBoundary(src, k);
    src[k].(attr := src[Lead(src, k)].attr)
  }

  lemma LeveledOk(src: seq<Cell>, lo: nat, hi: nat)
    requires RowOk(src) && lo <= hi <= |src| && Boundary(src, lo) && Boundary(src, hi)
    ensures RowOk(Leveled(src, lo, hi))
  {
    SliceOk(src, lo, hi);
    forall k | 0 <= k < hi - lo
      ensures Leveled(src, lo, hi)[k] == src[lo..hi][k].(attr := Leveled(src, lo, hi)[k].attr)
    {
      assert src[lo..hi][k] == src[lo + k];
      assert Leveled(src, lo, hi)[k] == LeveledCell(src, lo + k);
    }
    SameGlyphsOk(src[lo..hi], Leveled(src, lo, hi));
  }

  lemma LeveledGlyph(src: seq<Cell>, k: nat)
    requires RowOk(src) && k < |src| && Boundary(src, k)
    ensures End(src, k) <= |src|
    ensures Leveled(src, k, End(src, k)) == Glyph(src[k].glyph, src[k].width, src[k].attr)
  {
    SpanBoundary(src, k);
    forall j | 0 <= j < src[k].width
      ensures Leveled(src, k, End(src, k))[j] == Cell(src[k].glyph, j, src[k].width, src[k].attr)
    {
      SpanForward(src, k, j);
      assert Leveled(src, k, End(src, k))[j] == LeveledCell(src, k + j);
    }
  }

  /** A copy that starts at a glyph and has room for the last glyph it meets is one write of those glyphs. */
  lemma {:induction false} CopiedIsSplice(dst: seq<Cell>, src: seq<Cell>, from: nat, to: nat, n: nat)
    requires RowOk(dst) && RowOk(src) && 1 <= n && from + n <= |src| && Boundary(src, from)
    requires to + End(src, from + n - 1) - from <= |dst|
    ensures from < End(src, from + n - 1) <= |src|
    ensures Copied(dst, src, from, to, n) == Splice(dst, to, Leveled(src, from, End(src, from + n - 1)))
  {
    var last := from + n - 1;
    SpanBoundary(src, last);
    if n == 1 {
      LeveledGlyph(src, from);
      assert Copied(dst, src, from, to, 0) == dst;
    } else {
      SpanBoundary(src, last - 1);
      if src[last].pos > 0 {
        PreviousColumn(src, last);
        CopiedIsSplice(dst, src, from, to, n - 1);
      } else {
        assert CellOk(src, last - 1);
        CopiedIsSplice(dst, src, from, to, n - 1);
        LeveledGlyph(src, last);
        LeveledOk(src, from, last);
        SpliceCompose(dst, to, Leveled(src, from, last), Leveled(src, last, End(src, last)));
        assert Leveled(src, from, End(src, last)) == Leveled(src, from, last) + Leveled(src, last, End(src, last));
      }
    }
  }

  /** Trailing columns are passed over. */
  lemma {:induction false} CopiedTrailing(dst: seq<Cell>, src: seq<Cell>, from: nat, to: nat, m: nat, n: nat)
    requires m <= n && from + n <= |src| && forall k :: from + m <= k < from + n ==> src[k].pos > 0
    ensures Copied(dst, src, from, to, n) == Copied(dst, src, from, to, m)
    decreases n
  {
    if m < n { CopiedTrailing(dst, src, from, to, m, n - 1); }
  }

  /** A copy that starts inside a glyph starts at the glyph behind it. */
  lemma {:induction false} CopiedSkips(dst: seq<Cell>, src: seq<Cell>, from: nat, to: nat, k: nat, n: nat)
    requires k <= n && from + k <= |src| && forall i :: from <= i < from + k ==> src[i].pos > 0
    ensures Copied(dst, src, from, to, n) == Copied(dst, src, from + k, to + k, n - k)
    decreases n
  {
    if n == k {
      CopiedTrailing(dst, src, from, to, 0, k);
    } else {
      CopiedSkips(dst, src, from, to, k, n - 1);
    }
  }

  /** A copy without room for the last glyph it meets writes the glyphs before it and what there is room for. */
  lemma CopiedIsClipped(dst: seq<Cell>, src: seq<Cell>, from: nat, to: nat, n: nat)
    requires RowOk(dst) && RowOk(src) && 1 <= n && from + n <= |src| && Boundary(src, from) && to + n <= |dst|
    requires to + End(src, from + n - 1) - from > |dst|
    ensures var lead := Lead(src, from + n - 1);
            var room := |dst| - to - (lead - from);
            && from <= lead < from + n && 0 < room < src[lead].width
            && Copied(dst, src, from, to, n) ==
               Splice(dst, to, Leveled(src, from, lead) + Glyph(src[lead].glyph, room, src[lead].attr))
  {
    hide Copied, Leveled, Splice, Glyph, RowOk;
    var last := from + n - 1;
    SpanBoundary(src, last);
    var lead := Lead(src, last);
    SpanShared(src, last, lead);
    if lead < from { SpanShared(src, last, from); }
    forall k | lead < k < from + n ensures src[k].pos > 0 {
      SpanShared(src, last, k);
    }
    CopiedTrailing(dst, src, from, to, lead - from + 1, n);
    CopiedCut(dst, src, from, to, lead);
  }

  lemma CopiedCut(dst: seq<Cell>, src: seq<Cell>, from: nat, to: nat, lead: nat)
    requires RowOk(dst) && RowOk(src) && from <= lead < |src| && Boundary(src, from) && Boundary(src, lead)
    requires to + lead - from < |dst| < to + lead - from + src[lead].width
    ensures var room := |dst| - to - (lead - from);
            Copied(dst, src, from, to, lead - from + 1) ==
            Splice(dst, to, Leveled(src, from, lead) + Glyph(src[lead].glyph, room, src[lead].attr))
  {
    hide Splice, Glyph;
    var m := lead - from;
    var clipped := Glyph(src[lead].glyph, |dst| - to - m, src[lead].attr);
    CopiedStep(dst, src, from, to, m);
    if m == 0 {
      assert Leveled(src, from, lead) + clipped == clipped;
    } else {
      assert CellOk(src, lead - 1);
      CopiedIsSplice(dst, src, from, to, m);
      LeveledOk(src, from, lead);
      SpliceCompose(dst, to, Leveled(src, from, lead), clipped);
    }
  }

  /** All columns of each glyph carry one attribute. */
  ghost predicate Level(cells: seq<Cell>)
    requires RowOk(cells)
  {
    forall k :: 0 <= k < |cells| ==> LeveledCell(cells, k) == cells[k]
  }
}
