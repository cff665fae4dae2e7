/**
  Exchanging columns with the CHAR_INFO form of the console API. A CHAR_INFO attribute WORD is split
  into its two half-glyph bits and the rest.
 */
module CharInfos {
  import opened Cells

  datatype CharInfo = CharInfo(ch: nat, attr: Attr, leading: bool, trailing: bool)

  const REPLACEMENT: Char32 := 0xFFFD

  predicate HighSurrogate(ch: nat) { 0xD800 <= ch <= 0xDBFF }

  /** One column as the console API reports it: a glyph's first UTF-16 unit, both halves marked. */
  function ExportCell(cells: seq<Cell>, k: nat): CharInfo
    requires k < |cells|
  {
    var c := cells[k];
    var ch := if c.glyph == [] then SPACE else if c.glyph[0] <= 0xFFFF then c.glyph[0] else REPLACEMENT;
    CharInfo(ch, c.attr, c.pos == 0 && k + 1 < |cells| && cells[k + 1].pos > 0, c.pos > 0)
  }

  function Export(cells: seq<Cell>): (r: seq<CharInfo>)
    ensures |r| == |cells|
  {
    seq(|cells|, k requires 0 <= k < |cells| => ExportCell(cells, k))
  }

  /** A wide glyph's first column is marked as leading, its others as trailing; nothing else is marked. */
  lemma ExportShows(cells: seq<Cell>, k: nat)
    requires RowOk(cells) && k < |cells|
    ensures var ci := Export(cells)[k];
            && ci.attr == cells[k].attr && cells[k].glyph != []
            && (ci.leading <==> Lead(cells, k) == k && End(cells, k) > k + 1)
            && (ci.trailing <==> Lead(cells, k) < k)
            && ci.ch == if cells[k].glyph[0] <= 0xFFFF then cells[k].glyph[0] else 0xFFFD
  {
    assert CellOk(cells, k);
    if k + 1 < |cells| { assert CellOk(cells, k + 1); }
  }

  /** Cell `i` of a write that starts at column `col - i`. */
  function ImportCell(cells: seq<Cell>, col: nat, i: nat, ci: CharInfo): (r: seq<Cell>)
    requires col < |cells|
    ensures |r| == |cells|
  {
    var trailing := !ci.leading && ci.trailing;
    if ci.ch == 0 && !ci.leading && !trailing then cells
    else
      var cp := if HighSurrogate(ci.ch) then REPLACEMENT else if ci.ch == 0 then SPACE else ci.ch;
      if ci.leading && col + 1 < |cells| then
        Painted(Put(cells, col, [cp], 2, ci.attr), col + 1, col + 2, cells[col + 1].attr)
      else if trailing && i != 0 then
        Painted(cells, col, col + 1, ci.attr)
      else if trailing && col > 0 then
        Painted(Put(cells, col - 1, [cp], 2, cells[col - 1].attr), col, col + 1, ci.attr)
      else
        Put(cells, col, [if ci.leading || trailing then SPACE else cp], 1, ci.attr)
  }

  /** The first `n` cells of `src` written from `dstCol` on, as far as the row goes. */
  function Import(cells: seq<Cell>, src: seq<CharInfo>, dstCol: nat, n: nat): (r: seq<Cell>)
    requires n <= |src|
    ensures |r| == |cells|
  {
    if n == 0 then cells
    else
      var done := Import(cells, src, dstCol, n - 1);
      if |cells| < dstCol + n then done else ImportCell(done, dstCol + n - 1, n - 1, src[n - 1])
  }

  /**
    One record on its own: a character takes its column; a half mark takes the column beside it too, where there is one,
    which keeps its attribute; a high surrogate is replaced, and an unmarked zero writes nothing.
   */
  lemma ImportAlone(cells: seq<Cell>, col: nat, ci: CharInfo)
    requires RowOk(cells) && col < |cells|
    ensures var y := Import(cells, [ci], col, 1);
            var cp := if 0xD800 <= ci.ch <= 0xDBFF then 0xFFFD else if ci.ch == 0 then 0x20 else ci.ch;
            if ci.leading && col + 1 < |cells| then
              y[col] == Cell([cp], 0, 2, ci.attr) && y[col + 1] == Cell([cp], 1, 2, cells[col + 1].attr)
            else if !ci.leading && ci.trailing && col > 0 then
              y[col - 1] == Cell([cp], 0, 2, cells[col - 1].attr) && y[col] == Cell([cp], 1, 2, ci.attr)
            else if !ci.leading && !ci.trailing && ci.ch == 0 then y == cells
            else y[col] == Cell([if ci.leading || ci.trailing then 0x20 else cp], 0, 1, ci.attr)
  {
    assert Import(cells, [ci], col, 0) == cells;
  }

  lemma ImportStep(cells: seq<Cell>, src: seq<CharInfo>, dstCol: nat, i: nat)
    requires i < |src| && dstCol + i < |cells|
    ensures Import(cells, src, dstCol, i + 1) == ImportCell(Import(cells, src, dstCol, i), dstCol + i, i, src[i])
  {}

  /** Cells right of the row are dropped. */
  lemma {:induction false} ImportEnds(cells: seq<Cell>, src: seq<CharInfo>, dstCol: nat, i: nat, n: nat)
    requires i <= n <= |src| && (i == n || |cells| <= dstCol + i)
    ensures Import(cells, src, dstCol, i) == Import(cells, src, dstCol, n)
    decreases n
  {
    if i < n { ImportEnds(cells, src, dstCol, i, n - 1); }
  }

  lemma ImportCellOk(cells: seq<Cell>, col: nat, i: nat, ci: CharInfo)
    requires RowOk(cells) && col < |cells|
    ensures RowOk(ImportCell(cells, col, i, ci))
  {
    var trailing := !ci.leading && ci.trailing;
    var cp := if HighSurrogate(ci.ch) then REPLACEMENT else if ci.ch == 0 then SPACE else ci.ch;
    if ci.leading && col + 1 < |cells| {
      PutOk(cells, col, [cp], 2, ci.attr);
      PaintedOk(Put(cells, col, [cp], 2, ci.attr), col + 1, col + 2, cells[col + 1].attr);
    } else if trailing && i != 0 {
      PaintedOk(cells, col, col + 1, ci.attr);
    } else if trailing && col > 0 {
      PutOk(cells, col - 1, [cp], 2, cells[col - 1].attr);
      PaintedOk(Put(cells, col - 1, [cp], 2, cells[col - 1].attr), col, col + 1, ci.attr);
    } else {
      PutOk(cells, col, [if ci.leading || trailing then SPACE else cp], 1, ci.attr);
    }
  }

  lemma {:induction false} ImportOk(cells: seq<Cell>, src: seq<CharInfo>, dstCol: nat, n: nat)
    requires RowOk(cells) && n <= |src|
    ensures RowOk(Import(cells, src, dstCol, n))
  {
    if n > 0 {
      ImportOk(cells, src, dstCol, n - 1);
      if dstCol + n <= |cells| { ImportCellOk(Import(cells, src, dstCol, n - 1), dstCol + n - 1, n - 1, src[n - 1]); }
    }
  }

  // ---- Save, scribble, restore ----

  /** What a CHAR_INFO can carry: one code point of the basic plane, not NUL, not a high surrogate. */
  ghost predicate Exportable(cells: seq<Cell>) {
    forall k :: 0 <= k < |cells| ==>
      && |cells[k].glyph| == 1 && 1 <= cells[k].glyph[0] <= 0xFFFF && !HighSurrogate(cells[k].glyph[0])
      && cells[k].width <= 2
  }

  /** A write or attribute change inside some columns. */
  datatype Scribble = Write(lo: nat, run: seq<Cell>) | Paint(lo: nat, hi: nat, attr: Attr)

  ghost predicate Confined(s: Scribble, a: nat, b: nat) {
    match s
    case Write(lo, run) => a <= lo && lo + |run| <= b && run != [] && RowOk(run)
    case Paint(lo, hi, _) => a <= lo <= hi <= b
  }

  ghost function Scribbled(cells: seq<Cell>, ops: seq<Scribble>, a: nat, b: nat): (r: seq<Cell>)
    requires b <= |cells| && forall i :: 0 <= i < |ops| ==> Confined(ops[i], a, b)
    ensures |r| == |cells|
  {
    if ops == [] then cells
    else
      var n := |ops| - 1;
      var done := Scribbled(cells, ops[..n], a, b);
      assert Confined(ops[n], a, b);
      match ops[n]
      case Write(lo, run) => Splice(done, lo, run)
      case Paint(lo, hi, attr) => Painted(done, lo, hi, attr)
  }

  /** `x` differs from `r` only in [a, b) and in the halves of glyphs cut by its edges. */
  ghost predicate Outside(r: seq<Cell>, x: seq<Cell>, a: nat, b: nat) {
    && |x| == |r|
    && forall k :: 0 <= k < |r| && !(a <= k < b) ==>
         x[k] == r[k] || (Touches(r, k, a, b) && x[k] == Space(r[k].attr))
  }

  /** Writes confined to [a, b) leave every column outside it alone, except that a glyph cut by an edge is blanked. */
  lemma {:induction false} ScribbleFrame(r: seq<Cell>, ops: seq<Scribble>, a: nat, b: nat)
    requires RowOk(r) && b <= |r| && forall i :: 0 <= i < |ops| ==> Confined(ops[i], a, b)
    ensures RowOk(Scribbled(r, ops, a, b)) && Outside(r, Scribbled(r, ops, a, b), a, b)
  {
    if ops != [] {
      var n := |ops| - 1;
      ScribbleFrame(r, ops[..n], a, b);
      var x := Scribbled(r, ops[..n], a, b);
      assert Confined(ops[n], a, b);
      match ops[n]
      case Write(lo, run) => SpliceOk(x, lo, run);
      case Paint(lo, hi, attr) => PaintedOk(x, lo, hi, attr);
    }
  }

  /** After `n` restored columns of [a, b): everything left of them is back, a glyph reaching right of them too. */
  ghost predicate Restored(r: seq<Cell>, y: seq<Cell>, a: nat, b: nat, n: nat)
    requires a + n <= b <= |r|
  {
    && RowOk(y) && |y| == |r|
    && (forall k :: 0 <= k < a + n ==> y[k] == r[k])
    && (a + n < |r| && r[a + n].pos > 0 ==> y[a + n] == r[a + n].(attr := y[a + n].attr))
    && (forall k :: b <= k < |r| ==>
         y[k] == r[k] || (r[k].pos > 0 && Lead(r, k) < b && a + n < b && y[k] == Space(r[k].attr)))
  }

  /** Nothing left of a glyph's start reaches into it. */
  lemma EndsBefore(r: seq<Cell>, k: nat, c: nat)
    requires RowOk(r) && k < c < |r| && r[c].pos == 0
    ensures End(r, k) <= c
  {
    SpanBoundary(r, k);
    if End(r, k) > c {
      SpanShared(r, k, c);
    }
  }

  /** One imported cell restores its column and, with it, the other half of its glyph. */
  lemma RestoreStep(r: seq<Cell>, x: seq<Cell>, a: nat, b: nat, n: nat)
    requires RowOk(r) && RowOk(x) && Exportable(r) && a + n < b <= |r|
    requires if n == 0 then Outside(r, x, a, b) else Restored(r, x, a, b, n)
    ensures Restored(r, ImportCell(x, a + n, n, ExportCell(r, a + n)), a, b, n + 1)
  {
    var c := a + n;
    var y := ImportCell(x, c, n, ExportCell(r, c));
    ImportCellOk(x, c, n, ExportCell(r, c));
    SpanBoundary(r, c);
    forall k | 0 <= k < |r| && (k <= c || b <= k)
      ensures y[k] == r[k] ||
              (k > c && r[k].pos > 0 && Lead(r, k) < b && c + 1 < b && y[k] == Space(r[k].attr))
    {
      if k < c { RestoreLeft(r, x, a, b, n, k); }
      else if k == c { RestoreSelf(r, x, a, b, n); }
      else { RestoreRight(r, x, a, b, n, k); }
    }
    if c + 1 < |r| && r[c + 1].pos > 0 {
      RestoreHalf(r, x, a, b, n);
    }
  }

  lemma RestoreLeft(r: seq<Cell>, x: seq<Cell>, a: nat, b: nat, n: nat, k: nat)
    requires RowOk(r) && RowOk(x) && Exportable(r) && a + n < b <= |r|
    requires if n == 0 then Outside(r, x, a, b) else Restored(r, x, a, b, n)
    requires k < a + n
    ensures ImportCell(x, a + n, n, ExportCell(r, a + n))[k] == r[k]
  {
    var c := a + n;
    SpanBoundary(r, c);
    SpanBoundary(r, k);
    if r[c].pos > 0 {
      RestoreLeftOfTail(r, x, a, b, n, k);
    } else {
      if c + 1 < |r| { assert CellOk(r, c); }
      EndsBefore(r, k, c);
    }
  }

  lemma RestoreLeftOfTail(r: seq<Cell>, x: seq<Cell>, a: nat, b: nat, n: nat, k: nat)
    requires RowOk(r) && RowOk(x) && Exportable(r) && a + n < b <= |r|
    requires if n == 0 then Outside(r, x, a, b) else Restored(r, x, a, b, n)
    requires k < a + n && r[a + n].pos > 0
    ensures ImportCell(x, a + n, n, ExportCell(r, a + n))[k] == r[k]
  {
    var c := a + n;
    SpanBoundary(r, k);
    PreviousColumn(r, c);
    assert CellOk(r, c);
    if k < c - 1 { EndsBefore(r, k, c - 1); }
  }

  lemma RestoreSelf(r: seq<Cell>, x: seq<Cell>, a: nat, b: nat, n: nat)
    requires RowOk(r) && RowOk(x) && Exportable(r) && a + n < b <= |r|
    requires if n == 0 then Outside(r, x, a, b) else Restored(r, x, a, b, n)
    ensures ImportCell(x, a + n, n, ExportCell(r, a + n))[a + n] == r[a + n]
  {
    var c := a + n;
    SpanBoundary(r, c);
    assert CellOk(r, c);
    if r[c].pos > 0 { PreviousColumn(r, c); }
  }

  /** An import at `c` writes no column right of `c` unless the glyph saved there covers it. */
  lemma ImportReach(r: seq<Cell>, x: seq<Cell>, c: nat, n: nat, k: nat)
    requires RowOk(r) && RowOk(x) && Exportable(r) && |x| == |r| && c < k < |r|
    requires k == c + 1 ==> r[k].pos == 0
    requires k == c + 2 && x[k].pos > 0 ==> r[c + 1].pos == 0
    requires x[k].pos <= 1 && (k == c + 1 ==> x[k].pos == 0)
    ensures ImportCell(x, c, n, ExportCell(r, c))[k] == x[k]
  {
    assert CellOk(r, c);
    SpanBoundary(x, k);
    if r[c].pos > 0 { PreviousColumn(r, c); }
  }

  lemma RestoreRight(r: seq<Cell>, x: seq<Cell>, a: nat, b: nat, n: nat, k: nat)
    requires RowOk(r) && RowOk(x) && Exportable(r) && a + n < b <= k < |r|
    requires if n == 0 then Outside(r, x, a, b) else Restored(r, x, a, b, n)
    ensures var y := ImportCell(x, a + n, n, ExportCell(r, a + n));
            y[k] == r[k] || (r[k].pos > 0 && Lead(r, k) < b && a + n + 1 < b && y[k] == Space(r[k].attr))
  {
    var c := a + n;
    assert CellOk(r, k);
    if k == c + 1 && r[k].pos > 0 {
      RestoreHalf(r, x, a, b, n);
      PreviousColumn(r, k);
    } else {
      if r[k].pos > 0 { PreviousColumn(r, k); }
      ImportReach(r, x, c, n, k);
    }
  }

  lemma RestoreHalf(r: seq<Cell>, x: seq<Cell>, a: nat, b: nat, n: nat)
    requires RowOk(r) && RowOk(x) && Exportable(r) && a + n < b <= |r|
    requires if n == 0 then Outside(r, x, a, b) else Restored(r, x, a, b, n)
    requires a + n + 1 < |r| && r[a + n + 1].pos > 0
    ensures var y := ImportCell(x, a + n, n, ExportCell(r, a + n));
            y[a + n + 1] == r[a + n + 1].(attr := y[a + n + 1].attr)
  {
    PreviousColumn(r, a + n + 1);
    assert CellOk(r, a + n + 1);
  }

  lemma {:induction false} RestoreColumns(r: seq<Cell>, x: seq<Cell>, a: nat, b: nat, saved: seq<CharInfo>, n: nat)
    requires RowOk(r) && RowOk(x) && Exportable(r) && Outside(r, x, a, b)
    requires 1 <= n && a + n <= b <= |r| && |saved| == b - a
    requires forall i :: 0 <= i < b - a ==> saved[i] == ExportCell(r, a + i)
    ensures Restored(r, Import(x, saved, a, n), a, b, n)
  {
    var y := Import(x, saved, a, n - 1);
    if n == 1 {
      assert y == x;
    } else {
      RestoreColumns(r, x, a, b, saved, n - 1);
    }
    var z := Import(x, saved, a, n);
    assert z == ImportCell(y, a + n - 1, n - 1, saved[n - 1]) by { ImportStep(x, saved, a, n - 1); }
    RestoreNext(r, y, a, b, n - 1, saved[n - 1], z);
  }

  lemma RestoreNext(r: seq<Cell>, x: seq<Cell>, a: nat, b: nat, n: nat, ci: CharInfo, y: seq<Cell>)
    requires RowOk(r) && RowOk(x) && Exportable(r) && a + n < b <= |r|
    requires if n == 0 then Outside(r, x, a, b) else Restored(r, x, a, b, n)
    requires ci == ExportCell(r, a + n) && y == ImportCell(x, a + n, n, ci)
    ensures Restored(r, y, a, b, n + 1)
  {
    RestoreStep(r, x, a, b, n);
  }

  /**
    Save, scribble, restore: exporting columns [a, b), changing them in any way, and importing the saved
    cells gives the whole row back, glyphs cut by either edge and every attribute included.
   */
  lemma SaveScribbleRestore(r: seq<Cell>, a: nat, b: nat, ops: seq<Scribble>)
    requires RowOk(r) && Exportable(r) && a <= b <= |r|
    requires forall i :: 0 <= i < |ops| ==> Confined(ops[i], a, b)
    ensures Import(Scribbled(r, ops, a, b), Export(r)[a..b], a, b - a) == r
  {
    if a == b {
      NothingScribbled(r, ops, a);
    } else {
      ScribbleFrame(r, ops, a, b);
      RestoreRow(r, Scribbled(r, ops, a, b), a, b, Export(r)[a..b]);
    }
  }

  lemma {:induction false} NothingScribbled(r: seq<Cell>, ops: seq<Scribble>, a: nat)
    requires a <= |r| && forall i :: 0 <= i < |ops| ==> Confined(ops[i], a, a)
    ensures Scribbled(r, ops, a, a) == r
  {
    if ops != [] {
      NothingScribbled(r, ops[..|ops| - 1], a);
      assert Confined(ops[|ops| - 1], a, a);
    }
  }

  lemma RestoreRow(r: seq<Cell>, x: seq<Cell>, a: nat, b: nat, saved: seq<CharInfo>)
    requires RowOk(r) && RowOk(x) && Exportable(r) && a < b <= |r| && Outside(r, x, a, b)
    requires |saved| == b - a && forall i :: 0 <= i < b - a ==> saved[i] == ExportCell(r, a + i)
    ensures Import(x, saved, a, b - a) == r
  {
    hide RowOk, Exportable, Outside, Import, ExportCell;
    RestoreColumns(r, x, a, b, saved, b - a);
    assert forall k :: 0 <= k < |r| ==> Import(x, saved, a, b - a)[k] == r[k];
  }
}
