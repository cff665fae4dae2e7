/** Measured runs and rows of one code point a column, as text, offsets and trailing bits store them. */
module RunLayouts {
  import opened Cells
  import opened Encoding

  /** One code point a column: the column map is the identity and need not be read. */
  ghost predicate OnePerColumn(cells: seq<Cell>) {
    forall k :: 0 <= k < |cells| ==> cells[k].pos == 0 && cells[k].width == 1 && |cells[k].glyph| == 1
  }

  lemma OnePerColumnOk(cells: seq<Cell>)
    requires OnePerColumn(cells)
    ensures RowOk(cells)
  {
    forall k | 0 <= k < |cells| ensures CellOk(cells, k) {}
  }

  lemma {:induction false} OnePerColumnText(cells: seq<Cell>)
    requires OnePerColumn(cells)
    ensures |Flat(cells)| == Demand(cells) == |cells|
    ensures forall k :: 0 <= k < |cells| ==> Flat(cells)[k] == cells[k].glyph[0]
  {
    if cells != [] { OnePerColumnText(cells[..|cells| - 1]); }
  }

  lemma OnePerColumnWord(cells: seq<Cell>, k: nat)
    requires OnePerColumn(cells) && k <= |cells|
    ensures Offset(cells, k) == k == Word(cells, k) && Boundary(cells, k)
  {
    OnePerColumnText(cells[..k]);
  }

  /** The glyph that starts a measured run's i-th step, in the run's own words. */
  lemma RunWord(text: seq<Char32>, widths: seq<nat>, attr: Attr, i: nat, k: nat)
    requires |text| == |widths| && Positive(widths) && i < |text|
    requires k < Total(widths[..i + 1])
    ensures var n := Total(widths[..i]);
            var r := Run(text[..i + 1], widths[..i + 1], attr);
            Total(widths[..i + 1]) == n + widths[i] &&
            0 <= Lead(r, k) &&
            (k < n ==> 0 <= Lead(Run(text[..i], widths[..i], attr), k) &&
                       Word(r, k) == Word(Run(text[..i], widths[..i], attr), k)) &&
            (n <= k ==> Word(r, k) == i + if k == n then 0 else TRAILING_FLAG)
  {
    var a := Run(text[..i], widths[..i], attr);
    var g := Glyph([text[i]], widths[i], attr);
    assert text[..i + 1][..i] == text[..i] && widths[..i + 1][..i] == widths[..i];
    var r := a + g;
    RunOk(text[..i], widths[..i], attr);
    FlatRun(text[..i], widths[..i], attr);
    if k < |a| {
      SpanBoundary(a, k);
      assert r[..Lead(a, k)] == a[..Lead(a, k)];
    } else {
      assert r[..|a|] == a;
    }
  }

  /** The words of code point `i` of a run. */
  lemma {:induction false} RunWordAt(text: seq<Char32>, widths: seq<nat>, attr: Attr, i: nat, k: nat, m: nat)
    requires |text| == |widths| && Positive(widths) && i < m <= |text|
    requires Total(widths[..i]) <= k < Total(widths[..i + 1])
    ensures var r := Run(text[..m], widths[..m], attr);
            k < |r| && 0 <= Lead(r, k) && Word(r, k) == i + if k == Total(widths[..i]) then 0 else TRAILING_FLAG
  {
    hide Glyph, Flat;
    if m == i + 1 {
      RunWord(text, widths, attr, i, k);
    } else {
      RunWordAt(text, widths, attr, i, k, m - 1);
      assert widths[..m][..m - 1] == widths[..m - 1];
      RunWord(text, widths, attr, m - 1, k);
    }
  }

  lemma RunPrefix(text: seq<Char32>, widths: seq<nat>, i: nat)
    requires |text| == |widths| && i <= |text|
    ensures Total(widths[..i]) <= Total(widths)
    decreases |text| - i
  {
    if i < |text| {
      assert widths[..i + 1][..i] == widths[..i];
      RunPrefix(text, widths, i + 1);
    } else {
      assert widths[..i] == widths;
    }
  }

  lemma {:induction false} TotalOnes(n: nat)
    ensures Total(Ones(n)) == n
  {
    if n > 0 {
      TotalOnes(n - 1);
      assert Ones(n)[..n - 1] == Ones(n - 1);
    }
  }

  /** A run of width-1 code points: one code point a column. */
  function SingleRun(text: seq<Char32>, attr: Attr): (r: seq<Cell>)
    ensures |r| == |text|
  {
    seq(|text|, k requires 0 <= k < |text| => Cell([text[k]], 0, 1, attr))
  }

  lemma {:induction false} RunOfOnes(text: seq<Char32>, attr: Attr)
    ensures Run(text, Ones(|text|), attr) == SingleRun(text, attr)
  {
    if text != [] {
      var n := |text| - 1;
      RunOfOnes(text[..n], attr);
      assert Ones(|text|)[..n] == Ones(n);
      var r := SingleRun(text[..n], attr) + Glyph([text[n]], 1, attr);
      assert r == SingleRun(text, attr);
    }
  }

  lemma SingleRunOk(text: seq<Char32>, attr: Attr)
    ensures var r := SingleRun(text, attr);
            RowOk(r) && OnePerColumn(r) && Flat(r) == text && Demand(r) == |r|
  {
    var r := SingleRun(text, attr);
    OnePerColumnOk(r);
    OnePerColumnText(r);
  }

  /** A run of single code points fits wherever the row fitted. */
  lemma RunFits(cells: seq<Cell>, col: nat, text: seq<Char32>, widths: seq<nat>, attr: Attr)
    requires RowOk(cells) && TextFits(cells)
    requires text != [] && |text| == |widths| && Positive(widths) && col + Total(widths) <= |cells|
    ensures Run(text, widths, attr) != [] && RowOk(Run(text, widths, attr))
    ensures TextFits(Splice(cells, col, Run(text, widths, attr)))
  {
    RunOk(text, widths, attr);
    DemandRun(text, widths, attr);
    assert Run(text, widths, attr) != [] by { FlatRun(text, widths, attr); }
    SpliceDemand(cells, col, Run(text, widths, attr));
  }

  /** The widths a measured run is laid out with. */
  function Widths(text: seq<Char32>, widths: seq<nat>, allSingleWidth: bool): seq<nat> {
    if allSingleWidth then Ones(|text|) else widths
  }

  // ---- Runs in the stored form ----

  lemma {:induction false} SameDemand(a: seq<Cell>, b: seq<Cell>)
    requires |a| == |b|
    requires forall k :: 0 <= k < |a| ==> b[k] == a[k].(attr := b[k].attr)
    ensures Demand(a) == Demand(b)
    decreases |a|
  {
    if a != [] { SameDemand(a[..|a| - 1], b[..|b| - 1]); }
  }

  lemma LaidOutStep(col: nat, base: nat, run: seq<Char32>, widths: seq<nat>, attr: Attr, i: nat,
                    before: seq<nat>, words: seq<nat>)
    requires |run| == |widths| && Positive(widths) && i < |run| && |before| == |words|
    requires LaidOut(col, base, Run(run[..i], widths[..i], attr), before)
    requires var cell := col + Total(widths[..i]);
             forall k :: 0 <= k < |words| ==>
               words[k] == if cell <= k < cell + widths[i]
                           then (base + i + if k == cell then 0 else TRAILING_FLAG) else before[k]
    ensures LaidOut(col, base, Run(run[..i + 1], widths[..i + 1], attr), words)
  {
    var r := Run(run[..i + 1], widths[..i + 1], attr);
    forall k | col <= k < col + |r| && k < |words|
      ensures WordLaidOut(col, base, r, words, k)
    {
      var a := Run(run[..i], widths[..i], attr);
      RunWord(run, widths, attr, i, k - col);
      if k < col + |a| {
        assert WordLaidOut(col, base, a, before, k);
      }
    }
  }

  lemma SingleGlyph(glyph: seq<Char32>, attr: Attr)
    requires |glyph| == 1
    ensures var g := Glyph(glyph, 1, attr);
            RowOk(g) && OnePerColumn(g) && Flat(g) == glyph && Demand(g) == 1 && Word(g, 0) == 0
  {
    var g := Glyph(glyph, 1, attr);
    GlyphOk(glyph, 1, attr);
    FlatGlyph(glyph, 1, attr);
    OnePerColumnText(g);
    OnePerColumnWord(g, 0);
  }

  lemma SimpleReplaced(was: seq<Cell>, col: nat, r: seq<Cell>, oldText: seq<Char32>, newText: seq<Char32>, words: seq<nat>)
    requires OnePerColumn(was) && oldText == Flat(was) && RowOk(r) && col + |r| <= |was|
    requires |oldText| == |was| && newText == oldText[..col] + Flat(r) + oldText[col + |r|..]
    requires |words| == |was| + 1 && LaidOut(col, col, r, words)
    requires forall k :: 0 <= k < col ==> words[k] == k
    requires forall k :: col + |r| <= k < |words| ==> words[k] == k + |Flat(r)| - |r|
    ensures RowOk(Replaced(was, col, r)) && Encodes(newText, words, Replaced(was, col, r))
  {
    hide Demand, Flat;
    var iota := seq(|was| + 1, k => k);
    assert Encodes(oldText, iota, was) by { SimpleRowEncoded(was, iota); }
    assert RowOk(was) by { OnePerColumnOk(was); }
    assert Offset(was, col) == col by { OnePerColumnWord(was, col); }
    assert Offset(was, col + |r|) == col + |r| by { OnePerColumnWord(was, col + |r|); }
    ReplacedEncodes(was, col, r, oldText, iota, newText, words);
  }

  lemma SimpleRowEncoded(c: seq<Cell>, iota: seq<nat>)
    requires OnePerColumn(c) && |iota| == |c| + 1 && forall k :: 0 <= k < |iota| ==> iota[k] == k
    ensures Encodes(Flat(c), iota, c)
  {
    forall k | 0 <= k <= |c| ensures WordOk(c, iota, k) { OnePerColumnWord(c, k); }
  }

  lemma NothingLaidOut(col: nat, start: nat, words: seq<nat>)
    ensures LaidOut(col, start, [], words)
  {}

  /** What the words of a run in place are. */
  lemma LaidOutWord(col: nat, start: nat, run: seq<Char32>, widths: seq<nat>, attr: Attr, i: nat, k: nat, words: seq<nat>)
    requires |run| == |widths| && Positive(widths) && i < |run| && LaidOut(col, start, Run(run, widths, attr), words)
    requires Total(widths[..i]) <= k < Total(widths[..i + 1]) && col + k < |words|
    ensures words[col + k] == start + i + (if k == Total(widths[..i]) then 0 else TRAILING_FLAG)
  {
    RunWordAt(run, widths, attr, i, k, |run|);
    assert run[..|run|] == run && widths[..|run|] == widths;
    assert WordLaidOut(col, start, Run(run, widths, attr), words, col + k);
  }

  lemma GlyphNotLaidOut(col: nat, start: nat, run: seq<Char32>, widths: seq<nat>, attr: Attr, i: nat, cell: nat,
                        k: nat, words: seq<nat>)
    requires |run| == |widths| && Positive(widths) && i < |run| && cell == col + Total(widths[..i])
    requires cell <= k < cell + widths[i] && k < |words|
    requires words[k] != start + i + (if k == cell then 0 else TRAILING_FLAG)
    ensures !LaidOut(col, start, Run(run, widths, attr), words)
  {
    assert widths[..i + 1][..i] == widths[..i];
    if LaidOut(col, start, Run(run, widths, attr), words) {
      LaidOutWord(col, start, run, widths, attr, i, k - col, words);
      assert false;
    }
  }

  lemma MatchedStep(col: nat, base: nat, run: seq<Char32>, widths: seq<nat>, attr: Attr, i: nat, words: seq<nat>)
    requires |run| == |widths| && i < |run| && Positive(widths[..i]) && widths[i] > 0
    requires LaidOut(col, base, Run(run[..i], widths[..i], attr), words)
    requires var cell := col + Total(widths[..i]);
             cell + widths[i] <= |words| &&
             forall k :: cell <= k < cell + widths[i] ==>
               words[k] == base + i + if k == cell then 0 else TRAILING_FLAG
    ensures Positive(widths[..i + 1]) && Total(widths[..i + 1]) == Total(widths[..i]) + widths[i]
    ensures LaidOut(col, base, Run(run[..i + 1], widths[..i + 1], attr), words)
  {
    var a, b := run[..i + 1], widths[..i + 1];
    assert a[..i] == run[..i] && b[..i] == widths[..i] && a[..i + 1] == a && b[..i + 1] == b;
    assert Positive(b);
    LaidOutStep(col, base, a, b, attr, i, words, words);
  }

  lemma FullRowEncodes(run: seq<Char32>, widths: seq<nat>, attr: Attr, words: seq<nat>)
    requires |run| == |widths| && Positive(widths) && Total(widths) <= OFFSET_MASK
    requires |words| == Total(widths) + 1 && words[Total(widths)] == |run|
    requires LaidOut(0, 0, Run(run, widths, attr), words)
    ensures Encodes(run, words, Run(run, widths, attr)) && TextFits(Run(run, widths, attr))
  {
    var r := Run(run, widths, attr);
    DemandRun(run, widths, attr);
    FlatRun(run, widths, attr);
    forall k | 0 <= k <= |r| ensures WordOk(r, words, k) {
      if k < |r| { assert WordLaidOut(0, 0, r, words, k); }
      else { assert r[..|r|] == r; }
    }
  }
}
