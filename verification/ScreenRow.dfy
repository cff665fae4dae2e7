/**
  The stored screen row and its writers. A row is in one of three representations (one fill character,
  one code point a column, or code points plus a column map) and its attributes in one of two; `cells`
  is the abstract row all of them mean.
 */
module ScreenRows {
  import opened Cells
  import opened Encoding
  import opened RowCopy
  import opened CharInfos
  import opened RunLayouts

  class ScreenRow {
    var text: seq<Char32>
    var columns: seq<nat>
    var attrs: seq<Attr>
    var singleWidthLayout: bool
    var filled: bool
    var fillChar: Char32
    var fillAttr: Attr
    var attrsUniform: bool
    var uniformAttr: Attr

    ghost var cells: seq<Cell>

    /** The glyph part of the representation stores `c`. */
    ghost predicate Stores(c: seq<Cell>)
      reads this
    {
      && |columns| == |c| + 1
      && |attrs| == |c| <= OFFSET_MASK
      && (if filled then
            && singleWidthLayout && attrsUniform && uniformAttr == fillAttr
            && forall k :: 0 <= k < |c| ==> c[k].glyph == [fillChar] && c[k].pos == 0 && c[k].width == 1
          else if singleWidthLayout then
            && |text| == |c|
            && forall k :: 0 <= k < |c| ==> c[k].glyph == [text[k]] && c[k].pos == 0 && c[k].width == 1
          else
            && RowOk(c)
            && TextFits(c)
            && Encodes(text, columns, c))
    }

    ghost predicate StoresAttrs(c: seq<Cell>)
      requires |attrs| == |c|
      reads this
    {
      forall k :: 0 <= k < |c| ==> c[k].attr == if attrsUniform then uniformAttr else attrs[k]
    }

    ghost predicate Valid()
      reads this
    {
      Stores(cells) && StoresAttrs(cells)
    }

    /** The abstract row is a partition into whole glyphs whose offsets fit, in every representation. */
    lemma ValidRow()
      requires Valid()
      ensures RowOk(cells) && TextFits(cells)
      ensures !filled ==> text == Flat(cells)
      ensures singleWidthLayout ==> OnePerColumn(cells)
    {
      if singleWidthLayout {
        assert OnePerColumn(cells);
        OnePerColumnOk(cells);
        OnePerColumnText(cells);
        if !filled {
          forall k | 0 <= k < |text| ensures text[k] == Flat(cells)[k] {
            assert cells[k].glyph == [text[k]];
          }
        }
      }
    }

    constructor (width: nat, defaultAttr: Attr)
      requires width <= OFFSET_MASK
      ensures Valid() && cells == Uniform(width, SPACE, defaultAttr)
    {
      text := [];
      columns := seq(width + 1, _ => 0);
      attrs := seq(width, _ => defaultAttr);
      singleWidthLayout, filled, attrsUniform := true, true, true;
      fillChar, fillAttr, uniformAttr := SPACE, defaultAttr, defaultAttr;
      cells := Uniform(width, SPACE, defaultAttr);
    }

    /** A copy of a row, representation and all. */
    constructor CopyOf(src: ScreenRow)
      requires src.Valid()
      ensures Valid() && cells == src.cells
    {
      text, columns, attrs := src.text, src.columns, src.attrs;
      singleWidthLayout, filled, attrsUniform := src.singleWidthLayout, src.filled, src.attrsUniform;
      fillChar, fillAttr, uniformAttr := src.fillChar, src.fillAttr, src.uniformAttr;
      cells := src.cells;
    }

    /** Makes the row `width` equal columns without writing any text. */
    method ResetFill(width: nat, ch: Char32, attr: Attr)
      requires width <= OFFSET_MASK
      modifies this
      ensures Valid() && cells == Uniform(width, ch, attr)
    {
      columns := seq(width + 1, _ => 0);
      attrs := seq(width, _ => attr);
      fillChar, fillAttr := ch, attr;
      filled, singleWidthLayout := true, true;
      attrsUniform, uniformAttr := true, attr;
      cells := Uniform(width, ch, attr);
    }

    // ---- Readers ----

    function Width(): nat
      reads this
    {
      if columns == [] then 0 else |columns| - 1
    }

    function ColOffset(col: nat): nat
      reads this
    {
      if filled || singleWidthLayout then (if col <= Width() then col else 0)
      else if col < |columns| then OffsetOf(columns[col]) else 0
    }

    predicate TrailingAt(col: nat)
      reads this
    {
      !filled && !singleWidthLayout && col < |columns| && IsTrailing(columns[col])
    }

    /** In every representation the readers see the abstract row. */
    lemma ReadsCells(col: nat)
      requires Valid() && col <= |cells|
      ensures RowOk(cells) && 0 <= Lead(cells, col)
      ensures ColOffset(col) == Offset(cells, col)
      ensures TrailingAt(col) <==> !Boundary(cells, col)
    {
      ValidRow();
      if col < |cells| { SpanBoundary(cells, col); }
      if singleWidthLayout {
        OnePerColumnWord(cells, col);
      } else {
        assert WordOk(cells, columns, col);
        WordBits(cells, col);
      }
    }

    method SpanLead(col: nat) returns (lead: nat)
      requires Valid() && col < |cells|
      ensures lead == Lead(cells, col)
    {
      ValidRow();
      SpanBoundary(cells, col);
      lead := col;
      while lead > 0 && TrailingAt(lead)
        invariant Lead(cells, col) <= lead <= col
      {
        ReadsCells(lead);
        lead := lead - 1;
      }
      ReadsCells(lead);
      if lead > Lead(cells, col) {
        SpanBackward(cells, col, col - lead);
        assert false;
      }
    }

    method SpanEnd(col: nat) returns (end: nat)
      requires Valid() && col < |cells|
      ensures end == End(cells, col)
    {
      ValidRow();
      SpanBoundary(cells, col);
      end := col + 1;
      while end < Width() && TrailingAt(end)
        invariant col < end <= End(cells, col)
      {
        ReadsCells(end);
        end := end + 1;
      }
      ReadsCells(end);
      if end < End(cells, col) {
        SpanForward(cells, col, end - col);
        assert false;
      }
    }

    /** The whole glyph at a column, from either of its columns. */
    method GlyphAt(col: nat) returns (glyph: seq<Char32>)
      requires Valid()
      ensures glyph == if col < |cells| then cells[col].glyph else []
    {
      if col >= Width() { return []; }
      ValidRow();
      if filled { return [fillChar]; }
      if singleWidthLayout {
        return if col < |text| then [text[col]] else [];
      }
      var start := ColOffset(col);
      var endCol := SpanEnd(col);
      SpanBoundary(cells, col);
      ReadsCells(col);
      ReadsCells(endCol);
      GlyphSlice(cells, col);
      var end := ColOffset(endCol);
      if end > |text| { end := |text|; }
      if start >= end { return []; }
      glyph := text[start..end];
    }

    /** Columns of the glyph that starts at `col`; 0 for a trailing column or one outside the row. */
    method GlyphWidth(col: nat) returns (w: nat)
      requires Valid()
      ensures w == if col < |cells| && cells[col].pos == 0 then cells[col].width else 0
    {
      if col >= Width() { return 0; }
      ValidRow();
      if filled || singleWidthLayout { return 1; }
      ReadsCells(col);
      if TrailingAt(col) { return 0; }
      var end := SpanEnd(col);
      w := end - col;
    }

    function AttrAt(col: nat): Attr
      reads this
    {
      if attrsUniform && col < Width() then uniformAttr
      else if col < |attrs| then attrs[col] else 0x07
    }

    lemma AttrAtIs(col: nat)
      requires Valid() && col < |cells|
      ensures AttrAt(col) == cells[col].attr
    {}

    // ---- Changing representation ----

    method MaterializeFilled()
      requires Valid()
      modifies this
      ensures Valid() && !filled && cells == old(cells)
      ensures singleWidthLayout == old(singleWidthLayout)
    {
      if !filled { return; }
      var ch := fillChar;
      text := seq(Width(), _ => ch);
      attrsUniform, uniformAttr := true, fillAttr;
      filled, singleWidthLayout := false, true;
    }

    method MaterializeColumnsFromSingleWidthLayout()
      requires Valid() && !filled
      modifies this
      ensures Valid() && !filled && !singleWidthLayout && cells == old(cells)
    {
      if !singleWidthLayout { return; }
      ValidRow();
      OnePerColumnText(cells);
      columns := seq(|columns|, k => k);
      forall k | 0 <= k <= |cells| ensures WordOk(cells, columns, k) {
        OnePerColumnWord(cells, k);
      }
      singleWidthLayout := false;
    }

    /** `c` is the row whose attributes are stored; it may be ahead of `cells` while a write is under way. */
    method MaterializeAttrs(ghost c: seq<Cell>)
      requires |attrs| == |c| && StoresAttrs(c)
      modifies this`attrs, this`attrsUniform
      ensures |attrs| == |c| && StoresAttrs(c) && !attrsUniform
    {
      if !attrsUniform { return; }
      var a := uniformAttr;
      attrs := seq(|attrs|, _ => a);
      attrsUniform := false;
    }

    // ---- Attributes ----

    method SetAttr(col: nat, a: Attr)
      requires Valid()
      modifies this
      ensures Valid() && cells == Painted(old(cells), col, col + 1, a)
      ensures !filled
    {
      MaterializeFilled();
      SetStoredAttr(col, a, cells);
      Repaint(col, col + 1, a);
    }

    method SetStoredAttr(col: nat, a: Attr, ghost c: seq<Cell>)
      requires |attrs| == |c| && StoresAttrs(c)
      modifies this`attrs, this`attrsUniform
      ensures |attrs| == |c| && StoresAttrs(Painted(c, col, col + 1, a))
    {
      MaterializeAttrs(c);
      if col < |attrs| { attrs := attrs[col := a]; }
    }

    ghost method Repaint(start: nat, end: nat, a: Attr)
      requires Stores(cells) && StoresAttrs(Painted(cells, start, end, a))
      modifies this`cells
      ensures Valid() && cells == Painted(old(cells), start, end, a)
    {
      SameShape(cells, Painted(cells, start, end, a));
      cells := Painted(cells, start, end, a);
    }

    /** The stored glyphs do not depend on attributes. */
    lemma SameShape(a: seq<Cell>, b: seq<Cell>)
      requires Stores(a) && |a| == |b|
      requires forall k :: 0 <= k < |a| ==> b[k] == a[k].(attr := b[k].attr)
      ensures Stores(b)
    {
      if !filled && !singleWidthLayout {
        SameGlyphsOk(a, b);
        FlatSameShape(a, b);
        SameDemand(a, b);
        forall k | 0 <= k <= |b| ensures WordOk(b, columns, k) {
          assert WordOk(a, columns, k);
          FlatSameShape(a[..Lead(a, k)], b[..Lead(b, k)]);
        }
      }
    }

    method FillAttrs(start: nat, endExcl: nat, a: Attr)
      requires Valid()
      modifies this
      ensures Valid() && cells == Painted(old(cells), start, endExcl, a)
    {
      MaterializeFilled();
      WriteAttrs(start, endExcl, a, false, cells);
      Repaint(start, endExcl, a);
    }

    method WriteAttrRange(start: nat, endExcl: nat, a: Attr, ghost c: seq<Cell>)
      requires |attrs| == |columns| - 1 == |c| && StoresAttrs(c)
      modifies this`attrs, this`attrsUniform, this`uniformAttr
      ensures |attrs| == |c| && StoresAttrs(Painted(c, start, endExcl, a))
    {
      WriteAttrs(start, endExcl, a, true, c);
    }

    /** Both attribute writers: only the range write skips a range that already has the uniform attribute. */
    method WriteAttrs(start: nat, endExcl: nat, a: Attr, skipUniform: bool, ghost c: seq<Cell>)
      requires |attrs| == |columns| - 1 == |c| && StoresAttrs(c)
      modifies this`attrs, this`attrsUniform, this`uniformAttr
      ensures |attrs| == |c| && StoresAttrs(Painted(c, start, endExcl, a))
    {
      if start == 0 && endExcl >= Width() {
        attrsUniform, uniformAttr := true, a;
        return;
      }
      if skipUniform && attrsUniform && a == uniformAttr { return; }
      MaterializeAttrs(c);
      if start >= |attrs| { return; }
      var end := if endExcl < |attrs| then endExcl else |attrs|;
      if start < end {
        attrs := attrs[..start] + seq(end - start, _ => a) + attrs[end..];
      }
    }

    // ---- Moving and cutting glyphs ----

    /** Moves the offsets of the columns from `from` on (trailing words and the past-the-end word included). */
    method ShiftColumnsFrom(from: nat, delta: int)
      requires |columns| > 0
      requires forall k :: from <= k < |columns| ==>
                 columns[k] < 2 * TRAILING_FLAG && 0 <= OffsetOf(columns[k]) + delta <= OFFSET_MASK
      modifies this`columns
      ensures |columns| == old(|columns|)
      ensures forall k :: 0 <= k < |columns| ==>
                columns[k] == old(columns)[k] + if from <= k then delta else 0
    {
      var c := from;
      while c <= Width()
        invariant |columns| == old(|columns|)
        invariant from <= c && (from <= |columns| ==> c <= |columns|)
        invariant forall k :: 0 <= k < |columns| ==>
                    columns[k] == old(columns)[k] + if from <= k < c then delta else 0
      {
        var off := columns[c];
        columns := columns[c := (if IsTrailing(off) then TRAILING_FLAG else 0) + OffsetOf(off) + delta];
        c := c + 1;
      }
    }

    /** The words of a stored row survive a shift that keeps the text within the offset bits. */
    lemma ShiftInRange(was: seq<Cell>, lo: nat, run: seq<Cell>, k: nat)
      requires RowOk(was) && RowOk(run) && lo + |run| <= k <= |was|
      requires Boundary(was, lo) && Boundary(was, lo + |run|)
      requires TextFits(was) && TextFits(Replaced(was, lo, run))
      ensures 0 <= Lead(was, k) && Word(was, k) < 2 * TRAILING_FLAG
      ensures 0 <= OffsetOf(Word(was, k)) + |Flat(run)| - (Offset(was, lo + |run|) - Offset(was, lo)) <= OFFSET_MASK
    {
      WordBits(was, k);
      DemandBoundsText(was);
      OffsetAfter(was, lo, run, k);
      ReplacedOk(was, lo, run);
      ReplacedLead(was, lo, run, k);
      WordBits(Replaced(was, lo, run), k);
      DemandBoundsText(Replaced(was, lo, run));
    }

    /** Replaces the text of whole glyphs in columns [lo, hi) and moves the offsets after them. */
    method ReplaceText(lo: nat, hi: nat, newText: seq<Char32>, ghost run: seq<Cell>)
      requires Valid() && !filled && !singleWidthLayout
      requires lo + |run| == hi <= |cells| && Boundary(cells, lo) && Boundary(cells, hi)
      requires RowOk(run) && Flat(run) == newText && TextFits(Replaced(cells, lo, run))
      modifies this`text, this`columns
      ensures |columns| == old(|columns|)
      ensures var s := Offset(cells, lo); var e := Offset(cells, hi);
              s <= e <= old(|text|) && text == old(text)[..s] + newText + old(text)[e..] &&
              forall k :: 0 <= k < |columns| ==>
                columns[k] == old(columns)[k] + if hi <= k then |newText| - (e - s) else 0
    {
      ValidRow();
      ReadsCells(lo);
      ReadsCells(hi);
      OffsetsMonotone(cells, lo, hi);
      OffsetsMonotone(cells, hi, |cells|);
      var start, stop := ColOffset(lo), ColOffset(hi);
      var delta := |newText| - (stop - start);
      forall k | hi <= k < |columns|
        ensures columns[k] < 2 * TRAILING_FLAG && 0 <= OffsetOf(columns[k]) + delta <= OFFSET_MASK
      {
        assert WordOk(cells, columns, k);
        ShiftInRange(cells, lo, run, k);
      }
      text := text[..start] + newText + text[stop..];
      ShiftColumnsFrom(hi, delta);
    }

    /** Turns the glyph cut at `col`, if any, into one space per column. */
    method BlankGlyphCutAt(col: nat)
      requires Valid() && !filled && !singleWidthLayout && col <= |cells|
      modifies this`text, this`columns, this`cells
      ensures Valid() && cells == Splice(old(cells), col, [])
    {
      BlankCut(cells, col);
      ReadsCells(col);
      if col >= Width() || !TrailingAt(col) { return; }
      BlankReplaces(cells, col);
      BlankDemand(cells, col);
      var lead := SpanLead(col);
      var end := SpanEnd(col);
      SpanBoundary(cells, col);
      BlankSpan(lead, end);
    }

    method BlankSpan(lead: nat, end: nat)
      requires Valid() && !filled && !singleWidthLayout
      requires lead <= end <= |cells| && Boundary(cells, lead) && Boundary(cells, end)
      requires TextFits(Replaced(cells, lead, Spaces(cells[lead..end])))
      modifies this`text, this`columns, this`cells
      ensures Valid() && cells == Replaced(old(cells), lead, Spaces(old(cells)[lead..end]))
    {
      ReplaceBySpaces(lead, end, Spaces(cells[lead..end]));
      TakeSpaces(lead, end);
    }

    method ReplaceBySpaces(lead: nat, end: nat, ghost run: seq<Cell>)
      requires Valid() && !filled && !singleWidthLayout
      requires lead <= end <= |cells| && Boundary(cells, lead) && Boundary(cells, end)
      requires run == Spaces(cells[lead..end]) && TextFits(Replaced(cells, lead, run))
      modifies this`text, this`columns
      ensures Stores(Replaced(cells, lead, run))
    {
      hide Demand, Flat, CellOk;
      ghost var oldText, oldColumns := text, columns;
      SpacesOk(cells[lead..end]);
      SpacesText(cells[lead..end]);
      ReadsCells(lead);
      var start := ColOffset(lead);
      var spaces := seq(end - lead, _ => SPACE);
      assert spaces == Flat(run);
      ReplaceText(lead, end, spaces, run);
      LayOutSpaces(lead, end, start);
      forall k | lead <= k < end ensures WordLaidOut(lead, start, run, columns, k) {
        SpacesWord(cells[lead..end], k - lead);
      }
      ReplacedEncodes(cells, lead, run, oldText, oldColumns, text, columns);
    }

    ghost method TakeSpaces(lead: nat, end: nat)
      requires lead <= end <= |cells| == |attrs| && StoresAttrs(cells)
      requires Stores(Replaced(cells, lead, Spaces(cells[lead..end])))
      modifies this`cells
      ensures Valid() && cells == Replaced(old(cells), lead, Spaces(old(cells)[lead..end]))
    {
      cells := Replaced(cells, lead, Spaces(cells[lead..end]));
    }

    method LayOutSpaces(lead: nat, end: nat, start: nat)
      requires lead <= end <= |columns|
      modifies this`columns
      ensures |columns| == old(|columns|)
      ensures forall k :: 0 <= k < |columns| ==>
                columns[k] == if lead <= k < end then start + (k - lead) else old(columns)[k]
    {
      var c := lead;
      while c != end
        invariant lead <= c <= end && |columns| == old(|columns|)
        invariant forall k :: 0 <= k < |columns| ==>
                    columns[k] == if lead <= k < c then start + (k - lead) else old(columns)[k]
      {
        columns := columns[c := start + (c - lead)];
        c := c + 1;
      }
    }

    /** Writes the words of one glyph: a leading word and its trailing words. */
    method LayOutGlyph(cell: nat, offset: nat, width: nat)
      requires 1 <= width && cell + width <= |columns|
      modifies this`columns
      ensures |columns| == old(|columns|)
      ensures forall k :: 0 <= k < |columns| ==>
                columns[k] == if cell <= k < cell + width
                              then (offset + if k == cell then 0 else TRAILING_FLAG) else old(columns)[k]
    {
      columns := columns[cell := offset];
      var w := 1;
      while w < width
        invariant 1 <= w <= width && |columns| == old(|columns|)
        invariant forall k :: 0 <= k < |columns| ==>
                    columns[k] == if cell <= k < cell + w
                                  then (offset + if k == cell then 0 else TRAILING_FLAG) else old(columns)[k]
      {
        columns := columns[cell + w := offset + TRAILING_FLAG];
        w := w + 1;
      }
    }

    /** Writes the words of a measured run: a leading word per code point, trailing words for its other columns. */
    method LayOut(col: nat, base: nat, run: seq<Char32>, widths: seq<nat>, ghost attr: Attr)
      requires |run| == |widths| && Positive(widths)
      requires col + Total(widths) <= |columns|
      modifies this`columns
      ensures |columns| == old(|columns|)
      ensures forall k :: 0 <= k < |columns| && !(col <= k < col + Total(widths)) ==> columns[k] == old(columns)[k]
      ensures LaidOut(col, base, Run(run, widths, attr), columns)
    {
      var cell, offset := col, base;
      var i := 0;
      while i != |run|
        invariant 0 <= i <= |run| && offset == base + i
        invariant cell == col + Total(widths[..i]) <= |columns| == old(|columns|)
        invariant forall k :: 0 <= k < |columns| && !(col <= k < cell) ==> columns[k] == old(columns)[k]
        invariant LaidOut(col, base, Run(run[..i], widths[..i], attr), columns)
      {
        RunPrefix(run, widths, i + 1);
        assert widths[..i + 1][..i] == widths[..i];
        ghost var before := columns;
        LayOutGlyph(cell, offset, widths[i]);
        LaidOutStep(col, base, run, widths, attr, i, before, columns);
        cell := cell + widths[i];
        i, offset := i + 1, offset + 1;
      }
      assert run[..i] == run && widths[..i] == widths;
    }

    // ---- Writers ----

    /** The last step of every writer: glyphs and attributes of the new row are stored. */
    ghost method Adopt(col: nat, run: seq<Cell>, attr: Attr)
      requires col + |run| <= |cells| == |attrs| && Stores(Splice(cells, col, run))
      requires StoresAttrs(Painted(cells, col, col + |run|, attr))
      requires forall k :: 0 <= k < |run| ==> run[k].attr == attr
      modifies this`cells
      ensures Valid() && cells == Splice(old(cells), col, run)
    {
      var p := Painted(cells, col, col + |run|, attr);
      cells := Splice(cells, col, run);
      assert forall k :: 0 <= k < |cells| ==> cells[k].attr == p[k].attr;
    }

    /** Writes the attributes of a write whose glyphs are stored already; the row then is the new one. */
    method FinishWrite(col: nat, end: nat, ghost run: seq<Cell>, attr: Attr)
      requires col + |run| == end <= |cells| == |attrs| && StoresAttrs(cells) && !filled
      requires Stores(Splice(cells, col, run))
      requires forall k :: 0 <= k < |run| ==> run[k].attr == attr
      modifies this`attrs, this`attrsUniform, this`uniformAttr, this`cells
      ensures Valid() && cells == Splice(old(cells), col, run)
    {
      WriteAttrRange(col, end, attr, cells);
      Adopt(col, run, attr);
    }

    /** A column map that matches the run already needs new code points only. */
    lemma MatchingStores(was: seq<Cell>, lo: nat, run: seq<Cell>, oldText: seq<Char32>, words: seq<nat>)
      requires RowOk(was) && RowOk(run) && lo + |run| <= |was| == |attrs| <= OFFSET_MASK
      requires Boundary(was, lo) && Boundary(was, lo + |run|)
      requires oldText == Flat(was) && |words| == |was| + 1 && TextFits(Replaced(was, lo, run))
      requires forall k :: 0 <= k <= |was| ==> WordOk(was, words, k)
      requires !filled && |columns| == |words|
      requires if singleWidthLayout then OnePerColumn(was) && OnePerColumn(run) else columns == words
      requires LaidOut(lo, Offset(was, lo), run, words)
      requires Offset(was, lo + |run|) - Offset(was, lo) == |Flat(run)|
      requires Offset(was, lo) <= Offset(was, lo + |run|) <= |oldText|
      requires text == oldText[..Offset(was, lo)] + Flat(run) + oldText[Offset(was, lo + |run|)..]
      ensures Stores(Replaced(was, lo, run))
    {
      if singleWidthLayout {
        ReplacedText(was, lo, run);
        OnePerColumnText(Replaced(was, lo, run));
      } else {
        ReplacedEncodes(was, lo, run, oldText, words, text, columns);
      }
    }

    /**
      Writes one glyph over `width` columns from `col`, cut at the right edge of the row.
      Outside the row or without columns it does nothing.
     */
    method WriteGlyph(col: nat, glyph: seq<Char32>, width: int, attr: Attr)
      requires Valid() && glyph != []
      requires TextFits(Put(cells, col, glyph, width, attr))
      modifies this
      ensures Valid() && cells == Put(old(cells), col, glyph, width, attr)
    {
      hide Flat, Demand, Splice;
      if col >= Width() || width <= 0 { return; }
      var w := if col + width > Width() then Width() - col else width;
      MaterializeFilled();
      if singleWidthLayout && w == 1 && |glyph| == 1 {
        OverwriteSingle(col, glyph, attr);
        return;
      }
      if singleWidthLayout { MaterializeColumnsFromSingleWidthLayout(); }
      if w == 1 && |glyph| == 1 && !TrailingAt(col) {
        var next := col + 1;
        ReadsCells(col);
        ReadsCells(next);
        if next == Width() || !TrailingAt(next) {
          if ColOffset(next) == ColOffset(col) + 1 && ColOffset(col) < |text| {
            WholeColumn(col);
            OverwriteSingle(col, glyph, attr);
            return;
          }
        }
      }
      WriteGlyphGeneric(col, glyph, w, attr);
    }

    /** A column between two boundaries holds a whole glyph. */
    lemma WholeColumn(col: nat)
      requires Valid() && col < |cells| && Boundary(cells, col) && Boundary(cells, col + 1)
      ensures cells[col].width == 1
      ensures 0 <= Lead(cells, col) && 0 <= Lead(cells, col + 1)
      ensures Offset(cells, col + 1) == Offset(cells, col) + |cells[col].glyph|
    {
      ValidRow();
      assert CellOk(cells, col);
      GlyphSlice(cells, col);
    }

    /** `words` is the row's column map as it would be stored explicitly. */
    ghost predicate WordsAre(words: seq<nat>)
      reads this
    {
      && |words| == |cells| + 1
      && (forall k :: 0 <= k <= |cells| ==> WordOk(cells, words, k))
      && (!filled && !singleWidthLayout ==> words == columns)
    }

    lemma WordsExist() returns (words: seq<nat>)
      requires Valid()
      ensures WordsAre(words)
    {
      words := if singleWidthLayout then seq(|cells| + 1, k => k) else columns;
      forall k | 0 <= k <= |cells| ensures WordOk(cells, words, k) {
        if singleWidthLayout { OnePerColumnWord(cells, k); }
      }
    }

    /** What an in-place write of `run` at [lo, end) needs besides matching words. */
    ghost predicate InPlace(lo: nat, end: nat, newText: seq<Char32>, run: seq<Cell>)
      reads this
    {
      && RowOk(run) && Flat(run) == newText && lo + |run| == end <= |cells|
      && Boundary(cells, lo) && Boundary(cells, end)
      && TextFits(Replaced(cells, lo, run)) && Splice(cells, lo, run) == Replaced(cells, lo, run)
      && (singleWidthLayout ==> OnePerColumn(run))
      && Offset(cells, end) == Offset(cells, lo) + |newText| <= |text|
    }

    /** New code points for columns whose words match the run already. */
    method OverwriteText(lo: nat, end: nat, start: nat, newText: seq<Char32>, ghost run: seq<Cell>, ghost words: seq<nat>)
      requires Valid() && !filled && InPlace(lo, end, newText, run) && start == Offset(cells, lo)
      requires WordsAre(words) && LaidOut(lo, start, run, words)
      modifies this`text
      ensures Stores(Replaced(cells, lo, run))
    {
      ghost var oldText := text;
      ValidRow();
      text := text[..start] + newText + text[start + |newText|..];
      MatchingStores(cells, lo, run, oldText, words);
    }

    /** New code points and attributes for columns whose words match the run already. */
    method OverwriteRun(lo: nat, end: nat, start: nat, newText: seq<Char32>, attr: Attr,
                        ghost run: seq<Cell>, ghost words: seq<nat>)
      requires Valid() && !filled && InPlace(lo, end, newText, run) && start == Offset(cells, lo)
      requires WordsAre(words) && LaidOut(lo, start, run, words)
      requires forall k :: 0 <= k < |run| ==> run[k].attr == attr
      modifies this`text, this`attrs, this`attrsUniform, this`uniformAttr, this`cells
      ensures Valid() && cells == Splice(old(cells), lo, run)
    {
      OverwriteText(lo, end, start, newText, run, words);
      FinishWrite(lo, end, run, attr);
    }

    /** In-place path: the column already holds a whole glyph of one code point. */
    method OverwriteSingle(col: nat, glyph: seq<Char32>, attr: Attr)
      requires Valid() && !filled && col < |cells| && |glyph| == 1
      requires cells[col].pos == 0 && cells[col].width == 1 && |cells[col].glyph| == 1
      modifies this
      ensures Valid() && cells == Splice(old(cells), col, Glyph(glyph, 1, attr))
    {
      ghost var words := WordsExist();
      ReadsCells(col);
      SingleFits(col, glyph, attr, words, Glyph(glyph, 1, attr));
      OverwriteRun(col, col + 1, ColOffset(col), glyph, attr, Glyph(glyph, 1, attr), words);
    }

    lemma SingleFits(col: nat, glyph: seq<Char32>, attr: Attr, words: seq<nat>, run: seq<Cell>)
      requires Valid() && !filled && col < |cells| && |glyph| == 1 && run == Glyph(glyph, 1, attr) && WordsAre(words)
      requires cells[col].pos == 0 && cells[col].width == 1 && |cells[col].glyph| == 1
      ensures InPlace(col, col + 1, glyph, run) && LaidOut(col, Offset(cells, col), run, words)
    {
      hide Flat, Demand;
      ValidRow();
      SingleGlyph(glyph, attr);
      assert CellOk(cells, col);
      assert TextFits(Splice(cells, col, run)) by { SpliceDemand(cells, col, run); }
      SpliceAligned(cells, col, run);
      GlyphSlice(cells, col);
      assert WordOk(cells, words, col);
      assert WordLaidOut(col, Offset(cells, col), run, words, col);
    }

    /** Blanks the glyphs cut by either end of a write to [col, end), which then covers whole glyphs. */
    method BlankEnds(col: nat, end: nat, ghost run: seq<Cell>)
      requires Valid() && !filled && !singleWidthLayout
      requires RowOk(run) && run != [] && col + |run| == end <= |cells|
      modifies this`text, this`columns, this`cells
      ensures Valid() && |cells| == |old(cells)|
      ensures Boundary(cells, col) && Boundary(cells, end)
      ensures Replaced(cells, col, run) == Splice(old(cells), col, run) == Splice(cells, col, run)
    {
      BlankedEnds(col, run);
      BlankGlyphCutAt(col);
      BlankGlyphCutAt(end);
    }

    lemma BlankedEnds(col: nat, run: seq<Cell>)
      requires Valid() && RowOk(run) && run != [] && col + |run| <= |cells|
      ensures var b := Splice(Splice(cells, col, []), col + |run|, []);
              Boundary(b, col) && Boundary(b, col + |run|) &&
              Replaced(b, col, run) == Splice(cells, col, run) == Splice(b, col, run)
    {
      ValidRow();
      SpliceByBlanking(cells, col, run);
      SpliceAligned(Splice(Splice(cells, col, []), col + |run|, []), col, run);
    }

    /** The general path: blank what either end cuts, then replace whole glyphs. */
    method WriteGlyphGeneric(col: nat, glyph: seq<Char32>, width: nat, attr: Attr)
      requires Valid() && !filled && !singleWidthLayout && glyph != []
      requires 1 <= width && col + width <= |cells|
      requires TextFits(Splice(cells, col, Glyph(glyph, width, attr)))
      modifies this
      ensures Valid() && cells == Splice(old(cells), col, Glyph(glyph, width, attr))
    {
      GlyphOk(glyph, width, attr);
      BlankEnds(col, col + width, Glyph(glyph, width, attr));
      ReplaceByGlyph(col, glyph, width, attr);
      SetAttrs(col, col + width, Glyph(glyph, width, attr), attr);
    }

    method ReplaceByGlyph(col: nat, glyph: seq<Char32>, width: nat, ghost attr: Attr)
      requires Valid() && !filled && !singleWidthLayout && glyph != []
      requires 1 <= width && col + width <= |cells| && Boundary(cells, col) && Boundary(cells, col + width)
      requires TextFits(Replaced(cells, col, Glyph(glyph, width, attr)))
      modifies this`text, this`columns
      ensures Stores(Replaced(cells, col, Glyph(glyph, width, attr)))
    {
      ghost var run, oldText, oldColumns := Glyph(glyph, width, attr), text, columns;
      GlyphOk(glyph, width, attr);
      FlatGlyph(glyph, width, attr);
      ReadsCells(col);
      var start := ColOffset(col);
      ReplaceText(col, col + width, glyph, run);
      LayOutGlyph(col, start, width);
      forall k | col <= k < col + width ensures WordLaidOut(col, start, run, columns, k) {
        GlyphWord(glyph, width, attr, k - col);
      }
      ReplacedEncodes(cells, col, run, oldText, oldColumns, text, columns);
    }

    lemma GlyphWord(glyph: seq<Char32>, width: nat, attr: Attr, j: nat)
      requires j < width
      ensures Lead(Glyph(glyph, width, attr), j) == 0
      ensures Word(Glyph(glyph, width, attr), j) == if j == 0 then 0 else TRAILING_FLAG
    {}

    /** Column by column form of `FinishWrite`. */
    method SetAttrs(col: nat, end: nat, ghost run: seq<Cell>, attr: Attr)
      requires col + |run| == end <= |cells| == |attrs| && StoresAttrs(cells)
      requires Stores(Splice(cells, col, run)) && !filled
      requires forall k :: 0 <= k < |run| ==> run[k].attr == attr
      modifies this`attrs, this`attrsUniform, this`cells
      ensures Valid() && cells == Splice(old(cells), col, run)
    {
      var c := col;
      assert Painted(cells, col, col, attr) == cells;
      while c < end
        invariant col <= c <= end && |attrs| == |cells| && cells == old(cells)
        invariant StoresAttrs(Painted(cells, col, c, attr))
        invariant Stores(Splice(cells, col, run)) && !filled
      {
        SetStoredAttr(c, attr, Painted(cells, col, c, attr));
        assert Painted(Painted(cells, col, c, attr), c, c + 1, attr) == Painted(cells, col, c + 1, attr);
        c := c + 1;
      }
      Adopt(col, run, attr);
    }

    // ---- Measured runs ----

    /** Every column of [col, end) is a whole glyph of one code point. */
    ghost predicate SingleColumns(col: nat, end: nat)
      requires end <= |cells|
      reads this
    {
      forall k :: col <= k < end ==> cells[k].width == 1 && |cells[k].glyph| == 1
    }

    /** Fast path for a run of width-1 code points over columns that already hold such glyphs. */
    method TryWriteSingleWidthRun(col: nat, run: seq<Char32>, attr: Attr) returns (ok: bool)
      requires Valid()
      modifies this
      ensures Valid() && !filled
      ensures ok <==> run == [] || (col + |run| <= |old(cells)| && old(SingleColumns(col, col + |run|)))
      ensures cells == if ok && run != [] then Splice(old(cells), col, SingleRun(run, attr)) else old(cells)
      ensures old(filled) || old(singleWidthLayout) ==> singleWidthLayout
      ensures !old(filled) ==> singleWidthLayout == old(singleWidthLayout)
    {
      hide Demand, Flat, CellOk, Splice;
      MaterializeFilled();
      if run == [] { return true; }
      if col >= Width() || |run| > Width() - col { return false; }
      ValidRow();
      if !singleWidthLayout {
        var i := 0;
        while i != |run|
          invariant 0 <= i <= |run|
          invariant Valid() && !filled && !singleWidthLayout && cells == old(cells)
          invariant singleWidthLayout == old(singleWidthLayout)
          invariant SingleColumns(col, col + i)
        {
          var cell, next := col + i, col + i + 1;
          SingleColumn(cell);
          if TrailingAt(cell) { return false; }
          if next < Width() && TrailingAt(next) { return false; }
          var start, end := ColOffset(cell), ColOffset(next);
          if end != start + 1 || start >= |text| { return false; }
          i := i + 1;
        }
      }
      WriteOverSingleColumns(col, run, attr);
      ok := true;
    }

    /** What the fast path tests of a column, in terms of the abstract row. */
    lemma SingleColumn(cell: nat)
      requires Valid() && !filled && cell < |cells|
      ensures cells[cell].width == 1 && |cells[cell].glyph| == 1 <==>
              && !TrailingAt(cell)
              && (cell + 1 == |cells| || !TrailingAt(cell + 1))
              && ColOffset(cell + 1) == ColOffset(cell) + 1 && ColOffset(cell) < |text|
    {
      ValidRow();
      ReadsCells(cell);
      ReadsCells(cell + 1);
      assert CellOk(cells, cell);
      GlyphSlice(cells, cell);
      if Boundary(cells, cell) && Boundary(cells, cell + 1) { WholeColumn(cell); }
    }

    method WriteOverSingleColumns(col: nat, run: seq<Char32>, attr: Attr)
      requires Valid() && !filled && run != [] && col + |run| <= |cells|
      requires SingleColumns(col, col + |run|)
      modifies this`text, this`attrs, this`attrsUniform, this`uniformAttr, this`cells
      ensures Valid() && cells == Splice(old(cells), col, SingleRun(run, attr))
    {
      ghost var words := WordsExist();
      ReadsCells(col);
      SingleColumnsFit(col, run, attr, words, SingleRun(run, attr));
      OverwriteRun(col, col + |run|, ColOffset(col), run, attr, SingleRun(run, attr), words);
    }

    lemma {:induction false} SingleColumnsOffset(col: nat, n: nat)
      requires Valid() && col + n <= |cells| && SingleColumns(col, col + n) && n > 0
      ensures RowOk(cells) && Boundary(cells, col + n) && Boundary(cells, col)
      ensures Offset(cells, col + n) == Offset(cells, col) + n
    {
      ValidRow();
      assert CellOk(cells, col + n - 1);
      WholeColumn(col + n - 1);
      if n > 1 { SingleColumnsOffset(col, n - 1); }
    }

    lemma SingleColumnsFit(col: nat, run: seq<Char32>, attr: Attr, words: seq<nat>, r: seq<Cell>)
      requires Valid() && !filled && run != [] && col + |run| <= |cells|
      requires SingleColumns(col, col + |run|) && WordsAre(words) && r == SingleRun(run, attr)
      ensures InPlace(col, col + |run|, run, r) && LaidOut(col, Offset(cells, col), r, words)
    {
      SingleColumnsInPlace(col, col + |run|, run, attr, r);
      forall k | col <= k < col + |r| && k < |words| ensures WordLaidOut(col, Offset(cells, col), r, words, k) {
        SingleColumnWord(col, run, attr, words, k);
      }
    }

    lemma SingleColumnsInPlace(col: nat, end: nat, run: seq<Char32>, attr: Attr, r: seq<Cell>)
      requires Valid() && !filled && run != [] && col + |run| == end <= |cells|
      requires SingleColumns(col, end) && r == SingleRun(run, attr)
      ensures InPlace(col, end, run, r)
    {
      ValidRow();
      SingleRunOk(run, attr);
      SingleColumnsOffset(col, |run|);
      assert TextFits(Splice(cells, col, r)) by { SpliceDemand(cells, col, r); }
      assert Splice(cells, col, r) == Replaced(cells, col, r) by { SpliceAligned(cells, col, r); }
      assert Offset(cells, end) <= |text| by { OffsetsMonotone(cells, end, |cells|); }
    }

    lemma SingleColumnWord(col: nat, run: seq<Char32>, attr: Attr, words: seq<nat>, k: nat)
      requires Valid() && col <= k < col + |run| <= |cells|
      requires SingleColumns(col, col + |run|) && Boundary(cells, col) && WordsAre(words)
      ensures WordLaidOut(col, Offset(cells, col), SingleRun(run, attr), words, k)
    {
      OnePerColumnWord(SingleRun(run, attr), k - col);
      if k > col { SingleColumnsOffset(col, k - col); }
      assert WordOk(cells, words, k);
    }

    /** Sets the words of columns [lo, hi) to base, base + 1, ... */
    method Iota(lo: nat, hi: nat, base: nat)
      requires lo <= hi <= |columns|
      modifies this`columns
      ensures |columns| == old(|columns|)
      ensures forall k :: 0 <= k < |columns| ==>
                columns[k] == if lo <= k < hi then base + (k - lo) else old(columns)[k]
    {
      columns := columns[..lo] + seq(hi - lo, k => base + k) + columns[hi..];
    }

    /** `r` is the run's columns, which fill the `total` columns from `col`. */
    ghost predicate Measured(col: nat, run: seq<Char32>, widths: seq<nat>, total: nat, attr: Attr, r: seq<Cell>)
      reads this
    {
      && run != [] && |run| == |widths| && Positive(widths)
      && r == Run(run, widths, attr) && |r| == total == Total(widths) && col + total <= |cells|
    }

    /** A run of single code points, replacing whole glyphs. */
    ghost predicate Replaces(col: nat, run: seq<Char32>, r: seq<Cell>)
      requires col + |r| <= |cells|
      reads this
    {
      && RowOk(r) && Flat(r) == run && r != [] && Boundary(cells, col) && Boundary(cells, col + |r|)
      && TextFits(Replaced(cells, col, r)) && Splice(cells, col, r) == Replaced(cells, col, r)
    }

    lemma RunReplaces(col: nat, run: seq<Char32>, widths: seq<nat>, total: nat, attr: Attr, r: seq<Cell>)
      requires Valid() && Measured(col, run, widths, total, attr, r)
      requires Boundary(cells, col) && Boundary(cells, col + total)
      ensures Replaces(col, run, r)
    {
      ValidRow();
      RunFits(cells, col, run, widths, attr);
      assert Flat(r) == run by { FlatRun(run, widths, attr); }
      SpliceAligned(cells, col, r);
    }

    /** Rebuilds the whole map of a row of one code point a column around a measured run. */
    method RebuildColumns(col: nat, run: seq<Char32>, widths: seq<nat>, total: nat, ghost attr: Attr, ghost r: seq<Cell>)
      requires |columns| == |cells| + 1 && Measured(col, run, widths, total, attr, r)
      modifies this`columns
      ensures |columns| == old(|columns|)
      ensures LaidOut(col, col, r, columns)
      ensures forall k :: 0 <= k < col ==> columns[k] == k
      ensures forall k :: col + total <= k < |columns| ==> columns[k] == k + |run| - total
    {
      Iota(0, |columns|, 0);
      LayOut(col, col, run, widths, attr);
      ghost var laid := columns;
      Iota(col + total, |columns|, col + |run|);
      LaidOutFrame(col, col, r, laid, columns);
    }

    /**
      The column map and code points of a measured run over a row of one code point a column.
      Shared by the filled and the single-width-layout path.
     */
    method LayOutOverSingleWidth(col: nat, run: seq<Char32>, widths: seq<nat>, total: nat, oldText: seq<Char32>,
                                 ghost attr: Attr, ghost r: seq<Cell>)
      requires Valid() && OnePerColumn(cells) && oldText == Flat(cells)
      requires Measured(col, run, widths, total, attr, r) && Replaces(col, run, r)
      modifies this`text, this`columns, this`filled, this`singleWidthLayout
      ensures Stores(Splice(cells, col, r)) && !filled && !singleWidthLayout
    {
      assert |oldText| == |cells| by { OnePerColumnText(cells); }
      text := oldText[..col] + run + oldText[col + total..];
      RebuildColumns(col, run, widths, total, attr, r);
      filled, singleWidthLayout := false, false;
      SimpleReplaced(cells, col, r, oldText, text, columns);
    }

    /** Path for a row still in the filled representation: text and map are built directly. */
    method TryWriteMeasuredRunOnFilledRow(col: nat, run: seq<Char32>, widths: seq<nat>, total: nat,
                                          allSingleWidth: bool, attr: Attr) returns (ok: bool)
      requires Valid()
      requires run != [] && col + total <= |cells| ==>
                 total == Total(Widths(run, widths, allSingleWidth)) &&
                 |Widths(run, widths, allSingleWidth)| == |run| && Positive(Widths(run, widths, allSingleWidth))
      modifies this
      ensures Valid()
      ensures ok <==> old(filled) && run != [] && col < |old(cells)| && col + total <= |old(cells)|
      ensures !ok ==> cells == old(cells) && filled == old(filled) && singleWidthLayout == old(singleWidthLayout)
      ensures ok ==> cells == Splice(old(cells), col, Run(run, Widths(run, widths, allSingleWidth), attr))
    {
      if !filled || run == [] || col >= Width() || col + total > Width() { return false; }
      if allSingleWidth {
        TotalOnes(|run|);
        WriteOverFilled(col, run, attr);
      } else {
        WriteMeasuredOverFilled(col, run, widths, total, attr, Run(run, widths, attr));
      }
      ok := true;
    }

    method FilledText() returns (rowText: seq<Char32>)
      requires Valid() && filled
      ensures OnePerColumn(cells) && rowText == Flat(cells)
    {
      var ch := fillChar;
      rowText := seq(Width(), _ => ch);
      OnePerColumnText(cells);
    }

    /** The filled path for width-1 code points: one code point a column stays so. */
    method WriteOverFilled(col: nat, run: seq<Char32>, attr: Attr)
      requires Valid() && filled && col + |run| <= |cells| && col + |Run(run, Ones(|run|), attr)| <= |cells|
      modifies this
      ensures Valid() && cells == Splice(old(cells), col, Run(run, Ones(|run|), attr))
    {
      RunOfOnes(run, attr);
      var rowText := FilledText();
      StoreOverFilled(col, run, rowText, attr);
      attrsUniform, uniformAttr := true, fillAttr;
      FinishWrite(col, col + |run|, SingleRun(run, attr), attr);
    }

    method StoreOverFilled(col: nat, run: seq<Char32>, rowText: seq<Char32>, ghost attr: Attr)
      requires Valid() && filled && OnePerColumn(cells) && rowText == Flat(cells)
      requires col + |run| <= |cells|
      modifies this`text, this`filled
      ensures Stores(Splice(cells, col, SingleRun(run, attr))) && !filled
    {
      hide RowOk, Encodes, TextFits, Flat;
      ValidRow();
      OnePerColumnText(cells);
      SpliceAligned(cells, col, SingleRun(run, attr));
      text := rowText[..col] + run + rowText[col + |run|..];
      filled := false;
    }

    /** The filled path for a run with wide code points. */
    method WriteMeasuredOverFilled(col: nat, run: seq<Char32>, widths: seq<nat>, total: nat, attr: Attr,
                                   ghost r: seq<Cell>)
      requires Valid() && filled && Measured(col, run, widths, total, attr, r)
      modifies this
      ensures Valid() && cells == Splice(old(cells), col, r)
    {
      var rowText := FilledText();
      RunReplaces(col, run, widths, total, attr, r);
      LayOutOverSingleWidth(col, run, widths, total, rowText, attr, r);
      attrsUniform, uniformAttr := true, fillAttr;
      RunOk(run, widths, attr);
      FinishWrite(col, col + total, r, attr);
    }

    /** Path for a measured run over a row in the single-width layout. */
    method TryWriteMeasuredRunOnSingleWidthLayout(col: nat, run: seq<Char32>, widths: seq<nat>, total: nat,
                                                  attr: Attr) returns (ok: bool)
      requires Valid()
      requires run != [] && |run| == |widths| ==> Positive(widths) && total == Total(widths)
      modifies this
      ensures Valid()
      ensures ok <==> && run != [] && col < |old(cells)| && col + total <= |old(cells)| && |run| == |widths|
                      && !old(filled) && old(singleWidthLayout)
      ensures !ok ==> cells == old(cells) && filled == old(filled) && singleWidthLayout == old(singleWidthLayout)
      ensures ok ==> cells == Splice(old(cells), col, Run(run, widths, attr))
    {
      if run == [] || col >= Width() || col + total > Width() || |run| != |widths| { return false; }
      if filled || !singleWidthLayout { return false; }
      ValidRow();
      RunOk(run, widths, attr);
      ghost var r := Run(run, widths, attr);
      RunReplaces(col, run, widths, total, attr, r);
      LayOutOverSingleWidth(col, run, widths, total, text, attr, r);
      FinishWrite(col, col + total, r, attr);
      ok := true;
    }

    /** Path for a run whose layout matches what the row stores: only code points change. */
    method TryOverwriteMatchingMeasuredRun(col: nat, run: seq<Char32>, widths: seq<nat>, total: nat,
                                           attr: Attr) returns (ok: bool)
      requires Valid() && |run| == |widths| && total == Total(widths)
      modifies this
      ensures Valid()
      ensures ok <==> && !old(filled) && run != [] && Positive(widths)
                      && Matching(old(cells), col, Run(run, widths, attr))
      ensures cells == if ok then Splice(old(cells), col, Run(run, widths, attr)) else old(cells)
      ensures !ok ==> filled == old(filled) && singleWidthLayout == old(singleWidthLayout)
    {
      hide Matching, Positive, LaidOut, Splice, Total, RowOk, Encodes, TextFits, Flat, OnePerColumn;
      var end := col + total;
      if filled { return false; }
      ghost var words := WordsExist();
      MatchingFound(col, run, widths, attr, words);
      if run == [] || col >= Width() || end > Width() || TrailingAt(col) { return false; }
      ReadsCells(col);
      var start := ColOffset(col);
      if start + |run| > |text| { return false; }
      var matches := MatchesRun(col, start, run, widths, attr, words);
      if !matches || ColOffset(end) != start + |run| { return false; }
      FoundMatching(col, start, run, widths, total, attr, Run(run, widths, attr), words);
      WriteOverMatching(col, start, run, widths, total, attr, Run(run, widths, attr), words);
      ok := true;
    }

    /** Where the columns match, every test of the path succeeds. */
    lemma MatchingFound(col: nat, run: seq<Char32>, widths: seq<nat>, attr: Attr, words: seq<nat>)
      requires Valid() && !filled && |run| == |widths| && WordsAre(words)
      ensures run != [] && Positive(widths) && Matching(cells, col, Run(run, widths, attr)) ==>
                && col < |cells| && col + Total(widths) <= |cells| && !TrailingAt(col)
                && ColOffset(col) + |run| <= |text| && ColOffset(col + Total(widths)) == ColOffset(col) + |run|
                && LaidOut(col, ColOffset(col), Run(run, widths, attr), words)
    {
      hide Matching, LaidOut, Flat, Encodes, TextFits;
      var r := Run(run, widths, attr);
      if run != [] && Positive(widths) && Matching(cells, col, r) {
        assert col + |r| <= |cells| by { MatchingRoom(cells, col, r); }
        ValidRow();
        RunOk(run, widths, attr);
        FlatRun(run, widths, attr);
        TotalPositive(widths);
        MatchingLaysOut(cells, col, r, words);
        ReadsCells(col);
        ReadsCells(col + Total(widths));
      }
    }

    /** Where every test succeeds, the columns match. */
    lemma FoundMatching(col: nat, start: nat, run: seq<Char32>, widths: seq<nat>, total: nat, attr: Attr,
                        r: seq<Cell>, words: seq<nat>)
      requires Valid() && !filled && Measured(col, run, widths, total, attr, r)
      requires Boundary(cells, col) && start == ColOffset(col) && ColOffset(col + total) == start + |run|
      requires WordsAre(words) && LaidOut(col, start, r, words)
      ensures Matching(cells, col, r)
    {
      hide Matching;
      ValidRow();
      ReadsCells(col);
      RunOk(run, widths, attr);
      MatchingFits(col, start, run, widths, total, attr, r, words);
      LaidOutMatches(cells, col, r, words);
    }

    method MatchesRun(col: nat, start: nat, run: seq<Char32>, widths: seq<nat>, ghost attr: Attr, ghost words: seq<nat>)
      returns (ok: bool)
      requires Valid() && !filled && |run| == |widths| && col + Total(widths) <= |cells| && WordsAre(words)
      requires start + |run| <= |text|
      ensures ok <==> Positive(widths) && LaidOut(col, start, Run(run, widths, attr), words)
    {
      hide LaidOut;
      TextIsShort();
      NothingLaidOut(col, start, words);
      var cell := col;
      var i := 0;
      while i != |run|
        invariant 0 <= i <= |run|
        invariant Positive(widths[..i]) && cell == col + Total(widths[..i]) <= |cells|
        invariant LaidOut(col, start, Run(run[..i], widths[..i], attr), words)
      {
        RunPrefix(run, widths, i + 1);
        assert widths[..i + 1][..i] == widths[..i];
        if cell >= Width() || TrailingAt(cell) || ColOffset(cell) != start + i {
          if Positive(widths) { NotLaidOut(col, start, run, widths, attr, i, cell, words); }
          return false;
        }
        var w := widths[i];
        if w == 0 || cell + w > Width() { return false; }
        var matches := MatchesGlyph(cell, w, start + i, words);
        if !matches {
          if Positive(widths) {
            ghost var k :| cell <= k < cell + w && words[k] != start + i + (if k == cell then 0 else TRAILING_FLAG);
            GlyphNotLaidOut(col, start, run, widths, attr, i, cell, k, words);
          }
          return false;
        }
        MatchedStep(col, start, run, widths, attr, i, words);
        cell := cell + w;
        i := i + 1;
      }
      assert run[..i] == run && widths[..i] == widths;
      ok := true;
    }

    lemma TextIsShort()
      requires Valid() && !filled
      ensures |text| <= OFFSET_MASK
    {
      ValidRow();
      DemandBoundsText(cells);
    }

    /** A first column that is not the run's refutes the run. */
    lemma NotLaidOut(col: nat, start: nat, run: seq<Char32>, widths: seq<nat>, attr: Attr, i: nat, cell: nat,
                     words: seq<nat>)
      requires Valid() && |run| == |widths| && Positive(widths) && i < |run| && WordsAre(words)
      requires cell == col + Total(widths[..i]) && start + i <= OFFSET_MASK && col + Total(widths) <= |cells|
      requires !(cell < |cells| && !TrailingAt(cell) && ColOffset(cell) == start + i)
      ensures !LaidOut(col, start, Run(run, widths, attr), words)
    {
      RunPrefix(run, widths, i + 1);
      assert widths[..i + 1][..i] == widths[..i] && widths[i] > 0;
      if LaidOut(col, start, Run(run, widths, attr), words) {
        LaidOutWord(col, start, run, widths, attr, i, cell - col, words);
        WordTells(cell, words, start + i);
        assert false;
      }
    }

    /** The columns from `cell` on store one glyph of `w` columns at offset `at`. */
    method MatchesGlyph(cell: nat, w: nat, at: nat, ghost words: seq<nat>) returns (ok: bool)
      requires Valid() && !filled && w > 0 && cell + w <= |cells| && WordsAre(words) && at <= OFFSET_MASK
      requires !TrailingAt(cell) && ColOffset(cell) == at
      ensures ok <==> (forall k :: cell <= k < cell + w ==> words[k] == at + (if k == cell then 0 else TRAILING_FLAG))
    {
      var j := 1;
      WordTells(cell, words, at);
      while j < w
        invariant 1 <= j <= w
        invariant forall k :: cell <= k < cell + j ==> words[k] == at + if k == cell then 0 else TRAILING_FLAG
      {
        WordTells(cell + j, words, at);
        if !TrailingAt(cell + j) || ColOffset(cell + j) != at { return false; }
        j := j + 1;
      }
      ok := true;
    }

    /** A word is its offset and its trailing bit. */
    lemma WordTells(k: nat, words: seq<nat>, at: nat)
      requires Valid() && k <= |cells| && WordsAre(words) && at <= OFFSET_MASK
      ensures words[k] == at <==> !TrailingAt(k) && ColOffset(k) == at
      ensures words[k] == at + TRAILING_FLAG <==> TrailingAt(k) && ColOffset(k) == at
    {
      WordAt(k, words);
      ValidRow();
      ReadsCells(k);
      WordBits(cells, k);
      DemandBoundsText(cells);
    }

    lemma WordAt(k: nat, words: seq<nat>)
      requires Valid() && k <= |cells| && WordsAre(words)
      ensures words[k] == ColOffset(k) + if TrailingAt(k) then TRAILING_FLAG else 0
    {
      ReadsCells(k);
      assert WordOk(cells, words, k);
    }

    method WriteOverMatching(col: nat, start: nat, run: seq<Char32>, widths: seq<nat>, total: nat, attr: Attr,
                             ghost r: seq<Cell>, ghost words: seq<nat>)
      requires Valid() && !filled && Measured(col, run, widths, total, attr, r)
      requires Boundary(cells, col) && start == ColOffset(col) && ColOffset(col + total) == start + |run|
      requires WordsAre(words) && LaidOut(col, start, r, words)
      modifies this`text, this`attrs, this`attrsUniform, this`uniformAttr, this`cells
      ensures Valid() && cells == Splice(old(cells), col, r)
    {
      ReadsCells(col);
      MatchingFits(col, start, run, widths, total, attr, r, words);
      RunOk(run, widths, attr);
      OverwriteRun(col, col + total, start, run, attr, r, words);
    }

    lemma MatchingFits(col: nat, start: nat, run: seq<Char32>, widths: seq<nat>, total: nat, attr: Attr,
                       r: seq<Cell>, words: seq<nat>)
      requires Valid() && !filled && Measured(col, run, widths, total, attr, r)
      requires Boundary(cells, col) && start == ColOffset(col) && ColOffset(col + total) == start + |run|
      requires WordsAre(words) && LaidOut(col, start, r, words)
      ensures InPlace(col, col + total, run, r)
    {
      ReadsCells(col);
      MatchingEnd(col, start, run, widths, total, attr, r, words);
      RunReplaces(col, run, widths, total, attr, r);
      if singleWidthLayout {
        RunOk(run, widths, attr);
        forall k | 0 <= k < |r| ensures r[k].pos == 0 && r[k].width == 1 && |r[k].glyph| == 1 {
          MatchingSingle(col, start, r, words, k);
        }
      }
    }

    /** A matching layout ends at a glyph edge: the end's offset says so. */
    lemma MatchingEnd(col: nat, start: nat, run: seq<Char32>, widths: seq<nat>, total: nat, attr: Attr,
                      r: seq<Cell>, words: seq<nat>)
      requires Valid() && !filled && Measured(col, run, widths, total, attr, r)
      requires WordsAre(words) && LaidOut(col, start, r, words) && ColOffset(col + total) == start + |run|
      ensures RowOk(cells) && Boundary(cells, col + total)
      ensures Offset(cells, col + total) == start + |run| <= |text|
    {
      ValidRow();
      ReadsCells(col + total);
      if !Boundary(cells, col + total) {
        assert RowOk(r) && Flat(r) == run && r != [] by {
          RunOk(run, widths, attr);
          FlatRun(run, widths, attr);
        }
        CutByEnd(cells, words, col, start, r, col + total);
        assert false;
      }
      OffsetsMonotone(cells, col + total, |cells|);
    }

    lemma MatchingSingle(col: nat, start: nat, r: seq<Cell>, words: seq<nat>, k: nat)
      requires Valid() && singleWidthLayout && WordsAre(words) && LaidOut(col, start, r, words)
      requires RowOk(r) && SingleCodepoint(r) && k < |r| && col + |r| <= |cells|
      ensures r[k].pos == 0 && r[k].width == 1 && |r[k].glyph| == 1
    {
      assert CellOk(r, k);
      NoTrailing(col, start, r, words, k);
      if r[k].width > 1 { NoTrailing(col, start, r, words, k + 1); }
    }

    lemma NoTrailing(col: nat, start: nat, r: seq<Cell>, words: seq<nat>, k: nat)
      requires Valid() && singleWidthLayout && WordsAre(words) && LaidOut(col, start, r, words)
      requires k < |r| && col + |r| <= |cells|
      ensures r[k].pos == 0
    {
      ValidRow();
      OnePerColumnWord(cells, col + k);
      assert WordOk(cells, words, col + k);
      assert WordLaidOut(col, start, r, words, col + k);
    }

    /**
      Writes a measured run: `widths` gives each code point's columns, and is not read when all are
      one column wide and the run fills the whole row. The representation decides between five paths;
      all of them have the one effect of the contract.
     */
    method WriteMeasuredRun(col: nat, run: seq<Char32>, widths: seq<nat>, total: nat, allSingleWidth: bool, attr: Attr)
      requires Valid()
      requires col < |cells| && col + total <= |cells| && total == Total(Widths(run, widths, allSingleWidth))
      requires |Widths(run, widths, allSingleWidth)| == |run| && Positive(Widths(run, widths, allSingleWidth))
      requires !allSingleWidth || total == |cells| || widths == Ones(|run|)
      modifies this
      ensures Valid()
      ensures cells == if run == [] then old(cells)
                       else Splice(old(cells), col, Run(run, Widths(run, widths, allSingleWidth), attr))
    {
      if run == [] { return; }
      ValidRow();
      var done := TryWriteMeasuredRunOnFilledRow(col, run, widths, total, allSingleWidth, attr);
      if done { return; }
      if col == 0 && total == Width() {
        WriteFullRow(run, widths, allSingleWidth, attr);
        return;
      }
      if allSingleWidth {
        RunOfOnes(run, attr);
        done := TryWriteSingleWidthRun(col, run, attr);
        if done { return; }
        assert widths == Ones(|run|);
      } else {
        done := TryWriteMeasuredRunOnSingleWidthLayout(col, run, widths, total, attr);
        if done { return; }
        done := TryOverwriteMatchingMeasuredRun(col, run, widths, total, attr);
        if done { return; }
      }
      RunOk(run, widths, attr);
      WriteMeasuredRunGeneric(col, run, widths, total, attr, Run(run, widths, attr));
    }

    /**
      Text output on one row: `widths` is empty when every code point takes one column. The choice among
      the writers is the buffer's; each choice has the same effect.
     */
    method WriteTextRun(col: nat, run: seq<Char32>, widths: seq<nat>, cellCount: nat, allSingleWidth: bool, attr: Attr)
      requires Valid() && run != [] && col + cellCount <= |cells| && Positive(Widths(run, widths, allSingleWidth))
      requires |Widths(run, widths, allSingleWidth)| == |run|
      requires cellCount == Total(Widths(run, widths, allSingleWidth))
      modifies this
      ensures Valid()
      ensures cells == Splice(old(cells), col, Run(run, Widths(run, widths, allSingleWidth), attr))
    {
      TotalPositive(Widths(run, widths, allSingleWidth));
      if !allSingleWidth {
        WriteMeasuredRun(col, run, widths, cellCount, false, attr);
      } else if col == 0 && cellCount == Width() {
        WriteMeasuredRun(col, run, [], cellCount, true, attr);
      } else {
        RunOfOnes(run, attr);
        var done := TryWriteSingleWidthRun(col, run, attr);
        if !done { WriteMeasuredRun(col, run, Ones(|run|), cellCount, false, attr); }
      }
    }

    method WriteMeasuredRunGeneric(col: nat, run: seq<Char32>, widths: seq<nat>, total: nat, attr: Attr,
                                   ghost r: seq<Cell>)
      requires Valid() && !filled && !singleWidthLayout && Measured(col, run, widths, total, attr, r)
      modifies this
      ensures Valid() && cells == Splice(old(cells), col, r)
    {
      ValidRow();
      RunFits(cells, col, run, widths, attr);
      BlankEnds(col, col + total, r);
      RunReplaces(col, run, widths, total, attr, r);
      ReplaceByRun(col, run, widths, total, attr, r);
      RunOk(run, widths, attr);
      FinishWrite(col, col + total, r, attr);
    }

    /** The word after the last column is the number of code points. */
    lemma SentinelWord()
      requires Valid() && !filled && !singleWidthLayout
      ensures columns[|cells|] == |text|
    {
      assert WordOk(cells, columns, |cells|);
      assert cells[..|cells|] == cells;
    }

    method ReplaceByRun(col: nat, run: seq<Char32>, widths: seq<nat>, total: nat, ghost attr: Attr, ghost r: seq<Cell>)
      requires Valid() && !filled && !singleWidthLayout
      requires Measured(col, run, widths, total, attr, r) && Replaces(col, run, r)
      modifies this`text, this`columns
      ensures Stores(Replaced(cells, col, r))
    {
      hide Demand, Flat, CellOk;
      ghost var oldText, oldColumns := text, columns;
      SentinelWord();
      ReadsCells(col);
      var start := ColOffset(col);
      ReplaceText(col, col + total, run, r);
      LayOut(col, start, run, widths, attr);
      SetSentinel();
      ReplacedEncodes(cells, col, r, oldText, oldColumns, text, columns);
    }

    method SetSentinel()
      requires |columns| > 0 && columns[|columns| - 1] == |text|
      modifies this`columns
      ensures columns == old(columns)
    {
      columns := columns[Width() := |text|];
    }

    /** A run that fills the whole row replaces its representation. */
    method WriteFullRow(run: seq<Char32>, widths: seq<nat>, allSingleWidth: bool, attr: Attr)
      requires Valid() && run != []
      requires |Widths(run, widths, allSingleWidth)| == |run| && Positive(Widths(run, widths, allSingleWidth))
      requires Total(Widths(run, widths, allSingleWidth)) == |cells|
      modifies this
      ensures Valid()
      ensures cells == Splice(old(cells), 0, Run(run, Widths(run, widths, allSingleWidth), attr))
    {
      ghost var r := Run(run, Widths(run, widths, allSingleWidth), attr);
      filled := false;
      text := run;
      if !allSingleWidth {
        LayOut(0, 0, run, widths, attr);
        ghost var laid := columns;
        columns := columns[Width() := |text|];
        LaidOutFrame(0, 0, r, laid, columns);
        FullRowEncodes(run, widths, attr, columns);
      } else {
        RunOfOnes(run, attr);
      }
      attrsUniform, uniformAttr := true, attr;
      singleWidthLayout := allSingleWidth;
      RunOk(run, Widths(run, widths, allSingleWidth), attr);
      assert Splice(cells, 0, r) == r;
      cells := r;
    }

    // ---- Whole-row operations ----

    method ClearCell(col: nat, attr: Attr)
      requires Valid()
      modifies this
      ensures Valid() && cells == Put(old(cells), col, [SPACE], 1, attr)
    {
      ValidRow();
      PutFits(cells, col, [SPACE], 1, attr);
      WriteGlyph(col, [SPACE], 1, attr);
    }

    /** Every row a copy passes through fits. */
    ghost predicate CopyFits(src: seq<Cell>, from: nat, to: nat, count: nat)
      reads this
    {
      forall n :: 0 <= n <= count ==> TextFits(Copied(cells, src, from, to, n))
    }

    /** Copies `count` columns of another row, a glyph at a time. */
    method CopyFrom(src: ScreenRow, from: nat, to: nat, count: nat)
      requires src != this && Valid() && src.Valid() && CopyFits(src.cells, from, to, count)
      modifies this
      ensures Valid() && cells == Copied(old(cells), src.cells, from, to, count)
    {
      var w, sw := Width(), src.Width();
      ghost var was, given := cells, src.cells;
      var i := 0;
      while i < count && to + i < w && from + i < sw
        invariant 0 <= i <= count
        invariant Valid() && src.Valid() && src.cells == given && |cells| == w == |was| && |given| == sw
        invariant cells == Copied(was, given, from, to, i)
        decreases count - i
      {
        assert TextFits(Copied(was, given, from, to, i + 1));
        CopyAt(src, from, to, i, was);
        i := i + 1;
      }
      CopiedEnds(was, given, from, to, i, count);
    }

    method CopyAt(src: ScreenRow, from: nat, to: nat, i: nat, ghost was: seq<Cell>)
      requires src != this && Valid() && src.Valid() && from + i < |src.cells| && to + i < |was|
      requires cells == Copied(was, src.cells, from, to, i) && TextFits(Copied(was, src.cells, from, to, i + 1))
      modifies this
      ensures Valid() && src.Valid() && cells == Copied(was, src.cells, from, to, i + 1)
    {
      ghost var next := Copied(was, src.cells, from, to, i + 1);
      assert next == CopiedColumn(cells, src.cells, from + i, to + i) by { CopiedStep(was, src.cells, from, to, i); }
      CopyColumn(src, from + i, to + i);
    }

    method CopyColumn(src: ScreenRow, sc: nat, to: nat)
      requires src != this && Valid() && src.Valid() && sc < |src.cells|
      requires TextFits(CopiedColumn(cells, src.cells, sc, to))
      modifies this
      ensures Valid() && cells == CopiedColumn(old(cells), src.cells, sc, to)
    {
      src.ReadsCells(sc);
      assert CellOk(src.cells, sc);
      if src.TrailingAt(sc) { return; }
      var glyph := src.GlyphAt(sc);
      var gw := src.GlyphWidth(sc);
      src.AttrAtIs(sc);
      WriteGlyph(to, glyph, gw, src.AttrAt(sc));
    }

    /** The half of a wide glyph a column is, as the console API marks it. */
    predicate LeadingAt(col: nat)
      reads this
    {
      !TrailingAt(col) && col + 1 < Width() && TrailingAt(col + 1)
    }

    method ToCharInfo() returns (out: seq<CharInfo>)
      requires Valid()
      ensures out == Export(cells)
    {
      hide Flat, Demand, RowOk;
      out := [];
      var col := 0;
      while col != Width()
        invariant 0 <= col <= |cells| && out == Export(cells)[..col]
      {
        var gv := GlyphAt(col);
        ReadsCells(col);
        ReadsCells(col + 1);
        AttrAtIs(col);
        var ch := if gv == [] then SPACE else if gv[0] <= 0xFFFF then gv[0] else REPLACEMENT;
        out := out + [CharInfo(ch, AttrAt(col), LeadingAt(col), TrailingAt(col))];
        col := col + 1;
      }
    }

    method FromCharInfo(src: seq<CharInfo>, count: nat, dstCol: nat)
      requires Valid() && count <= |src|
      modifies this
      ensures Valid() && cells == Import(old(cells), src, dstCol, count)
    {
      MaterializeFilled();
      ghost var was := cells;
      var i, w := 0, Width();
      while i < count && dstCol + i < w
        invariant 0 <= i <= count
        invariant Valid() && cells == Import(was, src, dstCol, i)
      {
        ImportNext(src, dstCol, i, was);
        i := i + 1;
      }
      ImportEnds(was, src, dstCol, i, count);
    }

    method ImportNext(src: seq<CharInfo>, dstCol: nat, i: nat, ghost was: seq<Cell>)
      requires Valid() && i < |src| && dstCol + i < |was| && cells == Import(was, src, dstCol, i)
      modifies this
      ensures Valid() && cells == Import(was, src, dstCol, i + 1)
    {
      ImportStep(was, src, dstCol, i);
      ImportAt(dstCol + i, i, src[i]);
    }

    method ImportAt(col: nat, i: nat, ci: CharInfo)
      requires Valid() && col < |cells|
      modifies this
      ensures Valid() && cells == ImportCell(old(cells), col, i, ci)
    {
      var leading := ci.leading;
      var trailing := !leading && ci.trailing;
      if ci.ch == 0 && !leading && !trailing { return; }
      var cp := if HighSurrogate(ci.ch) then REPLACEMENT else if ci.ch == 0 then SPACE else ci.ch;
      ValidRow();
      if leading && col + 1 < Width() {
        AttrAtIs(col + 1);
        var nextAttr := AttrAt(col + 1);
        PutFits(cells, col, [cp], 2, ci.attr);
        WriteGlyph(col, [cp], 2, ci.attr);
        SetAttr(col + 1, nextAttr);
      } else if trailing && i != 0 {
        SetAttr(col, ci.attr);
      } else if trailing && col > 0 {
        AttrAtIs(col - 1);
        var prevAttr := AttrAt(col - 1);
        PutFits(cells, col - 1, [cp], 2, prevAttr);
        WriteGlyph(col - 1, [cp], 2, prevAttr);
        SetAttr(col, ci.attr);
      } else {
        var glyph := [if leading || trailing then SPACE else cp];
        PutFits(cells, col, glyph, 1, ci.attr);
        WriteGlyph(col, glyph, 1, ci.attr);
      }
    }
  }
}
