/** Writing and reading the screen as one line of cells, row after row. */
module LinearText {
  import opened Cells
  import opened Scrolling
  import opened Shorts

  /** Columns of a code point: whatever is measured, one or two. */
  function Columns(measure: Char32 -> int, ch: Char32): (w: nat)
    ensures w == 1 || w == 2
  {
    if measure(ch) < 1 then 1 else if measure(ch) > 2 then 2 else measure(ch)
  }

  /** One code point over its columns; every column keeps the attribute it had. */
  function PutKeepingAttrs(row: Row, x: nat, ch: Char32, cw: nat): (r: Row)
    requires x < |row| && (cw == 1 || cw == 2)
    ensures |r| == |row|
  {
    var r := Put(row, x, [ch], cw, row[x].attr);
    if cw == 2 && x + 1 < |row| then Painted(r, x + 1, x + 2, row[x + 1].attr) else r
  }

  lemma PutKeepingAttrsOk(row: Row, x: nat, ch: Char32, cw: nat)
    requires RowOk(row) && x < |row| && (cw == 1 || cw == 2)
    ensures RowOk(PutKeepingAttrs(row, x, ch, cw))
    ensures forall k :: 0 <= k < |row| ==> PutKeepingAttrs(row, x, ch, cw)[k].attr == row[k].attr
  {
    var r := Put(row, x, [ch], cw, row[x].attr);
    PutOk(row, x, [ch], cw, row[x].attr);
    if cw == 2 && x + 1 < |row| { PaintedOk(r, x + 1, x + 2, row[x + 1].attr); }
  }

  /** The screen when `text` is laid out from column `x` of row `y` on, and how much of it there is room for. */
  function Laid(s: seq<Row>, width: nat, measure: Char32 -> int, text: seq<Char32>, x: nat, y: nat): (t: seq<Row>)
    requires forall z :: 0 <= z < |s| ==> |s[z]| == width
    ensures |t| == |s| && forall z :: 0 <= z < |t| ==> |t[z]| == width
    decreases |s| - y, |text|, x
  {
    if y >= |s| || text == [] then s
    else if x >= width then Laid(s, width, measure, text, 0, y + 1)
    else
      var cw := Columns(measure, text[0]);
      Laid(s[y := PutKeepingAttrs(s[y], x, text[0], cw)], width, measure, text[1..], x + cw, y)
  }

  /** How many code points there is room for. */
  function Fits(height: nat, width: nat, measure: Char32 -> int, text: seq<Char32>, x: nat, y: nat): (n: nat)
    ensures n <= |text|
    decreases height - y, |text|, x
  {
    if y >= height || text == [] then 0
    else if x >= width then Fits(height, width, measure, text, 0, y + 1)
    else 1 + Fits(height, width, measure, text[1..], x + Columns(measure, text[0]), y)
  }

  /** How many cells they cover; a wide code point in a row's last column covers one. */
  function Covered(height: nat, width: nat, measure: Char32 -> int, text: seq<Char32>, x: nat, y: nat): nat
    decreases height - y, |text|, x
  {
    if y >= height || text == [] then 0
    else if x >= width then Covered(height, width, measure, text, 0, y + 1)
    else
      var cw := Columns(measure, text[0]);
      (if x + cw > width then width - x else cw) + Covered(height, width, measure, text[1..], x + cw, y)
  }

  predicate TrailingHalf(row: Row, x: nat)
    requires x < |row|
  {
    row[x].pos > 0
  }

  predicate LeadingHalf(row: Row, x: nat)
    requires x < |row|
  {
    row[x].pos == 0 && x + 1 < |row| && row[x + 1].pos > 0
  }

  /** One UTF-16 unit for a glyph. */
  function Unit(glyph: seq<Char32>): nat {
    if glyph == [] then SPACE else if glyph[0] <= 0xFFFF then glyph[0] else 0xFFFD
  }

  /**
    Cells read from column `x` of row `y` on, `cells` of `max` having been read before: one unit a glyph,
    a space for half a glyph at the first or last column read.
   */
  function Read(s: seq<Row>, width: nat, x: nat, y: nat, cells: nat, max: nat): seq<nat>
    requires forall z :: 0 <= z < |s| ==> |s[z]| == width
    decreases |s| - y, if x < width then width - x else 0
  {
    if y >= |s| || cells >= max then []
    else if x >= width then Read(s, width, 0, y + 1, cells, max)
    else
      var rest := Read(s, width, x + 1, y, cells + 1, max);
      if TrailingHalf(s[y], x) && cells != 0 then rest
      else if TrailingHalf(s[y], x) || (LeadingHalf(s[y], x) && cells + 1 == max) then [SPACE] + rest
      else [Unit(s[y][x].glyph)] + rest
  }

  /** One cell read on its own: its glyph's first code point if it is in the basic plane, a space for half a glyph. */
  lemma ReadAlone(s: seq<Row>, width: nat, x: nat, y: nat)
    requires ScreenOk(s, width) && y < |s| && x < width
    ensures s[y][x].glyph != []
    ensures Read(s, width, x, y, 0, 1) ==
            [if Lead(s[y], x) < x || End(s[y], x) > x + 1 then 0x20
             else if s[y][x].glyph[0] <= 0xFFFF then s[y][x].glyph[0]
             else 0xFFFD]
  {
    assert CellOk(s[y], x);
    if x + 1 < width { assert CellOk(s[y], x + 1); }
  }

  /** One cell read: `next` is `part` and what the cell gives. */
  lemma ReadStep(s: seq<Row>, width: nat, x: nat, y: nat, cells: nat, max: nat, part: seq<nat>, next: seq<nat>)
    requires (forall z :: 0 <= z < |s| ==> |s[z]| == width) && y < |s| && x < width && cells < max
    requires next == part + if TrailingHalf(s[y], x) && cells != 0 then []
                            else if TrailingHalf(s[y], x) || (LeadingHalf(s[y], x) && cells + 1 == max) then [SPACE]
                            else [Unit(s[y][x].glyph)]
    ensures next + Read(s, width, x + 1, y, cells + 1, max) == part + Read(s, width, x, y, cells, max)
  {}

  lemma ReadRowEnd(s: seq<Row>, width: nat, x: nat, y: nat, cells: nat, max: nat)
    requires (forall z :: 0 <= z < |s| ==> |s[z]| == width) && y < |s| && (x >= width || cells >= max)
    ensures Read(s, width, x, y, cells, max) == Read(s, width, 0, y + 1, cells, max)
  {}

  lemma ReadDone(s: seq<Row>, width: nat, x: nat, y: nat, cells: nat, max: nat)
    requires (forall z :: 0 <= z < |s| ==> |s[z]| == width) && (y >= |s| || cells >= max)
    ensures Read(s, width, x, y, cells, max) == []
  {}

  // ---- Frames ----

  /** Nothing left of the start is touched. */
  lemma {:induction false} LaidFrame(s: seq<Row>, width: nat, measure: Char32 -> int, text: seq<Char32>, x: nat, y: nat)
    requires ScreenOk(s, width) && y < |s| && (x < width ==> Boundary(s[y], x))
    ensures var t := Laid(s, width, measure, text, x, y);
            ScreenOk(t, width) &&
            (forall z :: 0 <= z < y ==> t[z] == s[z]) &&
            (forall k :: 0 <= k < width && k < x ==> t[y][k] == s[y][k]) &&
            (x < width ==> Boundary(t[y], x)) &&
            (forall z, k :: 0 <= z < |s| && 0 <= k < width ==> t[z][k].attr == s[z][k].attr)
    decreases |s| - y, |text|, x
  {
    hide PutKeepingAttrs, Columns;
    if text == [] {
    } else if x >= width {
      if y + 1 < |s| && width > 0 {
        assert CellOk(s[y + 1], 0);
        LaidFrame(s, width, measure, text, 0, y + 1);
      } else if y + 1 < |s| {
        LaidFrame(s, width, measure, text, 0, y + 1);
      }
    } else {
      var cw := Columns(measure, text[0]);
      PutAtEdge(s[y], x, text[0], cw);
      var s' := s[y := PutKeepingAttrs(s[y], x, text[0], cw)];
      LaidFrame(s', width, measure, text[1..], x + cw, y);
    }
  }

  /** A code point written at a glyph edge occupies exactly its columns. */
  lemma PutAtEdge(row: Row, x: nat, ch: Char32, cw: nat)
    requires RowOk(row) && x < |row| && Boundary(row, x) && (cw == 1 || cw == 2)
    ensures var r := PutKeepingAttrs(row, x, ch, cw);
            RowOk(r) && Boundary(r, x) && (x + cw < |row| ==> Boundary(r, x + cw)) &&
            (forall k :: 0 <= k < x ==> r[k] == row[k]) &&
            (forall k :: 0 <= k < |row| ==> r[k].attr == row[k].attr) &&
            r[x].glyph == [ch] &&
            (cw == 2 && x + 1 < |row| ==> r[x + 1].pos == 1)
  {
    PutKeepingAttrsOk(row, x, ch, cw);
    forall k | 0 <= k < x ensures End(row, k) <= x {
      SpanBoundary(row, k);
      if End(row, k) > x { SpanShared(row, k, x); }
    }
    if x + cw < |row| {
      SpanBoundary(row, x + cw);
      assert CellOk(PutKeepingAttrs(row, x, ch, cw), x + cw - 1);
    }
  }

  // ---- Round trip ----

  /** A written code point starts a glyph, whatever was there. */
  lemma PutStarts(row: Row, x: nat, ch: Char32, cw: nat)
    requires RowOk(row) && x < |row| && (cw == 1 || cw == 2)
    ensures var r := PutKeepingAttrs(row, x, ch, cw);
            RowOk(r) && r[x].glyph == [ch] && r[x].pos == 0 && (x + cw < |row| ==> Boundary(r, x + cw)) &&
            (x + 1 < |row| ==> (LeadingHalf(r, x) <==> cw == 2)) &&
            (cw == 2 && x + 1 < |row| ==> r[x + 1].pos == 1)
  {
    PutKeepingAttrsOk(row, x, ch, cw);
    assert CellOk(PutKeepingAttrs(row, x, ch, cw), x);
    if x + cw < |row| { assert CellOk(PutKeepingAttrs(row, x, ch, cw), x + cw - 1); }
  }

  /** Reading the columns of one glyph at the front gives its unit and goes on behind it. */
  lemma ReadGlyph(t: seq<Row>, width: nat, x: nat, y: nat, cw: nat, cells: nat, max: nat)
    requires ScreenOk(t, width) && y < |t| && x < width && (cw == 1 || cw == 2)
    requires t[y][x].pos == 0 && (x + 1 < width ==> (LeadingHalf(t[y], x) <==> cw == 2))
    requires max >= cells + if x + cw > width then width - x else cw
    ensures Read(t, width, x, y, cells, max) ==
            [Unit(t[y][x].glyph)] + Read(t, width, x + cw, y, cells + if x + cw > width then width - x else cw, max)
  {}

  /** What one code point adds to the text read back. */
  lemma ReadAfterPut(s: seq<Row>, width: nat, measure: Char32 -> int, text: seq<Char32>, x: nat, y: nat, cells: nat,
                     cw: nat, n: nat, t: seq<Row>)
    requires ScreenOk(s, width) && y < |s| && x < width && text != [] && text[0] <= 0xFFFF
    requires cw == Columns(measure, text[0]) && n == (if x + cw > width then width - x else cw)
    requires t == Laid(s[y := PutKeepingAttrs(s[y], x, text[0], cw)], width, measure, text[1..], x + cw, y)
    ensures forall max :: max >= cells + n ==>
              Read(t, width, x, y, cells, max) == [text[0]] + Read(t, width, x + cw, y, cells + n, max)
  {
    var row := PutKeepingAttrs(s[y], x, text[0], cw);
    PutStarts(s[y], x, text[0], cw);
    LaidFrame(s[y := row], width, measure, text[1..], x + cw, y);
    KeptGlyph(row, t[y], x, cw);
    forall max | max >= cells + n
      ensures Read(t, width, x, y, cells, max) == [text[0]] + Read(t, width, x + cw, y, cells + n, max)
    {
      ReadGlyph(t, width, x, y, cw, cells, max);
    }
  }

  /** Text of the basic plane laid out across rows reads back as itself over exactly the cells it covered. */
  lemma {:induction false} LaidThenRead(s: seq<Row>, width: nat, measure: Char32 -> int, text: seq<Char32>,
                                        x: nat, y: nat, cells: nat)
    requires ScreenOk(s, width) && forall i :: 0 <= i < |text| ==> text[i] <= 0xFFFF
    ensures Read(Laid(s, width, measure, text, x, y), width, x, y, cells,
                 cells + Covered(|s|, width, measure, text, x, y))
            == text[..Fits(|s|, width, measure, text, x, y)]
    decreases |s| - y, |text|, x
  {
    hide PutKeepingAttrs, Columns;
    if y >= |s| || text == [] {
    } else if x >= width {
      LaidThenRead(s, width, measure, text, 0, y + 1, cells);
    } else {
      var cw := Columns(measure, text[0]);
      var s' := s[y := PutKeepingAttrs(s[y], x, text[0], cw)];
      var n := if x + cw > width then width - x else cw;
      PutKeepingAttrsOk(s[y], x, text[0], cw);
      LaidThenRead(s', width, measure, text[1..], x + cw, y, cells + n);
      ReadAfterPut(s, width, measure, text, x, y, cells, cw, n, Laid(s', width, measure, text[1..], x + cw, y));
      assert text[..Fits(|s|, width, measure, text, x, y)]
          == [text[0]] + text[1..][..Fits(|s|, width, measure, text[1..], x + cw, y)];
    }
  }

  lemma KeptGlyph(row: Row, t: Row, x: nat, cw: nat)
    requires RowOk(row) && RowOk(t) && |row| == |t| && x < |row| && (cw == 1 || cw == 2)
    requires row[x].pos == 0 && (x + 1 < |row| ==> (LeadingHalf(row, x) <==> cw == 2))
    requires forall k :: 0 <= k < |row| && k < x + cw ==> t[k] == row[k]
    requires x + cw < |row| ==> Boundary(t, x + cw)
    ensures x + 1 < |t| ==> (LeadingHalf(t, x) <==> cw == 2)
  {}

  // ---- The column is a SHORT ----

  /** Columns below 0 are cast to columns no row has. */
  function PutAt(row: Row, x: int, ch: Char32, cw: nat): (r: Row)
    requires x < |row| && (cw == 1 || cw == 2)
    ensures |r| == |row|
  {
    if x < 0 then row else PutKeepingAttrs(row, x, ch, cw)
  }

  /** What is written: behind column 32767 the SHORT that counts the columns starts over from its least value. */
  function Written(s: seq<Row>, width: nat, measure: Char32 -> int, text: seq<Char32>, x: int, y: nat): (t: seq<Row>)
    requires forall z :: 0 <= z < |s| ==> |s[z]| == width
    ensures |t| == |s| && forall z :: 0 <= z < |t| ==> |t[z]| == width
    decreases |s| - y, |text|
  {
    if y >= |s| || text == [] then s
    else if x >= width then Written(s, width, measure, text, 0, y + 1)
    else
      var cw := Columns(measure, text[0]);
      Written(s[y := PutAt(s[y], x, text[0], cw)], width, measure, text[1..], Short(x + cw), y)
  }

  /** How many code points are counted as written. */
  function Counted(height: nat, width: nat, measure: Char32 -> int, text: seq<Char32>, x: int, y: nat): (n: nat)
    ensures n <= |text|
    decreases height - y, |text|
  {
    if y >= height || text == [] then 0
    else if x >= width then Counted(height, width, measure, text, 0, y + 1)
    else 1 + Counted(height, width, measure, text[1..], Short(x + Columns(measure, text[0])), y)
  }

  /** No code point with text behind it reaches over column 32767: only a wide one in the last column can. */
  predicate Straight(height: nat, width: nat, measure: Char32 -> int, text: seq<Char32>, x: nat, y: nat)
    decreases height - y, |text|
  {
    if y >= height || |text| <= 1 then true
    else if x >= width then Straight(height, width, measure, text, 0, y + 1)
    else
      var cw := Columns(measure, text[0]);
      x + cw <= 0x7FFF && Straight(height, width, measure, text[1..], x + cw, y)
  }

  /** In a narrower buffer none ever does. */
  lemma {:induction false} NarrowIsStraight(height: nat, width: nat, measure: Char32 -> int, text: seq<Char32>,
                                            x: nat, y: nat)
    requires width < 0x7FFF
    ensures Straight(height, width, measure, text, x, y)
    decreases height - y, |text|
  {
    if y >= height || |text| <= 1 {
    } else if x >= width {
      NarrowIsStraight(height, width, measure, text, 0, y + 1);
    } else {
      NarrowIsStraight(height, width, measure, text[1..], x + Columns(measure, text[0]), y);
    }
  }

  lemma {:induction false} StraightIsLaid(s: seq<Row>, width: nat, measure: Char32 -> int, text: seq<Char32>, x: nat, y: nat)
    requires (forall z :: 0 <= z < |s| ==> |s[z]| == width) && width <= 0x7FFF
    requires Straight(|s|, width, measure, text, x, y)
    ensures Written(s, width, measure, text, x, y) == Laid(s, width, measure, text, x, y)
    ensures Counted(|s|, width, measure, text, x, y) == Fits(|s|, width, measure, text, x, y)
    decreases |s| - y, |text|
  {
    hide PutKeepingAttrs, Columns;
    if y >= |s| || text == [] {
    } else if x >= width {
      StraightIsLaid(s, width, measure, text, 0, y + 1);
    } else {
      var cw := Columns(measure, text[0]);
      if |text| > 1 { StraightIsLaid(s[y := PutKeepingAttrs(s[y], x, text[0], cw)], width, measure, text[1..], x + cw, y); }
    }
  }

  /** No linear write changes an attribute or breaks a row. */
  lemma {:induction false} WrittenKeepsAttrs(s: seq<Row>, width: nat, measure: Char32 -> int, text: seq<Char32>,
                                             x: int, y: nat)
    requires ScreenOk(s, width)
    ensures ScreenOk(Written(s, width, measure, text, x, y), width)
    ensures forall z, k :: 0 <= z < |s| && 0 <= k < width ==>
              Written(s, width, measure, text, x, y)[z][k].attr == s[z][k].attr
    ensures forall z :: 0 <= z < |s| && z < y ==> Written(s, width, measure, text, x, y)[z] == s[z]
    decreases |s| - y, |text|
  {
    hide PutKeepingAttrs, Columns;
    if y >= |s| || text == [] {
    } else if x >= width {
      WrittenKeepsAttrs(s, width, measure, text, 0, y + 1);
    } else {
      var cw := Columns(measure, text[0]);
      if x >= 0 { PutKeepingAttrsOk(s[y], x, text[0], cw); }
      WrittenKeepsAttrs(s[y := PutAt(s[y], x, text[0], cw)], width, measure, text[1..], Short(x + cw), y);
    }
  }

  /** Nothing left of the start of a straight write is touched. */
  lemma WrittenFrame(s: seq<Row>, width: nat, measure: Char32 -> int, text: seq<Char32>, x: nat, y: nat)
    requires ScreenOk(s, width) && y < |s| && x < width <= 0x7FFF && Boundary(s[y], x)
    requires Straight(|s|, width, measure, text, x, y)
    ensures var t := Written(s, width, measure, text, x, y);
            && (forall z :: 0 <= z < y ==> t[z] == s[z])
            && (forall k :: 0 <= k < x ==> t[y][k] == s[y][k])
            && Boundary(t[y], x)
  {
    hide PutKeepingAttrs, Columns, Straight, Written, Laid;
    StraightIsLaid(s, width, measure, text, x, y);
    LaidFrame(s, width, measure, text, x, y);
  }

  /** Text of the basic plane, written straight across rows, reads back as itself over exactly the cells it covered. */
  lemma WriteThenRead(s: seq<Row>, width: nat, measure: Char32 -> int, text: seq<Char32>, x: nat, y: nat)
    requires ScreenOk(s, width) && width <= 0x7FFF && forall i :: 0 <= i < |text| ==> text[i] <= 0xFFFF
    requires Straight(|s|, width, measure, text, x, y)
    ensures Read(Written(s, width, measure, text, x, y), width, x, y, 0, Covered(|s|, width, measure, text, x, y))
            == text[..Counted(|s|, width, measure, text, x, y)]
  {
    hide Read, Written, Laid, Straight, Covered, Counted;
    StraightIsLaid(s, width, measure, text, x, y);
    LaidThenRead(s, width, measure, text, x, y, 0);
  }

  // ---- What a write that is not straight does ----

  /** The last column holds a narrow code point, or the second half of a wide one. */
  predicate NarrowEnd(row: Row, measure: Char32 -> int)
    requires |row| == 0x7FFF
  {
    row[0x7FFE].pos == 1 || (|row[0x7FFE].glyph| == 1 && Columns(measure, row[0x7FFE].glyph[0]) == 1)
  }

  lemma PutAtEnd(row: Row, x: nat, ch: Char32, measure: Char32 -> int)
    requires RowOk(row) && |row| == 0x7FFF && x < 0x7FFF && x + Columns(measure, ch) == 0x7FFF
    ensures NarrowEnd(PutKeepingAttrs(row, x, ch, Columns(measure, ch)), measure)
  {
    hide PutKeepingAttrs, Columns;
    PutStarts(row, x, ch, Columns(measure, ch));
  }

  /** A write goes on to the next row only where the row then ends so. */
  lemma {:induction false} LeavesNarrow(s: seq<Row>, measure: Char32 -> int, text: seq<Char32>, x: int, y: nat)
    requires ScreenOk(s, 0x7FFF) && y < |s| && -0x8000 <= x <= 0x7FFF
    requires x == 0x7FFF ==> NarrowEnd(s[y], measure)
    ensures var t := Written(s, 0x7FFF, measure, text, x, y);
            (forall z :: y < z < |s| ==> t[z] == s[z]) || NarrowEnd(t[y], measure)
    decreases |text|
  {
    hide PutKeepingAttrs, NarrowEnd;
    if text == [] {
    } else if x == 0x7FFF {
      WrittenKeepsAttrs(s, 0x7FFF, measure, text, 0, y + 1);
    } else {
      var cw := Columns(measure, text[0]);
      var row := PutAt(s[y], x, text[0], cw);
      if x >= 0 { PutKeepingAttrsOk(s[y], x, text[0], cw); }
      if x + cw == 0x7FFF { PutAtEnd(s[y], x, text[0], measure); }
      LeavesNarrow(s[y := row], measure, text[1..], Short(x + cw), y);
    }
  }

  lemma LaidFirst(s: seq<Row>, width: nat, measure: Char32 -> int, text: seq<Char32>, y: nat)
    requires ScreenOk(s, width) && y < |s| && text != [] && width > 0
    ensures Laid(s, width, measure, text, 0, y)[y][0].glyph == [text[0]]
    ensures forall z :: 0 <= z < y ==> Laid(s, width, measure, text, 0, y)[z] == s[z]
  {
    var cw := Columns(measure, text[0]);
    assert CellOk(s[y], 0);
    PutAtEdge(s[y], 0, text[0], cw);
    LaidFrame(s[y := PutKeepingAttrs(s[y], 0, text[0], cw)], width, measure, text[1..], cw, y);
  }

  /** No glyph of the text stands in the first column of a row below `y`. */
  predicate ForeignBelow(s: seq<Row>, text: seq<Char32>, y: nat) {
    forall z :: y < z < |s| ==> |s[z]| > 0 && forall i :: 0 <= i < |text| ==> s[z][0].glyph != [text[i]]
  }

  /** A wide code point in the last of 32767 columns loses the code point behind it. */
  lemma LosesNext(s: seq<Row>, measure: Char32 -> int, text: seq<Char32>, y: nat)
    requires ScreenOk(s, 0x7FFF) && y < |s| && |text| > 1 && Columns(measure, text[0]) == 2
    requires ForeignBelow(s, text, y)
    ensures !(Written(s, 0x7FFF, measure, text, 0x7FFE, y) == Laid(s, 0x7FFF, measure, text, 0x7FFE, y)
              && Counted(|s|, 0x7FFF, measure, text, 0x7FFE, y) == Fits(|s|, 0x7FFF, measure, text, 0x7FFE, y))
  {
    hide PutKeepingAttrs, Columns;
    var row := PutKeepingAttrs(s[y], 0x7FFE, text[0], 2);
    var s' := s[y := row];
    var rest := text[1..];
    PutStarts(s[y], 0x7FFE, text[0], 2);
    var a, b := Laid(s', 0x7FFF, measure, rest, 0x8000, y), Written(s', 0x7FFF, measure, rest, -0x8000, y);
    assert Short(0x8000) == -0x8000;
    assert a == Laid(s, 0x7FFF, measure, text, 0x7FFE, y) && b == Written(s, 0x7FFF, measure, text, 0x7FFE, y);
    if y + 1 < |s| {
      assert a == Laid(s', 0x7FFF, measure, rest, 0, y + 1);
      LaidFirst(s', 0x7FFF, measure, rest, y + 1);
      LeavesNarrow(s', measure, rest, -0x8000, y);
      assert a[y] == row && !NarrowEnd(row, measure);
      assert a[y + 1][0].glyph == [text[1]] != s'[y + 1][0].glyph;
    } else {
      assert Fits(|s|, 0x7FFF, measure, rest, 0x8000, y) == 0;
      assert Counted(|s|, 0x7FFF, measure, rest, -0x8000, y) > 0;
    }
  }

  lemma {:induction false} CrookedDiffers(s: seq<Row>, width: nat, measure: Char32 -> int, text: seq<Char32>, x: nat, y: nat)
    requires ScreenOk(s, width) && width <= 0x7FFF && ForeignBelow(s, text, y)
    requires !Straight(|s|, width, measure, text, x, y)
    ensures !(Written(s, width, measure, text, x, y) == Laid(s, width, measure, text, x, y)
              && Counted(|s|, width, measure, text, x, y) == Fits(|s|, width, measure, text, x, y))
    decreases |s| - y, |text|
  {
    hide PutKeepingAttrs, Columns;
    if x >= width {
      CrookedDiffers(s, width, measure, text, 0, y + 1);
    } else {
      var cw := Columns(measure, text[0]);
      if x + cw > 0x7FFF {
        LosesNext(s, measure, text, y);
      } else {
        PutKeepingAttrsOk(s[y], x, text[0], cw);
        CrookedDiffers(s[y := PutKeepingAttrs(s[y], x, text[0], cw)], width, measure, text[1..], x + cw, y);
      }
    }
  }

  /** The text is laid out as it should be, on every screen, exactly when the write is straight. */
  lemma WrittenIsLaid(height: nat, width: nat, measure: Char32 -> int, text: seq<Char32>, x: nat, y: nat)
    requires 0 < width <= 0x7FFF
    ensures Straight(height, width, measure, text, x, y) <==>
            forall s :: |s| == height && ScreenOk(s, width) ==>
              Written(s, width, measure, text, x, y) == Laid(s, width, measure, text, x, y)
              && Counted(height, width, measure, text, x, y) == Fits(height, width, measure, text, x, y)
  {
    hide Written, Laid, Counted, Fits, Straight;
    if Straight(height, width, measure, text, x, y) {
      forall s | |s| == height && ScreenOk(s, width)
        ensures Written(s, width, measure, text, x, y) == Laid(s, width, measure, text, x, y)
        ensures Counted(height, width, measure, text, x, y) == Fits(height, width, measure, text, x, y)
      {
        StraightIsLaid(s, width, measure, text, x, y);
      }
    } else {
      var s := ForeignScreen(height, width, text);
      CrookedDiffers(s, width, measure, text, x, y);
    }
  }

  /** A blank screen in a character the text does not hold. */
  lemma ForeignScreen(height: nat, width: nat, text: seq<Char32>) returns (s: seq<Row>)
    requires width > 0
    ensures |s| == height && ScreenOk(s, width) && forall y :: 0 <= y ==> ForeignBelow(s, text, y)
  {
    var ch := Above(text);
    UniformOk(width, ch, 0);
    AboveAll(text);
    s := seq(height, _ => Uniform(width, ch, 0));
  }

  lemma {:induction false} AboveAll(text: seq<Char32>)
    ensures forall i :: 0 <= i < |text| ==> text[i] < Above(text)
  {
    if text != [] { AboveAll(text[..|text| - 1]); }
  }

  function Above(text: seq<Char32>): Char32 {
    if text == [] then 0
    else
      var last, rest := text[|text| - 1], Above(text[..|text| - 1]);
      if last < rest then rest else last + 1
  }

  // ---- A write under way ----

  /** With `n` code points written, writing the rest from (x, y) leads to `final`, `total` of them counted in all. */
  ghost predicate Underway(s: seq<Row>, width: nat, measure: Char32 -> int, text: seq<Char32>, n: nat, x: int, y: nat,
                           final: seq<Row>, total: nat)
  {
    && n <= |text| && (forall z :: 0 <= z < |s| ==> |s[z]| == width)
    && Written(s, width, measure, text[n..], x, y) == final
    && n + Counted(|s|, width, measure, text[n..], x, y) == total
  }

  lemma UnderwayPut(s: seq<Row>, width: nat, measure: Char32 -> int, text: seq<Char32>, n: nat, x: int, y: nat,
                    final: seq<Row>, total: nat, cw: nat)
    requires Underway(s, width, measure, text, n, x, y, final, total) && n < |text| && x < width && y < |s|
    requires cw == Columns(measure, text[n])
    ensures Underway(s[y := PutAt(s[y], x, text[n], cw)], width, measure, text, n + 1, Short(x + cw), y, final, total)
  {
    assert text[n..][1..] == text[n + 1..];
  }

  lemma UnderwayRow(s: seq<Row>, width: nat, measure: Char32 -> int, text: seq<Char32>, n: nat, x: int, y: nat,
                    final: seq<Row>, total: nat)
    requires Underway(s, width, measure, text, n, x, y, final, total) && (n == |text| || x >= width)
    ensures Underway(s, width, measure, text, n, 0, y + 1, final, total)
  {}

  lemma UnderwayDone(s: seq<Row>, width: nat, measure: Char32 -> int, text: seq<Char32>, n: nat, x: int, y: nat,
                     final: seq<Row>, total: nat)
    requires Underway(s, width, measure, text, n, x, y, final, total) && (n == |text| || y >= |s|)
    ensures s == final && n == total
  {}
}
