/** The rows of a screen buffer as objects: every row is its own `ScreenRow`, and one changes at a time. */
module RowStores {
  import opened Cells
  import opened Encoding
  import opened RowCopy
  import opened RunLayouts
  import opened ScreenRows
  import opened Resizing
  import opened Scrolling
  import opened Shorts

  // ---- Single code points ----

  lemma SingleSplice(cells: seq<Cell>, lo: nat, run: seq<Cell>)
    requires SingleCodepoint(cells) && SingleCodepoint(run) && lo + |run| <= |cells|
    ensures SingleCodepoint(Splice(cells, lo, run))
  {}

  lemma SinglePut(cells: seq<Cell>, col: nat, glyph: seq<Char32>, width: int, attr: Attr)
    requires SingleCodepoint(cells) && |glyph| == 1
    ensures SingleCodepoint(Put(cells, col, glyph, width, attr))
  {
    if col < |cells| && width > 0 { SingleSplice(cells, col, Glyph(glyph, Clipped(col, width, |cells|), attr)); }
  }

  /** What a copy passes through holds single code points and fits. */
  lemma {:induction false} CopyStays(dst: Row, src: Row, from: nat, to: nat, n: nat)
    requires RowOk(dst) && TextFits(dst) && SingleCodepoint(dst) && RowOk(src) && SingleCodepoint(src)
    ensures RowOk(Copied(dst, src, from, to, n)) && TextFits(Copied(dst, src, from, to, n))
    ensures SingleCodepoint(Copied(dst, src, from, to, n))
  {
    hide RowOk, TextFits, Put;
    if n > 0 {
      CopyStays(dst, src, from, to, n - 1);
      if from + n <= |src| && to + n <= |dst| {
        var done := Copied(dst, src, from, to, n - 1);
        var c := src[from + n - 1];
        PutOk(done, to + n - 1, c.glyph, c.width, c.attr);
        PutFits(done, to + n - 1, c.glyph, c.width, c.attr);
        SinglePut(done, to + n - 1, c.glyph, c.width, c.attr);
      }
    }
  }

  /** A valid row of `width` columns of single code points. */
  ghost predicate RowHeld(r: ScreenRow, width: nat)
    reads r
  {
    r.Valid() && |r.cells| == width && SingleCodepoint(r.cells)
  }

  ghost function CellsOf(rows: seq<ScreenRow>): (s: seq<Row>)
    reads rows
    ensures |s| == |rows| && forall i :: 0 <= i < |rows| ==> s[i] == rows[i].cells
  {
    if rows == [] then [] else CellsOf(rows[..|rows| - 1]) + [rows[|rows| - 1].cells]
  }

  /** A row of its own, copied from another one. */
  method SavedCopy(src: ScreenRow, width: nat, attr: Attr, from: nat, to: nat, n: nat) returns (r: ScreenRow)
    requires RowHeld(src, width)
    ensures fresh(r) && RowHeld(r, width) && r.cells == Copied(Uniform(width, SPACE, attr), src.cells, from, to, n)
  {
    src.ValidRow();
    r := new ScreenRow(width, attr);
    r.ValidRow();
    forall k | 0 <= k <= n ensures TextFits(Copied(r.cells, src.cells, from, to, k)) {
      CopyStays(r.cells, src.cells, from, to, k);
    }
    CopyStays(r.cells, src.cells, from, to, n);
    r.CopyFrom(src, from, to, n);
  }

  /** Which row comes to stand at `i` when rows [from, to) are rotated by `count`. */
  function Turned(i: nat, from: nat, to: nat, count: nat): nat
    requires count <= to - from
  {
    if !(from <= i < to) then i else if i + count < to then i + count else i + count - (to - from)
  }

  lemma TurnedDiffers(n: nat, from: nat, to: nat, count: nat)
    requires from <= to <= n && count <= to - from
    ensures forall i :: 0 <= i < n ==> Turned(i, from, to, count) < n
    ensures forall i, j :: 0 <= i < j < n ==> Turned(i, from, to, count) != Turned(j, from, to, count)
  {}

  /** Text output on a row of single code points leaves one. */
  method WriteHeld(r: ScreenRow, width: nat, col: nat, run: seq<Char32>, widths: seq<nat>, cellCount: nat,
                   allSingleWidth: bool, attr: Attr, ghost ws: seq<nat>, ghost cells: seq<Cell>)
    requires RowHeld(r, width) && run != [] && col + cellCount <= width
    requires ws == Widths(run, widths, allSingleWidth) && |ws| == |run| && Positive(ws) && cellCount == Total(ws)
    requires cells == Run(run, ws, attr)
    modifies r
    ensures RowHeld(r, width) && r.cells == Splice(old(r.cells), col, cells)
  {
    RunOk(run, ws, attr);
    SingleSplice(r.cells, col, cells);
    r.WriteTextRun(col, run, widths, cellCount, allSingleWidth, attr);
  }

  class RowStore {
    var storage: seq<ScreenRow>
    ghost var Repr: set<ScreenRow>

    /** The rows are different objects, each of `width` columns. */
    ghost predicate Valid(width: nat)
      reads this, Repr
    {
      && (forall i :: 0 <= i < |storage| ==> storage[i] in Repr && RowHeld(storage[i], width))
      && (forall i, j :: 0 <= i < j < |storage| ==> storage[i] != storage[j])
    }

    ghost predicate Owned()
      reads this
    {
      forall i :: 0 <= i < |storage| ==> storage[i] in Repr
    }

    /** The rows as stored. */
    ghost function Contents(): (s: seq<Row>)
      requires Owned()
      reads this, Repr
      ensures |s| == |storage|
    {
      CellsOf(storage)
    }

    lemma ContentsOk(width: nat)
      requires Valid(width)
      ensures ScreenOk(Contents(), width)
    {
      forall i | 0 <= i < |storage| ensures |Contents()[i]| == width && RowOk(Contents()[i]) {
        storage[i].ValidRow();
      }
    }

    /** Blank rows. */
    constructor (width: nat, height: nat, attr: Attr)
      requires width <= OFFSET_MASK
      ensures Valid(width) && fresh(Repr) && Contents() == seq(height, _ => Uniform(width, SPACE, attr))
    {
      storage, Repr := [], {};
      new;
      MakeRows(width, height, attr);
    }

    /** As many new blank rows. */
    method MakeRows(width: nat, height: nat, attr: Attr)
      requires width <= OFFSET_MASK
      modifies this
      ensures Valid(width) && Owned() && |storage| == height && fresh(Repr)
      ensures Contents() == seq(height, _ => Uniform(width, SPACE, attr))
    {
      hide Uniform;
      storage, Repr := [], {};
      var y := 0;
      while y != height
        invariant 0 <= y == |storage| <= height && Valid(width) && fresh(Repr)
        invariant forall i :: 0 <= i < y ==> Contents()[i] == Uniform(width, SPACE, attr)
      {
        var r := BlankRow(width, attr);
        Append(r, width);
        y := y + 1;
      }
    }

    /** One more row. */
    method Append(r: ScreenRow, width: nat)
      requires Valid(width) && RowHeld(r, width) && r !in Repr
      modifies this
      ensures Valid(width) && |storage| == |old(storage)| + 1 && Repr == old(Repr) + {r}
      ensures Contents() == old(Contents()) + [r.cells]
    {
      hide RowHeld;
      ghost var was := Contents();
      Repr := Repr + {r};
      storage := storage + [r];
      assert forall i :: 0 <= i < |storage| - 1 ==> Contents()[i] == was[i];
    }

    static method BlankRow(width: nat, attr: Attr) returns (r: ScreenRow)
      requires width <= OFFSET_MASK
      ensures fresh(r) && RowHeld(r, width) && r.cells == Uniform(width, SPACE, attr)
    {
      r := new ScreenRow(width, attr);
      UniformSingle(width, SPACE, attr);
    }

    static lemma UniformSingle(width: nat, ch: Char32, attr: Attr)
      ensures SingleCodepoint(Uniform(width, ch, attr))
    {}

    /** Only row `i` changed: the others are other objects. */
    lemma OnlyRow(i: nat, width: nat, was: seq<Row>)
      requires Owned() && i < |storage| == |was|
      requires forall j :: 0 <= j < |storage| ==> RowHeld(storage[j], width) && (j != i ==> storage[j].cells == was[j])
      requires forall j, k :: 0 <= j < k < |storage| ==> storage[j] != storage[k]
      ensures Valid(width) && Contents() == was[i := storage[i].cells]
    {}

    /** Text output on one row. */
    method WriteText(i: nat, width: nat, col: nat, run: seq<Char32>, widths: seq<nat>, cellCount: nat,
                     allSingleWidth: bool, attr: Attr, ghost ws: seq<nat>, ghost cells: seq<Cell>)
      requires Valid(width) && i < |storage| && run != [] && col + cellCount <= width
      requires ws == Widths(run, widths, allSingleWidth) && |ws| == |run| && Positive(ws) && cellCount == Total(ws)
      requires cells == Run(run, ws, attr)
      modifies Repr
      ensures Valid(width) && Contents() == old(Contents())[i := Splice(old(Contents())[i], col, cells)]
    {
      WriteHeld(storage[i], width, col, run, widths, cellCount, allSingleWidth, attr, ws, cells);
      OnlyRow(i, width, old(Contents()));
    }

    /** write_glyph with one code point. */
    method PutGlyph(i: nat, width: nat, col: nat, ch: Char32, w: int, attr: Attr)
      requires Valid(width) && i < |storage|
      modifies Repr
      ensures Valid(width) && Contents() == old(Contents())[i := Put(old(Contents())[i], col, [ch], w, attr)]
    {
      var r := storage[i];
      r.ValidRow();
      PutFits(r.cells, col, [ch], w, attr);
      SinglePut(r.cells, col, [ch], w, attr);
      r.WriteGlyph(col, [ch], w, attr);
      OnlyRow(i, width, old(Contents()));
    }

    method SetAttr(i: nat, width: nat, col: nat, attr: Attr)
      requires Valid(width) && i < |storage|
      modifies Repr
      ensures Valid(width) && Contents() == old(Contents())[i := Painted(old(Contents())[i], col, col + 1, attr)]
    {
      var r := storage[i];
      r.SetAttr(col, attr);
      OnlyRow(i, width, old(Contents()));
    }

    /** _fill_row: the row's storage is reused, whatever it held. */
    method ResetRow(i: nat, width: nat, ch: Char32, attr: Attr)
      requires Valid(width) && i < |storage| && width <= OFFSET_MASK
      modifies Repr
      ensures Valid(width) && Contents() == old(Contents())[i := Uniform(width, ch, attr)]
    {
      var r := storage[i];
      UniformSingle(width, ch, attr);
      r.ResetFill(width, ch, attr);
      OnlyRow(i, width, old(Contents()));
    }

    /** copy_from another row. */
    method CopyInto(i: nat, width: nat, src: ScreenRow, from: nat, to: nat, n: nat)
      requires Valid(width) && i < |storage| && RowHeld(src, |src.cells|) && src !in Repr
      modifies Repr
      ensures Valid(width) && src.cells == old(src.cells) && RowHeld(src, |src.cells|)
      ensures Contents() == old(Contents())[i := Copied(old(Contents())[i], old(src.cells), from, to, n)]
    {
      var r := storage[i];
      r.ValidRow();
      src.ValidRow();
      forall k | 0 <= k <= n ensures TextFits(Copied(r.cells, src.cells, from, to, k)) {
        CopyStays(r.cells, src.cells, from, to, k);
      }
      CopyStays(r.cells, src.cells, from, to, n);
      r.CopyFrom(src, from, to, n);
      OnlyRow(i, width, old(Contents()));
    }

    /** Rows in another order: the objects move, nothing is copied. */
    method Reorder(order: seq<nat>, width: nat)
      requires Valid(width) && |order| == |storage|
      requires forall i :: 0 <= i < |order| ==> order[i] < |storage|
      requires forall i, j :: 0 <= i < j < |order| ==> order[i] != order[j]
      modifies this`storage
      ensures Valid(width) && |storage| == |old(storage)|
      ensures forall i :: 0 <= i < |order| ==> Contents()[i] == old(Contents())[order[i]]
    {
      var was := storage;
      storage := seq(|was|, i requires 0 <= i < |was| => was[order[i]]);
    }

    /** Rows [from, to) rotated by `count`. */
    method Rotate(from: nat, to: nat, count: nat, width: nat)
      requires Valid(width) && from <= to <= |storage| && count <= to - from
      modifies this`storage
      ensures Valid(width) && Owned() && |storage| == |old(storage)|
      ensures forall i :: 0 <= i < |storage| ==> Contents()[i] == old(Contents())[Turned(i, from, to, count)]
    {
      var n := |storage|;
      TurnedDiffers(n, from, to, count);
      Reorder(seq(n, i requires 0 <= i < n => Turned(i, from, to, count)), width);
    }

    /** New blank rows, and what they have room for of the old ones. */
    method Resize(oldWidth: nat, width: nat, height: nat)
      requires Valid(oldWidth) && width <= OFFSET_MASK
      modifies this
      ensures Valid(width) && Owned() && |storage| == height && fresh(Repr)
      ensures Contents() == Resized(old(Contents()), width, height)
    {
      var oldRows := storage;
      ghost var was, before := Contents(), Repr;
      HeldAs(oldWidth);
      hide Copied, Uniform, RowHeld, Valid, Contents;
      MakeRows(width, height, DEFAULT_ATTR);
      ghost var blank := seq(height, _ => Uniform(width, SPACE, DEFAULT_ATTR));
      CopyOverlap(oldRows, oldWidth, width, was, before, blank);
      OverlapIsResize(was, oldWidth, width, height, blank);
    }

    /** The rows hold the contents. */
    lemma HeldAs(width: nat)
      requires Valid(width)
      ensures HoldAll(storage, width, Contents(), Repr)
    {}

    method CopyOverlap(oldRows: seq<ScreenRow>, oldWidth: nat, width: nat, ghost was: seq<Row>,
                       ghost before: set<ScreenRow>, ghost blank: seq<Row>)
      requires Valid(width) && Repr !! before && HoldAll(oldRows, oldWidth, was, before) && Contents() == blank
      modifies Repr
      ensures Valid(width) && Owned()
      ensures Contents() == Overlapped(blank, was, oldWidth, Min(|was|, |blank|))
    {
      hide Copied, RowHeld;
      var copy := Min(|oldRows|, |storage|);
      var y := 0;
      while y != copy
        invariant 0 <= y <= copy && Valid(width) && HoldAll(oldRows, oldWidth, was, before)
        invariant Contents() == Overlapped(blank, was, oldWidth, y)
      {
        CopyRow(oldRows, y, oldWidth, width, was, before);
        y := y + 1;
      }
    }

    /** One of the old rows, which are other objects. */
    method CopyRow(oldRows: seq<ScreenRow>, y: nat, oldWidth: nat, width: nat, ghost was: seq<Row>,
                   ghost before: set<ScreenRow>)
      requires Valid(width) && Repr !! before && HoldAll(oldRows, oldWidth, was, before)
      requires y < |oldRows| && y < |storage|
      modifies Repr
      ensures Valid(width) && HoldAll(oldRows, oldWidth, was, before)
      ensures Contents() == old(Contents())[y := Copied(old(Contents())[y], was[y], 0, 0, oldWidth)]
    {
      CopyInto(y, width, oldRows[y], 0, 0, oldWidth);
    }
  }

  /** The rows are among `among` and hold `rows`. */
  ghost predicate HoldAll(held: seq<ScreenRow>, width: nat, rows: seq<Row>, among: set<ScreenRow>)
    reads held, among
  {
    && |held| == |rows|
    && forall i :: 0 <= i < |held| ==> held[i] in among && RowHeld(held[i], width) && held[i].cells == rows[i]
  }

  /** The first `n` rows of `was` copied onto those of `blank`. */
  ghost function Overlapped(blank: seq<Row>, was: seq<Row>, oldWidth: nat, n: nat): (s: seq<Row>)
    requires n <= |blank| && n <= |was|
    ensures |s| == |blank|
  {
    seq(|blank|, i requires 0 <= i < |blank| => if i < n then Copied(blank[i], was[i], 0, 0, oldWidth) else blank[i])
  }

  lemma OverlapIsResize(was: seq<Row>, oldWidth: nat, width: nat, height: nat, blank: seq<Row>)
    requires (forall i :: 0 <= i < |was| ==> |was[i]| == oldWidth)
    requires blank == seq(height, _ => Uniform(width, SPACE, DEFAULT_ATTR))
    ensures Overlapped(blank, was, oldWidth, Min(|was|, |blank|)) == Resized(was, width, height)
  {
    hide Copied, Uniform;
  }
}
