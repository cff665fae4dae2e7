/**
  The operations of the terminal that move lines inside the DECSTBM region, and what no sequence of them
  can reach: the rows outside it.
 */
module ScrollRegions {
  import opened Cells
  import opened Scrolling
  import opened Shorts
  import opened Terminals

  /** A count parameter as every one of them takes it: at least 1, then a SHORT. */
  function Count(n: int): int { Short(Max(1, n)) }

  datatype RegionOp = LF | RI | SU(n: int) | SD(n: int) | IL(n: int) | DL(n: int)

  function RegionOf(t: Term, view: Rect): Rect {
    Region(t.regionTop, t.regionBottom, view)
  }

  /** RI: at the region's top the region scrolls down, elsewhere the cursor goes up. */
  function ReverseIndex(t: Term, view: Rect, width: nat): Term {
    var r := RegionOf(t, view);
    var c := Clamped(t, view);
    if c.y == r.top then c.(screen := RegionScrolled(t, width, r, Short(r.top + 1))) else c.(y := c.y - 1)
  }

  /** IL and DL move the lines from the cursor's to the region's last, when the cursor is in the region. */
  function LinesMoved(t: Term, view: Rect, width: nat, destY: int): Term {
    var r := RegionOf(t, view);
    if r.top <= t.y <= r.bottom
    then t.(screen := RegionScrolled(t, width, Rect(r.left, t.y, r.right, r.bottom), Short(destY)))
    else t
  }

  function Perform(s: Term, view: Rect, width: nat, op: RegionOp): Term {
    var t := s.(pendingWrap := false);
    var r := RegionOf(t, view);
    match op
    case LF => LineFeed(t, view, width)
    case RI => ReverseIndex(t, view, width)
    case SU(n) => t.(screen := RegionScrolled(t, width, r, Short(r.top - Count(n))))
    case SD(n) => t.(screen := RegionScrolled(t, width, r, Short(r.top + Count(n))))
    case IL(n) => LinesMoved(t, view, width, t.y + Count(n))
    case DL(n) => LinesMoved(t, view, width, t.y - Count(n))
  }

  function PerformAll(t: Term, view: Rect, width: nat, ops: seq<RegionOp>): Term {
    if ops == [] then t
    else Perform(PerformAll(t, view, width, ops[..|ops| - 1]), view, width, ops[|ops| - 1])
  }

  lemma PerformFrame(t: Term, view: Rect, width: nat, op: RegionOp, y: nat)
    requires y < |t.screen| && !(RegionOf(t, view).top <= y <= RegionOf(t, view).bottom)
    ensures var u := Perform(t, view, width, op);
            |u.screen| == |t.screen| && u.screen[y] == t.screen[y] && RegionOf(u, view) == RegionOf(t, view)
  {
    hide Scrolled, Short;
    var r := RegionOf(t, view);
    var lines := Rect(r.left, t.y, r.right, r.bottom);
    forall destY: int ensures RegionScrolled(t.(pendingWrap := false), width, r, destY)[y] == t.screen[y] {
      ScrollFrame(t.screen, width, r, r, r.left, destY, SPACE, t.attr, y);
    }
    if r.top <= t.y <= r.bottom {
      forall destY: int ensures RegionScrolled(t.(pendingWrap := false), width, lines, destY)[y] == t.screen[y] {
        ScrollFrame(t.screen, width, lines, lines, lines.left, destY, SPACE, t.attr, y);
      }
    }
  }

  /** No sequence of line feeds, reverse indexes, scrolls and line moves changes a row outside the region. */
  lemma {:induction false} RegionFrame(t: Term, view: Rect, width: nat, ops: seq<RegionOp>, y: nat)
    requires y < |t.screen| && !(RegionOf(t, view).top <= y <= RegionOf(t, view).bottom)
    ensures var u := PerformAll(t, view, width, ops);
            |u.screen| == |t.screen| && u.screen[y] == t.screen[y] && RegionOf(u, view) == RegionOf(t, view)
  {
    hide Perform, Region;
    if ops != [] {
      RegionFrame(t, view, width, ops[..|ops| - 1], y);
      PerformFrame(PerformAll(t, view, width, ops[..|ops| - 1]), view, width, ops[|ops| - 1], y);
    }
  }

  /** The lines an operation moves, and by how many they go up. */
  function Lines(t: Term, view: Rect, op: RegionOp): Rect {
    var r := RegionOf(t, view);
    if op.IL? || op.DL? then r.(top := t.y) else r
  }

  function GoUp(t: Term, view: Rect, op: RegionOp): int {
    var r := RegionOf(t, view);
    match op
    case LF => if t.y == r.bottom then 1 else 0
    case RI => if t.y == r.top then -1 else 0
    case SU(n) => Max(1, n)
    case SD(n) => -Max(1, n)
    case IL(n) => if r.top <= t.y <= r.bottom then -Max(1, n) else 0
    case DL(n) => if r.top <= t.y <= r.bottom then Max(1, n) else 0
  }

  /** Column `x` of row `y` after the lines of `r` went up by `up`. */
  predicate Shows(s: seq<Row>, u: seq<Row>, attr: Attr, width: nat, r: Rect, up: int, x: nat, y: nat) {
    && |u| == |s| && y < |s| && |u[y]| == |s[y]| == width && x < width
    && (Inside(r, x, y) && r.top <= y + up <= r.bottom ==> 0 <= y + up < |s| && |s[y + up]| == width)
    && u[y][x] == if up == 0 then s[y][x] else MovedCell(s, attr, r, up, x, y)
  }

  /**
    Which way lines go, and which: LF on the last line, SU and DL take them up, RI on the first line, SD and IL down;
    what they leave is blank in the current attribute and no other cell changes. The counts hold as they are given,
    also where the SHORT sum of line and count wraps around.
   */
  lemma PerformShows(t: Term, view: Rect, width: nat, op: RegionOp, x: nat, y: nat)
    requires ViewOk(view, width, t.screen) && Movable(view, width, t.screen) && InView(t, view)
    requires y < |t.screen| && x < width && ((op.SU? || op.SD? || op.IL? || op.DL?) ==> op.n <= 0x7FFF)
    ensures Shows(t.screen, Perform(t, view, width, op).screen, t.attr, width, Lines(t, view, op), GoUp(t, view, op), x, y)
  {
    hide RegionScrolled, Region, Shows, Movable, ScreenOk, Short, LinesMoved;
    RegionInView(t, view);
    var s := t.(pendingWrap := false);
    var r := RegionOf(t, view);
    assert RegionOf(s, view) == r;
    Unmoved(t.screen, Perform(t, view, width, op).screen, t.attr, width, Lines(t, view, op), x, y);
    match op
    case LF => ShortSums(r.top, 1); LinesGo(s, view, width, r, r.top - 1, 1, x, y);
    case RI => LinesGo(s, view, width, r, Short(r.top + 1), -1, x, y);
    case SU(n) => CountIs(n); LinesGo(s, view, width, r, Short(r.top - Count(n)), Max(1, n), x, y);
    case SD(n) => CountIs(n); LinesGo(s, view, width, r, Short(r.top + Count(n)), -Max(1, n), x, y);
    case IL(n) => CountIs(n); LinesMovedShows(s, view, width, -Max(1, n), x, y);
    case DL(n) => CountIs(n); LinesMovedShows(s, view, width, Max(1, n), x, y);
  }

  /** LF goes to the left edge and, off the region's last line, down; RI goes up off its first line; the others stay. */
  lemma PerformMoves(t: Term, view: Rect, width: nat, op: RegionOp)
    requires InView(t, view) && view.bottom < 0x7FFF && 0 <= view.top
    ensures var r := RegionOf(t, view);
            var x := if op == LF then view.left else t.x;
            var y := if op == LF && t.y != r.bottom && t.y != view.bottom then t.y + 1
                     else if op == RI && t.y != r.top then t.y - 1
                     else t.y;
            Perform(t, view, width, op).(screen := t.screen) == t.(x := x, y := y, pendingWrap := false)
  {
    hide RegionScrolled, Region;
  }

  lemma Unmoved(s: seq<Row>, u: seq<Row>, attr: Attr, width: nat, r: Rect, x: nat, y: nat)
    requires ScreenOk(s, width) && y < |s| && x < width && 0 <= r.top && r.bottom < |s|
    ensures u == s ==> Shows(s, u, attr, width, r, 0, x, y)
  {}

  lemma CountIs(n: int)
    requires n <= 0x7FFF
    ensures Count(n) == Max(1, n)
  {}

  lemma LinesMovedShows(t: Term, view: Rect, width: nat, up: int, x: nat, y: nat)
    requires ViewOk(view, width, t.screen) && Movable(view, width, t.screen) && y < |t.screen| && x < width
    requires -0x7FFF <= up <= 0x7FFF && up != 0
    ensures var r := RegionOf(t, view);
            var u := LinesMoved(t, view, width, t.y - up);
            Shows(t.screen, u.screen, t.attr, width, r.(top := t.y), if r.top <= t.y <= r.bottom then up else 0, x, y)
  {
    assert |t.screen[y]| == width;
    hide RegionScrolled, Region, MovedCell, Movable, ScreenOk;
    RegionInView(t, view);
    var r := RegionOf(t, view);
    if r.top <= t.y <= r.bottom { LinesGo(t, view, width, r.(top := t.y), Short(t.y - up), up, x, y); }
  }

  /** The destination may have wrapped around: then all lines are lost either way. */
  lemma LinesGo(t: Term, view: Rect, width: nat, r: Rect, destY: int, up: int, x: nat, y: nat)
    requires ViewOk(view, width, t.screen) && Movable(view, width, t.screen) && y < |t.screen| && x < width
    requires r.left == view.left && r.right == view.right && (view.top <= r.top <= r.bottom <= view.bottom)
    requires -0x7FFF <= up <= 0x7FFF && up != 0 && destY == Short(r.top - up)
    ensures Shows(t.screen, RegionScrolled(t, width, r, destY), t.attr, width, r, up, x, y)
  {
    hide Scrolled, Movable;
    LinesMove(t, view, width, r, r.top - destY, x, y);
  }

  /** Row moves inside a viewport as wide as the buffer move whole rows, whatever they hold. */
  lemma WholeRows(t: Term, view: Rect, width: nat, lines: Rect, destY: int)
    requires ViewOk(view, width, t.screen) && view.left == 0 && view.right == width - 1
    requires lines.left == view.left && lines.right == view.right && view.top <= lines.top <= lines.bottom <= view.bottom
    requires destY != lines.top
    ensures RegionScrolled(t, width, lines, destY) ==
            ShiftRows(t.screen, lines.top, lines.bottom, destY - lines.top, Uniform(width, SPACE, t.attr))
  {}

  /**
    IL n and then DL n on the same line, for every count: the lines from the cursor's down are back, except
    the last n of the region, which are blank, and no other row has changed. It holds also where the
    SHORT sum of row and count wraps around, since then every line of the region is lost.
   */
  lemma InsertThenDelete(t: Term, view: Rect, width: nat, n: int, y: nat)
    requires ViewOk(view, width, t.screen) && view.left == 0 && view.right == width - 1
    requires InView(t, view) && n <= 0x7FFF && y < |t.screen|
    requires RegionOf(t, view).top <= t.y <= RegionOf(t, view).bottom
    ensures var u := Perform(Perform(t, view, width, IL(n)), view, width, DL(n));
            var bottom := RegionOf(t, view).bottom;
            && |u.screen| == |t.screen| && u.x == t.x && u.y == t.y
            && u.screen[y] == if t.y <= y <= bottom && bottom - Max(1, n) < y then Uniform(width, SPACE, t.attr)
                              else t.screen[y]
  {
    hide Scrolled, ScreenOk, Region, ShiftRows, Short, LinesMoved;
    var bottom := RegionOf(t, view).bottom;
    var c := Max(1, n);
    ShortSums(t.y, c);
    RegionInView(t, view);
    var s := t.(pendingWrap := false);
    var blank := Uniform(width, SPACE, t.attr);
    LinesAreWhole(s, view, width, t.y + c);
    var a := Perform(t, view, width, IL(n));
    assert a == s.(screen := ShiftRows(t.screen, t.y, bottom, Short(t.y + c) - t.y, blank));
    ShiftRowsOk(t.screen, width, t.y, bottom, Short(t.y + c) - t.y, t.attr);
    LinesAreWhole(a, view, width, t.y - c);
    assert Perform(a, view, width, DL(n)) == a.(screen := ShiftRows(a.screen, t.y, bottom, 0 - c, blank));
    ShiftThere(t.screen, t.y, bottom, c, blank, y);
  }

  lemma ShortSums(a: int, k: int)
    requires 0 <= a <= 0x7FFF && 1 <= k <= 0x7FFF
    ensures Short(k) == k && Short(a - k) == a - k
    ensures Short(a + k) == if a + k <= 0x7FFF then a + k else a + k - 0x10000
  {}

  lemma RegionInView(t: Term, view: Rect)
    requires view.top <= view.bottom
    ensures var r := RegionOf(t, view);
            r.left == view.left && r.right == view.right && view.top <= r.top <= r.bottom <= view.bottom
  {}

  lemma LinesAreWhole(t: Term, view: Rect, width: nat, destY: int)
    requires ViewOk(view, width, t.screen) && view.left == 0 && view.right == width - 1
    requires RegionOf(t, view).top <= t.y <= RegionOf(t, view).bottom && Short(destY) != t.y
    ensures var bottom := RegionOf(t, view).bottom;
            0 <= t.y <= bottom < |t.screen| &&
            LinesMoved(t, view, width, destY) ==
              t.(screen := ShiftRows(t.screen, t.y, bottom, Short(destY) - t.y, Uniform(width, SPACE, t.attr)))
  {
    hide Scrolled, ScreenOk, Region, ShiftRows, Short;
    RegionInView(t, view);
    var r := RegionOf(t, view);
    WholeRows(t, view, width, Rect(r.left, t.y, r.right, r.bottom), Short(destY));
  }

  lemma ShiftRowsOk(s: seq<Row>, width: nat, top: nat, bottom: nat, dy: int, attr: Attr)
    requires ScreenOk(s, width) && top <= bottom < |s|
    ensures ScreenOk(ShiftRows(s, top, bottom, dy, Uniform(width, SPACE, attr)), width)
  {
    UniformOk(width, SPACE, attr);
  }

  /** Down and back up again. */
  lemma ShiftThere(s: seq<Row>, top: nat, bottom: nat, count: int, blank: Row, y: nat)
    requires top <= bottom < |s| <= 0x7FFF && 1 <= count <= 0x7FFF && y < |s|
    ensures ShiftRows(ShiftRows(s, top, bottom, Short(top + count) - top, blank), top, bottom, 0 - count, blank)[y]
         == if top <= y <= bottom && bottom - count < y then blank else s[y]
  {}

  /** RI leaves the viewport exactly where the cursor is on its top row and the region starts further down. */
  lemma ReverseIndexStays(t: Term, view: Rect, width: nat)
    requires view.left <= view.right && view.top <= view.bottom
    ensures InView(ReverseIndex(t, view, width), view) <==> t.y > view.top || RegionOf(t, view).top == view.top
  {}

  /** DECSTBM. */
  function SetRegion(t: Term, view: Rect, top: int, bottom: int): Term {
    var height := view.bottom - view.top + 1;
    var a := Between(top, 1, height);
    var b := if bottom <= 0 then height else Between(bottom, 1, height);
    t.(regionTop := if a < b then a else 1, regionBottom := if a < b && b != height then b else 0,
       x := view.left, y := view.top)
  }

  /** Margins in order select their rows of the viewport, cut to it; margins out of order select all of it. */
  lemma SetRegionSelects(t: Term, view: Rect, top: int, bottom: int)
    requires view.left <= view.right && view.top <= view.bottom
    ensures var height := view.bottom - view.top + 1;
            var u := SetRegion(t, view, top, bottom);
            var last := if bottom <= 0 || bottom > height then height else bottom;
            && InView(u, view)
            && RegionOf(u, view) == if Max(top, 1) < last
                                    then Rect(view.left, view.top + Max(top, 1) - 1, view.right, view.top + last - 1)
                                    else view
  {}

  /** The relative moves of the cursor: CUU, CUD, CUF, CUB, CNL and CPL. */
  datatype CursorMove = Up(n: int) | Down(n: int) | Forward(n: int) | Backward(n: int) | NextLine(n: int) | PrevLine(n: int)

  function MoveCursor(s: Term, view: Rect, m: CursorMove): Term {
    var t := s.(pendingWrap := false);
    match m
    case Up(n) => t.(y := Max(view.top, Short(t.y - Count(n))))
    case Down(n) => t.(y := Min(view.bottom, Short(t.y + Count(n))))
    case Forward(n) => t.(x := Min(view.right, Short(t.x + Count(n))))
    case Backward(n) => t.(x := Max(view.left, Short(t.x - Count(n))))
    case NextLine(n) => t.(x := view.left, y := Min(view.bottom, Short(t.y + Count(n))))
    case PrevLine(n) => t.(x := view.left, y := Max(view.top, Short(t.y - Count(n))))
  }

  /** Where the cursor is meant to go: as many lines or columns as asked, and not past the edge of the viewport. */
  function Meant(t: Term, view: Rect, m: CursorMove): (p: (int, int))
    requires InView(t, view)
    ensures view.left <= p.0 <= view.right && view.top <= p.1 <= view.bottom
  {
    var k := Max(1, m.n);
    var up, down := Max(view.top, t.y - k), Min(view.bottom, t.y + k);
    match m
    case Up(_) => (t.x, up)
    case Down(_) => (t.x, down)
    case Forward(_) => (Min(view.right, t.x + k), t.y)
    case Backward(_) => (Max(view.left, t.x - k), t.y)
    case NextLine(_) => (view.left, down)
    case PrevLine(_) => (view.left, up)
  }

  /** The sum of place and count that the moves down and right cut to a SHORT before they look at the edge. */
  function Sum(t: Term, m: CursorMove): int {
    match m
    case Down(n) => t.y + Max(1, n)
    case NextLine(n) => t.y + Max(1, n)
    case Forward(n) => t.x + Max(1, n)
    case _ => 0
  }

  /** A move ends where it is meant to exactly where its sum is a SHORT; any other leaves the viewport. */
  lemma CursorMoveStays(t: Term, view: Rect, m: CursorMove)
    requires InView(t, view) && 0 <= view.top && 0 <= view.left && m.n <= 0x7FFF
    requires view.bottom <= 0x7FFF && view.right <= 0x7FFF
    ensures var u := MoveCursor(t, view, m);
            && (Sum(t, m) <= 0x7FFF <==> (u.x, u.y) == Meant(t, view, m))
            && (Sum(t, m) <= 0x7FFF <==> InView(u, view))
            && u.screen == t.screen
  {
    hide Short;
    var k := Max(1, m.n);
    ShortSums(t.x, k);
    ShortSums(t.y, k);
  }
}
