/** The terminal in front of the line editor: what it shows after the VT the editor sent. */
module HostTerminals {
  import opened Cells
  import opened Options
  import opened VtMessages
  import opened VtDispatch
  import opened VtParsers
  import opened VtPrinters

  type TextRow = seq<Char32>

  /** Narrow text, a 0-based cursor and the delayed wrap behind the last column. */
  datatype Host = Host(rows: seq<TextRow>, width: nat, x: nat, y: nat, wrap: bool)

  ghost predicate HostOk(h: Host) {
    && 0 < h.width <= 32767 && 0 < |h.rows| <= 32767 && h.x < h.width && h.y < |h.rows|
    && forall i :: 0 <= i < |h.rows| ==> |h.rows[i]| == h.width
  }

  /** What the line editor sends. */
  datatype Op = Put(ch: Char32) | Left | DeleteHere | EraseRight | MoveTo(row: nat, col: nat)

  predicate OpOk(op: Op) {
    match op
    case Put(ch) => !IsControl(ch)
    case MoveTo(row, col) => row < 0x7FFF && col < 0x7FFF
    case _ => true
  }

  // ---- The VT of an operation ----

  function OpText(op: Op): seq<Char32> {
    match op
    case Put(ch) => [ch]
    case Left => CsiText(false, [Empty], [], 0x44)
    case DeleteHere => CsiText(false, [Empty], [], 0x50)
    case EraseRight => CsiText(false, [Empty], [], 0x4B)
    case MoveTo(row, col) => CsiText(false, [Num(row + 1), Num(col + 1)], [], 0x48)
  }

  function OpMsg(op: Op): Msg {
    match op
    case Put(ch) => TextRun([ch])
    case Left => Count(CUB, 1)
    case DeleteHere => Count(DCH, 1)
    case EraseRight => EraseLine(0)
    case MoveTo(row, col) => Position(row + 1, col + 1)
  }

  function OpsText(ops: seq<Op>): seq<Char32> {
    if ops == [] then [] else OpsText(ops[..|ops| - 1]) + OpText(ops[|ops| - 1])
  }

  function Msgs(es: seq<Event>): (ms: seq<Msg>)
    ensures |ms| == |es|
  {
    seq(|es|, i requires 0 <= i < |es| => es[i].msg)
  }

  function OpMsgs(ops: seq<Op>): (ms: seq<Msg>)
    ensures |ms| == |ops|
  {
    seq(|ops|, i requires 0 <= i < |ops| => OpMsg(ops[i]))
  }

  lemma OpParses(op: Op)
    requires OpOk(op)
    ensures Steps(FRESH, OpText(op)).0 == FRESH && Msgs(Steps(FRESH, OpText(op)).1) == [OpMsg(op)]
  {
    hide Steps, CsiText, Values, DispatchCsi;
    match op
    case Put(ch) => StepsOne(FRESH, ch);
    case Left => ValuesOne(Empty); CountDispatched(CUB, 0); CsiOpParses([Empty], 0x44, OpMsg(op));
    case DeleteHere => ValuesOne(Empty); CountDispatched(DCH, 0); CsiOpParses([Empty], 0x50, OpMsg(op));
    case EraseRight => ValuesOne(Empty); OthersDispatched(1, 1); CsiOpParses([Empty], 0x4B, OpMsg(op));
    case MoveTo(row, col) =>
      ValuesTwo(Num(row + 1), Num(col + 1));
      OthersDispatched(row + 1, col + 1);
      CsiOpParses([Num(row + 1), Num(col + 1)], 0x48, OpMsg(op));
  }

  lemma OthersDispatched(row: int, col: int)
    requires row > 0 && col > 0
    ensures DispatchCsi(0x4B, [0], false, 0, false) == Some(EraseLine(0))
    ensures DispatchCsi(0x48, [row, col], false, 0, false) == Some(Position(row, col))
  {}

  lemma CsiOpParses(fs: seq<Field>, final: Char32, m: Msg)
    requires 1 <= |fs| <= 16 && 0x40 <= final <= 0x7E && DispatchCsi(final, Values(fs), false, 0, false) == Some(m)
    ensures var text := CsiText(false, fs, [], final);
            Steps(FRESH, text).0 == FRESH && Msgs(Steps(FRESH, text).1) == [m]
  {
    hide DispatchCsi, Steps, CsiText, Values;
    CsiParses(FRESH, false, fs, [], final);
  }

  /** A VT parser makes of the editor's output the operations it meant. */
  lemma {:induction false} OpsParse(ops: seq<Op>)
    requires forall i :: 0 <= i < |ops| ==> OpOk(ops[i])
    ensures Steps(FRESH, OpsText(ops)).0 == FRESH && Msgs(Steps(FRESH, OpsText(ops)).1) == OpMsgs(ops)
  {
    hide Steps, OpText, OpMsg, OpOk;
    if ops == [] {
      NoSteps(FRESH);
    } else {
      var n := |ops| - 1;
      OpsParse(ops[..n]);
      OpParses(ops[n]);
      StepsConcat(FRESH, OpsText(ops[..n]), OpText(ops[n]));
      assert Msgs(Steps(FRESH, OpsText(ops)).1) == OpMsgs(ops[..n]) + [OpMsg(ops[n])];
    }
  }

  // ---- What the terminal does ----

  function Blanks(n: nat): (r: TextRow)
    ensures |r| == n && forall i :: 0 <= i < n ==> r[i] == SPACE
  {
    seq(n, _ => SPACE)
  }

  /** To the next row, scrolling at the bottom. */
  function Wrapped(h: Host): (r: Host)
    requires HostOk(h)
    ensures HostOk(r)
  {
    if h.y + 1 < |h.rows| then h.(x := 0, y := h.y + 1, wrap := false)
    else h.(rows := h.rows[1..] + [Blanks(h.width)], x := 0, wrap := false)
  }

  function Exec(h: Host, op: Op): Host
    requires HostOk(h)
  {
    match op
    case Put(ch) =>
      var g := if h.wrap then Wrapped(h) else h;
      var row: TextRow := g.rows[g.y][g.x := ch];
      var drawn := g.(rows := g.rows[g.y := row]);
      if g.x + 1 == g.width then drawn.(wrap := true) else drawn.(x := g.x + 1)
    case Left => h.(x := if h.x == 0 then 0 else h.x - 1, wrap := false)
    case DeleteHere =>
      h.(rows := h.rows[h.y := h.rows[h.y][..h.x] + h.rows[h.y][h.x + 1..] + [SPACE]], wrap := false)
    case EraseRight => h.(rows := h.rows[h.y := h.rows[h.y][..h.x] + Blanks(h.width - h.x)], wrap := false)
    case MoveTo(row, col) =>
      h.(x := if col < h.width then col else h.width - 1, y := if row < |h.rows| then row else |h.rows| - 1, wrap := false)
  }

  lemma ExecOk(h: Host, op: Op)
    requires HostOk(h)
    ensures HostOk(Exec(h, op)) && Exec(h, op).width == h.width && |Exec(h, op).rows| == |h.rows|
  {}

  function ExecAll(h: Host, ops: seq<Op>): (r: Host)
    requires HostOk(h)
    ensures HostOk(r)
  {
    if ops == [] then h
    else
      var g := ExecAll(h, ops[..|ops| - 1]);
      ExecOk(g, ops[|ops| - 1]);
      Exec(g, ops[|ops| - 1])
  }

  lemma {:induction false} ExecConcat(h: Host, a: seq<Op>, b: seq<Op>)
    requires HostOk(h)
    ensures ExecAll(h, a + b) == ExecAll(ExecAll(h, a), b)
  {
    hide Exec, HostOk;
    if b == [] {
      assert a + b == a;
    } else {
      ExecConcat(h, a, b[..|b| - 1]);
      assert (a + b)[..|a + b| - 1] == a + b[..|b| - 1];
    }
  }

  lemma ExecOne(h: Host, op: Op)
    requires HostOk(h)
    ensures ExecAll(h, [op]) == Exec(h, op)
  {
    hide Exec, HostOk;
    assert [op][..0] == [];
    assert ExecAll(h, []) == h;
  }

  function Puts(text: TextRow): (ops: seq<Op>)
    ensures |ops| == |text|
  {
    seq(|text|, i requires 0 <= i < |text| => Put(text[i]))
  }

  /** The cursor's row replaced, and the cursor's column. */
  function WithRow(h: Host, row: TextRow, x: nat): Host
    requires h.y < |h.rows|
  {
    h.(rows := h.rows[h.y := row], x := x, wrap := false)
  }

  /** `text` over `row` from column `x`. */
  function Over(row: TextRow, x: nat, text: TextRow): (r: TextRow)
    requires x + |text| <= |row|
    ensures |r| == |row|
  {
    row[..x] + text + row[x + |text|..]
  }

  /** The cursor's row replaced, the cursor `n` columns on; behind the last column it stays, the wrap delayed. */
  function Ended(h: Host, row: TextRow, n: nat): Host
    requires h.y < |h.rows| && h.x + n <= h.width && 0 < h.width
  {
    if h.x + n < h.width then WithRow(h, row, h.x + n) else WithRow(h, row, h.width - 1).(wrap := true)
  }

  /** Text that fits is all on the cursor's row. */
  lemma {:induction false} PutsWrite(h: Host, text: TextRow)
    requires HostOk(h) && !h.wrap && h.x + |text| <= h.width
    ensures ExecAll(h, Puts(text)) == Ended(h, Over(h.rows[h.y], h.x, text), |text|)
  {
    if text == [] {
      assert Over(h.rows[h.y], h.x, text) == h.rows[h.y];
    } else {
      var n := |text| - 1;
      PutsWrite(h, text[..n]);
      assert Puts(text)[..n] == Puts(text[..n]);
      var g := ExecAll(h, Puts(text[..n]));
      var row: TextRow := g.rows[g.y][g.x := text[n]];
      assert row == Over(h.rows[h.y], h.x, text);
      assert g.rows[g.y := row] == h.rows[h.y := row];
    }
  }

  // ---- The terminal at the other end of the VT ----

  /** A message executed; text comes one code point at a time. */
  function ExecMsg(h: Host, m: Msg): Host
    requires HostOk(h)
  {
    match m
    case TextRun(t) => if |t| == 1 then Exec(h, Put(t[0])) else h
    case Count(id, n) =>
      if id == CUB then h.(x := if h.x <= n then 0 else if n < 0 then h.x else h.x - n, wrap := false)
      else if id == DCH && 0 <= n <= h.width - h.x then
        h.(rows := h.rows[h.y := h.rows[h.y][..h.x] + h.rows[h.y][h.x + n..] + Blanks(n)], wrap := false)
      else h
    case EraseLine(mode) => if mode == 0 then Exec(h, EraseRight) else h
    case Position(row, col) => if row >= 1 && col >= 1 then Exec(h, MoveTo(row - 1, col - 1)) else h
    case _ => h
  }

  lemma ExecMsgOk(h: Host, m: Msg)
    requires HostOk(h)
    ensures HostOk(ExecMsg(h, m))
  {}

  lemma ExecIsMsg(h: Host, op: Op)
    requires HostOk(h)
    ensures ExecMsg(h, OpMsg(op)) == Exec(h, op)
  {
    if op == DeleteHere { assert Blanks(1) == [SPACE]; }
  }

  function ExecMsgs(h: Host, ms: seq<Msg>): (r: Host)
    requires HostOk(h)
    ensures HostOk(r)
  {
    if ms == [] then h
    else
      var g := ExecMsgs(h, ms[..|ms| - 1]);
      ExecMsgOk(g, ms[|ms| - 1]);
      ExecMsg(g, ms[|ms| - 1])
  }

  lemma {:induction false} ExecAllIsMsgs(h: Host, ops: seq<Op>)
    requires HostOk(h)
    ensures ExecMsgs(h, OpMsgs(ops)) == ExecAll(h, ops)
  {
    hide Exec, ExecMsg, OpMsg;
    if ops != [] {
      var n := |ops| - 1;
      ExecAllIsMsgs(h, ops[..n]);
      assert OpMsgs(ops)[..n] == OpMsgs(ops[..n]);
      ExecIsMsg(ExecAll(h, ops[..n]), ops[n]);
    }
  }

  /** A terminal that parses the editor's VT and executes the messages does what the editor meant. */
  lemma ExecutedThroughVt(h: Host, ops: seq<Op>)
    requires HostOk(h) && forall i :: 0 <= i < |ops| ==> OpOk(ops[i])
    ensures ExecMsgs(h, Msgs(Steps(FRESH, OpsText(ops)).1)) == ExecAll(h, ops)
  {
    hide Exec, ExecMsg, OpMsg, Steps;
    OpsParse(ops);
    ExecAllIsMsgs(h, ops);
  }
}
