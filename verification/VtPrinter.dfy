/** Messages written out as VT, and what the parser makes of them again. */
module VtPrinters {
  import opened Cells
  import opened Options
  import opened SgrPayloads
  import opened Shorts
  import opened VtMessages
  import opened VtDispatch
  import opened VtParsers

  // ---- Printing ----

  function Digits(n: nat): (d: seq<Char32>)
    ensures d != []
  {
    if n < 10 then [0x30 + n] else Digits(n / 10) + [0x30 + n % 10]
  }

  /** A parameter as it stands in the sequence: nothing, or a number. */
  datatype Field = Empty | Num(n: nat)

  function FieldText(f: Field): seq<Char32> {
    if f.Empty? then [] else Digits(f.n)
  }

  /** Parameters with semicolons between them. */
  function Fields(fs: seq<Field>): seq<Char32> {
    if fs == [] then []
    else if |fs| == 1 then FieldText(fs[0])
    else Fields(fs[..|fs| - 1]) + [SEMICOLON] + FieldText(fs[|fs| - 1])
  }

  /** ESC [ parameters, intermediates, the final. */
  function CsiText(marked: bool, fs: seq<Field>, inter: seq<Char32>, final: Char32): seq<Char32> {
    [ESC, 0x5B] + (if marked then [0x3F] else []) + Fields(fs) + inter + [final]
  }

  function FinalOf(id: CountId): Char32 {
    match id
    case CUU => 0x41 case CUD => 0x42 case CUF => 0x43 case CUB => 0x44
    case CNL => 0x45 case CPL => 0x46 case CHT => 0x49 case CBT => 0x5A
    case SU => 0x53 case SD => 0x54 case ICH => 0x40 case DCH => 0x50
    case ECH => 0x58 case IL => 0x4C case DL => 0x4D
  }

  /** A count of one is left out of moves and scrolls. */
  predicate OmitsOne(id: CountId) {
    RefusesMarker(id) || id == SU || id == SD
  }

  function PrivateText(n: nat, final: Char32): seq<Char32> { CsiText(true, [Num(n)], [], final) }

  function PlainText(p: PlainId): seq<Char32> {
    match p
    case ReverseIndex => [ESC, 0x4D]
    case SaveCursor => [ESC, 0x37]
    case RestoreCursor => [ESC, 0x38]
    case AnsiSaveCursor => [ESC, 0x37]
    case AnsiRestoreCursor => [ESC, 0x38]
    case TabSet => [ESC, 0x48]
    case KeypadApp => [ESC, 0x3D]
    case KeypadNumeric => [ESC, 0x3E]
    case CharsetLines => [ESC, LPAREN, 0x30]
    case CharsetAscii => [ESC, LPAREN, 0x42]
    case CursorBlink => PrivateText(12, 0x68)
    case CursorSteady => PrivateText(12, 0x6C)
    case CursorShow => PrivateText(25, 0x68)
    case CursorHide => PrivateText(25, 0x6C)
    case CursorKeysApp => PrivateText(1, 0x68)
    case CursorKeysNormal => PrivateText(1, 0x6C)
    case Columns132 => PrivateText(3, 0x68)
    case Columns80 => PrivateText(3, 0x6C)
    case AlternateBuffer => PrivateText(1049, 0x68)
    case MainBuffer => PrivateText(1049, 0x6C)
    case TabClear => CsiText(false, [Num(0)], [], 0x67)
    case TabClearAll => CsiText(false, [Num(3)], [], 0x67)
    case SoftReset => CsiText(false, [Empty], [0x21], 0x70) + PrivateText(9001, 0x68)
    case ReportCursor => CsiText(false, [Num(6)], [], 0x6E)
    case DeviceAttributes => CsiText(false, [Num(0)], [], 0x63)
  }

  function HexDigit(v: nat): Char32
    requires v < 16
  {
    if v < 10 then 0x30 + v else 0x61 + v - 10
  }

  function HexByte(v: nat): (t: seq<Char32>)
    requires v < 256
    ensures |t| == 2
  {
    [HexDigit(v / 16), HexDigit(v % 16)]
  }

  /** OSC 4 ; index ; rgb:rr/gg/bb BEL */
  function PaletteText(index: nat, r: nat, g: nat, b: nat): seq<Char32>
    requires r < 256 && g < 256 && b < 256
  {
    [ESC, 0x5D, 0x34, SEMICOLON] + PalettePayload(index, r, g, b) + [BEL]
  }

  function PalettePayload(index: nat, r: nat, g: nat, b: nat): seq<Char32>
    requires r < 256 && g < 256 && b < 256
  {
    Digits(index) + [SEMICOLON] + [0x72, 0x67, 0x62, 0x3A] + HexByte(r) + [0x2F] + HexByte(g) + [0x2F] + HexByte(b)
  }

  function TitleText(title: seq<Char32>): seq<Char32> {
    if title == [] then [] else [ESC, 0x5D, 0x30, SEMICOLON] + title + [BEL]
  }

  function Nums(ps: seq<nat>): (fs: seq<Field>)
    ensures |fs| == |ps|
  {
    seq(|ps|, i requires 0 <= i < |ps| => Num(ps[i]))
  }

  function SgrText(p: SgrPayload): seq<Char32> { CsiText(false, Nums(SgrParams(p)), [], 0x6D) }

  predicate IsShort(n: int) { 0 <= n <= 0x7FFF }

  /** Payloads a message can carry: counts, positions and modes are non-negative SHORTs, colours are bytes. */
  predicate InRange(m: Msg) {
    match m
    case Count(_, n) => IsShort(n)
    case Column(c) => IsShort(c)
    case RowOnly(r) => IsShort(r)
    case Position(r, c) => IsShort(r) && IsShort(c)
    case EraseDisplay(k) => IsShort(k)
    case EraseLine(k) => IsShort(k)
    case CursorShape(k) => IsShort(k)
    case Margins(a, b) => IsShort(a) && IsShort(b)
    case Palette(i, r, g, b) => IsShort(i) && 0 <= r < 256 && 0 <= g < 256 && 0 <= b < 256
    case Sgr(p) => ColorOk(p.fg) && ColorOk(p.bg)
    case _ => true
  }

  /** The VT of a message; messages that only come in, text runs among them, have none. */
  function Print(m: Msg): seq<Char32>
    requires InRange(m)
  {
    match m
    case Text(t) => t
    case Title(t) => TitleText(t)
    case CarriageReturn => [CR]
    case LineFeed => [CR, NL]
    case Plain(p) => PlainText(p)
    case Count(id, n) => CsiText(false, [if OmitsOne(id) && n <= 1 then Empty else Num(n)], [], FinalOf(id))
    case Column(c) => CsiText(false, [Num(c)], [], 0x47)
    case RowOnly(r) => CsiText(false, [Num(r)], [], 0x64)
    case Position(r, c) => CsiText(false, [Num(r), Num(c)], [], 0x48)
    case EraseDisplay(k) => CsiText(false, [Num(k)], [], 0x4A)
    case EraseLine(k) => CsiText(false, [Num(k)], [], 0x4B)
    case CursorShape(k) => CsiText(false, [Num(k)], [0x20], 0x71)
    case Margins(a, b) => CsiText(false, [Num(a), Num(b)], [], 0x72)
    case Palette(i, r, g, b) => PaletteText(i, r, g, b)
    case Sgr(p) => SgrText(p)
    case _ => []
  }

  // ---- Digits ----

  /** A SHORT that wrapped on the way reads as the whole number wrapped at the end. */
  lemma ShortStep(a: int, d: int)
    ensures Short(Short(a) * 10 + d) == Short(a * 10 + d)
  {
    var k := (a + 0x8000) / 0x1_0000;
    assert Short(a) == a - k * 0x1_0000;
    ShortShift(a * 10 + d, 10 * k);
  }

  lemma ShortShift(v: int, k: int)
    ensures Short(v - k * 0x1_0000) == Short(v)
  {
    var q, r := (v + 0x8000) / 0x1_0000, (v + 0x8000) % 0x1_0000;
    assert v - k * 0x1_0000 + 0x8000 == (q - k) * 0x1_0000 + r;
  }

  /** Inside CSI: what reading leaves behind. */
  function Reading(p: Parser, text: seq<Char32>, params: seq<int>, current: int): Parser {
    p.(raw := p.raw + text, params := params, current := current)
  }

  lemma DigitStep(p: Parser, d: nat)
    requires p.mode == Csi && d < 10
    ensures Step(p, 0x30 + d) == (p.(raw := p.raw + [0x30 + d], current := Short(p.current * 10 + d)), [])
  {
    hide DispatchCsi, Short;
  }

  /** The parser reads a number of any length as a SHORT. */
  lemma {:induction false} DigitsRead(p: Parser, n: nat)
    requires p.mode == Csi && p.current == 0
    ensures Steps(p, Digits(n)) == (Reading(p, Digits(n), p.params, Short(n)), [])
  {
    hide Step, Short;
    if n < 10 {
      StepsOne(p, 0x30 + n);
      DigitStep(p, n);
      assert Digits(n) == [0x30 + n];
    } else {
      DigitsRead(p, n / 10);
      var q := Reading(p, Digits(n / 10), p.params, Short(n / 10));
      var d := 0x30 + n % 10;
      StepsConcat(p, Digits(n / 10), [d]);
      StepsOne(q, d);
      DigitStep(q, n % 10);
      ShortStep(n / 10, n % 10);
      assert q.raw + [d] == p.raw + Digits(n);
    }
  }

  function FieldValue(f: Field): int {
    if f.Empty? then 0 else Short(f.n)
  }

  function Values(fs: seq<Field>): (r: seq<int>)
    ensures |r| == |fs|
  {
    seq(|fs|, i requires 0 <= i < |fs| => FieldValue(fs[i]))
  }

  lemma FieldRead(p: Parser, f: Field)
    requires p.mode == Csi && p.current == 0
    ensures Steps(p, FieldText(f)) == (Reading(p, FieldText(f), p.params, FieldValue(f)), [])
  {
    hide Step, Digits;
    if f.Empty? {
      NoSteps(p);
      assert p.raw + [] == p.raw;
    } else {
      DigitsRead(p, f.n);
    }
  }

  /** Sixteen parameters are kept, each as a SHORT, an absent one as 0; with more the sequence is spoiled. */
  function FieldsKept(p: Parser, fs: seq<Field>): Parser
    requires fs != []
  {
    var n := |fs| - 1;
    Reading(p, Fields(fs), Values(fs[..Min(n, MAX_PARAMS)]), FieldValue(fs[n])).(overflow := n > MAX_PARAMS)
  }

  /** The same with a semicolon behind the parameters. */
  function FieldsClosed(p: Parser, fs: seq<Field>): Parser {
    Reading(p, Fields(fs) + [SEMICOLON], Values(fs[..Min(|fs|, MAX_PARAMS)]), 0).(overflow := |fs| > MAX_PARAMS)
  }

  lemma KeptClosed(p: Parser, fs: seq<Field>)
    requires p.mode == Csi && p.params == [] && !p.overflow && fs != []
    ensures Step(FieldsKept(p, fs), SEMICOLON) == (FieldsClosed(p, fs), [])
  {
    hide FieldValue, Fields, Step;
    var n := |fs| - 1;
    var q := FieldsKept(p, fs);
    SemicolonStep(q);
    assert p.raw + Fields(fs) + [SEMICOLON] == p.raw + (Fields(fs) + [SEMICOLON]);
    if n < MAX_PARAMS { assert Values(fs) == Values(fs[..n]) + [FieldValue(fs[n])] && fs[..n + 1] == fs; }
  }

  lemma FieldAfter(p: Parser, head: seq<Char32>, r: Parser, f: Field)
    requires Steps(p, head) == (r, []) && r.mode == Csi && r.current == 0
    ensures Steps(p, head + FieldText(f)) == (Reading(r, FieldText(f), r.params, FieldValue(f)), [])
  {
    hide Step, Steps, FieldText, FieldValue;
    StepsConcat(p, head, FieldText(f));
    FieldRead(r, f);
  }

  lemma KeptNext(p: Parser, fs: seq<Field>)
    requires |fs| > 1
    ensures var n := |fs| - 1;
            var r := FieldsClosed(p, fs[..n]);
            Reading(r, FieldText(fs[n]), r.params, FieldValue(fs[n])) == FieldsKept(p, fs)
  {
    hide FieldText, FieldValue, Values;
    var n := |fs| - 1;
    var init := fs[..n];
    assert init[..Min(n, MAX_PARAMS)] == fs[..Min(n, MAX_PARAMS)];
    assert p.raw + (Fields(init) + [SEMICOLON]) + FieldText(fs[n]) == p.raw + Fields(fs);
  }

  lemma FieldsNext(p: Parser, fs: seq<Field>)
    requires p.mode == Csi && |fs| > 1
    requires Steps(p, Fields(fs[..|fs| - 1]) + [SEMICOLON]) == (FieldsClosed(p, fs[..|fs| - 1]), [])
    ensures Steps(p, Fields(fs)) == (FieldsKept(p, fs), [])
  {
    hide Step, Steps, FieldText, FieldValue, Values, FieldsKept;
    var n := |fs| - 1;
    FieldAfter(p, Fields(fs[..n]) + [SEMICOLON], FieldsClosed(p, fs[..n]), fs[n]);
    KeptNext(p, fs);
  }

  lemma {:induction false} FieldsRead(p: Parser, fs: seq<Field>)
    requires p.mode == Csi && p.current == 0 && p.params == [] && !p.overflow && fs != []
    ensures Steps(p, Fields(fs)) == (FieldsKept(p, fs), [])
  {
    hide Step, Steps, FieldText, FieldValue, FieldsClosed;
    var n := |fs| - 1;
    if n == 0 {
      FieldRead(p, fs[0]);
      assert Values(fs[..0]) == [];
    } else {
      hide Fields, FieldsKept;
      var init := fs[..n];
      FieldsRead(p, init);
      StepsConcat(p, Fields(init), [SEMICOLON]);
      StepsOne(FieldsKept(p, init), SEMICOLON);
      KeptClosed(p, init);
      FieldsNext(p, fs);
    }
  }

  lemma SemicolonStep(p: Parser)
    requires p.mode == Csi
    ensures Step(p, SEMICOLON) == (Committed(p.(raw := p.raw + [SEMICOLON])), [])
  {
    hide DispatchCsi;
  }

  // ---- Whole sequences ----

  lemma Introduced(p: Parser, marked: bool)
    requires ParserOk(p) && p.mode == Ground
    ensures var text := [ESC, 0x5B] + (if marked then [0x3F] else []);
            Steps(p, text) == (Parser(Csi, text, [], 0, marked, 0, false), [])
  {
    hide DispatchCsi, DispatchEsc;
    var a := Step(p, ESC).0;
    var b := Step(a, 0x5B).0;
    StepsOne(p, ESC);
    StepsOne(a, 0x5B);
    StepsConcat(p, [ESC], [0x5B]);
    assert [ESC] + [0x5B] == [ESC, 0x5B];
    if marked {
      StepsOne(b, 0x3F);
      StepsConcat(p, [ESC, 0x5B], [0x3F]);
    } else {
      assert [ESC, 0x5B] + [] == [ESC, 0x5B];
    }
  }

  predicate Intermediates(inter: seq<Char32>) { forall i :: 0 <= i < |inter| ==> 0x20 <= inter[i] <= 0x2F }

  /** The last one, if there is any. */
  function LastOf(inter: seq<Char32>): Char32 { if inter == [] then 0 else inter[|inter| - 1] }

  /** The event a complete CSI sequence is delivered as. */
  function CsiEvent(marked: bool, fs: seq<Field>, inter: seq<Char32>, final: Char32): Event {
    var ps := Values(fs);
    var text := CsiText(marked, fs, inter, final);
    var m := DispatchCsi(final, ps, marked, LastOf(inter), false);
    Event(if m.Some? then m.value else Unknown(text), Param(ps, 1, 1), text)
  }

  /** The parameters and intermediates, between messages. */
  lemma CsiRead(p: Parser, marked: bool, fs: seq<Field>, inter: seq<Char32>) returns (a: Parser, c: Parser)
    requires ParserOk(p) && p.mode == Ground && fs != []
    requires Intermediates(inter)
    ensures a == Parser(Csi, [ESC, 0x5B] + (if marked then [0x3F] else []), [], 0, marked, 0, false)
    ensures c == FieldsKept(a, fs).(raw := a.raw + Fields(fs) + inter, inter := LastOf(inter))
    ensures Steps(p, a.raw + Fields(fs) + inter) == (c, [])
  {
    hide Step, Steps, DispatchCsi, Fields, Values, FieldValue;
    var intro := [ESC, 0x5B] + (if marked then [0x3F] else []);
    a := Parser(Csi, intro, [], 0, marked, 0, false);
    var b := FieldsKept(a, fs);
    c := b.(raw := b.raw + inter, inter := LastOf(inter));
    Introduced(p, marked);
    FieldsRead(a, fs);
    StepsConcat(p, intro, Fields(fs));
    StepsConcat(p, intro + Fields(fs), inter);
    IntermediateRead(b, inter);
  }

  /** Up to sixteen parameters of any size, between messages: one event, and the parser is as good as new. */
  lemma CsiParses(p: Parser, marked: bool, fs: seq<Field>, inter: seq<Char32>, final: Char32)
    requires ParserOk(p) && p.mode == Ground && 1 <= |fs| <= MAX_PARAMS && 0x40 <= final <= 0x7E
    requires Intermediates(inter)
    ensures Steps(p, CsiText(marked, fs, inter, final)) == (FRESH, [CsiEvent(marked, fs, inter, final)])
  {
    hide Step, Steps, DispatchCsi, Fields, FieldValue;
    var a, c := CsiRead(p, marked, fs, inter);
    var before := a.raw + Fields(fs) + inter;
    StepsConcat(p, before, [final]);
    StepsOne(c, final);
    FinalStep(c, final);
    assert Values(fs) == c.params + [c.current];
    var e := CsiEvent(marked, fs, inter, final);
    assert c.raw + [final] == CsiText(marked, fs, inter, final);
    assert Step(c, final) == (FRESH, [e]);
    assert [] + [e] == [e];
  }

  /** With more than sixteen parameters the whole sequence is delivered as unknown. */
  lemma CsiSpoiled(p: Parser, marked: bool, fs: seq<Field>, inter: seq<Char32>, final: Char32)
    requires ParserOk(p) && p.mode == Ground && |fs| > MAX_PARAMS && 0x40 <= final <= 0x7E
    requires Intermediates(inter)
    ensures var text := CsiText(marked, fs, inter, final);
            Steps(p, text) == (FRESH, [Event(Unknown(text), 1, text)])
  {
    hide Step, Steps, DispatchCsi, Fields, FieldValue;
    var a, c := CsiRead(p, marked, fs, inter);
    var before := a.raw + Fields(fs) + inter;
    StepsConcat(p, before, [final]);
    StepsOne(c, final);
    SpoiledStep(c, final);
    var text := CsiText(marked, fs, inter, final);
    assert c.raw + [final] == text;
    assert [] + [Event(Unknown(text), 1, text)] == [Event(Unknown(text), 1, text)];
  }

  lemma SpoiledStep(p: Parser, final: Char32)
    requires p.mode == Csi && (|p.params| == MAX_PARAMS || p.overflow) && 0x40 <= final <= 0x7E
    requires |p.params| <= MAX_PARAMS && (p.overflow ==> |p.params| == MAX_PARAMS)
    ensures var text := p.raw + [final];
            Step(p, final) == (FRESH, [Event(Unknown(text), 1, text)])
  {
    hide SgrRead, PrivateMode, TildeKey, CountFinal;
  }

  /** Of several intermediates the last one counts. */
  lemma {:induction false} IntermediateRead(p: Parser, inter: seq<Char32>)
    requires p.mode == Csi && Intermediates(inter) && (inter == [] ==> p.inter == 0)
    ensures Steps(p, inter) == (p.(raw := p.raw + inter, inter := LastOf(inter)), [])
  {
    hide DispatchCsi;
    if inter == [] {
      NoSteps(p);
      assert p.raw + [] == p.raw;
    } else {
      hide Step;
      var n := |inter| - 1;
      if n == 0 {
        assert inter == [inter[0]];
        StepsOne(p, inter[0]);
        IntermediateStep(p, inter[0]);
      } else {
        IntermediateRead(p, inter[..n]);
        var q := p.(raw := p.raw + inter[..n], inter := LastOf(inter[..n]));
        StepsConcat(p, inter[..n], [inter[n]]);
        StepsOne(q, inter[n]);
        IntermediateStep(q, inter[n]);
        assert inter[..n] + [inter[n]] == inter;
        assert q.raw + [inter[n]] == p.raw + inter;
      }
    }
  }

  lemma IntermediateStep(p: Parser, ch: Char32)
    requires p.mode == Csi && 0x20 <= ch <= 0x2F
    ensures Step(p, ch) == (p.(raw := p.raw + [ch], inter := ch), [])
  {
    hide DispatchCsi;
  }

  lemma FinalStep(p: Parser, final: Char32)
    requires p.mode == Csi && |p.params| < MAX_PARAMS && !p.overflow && 0x40 <= final <= 0x7E
    ensures var ps := p.params + [p.current];
            var text := p.raw + [final];
            var m := DispatchCsi(final, ps, p.priv, p.inter, false);
            Step(p, final) == (FRESH, [Event(if m.Some? then m.value else Unknown(text), Param(ps, 1, 1), text)])
  {
    hide DispatchCsi;
  }

  lemma EscParses(final: Char32)
    requires !IsControl(final) && final != 0x5B && final != 0x5D && final != 0x4F && final != LPAREN
    ensures Steps(FRESH, [ESC, final]) ==
            (FRESH, [Event(if DispatchEsc(final).Some? then DispatchEsc(final).value else Unknown([ESC, final]), 1, [ESC, final])])
  {
    hide DispatchEsc;
    StepsOne(FRESH, ESC);
    StepsOne(Step(FRESH, ESC).0, final);
    StepsConcat(FRESH, [ESC], [final]);
    assert [ESC] + [final] == [ESC, final];
  }

  lemma CharsetParses(final: Char32)
    requires final == 0x30 || final == 0x42
    ensures Steps(FRESH, [ESC, LPAREN, final]) == (FRESH, [Event(DispatchCharset(final).value, 1, [ESC, LPAREN, final])])
  {
    var a := Step(FRESH, ESC).0;
    var b := Step(a, LPAREN).0;
    StepsOne(FRESH, ESC);
    StepsOne(a, LPAREN);
    StepsOne(b, final);
    StepsConcat(FRESH, [ESC], [LPAREN]);
    StepsConcat(FRESH, [ESC] + [LPAREN], [final]);
    assert [ESC] + [LPAREN] + [final] == [ESC, LPAREN, final];
  }

  // ---- OSC ----

  /** Control characters only as an ESC with ] behind it: the string goes on after them. */
  predicate Resumes(u: seq<Char32>) {
    forall i :: 0 <= i < |u| && IsControl(u[i]) ==> u[i] == ESC && (i + 1 < |u| ==> u[i + 1] == 0x5D)
  }

  predicate OscBody(u: seq<Char32>) { Resumes(u) && (u != [] ==> u[|u| - 1] != ESC) }

  /** The string was left: something was delivered, or what is read now is no OSC string that ends as good as new. */
  ghost predicate Lost(q: Parser, es: seq<Event>) {
    es != [] || q.mode == Csi || q.mode == Ss3 || (q.mode != Ground && q.inter == LPAREN)
  }

  lemma LostStays(q: Parser, es: seq<Event>, ch: Char32)
    requires Lost(q, es)
    ensures var (r, fs) := Step(q, ch); Lost(r, es + fs)
  {
    hide DispatchCsi, DispatchEsc, DispatchOsc, DispatchSs3, DispatchCharset, CsiModifier, Short;
  }

  /** Inside an OSC string, and behind an ESC in it. */
  function InString(p: Parser, u: seq<Char32>): Parser {
    p.(raw := p.raw + u, mode := if u != [] && u[|u| - 1] == ESC then OscSt else Osc)
  }

  lemma StringStep(p: Parser, v: seq<Char32>, ch: Char32)
    requires p.mode == Osc && p.inter == 0 && Resumes(v)
    ensures var u := v + [ch];
            var (r, fs) := Step(InString(p, v), ch);
            if Resumes(u) then r == InString(p, u) && fs == [] else Lost(r, fs)
  {
    hide DispatchCsi, DispatchEsc, DispatchOsc, DispatchSs3, DispatchCharset, CsiModifier, Short;
    var u := v + [ch];
    var q := InString(p, v);
    assert q.raw + [ch] == p.raw + u;
    assert forall i :: 0 <= i < |v| ==> u[i] == v[i];
    if q.mode == OscSt {
      assert u[|v| - 1] == ESC && IsControl(u[|v| - 1]);
      assert u[|v| - 1 + 1] == ch;
      if ch != 0x5D { assert !Resumes(u); }
    } else if IsControl(ch) && ch != ESC {
      assert IsControl(u[|v|]) && !Resumes(u);
    }
  }

  /** Text inside an OSC string is kept exactly while the string resumes after every control character. */
  lemma {:induction false} OscText(p: Parser, text: seq<Char32>)
    requires p.mode == Osc && p.inter == 0
    ensures var (q, es) := Steps(p, text);
            if Resumes(text) then q == InString(p, text) && es == [] else Lost(q, es)
  {
    hide Step, Lost, Resumes, InString;
    if text == [] {
      NoText(p);
    } else {
      var n := |text| - 1;
      var v := text[..n];
      OscText(p, v);
      var (q, es) := Steps(p, v);
      var (r, fs) := Step(q, text[n]);
      assert v + [text[n]] == text;
      if Resumes(v) {
        StringStep(p, v, text[n]);
        assert [] + fs == fs;
      } else {
        LostStays(q, es, text[n]);
        if Resumes(text) { ResumesPrefix(text, n); }
      }
    }
  }

  lemma NoText(p: Parser)
    requires p.mode == Osc
    ensures Resumes([]) && InString(p, []) == p
  {
    assert p.raw + [] == p.raw;
  }

  lemma ResumesPrefix(u: seq<Char32>, n: nat)
    requires n <= |u| && Resumes(u)
    ensures Resumes(u[..n])
  {}

  /** A string between ESC ] and BEL is dispatched as a whole. */
  lemma OscParses(body: seq<Char32>)
    requires OscBody(body)
    ensures var text := [ESC, 0x5D] + body + [BEL];
            var m := DispatchOsc(text);
            Steps(FRESH, text) == (FRESH, [Event(if m.Some? then m.value else Unknown(text), 1, text)])
  {
    hide DispatchOsc, Resumes;
    var b := OscBegins();
    var c := InString(b, body);
    OscText(b, body);
    StepsConcat(FRESH, [ESC, 0x5D], body);
    StepsOne(c, BEL);
    StepsConcat(FRESH, [ESC, 0x5D] + body, [BEL]);
  }

  lemma OscBegins() returns (b: Parser)
    ensures b == FRESH.(mode := Osc, raw := [ESC, 0x5D]) && Steps(FRESH, [ESC, 0x5D]) == (b, [])
  {
    var a := Step(FRESH, ESC).0;
    b := Step(a, 0x5D).0;
    StepsOne(FRESH, ESC);
    StepsOne(a, 0x5D);
    StepsConcat(FRESH, [ESC], [0x5D]);
    assert [ESC] + [0x5D] == [ESC, 0x5D];
  }

  /** Any other string between ESC ] and BEL is not delivered as one title, or leaves a parser that is not as new. */
  lemma OscLost(body: seq<Char32>)
    requires !OscBody(body)
    ensures var (q, es) := Steps(FRESH, [ESC, 0x5D] + body + [BEL]);
            !(q == FRESH && |es| == 1 && es[0].msg.Title?)
  {
    hide DispatchOsc, Resumes;
    var b := OscBegins();
    OscText(b, body);
    var (q, es) := Steps(b, body);
    StepsConcat(FRESH, [ESC, 0x5D], body);
    StepsConcat(FRESH, [ESC, 0x5D] + body, [BEL]);
    StepsOne(q, BEL);
    BellDelivers(q);
    var (r, fs) := Step(q, BEL);
    assert Steps(FRESH, [ESC, 0x5D] + body + [BEL]) == (r, [] + es + fs);
  }

  /** BEL completes something in every mode; only in an OSC string it can be a title. */
  lemma BellDelivers(q: Parser)
    ensures var (r, fs) := Step(q, BEL);
            && |fs| == 1
            && (fs[0].msg.Title? ==> q.mode == Osc)
            && (q.mode == Osc ==> r.inter == q.inter)
  {
    hide DispatchOsc;
  }

  lemma PlainBody(u: seq<Char32>)
    requires forall i :: 0 <= i < |u| ==> !IsControl(u[i])
    ensures OscBody(u)
  {}

  lemma {:induction false} NoTerminator(s: seq<Char32>, pos: nat, end: nat)
    requires pos <= end < |s| && s[end] == BEL
    requires forall i :: pos <= i < end && IsControl(s[i]) ==> s[i] == ESC && s[i + 1] == 0x5D
    ensures Terminator(s, pos) == end
    decreases end - pos
  {
    if pos < end { NoTerminator(s, pos + 1, end); }
  }

  /** A one-digit operation code, its semicolon and a payload. */
  lemma OscDispatched(code: int, payload: seq<Char32>, text: seq<Char32>)
    requires 0 <= code <= 9 && OscBody(payload)
    requires text == [ESC, 0x5D, 0x30 + code, SEMICOLON] + payload + [BEL]
    ensures DispatchOsc(text) ==
            (match code case 8 => Some(Hyperlink) case 0 => Some(Title(payload)) case 2 => Some(Title(payload))
                        case 4 => Some(DispatchPalette(payload)) case _ => Some(Unknown([])))
  {
    hide DispatchPalette;
    assert OscCode(text, 2, 0) == OscCode(text, 3, Short(code));
    assert OscCode(text, 3, code) == (code, 3);
    var end := 4 + |payload|;
    forall i | 4 <= i < end && IsControl(text[i]) ensures text[i] == ESC && text[i + 1] == 0x5D {
      assert text[i] == payload[i - 4];
      assert i + 1 < end ==> text[i + 1] == payload[i - 3];
    }
    NoTerminator(text, 4, end);
    assert text[4..end] == payload;
  }

  // ---- The palette string ----

  function Tens(k: nat): nat { if k == 0 then 1 else 10 * Tens(k - 1) }

  lemma {:induction false} DigitsLength(n: nat, k: nat)
    requires n < Tens(k) && k > 0
    ensures |Digits(n)| <= k
  {
    if n >= 10 { DigitsLength(n / 10, k - 1); }
  }

  lemma {:induction false} DigitsAreDigits(n: nat)
    ensures forall i :: 0 <= i < |Digits(n)| ==> IsDigit(Digits(n)[i])
  {
    if n >= 10 { DigitsAreDigits(n / 10); }
  }

  lemma {:induction false} DigitsValue(n: nat)
    ensures DecimalValue(Digits(n)) == n
  {
    if n >= 10 {
      DigitsValue(n / 10);
      var d := Digits(n);
      assert d[..|d| - 1] == Digits(n / 10);
    } else {
      assert Digits(n)[..0] == [];
    }
  }

  lemma {:induction false} DigitsEndAt(s: seq<Char32>, pos: nat, n: nat, end: nat)
    requires pos <= end < |s| && end - pos <= n && !IsDigit(s[end])
    requires forall i :: pos <= i < end ==> IsDigit(s[i])
    ensures DigitsEnd(s, pos, n) == end
    decreases end - pos
  {
    if pos < end { DigitsEndAt(s, pos + 1, n - 1, end); }
  }

  /** Two hexadecimal digits, and a slash unless they end the string. */
  lemma HexRead(s: seq<Char32>, pos: nat, v: nat)
    requires v < 256 && pos + 2 <= |s| && s[pos..pos + 2] == HexByte(v)
    requires pos + 2 < |s| ==> pos + 3 < |s| && s[pos + 2] == 0x2F && s[pos + 3] != 0x2F
    ensures OscHex(s, pos) == (v, if pos + 2 < |s| then pos + 3 else pos + 2)
  {
    assert s[pos] == s[pos..pos + 2][0] && s[pos + 1] == s[pos..pos + 2][1];
    if pos + 2 < |s| { assert Skip(s, pos + 2, 0x2F) == Skip(s, pos + 3, 0x2F) == pos + 3; }
  }

  lemma PaletteDispatched(index: nat, r: nat, g: nat, b: nat)
    requires index <= 0x7FFF && r < 256 && g < 256 && b < 256
    ensures DispatchPalette(PalettePayload(index, r, g, b)) == Palette(index, r, g, b)
  {
    hide Digits, HexByte, OscHex, DigitsEnd, DecimalValue;
    var s := PalettePayload(index, r, g, b);
    var n := |Digits(index)|;
    assert OscDecimal(s, 0) == (index, n) by {
      assert Tens(5) == 100000;
      DigitsLength(index, 5);
      DigitsAreDigits(index);
      DigitsValue(index);
      assert s[..n] == Digits(index);
      assert s[0] == Digits(index)[0];
      forall i | 0 <= i < n ensures IsDigit(s[i]) { assert s[i] == Digits(index)[i]; }
      DigitsEndAt(s, 0, 5, n);
      assert s[0..n] == s[..n];
    }
    assert RgbPrefix(s, n + 1);
    assert s[n + 5..n + 7] == HexByte(r);
    assert s[n + 8..n + 10] == HexByte(g);
    assert s[n + 11..n + 13] == HexByte(b);
    HexNotSlash(s, n + 8, g);
    HexNotSlash(s, n + 11, b);
    HexRead(s, n + 5, r);
    HexRead(s, n + 8, g);
    HexRead(s, n + 11, b);
  }

  lemma HexNotSlash(s: seq<Char32>, pos: nat, v: nat)
    requires v < 256 && pos + 2 <= |s| && s[pos..pos + 2] == HexByte(v)
    ensures s[pos] != 0x2F
  {
    assert s[pos] == s[pos..pos + 2][0];
  }

  lemma PaletteParses(index: nat, r: nat, g: nat, b: nat)
    requires index <= 0x7FFF && r < 256 && g < 256 && b < 256
    ensures Steps(FRESH, PaletteText(index, r, g, b)) ==
            (FRESH, [Event(Palette(index, r, g, b), 1, PaletteText(index, r, g, b))])
  {
    hide Steps, DispatchOsc, DispatchPalette, Digits, OscBody;
    var payload := PalettePayload(index, r, g, b);
    DigitsAreDigits(index);
    var body := [0x34, SEMICOLON] + payload;
    var text := PaletteText(index, r, g, b);
    assert text == [ESC, 0x5D] + body + [BEL];
    assert text == [ESC, 0x5D, 0x30 + 4, SEMICOLON] + payload + [BEL];
    PlainBody(payload);
    PlainBody(body);
    OscParses(body);
    OscDispatched(4, payload, text);
    PaletteDispatched(index, r, g, b);
  }

  lemma TitleParses(title: seq<Char32>)
    requires title != [] && OscBody(title)
    ensures Steps(FRESH, TitleText(title)) == (FRESH, [Event(Title(title), 1, TitleText(title))])
  {
    hide Steps, DispatchOsc;
    var body := [0x30, SEMICOLON] + title;
    var text := TitleText(title);
    assert text == [ESC, 0x5D] + body + [BEL];
    assert text == [ESC, 0x5D, 0x30 + 0, SEMICOLON] + title + [BEL];
    PrefixedBody(title, body);
    OscParses(body);
    OscDispatched(0, title, text);
  }

  lemma PrefixedBody(title: seq<Char32>, body: seq<Char32>)
    requires body == [0x30, SEMICOLON] + title
    ensures OscBody(body) <==> OscBody(title)
  {
    if Resumes(body) {
      forall i | 0 <= i < |title| && IsControl(title[i]) ensures title[i] == ESC && (i + 1 < |title| ==> title[i + 1] == 0x5D) {
        assert body[i + 2] == title[i];
        assert i + 1 < |title| ==> body[i + 3] == title[i + 1];
      }
    }
    if Resumes(title) {
      forall i | 0 <= i < |body| && IsControl(body[i]) ensures body[i] == ESC && (i + 1 < |body| ==> body[i + 1] == 0x5D) {
        assert body[i] == title[i - 2];
        assert i + 1 < |body| ==> body[i + 1] == title[i - 1];
      }
    }
  }

  // ---- Print, then parse ----

  /** Printed and parsed by a new parser, the message comes back, alone, and the parser is as new. */
  ghost predicate ComesBack(m: Msg)
    requires InRange(m)
  {
    var (q, es) := Steps(FRESH, Print(m));
    q == FRESH && |es| == 1 && es[0].msg == m
  }

  /** C0 controls without a message of their own. */
  predicate OtherControl(ch: Char32) {
    IsControl(ch) && ch !in [NUL, BS, TAB, NL, CR, SUB, ESC, DEL]
  }

  /** What can be told without parsing: 1-based payloads are not 0, and the printer has a form of its own for it. */
  predicate Faithful(m: Msg) {
    match m
    case CarriageReturn => true
    case Plain(p) => p != AnsiSaveCursor && p != AnsiRestoreCursor && p != SoftReset
    case Count(_, n) => n >= 1
    case Column(c) => c >= 1
    case RowOnly(r) => r >= 1
    case Position(r, c) => r >= 1 && c >= 1
    case EraseDisplay(_) => true
    case EraseLine(_) => true
    case CursorShape(_) => true
    case Margins(_, _) => true
    case Palette(_, _, _, _) => true
    case Text(t) => |t| == 1 && OtherControl(t[0])
    case Title(t) => t != [] && OscBody(t)
    case Sgr(p) => p == RESET
    case _ => false
  }

  lemma ValuesOne(f: Field)
    ensures Values([f]) == [FieldValue(f)]
  {}

  lemma ValuesTwo(f: Field, g: Field)
    ensures Values([f, g]) == [FieldValue(f), FieldValue(g)]
  {}

  lemma PrivateComesBack(p: PlainId, n: nat, final: Char32)
    requires n <= 0x7FFF && (final == 0x68 || final == 0x6C)
    requires PrivateMode(n, final == 0x68) == Some(Plain(p)) && PlainText(p) == PrivateText(n, final)
    ensures ComesBack(Plain(p))
  {
    hide PrivateMode, Steps, PlainText;
    ValuesOne(Num(n));
    CsiParses(FRESH, true, [Num(n)], [], final);
  }

  lemma QueryComesBack(p: PlainId, n: nat, final: Char32)
    requires n <= 0x7FFF && 0x40 <= final <= 0x7E && PlainText(p) == CsiText(false, [Num(n)], [], final)
    requires DispatchCsi(final, [n], false, 0, false) == Some(Plain(p))
    ensures ComesBack(Plain(p))
  {
    hide DispatchCsi, Steps, PlainText;
    ValuesOne(Num(n));
    CsiParses(FRESH, false, [Num(n)], [], final);
  }

  lemma EscComesBack(p: PlainId, final: Char32)
    requires !IsControl(final) && final != 0x5B && final != 0x5D && final != 0x4F && final != LPAREN
    requires DispatchEsc(final).Some? && PlainText(p) == [ESC, final]
    ensures ComesBack(Plain(p)) <==> DispatchEsc(final) == Some(Plain(p))
  {
    hide DispatchEsc, Steps, PlainText;
    EscParses(final);
  }

  lemma SoftResetIsTwo()
    ensures !ComesBack(Plain(SoftReset))
  {
    hide Steps, DispatchCsi, CsiText;
    CsiParses(FRESH, false, [Empty], [0x21], 0x70);
    CsiParses(FRESH, true, [Num(9001)], [], 0x68);
    StepsConcat(FRESH, CsiText(false, [Empty], [0x21], 0x70), PrivateText(9001, 0x68));
  }

  lemma PlainComesBack(p: PlainId)
    ensures ComesBack(Plain(p)) <==> Faithful(Plain(p))
  {
    hide Steps, ComesBack, CsiText, PrivateText, DispatchCsi;
    QueriesDispatched();
    match p
    case CharsetLines => CharsetComesBack(0x30);
    case CharsetAscii => CharsetComesBack(0x42);
    case ReverseIndex => EscComesBack(p, 0x4D);
    case SaveCursor => EscComesBack(p, 0x37);
    case RestoreCursor => EscComesBack(p, 0x38);
    case AnsiSaveCursor => EscComesBack(p, 0x37);
    case AnsiRestoreCursor => EscComesBack(p, 0x38);
    case TabSet => EscComesBack(p, 0x48);
    case KeypadApp => EscComesBack(p, 0x3D);
    case KeypadNumeric => EscComesBack(p, 0x3E);
    case CursorBlink => PrivateComesBack(p, 12, 0x68);
    case CursorSteady => PrivateComesBack(p, 12, 0x6C);
    case CursorShow => PrivateComesBack(p, 25, 0x68);
    case CursorHide => PrivateComesBack(p, 25, 0x6C);
    case CursorKeysApp => PrivateComesBack(p, 1, 0x68);
    case CursorKeysNormal => PrivateComesBack(p, 1, 0x6C);
    case Columns132 => PrivateComesBack(p, 3, 0x68);
    case Columns80 => PrivateComesBack(p, 3, 0x6C);
    case AlternateBuffer => PrivateComesBack(p, 1049, 0x68);
    case MainBuffer => PrivateComesBack(p, 1049, 0x6C);
    case TabClear => QueryComesBack(p, 0, 0x67);
    case TabClearAll => QueryComesBack(p, 3, 0x67);
    case ReportCursor => QueryComesBack(p, 6, 0x6E);
    case DeviceAttributes => QueryComesBack(p, 0, 0x63);
    case SoftReset => SoftResetIsTwo();
  }

  lemma QueriesDispatched()
    ensures DispatchCsi(0x67, [0], false, 0, false) == Some(Plain(TabClear))
    ensures DispatchCsi(0x67, [3], false, 0, false) == Some(Plain(TabClearAll))
    ensures DispatchCsi(0x6E, [6], false, 0, false) == Some(Plain(ReportCursor))
    ensures DispatchCsi(0x63, [0], false, 0, false) == Some(Plain(DeviceAttributes))
  {}

  lemma CharsetComesBack(final: Char32)
    requires final == 0x30 || final == 0x42
    ensures ComesBack(DispatchCharset(final).value)
  {
    hide Steps;
    CharsetParses(final);
  }

  lemma CountDispatched(id: CountId, v: int)
    ensures 0x40 <= FinalOf(id) <= 0x7E
    ensures DispatchCsi(FinalOf(id), [v], false, 0, false) == Some(Count(id, if v == 0 then 1 else v))
  {
    assert CountFinal(FinalOf(id)) == Some(id);
  }

  lemma CountComesBack(id: CountId, n: nat)
    requires IsShort(n)
    ensures ComesBack(Count(id, n)) <==> n >= 1
  {
    hide Steps, CsiText, DispatchCsi;
    var f := if OmitsOne(id) && n <= 1 then Empty else Num(n);
    ValuesOne(f);
    CountDispatched(id, FieldValue(f));
    CsiParses(FRESH, false, [f], [], FinalOf(id));
  }

  /** One parameter. */
  lemma OneComesBack(m: Msg, n: nat, inter: seq<Char32>, final: Char32)
    requires InRange(m) && IsShort(n) && Print(m) == CsiText(false, [Num(n)], inter, final)
    requires 0x40 <= final <= 0x7E && Intermediates(inter)
    requires DispatchCsi(final, [n], false, LastOf(inter), false).Some?
    ensures ComesBack(m) <==> DispatchCsi(final, [n], false, LastOf(inter), false).value == m
  {
    hide DispatchCsi, Print, Steps, CsiText;
    ValuesOne(Num(n));
    CsiParses(FRESH, false, [Num(n)], inter, final);
  }

  /** Two parameters. */
  lemma TwoComesBack(m: Msg, a: nat, b: nat, final: Char32)
    requires InRange(m) && IsShort(a) && IsShort(b) && Print(m) == CsiText(false, [Num(a), Num(b)], [], final)
    requires 0x40 <= final <= 0x7E && DispatchCsi(final, [a, b], false, 0, false).Some?
    ensures ComesBack(m) <==> DispatchCsi(final, [a, b], false, 0, false).value == m
  {
    hide DispatchCsi, Print, Steps, CsiText;
    ValuesTwo(Num(a), Num(b));
    CsiParses(FRESH, false, [Num(a), Num(b)], [], final);
  }

  lemma ControlsComeBack()
    ensures ComesBack(CarriageReturn) && !ComesBack(LineFeed)
  {
    StepsOne(FRESH, CR);
    StepsOne(FRESH, NL);
    StepsConcat(FRESH, [CR], [NL]);
    assert [CR] + [NL] == [CR, NL];
  }

  lemma PaletteComesBack(i: nat, r: nat, g: nat, b: nat)
    requires InRange(Palette(i, r, g, b))
    ensures ComesBack(Palette(i, r, g, b))
  {
    hide Steps, PaletteText;
    PaletteParses(i, r, g, b);
  }

  lemma NothingComesBack(m: Msg)
    requires InRange(m) && Print(m) == []
    ensures !ComesBack(m)
  {
    NoSteps(FRESH);
  }

  /** A title comes back exactly when it is not empty and resumes after every control character in it. */
  lemma TitleComesBack(t: seq<Char32>)
    ensures ComesBack(Title(t)) <==> t != [] && OscBody(t)
  {
    hide Steps, OscBody;
    if t == [] {
      NothingComesBack(Title(t));
    } else if OscBody(t) {
      TitleParses(t);
    } else {
      var body := [0x30, SEMICOLON] + t;
      PrefixedBody(t, body);
      OscLost(body);
      assert TitleText(t) == [ESC, 0x5D] + body + [BEL];
    }
  }

  // ---- Text ----

  /** Printable, whatever its length. */
  predicate PlainRun(t: seq<Char32>) { forall i :: 0 <= i < |t| ==> !IsControl(t[i]) }

  /** One event at most per code point; those of a text run are not control characters. */
  lemma {:induction false} TextOnly(p: Parser, t: seq<Char32>)
    requires ParserOk(p)
    ensures |Steps(p, t).1| <= |t|
    ensures Steps(p, t).1 == SplitText(t) ==> PlainRun(t)
  {
    hide Step;
    if t != [] {
      var n := |t| - 1;
      TextOnly(p, t[..n]);
      StepsPartition(p, t[..n]);
      var (q, es) := Steps(p, t[..n]);
      var (r, fs) := Step(q, t[n]);
      EventOf(q, t[n]);
      if es + fs == SplitText(t) {
        assert |es + fs| == |es| + |fs| == n + 1;
        assert es == SplitText(t)[..n] == SplitText(t[..n]);
        assert fs[0] == SplitText(t)[n] == TextEvent([t[n]]);
        forall i | 0 <= i < |t| ensures !IsControl(t[i]) { assert i < n ==> t[i] == t[..n][i]; }
      }
    }
  }

  lemma EventOf(q: Parser, ch: Char32)
    requires ParserOk(q)
    ensures |Step(q, ch).1| <= 1
    ensures Step(q, ch).1 == [TextEvent([ch])] ==> !IsControl(ch)
  {
    hide SequenceStep;
    if q.mode != Ground { SequenceStepOk(q, ch); }
  }

  lemma DispatchedIsNoText(final: Char32, ps: seq<int>, priv: bool, inter: Char32, overflow: bool)
    ensures var m := DispatchCsi(final, ps, priv, inter, overflow); m.Some? ==> !m.value.Text?
  {
    hide SgrRead, CountFinal;
  }

  lemma OscIsNoText(raw: seq<Char32>)
    ensures DispatchOsc(raw).Some? ==> !DispatchOsc(raw).value.Text?
  {
    hide OscCode, Terminator, OscDecimal, OscHex, RgbPrefix;
  }

  /** No sequence is delivered as text. */
  lemma SequenceIsNoText(q: Parser, ch: Char32)
    requires q.mode != Ground
    ensures var s := SequenceStep(q, ch); s.Done? ==> !s.msg.Text?
  {
    hide DispatchCsi, DispatchOsc, Short;
    var c := Committed(q.(raw := q.raw + [ch]));
    DispatchedIsNoText(ch, c.params, c.priv, c.inter, c.overflow);
    OscIsNoText(q.raw + [ch]);
  }

  /** What is delivered as text is one C0 control. */
  lemma {:induction false} TextsAreControls(p: Parser, input: seq<Char32>)
    ensures forall e :: e in Steps(p, input).1 && e.msg.Text? ==> |e.msg.text| == 1
  {
    hide SequenceStep;
    if input != [] {
      var n := |input| - 1;
      TextsAreControls(p, input[..n]);
      var q := Steps(p, input[..n]).0;
      if q.mode != Ground { SequenceIsNoText(q, input[n]); }
    }
  }

  /** A text message comes back as itself exactly when it is one C0 control without a message of its own. */
  lemma TextComesBack(t: seq<Char32>)
    ensures ComesBack(Text(t)) <==> |t| == 1 && OtherControl(t[0])
  {
    if t == [] {
      NothingComesBack(Text(t));
    } else if |t| == 1 {
      assert t == [t[0]];
      StepsOne(FRESH, t[0]);
    } else {
      TextsAreControls(FRESH, t);
    }
  }

  /** It comes back as a text run, code point by code point and so, put together, as that one run, exactly when printable. */
  lemma TextComesBackAsRun(t: seq<Char32>)
    ensures Steps(FRESH, Print(Text(t))) == (FRESH, SplitText(t)) <==> PlainRun(t)
    ensures t != [] && PlainRun(t) ==> Merge(Steps(FRESH, Print(Text(t))).1) == [TextEvent(t)]
  {
    TextOnly(FRESH, t);
    if PlainRun(t) {
      TextSteps(FRESH, t);
      if t != [] {
        MergeIsOntoNothing(SplitText(t));
        MergeSplitText([], t);
      }
    }
  }

  // ---- SGR ----

  lemma NumsValues(ps: seq<nat>)
    requires Small(ps)
    ensures Values(Nums(ps)) == ps
  {}

  /** Parameters a SHORT can hold. */
  predicate Small(ps: seq<nat>) { forall i :: 0 <= i < |ps| ==> ps[i] <= 0x7FFF }

  lemma SmallWith(ps: seq<nat>, c: bool, v: nat) returns (qs: seq<nat>)
    requires Small(ps) && v <= 0x7FFF
    ensures qs == With(ps, c, v) && Small(qs)
  {
    qs := With(ps, c, v);
  }

  lemma SmallOn(ps: seq<nat>, on: set<SgrFlag>)
    requires Small(ps)
    ensures Small(WithOn(ps, on))
  {
    hide With, Small;
    var qs := SmallWith(ps, Bold in on, 1);
    qs := SmallWith(qs, Faint in on, 2);
    qs := SmallWith(qs, Italic in on, 3);
    qs := SmallWith(qs, Underline in on, 4);
    qs := SmallWith(qs, Blink in on, 5);
    qs := SmallWith(qs, Negative in on, 7);
    qs := SmallWith(qs, Conceal in on, 8);
    qs := SmallWith(qs, Strikethrough in on, 9);
  }

  lemma SmallOff(ps: seq<nat>, off: set<SgrFlag>)
    requires Small(ps)
    ensures Small(WithOff(ps, off))
  {
    hide With, Small;
    var qs := SmallWith(ps, Bold in off || Faint in off, 22);
    qs := SmallWith(qs, Italic in off, 23);
    qs := SmallWith(qs, Underline in off, 24);
    qs := SmallWith(qs, Blink in off, 25);
    qs := SmallWith(qs, Negative in off, 27);
    qs := SmallWith(qs, Conceal in off, 28);
    qs := SmallWith(qs, Strikethrough in off, 29);
  }

  lemma SmallColor(ps: seq<nat>, c: SgrColor, base: nat)
    requires Small(ps) && ColorOk(c) && base <= 40
    ensures Small(WithColor(ps, c, base))
  {}

  lemma SmallParams(p: SgrPayload)
    requires InRange(Sgr(p))
    ensures Small(SgrParams(p))
  {
    if Reset !in p.on {
      assert Small([0]);
      hide WithOn, WithOff, WithColor, Small;
      SmallOn([0], p.on);
      SmallOff(WithOn([0], p.on), p.off);
      SmallColor(WithOff(WithOn([0], p.on), p.off), p.fg, 30);
      SmallColor(WithColor(WithOff(WithOn([0], p.on), p.off), p.fg, 30), p.bg, 40);
    }
  }

  /**
    What a printed SGR message is parsed as: a reset alone stays one; of anything else all attributes and colours
    come back with a reset in front, unless it takes more than sixteen parameters, and then nothing does.
   */
  lemma SgrReadBack(p: SgrPayload)
    requires InRange(Sgr(p))
    ensures var (q, es) := Steps(FRESH, Print(Sgr(p)));
            && q == FRESH && |es| == 1
            && es[0].msg == if |SgrParams(p)| <= MAX_PARAMS then Sgr(ReadBack(p)) else Unknown(Print(Sgr(p)))
  {
    hide Steps, DispatchCsi, SgrParams, CsiText, SgrRead, ReadBack;
    var ps := SgrParams(p);
    if |ps| <= MAX_PARAMS {
      SmallParams(p);
      NumsValues(ps);
      ParamsReadBack(p);
      CsiParses(FRESH, false, Nums(ps), [], 0x6D);
      SgrDispatched(ps);
    } else {
      CsiSpoiled(FRESH, false, Nums(ps), [], 0x6D);
    }
  }

  lemma SgrDispatched(ps: seq<int>)
    ensures DispatchCsi(0x6D, ps, false, 0, false) == DispatchSgr(ps)
  {}

  /** So an SGR message comes back exactly when it is a reset and nothing else. */
  lemma SgrComesBack(p: SgrPayload)
    requires InRange(Sgr(p))
    ensures ComesBack(Sgr(p)) <==> p == RESET
  {
    hide Steps, SgrText;
    SgrReadBack(p);
    assert Reset in ReadBack(p).on;
  }

  /** Messages whose payload is printed as one or two parameters. */
  predicate HasParameters(m: Msg) {
    m.Column? || m.RowOnly? || m.EraseDisplay? || m.EraseLine? || m.CursorShape? || m.Position? || m.Margins?
  }

  lemma OneDispatched(n: nat)
    ensures DispatchCsi(0x47, [n], false, 0, false) == Some(Column(if n == 0 then 1 else n))
    ensures DispatchCsi(0x64, [n], false, 0, false) == Some(RowOnly(if n == 0 then 1 else n))
    ensures DispatchCsi(0x4A, [n], false, 0, false) == Some(EraseDisplay(n))
    ensures DispatchCsi(0x4B, [n], false, 0, false) == Some(EraseLine(n))
    ensures DispatchCsi(0x71, [n], false, 0x20, false) == Some(CursorShape(n))
  {}

  lemma TwoDispatched(a: nat, b: nat)
    ensures DispatchCsi(0x48, [a, b], false, 0, false) == Some(Position(if a == 0 then 1 else a, if b == 0 then 1 else b))
    ensures DispatchCsi(0x72, [a, b], false, 0, false) == Some(Margins(a, b))
  {}

  lemma ParametersComeBack(m: Msg)
    requires InRange(m) && HasParameters(m)
    ensures ComesBack(m) <==> Faithful(m)
  {
    hide Steps, ComesBack, CsiText, DispatchCsi;
    match m
    case Column(c) => OneDispatched(c); OneComesBack(m, c, [], 0x47);
    case RowOnly(r) => OneDispatched(r); OneComesBack(m, r, [], 0x64);
    case EraseDisplay(k) => OneDispatched(k); OneComesBack(m, k, [], 0x4A);
    case EraseLine(k) => OneDispatched(k); OneComesBack(m, k, [], 0x4B);
    case CursorShape(k) => OneDispatched(k); OneComesBack(m, k, [0x20], 0x71);
    case Position(r, c) => TwoDispatched(r, c); TwoComesBack(m, r, c, 0x48);
    case Margins(a, b) => TwoDispatched(a, b); TwoComesBack(m, a, b, 0x72);
  }

  /**
    Print, then parse, is the identity on message and payload, with a parser as new behind it, exactly for the
    faithful messages: not for a 0 where positions and counts start at 1, not for the ANSI cursor save and restore,
    which are printed as the DEC ones, not for line feed and soft reset, which are printed as two, not for SGR other
    than a plain reset, not for titles with a control character that ends them, and not for text, which is delivered
    under another id (see TextComesBackAsRun), other than one C0 control.
   */
  lemma RoundTrip(m: Msg)
    requires InRange(m)
    ensures ComesBack(m) <==> Faithful(m)
  {
    hide Steps, ComesBack, OscBody;
    if HasParameters(m) {
      ParametersComeBack(m);
    } else {
      hide CsiText, PlainText, PaletteText, SgrText, TitleText;
      match m
      case CarriageReturn => ControlsComeBack();
      case LineFeed => ControlsComeBack();
      case Text(t) => TextComesBack(t);
      case Title(t) => TitleComesBack(t);
      case Sgr(p) => SgrComesBack(p);
      case Plain(p) => PlainComesBack(p);
      case Count(id, n) => CountComesBack(id, n);
      case Palette(i, r, g, b) => PaletteComesBack(i, r, g, b);
      case _ => NothingComesBack(m);
    }
  }

  // ---- The output buffer ----

  class VtOutput {
    var output: seq<Char32>

    constructor ()
      ensures output == []
    {
      output := [];
    }

    method Append(text: seq<Char32>)
      modifies this
      ensures output == old(output) + text
    {
      output := output + text;
    }

    /** The decimal digits of a parameter, from the last one up. */
    method AppendInt(n: nat)
      modifies this
      ensures output == old(output) + Digits(n)
    {
      var digits: seq<Char32>, rest := [0x30 + n % 10], n / 10;
      while rest > 0
        invariant (if rest > 0 then Digits(rest) else []) + digits == Digits(n)
      {
        ghost var before := digits;
        digits := [0x30 + rest % 10] + digits;
        assert Digits(rest) == (if rest / 10 > 0 then Digits(rest / 10) else []) + [0x30 + rest % 10];
        rest := rest / 10;
      }
      output := output + digits;
    }

    method AppendField(f: Field)
      modifies this
      ensures output == old(output) + FieldText(f)
    {
      if f.Num? { AppendInt(f.n); }
    }

    /** ESC [ and what follows, for sequences of one or two parameters. */
    method AppendCsi(marked: bool, fs: seq<Field>, inter: seq<Char32>, final: Char32)
      requires 1 <= |fs| <= 2
      modifies this
      ensures output == old(output) + CsiText(marked, fs, inter, final)
    {
      hide FieldText;
      Append([ESC, 0x5B] + if marked then [0x3F] else []);
      AppendField(fs[0]);
      if |fs| == 2 {
        Append([SEMICOLON]);
        AppendField(fs[1]);
        assert fs[..1] == [fs[0]];
      }
      Append(inter + [final]);
      assert Fields(fs) == if |fs| == 1 then FieldText(fs[0]) else FieldText(fs[0]) + [SEMICOLON] + FieldText(fs[1]);
    }

    /** vt_msg_send: the message as VT behind what is already buffered. */
    method Send(m: Msg)
      requires InRange(m)
      modifies this
      ensures output == old(output) + Print(m)
    {
      hide CsiText, PaletteText, PlainText, TitleText, SgrText;
      match m
      case Text(t) => Append(t);
      case Title(t) => SendTitle(t);
      case CarriageReturn => Append([CR]);
      case LineFeed => Append([CR, NL]);
      case Plain(p) => SendPlain(p);
      case Count(id, n) =>
        if OmitsOne(id) && n <= 1 { AppendCsi(false, [Empty], [], FinalOf(id)); }
        else { AppendCsi(false, [Num(n)], [], FinalOf(id)); }
      case Column(c) => AppendCsi(false, [Num(c)], [], 0x47);
      case RowOnly(r) => AppendCsi(false, [Num(r)], [], 0x64);
      case Position(r, c) => AppendCup(Short(r - 1), Short(c - 1));
      case EraseDisplay(k) => AppendCsi(false, [Num(k)], [], 0x4A);
      case EraseLine(k) => AppendCsi(false, [Num(k)], [], 0x4B);
      case CursorShape(k) => AppendCsi(false, [Num(k)], [0x20], 0x71);
      case Margins(a, b) => AppendCsi(false, [Num(a), Num(b)], [], 0x72);
      case Palette(i, r, g, b) => SendPalette(i, r, g, b);
      case Sgr(p) => SendSgr(p);
      case _ =>
    }

    /** CUP from a 0-based position. */
    method AppendCup(row: int, col: int)
      requires -1 <= row && -1 <= col
      modifies this
      ensures output == old(output) + CsiText(false, [Num(row + 1), Num(col + 1)], [], 0x48)
    {
      AppendCsi(false, [Num(row + 1), Num(col + 1)], [], 0x48);
    }

    method SendTitle(t: seq<Char32>)
      modifies this
      ensures output == old(output) + TitleText(t)
    {
      if t == [] { return; }
      Append([ESC, 0x5D, 0x30, SEMICOLON]);
      Append(t);
      Append([BEL]);
    }

    method SendPalette(i: nat, r: nat, g: nat, b: nat)
      requires r < 256 && g < 256 && b < 256
      modifies this
      ensures output == old(output) + PaletteText(i, r, g, b)
    {
      hide PalettePayload;
      Append([ESC, 0x5D, 0x34, SEMICOLON]);
      AppendPayload(i, r, g, b);
      Append([BEL]);
    }

    method AppendPayload(i: nat, r: nat, g: nat, b: nat)
      requires r < 256 && g < 256 && b < 256
      modifies this
      ensures output == old(output) + PalettePayload(i, r, g, b)
    {
      hide HexByte, Digits;
      AppendInt(i);
      Append([SEMICOLON]);
      Append([0x72, 0x67, 0x62, 0x3A]);
      Append(HexByte(r));
      Append([0x2F]);
      Append(HexByte(g));
      Append([0x2F]);
      Append(HexByte(b));
    }

    /** A parameter and the semicolon before all but the first. */
    method AppendSgrParam(first: bool, v: nat)
      modifies this
      ensures output == old(output) + (if first then [] else [SEMICOLON]) + Digits(v)
    {
      if !first { Append([SEMICOLON]); }
      AppendInt(v);
    }

    /** One parameter more where `c` holds. */
    method AppendWhen(c: bool, v: nat, ghost start: seq<Char32>, ghost ps: seq<nat>) returns (ghost qs: seq<nat>)
      requires ps != [] && output == start + Fields(Nums(ps))
      modifies this
      ensures qs == With(ps, c, v) && qs != [] && output == start + Fields(Nums(qs))
    {
      hide Fields, Nums;
      qs := With(ps, c, v);
      if c {
        AppendSgrParam(false, v);
        NumsSnoc(ps, v);
      }
    }

    lemma NumsSnoc(ps: seq<nat>, v: nat)
      requires ps != []
      ensures Fields(Nums(ps + [v])) == Fields(Nums(ps)) + [SEMICOLON] + Digits(v)
    {
      var fs := Nums(ps + [v]);
      assert fs[..|fs| - 1] == Nums(ps);
    }

    method AppendOn(on: set<SgrFlag>, ghost start: seq<Char32>, ghost ps: seq<nat>) returns (ghost qs: seq<nat>)
      requires ps != [] && output == start + Fields(Nums(ps))
      modifies this
      ensures qs == WithOn(ps, on) && qs != [] && output == start + Fields(Nums(qs))
    {
      hide Fields, Nums, With;
      qs := AppendWhen(Bold in on, 1, start, ps);
      qs := AppendWhen(Faint in on, 2, start, qs);
      qs := AppendWhen(Italic in on, 3, start, qs);
      qs := AppendWhen(Underline in on, 4, start, qs);
      qs := AppendWhen(Blink in on, 5, start, qs);
      qs := AppendWhen(Negative in on, 7, start, qs);
      qs := AppendWhen(Conceal in on, 8, start, qs);
      qs := AppendWhen(Strikethrough in on, 9, start, qs);
    }

    method AppendOff(off: set<SgrFlag>, ghost start: seq<Char32>, ghost ps: seq<nat>) returns (ghost qs: seq<nat>)
      requires ps != [] && output == start + Fields(Nums(ps))
      modifies this
      ensures qs == WithOff(ps, off) && qs != [] && output == start + Fields(Nums(qs))
    {
      hide Fields, Nums, With;
      qs := AppendWhen(Bold in off || Faint in off, 22, start, ps);
      qs := AppendWhen(Italic in off, 23, start, qs);
      qs := AppendWhen(Underline in off, 24, start, qs);
      qs := AppendWhen(Blink in off, 25, start, qs);
      qs := AppendWhen(Negative in off, 27, start, qs);
      qs := AppendWhen(Conceal in off, 28, start, qs);
      qs := AppendWhen(Strikethrough in off, 29, start, qs);
    }

    method AppendColor(c: SgrColor, base: nat, ghost start: seq<Char32>, ghost ps: seq<nat>) returns (ghost qs: seq<nat>)
      requires ps != [] && output == start + Fields(Nums(ps))
      modifies this
      ensures qs == WithColor(ps, c, base) && qs != [] && output == start + Fields(Nums(qs))
    {
      hide Fields, Nums;
      qs := ps;
      match c
      case Unchanged =>
      case DefaultColor => qs := AppendWhen(true, base + 9, start, qs);
      case Rgb(r, g, b) =>
        qs := AppendWhen(true, base + 8, start, qs);
        qs := AppendWhen(true, 2, start, qs);
        qs := AppendWhen(true, r, start, qs);
        qs := AppendWhen(true, g, start, qs);
        qs := AppendWhen(true, b, start, qs);
        assert qs == WithColor(ps, c, base);
      case Indexed(i) =>
        if i <= 7 {
          qs := AppendWhen(true, base + i, start, qs);
        } else if i <= 15 {
          qs := AppendWhen(true, base + 60 + (i - 8), start, qs);
        } else {
          qs := AppendWhen(true, base + 8, start, qs);
          qs := AppendWhen(true, 5, start, qs);
          qs := AppendWhen(true, i, start, qs);
          assert qs == WithColor(ps, c, base);
        }
    }

    /** A reset alone, or 0 and everything the payload switches and sets. */
    method SendSgr(p: SgrPayload)
      modifies this
      ensures output == old(output) + SgrText(p)
    {
      hide Fields, Nums, WithOn, WithOff, WithColor;
      ghost var before := output;
      Append([ESC, 0x5B]);
      ghost var start := output;
      ZeroField();
      if Reset in p.on {
        Append([0x30]);
        Append([0x6D]);
        assert output == before + SgrText(p);
        return;
      }
      AppendSgrParam(true, 0);
      ghost var qs := AppendOn(p.on, start, [0]);
      qs := AppendOff(p.off, start, qs);
      qs := AppendColor(p.fg, 30, start, qs);
      qs := AppendColor(p.bg, 40, start, qs);
      Append([0x6D]);
      assert output == before + SgrText(p);
    }

    lemma ZeroField()
      ensures Fields(Nums([0])) == Digits(0) == [0x30]
    {}

    method SendPlain(p: PlainId)
      modifies this
      ensures output == old(output) + PlainText(p)
    {
      Append(PlainText(p));
    }
  }
}
