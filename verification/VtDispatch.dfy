/** What a complete escape sequence means. */
module VtDispatch {
  import opened Cells
  import opened Options
  import opened SgrPayloads
  import opened Shorts
  import opened VtMessages

  const MAX_PARAMS := 16

  // ---- ESC, G0 charset and SS3 finals ----

  function DispatchEsc(final: Char32): Option<Msg> {
    match final
    case 0x4D /* M */ => Some(Plain(ReverseIndex))
    case 0x37 /* 7 */ => Some(Plain(SaveCursor))
    case 0x38 /* 8 */ => Some(Plain(RestoreCursor))
    case 0x48 /* H */ => Some(Plain(TabSet))
    case 0x3D /* = */ => Some(Plain(KeypadApp))
    case 0x3E /* > */ => Some(Plain(KeypadNumeric))
    case _ => None
  }

  function DispatchCharset(final: Char32): Option<Msg> {
    if final == 0x30 then Some(Plain(CharsetLines))
    else if final == 0x42 then Some(Plain(CharsetAscii))
    else None
  }

  function DispatchSs3(final: Char32): Option<Msg> {
    match final
    case 0x41 => Some(Key(KeyUp))
    case 0x42 => Some(Key(KeyDown))
    case 0x43 => Some(Key(KeyRight))
    case 0x44 => Some(Key(KeyLeft))
    case 0x48 => Some(Key(KeyHome))
    case 0x46 => Some(Key(KeyEnd))
    case 0x50 => Some(Key(KeyF1))
    case 0x51 => Some(Key(KeyF2))
    case 0x52 => Some(Key(KeyF3))
    case 0x53 => Some(Key(KeyF4))
    case _ => None
  }

  // ---- CSI ----

  /** The parameter at `i`, or the default where the sequence has none. */
  function Param(ps: seq<int>, i: nat, default: int): int {
    if i < |ps| then ps[i] else default
  }

  /** Positions are 1-based: 0 means the default. */
  function PositiveParam(ps: seq<int>, i: nat, default: int): int {
    if Param(ps, i, default) == 0 then default else Param(ps, i, default)
  }

  /** Which message a CSI final with a count selects. */
  function CountFinal(final: Char32): Option<CountId> {
    match final
    case 0x41 /* A */ => Some(CUU)
    case 0x42 /* B */ => Some(CUD)
    case 0x43 /* C */ => Some(CUF)
    case 0x44 /* D */ => Some(CUB)
    case 0x45 /* E */ => Some(CNL)
    case 0x46 /* F */ => Some(CPL)
    case 0x49 /* I */ => Some(CHT)
    case 0x5A /* Z */ => Some(CBT)
    case 0x53 /* S */ => Some(SU)
    case 0x54 /* T */ => Some(SD)
    case 0x40 /* @ */ => Some(ICH)
    case 0x50 /* P */ => Some(DCH)
    case 0x58 /* X */ => Some(ECH)
    case 0x4C /* L */ => Some(IL)
    case 0x4D /* M */ => Some(DL)
    case _ => None
  }

  /** Cursor moves are not recognised behind a private marker. */
  predicate RefusesMarker(id: CountId) {
    id == CUU || id == CUD || id == CUF || id == CUB || id == CNL || id == CPL
  }

  function PrivateMode(n: int, on: bool): Option<Msg> {
    match n
    case 12 => Some(Plain(if on then CursorBlink else CursorSteady))
    case 25 => Some(Plain(if on then CursorShow else CursorHide))
    case 1 => Some(Plain(if on then CursorKeysApp else CursorKeysNormal))
    case 3 => Some(Plain(if on then Columns132 else Columns80))
    case 1049 => Some(Plain(if on then AlternateBuffer else MainBuffer))
    case _ => None
  }

  function TildeKey(n: int): Option<Msg> {
    match n
    case 2 => Some(Key(KeyInsert))
    case 3 => Some(Key(KeyDelete))
    case 5 => Some(Key(KeyPageUp))
    case 6 => Some(Key(KeyPageDown))
    case 15 => Some(Key(KeyF5))
    case 17 => Some(Key(KeyF6))
    case 18 => Some(Key(KeyF7))
    case 19 => Some(Key(KeyF8))
    case 20 => Some(Key(KeyF9))
    case 21 => Some(Key(KeyF10))
    case 23 => Some(Key(KeyF11))
    case 24 => Some(Key(KeyF12))
    case _ => None
  }

  /** The attributes of an SGR sequence, read one after another. */
  function DispatchSgr(ps: seq<int>): Option<Msg> {
    var read := SgrRead(ps, NOTHING);
    if read.Some? then Some(Sgr(read.value)) else None
  }

  function DispatchCsi(final: Char32, ps: seq<int>, priv: bool, inter: Char32, overflow: bool): Option<Msg> {
    if overflow then None
    else if CountFinal(final).Some? then
      var id := CountFinal(final).value;
      if priv && RefusesMarker(id) then None else Some(Count(id, PositiveParam(ps, 0, 1)))
    else
      match final
      case 0x47 /* G */ => if priv then None else Some(Column(PositiveParam(ps, 0, 1)))
      case 0x64 /* d */ => if priv then None else Some(RowOnly(PositiveParam(ps, 0, 1)))
      case 0x48 /* H */ => if priv then None else Some(Position(PositiveParam(ps, 0, 1), PositiveParam(ps, 1, 1)))
      case 0x66 /* f */ => if priv then None else Some(Position(PositiveParam(ps, 0, 1), PositiveParam(ps, 1, 1)))
      case 0x73 /* s */ => if priv then None else Some(Plain(AnsiSaveCursor))
      case 0x75 /* u */ => if priv then None else Some(Plain(AnsiRestoreCursor))
      case 0x68 /* h */ => if priv then PrivateMode(Param(ps, 0, 0), true) else None
      case 0x6C /* l */ => if priv then PrivateMode(Param(ps, 0, 0), false) else None
      case 0x74 /* t */ =>
        if Param(ps, 0, 0) == 8 && Param(ps, 1, 0) > 0 && Param(ps, 2, 0) > 0
        then Some(Resize(Param(ps, 1, 0), Param(ps, 2, 0))) else None
      case 0x4A /* J */ => Some(EraseDisplay(Param(ps, 0, 0)))
      case 0x4B /* K */ => Some(EraseLine(Param(ps, 0, 0)))
      case 0x6D /* m */ => DispatchSgr(ps)
      case 0x71 /* q */ => if inter == 0x20 then Some(CursorShape(Param(ps, 0, 0))) else None
      case 0x67 /* g */ =>
        if Param(ps, 0, 0) == 0 then Some(Plain(TabClear))
        else if Param(ps, 0, 0) == 3 then Some(Plain(TabClearAll)) else None
      case 0x72 /* r */ => Some(Margins(Param(ps, 0, 1), Param(ps, 1, 0)))
      case 0x6E /* n */ => if Param(ps, 0, 0) == 6 then Some(Plain(ReportCursor)) else None
      case 0x63 /* c */ => Some(Plain(DeviceAttributes))
      case 0x52 /* R */ =>
        if !priv && Param(ps, 0, 1) > 0 && Param(ps, 1, 1) > 0
        then Some(CursorReport(Param(ps, 0, 1), Param(ps, 1, 1))) else None
      case 0x70 /* p */ => if inter == 0x21 then Some(Plain(SoftReset)) else None
      case 0x5F /* _ */ =>
        var repeatCount := Param(ps, 5, 1) % 0x1_0000;
        Some(Win32Key(Param(ps, 0, 0) % 0x1_0000, Param(ps, 1, 0) % 0x1_0000, Param(ps, 2, 0) % 0x1_0000,
                      Param(ps, 3, 0) != 0, Param(ps, 4, 0) % 0x1_0000_0000,
                      if repeatCount == 0 then 1 else repeatCount))
      case 0x7E /* ~ */ => TildeKey(Param(ps, 0, 0))
      case _ => None
  }

  /** The xterm modifier of a CSI key sequence. */
  function CsiModifier(ps: seq<int>, overflow: bool): int {
    if overflow then 1 else Param(ps, 1, 1)
  }

  // ---- OSC ----

  /** The operation code at `pos`, accumulated in a SHORT, and where its digits end. */
  function OscCode(s: seq<Char32>, pos: nat, code: int): (r: (int, nat))
    requires pos <= |s|
    ensures pos <= r.1 <= |s|
    decreases |s| - pos
  {
    if pos < |s| && IsDigit(s[pos]) then OscCode(s, pos + 1, Short(code * 10 + (s[pos] - 0x30))) else (code, pos)
  }

  /** Where the string ends: at BEL or at ESC \. */
  function Terminator(s: seq<Char32>, pos: nat): (r: nat)
    requires pos <= |s|
    ensures pos <= r <= |s|
    decreases |s| - pos
  {
    if pos == |s| || s[pos] == BEL || (s[pos] == ESC && pos + 1 < |s| && s[pos + 1] == BACKSLASH) then pos
    else Terminator(s, pos + 1)
  }

  predicate IsHexDigit(ch: Char32) {
    IsDigit(ch) || 0x41 <= ch <= 0x46 || 0x61 <= ch <= 0x66
  }

  function HexValue(ch: Char32): int
    requires IsHexDigit(ch)
  {
    if IsDigit(ch) then ch - 0x30 else if ch <= 0x46 then ch - 0x41 + 10 else ch - 0x61 + 10
  }

  /** Past every `ch` from `pos` on. */
  function Skip(s: seq<Char32>, pos: nat, ch: Char32): (r: nat)
    requires pos <= |s|
    ensures pos <= r <= |s|
    decreases |s| - pos
  {
    if pos < |s| && s[pos] == ch then Skip(s, pos + 1, ch) else pos
  }

  /** Past at most `n` digits. */
  function DigitsEnd(s: seq<Char32>, pos: nat, n: nat): (r: nat)
    requires pos <= |s|
    ensures pos <= r <= |s| && r <= pos + n
    ensures forall i :: pos <= i < r ==> IsDigit(s[i])
    decreases n
  {
    if n > 0 && pos < |s| && IsDigit(s[pos]) then DigitsEnd(s, pos + 1, n - 1) else pos
  }

  function DecimalValue(s: seq<Char32>): int {
    if s == [] then 0 else DecimalValue(s[..|s| - 1]) * 10 + (s[|s| - 1] as int - 0x30)
  }

  /** A decimal number of at most five digits behind spaces; what does not fit a short is 0. */
  function OscDecimal(s: seq<Char32>, pos: nat): (r: (int, nat))
    requires pos <= |s|
    ensures pos <= r.1 <= |s|
  {
    var start := Skip(s, pos, 0x20);
    var end := DigitsEnd(s, start, 5);
    var v := DecimalValue(s[start..end]);
    (if v <= 0x7FFF then v else 0, end)
  }

  /** A colour component of at most two hexadecimal digits, and the slashes behind it. */
  function OscHex(s: seq<Char32>, pos: nat): (r: (int, nat))
    requires pos <= |s|
    ensures pos <= r.1 <= |s|
  {
    if pos >= |s| || !IsHexDigit(s[pos]) then (0, pos)
    else if pos + 1 < |s| && IsHexDigit(s[pos + 1])
    then (HexValue(s[pos]) * 16 + HexValue(s[pos + 1]), Skip(s, pos + 2, 0x2F))
    else (HexValue(s[pos]), Skip(s, pos + 1, 0x2F))
  }

  predicate RgbPrefix(s: seq<Char32>, p: nat) {
    && p + 4 <= |s| && (s[p] == 0x72 || s[p] == 0x52) && (s[p + 1] == 0x67 || s[p + 1] == 0x47)
    && (s[p + 2] == 0x62 || s[p + 2] == 0x42) && s[p + 3] == 0x3A
  }

  /** OSC 4: index;rgb:r/g/b. */
  function DispatchPalette(payload: seq<Char32>): Msg {
    var (index, p0) := OscDecimal(payload, 0);
    var p := if p0 < |payload| && payload[p0] == SEMICOLON then p0 + 1 else p0;
    if RgbPrefix(payload, p) then
      var (r, p1) := OscHex(payload, p + 4);
      var (g, p2) := OscHex(payload, p1);
      var (b, p3) := OscHex(payload, p2);
      if p3 == p + 4 then Unknown([]) else Palette(index, r, g, b)
    else Unknown([])
  }

  /** The string behind the operation code and its semicolon. */
  function DispatchOscPayload(raw: seq<Char32>, code: int, start: nat): Option<Msg>
    requires start <= |raw|
  {
    var end := Terminator(raw, start);
    if end == |raw| then None
    else
      match code
      case 8 => Some(Hyperlink)
      case 0 => Some(Title(raw[start..end]))
      case 2 => Some(Title(raw[start..end]))
      case 4 => Some(DispatchPalette(raw[start..end]))
      case _ => Some(Unknown([]))
  }

  function DispatchOsc(raw: seq<Char32>): Option<Msg> {
    if |raw| < 3 || raw[0] != ESC || raw[1] != 0x5D then None
    else
      var (code, pos) := OscCode(raw, 2, 0);
      if pos >= |raw| || raw[pos] != SEMICOLON then None else DispatchOscPayload(raw, code, pos + 1)
  }
}
