/**
  What the parser makes of whole sequences, byte for byte: the control functions of ECMA-48 and their xterm
  and DEC private relatives that corehost knows, and that everything else is delivered as unknown text.
 */
module VtMeanings {
  import opened Cells
  import opened Options
  import opened SgrPayloads
  import opened Shorts
  import opened VtMessages
  import opened VtDispatch
  import opened VtParsers
  import opened VtPrinters

  /** Read by a new parser the sequence is one message, with its own text, and leaves the parser as new. */
  ghost predicate Delivers(text: seq<Char32>, m: Msg, modifier: int) {
    Steps(FRESH, text) == (FRESH, [Event(m, modifier, text)])
  }

  /** One to sixteen parameters, each absent or a SHORT. */
  predicate FieldsOk(fs: seq<Field>) {
    1 <= |fs| <= 16 && forall i :: 0 <= i < |fs| ==> fs[i].Empty? || fs[i].n <= 0x7FFF
  }

  /** Parameter `i`: 0 where it is left empty, `default` where the sequence ends before it. */
  function At(fs: seq<Field>, i: nat, default: nat): nat {
    if i >= |fs| then default else if fs[i].Empty? then 0 else fs[i].n
  }

  /** The same, where 0 stands for 1. */
  function One(fs: seq<Field>, i: nat): nat {
    if At(fs, i, 1) == 0 then 1 else At(fs, i, 1)
  }

  lemma ParamAt(fs: seq<Field>, i: nat, default: nat)
    requires FieldsOk(fs)
    ensures Param(Values(fs), i, default) == At(fs, i, default)
  {}

  lemma Meant(marked: bool, fs: seq<Field>, inter: seq<Char32>, final: Char32, m: Option<Msg>)
    requires FieldsOk(fs) && 0x40 <= final <= 0x7E && Intermediates(inter)
    requires DispatchCsi(final, Values(fs), marked, LastOf(inter), false) == m
    ensures var text := CsiText(marked, fs, inter, final);
            Delivers(text, if m.Some? then m.value else Unknown(text), At(fs, 1, 1))
  {
    hide DispatchCsi, Steps, CsiText, Values;
    ParamAt(fs, 1, 1);
    CsiParses(FRESH, marked, fs, inter, final);
  }

  // ---- Cursor ----

  /** CUU, CUD, CUF, CUB, CNL and CPL, which are the cursor keys too: then the second parameter is the modifier. */
  lemma CursorMovesMeant(fs: seq<Field>)
    requires FieldsOk(fs)
    ensures Delivers(CsiText(false, fs, [], 0x41 /* A */), Count(CUU, One(fs, 0)), At(fs, 1, 1))
    ensures Delivers(CsiText(false, fs, [], 0x42 /* B */), Count(CUD, One(fs, 0)), At(fs, 1, 1))
    ensures Delivers(CsiText(false, fs, [], 0x43 /* C */), Count(CUF, One(fs, 0)), At(fs, 1, 1))
    ensures Delivers(CsiText(false, fs, [], 0x44 /* D */), Count(CUB, One(fs, 0)), At(fs, 1, 1))
    ensures Delivers(CsiText(false, fs, [], 0x45 /* E */), Count(CNL, One(fs, 0)), At(fs, 1, 1))
    ensures Delivers(CsiText(false, fs, [], 0x46 /* F */), Count(CPL, One(fs, 0)), At(fs, 1, 1))
  {
    hide Delivers, CsiText, Values;
    ParamAt(fs, 0, 1);
    Meant(false, fs, [], 0x41, Some(Count(CUU, One(fs, 0))));
    Meant(false, fs, [], 0x42, Some(Count(CUD, One(fs, 0))));
    Meant(false, fs, [], 0x43, Some(Count(CUF, One(fs, 0))));
    Meant(false, fs, [], 0x44, Some(Count(CUB, One(fs, 0))));
    Meant(false, fs, [], 0x45, Some(Count(CNL, One(fs, 0))));
    Meant(false, fs, [], 0x46, Some(Count(CPL, One(fs, 0))));
  }

  /** CHA, VPA, CUP and HVP, which is the same as CUP; ANSI cursor save and restore. */
  lemma PositionsMeant(fs: seq<Field>)
    requires FieldsOk(fs)
    ensures Delivers(CsiText(false, fs, [], 0x47 /* G */), Column(One(fs, 0)), At(fs, 1, 1))
    ensures Delivers(CsiText(false, fs, [], 0x64 /* d */), RowOnly(One(fs, 0)), At(fs, 1, 1))
    ensures Delivers(CsiText(false, fs, [], 0x48 /* H */), Position(One(fs, 0), One(fs, 1)), At(fs, 1, 1))
    ensures Delivers(CsiText(false, fs, [], 0x66 /* f */), Position(One(fs, 0), One(fs, 1)), At(fs, 1, 1))
    ensures Delivers(CsiText(false, fs, [], 0x73 /* s */), Plain(AnsiSaveCursor), At(fs, 1, 1))
    ensures Delivers(CsiText(false, fs, [], 0x75 /* u */), Plain(AnsiRestoreCursor), At(fs, 1, 1))
  {
    hide Delivers, CsiText, Values;
    ParamAt(fs, 0, 1);
    ParamAt(fs, 1, 1);
    Meant(false, fs, [], 0x47, Some(Column(One(fs, 0))));
    Meant(false, fs, [], 0x64, Some(RowOnly(One(fs, 0))));
    Meant(false, fs, [], 0x48, Some(Position(One(fs, 0), One(fs, 1))));
    Meant(false, fs, [], 0x66, Some(Position(One(fs, 0), One(fs, 1))));
    Meant(false, fs, [], 0x73, Some(Plain(AnsiSaveCursor)));
    Meant(false, fs, [], 0x75, Some(Plain(AnsiRestoreCursor)));
  }

  /** Behind a private marker none of them is known. */
  lemma MarkedCursorUnknown(fs: seq<Field>, final: Char32)
    requires FieldsOk(fs) && (0x41 <= final <= 0x48 || final == 0x64 || final == 0x66 || final == 0x73 || final == 0x75)
    ensures Delivers(CsiText(true, fs, [], final), Unknown(CsiText(true, fs, [], final)), At(fs, 1, 1))
  {
    hide Delivers, CsiText, Values, Param;
    Meant(true, fs, [], final, None);
  }

  // ---- Lines, columns, tabs ----

  lemma ScrollsMeant(marked: bool, fs: seq<Field>)
    requires FieldsOk(fs)
    ensures Delivers(CsiText(marked, fs, [], 0x53 /* S */), Count(SU, One(fs, 0)), At(fs, 1, 1))
    ensures Delivers(CsiText(marked, fs, [], 0x54 /* T */), Count(SD, One(fs, 0)), At(fs, 1, 1))
    ensures Delivers(CsiText(marked, fs, [], 0x4C /* L */), Count(IL, One(fs, 0)), At(fs, 1, 1))
    ensures Delivers(CsiText(marked, fs, [], 0x4D /* M */), Count(DL, One(fs, 0)), At(fs, 1, 1))
  {
    hide Delivers, CsiText, Values;
    ParamAt(fs, 0, 1);
    Meant(marked, fs, [], 0x53, Some(Count(SU, One(fs, 0))));
    Meant(marked, fs, [], 0x54, Some(Count(SD, One(fs, 0))));
    Meant(marked, fs, [], 0x4C, Some(Count(IL, One(fs, 0))));
    Meant(marked, fs, [], 0x4D, Some(Count(DL, One(fs, 0))));
  }

  lemma TabsMeant(marked: bool, fs: seq<Field>)
    requires FieldsOk(fs)
    ensures Delivers(CsiText(marked, fs, [], 0x49 /* I */), Count(CHT, One(fs, 0)), At(fs, 1, 1))
    ensures Delivers(CsiText(marked, fs, [], 0x5A /* Z */), Count(CBT, One(fs, 0)), At(fs, 1, 1))
    ensures var text := CsiText(marked, fs, [], 0x67 /* g */);
            var n := At(fs, 0, 0);
            Delivers(text, if n == 0 then Plain(TabClear) else if n == 3 then Plain(TabClearAll) else Unknown(text), At(fs, 1, 1))
  {
    hide Delivers, CsiText, Values;
    ParamAt(fs, 0, 1);
    ParamAt(fs, 0, 0);
    var n := At(fs, 0, 0);
    Meant(marked, fs, [], 0x49, Some(Count(CHT, One(fs, 0))));
    Meant(marked, fs, [], 0x5A, Some(Count(CBT, One(fs, 0))));
    Meant(marked, fs, [], 0x67, if n == 0 then Some(Plain(TabClear)) else if n == 3 then Some(Plain(TabClearAll)) else None);
  }

  lemma EditsMeant(marked: bool, fs: seq<Field>)
    requires FieldsOk(fs)
    ensures Delivers(CsiText(marked, fs, [], 0x40 /* @ */), Count(ICH, One(fs, 0)), At(fs, 1, 1))
    ensures Delivers(CsiText(marked, fs, [], 0x50 /* P */), Count(DCH, One(fs, 0)), At(fs, 1, 1))
    ensures Delivers(CsiText(marked, fs, [], 0x58 /* X */), Count(ECH, One(fs, 0)), At(fs, 1, 1))
  {
    hide Delivers, CsiText, Values;
    ParamAt(fs, 0, 1);
    Meant(marked, fs, [], 0x40, Some(Count(ICH, One(fs, 0))));
    Meant(marked, fs, [], 0x50, Some(Count(DCH, One(fs, 0))));
    Meant(marked, fs, [], 0x58, Some(Count(ECH, One(fs, 0))));
  }

  lemma ErasesMeant(marked: bool, fs: seq<Field>)
    requires FieldsOk(fs)
    ensures Delivers(CsiText(marked, fs, [], 0x4A /* J */), EraseDisplay(At(fs, 0, 0)), At(fs, 1, 1))
    ensures Delivers(CsiText(marked, fs, [], 0x4B /* K */), EraseLine(At(fs, 0, 0)), At(fs, 1, 1))
    ensures Delivers(CsiText(marked, fs, [], 0x72 /* r */), Margins(At(fs, 0, 1), At(fs, 1, 0)), At(fs, 1, 1))
  {
    hide Delivers, CsiText, Values;
    ParamAt(fs, 0, 1);
    ParamAt(fs, 0, 0);
    ParamAt(fs, 1, 0);
    Meant(marked, fs, [], 0x4A, Some(EraseDisplay(At(fs, 0, 0))));
    Meant(marked, fs, [], 0x4B, Some(EraseLine(At(fs, 0, 0))));
    Meant(marked, fs, [], 0x72, Some(Margins(At(fs, 0, 1), At(fs, 1, 0))));
  }

  // ---- Modes, reports ----

  /** DECSET and DECRST of modes 1, 3, 12, 25 and 1049; other modes, and modes without the marker, are unknown. */
  lemma ModesMeant(marked: bool, fs: seq<Field>, on: bool)
    requires FieldsOk(fs)
    ensures var text := CsiText(marked, fs, [], if on then 0x68 /* h */ else 0x6C /* l */);
            var n := At(fs, 0, 0);
            var m := if !marked then Unknown(text)
                     else if n == 1 then Plain(if on then CursorKeysApp else CursorKeysNormal)
                     else if n == 3 then Plain(if on then Columns132 else Columns80)
                     else if n == 12 then Plain(if on then CursorBlink else CursorSteady)
                     else if n == 25 then Plain(if on then CursorShow else CursorHide)
                     else if n == 1049 then Plain(if on then AlternateBuffer else MainBuffer)
                     else Unknown(text);
            Delivers(text, m, At(fs, 1, 1))
  {
    hide Delivers, CsiText, Values;
    ParamAt(fs, 0, 0);
    var final: Char32 := if on then 0x68 else 0x6C;
    Meant(marked, fs, [], final, DispatchCsi(final, Values(fs), marked, 0, false));
  }

  /** DSR 6, DA; the answer to DSR 6; the window size that a terminal sends. */
  lemma ReportsMeant(marked: bool, fs: seq<Field>)
    requires FieldsOk(fs)
    ensures var text := CsiText(marked, fs, [], 0x6E /* n */);
            Delivers(text, if At(fs, 0, 0) == 6 then Plain(ReportCursor) else Unknown(text), At(fs, 1, 1))
    ensures Delivers(CsiText(marked, fs, [], 0x63 /* c */), Plain(DeviceAttributes), At(fs, 1, 1))
    ensures var text := CsiText(marked, fs, [], 0x52 /* R */);
            var row, col := At(fs, 0, 1), At(fs, 1, 1);
            Delivers(text, if !marked && row > 0 && col > 0 then CursorReport(row, col) else Unknown(text), col)
    ensures var text := CsiText(marked, fs, [], 0x74 /* t */);
            var rows, cols := At(fs, 1, 0), At(fs, 2, 0);
            Delivers(text, if At(fs, 0, 0) == 8 && rows > 0 && cols > 0 then Resize(rows, cols) else Unknown(text), At(fs, 1, 1))
  {
    hide Delivers, CsiText, Values;
    ParamAt(fs, 0, 0);
    ParamAt(fs, 0, 1);
    ParamAt(fs, 1, 0);
    ParamAt(fs, 1, 1);
    ParamAt(fs, 2, 0);
    Meant(marked, fs, [], 0x6E, if At(fs, 0, 0) == 6 then Some(Plain(ReportCursor)) else None);
    Meant(marked, fs, [], 0x63, Some(Plain(DeviceAttributes)));
    Meant(marked, fs, [], 0x52, DispatchCsi(0x52, Values(fs), marked, 0, false));
    Meant(marked, fs, [], 0x74, DispatchCsi(0x74, Values(fs), marked, 0, false));
  }

  /** DECSCUSR needs its space, DECSTR its exclamation mark. */
  lemma IntermediatesMeant(marked: bool, fs: seq<Field>, inter: seq<Char32>)
    requires FieldsOk(fs) && Intermediates(inter)
    ensures var text := CsiText(marked, fs, inter, 0x71 /* q */);
            Delivers(text, if LastOf(inter) == 0x20 then CursorShape(At(fs, 0, 0)) else Unknown(text), At(fs, 1, 1))
    ensures var text := CsiText(marked, fs, inter, 0x70 /* p */);
            Delivers(text, if LastOf(inter) == 0x21 /* ! */ then Plain(SoftReset) else Unknown(text), At(fs, 1, 1))
  {
    hide Delivers, CsiText, Values;
    ParamAt(fs, 0, 0);
    Meant(marked, fs, inter, 0x71, if LastOf(inter) == 0x20 then Some(CursorShape(At(fs, 0, 0))) else None);
    Meant(marked, fs, inter, 0x70, if LastOf(inter) == 0x21 then Some(Plain(SoftReset)) else None);
  }

  // ---- Keys ----

  /** The key a tilde sequence stands for. */
  function KeyOfTilde(n: nat): Option<KeyId> {
    if n == 2 then Some(KeyInsert) else if n == 3 then Some(KeyDelete)
    else if n == 5 then Some(KeyPageUp) else if n == 6 then Some(KeyPageDown)
    else if n == 15 then Some(KeyF5) else if n == 17 then Some(KeyF6) else if n == 18 then Some(KeyF7)
    else if n == 19 then Some(KeyF8) else if n == 20 then Some(KeyF9) else if n == 21 then Some(KeyF10)
    else if n == 23 then Some(KeyF11) else if n == 24 then Some(KeyF12)
    else None
  }

  lemma TildeKeysMeant(marked: bool, fs: seq<Field>)
    requires FieldsOk(fs)
    ensures var text := CsiText(marked, fs, [], 0x7E /* ~ */);
            var key := KeyOfTilde(At(fs, 0, 0));
            Delivers(text, if key.Some? then Key(key.value) else Unknown(text), At(fs, 1, 1))
  {
    hide Delivers, CsiText, Values;
    ParamAt(fs, 0, 0);
    Meant(marked, fs, [], 0x7E, TildeKey(At(fs, 0, 0)));
  }

  /** The key record of win32-input-mode: key code, scan code, character, down, modifiers, repeat count. */
  lemma Win32KeyMeant(marked: bool, fs: seq<Field>)
    requires FieldsOk(fs)
    ensures Delivers(CsiText(marked, fs, [], 0x5F /* _ */),
                     Win32Key(At(fs, 0, 0), At(fs, 1, 0), At(fs, 2, 0), At(fs, 3, 0) != 0, At(fs, 4, 0), One(fs, 5)),
                     At(fs, 1, 1))
  {
    hide Delivers, CsiText, Values;
    ParamAt(fs, 0, 0);
    ParamAt(fs, 1, 0);
    ParamAt(fs, 2, 0);
    ParamAt(fs, 3, 0);
    ParamAt(fs, 4, 0);
    ParamAt(fs, 5, 1);
    Meant(marked, fs, [], 0x5F,
          Some(Win32Key(At(fs, 0, 0), At(fs, 1, 0), At(fs, 2, 0), At(fs, 3, 0) != 0, At(fs, 4, 0), One(fs, 5))));
  }

  /** Finals that mean nothing. */
  lemma OtherFinalsUnknown(marked: bool, fs: seq<Field>, inter: seq<Char32>, final: Char32)
    requires FieldsOk(fs) && Intermediates(inter)
    requires 0x4E <= final <= 0x4F || final == 0x51 || 0x55 <= final <= 0x57 || final == 0x59 || 0x5B <= final <= 0x5E ||
             0x60 <= final <= 0x62 || final == 0x65 || 0x69 <= final <= 0x6B || final == 0x6F || 0x76 <= final <= 0x7D
    ensures Delivers(CsiText(marked, fs, inter, final), Unknown(CsiText(marked, fs, inter, final)), At(fs, 1, 1))
  {
    hide Delivers, CsiText, Values, Param;
    Meant(marked, fs, inter, final, None);
  }

  // ---- SGR ----

  function On(f: SgrFlag): SgrPayload { NOTHING.(on := {f}) }

  function Off(fs: set<SgrFlag>): SgrPayload { NOTHING.(off := fs) }

  /** What a parameter means on its own; an unknown one means nothing. */
  function SgrMeaning(v: nat): SgrPayload {
    if v == 0 then On(Reset) else if v == 1 then On(Bold) else if v == 2 then On(Faint)
    else if v == 3 then On(Italic) else if v == 4 then On(Underline) else if v == 5 then On(Blink)
    else if v == 7 then On(Negative) else if v == 8 then On(Conceal) else if v == 9 then On(Strikethrough)
    else if v == 22 then Off({Bold, Faint}) else if v == 23 then Off({Italic}) else if v == 24 then Off({Underline})
    else if v == 25 then Off({Blink}) else if v == 27 then Off({Negative}) else if v == 28 then Off({Conceal})
    else if v == 29 then Off({Strikethrough})
    else if 30 <= v <= 37 then NOTHING.(fg := Indexed(v - 30)) else if v == 39 then NOTHING.(fg := DefaultColor)
    else if 40 <= v <= 47 then NOTHING.(bg := Indexed(v - 40)) else if v == 49 then NOTHING.(bg := DefaultColor)
    else if 90 <= v <= 97 then NOTHING.(fg := Indexed(v - 82)) else if 100 <= v <= 107 then NOTHING.(bg := Indexed(v - 92))
    else NOTHING
  }

  lemma SgrCodesMeant(marked: bool, v: nat)
    requires v <= 0x7FFF
    ensures Delivers(CsiText(marked, [Num(v)], [], 0x6D /* m */), Sgr(SgrMeaning(v)), 1)
  {
    hide Delivers, CsiText;
    assert Values([Num(v)]) == [v];
    SgrAlone(v);
    Meant(marked, [Num(v)], [], 0x6D, Some(Sgr(SgrMeaning(v))));
  }

  lemma SgrAlone(v: nat)
    ensures SgrRead([v], NOTHING) == Some(SgrMeaning(v))
  {
    assert [v][1..] == [];
    assert SgrRead([], SgrMeaning(v)) == Some(SgrMeaning(v));
    assert {Bold} + {Faint} == {Bold, Faint} && {} + {Bold} == {Bold};
    assert forall f: SgrFlag :: {} - {f} == {} && {} + {f} == {f};
    assert SgrCode(NOTHING, v) == SgrMeaning(v);
  }

  /** 38 and 48 with 5 or 2 take a colour; without its arguments the whole sequence is unknown. */
  lemma ExtendedColorsMeant(marked: bool, front: bool, n: nat, r: nat, g: nat, b: nat)
    requires n < 256 && r < 256 && g < 256 && b < 256
    ensures var k := if front then 38 else 48;
            var text := CsiText(marked, [Num(k), Num(5), Num(n)], [], 0x6D /* m */);
            Delivers(text, Sgr(if front then NOTHING.(fg := Indexed(n)) else NOTHING.(bg := Indexed(n))), 5)
    ensures var k := if front then 38 else 48;
            var text := CsiText(marked, [Num(k), Num(2), Num(r), Num(g), Num(b)], [], 0x6D /* m */);
            Delivers(text, Sgr(if front then NOTHING.(fg := Rgb(r, g, b)) else NOTHING.(bg := Rgb(r, g, b))), 2)
    ensures var k := if front then 38 else 48;
            var text := CsiText(marked, [Num(k), Num(5)], [], 0x6D /* m */);
            Delivers(text, Unknown(text), 5)
    ensures var k := if front then 38 else 48;
            var text := CsiText(marked, [Num(k), Num(2), Num(r), Num(g)], [], 0x6D /* m */);
            Delivers(text, Unknown(text), 2)
  {
    hide Delivers, CsiText, Values;
    var k := if front then 38 else 48;
    SgrIndexed(marked, k, n);
    SgrRgb(marked, k, r, g, b);
    SgrCut(marked, k, r, g);
  }

  lemma SgrIndexed(marked: bool, k: nat, n: nat)
    requires (k == 38 || k == 48) && n < 256
    ensures Delivers(CsiText(marked, [Num(k), Num(5), Num(n)], [], 0x6D), Sgr(Colored(NOTHING, k == 38, Indexed(n))), 5)
  {
    hide Delivers, CsiText;
    var fs := [Num(k), Num(5), Num(n)];
    assert Values(fs) == [k, 5, n];
    SgrEnds([k, 5, n], 3, Colored(NOTHING, k == 38, Indexed(n)));
    Meant(marked, fs, [], 0x6D, Some(Sgr(Colored(NOTHING, k == 38, Indexed(n)))));
  }

  lemma SgrRgb(marked: bool, k: nat, r: nat, g: nat, b: nat)
    requires (k == 38 || k == 48) && r < 256 && g < 256 && b < 256
    ensures Delivers(CsiText(marked, [Num(k), Num(2), Num(r), Num(g), Num(b)], [], 0x6D),
                     Sgr(Colored(NOTHING, k == 38, Rgb(r, g, b))), 2)
  {
    hide Delivers, CsiText;
    var fs := [Num(k), Num(2), Num(r), Num(g), Num(b)];
    assert Values(fs) == [k, 2, r, g, b];
    SgrEnds([k, 2, r, g, b], 5, Colored(NOTHING, k == 38, Rgb(r, g, b)));
    Meant(marked, fs, [], 0x6D, Some(Sgr(Colored(NOTHING, k == 38, Rgb(r, g, b)))));
  }

  lemma SgrEnds(ps: seq<int>, n: nat, p: SgrPayload)
    requires n == |ps|
    ensures SgrRead(ps[n..], p) == Some(p)
  {}

  lemma SgrCut(marked: bool, k: nat, r: nat, g: nat)
    requires (k == 38 || k == 48) && r < 256 && g < 256
    ensures var text := CsiText(marked, [Num(k), Num(5)], [], 0x6D); Delivers(text, Unknown(text), 5)
    ensures var text := CsiText(marked, [Num(k), Num(2), Num(r), Num(g)], [], 0x6D); Delivers(text, Unknown(text), 2)
  {
    hide Delivers, CsiText;
    assert Values([Num(k), Num(5)]) == [k, 5];
    assert Values([Num(k), Num(2), Num(r), Num(g)]) == [k, 2, r, g];
    Meant(marked, [Num(k), Num(5)], [], 0x6D, None);
    Meant(marked, [Num(k), Num(2), Num(r), Num(g)], [], 0x6D, None);
  }

  // ---- Two and three characters ----

  function KeyOfSs3(final: Char32): Option<KeyId> {
    if final == 0x41 /* A */ then Some(KeyUp) else if final == 0x42 /* B */ then Some(KeyDown)
    else if final == 0x43 /* C */ then Some(KeyRight) else if final == 0x44 /* D */ then Some(KeyLeft)
    else if final == 0x48 /* H */ then Some(KeyHome) else if final == 0x46 /* F */ then Some(KeyEnd)
    else if final == 0x50 /* P */ then Some(KeyF1) else if final == 0x51 /* Q */ then Some(KeyF2)
    else if final == 0x52 /* R */ then Some(KeyF3) else if final == 0x53 /* S */ then Some(KeyF4)
    else None
  }

  /** ESC O and a final: a key, or unknown. */
  lemma Ss3Meant(final: Char32)
    ensures var text := [ESC, 0x4F /* O */, final];
            var key := KeyOfSs3(final);
            Delivers(text, if key.Some? then Key(key.value) else Unknown(text), 1)
  {
    hide Steps;
    var a := Step(FRESH, ESC).0;
    var b := Step(a, 0x4F).0;
    ThreeSteps(ESC, 0x4F, final, a, b);
    assert [ESC] + [0x4F] + [final] == [ESC, 0x4F, final];
  }

  lemma TwoSteps(x: Char32, y: Char32, a: Parser)
    requires Step(FRESH, x) == (a, [])
    ensures Steps(FRESH, [x, y]) == Step(a, y)
  {
    hide Step;
    StepsOne(FRESH, x);
    StepsOne(a, y);
    StepsConcat(FRESH, [x], [y]);
    assert [x] + [y] == [x, y];
    assert [] + Step(a, y).1 == Step(a, y).1;
  }

  lemma ThreeSteps(x: Char32, y: Char32, z: Char32, a: Parser, b: Parser)
    requires Step(FRESH, x) == (a, []) && Step(a, y) == (b, [])
    ensures Steps(FRESH, [x, y, z]) == Step(b, z)
  {
    hide Step;
    StepsOne(FRESH, x);
    StepsOne(a, y);
    StepsOne(b, z);
    StepsConcat(FRESH, [x], [y]);
    StepsConcat(FRESH, [x] + [y], [z]);
    assert [x] + [y] + [z] == [x, y, z];
    assert [] + Step(b, z).1 == Step(b, z).1;
  }

  /** ESC and one character: RI, DECSC, DECRC, HTS and the keypad modes, or unknown. */
  lemma EscMeant(final: Char32)
    requires final != 0x5B /* [ */ && final != 0x5D /* ] */ && final != 0x4F /* O */ && final != 0x28 /* ( */
    ensures var text := [ESC, final];
            var m := if final == 0x4D /* M */ then Plain(ReverseIndex)
                     else if final == 0x37 /* 7 */ then Plain(SaveCursor)
                     else if final == 0x38 /* 8 */ then Plain(RestoreCursor)
                     else if final == 0x48 /* H */ then Plain(TabSet)
                     else if final == 0x3D /* = */ then Plain(KeypadApp)
                     else if final == 0x3E /* > */ then Plain(KeypadNumeric)
                     else Unknown(text);
            Delivers(text, m, 1)
  {
    hide Steps;
    if IsControl(final) {
      var a := Step(FRESH, ESC).0;
      TwoSteps(ESC, final, a);
      assert [ESC] + [final] == [ESC, final];
    } else {
      EscParses(final);
    }
  }

  /** ESC ( 0 and ESC ( B. */
  lemma CharsetMeant(final: Char32)
    requires !IsControl(final) && final != 0x5B && final != 0x5D && final != 0x4F && final != 0x28
    ensures var text := [ESC, 0x28 /* ( */, final];
            Delivers(text, if final == 0x30 then Plain(CharsetLines) else if final == 0x42 then Plain(CharsetAscii) else Unknown(text), 1)
  {
    hide Steps;
    var a := Step(FRESH, ESC).0;
    var b := Step(a, 0x28).0;
    ThreeSteps(ESC, 0x28, final, a, b);
    assert [ESC] + [0x28] + [final] == [ESC, 0x28, final];
  }

  // ---- OSC ----

  /** BEL or ESC \. */
  function StringEnd(st: bool): seq<Char32> { if st then [ESC, 0x5C] else [BEL] }

  lemma OscEnds(body: seq<Char32>, st: bool)
    requires OscBody(body)
    ensures var text := [ESC, 0x5D] + body + StringEnd(st);
            var m := DispatchOsc(text);
            Delivers(text, if m.Some? then m.value else Unknown(text), 1)
  {
    hide DispatchOsc, Resumes;
    if st {
      var b := OscBegins();
      var c := InString(b, body);
      OscText(b, body);
      StepsConcat(FRESH, [ESC, 0x5D], body);
      StepsConcat(FRESH, [ESC, 0x5D] + body, [ESC]);
      StepsOne(c, ESC);
      var d := c.(mode := OscSt, raw := c.raw + [ESC]);
      assert Step(c, ESC) == (d, []);
      StepsConcat(FRESH, [ESC, 0x5D] + body + [ESC], [0x5C]);
      StepsOne(d, 0x5C);
      assert [ESC, 0x5D] + body + [ESC] + [0x5C] == [ESC, 0x5D] + body + StringEnd(true);
    } else {
      OscParses(body);
    }
  }

  lemma {:induction false} StringEndsAt(s: seq<Char32>, pos: nat, end: nat)
    requires pos <= end < |s| && (s[end] == BEL || (s[end] == ESC && end + 1 < |s| && s[end + 1] == 0x5C))
    requires forall i :: pos <= i < end && IsControl(s[i]) ==> s[i] == ESC && s[i + 1] == 0x5D
    ensures Terminator(s, pos) == end
    decreases end - pos
  {
    if pos < end { StringEndsAt(s, pos + 1, end); }
  }

  /** The operation code is a decimal of any length, cast to SHORT. */
  lemma {:induction false} CodeRead(s: seq<Char32>, n: nat)
    requires 2 + n <= |s| && forall i :: 2 <= i < 2 + n ==> IsDigit(s[i])
    ensures OscCode(s, 2, 0) == OscCode(s, 2 + n, Short(DecimalValue(s[2..2 + n])))
  {
    hide Short;
    if n == 0 {
      assert Short(0) == 0 by { ShortOfSmall(0); }
      assert s[2..2] == [];
    } else {
      CodeRead(s, n - 1);
      var d := s[2..2 + n];
      assert d[..n - 1] == s[2..2 + n - 1];
      ShortStep(DecimalValue(d[..n - 1]), s[1 + n] - 0x30);
    }
  }

  lemma ShortOfSmall(n: nat)
    requires n <= 0x7FFF
    ensures Short(n) == n
  {}

  /**
    OSC n ; string, ended by BEL or by ESC \: 0 and 2 are the title, 4 a palette colour, 8 a hyperlink, everything
    else is unknown.
   */
  lemma OscMeant(n: nat, payload: seq<Char32>, st: bool)
    requires n <= 0x7FFF && OscBody(payload)
    ensures var text := [ESC, 0x5D /* ] */] + (Digits(n) + [0x3B] + payload) + StringEnd(st);
            var m := if n == 0 || n == 2 then Title(payload)
                     else if n == 4 then DispatchPalette(payload)
                     else if n == 8 then Hyperlink
                     else Unknown([]);
            Delivers(text, m, 1)
  {
    hide DispatchPalette, Delivers, OscBody;
    var body := Digits(n) + [0x3B] + payload;
    NumberedBody(n, payload);
    OscEnds(body, st);
    OscCodeDispatched(n, payload, StringEnd(st));
  }

  lemma NumberedBody(n: nat, payload: seq<Char32>)
    requires OscBody(payload)
    ensures OscBody(Digits(n) + [0x3B] + payload)
  {
    hide Digits;
    DigitsAreDigits(n);
    var d := Digits(n);
    var body := d + [0x3B] + payload;
    forall i | 0 <= i < |body| && IsControl(body[i]) ensures body[i] == ESC && (i + 1 < |body| ==> body[i + 1] == 0x5D) {
      assert i > |d|;
      assert body[i] == payload[i - |d| - 1];
      if i + 1 < |body| { assert body[i + 1] == payload[i - |d|]; }
    }
  }

  lemma OscCodeDispatched(n: nat, payload: seq<Char32>, end: seq<Char32>)
    requires n <= 0x7FFF && OscBody(payload) && (end == [BEL] || end == [ESC, 0x5C])
    ensures var text := [ESC, 0x5D] + (Digits(n) + [0x3B] + payload) + end;
            DispatchOsc(text) == Some(if n == 0 || n == 2 then Title(payload)
                                      else if n == 4 then DispatchPalette(payload)
                                      else if n == 8 then Hyperlink
                                      else Unknown([]))
  {
    hide DispatchPalette, Digits, Short, Resumes;
    var d := Digits(n);
    var text := [ESC, 0x5D] + (d + [0x3B] + payload) + end;
    DigitsAreDigits(n);
    DigitsValue(n);
    ShortOfSmall(n);
    forall i | 2 <= i < 2 + |d| ensures IsDigit(text[i]) { assert text[i] == d[i - 2]; }
    assert text[2..2 + |d|] == d;
    CodeRead(text, |d|);
    assert OscCode(text, 2, 0) == (n, 2 + |d|);
    var head := [ESC, 0x5D] + d + [0x3B];
    assert text == head + payload + end;
    PayloadEnds(text, head, payload, end);
  }

  lemma PayloadEnds(text: seq<Char32>, head: seq<Char32>, payload: seq<Char32>, end: seq<Char32>)
    requires OscBody(payload) && (end == [BEL] || end == [ESC, 0x5C]) && text == head + payload + end
    ensures Terminator(text, |head|) == |head| + |payload| < |text|
    ensures text[|head|..|head| + |payload|] == payload
  {
    hide OscBody;
    var at := |head|;
    assert text[at..at + |payload|] == payload;
    assert text[at + |payload|..] == end;
    assert text[at + |payload|] == end[0] && (|end| == 2 ==> text[at + |payload| + 1] == end[1]);
    BodyControls(text, at, payload);
    StringEndsAt(text, at, at + |payload|);
  }

  lemma BodyControls(text: seq<Char32>, at: nat, payload: seq<Char32>)
    requires OscBody(payload) && at + |payload| < |text| && text[at..at + |payload|] == payload
    ensures forall i :: at <= i < at + |payload| && IsControl(text[i]) ==> text[i] == ESC && text[i + 1] == 0x5D
  {
    forall i | at <= i < at + |payload| && IsControl(text[i]) ensures text[i] == ESC && text[i + 1] == 0x5D {
      var j := i - at;
      assert text[i] == payload[j];
      assert payload[j] == ESC && j + 1 < |payload|;
      assert text[i + 1] == payload[j + 1];
    }
  }

  /** One or two hexadecimal digits, in either case. */
  predicate HexText(h: seq<Char32>) {
    1 <= |h| <= 2 && forall i :: 0 <= i < |h| ==> 0x30 <= h[i] <= 0x39 || 0x41 <= h[i] <= 0x46 || 0x61 <= h[i] <= 0x66
  }

  function HexDigitOf(ch: Char32): int {
    if ch <= 0x39 then ch - 0x30 else if ch <= 0x46 then ch - 0x41 + 10 else ch - 0x61 + 10
  }

  function HexOf(h: seq<Char32>): int
    requires HexText(h)
  {
    if |h| == 1 then HexDigitOf(h[0]) else 16 * HexDigitOf(h[0]) + HexDigitOf(h[1])
  }

  predicate RgbText(prefix: seq<Char32>) {
    && |prefix| == 4 && (prefix[0] == 0x72 || prefix[0] == 0x52) && (prefix[1] == 0x67 || prefix[1] == 0x47)
    && (prefix[2] == 0x62 || prefix[2] == 0x42) && prefix[3] == 0x3A
  }

  lemma ComponentRead(s: seq<Char32>, pos: nat, h: seq<Char32>)
    requires HexText(h) && pos + |h| <= |s| && s[pos..pos + |h|] == h
    requires pos + |h| < |s| ==> pos + |h| + 1 < |s| && s[pos + |h|] == 0x2F && s[pos + |h| + 1] != 0x2F
    ensures OscHex(s, pos) == (HexOf(h), if pos + |h| < |s| then pos + |h| + 1 else pos + |h|)
    ensures s[pos] != 0x2F
  {
    assert s[pos] == s[pos..pos + |h|][0];
    if |h| == 2 { assert s[pos + 1] == s[pos..pos + |h|][1]; }
    if pos + |h| < |s| { assert Skip(s, pos + |h|, 0x2F) == Skip(s, pos + |h| + 1, 0x2F) == pos + |h| + 1; }
  }

  /** index ; rgb: r / g / b is a palette colour, whatever the case and length of the components. */
  lemma PaletteMeant(index: nat, prefix: seq<Char32>, r: seq<Char32>, g: seq<Char32>, b: seq<Char32>)
    requires index <= 0x7FFF && RgbText(prefix) && HexText(r) && HexText(g) && HexText(b)
    ensures DispatchPalette(Digits(index) + [0x3B] + prefix + r + [0x2F] + g + [0x2F] + b)
         == Palette(index, HexOf(r), HexOf(g), HexOf(b))
  {
    hide Digits, HexOf, OscHex, DigitsEnd, DecimalValue, HexText;
    var s := Digits(index) + [0x3B] + prefix + r + [0x2F] + g + [0x2F] + b;
    var n := |Digits(index)|;
    IndexRead(s, index);
    assert RgbPrefix(s, n + 1) by {
      assert s[n + 1] == prefix[0] && s[n + 2] == prefix[1] && s[n + 3] == prefix[2] && s[n + 4] == prefix[3];
    }
    ComponentsRead(s, n + 5, r, g, b);
  }

  lemma IndexRead(s: seq<Char32>, index: nat)
    requires index <= 0x7FFF && |Digits(index)| < |s| && s[..|Digits(index)|] == Digits(index) && s[|Digits(index)|] == 0x3B
    ensures OscDecimal(s, 0) == (index, |Digits(index)|)
  {
    hide Digits, DigitsEnd, DecimalValue;
    var n := |Digits(index)|;
    assert Tens(5) == 100000;
    DigitsLength(index, 5);
    DigitsAreDigits(index);
    DigitsValue(index);
    assert s[0] == Digits(index)[0];
    forall i | 0 <= i < n ensures IsDigit(s[i]) { assert s[i] == Digits(index)[i]; }
    DigitsEndAt(s, 0, 5, n);
    assert s[0..n] == s[..n];
  }

  lemma ComponentsRead(s: seq<Char32>, p: nat, r: seq<Char32>, g: seq<Char32>, b: seq<Char32>)
    requires HexText(r) && HexText(g) && HexText(b) && p <= |s| && s[p..] == r + [0x2F] + g + [0x2F] + b
    ensures OscHex(s, p).0 == HexOf(r) && p < OscHex(s, p).1 <= |s|
    ensures OscHex(s, OscHex(s, p).1).0 == HexOf(g) && OscHex(s, p).1 < OscHex(s, OscHex(s, p).1).1 <= |s|
    ensures var p2 := OscHex(s, OscHex(s, p).1).1;
            OscHex(s, p2).0 == HexOf(b) && p2 < OscHex(s, p2).1
  {
    hide HexOf, OscHex;
    var t := s[p..];
    var pg := p + |r| + 1;
    var pb := pg + |g| + 1;
    assert s[p..p + |r|] == t[..|r|] == r;
    assert s[pg..pg + |g|] == t[|r| + 1..|r| + 1 + |g|] == g;
    assert s[pb..pb + |b|] == t[|r| + |g| + 2..] == b;
    assert s[p + |r|] == t[|r|] && s[pg + |g|] == t[|r| + 1 + |g|];
    assert s[pg] == g[0] && s[pb] == b[0];
    ComponentRead(s, p, r);
    ComponentRead(s, pg, g);
    ComponentRead(s, pb, b);
  }

  // ---- Control characters ----

  /** A control character between sequences; BS is Backspace with the Ctrl modifier, DEL plain Backspace. */
  lemma ControlsMeant(ch: Char32)
    requires IsControl(ch) && ch != ESC
    ensures var m := if ch == 0x0D then CarriageReturn
                     else if ch == 0x0A then LineFeed
                     else if ch == 0x09 then Count(CHT, 1)
                     else if ch == 0x08 || ch == 0x7F then Control(CharDel, ch)
                     else if ch == 0x00 then Control(CharNul, ch)
                     else if ch == 0x1A then Control(CharSub, ch)
                     else Text([ch]);
            Steps(FRESH, [ch]) == (FRESH, [Event(m, if ch == 0x08 then 5 else 1, [])])
  {
    StepsOne(FRESH, ch);
  }

  /** One inside a control sequence, or a character that cannot stand there, ends it as unknown text. */
  lemma BrokenOff(marked: bool, fs: seq<Field>, inter: seq<Char32>, ch: Char32)
    requires fs != [] && Intermediates(inter)
    requires IsControl(ch) || ch >= 0x80 || ch == 0x3A || 0x3C <= ch <= 0x3E
    ensures var text := CsiText(marked, fs, inter, ch); Delivers(text, Unknown(text), 1)
  {
    hide Step, Steps, DispatchCsi, Fields, FieldValue;
    var a, c := CsiRead(FRESH, marked, fs, inter);
    var before := a.raw + Fields(fs) + inter;
    StepsConcat(FRESH, before, [ch]);
    StepsOne(c, ch);
    BrokenStep(c, ch);
    var text := CsiText(marked, fs, inter, ch);
    assert c.raw + [ch] == text;
    assert [] + [Event(Unknown(text), 1, text)] == [Event(Unknown(text), 1, text)];
  }

  lemma BrokenStep(p: Parser, ch: Char32)
    requires p.mode == Csi && (IsControl(ch) || ch >= 0x80 || ch == 0x3A || 0x3C <= ch <= 0x3E)
    ensures Step(p, ch) == (FRESH, [Event(Unknown(p.raw + [ch]), 1, p.raw + [ch])])
  {
    hide DispatchCsi;
  }
}
