/** What the VT parser delivers: the messages of ECMA-48 control sequences, OSC strings and C0 controls. */
module VtMessages {
  import opened Cells
  import opened SgrPayloads

  const NUL: Char32 := 0x00
  const BEL: Char32 := 0x07
  const BS: Char32 := 0x08
  const TAB: Char32 := 0x09
  const NL: Char32 := 0x0A
  const CR: Char32 := 0x0D
  const SUB: Char32 := 0x1A
  const ESC: Char32 := 0x1B
  const LPAREN: Char32 := 0x28
  const SEMICOLON: Char32 := 0x3B
  const BACKSLASH: Char32 := 0x5C
  const DEL: Char32 := 0x7F

  predicate IsControl(ch: Char32) { ch <= 0x1F || ch == DEL }

  predicate IsDigit(ch: Char32) { 0x30 <= ch <= 0x39 }

  /** Messages whose payload is one count. */
  datatype CountId = CUU | CUD | CUF | CUB | CNL | CPL | CHT | CBT | SU | SD | ICH | DCH | ECH | IL | DL

  /** Messages without a payload. */
  datatype PlainId =
    | ReverseIndex | SaveCursor | RestoreCursor | AnsiSaveCursor | AnsiRestoreCursor
    | CursorBlink | CursorSteady | CursorShow | CursorHide | CursorKeysApp | CursorKeysNormal
    | TabSet | TabClear | TabClearAll | KeypadApp | KeypadNumeric | CharsetLines | CharsetAscii
    | AlternateBuffer | MainBuffer | Columns132 | Columns80
    | SoftReset | ReportCursor | DeviceAttributes

  datatype KeyId =
    | KeyUp | KeyDown | KeyRight | KeyLeft | KeyHome | KeyEnd | KeyInsert | KeyDelete | KeyPageUp | KeyPageDown
    | KeyF1 | KeyF2 | KeyF3 | KeyF4 | KeyF5 | KeyF6 | KeyF7 | KeyF8 | KeyF9 | KeyF10 | KeyF11 | KeyF12

  datatype ControlId = CharNul | CharDel | CharSub

  /**
    The parser delivers printable text as a `TextRun`, which is never printed; `Text` is what the API handlers
    have printed, and what the parser delivers a C0 control without a message of its own as.
   */
  datatype Msg =
    | TextRun(text: seq<Char32>)
    | Text(text: seq<Char32>)
    | Unknown(visible: seq<Char32>)
    | Title(title: seq<Char32>)
    | Hyperlink
    | CarriageReturn
    | LineFeed
    | Control(control: ControlId, ch: Char32)
    | Plain(plain: PlainId)
    | Count(count: CountId, n: int)
    | Column(col: int)
    | RowOnly(row: int)
    | Position(row: int, col: int)
    | EraseDisplay(mode: int)
    | EraseLine(mode: int)
    | CursorShape(shape: int)
    | Margins(top: int, bottom: int)
    | Resize(rows: int, cols: int)
    | Sgr(sgr: SgrPayload)
    | Palette(index: int, r: int, g: int, b: int)
    | CursorReport(row: int, col: int)
    | Key(key: KeyId)
    | Win32Key(vk: int, sc: int, uc: int, down: bool, state: int, repeatCount: int)

  /** One delivered message, with its xterm key modifier and the raw text of its escape sequence. */
  datatype Event = Event(msg: Msg, modifier: int, raw: seq<Char32>)

  /** The input an event stands for. */
  function Source(e: Event): seq<Char32> {
    if e.raw != [] then e.raw
    else match e.msg
      case TextRun(t) => t
      case Text(t) => t
      case CarriageReturn => [CR]
      case LineFeed => [NL]
      case Count(_, _) => [TAB]
      case Control(_, ch) => [ch]
      case _ => []
  }

  function Sources(es: seq<Event>): seq<Char32> {
    if es == [] then [] else Sources(es[..|es| - 1]) + Source(es[|es| - 1])
  }

  // ---- Text runs ----

  function TextEvent(t: seq<Char32>): Event { Event(TextRun(t), 1, []) }

  predicate IsText(e: Event) { e == TextEvent(if e.msg.TextRun? then e.msg.text else []) }

  ghost predicate TextsNonEmpty(es: seq<Event>) {
    forall i :: 0 <= i < |es| ==> (IsText(es[i]) ==> es[i].msg.text != [])
  }

  /** A text run as one event per code point. */
  function SplitText(t: seq<Char32>): (es: seq<Event>)
    ensures |es| == |t|
  {
    seq(|t|, i requires 0 <= i < |t| => TextEvent([t[i]]))
  }

  function SplitEvent(e: Event): seq<Event> {
    if IsText(e) then SplitText(e.msg.text) else [e]
  }

  function Split(es: seq<Event>): seq<Event> {
    if es == [] then [] else Split(es[..|es| - 1]) + SplitEvent(es[|es| - 1])
  }

  /** `es` and then `e`, joined to a text run before it. */
  function Join(es: seq<Event>, e: Event): seq<Event> {
    if es != [] && IsText(es[|es| - 1]) && IsText(e)
    then es[..|es| - 1] + [TextEvent(es[|es| - 1].msg.text + e.msg.text)]
    else es + [e]
  }

  /** Adjacent text runs merged. */
  function Merge(es: seq<Event>): seq<Event> {
    if es == [] then [] else Join(Merge(es[..|es| - 1]), es[|es| - 1])
  }

  /** `Merge` continued from `acc`. */
  function MergeOnto(acc: seq<Event>, es: seq<Event>): seq<Event> {
    if es == [] then acc else Join(MergeOnto(acc, es[..|es| - 1]), es[|es| - 1])
  }

  lemma {:induction false} MergeOntoConcat(acc: seq<Event>, a: seq<Event>, b: seq<Event>)
    ensures MergeOnto(acc, a + b) == MergeOnto(MergeOnto(acc, a), b)
  {
    hide Join;
    if b == [] {
      assert a + b == a;
    } else {
      MergeOntoConcat(acc, a, b[..|b| - 1]);
      assert (a + b)[..|a + b| - 1] == a + b[..|b| - 1];
    }
  }

  lemma {:induction false} MergeIsOntoNothing(es: seq<Event>)
    ensures Merge(es) == MergeOnto([], es)
  {
    if es != [] { MergeIsOntoNothing(es[..|es| - 1]); }
  }

  lemma {:induction false} MergeSplitText(acc: seq<Event>, t: seq<Char32>)
    requires t != []
    ensures MergeOnto(acc, SplitText(t)) == Join(acc, TextEvent(t))
  {
    var n := |t| - 1;
    hide Join;
    var s := SplitText(t);
    assert s[..n] == SplitText(t[..n]);
    if n == 0 {
      assert t == [t[0]];
      assert MergeOnto(acc, s[..0]) == acc;
      assert s[0] == TextEvent(t);
    } else {
      assert t[..n] + [t[n]] == t;
      MergeSplitText(acc, t[..n]);
      JoinTwice(acc, t[..n], t[n]);
    }
  }

  lemma JoinTwice(acc: seq<Event>, t: seq<Char32>, ch: Char32)
    ensures Join(Join(acc, TextEvent(t)), TextEvent([ch])) == Join(acc, TextEvent(t + [ch]))
  {
    var j := Join(acc, TextEvent(t));
    if acc != [] && IsText(acc[|acc| - 1]) {
      var u := acc[|acc| - 1].msg.text;
      assert (u + t) + [ch] == u + (t + [ch]);
    }
    assert j[..|j| - 1] == if acc != [] && IsText(acc[|acc| - 1]) then acc[..|acc| - 1] else acc;
  }

  /** Splitting text runs does not change what merging gives. */
  lemma {:induction false} MergeSplit(es: seq<Event>)
    requires TextsNonEmpty(es)
    ensures Merge(Split(es)) == Merge(es)
  {
    MergeIsOntoNothing(es);
    MergeIsOntoNothing(Split(es));
    MergeOntoSplit(es);
  }

  lemma {:induction false} MergeOntoSplit(es: seq<Event>)
    requires TextsNonEmpty(es)
    ensures MergeOnto([], Split(es)) == MergeOnto([], es)
  {
    if es != [] {
      var n := |es| - 1;
      MergeOntoSplit(es[..n]);
      MergeOntoConcat([], Split(es[..n]), SplitEvent(es[n]));
      if IsText(es[n]) { MergeSplitText(MergeOnto([], es[..n]), es[n].msg.text); }
      else { assert [es[n]][..0] == []; }
    }
  }

  lemma {:induction false} SplitConcat(a: seq<Event>, b: seq<Event>)
    ensures Split(a + b) == Split(a) + Split(b)
  {
    hide SplitEvent;
    if b == [] {
      assert a + b == a;
    } else {
      SplitConcat(a, b[..|b| - 1]);
      assert (a + b)[..|a + b| - 1] == a + b[..|b| - 1];
    }
  }

  lemma {:induction false} SourcesConcat(a: seq<Event>, b: seq<Event>)
    ensures Sources(a + b) == Sources(a) + Sources(b)
  {
    hide Source;
    if b == [] {
      assert a + b == a;
    } else {
      SourcesConcat(a, b[..|b| - 1]);
      assert (a + b)[..|a + b| - 1] == a + b[..|b| - 1];
    }
  }

  lemma {:induction false} SplitTextSource(t: seq<Char32>)
    ensures Sources(SplitText(t)) == t
  {
    if t != [] {
      var n := |t| - 1;
      assert SplitText(t)[..n] == SplitText(t[..n]);
      SplitTextSource(t[..n]);
    }
  }

  /** Splitting text runs does not change the input they stand for. */
  lemma {:induction false} SplitSource(es: seq<Event>)
    ensures Sources(Split(es)) == Sources(es)
  {
    if es != [] {
      var n := |es| - 1;
      SplitSource(es[..n]);
      SourcesConcat(Split(es[..n]), SplitEvent(es[n]));
      if IsText(es[n]) { SplitTextSource(es[n].msg.text); } else { assert [es[n]][..0] == []; }
    }
  }
}
