/**
  The VT parser: one step per code point is the reference; the parser works on ranges, keeps its state
  between them and hands out whole text runs.
 */
module VtParsers {
  import opened Cells
  import opened Options
  import opened Sequences
  import opened SgrPayloads
  import opened Shorts
  import opened VtMessages
  import opened VtDispatch

  datatype Mode = Ground | Escape | Csi | Osc | OscSt | Ss3

  /** `raw` is the escape sequence so far; it is empty on the ground. */
  datatype Parser = Parser(mode: Mode, raw: seq<Char32>, params: seq<int>, current: int,
                           priv: bool, inter: Char32, overflow: bool)

  const FRESH := Parser(Ground, [], [], 0, false, 0, false)

  datatype Stepped = Going(next: Parser) | Done(next: Parser, msg: Msg, modifier: int)

  // ---- One code point ----

  function Cleaned(p: Parser): Parser {
    p.(params := [], current := 0, priv := false, inter := 0, overflow := false)
  }

  /** Commits the parameter being read; the seventeenth spoils the sequence. */
  function Committed(p: Parser): Parser {
    if |p.params| < MAX_PARAMS then p.(params := p.params + [p.current], current := 0)
    else p.(overflow := true, current := 0)
  }

  /** Ends a sequence: what the dispatch does not know is delivered as unknown, with its whole text. */
  function Finished(p: Parser, m: Option<Msg>, modifier: int): Stepped {
    Done(p.(mode := Ground), if m.Some? then m.value else Unknown(p.raw), modifier)
  }

  function EscStep(p: Parser, ch: Char32): Stepped {
    if IsControl(ch) then Finished(p, None, 1)
    else if ch == 0x5B /* [ */ then Going(Cleaned(p).(mode := Csi))
    else if ch == 0x5D /* ] */ then Going(p.(mode := Osc))
    else if ch == 0x4F /* O */ then Going(p.(mode := Ss3))
    else if ch == LPAREN then Going(p.(mode := Escape, inter := LPAREN))
    else if p.inter == LPAREN then Finished(p.(inter := 0), DispatchCharset(ch), 1)
    else if p.inter != 0 then Finished(p.(inter := 0), None, 1)
    else Finished(p, DispatchEsc(ch), 1)
  }

  function CsiStep(p: Parser, ch: Char32): Stepped {
    if IsControl(ch) then Finished(Cleaned(p), None, 1)
    else if IsDigit(ch) then Going(p.(current := Short(p.current * 10 + (ch - 0x30))))
    else if ch == SEMICOLON then Going(Committed(p))
    else if ch == 0x3F /* ? */ then Going(p.(priv := true))
    else if 0x20 <= ch <= 0x2F then Going(p.(inter := ch))
    else if 0x40 <= ch <= 0x7E then
      var q := Committed(p);
      Finished(Cleaned(q), DispatchCsi(ch, q.params, q.priv, q.inter, q.overflow), CsiModifier(q.params, q.overflow))
    else Finished(Cleaned(p), None, 1)
  }

  function OscStep(p: Parser, ch: Char32): Stepped {
    if ch == BEL then Finished(p, DispatchOsc(p.raw), 1)
    else if ch == ESC then Going(p.(mode := OscSt))
    else if IsControl(ch) then Finished(p, None, 1)
    else Going(p)
  }

  function OscStStep(p: Parser, ch: Char32): Stepped {
    if ch == BACKSLASH then Finished(p, DispatchOsc(p.raw), 1) else EscStep(p.(mode := Escape), ch)
  }

  function Ss3Step(p: Parser, ch: Char32): Stepped {
    if 0x40 <= ch <= 0x7E then Finished(p, DispatchSs3(ch), 1) else Finished(p, None, 1)
  }

  /** Inside an escape sequence. */
  function SequenceStep(p: Parser, ch: Char32): Stepped
    requires p.mode != Ground
  {
    var q := p.(raw := p.raw + [ch]);
    match p.mode
    case Escape => EscStep(q, ch)
    case Csi => CsiStep(q, ch)
    case Osc => OscStep(q, ch)
    case OscSt => OscStStep(q, ch)
    case Ss3 => Ss3Step(q, ch)
  }

  /** A control character on the ground, other than ESC. */
  function GroundControl(ch: Char32): Event {
    if ch == CR then Event(CarriageReturn, 1, [])
    else if ch == NL then Event(LineFeed, 1, [])
    else if ch == TAB then Event(Count(CHT, 1), 1, [])
    else if ch == BS then Event(Control(CharDel, ch), 5, [])
    else if ch == NUL || ch == DEL || ch == SUB
    then Event(Control(if ch == NUL then CharNul else if ch == DEL then CharDel else CharSub, ch), 1, [])
    else Event(Text([ch]), 1, [])
  }

  /** One code point, the message it completes consumed at once. */
  function Step(p: Parser, ch: Char32): (Parser, seq<Event>) {
    if p.mode == Ground then
      if !IsControl(ch) then (p, [TextEvent([ch])])
      else if ch == ESC then (p.(mode := Escape, raw := [ESC]), [])
      else (p, [GroundControl(ch)])
    else
      var s := SequenceStep(p, ch);
      if s.Going? then (s.next, []) else (s.next.(raw := []), [Event(s.msg, s.modifier, s.next.raw)])
  }

  function Steps(p: Parser, input: seq<Char32>): (Parser, seq<Event>) {
    if input == [] then (p, [])
    else
      var (q, es) := Steps(p, input[..|input| - 1]);
      var (r, fs) := Step(q, input[|input| - 1]);
      (r, es + fs)
  }

  // ---- Invariant ----

  ghost predicate ParserOk(p: Parser) {
    && |p.params| <= MAX_PARAMS
    && (p.mode == Ground <==> p.raw == [])
    && (p.raw != [] ==> p.raw[0] == ESC)
    && (p.mode != Csi ==> p.params == [] && p.current == 0 && !p.priv && !p.overflow && (p.inter == 0 || p.inter == LPAREN))
  }

  lemma StepOk(p: Parser, ch: Char32)
    requires ParserOk(p)
    ensures ParserOk(Step(p, ch).0)
    ensures Sources(Step(p, ch).1) + Step(p, ch).0.raw == p.raw + [ch]
  {
    hide SequenceStep;
    var es := Step(p, ch).1;
    if es != [] {
      assert es[..0] == [];
      assert Sources(es) == Source(es[0]);
    }
    if p.mode != Ground {
      hide Source, GroundControl;
      SequenceStepOk(p, ch);
    }
  }

  lemma SequenceStepOk(p: Parser, ch: Char32)
    requires ParserOk(p) && p.mode != Ground
    ensures var s := SequenceStep(p, ch);
            && s.next.raw == p.raw + [ch]
            && (s.Going? ==> ParserOk(s.next))
            && (s.Done? ==> s.next.mode == Ground && ParserOk(s.next.(raw := [])))
  {
    hide DispatchCsi, DispatchEsc, DispatchOsc, DispatchSs3, DispatchCharset, CsiModifier, Short;
  }

  /**
    The parser partitions its input: the texts of what it delivered, and the unfinished sequence it holds,
    are the input.
   */
  lemma {:induction false} StepsPartition(p: Parser, input: seq<Char32>)
    requires ParserOk(p)
    ensures ParserOk(Steps(p, input).0)
    ensures Sources(Steps(p, input).1) + Steps(p, input).0.raw == p.raw + input
  {
    hide Step, ParserOk;
    if input != [] {
      var n := |input| - 1;
      var (q, es) := Steps(p, input[..n]);
      var (r, fs) := Step(q, input[n]);
      StepsPartition(p, input[..n]);
      StepOk(q, input[n]);
      SourcesConcat(es, fs);
      assert Sources(es) + (Sources(fs) + r.raw) == (Sources(es) + q.raw) + [input[n]];
      assert p.raw + input[..n] + [input[n]] == p.raw + input;
    }
  }

  lemma {:induction false} StepsConcat(p: Parser, a: seq<Char32>, b: seq<Char32>)
    ensures Steps(p, a + b).0 == Steps(Steps(p, a).0, b).0
    ensures Steps(p, a + b).1 == Steps(p, a).1 + Steps(Steps(p, a).0, b).1
  {
    hide Step;
    if b == [] {
      assert a + b == a;
    } else {
      StepsConcat(p, a, b[..|b| - 1]);
      assert (a + b)[..|a + b| - 1] == a + b[..|b| - 1];
    }
  }

  /** Text on the ground stays there. */
  lemma {:induction false} TextSteps(p: Parser, text: seq<Char32>)
    requires p.mode == Ground && forall i :: 0 <= i < |text| ==> !IsControl(text[i])
    ensures Steps(p, text) == (p, SplitText(text))
  {
    if text != [] {
      var n := |text| - 1;
      TextSteps(p, text[..n]);
      assert SplitText(text) == SplitText(text[..n]) + [TextEvent([text[n]])];
    }
  }

  lemma StepsOne(p: Parser, ch: Char32)
    ensures Steps(p, [ch]) == Step(p, ch)
  {
    hide Step;
    assert [ch][..0] == [];
    assert Steps(p, []) == (p, []);
    assert [] + Step(p, ch).1 == Step(p, ch).1;
  }

  // ---- What reset forgets ----

  /**
    Between messages the parser is as good as new exactly when no ESC ( was broken off: its intermediate
    outlives the reset, and then the next ESC sequence is taken for a charset designation.
   */
  lemma ResetIsFresh(p: Parser)
    requires ParserOk(p) && p.mode == Ground
    ensures (forall input :: Steps(p, input).1 == Steps(FRESH, input).1) <==> p.inter == 0
  {
    if p.inter == 0 {
      assert p == FRESH;
    } else {
      var input := [ESC, 0x4D];
      EscM(p);
      EscM(FRESH);
      assert Steps(p, input).1[0].msg != Steps(FRESH, input).1[0].msg;
    }
  }

  lemma EscM(p: Parser)
    requires ParserOk(p) && p.mode == Ground
    ensures Steps(p, [ESC, 0x4D]).1 ==
            [Event(if p.inter == 0 then Plain(ReverseIndex) else Unknown([ESC, 0x4D]), 1, [ESC, 0x4D])]
  {
    StepsConcat(p, [ESC], [0x4D]);
    assert [ESC] + [0x4D] == [ESC, 0x4D];
    StepsOne(p, ESC);
    StepsOne(Step(p, ESC).0, 0x4D);
  }

  /** ESC ( and a NUL leave a parser whose reset is not fresh. */
  lemma BrokenDesignation()
    ensures var p := Steps(FRESH, [ESC, LPAREN, NUL]).0;
            p.mode == Ground && p.inter == LPAREN && ParserOk(p)
  {
    var a := Step(FRESH, ESC).0;
    var b := Step(a, LPAREN).0;
    StepsOne(FRESH, ESC);
    StepsOne(a, LPAREN);
    StepsOne(b, NUL);
    StepsConcat(FRESH, [ESC], [LPAREN]);
    StepsConcat(FRESH, [ESC] + [LPAREN], [NUL]);
    assert [ESC] + [LPAREN] + [NUL] == [ESC, LPAREN, NUL];
  }

  // ---- The parser ----

  class VtParser {
    var mode: Mode
    var raw: seq<Char32>
    var params: seq<int>
    var currentParam: int
    var privateMarker: bool
    var intermediate: Char32
    var csiOverflow: bool
    var keyModifier: int

    ghost function State(): Parser
      reads this
    {
      Parser(mode, raw, params, currentParam, privateMarker, intermediate, csiOverflow)
    }

    /** What holds between calls. */
    ghost predicate Valid()
      reads this
    {
      ParserOk(State()) && keyModifier == 1
    }

    constructor ()
      ensures Valid() && State() == FRESH
    {
      mode, raw, params, currentParam := Ground, [], [], 0;
      privateMarker, intermediate, csiOverflow, keyModifier := false, 0, false, 1;
    }

    method ResetParams()
      modifies this`params, this`currentParam, this`privateMarker, this`intermediate, this`csiOverflow
      ensures State() == Cleaned(old(State()))
    {
      params, currentParam, privateMarker, intermediate, csiOverflow := [], 0, false, 0, false;
    }

    method AddParam()
      modifies this`params, this`currentParam, this`csiOverflow
      ensures State() == Committed(old(State()))
    {
      if |params| < MAX_PARAMS { params := params + [currentParam]; } else { csiOverflow := true; }
      currentParam := 0;
    }

    /** The message of a finished sequence. */
    method FinishSeq(m: Option<Msg>) returns (msg: Msg)
      ensures msg == if m.Some? then m.value else Unknown(raw)
    {
      msg := if m.Some? then m.value else Unknown(raw);
    }

    /** Reads the operation code of an OSC string and dispatches on it. */
    method DispatchOscString() returns (m: Option<Msg>)
      ensures m == DispatchOsc(raw)
    {
      if |raw| < 3 || raw[0] != ESC || raw[1] != 0x5D { return None; }
      var pos, code := 2, 0;
      while pos < |raw| && IsDigit(raw[pos])
        invariant pos <= |raw| && OscCode(raw, pos, code) == OscCode(raw, 2, 0)
      {
        code := Short(code * 10 + (raw[pos] - 0x30));
        pos := pos + 1;
      }
      if pos >= |raw| || raw[pos] != SEMICOLON { return None; }
      m := DispatchOscPayload(raw, code, pos + 1);
    }

    /** The parser and the message after one step inside a sequence. */
    ghost predicate SteppedTo(s: Stepped, m: Option<Msg>)
      reads this
    {
      && State() == s.next
      && (if s.Going? then m == None else m == Some(s.msg) && keyModifier == s.modifier)
    }

    method ParseEsc(ch: Char32) returns (m: Option<Msg>)
      requires keyModifier == 1
      modifies this
      ensures SteppedTo(EscStep(old(State()), ch), m)
      ensures m == None ==> keyModifier == 1
    {
      if IsControl(ch) {
        mode := Ground;
        return Some(Unknown(raw));
      }
      if ch == 0x5B {
        mode := Csi;
        ResetParams();
        return None;
      }
      if ch == 0x5D { mode := Osc; return None; }
      if ch == 0x4F { mode := Ss3; return None; }
      if ch == LPAREN { mode := Escape; intermediate := LPAREN; return None; }
      mode := Ground;
      var msg;
      if intermediate == LPAREN {
        intermediate := 0;
        msg := FinishSeq(DispatchCharset(ch));
      } else if intermediate != 0 {
        intermediate := 0;
        msg := Unknown(raw);
      } else {
        msg := FinishSeq(DispatchEsc(ch));
      }
      m := Some(msg);
    }

    /** What the complete control sequence means; the parameters of SGR are read in a loop. */
    method ReadCsi(final: Char32) returns (m: Option<Msg>)
      ensures m == DispatchCsi(final, params, privateMarker, intermediate, csiOverflow)
    {
      if final == 0x6D && !csiOverflow {
        var read := ReadSgr();
        m := if read.Some? then Some(Sgr(read.value)) else None;
      } else {
        m := DispatchCsi(final, params, privateMarker, intermediate, csiOverflow);
      }
    }

    method ReadSgr() returns (read: Option<SgrPayload>)
      ensures read == SgrRead(params, NOTHING)
    {
      hide SgrCode;
      var i, n, p := 0, |params|, NOTHING;
      while i < n
        invariant i <= n && SgrRead(params[i..], p) == SgrRead(params, NOTHING)
      {
        ghost var ps := params[i..];
        if Introduces(params[i]) && i + 1 < n {
          if params[i + 1] == 5 && i + 2 < n {
            assert ps[3..] == params[i + 3..];
            p := Colored(p, params[i] == 38, Indexed(Byte(params[i + 2])));
            i := i + 3;
          } else if params[i + 1] == 2 && i + 4 < n {
            assert ps[5..] == params[i + 5..];
            p := Colored(p, params[i] == 38, Rgb(Byte(params[i + 2]), Byte(params[i + 3]), Byte(params[i + 4])));
            i := i + 5;
          } else {
            return None;
          }
        } else {
          assert ps[1..] == params[i + 1..];
          p := SgrCode(p, params[i]);
          i := i + 1;
        }
      }
      read := Some(p);
    }

    method ParseCsi(ch: Char32) returns (m: Option<Msg>)
      requires keyModifier == 1
      modifies this
      ensures SteppedTo(CsiStep(old(State()), ch), m)
      ensures m == None ==> keyModifier == 1
    {
      if IsDigit(ch) {
        currentParam := Short(currentParam * 10 + (ch - 0x30));
        return None;
      }
      if ch == SEMICOLON { AddParam(); return None; }
      if ch == 0x3F { privateMarker := true; return None; }
      if 0x20 <= ch <= 0x2F { intermediate := ch; return None; }
      var msg;
      if 0x40 <= ch <= 0x7E {
        AddParam();
        keyModifier := CsiModifier(params, csiOverflow);
        var known := ReadCsi(ch);
        msg := FinishSeq(known);
      } else {
        msg := Unknown(raw);
      }
      mode := Ground;
      ResetParams();
      m := Some(msg);
    }

    method ParseOsc(ch: Char32) returns (m: Option<Msg>)
      requires keyModifier == 1
      modifies this
      ensures SteppedTo(OscStep(old(State()), ch), m) && keyModifier == 1
    {
      if !IsControl(ch) { return None; }
      if ch == ESC { mode := OscSt; return None; }
      mode := Ground;
      var found := None;
      if ch == BEL { found := DispatchOscString(); }
      var msg := FinishSeq(found);
      m := Some(msg);
    }

    method ParseOscSt(ch: Char32) returns (m: Option<Msg>)
      requires keyModifier == 1
      modifies this
      ensures SteppedTo(OscStStep(old(State()), ch), m)
      ensures m == None ==> keyModifier == 1
    {
      if ch == BACKSLASH {
        mode := Ground;
        var found := DispatchOscString();
        var msg := FinishSeq(found);
        m := Some(msg);
      } else {
        mode := Escape;
        m := ParseEsc(ch);
      }
    }

    method ParseSs3(ch: Char32) returns (m: Option<Msg>)
      requires keyModifier == 1
      modifies this
      ensures SteppedTo(Ss3Step(old(State()), ch), m) && keyModifier == 1
    {
      mode := Ground;
      var msg := FinishSeq(if 0x40 <= ch <= 0x7E then DispatchSs3(ch) else None);
      m := Some(msg);
    }

    /** One code point inside a sequence. */
    method ParseSequenceChar(ch: Char32) returns (m: Option<Msg>)
      requires mode != Ground && keyModifier == 1
      modifies this
      ensures SteppedTo(SequenceStep(old(State()), ch), m)
      ensures m == None ==> keyModifier == 1
    {
      raw := raw + [ch];
      match mode
      case Escape => m := ParseEsc(ch);
      case Csi => m := ParseCsi(ch);
      case Osc => m := ParseOsc(ch);
      case OscSt => m := ParseOscSt(ch);
      case Ss3 => m := ParseSs3(ch);
    }

    /** The caller has consumed the message. */
    method Reset()
      modifies this`raw, this`mode, this`keyModifier
      ensures State() == old(State()).(raw := [], mode := Ground) && keyModifier == 1
    {
      raw, mode, keyModifier := [], Ground, 1;
    }

    /** How much of `input` is text up to the first control character. */
    method GroundTextRunLength(input: seq<Char32>) returns (n: nat)
      ensures n <= |input| && (forall i :: 0 <= i < n ==> !IsControl(input[i]))
      ensures n < |input| ==> IsControl(input[n])
    {
      n := 0;
      while n < |input| && !IsControl(input[n])
        invariant n <= |input| && forall i :: 0 <= i < n ==> !IsControl(input[i])
      {
        n := n + 1;
      }
    }

    /** A control character on the ground: ESC starts a sequence, the others are messages. */
    method ParseGroundControl(ch: Char32) returns (e: Option<Event>)
      requires Valid() && mode == Ground && IsControl(ch)
      modifies this`raw, this`mode, this`keyModifier
      ensures e == if ch == ESC then None else Some(GroundControl(ch))
      ensures State() == Step(old(State()), ch).0
      ensures keyModifier == (if e.Some? then e.value.modifier else 1)
    {
      if ch == ESC {
        raw := raw + [ch];
        mode := Escape;
        return None;
      }
      if ch == BS { keyModifier := 5; }
      var msg :=
        if ch == CR then CarriageReturn else if ch == NL then LineFeed else if ch == TAB then Count(CHT, 1)
        else if ch == NUL then Control(CharNul, ch) else if ch == BS || ch == DEL then Control(CharDel, ch)
        else if ch == SUB then Control(CharSub, ch) else Text([ch]);
      e := Some(Event(msg, keyModifier, raw));
    }

    /** What one call delivered is what the code points it consumed deliver, a text run as a whole. */
    ghost predicate Parsed(was: Parser, input: seq<Char32>, e: Option<Event>)
      reads this
    {
      match e
      case None => Steps(was, input) == (State(), []) && Valid()
      case Some(v) =>
        && Steps(was, input) == (State().(raw := [], mode := Ground), SplitEvent(v))
        && ParserOk(State().(raw := [], mode := Ground))
        && (IsText(v) ==> v.msg.text != [])
    }

    /** Takes from the front of `input` what the next message needs. */
    method Parse(input: seq<Char32>) returns (e: Option<Event>, consumed: nat)
      requires Valid()
      modifies this
      ensures consumed <= |input| && (e == None ==> consumed == |input|) && (input != [] ==> consumed > 0)
      ensures Parsed(old(State()), input[..consumed], e)
    {
      ghost var was := State();
      if input == [] { return None, 0; }
      consumed := 0;
      if mode == Ground {
        e, consumed := ParseGround(input);
        if e.Some? { return; }
      }
      e, consumed := ParseSequence(input, consumed, was);
    }

    /** On the ground: a text run, a control character, or the ESC of a sequence. */
    method ParseGround(input: seq<Char32>) returns (e: Option<Event>, consumed: nat)
      requires Valid() && mode == Ground && input != []
      modifies this
      ensures 0 < consumed <= |input| && Parsed(old(State()), input[..consumed], e)
      ensures e == None ==> mode != Ground
    {
      hide SequenceStep;
      ghost var was := State();
      var run := GroundTextRunLength(input);
      if run != 0 {
        TextSteps(was, input[..run]);
        return Some(TextEvent(input[..run])), run;
      }
      StepsOne(was, input[0]);
      assert input[..1] == [input[0]];
      e := ParseGroundControl(input[0]);
      consumed := 1;
    }

    method ParseSequence(input: seq<Char32>, start: nat, ghost was: Parser) returns (e: Option<Event>, consumed: nat)
      requires Valid() && start <= |input| && (start < |input| ==> mode != Ground)
      requires Steps(was, input[..start]) == (State(), [])
      modifies this
      ensures start <= consumed <= |input| && (start < |input| ==> start < consumed)
      ensures e == None ==> consumed == |input|
      ensures Parsed(was, input[..consumed], e)
    {
      hide Step, SequenceStep;
      consumed := start;
      while consumed != |input|
        invariant start <= consumed <= |input| && Valid() && (consumed < |input| ==> mode != Ground)
        invariant Steps(was, input[..consumed]) == (State(), [])
      {
        ghost var p := State();
        SequenceStepOk(p, input[consumed]);
        StepsSnoc(was, input, consumed);
        StepInside(p, input[consumed]);
        var m := ParseSequenceChar(input[consumed]);
        consumed := consumed + 1;
        if m.Some? {
          var v := Event(m.value, keyModifier, raw);
          assert !IsText(v) && [] + [v] == [v];
          return Some(v), consumed;
        }
      }
      e := None;
    }

    /** Parses all of `input`, consuming every message and resetting after it. */
    method ParseAll(input: seq<Char32>) returns (out: seq<Event>)
      requires Valid()
      modifies this
      ensures Valid() && TextsNonEmpty(out)
      ensures (State(), Split(out)) == Steps(old(State()), input)
    {
      hide Steps, Step, ParserOk, Split, SplitEvent;
      ghost var was := State();
      out := [];
      SplitNothing();
      var i := 0;
      NoSteps(was);
      assert input[..0] == [];
      while i < |input|
        invariant 0 <= i <= |input| && Valid() && TextsNonEmpty(out)
        invariant (State(), Split(out)) == Steps(was, input[..i])
      {
        ghost var before := State();
        var e, consumed := Parse(input[i..]);
        StepsAdvance(was, input, i, consumed);
        if e.Some? {
          Reset();
          SplitSnoc(out, e.value);
          out := out + [e.value];
        } else {
          assert Split(out) + [] == Split(out);
        }
        i := i + consumed;
      }
      assert input[..i] == input;
    }

    /**
      A stream that arrives in pieces, cut anywhere, even inside escape sequences: once adjacent text runs
      are merged, the messages are those of the whole stream; and the texts of what was delivered, with the
      unfinished sequence still held, are the stream.
     */
    method ParseChunks(chunks: seq<seq<Char32>>) returns (out: seq<Event>)
      requires Valid()
      modifies this
      ensures Valid()
      ensures State() == Steps(old(State()), Flattened(chunks)).0
      ensures Merge(out) == Merge(Steps(old(State()), Flattened(chunks)).1)
      ensures Sources(out) + raw == old(raw) + Flattened(chunks)
    {
      hide Steps, Step, ParserOk;
      ghost var was := State();
      out := [];
      NoSteps(was);
      var k := 0;
      while k < |chunks|
        invariant 0 <= k <= |chunks| && Valid() && TextsNonEmpty(out)
        invariant (State(), Split(out)) == Steps(was, Flattened(chunks[..k]))
      {
        var part := ParseAll(chunks[k]);
        StepsConcat(was, Flattened(chunks[..k]), chunks[k]);
        assert chunks[..k + 1][..k] == chunks[..k];
        SplitConcat(out, part);
        out := out + part;
        k := k + 1;
      }
      assert chunks[..k] == chunks;
      MergeSplit(out);
      SplitSource(out);
      StepsPartition(was, Flattened(chunks));
    }
  }

  lemma StepsAdvance(p: Parser, input: seq<Char32>, i: nat, n: nat)
    requires i + n <= |input|
    ensures Steps(p, input[..i + n]).0 == Steps(Steps(p, input[..i]).0, input[i..][..n]).0
    ensures Steps(p, input[..i + n]).1 == Steps(p, input[..i]).1 + Steps(Steps(p, input[..i]).0, input[i..][..n]).1
  {
    hide Steps;
    StepsConcat(p, input[..i], input[i..][..n]);
    assert input[..i] + input[i..][..n] == input[..i + n];
  }

  lemma NoSteps(p: Parser)
    ensures Steps(p, []) == (p, [])
  {}

  lemma SplitNothing()
    ensures Split([]) == []
  {}

  lemma SplitSnoc(es: seq<Event>, e: Event)
    ensures Split(es + [e]) == Split(es) + SplitEvent(e)
  {
    assert (es + [e])[..|es|] == es;
  }

  lemma StepsSnoc(p: Parser, input: seq<Char32>, n: nat)
    requires n < |input|
    ensures Steps(p, input[..n + 1]).0 == Step(Steps(p, input[..n]).0, input[n]).0
    ensures Steps(p, input[..n + 1]).1 == Steps(p, input[..n]).1 + Step(Steps(p, input[..n]).0, input[n]).1
  {
    hide Step;
    assert input[..n + 1][..n] == input[..n];
  }

  lemma StepInside(p: Parser, ch: Char32)
    requires p.mode != Ground
    ensures var s := SequenceStep(p, ch);
            Step(p, ch) == if s.Going? then (s.next, []) else (s.next.(raw := []), [Event(s.msg, s.modifier, s.next.raw)])
  {
    hide SequenceStep;
  }
}
