/**
  Console output from end to end: writes are parsed, their messages change the terminal, and a stream may be
  cut into writes anywhere.
 */
module OutputStreams {
  import opened Cells
  import opened Options
  import opened Sequences
  import opened Scrolling
  import opened Terminals
  import opened TextRows
  import opened VtMessages
  import opened VtParsers

  /** The terminal, and whatever else messages change: saved cursors, tab stops, the other screen. */
  datatype State<S> = State(term: Term, rest: S)

  /**
    The screen a stream goes to: its viewport, width measure, and what messages other than text, CR and LF
    do, about which nothing more is known.
   */
  datatype Console<!S> = Console(view: Rect, width: nat, measure: Char32 -> int, act: (State<S>, Event) -> State<S>)

  ghost predicate StateOk<S>(c: Console<S>, t: State<S>) {
    ViewOk(c.view, c.width, t.term.screen) && c.view.left < c.view.right
  }

  /** Other messages may do anything but break the screen. */
  ghost predicate ActOk<S(!new)>(c: Console<S>) {
    forall t, e :: StateOk(c, t) ==> StateOk(c, c.act(t, e))
  }

  /** One control character delivered as text is dropped. */
  predicate Dropped(s: seq<Char32>) { |s| == 1 && IsControl(s[0]) }

  function ApplyRun<S>(c: Console<S>, t: State<S>, s: seq<Char32>): State<S> {
    t.(term := ApplyText(t.term, c.view, c.width, c.measure, s))
  }

  function Apply<S>(c: Console<S>, t: State<S>, e: Event): State<S> {
    match e.msg
    case TextRun(s) => ApplyRun(c, t, s)
    case Text(s) => if Dropped(s) then t else ApplyRun(c, t, s)
    case CarriageReturn => t.(term := t.term.(x := c.view.left, pendingWrap := false))
    case LineFeed => t.(term := Terminals.LineFeed(t.term.(pendingWrap := false), c.view, c.width))
    case _ => c.act(t, e)
  }

  function ApplyAll<S>(c: Console<S>, t: State<S>, es: seq<Event>): State<S> {
    if es == [] then t else Apply(c, ApplyAll(c, t, es[..|es| - 1]), es[|es| - 1])
  }

  lemma ApplyOk<S(!new)>(c: Console<S>, t: State<S>, e: Event)
    requires StateOk(c, t) && ActOk(c)
    ensures StateOk(c, Apply(c, t, e))
  {
    hide PutText, PutChar, Scrolled, ScreenOk;
    var u := t.term;
    match e.msg
    case TextRun(s) => PutTextOk(Clamped(u, c.view), c.view, c.width, c.measure, s);
    case Text(s) => PutTextOk(Clamped(u, c.view), c.view, c.width, c.measure, s);
    case LineFeed =>
      var r := Region(u.regionTop, u.regionBottom, c.view);
      ScrolledOk(u.screen, c.width, r, r, true, r.left, r.top - 1, SPACE, u.attr);
    case _ =>
  }

  lemma {:induction false} ApplyAllOk<S(!new)>(c: Console<S>, t: State<S>, es: seq<Event>)
    requires StateOk(c, t) && ActOk(c)
    ensures StateOk(c, ApplyAll(c, t, es))
  {
    hide Apply, StateOk, ActOk;
    if es != [] {
      ApplyAllOk(c, t, es[..|es| - 1]);
      ApplyOk(c, ApplyAll(c, t, es[..|es| - 1]), es[|es| - 1]);
    }
  }

  lemma {:induction false} ApplyAllConcat<S>(c: Console<S>, t: State<S>, a: seq<Event>, b: seq<Event>)
    ensures ApplyAll(c, t, a + b) == ApplyAll(c, ApplyAll(c, t, a), b)
  {
    hide Apply;
    if b == [] {
      assert a + b == a;
    } else {
      ApplyAllConcat(c, t, a, b[..|b| - 1]);
      assert (a + b)[..|a + b| - 1] == a + b[..|b| - 1];
    }
  }

  lemma ApplyOne<S>(c: Console<S>, t: State<S>, e: Event)
    ensures ApplyAll(c, t, [e]) == Apply(c, t, e)
  {
    hide Apply;
    assert [e][..0] == [];
    assert ApplyAll(c, t, []) == t;
  }

  /** A text run is its code points, one at a time. */
  lemma {:induction false} ApplySplitText<S>(c: Console<S>, t: State<S>, s: seq<Char32>)
    requires StateOk(c, t) && s != []
    ensures ApplyAll(c, t, SplitText(s)) == ApplyRun(c, t, s)
  {
    hide PutText, PutChar, ScreenOk, Apply, ApplyText;
    var n := |s| - 1;
    var es := SplitText(s);
    assert es[..n] == SplitText(s[..n]);
    if n == 0 {
      assert s == [s[0]] && es == [TextEvent(s)];
      ApplyOne(c, t, TextEvent(s));
      ApplyIsText(c, t, s);
    } else {
      ApplySplitText(c, t, s[..n]);
      var u := ApplyRun(c, t, s[..n]);
      ApplyIsText(c, u, [s[n]]);
      assert s[..n] + [s[n]] == s;
      TextCutAnywhere(t.term, c.view, c.width, c.measure, s[..n], [s[n]]);
    }
  }

  lemma ApplyIsText<S>(c: Console<S>, t: State<S>, s: seq<Char32>)
    ensures Apply(c, t, TextEvent(s)) == ApplyRun(c, t, s)
  {
    hide ApplyText;
  }

  /** What one call of the parser delivered does what its code points do. */
  lemma ApplySplitEvent<S>(c: Console<S>, t: State<S>, e: Event)
    requires StateOk(c, t) && (IsText(e) ==> e.msg.text != [])
    ensures ApplyAll(c, t, SplitEvent(e)) == Apply(c, t, e)
  {
    hide Apply, StateOk, ApplyText;
    if IsText(e) {
      ApplySplitText(c, t, e.msg.text);
      ApplyIsText(c, t, e.msg.text);
    } else {
      ApplyOne(c, t, e);
    }
  }

  /** CR before LF changes nothing. */
  lemma CrLfIsLf<S>(c: Console<S>, t: State<S>)
    ensures Apply(c, Apply(c, t, GroundControl(CR)), GroundControl(NL)) == Apply(c, t, GroundControl(NL))
  {
    hide Scrolled;
    LineFeedIgnoresColumn(t.term.(pendingWrap := false), c.view, c.width, c.view.left);
  }

  /** The parser and the terminal after a stream that arrives code point by code point. */
  function Played<S>(c: Console<S>, p: Parser, t: State<S>, input: seq<Char32>): (Parser, State<S>) {
    (Steps(p, input).0, ApplyAll(c, t, Steps(p, input).1))
  }

  /** A stream cut in two leaves the same parser and the same terminal: cells, attributes, cursor, delayed wrap. */
  lemma PlayedConcat<S>(c: Console<S>, p: Parser, t: State<S>, a: seq<Char32>, b: seq<Char32>)
    ensures Played(c, p, t, a + b) == Played(c, Played(c, p, t, a).0, Played(c, p, t, a).1, b)
  {
    hide Steps, Apply;
    StepsConcat(p, a, b);
    ApplyAllConcat(c, t, Steps(p, a).1, Steps(Steps(p, a).0, b).1);
  }

  lemma PlayedParsed<S>(c: Console<S>, p: Parser, t: State<S>, input: seq<Char32>, q: Parser, e: Option<Event>)
    requires StateOk(c, t) && Steps(p, input) == (q, if e.Some? then SplitEvent(e.value) else [])
    requires e.Some? && IsText(e.value) ==> e.value.msg.text != []
    ensures Played(c, p, t, input) == (q, if e.Some? then Apply(c, t, e.value) else t)
  {
    hide Steps, Apply, StateOk;
    if e.Some? { ApplySplitEvent(c, t, e.value); }
  }

  /** LF right behind CR: the two are one line feed. */
  lemma PlayedCrLf<S>(c: Console<S>, p: Parser, t: State<S>, input: seq<Char32>, q: Parser, e: Event)
    requires Played(c, p, t, input) == (q, Apply(c, t, e)) && e.msg == CarriageReturn && q.mode == Ground
    ensures Played(c, p, t, input + [NL]) == (q, Apply(c, t, GroundControl(NL)))
  {
    hide Steps, Scrolled;
    var u := Apply(c, t, e);
    assert u == Apply(c, t, GroundControl(CR));
    PlayedConcat(c, p, t, input, [NL]);
    StepsOne(q, NL);
    ApplyOne(c, u, GroundControl(NL));
    CrLfIsLf(c, t);
  }

  /**
    What the characters of a stream do between sequences: CR goes to the left edge and ends a delayed wrap, LF is a line
    feed without one, the controls that mean nothing are dropped, and printable text is put on the terminal.
   */
  lemma StreamShows<S>(c: Console<S>, p: Parser, t: State<S>, ch: Char32, text: seq<Char32>)
    requires p.mode == Ground && StateOk(c, t)
    ensures Played(c, p, t, [0x0D]) == (p, t.(term := t.term.(x := c.view.left, pendingWrap := false)))
    ensures Played(c, p, t, [0x0A]) == (p, t.(term := Terminals.LineFeed(t.term.(pendingWrap := false), c.view, c.width)))
    ensures ch <= 0x1F && ch !in {0x00, 0x08, 0x09, 0x0A, 0x0D, 0x1A, 0x1B} ==> Played(c, p, t, [ch]) == (p, t)
    ensures text != [] && (forall i :: 0 <= i < |text| ==> !IsControl(text[i])) ==>
              Played(c, p, t, text) == (p, t.(term := ApplyText(t.term, c.view, c.width, c.measure, text)))
  {
    hide ApplyText, Terminals.LineFeed, StateOk, PutText;
    ControlPlayed(c, p, t, CR);
    ControlPlayed(c, p, t, NL);
    if ch <= 0x1F && ch != ESC { ControlPlayed(c, p, t, ch); }
    if text != [] && forall i :: 0 <= i < |text| ==> !IsControl(text[i]) {
      TextSteps(p, text);
      ApplySplitText(c, t, text);
    }
  }

  lemma ControlPlayed<S>(c: Console<S>, p: Parser, t: State<S>, ch: Char32)
    requires p.mode == Ground && IsControl(ch) && ch != ESC
    ensures Played(c, p, t, [ch]) == (p, Apply(c, t, GroundControl(ch)))
  {
    hide Apply, GroundControl;
    StepsOne(p, ch);
    ApplyOne(c, t, GroundControl(ch));
  }

  /** The next message of a write: a text run as a whole, and CR LF as one line feed where the write holds both. */
  method Next<S(!new)>(c: Console<S>, parser: VtParser, t0: State<S>, input: seq<Char32>) returns (t: State<S>, consumed: nat)
    requires parser.Valid() && StateOk(c, t0) && ActOk(c) && input != []
    modifies parser
    ensures parser.Valid() && StateOk(c, t) && 0 < consumed <= |input|
    ensures (parser.State(), t) == Played(c, old(parser.State()), t0, input[..consumed])
  {
    hide Steps, Step, Apply, StateOk, ActOk, ParserOk, ApplyAll, Played;
    ghost var p := parser.State();
    var e;
    e, consumed := parser.Parse(input);
    if e == None {
      PlayedParsed(c, p, t0, input[..consumed], parser.State(), None);
      return t0, consumed;
    }
    parser.Reset();
    PlayedParsed(c, p, t0, input[..consumed], parser.State(), e);
    var message := e.value;
    if message.msg == CarriageReturn && consumed < |input| && input[consumed] == NL {
      PlayedCrLf(c, p, t0, input[..consumed], parser.State(), message);
      assert input[..consumed] + [NL] == input[..consumed + 1];
      consumed := consumed + 1;
      message := GroundControl(NL);
    }
    ApplyOk(c, t0, message);
    t := Apply(c, t0, message);
  }

  lemma PlayedNothing<S>(c: Console<S>, p: Parser, t: State<S>)
    ensures Played(c, p, t, []) == (p, t)
  {}

  lemma PlayedOn<S>(c: Console<S>, p: Parser, t: State<S>, input: seq<Char32>, i: nat, n: nat)
    requires i + n <= |input|
    ensures Played(c, p, t, input[..i + n]) == Played(c, Played(c, p, t, input[..i]).0, Played(c, p, t, input[..i]).1, input[i..][..n])
  {
    hide Played;
    PlayedConcat(c, p, t, input[..i], input[i..][..n]);
    assert input[..i] + input[i..][..n] == input[..i + n];
  }

  /** One write: the fast loop over messages plays the write as code point by code point would. */
  method Write<S(!new)>(c: Console<S>, parser: VtParser, t0: State<S>, input: seq<Char32>) returns (t: State<S>)
    requires parser.Valid() && StateOk(c, t0) && ActOk(c)
    modifies parser
    ensures parser.Valid() && StateOk(c, t)
    ensures (parser.State(), t) == Played(c, old(parser.State()), t0, input)
  {
    hide StateOk, ActOk, ParserOk, Played;
    t := t0;
    var i := 0;
    ghost var was := parser.State();
    PlayedNothing(c, was, t0);
    assert input[..0] == [];
    while i < |input|
      invariant 0 <= i <= |input| && parser.Valid() && StateOk(c, t)
      invariant (parser.State(), t) == Played(c, was, t0, input[..i])
    {
      var consumed;
      t, consumed := Next(c, parser, t, input[i..]);
      PlayedOn(c, was, t0, input, i, consumed);
      i := i + consumed;
    }
    assert input[..i] == input;
  }

  /**
    A stream cut into writes anywhere, inside text, between CR and LF or inside an escape sequence: the terminal
    and the parser end as they would if the stream came in one write, or code point by code point.
   */
  method WriteAll<S(!new)>(c: Console<S>, parser: VtParser, t0: State<S>, writes: seq<seq<Char32>>) returns (t: State<S>)
    requires parser.Valid() && StateOk(c, t0) && ActOk(c)
    modifies parser
    ensures parser.Valid() && StateOk(c, t)
    ensures (parser.State(), t) == Played(c, old(parser.State()), t0, Flattened(writes))
  {
    hide StateOk, ActOk, ParserOk, Played;
    t := t0;
    var k := 0;
    ghost var was := parser.State();
    PlayedNothing(c, was, t0);
    while k < |writes|
      invariant 0 <= k <= |writes| && parser.Valid() && StateOk(c, t)
      invariant (parser.State(), t) == Played(c, was, t0, Flattened(writes[..k]))
    {
      PlayedConcat(c, was, t0, Flattened(writes[..k]), writes[k]);
      assert writes[..k + 1][..k] == writes[..k];
      t := Write(c, parser, t, writes[k]);
      k := k + 1;
    }
    assert writes[..k] == writes;
  }
}
