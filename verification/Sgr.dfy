/** SGR payloads: what one SGR sequence changes, how its parameters are read, and how they are printed. */
module SgrPayloads {
  import opened Options

  datatype SgrFlag = Reset | Bold | Faint | Italic | Underline | Blink | Negative | Conceal | Strikethrough

  datatype SgrColor = Unchanged | DefaultColor | Indexed(index: nat) | Rgb(r: nat, g: nat, b: nat)

  /** The attributes one sequence switches on and off, and the colours it sets. */
  datatype SgrPayload = SgrPayload(on: set<SgrFlag>, off: set<SgrFlag>, fg: SgrColor, bg: SgrColor)

  const NOTHING := SgrPayload({}, {}, Unchanged, Unchanged)
  const RESET := SgrPayload({Reset}, {}, Unchanged, Unchanged)

  /** The numbers a colour holds are bytes. */
  predicate ColorOk(c: SgrColor) {
    match c
    case Indexed(i) => i < 256
    case Rgb(r, g, b) => r < 256 && g < 256 && b < 256
    case _ => true
  }

  // ---- Reading ----

  function TurnedOn(p: SgrPayload, f: SgrFlag): SgrPayload { p.(on := p.on + {f}, off := p.off - {f}) }

  function TurnedOff(p: SgrPayload, f: SgrFlag): SgrPayload { p.(off := p.off + {f}, on := p.on - {f}) }

  function Colored(p: SgrPayload, front: bool, c: SgrColor): SgrPayload {
    if front then p.(fg := c) else p.(bg := c)
  }

  /** The cast of a SHORT to a byte. */
  function Byte(v: int): (b: nat)
    ensures b < 256
  {
    v % 0x100
  }

  /** A parameter that stands alone; unknown ones change nothing. */
  function SgrCode(p: SgrPayload, v: int): SgrPayload {
    match v
    case 0 => TurnedOn(p, Reset)
    case 1 => TurnedOn(p, Bold)
    case 2 => TurnedOn(p, Faint)
    case 3 => TurnedOn(p, Italic)
    case 4 => TurnedOn(p, Underline)
    case 5 => TurnedOn(p, Blink)
    case 7 => TurnedOn(p, Negative)
    case 8 => TurnedOn(p, Conceal)
    case 9 => TurnedOn(p, Strikethrough)
    case 22 => TurnedOff(TurnedOff(p, Bold), Faint)
    case 23 => TurnedOff(p, Italic)
    case 24 => TurnedOff(p, Underline)
    case 25 => TurnedOff(p, Blink)
    case 27 => TurnedOff(p, Negative)
    case 28 => TurnedOff(p, Conceal)
    case 29 => TurnedOff(p, Strikethrough)
    case 39 => Colored(p, true, DefaultColor)
    case 49 => Colored(p, false, DefaultColor)
    case _ =>
      if 30 <= v <= 37 then Colored(p, true, Indexed(v - 30))
      else if 40 <= v <= 47 then Colored(p, false, Indexed(v - 40))
      else if 90 <= v <= 97 then Colored(p, true, Indexed(v - 90 + 8))
      else if 100 <= v <= 107 then Colored(p, false, Indexed(v - 100 + 8))
      else p
  }

  /** 38 and 48 introduce an extended colour. */
  predicate Introduces(v: int) { v == 38 || v == 48 }

  /** `p` and the parameters after it: 38;5;n or 38;2;r;g;b, and the same with 48, need their arguments. */
  function SgrRead(ps: seq<int>, p: SgrPayload): Option<SgrPayload>
    decreases |ps|
  {
    if ps == [] then Some(p)
    else if Introduces(ps[0]) && |ps| > 1 then
      if ps[1] == 5 && |ps| > 2 then SgrRead(ps[3..], Colored(p, ps[0] == 38, Indexed(Byte(ps[2]))))
      else if ps[1] == 2 && |ps| > 4
      then SgrRead(ps[5..], Colored(p, ps[0] == 38, Rgb(Byte(ps[2]), Byte(ps[3]), Byte(ps[4]))))
      else None
    else SgrRead(ps[1..], SgrCode(p, ps[0]))
  }

  // ---- Printing ----

  function With(ps: seq<nat>, c: bool, v: nat): seq<nat> { if c then ps + [v] else ps }

  function WithOn(ps: seq<nat>, on: set<SgrFlag>): seq<nat> {
    var a := With(With(With(With(ps, Bold in on, 1), Faint in on, 2), Italic in on, 3), Underline in on, 4);
    With(With(With(With(a, Blink in on, 5), Negative in on, 7), Conceal in on, 8), Strikethrough in on, 9)
  }

  function WithOff(ps: seq<nat>, off: set<SgrFlag>): seq<nat> {
    var a := With(With(With(ps, Bold in off || Faint in off, 22), Italic in off, 23), Underline in off, 24);
    With(With(With(With(a, Blink in off, 25), Negative in off, 27), Conceal in off, 28), Strikethrough in off, 29)
  }

  /** `base` is 30 for the foreground, 40 for the background. */
  function WithColor(ps: seq<nat>, c: SgrColor, base: nat): seq<nat> {
    match c
    case Unchanged => ps
    case DefaultColor => ps + [base + 9]
    case Rgb(r, g, b) => ps + [base + 8, 2, r, g, b]
    case Indexed(i) =>
      if i <= 7 then ps + [base + i] else if i <= 15 then ps + [base + 60 + (i - 8)] else ps + [base + 8, 5, i]
  }

  /** A reset alone, or a leading 0 and every attribute and colour. */
  function SgrParams(p: SgrPayload): (ps: seq<nat>)
    ensures ps != []
  {
    if Reset in p.on then [0]
    else WithColor(WithColor(WithOff(WithOn([0], p.on), p.off), p.fg, 30), p.bg, 40)
  }

  // ---- Print, then read ----

  /** The parameters are complete, and read as `p` whatever follows them. */
  ghost predicate ReadsAs(ps: seq<int>, p: SgrPayload) {
    forall rest: seq<int> :: SgrRead(ps + rest, NOTHING) == SgrRead(rest, p)
  }

  lemma ReadsMore(ps: seq<int>, p: SgrPayload, more: seq<int>, q: SgrPayload)
    requires ReadsAs(ps, p) && forall rest: seq<int> :: SgrRead(more + rest, p) == SgrRead(rest, q)
    ensures ReadsAs(ps + more, q)
  {
    hide SgrRead;
    forall rest: seq<int> ensures SgrRead(ps + more + rest, NOTHING) == SgrRead(rest, q) {
      assert ps + more + rest == ps + (more + rest);
    }
  }

  lemma ReadsCode(ps: seq<nat>, p: SgrPayload, c: bool, v: nat)
    requires ReadsAs(ps, p) && !Introduces(v)
    ensures ReadsAs(With(ps, c, v), if c then SgrCode(p, v) else p)
  {
    hide SgrCode;
    forall rest: seq<int> ensures SgrRead([v] + rest, p) == SgrRead(rest, SgrCode(p, v)) {
      assert ([v] + rest)[1..] == rest;
    }
    if c { ReadsMore(ps, p, [v], SgrCode(p, v)); }
  }

  lemma OnStep(ps: seq<nat>, p: SgrPayload, done: set<SgrFlag>, on: set<SgrFlag>, f: SgrFlag, v: nat)
    returns (qs: seq<nat>, more: set<SgrFlag>)
    requires p.off == {} && ReadsAs(ps, p.(on := p.on + done)) && !Introduces(v)
    requires SgrCode(p.(on := p.on + done), v) == TurnedOn(p.(on := p.on + done), f)
    ensures qs == With(ps, f in on, v) && more == done + on * {f} && ReadsAs(qs, p.(on := p.on + more))
  {
    hide SgrCode, ReadsAs;
    qs, more := With(ps, f in on, v), done + on * {f};
    ReadsCode(ps, p.(on := p.on + done), f in on, v);
    assert f in on ==> TurnedOn(p.(on := p.on + done), f) == p.(on := p.on + more) by {
      assert p.off - {f} == {};
      assert f in on ==> p.on + done + {f} == p.on + more;
    }
    assert f !in on ==> more == done;
  }

  lemma AllFlags(s: set<SgrFlag>, half: set<SgrFlag>)
    requires Reset !in s && half == s * {Bold, Faint, Italic, Underline}
    ensures half + s * {Blink} + s * {Negative} + s * {Conceal} + s * {Strikethrough} == s
  {
    forall f | f in s ensures f in half + s * {Blink} + s * {Negative} + s * {Conceal} + s * {Strikethrough} {
      match f { case Reset => assert false; case _ => }
    }
  }

  lemma ReadsOn(ps: seq<nat>, p: SgrPayload, on: set<SgrFlag>)
    requires ReadsAs(ps, p) && p.off == {} && Reset !in on
    ensures ReadsAs(WithOn(ps, on), p.(on := p.on + on))
  {
    hide ReadsAs, SgrCode;
    assert p.on + {} == p.on;
    var half := on * {Bold, Faint, Italic, Underline};
    var qs, done := FirstOn(ps, p, on);
    qs, done := LastOn(qs, p, half, on);
  }

  lemma FirstOn(ps: seq<nat>, p: SgrPayload, on: set<SgrFlag>) returns (qs: seq<nat>, done: set<SgrFlag>)
    requires p.off == {} && ReadsAs(ps, p.(on := p.on + {}))
    ensures qs == With(With(With(With(ps, Bold in on, 1), Faint in on, 2), Italic in on, 3), Underline in on, 4)
    ensures done == on * {Bold, Faint, Italic, Underline} && ReadsAs(qs, p.(on := p.on + done))
  {
    hide ReadsAs;
    qs, done := OnStep(ps, p, {}, on, Bold, 1);
    qs, done := OnStep(qs, p, done, on, Faint, 2);
    qs, done := OnStep(qs, p, done, on, Italic, 3);
    qs, done := OnStep(qs, p, done, on, Underline, 4);
  }

  lemma LastOn(ps: seq<nat>, p: SgrPayload, half: set<SgrFlag>, on: set<SgrFlag>)
    returns (qs: seq<nat>, done: set<SgrFlag>)
    requires p.off == {} && Reset !in on && half == on * {Bold, Faint, Italic, Underline}
    requires ReadsAs(ps, p.(on := p.on + half))
    ensures qs == With(With(With(With(ps, Blink in on, 5), Negative in on, 7), Conceal in on, 8), Strikethrough in on, 9)
    ensures done == on && ReadsAs(qs, p.(on := p.on + done))
  {
    hide ReadsAs;
    qs, done := OnStep(ps, p, half, on, Blink, 5);
    qs, done := OnStep(qs, p, done, on, Negative, 7);
    qs, done := OnStep(qs, p, done, on, Conceal, 8);
    qs, done := OnStep(qs, p, done, on, Strikethrough, 9);
    AllFlags(on, half);
  }

  /** Bold and faint are switched off together; a reset is never switched off. */
  function Cleared(off: set<SgrFlag>): set<SgrFlag> {
    (off - {Reset}) + if Bold in off || Faint in off then {Bold, Faint} else {}
  }

  /** What is left when `done` is switched off. */
  function Without(p: SgrPayload, done: set<SgrFlag>): SgrPayload { p.(on := p.on - done, off := done) }

  lemma OffStep(ps: seq<nat>, p: SgrPayload, done: set<SgrFlag>, off: set<SgrFlag>, f: SgrFlag, v: nat)
    returns (qs: seq<nat>, more: set<SgrFlag>)
    requires ReadsAs(ps, Without(p, done)) && !Introduces(v) && f != Reset && f != Bold && f != Faint
    requires SgrCode(Without(p, done), v) == TurnedOff(Without(p, done), f)
    ensures qs == With(ps, f in off, v) && more == done + Cleared(off) * {f} && ReadsAs(qs, Without(p, more))
  {
    hide SgrCode, ReadsAs;
    qs, more := With(ps, f in off, v), done + Cleared(off) * {f};
    assert f in Cleared(off) <==> f in off;
    ReadsCode(ps, Without(p, done), f in off, v);
    if f in off {
      assert p.on - done - {f} == p.on - more;
      assert done + {f} == more;
    } else {
      assert more == done;
    }
  }

  lemma ReadsOff(ps: seq<nat>, p: SgrPayload, off: set<SgrFlag>)
    requires ReadsAs(ps, p) && p.off == {}
    ensures ReadsAs(WithOff(ps, off), Without(p, Cleared(off)))
  {
    hide ReadsAs, Without, Cleared;
    var qs, done := FirstOff(ps, p, off);
    qs, done := LastOff(qs, p, done, off);
  }

  lemma FirstOff(ps: seq<nat>, p: SgrPayload, off: set<SgrFlag>) returns (qs: seq<nat>, done: set<SgrFlag>)
    requires ReadsAs(ps, p) && p.off == {}
    ensures qs == With(With(With(ps, Bold in off || Faint in off, 22), Italic in off, 23), Underline in off, 24)
    ensures done == Cleared(off) * {Bold, Faint, Italic, Underline} && ReadsAs(qs, Without(p, done))
  {
    hide ReadsAs;
    var both := Bold in off || Faint in off;
    done := if both then {Bold, Faint} else {};
    qs := With(ps, both, 22);
    ReadsCode(ps, p, both, 22);
    assert (if both then SgrCode(p, 22) else p) == Without(p, done) by {
      if both {
        assert p.on - {Bold} - {Faint} == p.on - done;
        assert {} + {Bold} - {Faint} + {Faint} == done;
      } else {
        assert p.on - done == p.on;
      }
    }
    qs, done := OffStep(qs, p, done, off, Italic, 23);
    qs, done := OffStep(qs, p, done, off, Underline, 24);
  }

  lemma LastOff(ps: seq<nat>, p: SgrPayload, half: set<SgrFlag>, off: set<SgrFlag>)
    returns (qs: seq<nat>, done: set<SgrFlag>)
    requires half == Cleared(off) * {Bold, Faint, Italic, Underline} && ReadsAs(ps, Without(p, half))
    ensures qs == With(With(With(With(ps, Blink in off, 25), Negative in off, 27), Conceal in off, 28), Strikethrough in off, 29)
    ensures done == Cleared(off) && ReadsAs(qs, Without(p, done))
  {
    assert Reset !in Cleared(off);
    hide ReadsAs, Cleared;
    qs, done := OffStep(ps, p, half, off, Blink, 25);
    qs, done := OffStep(qs, p, done, off, Negative, 27);
    qs, done := OffStep(qs, p, done, off, Conceal, 28);
    qs, done := OffStep(qs, p, done, off, Strikethrough, 29);
    AllFlags(Cleared(off), half);
  }

  /** A colour of any kind is read as it was printed. */
  lemma ReadsColor(ps: seq<nat>, p: SgrPayload, c: SgrColor, front: bool)
    requires ReadsAs(ps, p) && ColorOk(c)
    requires (if front then p.fg else p.bg) == Unchanged
    ensures ReadsAs(WithColor(ps, c, if front then 30 else 40), Colored(p, front, c))
  {
    hide ReadsAs;
    var base := if front then 30 else 40;
    match c
    case Unchanged =>
    case DefaultColor => ReadsCode(ps, p, true, base + 9);
    case Rgb(r, g, b) => ReadsRgb(ps, p, front, r, g, b);
    case Indexed(i) =>
      if i <= 7 {
        ReadsCode(ps, p, true, base + i);
      } else if i <= 15 {
        ReadsCode(ps, p, true, base + 60 + (i - 8));
      } else {
        ReadsIndexed(ps, p, front, i);
      }
  }

  lemma ReadsRgb(ps: seq<nat>, p: SgrPayload, front: bool, r: nat, g: nat, b: nat)
    requires ReadsAs(ps, p) && r < 256 && g < 256 && b < 256
    ensures ReadsAs(ps + [if front then 38 else 48, 2, r, g, b], Colored(p, front, Rgb(r, g, b)))
  {
    var more := [if front then 38 else 48, 2, r, g, b];
    forall rest: seq<int> ensures SgrRead(more + rest, p) == SgrRead(rest, Colored(p, front, Rgb(r, g, b))) {
      assert (more + rest)[5..] == rest;
    }
    ReadsMore(ps, p, more, Colored(p, front, Rgb(r, g, b)));
  }

  lemma ReadsIndexed(ps: seq<nat>, p: SgrPayload, front: bool, i: nat)
    requires ReadsAs(ps, p) && i < 256
    ensures ReadsAs(ps + [if front then 38 else 48, 5, i], Colored(p, front, Indexed(i)))
  {
    var more := [if front then 38 else 48, 5, i];
    forall rest: seq<int> ensures SgrRead(more + rest, p) == SgrRead(rest, Colored(p, front, Indexed(i))) {
      assert (more + rest)[3..] == rest;
    }
    ReadsMore(ps, p, more, Colored(p, front, Indexed(i)));
  }

  /** What the printed parameters mean: a reset, and of the rest what the order of printing leaves of it. */
  function ReadBack(p: SgrPayload): SgrPayload {
    if Reset in p.on then RESET
    else SgrPayload({Reset} + (p.on - Cleared(p.off)), Cleared(p.off), p.fg, p.bg)
  }

  lemma ParamsReadBack(p: SgrPayload)
    requires ColorOk(p.fg) && ColorOk(p.bg)
    ensures SgrRead(SgrParams(p), NOTHING) == Some(ReadBack(p))
  {
    var start := TurnedOn(NOTHING, Reset);
    assert start == RESET;
    assert ReadsAs([0], RESET) by {
      forall rest: seq<int> ensures SgrRead([0] + rest, NOTHING) == SgrRead(rest, RESET) {
        assert ([0] + rest)[1..] == rest;
      }
    }
    if Reset in p.on {
      ReadsAll([0], RESET);
    } else {
      hide ReadsAs, WithOn, WithOff, WithColor, SgrRead;
      var a := WithOn([0], p.on);
      var b := WithOff(a, p.off);
      var c := WithColor(b, p.fg, 30);
      var shown := RESET.(on := {Reset} + p.on);
      var kept := SgrPayload(shown.on - Cleared(p.off), Cleared(p.off), Unchanged, Unchanged);
      ReadsOn([0], RESET, p.on);
      ReadsOff(a, shown, p.off);
      ReadsColor(b, kept, p.fg, true);
      ReadsColor(c, Colored(kept, true, p.fg), p.bg, false);
      ReadsAll(SgrParams(p), ReadBack(p)) by {
        assert kept.on == ReadBack(p).on;
      }
    }
  }

  lemma ReadsAll(ps: seq<int>, p: SgrPayload)
    requires ReadsAs(ps, p)
    ensures SgrRead(ps, NOTHING) == Some(p)
  {
    assert ps + [] == ps;
  }

  /**
    The reset is all that is added exactly where no attribute is switched both ways, and bold and faint are
    switched off together.
   */
  lemma OnlyResetAdded(p: SgrPayload)
    requires Reset !in p.on
    ensures ReadBack(p) == p.(on := p.on + {Reset}) <==>
            p.on !! p.off && Reset !in p.off && (Bold in p.off <==> Faint in p.off)
  {
    if p.on !! p.off && Reset !in p.off && (Bold in p.off <==> Faint in p.off) {
      assert Cleared(p.off) == p.off;
      assert ReadBack(p).on == p.on + {Reset};
    }
  }
}
