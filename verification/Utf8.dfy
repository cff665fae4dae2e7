/**
  Writes that split a UTF-8 character: each write's unfinished tail is kept and put in front of the next one.
  Characters are those of section 3 of RFC 3629.
 */
module Utf8 {
  import opened ReaderQueues
  import opened Sequences

  predicate IsContinuation(b: Byte) { 0x80 <= b < 0xC0 }

  /** How many bytes a character takes, by its lead byte. */
  function LengthOf(lead: Byte): (n: nat)
    ensures 1 <= n <= 4
  {
    if lead >= 0xF0 then 4 else if lead >= 0xE0 then 3 else if lead >= 0xC0 then 2 else 1
  }

  /** One character: a lead byte and its continuation bytes. */
  ghost predicate IsChar(c: seq<Byte>) {
    && c != [] && !IsContinuation(c[0]) && |c| == LengthOf(c[0])
    && forall i :: 1 <= i < |c| ==> IsContinuation(c[i])
  }

  /** UTF-8 of a code point, as section 3 of RFC 3629 lays out its bits. */
  function Encoded(cp: nat): (c: seq<Byte>)
    requires cp <= 0x10FFFF
  {
    if cp <= 0x7F then [cp]
    else if cp <= 0x7FF then [0xC0 + cp / 0x40, 0x80 + cp % 0x40]
    else if cp <= 0xFFFF then [0xE0 + cp / 0x1000, 0x80 + cp / 0x40 % 0x40, 0x80 + cp % 0x40]
    else [0xF0 + cp / 0x40000, 0x80 + cp / 0x1000 % 0x40, 0x80 + cp / 0x40 % 0x40, 0x80 + cp % 0x40]
  }

  /** Every encoded code point is a character, and no shorter or longer run of bytes from its lead byte on is one. */
  lemma EncodedIsChar(cp: nat, c: seq<Byte>)
    requires cp <= 0x10FFFF
    ensures IsChar(Encoded(cp))
    ensures IsChar(c) && c[0] == Encoded(cp)[0] ==> |c| == |Encoded(cp)|
  {}

  /** Lead bytes: one byte up to 7F, two from C2 to DF, three from E0 to EF, four from F0 to F4; 80 to BF continue. */
  lemma LeadBytes(b: Byte)
    ensures b <= 0x7F ==> LengthOf(b) == 1 && !IsContinuation(b)
    ensures 0xC2 <= b <= 0xDF ==> LengthOf(b) == 2 && !IsContinuation(b)
    ensures 0xE0 <= b <= 0xEF ==> LengthOf(b) == 3 && !IsContinuation(b)
    ensures 0xF0 <= b <= 0xF4 ==> LengthOf(b) == 4 && !IsContinuation(b)
    ensures IsContinuation(b) <==> 0x80 <= b <= 0xBF
  {}

  ghost predicate AllChars(cs: seq<seq<Byte>>) {
    forall i :: 0 <= i < |cs| ==> IsChar(cs[i])
  }

  /** The beginning of a character that is not all there yet. */
  ghost predicate IsUnfinished(t: seq<Byte>) {
    t == [] || (!IsContinuation(t[0]) && |t| < LengthOf(t[0]) && forall i :: 1 <= i < |t| ==> IsContinuation(t[i]))
  }

  /** How many of the last bytes are an unfinished character, looking back at most three continuation bytes. */
  function TailLength(bytes: seq<Byte>, seen: nat): (r: nat)
    requires seen <= |bytes| && seen <= 3
    ensures r <= |bytes|
    decreases 3 - seen
  {
    if seen == |bytes| || seen == 3 then 0
    else
      var b := bytes[|bytes| - 1 - seen];
      if IsContinuation(b) then TailLength(bytes, seen + 1)
      else if seen + 1 < LengthOf(b) then seen + 1 else 0
  }

  method IncompleteTailLength(bytes: seq<Byte>) returns (n: nat)
    ensures n == TailLength(bytes, 0)
  {
    var continuation := 0;
    var i := |bytes|;
    while i > 0 && continuation < 3
      invariant 0 <= i <= |bytes| && continuation == |bytes| - i <= 3
      invariant TailLength(bytes, continuation) == TailLength(bytes, 0)
    {
      i := i - 1;
      if IsContinuation(bytes[i]) {
        continuation := continuation + 1;
      } else {
        return if continuation + 1 < LengthOf(bytes[i]) then continuation + 1 else 0;
      }
    }
    n := 0;
  }

  /** Behind whole characters, exactly the unfinished one is the tail. */
  lemma TailIsUnfinished(cs: seq<seq<Byte>>, t: seq<Byte>)
    requires AllChars(cs) && IsUnfinished(t)
    ensures TailLength(Flattened(cs) + t, 0) == |t|
  {
    var bytes := Flattened(cs) + t;
    if t != [] {
      BackOver(bytes, |bytes| - |t|, 0);
    } else if cs != [] {
      var c := cs[|cs| - 1];
      assert bytes == Flattened(cs[..|cs| - 1]) + c;
      BackOver(bytes, |bytes| - |c|, 0);
    }
  }

  /** From a lead byte at `lead` on there are only continuation bytes: the search stops at it, or finds nothing. */
  lemma {:induction false} BackOver(bytes: seq<Byte>, lead: nat, seen: nat)
    requires lead < |bytes| && !IsContinuation(bytes[lead]) && seen <= |bytes| - 1 - lead <= 3
    requires |bytes| - lead <= LengthOf(bytes[lead])
    requires forall i :: lead < i < |bytes| ==> IsContinuation(bytes[i])
    ensures TailLength(bytes, seen) == if |bytes| - lead < LengthOf(bytes[lead]) then |bytes| - lead else 0
    decreases |bytes| - 1 - lead - seen
  {
    if seen < |bytes| - 1 - lead && seen < 3 { BackOver(bytes, lead, seen + 1); }
  }

  /** Any prefix of a stream of characters is whole characters and one unfinished character. */
  lemma {:induction false} PrefixSplits(cs: seq<seq<Byte>>, n: nat) returns (k: nat, t: seq<Byte>)
    requires AllChars(cs) && n <= |Flattened(cs)|
    ensures k <= |cs| && IsUnfinished(t) && Flattened(cs)[..n] == Flattened(cs[..k]) + t
  {
    if cs == [] {
      k, t := 0, [];
    } else {
      var m := |cs| - 1;
      var before := Flattened(cs[..m]);
      if n <= |before| {
        k, t := PrefixSplits(cs[..m], n);
        assert cs[..m][..k] == cs[..k];
        assert Flattened(cs)[..n] == before[..n];
      } else if n == |Flattened(cs)| {
        k, t := |cs|, [];
        assert cs[..k] == cs;
      } else {
        k, t := m, cs[m][..n - |before|];
        assert Flattened(cs)[..n] == before + t;
      }
    }
  }

  /** Whole characters are no unfinished one. */
  lemma WholeIsNotUnfinished(cs: seq<seq<Byte>>)
    requires AllChars(cs) && cs != []
    ensures !IsUnfinished(Flattened(cs))
  {
    var first := cs[..1];
    FlattenedConcat(first, cs[1..]);
    assert first + cs[1..] == cs;
    assert Flattened(first) == cs[0] by { assert Flattened(first[..0]) == []; }
    assert Flattened(cs)[0] == cs[0][0];
  }

  /** `piece` is the characters [from, to) of the stream. */
  ghost predicate CutsOut(cs: seq<seq<Byte>>, from: nat, to: nat, piece: seq<Byte>) {
    from <= to <= |cs| && piece == Flattened(cs[from..to])
  }

  /** What was written is the first `k` characters and an unfinished one. */
  ghost predicate Kept(cs: seq<seq<Byte>>, k: nat, tail: seq<Byte>, written: seq<Byte>) {
    k <= |cs| && written == Flattened(cs[..k]) + tail && IsUnfinished(tail)
  }

  lemma SuffixPrefix(a: seq<Byte>, r: seq<Byte>, all: seq<Byte>)
    requires a + all <= a + r
    ensures |all| <= |r| && r[..|all|] == all
  {
    assert (a + r)[|a|..] == r;
    assert (a + r)[..|a| + |all|] == a + all;
    assert forall i :: 0 <= i < |all| ==> r[i] == (a + r)[|a| + i] == (a + all)[|a| + i] == all[i];
  }

  /** The next write completes characters behind those written so far. */
  lemma NextPiece(cs: seq<seq<Byte>>, k: nat, tail: seq<Byte>, written: seq<Byte>, bytes: seq<Byte>) returns (j: nat)
    requires AllChars(cs) && Kept(cs, k, tail, written) && written + bytes <= Flattened(cs)
    ensures var all := tail + bytes;
            var n := |all| - TailLength(all, 0);
            CutsOut(cs, k, j, all[..n]) && Kept(cs, j, all[n..], written + bytes)
  {
    hide Flattened, IsChar, IsUnfinished, TailLength;
    var all := tail + bytes;
    var before, rest := Flattened(cs[..k]), cs[k..];
    assert written + bytes == before + all by { Regroup(before, tail, bytes); }
    FlattenedAt(cs, k);
    SuffixPrefix(before, Flattened(rest), all);
    var i, t := PrefixSplits(rest, |all|);
    TailIsUnfinished(rest[..i], t);
    j := k + i;
    assert rest[..i] == cs[k..j];
    var piece := Flattened(cs[k..j]);
    PieceKept(cs, k, j, piece);
    assert all == piece + t;
    assert all[..|piece|] == piece && all[|piece|..] == t;
    Regroup(before, piece, t);
  }

  lemma Regroup(a: seq<Byte>, b: seq<Byte>, c: seq<Byte>)
    ensures (a + b) + c == a + (b + c)
  {}

  lemma FlattenedAt(cs: seq<seq<Byte>>, k: nat)
    requires k <= |cs|
    ensures Flattened(cs) == Flattened(cs[..k]) + Flattened(cs[k..])
  {
    FlattenedConcat(cs[..k], cs[k..]);
    assert cs[..k] + cs[k..] == cs;
  }

  lemma PieceKept(cs: seq<seq<Byte>>, k: nat, j: nat, piece: seq<Byte>)
    requires CutsOut(cs, k, j, piece)
    ensures Flattened(cs[..j]) == Flattened(cs[..k]) + piece
  {
    FlattenedConcat(cs[..k], cs[k..j]);
    assert cs[..k] + cs[k..j] == cs[..j];
  }

  /** At the end of the stream nothing is kept. */
  lemma NothingKept(cs: seq<seq<Byte>>, k: nat, tail: seq<Byte>)
    requires AllChars(cs) && Kept(cs, k, tail, Flattened(cs))
    ensures k == |cs| && tail == []
  {
    hide Flattened, IsChar, IsUnfinished;
    var rest := cs[k..];
    FlattenedAt(cs, k);
    SuffixPrefix(Flattened(cs[..k]), Flattened(rest), tail);
    assert tail == Flattened(rest)[..|tail|] == Flattened(rest);
    if rest != [] { WholeIsNotUnfinished(rest); }
    else { NoCharacters(); }
  }

  class Utf8Joiner {
    var tail: seq<Byte>

    constructor ()
      ensures tail == []
    {
      tail := [];
    }

    /** What one write delivers; its unfinished tail is kept. */
    method JoinWrite(bytes: seq<Byte>) returns (piece: seq<Byte>)
      modifies this
      ensures piece + tail == old(tail) + bytes && |tail| == TailLength(old(tail) + bytes, 0)
    {
      var all := if tail != [] then tail + bytes else bytes;
      assert all == tail + bytes;
      var keep := IncompleteTailLength(all);
      tail := all[|all| - keep..];
      piece := all[..|all| - keep];
    }

    /**
      A stream of characters cut anywhere: each piece delivered is whole characters of the stream, in order,
      the tail kept is the beginning of the next one, at most three bytes, and nothing is kept at the end.
     */
    method JoinWrites(writes: seq<seq<Byte>>, ghost cs: seq<seq<Byte>>) returns (pieces: seq<seq<Byte>>, ghost cuts: seq<nat>)
      requires tail == [] && AllChars(cs) && Flattened(writes) <= Flattened(cs)
      modifies this
      ensures |pieces| == |writes| && |cuts| == |pieces| + 1 && cuts[0] == 0
      ensures forall i :: 0 <= i < |pieces| ==> CutsOut(cs, cuts[i], cuts[i + 1], pieces[i])
      ensures Kept(cs, cuts[|pieces|], tail, Flattened(writes)) && |tail| <= 3
      ensures Flattened(writes) == Flattened(cs) ==> cuts[|pieces|] == |cs| && tail == []
    {
      hide CutsOut, Kept, AllChars;
      StartKept(cs);
      pieces, cuts := [], [0];
      var i := 0;
      while i < |writes|
        invariant 0 <= i <= |writes| && |pieces| == i && |cuts| == i + 1 && cuts[0] == 0
        invariant forall m :: 0 <= m < i ==> CutsOut(cs, cuts[m], cuts[m + 1], pieces[m])
        invariant Kept(cs, cuts[i], tail, Flattened(writes[..i]))
      {
        FlattenedPrefix(writes, i, Flattened(cs));
        ghost var j := NextPiece(cs, cuts[i], tail, Flattened(writes[..i]), writes[i]);
        ghost var all := tail + writes[i];
        var piece := JoinWrite(writes[i]);
        assert piece == all[..|piece|] && tail == all[|piece|..];
        pieces, cuts := pieces + [piece], cuts + [j];
        i := i + 1;
      }
      assert writes[..i] == writes;
      KeptShort(cs, cuts[i], tail, Flattened(writes));
      if Flattened(writes) == Flattened(cs) { NothingKept(cs, cuts[i], tail); }
    }
  }

  lemma NoCharacters()
    ensures Flattened<Byte>([]) == []
  {}

  lemma StartKept(cs: seq<seq<Byte>>)
    ensures Kept(cs, 0, [], [])
  {}

  lemma KeptShort(cs: seq<seq<Byte>>, k: nat, tail: seq<Byte>, written: seq<Byte>)
    requires Kept(cs, k, tail, written)
    ensures |tail| <= 3
  {}

  lemma {:induction false} FlattenedPrefix(writes: seq<seq<Byte>>, i: nat, stream: seq<Byte>)
    requires i < |writes| && Flattened(writes) <= stream
    ensures Flattened(writes[..i + 1]) == Flattened(writes[..i]) + writes[i] <= stream
    decreases |writes|
  {
    assert writes[..i + 1][..i] == writes[..i];
    var n := |writes| - 1;
    if i == n {
      assert writes[..i + 1] == writes;
    } else {
      assert Flattened(writes) == Flattened(writes[..n]) + writes[n];
      FlattenedPrefix(writes[..n], i, stream);
      assert writes[..n][..i + 1] == writes[..i + 1] && writes[..n][..i] == writes[..i];
    }
  }
}
