/**
  The cooked line editor: a line buffer with an insertion point, its idea of the terminal's cursor, and the
  VT that keeps the terminal showing the line.
 */
module LineEditors {
  import opened Cells
  import opened Shorts
  import opened VtMessages
  import opened VtParsers
  import opened Histories
  import opened HostTerminals

  /** The line, the insertion point and the history: what an edit means, without any terminal. */
  datatype Input = Input(buf: Line, cursor: nat, history: History)

  datatype Edit = Insert(ch: Char32) | Backspace | Delete | MoveLeft | MoveRight | Home | ToEnd | HistoryUp | HistoryDown

  ghost predicate InputOk(i: Input) {
    i.cursor <= |i.buf| && HistoryOk(i.history)
  }

  function Loaded(history: History, line: Line): Input { Input(line, |line|, history) }

  function Edited(i: Input, e: Edit): Input
    requires InputOk(i)
  {
    match e
    case Insert(ch) =>
      Input(i.buf[..i.cursor] + [ch] + i.buf[i.cursor..], i.cursor + 1, NotBrowsing(i.history))
    case Backspace =>
      if i.cursor == 0 then i.(history := NotBrowsing(i.history))
      else Input(i.buf[..i.cursor - 1] + i.buf[i.cursor..], i.cursor - 1, NotBrowsing(i.history))
    case Delete =>
      if i.cursor == |i.buf| then i.(history := NotBrowsing(i.history))
      else Input(i.buf[..i.cursor] + i.buf[i.cursor + 1..], i.cursor, NotBrowsing(i.history))
    case MoveLeft => if i.cursor == 0 then i else i.(cursor := i.cursor - 1)
    case MoveRight => if i.cursor == |i.buf| then i else i.(cursor := i.cursor + 1)
    case Home => i.(cursor := 0)
    case ToEnd => i.(cursor := |i.buf|)
    case HistoryUp =>
      if i.history.commands == [] then i else Loaded(Up(i.history, i.buf).0, Up(i.history, i.buf).1)
    case HistoryDown =>
      if i.history.index == NONE then i else Loaded(Down(i.history, i.buf).0, Down(i.history, i.buf).1)
  }

  ghost predicate Printable(line: Line) {
    forall i :: 0 <= i < |line| ==> !IsControl(line[i])
  }

  /** Everything that could come to be on the line is printable. */
  ghost predicate InputPrintable(i: Input) {
    && Printable(i.buf) && Printable(i.history.saved)
    && forall k :: 0 <= k < |i.history.commands| ==> Printable(i.history.commands[k])
  }

  lemma EditedPrintable(i: Input, e: Edit)
    requires InputOk(i) && InputPrintable(i) && (e.Insert? ==> !IsControl(e.ch))
    ensures InputPrintable(Edited(i, e))
  {}

  lemma EditedOk(i: Input, e: Edit)
    requires InputOk(i)
    ensures InputOk(Edited(i, e))
  {
    UpOk(i.history, i.buf);
  }

  lemma PrintableBuf(i: Input)
    requires InputPrintable(i)
    ensures Printable(i.buf)
  {}

  function EditedAll(i: Input, keys: seq<Edit>): (r: Input)
    requires InputOk(i)
    ensures InputOk(r)
  {
    if keys == [] then i
    else
      var j := EditedAll(i, keys[..|keys| - 1]);
      EditedOk(j, keys[|keys| - 1]);
      Edited(j, keys[|keys| - 1])
  }

  // ---- What the keys mean to each other ----

  lemma {:induction false} EditedAllConcat(i: Input, a: seq<Edit>, b: seq<Edit>)
    requires InputOk(i)
    ensures EditedAll(i, a + b) == EditedAll(EditedAll(i, a), b)
  {
    hide Edited, InputOk;
    if b == [] {
      assert a + b == a;
    } else {
      EditedAllConcat(i, a, b[..|b| - 1]);
      assert (a + b)[..|a + b| - 1] == a + b[..|b| - 1];
    }
  }

  lemma EditedOne(i: Input, e: Edit)
    requires InputOk(i)
    ensures EditedAll(i, [e]) == Edited(i, e)
  {
    hide Edited;
    assert [e][..0] == [];
    assert EditedAll(i, []) == i;
  }

  lemma EditedTwo(i: Input, a: Edit, b: Edit)
    requires InputOk(i)
    ensures InputOk(Edited(i, a)) && EditedAll(i, [a, b]) == Edited(Edited(i, a), b)
  {
    hide Edited;
    EditedOne(i, a);
    EditedAllConcat(i, [a], [b]);
    EditedOne(EditedAll(i, [a]), b);
    assert [a] + [b] == [a, b];
  }

  /** Left and Right undo each other inside the line. */
  lemma MovesUndo(i: Input)
    requires InputOk(i)
    ensures i.cursor > 0 ==> EditedAll(i, [MoveLeft, MoveRight]) == i
    ensures i.cursor < |i.buf| ==> EditedAll(i, [MoveRight, MoveLeft]) == i
  {
    EditedTwo(i, MoveLeft, MoveRight);
    EditedTwo(i, MoveRight, MoveLeft);
  }

  /** Delete behind Left is Backspace. */
  lemma LeftDelete(i: Input)
    requires InputOk(i) && i.cursor > 0
    ensures EditedAll(i, [MoveLeft, Delete]) == EditedAll(i, [Backspace])
  {
    EditedTwo(i, MoveLeft, Delete);
    EditedOne(i, Backspace);
  }

  /** Backspace takes back what was typed, and so does Left and Delete; the history is not browsed any more. */
  lemma TypedBack(i: Input, ch: Char32)
    requires InputOk(i)
    ensures EditedAll(i, [Insert(ch), Backspace]) == i.(history := NotBrowsing(i.history))
    ensures EditedAll(i, [Insert(ch), MoveLeft, Delete]) == i.(history := NotBrowsing(i.history))
  {
    hide NotBrowsing;
    EditedTwo(i, Insert(ch), Backspace);
    var typed := Edited(i, Insert(ch));
    assert typed.buf[..i.cursor] == i.buf[..i.cursor] && typed.buf[i.cursor + 1..] == i.buf[i.cursor..];
    assert i.buf[..i.cursor] + i.buf[i.cursor..] == i.buf;
    NotBrowsingTwice(i.history);
    EditedOne(i, Insert(ch));
    EditedAllConcat(i, [Insert(ch)], [MoveLeft, Delete]);
    assert [Insert(ch)] + [MoveLeft, Delete] == [Insert(ch), MoveLeft, Delete];
    LeftDelete(typed);
    EditedOne(typed, Backspace);
  }

  lemma NotBrowsingTwice(h: History)
    ensures NotBrowsing(NotBrowsing(h)) == NotBrowsing(h)
  {}

  function Times(n: nat, e: Edit): (keys: seq<Edit>)
    ensures |keys| == n
  {
    seq(n, _ => e)
  }

  /** n Lefts go n places back and no further than the start; the line and the history stay. */
  lemma {:induction false} LeftsMove(i: Input, n: nat)
    requires InputOk(i)
    ensures EditedAll(i, Times(n, MoveLeft)) == i.(cursor := if n <= i.cursor then i.cursor - n else 0)
  {
    if n > 0 {
      LeftsMove(i, n - 1);
      assert Times(n, MoveLeft)[..n - 1] == Times(n - 1, MoveLeft);
    }
  }

  lemma {:induction false} RightsMove(i: Input, n: nat)
    requires InputOk(i)
    ensures EditedAll(i, Times(n, MoveRight)) == i.(cursor := if i.cursor + n <= |i.buf| then i.cursor + n else |i.buf|)
  {
    if n > 0 {
      RightsMove(i, n - 1);
      assert Times(n, MoveRight)[..n - 1] == Times(n - 1, MoveRight);
    }
  }

  /** n Lefts after End stand n places before the end of the line, n Rights after Home behind its first n characters. */
  lemma EndAndHome(i: Input, n: nat)
    requires InputOk(i) && n <= |i.buf|
    ensures EditedAll(i, [ToEnd] + Times(n, MoveLeft)) == i.(cursor := |i.buf| - n)
    ensures EditedAll(i, [Home] + Times(n, MoveRight)) == i.(cursor := n)
  {
    EditedOne(i, ToEnd);
    EditedAllConcat(i, [ToEnd], Times(n, MoveLeft));
    LeftsMove(Edited(i, ToEnd), n);
    EditedOne(i, Home);
    EditedAllConcat(i, [Home], Times(n, MoveRight));
    RightsMove(Edited(i, Home), n);
  }

  function Typing(text: Line): (keys: seq<Edit>)
    ensures |keys| == |text|
  {
    seq(|text|, k requires 0 <= k < |text| => Insert(text[k]))
  }

  /** A text typed key by key stands at the insertion point, which is then behind it. */
  lemma {:induction false} TypedText(i: Input, text: Line)
    requires InputOk(i) && text != []
    ensures EditedAll(i, Typing(text)) ==
            Input(i.buf[..i.cursor] + text + i.buf[i.cursor..], i.cursor + |text|, NotBrowsing(i.history))
  {
    var n := |text| - 1;
    assert Typing(text)[..n] == Typing(text[..n]);
    if n == 0 {
      assert EditedAll(i, Typing(text[..0])) == i;
      assert text == [text[0]];
    } else {
      TypedText(i, text[..n]);
      var j := EditedAll(i, Typing(text[..n]));
      assert j.buf[..j.cursor] == i.buf[..i.cursor] + text[..n] && j.buf[j.cursor..] == i.buf[i.cursor..];
      assert i.buf[..i.cursor] + text[..n] + [text[n]] == i.buf[..i.cursor] + text;
    }
  }

  /** On an empty line it is the line; after Home it stands in front of the line, after End behind it. */
  lemma TypedAlone(i: Input, text: Line)
    requires InputOk(i) && text != []
    ensures i.buf == [] ==> EditedAll(i, Typing(text)) == Input(text, |text|, NotBrowsing(i.history))
    ensures EditedAll(i, [Home] + Typing(text)) == Input(text + i.buf, |text|, NotBrowsing(i.history))
    ensures EditedAll(i, [ToEnd] + Typing(text)) == Input(i.buf + text, |i.buf| + |text|, NotBrowsing(i.history))
  {
    hide EditedAll, NotBrowsing, HistoryOk, Typing;
    if i.buf == [] {
      TypedText(i, text);
      assert i.buf[..i.cursor] + text + i.buf[i.cursor..] == text;
    }
    TypedAfter(i, Home, i.(cursor := 0), text);
    assert i.buf[..0] + text + i.buf[0..] == text + i.buf;
    TypedAfter(i, ToEnd, i.(cursor := |i.buf|), text);
    assert i.buf[..|i.buf|] + text + i.buf[|i.buf|..] == i.buf + text;
  }

  lemma TypedAfter(i: Input, e: Edit, j: Input, text: Line)
    requires InputOk(i) && InputOk(j) && text != [] && Edited(i, e) == j
    ensures EditedAll(i, [e] + Typing(text)) ==
            Input(j.buf[..j.cursor] + text + j.buf[j.cursor..], j.cursor + |text|, NotBrowsing(j.history))
  {
    hide Edited, EditedAll, NotBrowsing, Typing;
    EditedOne(i, e);
    EditedAllConcat(i, [e], Typing(text));
    TypedText(j, text);
  }

  /** k Ups show the k-th newest command or the oldest, with the insertion point behind it. */
  lemma {:induction false} UpsShow(i: Input, k: nat)
    requires InputOk(i) && i.history.index == NONE && i.history.commands != [] && k > 0
    ensures var n := if k <= |i.history.commands| then |i.history.commands| - k else 0;
            EditedAll(i, Times(k, HistoryUp)) ==
            Input(i.history.commands[n], |i.history.commands[n]|, i.history.(index := n, saved := i.buf))
  {
    assert Times(k, HistoryUp)[..k - 1] == Times(k - 1, HistoryUp);
    if k > 1 {
      UpsShow(i, k - 1);
    } else {
      assert EditedAll(i, Times(0, HistoryUp)) == i;
    }
  }

  /** As many Downs, up to the number of commands, bring the line back, with the insertion point at its end. */
  lemma DownsBack(i: Input, k: nat)
    requires InputOk(i) && i.history.index == NONE && 0 < k <= |i.history.commands|
    ensures EditedAll(i, Times(k, HistoryUp) + Times(k, HistoryDown)) == i.(cursor := |i.buf|)
  {
    UpsShow(i, k);
    EditedAllConcat(i, Times(k, HistoryUp), Times(k, HistoryDown));
    DownsShow(EditedAll(i, Times(k, HistoryUp)), k);
  }

  lemma {:induction false} DownsShow(j: Input, k: nat)
    requires InputOk(j) && j.history.index != NONE && 0 < k <= |j.history.commands| - j.history.index
    ensures var h := j.history;
            var n := h.index + k;
            EditedAll(j, Times(k, HistoryDown)) ==
            if n < |h.commands| then Input(h.commands[n], |h.commands[n]|, h.(index := n))
            else Input(h.saved, |h.saved|, NotBrowsing(h))
  {
    assert Times(k, HistoryDown)[..k - 1] == Times(k - 1, HistoryDown);
    if k > 1 {
      DownsShow(j, k - 1);
    } else {
      assert EditedAll(j, Times(0, HistoryDown)) == j;
    }
  }

  /** A key that types something printable, if anything, and leaves the line and its insertion point in `room` columns. */
  ghost predicate Allowed(i: Input, e: Edit, room: int)
    requires InputOk(i)
  {
    (e.Insert? ==> !IsControl(e.ch)) && |Edited(i, e).buf| <= room && Edited(i, e).cursor < room
  }

  ghost predicate AllAllowed(i: Input, keys: seq<Edit>, room: int)
    requires InputOk(i)
  {
    forall k :: 0 <= k < |keys| ==> Allowed(EditedAll(i, keys[..k]), keys[k], room)
  }

  // ---- What the terminal should show ----

  /** The row of `base` with the line behind the prompt of `start` columns and nothing behind the line. */
  function LineRow(row: TextRow, start: nat, buf: Line): (r: TextRow)
    requires start + |buf| <= |row|
    ensures |r| == |row|
  {
    row[..start] + buf + Blanks(|row| - start - |buf|)
  }

  /** The row has columns for the line and a column for the insertion point. */
  predicate RowHolds(base: Host, start: nat, buf: Line, cursor: nat) {
    cursor <= |buf| && start + |buf| <= base.width && start + cursor < base.width
  }

  /** The whole terminal, when the line began on `base` at column `start`. */
  function Shown(base: Host, start: nat, buf: Line, cursor: nat): Host
    requires HostOk(base) && start + |buf| <= base.width
  {
    WithRow(base, LineRow(base.rows[base.y], start, buf), start + cursor)
  }

  /** The same right after the line was written: behind a full row the wrap is delayed. */
  function ShownEnd(base: Host, start: nat, buf: Line): Host
    requires HostOk(base) && start < base.width && start + |buf| <= base.width
  {
    if start + |buf| < base.width then Shown(base, start, buf, |buf|)
    else Shown(base, start, buf, base.width - 1 - start).(wrap := true)
  }

  /**
    Nothing weaker will do: a terminal that shows the line behind the prompt in one row, its cursor at the
    insertion point, has those columns.
   */
  lemma OnlyRowsThatHold(base: Host, ops: seq<Op>, start: nat, buf: Line, cursor: nat, row: nat)
    requires HostOk(base) && cursor <= |buf|
    requires var h := ExecAll(base, ops);
             && row < |h.rows| && start <= |h.rows[row]|
             && buf <= h.rows[row][start..] && h.x == start + cursor
    ensures RowHolds(base, start, buf, cursor)
  {
    WidthStays(base, ops);
  }

  lemma {:induction false} WidthStays(h: Host, ops: seq<Op>)
    requires HostOk(h)
    ensures ExecAll(h, ops).width == h.width
  {
    hide Exec, HostOk;
    if ops != [] {
      WidthStays(h, ops[..|ops| - 1]);
      ExecOk(ExecAll(h, ops[..|ops| - 1]), ops[|ops| - 1]);
    }
  }

  /** CUP to the line at another insertion point. */
  lemma ShownMove(base: Host, start: nat, buf: Line, from: nat, to: nat)
    requires HostOk(base) && RowHolds(base, start, buf, from) && RowHolds(base, start, buf, to)
    ensures HostOk(Shown(base, start, buf, from))
    ensures Exec(Shown(base, start, buf, from), MoveTo(base.y, start + to)) == Shown(base, start, buf, to)
  {}

  /** CUP from behind the line. */
  lemma ShownBack(base: Host, start: nat, buf: Line, to: nat)
    requires HostOk(base) && RowHolds(base, start, buf, to)
    ensures HostOk(ShownEnd(base, start, buf))
    ensures Exec(ShownEnd(base, start, buf), MoveTo(base.y, start + to)) == Shown(base, start, buf, to)
  {}

  /** Writing the tail of a line over a row that already has its head. */
  lemma ShownPuts(base: Host, start: nat, buf: Line, was: Line, at: nat)
    requires HostOk(base) && start + |buf| <= base.width && RowHolds(base, start, was, at)
    requires at <= |buf| && |was| <= |buf| && buf[..at] == was[..at]
    ensures HostOk(Shown(base, start, was, at))
    ensures ExecAll(Shown(base, start, was, at), Puts(buf[at..])) == ShownEnd(base, start, buf)
  {
    hide Exec, ExecAll;
    var h := Shown(base, start, was, at);
    PutsWrite(h, buf[at..]);
    var row := LineRow(base.rows[base.y], start, was);
    assert h.rows[h.y] == row;
    assert Over(row, start + at, buf[at..]) == LineRow(base.rows[base.y], start, buf);
    assert h.rows[h.y := LineRow(base.rows[base.y], start, buf)] == base.rows[base.y := LineRow(base.rows[base.y], start, buf)];
  }

  /** Deleting the column at the insertion point deletes the character of the line there. */
  lemma ShownDelete(base: Host, start: nat, buf: Line, at: nat)
    requires HostOk(base) && RowHolds(base, start, buf, at) && at < |buf|
    ensures HostOk(Shown(base, start, buf, at))
    ensures Exec(Shown(base, start, buf, at), DeleteHere) == Shown(base, start, buf[..at] + buf[at + 1..], at)
  {
    var h := Shown(base, start, buf, at);
    var row := h.rows[h.y];
    var cut: TextRow := row[..h.x] + row[h.x + 1..] + [SPACE];
    assert cut == LineRow(base.rows[base.y], start, buf[..at] + buf[at + 1..]);
    assert h.rows[h.y := cut] == base.rows[base.y := cut];
  }

  /** Clearing from the prompt on leaves an empty line. */
  lemma ShownErase(base: Host, start: nat, buf: Line)
    requires HostOk(base) && RowHolds(base, start, buf, 0)
    ensures HostOk(Shown(base, start, buf, 0))
    ensures Exec(Shown(base, start, buf, 0), EraseRight) == Shown(base, start, [], 0)
  {
    var h := Shown(base, start, buf, 0);
    var row: TextRow := h.rows[h.y][..h.x] + Blanks(h.width - h.x);
    assert row == LineRow(base.rows[base.y], start, []);
    assert h.rows[h.y := row] == base.rows[base.y := row];
  }

  /** CUB from behind a character of the line. */
  lemma ShownLeft(base: Host, start: nat, buf: Line, from: nat)
    requires HostOk(base) && RowHolds(base, start, buf, from) && from > 0
    ensures HostOk(Shown(base, start, buf, from))
    ensures Exec(Shown(base, start, buf, from), Left) == Shown(base, start, buf, from - 1)
  {}

  // ---- What the edits send ----

  /** The VT, parsed and executed by the terminal, shows the line. */
  lemma ShownThroughVt(base: Host, sent: seq<Op>, start: nat, buf: Line, cursor: nat)
    requires Shows(base, sent, start, buf, cursor)
    ensures HostOk(base) && RowHolds(base, start, buf, cursor)
    ensures ExecMsgs(base, Msgs(Steps(FRESH, OpsText(sent)).1)) == Shown(base, start, buf, cursor)
  {
    hide Exec, ExecMsg, Steps;
    ExecutedThroughVt(base, sent);
  }

  lemma PutsCons(line: Line, at: nat)
    requires at < |line|
    ensures Puts(line[at..]) == [Put(line[at])] + Puts(line[at + 1..])
  {}

  lemma NoPuts(line: Line)
    ensures Puts(line[|line|..]) == []
  {}

  ghost predicate OpsOk(ops: seq<Op>) {
    forall i :: 0 <= i < |ops| ==> OpOk(ops[i])
  }

  /** After the VT in `sent` the terminal shows the line. */
  ghost predicate Shows(base: Host, sent: seq<Op>, start: nat, buf: Line, cursor: nat) {
    && HostOk(base) && RowHolds(base, start, buf, cursor)
    && OpsOk(sent) && ExecAll(base, sent) == Shown(base, start, buf, cursor)
  }

  lemma ShowsFits(base: Host, sent: seq<Op>, start: nat, buf: Line, cursor: nat)
    requires Shows(base, sent, start, buf, cursor)
    ensures HostOk(base) && RowHolds(base, start, buf, cursor) && base.width <= 0x7FFF && base.y < 0x7FFF
  {}

  lemma ShowsNext(base: Host, sent: seq<Op>, start: nat, buf: Line, cursor: nat, ops: seq<Op>, line: Line, at: nat)
    requires Shows(base, sent, start, buf, cursor) && OpsOk(ops) && RowHolds(base, start, line, at)
    requires HostOk(Shown(base, start, buf, cursor))
    requires ExecAll(Shown(base, start, buf, cursor), ops) == Shown(base, start, line, at)
    ensures Shows(base, sent + ops, start, line, at)
  {
    hide Exec, ExecAll, Shown, HostOk;
    ExecConcat(base, sent, ops);
  }

  /** The tail of the new line, and CUP back to the insertion point. */
  lemma ShowsTail(base: Host, sent: seq<Op>, start: nat, was: Line, from: nat, line: Line, at: nat)
    requires Shows(base, sent, start, was, from) && Printable(line)
    requires RowHolds(base, start, line, at) && from <= at && |was| <= |line| && line[..from] == was[..from]
    ensures start + |line| < base.width ==> Shows(base, sent + Puts(line[from..]), start, line, |line|)
    ensures Shows(base, sent + Puts(line[from..]) + [MoveTo(base.y, start + at)], start, line, at)
  {
    hide Exec, ExecAll, Shown;
    var tail, back := Puts(line[from..]), MoveTo(base.y, start + at);
    ShownPuts(base, start, line, was, from);
    if start + |line| < base.width { ShowsNext(base, sent, start, was, from, tail, line, |line|); }
    ShownBack(base, start, line, at);
    ExecConcat(Shown(base, start, was, from), tail, [back]);
    ExecOne(ShownEnd(base, start, line), back);
    ShowsNext(base, sent, start, was, from, tail + [back], line, at);
    assert sent + tail + [back] == sent + (tail + [back]);
  }

  /** Echoing the character just taken, and what is behind it, shows the new line. */
  ghost predicate OpsAfterTyping(base: Host, sent: seq<Op>, start: nat, line: Line, at: nat, ch: Char32) {
    && at <= |line|
    && (at == |line| ==> Shows(base, sent + [Put(ch)], start, line, at))
    && Shows(base, sent + [Put(ch)] + Puts(line[at..]) + [MoveTo(base.y, start + at)], start, line, at)
  }

  lemma AfterTyping(base: Host, sent: seq<Op>, start: nat, line: Line, at: nat, ch: Char32)
    requires OpsAfterTyping(base, sent, start, line, at, ch)
    ensures at <= |line|
    ensures at == |line| ==> Shows(base, sent + [Put(ch)], start, line, at)
    ensures Shows(base, sent + [Put(ch)] + Puts(line[at..]) + [MoveTo(base.y, start + at)], start, line, at)
  {}

  lemma TypingShows(base: Host, sent: seq<Op>, start: nat, was: Line, at: nat, line: Line, ch: Char32)
    requires Shows(base, sent, start, was, at) && Printable(line) && RowHolds(base, start, line, at + 1)
    requires line == was[..at] + [ch] + was[at..]
    ensures OpsAfterTyping(base, sent, start, line, at + 1, ch)
  {
    hide Shows, Puts;
    ShowsFits(base, sent, start, was, at);
    ShowsTail(base, sent, start, was, at, line, at + 1);
    PutsCons(line, at);
    NoPuts(line);
    assert sent + Puts(line[at..]) == sent + [Put(ch)] + Puts(line[at + 1..]);
    if at + 1 == |line| { assert sent + [Put(ch)] + Puts(line[at + 1..]) == sent + [Put(ch)]; }
  }

  lemma ShowsMove(base: Host, sent: seq<Op>, start: nat, buf: Line, from: nat, to: nat)
    requires Shows(base, sent, start, buf, from) && RowHolds(base, start, buf, to)
    ensures Shows(base, sent + [MoveTo(base.y, start + to)], start, buf, to)
  {
    hide Exec, ExecAll, Shown;
    ShownMove(base, start, buf, from, to);
    ExecOne(Shown(base, start, buf, from), MoveTo(base.y, start + to));
    ShowsNext(base, sent, start, buf, from, [MoveTo(base.y, start + to)], buf, to);
  }

  /** CUB and DCH from behind the character that goes. */
  lemma ShowsBackspace(base: Host, sent: seq<Op>, start: nat, buf: Line, at: nat)
    requires Shows(base, sent, start, buf, at) && at > 0
    ensures Shows(base, sent + [Left, DeleteHere], start, buf[..at - 1] + buf[at..], at - 1)
  {
    hide Exec, ExecAll, Shown, HostOk;
    ShownLeft(base, start, buf, at);
    ExecOne(Shown(base, start, buf, at), Left);
    ShowsNext(base, sent, start, buf, at, [Left], buf, at - 1);
    ShowsDelete(base, sent + [Left], start, buf, at - 1);
    assert sent + [Left] + [DeleteHere] == sent + [Left, DeleteHere];
  }

  lemma ShowsDelete(base: Host, sent: seq<Op>, start: nat, buf: Line, at: nat)
    requires Shows(base, sent, start, buf, at) && at < |buf|
    ensures Shows(base, sent + [DeleteHere], start, buf[..at] + buf[at + 1..], at)
  {
    hide Exec, ExecAll, Shown, HostOk;
    ShownDelete(base, start, buf, at);
    ExecOne(Shown(base, start, buf, at), DeleteHere);
    ShowsNext(base, sent, start, buf, at, [DeleteHere], buf[..at] + buf[at + 1..], at);
  }

  /** CUP to the prompt's end, EL, and another line. */
  lemma ShowsLine(base: Host, sent: seq<Op>, start: nat, buf: Line, at: nat, line: Line)
    requires Shows(base, sent, start, buf, at) && RowHolds(base, start, line, |line|) && Printable(line)
    ensures Shows(base, sent + [MoveTo(base.y, start)] + [EraseRight] + Puts(line), start, line, |line|)
  {
    hide Exec, ExecAll, Shown, HostOk;
    var moved := sent + [MoveTo(base.y, start)];
    assert start + 0 == start;
    ShowsMove(base, sent, start, buf, at, 0);
    ShownErase(base, start, buf);
    ExecOne(Shown(base, start, buf, 0), EraseRight);
    ShowsNext(base, moved, start, buf, 0, [EraseRight], [], 0);
    ShownPuts(base, start, line, [], 0);
    assert line[0..] == line;
    ShowsNext(base, moved + [EraseRight], start, [], 0, Puts(line), line, |line|);
  }

  // ---- The end of the row ----

  /**
    Typing at the end of the line: the terminal shows the new line with the cursor behind it exactly where
    that column exists. On the last column it delays the wrap and stays.
   */
  lemma TypingFits(base: Host, start: nat, buf: Line, ch: Char32)
    requires HostOk(base) && start + |buf| < base.width
    ensures HostOk(Shown(base, start, buf, |buf|))
    ensures var h := Exec(Shown(base, start, buf, |buf|), Put(ch));
            h.x == start + |buf| + 1 && !h.wrap <==> start + |buf| + 1 < base.width
    ensures start + |buf| + 1 < base.width ==>
              Exec(Shown(base, start, buf, |buf|), Put(ch)) == Shown(base, start, buf + [ch], |buf| + 1)
  {
    if start + |buf| + 1 < base.width {
      ShownPuts(base, start, buf + [ch], buf, |buf|);
      assert (buf + [ch])[|buf|..] == [ch];
      assert Puts([ch]) == [Put(ch)];
      ExecOne(Shown(base, start, buf, |buf|), Put(ch));
    }
  }

  /**
    A Backspace after a character that filled the row deletes the column before it, be it of the line or, where
    the line was empty, of the prompt: the row is right only if that column held the same character, or if
    there is no such column.
   */
  lemma BackspaceOnFullRow(base: Host, start: nat, buf: Line, ch: Char32)
    requires HostOk(base) && start + |buf| + 1 == base.width
    ensures HostOk(Shown(base, start, buf, |buf|))
    ensures var h := ExecAll(Shown(base, start, buf, |buf|), [Put(ch), Left, DeleteHere]);
            var row := LineRow(base.rows[base.y], start, buf);
            base.y < |h.rows| && (h.rows[base.y] == row <==> base.width == 1 || row[base.width - 2] == ch)
  {
    hide ExecAll;
    var h := Shown(base, start, buf, |buf|);
    var a := Exec(h, Put(ch));
    ExecOne(h, Put(ch));
    ExecOne(a, Left);
    ExecOne(Exec(a, Left), DeleteHere);
    ExecConcat(h, [Put(ch)], [Left]);
    ExecConcat(h, [Put(ch)] + [Left], [DeleteHere]);
    assert [Put(ch)] + [Left] + [DeleteHere] == [Put(ch), Left, DeleteHere];
    var row := LineRow(base.rows[base.y], start, buf);
    var full: TextRow := row[start + |buf| := ch];
    assert a.rows[a.y] == full && a.x == base.width - 1;
    if base.width > 1 {
      var k := base.width - 2;
      var cut: TextRow := full[..k] + full[k + 1..] + [SPACE];
      assert cut[k] == ch && cut[k + 1] == SPACE;
      assert cut == row[k := ch];
    } else {
      var cut: TextRow := full[..0] + full[1..] + [SPACE];
      assert cut == row;
    }
  }

  // ---- The editor ----

  /** Where corehost believes the terminal's cursor is, and the columns the line takes. */
  class TerminalCursor {
    var x: int
    var y: int
    var valid: bool
    var columnStart: int
    var columnEnd: int

    constructor (row: int, col: int)
      ensures x == columnStart == columnEnd == col && y == row && valid
    {
      x, y, valid, columnStart, columnEnd := col, row, true, col, col;
    }

    method Advance()
      modifies this`x, this`columnEnd
      ensures x == (if valid then Short(old(x) + 1) else old(x))
      ensures columnEnd == if valid && x > old(columnEnd) then x else old(columnEnd)
    {
      if !valid { return; }
      x := Short(x + 1);
      if x > columnEnd { columnEnd := x; }
    }

    /** Not left of the prompt's end. */
    method Retreat()
      modifies this`x
      ensures x == if valid && old(x) > columnStart then old(x) - 1 else old(x)
    {
      if !valid { return; }
      if x > columnStart { x := x - 1; }
    }

    function ColumnForOffset(offset: nat): int
      reads this
    {
      Short(columnStart + offset)
    }

    method SetX(col: int)
      modifies this`x
      ensures x == if valid then col else old(x)
    {
      if valid { x := col; }
    }

    method ExtendBounds()
      modifies this`columnEnd
      ensures columnEnd == Short(old(columnEnd) + 1)
    {
      columnEnd := Short(columnEnd + 1);
    }

    method RetractBounds()
      modifies this`columnEnd
      ensures columnEnd == if old(columnEnd) > columnStart then old(columnEnd) - 1 else old(columnEnd)
    {
      if columnEnd > columnStart { columnEnd := columnEnd - 1; }
    }

    method SetBoundsEndForLength(length: nat)
      modifies this`columnEnd
      ensures columnEnd == Short(columnStart + length)
    {
      columnEnd := Short(columnStart + length);
    }
  }

  class LineEditor {
    const terminal: TerminalCursor
    const history: CommandHistory
    var cookedBuf: Line
    var cookedCursor: nat
    /** The VT sent so far. */
    var sent: seq<Op>
    /** The terminal when the line began. */
    ghost const base: Host
    ghost const start: nat

    ghost function State(): Input
      reads this, history
    {
      Input(cookedBuf, cookedCursor, history.State())
    }

    /** The tracked cursor is where the line's insertion point is. */
    ghost predicate Tracks()
      reads this, terminal, history
    {
      && InputOk(State())
      && terminal.valid && terminal.columnStart == start
      && terminal.y == base.y && terminal.x == start + cookedCursor && terminal.columnEnd == start + |cookedBuf|
    }

    /** The terminal shows the line, its cursor where the editor believes it, and nothing else has changed. */
    ghost predicate Coherent()
      reads this, terminal, history
    {
      Tracks() && InputPrintable(State()) && Shows(base, sent, start, cookedBuf, cookedCursor)
    }

    /** A line begins: bounds just reset to the cursor, nothing typed. */
    constructor (h: CommandHistory, t: TerminalCursor, ghost screen: Host)
      requires HostOk(screen) && !screen.wrap && HistoryOk(h.State()) && InputPrintable(Input([], 0, h.State()))
      requires screen.rows[screen.y][screen.x..] == Blanks(screen.width - screen.x)
      requires t.valid && t.x == t.columnStart == t.columnEnd == screen.x && t.y == screen.y
      ensures Coherent() && State() == Input([], 0, h.State()) && history == h && terminal == t
      ensures base == screen && start == screen.x && sent == []
    {
      history, terminal, cookedBuf, cookedCursor, sent := h, t, [], 0, [];
      base, start := screen, screen.x;
      assert LineRow(screen.rows[screen.y], screen.x, []) == screen.rows[screen.y];
    }

    method Emit(op: Op)
      modifies this`sent
      ensures sent == old(sent) + [op]
    {
      sent := sent + [op];
    }

    method EmitAll(text: Line)
      modifies this`sent
      ensures sent == old(sent) + Puts(text)
    {
      var i := 0;
      while i < |text|
        invariant 0 <= i <= |text| && sent == old(sent) + Puts(text[..i])
      {
        assert Puts(text[..i + 1]) == Puts(text[..i]) + [Put(text[i])];
        Emit(Put(text[i]));
        i := i + 1;
      }
      assert text[..i] == text;
    }

    method CupTo(row: int, col: int)
      requires 0 <= row && 0 <= col
      modifies this`sent
      ensures sent == old(sent) + [MoveTo(row, col)]
    {
      Emit(MoveTo(row, col));
    }

    /** What is behind the insertion point, written again. */
    method RepaintSuffix()
      requires cookedCursor <= |cookedBuf|
      modifies this`sent
      ensures sent == old(sent) + Puts(cookedBuf[cookedCursor..])
    {
      EmitAll(cookedBuf[cookedCursor..]);
    }

    // ---- The buffer ----

    method CookedAppend(ch: Char32)
      requires cookedCursor <= |cookedBuf|
      modifies this`cookedBuf, this`cookedCursor
      ensures cookedBuf == old(cookedBuf)[..old(cookedCursor)] + [ch] + old(cookedBuf)[old(cookedCursor)..]
      ensures cookedCursor == old(cookedCursor) + 1
    {
      cookedBuf := cookedBuf[..cookedCursor] + [ch] + cookedBuf[cookedCursor..];
      cookedCursor := cookedCursor + 1;
    }

    method CookedPopBefore()
      requires cookedCursor <= |cookedBuf|
      modifies this`cookedBuf, this`cookedCursor
      ensures old(cookedCursor) == 0 ==> cookedBuf == old(cookedBuf) && cookedCursor == 0
      ensures old(cookedCursor) > 0 ==>
                cookedCursor == old(cookedCursor) - 1 &&
                cookedBuf == old(cookedBuf)[..cookedCursor] + old(cookedBuf)[old(cookedCursor)..]
    {
      if cookedCursor == 0 { return; }
      cookedCursor := cookedCursor - 1;
      cookedBuf := cookedBuf[..cookedCursor] + cookedBuf[cookedCursor + 1..];
    }

    method CookedPopAt()
      requires cookedCursor <= |cookedBuf|
      modifies this`cookedBuf
      ensures cookedBuf == if cookedCursor == |old(cookedBuf)| then old(cookedBuf)
                           else old(cookedBuf)[..cookedCursor] + old(cookedBuf)[cookedCursor + 1..]
    {
      if cookedCursor >= |cookedBuf| { return; }
      cookedBuf := cookedBuf[..cookedCursor] + cookedBuf[cookedCursor + 1..];
    }

    // ---- The edits ----

    /** The buffer and the bounds take the character; the terminal does not know yet. */
    method TypeInto(ch: Char32)
      requires Coherent() && !IsControl(ch) && start + |cookedBuf| < base.width && start + cookedCursor + 1 < base.width
      modifies this`cookedBuf, this`cookedCursor, terminal`columnEnd, history`browseIndex, history`savedInput
      ensures State() == Edited(old(State()), Insert(ch)) && terminal.columnEnd == start + |cookedBuf|
      ensures cookedCursor == old(cookedCursor) + 1 && |cookedBuf| == old(|cookedBuf|) + 1 && InputOk(State())
      ensures OpsAfterTyping(base, sent, start, cookedBuf, cookedCursor, ch)
    {
      hide Shows, InputPrintable, Puts;
      ghost var was, at := cookedBuf, cookedCursor;
      EditedPrintable(State(), Insert(ch));
      PrintableBuf(Edited(State(), Insert(ch)));
      ShowsFits(base, sent, start, cookedBuf, cookedCursor);
      history.BreakBrowse();
      CookedAppend(ch);
      terminal.ExtendBounds();
      TypingShows(base, sent, start, was, at, cookedBuf, ch);
    }

    /** Inside the line: the echo, what is behind it written again, and CUP back behind the echo. */
    method EchoInside(ch: Char32, codepoint: bool)
      requires terminal.valid && 0 <= terminal.x && 0 <= terminal.y && cookedCursor <= |cookedBuf|
      requires terminal.x < terminal.columnEnd <= 0x7FFF
      modifies this`sent, terminal`x, terminal`columnEnd
      ensures sent == old(sent) + [Put(ch)] + Puts(cookedBuf[cookedCursor..]) + [MoveTo(terminal.y, old(terminal.x) + 1)]
      ensures terminal.x == old(terminal.x) + 1 && terminal.columnEnd == old(terminal.columnEnd)
    {
      hide Puts;
      var x, y := terminal.x, terminal.y;
      Emit(Put(ch));
      if codepoint { terminal.Advance(); }
      RepaintSuffix();
      CupTo(y, x + 1);
      terminal.SetX(x + 1);
    }

    /** An inserted code point is echoed; inside the line, what is behind it is written again. */
    method InsertCodepoint(ch: Char32)
      requires Coherent() && !IsControl(ch) && start + |cookedBuf| < base.width && start + cookedCursor + 1 < base.width
      modifies this`cookedBuf, this`cookedCursor, this`sent, terminal, history`browseIndex, history`savedInput
      ensures Coherent() && State() == Edited(old(State()), Insert(ch))
    {
      hide Shows, InputPrintable, Puts, Edited, OpsAfterTyping;
      ShowsFits(base, sent, start, cookedBuf, cookedCursor);
      EditedPrintable(State(), Insert(ch));
      ghost var before := sent;
      TypeInto(ch);
      if !terminal.valid { return; }
      if cookedCursor >= |cookedBuf| {
        Emit(Put(ch));
        terminal.Advance();
        AfterTyping(base, before, start, cookedBuf, cookedCursor, ch);
      } else {
        EchoInside(ch, true);
        AfterTyping(base, before, start, cookedBuf, cookedCursor, ch);
      }
    }

    /** The same for a single byte, echoed as it came. */
    method InsertChar(ch: Char32)
      requires Coherent() && !IsControl(ch) && start + |cookedBuf| < base.width && start + cookedCursor + 1 < base.width
      modifies this`cookedBuf, this`cookedCursor, this`sent, terminal, history`browseIndex, history`savedInput
      ensures Coherent() && State() == Edited(old(State()), Insert(ch))
    {
      hide Shows, InputPrintable, Puts, Edited, OpsAfterTyping;
      ShowsFits(base, sent, start, cookedBuf, cookedCursor);
      EditedPrintable(State(), Insert(ch));
      ghost var before := sent;
      TypeInto(ch);
      if !terminal.valid { return; }
      if cookedCursor >= |cookedBuf| {
        Emit(Put(ch));
        terminal.Advance();
        AfterTyping(base, before, start, cookedBuf, cookedCursor, ch);
      } else {
        EchoInside(ch, false);
        AfterTyping(base, before, start, cookedBuf, cookedCursor, ch);
      }
    }

    /** CUB and DCH; inside the line, what is behind is written again. */
    method BackspaceKey()
      requires Coherent()
      modifies this`cookedBuf, this`cookedCursor, this`sent, terminal, history`browseIndex, history`savedInput
      ensures Coherent() && State() == Edited(old(State()), Backspace)
    {
      hide Shows, InputPrintable, Puts;
      EditedPrintable(State(), Backspace);
      ghost var was, at, before := cookedBuf, cookedCursor, sent;
      ShowsFits(base, sent, start, cookedBuf, cookedCursor);
      history.BreakBrowse();
      if cookedCursor == 0 { return; }
      ShowsBackspace(base, sent, start, cookedBuf, cookedCursor);
      CookedPopBefore();
      terminal.RetractBounds();
      if !terminal.valid { return; }
      Emit(Left);
      Emit(DeleteHere);
      assert sent == before + [Left, DeleteHere];
      terminal.Retreat();
      if cookedCursor < |cookedBuf| {
        var x, y := terminal.x, terminal.y;
        ShowsTail(base, sent, start, cookedBuf, cookedCursor, cookedBuf, cookedCursor);
        RepaintSuffix();
        CupTo(y, x);
      }
    }

    method DeleteKey()
      requires Coherent()
      modifies this`cookedBuf, this`sent, terminal`columnEnd, history`browseIndex, history`savedInput
      ensures Coherent() && State() == Edited(old(State()), Delete)
    {
      hide Shows, InputPrintable, Puts;
      EditedPrintable(State(), Delete);
      ShowsFits(base, sent, start, cookedBuf, cookedCursor);
      history.BreakBrowse();
      if cookedCursor >= |cookedBuf| { return; }
      ShowsDelete(base, sent, start, cookedBuf, cookedCursor);
      CookedPopAt();
      terminal.RetractBounds();
      Emit(DeleteHere);
    }

    /** CUP to the insertion point. */
    method ShowCursor(col: int)
      requires terminal.valid && terminal.y == base.y && start <= terminal.x && col == start + cookedCursor
      requires Shows(base, sent, start, cookedBuf, terminal.x - start) && RowHolds(base, start, cookedBuf, cookedCursor)
      modifies this`sent, terminal`x
      ensures Shows(base, sent, start, cookedBuf, cookedCursor) && terminal.x == start + cookedCursor
    {
      hide Shows;
      ShowsMove(base, sent, start, cookedBuf, terminal.x - start, cookedCursor);
      CupTo(terminal.y, col);
      terminal.SetX(col);
    }

    method MoveLeftKey()
      requires Coherent()
      modifies this`cookedCursor, this`sent, terminal`x
      ensures Coherent() && State() == Edited(old(State()), MoveLeft)
    {
      hide Shows, InputPrintable;
      EditedPrintable(State(), MoveLeft);
      ShowsFits(base, sent, start, cookedBuf, cookedCursor);
      if cookedCursor > 0 {
        cookedCursor := cookedCursor - 1;
        if terminal.valid { ShowCursor(terminal.ColumnForOffset(cookedCursor)); }
      }
    }

    method MoveRightKey()
      requires Coherent() && Allowed(State(), MoveRight, base.width - start)
      modifies this`cookedCursor, this`sent, terminal`x
      ensures Coherent() && State() == Edited(old(State()), MoveRight)
    {
      hide Shows, InputPrintable;
      EditedPrintable(State(), MoveRight);
      ShowsFits(base, sent, start, cookedBuf, cookedCursor);
      if cookedCursor < |cookedBuf| {
        cookedCursor := cookedCursor + 1;
        if terminal.valid { ShowCursor(terminal.ColumnForOffset(cookedCursor)); }
      }
    }

    method HomeKey()
      requires Coherent()
      modifies this`cookedCursor, this`sent, terminal`x
      ensures Coherent() && State() == Edited(old(State()), Home)
    {
      hide Shows, InputPrintable;
      EditedPrintable(State(), Home);
      ShowsFits(base, sent, start, cookedBuf, cookedCursor);
      cookedCursor := 0;
      if terminal.valid { ShowCursor(terminal.columnStart); }
    }

    method EndKey()
      requires Coherent() && Allowed(State(), ToEnd, base.width - start)
      modifies this`cookedCursor, this`sent, terminal`x
      ensures Coherent() && State() == Edited(old(State()), ToEnd)
    {
      hide Shows, InputPrintable;
      EditedPrintable(State(), ToEnd);
      ShowsFits(base, sent, start, cookedBuf, cookedCursor);
      cookedCursor := |cookedBuf|;
      if terminal.valid { ShowCursor(terminal.columnEnd); }
    }

    /** A line from the history replaces the line: CUP to the prompt's end, EL, the new line. */
    method LoadHistoryLine(ghost was: Line, ghost at: nat)
      requires Shows(base, sent, start, was, at) && RowHolds(base, start, cookedBuf, |cookedBuf|) && Printable(cookedBuf)
      requires terminal.valid && terminal.columnStart == start && terminal.y == base.y
      modifies this`cookedCursor, this`sent, terminal`x, terminal`columnEnd
      ensures Shows(base, sent, start, cookedBuf, cookedCursor) && cookedCursor == |cookedBuf|
      ensures terminal.x == terminal.columnEnd == start + |cookedBuf|
    {
      hide Shows, Puts;
      ShowsFits(base, sent, start, was, at);
      ShowsLine(base, sent, start, was, at, cookedBuf);
      cookedCursor := |cookedBuf|;
      terminal.SetBoundsEndForLength(|cookedBuf|);
      if !terminal.valid { return; }
      CupTo(terminal.y, terminal.columnStart);
      Emit(EraseRight);
      EmitAll(cookedBuf);
      terminal.SetX(terminal.columnEnd);
    }

    method HistoryUpKey()
      requires Coherent() && Allowed(State(), HistoryUp, base.width - start)
      modifies this`cookedBuf, this`cookedCursor, this`sent, terminal`x, terminal`columnEnd, history`browseIndex, history`savedInput
      ensures Coherent() && State() == Edited(old(State()), HistoryUp)
    {
      hide Shows, InputPrintable;
      EditedPrintable(State(), HistoryUp);
      EditedOk(State(), HistoryUp);
      ghost var was, at := cookedBuf, cookedCursor;
      var found, line := history.BrowseUp(cookedBuf);
      if !found { return; }
      cookedBuf := line;
      PrintableBuf(Edited(old(State()), HistoryUp));
      LoadHistoryLine(was, at);
    }

    method HistoryDownKey()
      requires Coherent() && Allowed(State(), HistoryDown, base.width - start)
      modifies this`cookedBuf, this`cookedCursor, this`sent, terminal`x, terminal`columnEnd, history`browseIndex, history`savedInput
      ensures Coherent() && State() == Edited(old(State()), HistoryDown)
    {
      hide Shows, InputPrintable;
      EditedPrintable(State(), HistoryDown);
      EditedOk(State(), HistoryDown);
      ghost var was, at := cookedBuf, cookedCursor;
      var found, line := history.BrowseDown(cookedBuf);
      if !found { return; }
      cookedBuf := line;
      PrintableBuf(Edited(old(State()), HistoryDown));
      LoadHistoryLine(was, at);
    }

    /** One editing key. */
    method Perform(e: Edit)
      requires Coherent() && Allowed(State(), e, base.width - start)
      modifies this`cookedBuf, this`cookedCursor, this`sent, terminal, history`browseIndex, history`savedInput
      ensures Coherent() && State() == Edited(old(State()), e)
    {
      match e
      case Insert(ch) => InsertCodepoint(ch);
      case Backspace => BackspaceKey();
      case Delete => DeleteKey();
      case MoveLeft => MoveLeftKey();
      case MoveRight => MoveRightKey();
      case Home => HomeKey();
      case ToEnd => EndKey();
      case HistoryUp => HistoryUpKey();
      case HistoryDown => HistoryDownKey();
    }

    /**
      Any sequence of editing keys on printable text that always leaves columns for the line and for its insertion
      point: the line is what the keys mean, and a terminal that executes the VT sent shows it, its cursor at the
      insertion point, and has changed nowhere else.
     */
    method PerformAll(keys: seq<Edit>)
      requires Coherent() && AllAllowed(State(), keys, base.width - start)
      modifies this`cookedBuf, this`cookedCursor, this`sent, terminal, history`browseIndex, history`savedInput
      ensures Coherent() && State() == EditedAll(old(State()), keys)
      ensures ExecMsgs(base, Msgs(Steps(FRESH, OpsText(sent)).1)) == Shown(base, start, cookedBuf, cookedCursor)
    {
      hide Shows, InputPrintable, Edited, Steps, ExecMsgs, Shown;
      ghost var before := State();
      var i := 0;
      assert keys[..0] == [];
      while i < |keys|
        invariant 0 <= i <= |keys| && Coherent() && State() == EditedAll(before, keys[..i])
        invariant AllAllowed(before, keys, base.width - start)
      {
        assert keys[..i + 1][..i] == keys[..i];
        Perform(keys[i]);
        i := i + 1;
      }
      assert keys[..i] == keys;
      ShownThroughVt(base, sent, start, cookedBuf, cookedCursor);
    }
  }
}
