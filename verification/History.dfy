/** Command history: bounded, browsed with Up and Down, giving back the input it started from. */
module Histories {
  import opened Cells

  type Line = seq<Char32>

  const NONE := -1

  datatype History = History(commands: seq<Line>, capacity: nat, index: int, saved: Line)

  predicate HistoryOk(h: History) {
    && |h.commands| <= h.capacity
    && (h.index == NONE || 0 <= h.index < |h.commands|)
    && (h.index == NONE ==> h.saved == [])
  }

  function NotBrowsing(h: History): History { h.(index := NONE, saved := []) }

  /** The newest `capacity` commands. The index stays as it is: browsing ends where it is beyond what is kept. */
  function Trimmed(h: History): (r: History)
    ensures |r.commands| <= h.capacity
  {
    var cut := if |h.commands| > h.capacity then h.(commands := h.commands[|h.commands| - h.capacity..]) else h;
    if cut.index != NONE && cut.index >= |cut.commands| then NotBrowsing(cut) else cut
  }

  /** An empty command, or the last one again, is not kept. */
  function Pushed(h: History, command: Line): History {
    if command == [] || (h.commands != [] && h.commands[|h.commands| - 1] == command) then h
    else Trimmed(h.(commands := h.commands + [command]))
  }

  /** Up: the command before, and the line that is replaced by it the first time. */
  function Up(h: History, line: Line): (History, Line)
    requires HistoryOk(h)
  {
    if h.commands == [] then (h, line)
    else
      var g := if h.index == NONE then h.(index := |h.commands| - 1, saved := line)
               else if h.index > 0 then h.(index := h.index - 1) else h;
      (g, g.commands[g.index])
  }

  /** Down: the command after, or, behind the newest, the line browsing started from. */
  function Down(h: History, line: Line): (History, Line)
    requires HistoryOk(h)
  {
    if h.index == NONE then (h, line)
    else if h.index + 1 < |h.commands| then (h.(index := h.index + 1), h.commands[h.index + 1])
    else (NotBrowsing(h), h.saved)
  }

  lemma PushedOk(h: History, command: Line)
    requires HistoryOk(h)
    ensures HistoryOk(Pushed(h, command))
    ensures command != [] && h.capacity > 0 ==>
              Pushed(h, command).commands != [] && Pushed(h, command).commands[|Pushed(h, command).commands| - 1] == command
  {}

  /** A command is kept behind the ones before it, as many of the newest as there is room for; an empty or repeated one is not. */
  lemma PushedKeeps(h: History, command: Line, k: nat)
    requires HistoryOk(h)
    ensures var g := Pushed(h, command);
            var n := |h.commands|;
            if command == [] || (n > 0 && h.commands[n - 1] == command) then g == h
            else
              && g.capacity == h.capacity && |g.commands| == (if n < h.capacity then n + 1 else h.capacity)
              && (k + 1 < |g.commands| ==> k < n && g.commands[|g.commands| - 2 - k] == h.commands[n - 1 - k])
  {}

  /** A smaller capacity keeps the newest commands. */
  lemma TrimmedKeeps(h: History, capacity: nat, k: nat)
    requires HistoryOk(h)
    ensures var g := Trimmed(h.(capacity := capacity));
            var n := |h.commands|;
            && HistoryOk(g) && g.capacity == capacity && |g.commands| == (if n < capacity then n else capacity)
            && (k < |g.commands| ==> g.commands[|g.commands| - 1 - k] == h.commands[n - 1 - k])
  {}

  lemma UpOk(h: History, line: Line)
    requires HistoryOk(h)
    ensures HistoryOk(Up(h, line).0) && HistoryOk(Down(h, line).0)
  {}

  function Ups(h: History, line: Line, k: nat): (r: (History, Line))
    requires HistoryOk(h)
    ensures HistoryOk(r.0)
  {
    if k == 0 then (h, line)
    else
      var (g, l) := Ups(h, line, k - 1);
      UpOk(g, l);
      Up(g, l)
  }

  function Downs(h: History, line: Line, k: nat): (r: (History, Line))
    requires HistoryOk(h)
    ensures HistoryOk(r.0)
    decreases k
  {
    if k == 0 then (h, line)
    else
      UpOk(h, line);
      Downs(Down(h, line).0, Down(h, line).1, k - 1)
  }

  /** After `k` steps up: the k-th newest command, or the oldest. */
  lemma {:induction false} UpsReach(h: History, line: Line, k: nat)
    requires HistoryOk(h) && h.index == NONE && h.commands != [] && k > 0
    ensures var i := if k <= |h.commands| then |h.commands| - k else 0;
            Ups(h, line, k) == (h.(index := i, saved := line), h.commands[i])
  {
    if k > 1 { UpsReach(h, line, k - 1); }
  }

  /** From command `i` it is that many steps down to the line browsing started from. */
  lemma {:induction false} DownsReach(h: History, line: Line)
    requires HistoryOk(h) && h.index != NONE
    ensures Downs(h, line, |h.commands| - h.index) == (NotBrowsing(h), h.saved)
    decreases |h.commands| - h.index
  {
    var (g, l) := Down(h, line);
    if h.index + 1 < |h.commands| {
      DownsReach(g, l);
    } else {
      assert Downs(g, l, 0) == (g, l);
    }
  }

  /** Any number of Ups is undone, line and history, by as many Downs as there were commands to go up. */
  lemma UpsThenDowns(h: History, line: Line, k: nat)
    requires HistoryOk(h) && h.index == NONE && h.commands != [] && k > 0
    ensures var steps := if k <= |h.commands| then k else |h.commands|;
            Downs(Ups(h, line, k).0, Ups(h, line, k).1, steps) == (h, line)
  {
    UpsReach(h, line, k);
    DownsReach(Ups(h, line, k).0, Ups(h, line, k).1);
  }

  class CommandHistory {
    var commands: seq<Line>
    var capacity: nat
    var browseIndex: int
    var savedInput: Line

    ghost function State(): History
      reads this
    {
      History(commands, capacity, browseIndex, savedInput)
    }

    constructor ()
      ensures State() == History([], 50, NONE, [])
    {
      commands, capacity, browseIndex, savedInput := [], 50, NONE, [];
    }

    method ResetBrowse()
      modifies this`browseIndex, this`savedInput
      ensures State() == NotBrowsing(old(State()))
    {
      browseIndex, savedInput := NONE, [];
    }

    /** An edit of the line ends browsing. */
    method BreakBrowse()
      requires HistoryOk(State())
      modifies this`browseIndex, this`savedInput
      ensures State() == NotBrowsing(old(State()))
    {
      if browseIndex != NONE { ResetBrowse(); }
    }

    method TrimToCapacity()
      modifies this`commands, this`browseIndex, this`savedInput
      ensures State() == Trimmed(old(State()))
    {
      if |commands| > capacity { commands := commands[|commands| - capacity..]; }
      if browseIndex != NONE && browseIndex >= |commands| { ResetBrowse(); }
    }

    method SetCapacity(max: nat)
      modifies this
      ensures State() == Trimmed(old(State()).(capacity := max))
    {
      capacity := max;
      TrimToCapacity();
    }

    method Push(command: Line)
      modifies this`commands, this`browseIndex, this`savedInput
      ensures State() == Pushed(old(State()), command)
    {
      if command == [] { return; }
      if commands != [] && commands[|commands| - 1] == command { return; }
      commands := commands + [command];
      TrimToCapacity();
    }

    /** The caller's line is both the input to remember and the one to replace. */
    method BrowseUp(line: Line) returns (found: bool, selected: Line)
      requires HistoryOk(State())
      modifies this`browseIndex, this`savedInput
      ensures (State(), selected) == Up(old(State()), line) && (found <==> commands != [])
    {
      if commands == [] { return false, line; }
      if browseIndex == NONE {
        savedInput := line;
        browseIndex := |commands| - 1;
      } else if browseIndex > 0 {
        browseIndex := browseIndex - 1;
      }
      return true, commands[browseIndex];
    }

    method BrowseDown(line: Line) returns (found: bool, selected: Line)
      requires HistoryOk(State())
      modifies this`browseIndex, this`savedInput
      ensures (State(), selected) == Down(old(State()), line) && (found <==> old(browseIndex) != NONE)
    {
      if browseIndex == NONE { return false, line; }
      if browseIndex + 1 < |commands| {
        browseIndex := browseIndex + 1;
        return true, commands[browseIndex];
      }
      selected := savedInput;
      ResetBrowse();
      found := true;
    }
  }
}
