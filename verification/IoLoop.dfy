/**
  The request loop: four message buffers, a completion that rides on the next READ_IO, one request held by
  the bridge until terminal input arrives, and one read deferred behind it.
 */
module IoLoops {
  import opened Options

  /** What has become of a message that was read. */
  datatype Status =
    | Dispatching   // handed to the router, or just answered
    | Awaiting      // answered; its completion goes with the next READ_IO
    | Held          // kept by the bridge until terminal input arrives
    | Deferred      // a second waiting read, not yet dispatched
    | Completed
    | Dropped       // its process left while it was held

  predicate Settled(s: Status) { s == Completed || s == Dropped }

  /** ConDrv and the bridge, as far as messages are concerned. Message ids count the messages read. */
  class Server {
    var ledger: seq<Status>
    var completions: seq<nat>
    var held: Option<nat>
    /** How often terminal input has been served. */
    var served: nat

    /** Every completion is of a completed message, none is sent twice, and the bridge holds what it holds. */
    ghost predicate Valid()
      reads this
    {
      && (forall i, j :: 0 <= i < j < |completions| ==> completions[i] != completions[j])
      && (forall i :: 0 <= i < |completions| ==> completions[i] < |ledger|)
      && (forall m :: 0 <= m < |ledger| ==> (ledger[m] == Completed <==> m in completions))
      && (forall m :: 0 <= m < |ledger| ==> (ledger[m] == Held <==> held == Some(m)))
      && (held.Some? ==> held.value < |ledger|)
    }

    constructor ()
      ensures Valid() && ledger == [] && completions == [] && held == None
    {
      ledger, completions, held, served := [], [], None, 0;
    }

    /** A completion reaches ConDrv: the message must still be open. */
    method Complete(m: nat)
      requires Valid() && m < |ledger| && !Settled(ledger[m]) && ledger[m] != Held
      modifies this`ledger, this`completions
      ensures Valid() && ledger == old(ledger)[m := Completed] && completions == old(completions) + [m]
    {
      ledger, completions := ledger[m := Completed], completions + [m];
    }

    /** The bridge finishes, or drops, the request it holds. */
    method Release(drop: bool)
      requires Valid() && held.Some?
      modifies this`ledger, this`completions, this`held
      ensures Valid() && held == None
      ensures ledger == old(ledger)[old(held).value := if drop then Dropped else Completed]
      ensures completions == if drop then old(completions) else old(completions) + [old(held).value]
    {
      var m := held.value;
      held := None;
      if drop {
        ledger := ledger[m := Dropped];
      } else {
        ledger, completions := ledger[m := Completed], completions + [m];
      }
    }

    /** Terminal input is served; it may complete the request the bridge holds. */
    method OnIdle()
      requires Valid()
      modifies this
      ensures Valid() && |ledger| == |old(ledger)| && (held == old(held) || held == None)
      ensures forall m :: 0 <= m < |ledger| && old(held) != Some(m) ==> ledger[m] == old(ledger)[m]
      ensures old(held).Some? && held == None ==> Settled(ledger[old(held).value])
      ensures served > old(served)
    {
      if held.Some? {
        if * { Release(false); }
      }
      served := served + 1;
    }

    /** Terminal input is served until the bridge holds nothing. */
    method WaitWhilePending()
      requires Valid()
      modifies this
      ensures Valid() && held == None && |ledger| == |old(ledger)|
      ensures forall m :: 0 <= m < |ledger| && old(held) != Some(m) ==> ledger[m] == old(ledger)[m]
      ensures old(held).Some? ==> Settled(ledger[old(held).value])
      ensures served >= old(served)
    {
      if held.Some? {
        Release(false);
        served := served + 1;
      }
    }

    /**
      The bridge contract: `false` only for a request that may wait and is now held. A request that does not
      wait may finish the held one (input written by a client) or drop it (its process disconnects).
     */
    method OnMessage(m: nat, mayWait: bool) returns (done: bool)
      requires Valid() && m < |ledger| && ledger[m] == Dispatching && (mayWait ==> held == None)
      modifies this`ledger, this`completions, this`held
      ensures Valid() && |ledger| == |old(ledger)|
      ensures !done ==> mayWait && ledger == old(ledger)[m := Held] && held == Some(m)
      ensures done ==> ledger[m] == Dispatching && (held == old(held) || held == None)
      ensures done ==> forall k :: 0 <= k < |ledger| && old(held) != Some(k) ==> ledger[k] == old(ledger)[k]
      ensures done && old(held).Some? && held == None ==> Settled(ledger[old(held).value])
    {
      done := true;
      if mayWait {
        if * {
          ledger, held := ledger[m := Held], Some(m);
          done := false;
        }
      } else if held.Some? {
        if * {
          Release(false);
        } else if * {
          Release(true);
        }
      }
    }

    /** A new message is read. */
    method Read() returns (m: nat)
      requires Valid()
      modifies this`ledger
      ensures Valid() && m == |old(ledger)| && ledger == old(ledger) + [Dispatching]
    {
      m := |ledger|;
      ledger := ledger + [Dispatching];
    }

    method Mark(m: nat, s: Status)
      requires Valid() && m < |ledger| && (ledger[m] == Dispatching || ledger[m] == Deferred)
      requires s == Awaiting || s == Deferred || s == Dispatching
      modifies this`ledger
      ensures Valid() && ledger == old(ledger)[m := s]
    {
      ledger := ledger[m := s];
    }
  }

  /** An answered message is only completed, a held one only finished or dropped, a settled one stays what it is. */
  predicate MovesOn(s: Status, t: Status) {
    match s
    case Awaiting => t == Awaiting || t == Completed
    case Held => t == Held || Settled(t)
    case Completed => t == Completed
    case Dropped => t == Dropped
    case _ => true
  }

  /** Dispatched: answered, held or settled. */
  predicate Past(s: Status) { s == Awaiting || s == Held || Settled(s) }

  /** Every message moves on, and none is forgotten. */
  ghost predicate Keeps(a: seq<Status>, b: seq<Status>) {
    && |a| <= |b|
    && forall m :: 0 <= m < |a| ==> MovesOn(a[m], b[m])
  }

  lemma KeepsOneMore(a: seq<Status>)
    ensures Keeps(a, a + [Dispatching])
  {}

  lemma KeepsOneOn(a: seq<Status>, m: nat, s: Status)
    requires m < |a| && MovesOn(a[m], s)
    ensures Keeps(a, a[m := s])
  {}

  lemma KeepsAllPast(a: seq<Status>, b: seq<Status>)
    requires Keeps(a, b)
    ensures |a| <= |b| && forall m :: 0 <= m < |a| && Past(a[m]) ==> Past(b[m]) && (Settled(a[m]) ==> b[m] == a[m])
  {}

  lemma KeepsThrough(a: seq<Status>, b: seq<Status>, c: seq<Status>)
    requires Keeps(a, b) && Keeps(b, c)
    ensures Keeps(a, c)
  {}

  datatype ReadResult = Disconnected | NoMessage | EmptyDescriptor | Message

  class IoLoop {
    const server: Server
    /** The message in each of the four buffers. */
    var buffers: seq<nat>
    var cur: nat
    var prevDone: Option<nat>
    var pendingMsg: Option<nat>
    var deferredMsg: Option<nat>

    /** The buffer belongs to a completion not yet submitted, to the held request or to the deferred one. */
    predicate Live(b: nat)
      reads this
    {
      prevDone == Some(b) || pendingMsg == Some(b) || deferredMsg == Some(b)
    }

    predicate SlotOk(slot: Option<nat>) { slot.Some? ==> slot.value < 4 }

    /** Four buffers, no two uses of the same one. */
    ghost predicate SlotsOk()
      reads this
    {
      && |buffers| == 4 && SlotOk(prevDone) && SlotOk(pendingMsg) && SlotOk(deferredMsg)
      && (prevDone.Some? ==> prevDone != pendingMsg && prevDone != deferredMsg)
      && (pendingMsg.Some? ==> pendingMsg != deferredMsg)
    }

    /** The slot holds the one message with that status, if there is one. */
    ghost predicate Holds(slot: Option<nat>, s: Status)
      requires |buffers| == 4 && SlotOk(slot)
      reads this, server
    {
      && (slot.Some? ==> buffers[slot.value] < |server.ledger|)
      && forall m :: 0 <= m < |server.ledger| ==>
           (server.ledger[m] == s <==> slot.Some? && buffers[slot.value] == m)
    }

    /** Every message is settled or in exactly the one place its status says; `busy` are being dispatched. */
    ghost predicate Inv(busy: set<nat>)
      reads this, server
    {
      && server.Valid() && SlotsOk()
      && Holds(prevDone, Awaiting) && Holds(deferredMsg, Deferred)
      && (server.held.Some? ==> pendingMsg.Some? && buffers[pendingMsg.value] == server.held.value)
      && (forall m :: 0 <= m < |server.ledger| && server.ledger[m] == Dispatching ==> m in busy)
      && (forall m :: m in busy ==> m < |server.ledger| && server.ledger[m] == Dispatching)
    }

    /** Between turns: the buffer for the next READ_IO is free. */
    ghost predicate Valid()
      reads this, server
    {
      Inv({}) && cur < 4 && !Live(cur)
    }

    /** The deferred message. */
    ghost function DeferredId(): Option<nat>
      reads this`buffers, this`deferredMsg
    {
      if deferredMsg.Some? && deferredMsg.value < |buffers| then Some(buffers[deferredMsg.value]) else None
    }

    /** The held request is older than the deferred one. */
    ghost predicate InOrder()
      reads this`buffers, this`deferredMsg, server`held
    {
      DeferredId().Some? && server.held.Some? ==> server.held.value < DeferredId().value
    }

    /** It has been dispatched. */
    ghost predicate Gone(d: Option<nat>)
      reads this, server
    {
      d.Some? ==> d.value < |server.ledger| && Past(server.ledger[d.value])
    }

    /** It has been finished or dropped. */
    ghost predicate Finished(h: Option<nat>)
      reads server
    {
      h.Some? && h.value < |server.ledger| && Settled(server.ledger[h.value])
    }

    /** `cur` holds the message being dispatched, and nothing else is. */
    ghost predicate Busy()
      reads this, server
    {
      && |buffers| == 4 && cur < 4 && !Live(cur) && prevDone == None
      && buffers[cur] < |server.ledger| && Inv({buffers[cur]})
    }

    /** Settled, or in exactly one place: awaiting submission, deferred, or held by the bridge. */
    ghost predicate Placed(m: nat)
      requires Valid() && m < |server.ledger|
      reads this, server
    {
      var awaiting := prevDone.Some? && buffers[prevDone.value] == m;
      var deferred := deferredMsg.Some? && buffers[deferredMsg.value] == m;
      var held := server.held == Some(m);
      && (Settled(server.ledger[m]) <==> !awaiting && !deferred && !held)
      && !(awaiting && deferred) && !(awaiting && held) && !(deferred && held)
    }

    /** Between turns every message is settled or in exactly one place; what is completed was completed once. */
    lemma InOnePlace(m: nat)
      requires Valid() && m < |server.ledger|
      ensures Placed(m)
      ensures server.ledger[m] == Completed <==> m in server.completions
      ensures forall i, j :: 0 <= i < j < |server.completions| ==> server.completions[i] != server.completions[j]
    {
    }

    constructor (s: Server)
      requires s.Valid() && s.ledger == [] && s.held == None
      ensures Valid() && server == s
    {
      server, buffers, cur := s, [0, 0, 0, 0], 0;
      prevDone, pendingMsg, deferredMsg := None, None, None;
    }

    /** Four buffers and three uses: one is always free, and the last one needs no test. */
    method NextFree() returns (b: nat)
      requires SlotOk(prevDone) && SlotOk(pendingMsg) && SlotOk(deferredMsg)
      ensures b < 4 && !Live(b)
    {
      b := 0;
      while b != 3 && Live(b)
        invariant b < 4 && forall k :: 0 <= k < b ==> Live(k)
      {
        b := b + 1;
      }
      assert b == 3 ==> Live(0) && Live(1) && Live(2);
    }

    method ClearStalePending(ghost busy: set<nat>)
      requires Inv(busy)
      modifies this`pendingMsg
      ensures Inv(busy) && (server.held == None ==> pendingMsg == None)
      ensures pendingMsg == None || pendingMsg == old(pendingMsg)
    {
      if pendingMsg.Some? && server.held == None { pendingMsg := None; }
    }

    method Idle()
      requires Valid()
      modifies server
      ensures Valid() && Keeps(old(server.ledger), server.ledger) && server.served > old(server.served)
      ensures server.held == old(server.held) || server.held == None
      ensures old(server.held).Some? && server.held == None ==> Finished(old(server.held))
    {
      server.OnIdle();
    }

    /** The deferred message leaves its slot for dispatch. */
    method TakeDeferred(ghost busy: set<nat>) returns (b: nat)
      requires Inv(busy) && deferredMsg.Some?
      modifies server`ledger, this`deferredMsg
      ensures b < 4 && |buffers| == 4 && Some(b) == old(deferredMsg) && !Live(b) && deferredMsg == None
      ensures buffers[b] < |server.ledger| && buffers[b] !in busy && Inv(busy + {buffers[b]})
      ensures Keeps(old(server.ledger), server.ledger)
    {
      b := deferredMsg.value;
      server.Mark(buffers[b], Dispatching);
      deferredMsg := None;
    }

    /** A request goes to the bridge; if it has to wait, its buffer becomes the pending one. */
    method Dispatch(b: nat, mayWait: bool, ghost busy: set<nat>) returns (done: bool)
      requires b < 4 && !Live(b) && Inv(busy) && buffers[b] in busy && buffers[b] < |server.ledger|
      requires mayWait ==> server.held == None && pendingMsg == None
      modifies server`ledger, server`completions, server`held, this`pendingMsg
      ensures buffers[b] < |server.ledger| && Keeps(old(server.ledger), server.ledger)
      ensures done ==> Inv(busy) && pendingMsg == old(pendingMsg)
      ensures !done ==> Inv(busy - {buffers[b]}) && mayWait && pendingMsg == Some(b) && server.held.Some?
      ensures !done ==> server.ledger[buffers[b]] == Held
      ensures done ==> server.held == old(server.held) || server.held == None
    {
      done := server.OnMessage(buffers[b], mayWait);
      if !done { pendingMsg := Some(b); }
    }

    /** Its completion goes out on its own. */
    method CompleteNow(b: nat, ghost busy: set<nat>)
      requires Inv(busy) && b < 4 && buffers[b] in busy && buffers[b] < |server.ledger|
      modifies server`ledger, server`completions
      ensures Inv(busy - {buffers[b]}) && Keeps(old(server.ledger), server.ledger)
      ensures buffers[b] < |server.ledger| && server.ledger[buffers[b]] == Completed
    {
      server.Complete(buffers[b]);
    }

    /** The deferred read goes to the bridge, which holds nothing now. */
    method DispatchDeferred(ghost busy: set<nat>)
      requires Inv(busy) && server.held == None && pendingMsg == None && deferredMsg.Some?
      modifies server`ledger, server`completions, server`held, this`deferredMsg, this`pendingMsg
      ensures Inv(busy) && deferredMsg == None && Keeps(old(server.ledger), server.ledger)
      ensures Gone(old(DeferredId()))
      ensures pendingMsg == None || (pendingMsg == old(deferredMsg) && server.held.Some?)
    {
      hide Inv;
      var b := TakeDeferred(busy);
      ghost var m := buffers[b];
      assert busy + {m} - {m} == busy;
      var done := Dispatch(b, true, busy + {m});
      if done { CompleteNow(b, busy + {m}); }
    }

    /** READ_IO submits the completion that waits. */
    method SubmitPrevious()
      requires Valid()
      modifies server`ledger, server`completions, this`prevDone
      ensures Valid() && prevDone == None && Keeps(old(server.ledger), server.ledger)
    {
      if prevDone.Some? { server.Complete(buffers[prevDone.value]); }
      prevDone := None;
    }

    /** READ_IO fills a buffer that nothing else uses. */
    method Fill(b: nat)
      requires Inv({}) && b < 4 && !Live(b)
      modifies server`ledger, this`buffers
      ensures |buffers| == 4 && Inv({buffers[b]}) && buffers[b] == |old(server.ledger)| < |server.ledger|
      ensures forall k :: 0 <= k < 4 && k != b ==> buffers[k] == old(buffers)[k]
      ensures Keeps(old(server.ledger), server.ledger)
    {
      hide Keeps;
      KeepsOneMore(server.ledger);
      var m := server.Read();
      buffers := buffers[b := m];
    }

    /** READ_IO: no buffer that is in use when it is called is filled, the completion it submits included. */
    method ReadIo() returns (r: ReadResult)
      requires Valid()
      modifies server`ledger, server`completions, this`buffers, this`prevDone
      ensures Keeps(old(server.ledger), server.ledger)
      ensures r != Message ==> buffers == old(buffers)
      ensures r == Message ==>
        |buffers| == 4 && forall b :: 0 <= b < 4 && old(Live(b)) ==> buffers[b] == old(buffers)[b]
      ensures r == Disconnected ==> Valid()
      ensures r == NoMessage || r == EmptyDescriptor ==> Valid() && prevDone == None
      ensures r == Message ==> Busy() && buffers[cur] >= |old(server.ledger)|
    {
      assert |buffers| == 4;
      hide Inv;
      if * { return Disconnected; }
      SubmitPrevious();
      if * { return NoMessage; }
      if * { return EmptyDescriptor; }
      Fill(cur);
      r := Message;
    }

    /** Another waiting read behind the held one keeps its buffer; a free one is taken for the next message. */
    method Defer()
      requires Busy() && deferredMsg == None
      modifies server`ledger, this`deferredMsg, this`cur
      ensures Valid() && Keeps(old(server.ledger), server.ledger) && deferredMsg == Some(old(cur))
    {
      hide Keeps;
      KeepsOneOn(server.ledger, buffers[cur], Deferred);
      server.Mark(buffers[cur], Deferred);
      deferredMsg := Some(cur);
      cur := NextFree();
    }

    /** A third waiting read: input is served until the bridge has finished the two before it. */
    method FinishPendingReads(ghost busy: set<nat>) returns (running: bool)
      requires Inv(busy)
      modifies server, this`deferredMsg, this`pendingMsg
      ensures Inv(busy) && Keeps(old(server.ledger), server.ledger) && server.served >= old(server.served)
      ensures running ==> server.held == None && pendingMsg == None && deferredMsg == None
      ensures pendingMsg == None || pendingMsg == old(pendingMsg) || pendingMsg == old(deferredMsg)
    {
      hide Inv;
      running := true;
      WaitForHeld(busy);
      if * { return false; }
      if deferredMsg.Some? {
        DispatchDeferred(busy);
        WaitForHeld(busy);
        if * { return false; }
      }
    }

    method WaitForHeld(ghost busy: set<nat>)
      requires Inv(busy)
      modifies server, this`pendingMsg
      ensures Inv(busy) && Keeps(old(server.ledger), server.ledger) && server.held == None && pendingMsg == None
      ensures server.served >= old(server.served)
    {
      server.WaitWhilePending();
      pendingMsg := None;
    }

    /** The router answers the request in `cur`, or the bridge holds it. */
    method Serve(mayWait: bool) returns (running: bool)
      requires Busy()
      requires mayWait ==> server.held == None && pendingMsg == None
      modifies server, this`pendingMsg, this`prevDone, this`cur
      ensures server.Valid() && Keeps(old(server.ledger), server.ledger) && (running ==> Valid())
      ensures !mayWait ==> server.held == old(server.held) || server.held == None
      ensures server.served >= old(server.served)
    {
      hide Inv;
      ghost var m := buffers[cur];
      InvServer({m});
      assert {m} - {m} == {};
      var done := Dispatch(cur, mayWait, {m});
      if done {
        running := Answer();
      } else {
        if * { InvServer({}); return false; }
        TakeFree();
        running := true;
      }
      InvServer({});
    }

    lemma InvServer(busy: set<nat>)
      requires Inv(busy)
      ensures server.Valid() && SlotsOk()
    {}

    /** A free buffer for the next READ_IO. */
    method TakeFree()
      requires Inv({})
      modifies this`cur
      ensures Valid()
    {
      cur := NextFree();
    }

    /** The answer waits for the next READ_IO, which needs another buffer. */
    method AwaitNextRead()
      requires Busy()
      modifies server`ledger, this`prevDone, this`cur
      ensures Valid() && Keeps(old(server.ledger), server.ledger)
    {
      server.Mark(buffers[cur], Awaiting);
      prevDone := Some(cur);
      cur := NextFree();
    }

    method CompleteCurrent()
      requires Busy()
      modifies server`ledger, server`completions
      ensures Valid() && Keeps(old(server.ledger), server.ledger)
    {
      hide Inv, Keeps;
      ghost var m := buffers[cur];
      assert {m} - {m} == {};
      CompleteNow(cur, {m});
    }

    /** An answer goes out at once behind buffered VT, and otherwise with the next READ_IO. */
    method Answer() returns (running: bool)
      requires Busy()
      modifies server, this`prevDone, this`cur
      ensures Inv({}) && Keeps(old(server.ledger), server.ledger) && (running ==> Valid())
      ensures server.held == old(server.held) || server.held == None
      ensures server.served >= old(server.served)
    {
      hide Inv;
      if * {
        CompleteCurrent();
        Idle();
        if * { return false; }
        TakeFree();
      } else {
        if * {
          CompleteCurrent();
          return false;
        }
        AwaitNextRead();
      }
      running := true;
    }

    /** CONNECT is answered inline or has been completed by its handler. */
    method Connect() returns (running: bool)
      requires Busy()
      modifies server`ledger, server`completions, this`prevDone, this`cur
      ensures server.Valid() && Keeps(old(server.ledger), server.ledger) && (running ==> Valid())
    {
      hide Inv;
      InvServer({buffers[cur]});
      if * { return false; }
      if * {
        AwaitNextRead();
      } else {
        CompleteCurrent();
        TakeFree();
      }
      InvServer({});
      running := true;
    }

    /**
      A message that is not CONNECT. Behind a held request a waiting read is deferred, or, if one is deferred already,
      comes after both. With nothing held it is dispatched at once, also before a read that is still deferred: that is
      the one way to overtake.
     */
    method Handle(mayWait: bool) returns (running: bool)
      requires Busy() && (server.held.Some? ==> server.held.value < buffers[cur])
      requires server.held == None ==> pendingMsg == None
      modifies server, this`pendingMsg, this`deferredMsg, this`prevDone, this`cur
      ensures server.Valid() && Keeps(old(server.ledger), server.ledger) && (running ==> Valid())
      ensures !mayWait ==> deferredMsg == old(deferredMsg)
      ensures mayWait && old(server.held).Some? && old(deferredMsg) == None ==>
                deferredMsg == Some(old(cur)) && server.held == old(server.held)
      ensures running && mayWait && old(deferredMsg).Some? ==> (deferredMsg.Some? <==> old(server.held) == None)
      ensures running && !InOrder() && old(InOrder()) ==> mayWait && old(server.held) == None && old(deferredMsg).Some?
      ensures server.served >= old(server.served)
    {
      hide Inv;
      ghost var m := buffers[cur];
      InvServer({m});
      if server.held.Some? && mayWait {
        if deferredMsg == None {
          Defer();
          InvServer({});
          return true;
        }
        running := FinishPendingReads({m});
        InvServer({m});
        if !running { return; }
      }
      running := Serve(mayWait);
    }

    /** The deferred read's turn has come when the bridge holds nothing. */
    method ServeDeferred() returns (running: bool)
      requires Valid()
      modifies this`pendingMsg, this`deferredMsg, server`ledger, server`completions, server`held
      ensures Valid() && Keeps(old(server.ledger), server.ledger) && (server.held == None ==> pendingMsg == None)
      ensures old(server.held) == None ==> deferredMsg == None && Gone(old(DeferredId()))
      ensures old(server.held).Some? ==> deferredMsg == old(deferredMsg) && server.held == old(server.held)
    {
      hide Inv, Keeps;
      NothingChanged(server.ledger);
      ClearStalePending({});
      if deferredMsg.Some? && server.held == None {
        DispatchDeferred({});
        if * { return false; }
      }
      running := true;
    }

    lemma NothingChanged(a: seq<Status>)
      ensures Keeps(a, a)
    {}

    /** Terminal input, before the loop waits for a message or while a request is held. */
    method IdleBeforeRead() returns (running: bool)
      requires Valid() && (server.held == None ==> pendingMsg == None)
      modifies this`pendingMsg, server
      ensures Valid() && Keeps(old(server.ledger), server.ledger)
      ensures running ==> (server.held == None ==> pendingMsg == None)
      ensures old(server.held).Some? || prevDone == None ==> server.served > old(server.served)
      ensures old(server.held).Some? && server.held != old(server.held) ==> server.held == None && Finished(old(server.held))
      ensures server.served >= old(server.served)
    {
      hide Inv, Keeps;
      NothingChanged(server.ledger);
      running := true;
      if server.held == None && prevDone == None {
        Idle();
        if * { return false; }
      } else if server.held.Some? {
        Idle();
        if * { return false; }
        ClearStalePending({});
      }
      if * { return false; }
    }

    /**
      Before the read: the deferred request, then terminal input. A request is still deferred when READ_IO is made only
      if another one was held when the turn began.
     */
    method BeforeRead() returns (running: bool)
      requires Valid()
      modifies this`pendingMsg, this`deferredMsg, server
      ensures Valid() && Keeps(old(server.ledger), server.ledger)
      ensures running ==> (server.held == None ==> pendingMsg == None)
      ensures old(server.held) == None ==> deferredMsg == None && Gone(old(DeferredId()))
      ensures old(server.held).Some? ==> deferredMsg == old(deferredMsg)
      ensures running && old(server.held).Some? && server.held != old(server.held) ==>
                server.held == None && Finished(old(server.held))
      ensures server.served >= old(server.served)
      ensures running && (old(server.held).Some? || prevDone == None) ==> server.served > old(server.served)
    {
      hide Inv, Keeps;
      ghost var a := server.ledger;
      running := ServeDeferred();
      if !running { return; }
      ghost var b := server.ledger;
      running := IdleBeforeRead();
      KeepsThrough(a, b, server.ledger);
      KeepsAllPast(b, server.ledger);
    }

    /** After the read: no message, an empty descriptor, a connect or a request. */
    method AfterRead(r: ReadResult) returns (running: bool)
      requires r != Disconnected && (if r == Message then Busy() else Valid())
      requires r == Message && server.held.Some? ==> server.held.value < buffers[cur]
      requires server.held == None ==> pendingMsg == None
      modifies this`cur, this`prevDone, this`pendingMsg, this`deferredMsg, server
      ensures server.Valid() && Keeps(old(server.ledger), server.ledger) && (running ==> Valid())
      ensures running && !InOrder() && old(InOrder()) ==> old(server.held) == None && old(deferredMsg).Some?
      ensures server.served >= old(server.served) && (r != Message ==> server.served > old(server.served))
    {
      hide Inv, Keeps;
      if r == Message {
        if * {
          running := Connect();
        } else {
          var mayWait: bool := *;
          running := Handle(mayWait);
        }
      } else {
        Idle();
        InvServer({});
        if * { running := true; } else { running := false; }
      }
    }

    /**
      One turn of the loop, with any behaviour of clients, terminal and bridge. A deferred read is dispatched once nothing
      is held. A later read comes to be held in front of it only in a turn that began with both slots taken and in which
      terminal input finished the held request. A turn serves terminal input unless it has an answer to bring back and
      nothing held.
     */
    method Turn() returns (running: bool)
      requires Valid()
      modifies this`buffers, this`cur, this`prevDone, this`pendingMsg, this`deferredMsg, server
      ensures server.Valid() && Keeps(old(server.ledger), server.ledger) && (running ==> Valid())
      ensures old(server.held) == None ==> Gone(old(DeferredId()))
      ensures running && !InOrder() && old(InOrder()) ==> old(deferredMsg).Some? && Finished(old(server.held))
      ensures running && (old(server.held).Some? || old(prevDone) == None) ==> server.served > old(server.served)
    {
      hide Inv, Keeps;
      ghost var a := server.ledger;
      InvServer({});
      running := BeforeRead();
      InvServer({});
      if !running { return; }
      ghost var b := server.ledger;
      assert old(InOrder()) ==> InOrder();
      running := ReadAndServe();
      KeepsThrough(a, b, server.ledger);
      KeepsAllPast(b, server.ledger);
    }

    /** READ_IO, and what it brings. */
    method ReadAndServe() returns (running: bool)
      requires Valid() && (server.held == None ==> pendingMsg == None)
      modifies this`buffers, this`cur, this`prevDone, this`pendingMsg, this`deferredMsg, server
      ensures server.Valid() && Keeps(old(server.ledger), server.ledger) && (running ==> Valid())
      ensures running && !InOrder() && old(InOrder()) ==> old(server.held) == None && old(deferredMsg).Some?
      ensures server.served >= old(server.served)
    {
      hide Inv, Keeps;
      ghost var b := server.ledger;
      InvServer({});
      var r := ReadIo();
      ghost var c := server.ledger;
      if r == Disconnected { InvServer({}); return false; }
      assert old(InOrder()) ==> InOrder();
      running := AfterRead(r);
      KeepsThrough(b, c, server.ledger);
    }

    /** Any run, as long as the loop goes on: every message in one place, and the next READ_IO has a free buffer. */
    method Run(turns: nat) returns (running: bool)
      requires Valid()
      modifies this`buffers, this`cur, this`prevDone, this`pendingMsg, this`deferredMsg, server
      ensures server.Valid() && Keeps(old(server.ledger), server.ledger)
      ensures running ==> Valid() && forall m :: 0 <= m < |server.ledger| ==> Placed(m)
    {
      hide Inv, Placed;
      InvServer({});
      var i := 0;
      running := true;
      while running && i < turns
        invariant server.Valid() && (running ==> Valid()) && Keeps(old(server.ledger), server.ledger)
      {
        running := Turn();
        i := i + 1;
      }
      if running {
        forall m | 0 <= m < |server.ledger| ensures Placed(m) { InOnePlace(m); }
      }
    }
  }
}
