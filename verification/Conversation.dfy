/** A client that sends the next request only when the one before has been answered: no lock ever stops
    the service, and every schedule with enough passes in it serves every request. */
module Conversation {
  import opened Bytes
  import opened FrameCodec
  import opened Memstore
  import opened MemoryCommands
  import opened Scheduler
  import opened MainLoop
  import opened Refinement
  import opened RequestDispatch
  import opened Service

  // ------------------------------------------------------------------------ the client

  /** The client may send: the request that comes next has not arrived completely, and everything the
      requests before it were answered has left. */
  predicate MaySend(h: History, reqs: seq<Request>) {
    h.served < |reqs| && |h.s.w.inq| < |Encode(reqs[h.served])| && h.s.w.outq == []
  }

  /** One pass with a client that waits: nothing is asked of it about the rings. */
  predicate PoliteOk(h: History, e: Event, reqs: seq<Request>, heap: nat -> bool)
    requires h.s.w.WellFormed()
  {
    && e.granted == heap(h.served) && Answers(h, e, reqs)
    && h.arrived + Received(e) <= Wire(reqs, |reqs|)
    && (e.rx.Some? ==> MaySend(h, reqs))
  }

  predicate PolitesOk(h: History, events: seq<Event>, reqs: seq<Request>, heap: nat -> bool)
    requires h.s.w.WellFormed()
    decreases |events|
  {
    events == [] ||
    (PoliteOk(h, events[0], reqs, heap) && PolitesOk(Pass(h, events[0]), events[1..], reqs, heap))
  }

  /** The input holds no more than the next request, and while it holds any of it the output is empty;
      the queued output covers the send lock. */
  predicate PoliteInv(h: History, reqs: seq<Request>, heap: nat -> bool): (ok: bool)
    requires Conforming(reqs, heap)
    ensures ok ==> h.s.w.WellFormed()
  {
    && Inv(h, reqs, heap)
    && OneAtATime(h, reqs)
  }

  predicate OneAtATime(h: History, reqs: seq<Request>) {
    && (h.s.w.inq != [] ==> h.s.w.outq == [] && h.served < |reqs| && |h.s.w.inq| <= |Encode(reqs[h.served])|)
    && h.s.w.sendMode <= |h.s.w.outq|
  }

  lemma {:induction false} RequestSize(r: Request)
    requires WireOk(r) && (CarriesData(r) ==> |r.data| <= MAX_PAYLOAD)
    ensures 9 < |Encode(r)| <= 65560
  {
    hide Body;
  }

  lemma {:induction false} NextSize(h: History, reqs: seq<Request>, heap: nat -> bool)
    requires Conforming(reqs, heap) && Inv(h, reqs, heap) && h.served < |reqs|
    ensures 9 < |Encode(reqs[h.served])| <= 65560
  {
    hide Spec, Encode, Wire, WireOk, ConformingUpTo;
    NextIsOk(h, reqs, heap);
    var r := reqs[h.served];
    RequestFitsWire(h.s.w.mem, r);
    if r.SallocReq? {
      PageSizeInRange(h.s.w.mem, r.id);
    }
    RequestSize(r);
  }

  /** A pass with a waiting client keeps to the rules of the refinement: neither ring fills. */
  lemma {:induction false} PoliteIsOk(h: History, e: Event, reqs: seq<Request>, heap: nat -> bool)
    requires Conforming(reqs, heap) && PoliteInv(h, reqs, heap) && PoliteOk(h, e, reqs, heap)
    ensures PassOk(h, e, reqs, heap)
  {
    hide Conforming, FillsExactly, Explained, LockExact, Encode, Wire, Answers;
    var w := Moved(h.s, e).w;
    if e.rx.Some? {
      NextSize(h, reqs, heap);
    }
    if w.outq == [] {
      DrainedNeverFills(w);
    } else {
      EmptyNeverFills(w);
    }
  }

  lemma {:induction false} EmptyNeverFills(w: World)
    requires w.WellFormed() && w.inq == []
    ensures !FillsExactly(w)
  {
  }

  // ------------------------------------------------------------------------- one pass

  /** With no unfinished command the tick changes nothing but its counter. */
  lemma {:induction false} IdleTick(s: State, e: Event)
    requires s.w.WellFormed() && s.table == EmptyTable()
    ensures TickPhase(s, e).w == s.w && TickPhase(s, e).table == s.table
    ensures TickPhase(s, e).packetCounter == s.packetCounter
  {
    hide FirstDueFrom;
    NothingDue(e.now, 0);
  }

  lemma {:induction false} MoveIsPolite(h: History, e: Event, reqs: seq<Request>, heap: nat -> bool)
    requires Conforming(reqs, heap) && PoliteInv(h, reqs, heap) && PoliteOk(h, e, reqs, heap)
    ensures OneAtATime(MovePhase(h, e), reqs)
  {
    hide Conforming, Explained, LockExact, Encode, Wire, Answers, Memstore.WellFormed;
    if e.rx.Some? {
      NextSize(h, reqs, heap);
    }
  }

  /** The queued output covers the lock a served request sets. */
  lemma {:induction false} AnswerCoversLock(w: World, r: Request, granted: bool)
    requires w.WellFormed() && RequestOk(w.mem, r) && w.sendMode <= |w.outq|
    ensures LockAfter(w, r, []) <= |w.outq| + |Serve(w.mem, r, granted).1|
  {
    hide Create, Free, StorePage, Insert, Cut, RetrievePage, Memstore.WellFormed, WireOk;
  }

  lemma {:induction false} ServeIsPolite(h: History, e: Event, reqs: seq<Request>, heap: nat -> bool)
    requires Conforming(reqs, heap) && PoliteInv(h, reqs, heap)
    requires e.granted == heap(h.served) && Answers(h, e, reqs) && !FillsExactly(h.s.w)
    ensures Inv(ServePhase(h, e), reqs, heap)
    ensures OneAtATime(ServePhase(h, e), reqs)
  {
    hide Dispatch, Spec, Wire, Accepts, AfterCheck, Encode, Memstore.WellFormed, Serve, ConformingUpTo, LockAfter;
    hide CanServe, Answers, FillsExactly, RequestOk, Explained, LockExact;
    ServeKeepsInv(h, e, reqs, heap);
    if h.s.packetCounter >= MAX_COMMAND_WAIT && Unlocked(h.s.w) {
      DispatchOfNext(h, e, reqs, heap);
      if h.served < |reqs| {
        var r := reqs[h.served];
        NextSize(h, reqs, heap);
        if Encode(r) <= h.s.w.inq && CanServe(h.s.w, r) {
          assert h.s.w.inq[|Encode(r)|..] == [];
          AnswerCoversLock(h.s.w, r, e.granted);
        }
      }
    }
  }

  lemma {:induction false} PolitePass(h: History, e: Event, reqs: seq<Request>, heap: nat -> bool)
    requires Conforming(reqs, heap) && PoliteInv(h, reqs, heap) && PoliteOk(h, e, reqs, heap)
    ensures PoliteInv(Pass(h, e), reqs, heap)
    ensures PassOk(h, e, reqs, heap)
  {
    hide Conforming, FillsExactly, Explained, LockExact, ServePhase, TickPhase, OneAtATime, Answers;
    PoliteIsOk(h, e, reqs, heap);
    PassKeepsInv(h, e, reqs, heap);
    MoveIsPolite(h, e, reqs, heap);
    MoveKeepsInv(h, e, reqs, heap);
    var moved := MovePhase(h, e);
    AnswersStay(h, moved, e, reqs);
    ServeIsPolite(moved, e, reqs, heap);
    IdleTick(ServePhase(moved, e).s, e);
    SameRings(ServePhase(moved, e), Pass(h, e), reqs);
  }

  lemma {:induction false} AnswersStay(h: History, h': History, e: Event, reqs: seq<Request>)
    requires Answers(h, e, reqs) && h'.served == h.served
    ensures Answers(h', e, reqs)
  {
  }

  lemma {:induction false} SameRings(h: History, h': History, reqs: seq<Request>)
    requires OneAtATime(h, reqs) && h'.s.w == h.s.w && h'.served == h.served
    ensures OneAtATime(h', reqs)
  {
  }

  // ------------------------------------------------------------------------ many passes

  lemma {:induction false} PolitePasses(h: History, events: seq<Event>, reqs: seq<Request>, heap: nat -> bool)
    requires Conforming(reqs, heap) && PoliteInv(h, reqs, heap) && PolitesOk(h, events, reqs, heap)
    ensures PassesOk(h, events, reqs, heap) && PoliteInv(Passes(h, events), reqs, heap)
    decreases |events|
  {
    hide Conforming, PoliteInv, PoliteOk, PassOk, Pass, Step;
    if events != [] {
      PolitePass(h, events[0], reqs, heap);
      PolitePasses(Pass(h, events[0]), events[1..], reqs, heap);
    }
  }

  lemma {:induction false} PassesInParts(h: History, a: seq<Event>, b: seq<Event>,
                                         reqs: seq<Request>, heap: nat -> bool)
    requires h.s.w.WellFormed()
    ensures Passes(h, a + b) == Passes(Passes(h, a), b)
    ensures PolitesOk(h, a + b, reqs, heap) <==> PolitesOk(h, a, reqs, heap) && PolitesOk(Passes(h, a), b, reqs, heap)
    decreases |a|
  {
    hide Pass, PoliteOk, Step;
    if a == [] {
      assert a + b == b;
    } else {
      assert (a + b)[0] == a[0] && (a + b)[1..] == a[1..] + b;
      PassesInParts(Pass(h, a[0]), a[1..], b, reqs, heap);
    }
  }

  /** The next request is there as a whole. */
  predicate Asked(h: History, reqs: seq<Request>) {
    h.served < |reqs| && h.s.w.inq == Encode(reqs[h.served])
  }

  /** A pass on a request that is there as a whole: the packet check serves it, or comes one pass
      nearer. No lock can hold it up. */
  lemma {:induction false} AskedPass(h: History, e: Event, reqs: seq<Request>, heap: nat -> bool)
    requires Conforming(reqs, heap) && PoliteInv(h, reqs, heap) && PoliteOk(h, e, reqs, heap) && Asked(h, reqs)
    ensures var h1 := Pass(h, e);
            if h.s.packetCounter >= MAX_COMMAND_WAIT
            then h1.served == h.served + 1 && h1.s.w.inq == []
            else Asked(h1, reqs) && h1.served == h.served && h1.s.packetCounter == h.s.packetCounter + 1
  {
    hide Conforming, Explained, Encode, Dispatch, TickPhase, FillsExactly, Answers;
    NextSize(h, reqs, heap);
    NoLock(h, reqs);
    var moved := MovePhase(h, e);
    assert moved == h;
    DrainedNeverFills(h.s.w);
    if h.s.packetCounter >= MAX_COMMAND_WAIT {
      EmptyOutputServes(h, reqs, heap);
      NextIsServed(h, e, reqs, heap);
      PolitePass(h, e, reqs, heap);
      NothingIsLeft(h, Pass(h, e), reqs, heap);
    } else {
      IdleTick(ServePhase(h, e).s, e);
    }
  }

  lemma {:induction false} NothingIsLeft(h: History, h1: History, reqs: seq<Request>, heap: nat -> bool)
    requires Conforming(reqs, heap) && Inv(h, reqs, heap) && Inv(h1, reqs, heap) && Asked(h, reqs)
    requires h1.arrived == h.arrived && h1.served == h.served + 1
    ensures h1.s.w.inq == []
  {
    hide Encode, Spec, ConformingUpTo;
  }

  lemma {:induction false} NoLock(h: History, reqs: seq<Request>)
    requires LockExact(h, reqs) && OneAtATime(h, reqs) && Asked(h, reqs) && h.s.w.inq != [] && h.s.w.sendMode >= 0
    ensures Unlocked(h.s.w) && h.s.w.outq == []
  {
    hide Encode;
  }

  lemma {:induction false} EmptyOutputServes(h: History, reqs: seq<Request>, heap: nat -> bool)
    requires Conforming(reqs, heap) && Inv(h, reqs, heap) && Asked(h, reqs) && h.s.w.outq == []
    ensures CanServeNext(h, reqs)
  {
    hide Spec, Encode, Wire, ConformingUpTo;
    var r := reqs[h.served];
    if r.RallocReq? {
      PageSizeInRange(h.s.w.mem, r.id);
    }
  }

  lemma {:induction false} ServedGrows(h: History, events: seq<Event>)
    requires h.s.w.WellFormed()
    ensures Passes(h, events).served >= h.served
    decreases |events|
  {
    hide Step, PacketPhase, TickPhase;
    if events != [] {
      ServedGrows(Pass(h, events[0]), events[1..]);
    }
  }

  /** Twenty-one passes, whatever comes and goes in them, serve a request that is there as a whole. */
  lemma {:induction false} AskedIsServed(h: History, events: seq<Event>, reqs: seq<Request>, heap: nat -> bool)
    requires Conforming(reqs, heap) && PoliteInv(h, reqs, heap) && PolitesOk(h, events, reqs, heap) && Asked(h, reqs)
    requires events != [] && |events| + h.s.packetCounter > 20
    ensures Passes(h, events).served > h.served
    decreases |events|
  {
    hide Conforming, PoliteInv, PoliteOk, Pass, Asked, Step;
    var e := events[0];
    AskedPass(h, e, reqs, heap);
    PolitePass(h, e, reqs, heap);
    if h.s.packetCounter >= MAX_COMMAND_WAIT {
      ServedGrows(Pass(h, e), events[1..]);
    } else {
      AskedIsServed(Pass(h, e), events[1..], reqs, heap);
    }
  }

  // ------------------------------------------------------------------- nothing arrives

  /** No byte arrives in these passes. */
  predicate Quiet(events: seq<Event>) {
    forall i :: 0 <= i < |events| ==> events[i].rx.None?
  }

  /** The output after a pass that takes a byte or not. */
  function Left(outq: seq<byte>, dir: bool): seq<byte> {
    if dir && outq != [] then outq[1..] else outq
  }

  /** A quiet pass on a part of a request, or on nothing: only output leaves. */
  lemma {:induction false} QuietPass(h: History, e: Event, reqs: seq<Request>, heap: nat -> bool)
    requires Conforming(reqs, heap) && PoliteInv(h, reqs, heap) && PoliteOk(h, e, reqs, heap)
    requires e.rx.None? && !Asked(h, reqs)
    ensures var h1 := Pass(h, e);
            && h1.served == h.served && h1.s.w.inq == h.s.w.inq && !Asked(h1, reqs)
            && h1.s.w.outq == Left(h.s.w.outq, e.dir)
            && h1.sent + h1.s.w.outq == h.sent + h.s.w.outq
  {
    hide Conforming, Explained, LockExact, Dispatch, TickPhase, Answers, Encode, FillsExactly, IsServed, CanServe;
    hide WaitsForData, RequestOk, Serve;
    var moved := MovePhase(h, e);
    PoliteIsOk(h, e, reqs, heap);
    MoveKeepsInv(h, e, reqs, heap);
    AnswersStay(h, moved, e, reqs);
    MoveIsPolite(h, e, reqs, heap);
    if moved.served < |reqs| {
      NextSize(moved, reqs, heap);
      RequestIsNotThere(moved, reqs);
    }
    UnaskedServe(moved, e, reqs, heap);
    IdleTick(ServePhase(moved, e).s, e);
    assert h.sent + h.s.w.outq == moved.sent + moved.s.w.outq by {
      if e.dir && h.s.w.outq != [] {
        assert h.s.w.outq == h.s.w.outq[..1] + h.s.w.outq[1..];
      }
    }
  }

  lemma {:induction false} RequestIsNotThere(h: History, reqs: seq<Request>)
    requires OneAtATime(h, reqs) && !Asked(h, reqs) && h.served < |reqs| && Encode(reqs[h.served]) != []
    ensures !(Encode(reqs[h.served]) <= h.s.w.inq)
  {
    hide Encode;
  }

  lemma {:induction false} UnaskedServe(h: History, e: Event, reqs: seq<Request>, heap: nat -> bool)
    requires Conforming(reqs, heap) && Inv(h, reqs, heap)
    requires e.granted == heap(h.served) && Answers(h, e, reqs) && !FillsExactly(h.s.w)
    requires h.served < |reqs| ==> !(Encode(reqs[h.served]) <= h.s.w.inq)
    ensures var h1 := ServePhase(h, e);
            && h1.served == h.served && h1.sent == h.sent && h1.s.table == h.s.table && h1.s.w.WellFormed()
            && h1.s.w.inq == h.s.w.inq && h1.s.w.outq == h.s.w.outq
  {
    hide Dispatch, Spec, Wire, Accepts, AfterCheck, Encode, Memstore.WellFormed, Serve, ConformingUpTo;
    hide CanServe, Answers, FillsExactly, RequestOk, Explained, LockExact, IsServed;
    if h.s.packetCounter >= MAX_COMMAND_WAIT && Unlocked(h.s.w) {
      DispatchOfNext(h, e, reqs, heap);
    }
  }

  /** While nothing arrives and no whole request is there, the queued output leaves, a byte for every
      pass that takes one. */
  lemma {:induction false} OutputLeaves(h: History, events: seq<Event>, reqs: seq<Request>, heap: nat -> bool)
    requires Conforming(reqs, heap) && PoliteInv(h, reqs, heap) && PolitesOk(h, events, reqs, heap)
    requires Quiet(events) && !Asked(h, reqs)
    ensures var h' := Passes(h, events);
            && h'.served == h.served && h'.s.w.inq == h.s.w.inq
            && h'.sent + h'.s.w.outq == h.sent + h.s.w.outq
            && (Takes(events) >= |h.s.w.outq| ==> h'.s.w.outq == [])
    decreases |events|
  {
    hide Conforming, PoliteInv, PoliteOk, Pass, Asked, Step;
    if events != [] {
      QuietPass(h, events[0], reqs, heap);
      PolitePass(h, events[0], reqs, heap);
      OutputLeaves(Pass(h, events[0]), events[1..], reqs, heap);
    }
  }

  /** Quiet passes serve the request that is there as a whole, and only that. */
  lemma {:induction false} QuietServes(h: History, events: seq<Event>, reqs: seq<Request>, heap: nat -> bool)
    requires Conforming(reqs, heap) && PoliteInv(h, reqs, heap) && PolitesOk(h, events, reqs, heap)
    requires Quiet(events) && Asked(h, reqs)
    requires events != [] && |events| + h.s.packetCounter > 20
    ensures Passes(h, events).served == h.served + 1 && Passes(h, events).s.w.inq == []
    decreases |events|
  {
    hide Conforming, PoliteInv, PoliteOk, Pass, Step, Encode;
    var e := events[0];
    AskedPass(h, e, reqs, heap);
    PolitePass(h, e, reqs, heap);
    var h1 := Pass(h, e);
    if h.s.packetCounter >= MAX_COMMAND_WAIT {
      if h1.served < |reqs| { NextSizeOf(h1, reqs, heap); }
      assert !Asked(h1, reqs);
      OutputLeaves(h1, events[1..], reqs, heap);
    } else {
      QuietServes(h1, events[1..], reqs, heap);
    }
  }

  lemma {:induction false} NextSizeOf(h: History, reqs: seq<Request>, heap: nat -> bool)
    requires Conforming(reqs, heap) && PoliteInv(h, reqs, heap) && h.served < |reqs|
    ensures 9 < |Encode(reqs[h.served])| <= 65560
  {
    hide Conforming, Explained, LockExact, OneAtATime, Encode;
    NextSize(h, reqs, heap);
  }

  // ------------------------------------------------------------------------ the theorems

  lemma {:induction false} StartIsPolite(reqs: seq<Request>, heap: nat -> bool)
    requires Conforming(reqs, heap)
    ensures PoliteInv(Start(), reqs, heap)
  {
    StartInv(reqs, heap);
  }

  /** The client never waits in vain. Whatever it has sent: once twenty-one passes have gone by in which
      nothing arrives, and then as many that take a byte as the output holds, it may send on, or all its
      requests are served and answered. */
  lemma {:induction false} ClientMayGoOn(h: History, waiting: seq<Event>, taking: seq<Event>,
                                         reqs: seq<Request>, heap: nat -> bool)
    requires Conforming(reqs, heap) && PoliteInv(h, reqs, heap) && PolitesOk(h, waiting + taking, reqs, heap)
    requires Quiet(waiting) && Quiet(taking) && |waiting| >= 21
    requires Takes(taking) >= |Passes(h, waiting).s.w.outq|
    ensures var h' := Passes(h, waiting + taking);
            MaySend(h', reqs) || (h'.served == |reqs| && h'.s.w.outq == [])
  {
    hide Conforming, Passes, PolitesOk, PoliteInv, Encode, Quiet, MaySend, Takes;
    PassesInParts(h, waiting, taking, reqs, heap);
    var h1, h2 := Passes(h, waiting), Passes(h, waiting + taking);
    PolitePasses(h, waiting, reqs, heap);
    if Asked(h, reqs) {
      QuietServes(h, waiting, reqs, heap);
      if h1.served < |reqs| { NextSizeOf(h1, reqs, heap); }
    } else {
      OutputLeaves(h, waiting, reqs, heap);
    }
    assert !Asked(h1, reqs);
    OutputLeaves(h1, taking, reqs, heap);
    PolitePasses(h1, taking, reqs, heap);
    UnaskedMaySend(h2, reqs, heap);
  }

  lemma {:induction false} UnaskedMaySend(h: History, reqs: seq<Request>, heap: nat -> bool)
    requires Conforming(reqs, heap) && PoliteInv(h, reqs, heap) && !Asked(h, reqs) && h.s.w.outq == []
    ensures MaySend(h, reqs) || h.served == |reqs|
  {
    hide Conforming, Explained, LockExact, Encode;
    ServedInRange(h, reqs, heap);
    if h.served < |reqs| {
      NextSize(h, reqs, heap);
      NextRequest(h, reqs, heap);
    }
  }

  lemma {:induction false} ServedInRange(h: History, reqs: seq<Request>, heap: nat -> bool)
    requires Conforming(reqs, heap) && PoliteInv(h, reqs, heap)
    ensures h.served <= |reqs|
  {
  }

  // ------------------------------------------------------------- what the client can tell

  /** What the client has seen: it has sent the first `k` requests and a part of the next, and has
      received the answers to those `k`, and nothing else. */
  predicate SeesAnswers(h: History, reqs: seq<Request>, heap: nat -> bool, k: nat)
    requires Conforming(reqs, heap)
  {
    && k < |reqs|
    && |Wire(reqs, k)| <= |h.arrived| < |Wire(reqs, k + 1)|
    && (ConformingPrefix(reqs, heap, k, |reqs|); h.sent == Spec(reqs, heap, k).1)
  }

  /** Every request is answered with something. */
  predicate AllReply(reqs: seq<Request>) {
    forall k :: 0 <= k < |reqs| ==> IsGeneral(reqs[k]) ==> reqs[k].reply.Some?
  }

  /** When every request has an answer, the client can tell from the bytes it has sent and received
      alone whether it may send. */
  lemma {:induction false} MaySendIsVisible(h: History, reqs: seq<Request>, heap: nat -> bool)
    requires Conforming(reqs, heap) && PoliteInv(h, reqs, heap) && AllReply(reqs)
    ensures MaySend(h, reqs) <==> exists k :: SeesAnswers(h, reqs, heap, k)
  {
    hide Conforming, PoliteInv, SeesAnswers, AllReply, MaySend;
    if MaySend(h, reqs) {
      AnswersAreSeen(h, reqs, heap);
    }
    if j: nat :| SeesAnswers(h, reqs, heap, j) {
      SeenIsServed(h, reqs, heap, j);
      SeenMaySend(h, reqs, heap);
    }
  }

  lemma {:induction false} AnswersAreSeen(h: History, reqs: seq<Request>, heap: nat -> bool)
    requires Conforming(reqs, heap) && PoliteInv(h, reqs, heap) && MaySend(h, reqs)
    ensures SeesAnswers(h, reqs, heap, h.served)
  {
    hide Conforming, LockExact, Encode, Spec;
    assert h.sent + h.s.w.outq == h.sent;
  }

  lemma {:induction false} SeenMaySend(h: History, reqs: seq<Request>, heap: nat -> bool)
    requires Conforming(reqs, heap) && PoliteInv(h, reqs, heap) && SeesAnswers(h, reqs, heap, h.served)
    ensures MaySend(h, reqs)
  {
    hide Conforming, LockExact, Encode, Spec;
    assert |h.sent + h.s.w.outq| == |h.sent| + |h.s.w.outq|;
  }

  lemma {:induction false} SeenIsServed(h: History, reqs: seq<Request>, heap: nat -> bool, j: nat)
    requires Conforming(reqs, heap) && PoliteInv(h, reqs, heap) && AllReply(reqs) && SeesAnswers(h, reqs, heap, j)
    ensures j == h.served
  {
    hide Conforming, PoliteInv, AllReply, Wire, Spec;
    var k := h.served;
    ArrivedRange(h, reqs, heap);
    if j < k {
      if j + 1 < k { WireGrows(reqs, j + 1, k); }
    } else if j > k + 1 {
      WireGrows(reqs, k + 1, j);
    } else if j == k + 1 {
      AnswerStillToCome(h, reqs, heap);
    }
  }

  lemma {:induction false} AnswerStillToCome(h: History, reqs: seq<Request>, heap: nat -> bool)
    requires Conforming(reqs, heap) && PoliteInv(h, reqs, heap) && AllReply(reqs) && h.served < |reqs|
    ensures ConformingUpTo(reqs, heap, h.served + 1) && h.sent != Spec(reqs, heap, h.served + 1).1
  {
    hide Conforming, Explained, LockExact, AllReply, Spec;
    NextAnswer(h, reqs, heap);
  }

  /** What has arrived ends within the next request. */
  lemma {:induction false} ArrivedRange(h: History, reqs: seq<Request>, heap: nat -> bool)
    requires Conforming(reqs, heap) && PoliteInv(h, reqs, heap)
    ensures h.served <= |reqs| && |Wire(reqs, h.served)| <= |h.arrived|
    ensures h.served < |reqs| ==> |h.arrived| <= |Wire(reqs, h.served + 1)|
  {
    hide ConformingUpTo, LockExact, Encode, Spec;
  }

  lemma {:induction false} WireGrows(reqs: seq<Request>, k: nat, n: nat)
    requires k < n <= |reqs|
    ensures |Wire(reqs, k)| < |Wire(reqs, n)|
  {
    hide Encode;
    WirePrefix(reqs, k, n - 1);
    EncodeIsSomething(reqs[n - 1]);
  }

  lemma {:induction false} EncodeIsSomething(r: Request)
    ensures Encode(r) != []
  {
    hide Frame, Body;
  }

  /** The answer to the next request is still to come. */
  lemma {:induction false} NextAnswer(h: History, reqs: seq<Request>, heap: nat -> bool)
    requires Conforming(reqs, heap) && Inv(h, reqs, heap) && AllReply(reqs) && h.served < |reqs|
    ensures ConformingUpTo(reqs, heap, h.served + 1)
    ensures h.sent != Spec(reqs, heap, h.served + 1).1
  {
    hide Serve, Wire, RequestOk;
    ConformingPrefix(reqs, heap, h.served, |reqs|);
    ConformingPrefix(reqs, heap, h.served + 1, |reqs|);
    AnswerIsSomething(Spec(reqs, heap, h.served).0, reqs[h.served], heap(h.served));
  }

  lemma {:induction false} AnswerIsSomething(mem: Store, r: Request, granted: bool)
    requires WellFormed(mem) && RequestOk(mem, r) && (IsGeneral(r) ==> r.reply.Some?)
    ensures Serve(mem, r, granted).1 != []
  {
    hide Create, Free, StorePage, Insert, Cut, RetrievePage, WellFormed, WireOk, GeneralOk;
  }

  /** Once everything has arrived, nothing more does. */
  lemma {:induction false} AllArrivedIsQuiet(h: History, events: seq<Event>, reqs: seq<Request>, heap: nat -> bool)
    requires Conforming(reqs, heap) && PoliteInv(h, reqs, heap) && PolitesOk(h, events, reqs, heap)
    requires h.arrived == Wire(reqs, |reqs|)
    ensures Quiet(events)
    decreases |events|
  {
    hide Conforming, PoliteInv, Wire, Step, PacketPhase, TickPhase, Answers;
    if events != [] {
      PolitePass(h, events[0], reqs, heap);
      AllArrivedIsQuiet(Pass(h, events[0]), events[1..], reqs, heap);
    }
  }

  /** The whole conversation. In every schedule in which the client waits for each answer, sends all its
      requests, and twenty-one more passes follow: every request is served; and once the passes that
      take a byte have emptied the output, exactly the answers of the sequential service have left. */
  lemma {:induction false} EveryRequestIsAnswered(events: seq<Event>, waiting: seq<Event>, taking: seq<Event>,
                                                  reqs: seq<Request>, heap: nat -> bool)
    requires Conforming(reqs, heap) && PolitesOk(Start(), events + waiting + taking, reqs, heap)
    requires Passes(Start(), events).arrived == Wire(reqs, |reqs|) && |waiting| >= 21
    ensures var h := Passes(Start(), events + waiting);
            && h.served == |reqs| && h.s.w.mem == Spec(reqs, heap, |reqs|).0
            && (Takes(taking) >= |h.s.w.outq| ==>
                  Passes(Start(), events + waiting + taking).sent == Spec(reqs, heap, |reqs|).1)
  {
    hide Passes, PolitesOk, Inv, Encode, Quiet, Asked, OneAtATime, Spec, Wire, Takes;
    PassesInParts(Start(), events + waiting, taking, reqs, heap);
    PassesInParts(Start(), events, waiting, reqs, heap);
    StartIsPolite(reqs, heap);
    PolitePasses(Start(), events, reqs, heap);
    var h0, h := Passes(Start(), events), Passes(Start(), events + waiting);
    AllArrivedIsQuiet(h0, waiting, reqs, heap);
    PolitePasses(h0, waiting, reqs, heap);
    LastIsServed(h0, waiting, reqs, heap);
    AllArrivedIsQuiet(h, taking, reqs, heap);
    PolitePasses(h, taking, reqs, heap);
    OutputLeaves(h, taking, reqs, heap);
    AllExplained(h, reqs, heap);
    var last := Passes(Start(), events + waiting + taking);
    AllExplained(last, reqs, heap);
    if last.s.w.outq == [] {
      assert last.sent + last.s.w.outq == last.sent;
    }
  }

  lemma {:induction false} LastIsServed(h: History, waiting: seq<Event>, reqs: seq<Request>, heap: nat -> bool)
    requires Conforming(reqs, heap) && PoliteInv(h, reqs, heap) && PolitesOk(h, waiting, reqs, heap)
    requires h.arrived == Wire(reqs, |reqs|) && Quiet(waiting) && |waiting| >= 21
    ensures Passes(h, waiting).served == |reqs| && !Asked(Passes(h, waiting), reqs)
    ensures Passes(h, waiting).arrived == h.arrived
  {
    hide Passes, PolitesOk, Encode, Quiet, Spec, Wire, Conforming, Explained, LockExact;
    PolitePasses(h, waiting, reqs, heap);
    QuietArrivesNothing(h, waiting);
    var h1 := Passes(h, waiting);
    ServedInRange(h, reqs, heap);
    ServedInRange(h1, reqs, heap);
    if h.served == |reqs| {
      OutputLeaves(h, waiting, reqs, heap);
    } else {
      WholeRequestIsThere(h, reqs, heap);
      NextSizeOf(h, reqs, heap);
      QuietServes(h, waiting, reqs, heap);
      if h1.served < |reqs| {
        WholeRequestIsThere(h1, reqs, heap);
        NextSizeOf(h1, reqs, heap);
        assert false;
      }
    }
  }

  lemma {:induction false} QuietArrivesNothing(h: History, events: seq<Event>)
    requires h.s.w.WellFormed() && Quiet(events)
    ensures Passes(h, events).arrived == h.arrived
    decreases |events|
  {
    hide Step, PacketPhase, TickPhase;
    if events != [] {
      QuietArrivesNothing(Pass(h, events[0]), events[1..]);
    }
  }

  lemma {:induction false} AllExplained(h: History, reqs: seq<Request>, heap: nat -> bool)
    requires Conforming(reqs, heap) && PoliteInv(h, reqs, heap) && h.served == |reqs|
    ensures (h.s.w.mem, h.sent + h.s.w.outq) == Spec(reqs, heap, |reqs|)
  {
    hide Spec, Wire;
  }

  // --------------------------------------------------------------- such schedules exist

  /** What a command outside the six does when the request that comes next is served. */
  function GeneralFor(h: History, reqs: seq<Request>): General {
    if h.served < |reqs| && IsGeneral(reqs[h.served])
    then General(|Params(reqs[h.served])|, reqs[h.served].reply, true)
    else General(0, None, true)
  }

  /** A pass that takes a byte, in which `rx` arrives. */
  function NextEvent(h: History, rx: Option<byte>, reqs: seq<Request>, heap: nat -> bool): Event {
    Event(rx, true, heap(h.served), GeneralFor(h, reqs), General(0, None, true), 0, 0, 0)
  }

  /** As many quiet passes as wanted. */
  lemma {:induction false} QuietSchedule(h: History, n: nat, reqs: seq<Request>, heap: nat -> bool)
    returns (events: seq<Event>)
    requires Conforming(reqs, heap) && PoliteInv(h, reqs, heap)
    ensures |events| == n && Quiet(events) && Takes(events) == n && PolitesOk(h, events, reqs, heap)
    decreases n
  {
    hide Conforming, Pass, Step, Encode, MaySend;
    if n == 0 {
      events := [];
    } else {
      var e := NextEvent(h, None, reqs, heap);
      NothingMoreArrives(h, e, reqs, heap);
      PolitePass(h, e, reqs, heap);
      var rest := QuietSchedule(Pass(h, e), n - 1, reqs, heap);
      events := [e] + rest;
      assert events[0] == e && events[1..] == rest;
    }
  }

  lemma {:induction false} NothingMoreArrives(h: History, e: Event, reqs: seq<Request>, heap: nat -> bool)
    requires Conforming(reqs, heap) && PoliteInv(h, reqs, heap) && e == NextEvent(h, None, reqs, heap)
    ensures PoliteOk(h, e, reqs, heap)
  {
    hide Conforming, Explained, LockExact, Wire;
    assert h.arrived + [] == h.arrived;
  }

  /** The next byte of the requests may arrive. */
  lemma {:induction false} NextByte(h: History, reqs: seq<Request>, heap: nat -> bool) returns (e: Event)
    requires Conforming(reqs, heap) && PoliteInv(h, reqs, heap) && MaySend(h, reqs)
    ensures PoliteOk(h, e, reqs, heap) && |Pass(h, e).arrived| == |h.arrived| + 1
    ensures |h.arrived| < |Wire(reqs, |reqs|)|
  {
    hide Conforming, LockExact, Encode, Step, PacketPhase, TickPhase, Spec;
    var all := Wire(reqs, |reqs|);
    WirePrefix(reqs, h.served + 1, |reqs|);
    assert |h.arrived| < |Wire(reqs, h.served + 1)|;
    e := NextEvent(h, Some(all[|h.arrived|]), reqs, heap);
    assert h.arrived + [all[|h.arrived|]] == all[..|h.arrived| + 1];
  }

  /** Every request has been served and every answer has left. */
  predicate Finished(h: History, reqs: seq<Request>) {
    h.served == |reqs| && h.s.w.outq == [] && h.arrived == Wire(reqs, |reqs|)
  }

  lemma {:induction false} ServedHaveArrived(h: History, reqs: seq<Request>, heap: nat -> bool)
    requires Conforming(reqs, heap) && PoliteInv(h, reqs, heap) && h.served == |reqs|
    ensures h.arrived == Wire(reqs, |reqs|)
  {
    hide Conforming, LockExact, Spec;
    NextRequest(h, reqs, heap);
  }

  /** Twenty-one quiet passes, and as many as the output then holds. */
  lemma {:induction false} WaitAndTake(h: History, reqs: seq<Request>, heap: nat -> bool)
    returns (events: seq<Event>)
    requires Conforming(reqs, heap) && PoliteInv(h, reqs, heap)
    ensures PolitesOk(h, events, reqs, heap) && Quiet(events)
    ensures MaySend(Passes(h, events), reqs)
         || (Passes(h, events).served == |reqs| && Passes(h, events).s.w.outq == [])
  {
    hide Conforming, PoliteInv, Passes, PolitesOk, MaySend;
    var waiting := QuietSchedule(h, MAX_COMMAND_WAIT + 1, reqs, heap);
    PolitePasses(h, waiting, reqs, heap);
    var h1 := Passes(h, waiting);
    var taking := QuietSchedule(h1, |h1.s.w.outq|, reqs, heap);
    events := waiting + taking;
    PassesInParts(h, waiting, taking, reqs, heap);
    ClientMayGoOn(h, waiting, taking, reqs, heap);
  }

  /** From every state a waiting client can be in, some schedule in which it goes on waiting for its answers
      brings all its requests in, serves them and sends all the answers. */
  lemma {:induction false} FinishConversation(h: History, reqs: seq<Request>, heap: nat -> bool)
    returns (events: seq<Event>)
    requires Conforming(reqs, heap) && PoliteInv(h, reqs, heap)
    ensures PolitesOk(h, events, reqs, heap) && Finished(Passes(h, events), reqs)
    decreases |Wire(reqs, |reqs|)| - |h.arrived|
  {
    hide Conforming, PoliteInv, Passes, PolitesOk, MaySend, Wire, Pass, PoliteOk, Quiet;
    var first := WaitAndTake(h, reqs, heap);
    PolitePasses(h, first, reqs, heap);
    QuietArrivesNothing(h, first);
    var h1 := Passes(h, first);
    if MaySend(h1, reqs) {
      var e := NextByte(h1, reqs, heap);
      PolitePass(h1, e, reqs, heap);
      var rest := FinishConversation(Pass(h1, e), reqs, heap);
      OnePolitePass(h1, e, reqs, heap);
      PassesInParts(h1, [e], rest, reqs, heap);
      PassesInParts(h, first, [e] + rest, reqs, heap);
      events := first + ([e] + rest);
    } else {
      ServedHaveArrived(h1, reqs, heap);
      events := first;
    }
  }

  lemma {:induction false} OnePolitePass(h: History, e: Event, reqs: seq<Request>, heap: nat -> bool)
    requires h.s.w.WellFormed() && PoliteOk(h, e, reqs, heap)
    ensures PolitesOk(h, [e], reqs, heap) && Passes(h, [e]) == Pass(h, e)
  {
    hide Pass, PoliteOk, Step;
    assert [e][1..] == [];
  }

  /** A schedule meets the conditions of a whole conversation, and all the answers leave in it. */
  predicate IsConversation(events: seq<Event>, reqs: seq<Request>, heap: nat -> bool)
    requires Conforming(reqs, heap)
  {
    && PolitesOk(Start(), events, reqs, heap)
    && Finished(Passes(Start(), events), reqs)
    && Passes(Start(), events).sent == Spec(reqs, heap, |reqs|).1
  }

  /** Whatever a conforming client asks, there is such a schedule. */
  lemma {:induction false} ConversationExists(reqs: seq<Request>, heap: nat -> bool)
    requires Conforming(reqs, heap)
    ensures exists events :: IsConversation(events, reqs, heap)
  {
    hide Passes, PolitesOk, Inv, Spec, Wire;
    StartIsPolite(reqs, heap);
    var events := FinishConversation(Start(), reqs, heap);
    PolitePasses(Start(), events, reqs, heap);
    var h := Passes(Start(), events);
    AllExplained(h, reqs, heap);
    assert h.sent + h.s.w.outq == h.sent;
    assert IsConversation(events, reqs, heap);
  }
}
