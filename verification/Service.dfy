/** The main theorem: every run of the main loop against a conforming client, whatever the
    interleaving of passes with bytes arriving and leaving, is the sequential service on a prefix of
    the requests. The receive lock is exact in every one of its states. */
module Service {
  import opened Bytes
  import opened RingQueue
  import opened FrameCodec
  import opened Memstore
  import opened CommandText
  import opened MemoryCommands
  import opened Scheduler
  import opened MainLoop
  import opened SendLock
  import opened Refinement
  import opened RequestDispatch

  // ------------------------------------------------------------------ runs with a history

  /** The program's state with what an observer remembers: the bytes that have arrived and left,
      the requests served, and how often the next one has been put back to wait for its data. */
  datatype History = History(s: State, arrived: seq<byte>, sent: seq<byte>, served: nat, waits: nat)

  function Start(): History {
    History(PowerUp(), [], [], 0, 0)
  }

  function Received(e: Event): seq<byte> {
    if e.rx.Some? then [e.rx.value] else []
  }

  function MovePhase(h: History, e: Event): History
    requires h.s.w.WellFormed()
  {
    h.(s := Moved(h.s, e),
       arrived := h.arrived + Received(e),
       sent := h.sent + SentOut(TakeIn(h.s.w, e.rx), e.dir))
  }

  /** A dispatch has served the frame at the head when that frame is gone; it has been put back to
      wait for data when it has set the receive lock. */
  function ServePhase(h: History, e: Event): History
    requires h.s.w.WellFormed()
  {
    var s' := PacketPhase(h.s, e);
    if |s'.w.inq| < |AfterCheck(h.s.w.inq)| then h.(s := s', served := h.served + 1, waits := 0)
    else if h.s.w.receiveMode == 0 && s'.w.receiveMode != 0 then h.(s := s', waits := h.waits + 1)
    else h.(s := s')
  }

  function Pass(h: History, e: Event): (h': History)
    requires h.s.w.WellFormed()
    ensures h'.s == Step(h.s, e)
    ensures h'.s.w.WellFormed()
  {
    DispatchKeepsWellFormed(Moved(h.s, e), e);
    var h2 := ServePhase(MovePhase(h, e), e);
    h2.(s := TickPhase(h2.s, e))
  }

  function Passes(h: History, events: seq<Event>): (h': History)
    requires h.s.w.WellFormed()
    ensures h'.s.w.WellFormed()
    decreases |events|
  {
    if events == [] then h else Passes(Pass(h, events[0]), events[1..])
  }

  // -------------------------------------------------------------------- the environment

  predicate Conforming(reqs: seq<Request>, heap: nat -> bool) {
    ConformingUpTo(reqs, heap, |reqs|)
  }

  /** A retrieval is about to be answered whose answer fills the output ring exactly. */
  predicate FillsExactly(w: World)
    requires w.WellFormed()
  {
    var c := AfterCheck(w.inq);
    && Accepts(w.inq) && AsksForPage(c, w.mem)
    && |w.outq| + |PageReply(c, w.mem)| == QUEUE_SIZE
  }

  /** A command outside the six does what the request that comes next says. */
  predicate Answers(h: History, e: Event, reqs: seq<Request>) {
    h.served < |reqs| ==> Obliges(e, reqs[h.served])
  }

  /** One pass keeps to the rules: what arrives is the next byte of the client's requests, the heap
      and the other commands answer as `heap` and the requests say, and neither ring is filled
      exactly. */
  predicate PassOk(h: History, e: Event, reqs: seq<Request>, heap: nat -> bool)
    requires h.s.w.WellFormed()
  {
    && e.granted == heap(h.served) && Answers(h, e, reqs)
    && h.arrived + Received(e) <= Wire(reqs, |reqs|)
    && |h.s.w.inq| + |Received(e)| < QUEUE_SIZE
    && !FillsExactly(Moved(h.s, e).w)
  }

  predicate PassesOk(h: History, events: seq<Event>, reqs: seq<Request>, heap: nat -> bool)
    requires h.s.w.WellFormed()
    decreases |events|
  {
    events == [] ||
    (PassOk(h, events[0], reqs, heap) && PassesOk(Pass(h, events[0]), events[1..], reqs, heap))
  }

  // ---------------------------------------------------------------------- the invariant

  lemma {:induction false} ConformingPrefix(reqs: seq<Request>, heap: nat -> bool, k: nat, n: nat)
    requires k <= n <= |reqs| && ConformingUpTo(reqs, heap, n)
    ensures ConformingUpTo(reqs, heap, k)
    decreases n
  {
    if k < n { ConformingPrefix(reqs, heap, k, n - 1); }
  }

  lemma {:induction false} WirePrefix(reqs: seq<Request>, k: nat, n: nat)
    requires k <= n <= |reqs|
    ensures Wire(reqs, k) <= Wire(reqs, n)
    decreases n
  {
    hide Encode;
    if k < n { WirePrefix(reqs, k, n - 1); }
  }

  /** The bytes of the next request that have not arrived yet. */
  function Missing(h: History, reqs: seq<Request>): int
    requires h.served < |reqs|
  {
    |Encode(reqs[h.served])| - |h.s.w.inq|
  }

  /** The receive lock is clear, or it is exactly the number of bytes still missing from the data
      frame of the next request, which has been put back for them once. */
  predicate LockExact(h: History, reqs: seq<Request>) {
    if h.waits == 0 then h.s.w.receiveMode == 0
    else
      && h.waits == 1 && h.served < |reqs| && CarriesData(reqs[h.served])
      && h.s.w.receiveMode == if Missing(h, reqs) > 0 then Missing(h, reqs) else 0
  }

  /** Everything the requests served so far explain: the input still holds what arrived behind
      them, and store and output are the sequential service's. */
  predicate Explained(h: History, reqs: seq<Request>, heap: nat -> bool)
    requires Conforming(reqs, heap)
  {
    && h.served <= |reqs|
    && h.arrived == Wire(reqs, h.served) + h.s.w.inq
    && (ConformingPrefix(reqs, heap, h.served, |reqs|);
        (h.s.w.mem, h.sent + h.s.w.outq) == Spec(reqs, heap, h.served))
  }

  predicate Inv(h: History, reqs: seq<Request>, heap: nat -> bool)
    requires Conforming(reqs, heap)
  {
    && h.s.w.WellFormed()
    && Explained(h, reqs, heap)
    && h.arrived <= Wire(reqs, |reqs|)
    && LockExact(h, reqs)
    && h.s.w.sendMode >= 0
    && h.s.table == EmptyTable()
  }

  lemma {:induction false} StartInv(reqs: seq<Request>, heap: nat -> bool)
    requires Conforming(reqs, heap)
    ensures Inv(Start(), reqs, heap)
  {
    ConformingPrefix(reqs, heap, 0, |reqs|);
    assert Wire(reqs, 0) + [] == [];
    WirePrefix(reqs, 0, |reqs|);
  }

  lemma {:induction false} MoveKeepsInv(h: History, e: Event, reqs: seq<Request>, heap: nat -> bool)
    requires Conforming(reqs, heap) && Inv(h, reqs, heap) && PassOk(h, e, reqs, heap)
    ensures Inv(MovePhase(h, e), reqs, heap)
  {
    hide Conforming, FillsExactly, Spec, Wire, Encode, Memstore.WellFormed;
    var h' := MovePhase(h, e);
    var a := TakeIn(h.s.w, e.rx);
    assert a.inq == h.s.w.inq + Received(e);
    assert h'.arrived == Wire(reqs, h.served) + h'.s.w.inq;
    assert h.sent + h.s.w.outq == h'.sent + h'.s.w.outq by {
      if e.dir && a.outq != [] {
        assert a.outq == a.outq[..1] + a.outq[1..];
      }
    }
  }

  /** The input in front of the next request: a part of it, or it and what follows. */
  lemma {:induction false} NextRequest(h: History, reqs: seq<Request>, heap: nat -> bool)
    requires Conforming(reqs, heap) && Inv(h, reqs, heap)
    ensures h.served == |reqs| ==> h.s.w.inq == []
    ensures h.served < |reqs| ==>
              h.s.w.inq <= Encode(reqs[h.served]) || Encode(reqs[h.served]) <= h.s.w.inq
  {
    hide Spec, Encode, ConformingUpTo;
    var all := Wire(reqs, |reqs|);
    if h.served < |reqs| {
      var r := Encode(reqs[h.served]);
      WirePrefix(reqs, h.served + 1, |reqs|);
      var before := Wire(reqs, h.served);
      assert before + h.s.w.inq <= all && before + r <= all;
      Comparable(before, h.s.w.inq, r, all);
    }
  }

  lemma {:induction false} Comparable(a: seq<byte>, x: seq<byte>, y: seq<byte>, all: seq<byte>)
    requires a + x <= all && a + y <= all
    ensures x <= y || y <= x
  {
    assert all[|a|..][..|x|] == x by { assert all[..|a + x|] == a + x; }
    assert all[|a|..][..|y|] == y by { assert all[..|a + y|] == a + y; }
  }

  // ------------------------------------------------------------------ the packet phase

  /** The next request has arrived completely and its answer has room. */
  predicate CanServeNext(h: History, reqs: seq<Request>)
    requires h.s.w.WellFormed()
  {
    && h.served < |reqs|
    && Encode(reqs[h.served]) <= h.s.w.inq
    && CanServe(h.s.w, reqs[h.served])
  }

  /** A text frame at the head carries a name. */
  predicate TextIsNamed(c: seq<byte>) {
    Judge(c).Accept? && c[5] == TEXT_COMMAND ==> HasName(HeadPayload(c))
  }

  /** What a packet check makes of the request `r` that has arrived in part, or in whole with more
      behind it: nothing happens, or it is put back, or it is served. */
  predicate IsHandled(s: State, s': State, r: Request, granted: bool)
    requires s.w.WellFormed() && RequestOk(s.w.mem, r)
  {
    if Encode(r) <= s.w.inq && CanServe(s.w, r) then IsServed(s, s', r, granted, s.w.inq[|Encode(r)|..])
    else s' == s || WaitsForData(s, s', r)
  }

  /** The dispatch in a state of the invariant: nothing happens, or the next request is put back,
      or it is served; it never reads a byte that is not stored. */
  lemma {:induction false} DispatchOfNext(h: History, e: Event, reqs: seq<Request>, heap: nat -> bool)
    requires Conforming(reqs, heap) && Inv(h, reqs, heap)
    requires e.granted == heap(h.served) && Answers(h, e, reqs) && !FillsExactly(h.s.w)
    ensures CheckStaysInModel(h.s.w, e)
    ensures AfterCheck(h.s.w.inq) == h.s.w.inq && TextIsNamed(h.s.w.inq)
    ensures h.served < |reqs| ==> RequestOk(h.s.w.mem, reqs[h.served])
    ensures var s' := Dispatch(h.s, e);
            if h.served < |reqs| then IsHandled(h.s, s', reqs[h.served], e.granted) else s' == h.s
  {
    hide Dispatch, Spec, Wire, FindStart, Judge, Encode, IsHandled, Memstore.WellFormed, RequestOk, FillsExactly;
    hide AfterCheck, Accepts, CheckStaysInModel, TextIsNamed, Obliges;
    NextRequest(h, reqs, heap);
    if h.served == |reqs| {
      NothingToDispatch(h.s, e);
    } else {
      NextIsOk(h, reqs, heap);
      DispatchOfRequest(h.s, reqs[h.served], e);
    }
  }

  lemma {:induction false} DispatchOfRequest(s: State, r: Request, e: Event)
    requires s.w.WellFormed() && RequestOk(s.w.mem, r) && Obliges(e, r) && !FillsExactly(s.w)
    requires CarriesData(r) ==> e.granted
    requires s.w.inq <= Encode(r) || Encode(r) <= s.w.inq
    ensures CheckStaysInModel(s.w, e) && AfterCheck(s.w.inq) == s.w.inq && TextIsNamed(s.w.inq)
    ensures IsHandled(s, Dispatch(s, e), r, e.granted)
  {
    hide Dispatch, FindStart, Judge, Serve, Body, IsServed, Memstore.WellFormed, RequestOk, FillsExactly;
    hide AfterCheck, Accepts, Frame, KindOf, CanServe, Obliges, Dispatchable;
    RequestFitsWire(s.w.mem, r);
    var f := Frame(KindOf(r), Body(r));
    var inq := s.w.inq;
    KindIsKnown(r);
    FrameIsFrame(KindOf(r), Body(r));
    if |inq| < |f| {
      assert inq == f[..|inq|];
      PartialRequestWaits(s, f, e);
    } else {
      var rest := inq[|f|..];
      assert inq == f + rest;
      FillsAsAsked(s.w, r, rest);
      var behind := if |inq| >= |Encode(r)| then inq[|Encode(r)|..] else [];
      SplitRest(r, rest, behind);
      HeadOfRequest(r, rest);
      DispatchRequest(s, r, rest, behind, e);
    }
  }

  lemma {:induction false} KindIsKnown(r: Request)
    ensures KnownType(KindOf(r))
  {
  }

  lemma {:induction false} NothingToDispatch(s: State, e: Event)
    requires s.w.WellFormed() && s.w.inq == []
    ensures Dispatch(s, e) == s && AfterCheck(s.w.inq) == s.w.inq
    ensures CheckStaysInModel(s.w, e) && TextIsNamed(s.w.inq)
  {
  }

  lemma {:induction false} PartialRequestWaits(s: State, f: seq<byte>, e: Event)
    requires s.w.WellFormed() && IsFrame(f) && |s.w.inq| < |f| && s.w.inq == f[..|s.w.inq|]
    ensures Dispatch(s, e) == s && AfterCheck(s.w.inq) == s.w.inq
    ensures CheckStaysInModel(s.w, e) && TextIsNamed(s.w.inq)
  {
    PartialFrameWaits(f, s.w.inq);
  }

  lemma {:induction false} NextIsOk(h: History, reqs: seq<Request>, heap: nat -> bool)
    requires Conforming(reqs, heap) && Inv(h, reqs, heap) && h.served < |reqs|
    ensures RequestOk(h.s.w.mem, reqs[h.served])
    ensures CarriesData(reqs[h.served]) ==> heap(h.served)
  {
    ConformingPrefix(reqs, heap, h.served + 1, |reqs|);
  }

  /** The data behind the command frame, in the shape the request asks for. */
  lemma {:induction false} SplitRest(r: Request, rest: seq<byte>, behind: seq<byte>)
    requires Frame(KindOf(r), Body(r)) + rest <= Encode(r)
          || Encode(r) <= Frame(KindOf(r), Body(r)) + rest
    requires var inq := Frame(KindOf(r), Body(r)) + rest;
             behind == if |inq| >= |Encode(r)| then inq[|Encode(r)|..] else []
    ensures if CarriesData(r) then DataSoFar(r, rest, behind) else rest == behind
  {
    hide Body, Frame;
    var f := Frame(KindOf(r), Body(r));
    var d := DataPart(r);
    var inq := f + rest;
    if |inq| < |Encode(r)| {
      assert inq[|f|..] == Encode(r)[|f|..][..|rest|];
      assert rest == d[..|rest|];
    } else {
      assert inq == Encode(r) + behind;
      assert inq[|f|..] == d + behind;
    }
  }

  /** The exact-fill guard on the input bytes is the one on the request. */
  lemma {:induction false} FillsAsAsked(w: World, r: Request, rest: seq<byte>)
    requires w.WellFormed() && w.inq == Frame(KindOf(r), Body(r)) + rest && RequestOk(w.mem, r)
    requires !FillsExactly(w)
    ensures !WouldFill(w, r)
  {
    hide Judge, AfterCheck, Accepts, Memstore.WellFormed, RetrievePage, Frame, Body, Bytes16;
    HeadOfRequest(r, rest);
    if r.RallocReq? {
      RallocHead(w.inq, r, rest);
    }
  }

  lemma {:induction false} RallocHead(c: seq<byte>, r: Request, rest: seq<byte>)
    requires r.RallocReq? && r.page < 65536 && c == Frame(KindOf(r), Body(r)) + rest
    ensures |c| >= 10 && c[5] == BINARY_COMMAND && c[6] as int == RETRIEVE_ALLOC && c[7] == r.id
    ensures Param16(c[8..]) == r.page
  {
    hide Frame;
    FrameParts(KindOf(r), Body(r), rest);
    assert c[6..] == Body(r) + REAR + rest;
    var d := c[6..];
    assert c[6] == d[0] && c[7] == d[1] && c[8..] == d[2..];
    OneWordParam(d[1..], r.id, r.page, REAR + rest);
    assert d[1..][1..] == d[2..];
  }

  lemma {:induction false} ServeKeepsInv(h: History, e: Event, reqs: seq<Request>, heap: nat -> bool)
    requires Conforming(reqs, heap) && Inv(h, reqs, heap)
    requires e.granted == heap(h.served) && Answers(h, e, reqs) && !FillsExactly(h.s.w)
    ensures Inv(ServePhase(h, e), reqs, heap)
  {
    hide Dispatch, Spec, Wire, Accepts, AfterCheck, Encode, Memstore.WellFormed, Serve, ConformingUpTo;
    if h.s.packetCounter >= MAX_COMMAND_WAIT && Unlocked(h.s.w) {
      DispatchOfNext(h, e, reqs, heap);
      var s' := Dispatch(h.s, e);
      DispatchKeepsWellFormed(h.s, e);
      if CanServeNext(h, reqs) {
        ServedIsExplained(h, s', e, reqs, heap);
        LockAfterIsNat(h.s.w, reqs[h.served], h.s.w.inq[|Encode(reqs[h.served])|..]);
      }
    }
  }

  lemma {:induction false} ServedIsExplained(h: History, s': State, e: Event, reqs: seq<Request>, heap: nat -> bool)
    requires Conforming(reqs, heap) && Inv(h, reqs, heap) && h.served < |reqs| && e.granted == heap(h.served)
    requires RequestOk(h.s.w.mem, reqs[h.served]) && Encode(reqs[h.served]) <= h.s.w.inq
    requires IsServed(h.s, s', reqs[h.served], e.granted, h.s.w.inq[|Encode(reqs[h.served])|..])
    requires s'.w.WellFormed()
    ensures |s'.w.inq| < |h.s.w.inq|
    ensures Explained(h.(s := s', served := h.served + 1, waits := 0), reqs, heap)
  {
    hide Serve, Body, Memstore.WellFormed, RequestOk;
    ConformingPrefix(reqs, heap, h.served, |reqs|);
    ConformingPrefix(reqs, heap, h.served + 1, |reqs|);
    var r := reqs[h.served];
    var answer := Serve(h.s.w.mem, r, e.granted).1;
    assert h.s.w.inq == Encode(r) + s'.w.inq;
    assert Wire(reqs, h.served) + (Encode(r) + s'.w.inq) == Wire(reqs, h.served + 1) + s'.w.inq;
    assert h.sent + (h.s.w.outq + answer) == h.sent + h.s.w.outq + answer;
  }

  // -------------------------------------------------------------------- the tick phase

  lemma {:induction false} NothingDue(now: int, i: nat)
    requires i <= MAX_COMMAND_STATES
    ensures FirstDueFrom(EmptyTable(), now, i) == MAX_COMMAND_STATES
    decreases MAX_COMMAND_STATES - i
  {
    if i < MAX_COMMAND_STATES { NothingDue(now, i + 1); }
  }

  lemma {:induction false} PassKeepsInv(h: History, e: Event, reqs: seq<Request>, heap: nat -> bool)
    requires Conforming(reqs, heap) && Inv(h, reqs, heap) && PassOk(h, e, reqs, heap)
    ensures Inv(Pass(h, e), reqs, heap)
  {
    hide Conforming, ServePhase, FillsExactly, Explained, LockExact;
    MoveKeepsInv(h, e, reqs, heap);
    ServeKeepsInv(MovePhase(h, e), e, reqs, heap);
    NothingDue(e.now, 0);
    TickChangesNothing(ServePhase(MovePhase(h, e), e), e, reqs, heap);
  }

  lemma {:induction false} TickChangesNothing(h: History, e: Event, reqs: seq<Request>, heap: nat -> bool)
    requires Conforming(reqs, heap) && Inv(h, reqs, heap)
    requires FirstDueFrom(EmptyTable(), e.now, 0) == MAX_COMMAND_STATES
    ensures Inv(h.(s := TickPhase(h.s, e)), reqs, heap)
  {
    hide Conforming, Spec, Wire, Encode, FirstDueFrom, Memstore.WellFormed;
  }

  // ------------------------------------------------------------------------ the theorems

  lemma {:induction false} PassesKeepInv(h: History, events: seq<Event>, reqs: seq<Request>, heap: nat -> bool)
    requires Conforming(reqs, heap) && Inv(h, reqs, heap) && PassesOk(h, events, reqs, heap)
    ensures Inv(Passes(h, events), reqs, heap)
    decreases |events|
  {
    hide Conforming, Explained, LockExact, Pass, PassOk;
    if events != [] {
      PassKeepsInv(h, events[0], reqs, heap);
      PassesKeepInv(Pass(h, events[0]), events[1..], reqs, heap);
    }
  }

  /** Against a conforming client, in every interleaving of passes with bytes arriving and leaving
      that fills neither ring exactly: the bytes sent so far followed by the queued output, and the
      store, are what the sequential service makes of the first `served` requests; and what has
      arrived is those requests followed by the unread input. */
  lemma {:induction false} ServiceRefinement(reqs: seq<Request>, heap: nat -> bool, events: seq<Event>)
    requires Conforming(reqs, heap) && PassesOk(Start(), events, reqs, heap)
    ensures var h := Passes(Start(), events);
            && h.served <= |reqs|
            && ConformingUpTo(reqs, heap, h.served)
            && h.sent + h.s.w.outq == Spec(reqs, heap, h.served).1
            && h.s.w.mem == Spec(reqs, heap, h.served).0
            && h.arrived == Wire(reqs, h.served) + h.s.w.inq
  {
    hide Passes, PassesOk, Start, Spec, Wire;
    StartInv(reqs, heap);
    PassesKeepInv(Start(), events, reqs, heap);
    ConformingPrefix(reqs, heap, Passes(Start(), events).served, |reqs|);
  }

  /** In each of those states the receive lock is never negative; a request is put back to wait for
      its data at most once; and while it waits the lock is exactly the number of bytes that are
      still missing, so it is positive until the data frame is complete and clear from then on. */
  lemma {:induction false} ReceiveLockIsExact(reqs: seq<Request>, heap: nat -> bool, events: seq<Event>)
    requires Conforming(reqs, heap) && PassesOk(Start(), events, reqs, heap)
    ensures var h := Passes(Start(), events);
            && h.waits <= 1 && h.s.w.receiveMode >= 0
            && (h.waits == 0 ==> h.s.w.receiveMode == 0)
            && (h.waits == 1 ==>
                  && h.served < |reqs| && CarriesData(reqs[h.served])
                  && (Missing(h, reqs) > 0 ==> h.s.w.receiveMode == Missing(h, reqs))
                  && (Missing(h, reqs) <= 0 ==> h.s.w.receiveMode == 0))
  {
    hide Passes, PassesOk, Start, Spec, Wire, Encode;
    StartInv(reqs, heap);
    PassesKeepInv(Start(), events, reqs, heap);
  }

  // --------------------------------------------------------------------------- progress

  predicate GateOpen(h: History) {
    h.s.packetCounter >= MAX_COMMAND_WAIT && Unlocked(h.s.w)
  }

  /** A request that has arrived and whose answer has room is served by the next packet check. */
  lemma {:induction false} NextIsServed(h: History, e: Event, reqs: seq<Request>, heap: nat -> bool)
    requires Conforming(reqs, heap) && Inv(h, reqs, heap) && GateOpen(h)
    requires e.granted == heap(h.served) && Answers(h, e, reqs) && !FillsExactly(h.s.w)
    ensures ServePhase(h, e).served == if CanServeNext(h, reqs) then h.served + 1 else h.served
  {
    hide Dispatch, Spec, Wire, Accepts, AfterCheck, Encode, Memstore.WellFormed, Serve, ConformingUpTo;
    DispatchOfNext(h, e, reqs, heap);
    if CanServeNext(h, reqs) {
      DispatchKeepsWellFormed(h.s, e);
      ServedIsExplained(h, Dispatch(h.s, e), e, reqs, heap);
    }
  }

  /** Once every byte has arrived and the output has drained, each packet check that is let through
      serves a request, until all are served: nothing but a lock can hold the service up. */
  lemma {:induction false} QuietMeansServed(h: History, e: Event, reqs: seq<Request>, heap: nat -> bool)
    requires Conforming(reqs, heap) && Inv(h, reqs, heap) && GateOpen(h)
    requires e.granted == heap(h.served) && Answers(h, e, reqs)
    requires h.arrived == Wire(reqs, |reqs|) && h.s.w.outq == []
    ensures !FillsExactly(h.s.w)
    ensures h.served < |reqs| ==> ServePhase(h, e).served == h.served + 1
  {
    hide Spec, Accepts, AfterCheck, Encode, Serve, ConformingUpTo, ServePhase, PageReply;
    DrainedNeverFills(h.s.w);
    NextIsServed(h, e, reqs, heap);
    if h.served < |reqs| {
      var r := reqs[h.served];
      WholeRequestIsThere(h, reqs, heap);
      if r.RallocReq? { PageSizeInRange(h.s.w.mem, r.id); }
    }
  }

  lemma {:induction false} DrainedNeverFills(w: World)
    requires w.WellFormed() && |w.outq| < 0x1_0000
    ensures !FillsExactly(w)
  {
    hide Judge, Accepts, AfterCheck, Memstore.WellFormed, RetrievePage;
    var c := AfterCheck(w.inq);
    if Accepts(w.inq) && AsksForPage(c, w.mem) {
      PageSizeInRange(w.mem, c[7]);
    }
  }

  lemma {:induction false} WholeRequestIsThere(h: History, reqs: seq<Request>, heap: nat -> bool)
    requires Conforming(reqs, heap) && Inv(h, reqs, heap) && h.served < |reqs|
    requires h.arrived == Wire(reqs, |reqs|)
    ensures Encode(reqs[h.served]) <= h.s.w.inq
  {
    hide Spec, Encode, ConformingUpTo;
    NextRequest(h, reqs, heap);
    WirePrefix(reqs, h.served + 1, |reqs|);
  }
}
