/** A client that does not wait: an allocation, a retrieval and two releases sent at a stretch. It conforms,
    and yet the retrieval's send lock stops the service for good. */
module Pipeline {
  import opened Bytes
  import opened FrameCodec
  import opened Memstore
  import opened MemoryCommands
  import opened Scheduler
  import opened MainLoop
  import opened SendLock
  import opened Refinement
  import opened RequestDispatch
  import opened Service
  import opened Conversation

  /** CALLOC of one page of 1024 bytes, RALLOC of it, and FALLOC twice. */
  predicate Pipelined(reqs: seq<Request>) {
    && |reqs| == 4
    && reqs[0] == CallocReq(1, 1) && reqs[1] == RallocReq(1, 0)
    && reqs[2] == FallocReq(1) && reqs[3] == FallocReq(1)
  }

  lemma {:induction false} PipelinedIsFour(reqs: seq<Request>)
    requires Pipelined(reqs)
    ensures |reqs| == 4
  {
  }

  /** A heap that grants everything. */
  ghost predicate Generous(heap: nat -> bool) {
    forall k: nat :: heap(k)
  }

  lemma {:induction false} RequestsConform(reqs: seq<Request>, heap: nat -> bool)
    requires Pipelined(reqs) && Generous(heap)
    ensures Conforming(reqs, heap)
  {
    hide Spec, Serve;
    assert ConformingUpTo(reqs, heap, 0);
    assert ConformingUpTo(reqs, heap, 1);
    assert ConformingUpTo(reqs, heap, 2);
    assert ConformingUpTo(reqs, heap, 3);
  }

  lemma {:induction false} RequestSizes(reqs: seq<Request>)
    requires Pipelined(reqs)
    ensures |Encode(reqs[0])| == 13 && |Encode(reqs[1])| == 13
    ensures |Wire(reqs, 1)| == 13 && |Wire(reqs, 2)| == 26 && |Wire(reqs, 4)| == 48
  {
    hide Body, Frame, Encode;
    forall k | 0 <= k < 4 ensures |Encode(reqs[k])| == if k < 2 then 13 else 11 {
      RequestSizeIs(reqs[k]);
    }
    assert |Wire(reqs, 0)| == 0;
    assert |Wire(reqs, 1)| == 13;
    assert |Wire(reqs, 2)| == 26;
    assert |Wire(reqs, 3)| == 37;
  }

  lemma {:induction false} RequestSizeIs(r: Request)
    ensures !CarriesData(r) ==> |Encode(r)| == 9 + |Body(r)|
    ensures r.CallocReq? || r.RallocReq? ==> |Body(r)| == 4
    ensures r.FallocReq? ==> |Body(r)| == 2
  {
  }

  /** A byte arrives and a byte may leave. */
  function Arriving(b: byte): Event {
    Event(Some(b), true, true, General(0, None, true), General(0, None, true), 0, 0, 0)
  }

  function ArrivingAll(bs: seq<byte>): (events: seq<Event>)
    ensures |events| == |bs|
  {
    if bs == [] then [] else [Arriving(bs[0])] + ArrivingAll(bs[1..])
  }

  /** The state between two packet checks: no lock, little output, and the next request not put back. */
  predicate Ready(h: History, reqs: seq<Request>, heap: nat -> bool) {
    && Conforming(reqs, heap) && Inv(h, reqs, heap)
    && Unlocked(h.s.w) && h.waits == 0 && |h.s.w.outq| <= 20 && |h.s.w.inq| <= 100
  }

  lemma {:induction false} ArrivingIsOk(h: History, b: byte, reqs: seq<Request>, heap: nat -> bool)
    requires Pipelined(reqs)
    requires Ready(h, reqs, heap) && Generous(heap)
    requires h.arrived + [b] <= Wire(reqs, 4)
    ensures PassOk(h, Arriving(b), reqs, heap)
  {
    hide Conforming, Inv, FillsExactly, Wire, Judge;
    ReadyIsWellFormed(h, reqs, heap);
    DrainedNeverFills(Moved(h.s, Arriving(b)).w);
  }

  lemma {:induction false} ReadyIsWellFormed(h: History, reqs: seq<Request>, heap: nat -> bool)
    requires Ready(h, reqs, heap)
    ensures h.s.w.WellFormed() && h.s.table == EmptyTable()
  {
    hide Conforming, Explained, LockExact;
  }

  /** A pass before the packet check only moves bytes. */
  lemma {:induction false} ArrivingPass(h: History, b: byte, reqs: seq<Request>, heap: nat -> bool)
    requires Pipelined(reqs)
    requires Ready(h, reqs, heap) && Generous(heap) && h.s.packetCounter < MAX_COMMAND_WAIT
    requires h.arrived + [b] <= Wire(reqs, 4) && |h.s.w.inq| < 100
    ensures PassOk(h, Arriving(b), reqs, heap)
    ensures var h1 := Pass(h, Arriving(b));
            && Ready(h1, reqs, heap)
            && h1.s.w == h.s.w.(inq := h.s.w.inq + [b], outq := Left(h.s.w.outq, true))
            && h1.served == h.served && h1.arrived == h.arrived + [b]
            && h1.s.packetCounter == h.s.packetCounter + 1
  {
    hide Conforming, Explained, LockExact, Wire, TickPhase, Dispatch, FillsExactly, PassOk, Memstore.WellFormed;
    ArrivingIsOk(h, b, reqs, heap);
    PassKeepsInv(h, Arriving(b), reqs, heap);
    IdleTick(ServePhase(MovePhase(h, Arriving(b)), Arriving(b)).s, Arriving(b));
  }

  /** Up to twenty bytes arrive before the packet check, and that much output leaves. */
  lemma {:induction false} FeedPasses(h: History, bs: seq<byte>, reqs: seq<Request>, heap: nat -> bool)
    requires Pipelined(reqs)
    requires Ready(h, reqs, heap) && Generous(heap) && h.s.packetCounter + |bs| <= MAX_COMMAND_WAIT
    requires h.arrived + bs <= Wire(reqs, 4) && |h.s.w.inq| + |bs| <= 100
    ensures PassesOk(h, ArrivingAll(bs), reqs, heap)
    ensures var h1 := Passes(h, ArrivingAll(bs));
            && Ready(h1, reqs, heap)
            && h1.s.w == h.s.w.(inq := h.s.w.inq + bs, outq := h1.s.w.outq)
            && (|bs| >= |h.s.w.outq| ==> h1.s.w.outq == [])
            && h1.served == h.served && h1.arrived == h.arrived + bs
            && h1.s.packetCounter == h.s.packetCounter + |bs|
    decreases |bs|
  {
    hide Inv, Conforming, Wire, Pass, Step, PassOk, Unlocked;
    if bs == [] {
      assert h.s.w.inq + [] == h.s.w.inq && h.arrived + [] == h.arrived;
    } else {
      assert h.arrived + [bs[0]] + bs[1..] == h.arrived + bs;
      assert h.s.w.inq + [bs[0]] + bs[1..] == h.s.w.inq + bs;
      ArrivingPass(h, bs[0], reqs, heap);
      FeedPasses(Pass(h, Arriving(bs[0])), bs[1..], reqs, heap);
    }
  }

  /** The packet check in the pass of one more byte serves the next request. */
  lemma {:induction false} CheckPass(h: History, b: byte, reqs: seq<Request>, heap: nat -> bool)
    requires Pipelined(reqs)
    requires Ready(h, reqs, heap) && Generous(heap) && h.s.packetCounter == MAX_COMMAND_WAIT
    requires h.arrived + [b] <= Wire(reqs, 4) && |h.s.w.inq| < 100 && h.s.w.outq == []
    requires h.served < 4 && Encode(reqs[h.served]) <= h.s.w.inq
    ensures h.s.w.WellFormed() && RequestOk(h.s.w.mem, reqs[h.served])
    ensures PassOk(h, Arriving(b), reqs, heap)
    ensures var r, w, h1 := reqs[h.served], h.s.w, Pass(h, Arriving(b));
            var behind := (w.inq + [b])[|Encode(r)|..];
            var (mem, answer) := Serve(w.mem, r, true);
            && Inv(h1, reqs, heap) && h1.served == h.served + 1 && h1.arrived == h.arrived + [b]
            && h1.waits == 0 && h1.s.packetCounter == 0
            && h1.s.w == w.(inq := behind, outq := answer, mem := mem, sendMode := LockAfter(w, r, behind))
  {
    hide Conforming, Explained, LockExact, Wire, TickPhase, Dispatch, FillsExactly, PassOk, Memstore.WellFormed;
    hide Encode, Serve, RequestOk, LockAfter, AfterCheck, Accepts, Judge, CanServe;
    var e := Arriving(b);
    ArrivingIsOk(h, b, reqs, heap);
    NextIsOk(h, reqs, heap);
    PassKeepsInv(h, e, reqs, heap);
    MoveKeepsInv(h, e, reqs, heap);
    var moved := MovePhase(h, e);
    var r := reqs[h.served];
    assert moved.s.w == h.s.w.(inq := h.s.w.inq + [b]);
    DrainedNeverFills(moved.s.w);
    DispatchOfNext(moved, e, reqs, heap);
    ServeKeepsInv(moved, e, reqs, heap);
    EmptyHasRoom(moved.s.w, r);
    NextSize(h, reqs, heap);
    assert Encode(r) <= moved.s.w.inq;
    assert IsServed(moved.s, Dispatch(moved.s, e), r, true, moved.s.w.inq[|Encode(r)|..]);
    SameLock(h.s.w, moved.s.w, r, moved.s.w.inq[|Encode(r)|..]);
    IdleTick(ServePhase(moved, e).s, e);
  }

  lemma {:induction false} EmptyHasRoom(w: World, r: Request)
    requires w.WellFormed() && w.outq == []
    ensures CanServe(w, r)
  {
    if r.RallocReq? {
      PageSizeInRange(w.mem, r.id);
    }
  }

  lemma {:induction false} SameLock(w: World, w': World, r: Request, behind: seq<byte>)
    requires w'.mem == w.mem && w'.sendMode == w.sendMode
    ensures LockAfter(w', r, behind) == LockAfter(w, r, behind)
  {
  }

  lemma {:induction false} RunInTwo(h: History, a: seq<Event>, b: seq<Event>, reqs: seq<Request>, heap: nat -> bool)
    requires h.s.w.WellFormed()
    requires PassesOk(h, a, reqs, heap) && PassesOk(Passes(h, a), b, reqs, heap)
    ensures PassesOk(h, a + b, reqs, heap) && Passes(h, a + b) == Passes(Passes(h, a), b)
    decreases |a|
  {
    hide Pass, PassOk, Step;
    if a == [] {
      assert a + b == b;
    } else {
      assert (a + b)[0] == a[0] && (a + b)[1..] == a[1..] + b;
      RunInTwo(Pass(h, a[0]), a[1..], b, reqs, heap);
    }
  }

  /** Twenty bytes, and one more in the pass with the packet check, which serves the next request. */
  lemma {:induction false} Round(h: History, bs: seq<byte>, reqs: seq<Request>, heap: nat -> bool)
    requires Pipelined(reqs)
    requires Ready(h, reqs, heap) && Generous(heap) && h.s.packetCounter == 0
    requires |bs| == 21 && h.arrived + bs <= Wire(reqs, 4) && |h.s.w.inq| <= 50
    requires h.served < 4 && Encode(reqs[h.served]) <= h.s.w.inq + bs[..20]
    ensures h.s.w.WellFormed() && RequestOk(h.s.w.mem, reqs[h.served])
    ensures var events := ArrivingAll(bs[..20]) + [Arriving(bs[20])];
            var r, w, h1 := reqs[h.served], h.s.w, Passes(h, events);
            var behind := (w.inq + bs)[|Encode(r)|..];
            var (mem, answer) := Serve(w.mem, r, true);
            && PassesOk(h, events, reqs, heap)
            && Inv(h1, reqs, heap) && h1.served == h.served + 1 && h1.arrived == h.arrived + bs
            && h1.waits == 0 && h1.s.packetCounter == 0
            && h1.s.w == w.(inq := behind, outq := answer, mem := mem, sendMode := LockAfter(w, r, behind))
  {
    hide Conforming, Inv, Wire, Pass, Step, PassOk, Encode, Serve, RequestOk, LockAfter;
    var feed, last := ArrivingAll(bs[..20]), [Arriving(bs[20])];
    assert bs == bs[..20] + [bs[20]];
    assert h.arrived + bs == h.arrived + bs[..20] + [bs[20]];
    assert h.s.w.inq + bs == h.s.w.inq + bs[..20] + [bs[20]];
    FeedPasses(h, bs[..20], reqs, heap);
    var h1 := Passes(h, feed);
    CheckPass(h1, bs[20], reqs, heap);
    OnePass(h1, last[0], reqs, heap);
    RunInTwo(h, feed, last, reqs, heap);
    SameLock(h.s.w, h1.s.w, reqs[h.served], (h.s.w.inq + bs)[|Encode(reqs[h.served])|..]);
  }

  lemma {:induction false} OnePass(h: History, e: Event, reqs: seq<Request>, heap: nat -> bool)
    requires h.s.w.WellFormed() && PassOk(h, e, reqs, heap)
    ensures PassesOk(h, [e], reqs, heap) && Passes(h, [e]) == Pass(h, e)
  {
    hide Pass, PassOk, Step;
    assert [e][1..] == [];
  }

  // ------------------------------------------------------------------------ the theorem

  function Schedule(reqs: seq<Request>): seq<Event>
    requires Pipelined(reqs)
  {
    var bs := Wire(reqs, 4);
    RequestSizes(reqs);
    ArrivingAll(bs[..20]) + [Arriving(bs[20])] + (ArrivingAll(bs[21..41]) + [Arriving(bs[41])])
  }

  lemma {:induction false} StartIsReady(reqs: seq<Request>, heap: nat -> bool)
    requires Pipelined(reqs) && Generous(heap)
    ensures Ready(Start(), reqs, heap)
  {
    hide ConformingUpTo;
    RequestsConform(reqs, heap);
    StartInv(reqs, heap);
  }

  lemma {:induction false} RequestsAreThere(reqs: seq<Request>)
    requires Pipelined(reqs)
    ensures var bs := Wire(reqs, 4);
            && |bs| == 48 && |Encode(reqs[0])| == |Encode(reqs[1])| == 13
            && Encode(reqs[0]) <= bs[..20] && Encode(reqs[1]) <= bs[13..41]
  {
    hide Encode, Pipelined;
    RequestSizes(reqs);
    PipelinedIsFour(reqs);
    WirePrefix(reqs, 2, 4);
    var bs := Wire(reqs, 4);
    assert Wire(reqs, 1) == Encode(reqs[0]);
    assert bs[..26] == Encode(reqs[0]) + Encode(reqs[1]);
    assert bs[13..26] == Encode(reqs[1]) && bs[..13] == Encode(reqs[0]);
  }

  lemma {:induction false} AllocationServed(reqs: seq<Request>)
    requires Pipelined(reqs)
    ensures RequestOk(EmptyStore(), reqs[0])
    ensures var (mem, answer) := Serve(EmptyStore(), reqs[0], true);
            |answer| == 12 && WellFormed(mem) && HasPage(mem, 1, 0) && PageSize(mem, 1) == 1024
  {
    OneAllocation();
  }

  /** The answer is 1047 bytes long, and the lock counts five more. */
  lemma {:induction false} RetrievalIsUncovered(w: World, behind: seq<byte>, reqs: seq<Request>)
    requires Pipelined(reqs)
    requires w.WellFormed() && HasPage(w.mem, 1, 0) && PageSize(w.mem, 1) == 1024 && |behind| == 16
    ensures var r := reqs[1];
            && RequestOk(w.mem, r)
            && var (mem, answer) := Serve(w.mem, r, true);
              mem == w.mem && LockAfter(w, r, behind) == |answer| + 5
  {
  }

  lemma {:induction false} FirstRound(reqs: seq<Request>, heap: nat -> bool)
    requires Pipelined(reqs) && Generous(heap)
    ensures var bs := Wire(reqs, 4);
            && |bs| == 48
            && var events := ArrivingAll(bs[..20]) + [Arriving(bs[20])];
              && PassesOk(Start(), events, reqs, heap)
              && var h := Passes(Start(), events);
                && Ready(h, reqs, heap) && h.served == 1 && h.s.packetCounter == 0
                && h.arrived == bs[..21] && h.s.w.inq == bs[13..21]
                && HasPage(h.s.w.mem, 1, 0) && PageSize(h.s.w.mem, 1) == 1024
  {
    hide Conforming, Wire, Pass, Step, PassOk, Encode, Passes, PassesOk, Serve, ArrivingAll;
    hide Explained, LockExact, RequestOk;
    var bs := Wire(reqs, 4);
    RequestsAreThere(reqs);
    StartIsReady(reqs, heap);
    AllocationServed(reqs);
    assert [] + bs[..21] == bs[..21] && bs[..21][..20] == bs[..20] && bs[..21] <= bs;
    assert bs[..21][13..] == bs[13..21];
    Round(Start(), bs[..21], reqs, heap);
  }

  lemma {:induction false} ScheduleStops(reqs: seq<Request>, heap: nat -> bool)
    requires Pipelined(reqs) && Generous(heap)
    ensures Conforming(reqs, heap) && PassesOk(Start(), Schedule(reqs), reqs, heap)
    ensures var h := Passes(Start(), Schedule(reqs));
            h.served == 2 && h.s.w.sendMode > |h.s.w.outq| && Live(h.s.w.mem, 1)
  {
    hide Conforming, Wire, Pass, Step, PassOk, Encode, Passes, PassesOk, Serve, LockAfter, ArrivingAll, Inv;
    hide RequestOk;
    var bs := Wire(reqs, 4);
    FirstRound(reqs, heap);
    RequestsAreThere(reqs);
    var first, second := ArrivingAll(bs[..20]) + [Arriving(bs[20])], ArrivingAll(bs[21..41]) + [Arriving(bs[41])];
    var h := Passes(Start(), first);
    ReadyIsWellFormed(h, reqs, heap);
    var more := bs[21..42];
    assert more[..20] == bs[21..41] && h.arrived + more == bs[..42] && bs[..42] <= bs;
    assert bs[13..21] + bs[21..41] == bs[13..41];
    Round(h, more, reqs, heap);
    RunInTwo(Start(), first, second, reqs, heap);
    RetrievalIsUncovered(h.s.w, (h.s.w.inq + more)[13..], reqs);
  }

  function Stopped(reqs: seq<Request>): (s: State)
    requires Pipelined(reqs)
    ensures s.w.WellFormed()
  {
    Passes(Start(), Schedule(reqs)).s
  }

  /** A conforming client, a schedule that keeps to every rule, and two requests served: yet from there no
      schedule whatever releases the lock, and the allocation that the client releases twice over stays
      live for ever. */
  lemma {:induction false} PipelinedClientStops(reqs: seq<Request>, heap: nat -> bool, events: seq<Event>)
    requires Pipelined(reqs) && Generous(heap)
    ensures Conforming(reqs, heap) && PassesOk(Start(), Schedule(reqs), reqs, heap)
    ensures Passes(Start(), Schedule(reqs)).s == Stopped(reqs) && Passes(Start(), Schedule(reqs)).served == 2
    ensures !Releases(Stopped(reqs), events)
    ensures Run(Stopped(reqs), events).w.mem == Stopped(reqs).w.mem && Live(Stopped(reqs).w.mem, 1)
  {
    hide Conforming, PassesOk, Passes, Releases, Run, Schedule;
    ScheduleStops(reqs, heap);
    UncoveredLockIsNotReleased(Stopped(reqs), events);
    LockedForEver(Stopped(reqs), events);
  }
}
