/** The program against a conforming client: the loop of `mcp_pi.c`, pass by pass on the rings and
    tables it updates in place, answers as the sequential service does. */
module ProgramRefinement {
  import opened Bytes
  import opened RingQueue
  import opened FrameCodec
  import opened Memstore
  import opened MainLoop
  import opened Refinement
  import opened Service
  import opened Server

  /** What arrives keeps every pass inside the model: no command reads a byte that is not stored,
      and no text name steps the read index back. */
  lemma {:induction false} PassIsDefined(h: History, e: Event, reqs: seq<Request>, heap: nat -> bool, readNext: int)
    requires Conforming(reqs, heap) && Inv(h, reqs, heap) && PassOk(h, e, reqs, heap)
    ensures CheckStaysInModel(Moved(h.s, e).w, e)
    ensures !TextUnderflows(Moved(h.s, e).w.inq, readNext)
  {
    hide Conforming, FillsExactly, Explained, LockExact, Dispatch, Accepts, AfterCheck, Dispatchable;
    hide TextIsNamed, TextUnderflows;
    MoveKeepsInv(h, e, reqs, heap);
    DispatchOfNext(MovePhase(h, e), e, reqs, heap);
    NamedTextStays(Moved(h.s, e).w.inq, readNext);
  }

  lemma {:induction false} NamedTextStays(c: seq<byte>, readNext: int)
    requires AfterCheck(c) == c && TextIsNamed(c)
    ensures !TextUnderflows(c, readNext)
  {
    hide Judge, FindStart;
    if Accepts(c) {
      AcceptedHead(c);
    }
  }

  /** Runs the loop for as many passes as there are events, and returns the bytes sent. For some
      number of requests served, the bytes sent and still queued are the answers to them, and the
      allocations are what they have made of the empty store. */
  method RunLoop(p: Program, events: seq<Event>, ghost reqs: seq<Request>, ghost heap: nat -> bool)
    returns (sent: seq<byte>, ghost served: nat)
    requires p.Valid() && p.S() == PowerUp()
    requires Conforming(reqs, heap) && PassesOk(Start(), events, reqs, heap)
    modifies p, p.m, p.m.inq, p.m.inq.data, p.m.outq, p.m.outq.data, p.m.table.Repr, p.states.states
    ensures p.Valid() && served <= |reqs| && ConformingUpTo(reqs, heap, served)
    ensures served == Passes(Start(), events).served
    ensures sent + p.m.outq.contents == Spec(reqs, heap, served).1
    ensures p.m.table.store == Spec(reqs, heap, served).0
  {
    hide Conforming, ConformingUpTo, Explained, LockExact, Queue.Valid, MemoryTable.Valid, Spec, Wire;
    hide PassOk, Step, MovePhase, ServePhase, TextUnderflows, CheckStaysInModel, TakeIn, SendOut, SentOut;
    sent := [];
    ghost var h := Start();
    StartInv(reqs, heap);
    for i := 0 to |events|
      invariant p.Valid() && fresh(p.m.table.Repr - old(p.m.table.Repr))
      invariant h.s == p.S() && h.sent == sent && h.s.w.WellFormed()
      invariant Inv(h, reqs, heap) && PassesOk(h, events[i..], reqs, heap)
      invariant Passes(h, events[i..]) == Passes(Start(), events)
    {
      var e := events[i];
      assert events[i..][0] == e && events[i..][1..] == events[i + 1..];
      PassIsDefined(h, e, reqs, heap, p.m.inq.readNext);
      PassKeepsInv(h, e, reqs, heap);
      SentByPass(h, e);
      var out := p.Pass(e);
      sent := sent + out;
      h := Pass(h, e);
    }
    served := h.served;
    InvExplains(h, reqs, heap);
  }

  lemma {:induction false} SentByPass(h: History, e: Event)
    requires h.s.w.WellFormed()
    ensures Pass(h, e).sent == h.sent + SentOut(TakeIn(h.s.w, e.rx), e.dir)
  {
    hide Step, PacketPhase, TickPhase;
  }

  lemma {:induction false} InvExplains(h: History, reqs: seq<Request>, heap: nat -> bool)
    requires Conforming(reqs, heap) && Inv(h, reqs, heap)
    ensures h.served <= |reqs| && ConformingUpTo(reqs, heap, h.served)
    ensures (h.s.w.mem, h.sent + h.s.w.outq) == Spec(reqs, heap, h.served)
  {
    hide Spec, Wire;
    ConformingPrefix(reqs, heap, h.served, |reqs|);
  }
}
