/** A memory command that cannot run yet is put back as if it had never been read, and however
    often that happens the outcome is the one it would have had at once. */
module Deferral {
  import opened Bytes
  import opened RingQueue
  import opened FrameCodec
  import opened Packet
  import opened Memstore
  import opened CommandText
  import opened MemoryCommands
  import opened Scheduler
  import opened MainLoop

  /** The pass dispatches a memory command and `process_command` answers FALSE. */
  predicate Deferred(s: State, e: Event)
    requires s.w.WellFormed()
  {
    var c := AfterCheck(s.w.inq);
    && Judge(c).Accept? && Accepts(s.w.inq) && Dispatchable(c, s.w, e)
    && var h := ReadHead(c);
      h.Command? && IsMemoryCommand(h.id) && !Process(h.id, s.w.(inq := h.rest), s.table, e).ok
  }

  /** The two worlds differ in the receive lock at most. */
  predicate SameButLock(a: World, b: World) {
    a.(receiveMode := 0) == b.(receiveMode := 0)
  }

  lemma {:induction false} UnfinishedChangesNothing(id: nat, w: World, e: Event)
    requires IsMemoryCommand(id) && w.WellFormed() && HasRoom(w) && Readable(id, w, e)
    ensures var o := MemoryCommand(id, w, e);
            !o.done ==> && SameButLock(o.w.(inq := []), w.(inq := []))
                        && (id == RETRIEVE_ALLOC || id == STORE_ALLOC || id == INSERT_ALLOC)
  {
    hide PutFrame, StoreData, InsertData, AfterCheck, Accepts, SkipTerminator, Judge, Param32;
  }

  /** After a deferral the output, the store, the pending commands and the counters are exactly as
      before, and so is the input from the frame on; only the receive lock may differ. */
  lemma {:induction false} DeferralIsAtomic(s: State, e: Event)
    requires s.w.WellFormed() && Deferred(s, e)
    ensures Dispatch(s, e)
         == s.(w := s.w.(inq := AfterCheck(s.w.inq), receiveMode := Dispatch(s, e).w.receiveMode))
    ensures StartsFrame(s.w.inq) ==> Dispatch(s, e).w.inq == s.w.inq
  {
    hide MemoryCommand, ReadHead, Judge, SkipTerminator, Park, PutFrame, Readable, StartsFrame;
    var c := AfterCheck(s.w.inq);
    var h := ReadHead(c);
    var w := s.w.(inq := h.rest);
    if SpaceFor(|w.outq|, OutQueueSpace(h.id)) {
      UnfinishedChangesNothing(h.id, w, e);
    }
    if StartsFrame(s.w.inq) { AcceptedAtHead(s.w.inq); }
  }

  lemma {:induction false} AcceptedAtHead(c: seq<byte>)
    requires Accepts(c) && StartsFrame(c)
    ensures AfterCheck(c) == c
  {
    assert c[0..] == c;
  }

  // ------------------------------------------------------------ deferring many times

  /** Between two tries `x` arrives and `sent` bytes of output leave. */
  datatype Retry = Retry(e: Event, x: seq<byte>, sent: nat)

  predicate CanFeed(s: State, x: seq<byte>, sent: nat) {
    |s.w.inq| + |x| < QUEUE_SIZE && sent <= |s.w.outq|
  }

  function Feed(s: State, x: seq<byte>, sent: nat): State
    requires CanFeed(s, x, sent)
  {
    s.(w := s.w.(inq := s.w.inq + x, outq := s.w.outq[sent..]))
  }

  /** `s'` is reached from `s` by tries that are all deferred, with bytes moving in between. */
  ghost predicate DeferredTries(s: State, tries: seq<Retry>, s': State)
    decreases |tries|
  {
    s.w.WellFormed() && s'.w.WellFormed() &&
    if tries == [] then s' == s
    else
      var t := tries[0];
      && Deferred(s, t.e)
      && CanFeed(Dispatch(s, t.e), t.x, t.sent)
      && DeferredTries(Feed(Dispatch(s, t.e), t.x, t.sent), tries[1..], s')
  }

  function FedBytes(tries: seq<Retry>): seq<byte>
    decreases |tries|
  {
    if tries == [] then [] else tries[0].x + FedBytes(tries[1..])
  }

  function SentBytes(tries: seq<Retry>): nat
    decreases |tries|
  {
    if tries == [] then 0 else tries[0].sent + SentBytes(tries[1..])
  }

  /** An accepted frame stays accepted, at the same place, whatever arrives behind it. */
  lemma {:induction false} AcceptedStays(c: seq<byte>, x: seq<byte>)
    requires Accepts(c)
    ensures Accepts(c + x) && AfterCheck(c + x) == AfterCheck(c) + x
    ensures Accepts(AfterCheck(c) + x) && AfterCheck(AfterCheck(c) + x) == AfterCheck(c) + x
  {
    var i := FindStart(c);
    var d := c[i..];
    JudgeIsStable(d, x);
    GarbageLeavesTwo(c);
    GarbageStaysGarbage(c, x);
    FindStartSkips(c + x, i);
    assert (c + x)[i..] == d + x;
    assert StartsFrame(d + x) by { assert (d + x)[..3] == d[..3]; }
    assert (d + x)[0..] == d + x;
  }

  lemma {:induction false} TriesLeaveNoTrace(s: State, tries: seq<Retry>, s': State)
    requires DeferredTries(s, tries, s') && tries != []
    ensures Accepts(s.w.inq) && s'.w.WellFormed()
    ensures s'.w.inq == AfterCheck(s.w.inq) + FedBytes(tries)
    ensures SentBytes(tries) <= |s.w.outq| && s'.w.outq == s.w.outq[SentBytes(tries)..]
    ensures s'.w.mem == s.w.mem && s'.w.sendMode == s.w.sendMode
    ensures s' == s.(w := s'.w)
    decreases |tries|
  {
    hide Dispatch, Judge, Accepts, AfterCheck, ReadHead, Process, Dispatchable;
    var t := tries[0];
    DeferralIsAtomic(s, t.e);
    var next := Feed(Dispatch(s, t.e), t.x, t.sent);
    if |tries| == 1 {
      assert FedBytes(tries[1..]) == [];
      assert t.x + [] == t.x;
    } else {
      TriesLeaveNoTrace(next, tries[1..], s');
      AcceptedStays(s.w.inq, t.x);
      assert AfterCheck(s.w.inq) + t.x + FedBytes(tries[1..]) == AfterCheck(s.w.inq) + FedBytes(tries);
      assert s.w.outq[t.sent..][SentBytes(tries[1..])..] == s.w.outq[SentBytes(tries)..];
    }
  }

  /** No command looks at the receive lock. */
  lemma {:induction false} LockDoesNotSteer(id: nat, w: World, r: int, t: Table, e: Event)
    requires w.WellFormed() && Readable(id, w, e)
    ensures Readable(id, w.(receiveMode := r), e)
    ensures var p, q := Process(id, w, t, e), Process(id, w.(receiveMode := r), t, e);
            q.ok == p.ok && q.table == p.table && SameButLock(q.w, p.w)
  {
    hide PutFrame, StorePage, Insert, Cut, Create, Free, RetrievePage;
    hide AfterCheck, Accepts, SkipTerminator, SkipDataFrame, Judge, Param32, Park, Memstore.WellFormed;
    hide StoreData, InsertData;
    if id == STORE_ALLOC && HasRoom(w) { StoreLock(w, r, e.granted); }
    if id == INSERT_ALLOC && HasRoom(w) { InsertLock(w, r, e.granted); }
  }

  lemma {:induction false} StoreLock(w: World, r: int, granted: bool)
    requires w.WellFormed() && HasRoom(w) && |w.inq| >= 3 && StoreCanSkip(w, granted)
    ensures var o, o' := StoreAlloc(w, granted), StoreAlloc(w.(receiveMode := r), granted);
            o.done == o'.done && SameButLock(o.w, o'.w)
  {
    hide PutFrame, StorePage, AfterCheck, Accepts, SkipTerminator, SkipDataFrame, Judge, Memstore.WellFormed;
  }

  lemma {:induction false} InsertLock(w: World, r: int, granted: bool)
    requires w.WellFormed() && HasRoom(w) && |w.inq| >= 9 && InsertCanSkip(w, granted)
    ensures var o, o' := InsertAlloc(w, granted), InsertAlloc(w.(receiveMode := r), granted);
            o.done == o'.done && SameButLock(o.w, o'.w)
  {
    hide PutFrame, Insert, AfterCheck, Accepts, SkipTerminator, SkipDataFrame, Judge, Memstore.WellFormed, Param32;
  }

  lemma {:induction false} DispatchIgnoresLock(s: State, r: int, e: Event)
    requires s.w.WellFormed()
    ensures var a, b := Dispatch(s, e), Dispatch(s.(w := s.w.(receiveMode := r)), e);
            SameButLock(a.w, b.w) && b == a.(w := b.w)
  {
    hide Process, ReadHead, Judge, Accepts, AfterCheck, PutFrame, SkipTerminator, Readable;
    var c := AfterCheck(s.w.inq);
    if Accepts(s.w.inq) {
      AcceptedHead(s.w.inq);
      var h := ReadHead(c);
      if h.Command? {
        var w := s.w.(inq := h.rest);
        if Readable(h.id, w, e) {
          LockDoesNotSteer(h.id, w, r, s.table, e);
        } else if Readable(h.id, w.(receiveMode := r), e) {
          LockDoesNotSteer(h.id, w.(receiveMode := r), w.receiveMode, s.table, e);
        }
      }
    }
  }

  /** Any number of deferrals gives the same final result as none: the dispatch that follows does
      what it would have done on the state before the first try, given the bytes that have moved. */
  lemma {:induction false} DeferralsDoNotMatter(s: State, tries: seq<Retry>, s': State, e: Event)
    requires DeferredTries(s, tries, s') && tries != []
    requires CanFeed(s, FedBytes(tries), SentBytes(tries))
    ensures var late, once := Dispatch(s', e), Dispatch(Feed(s, FedBytes(tries), SentBytes(tries)), e);
            SameButLock(late.w, once.w) && late == once.(w := late.w)
  {
    hide Dispatchable, DispatchHead, Judge, Accepts, AfterCheck;
    var x := FedBytes(tries);
    TriesLeaveNoTrace(s, tries, s');
    AcceptedStays(s.w.inq, x);
    var once := Feed(s, x, SentBytes(tries));
    var settled := once.(w := once.w.(inq := s'.w.inq));
    assert s' == settled.(w := settled.w.(receiveMode := s'.w.receiveMode));
    DispatchIgnoresLock(settled, s'.w.receiveMode, e);
    DispatchFromSettled(once, settled, e);
  }

  /** A dispatch first drops the garbage before an accepted frame, so dropping it earlier does not
      matter. */
  lemma {:induction false} DispatchFromSettled(s: State, settled: State, e: Event)
    requires s.w.WellFormed() && Accepts(s.w.inq)
    requires settled == s.(w := s.w.(inq := AfterCheck(s.w.inq)))
    requires Accepts(settled.w.inq) && AfterCheck(settled.w.inq) == settled.w.inq
    requires settled.w.WellFormed()
    ensures SameButLock(Dispatch(s, e).w, Dispatch(settled, e).w)
    ensures Dispatch(s, e) == Dispatch(settled, e).(w := Dispatch(s, e).w)
  {
  }
}
