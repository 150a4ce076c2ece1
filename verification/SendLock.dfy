/** The send lock: how a retrieval sets it, that nothing is processed while it holds, and exactly
    when it is ever released. */
module SendLock {
  import opened Bytes
  import opened RingQueue
  import opened FrameCodec
  import opened Packet
  import opened Memstore
  import opened CommandText
  import opened MemoryCommands
  import opened Scheduler
  import opened MainLoop

  // ------------------------------------------------------------- what a retrieval sends

  /** The command at the head of the checked input `c` asks for a page that exists. */
  predicate AsksForPage(c: seq<byte>, mem: Store) {
    && Judge(c).Accept? && c[5] == BINARY_COMMAND && c[6] as int == RETRIEVE_ALLOC && |c| >= 10
    && Param16(c[8..]) <= MAX_PAGES && HasPage(mem, c[7], Param16(c[8..]))
  }

  function PageAskedFor(c: seq<byte>, mem: Store): seq<byte>
    requires WellFormed(mem) && AsksForPage(c, mem)
  {
    RetrievePage(mem, c[7], Param16(c[8..])).value
  }

  /** The status frame and the data frame that answer a retrieval. */
  function PageReply(c: seq<byte>, mem: Store): (r: seq<byte>)
    requires WellFormed(mem) && AsksForPage(c, mem)
    ensures |r| == |PageAskedFor(c, mem)| + 23
  {
    Frame(BINARY_COMMAND, Status5(RETRIEVE_ALLOC, c[7], Param16(c[8..]), 0))
    + Frame(BINARY_DATA, PageAskedFor(c, mem))
  }

  /** A retrieval that finds room in the output queue sends the status frame and the page, unless
      the two fill the ring exactly, when all the output is lost. The lock it sets counts the data
      frame and, as the source has it, the unread input instead of the queued output. */
  lemma {:induction false} RetrievalSetsLock(s: State, e: Event)
    requires s.w.WellFormed() && Accepts(s.w.inq) && AsksForPage(AfterCheck(s.w.inq), s.w.mem)
    requires SpaceFor(|s.w.outq|, 23 + |PageAskedFor(AfterCheck(s.w.inq), s.w.mem)|)
    ensures var c, w := AfterCheck(s.w.inq), Dispatch(s, e).w;
            var reply := PageReply(c, s.w.mem);
            && w.outq == (if |s.w.outq| + |reply| == QUEUE_SIZE then [] else s.w.outq + reply)
            && w.sendMode == |PageAskedFor(c, s.w.mem)| + PACKET_OVERHEAD + (|c| - 10)
            && w.mem == s.w.mem
  {
    hide Judge, FindStart, Frame, RetrievePage, SkipTerminator, Memstore.WellFormed;
    var c := AfterCheck(s.w.inq);
    var w := s.w.(inq := c[7..]);
    var data := PageAskedFor(c, s.w.mem);
    PageSizeInRange(s.w.mem, c[7]);
    assert |data| >= 1024 by { PageIsNotSmall(s.w.mem, c[7]); }
    assert ReadHead(c) == Command(RETRIEVE_ALLOC, c[7..]);
    assert c[7..][1..] == c[8..] && c[7..][3..] == c[10..];
    assert RetrieveAlloc(w) == Outcome(SendPage(w.(inq := c[10..]), c[7], Param16(c[8..]), data), true);
    TwoFrames(s.w.outq, Status5(RETRIEVE_ALLOC, c[7], Param16(c[8..]), 0), data);
    assert s.w.outq + PageReply(c, s.w.mem)
        == s.w.outq + Frame(BINARY_COMMAND, Status5(RETRIEVE_ALLOC, c[7], Param16(c[8..]), 0))
           + Frame(BINARY_DATA, data);
  }

  lemma {:induction false} PageIsNotSmall(mem: Store, id: int)
    requires WellFormed(mem) && Live(mem, id)
    ensures mem[id].pageSize >= 1024
  {
    assert WellFormedSlot(mem[id], id);
  }

  lemma {:induction false} TwoFrames(c: seq<byte>, status: seq<byte>, data: seq<byte>)
    requires |c| < QUEUE_SIZE && |status| == 5 && |data| > 0 && SpaceFor(|c|, 23 + |data|)
    ensures PutFrame(PutFrame(c, BINARY_COMMAND, status), BINARY_DATA, data)
         == if |c| + 23 + |data| == QUEUE_SIZE then []
            else c + Frame(BINARY_COMMAND, status) + Frame(BINARY_DATA, data)
  {
  }

  // --------------------------------------------------------------- while the lock holds

  /** Nothing but bytes moving has happened between `s` and `s'`, and `sent` bytes have left. */
  predicate OnlySent(s: State, s': State, sent: nat) {
    && sent <= |s.w.outq| && s'.w.outq == s.w.outq[sent..]
    && s'.w.mem == s.w.mem && s'.table == s.table
  }

  /** A pass that does not release the lock processes nothing and ticks nothing. */
  lemma {:induction false} LockedPass(s: State, e: Event)
    requires s.w.WellFormed() && Moved(s, e).w.sendMode > 0
    ensures Step(s, e).w == Moved(s, e).w && Step(s, e).table == s.table
  {
    hide Dispatch, Tick, PutFrame;
  }

  lemma {:induction false} OnlySentChains(s: State, s1: State, s2: State, j: nat, k: nat)
    requires OnlySent(s, s1, j) && OnlySent(s1, s2, k)
    ensures OnlySent(s, s2, j + k)
  {
    assert s.w.outq[j..][k..] == s.w.outq[j + k..];
  }

  lemma {:induction false} UncoveredPass(s: State, e: Event)
    requires s.w.WellFormed() && s.w.sendMode > |s.w.outq|
    ensures Step(s, e).w.sendMode > |Step(s, e).w.outq|
    ensures OnlySent(s, Step(s, e), if e.dir && s.w.outq != [] then 1 else 0)
  {
    hide Step;
    LockedPass(s, e);
  }

  /** A lock larger than the queued output is never released: whatever arrives and however often
      the FIFO is ready, no command runs any more. */
  lemma {:induction false} LockedForEver(s: State, events: seq<Event>)
    requires s.w.WellFormed() && s.w.sendMode > |s.w.outq|
    ensures Run(s, events).w.sendMode > |Run(s, events).w.outq|
    ensures exists k: nat :: OnlySent(s, Run(s, events), k)
    decreases |events|
  {
    hide Step;
    if events == [] {
      assert OnlySent(s, s, 0);
    } else {
      hide OnlySent;
      var s1 := Step(s, events[0]);
      UncoveredPass(s, events[0]);
      var j := if events[0].dir && s.w.outq != [] then 1 else 0;
      LockedForEver(s1, events[1..]);
      var k: nat :| OnlySent(s1, Run(s1, events[1..]), k);
      OnlySentChains(s, s1, Run(s, events), j, k);
    }
  }

  /** A lock that the queued output covers counts down with every byte that leaves, and nothing new
      is emitted meanwhile. */
  lemma {:induction false} LockCountsDown(s: State, events: seq<Event>)
    requires s.w.WellFormed() && 0 < s.w.sendMode <= |s.w.outq| && Takes(events) < s.w.sendMode
    ensures Run(s, events).w.sendMode == s.w.sendMode - Takes(events)
    ensures OnlySent(s, Run(s, events), Takes(events))
    decreases |events|
  {
    hide Step;
    if events != [] {
      var s1 := Step(s, events[0]);
      LockedPass(s, events[0]);
      LockCountsDown(s1, events[1..]);
      OnlySentChains(s, s1, Run(s, events), if events[0].dir then 1 else 0, Takes(events[1..]));
    }
  }

  /** Some pass of `events` releases the lock: the byte that leaves in it is the last one counted. */
  predicate Releases(s: State, events: seq<Event>)
    requires s.w.WellFormed()
    decreases |events|
  {
    events != [] &&
    (Moved(s, events[0]).w.sendMode == 0 || Releases(Step(s, events[0]), events[1..]))
  }

  /** A covered lock is released by every schedule that takes as many bytes as it counts, and by no
      other. */
  lemma {:induction false} CoveredLockRelease(s: State, events: seq<Event>)
    requires s.w.WellFormed() && 0 < s.w.sendMode <= |s.w.outq|
    ensures Releases(s, events) <==> Takes(events) >= s.w.sendMode
    decreases |events|
  {
    hide Step;
    if events != [] && Moved(s, events[0]).w.sendMode > 0 {
      LockedPass(s, events[0]);
      CoveredLockRelease(Step(s, events[0]), events[1..]);
    }
  }

  lemma {:induction false} UncoveredLockIsNotReleased(s: State, events: seq<Event>)
    requires s.w.WellFormed() && s.w.sendMode > |s.w.outq|
    ensures !Releases(s, events)
    decreases |events|
  {
    hide Step;
    if events != [] {
      LockedPass(s, events[0]);
      UncoveredLockIsNotReleased(Step(s, events[0]), events[1..]);
    }
  }

  /** A pass in which nothing arrives and one byte may leave. */
  const READY: Event :=
    Event(None, true, false, General(0, None, true), General(0, None, true), 0, 0, 0)

  function ReadyPasses(n: nat): (r: seq<Event>)
    ensures |r| == n
  {
    if n == 0 then [] else [READY] + ReadyPasses(n - 1)
  }

  lemma {:induction false} ReadyPassesTake(n: nat)
    ensures Takes(ReadyPasses(n)) == n
  {
    if n > 0 {
      assert ReadyPasses(n)[1..] == ReadyPasses(n - 1);
      ReadyPassesTake(n - 1);
    }
  }

  /** A lock is released by the schedules that take as many bytes as it counts, if the queued output
      covers it; otherwise by none. */
  lemma {:induction false} LockRelease(s: State)
    requires s.w.WellFormed() && s.w.sendMode > 0
    ensures forall events ::
              Releases(s, events) <==> s.w.sendMode <= |s.w.outq| && Takes(events) >= s.w.sendMode
    ensures (exists events :: Releases(s, events)) <==> s.w.sendMode <= |s.w.outq|
  {
    hide Releases, Takes;
    forall events
      ensures Releases(s, events) <==> s.w.sendMode <= |s.w.outq| && Takes(events) >= s.w.sendMode
    {
      if s.w.sendMode <= |s.w.outq| {
        CoveredLockRelease(s, events);
      } else {
        UncoveredLockIsNotReleased(s, events);
      }
    }
    ReadyPassesTake(s.w.sendMode);
    assert Releases(s, ReadyPasses(s.w.sendMode)) <==> s.w.sendMode <= |s.w.outq|;
  }

  /** With `u` bytes unread and `b` bytes queued before, the lock of a retrieval counts `n + 9 + u`.
      It can be released if and only if `u` exceeds `b` by at most 14 and the answer does not fill the
      ring exactly; then every schedule that takes that many bytes releases it, and no other does. */
  lemma {:induction false} SendLockRelease(s: State, e: Event)
    requires s.w.WellFormed() && Accepts(s.w.inq) && AsksForPage(AfterCheck(s.w.inq), s.w.mem)
    requires SpaceFor(|s.w.outq|, 23 + |PageAskedFor(AfterCheck(s.w.inq), s.w.mem)|)
    ensures Dispatch(s, e).w.WellFormed()
    ensures var u, b, n := |AfterCheck(s.w.inq)| - 10, |s.w.outq|, |PageAskedFor(AfterCheck(s.w.inq), s.w.mem)|;
            var covered := u <= b + 14 && b + 23 + n != QUEUE_SIZE;
            && ((exists events :: Releases(Dispatch(s, e), events)) <==> covered)
            && forall events :: Releases(Dispatch(s, e), events) <==> covered && Takes(events) >= n + 9 + u
  {
    hide Dispatch, Releases, PageAskedFor, AfterCheck, Accepts, SpaceFor, Takes, AsksForPage, PageReply, Judge;
    hide Memstore.WellFormed;
    RetrievalSetsLock(s, e);
    DispatchKeepsWellFormed(s, e);
    AskedLength(AfterCheck(s.w.inq), s.w.mem);
    LockRelease(Dispatch(s, e));
    CoverIsExact(s, e);
  }

  lemma {:induction false} AskedLength(c: seq<byte>, mem: Store)
    requires AsksForPage(c, mem)
    ensures |c| >= 10
  {
  }

  lemma {:induction false} CoverIsExact(s: State, e: Event)
    requires s.w.WellFormed() && Accepts(s.w.inq) && AsksForPage(AfterCheck(s.w.inq), s.w.mem)
    requires SpaceFor(|s.w.outq|, 23 + |PageAskedFor(AfterCheck(s.w.inq), s.w.mem)|)
    ensures var u, b, n := |AfterCheck(s.w.inq)| - 10, |s.w.outq|, |PageAskedFor(AfterCheck(s.w.inq), s.w.mem)|;
            var w := Dispatch(s, e).w;
            && w.sendMode == n + 9 + u > 0
            && (w.sendMode <= |w.outq| <==> u <= b + 14 && b + 23 + n != QUEUE_SIZE)
  {
    hide Dispatch, PageAskedFor, AfterCheck, Accepts, Judge, Memstore.WellFormed;
    RetrievalSetsLock(s, e);
  }

  /** A client that waits for each answer leaves only the terminator of its request unread. Unless the
      answer fills the ring exactly, which it never does when the output has drained, every schedule
      that takes enough bytes releases its lock. */
  lemma {:induction false} OneRequestAtATime(s: State, e: Event)
    requires s.w.WellFormed() && Accepts(s.w.inq) && AsksForPage(AfterCheck(s.w.inq), s.w.mem)
    requires |AfterCheck(s.w.inq)| == 13
    requires SpaceFor(|s.w.outq|, 23 + |PageAskedFor(AfterCheck(s.w.inq), s.w.mem)|)
    ensures Dispatch(s, e).w.WellFormed()
    ensures var b, n := |s.w.outq|, |PageAskedFor(AfterCheck(s.w.inq), s.w.mem)|;
            && (forall events ::
                  Releases(Dispatch(s, e), events) <==> b + 23 + n != QUEUE_SIZE && Takes(events) >= n + 12)
            && (s.w.outq == [] ==> b + 23 + n != QUEUE_SIZE)
  {
    hide Dispatch, Releases, AfterCheck, Accepts, Takes, Judge, Memstore.WellFormed;
    PageSizeInRange(s.w.mem, AfterCheck(s.w.inq)[7]);
    SendLockRelease(s, e);
  }
}
