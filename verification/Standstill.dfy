/** States from which the main loop processes no further frame: a receive lock that a data frame longer
    than asked for has made negative, and a data frame at the head of the input where a command should be,
    which stays there until the ring fills to the last byte. A data frame gets to the head when no command
    asked for it, or when it is shorter than its command asked for. */
module Standstill {
  import opened Bytes
  import opened RingQueue
  import opened FrameCodec
  import opened Packet
  import opened Memstore
  import opened CommandText
  import opened MemoryCommands
  import opened Scheduler
  import opened MainLoop
  import opened Deferral
  import opened Refinement
  import opened RequestDispatch

  // ------------------------------------------------------------------ the receive lock

  /** Some pass of `events` finds the receive lock clear once its bytes have moved. */
  predicate Clears(s: State, events: seq<Event>)
    requires s.w.WellFormed()
    decreases |events|
  {
    events != [] &&
    (Moved(s, events[0]).w.receiveMode == 0 || Clears(Step(s, events[0]), events[1..]))
  }

  /** A pass that does not clear the lock processes nothing and ticks nothing. */
  lemma {:induction false} LockedReceivePass(s: State, e: Event)
    requires s.w.WellFormed() && Moved(s, e).w.receiveMode != 0
    ensures Step(s, e).w == Moved(s, e).w && Step(s, e).table == s.table
  {
    hide Dispatch, Tick, PutFrame;
  }

  /** A negative lock is never counted, so whatever arrives no command runs any more. */
  lemma {:induction false} NegativeLockForEver(s: State, events: seq<Event>)
    requires s.w.WellFormed() && s.w.receiveMode < 0
    ensures !Clears(s, events)
    ensures Run(s, events).w.receiveMode == s.w.receiveMode
    ensures Run(s, events).w.mem == s.w.mem && Run(s, events).table == s.table
    decreases |events|
  {
    hide Step;
    if events != [] {
      LockedReceivePass(s, events[0]);
      NegativeLockForEver(Step(s, events[0]), events[1..]);
    }
  }

  /** All that the passes of `events` deliver. */
  function Delivered(events: seq<Event>): seq<byte>
    decreases |events|
  {
    if events == [] then []
    else (if events[0].rx.Some? then [events[0].rx.value] else []) + Delivered(events[1..])
  }

  /** A lock that is not negative is cleared by every schedule that delivers as many bytes as it
      counts, and by no other. */
  lemma {:induction false} CountedLockClears(s: State, events: seq<Event>)
    requires s.w.WellFormed() && s.w.receiveMode >= 0
    ensures Clears(s, events) <==> events != [] && |Delivered(events)| >= s.w.receiveMode
    decreases |events|
  {
    hide Step;
    if events != [] && Moved(s, events[0]).w.receiveMode > 0 {
      LockedReceivePass(s, events[0]);
      CountedLockClears(Step(s, events[0]), events[1..]);
    }
  }

  /** The payload bytes a store or an insert asks for. */
  function AskedFor(mem: Store, r: Request): nat
    requires WellFormed(mem) && CarriesData(r)
  {
    PageSizeInRange(mem, if r.SallocReq? then r.id else 0);
    if r.SallocReq? then PageSize(mem, r.id) else |r.data|
  }

  /** A store or an insert that passes the early checks, with the part `c` of some data frame `f`
      behind it; `f` need not carry what `r` asks for. */
  predicate AwaitsFrame(s: State, r: Request, f: seq<byte>, c: seq<byte>, e: Event) {
    && s.w.WellFormed() && HasRoom(s.w) && CarriesData(r) && e.granted
    && IsFrame(f) && |c| < |f| && c == f[..|c|]
    && s.w.inq == Frame(BINARY_COMMAND, Body(r)) + c
    && RequestOk(s.w.mem, r)
  }

  /** The receive lock such a request sets: what it asks for, less what has arrived. It is the number
      of bytes still to come of `f` exactly when `f` carries as many bytes as are asked for. */
  lemma {:induction false} AwaitedFrameLock(s: State, r: Request, f: seq<byte>, c: seq<byte>, e: Event)
    requires AwaitsFrame(s, r, f, c, e)
    ensures Dispatch(s, e) == s.(w := s.w.(receiveMode := AskedFor(s.w.mem, r) + PACKET_OVERHEAD - |c|))
    ensures Dispatch(s, e).w.receiveMode == |f| - |c| <==> |Payload(f)| == AskedFor(s.w.mem, r)
  {
    hide Judge, Accepts, AfterCheck, ReadHead, Readable, Process, SkipTerminator, Frame, Body, IsFrame;
    hide Memstore.WellFormed;
    HeadOfRequest(r, c);
    FrameLength(f);
    var w := s.w.(inq := Args(r, c));
    AwaitingIsPutBack(w, s.table, r, f, c, e);
  }

  lemma {:induction false} FrameLength(f: seq<byte>)
    requires IsFrame(f)
    ensures |f| == |Payload(f)| + PACKET_OVERHEAD <= 65541
  {
  }

  lemma {:induction false} AwaitingIsPutBack(w: World, t: Table, r: Request, f: seq<byte>, c: seq<byte>, e: Event)
    requires w.WellFormed() && HasRoom(w) && CarriesData(r) && RequestOk(w.mem, r) && e.granted
    requires IsFrame(f) && |c| < |f| && c == f[..|c|] && w.inq == Args(r, c)
    ensures Readable(Body(r)[0], w, e)
    ensures Process(Body(r)[0], w, t, e)
         == Processed(w.(inq := c, receiveMode := AskedFor(w.mem, r) + PACKET_OVERHEAD - |c|), t, false)
  {
    hide StoreAlloc, InsertAlloc, StoreCanSkip, InsertCanSkip, IsFrame, Memstore.WellFormed, IntBytes, WireOk;
    if r.SallocReq? {
      StoreAwaits(w, r, f, c);
    } else {
      InsertAwaits(w, r, f, c);
    }
  }

  lemma {:induction false} StoreAwaits(w: World, r: Request, f: seq<byte>, c: seq<byte>)
    requires w.WellFormed() && HasRoom(w) && r.SallocReq? && RequestOk(w.mem, r)
    requires IsFrame(f) && |c| < |f| && c == f[..|c|] && w.inq == Args(r, c)
    ensures |w.inq| >= 3 && StoreCanSkip(w, true)
    ensures StoreAlloc(w, true)
         == Outcome(w.(inq := c, receiveMode := AskedFor(w.mem, r) + PACKET_OVERHEAD - |c|), false)
  {
    hide PutFrame, Frame, IsFrame, Memstore.WellFormed, Judge, FindStart, SkipTerminator, Accepts, AfterCheck;
    hide StoreData, WireOk;
    PartialFrameWaits(f, c);
    TerminatorIsSkipped(c);
    OneWordParam(w.inq, r.id, r.page, REAR + c);
  }

  lemma {:induction false} InsertAwaits(w: World, r: Request, f: seq<byte>, c: seq<byte>)
    requires w.WellFormed() && HasRoom(w) && r.IallocReq? && RequestOk(w.mem, r)
    requires IsFrame(f) && |c| < |f| && c == f[..|c|] && w.inq == Args(r, c)
    ensures |w.inq| >= 9 && InsertCanSkip(w, true)
    ensures InsertAlloc(w, true)
         == Outcome(w.(inq := c, receiveMode := AskedFor(w.mem, r) + PACKET_OVERHEAD - |c|), false)
  {
    hide PutFrame, Frame, IsFrame, Memstore.WellFormed, Judge, FindStart, SkipTerminator, Accepts, AfterCheck;
    hide InsertData, WireOk, Param32, IntBytes;
    PartialFrameWaits(f, c);
    TerminatorIsSkipped(c);
    TwoIntParams(w.inq, r.id, r.at, |r.data|, REAR + c);
  }

  /** What the lock of such a request needs: every schedule that delivers the bytes it counts clears
      it, unless more of the data frame has arrived than the request accounts for; then none does. */
  lemma {:induction false} AwaitedFrameClears(s: State, r: Request, f: seq<byte>, c: seq<byte>, e: Event)
    requires AwaitsFrame(s, r, f, c, e)
    ensures Dispatch(s, e).w.WellFormed()
    ensures var lock := AskedFor(s.w.mem, r) + PACKET_OVERHEAD - |c|;
            forall events :: Clears(Dispatch(s, e), events) <==>
              lock >= 0 && events != [] && |Delivered(events)| >= lock
  {
    hide Clears, Dispatch, Frame, Body, IsFrame, RequestOk, Memstore.WellFormed;
    DispatchKeepsWellFormed(s, e);
    AwaitedFrameLock(s, r, f, c, e);
    var s1 := Dispatch(s, e);
    forall events
      ensures Clears(s1, events) <==>
                s1.w.receiveMode >= 0 && events != [] && |Delivered(events)| >= s1.w.receiveMode
    {
      if s1.w.receiveMode >= 0 {
        CountedLockClears(s1, events);
      } else {
        NegativeLockForEver(s1, events);
      }
    }
  }

  /** The request with the first `k` bytes of `f` behind it. */
  function Upto(s: State, r: Request, f: seq<byte>, k: nat): State
    requires k <= |f|
  {
    s.(w := s.w.(inq := Frame(BINARY_COMMAND, Body(r)) + f[..k]))
  }

  /** The condition on the client: whenever the request is looked at, at whatever point of the arrival
      of its data frame, the lock it sets can still be cleared, if and only if the payload is at most
      one byte longer than what is asked for. */
  lemma {:induction false} SafePayload(s: State, r: Request, f: seq<byte>, e: Event)
    requires s.w.WellFormed() && HasRoom(s.w) && CarriesData(r) && e.granted && IsFrame(f) && RequestOk(s.w.mem, r)
    ensures forall k :: 0 <= k < |f| ==> Upto(s, r, f, k).w.WellFormed()
    ensures (forall k :: 0 <= k < |f| ==> Dispatch(Upto(s, r, f, k), e).w.receiveMode >= 0)
       <==> |Payload(f)| <= AskedFor(s.w.mem, r) + 1
  {
    hide Dispatch, Frame, Body, IsFrame, RequestOk, Memstore.WellFormed, AskedFor;
    FrameLength(f);
    forall k | 0 <= k < |f|
      ensures Upto(s, r, f, k).w.WellFormed()
      ensures Dispatch(Upto(s, r, f, k), e).w.receiveMode == AskedFor(s.w.mem, r) + PACKET_OVERHEAD - k
    {
      AwaitedFrameLock(Upto(s, r, f, k), r, f, f[..k], e);
    }
    var last := |f| - 1;
    assert Dispatch(Upto(s, r, f, last), e).w.receiveMode == AskedFor(s.w.mem, r) + PACKET_OVERHEAD - last;
  }

  /** One allocation of one page of 1024 bytes, a store into it, and all but one byte of a data frame
      of 1026 bytes. */
  function LongFrameState(): State {
    var r, f := SallocReq(1, 0, Zeros(1024)), Frame(BINARY_DATA, Zeros(1026));
    PowerUp().(w := World(Frame(BINARY_COMMAND, Body(r)) + f[..1034], [], Create(EmptyStore(), 1, 1, true).0, 0, 0))
  }

  /** In that state the store sets the lock to -1, and no schedule clears it. */
  lemma {:induction false} LongFrameStops(e: Event)
    requires e.granted
    ensures LongFrameState().w.WellFormed()
    ensures Dispatch(LongFrameState(), e).w.WellFormed() && Dispatch(LongFrameState(), e).w.receiveMode == -1
    ensures forall events :: !Clears(Dispatch(LongFrameState(), e), events)
  {
    hide Dispatch, Clears, Frame, Body, Create;
    var s, r, f := LongFrameState(), SallocReq(1, 0, Zeros(1024)), Frame(BINARY_DATA, Zeros(1026));
    FrameIsFrame(BINARY_DATA, Zeros(1026));
    OneAllocation();
    AwaitedFrameLock(s, r, f, f[..1034], e);
    AwaitedFrameClears(s, r, f, f[..1034], e);
  }

  // ------------------------------------------------------- a data frame without a command

  predicate IsDataKind(kind: byte) {
    kind == BINARY_DATA || kind == GRAPHIC_DIRECTIVES
  }

  /** The frame at the head, once garbage is gone, is not a command. */
  predicate DataAtHead(c: seq<byte>) {
    Accepts(c) && |AfterCheck(c)| > 5 && IsDataKind(AfterCheck(c)[5])
  }

  /** One pass leaves the frame where it is, and what arrives behind it. */
  lemma {:induction false} DataFrameStays(s: State, e: Event)
    requires s.w.WellFormed() && DataAtHead(s.w.inq)
    requires |s.w.inq| + |Delivered([e])| < QUEUE_SIZE
    ensures DataAtHead(Step(s, e).w.inq) && Step(s, e).w.mem == s.w.mem
    ensures AfterCheck(Step(s, e).w.inq) == AfterCheck(s.w.inq) + Delivered([e])
    ensures |Step(s, e).w.inq| <= |s.w.inq| + |Delivered([e])|
  {
    hide Judge, Accepts, AfterCheck, Process, Readable, PutFrame, Tick;
    var x := Delivered([e]);
    assert e.rx.Some? ==> x == [e.rx.value];
    var moved := Moved(s, e);
    assert moved.w.inq == s.w.inq + x;
    AcceptedStays(s.w.inq, x);
    var c := AfterCheck(moved.w.inq);
    AcceptedHead(moved.w.inq);
    assert ReadHead(c) == NoCommand;
    assert AfterCheck(c) == c && Accepts(c);
  }

  /** A BinaryData or GraphicDirectives frame at the head of the input stays there for ever: however
      the passes go, as long as the ring does not fill, nothing behind it is ever processed. */
  lemma {:induction false} DataFrameBlocks(s: State, events: seq<Event>)
    requires s.w.WellFormed() && DataAtHead(s.w.inq)
    requires |s.w.inq| + |Delivered(events)| < QUEUE_SIZE
    ensures DataAtHead(Run(s, events).w.inq) && Run(s, events).w.mem == s.w.mem
    ensures AfterCheck(Run(s, events).w.inq) == AfterCheck(s.w.inq) + Delivered(events)
    decreases |events|
  {
    hide Step, DataAtHead, AfterCheck;
    if events != [] {
      var e := events[0];
      assert Delivered([e]) + Delivered(events[1..]) == Delivered(events) by {
        assert [e][1..] == [];
      }
      DataFrameStays(s, e);
      DataFrameBlocks(Step(s, e), events[1..]);
      assert AfterCheck(s.w.inq) + Delivered([e]) + Delivered(events[1..])
          == AfterCheck(s.w.inq) + Delivered(events);
    }
  }

  /** Some pass of `events` fills the input ring to the last byte, so that it reads as empty. */
  predicate Emptied(s: State, events: seq<Event>)
    requires s.w.WellFormed()
    decreases |events|
  {
    events != [] && (Moved(s, events[0]).w.inq == [] || Emptied(Step(s, events[0]), events[1..]))
  }

  /** A data frame at the very head leaves it if and only if the bytes that arrive fill the ring to the
      last byte, which loses them all; until then the input just grows. */
  lemma {:induction false} DataFrameLeaves(s: State, events: seq<Event>)
    requires s.w.WellFormed() && DataAtHead(s.w.inq) && StartsFrame(s.w.inq)
    ensures Emptied(s, events) <==> |s.w.inq| + |Delivered(events)| >= QUEUE_SIZE
    ensures !Emptied(s, events) ==>
              && Run(s, events).w.inq == s.w.inq + Delivered(events)
              && DataAtHead(Run(s, events).w.inq) && Run(s, events).w.mem == s.w.mem
    decreases |events|
  {
    hide Step, DataAtHead, AfterCheck, Accepts;
    if events == [] {
      assert s.w.inq + [] == s.w.inq;
    } else {
      var e := events[0];
      OneDelivery(events);
      FrameIsNotEmpty(s.w.inq);
      if |s.w.inq| + |Delivered([e])| < QUEUE_SIZE {
        DataFrameAtHeadStays(s, e);
        var s1 := Step(s, e);
        DataFrameLeaves(s1, events[1..]);
        assert s.w.inq + Delivered([e]) + Delivered(events[1..]) == s.w.inq + Delivered(events);
      } else {
        assert e.rx.Some? && |s.w.inq| + 1 == QUEUE_SIZE;
      }
    }
  }

  lemma {:induction false} OneDelivery(events: seq<Event>)
    requires events != []
    ensures Delivered(events) == Delivered([events[0]]) + Delivered(events[1..])
    ensures Delivered([events[0]]) == if events[0].rx.Some? then [events[0].rx.value] else []
  {
    assert [events[0]][1..] == [];
  }

  lemma {:induction false} FrameIsNotEmpty(c: seq<byte>)
    requires StartsFrame(c)
    ensures |c| >= 3
  {
  }

  lemma {:induction false} DataFrameAtHeadStays(s: State, e: Event)
    requires s.w.WellFormed() && DataAtHead(s.w.inq) && StartsFrame(s.w.inq)
    requires |s.w.inq| + |Delivered([e])| < QUEUE_SIZE
    ensures Moved(s, e).w.inq == s.w.inq + Delivered([e])
    ensures var s1 := Step(s, e);
            && s1.w.inq == s.w.inq + Delivered([e]) && s1.w.mem == s.w.mem
            && DataAtHead(s1.w.inq) && StartsFrame(s1.w.inq)
  {
    hide Judge, Accepts, Dispatch, TickPhase, PacketPhase;
    OneDelivery([e]);
    DataFrameStays(s, e);
    AcceptedAtHead(s.w.inq);
    var x := Delivered([e]);
    assert (s.w.inq + x)[..3] == s.w.inq[..3];
    AtHeadPass(s, e, x);
  }

  /** With the frame at the very head the check has nothing to drop, and the dispatch nothing to do. */
  lemma {:induction false} AtHeadPass(s: State, e: Event, x: seq<byte>)
    requires s.w.WellFormed() && DataAtHead(s.w.inq) && StartsFrame(s.w.inq)
    requires |s.w.inq| + |x| < QUEUE_SIZE && x == Delivered([e])
    ensures Moved(s, e).w.inq == s.w.inq + x && Step(s, e).w.inq == s.w.inq + x
  {
    hide Judge, Accepts, AfterCheck, Dispatch, PutFrame, Tick;
    OneDelivery([e]);
    var moved := Moved(s, e);
    assert moved.w.inq == s.w.inq + x;
    AcceptedStays(s.w.inq, x);
    AcceptedAtHead(s.w.inq);
    DataIsNoCommand(moved, e);
  }

  lemma {:induction false} DataIsNoCommand(s: State, e: Event)
    requires s.w.WellFormed() && DataAtHead(s.w.inq) && AfterCheck(s.w.inq) == s.w.inq
    ensures Dispatch(s, e).w == s.w && Dispatch(s, e).table == s.table
  {
    hide Judge, Accepts, AfterCheck, Process, Readable, PutFrame;
    AcceptedHead(s.w.inq);
    assert ReadHead(s.w.inq) == NoCommand;
  }

  // ------------------------------------------------------ a data frame behind its command

  /** A store or an insert that passes the early checks, with the whole frame `f` behind it. */
  predicate HasFrame(s: State, r: Request, f: seq<byte>, rest: seq<byte>, e: Event) {
    && s.w.WellFormed() && HasRoom(s.w) && CarriesData(r) && e.granted && RequestOk(s.w.mem, r)
    && IsFrame(f) && s.w.inq == Frame(BINARY_COMMAND, Body(r)) + (f + rest)
  }

  /** The same request with other data. */
  function Carrying(r: Request, data: seq<byte>): Request
    requires CarriesData(r)
  {
    if r.SallocReq? then SallocReq(r.id, r.page, data) else IallocReq(r.id, r.at, data)
  }

  /** What the service makes of the request with the first bytes of the frame as its data. */
  function Taken(mem: Store, r: Request, f: seq<byte>): (Store, seq<byte>)
    requires WellFormed(mem) && CarriesData(r) && RequestOk(mem, r) && |f| >= 9 && |Payload(f)| >= |r.data|
  {
    Serve(mem, Carrying(r, Payload(f)[..|r.data|]), true)
  }

  lemma {:induction false} ShortStore(w: World, id: byte, page: nat, size: nat)
    requires w.WellFormed() && HasRoom(w) && page < 65536 && size == PageSize(w.mem, id) && Judge(w.inq).Accept?
    requires |w.inq| >= 6 && DeclaredSize(w.inq) - 3 < size
    ensures StoreData(w, id, page, size) == Outcome(w, true)
  {
    hide Judge;
  }

  lemma {:induction false} ShortInsert(w: World, id: byte, at: int, len: int)
    requires w.WellFormed() && HasRoom(w) && Judge(w.inq).Accept?
    requires |w.inq| >= 6 && DeclaredSize(w.inq) - 3 < len
    ensures InsertData(w, id, at, len) == Outcome(w, true)
  {
    hide Judge;
  }

  lemma {:induction false} StoreTakes(w: World, r: Request, f: seq<byte>, rest: seq<byte>)
    requires w.WellFormed() && HasRoom(w) && r.SallocReq? && RequestOk(w.mem, r) && IsFrame(f)
    requires w.inq == Args(r, f + rest)
    ensures |w.inq| >= 3 && StoreCanSkip(w, true)
    ensures var n, o := |r.data|, StoreAlloc(w, true);
            && o.done
            && (|Payload(f)| < n ==> o.w == w.(inq := f + rest))
            && (|Payload(f)| >= n ==> o.w == w.(inq := (f + rest)[6 + n..], outq := w.outq + Taken(w.mem, r, f).1,
                                                mem := Taken(w.mem, r, f).0))
  {
    hide PutFrame, StorePage, Memstore.WellFormed, Judge, FindStart, SkipTerminator, WireOk, IsFrame, Accepts;
    hide AfterCheck, StoreData, Serve;
    OneWordParam(w.inq, r.id, r.page, REAR + (f + rest));
    TerminatorIsSkipped(f + rest);
    PageSizeInRange(w.mem, r.id);
    FrameIsAccepted(f, rest);
    FrameAhead(f, rest);
    if |Payload(f)| >= |r.data| {
      DataAhead(w.mem, r, f, rest);
      StoreDataServes(w.(inq := f + rest), SallocReq(r.id, r.page, Payload(f)[..|r.data|]));
    } else {
      ShortStore(w.(inq := f + rest), r.id, r.page, |r.data|);
    }
  }

  lemma {:induction false} InsertTakes(w: World, r: Request, f: seq<byte>, rest: seq<byte>)
    requires w.WellFormed() && HasRoom(w) && r.IallocReq? && RequestOk(w.mem, r) && IsFrame(f)
    requires w.inq == Args(r, f + rest)
    ensures |w.inq| >= 9 && InsertCanSkip(w, true)
    ensures var n, o := |r.data|, InsertAlloc(w, true);
            && o.done
            && (|Payload(f)| < n ==> o.w == w.(inq := f + rest))
            && (|Payload(f)| >= n ==> o.w == w.(inq := (f + rest)[6 + n..], outq := w.outq + Taken(w.mem, r, f).1,
                                                mem := Taken(w.mem, r, f).0))
  {
    hide PutFrame, Insert, Memstore.WellFormed, Judge, FindStart, SkipTerminator, WireOk, IsFrame, Accepts, AfterCheck;
    hide Param32, IntBytes, InsertData, Serve;
    TwoIntParams(w.inq, r.id, r.at, |r.data|, REAR + (f + rest));
    TerminatorIsSkipped(f + rest);
    FrameIsAccepted(f, rest);
    FrameAhead(f, rest);
    if |Payload(f)| >= |r.data| {
      DataAhead(w.mem, r, f, rest);
      InsertDataServes(w.(inq := f + rest), IallocReq(r.id, r.at, Payload(f)[..|r.data|]));
    } else {
      ShortInsert(w.(inq := f + rest), r.id, r.at, |r.data|);
    }
  }

  lemma {:induction false} DataAhead(mem: Store, r: Request, f: seq<byte>, rest: seq<byte>)
    requires WellFormed(mem) && CarriesData(r) && RequestOk(mem, r) && |f| >= 9 && |Payload(f)| >= |r.data|
    ensures var n := |r.data|;
            && (f + rest)[6..6 + n] == Payload(f)[..n]
            && RequestOk(mem, Carrying(r, Payload(f)[..n]))
  {
  }

  lemma {:induction false} FrameAhead(f: seq<byte>, rest: seq<byte>)
    requires IsFrame(f)
    ensures |f| >= 9 && DeclaredSize(f + rest) - 3 == |Payload(f)| && |f| == |Payload(f)| + 9
    ensures SkipTerminator(f + rest) == f + rest && StartsFrame(f + rest) && (f + rest)[5] == f[5]
  {
    assert (f + rest)[..3] == f[..3];
    assert f[..3][0] == PLUS;
  }

  /** The frame behind such a request leaves the head if and only if its payload has as many bytes as are
      asked for. Then as many are taken, and stored and answered as the service does. A shorter one is left
      there, the request is gone, and nothing is answered. */
  lemma {:induction false} FrameIsTaken(s: State, r: Request, f: seq<byte>, rest: seq<byte>, e: Event)
    requires HasFrame(s, r, f, rest, e)
    ensures var n, s' := AskedFor(s.w.mem, r), Dispatch(s, e);
            && (s'.w.inq == f + rest <==> |Payload(f)| < n)
            && (|Payload(f)| < n ==> s' == s.(w := s.w.(inq := f + rest)))
            && (|Payload(f)| >= n ==>
                  && n == |r.data|
                  && s' == s.(w := s.w.(inq := SkipTerminator((f + rest)[6 + n..]),
                                        outq := s.w.outq + Taken(s.w.mem, r, f).1, mem := Taken(s.w.mem, r, f).0)))
  {
    hide Judge, Accepts, AfterCheck, ReadHead, Readable, Process, Frame, Body, IsFrame, SkipTerminator;
    hide Memstore.WellFormed, RequestOk;
    RequestFitsWire(s.w.mem, r);
    HeadOfRequest(r, f + rest);
    FrameAhead(f, rest);
    var w := s.w.(inq := Args(r, f + rest));
    ProcessTakes(w, s.table, r, f, rest, e);
    AskedIsTheData(s.w.mem, r);
  }

  lemma {:induction false} AskedIsTheData(mem: Store, r: Request)
    requires WellFormed(mem) && CarriesData(r) && RequestOk(mem, r)
    ensures AskedFor(mem, r) == |r.data|
  {
    hide WireOk;
  }

  lemma {:induction false} ProcessTakes(w: World, t: Table, r: Request, f: seq<byte>, rest: seq<byte>, e: Event)
    requires w.WellFormed() && HasRoom(w) && CarriesData(r) && RequestOk(w.mem, r) && e.granted && IsFrame(f)
    requires w.inq == Args(r, f + rest)
    ensures Readable(CommandOf(r), w, e)
    ensures var n, p := |r.data|, Process(CommandOf(r), w, t, e);
            && p.ok && p.table == t
            && (|Payload(f)| < n ==> p.w == w.(inq := f + rest))
            && (|Payload(f)| >= n ==>
                  && 6 + n <= |f + rest|
                  && p.w == w.(inq := (f + rest)[6 + n..], outq := w.outq + Taken(w.mem, r, f).1,
                               mem := Taken(w.mem, r, f).0))
  {
    hide StoreAlloc, InsertAlloc, StoreCanSkip, InsertCanSkip, RequestOk, IsFrame, Memstore.WellFormed, IntBytes;
    FrameAhead(f, rest);
    if r.SallocReq? {
      StoreTakes(w, r, f, rest);
    } else {
      InsertTakes(w, r, f, rest);
    }
  }

  /** A data frame that is too short therefore stands where a command should, until the ring fills. */
  lemma {:induction false} ShortFrameStops(s: State, r: Request, f: seq<byte>, rest: seq<byte>, e: Event)
    requires HasFrame(s, r, f, rest, e) && IsDataKind(f[5]) && |Payload(f)| < AskedFor(s.w.mem, r)
    ensures Dispatch(s, e).w.WellFormed()
    ensures forall events ::
              Emptied(Dispatch(s, e), events) <==> |f + rest| + |Delivered(events)| >= QUEUE_SIZE
  {
    hide Dispatch, Emptied, Frame, Body, RequestOk, Memstore.WellFormed, AskedFor, IsFrame;
    hide Delivered;
    DispatchKeepsWellFormed(s, e);
    FrameIsTaken(s, r, f, rest, e);
    FrameIsAccepted(f, rest);
    FrameAhead(f, rest);
    forall events
      ensures Emptied(Dispatch(s, e), events) <==> |f + rest| + |Delivered(events)| >= QUEUE_SIZE
    {
      DataFrameLeaves(Dispatch(s, e), events);
    }
  }

  /** One allocation of one page of 1024 bytes, a store into it, and a data frame of 1023 bytes. */
  function ShortFrameState(): State {
    var r, f := SallocReq(1, 0, Zeros(1024)), Frame(BINARY_DATA, Zeros(1023));
    PowerUp().(w := World(Frame(BINARY_COMMAND, Body(r)) + (f + []), [], Create(EmptyStore(), 1, 1, true).0, 0, 0))
  }

  /** In that state the store takes nothing and answers nothing, and its data frame, of 1032 bytes, stays
      until 130038 more bytes have arrived. */
  lemma {:induction false} ShortFrameStands(e: Event)
    requires e.granted
    ensures ShortFrameState().w.WellFormed()
    ensures var s1 := Dispatch(ShortFrameState(), e);
            && s1.w.WellFormed() && s1.w.outq == [] && s1.w.mem == ShortFrameState().w.mem
            && forall events :: Emptied(s1, events) <==> |Delivered(events)| >= 130038
  {
    hide Dispatch, Emptied, Frame, Body, Create, IsFrame, Delivered;
    var s, r, f := ShortFrameState(), SallocReq(1, 0, Zeros(1024)), Frame(BINARY_DATA, Zeros(1023));
    FrameIsFrame(BINARY_DATA, Zeros(1023));
    KindOfFrame(BINARY_DATA, Zeros(1023));
    OneAllocation();
    FrameIsTaken(s, r, f, [], e);
    ShortFrameStops(s, r, f, [], e);
  }

  lemma {:induction false} KindOfFrame(kind: byte, payload: seq<byte>)
    ensures Frame(kind, payload)[5] == kind
  {
  }
}
