/** One request of a conforming client at the head of the input: what the commands make of its
    parameters and its data frame is what the sequential service answers. */
module RequestDispatch {
  import opened Bytes
  import opened RingQueue
  import opened FrameCodec
  import opened Packet
  import opened Memstore
  import opened CommandText
  import opened MemoryCommands
  import opened Scheduler
  import opened MainLoop
  import opened SendLock
  import opened Refinement

  /** The parameters of `r` as the command finds them, in front of its terminator and `rest`. */
  function Args(r: Request, rest: seq<byte>): seq<byte> {
    Params(r) + (REAR + rest)
  }

  lemma {:induction false} Param16Of(n: nat, rest: seq<byte>)
    requires n < 65536
    ensures Param16(Bytes16(n) + rest) == n
  {
  }

  /** A status reply that fits the reservation is written whole. */
  lemma {:induction false} ReplyIsWhole(w: World, payload: seq<byte>)
    requires w.WellFormed() && HasRoom(w) && |payload| + PACKET_OVERHEAD < STATUS_ROOM
    ensures Reply(w, payload) == w.(outq := w.outq + Frame(BINARY_COMMAND, payload))
  {
    PutFrameWithRoom(w.outq, BINARY_COMMAND, payload);
  }

  /** `o` completes the request: the store and the answer are the service's, and the terminator of
      its last frame is still unread in front of `rest`. */
  predicate Completes(o: Outcome, w: World, r: Request, granted: bool, rest: seq<byte>)
    requires w.WellFormed() && RequestOk(w.mem, r)
  {
    var (mem, answer) := Serve(w.mem, r, granted);
    o.done && o.w == w.(inq := REAR + rest, outq := w.outq + answer, mem := mem, sendMode := o.w.sendMode)
  }

  lemma {:induction false} CallocRuns(w: World, r: Request, granted: bool, rest: seq<byte>)
    requires w.WellFormed() && HasRoom(w) && r.CallocReq? && RequestOk(w.mem, r)
    requires w.inq == Args(r, rest)
    ensures |w.inq| >= 3
    ensures Completes(CreateAlloc(w, granted), w, r, granted, rest)
    ensures CreateAlloc(w, granted).w.sendMode == w.sendMode
  {
    hide WireOk, GeneralOk, AnswerText;
    hide PutFrame, Create, Frame, Memstore.WellFormed;
    assert w.inq == Bytes16(r.pages) + ([r.kb] + (REAR + rest));
    Param16Of(r.pages, [r.kb] + (REAR + rest));
    assert w.inq[3..] == REAR + rest;
    var w' := w.(inq := REAR + rest);
    ReplyIsWhole(w', Status3(CREATE_ALLOC, 0, 1));
    ReplyIsWhole(w', Status3(CREATE_ALLOC, 0, 2));
    if 1 <= r.pages <= MAX_PAGES && 1 <= r.kb <= 32 {
      CreatedId(w.mem, r.pages, r.kb, granted);
      CreateTakesLowest(w.mem, r.pages, r.kb, granted);
      var (mem, id) := Create(w.mem, r.pages, r.kb, granted);
      ReplyIsWhole(w'.(mem := mem), Status3(CREATE_ALLOC, id, 0));
    }
  }

  lemma {:induction false} FallocRuns(w: World, r: Request, rest: seq<byte>)
    requires w.WellFormed() && HasRoom(w) && r.FallocReq? && RequestOk(w.mem, r)
    requires w.inq == Args(r, rest)
    ensures |w.inq| >= 1
    ensures Completes(FreeAlloc(w), w, r, true, rest) && FreeAlloc(w).w.sendMode == w.sendMode
  {
    hide WireOk, GeneralOk, AnswerText;
    hide PutFrame, Free, Frame, Memstore.WellFormed;
    assert w.inq[0] == r.id && w.inq[1..] == REAR + rest;
    FreeKeepsStore(w.mem, r.id);
    var (mem, ok) := Free(w.mem, r.id);
    var w' := w.(inq := REAR + rest, mem := mem);
    ReplyIsWhole(w', Status3(FREE_ALLOC, r.id, 0));
    ReplyIsWhole(w', Status3(FREE_ALLOC, 0, 1));
  }

  lemma {:induction false} XallocRuns(w: World, r: Request, rest: seq<byte>)
    requires w.WellFormed() && HasRoom(w) && r.XallocReq? && RequestOk(w.mem, r)
    requires w.inq == Args(r, rest)
    ensures |w.inq| >= 9
    ensures Completes(CutAlloc(w), w, r, true, rest) && CutAlloc(w).w.sendMode == w.sendMode
  {
    hide WireOk, GeneralOk, AnswerText;
    hide PutFrame, Cut, Frame, Memstore.WellFormed, Param32, IntBytes;
    TwoIntParams(w.inq, r.id, r.at, r.len, REAR + rest);
    var w' := w.(inq := REAR + rest);
    ReplyIsWhole(w', Status3(CUT_ALLOC, 0, 2));
    ReplyIsWhole(w', Status3(CUT_ALLOC, 0, 1));
    if CanEdit(w.mem, r.id, r.at, r.len) {
      EditsKeepStore(w.mem, r.id, r.at, r.len, Zeros(r.len));
      ReplyIsWhole(w'.(mem := Cut(w.mem, r.id, r.at, r.len).value), Status3(CUT_ALLOC, r.id, 0));
    }
  }

  lemma {:induction false} TwoIntParams(c: seq<byte>, id: byte, a: int, b: int, rest: seq<byte>)
    requires Is32Bit(a) && Is32Bit(b)
    requires c == ([id] + IntBytes(a) + IntBytes(b)) + rest
    ensures |c| >= 9 && c[0] == id && Param32(c[1..]) == a && Param32(c[5..]) == b && c[9..] == rest
  {
    IntRoundTrip(a, IntBytes(b) + rest);
    IntRoundTrip(b, rest);
    assert c[1..] == IntBytes(a) + (IntBytes(b) + rest);
    assert c[5..] == IntBytes(b) + rest;
  }

  /** The environment does what the request says its command does. */
  predicate Obliges(e: Event, r: Request) {
    IsGeneral(r) ==> e.general == General(|Params(r)|, r.reply, true)
  }

  predicate HasRoomFor(w: World, r: Request)
    requires w.WellFormed()
  {
    SpaceFor(|w.outq|, OutQueueSpace(CommandOf(r)))
  }

  lemma {:induction false} GeneralRuns(w: World, r: Request, e: Event, rest: seq<byte>)
    requires w.WellFormed() && IsGeneral(r) && RequestOk(w.mem, r) && HasRoomFor(w, r) && Obliges(e, r)
    requires w.inq == Args(r, rest)
    ensures e.general.consumed <= |w.inq|
    ensures Completes(GeneralCommand(w, e.general), w, r, e.granted, rest)
    ensures GeneralCommand(w, e.general).w.sendMode == w.sendMode
  {
    hide PutFrame, Frame, CommandOf, IsMemoryCommand, Memstore.WellFormed, WireOk;
    assert w.inq[|Params(r)|..] == REAR + rest;
    if r.reply.Some? {
      PutFrameWithRoom(w.outq, TEXT_COMMAND, r.reply.value);
    }
  }

  /** A retrieval waits when the answer does not fit the output yet. */
  predicate MustWaitForRoom(w: World, r: Request)
    requires w.WellFormed()
  {
    r.RallocReq? && r.page <= MAX_PAGES && HasPage(w.mem, r.id, r.page)
    && !SpaceFor(|w.outq|, 23 + PageSize(w.mem, r.id))
  }

  /** The send lock once `r` has been served: a page sets it to the data frame, the terminator of the
      request and what has arrived behind that. */
  function LockAfter(w: World, r: Request, behind: seq<byte>): int {
    if r.RallocReq? && r.page <= MAX_PAGES && HasPage(w.mem, r.id, r.page)
    then PageSize(w.mem, r.id) + PACKET_OVERHEAD + 3 + |behind|
    else w.sendMode
  }

  lemma {:induction false} LockAfterIsNat(w: World, r: Request, behind: seq<byte>)
    requires w.WellFormed() && w.sendMode >= 0
    ensures LockAfter(w, r, behind) >= 0
  {
    if r.RallocReq? {
      PageSizeInRange(w.mem, r.id);
    }
  }

  predicate WouldFill(w: World, r: Request)
    requires w.WellFormed()
  {
    r.RallocReq? && r.page <= MAX_PAGES && HasPage(w.mem, r.id, r.page)
    && |w.outq| + 23 + PageSize(w.mem, r.id) == QUEUE_SIZE
  }

  lemma {:induction false} RallocRuns(w: World, r: Request, rest: seq<byte>)
    requires w.WellFormed() && HasRoom(w) && r.RallocReq? && RequestOk(w.mem, r) && !WouldFill(w, r)
    requires w.inq == Args(r, rest)
    ensures |w.inq| >= 3
    ensures if MustWaitForRoom(w, r) then RetrieveAlloc(w) == Outcome(w.(inq := REAR + rest), false)
            else Completes(RetrieveAlloc(w), w, r, true, rest) && RetrieveAlloc(w).w.sendMode == LockAfter(w, r, rest)
  {
    hide WireOk, GeneralOk, AnswerText;
    hide PutFrame, RetrievePage, Frame, Memstore.WellFormed, SendPage;
    OneWordParam(w.inq, r.id, r.page, REAR + rest);
    var w' := w.(inq := REAR + rest);
    if HasPage(w.mem, r.id, r.page) && r.page <= MAX_PAGES {
      if SpaceFor(|w.outq|, 23 + |RetrievePage(w.mem, r.id, r.page).value|) {
        PageIsSent(w', r);
      }
    } else {
      ReplyIsWhole(w', Status5(RETRIEVE_ALLOC, 0, r.page, 1));
      assert Status5(RETRIEVE_ALLOC, 0, r.page, 1) == [RETRIEVE_ALLOC, 0] + Bytes16(r.page) + [1];
    }
  }

  lemma {:induction false} PageIsSent(w: World, r: Request)
    requires w.WellFormed() && HasRoom(w) && r.RallocReq? && r.page <= MAX_PAGES && HasPage(w.mem, r.id, r.page)
    requires SpaceFor(|w.outq|, 23 + PageSize(w.mem, r.id)) && !WouldFill(w, r)
    ensures var data := RetrievePage(w.mem, r.id, r.page).value;
            SendPage(w, r.id, r.page, data) ==
            w.(outq := w.outq + (Answer5(RETRIEVE_ALLOC, r.id, r.page, 0) + Frame(BINARY_DATA, data)),
              sendMode := |data| + PACKET_OVERHEAD + |w.inq|)
  {
    hide PutFrame, RetrievePage, Frame, Memstore.WellFormed;
    var data := RetrievePage(w.mem, r.id, r.page).value;
    var status := Status5(RETRIEVE_ALLOC, r.id, r.page, 0);
    assert status == [RETRIEVE_ALLOC, r.id] + Bytes16(r.page) + [0];
    PageIsNotSmall(w.mem, r.id);
    TwoFrames(w.outq, status, data);
    assert w.outq + Frame(BINARY_COMMAND, status) + Frame(BINARY_DATA, data)
        == w.outq + (Frame(BINARY_COMMAND, status) + Frame(BINARY_DATA, data));
  }

  lemma {:induction false} OneWordParam(c: seq<byte>, id: byte, n: nat, rest: seq<byte>)
    requires n < 65536 && c == ([id] + Bytes16(n)) + rest
    ensures |c| >= 3 && c[0] == id && Param16(c[1..]) == n && c[3..] == rest
  {
    assert c[1..] == Bytes16(n) + rest;
    Param16Of(n, rest);
  }

  /** The data frame is not there yet: the lock asks for exactly the bytes that are missing. */
  predicate AwaitsRest(o: Outcome, w: World, r: Request, rest: seq<byte>)
    requires CarriesData(r)
  {
    o == Outcome(w.(inq := rest, receiveMode := |DataPart(r)| - |rest|), false)
  }

  /** `rest` is a beginning of the data frame of `r`, or has it in front of `behind`. */
  predicate DataSoFar(r: Request, rest: seq<byte>, behind: seq<byte>)
    requires CarriesData(r)
  {
    if |rest| < |DataPart(r)| then rest == DataPart(r)[..|rest|] else rest == DataPart(r) + behind
  }

  lemma {:induction false} SallocRuns(w: World, r: Request, rest: seq<byte>, behind: seq<byte>)
    requires w.WellFormed() && HasRoom(w) && r.SallocReq? && RequestOk(w.mem, r)
    requires w.inq == Args(r, rest) && DataSoFar(r, rest, behind)
    ensures |w.inq| >= 3 && StoreCanSkip(w, true)
    ensures if |rest| < |DataPart(r)| then AwaitsRest(StoreAlloc(w, true), w, r, rest)
            else Completes(StoreAlloc(w, true), w, r, true, behind)
    ensures StoreAlloc(w, true).w.sendMode == w.sendMode
  {
    hide WireOk, GeneralOk, AnswerText;
    hide PutFrame, StorePage, Frame, Memstore.WellFormed, Judge, FindStart, SkipTerminator, StoreData;
    OneWordParam(w.inq, r.id, r.page, REAR + rest);
    TerminatorIsSkipped(rest);
    PageSizeInRange(w.mem, r.id);
    var f := Frame(BINARY_DATA, r.data);
    FrameIsFrame(BINARY_DATA, r.data);
    if |rest| < |f| {
      PartialFrameWaits(f, rest);
    } else {
      FrameIsAccepted(f, behind);
      StoreDataRuns(w.(inq := rest), r, behind);
    }
  }

  /** A frame that begins with the data asked for serves the request with them, whatever it carries more. */
  lemma {:induction false} StoreDataServes(w: World, r: Request)
    requires w.WellFormed() && HasRoom(w) && r.SallocReq? && RequestOk(w.mem, r) && Judge(w.inq).Accept?
    requires |w.inq| >= 6 + |r.data| && DeclaredSize(w.inq) - 3 >= |r.data| && w.inq[6..6 + |r.data|] == r.data
    ensures var (mem, answer) := Serve(w.mem, r, true);
            StoreData(w, r.id, r.page, |r.data|).w ==
            w.(inq := w.inq[6 + |r.data|..], outq := w.outq + answer, mem := mem)
  {
    hide WireOk, GeneralOk, AnswerText;
    hide PutFrame, StorePage, Frame, Memstore.WellFormed, Judge;
    PageSizeInRange(w.mem, r.id);
    AcceptedLength(w.inq);
    var w' := w.(inq := w.inq[6 + |r.data|..]);
    assert Status5(STORE_ALLOC, 0, r.page, 1) == [STORE_ALLOC, 0] + Bytes16(r.page) + [1];
    assert Status5(STORE_ALLOC, r.id, r.page, 0) == [STORE_ALLOC, r.id] + Bytes16(r.page) + [0];
    ReplyIsWhole(w', Status5(STORE_ALLOC, 0, r.page, 1));
    if HasPage(w.mem, r.id, r.page) {
      StoreThenRetrieve(w.mem, r.id, r.page, r.data, r.id, r.page);
      var mem := StorePage(w.mem, r.id, r.page, r.data).value;
      ReplyIsWhole(w'.(mem := mem), Status5(STORE_ALLOC, r.id, r.page, 0));
    }
  }

  lemma {:induction false} StoreDataRuns(w: World, r: Request, behind: seq<byte>)
    requires w.WellFormed() && HasRoom(w) && r.SallocReq? && RequestOk(w.mem, r)
    requires w.inq == Frame(BINARY_DATA, r.data) + behind && Judge(w.inq).Accept?
    ensures Completes(StoreData(w, r.id, r.page, |r.data|), w, r, true, behind)
    ensures StoreData(w, r.id, r.page, |r.data|).w.sendMode == w.sendMode
  {
    hide StoreData, Frame, Memstore.WellFormed, Judge, Serve, WireOk;
    PageSizeInRange(w.mem, r.id);
    FrameParts(BINARY_DATA, r.data, behind);
    StoreDataServes(w, r);
  }


  lemma {:induction false} IallocRuns(w: World, r: Request, rest: seq<byte>, behind: seq<byte>)
    requires w.WellFormed() && HasRoom(w) && r.IallocReq? && RequestOk(w.mem, r)
    requires w.inq == Args(r, rest) && DataSoFar(r, rest, behind)
    ensures |w.inq| >= 9 && InsertCanSkip(w, true)
    ensures if |rest| < |DataPart(r)| then AwaitsRest(InsertAlloc(w, true), w, r, rest)
            else Completes(InsertAlloc(w, true), w, r, true, behind)
    ensures InsertAlloc(w, true).w.sendMode == w.sendMode
  {
    hide WireOk, GeneralOk, AnswerText;
    hide PutFrame, Insert, Frame, Memstore.WellFormed, Judge, FindStart, SkipTerminator, InsertData;
    hide Param32, IntBytes;
    TwoIntParams(w.inq, r.id, r.at, |r.data|, REAR + rest);
    TerminatorIsSkipped(rest);
    var f := Frame(BINARY_DATA, r.data);
    FrameIsFrame(BINARY_DATA, r.data);
    if |rest| < |f| {
      PartialFrameWaits(f, rest);
    } else {
      FrameIsAccepted(f, behind);
      InsertDataRuns(w.(inq := rest), r, behind);
    }
  }

  lemma {:induction false} InsertDataServes(w: World, r: Request)
    requires w.WellFormed() && HasRoom(w) && r.IallocReq? && RequestOk(w.mem, r) && Judge(w.inq).Accept?
    requires |w.inq| >= 6 + |r.data| && DeclaredSize(w.inq) - 3 >= |r.data| && w.inq[6..6 + |r.data|] == r.data
    ensures var (mem, answer) := Serve(w.mem, r, true);
            InsertData(w, r.id, r.at, |r.data|).w ==
            w.(inq := w.inq[6 + |r.data|..], outq := w.outq + answer, mem := mem)
  {
    hide WireOk, GeneralOk, AnswerText;
    hide PutFrame, Insert, Frame, Memstore.WellFormed, Judge;
    AcceptedLength(w.inq);
    var w' := w.(inq := w.inq[6 + |r.data|..]);
    ReplyIsWhole(w', Status3(INSERT_ALLOC, 0, 1));
    if CanEdit(w.mem, r.id, r.at, |r.data|) {
      EditsKeepStore(w.mem, r.id, r.at, |r.data|, r.data);
      var mem := Insert(w.mem, r.id, r.at, |r.data|, r.data).value;
      ReplyIsWhole(w'.(mem := mem), Status3(INSERT_ALLOC, r.id, 0));
    }
  }

  lemma {:induction false} InsertDataRuns(w: World, r: Request, behind: seq<byte>)
    requires w.WellFormed() && HasRoom(w) && r.IallocReq? && RequestOk(w.mem, r)
    requires w.inq == Frame(BINARY_DATA, r.data) + behind && Judge(w.inq).Accept?
    ensures Completes(InsertData(w, r.id, r.at, |r.data|), w, r, true, behind)
    ensures InsertData(w, r.id, r.at, |r.data|).w.sendMode == w.sendMode
  {
    hide InsertData, Frame, Memstore.WellFormed, Judge, Serve, WireOk;
    FrameParts(BINARY_DATA, r.data, behind);
    InsertDataServes(w, r);
  }


  // ------------------------------------------------------------- the dispatch as a whole

  lemma {:induction false} HeadOfRequest(r: Request, rest: seq<byte>)
    requires WireOk(r)
    ensures var c := Frame(KindOf(r), Body(r)) + rest;
            && Accepts(c) && AfterCheck(c) == c && Judge(c).Accept?
            && ReadHead(c) == Command(CommandOf(r), Args(r, rest))
            && |c| == 9 + |Body(r)| + |rest| && c[5] == KindOf(r)
            && (c[5] == TEXT_COMMAND ==> HasName(HeadPayload(c)))
  {
    hide Body, Judge, FindStart, Accepts, AfterCheck, HasName, NameLength, CommandIdFrom, AfterName;
    var f := Frame(KindOf(r), Body(r));
    FrameIsFrame(KindOf(r), Body(r));
    FrameIsAccepted(f, rest);
    FrameParts(KindOf(r), Body(r), rest);
    var c := f + rest;
    if r.TextReq? {
      TextBody(r);
      NamedTextIsRead(r.name, r.separator, r.params, rest);
      assert Args(r, rest) == r.params + REAR + rest;
    } else {
      assert c[6..] == Body(r) + REAR + rest;
      assert c[7..] == c[6..][1..] == Args(r, rest);
      assert c[6] == c[6..][0] == Body(r)[0];
    }
  }

  lemma {:induction false} TextBody(r: Request)
    requires r.TextReq?
    ensures Body(r) == r.name + [r.separator] + r.params
  {
  }

  /** The command has to wait for room in the output: nothing has changed. */
  predicate WaitsForRoom(s: State, s': State) {
    s' == s
  }

  /** The command has to wait for the rest of its data frame: only the receive lock is set, to the
      bytes of the request that are missing. */
  predicate WaitsForData(s: State, s': State, r: Request) {
    && CarriesData(r) && |s.w.inq| < |Encode(r)|
    && s' == s.(w := s.w.(receiveMode := |Encode(r)| - |s.w.inq|))
  }

  /** The request is served and gone from the input. */
  predicate IsServed(s: State, s': State, r: Request, granted: bool, behind: seq<byte>)
    requires s.w.WellFormed() && RequestOk(s.w.mem, r)
  {
    var (mem, answer) := Serve(s.w.mem, r, granted);
    && s'.w == s.w.(inq := behind, outq := s.w.outq + answer, mem := mem, sendMode := LockAfter(s.w, r, behind))
    && s' == s.(w := s'.w)
  }

  /** There is room for the answer: the reservation, and for a page all of it. */
  predicate CanServe(w: World, r: Request)
    requires w.WellFormed()
  {
    HasRoomFor(w, r) && !MustWaitForRoom(w, r)
  }

  /** What `process_command` makes of a request: the three ways the dispatch can end. */
  lemma {:induction false} ProcessRequest(w: World, t: Table, r: Request, rest: seq<byte>, behind: seq<byte>, e: Event)
    requires w.WellFormed() && RequestOk(w.mem, r) && !WouldFill(w, r) && Obliges(e, r)
    requires w.inq == Args(r, rest)
    requires if CarriesData(r) then e.granted && DataSoFar(r, rest, behind) else rest == behind
    ensures Readable(CommandOf(r), w, e)
    ensures var p := Process(CommandOf(r), w, t, e);
            && p.table == t
            && (p.ok <==> CanServe(w, r) && (CarriesData(r) ==> |rest| >= |DataPart(r)|))
            && if p.ok then Completes(Outcome(p.w, true), w, r, e.granted, behind)
                         && p.w.sendMode == LockAfter(w, r, behind)
               else if CarriesData(r) && HasRoom(w) then
                 |rest| < |DataPart(r)| && p.w == w.(inq := rest, receiveMode := |DataPart(r)| - |rest|)
               else SameInputAside(p.w, w)
  {
    if IsGeneral(r) {
      ProcessGeneral(w, t, r, rest, e);
    } else {
      ProcessMemory(w, t, r, rest, behind, e);
    }
  }

  lemma {:induction false} ProcessGeneral(w: World, t: Table, r: Request, rest: seq<byte>, e: Event)
    requires w.WellFormed() && IsGeneral(r) && RequestOk(w.mem, r) && Obliges(e, r)
    requires w.inq == Args(r, rest)
    ensures Readable(CommandOf(r), w, e)
    ensures var p := Process(CommandOf(r), w, t, e);
            && p.table == t && (p.ok <==> HasRoomFor(w, r))
            && if p.ok then Completes(Outcome(p.w, true), w, r, e.granted, rest) && p.w.sendMode == w.sendMode
               else SameInputAside(p.w, w)
  {
    hide GeneralCommand, Memstore.WellFormed, Frame, WireOk, CommandOf;
    if HasRoomFor(w, r) {
      GeneralRuns(w, r, e, rest);
    }
  }

  lemma {:induction false} ProcessMemory(w: World, t: Table, r: Request, rest: seq<byte>, behind: seq<byte>, e: Event)
    requires w.WellFormed() && !IsGeneral(r) && RequestOk(w.mem, r) && !WouldFill(w, r)
    requires w.inq == Args(r, rest)
    requires if CarriesData(r) then e.granted && DataSoFar(r, rest, behind) else rest == behind
    ensures Readable(CommandOf(r), w, e)
    ensures var p := Process(CommandOf(r), w, t, e);
            && p.table == t
            && (p.ok <==> CanServe(w, r) && (CarriesData(r) ==> |rest| >= |DataPart(r)|))
            && if p.ok then Completes(Outcome(p.w, true), w, r, e.granted, behind)
                         && p.w.sendMode == LockAfter(w, r, behind)
               else if CarriesData(r) && HasRoom(w) then
                 |rest| < |DataPart(r)| && p.w == w.(inq := rest, receiveMode := |DataPart(r)| - |rest|)
               else SameInputAside(p.w, w)
  {
    hide CreateAlloc, FreeAlloc, RetrieveAlloc, StoreAlloc, InsertAlloc, CutAlloc, Memstore.WellFormed;
    hide Encode, DataPart, Frame, StoreCanSkip, InsertCanSkip, Create, Free, StorePage, Insert, Cut;
    hide RequestOk, RetrievePage, IntBytes;
    if HasRoom(w) {
      match r
      case CallocReq(_, _) => CallocRuns(w, r, e.granted, rest);
      case FallocReq(_) => FallocRuns(w, r, rest);
      case RallocReq(_, _) => RallocRuns(w, r, rest);
      case SallocReq(_, _, _) => SallocRuns(w, r, rest, behind);
      case IallocReq(_, _, _) => IallocRuns(w, r, rest, behind);
      case XallocReq(_, _, _) => XallocRuns(w, r, rest);
    } else {
      ArgsAreReadable(w, r, rest, behind, e);
    }
  }

  predicate SameInputAside(a: World, b: World) {
    a.(inq := []) == b.(inq := [])
  }

  lemma {:induction false} ArgsAreReadable(w: World, r: Request, rest: seq<byte>, behind: seq<byte>, e: Event)
    requires w.WellFormed() && !IsGeneral(r) && RequestOk(w.mem, r) && w.inq == Args(r, rest)
    requires if CarriesData(r) then e.granted && DataSoFar(r, rest, behind) else rest == behind
    ensures Readable(CommandOf(r), w, e)
  {
    hide WireOk, GeneralOk, AnswerText, DataSoFar, StoreCanSkip, InsertCanSkip;
    hide IntBytes, SkipTerminator, Memstore.WellFormed, Param32, Frame;
    if r.SallocReq? {
      StoreArgs(w, r, rest);
    } else if r.IallocReq? {
      InsertArgs(w, r, rest);
    }
  }

  lemma {:induction false} StoreArgs(w: World, r: Request, rest: seq<byte>)
    requires w.WellFormed() && r.SallocReq? && RequestOk(w.mem, r) && w.inq == Args(r, rest)
    ensures |w.inq| >= 3 && StoreCanSkip(w, true)
  {
    hide WireOk, SkipTerminator, Memstore.WellFormed;
    OneWordParam(w.inq, r.id, r.page, REAR + rest);
  }

  lemma {:induction false} InsertArgs(w: World, r: Request, rest: seq<byte>)
    requires w.WellFormed() && r.IallocReq? && RequestOk(w.mem, r) && w.inq == Args(r, rest)
    ensures |w.inq| >= 9 && InsertCanSkip(w, true)
  {
    hide WireOk, IntBytes, SkipTerminator, Memstore.WellFormed, Param32;
    TwoIntParams(w.inq, r.id, r.at, |r.data|, REAR + rest);
  }

  /** The dispatch of a request whose command frame is complete: it is served exactly when its data
      are complete and its answer has room. */
  lemma {:induction false} DispatchRequest(s: State, r: Request, rest: seq<byte>, behind: seq<byte>, e: Event)
    requires s.w.WellFormed() && RequestOk(s.w.mem, r) && !WouldFill(s.w, r) && Obliges(e, r)
    requires s.w.inq == Frame(KindOf(r), Body(r)) + rest
    requires if CarriesData(r) then e.granted && DataSoFar(r, rest, behind) else rest == behind
    ensures Accepts(s.w.inq) && Judge(AfterCheck(s.w.inq)).Accept? && Dispatchable(AfterCheck(s.w.inq), s.w, e)
    ensures var s' := Dispatch(s, e);
            if CanServe(s.w, r) && (CarriesData(r) ==> |rest| >= |DataPart(r)|)
            then IsServed(s, s', r, e.granted, behind)
            else WaitsForRoom(s, s') || WaitsForData(s, s', r)
  {
    hide Process, Judge, Accepts, AfterCheck, ReadHead, Readable, Memstore.WellFormed, Serve, RequestOk;
    hide SkipTerminator, Body, Frame;
    RequestFitsWire(s.w.mem, r);
    HeadOfRequest(r, rest);
    var w := s.w.(inq := Args(r, rest));
    ProcessRequest(w, s.table, r, rest, behind, e);
    TerminatorIsSkipped(behind);
  }
}
