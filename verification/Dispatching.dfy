/** What a packet check does with the frame at the head, case by case and read off the bytes: a command
    outside the six, a text without a name, and a store or an insert that is refused at once. */
module Dispatching {
  import opened Bytes
  import opened RingQueue
  import opened FrameCodec
  import opened Packet
  import opened Memstore
  import opened CommandText
  import opened MemoryCommands
  import opened Scheduler
  import opened MainLoop
  import opened Refinement
  import opened RequestDispatch

  // ------------------------------------------------------------- no frame at the head

  /** A whole packet that is no frame is dropped, just the bytes it declares, and nothing else happens. */
  lemma {:induction false} BadPacketAtHead(s: State, e: Event)
    requires s.w.WellFormed() && StartsFrame(s.w.inq) && |s.w.inq| >= 6
    requires var n := s.w.inq[3] as int + 256 * s.w.inq[4] as int + 6; |s.w.inq| >= n && !IsFrame(s.w.inq[..n])
    ensures var n := s.w.inq[3] as int + 256 * s.w.inq[4] as int + 6;
            Dispatch(s, e) == s.(w := s.w.(inq := s.w.inq[n..]))
  {
    hide Judge, FindStart, IsFrame;
    BadPacketIsDropped(s.w.inq);
  }

  /** A packet of which a part is missing is left alone. */
  lemma {:induction false} PartAtHead(s: State, e: Event)
    requires s.w.WellFormed() && StartsFrame(s.w.inq)
    requires |s.w.inq| < 6 || |s.w.inq| < s.w.inq[3] as int + 256 * s.w.inq[4] as int + 6
    ensures Dispatch(s, e) == s
  {
    hide Judge, FindStart;
    PartialPacketWaits(s.w.inq);
  }

  /** Input without any `+++` is dropped but for its last two bytes. */
  lemma {:induction false} NoStart(s: State, e: Event)
    requires s.w.WellFormed() && forall j :: 0 <= j < |s.w.inq| ==> !StartsFrame(s.w.inq[j..])
    ensures Dispatch(s, e) == s.(w := s.w.(inq := if |s.w.inq| < 3 then s.w.inq else s.w.inq[|s.w.inq| - 2..]))
  {
    var c := s.w.inq;
    FindStartIsFirst(c);
    GarbageLeavesTwo(c);
    if |c| < 3 { assert c[0..] == c; }
  }

  /** A frame behind garbage that does not hide it is dispatched as if it stood alone. */
  lemma {:induction false} FrameBehindGarbage(s: State, g: seq<byte>, f: seq<byte>, more: seq<byte>, e: Event)
    requires s.w.WellFormed() && s.w.inq == g + (f + more) && IsFrame(f)
    requires (forall j :: 0 <= j < |g| ==> !StartsFrame(g[j..])) && (g == [] || g[|g| - 1] != 43)
    ensures Dispatch(s, e) == Dispatch(s.(w := s.w.(inq := f + more)), e)
  {
    hide Judge, Accepts, FindStart, IsFrame, DispatchHead, Dispatchable;
    GarbageIsDropped(g, f, more);
    FrameIsAccepted(f, more);
    SameDispatch(s, f + more, e);
  }

  lemma {:induction false} GarbageIsDropped(g: seq<byte>, f: seq<byte>, more: seq<byte>)
    requires IsFrame(f) && Transparent(g)
    ensures Accepts(g + (f + more)) && AfterCheck(g + (f + more)) == f + more
  {
    FrameIsAccepted(f, more);
    FrontOfFrame(f, more);
    ResyncBehindTransparent(g, f + more);
    assert (g + (f + more))[|g|..] == f + more;
  }

  lemma {:induction false} SameDispatch(s: State, c: seq<byte>, e: Event)
    requires s.w.WellFormed() && |c| <= |s.w.inq| && Accepts(s.w.inq) && AfterCheck(s.w.inq) == c
    requires Accepts(c) && AfterCheck(c) == c
    ensures Dispatch(s, e) == Dispatch(s.(w := s.w.(inq := c)), e)
  {
    hide Accepts, AfterCheck, DispatchHead, Dispatchable, Judge, Memstore.WellFormed;
    AcceptedHead(s.w.inq);
    AcceptedHead(c);
    HeadIgnoresInput(s, c, e);
  }

  /** The dispatch of a frame looks at the input only from that frame on. */
  lemma {:induction false} HeadIgnoresInput(s: State, c: seq<byte>, e: Event)
    requires s.w.WellFormed() && |c| < QUEUE_SIZE && Judge(c).Accept?
    ensures Dispatchable(c, s.w.(inq := c), e) <==> Dispatchable(c, s.w, e)
    ensures Dispatchable(c, s.w, e) ==> DispatchHead(s, c, e) == DispatchHead(s.(w := s.w.(inq := c)), c, e)
  {
    hide Process, Readable, ReadHead, PutFrame, SkipTerminator, Judge, Memstore.WellFormed;
  }

  // ------------------------------------------------------------- commands outside the six

  /** The room a command needs in the output before it is run. */
  function RoomNeeded(id: nat): nat {
    if id == 6 then 1024 else if id == 11 then 100 else if id == 12 then 2048 else 30
  }

  /** The output with the text reply of a command, if it has one. */
  function WithReply(outq: seq<byte>, reply: Option<seq<byte>>): seq<byte>
    requires |outq| < QUEUE_SIZE
  {
    if reply.Some? then PutFrame(outq, 1, reply.value) else outq
  }

  /** The state after the command `id`, outside the six, has been found in front of `rest`. Without room
      nothing happens. An unfinished SHELLEXEC is put back. Otherwise its frame is gone, and if it is not
      finished it takes over the last idle slot, to be called with tick 1, or is forgotten when all twenty
      are taken. */
  ghost predicate GeneralOutcome(s: State, s': State, id: nat, rest: seq<byte>, e: Event)
    requires s.w.WellFormed()
  {
    var outq := WithReply(s.w.outq, e.general.reply);
    if |s.w.outq| + RoomNeeded(id) > QUEUE_SIZE then s' == s
    else if id == 12 && !e.general.complete then s' == s.(w := s.w.(outq := outq))
    else
      && s'.w == s.w.(inq := rest, outq := outq)
      && s' == s.(w := s'.w, table := s'.table)
      && (if id == 0 || e.general.complete || AllParked(s.table) then s'.table == s.table
          else TakesLastIdle(s.table, s'.table, Parked(id, 1, e.parked + TickPeriod(id) * 1000)))
  }

  /** `entry` stands in the last idle slot, and every other entry is as before. */
  ghost predicate TakesLastIdle(t: Table, t': Table, entry: Entry) {
    exists d :: 0 <= d < 20 && t[d].Idle? && (forall i :: d < i < 20 ==> t[i].Parked?)
             && t' == t[d := entry]
  }

  lemma {:induction false} ParkedIsLastIdle(t: Table, id: nat, clock: int)
    requires id != UNKNOWN
    ensures if AllParked(t) then Park(t, id, clock) == t
            else TakesLastIdle(t, Park(t, id, clock), Parked(id, 1, clock + TickPeriod(id) * 1000))
  {
    ForgottenIffFull(t, id, clock);
    var s := ParkSlot(t);
    if !AllParked(t) {
      assert Park(t, id, clock) == t[s := Parked(id, 1, clock + TickPeriod(id) * 1000)];
    }
  }

  lemma {:induction false} RoomIsTheTable(unread: nat, id: nat)
    requires unread < QUEUE_SIZE
    ensures SpaceFor(unread, OutQueueSpace(id)) <==> unread + RoomNeeded(id) <= QUEUE_SIZE
  {
  }

  lemma {:induction false} GeneralIsProcessed(w: World, t: Table, id: nat, params: seq<byte>, rest: seq<byte>, e: Event)
    requires w.WellFormed() && !(21 <= id <= 26) && e.general.consumed == |params|
    requires w.inq == params + (REAR + rest)
    ensures Readable(id, w, e)
    ensures var p := Process(id, w, t, e);
            var outq := WithReply(w.outq, e.general.reply);
            if |w.outq| + RoomNeeded(id) > QUEUE_SIZE then p == Processed(w, t, false)
            else if id == 12 && !e.general.complete then
              p == Processed(p.w, t, false) && p.w == w.(inq := p.w.inq, outq := outq)
            else
              && p.ok && p.w == w.(inq := REAR + rest, outq := outq)
              && (if id == 0 || e.general.complete || AllParked(t) then p.table == t
                  else TakesLastIdle(t, p.table, Parked(id, 1, e.parked + TickPeriod(id) * 1000)))
  {
    hide PutFrame, TakesLastIdle, AllParked, Memstore.WellFormed, SpaceFor, OutQueueSpace, RoomNeeded;
    RoomIsTheTable(|w.outq|, id);
    assert w.inq[|params|..] == REAR + rest;
    if id != UNKNOWN { ParkedIsLastIdle(t, id, e.parked); }
  }

  lemma {:induction false} GeneralAtHead(s: State, r: Request, rest: seq<byte>, e: Event)
    requires s.w.WellFormed() && IsGeneral(r) && WireOk(r) && !(21 <= CommandOf(r) <= 26)
    requires e.general.consumed == |Params(r)|
    requires s.w.inq == Frame(KindOf(r), Body(r)) + rest
    ensures GeneralOutcome(s, Dispatch(s, e), CommandOf(r), rest, e)
  {
    hide Process, Judge, Accepts, AfterCheck, ReadHead, Readable, Memstore.WellFormed, PutFrame, AllParked;
    hide SkipTerminator, Body, Frame, KindOf, CommandOf, Params, TakesLastIdle, RoomNeeded, WireOk;
    HeadOfRequest(r, rest);
    GeneralIsProcessed(s.w.(inq := Args(r, rest)), s.table, CommandOf(r), Params(r), rest, e);
    TerminatorIsSkipped(rest);
  }

  /** A binary command outside the six, with its parameters. */
  lemma {:induction false} BinaryAtHead(s: State, id: byte, params: seq<byte>, rest: seq<byte>, e: Event)
    requires s.w.WellFormed() && !(21 <= id <= 26) && |params| <= 65531
    requires e.general.consumed == |params| && s.w.inq == Frame(2, [id] + params) + rest
    ensures GeneralOutcome(s, Dispatch(s, e), id as nat, rest, e)
  {
    hide Dispatch, GeneralOutcome, Frame;
    var r := BinaryReq(id, params, None);
    assert Body(r)[1..] == params;
    GeneralAtHead(s, r, rest, e);
  }

  /** A text command outside the six: its name, a space or a newline, and its parameters. */
  lemma {:induction false} TextAtHead(s: State, name: seq<byte>, separator: byte, params: seq<byte>,
                                      rest: seq<byte>, e: Event)
    requires s.w.WellFormed() && IsName(name) && (separator == 32 || separator == 10)
    requires !(21 <= CommandIdFrom(name, 0) <= 26) && |name| + 1 + |params| <= 65532
    requires e.general.consumed == |params| && s.w.inq == Frame(1, name + [separator] + params) + rest
    ensures GeneralOutcome(s, Dispatch(s, e), CommandIdFrom(name, 0), rest, e)
  {
    hide Dispatch, GeneralOutcome, Frame, CommandIdFrom, IsName;
    var r := TextReq(name, separator, params, None);
    TextBody(r);
    GeneralAtHead(s, r, rest, e);
  }

  // ------------------------------------------------------------- enough is stored

  /** Whatever a client sends, each of the six finds its parameters when that many bytes are stored, and a
      store or an insert one to step over when it is refused; any other command, when the bytes it reads are
      stored. */
  lemma {:induction false} EnoughIsStored(id: nat, w: World, e: Event)
    requires w.WellFormed()
    ensures !(21 <= id <= 26) ==> (Readable(id, w, e) <==> e.general.consumed <= |w.inq|)
    ensures id == 22 && |w.inq| >= 1 ==> Readable(id, w, e)
    ensures (id == 21 || id == 23) && |w.inq| >= 3 ==> Readable(id, w, e)
    ensures id == 26 && |w.inq| >= 9 ==> Readable(id, w, e)
    ensures id == 24 && |w.inq| >= 7 ==> Readable(id, w, e)
    ensures id == 25 && |w.inq| >= 13 ==> Readable(id, w, e)
  {
    hide StoreEarlyError, InsertEarlyError, Memstore.WellFormed;
  }

  // ------------------------------------------------------------- a text without a name

  lemma {:induction false} BadTextReplyIsSpelled()
    ensures Spells(BAD_TEXT_REPLY, "Bad Text Command\n")
  {
  }

  /** A text without a name is answered once and taken. Nothing else changes, and the next check finds the
      frame behind it if and only if the text does not begin with a newline and hold a front delimiter. */
  lemma {:induction false} BadTextAtHead(s: State, p: seq<byte>, f: seq<byte>, more: seq<byte>, e: Event)
    requires s.w.WellFormed() && !HasName(p) && |p| <= 65532 && IsFrame(f)
    requires s.w.inq == Frame(1, p) + (f + more)
    ensures var s' := Dispatch(s, e);
            && s' == s.(w := s.w.(inq := s'.w.inq, outq := s'.w.outq))
            && (|s.w.outq| + 26 < QUEUE_SIZE ==> s'.w.outq == s.w.outq + Frame(1, BAD_TEXT_REPLY))
            && (Accepts(s'.w.inq) && AfterCheck(s'.w.inq) == f + more <==> !(p != [] && p[0] == 10 && HoldsFront(p)))
  {
    hide Judge, PutFrame, SkipTerminator, Frame, HasName, HoldsFront, AfterName, Memstore.WellFormed;
    var c := s.w.inq;
    HeadOfFrame(TEXT_COMMAND, p, f + more);
    FrameIsFrame(TEXT_COMMAND, p);
    FrameIsAccepted(Frame(TEXT_COMMAND, p), f + more);
    FrameParts(TEXT_COMMAND, p, f + more);
    assert ReadHead(c) == BadText(AfterName(c));
    RejectedTextKeepsNextFrame(p, f, more);
    if |s.w.outq| + 26 < QUEUE_SIZE {
      PutFrameWithRoom(s.w.outq, TEXT_COMMAND, BAD_TEXT_REPLY);
    }
  }

  // --------------------------------------------------- a store or an insert refused at once

  /** The answer to a refused command. */
  function Refused5(command: byte, page: nat, error: byte): seq<byte> {
    Frame(2, [command, 0, page % 256, page / 256 % 256, error])
  }

  /** After the refusal the input is looked through for `+++`, from the second byte on: `left` begins where
      that is found, or is shorter than a delimiter. */
  predicate SteppedOver(d: seq<byte>, left: seq<byte>) {
    && |left| < |d| && left == d[|d| - |left|..]
    && (forall j :: 1 <= j < |d| - |left| ==> !StartsFrame(d[j..]))
    && (StartsFrame(left) || |left| < 3)
  }

  lemma {:induction false} SkipSteps(d: seq<byte>)
    requires d != []
    ensures SteppedOver(d, SkipDataFrame(d))
  {
    var c := d[1..];
    FindStartIsFirst(c);
    var left := SkipDataFrame(d);
    assert left == d[1 + FindStart(c)..];
    forall j | 1 <= j < |d| - |left| ensures !StartsFrame(d[j..]) {
      assert d[j..] == c[j - 1..];
    }
  }

  /** The frame behind a refused command is stepped over, to the very frame behind it, if and only if it
      holds no `+++` after its first byte. */
  lemma {:induction false} FrameIsSteppedOver(f: seq<byte>, next: seq<byte>, left: seq<byte>)
    requires IsFrame(f) && StartsFrame(next) && SteppedOver(f + next, left)
    ensures left == next <==> forall j :: 1 <= j < |f| ==> !StartsFrame(f[j..])
  {
    hide IsFrame, StartsFrame;
    FrameLasts(f);
    var d, k := f + next, |f + next| - |left|;
    assert d[|f|..] == next;
    forall j | 1 <= j < |f| ensures StartsFrame(f[j..]) <==> StartsFrame(d[j..]) {
      StartsAt(f, j);
      StartsAt(d, j);
    }
    StartIsLong(next);
    StartIsLong(left);
    if k < |f| {
      assert d[k..] == left;
    }
  }

  lemma {:induction false} FrameLasts(f: seq<byte>)
    requires IsFrame(f)
    ensures |f| >= 9 && f[|f| - 1] == 45 && f[|f| - 2] == 45
  {
    IsFrameBytes(f);
  }

  lemma {:induction false} StartIsLong(c: seq<byte>)
    ensures StartsFrame(c) ==> |c| >= 3
  {
  }

  /** SALLOC without a buffer, for an id that is not live, or for a page number above 9999. */
  lemma {:induction false} RefusedStore(s: State, id: byte, page: nat, d: seq<byte>, e: Event)
    requires s.w.WellFormed() && |s.w.outq| + 30 <= QUEUE_SIZE && page < 65536 && d != []
    requires s.w.inq == Frame(2, [24, id, page % 256, page / 256]) + d
    requires !e.granted || !Live(s.w.mem, id) || page > 9999
    ensures var s' := Dispatch(s, e);
            && s' == s.(w := s.w.(inq := s'.w.inq, outq := s'.w.outq))
            && s'.w.outq == s.w.outq + Refused5(24, page, if !e.granted then 2 else 1)
            && exists left :: SteppedOver(d, left) && s'.w.inq == SkipTerminator(left)
  {
    hide Judge, Accepts, AfterCheck, ReadHead, Readable, Process, Frame, SkipTerminator, SteppedOver, Live;
    hide Memstore.WellFormed, Refused5;
    var r := SallocReq(id, page, []);
    assert Body(r) == [24, id, page % 256, page / 256];
    HeadOfRequest(r, d);
    var w := s.w.(inq := Args(r, d));
    RefusedStoreRuns(w, s.table, r, d, e);
    SkipSteps(d);
  }

  lemma {:induction false} RefusedStoreRuns(w: World, t: Table, r: Request, d: seq<byte>, e: Event)
    requires w.WellFormed() && HasRoom(w) && r.SallocReq? && r.page < 65536 && d != []
    requires w.inq == Args(r, d) && (!e.granted || !Live(w.mem, r.id) || r.page > 9999)
    ensures Readable(24, w, e)
    ensures Process(24, w, t, e)
         == Processed(w.(inq := SkipDataFrame(d),
                         outq := w.outq + Refused5(24, r.page, if !e.granted then 2 else 1)), t, true)
  {
    hide PutFrame, Frame, Memstore.WellFormed, Judge, FindStart, SkipTerminator, Accepts, AfterCheck, SkipDataFrame;
    OneWordParam(w.inq, r.id, r.page, REAR + d);
    TerminatorIsSkipped(d);
    if Live(w.mem, r.id) { PageIsPositive(w.mem, r.id); }
    var error: byte := if !e.granted then 2 else 1;
    ReplyIsWhole(w.(inq := d), Status5(STORE_ALLOC, 0, r.page, error));
  }

  lemma {:induction false} PageIsPositive(mem: Store, id: int)
    requires Memstore.WellFormed(mem) && Live(mem, id)
    ensures PageSize(mem, id) >= 1024
  {
    assert WellFormedSlot(mem[id], id);
  }

  /** IALLOC without a buffer or of a length below -1, and IALLOC past the end of the allocation. */
  lemma {:induction false} RefusedInsert(s: State, id: byte, at: int, len: int, d: seq<byte>, e: Event)
    requires s.w.WellFormed() && |s.w.outq| + 30 <= QUEUE_SIZE && Is32Bit(at) && Is32Bit(len) && d != []
    requires s.w.inq == Frame(2, [25, id] + IntBytes(at) + IntBytes(len)) + d
    requires !e.granted || len < -1 || at + len > AllocSize(s.w.mem, id)
    ensures var s' := Dispatch(s, e);
            && s' == s.(w := s.w.(inq := s'.w.inq, outq := s'.w.outq))
            && s'.w.outq == s.w.outq + Frame(2, [25, 0, if !e.granted || len < -1 then 2 else 3])
            && exists left :: SteppedOver(d, left) && s'.w.inq == SkipTerminator(left)
  {
    hide Judge, Accepts, AfterCheck, ReadHead, Readable, Process, Frame, SkipTerminator, SteppedOver, IntBytes;
    hide Memstore.WellFormed;
    InsertHead(id, at, len, d);
    var args := [id] + IntBytes(at) + IntBytes(len) + (REAR + d);
    RefusedInsertRuns(s.w.(inq := args), s.table, id, at, len, d, e);
    SkipSteps(d);
  }

  lemma {:induction false} InsertHead(id: byte, at: int, len: int, d: seq<byte>)
    ensures var c := Frame(2, [25, id] + IntBytes(at) + IntBytes(len)) + d;
            && Accepts(c) && AfterCheck(c) == c && Judge(c).Accept?
            && ReadHead(c) == Command(25, [id] + IntBytes(at) + IntBytes(len) + (REAR + d))
  {
    hide Frame, IntBytes, Accepts, AfterCheck, Judge;
    var p := [25, id] + IntBytes(at) + IntBytes(len);
    FrameIsFrame(2, p);
    FrameIsAccepted(Frame(2, p), d);
    FrameParts(2, p, d);
    var c := Frame(2, p) + d;
    assert c[6..] == p + REAR + d;
    assert c[7..] == c[6..][1..] == [id] + IntBytes(at) + IntBytes(len) + (REAR + d);
    assert c[6] == c[6..][0];
  }

  lemma {:induction false} RefusedInsertRuns(w: World, t: Table, id: byte, at: int, len: int, d: seq<byte>, e: Event)
    requires w.WellFormed() && HasRoom(w) && Is32Bit(at) && Is32Bit(len) && d != []
    requires w.inq == [id] + IntBytes(at) + IntBytes(len) + (REAR + d)
    requires !e.granted || len < -1 || at + len > AllocSize(w.mem, id)
    ensures Readable(25, w, e)
    ensures Process(25, w, t, e)
         == Processed(w.(inq := SkipDataFrame(d),
                         outq := w.outq + Frame(2, [25, 0, if !e.granted || len < -1 then 2 else 3])), t, true)
  {
    hide PutFrame, Frame, Memstore.WellFormed, Judge, FindStart, SkipTerminator, Accepts, AfterCheck, SkipDataFrame;
    hide Param32, IntBytes;
    TwoIntParams(w.inq, id, at, len, REAR + d);
    TerminatorIsSkipped(d);
    var error: byte := if !e.granted || len < -1 then 2 else 3;
    ReplyIsWhole(w.(inq := d), Status3(INSERT_ALLOC, 0, error));
  }
}
