/** One pass of the main loop of `mcp_pi.c` as a function on what the program holds: a byte may
    arrive, a byte may leave, and, now and then and only while no lock is held, the head of the
    input is dispatched and an unfinished command is ticked. */
module MainLoop {
  import opened Bytes
  import opened RingQueue
  import opened FrameCodec
  import opened Packet
  import opened Memstore
  import opened CommandText
  import opened MemoryCommands
  import opened Scheduler

  const MAX_TICK_WAIT: nat := 100
  const MAX_COMMAND_WAIT: nat := 20

  /** `Bad Text Command`, with its newline. */
  const BAD_TEXT_REPLY: seq<byte> :=
    [66, 97, 100, 32, 84, 101, 120, 116, 32, 67, 111, 109, 109, 97, 110, 100, 10]

  /** What a command outside the six allocation commands does, as the environment decides: it
      reads `consumed` bytes of parameters, may write one text reply, and completes or not. */
  datatype General = General(consumed: nat, reply: Option<seq<byte>>, complete: bool)

  /** What the outside contributes to one pass: a byte offered by the FIFO, whether the FIFO takes
      one, the heap's answer, the effects of general commands, and the clock. */
  datatype Event = Event(
    rx: Option<byte>, dir: bool, granted: bool, general: General, ticked: General,
    parked: int, now: int, rearm: int)

  datatype State = State(w: World, table: Table, packetCounter: nat, tickCounter: nat)

  function PowerUp(): State {
    State(World([], [], EmptyStore(), 0, 0), EmptyTable(), 0, 0)
  }

  // --------------------------------------------------------------- process_command

  predicate IsMemoryCommand(id: nat) {
    CREATE_ALLOC <= id <= CUT_ALLOC
  }

  /** The command reads only bytes that are stored: its parameters are there, and a refused store
      or insert has a byte to step over. */
  predicate Readable(id: nat, w: World, e: Event) {
    if id == CREATE_ALLOC || id == RETRIEVE_ALLOC then |w.inq| >= 3
    else if id == FREE_ALLOC then |w.inq| >= 1
    else if id == STORE_ALLOC then |w.inq| >= 3 && StoreCanSkip(w, e.granted)
    else if id == INSERT_ALLOC then |w.inq| >= 9 && InsertCanSkip(w, e.granted)
    else if id == CUT_ALLOC then |w.inq| >= 9
    else e.general.consumed <= |w.inq|
  }

  function MemoryCommand(id: nat, w: World, e: Event): (o: Outcome)
    requires IsMemoryCommand(id) && w.WellFormed() && HasRoom(w) && Readable(id, w, e)
  {
    if id == CREATE_ALLOC then CreateAlloc(w, e.granted)
    else if id == FREE_ALLOC then FreeAlloc(w)
    else if id == RETRIEVE_ALLOC then RetrieveAlloc(w)
    else if id == STORE_ALLOC then StoreAlloc(w, e.granted)
    else if id == INSERT_ALLOC then InsertAlloc(w, e.granted)
    else CutAlloc(w)
  }

  lemma {:induction false} MemoryCommandKeeps(id: nat, w: World, e: Event)
    requires IsMemoryCommand(id) && w.WellFormed() && HasRoom(w) && Readable(id, w, e)
    ensures MemoryCommand(id, w, e).w.WellFormed()
  {
    hide CreateAlloc, FreeAlloc, RetrieveAlloc, StoreAlloc, InsertAlloc, CutAlloc;
    if id == CREATE_ALLOC {
      CreateAllocKeeps(w, e.granted);
    } else if id == FREE_ALLOC {
      FreeAllocKeeps(w);
    } else if id == RETRIEVE_ALLOC {
      RetrieveAllocKeeps(w);
    } else if id == STORE_ALLOC {
      StoreAllocKeeps(w, e.granted);
    } else if id == INSERT_ALLOC {
      InsertAllocKeeps(w, e.granted);
    } else {
      CutAllocKeeps(w);
    }
  }

  /** The output grows by one whole frame that carries the status of the command `id`. */
  ghost predicate OneStatus(id: nat, before: seq<byte>, after: seq<byte>) {
    exists payload: seq<byte> ::
      3 <= |payload| <= 5 && payload[0] as int == id && after == before + Frame(BINARY_COMMAND, payload)
  }

  /** A page is sent: the one case in which more than a status goes out. */
  predicate SendsPage(id: nat, w: World)
    requires w.WellFormed() && |w.inq| >= 3
  {
    && id == RETRIEVE_ALLOC && Param16(w.inq[1..]) <= MAX_PAGES
    && HasPage(w.mem, w.inq[0], Param16(w.inq[1..]))
  }

  /** The 30 bytes reserved before an allocation command runs suffice: when all it emits is a status
      frame, that frame is written whole behind the queued output, and never fills the ring. */
  lemma {:induction false} ReservationSuffices(id: nat, w: World, e: Event)
    requires IsMemoryCommand(id) && w.WellFormed() && HasRoom(w) && Readable(id, w, e)
    requires |w.inq| >= 3 ==> !SendsPage(id, w)
    ensures var o := MemoryCommand(id, w, e);
            || OneStatus(id, w.outq, o.w.outq)
            || (o.w.outq == w.outq && (id == STORE_ALLOC || id == INSERT_ALLOC))
  {
    hide PutFrame, StorePage, Insert, Cut, Create, Free, Frame, Memstore.WellFormed;
    hide AfterCheck, Accepts, SkipTerminator, SkipDataFrame, Judge, Param32, OneStatus, SpaceFor;
    var outq := w.outq;
    forall v: World, payload: seq<byte> | v.WellFormed() && v.outq == outq && 3 <= |payload| <= 5
      ensures OneStatus(payload[0], outq, Reply(v, payload).outq)
    {
      StatusIsWhole(v, payload);
    }
  }

  lemma {:induction false} StatusIsWhole(w: World, payload: seq<byte>)
    requires w.WellFormed() && HasRoom(w) && 3 <= |payload| <= 5
    ensures OneStatus(payload[0], w.outq, Reply(w, payload).outq)
  {
    PutFrameWithRoom(w.outq, BINARY_COMMAND, payload);
  }

  function GeneralCommand(w: World, g: General): Outcome
    requires w.WellFormed() && g.consumed <= |w.inq|
  {
    var outq := if g.reply.Some? then PutFrame(w.outq, TEXT_COMMAND, g.reply.value) else w.outq;
    Outcome(w.(inq := w.inq[g.consumed..], outq := outq), g.complete)
  }

  datatype Processed = Processed(w: World, table: Table, ok: bool)

  /** `ok` is false when the command has to be read again later. */
  function Process(id: nat, w: World, t: Table, e: Event): Processed
    requires w.WellFormed() && Readable(id, w, e)
  {
    if !SpaceFor(|w.outq|, OutQueueSpace(id)) then Processed(w, t, false)
    else
      var o := if IsMemoryCommand(id) then MemoryCommand(id, w, e)
               else GeneralCommand(w, e.general);
      if o.done then Processed(o.w, t, true)
      else if id == RETRIEVE_ALLOC || id == SHELL_EXEC || id == STORE_ALLOC || id == INSERT_ALLOC
      then Processed(o.w, t, false)
      else Processed(o.w, Park(t, id, e.parked), true)
  }

  // ------------------------------------------------------------------- dispatch

  /** The command at the head of `c`, and the input once its name or id has been read. */
  datatype Head = NoCommand | BadText(rest: seq<byte>) | Command(id: nat, rest: seq<byte>)

  function ReadHead(c: seq<byte>): (h: Head)
    requires Judge(c).Accept?
    ensures !h.NoCommand? ==> |h.rest| <= |c|
  {
    var p := HeadPayload(c);
    if c[5] == TEXT_COMMAND then
      if HasName(p) then Command(CommandIdFrom(p[..NameLength(p)], 0), AfterName(c))
      else BadText(AfterName(c))
    else if c[5] == BINARY_COMMAND then Command(c[6], c[7..])
    else NoCommand
  }

  /** The dispatch of the frame at the head of the checked input `c` stays inside the model. */
  predicate Dispatchable(c: seq<byte>, w: World, e: Event)
    requires w.WellFormed()
  {
    Judge(c).Accept? && ReadHead(c).Command? ==>
      Readable(ReadHead(c).id, w.(inq := ReadHead(c).rest), e)
  }

  /** A packet check on this input stays inside the model. */
  predicate CheckStaysInModel(w: World, e: Event)
    requires w.WellFormed()
  {
    Accepts(w.inq) ==> (AcceptedHead(w.inq); Dispatchable(AfterCheck(w.inq), w, e))
  }

  /** A command that has to wait is put back by rewinding the input to the start of its frame. */
  function DispatchHead(s: State, c: seq<byte>, e: Event): State
    requires s.w.WellFormed() && Judge(c).Accept? && |c| < QUEUE_SIZE && Dispatchable(c, s.w, e)
  {
    match ReadHead(c)
    case NoCommand => s.(w := s.w.(inq := c))
    case BadText(rest) =>
      s.(w := s.w.(inq := SkipTerminator(rest), outq := PutFrame(s.w.outq, TEXT_COMMAND, BAD_TEXT_REPLY)))
    case Command(id, rest) =>
      var r := Process(id, s.w.(inq := rest), s.table, e);
      if r.ok then s.(w := r.w.(inq := SkipTerminator(r.w.inq)), table := r.table)
      else s.(w := r.w.(inq := c), table := r.table)
  }

  /** The packet check and, if a frame is there, its dispatch. A dispatch that would read bytes
      which are not stored is outside the model; there the frame is left at the head. */
  function Dispatch(s: State, e: Event): State
    requires s.w.WellFormed()
  {
    var c := AfterCheck(s.w.inq);
    if !Accepts(s.w.inq) then s.(w := s.w.(inq := c))
    else
      AcceptedHead(s.w.inq);
      if Dispatchable(c, s.w, e) then DispatchHead(s, c, e) else s.(w := s.w.(inq := c))
  }

  // ------------------------------------------------------------------- one pass

  /** A byte that is offered is stored; it counts towards the receive lock. */
  function TakeIn(w: World, rx: Option<byte>): World
    requires w.WellFormed()
  {
    if rx.None? then w
    else w.(inq := Put(w.inq, [rx.value]),
            receiveMode := if w.receiveMode > 0 then w.receiveMode - 1 else w.receiveMode)
  }

  /** A queued byte leaves when the FIFO takes one; it counts towards the send lock. */
  function SendOut(w: World, dir: bool): World {
    if dir && w.outq != []
    then w.(outq := w.outq[1..], sendMode := if w.sendMode > 0 then w.sendMode - 1 else w.sendMode)
    else w
  }

  function SentOut(w: World, dir: bool): seq<byte> {
    if dir && w.outq != [] then w.outq[..1] else []
  }

  predicate Unlocked(w: World) {
    w.receiveMode == 0 && w.sendMode == 0
  }

  function Moved(s: State, e: Event): State
    requires s.w.WellFormed()
  {
    s.(w := SendOut(TakeIn(s.w, e.rx), e.dir))
  }

  function PacketPhase(s: State, e: Event): State
    requires s.w.WellFormed()
  {
    if s.packetCounter >= MAX_COMMAND_WAIT && Unlocked(s.w)
    then Dispatch(s, e).(packetCounter := 0)
    else s.(packetCounter := s.packetCounter + 1)
  }

  function TickPhase(s: State, e: Event): State
    requires s.w.WellFormed()
  {
    if s.tickCounter >= MAX_TICK_WAIT && Unlocked(s.w) then
      var ran := FirstDueFrom(s.table, e.now, 0) < MAX_COMMAND_STATES;
      var w := if ran && e.ticked.reply.Some?
               then s.w.(outq := PutFrame(s.w.outq, TEXT_COMMAND, e.ticked.reply.value)) else s.w;
      s.(w := w, table := Tick(s.table, e.now, e.rearm, e.ticked.complete), tickCounter := 0)
    else s.(tickCounter := s.tickCounter + 1)
  }

  /** The program's data stay well formed through a dispatch and through a pass. */
  lemma {:induction false} ProcessKeepsWellFormed(id: nat, w: World, t: Table, e: Event)
    requires w.WellFormed() && Readable(id, w, e)
    ensures Process(id, w, t, e).w.WellFormed()
  {
    hide MemoryCommand, PutFrame, Park;
    if SpaceFor(|w.outq|, OutQueueSpace(id)) && IsMemoryCommand(id) {
      MemoryCommandKeeps(id, w, e);
    }
  }

  lemma {:induction false} DispatchKeepsWellFormed(s: State, e: Event)
    requires s.w.WellFormed()
    ensures Dispatch(s, e).w.WellFormed()
  {
    hide Process, ReadHead, Judge, Accepts, AfterCheck, PutFrame, SkipTerminator, Readable;
    var c := AfterCheck(s.w.inq);
    if Accepts(s.w.inq) {
      AcceptedHead(s.w.inq);
      if Dispatchable(c, s.w, e) && ReadHead(c).Command? {
        var h := ReadHead(c);
        ProcessKeepsWellFormed(h.id, s.w.(inq := h.rest), s.table, e);
      }
    }
  }

  function Step(s: State, e: Event): (s': State)
    requires s.w.WellFormed()
    ensures s'.w.WellFormed()
  {
    DispatchKeepsWellFormed(Moved(s, e), e);
    TickPhase(PacketPhase(Moved(s, e), e), e)
  }

  // ------------------------------------------------------------------- many passes

  function Run(s: State, events: seq<Event>): (s': State)
    requires s.w.WellFormed()
    ensures s'.w.WellFormed()
    decreases |events|
  {
    if events == [] then s else Run(Step(s, events[0]), events[1..])
  }

  /** How many passes of `events` find the FIFO ready to take a byte. */
  function Takes(events: seq<Event>): nat
    decreases |events|
  {
    if events == [] then 0 else (if events[0].dir then 1 else 0) + Takes(events[1..])
  }
}
