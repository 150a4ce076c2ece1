/** The six allocation commands of `command_memory.c`: as functions on the unread input, the queued
    output, the store and the two locks, and as the methods that work on the rings in place. */
module MemoryCommands {
  import opened Bytes
  import opened RingQueue
  import opened FrameCodec
  import opened Packet
  import opened Memstore
  import opened CommandText

  /** What the commands can see and change: the unread bytes of both rings, the store, and the
      byte counts of the receive and the send lock. */
  datatype World = World(inq: seq<byte>, outq: seq<byte>, mem: Store, receiveMode: int, sendMode: int) {
    predicate WellFormed() {
      |inq| < QUEUE_SIZE && |outq| < QUEUE_SIZE && Memstore.WellFormed(mem)
    }
  }

  /** A command's effect, and whether it completed. */
  datatype Outcome = Outcome(w: World, done: bool)

  /** The room that `process_command` reserves for every allocation command. */
  const STATUS_ROOM: nat := 30

  predicate HasRoom(w: World)
    requires w.WellFormed()
  {
    SpaceFor(|w.outq|, STATUS_ROOM)
  }

  // -------------------------------------------------------------- the specification

  /** The status frame `payload` behind the queued output. */
  function Reply(w: World, payload: seq<byte>): World
    requires w.WellFormed()
  {
    w.(outq := PutFrame(w.outq, BINARY_COMMAND, payload))
  }

  function Status3(command: byte, id: byte, error: byte): seq<byte> {
    [command, id, error]
  }

  function Status5(command: byte, id: byte, page: nat, error: byte): seq<byte>
    requires page < 65536
  {
    [command, id, page % 256, page / 256, error]
  }

  /** One byte on and to the next `+++`: how a refused command tries to step over its data frame. */
  function SkipDataFrame(c: seq<byte>): seq<byte>
    requires |c| >= 1
  {
    c[1..][FindStart(c[1..])..]
  }

  function CreateAlloc(w: World, granted: bool): Outcome
    requires w.WellFormed() && HasRoom(w) && |w.inq| >= 3
  {
    var pages, kb := Param16(w.inq), w.inq[2];
    var w := w.(inq := w.inq[3..]);
    if kb == 0 || kb > 32 || pages == 0 || pages > MAX_PAGES then
      Outcome(Reply(w, Status3(CREATE_ALLOC, 0, 1)), true)
    else
      CreatedId(w.mem, pages, kb, granted);
      var (mem, id) := Create(w.mem, pages, kb, granted);
      if id == 0 then Outcome(Reply(w, Status3(CREATE_ALLOC, 0, 2)), true)
      else Outcome(Reply(w.(mem := mem), Status3(CREATE_ALLOC, id, 0)), true)
  }

  lemma {:induction false} CreatedId(st: Store, pages: nat, kb: nat, granted: bool)
    requires Memstore.WellFormed(st) && 1 <= pages <= MAX_PAGES && 1 <= kb <= 32
    ensures var (st', id) := Create(st, pages, kb, granted);
            id < MAX_MEMORY_ALLOCATIONS && (id == 0 ==> st' == st)
  {
    FreeSlotIsLowest(st, 1);
  }

  function FreeAlloc(w: World): Outcome
    requires w.WellFormed() && HasRoom(w) && |w.inq| >= 1
  {
    var id := w.inq[0];
    var (mem, ok) := Free(w.mem, id);
    var w := w.(inq := w.inq[1..], mem := mem);
    Outcome(Reply(w, if ok then Status3(FREE_ALLOC, id, 0) else Status3(FREE_ALLOC, 0, 1)), true)
  }

  /** The status frame and the data frame of a successful retrieval, with the send lock set to
      the data frame and, as the source has it, the unread input. */
  function SendPage(w: World, id: byte, page: nat, data: seq<byte>): World
    requires w.WellFormed() && HasRoom(w) && page < 65536
  {
    var status := PutFrame(w.outq, BINARY_COMMAND, Status5(RETRIEVE_ALLOC, id, page, 0));
    w.(outq := PutFrame(status, BINARY_DATA, data),
       sendMode := |data| + PACKET_OVERHEAD + |w.inq|)
  }

  function RetrieveAlloc(w: World): Outcome
    requires w.WellFormed() && HasRoom(w) && |w.inq| >= 3
  {
    var id, page := w.inq[0], Param16(w.inq[1..]);
    var w := w.(inq := w.inq[3..]);
    var data := RetrievePage(w.mem, id, page);
    if page > MAX_PAGES || data.None? then
      Outcome(Reply(w, Status5(RETRIEVE_ALLOC, 0, page, 1)), true)
    else if SpaceFor(|w.outq|, 5 + PACKET_OVERHEAD + |data.value| + PACKET_OVERHEAD) then
      Outcome(SendPage(w, id, page, data.value), true)
    else
      Outcome(w, false)
  }

  /** The data frame is not complete: lock the input until `n` payload bytes can have arrived. */
  function AwaitData(w: World, n: int): World {
    var c := AfterCheck(w.inq);
    w.(inq := c, receiveMode := n + PACKET_OVERHEAD - |c|)
  }

  /** The command fails before its data frame is looked at. */
  function Refuse(w: World, status: seq<byte>): Outcome
    requires w.WellFormed() && HasRoom(w) && |w.inq| >= 1
  {
    Outcome(Reply(w, status).(inq := SkipDataFrame(w.inq)), true)
  }

  /** Why SALLOC fails early: error 2 without a buffer, error 1 for an id or a page out of range. */
  function StoreEarlyError(w: World, granted: bool): (e: byte)
    requires |w.inq| >= 3
    ensures e <= 2
  {
    if !granted then 2
    else if PageSize(w.mem, w.inq[0]) == 0 || Param16(w.inq[1..]) > MAX_PAGES then 1
    else 0
  }

  /** SALLOC's refusal steps one byte on without checking that a byte is there. */
  predicate StoreCanSkip(w: World, granted: bool)
    requires |w.inq| >= 3
  {
    StoreEarlyError(w, granted) != 0 ==> SkipTerminator(w.inq[3..]) != []
  }

  function StoreAlloc(w: World, granted: bool): Outcome
    requires w.WellFormed() && HasRoom(w) && |w.inq| >= 3 && StoreCanSkip(w, granted)
  {
    var id, page := w.inq[0], Param16(w.inq[1..]);
    var size := PageSize(w.mem, id);
    var error := StoreEarlyError(w, granted);
    var w := w.(inq := SkipTerminator(w.inq[3..]));
    if error != 0 then Refuse(w, Status5(STORE_ALLOC, 0, page, error))
    else if !Accepts(w.inq) then Outcome(AwaitData(w, size), false)
    else
      AcceptedHead(w.inq);
      StoreData(w.(inq := AfterCheck(w.inq)), id, page, size)
  }

  /** A complete frame is at the head of the input: store its first `size` payload bytes. A frame
      with fewer is left where it is, without any reply. */
  function StoreData(w: World, id: byte, page: nat, size: nat): (o: Outcome)
    requires w.WellFormed() && HasRoom(w) && page < 65536 && size == PageSize(w.mem, id)
    requires Judge(w.inq).Accept?
    ensures o.done
  {
    var c := w.inq;
    if DeclaredSize(c) - 3 < size then Outcome(w, true) else
    var stored := StorePage(w.mem, id, page, c[6..6 + size]);
    var w := w.(inq := c[6 + size..]);
    if stored.Some? then Outcome(Reply(w.(mem := stored.value), Status5(STORE_ALLOC, id, page, 0)), true)
    else Outcome(Reply(w, Status5(STORE_ALLOC, 0, page, 1)), true)
  }

  /** Why IALLOC fails early: error 2 without a buffer, error 3 for a stretch past the end. */
  function InsertEarlyError(w: World, granted: bool): (e: byte)
    requires |w.inq| >= 9
    ensures e <= 3
  {
    var at, len := Param32(w.inq[1..]), Param32(w.inq[5..]);
    if !granted || len < -1 then 2
    else if at + len > AllocSize(w.mem, w.inq[0]) then 3
    else 0
  }

  predicate InsertCanSkip(w: World, granted: bool)
    requires |w.inq| >= 9
  {
    InsertEarlyError(w, granted) != 0 ==> SkipTerminator(w.inq[9..]) != []
  }

  function InsertAlloc(w: World, granted: bool): Outcome
    requires w.WellFormed() && HasRoom(w) && |w.inq| >= 9 && InsertCanSkip(w, granted)
  {
    var id, at, len := w.inq[0], Param32(w.inq[1..]), Param32(w.inq[5..]);
    var error := InsertEarlyError(w, granted);
    var w := w.(inq := SkipTerminator(w.inq[9..]));
    if error != 0 then Refuse(w, Status3(INSERT_ALLOC, 0, error))
    else if !Accepts(w.inq) then Outcome(AwaitData(w, len), false)
    else
      AcceptedHead(w.inq);
      InsertData(w.(inq := AfterCheck(w.inq)), id, at, len)
  }

  /** A complete frame is at the head of the input: insert its first `len` payload bytes. A frame
      with fewer is left where it is, without any reply. */
  function InsertData(w: World, id: byte, at: int, len: int): (o: Outcome)
    requires w.WellFormed() && HasRoom(w) && Judge(w.inq).Accept?
    ensures o.done
  {
    var c := w.inq;
    if DeclaredSize(c) - 3 < len then Outcome(w, true) else
    AcceptedIsFrame(c);
    var n := AtLeastZero(len);
    var inserted := Insert(w.mem, id, at, len, c[6..6 + n]);
    var w := w.(inq := c[6 + n..]);
    if inserted.Some? then Outcome(Reply(w.(mem := inserted.value), Status3(INSERT_ALLOC, id, 0)), true)
    else Outcome(Reply(w, Status3(INSERT_ALLOC, 0, 1)), true)
  }

  function CutAlloc(w: World): Outcome
    requires w.WellFormed() && HasRoom(w) && |w.inq| >= 9
  {
    var id, at, len := w.inq[0], Param32(w.inq[1..]), Param32(w.inq[5..]);
    var w := w.(inq := w.inq[9..]);
    var cut := Cut(w.mem, id, at, len);
    if at + len > AllocSize(w.mem, id) then Outcome(Reply(w, Status3(CUT_ALLOC, 0, 2)), true)
    else if cut.Some? then Outcome(Reply(w.(mem := cut.value), Status3(CUT_ALLOC, id, 0)), true)
    else Outcome(Reply(w, Status3(CUT_ALLOC, 0, 1)), true)
  }

  // ------------------------------------------------ every command keeps the world well formed

  lemma {:induction false} CreateAllocKeeps(w: World, granted: bool)
    requires w.WellFormed() && HasRoom(w) && |w.inq| >= 3
    ensures CreateAlloc(w, granted).w.WellFormed()
  {
    hide PutFrame, Create, Memstore.WellFormed;
    var pages, kb := Param16(w.inq), w.inq[2];
    if 1 <= pages <= MAX_PAGES && 1 <= kb <= 32 {
      CreateTakesLowest(w.mem, pages, kb, granted);
    }
  }

  lemma {:induction false} FreeAllocKeeps(w: World)
    requires w.WellFormed() && HasRoom(w) && |w.inq| >= 1
    ensures FreeAlloc(w).w.WellFormed()
  {
    hide PutFrame, Free, Memstore.WellFormed;
    FreeKeepsStore(w.mem, w.inq[0]);
  }

  lemma {:induction false} RetrieveAllocKeeps(w: World)
    requires w.WellFormed() && HasRoom(w) && |w.inq| >= 3
    ensures RetrieveAlloc(w).w.WellFormed()
  {
    hide PutFrame, RetrievePage, Memstore.WellFormed;
  }

  lemma {:induction false} StoreDataKeeps(w: World, id: byte, page: nat, size: nat)
    requires w.WellFormed() && HasRoom(w) && page < 65536 && size == PageSize(w.mem, id)
    requires Judge(w.inq).Accept?
    ensures StoreData(w, id, page, size).w.WellFormed()
  {
    hide PutFrame, StorePage, Memstore.WellFormed, Judge;
    var c := w.inq;
    AcceptedLength(c);
    if DeclaredSize(c) - 3 >= size && HasPage(w.mem, id, page) {
      StoreThenRetrieve(w.mem, id, page, c[6..6 + size], id, page);
    }
  }

  lemma {:induction false} StoreAllocKeeps(w: World, granted: bool)
    requires w.WellFormed() && HasRoom(w) && |w.inq| >= 3 && StoreCanSkip(w, granted)
    ensures StoreAlloc(w, granted).w.WellFormed()
  {
    hide PutFrame, StoreData, Memstore.WellFormed, Judge, AfterCheck, Accepts, SkipTerminator;
    var id, page := w.inq[0], Param16(w.inq[1..]);
    var c := SkipTerminator(w.inq[3..]);
    if StoreEarlyError(w, granted) == 0 && Accepts(c) {
      AcceptedHead(c);
      PageSizeInRange(w.mem, id);
      StoreDataKeeps(w.(inq := AfterCheck(c)), id, page, PageSize(w.mem, id));
    }
  }

  lemma {:induction false} InsertDataKeeps(w: World, id: byte, at: int, len: int)
    requires w.WellFormed() && HasRoom(w) && Judge(w.inq).Accept?
    ensures InsertData(w, id, at, len).w.WellFormed()
  {
    hide PutFrame, Insert, Memstore.WellFormed, Judge;
    var c := w.inq;
    AcceptedLength(c);
    if DeclaredSize(c) - 3 >= len && CanEdit(w.mem, id, at, len) {
      EditsKeepStore(w.mem, id, at, len, c[6..6 + len]);
    }
  }

  lemma {:induction false} InsertAllocKeeps(w: World, granted: bool)
    requires w.WellFormed() && HasRoom(w) && |w.inq| >= 9 && InsertCanSkip(w, granted)
    ensures InsertAlloc(w, granted).w.WellFormed()
  {
    hide PutFrame, InsertData, Memstore.WellFormed, Judge, AfterCheck, Accepts, SkipTerminator, Param32;
    var id, at, len := w.inq[0], Param32(w.inq[1..]), Param32(w.inq[5..]);
    var c := SkipTerminator(w.inq[9..]);
    if InsertEarlyError(w, granted) == 0 && Accepts(c) {
      AcceptedHead(c);
      InsertDataKeeps(w.(inq := AfterCheck(c)), id, at, len);
    }
  }

  lemma {:induction false} CutAllocKeeps(w: World)
    requires w.WellFormed() && HasRoom(w) && |w.inq| >= 9
    ensures CutAlloc(w).w.WellFormed()
  {
    hide PutFrame, Cut, Memstore.WellFormed, Param32;
    var id, at, len := w.inq[0], Param32(w.inq[1..]), Param32(w.inq[5..]);
    if CanEdit(w.mem, id, at, len) {
      EditsKeepStore(w.mem, id, at, len, Zeros(len));
    }
  }

  // ------------------------------------------------------------------- the commands

  /** The globals the commands work on: the two rings, the allocation table and the two locks. */
  class Machine {
    const inq: Queue
    const outq: Queue
    const table: MemoryTable
    var receiveMode: int
    var sendMode: int

    ghost predicate Valid()
      reads this, inq, inq.data, outq, outq.data, table, table.Repr
    {
      && inq.Valid() && outq.Valid() && table.Valid()
      && inq != outq && inq.data != outq.data
      && {this, inq, inq.data, outq, outq.data} !! table.Repr
    }

    ghost function W(): World
      reads this, inq, outq, table
    {
      World(inq.contents, outq.contents, table.store, receiveMode, sendMode)
    }

    constructor ()
      ensures Valid() && fresh(table.Repr) && fresh({inq, inq.data, outq, outq.data})
      ensures W() == World([], [], EmptyStore(), 0, 0)
    {
      inq := new Queue();
      outq := new Queue();
      table := new MemoryTable();
      receiveMode, sendMode := 0, 0;
    }

    lemma {:induction false} Facts()
      requires Valid()
      ensures W().WellFormed()
    {
    }

    method SetReceiveLock(bytes: int)
      requires Valid()
      modifies `receiveMode
      ensures Valid() && W() == old(W()).(receiveMode := bytes - |inq.contents|)
    {
      hide Queue.Valid, MemoryTable.Valid;
      var unread := inq.NumberBytesToRead();
      receiveMode := bytes - unread;
    }

    method SetSendLock(bytes: int)
      requires Valid()
      modifies `sendMode
      ensures Valid() && W() == old(W()).(sendMode := bytes + |inq.contents|)
    {
      hide Queue.Valid, MemoryTable.Valid;
      var unread := inq.NumberBytesToRead();
      sendMode := bytes + unread;
    }

    /** Start, add the bytes, finish: how every command builds its status frame. The reservation
        makes sure that the frame is written whole. */
    method SendStatus(payload: seq<byte>)
      requires Valid() && HasRoom(W()) && |payload| + PACKET_OVERHEAD < STATUS_ROOM
      modifies outq`storeNext, outq`contents, outq.data
      ensures Valid() && W() == Reply(old(W()), payload)
      ensures outq.contents == old(outq.contents) + Frame(BINARY_COMMAND, payload)
    {
      hide Queue.Valid, MemoryTable.Valid;
      Facts();
      ghost var c := outq.contents;
      var started := StartBuildDataPacket(outq, |payload|, BINARY_COMMAND);
      AddBytesToPacket(outq, payload);
      FinishBuildDataPacketAndSend(outq);
      assert outq.contents == c + Frame(BINARY_COMMAND, payload);
    }

    method CommandCreateAlloc(granted: bool) returns (done: bool)
      requires Valid() && HasRoom(W()) && |inq.contents| >= 3
      modifies inq`readNext, inq`contents, outq`storeNext, outq`contents, outq.data, table.Repr
      ensures Valid() && fresh(table.Repr - old(table.Repr))
      ensures Outcome(W(), done) == CreateAlloc(old(W()), granted)
    {
      hide Queue.Valid, MemoryTable.Valid, Memstore.WellFormed, Memstore.Create, PutFrame;
      Facts();
      var pages := NextParam16(inq);
      var kb := NextParam8(inq);
      if kb == 0 || kb > 32 {
        SendStatus([CREATE_ALLOC, 0, 1]);
      } else if pages == 0 || pages > 9999 {
        SendStatus([CREATE_ALLOC, 0, 1]);
      } else {
        CreatedId(table.store, pages, kb, granted);
        var id := table.CreateAllocation(pages, kb, granted);
        if id == 0 {
          SendStatus([CREATE_ALLOC, 0, 2]);
        } else {
          SendStatus([CREATE_ALLOC, id, 0]);
        }
      }
      done := true;
    }

    method CommandFreeAlloc() returns (done: bool)
      requires Valid() && HasRoom(W()) && |inq.contents| >= 1
      modifies inq`readNext, inq`contents, outq`storeNext, outq`contents, outq.data, table.Repr
      ensures Valid() && fresh(table.Repr - old(table.Repr))
      ensures Outcome(W(), done) == FreeAlloc(old(W()))
    {
      hide Queue.Valid, MemoryTable.Valid, Memstore.WellFormed, Memstore.Free, PutFrame;
      Facts();
      var id := NextParam8(inq);
      var freed := table.FreeAllocation(id);
      if freed {
        SendStatus([FREE_ALLOC, id, 0]);
      } else {
        SendStatus([FREE_ALLOC, 0, 1]);
      }
      done := true;
    }

    method CommandRetrieveAlloc() returns (done: bool)
      requires Valid() && HasRoom(W()) && |inq.contents| >= 3
      modifies inq`readNext, inq`contents, outq`storeNext, outq`contents, outq.data, `sendMode
      ensures Valid() && Outcome(W(), done) == RetrieveAlloc(old(W()))
    {
      hide Queue.Valid, MemoryTable.Valid, Memstore.WellFormed, RetrievePage, PutFrame;
      Facts();
      var id := NextParam8(inq);
      var page := NextParam16(inq);
      assert W() == old(W()).(inq := old(inq.contents)[3..]);
      done := true;
      if page > 9999 {
        SendStatus([RETRIEVE_ALLOC, 0, page % 256, page / 256, 1]);
      } else {
        var data := table.RetrievePageOfData(id, page);
        if data.Some? {
          var room := outq.IsSpaceAvailable(5 + PACKET_OVERHEAD + |data.value| + PACKET_OVERHEAD);
          if room {
            SendStatus([RETRIEVE_ALLOC, id, page % 256, page / 256, 0]);
            var _ := WriteDataToPacket(outq, data.value, BINARY_DATA);
            SetSendLock(|data.value| + PACKET_OVERHEAD);
          } else {
            done := false;
          }
        } else {
          SendStatus([RETRIEVE_ALLOC, 0, page % 256, page / 256, 1]);
        }
      }
    }

    /** The end of SALLOC and IALLOC after an early error. */
    method SkipNextBinaryPacket()
      requires Valid() && |inq.contents| >= 1
      modifies inq`readNext, inq`contents
      ensures Valid() && W() == old(W()).(inq := SkipDataFrame(old(inq.contents)))
    {
      hide Queue.Valid, MemoryTable.Valid, FindStart;
      inq.IncrementRead(1);
      var _ := SkipToNextPacket(inq);
    }

    method CommandStoreAlloc(granted: bool) returns (done: bool)
      requires Valid() && HasRoom(W()) && |inq.contents| >= 3 && StoreCanSkip(W(), granted)
      modifies inq`readNext, inq`contents, outq`storeNext, outq`contents, outq.data, table.Repr
      modifies `receiveMode
      ensures Valid() && fresh(table.Repr - old(table.Repr))
      ensures Outcome(W(), done) == StoreAlloc(old(W()), granted)
    {
      hide Queue.Valid, MemoryTable.Valid, Memstore.WellFormed, SkipTerminator, PutFrame;
      hide SkipDataFrame, StoreData, AfterCheck, Accepts, Judge;
      Facts();
      var id := NextParam8(inq);
      var page := NextParam16(inq);
      var size := table.PageSizeBytes(id);
      SkipTerminatorOfPacket(inq);
      ghost var w := old(W()).(inq := SkipTerminator(old(inq.contents)[3..]));
      assert W() == w && w.WellFormed();
      done := true;
      var skipNext := true;
      if !granted {
        SendStatus([STORE_ALLOC, 0, page % 256, page / 256, 2]);
      } else if size == 0 {
        SendStatus([STORE_ALLOC, 0, page % 256, page / 256, 1]);
      } else if page > 9999 {
        SendStatus([STORE_ALLOC, 0, page % 256, page / 256, 1]);
      } else {
        skipNext := false;
        var complete := IsCompletePacketAvailable(inq);
        if !complete {
          SetReceiveLock(size + PACKET_OVERHEAD);
          return false;
        }
        AcceptedHead(SkipTerminator(old(inq.contents)[3..]));
        PageSizeInRange(table.store, id);
        StoreFromPacket(id, page, size);
        assert Outcome(W(), true) == StoreAlloc(old(W()), granted);
      }
      if skipNext {
        assert W() == Reply(w, Status5(STORE_ALLOC, 0, page, StoreEarlyError(old(W()), granted)));
        SkipNextBinaryPacket();
        assert Outcome(W(), true) == Refuse(w, Status5(STORE_ALLOC, 0, page, StoreEarlyError(old(W()), granted)));
      }
    }

    /** SALLOC once a complete frame is at the head of the input. */
    method StoreFromPacket(id: byte, page: nat, size: nat)
      requires Valid() && HasRoom(W()) && page < 65536 && size == PageSize(table.store, id)
      requires Judge(inq.contents).Accept?
      modifies inq`readNext, inq`contents, outq`storeNext, outq`contents, outq.data, table.Repr
      ensures Valid() && fresh(table.Repr - old(table.Repr))
      ensures W() == StoreData(old(W()), id, page, size).w
    {
      hide Queue.Valid, MemoryTable.Valid, Memstore.WellFormed, StorePage, PutFrame, Judge;
      Facts();
      var buffer := new byte[size + 1](_ => 0);
      var read := GetDataFromPacket(inq, buffer, size);
      if read {
        assert buffer[..size] == old(inq.contents)[6..6 + size];
        var stored := table.StorePageOfData(id, page, buffer[..size]);
        if stored {
          SendStatus([STORE_ALLOC, id, page % 256, page / 256, 0]);
        } else {
          SendStatus([STORE_ALLOC, 0, page % 256, page / 256, 1]);
        }
      }
    }

    method CommandInsertAlloc(granted: bool) returns (done: bool)
      requires Valid() && HasRoom(W()) && |inq.contents| >= 9 && InsertCanSkip(W(), granted)
      modifies inq`readNext, inq`contents, outq`storeNext, outq`contents, outq.data, table.Repr
      modifies `receiveMode
      ensures Valid() && fresh(table.Repr - old(table.Repr))
      ensures Outcome(W(), done) == InsertAlloc(old(W()), granted)
    {
      hide Queue.Valid, MemoryTable.Valid, Memstore.WellFormed, SkipTerminator, PutFrame;
      hide SkipDataFrame, InsertData, AfterCheck, Accepts, Judge, Param32;
      Facts();
      var id := NextParam8(inq);
      var at := NextParam32(inq);
      var len := NextParam32(inq);
      SkipTerminatorOfPacket(inq);
      ghost var w := old(W()).(inq := SkipTerminator(old(inq.contents)[9..]));
      assert W() == w && w.WellFormed();
      done := true;
      var skipNext := true;
      var allocSize := table.AllocSizeBytes(id);
      if !granted || len + 1 < 0 {
        SendStatus([INSERT_ALLOC, 0, 2]);
      } else if at + len > allocSize {
        SendStatus([INSERT_ALLOC, 0, 3]);
      } else {
        skipNext := false;
        var complete := IsCompletePacketAvailable(inq);
        if !complete {
          SetReceiveLock(len + PACKET_OVERHEAD);
          return false;
        }
        AcceptedHead(SkipTerminator(old(inq.contents)[9..]));
        InsertFromPacket(id, at, len);
        assert Outcome(W(), true) == InsertAlloc(old(W()), granted);
      }
      if skipNext {
        assert W() == Reply(w, Status3(INSERT_ALLOC, 0, InsertEarlyError(old(W()), granted)));
        SkipNextBinaryPacket();
        assert Outcome(W(), true) == Refuse(w, Status3(INSERT_ALLOC, 0, InsertEarlyError(old(W()), granted)));
      }
    }

    /** IALLOC once a complete frame is at the head of the input. */
    method InsertFromPacket(id: byte, at: int, len: int)
      requires Valid() && HasRoom(W()) && len >= -1 && Judge(inq.contents).Accept?
      modifies inq`readNext, inq`contents, outq`storeNext, outq`contents, outq.data, table.Repr
      ensures Valid() && fresh(table.Repr - old(table.Repr))
      ensures W() == InsertData(old(W()), id, at, len).w
    {
      hide Queue.Valid, MemoryTable.Valid, Memstore.WellFormed, Insert, PutFrame, Judge;
      Facts();
      var buffer := new byte[len + 1](_ => 0);
      var read := GetDataFromPacket(inq, buffer, len);
      if read {
        var n := AtLeastZero(len);
        assert buffer[..n] == old(inq.contents)[6..6 + n];
        var inserted := table.InsertData(id, at, len, buffer[..n]);
        if inserted {
          SendStatus([INSERT_ALLOC, id, 0]);
        } else {
          SendStatus([INSERT_ALLOC, 0, 1]);
        }
      }
    }

    method CommandCutAlloc() returns (done: bool)
      requires Valid() && HasRoom(W()) && |inq.contents| >= 9
      modifies inq`readNext, inq`contents, outq`storeNext, outq`contents, outq.data, table.Repr
      ensures Valid() && fresh(table.Repr - old(table.Repr))
      ensures Outcome(W(), done) == CutAlloc(old(W()))
    {
      hide Queue.Valid, MemoryTable.Valid, Memstore.WellFormed, Cut, PutFrame, Param32;
      Facts();
      var id := NextParam8(inq);
      var at := NextParam32(inq);
      var len := NextParam32(inq);
      assert W() == old(W()).(inq := old(inq.contents)[9..]);
      var allocSize := table.AllocSizeBytes(id);
      if at + len > allocSize {
        SendStatus([CUT_ALLOC, 0, 2]);
      } else {
        var cut := table.CutData(id, at, len);
        if cut {
          SendStatus([CUT_ALLOC, id, 0]);
        } else {
          SendStatus([CUT_ALLOC, 0, 1]);
        }
      }
      done := true;
    }
  }
}
