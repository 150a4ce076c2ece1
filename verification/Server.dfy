/** The program itself: `process_command`, the dispatch and the main loop of `mcp_pi.c` on the rings,
    the tables and the counters they update in place. Each method is proved to do what the functions
    of `MainLoop` say, so everything proved about those holds of the program. */
module Server {
  import opened Bytes
  import opened RingQueue
  import opened FrameCodec
  import opened Packet
  import opened Memstore
  import opened CommandText
  import opened MemoryCommands
  import opened Scheduler
  import opened MainLoop

  /** The text frame at the head of `c` would make the read index negative. */
  predicate TextUnderflows(c: seq<byte>, readNext: int) {
    && Accepts(c)
    && (AcceptedHead(c);
        AfterCheck(c)[5] == TEXT_COMMAND && Underflows(HeadPayload(AfterCheck(c)), Around(readNext, FindStart(c))))
  }

  class Program {
    const m: Machine
    const states: CommandStates
    var packetCheckCounter: nat
    var tickCheckCounter: nat

    ghost predicate Valid()
      reads this, m, m.inq, m.inq.data, m.outq, m.outq.data, m.table, m.table.Repr
    {
      && m.Valid() && states.Valid()
      && states.states !in m.table.Repr && this !in m.table.Repr
    }

    ghost function S(): State
      requires states.Valid()
      reads this, m, m.inq, m.outq, m.table, states.states
    {
      State(m.W(), states.states[..], packetCheckCounter, tickCheckCounter)
    }

    constructor ()
      ensures Valid() && S() == PowerUp()
    {
      m := new Machine();
      states := new CommandStates();
      packetCheckCounter, tickCheckCounter := 0, 0;
    }

    lemma {:induction false} Facts()
      requires Valid()
      ensures S().w.WellFormed()
    {
    }

    // ------------------------------------------------------------- process_command

    method RunMemoryCommand(id: nat, e: Event) returns (done: bool)
      requires Valid() && IsMemoryCommand(id) && HasRoom(m.W()) && Readable(id, m.W(), e)
      modifies m.inq`readNext, m.inq`contents, m.outq`storeNext, m.outq`contents, m.outq.data
      modifies m`receiveMode, m`sendMode, m.table.Repr
      ensures Valid() && fresh(m.table.Repr - old(m.table.Repr))
      ensures Outcome(m.W(), done) == MemoryCommand(id, old(m.W()), e)
    {
      hide Queue.Valid, MemoryTable.Valid, CreateAlloc, FreeAlloc, RetrieveAlloc, StoreAlloc, InsertAlloc, CutAlloc;
      Facts();
      if id == CREATE_ALLOC {
        done := m.CommandCreateAlloc(e.granted);
      } else if id == FREE_ALLOC {
        done := m.CommandFreeAlloc();
      } else if id == RETRIEVE_ALLOC {
        done := m.CommandRetrieveAlloc();
      } else if id == STORE_ALLOC {
        done := m.CommandStoreAlloc(e.granted);
      } else if id == INSERT_ALLOC {
        done := m.CommandInsertAlloc(e.granted);
      } else {
        done := m.CommandCutAlloc();
      }
    }

    /** A command whose work lies outside the model, with the effects the environment chose. */
    method RunGeneralCommand(g: General) returns (done: bool)
      requires Valid() && g.consumed <= |m.inq.contents|
      modifies m.inq`readNext, m.inq`contents, m.outq`storeNext, m.outq`contents, m.outq.data
      ensures Valid()
      ensures Outcome(m.W(), done) == GeneralCommand(old(m.W()), g)
    {
      hide Queue.Valid, MemoryTable.Valid, PutFrame;
      Facts();
      m.inq.IncrementRead(g.consumed);
      if g.reply.Some? {
        var _ := WriteDataToPacket(m.outq, g.reply.value, TEXT_COMMAND);
      }
      done := g.complete;
    }

    method ProcessCommand(id: nat, e: Event) returns (ok: bool)
      requires Valid() && Readable(id, m.W(), e)
      modifies m.inq`readNext, m.inq`contents, m.outq`storeNext, m.outq`contents, m.outq.data
      modifies m`receiveMode, m`sendMode, m.table.Repr, states.states
      ensures Valid() && fresh(m.table.Repr - old(m.table.Repr))
      ensures Processed(m.W(), states.states[..], ok) == Process(id, old(m.W()), old(states.states[..]), e)
    {
      hide Queue.Valid, MemoryTable.Valid, MemoryCommand, GeneralCommand, Readable;
      Facts();
      var room := m.outq.IsSpaceAvailable(OutQueueSpace(id));
      if !room {
        return false;
      }
      var done;
      if IsMemoryCommand(id) {
        done := RunMemoryCommand(id, e);
      } else {
        GeneralIsReadable(id, m.W(), e);
        done := RunGeneralCommand(e.general);
      }
      if !done {
        if id == RETRIEVE_ALLOC || id == SHELL_EXEC || id == STORE_ALLOC || id == INSERT_ALLOC {
          return false;
        }
        if id != UNKNOWN {
          states.ParkCommand(id, e.parked);
        }
      }
      return true;
    }

    lemma {:induction false} GeneralIsReadable(id: nat, w: World, e: Event)
      requires !IsMemoryCommand(id) && Readable(id, w, e)
      ensures e.general.consumed <= |w.inq|
    {
    }

    // --------------------------------------------------------------------- dispatch

    method CheckPackets(e: Event)
      requires Valid() && !TextUnderflows(m.inq.contents, m.inq.readNext)
      requires CheckStaysInModel(m.W(), e)
      modifies m.inq`readNext, m.inq`contents, m.outq`storeNext, m.outq`contents, m.outq.data
      modifies m`receiveMode, m`sendMode, m.table.Repr, states.states
      ensures Valid() && fresh(m.table.Repr - old(m.table.Repr))
      ensures S() == Dispatch(old(S()), e)
    {
      hide Queue.Valid, MemoryTable.Valid, Process, AfterCheck, Accepts, Judge, PutFrame, Readable, SkipTerminator;
      Facts();
      var found := IsCompletePacketAvailable(m.inq);
      if found {
        AcceptedHead(old(m.inq.contents));
        DispatchFrame(e);
      }
    }

    method DispatchFrame(e: Event)
      requires Valid() && Judge(m.inq.contents).Accept? && Dispatchable(m.inq.contents, m.W(), e)
      requires m.inq.contents[5] == TEXT_COMMAND ==> !Underflows(HeadPayload(m.inq.contents), m.inq.readNext)
      modifies m.inq`readNext, m.inq`contents, m.outq`storeNext, m.outq`contents, m.outq.data
      modifies m`receiveMode, m`sendMode, m.table.Repr, states.states
      ensures Valid() && fresh(m.table.Repr - old(m.table.Repr))
      ensures S() == DispatchHead(old(S()), old(m.inq.contents), e)
    {
      hide Queue.Valid, MemoryTable.Valid, Process, Judge, PutFrame, Readable, SkipTerminator, Unread;
      Facts();
      m.inq.Facts();
      ghost var c := m.inq.contents;
      AcceptedLength(c);
      var hold := m.inq.readNext;
      var kind := PacketType(m.inq);
      if kind == TEXT_COMMAND {
        var got, name := GetCommandText(m.inq);
        if got {
          var id := CommandIdFromString(name);
          RunOrRewind(id, hold, c, e);
        } else {
          var _ := WriteDataToPacket(m.outq, BAD_TEXT_REPLY, TEXT_COMMAND);
          SkipTerminatorOfPacket(m.inq);
        }
      } else if kind == BINARY_COMMAND {
        var id := GetCommandBin(m.inq);
        RunOrRewind(id, hold, c, e);
      }
    }

    /** Runs the command that has been read; if it has to wait, the read index goes back to `hold`,
        where its frame starts. */
    method RunOrRewind(id: nat, hold: int, ghost c: seq<byte>, e: Event)
      requires Valid() && Readable(id, m.W(), e)
      requires IsRing(m.inq.data[..], hold, m.inq.storeNext)
      requires c == Unread(m.inq.data[..], hold, m.inq.storeNext)
      modifies m.inq`readNext, m.inq`contents, m.outq`storeNext, m.outq`contents, m.outq.data
      modifies m`receiveMode, m`sendMode, m.table.Repr, states.states
      ensures Valid() && fresh(m.table.Repr - old(m.table.Repr))
      ensures var s, p := old(S()), Process(id, old(m.W()), old(states.states[..]), e);
              S() == if p.ok then s.(w := p.w.(inq := SkipTerminator(p.w.inq)), table := p.table)
                     else s.(w := p.w.(inq := c), table := p.table)
    {
      hide Queue.Valid, MemoryTable.Valid, Process, Readable, SkipTerminator, Unread;
      Facts();
      var ok := ProcessCommand(id, e);
      if ok {
        SkipTerminatorOfPacket(m.inq);
      } else {
        m.inq.Rewind(hold, c);
      }
    }

    // --------------------------------------------------------------------- one pass

    /** One pass of the endless loop; the byte handed to the FIFO, if any, is returned. */
    method Pass(e: Event) returns (sent: seq<byte>)
      requires Valid()
      requires !TextUnderflows(Moved(S(), e).w.inq, m.inq.readNext)
      requires CheckStaysInModel(Moved(S(), e).w, e)
      modifies this, m, m.inq, m.inq.data, m.outq, m.outq.data, m.table.Repr, states.states
      ensures Valid() && fresh(m.table.Repr - old(m.table.Repr))
      ensures S() == Step(old(S()), e)
      ensures sent == SentOut(TakeIn(old(S()).w, e.rx), e.dir)
    {
      hide Queue.Valid, MemoryTable.Valid, PacketPhase, TickPhase, TextUnderflows, CheckStaysInModel;
      Facts();
      sent := MoveBytes(e);
      PacketCheck(e);
      TickCheck(e);
    }

    method PacketCheck(e: Event)
      requires Valid() && !TextUnderflows(m.inq.contents, m.inq.readNext) && CheckStaysInModel(m.W(), e)
      modifies m.inq`readNext, m.inq`contents, m.outq`storeNext, m.outq`contents, m.outq.data
      modifies m`receiveMode, m`sendMode, m.table.Repr, states.states, `packetCheckCounter
      ensures Valid() && fresh(m.table.Repr - old(m.table.Repr))
      ensures S() == PacketPhase(old(S()), e)
    {
      hide Queue.Valid, MemoryTable.Valid, Dispatch, TextUnderflows, CheckStaysInModel;
      Facts();
      if packetCheckCounter >= MAX_COMMAND_WAIT && m.receiveMode == 0 && m.sendMode == 0 {
        CheckPackets(e);
        packetCheckCounter := 0;
      } else {
        packetCheckCounter := packetCheckCounter + 1;
      }
    }

    method TickCheck(e: Event)
      requires Valid()
      modifies m.outq`storeNext, m.outq`contents, m.outq.data, states.states, `tickCheckCounter
      ensures Valid() && S() == TickPhase(old(S()), e)
    {
      hide Queue.Valid, MemoryTable.Valid, Tick, FirstDueFrom, PutFrame;
      Facts();
      if tickCheckCounter >= MAX_TICK_WAIT && m.receiveMode == 0 && m.sendMode == 0 {
        TickCommands(e);
        tickCheckCounter := 0;
      } else {
        tickCheckCounter := tickCheckCounter + 1;
      }
    }

    method MoveBytes(e: Event) returns (sent: seq<byte>)
      requires Valid()
      modifies m, m.inq`storeNext, m.inq`contents, m.inq.data, m.outq`readNext, m.outq`contents
      ensures Valid() && S() == Moved(old(S()), e)
      ensures sent == SentOut(TakeIn(old(S()).w, e.rx), e.dir)
    {
      hide Queue.Valid, MemoryTable.Valid, TakeIn, SendOut, SentOut;
      Facts();
      ReadInterface(e.rx);
      sent := WriteInterface(e.dir);
    }

    /** Reads a byte from the interface when one is there and the input ring says it has space. */
    method ReadInterface(rx: Option<byte>)
      requires Valid()
      modifies m`receiveMode, m.inq`storeNext, m.inq`contents, m.inq.data
      ensures Valid() && S() == old(S()).(w := TakeIn(old(S()).w, rx))
    {
      hide Queue.Valid, MemoryTable.Valid, Put;
      Facts();
      var free := m.inq.NumberFreeBytes();
      if free > 0 && rx.Some? {
        m.inq.Append(rx.value);
        if m.receiveMode > 0 {
          m.receiveMode := m.receiveMode - 1;
        }
      }
    }

    /** Writes the oldest queued byte to the interface when the interface takes one. */
    method WriteInterface(dir: bool) returns (sent: seq<byte>)
      requires Valid()
      modifies m`sendMode, m.outq`readNext, m.outq`contents
      ensures Valid() && S() == old(S()).(w := SendOut(old(S()).w, dir))
      ensures sent == SentOut(old(S()).w, dir)
    {
      hide Queue.Valid, MemoryTable.Valid;
      Facts();
      sent := [];
      var queued := m.outq.NumberBytesToRead();
      if queued > 0 && dir {
        var b := m.outq.CurrentReadByte();
        sent := [b];
        m.outq.IncrementRead(1);
        if m.sendMode > 0 {
          m.sendMode := m.sendMode - 1;
        }
      }
    }

    method TickCommands(e: Event)
      requires Valid()
      modifies m.outq`storeNext, m.outq`contents, m.outq.data, states.states
      ensures Valid()
      ensures var s := old(S());
              var ran := FirstDueFrom(s.table, e.now, 0) < MAX_COMMAND_STATES;
              S() == s.(w := if ran && e.ticked.reply.Some?
                             then s.w.(outq := PutFrame(s.w.outq, TEXT_COMMAND, e.ticked.reply.value)) else s.w,
                        table := Tick(s.table, e.now, e.rearm, e.ticked.complete))
    {
      hide Queue.Valid, MemoryTable.Valid, PutFrame, Tick, FirstDueFrom;
      Facts();
      var ran := states.TickCommand(e.now, e.rearm, e.ticked.complete);
      if ran && e.ticked.reply.Some? {
        var _ := WriteDataToPacket(m.outq, e.ticked.reply.value, TEXT_COMMAND);
      }
    }
  }
}
