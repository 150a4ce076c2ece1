/** The trace law of the scheduler, for the main loop: what the passes do to the table of unfinished
    commands is a run of the scheduler, so the law holds of every run of the program. */
module LoopTrace {
  import opened Bytes
  import opened FrameCodec
  import opened CommandText
  import opened Scheduler
  import opened MainLoop
  import opened Packet

  /** The command whose name or id stands at the head of the checked input `c`. */
  function HeadCommand(c: seq<byte>): nat {
    if Judge(c).Accept? && ReadHead(c).Command? then ReadHead(c).id else UNKNOWN
  }

  function ParkEvents(s: State, e: Event): seq<SchedEvent>
    requires s.w.WellFormed()
  {
    if PacketPhase(s, e).table == s.table then [] else [ParkEvent(HeadCommand(AfterCheck(s.w.inq)), e.parked)]
  }

  function TickEvents(s: State, e: Event): seq<SchedEvent> {
    if s.tickCounter >= MAX_TICK_WAIT && Unlocked(s.w) then [TickEvent(e.now, e.rearm, e.ticked.complete)] else []
  }

  /** What a pass does to the table: it parks at most one command, and then ticks at most once. */
  function PassEvents(s: State, e: Event): (r: seq<SchedEvent>)
    requires s.w.WellFormed()
    ensures |r| <= 2
  {
    ParkEvents(Moved(s, e), e) + TickEvents(PacketPhase(Moved(s, e), e), e)
  }

  function LoopEvents(s: State, events: seq<Event>): seq<SchedEvent>
    requires s.w.WellFormed()
    decreases |events|
  {
    if events == [] then [] else PassEvents(s, events[0]) + LoopEvents(Step(s, events[0]), events[1..])
  }

  /** Every reading of the clock is at least the one before. */
  predicate ClockRises(clock: int, events: seq<Event>)
    decreases |events|
  {
    events == [] ||
    (clock <= events[0].parked <= events[0].now <= events[0].rearm && ClockRises(events[0].rearm, events[1..]))
  }

  lemma {:induction false} DispatchParks(s: State, e: Event)
    requires s.w.WellFormed() && Dispatch(s, e).table != s.table
    ensures Dispatch(s, e).table == Park(s.table, HeadCommand(AfterCheck(s.w.inq)), e.parked)
  {
    hide MemoryCommand, ReadHead, Judge, Accepts, AfterCheck, SkipTerminator, Readable, Park, GeneralCommand;
    if Accepts(s.w.inq) {
      AcceptedHead(s.w.inq);
    }
  }

  lemma {:induction false} PassIsScheduling(s: State, e: Event, d: Scheduling)
    requires s.w.WellFormed() && d.table == s.table
    requires d.clock <= e.parked <= e.now <= e.rearm
    ensures ClocksOk(d, PassEvents(s, e))
    ensures SchedRun(d, PassEvents(s, e)).table == Step(s, e).table
    ensures SchedRun(d, PassEvents(s, e)).clock <= e.rearm
  {
    hide Dispatch, Tick, Judge, AfterCheck, ReadHead, FirstDueFrom, HeadCommand, ParkSlot;
    hide Park, SchedRun, ClocksOk;
    NoEvents(d);
    var moved := Moved(s, e);
    var served := PacketPhase(moved, e);
    if served.table != s.table {
      DispatchParks(moved, e);
    }
    var park, tick := ParkEvents(moved, e), TickEvents(served, e);
    RunInParts(d, park, tick);
    if park != [] {
      OneEvent(d, park[0]);
    }
    NoEvents(SchedRun(d, park));
    if tick != [] {
      OneEvent(SchedRun(d, park), tick[0]);
    }
  }

  lemma {:induction false} NoEvents(d: Scheduling)
    ensures SchedRun(d, []) == d && ClocksOk(d, [])
  {
  }

  lemma {:induction false} OneEvent(d: Scheduling, e: SchedEvent)
    ensures SchedRun(d, [e]) == SchedStep(d, e)
    ensures ClocksOk(d, [e]) <==> ClockOk(d, e)
  {
    hide SchedStep, ClockOk;
    assert [e][1..] == [];
  }

  lemma {:induction false} RunInParts(d: Scheduling, a: seq<SchedEvent>, b: seq<SchedEvent>)
    ensures SchedRun(d, a + b) == SchedRun(SchedRun(d, a), b)
    ensures ClocksOk(d, a) && ClocksOk(SchedRun(d, a), b) ==> ClocksOk(d, a + b)
    decreases |a|
  {
    hide SchedStep, ClockOk;
    if a == [] {
      assert a + b == b;
    } else {
      assert (a + b)[0] == a[0] && (a + b)[1..] == a[1..] + b;
      RunInParts(SchedStep(d, a[0]), a[1..], b);
    }
  }

  lemma {:induction false} ClockMayLag(clock: int, later: int, events: seq<Event>)
    requires clock <= later && ClockRises(later, events)
    ensures ClockRises(clock, events)
  {
  }

  /** The table the loop leaves is the one the scheduler leaves under the loop's events. */
  lemma {:induction false} LoopIsScheduling(s: State, events: seq<Event>, d: Scheduling)
    requires s.w.WellFormed() && d.table == s.table && ClockRises(d.clock, events)
    ensures ClocksOk(d, LoopEvents(s, events))
    ensures SchedRun(d, LoopEvents(s, events)).table == Run(s, events).table
    decreases |events|
  {
    hide Step, PassEvents, SchedStep, ClockOk;
    if events != [] {
      var e := events[0];
      PassIsScheduling(s, e, d);
      var d1 := SchedRun(d, PassEvents(s, e));
      ClockMayLag(d1.clock, e.rearm, events[1..]);
      LoopIsScheduling(Step(s, e), events[1..], d1);
      RunInParts(d, PassEvents(s, e), LoopEvents(Step(s, e), events[1..]));
    }
  }

  /** Everything the loop has parked and called. */
  function LoopLog(events: seq<Event>): seq<LogEntry> {
    SchedRun(POWER_UP, LoopEvents(PowerUp(), events)).log
  }

  /** In every run of the main loop under a clock that never goes back, the table agrees with the log of
      calls, and each call of a parked command carries the number of calls since it was parked and
      comes more than its period after the call before. */
  lemma {:induction false} LoopTraceLaw(events: seq<Event>, n: nat)
    requires ClockRises(0, events)
    ensures forall i: nat :: i < MAX_COMMAND_STATES ==>
              Agrees(Run(PowerUp(), events).table[i], Last(LoopLog(events), i))
    ensures var log := LoopLog(events);
            n < |log| && log[n].Ran? ==>
              && log[n].tick == RunsSinceStart(log[..n + 1], log[n].slot)
              && Last(log[..n], log[n].slot).Some?
              && Follows(Last(log[..n], log[n].slot).value, log[n])
  {
    hide LoopEvents, Run, SchedRun, ClocksOk, Agrees;
    LoopIsScheduling(PowerUp(), events, POWER_UP);
    AgreesAtPowerUp();
    SchedRunKeepsInv(POWER_UP, LoopEvents(PowerUp(), events));
    if n < |LoopLog(events)| {
      TraceLaw(LoopEvents(PowerUp(), events), n);
    }
  }

  lemma {:induction false} AgreesAtPowerUp()
    ensures SchedInv(POWER_UP)
  {
  }

  // -------------------------------------------------------------- no entry starves

  /** The clock readings of the passes lie in a window no longer than the shortest period. */
  predicate PassesInWindow(start: int, events: seq<Event>) {
    forall i :: 0 <= i < |events| ==>
      start <= events[i].parked && start <= events[i].now <= start + MIN_PERIOD && start <= events[i].rearm
  }

  lemma {:induction false} LoopInWindow(s: State, start: int, events: seq<Event>)
    requires s.w.WellFormed() && PassesInWindow(start, events)
    ensures InWindow(start, LoopEvents(s, events))
    decreases |events|
  {
    hide Step, PacketPhase, HeadCommand;
    if events != [] {
      LoopInWindow(Step(s, events[0]), start, events[1..]);
    }
  }

  /** Both locks are clear whenever a pass of the run comes to its tick. */
  predicate ClearAtTicks(s: State, events: seq<Event>)
    requires s.w.WellFormed()
    decreases |events|
  {
    events == [] ||
    (Unlocked(PacketPhase(Moved(s, events[0]), events[0]).w) && ClearAtTicks(Step(s, events[0]), events[1..]))
  }

  /** From whatever count, as long as no lock holds it back, the loop ticks in one of every 101 passes. */
  lemma {:induction false} TicksComeRound(s: State, events: seq<Event>)
    requires s.w.WellFormed() && ClearAtTicks(s, events)
    ensures 101 * Ticks(LoopEvents(s, events)) >= |events| + (if s.tickCounter < 100 then s.tickCounter else 100) - 100
    ensures |events| >= 101 ==> Ticks(LoopEvents(s, events)) >= 1
    decreases |events|
  {
    hide PacketPhase, Unlocked, HeadCommand, Tick, FirstDueFrom;
    if events != [] {
      var e := events[0];
      var served := PacketPhase(Moved(s, e), e);
      CounterStays(s, e);
      TicksComeRound(Step(s, e), events[1..]);
      TicksAdd(PassEvents(s, e), LoopEvents(Step(s, e), events[1..]));
      TicksAdd(ParkEvents(Moved(s, e), e), TickEvents(served, e));
      OneTick(served, e);
    }
  }

  lemma {:induction false} CounterStays(s: State, e: Event)
    requires s.w.WellFormed()
    ensures PacketPhase(Moved(s, e), e).tickCounter == s.tickCounter && PacketPhase(Moved(s, e), e).w.WellFormed()
  {
    hide Process, ReadHead, Judge, Accepts, AfterCheck, SkipTerminator, Readable;
    DispatchKeepsWellFormed(Moved(s, e), e);
  }

  lemma {:induction false} TicksAdd(a: seq<SchedEvent>, b: seq<SchedEvent>)
    ensures Ticks(a + b) == Ticks(a) + Ticks(b)
    decreases |a|
  {
    if a == [] {
      assert a + b == b;
    } else {
      assert (a + b)[0] == a[0] && (a + b)[1..] == a[1..] + b;
      TicksAdd(a[1..], b);
    }
  }

  lemma {:induction false} OneTick(s: State, e: Event)
    ensures Ticks(TickEvents(s, e)) == if s.tickCounter >= 100 && Unlocked(s.w) then 1 else 0
  {
    hide Unlocked;
    if TickEvents(s, e) != [] {
      assert TickEvents(s, e)[1..] == [];
    }
  }

  /** In 2020 passes of the main loop within such a window, with no lock at their ticks, every parked
      command that was due when it began is called, whatever is parked meanwhile. */
  lemma {:induction false} LoopServesDue(s: State, start: int, events: seq<Event>, d: nat)
    requires s.w.WellFormed() && PassesInWindow(start, events)
    requires |events| >= 2020 && ClearAtTicks(s, events)
    requires d < 20 && s.table[d].Parked? && s.table[d].due < start
    ensures var before := Scheduling(s.table, [], start);
            && (ClockRises(start, events) ==> SchedRun(before, LoopEvents(s, events)).table == Run(s, events).table)
            && Served(before, SchedRun(before, LoopEvents(s, events)), d)
  {
    hide LoopEvents, Run, SchedRun, Served, ClearAtTicks;
    var before := Scheduling(s.table, [], start);
    LoopInWindow(s, start, events);
    TicksComeRound(s, events);
    TwentyTicksServeAll(before, start, LoopEvents(s, events), d);
    if ClockRises(start, events) {
      LoopIsScheduling(s, events, before);
    }
  }

  /** What a tick that is let through does: it calls the lowest parked command that is due, appends its
      reply, and clears the entry or sets it to be called again with the next number. */
  lemma {:induction false} TickCallsLowestDue(s: State, e: Event, d: nat)
    requires s.w.WellFormed() && s.tickCounter >= 100 && s.w.receiveMode == 0 && s.w.sendMode == 0
    requires d < 20 && s.table[d].Parked? && s.table[d].due < e.now
    requires forall i :: 0 <= i < d && s.table[i].Parked? ==> s.table[i].due >= e.now
    ensures var s', entry := TickPhase(s, e), s.table[d];
            && s'.tickCounter == 0
            && (forall i :: 0 <= i < 20 && i != d ==> s'.table[i] == s.table[i])
            && s'.table[d] == (if e.ticked.complete then Idle
                               else Parked(entry.command, entry.tick + 1,
                                           e.rearm + TickPeriod(entry.command) * 1000))
            && s'.w == (if e.ticked.reply.Some?
                        then s.w.(outq := PutFrame(s.w.outq, TEXT_COMMAND, e.ticked.reply.value)) else s.w)
  {
    hide PutFrame;
    NothingDueBefore(s.table, e.now, 0, d);
  }

  /** When nothing is due the tick changes nothing but its counter; before its turn it only counts. */
  lemma {:induction false} TickOtherwise(s: State, e: Event)
    requires s.w.WellFormed()
    requires s.tickCounter < 100 || !Unlocked(s.w)
          || forall i :: 0 <= i < 20 && s.table[i].Parked? ==> s.table[i].due >= e.now
    ensures TickPhase(s, e) == s.(tickCounter := if s.tickCounter >= 100 && Unlocked(s.w) then 0 else s.tickCounter + 1)
  {
  }
}
