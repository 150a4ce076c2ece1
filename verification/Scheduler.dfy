/** The table of unfinished commands of `command_processor.c`, the tick that re-runs them, and what
    every run of the scheduler guarantees. Times are in microseconds. */
module Scheduler {
  import opened Bytes
  import opened CommandText

  const MAX_COMMAND_STATES: nat := 20

  /** The shortest tick period of the command table, in microseconds. */
  const MIN_PERIOD: int := 100_000

  /** A slot of the table. The source marks an idle slot by the unknown command id. */
  datatype Entry = Idle | Parked(command: nat, tick: nat, due: int)

  type Table = t: seq<Entry> | |t| == MAX_COMMAND_STATES witness seq(MAX_COMMAND_STATES, _ => Idle)

  function EmptyTable(): Table {
    seq(MAX_COMMAND_STATES, _ => Idle)
  }

  function NextExecTime(command: nat, clock: int): (t: int)
    ensures t >= clock + MIN_PERIOD
  {
    clock + TickPeriod(command) * 1000
  }

  // ------------------------------------------------------------- the operations

  /** The highest idle slot below `n`, or the table size: the search does not stop at the first. */
  function LastIdleBelow(t: Table, n: nat): (i: nat)
    requires n <= MAX_COMMAND_STATES
    ensures i <= MAX_COMMAND_STATES
    ensures i < MAX_COMMAND_STATES ==> t[i].Idle?
  {
    if n == 0 then MAX_COMMAND_STATES
    else if t[n - 1].Idle? then n - 1
    else LastIdleBelow(t, n - 1)
  }

  /** The search finds a slot exactly when one is idle, and then the last one: every slot above it
      is taken. */
  lemma {:induction false} LastIdleIsLast(t: Table, n: nat)
    requires n <= MAX_COMMAND_STATES
    ensures LastIdleBelow(t, n) < MAX_COMMAND_STATES <==> exists i :: 0 <= i < n && t[i].Idle?
    ensures var s := LastIdleBelow(t, n);
            s < MAX_COMMAND_STATES ==> s < n && t[s].Idle? && forall i :: s < i < n ==> t[i].Parked?
    decreases n
  {
    if n > 0 && !t[n - 1].Idle? {
      LastIdleIsLast(t, n - 1);
    }
  }

  predicate Due(e: Entry, now: int) {
    e.Parked? && e.due < now
  }

  /** The lowest slot from `i` on that is due, or the table size. */
  function FirstDueFrom(t: Table, now: int, i: nat): (s: nat)
    requires i <= MAX_COMMAND_STATES
    ensures i <= s <= MAX_COMMAND_STATES
    ensures s < MAX_COMMAND_STATES ==> Due(t[s], now)
    decreases MAX_COMMAND_STATES - i
  {
    if i == MAX_COMMAND_STATES || Due(t[i], now) then i else FirstDueFrom(t, now, i + 1)
  }

  lemma {:induction false} NothingDueBefore(t: Table, now: int, i: nat, k: nat)
    requires i <= k < MAX_COMMAND_STATES && Due(t[k], now)
    ensures FirstDueFrom(t, now, i) <= k
    decreases k - i
  {
    if !Due(t[i], now) {
      NothingDueBefore(t, now, i + 1, k);
    }
  }

  /** The slot a command would be parked in, or the table size when all are taken. */
  function ParkSlot(t: Table): nat {
    LastIdleBelow(t, MAX_COMMAND_STATES)
  }

  /** Step 0 of `command` did not complete; a full table forgets it. */
  function Park(t: Table, command: nat, clock: int): Table {
    var s := ParkSlot(t);
    if s < MAX_COMMAND_STATES && command != UNKNOWN
    then t[s := Parked(command, 1, NextExecTime(command, clock))]
    else t
  }

  predicate AllParked(t: Table) {
    forall i :: 0 <= i < MAX_COMMAND_STATES ==> t[i].Parked?
  }

  /** A command is forgotten exactly when all twenty entries are taken; otherwise it takes over one
      idle slot, the last, and every other entry stays. */
  lemma {:induction false} ForgottenIffFull(t: Table, command: nat, clock: int)
    requires command != UNKNOWN
    ensures Park(t, command, clock) == t <==> AllParked(t)
    ensures !AllParked(t) ==>
              var s := ParkSlot(t);
              && s < MAX_COMMAND_STATES && t[s].Idle? && (forall i :: s < i < MAX_COMMAND_STATES ==> t[i].Parked?)
              && Park(t, command, clock)[s] == Parked(command, 1, NextExecTime(command, clock))
              && forall i :: 0 <= i < MAX_COMMAND_STATES && i != s ==> Park(t, command, clock)[i] == t[i]
  {
    LastIdleIsLast(t, MAX_COMMAND_STATES);
    var s := ParkSlot(t);
    if s < MAX_COMMAND_STATES {
      assert Park(t, command, clock)[s] != t[s];
    }
  }

  /** The entry after its command ran: gone when complete, otherwise re-armed. */
  function Rerun(e: Entry, rearm: int, complete: bool): Entry
    requires e.Parked?
  {
    if complete then Idle else Parked(e.command, e.tick + 1, NextExecTime(e.command, rearm))
  }

  /** One tick at time `now` runs at most one entry, the lowest that is due; the clock is read
      again, as `rearm`, when the entry is re-armed. */
  function Tick(t: Table, now: int, rearm: int, complete: bool): Table {
    var s := FirstDueFrom(t, now, 0);
    if s < MAX_COMMAND_STATES then t[s := Rerun(t[s], rearm, complete)] else t
  }

  /** The table in place, as the source keeps it. */
  class CommandStates {
    const states: array<Entry>

    ghost predicate Valid() {
      states.Length == MAX_COMMAND_STATES
    }

    constructor ()
      ensures Valid() && fresh(states) && states[..] == EmptyTable()
    {
      states := new Entry[MAX_COMMAND_STATES](_ => Idle);
    }

    method EmptyCommandState() returns (slot: nat)
      requires Valid()
      ensures slot == ParkSlot(states[..])
      ensures slot == MAX_COMMAND_STATES <==> AllParked(states[..])
      ensures slot < MAX_COMMAND_STATES ==>
                states[slot].Idle? && forall i :: slot < i < MAX_COMMAND_STATES ==> states[i].Parked?
    {
      LastIdleIsLast(states[..], MAX_COMMAND_STATES);
      slot := MAX_COMMAND_STATES;
      for index := 0 to MAX_COMMAND_STATES
        invariant slot == LastIdleBelow(states[..], index)
      {
        if states[index].Idle? {
          slot := index;
        }
      }
    }

    method ParkCommand(command: nat, clock: int)
      requires Valid() && command != UNKNOWN
      modifies states
      ensures states[..] == Park(old(states[..]), command, clock)
      ensures states[..] == old(states[..]) <==> AllParked(old(states[..]))
    {
      ForgottenIffFull(states[..], command, clock);
      var slot := EmptyCommandState();
      if slot < MAX_COMMAND_STATES {
        states[slot] := Parked(command, 1, NextExecTime(command, clock));
      }
    }

    /** `complete` is what the command function returns if one is run. */
    method TickCommand(now: int, rearm: int, complete: bool) returns (ran: bool)
      requires Valid()
      modifies states
      ensures states[..] == Tick(old(states[..]), now, rearm, complete)
      ensures ran <==> FirstDueFrom(old(states[..]), now, 0) < MAX_COMMAND_STATES
    {
      for index := 0 to MAX_COMMAND_STATES
        invariant states[..] == old(states[..])
        invariant FirstDueFrom(states[..], now, 0) == FirstDueFrom(states[..], now, index)
      {
        assert states[index] == states[..][index];
        match states[index] {
          case Idle =>
          case Parked(command, tick, due) =>
            if due < now {
              states[index] := if complete then Idle
                               else Parked(command, tick + 1, NextExecTime(command, rearm));
              return true;
            }
        }
      }
      return false;
    }
  }

  /** When a parked command is due: as soon as its period has passed since it was parked or called, three
      seconds for SHUTDOWN and REBOOT, half a second for RALLOC and a tenth of a second for all others. */
  lemma {:induction false} DueAfterPeriod(command: nat, tick: nat, clock: int, now: int)
    ensures Due(Parked(command, tick, NextExecTime(command, clock)), now) <==>
              now > clock + (if command == 2 || command == 7 then 3_000_000
                             else if command == 23 then 500_000 else 100_000)
  {
  }

  // ---------------------------------------------------------------- the trace law

  /** What happened to a slot: step 0 of a command was parked there at `at`, or its command was
      called with `tick` at `at` and, when not complete, re-armed at `rearm`. */
  datatype LogEntry =
    | Started(slot: nat, command: nat, at: int)
    | Ran(slot: nat, command: nat, tick: nat, at: int, rearm: int, complete: bool)

  datatype Scheduling = Scheduling(table: Table, log: seq<LogEntry>, clock: int)

  datatype SchedEvent =
    | ParkEvent(command: nat, at: int)
    | TickEvent(now: int, rearm: int, complete: bool)

  /** The clock never goes back. */
  predicate ClockOk(s: Scheduling, e: SchedEvent) {
    match e
    case ParkEvent(_, at) => s.clock <= at
    case TickEvent(now, rearm, _) => s.clock <= now <= rearm
  }

  function SchedStep(s: Scheduling, e: SchedEvent): Scheduling {
    match e
    case ParkEvent(command, at) =>
      var slot := ParkSlot(s.table);
      var log := if slot < MAX_COMMAND_STATES && command != UNKNOWN
                 then s.log + [Started(slot, command, at)] else s.log;
      Scheduling(Park(s.table, command, at), log, at)
    case TickEvent(now, rearm, complete) =>
      var slot := FirstDueFrom(s.table, now, 0);
      var log := if slot < MAX_COMMAND_STATES
                 then s.log + [Ran(slot, s.table[slot].command, s.table[slot].tick, now, rearm, complete)]
                 else s.log;
      Scheduling(Tick(s.table, now, rearm, complete), log, rearm)
  }

  /** The last thing that happened to `slot`. */
  function Last(log: seq<LogEntry>, slot: nat): (e: Option<LogEntry>)
    ensures e.Some? ==> e.value.slot == slot
  {
    if log == [] then None
    else if log[|log| - 1].slot == slot then Some(log[|log| - 1])
    else Last(log[..|log| - 1], slot)
  }

  /** The command in the slot is not finished after `e`. */
  predicate Open(e: LogEntry) {
    e.Started? || !e.complete
  }

  function TickOf(e: LogEntry): nat {
    if e.Started? then 0 else e.tick
  }

  function ArmedAt(e: LogEntry): int {
    if e.Started? then e.at else e.rearm
  }

  /** `b` is the next call of the command `a` left unfinished: the next tick number, and more than
      a period later. */
  predicate Follows(a: LogEntry, b: LogEntry) {
    && Open(a) && b.Ran?
    && b.command == a.command
    && b.tick == TickOf(a) + 1
    && b.at > ArmedAt(a) + TickPeriod(a.command) * 1000
  }

  predicate EntryOk(before: seq<LogEntry>, e: LogEntry) {
    var last := Last(before, e.slot);
    if e.Started? then last.None? || !Open(last.value)
    else last.Some? && Follows(last.value, e) && e.rearm >= e.at
  }

  /** Every entry of the log is in order with the last one of its slot. */
  predicate LogOk(log: seq<LogEntry>) {
    log == [] || (LogOk(log[..|log| - 1]) && EntryOk(log[..|log| - 1], log[|log| - 1]))
  }

  /** The slot's entry says what its log says. */
  predicate Agrees(entry: Entry, last: Option<LogEntry>) {
    match entry
    case Idle => last.None? || !Open(last.value)
    case Parked(command, tick, due) =>
      && last.Some? && Open(last.value)
      && command == last.value.command
      && tick == TickOf(last.value) + 1
      && due == NextExecTime(command, ArmedAt(last.value))
  }

  predicate SchedInv(s: Scheduling) {
    LogOk(s.log) && forall i: nat :: i < MAX_COMMAND_STATES ==> Agrees(s.table[i], Last(s.log, i))
  }

  lemma {:induction false} SchedStepKeepsInv(s: Scheduling, e: SchedEvent)
    requires SchedInv(s) && ClockOk(s, e)
    ensures SchedInv(SchedStep(s, e))
  {
    var s' := SchedStep(s, e);
    if s'.log != s.log {
      var added := s'.log[|s.log|];
      assert s'.log[..|s'.log| - 1] == s.log && s'.log[|s'.log| - 1] == added;
      assert Agrees(s.table[added.slot], Last(s.log, added.slot));
      assert EntryOk(s.log, added);
      forall i: nat | i < MAX_COMMAND_STATES ensures Agrees(s'.table[i], Last(s'.log, i)) {
        assert Agrees(s.table[i], Last(s.log, i));
      }
    }
  }

  const POWER_UP: Scheduling := Scheduling(EmptyTable(), [], 0)

  function SchedRun(s: Scheduling, events: seq<SchedEvent>): Scheduling
    decreases |events|
  {
    if events == [] then s else SchedRun(SchedStep(s, events[0]), events[1..])
  }

  predicate ClocksOk(s: Scheduling, events: seq<SchedEvent>)
    decreases |events|
  {
    events == [] || (ClockOk(s, events[0]) && ClocksOk(SchedStep(s, events[0]), events[1..]))
  }

  lemma {:induction false} SchedRunKeepsInv(s: Scheduling, events: seq<SchedEvent>)
    requires SchedInv(s) && ClocksOk(s, events)
    ensures SchedInv(SchedRun(s, events))
    decreases |events|
  {
    if events != [] {
      SchedStepKeepsInv(s, events[0]);
      SchedRunKeepsInv(SchedStep(s, events[0]), events[1..]);
    }
  }

  /** How often the command in `slot` has been called from the table since it was parked. */
  function RunsSinceStart(log: seq<LogEntry>, slot: nat): nat {
    if log == [] then 0
    else
      var e := log[|log| - 1];
      if e.slot != slot then RunsSinceStart(log[..|log| - 1], slot)
      else if e.Started? then 0
      else 1 + RunsSinceStart(log[..|log| - 1], slot)
  }

  lemma {:induction false} TicksCountRuns(log: seq<LogEntry>, slot: nat)
    requires LogOk(log)
    ensures var last := Last(log, slot); last.Some? ==> TickOf(last.value) == RunsSinceStart(log, slot)
  {
    if log != [] {
      TicksCountRuns(log[..|log| - 1], slot);
    }
  }

  /** In every run under a clock that never goes back: each table call of a command carries the
      number of calls since it was parked, so its calls are ticks 0, 1, 2, … in order, and it comes
      more than the command's period after the call before. */
  lemma {:induction false} TraceLaw(events: seq<SchedEvent>, n: nat)
    requires ClocksOk(POWER_UP, events)
    requires n < |SchedRun(POWER_UP, events).log|
    ensures var log := SchedRun(POWER_UP, events).log;
            log[n].Ran? ==>
              && log[n].tick == RunsSinceStart(log[..n + 1], log[n].slot)
              && Last(log[..n], log[n].slot).Some?
              && Follows(Last(log[..n], log[n].slot).value, log[n])
  {
    var log := SchedRun(POWER_UP, events).log;
    assert SchedInv(POWER_UP);
    SchedRunKeepsInv(POWER_UP, events);
    LogOkPrefix(log, n + 1);
    var upTo := log[..n + 1];
    assert upTo[..n] == log[..n] && upTo[|upTo| - 1] == log[n];
    TicksCountRuns(upTo, log[n].slot);
    assert EntryOk(log[..n], log[n]);
  }

  lemma {:induction false} LogOkPrefix(log: seq<LogEntry>, n: nat)
    requires LogOk(log) && n <= |log|
    ensures LogOk(log[..n])
    decreases |log|
  {
    if n < |log| {
      LogOkPrefix(log[..|log| - 1], n);
      assert log[..|log| - 1][..n] == log[..n];
    } else {
      assert log[..n] == log;
    }
  }

  // -------------------------------------------------------------- no entry starves

  function Ticks(events: seq<SchedEvent>): nat
    decreases |events|
  {
    if events == [] then 0 else (if events[0].TickEvent? then 1 else 0) + Ticks(events[1..])
  }

  /** The clock readings of `events` lie in a window from `start` no longer than the shortest period. */
  predicate InWindow(start: int, events: seq<SchedEvent>) {
    forall i :: 0 <= i < |events| ==>
      match events[i]
      case ParkEvent(_, at) => start <= at
      case TickEvent(now, rearm, _) => start <= now <= start + MIN_PERIOD && start <= rearm
  }

  /** The command in `slot` has been called between `s` and `s'`. */
  predicate Served(s: Scheduling, s': Scheduling, slot: nat) {
    exists n :: |s.log| <= n < |s'.log| && s'.log[n].Ran? && s'.log[n].slot == slot
  }

  /** Within such a window twenty ticks, with any parkings between them, call every command that was due
      when it began. */
  lemma {:induction false} TwentyTicksServeAll(s: Scheduling, start: int, events: seq<SchedEvent>, d: nat)
    requires Ticks(events) >= 20 && InWindow(start, events)
    requires d < 20 && s.table[d].Parked? && s.table[d].due < start
    ensures Served(s, SchedRun(s, events), d)
  {
    TicksServe(s, start, events, d, {});
  }

  /** `served` are the slots that already ran in the window: none of them is due again in it. */
  lemma {:induction false} TicksServe(s: Scheduling, start: int, events: seq<SchedEvent>, d: nat, served: set<nat>)
    requires InWindow(start, events) && Ticks(events) + |served| >= MAX_COMMAND_STATES
    requires d < MAX_COMMAND_STATES && Due(s.table[d], start)
    requires forall x :: x in served ==> x < MAX_COMMAND_STATES && !Due(s.table[x], start + MIN_PERIOD)
    ensures Served(s, SchedRun(s, events), d)
    decreases |events|
  {
    hide FirstDueFrom, LastIdleBelow, Served;
    assert d !in served;
    if events == [] {
      SlotsBound(served + {d}, MAX_COMMAND_STATES);
      assert false;
    } else {
      var e := events[0];
      var s1 := SchedStep(s, e);
      WindowGoesOn(start, events);
      LogGrows(s1, events[1..]);
      match e
      case ParkEvent(command, at) =>
        ParkingIsNotDue(s, start, command, at, d, served);
        TicksServe(s1, start, events[1..], d, served);
        ServedSince(s, s1, SchedRun(s1, events[1..]), d);
      case TickEvent(now, rearm, complete) =>
        NothingDueBefore(s.table, now, 0, d);
        var x := FirstDueFrom(s.table, now, 0);
        if x == d {
          ServedAtOnce(s, s1, SchedRun(s1, events[1..]), d);
        } else {
          TicksServe(s1, start, events[1..], d, served + {x});
          ServedSince(s, s1, SchedRun(s1, events[1..]), d);
        }
    }
  }

  lemma {:induction false} WindowGoesOn(start: int, events: seq<SchedEvent>)
    requires InWindow(start, events) && events != []
    ensures InWindow(start, events[1..]) && InWindow(start, [events[0]])
  {
  }

  /** A parking changes no entry that is due, and makes none due in the window. */
  lemma {:induction false} ParkingIsNotDue(s: Scheduling, start: int, command: nat, at: int, d: nat, served: set<nat>)
    requires start <= at && d < MAX_COMMAND_STATES && Due(s.table[d], start)
    requires forall x :: x in served ==> x < MAX_COMMAND_STATES && !Due(s.table[x], start + MIN_PERIOD)
    ensures var t := SchedStep(s, ParkEvent(command, at)).table;
            Due(t[d], start) && forall x :: x in served ==> !Due(t[x], start + MIN_PERIOD)
  {
  }

  lemma {:induction false} LogGrows(s: Scheduling, events: seq<SchedEvent>)
    ensures s.log <= SchedRun(s, events).log
    decreases |events|
  {
    hide FirstDueFrom, LastIdleBelow, Tick, Park;
    if events != [] {
      LogGrows(SchedStep(s, events[0]), events[1..]);
    }
  }

  lemma {:induction false} ServedSince(s: Scheduling, s1: Scheduling, s2: Scheduling, d: nat)
    requires |s.log| <= |s1.log| && Served(s1, s2, d)
    ensures Served(s, s2, d)
  {
  }

  lemma {:induction false} ServedAtOnce(s: Scheduling, s1: Scheduling, s2: Scheduling, d: nat)
    requires |s1.log| == |s.log| + 1 && s1.log[|s.log|].Ran? && s1.log[|s.log|].slot == d && s1.log <= s2.log
    ensures Served(s, s2, d)
  {
    assert s2.log[|s.log|] == s1.log[|s.log|];
  }

  lemma {:induction false} SlotsBound(s: set<nat>, n: nat)
    requires forall x :: x in s ==> x < n
    ensures |s| <= n
  {
    if n > 0 {
      SlotsBound(s - {n - 1}, n - 1);
    } else {
      assert s == {};
    }
  }
}
