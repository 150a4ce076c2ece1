/** The block transfers of the Z80 library `fifolib.s`: up to 255 bytes between memory and the FIFO
    in a loop unrolled four times and entered in the middle. Each transfer is proved equal to the
    simple loop, and the simple loop is proved to move what it should. */
module FifoTransfer {
  import opened AddressSpace
  import opened Bytes

  const STATUS_PORT: int := 0xFD81
  const DATA_PORT: int := 0xFD80

  datatype Io = In(port: int, value: byte) | Out(port: int, value: byte)

  /** The FIFO: what its status and its data register show at each successive read. */
  datatype Device = Device(status: nat -> byte, data: nat -> byte)

  /** Memory, the buffer pointer, the numbers of status reads, data reads and data writes so far, and
      every access to a port. */
  datatype Bus = Bus(mem: seq<byte>, hl: int, polls: nat, taken: nat, given: nat, io: seq<Io>) {
    predicate Ok() {
      |mem| == MEMORY_SIZE && 0 <= hl < MEMORY_SIZE
    }
  }

  function Word(low: byte, high: byte): (w: int)
    ensures 0 <= w < 65536 && w % 256 == low as int && w / 256 == high as int
  {
    low as int + 256 * (high as int)
  }

  /** The 16-bit word as the signed number C passes. */
  function SignedWord(low: byte, high: byte): (n: int)
    ensures -0x8000 <= n < 0x8000
  {
    var w := Word(low, high);
    if w < 0x8000 then w else w - MEMORY_SIZE
  }

  /** The number of bytes a transfer is asked for: the signed count, limited to 0 from below and to
      255 from above. */
  function Clamped(countLow: byte, countHigh: byte): (n: byte)
    ensures var count := SignedWord(countLow, countHigh);
            n as int == if count < 0 then 0 else if count > 255 then 255 else count
  {
    if countHigh == 0 then countLow else if countHigh >= 0x80 then 0 else 0xFF
  }

  // ------------------------------------------------------------------ the simple loops

  predicate DataOutputReady(status: byte) {
    status % 2 == 1
  }

  predicate DataInputReady(status: byte) {
    status / 2 % 2 == 1
  }

  /** The two flags in the status byte. */
  lemma {:induction false} StatusBits(status: byte)
    ensures DataOutputReady(status) <==> (status as bv8) & 0x1 != 0
    ensures DataInputReady(status) <==> (status as bv8) & 0x2 != 0
  {
    var s := status as bv8;
    assert s & 1 == s % 2;
    assert s & 2 != 0 <==> s / 2 % 2 == 1;
  }

  function Poll(b: Bus, dev: Device): Bus {
    b.(polls := b.polls + 1, io := b.io + [In(STATUS_PORT, dev.status(b.polls))])
  }

  function ReadOne(b: Bus, dev: Device): (r: Bus)
    requires b.Ok()
    ensures r.Ok()
  {
    var v := dev.data(b.taken);
    b.(mem := b.mem[b.hl := v], hl := Next16(b.hl), taken := b.taken + 1, io := b.io + [In(DATA_PORT, v)])
  }

  function WriteOne(b: Bus): (r: Bus)
    requires b.Ok()
    ensures r.Ok()
  {
    b.(hl := Next16(b.hl), given := b.given + 1, io := b.io + [Out(DATA_PORT, b.mem[b.hl])])
  }

  /** `n` bytes in, without looking at the status. */
  function ReadMany(b: Bus, dev: Device, n: nat): (r: Bus)
    requires b.Ok()
    ensures r.Ok()
    decreases n
  {
    if n == 0 then b else ReadMany(ReadOne(b, dev), dev, n - 1)
  }

  function WriteMany(b: Bus, n: nat): (r: Bus)
    requires b.Ok()
    ensures r.Ok()
    decreases n
  {
    if n == 0 then b else WriteMany(WriteOne(b), n - 1)
  }

  /** At most `n` bytes in, each behind a status read, until one says that no byte is there. */
  function ReadReady(b: Bus, dev: Device, n: nat): (r: Bus)
    requires b.Ok()
    ensures r.Ok()
    decreases n
  {
    if n == 0 then b
    else if DataOutputReady(dev.status(b.polls)) then ReadReady(ReadOne(Poll(b, dev), dev), dev, n - 1)
    else Poll(b, dev)
  }

  function WriteReady(b: Bus, dev: Device, n: nat): (r: Bus)
    requires b.Ok()
    ensures r.Ok()
    decreases n
  {
    if n == 0 then b
    else if DataInputReady(dev.status(b.polls)) then WriteReady(WriteOne(Poll(b, dev)), dev, n - 1)
    else Poll(b, dev)
  }

  lemma {:induction false} NothingMoved(b: Bus, dev: Device)
    requires b.Ok()
    ensures ReadReady(b, dev, 0) == b && WriteReady(b, dev, 0) == b
    ensures ReadMany(b, dev, 0) == b && WriteMany(b, 0) == b
  {
  }

  // ------------------------------------------------------- what the simple loops move

  /** How far behind `at` the address `x` lies, going round the memory. */
  function Offset(x: int, at: int): (o: int)
    ensures 0 <= o < MEMORY_SIZE
  {
    (x - at) % MEMORY_SIZE
  }

  lemma {:induction false} OffsetSteps(x: int, at: int)
    requires 0 <= x < MEMORY_SIZE && 0 <= at < MEMORY_SIZE
    ensures Offset(x, at) == 0 <==> x == at
    ensures Offset(x, Next16(at)) == if x == at then MEMORY_SIZE - 1 else Offset(x, at) - 1
  {
  }

  /** `n` bytes in: the next `n` bytes of the FIFO, in order, at the buffer and the addresses behind
      it; every other byte of the memory as before. */
  lemma {:induction false} ReadManyMoves(b: Bus, dev: Device, n: nat)
    requires b.Ok() && n <= MEMORY_SIZE
    ensures var r := ReadMany(b, dev, n);
            && r.taken == b.taken + n && r.given == b.given && r.polls == b.polls
            && r.hl == At(b.hl, n)
            && forall x :: 0 <= x < MEMORY_SIZE ==>
                 r.mem[x] == if Offset(x, b.hl) < n then dev.data(b.taken + Offset(x, b.hl)) else b.mem[x]
    decreases n
  {
    hide Offset, At, Next16;
    AtSteps(b.hl, 0);
    if n > 0 {
      var b1 := ReadOne(b, dev);
      ReadManyMoves(b1, dev, n - 1);
      AtSteps(b.hl, n - 1);
      forall x | 0 <= x < MEMORY_SIZE
        ensures ReadMany(b, dev, n).mem[x]
             == if Offset(x, b.hl) < n then dev.data(b.taken + Offset(x, b.hl)) else b.mem[x]
      {
        OffsetSteps(x, b.hl);
      }
    }
  }

  /** `n` bytes out: the bytes at the buffer and the addresses behind it, in order. */
  lemma {:induction false} WriteManyMoves(b: Bus, n: nat)
    requires b.Ok()
    ensures var r := WriteMany(b, n);
            && r.mem == b.mem && r.given == b.given + n && r.taken == b.taken && r.polls == b.polls
            && r.hl == At(b.hl, n)
            && |r.io| == |b.io| + n && r.io[..|b.io|] == b.io
            && forall i: nat :: i < n ==> r.io[|b.io| + i] == Out(DATA_PORT, b.mem[At(b.hl, i)])
    decreases n
  {
    hide At, Next16;
    AtSteps(b.hl, 0);
    if n > 0 {
      var b1, r := WriteOne(b), WriteMany(b, n);
      WriteManyMoves(b1, n - 1);
      AtSteps(b.hl, n - 1);
      assert r.io[..|b.io|] == r.io[..|b1.io|][..|b.io|] == b.io;
      forall i: nat | i < n ensures r.io[|b.io| + i] == Out(DATA_PORT, b.mem[At(b.hl, i)]) {
        if i == 0 {
          assert r.io[|b.io|] == r.io[..|b1.io|][|b.io|];
        } else {
          AtSteps(b.hl, i - 1);
          assert r.io[|b1.io| + (i - 1)] == Out(DATA_PORT, b.mem[At(b1.hl, i - 1)]);
        }
      }
    }
  }

  /** How many of the next `n` status reads come out ready before the first that does not. */
  function ReadyRun(dev: Device, from: nat, n: nat, reading: bool): (k: nat)
    ensures k <= n
    decreases n
  {
    if n == 0 then 0
    else if (if reading then DataOutputReady(dev.status(from)) else DataInputReady(dev.status(from)))
    then 1 + ReadyRun(dev, from + 1, n - 1, reading)
    else 0
  }

  /** The two buses hold the same apart from the status reads. */
  predicate SameApartFromPolls(a: Bus, b: Bus) {
    a.mem == b.mem && a.hl == b.hl && a.taken == b.taken && a.given == b.given
  }

  /** The checked read moves exactly as many bytes as there are ready status reads in a row, just as
      the unchecked one would. */
  lemma {:induction false} ReadReadyStopsAtNotReady(b: Bus, c: Bus, dev: Device, n: nat)
    requires b.Ok() && SameApartFromPolls(b, c)
    ensures var k := ReadyRun(dev, b.polls, n, true);
            && SameApartFromPolls(ReadReady(b, dev, n), ReadMany(c, dev, k))
            && ReadReady(b, dev, n).polls == b.polls + k + (if k < n then 1 else 0)
    decreases n
  {
    if n > 0 && DataOutputReady(dev.status(b.polls)) {
      ReadReadyStopsAtNotReady(ReadOne(Poll(b, dev), dev), ReadOne(c, dev), dev, n - 1);
    }
  }

  lemma {:induction false} WriteReadyStopsAtNotReady(b: Bus, c: Bus, dev: Device, n: nat)
    requires b.Ok() && SameApartFromPolls(b, c)
    ensures var k := ReadyRun(dev, b.polls, n, false);
            && SameApartFromPolls(WriteReady(b, dev, n), WriteMany(c, k))
            && WriteReady(b, dev, n).polls == b.polls + k + (if k < n then 1 else 0)
    decreases n
  {
    if n > 0 && DataInputReady(dev.status(b.polls)) {
      WriteReadyStopsAtNotReady(WriteOne(Poll(b, dev)), WriteOne(c), dev, n - 1);
    }
  }

  /** The bytes written to the FIFO. */
  function BytesOut(io: seq<Io>): seq<byte> {
    if io == [] then []
    else BytesOut(io[..|io| - 1]) + (if io[|io| - 1].Out? then [io[|io| - 1].value] else [])
  }

  lemma {:induction false} BytesOutAppend(io: seq<Io>, x: Io)
    ensures BytesOut(io + [x]) == BytesOut(io) + (if x.Out? then [x.value] else [])
  {
    assert (io + [x])[..|io|] == io;
  }

  /** The checked write puts out the same bytes as the unchecked one does for the ready run. */
  lemma {:induction false} WriteReadySendsReadyRun(b: Bus, c: Bus, dev: Device, n: nat)
    requires b.Ok() && SameApartFromPolls(b, c) && BytesOut(b.io) == BytesOut(c.io)
    ensures BytesOut(WriteReady(b, dev, n).io)
         == BytesOut(WriteMany(c, ReadyRun(dev, b.polls, n, false)).io)
    decreases n
  {
    hide BytesOut, DataInputReady;
    if n > 0 {
      var p := Poll(b, dev);
      BytesOutAppend(b.io, p.io[|b.io|]);
      if DataInputReady(dev.status(b.polls)) {
        BytesOutAppend(p.io, Out(DATA_PORT, b.mem[b.hl]));
        BytesOutAppend(c.io, Out(DATA_PORT, b.mem[b.hl]));
        WriteReadySendsReadyRun(WriteOne(p), WriteOne(c), dev, n - 1);
      }
    }
  }

  /** Status reads on the status port, data on the data port, and no write anywhere else: a write to
      the status port would reset the FIFO. */
  predicate PortsOk(io: seq<Io>) {
    forall i :: 0 <= i < |io| ==>
      if io[i].In? then io[i].port == 0xFD81 || io[i].port == 0xFD80 else io[i].port == 0xFD80
  }

  /** Every status read, every byte in and every byte out is an access to a port, and nothing else is. */
  predicate AllOnPorts(b: Bus, r: Bus) {
    |r.io| - |b.io| == (r.polls - b.polls) + (r.taken - b.taken) + (r.given - b.given)
  }

  lemma {:induction false} TransfersAreOnPorts(b: Bus, dev: Device, n: nat)
    requires b.Ok()
    ensures AllOnPorts(b, ReadMany(b, dev, n)) && AllOnPorts(b, WriteMany(b, n))
    ensures AllOnPorts(b, ReadReady(b, dev, n)) && AllOnPorts(b, WriteReady(b, dev, n))
    decreases n
  {
    if n > 0 {
      TransfersAreOnPorts(ReadOne(b, dev), dev, n - 1);
      TransfersAreOnPorts(WriteOne(b), dev, n - 1);
      TransfersAreOnPorts(ReadOne(Poll(b, dev), dev), dev, n - 1);
      TransfersAreOnPorts(WriteOne(Poll(b, dev)), dev, n - 1);
    }
  }

  lemma {:induction false} TransfersUseTheirPorts(b: Bus, dev: Device, n: nat)
    requires b.Ok() && PortsOk(b.io)
    ensures PortsOk(ReadMany(b, dev, n).io) && PortsOk(WriteMany(b, n).io)
    ensures PortsOk(ReadReady(b, dev, n).io) && PortsOk(WriteReady(b, dev, n).io)
    decreases n
  {
    if n > 0 {
      TransfersUseTheirPorts(ReadOne(b, dev), dev, n - 1);
      TransfersUseTheirPorts(WriteOne(b), dev, n - 1);
      TransfersUseTheirPorts(ReadOne(Poll(b, dev), dev), dev, n - 1);
      TransfersUseTheirPorts(WriteOne(Poll(b, dev)), dev, n - 1);
    }
  }

  /** Where the unrolled loop is entered: the count modulo 4, with 4 for 0. */
  function Entry(count: nat): (top: nat)
    ensures 1 <= top <= 4
  {
    if count % 4 == 0 then 4 else count % 4
  }

  /** Entered there, one round leaves a multiple of four, so the later rounds start at the top and
      the count runs out only at the end of a round. */
  lemma {:induction false} EntryLeavesMultiple(count: nat)
    requires count > 0
    ensures Entry(count) <= count && Entry(count - Entry(count)) == 4
  {
  }

  // -------------------------------------------------------------------- the registers

  /** The registers the transfers use, and the memory and ports they reach. */
  class Cpu {
    const memory: array<byte>
    const dev: Device
    var a: byte
    var b: byte
    var c: byte
    var d: byte
    var e: byte
    var l: byte
    var hl: int
    var polls: nat
    var taken: nat
    var given: nat
    ghost var io: seq<Io>

    ghost predicate Valid()
      reads this
    {
      memory.Length == MEMORY_SIZE && 0 <= hl < MEMORY_SIZE
    }

    ghost function TheBus(): Bus
      requires Valid()
      reads this, memory
    {
      Bus(memory[..], hl, polls, taken, given, io)
    }

    constructor (dev: Device)
      ensures Valid() && fresh(memory) && this.dev == dev
    {
      memory := new byte[MEMORY_SIZE](_ => 0);
      this.dev := dev;
      a, b, c, d, e, l, hl := 0, 0, 0, 0, 0, 0, 0;
      polls, taken, given := 0, 0, 0;
      io := [];
    }

    /** `in a,(c)` on the status port. */
    method InStatus()
      requires Valid() && b == 0xFD && c == 0x81
      modifies `a, `polls, `io
      ensures Valid() && TheBus() == Poll(old(TheBus()), dev)
      ensures a == dev.status(old(polls))
    {
      a := dev.status(polls);
      io := io + [In(b as int * 256 + c as int, a)];
      polls := polls + 1;
    }

    /** `ini`: a byte from port BC to (HL), HL one on, B one down. */
    method Ini()
      requires Valid() && b == 0xFD && c == 0x80
      modifies `b, `hl, `taken, `io, memory
      ensures Valid() && TheBus() == ReadOne(old(TheBus()), dev)
      ensures b == 0xFC
    {
      var v := dev.data(taken);
      io := io + [In(b as int * 256 + c as int, v)];
      taken := taken + 1;
      memory[hl] := v;
      hl := (hl + 1) % MEMORY_SIZE;
      b := (b as int - 1) % 256;
    }

    /** `outi`: B one down, then the byte at (HL) to port BC, HL one on. */
    method Outi()
      requires Valid() && b == 0xFE && c == 0x80
      modifies `b, `hl, `given, `io
      ensures Valid() && TheBus() == WriteOne(old(TheBus()))
      ensures b == 0xFD
    {
      b := (b as int - 1) % 256;
      given := given + 1;
      io := io + [Out(b as int * 256 + c as int, memory[hl])];
      hl := (hl + 1) % MEMORY_SIZE;
    }

    /** `fifo_ext_param`: the buffer pointer, the clamped count in A, D and E, BC on the data port. */
    method ExtParam(bufferLow: byte, bufferHigh: byte, countLow: byte, countHigh: byte)
      requires Valid()
      modifies `a, `b, `c, `d, `e, `hl
      ensures Valid() && TheBus() == old(TheBus()).(hl := Word(bufferLow, bufferHigh))
      ensures b == 0xFD && c == 0x80
      ensures a == d == e == Clamped(countLow, countHigh)
    {
      b, c := 0xFD, 0x80;
      hl := Word(bufferLow, bufferHigh);
      a := countHigh;
      if a == 0 {
        a := countLow;
      } else if a >= 0x80 {
        a := 0;
      } else {
        a := 0xFF;
      }
      d, e := a, a;
    }

    // ---------------------------------------------------------- one copy of each unit

    /** Status, test, read: the unit the checked read repeats. The counter goes down without a test
        for zero, so it must not be zero before. */
    method ReadUnit() returns (ready: bool)
      requires Valid() && b == 0xFD && c == 0x81 && e > 0
      modifies `a, `b, `c, `e, `hl, `polls, `taken, `io, memory
      ensures Valid() && b == 0xFD && c == 0x81
      ensures ready <==> DataOutputReady(dev.status(old(polls)))
      ensures e as int == old(e) as int - if ready then 1 else 0
      ensures taken + e as nat == old(taken + e as nat)
      ensures ReadReady(old(TheBus()), dev, old(e)) == if ready then ReadReady(TheBus(), dev, e) else TheBus()
    {
      InStatus();
      ready := a % 2 == 1;
      if ready {
        c := (c as int - 1) % 256;
        Ini();
        b := (b as int + 1) % 256;
        c := (c as int + 1) % 256;
        e := (e as int - 1) % 256;
      }
    }

    method WriteUnit() returns (ready: bool)
      requires Valid() && b == 0xFD && c == 0x81 && e > 0
      modifies `a, `b, `c, `e, `hl, `polls, `given, `io
      ensures Valid() && b == 0xFD && c == 0x81
      ensures ready <==> DataInputReady(dev.status(old(polls)))
      ensures e as int == old(e) as int - if ready then 1 else 0
      ensures given + e as nat == old(given + e as nat)
      ensures WriteReady(old(TheBus()), dev, old(e)) == if ready then WriteReady(TheBus(), dev, e) else TheBus()
    {
      InStatus();
      ready := a / 2 % 2 == 1;
      if ready {
        c := (c as int - 1) % 256;
        b := (b as int + 1) % 256;
        Outi();
        c := (c as int + 1) % 256;
        e := (e as int - 1) % 256;
      }
    }

    method ReadUnitNc()
      requires Valid() && b == 0xFD && c == 0x80 && e > 0
      modifies `b, `e, `hl, `taken, `io, memory
      ensures Valid() && b == 0xFD
      ensures e as int == old(e) as int - 1
      ensures ReadMany(TheBus(), dev, e) == ReadMany(old(TheBus()), dev, old(e))
    {
      Ini();
      b := (b as int + 1) % 256;
      e := (e as int - 1) % 256;
    }

    method WriteUnitNc()
      requires Valid() && b == 0xFD && c == 0x80 && e > 0
      modifies `b, `e, `hl, `given, `io
      ensures Valid() && b == 0xFD
      ensures e as int == old(e) as int - 1
      ensures WriteMany(TheBus(), e) == WriteMany(old(TheBus()), old(e))
    {
      b := (b as int + 1) % 256;
      Outi();
      e := (e as int - 1) % 256;
    }

    // ----------------------------------------------------------- the unrolled transfers

    /** The four copies of the checked read, entered at copy `top`. */
    method ReadRound(top: nat) returns (more: bool)
      requires Valid() && b == 0xFD && c == 0x81 && e > 0 && top == Entry(e)
      modifies `a, `b, `c, `e, `hl, `polls, `taken, `io, memory
      ensures Valid() && b == 0xFD && c == 0x81 && e <= old(e)
      ensures taken + e as nat == old(taken + e as nat)
      ensures more ==> e as nat == old(e) as nat - top && Entry(e) == 4
      ensures ReadReady(old(TheBus()), dev, old(e)) == if more then ReadReady(TheBus(), dev, e) else TheBus()
    {
      hide ReadReady, Entry;
      EntryLeavesMultiple(e);
      more := true;
      if top >= 4 { more := ReadUnit(); }
      if more && top >= 3 { more := ReadUnit(); }
      if more && top >= 2 { more := ReadUnit(); }
      if more { more := ReadUnit(); }
    }

    /** `fifo_in_bytes`: equal to the simple checked loop; L holds the number of bytes moved. */
    method FifoInBytes(bufferLow: byte, bufferHigh: byte, countLow: byte, countHigh: byte)
      requires Valid()
      modifies this, memory
      ensures Valid()
      ensures var start := old(TheBus()).(hl := Word(bufferLow, bufferHigh));
              TheBus() == ReadReady(start, dev, Clamped(countLow, countHigh))
      ensures taken == old(taken) + l as nat
    {
      hide ReadReady, Clamped, Entry;
      ExtParam(bufferLow, bufferHigh, countLow, countHigh);
      ghost var start := TheBus();
      NothingMoved(start, dev);
      if a != 0 {
        c := (c as int + 1) % 256;
        var top, more := Entry(a), true;
        while more
          invariant Valid() && d == Clamped(countLow, countHigh) && e <= d
          invariant taken + e as nat == start.taken + d as nat
          invariant more ==> b == 0xFD && c == 0x81 && e > 0 && Entry(e) == top
          invariant ReadReady(start, dev, d) == if more then ReadReady(TheBus(), dev, e) else TheBus()
          decreases more, e
        {
          more := ReadRound(top);
          if more && e == 0 {
            NothingMoved(TheBus(), dev);
            more := false;
          }
          top := 4;
        }
      }
      l := (d as int - e as int) % 256;
    }

    /** The four copies of the checked write, entered at copy `top`. */
    method WriteRound(top: nat) returns (more: bool)
      requires Valid() && b == 0xFD && c == 0x81 && e > 0 && top == Entry(e)
      modifies `a, `b, `c, `e, `hl, `polls, `given, `io
      ensures Valid() && b == 0xFD && c == 0x81 && e <= old(e)
      ensures given + e as nat == old(given + e as nat)
      ensures more ==> e as nat == old(e) as nat - top && Entry(e) == 4
      ensures WriteReady(old(TheBus()), dev, old(e)) == if more then WriteReady(TheBus(), dev, e) else TheBus()
    {
      hide WriteReady, Entry;
      EntryLeavesMultiple(e);
      more := true;
      if top >= 4 { more := WriteUnit(); }
      if more && top >= 3 { more := WriteUnit(); }
      if more && top >= 2 { more := WriteUnit(); }
      if more { more := WriteUnit(); }
    }

    /** `fifo_out_bytes`: equal to the simple checked loop; L holds the number of bytes moved. */
    method FifoOutBytes(bufferLow: byte, bufferHigh: byte, countLow: byte, countHigh: byte)
      requires Valid()
      modifies this
      ensures Valid()
      ensures var start := old(TheBus()).(hl := Word(bufferLow, bufferHigh));
              TheBus() == WriteReady(start, dev, Clamped(countLow, countHigh))
      ensures given == old(given) + l as nat
    {
      hide WriteReady, Clamped, Entry;
      ExtParam(bufferLow, bufferHigh, countLow, countHigh);
      ghost var start := TheBus();
      NothingMoved(start, dev);
      if a != 0 {
        c := (c as int + 1) % 256;
        var top, more := Entry(a), true;
        while more
          invariant Valid() && d == Clamped(countLow, countHigh) && e <= d
          invariant given + e as nat == start.given + d as nat
          invariant more ==> b == 0xFD && c == 0x81 && e > 0 && Entry(e) == top
          invariant WriteReady(start, dev, d) == if more then WriteReady(TheBus(), dev, e) else TheBus()
          decreases more, e
        {
          more := WriteRound(top);
          if more && e == 0 {
            NothingMoved(TheBus(), dev);
            more := false;
          }
          top := 4;
        }
      }
      l := (d as int - e as int) % 256;
    }

    method ReadRoundNc(top: nat)
      requires Valid() && b == 0xFD && c == 0x80 && e > 0 && top == Entry(e)
      modifies `b, `e, `hl, `taken, `io, memory
      ensures Valid() && b == 0xFD && e as nat == old(e) as nat - top && Entry(e) == 4
      ensures ReadMany(TheBus(), dev, e) == ReadMany(old(TheBus()), dev, old(e))
    {
      hide ReadMany, Entry;
      EntryLeavesMultiple(e);
      if top >= 4 { ReadUnitNc(); }
      if top >= 3 { ReadUnitNc(); }
      if top >= 2 { ReadUnitNc(); }
      ReadUnitNc();
    }

    /** `fifo_in_nc_bytes`: equal to the simple loop without status reads. */
    method FifoInNcBytes(bufferLow: byte, bufferHigh: byte, countLow: byte, countHigh: byte)
      requires Valid()
      modifies this, memory
      ensures Valid()
      ensures var start := old(TheBus()).(hl := Word(bufferLow, bufferHigh));
              TheBus() == ReadMany(start, dev, Clamped(countLow, countHigh))
      ensures l == Clamped(countLow, countHigh)
    {
      hide ReadMany, Clamped, Entry;
      ExtParam(bufferLow, bufferHigh, countLow, countHigh);
      ghost var start := TheBus();
      NothingMoved(start, dev);
      if a != 0 {
        var top := Entry(a);
        while true
          invariant Valid() && b == 0xFD && c == 0x80 && d == Clamped(countLow, countHigh)
          invariant e > 0 && Entry(e) == top
          invariant ReadMany(TheBus(), dev, e) == ReadMany(start, dev, d)
          decreases e
        {
          ReadRoundNc(top);
          if e == 0 {
            NothingMoved(TheBus(), dev);
            break;
          }
          top := 4;
        }
      }
      l := (d as int - e as int) % 256;
    }

    method WriteRoundNc(top: nat)
      requires Valid() && b == 0xFD && c == 0x80 && e > 0 && top == Entry(e)
      modifies `b, `e, `hl, `given, `io
      ensures Valid() && b == 0xFD && e as nat == old(e) as nat - top && Entry(e) == 4
      ensures WriteMany(TheBus(), e) == WriteMany(old(TheBus()), old(e))
    {
      hide WriteMany, Entry;
      EntryLeavesMultiple(e);
      if top >= 4 { WriteUnitNc(); }
      if top >= 3 { WriteUnitNc(); }
      if top >= 2 { WriteUnitNc(); }
      WriteUnitNc();
    }

    /** `fifo_out_nc_bytes`: equal to the simple loop without status reads. */
    method FifoOutNcBytes(bufferLow: byte, bufferHigh: byte, countLow: byte, countHigh: byte)
      requires Valid()
      modifies this
      ensures Valid()
      ensures var start := old(TheBus()).(hl := Word(bufferLow, bufferHigh));
              TheBus() == WriteMany(start, Clamped(countLow, countHigh))
      ensures l == Clamped(countLow, countHigh)
    {
      hide WriteMany, Clamped, Entry;
      ExtParam(bufferLow, bufferHigh, countLow, countHigh);
      ghost var start := TheBus();
      NothingMoved(start, dev);
      if a != 0 {
        var top := Entry(a);
        while true
          invariant Valid() && b == 0xFD && c == 0x80 && d == Clamped(countLow, countHigh)
          invariant e > 0 && Entry(e) == top
          invariant WriteMany(TheBus(), e) == WriteMany(start, d)
          decreases e
        {
          WriteRoundNc(top);
          if e == 0 {
            NothingMoved(TheBus(), dev);
            break;
          }
          top := 4;
        }
      }
      l := (d as int - e as int) % 256;
    }
  }
}
