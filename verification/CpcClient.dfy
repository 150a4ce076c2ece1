/** The Z80 client of `mcplib.s`: what it puts on the wire for a packet, and what it makes of a frame
    the Pi has sent. Both ends agree on the frames of `FrameCodec`. */
module CpcClient {
  import opened AddressSpace
  import opened Bytes
  import opened FrameCodec

  /** The receive buffer holds fewer than `BUFFER_MAX_SIZE_HI` times 256 bytes. */
  const BUFFER_MAX_SIZE_HI: int := 0x10

  const PACKET_TYPE_ERROR: int := 2
  const BAD_DELIMITER_ERROR: int := 3
  const PACKET_SIZE_TOO_LARGE_ERROR: int := 4

  function Low(word: int): byte {
    word % 256
  }

  function High(word: int): byte {
    word / 256 % 256
  }

  /** `bytes` in memory from `at` on. */
  function Stored(mem: seq<byte>, at: int, bytes: seq<byte>): (r: seq<byte>)
    requires 0 <= at && at + |bytes| <= |mem|
    ensures |r| == |mem|
  {
    mem[..at] + bytes + mem[at + |bytes|..]
  }

  lemma {:induction false} StoredNext(mem: seq<byte>, at: int, bytes: seq<byte>, v: byte)
    requires 0 <= at && at + |bytes| < |mem|
    ensures Stored(mem, at, bytes)[at + |bytes| := v] == Stored(mem, at, bytes + [v])
  {
  }

  lemma {:induction false} StoredNothing(mem: seq<byte>, at: int)
    requires 0 <= at <= |mem|
    ensures Stored(mem, at, []) == mem
  {
  }

  // ------------------------------------------------------------------- what is sent

  /** `n` bytes of memory from `at` on, going round the address space. */
  function MemoryAt(mem: seq<byte>, at: int, n: nat): (bs: seq<byte>)
    requires |mem| == MEMORY_SIZE
    ensures |bs| == n
  {
    seq(n, i requires 0 <= i => mem[At(at, i)])
  }

  lemma {:induction false} MemoryAtBytes(mem: seq<byte>, at: int, n: nat)
    requires |mem| == MEMORY_SIZE
    ensures forall i :: 0 <= i < n ==> MemoryAt(mem, at, n)[i] == mem[(at + i) % 65536]
  {
  }

  lemma {:induction false} MemoryAtNext(mem: seq<byte>, at: int, n: nat)
    requires |mem| == MEMORY_SIZE
    ensures MemoryAt(mem, at, n + 1) == MemoryAt(mem, at, n) + [mem[At(at, n)]]
  {
    hide At;
  }

  /** The payload the client means to send: the buffer, and a newline behind a text command. */
  function Meant(kind: byte, buffer: seq<byte>): seq<byte> {
    if kind == TEXT_COMMAND then buffer + [NEW_LINE] else buffer
  }

  /** A newline behind a text command, nothing behind any other. */
  function TextEnd(kind: byte): seq<byte> {
    if kind == 1 then [10] else []
  }

  lemma {:induction false} MeantEnds(kind: byte, buffer: seq<byte>)
    ensures Meant(kind, buffer) == buffer + TextEnd(kind)
  {
  }

  /** How often the byte loop of `SendPacket` runs: it tests its counter only after a byte. */
  function LoopCount(length: int): nat
    requires 0 <= length < MEMORY_SIZE
  {
    if length == 0 then MEMORY_SIZE else length
  }

  /** Everything `SendPacket` puts on the wire. */
  function Sent(kind: byte, mem: seq<byte>, at: int, length: int): seq<byte>
    requires |mem| == MEMORY_SIZE && 0 <= at < MEMORY_SIZE && 0 <= length < MEMORY_SIZE
  {
    Header(kind, length + if kind == TEXT_COMMAND then 1 else 0)
    + Meant(kind, MemoryAt(mem, at, LoopCount(length)))
    + REAR
  }

  /** The client's bytes are the frame of the payload it means exactly when it means at least one
      byte: a length of 0 sends 65536 bytes behind a header that announces none. */
  lemma {:induction false} SentIsTheFrame(kind: byte, mem: seq<byte>, at: int, length: int)
    requires |mem| == MEMORY_SIZE && 0 <= at < MEMORY_SIZE && 0 <= length < MEMORY_SIZE
    ensures Sent(kind, mem, at, length) == Frame(kind, Meant(kind, MemoryAt(mem, at, length)))
       <==> length >= 1
  {
    hide MemoryAt;
    if length == 0 {
      assert |Sent(kind, mem, at, length)| > |Frame(kind, Meant(kind, MemoryAt(mem, at, length)))|;
    }
  }

  /** The Pi's decoder accepts what the client sends, with the payload the client means, which is the
      buffer with a newline behind it for a text command, and leaves exactly what it sends next. */
  lemma {:induction false} PiUnderstandsClient(kind: byte, mem: seq<byte>, at: int, length: int, next: seq<byte>)
    requires |mem| == MEMORY_SIZE && 0 <= at < MEMORY_SIZE && KnownType(kind)
    requires 1 <= length && |Meant(kind, MemoryAt(mem, at, length))| <= MAX_PAYLOAD
    ensures length < MEMORY_SIZE
    ensures Understood(Sent(kind, mem, at, length) + next, kind, MemoryAt(mem, at, length) + TextEnd(kind), next)
  {
    hide Understood, MemoryAt, TextEnd, Frame;
    var p := Meant(kind, MemoryAt(mem, at, length));
    SentIsTheFrame(kind, mem, at, length);
    MeantEnds(kind, MemoryAt(mem, at, length));
    FrameIsUnderstood(kind, p, next);
  }

  /** The check accepts `c` as it is, its payload is `p`, and behind its terminator comes `next`. */
  predicate Understood(c: seq<byte>, kind: byte, p: seq<byte>, next: seq<byte>) {
    && Accepts(c) && AfterCheck(c) == c
    && |c| >= 6 + |p| && c[5] == kind && DeclaredSize(c) - 3 == |p| && c[6..6 + |p|] == p
    && SkipTerminator(c[6 + |p|..]) == next
  }

  lemma {:induction false} FrameIsUnderstood(kind: byte, p: seq<byte>, next: seq<byte>)
    requires KnownType(kind) && |p| <= MAX_PAYLOAD
    ensures Understood(Frame(kind, p) + next, kind, p, next)
  {
    hide Accepts, AfterCheck, Frame, SkipTerminator;
    FrameRoundTrip([], kind, p, next);
    assert [] + Frame(kind, p) + next == Frame(kind, p) + next;
  }

  /** The size bytes of the header are those of the length plus three, or four for a text command. */
  lemma {:induction false} SizeOnTheWire(length: int, extra: nat)
    requires 0 <= length < MEMORY_SIZE && extra <= 1
    ensures var hl := Next16(Next16(Next16(length)));
            var size := if extra == 1 then Next16(hl) else hl;
            && Low(size) == (length + extra + 3) % 256
            && High(size) == (length + extra + 3) / 256 % 256
  {
    var hl := Next16(Next16(Next16(length)));
    assert hl == (length + 3) % MEMORY_SIZE;
    HalvesWrap(length + extra + 3);
  }

  lemma {:induction false} HalvesWrap(word: nat)
    requires word < 2 * MEMORY_SIZE
    ensures Low(word % MEMORY_SIZE) == Low(word) && High(word % MEMORY_SIZE) == High(word)
  {
    var w := word % MEMORY_SIZE;
    assert w == word || (w == word - MEMORY_SIZE && w / 256 == word / 256 - 256);
  }

  // ------------------------------------------------------------------- what is received

  /** The packet type and the body length the client reads off the first six bytes. */
  function TypeSeen(c: seq<byte>): byte
    requires |c| >= 6
  {
    c[5]
  }

  function BodyLength(c: seq<byte>): (n: int)
    requires |c| >= 6
    ensures 0 <= n < MEMORY_SIZE
  {
    Previous16(Previous16(Previous16(DeclaredSize(c))))
  }

  predicate TooLarge(c: seq<byte>)
    requires |c| >= 6
  {
    BodyLength(c) / 256 >= BUFFER_MAX_SIZE_HI
  }

  /** The front delimiter is looked at only for a body that fits. */
  predicate Deliverable(c: seq<byte>, expected: byte)
    requires |c| >= 6
  {
    TypeSeen(c) == expected && !TooLarge(c) && StartsFrame(c)
  }

  /** What a caller provides: the buffer has room for what is stored there (the front of a frame is
      stored too), the two result words lie outside it, and the bytes of the frame will come. */
  predicate CanReceive(c: seq<byte>, expected: byte, buffer: int, lengthAt: int, errorAt: int) {
    && |c| >= 6 && 0 <= buffer && buffer + 6 <= MEMORY_SIZE
    && 0 <= lengthAt < MEMORY_SIZE - 1 && 0 <= errorAt < MEMORY_SIZE - 1
    && (lengthAt + 2 <= errorAt || errorAt + 2 <= lengthAt)
    && Outside(lengthAt, buffer, Used(c, expected)) && Outside(errorAt, buffer, Used(c, expected))
    && (Deliverable(c, expected) ==> buffer + BodyLength(c) < MEMORY_SIZE)
    && (TypeSeen(c) == expected && (TooLarge(c) || StartsFrame(c)) ==>
          |c| >= LoopCount(BodyLength(c)) + PACKET_OVERHEAD)
  }

  /** How much of the buffer is written. */
  function Used(c: seq<byte>, expected: byte): nat
    requires |c| >= 6
  {
    if Deliverable(c, expected) && BodyLength(c) >= 6 then BodyLength(c) + 1 else 6
  }

  predicate Outside(word: int, buffer: int, used: nat) {
    word + 2 <= buffer || buffer + used <= word
  }

  predicate HoldsWord(mem: seq<byte>, at: int, word: int)
    requires |mem| == MEMORY_SIZE && 0 <= at < MEMORY_SIZE - 1
  {
    mem[at] == Low(word) && mem[at + 1] == High(word)
  }

  /** The word a reader finds at `at`. */
  lemma {:induction false} WordIsRead(mem: seq<byte>, at: int, word: int)
    requires |mem| == MEMORY_SIZE && 0 <= at < MEMORY_SIZE - 1 && 0 <= word < 65536
    ensures HoldsWord(mem, at, word) <==> mem[at] as int + 256 * mem[at + 1] as int == word
  {
  }

  /** Nothing changes but the used part of the buffer and the two result words. */
  ghost predicate OnlyResults(was: seq<byte>, mem: seq<byte>, buffer: int, used: nat, lengthAt: int, errorAt: int)
    requires |was| == |mem| == MEMORY_SIZE
  {
    forall x | 0 <= x < MEMORY_SIZE ::
      buffer <= x < buffer + used || lengthAt <= x < lengthAt + 2 || errorAt <= x < errorAt + 2 || mem[x] == was[x]
  }

  /** Nothing changes in the word at `at`. */
  predicate SameWord(was: seq<byte>, mem: seq<byte>, at: int)
    requires |was| == |mem| == MEMORY_SIZE && 0 <= at < MEMORY_SIZE - 1
  {
    mem[at] == was[at] && mem[at + 1] == was[at + 1]
  }

  /** The bytes to come have gone round the whole memory, the result words included. */
  ghost predicate AllOverwritten(mem: seq<byte>, buffer: int, body: seq<byte>)
    requires |mem| == MEMORY_SIZE && 0 <= buffer < MEMORY_SIZE && |body| >= MEMORY_SIZE
  {
    mem[buffer] == 0 && forall j: nat :: 1 <= j < MEMORY_SIZE ==> mem[At(buffer, j)] == body[j]
  }

  /** What `ReceivePacket` leaves in memory, and what it leaves unread, for the bytes `c` to come. */
  ghost predicate ReceivedAs(c: seq<byte>, rest: seq<byte>, was: seq<byte>, mem: seq<byte>,
                           expected: byte, buffer: int, lengthAt: int, errorAt: int)
    requires |was| == |mem| == MEMORY_SIZE && CanReceive(c, expected, buffer, lengthAt, errorAt)
  {
    var n := BodyLength(c);
    && ((Deliverable(c, expected) && n == 0) || OnlyResults(was, mem, buffer, Used(c, expected), lengthAt, errorAt))
    && (if TypeSeen(c) != expected then
          rest == c[6..] && HoldsWord(mem, errorAt, 2) && SameWord(was, mem, lengthAt)
        else if TooLarge(c) then
          && rest == c[n + PACKET_OVERHEAD..]
          && HoldsWord(mem, lengthAt, 0) && HoldsWord(mem, errorAt, 4)
        else if !StartsFrame(c) then
          rest == c[6..] && HoldsWord(mem, errorAt, 3) && SameWord(was, mem, lengthAt)
        else if n == 0 then
          rest == c[MEMORY_SIZE + PACKET_OVERHEAD..] && AllOverwritten(mem, buffer, c[6..])
        else
          && rest == c[n + PACKET_OVERHEAD..]
          && mem[buffer..buffer + n] == c[6..6 + n] && mem[buffer + n] == 0
          && HoldsWord(mem, lengthAt, n) && SameWord(was, mem, errorAt))
  }

  lemma {:induction false} CanReceiveFacts(c: seq<byte>, expected: byte, buffer: int, lengthAt: int, errorAt: int)
    requires CanReceive(c, expected, buffer, lengthAt, errorAt)
    ensures |c| >= 6 && 0 <= buffer && buffer + 6 <= MEMORY_SIZE
    ensures 0 <= lengthAt < MEMORY_SIZE - 1 && 0 <= errorAt < MEMORY_SIZE - 1
    ensures Deliverable(c, expected) ==> buffer + BodyLength(c) < MEMORY_SIZE
    ensures TypeSeen(c) == expected && (TooLarge(c) || StartsFrame(c)) ==>
              |c| >= LoopCount(BodyLength(c)) + PACKET_OVERHEAD
    ensures Outside(lengthAt, buffer, 6) && Outside(errorAt, buffer, 6)
  {
  }

  lemma {:induction false} FrontAddresses(buffer: int)
    requires 0 <= buffer && buffer + 6 <= MEMORY_SIZE
    ensures Previous16(At(buffer, 6)) == buffer + 5
    ensures Previous16(buffer + 5) == buffer + 4 && Previous16(buffer + 4) == buffer + 3
  {
  }

  /** The six bytes in front, as they stand in memory. */
  lemma {:induction false} FrontStored(c: seq<byte>, was: seq<byte>, buffer: int)
    requires |c| >= 6 && |was| == MEMORY_SIZE && 0 <= buffer && buffer + 6 <= MEMORY_SIZE
    ensures var mem := Stored(was, buffer, c[..6]);
            && mem[buffer + 5] == c[5] && mem[buffer + 4] == c[4] && mem[buffer + 3] == c[3]
            && (mem[buffer..buffer + 3] == FRONT <==> StartsFrame(c))
  {
    var mem := Stored(was, buffer, c[..6]);
    assert mem[buffer..buffer + 3] == c[..3];
    assert mem[buffer + 5] == c[..6][5] && mem[buffer + 4] == c[..6][4] && mem[buffer + 3] == c[..6][3];
  }

  lemma {:induction false} RefusedForType(c: seq<byte>, was: seq<byte>, expected: byte,
                                        buffer: int, lengthAt: int, errorAt: int)
    requires |was| == MEMORY_SIZE && CanReceive(c, expected, buffer, lengthAt, errorAt)
    requires TypeSeen(c) != expected
    ensures var mem := Stored(Stored(was, buffer, c[..6]), errorAt, [Low(PACKET_TYPE_ERROR), High(PACKET_TYPE_ERROR)]);
            ReceivedAs(c, c[6..], was, mem, expected, buffer, lengthAt, errorAt)
  {
    hide Low, High, BodyLength, StartsFrame;
  }

  lemma {:induction false} RefusedForDelimiter(c: seq<byte>, was: seq<byte>, expected: byte,
                                        buffer: int, lengthAt: int, errorAt: int)
    requires |was| == MEMORY_SIZE && CanReceive(c, expected, buffer, lengthAt, errorAt)
    requires TypeSeen(c) == expected && !TooLarge(c) && !StartsFrame(c)
    ensures var front := Stored(was, buffer, c[..6]);
            var mem := Stored(front, errorAt, [Low(BAD_DELIMITER_ERROR), High(BAD_DELIMITER_ERROR)]);
            ReceivedAs(c, c[6..], was, mem, expected, buffer, lengthAt, errorAt)
  {
    hide Low, High, BodyLength, StartsFrame;
  }

  lemma {:induction false} RefusedForSize(c: seq<byte>, was: seq<byte>, expected: byte,
                                        buffer: int, lengthAt: int, errorAt: int)
    requires |was| == MEMORY_SIZE && CanReceive(c, expected, buffer, lengthAt, errorAt)
    requires TypeSeen(c) == expected && TooLarge(c)
    ensures var drained := Stored(was, buffer, c[..6])[buffer := 0];
            var mem := Stored(Stored(drained, lengthAt, [Low(0), High(0)]), errorAt,
                              [Low(PACKET_SIZE_TOO_LARGE_ERROR), High(PACKET_SIZE_TOO_LARGE_ERROR)]);
            ReceivedAs(c, c[BodyLength(c) + PACKET_OVERHEAD..], was, mem, expected, buffer, lengthAt, errorAt)
  {
    hide Low, High, BodyLength, StartsFrame;
    var drained := Stored(was, buffer, c[..6])[buffer := 0];
    var known := Stored(drained, lengthAt, [Low(0), High(0)]);
    var mem := Stored(known, errorAt, [Low(PACKET_SIZE_TOO_LARGE_ERROR), High(PACKET_SIZE_TOO_LARGE_ERROR)]);
    assert HoldsWord(mem, lengthAt, 0);
    forall x | 0 <= x < MEMORY_SIZE && !(buffer <= x < buffer + Used(c, expected))
            && !(lengthAt <= x < lengthAt + 2) && !(errorAt <= x < errorAt + 2)
      ensures mem[x] == was[x]
    {
      StoredElsewhere(was, buffer, c[..6], x);
      StoredElsewhere(drained, lengthAt, [Low(0), High(0)], x);
      StoredElsewhere(known, errorAt, [Low(PACKET_SIZE_TOO_LARGE_ERROR), High(PACKET_SIZE_TOO_LARGE_ERROR)], x);
    }
  }

  lemma {:induction false} StoredElsewhere(mem: seq<byte>, at: int, bytes: seq<byte>, x: int)
    requires 0 <= at && at + |bytes| <= |mem| && 0 <= x < |mem| && !(at <= x < at + |bytes|)
    ensures Stored(mem, at, bytes)[x] == mem[x]
  {
  }

  lemma {:induction false} StoredEnd(mem: seq<byte>, at: int, bytes: seq<byte>)
    requires 0 <= at && at + |bytes| < |mem|
    ensures var r := Stored(mem, at, bytes + [0]); r[at..at + |bytes|] == bytes && r[at + |bytes|] == 0
  {
  }

  lemma {:induction false} StoredWord(mem: seq<byte>, at: int, word: int)
    requires 0 <= at < MEMORY_SIZE - 1 && |mem| == MEMORY_SIZE
    ensures HoldsWord(Stored(mem, at, [Low(word), High(word)]), at, word)
  {
    hide Low, High;
  }

  /** Two writes to the buffer and one between them to a result word leave the rest alone. */
  lemma {:induction false} OnlyStored(was: seq<byte>, front: seq<byte>, word: seq<byte>, body: seq<byte>,
                   buffer: int, used: nat, lengthAt: int, errorAt: int)
    requires |was| == MEMORY_SIZE && 0 <= buffer && |front| <= used && |body| <= used && buffer + used <= MEMORY_SIZE
    requires 0 <= lengthAt < MEMORY_SIZE - 1 && |word| == 2
    ensures OnlyResults(was, Stored(Stored(Stored(was, buffer, front), lengthAt, word), buffer, body),
                        buffer, used, lengthAt, errorAt)
  {
    hide Stored;
    var m1 := Stored(was, buffer, front);
    var m2 := Stored(m1, lengthAt, word);
    forall x | 0 <= x < MEMORY_SIZE && !(buffer <= x < buffer + used) && !(lengthAt <= x < lengthAt + 2)
      ensures Stored(m2, buffer, body)[x] == was[x]
    {
      StoredElsewhere(was, buffer, front, x);
      StoredElsewhere(m1, lengthAt, word, x);
      StoredElsewhere(m2, buffer, body, x);
    }
  }

  lemma {:induction false} BodyIsDelivered(c: seq<byte>, was: seq<byte>, expected: byte,
                                        buffer: int, lengthAt: int, errorAt: int)
    requires |was| == MEMORY_SIZE && CanReceive(c, expected, buffer, lengthAt, errorAt)
    requires Deliverable(c, expected) && BodyLength(c) >= 1
    ensures var n := BodyLength(c);
            var known := Stored(Stored(was, buffer, c[..6]), lengthAt, [Low(n), High(n)]);
            var mem := Stored(known, buffer, c[6..][..n] + [0]);
            ReceivedAs(c, c[n + PACKET_OVERHEAD..], was, mem, expected, buffer, lengthAt, errorAt)
  {
    hide Low, High, BodyLength, StartsFrame, OnlyResults, Stored;
    var n := BodyLength(c);
    var body := c[6..6 + n];
    assert c[6..][..n] == body;
    var known := Stored(Stored(was, buffer, c[..6]), lengthAt, [Low(n), High(n)]);
    var mem := Stored(known, buffer, body + [0]);
    StoredEnd(known, buffer, body);
    StoredWord(Stored(was, buffer, c[..6]), lengthAt, n);
    forall x | x in {lengthAt, lengthAt + 1} ensures mem[x] == known[x] {
      StoredElsewhere(known, buffer, body + [0], x);
    }
    forall x | x in {errorAt, errorAt + 1} ensures mem[x] == was[x] {
      StoredElsewhere(known, buffer, body + [0], x);
      StoredElsewhere(Stored(was, buffer, c[..6]), lengthAt, [Low(n), High(n)], x);
      StoredElsewhere(was, buffer, c[..6], x);
    }
    OnlyStored(was, c[..6], [Low(n), High(n)], body + [0], buffer, Used(c, expected), lengthAt, errorAt);
  }

  lemma {:induction false} Overrun(c: seq<byte>, was: seq<byte>, mem: seq<byte>, expected: byte,
                                        buffer: int, lengthAt: int, errorAt: int)
    requires |was| == |mem| == MEMORY_SIZE && CanReceive(c, expected, buffer, lengthAt, errorAt)
    requires Deliverable(c, expected) && BodyLength(c) == 0 && AllOverwritten(mem, buffer, c[6..])
    ensures ReceivedAs(c, c[MEMORY_SIZE + PACKET_OVERHEAD..], was, mem, expected, buffer, lengthAt, errorAt)
  {
  }

  /** What the client makes of a frame of the Pi's. One of the expected type is read exactly to its end
      unless its body is empty: then the byte loop takes 65536 bytes. A body of at most 4095 bytes
      arrives whole, with its length and a zero byte behind it; a longer one is passed over; of a frame
      of another type only the front is taken. */
  lemma {:induction false} ClientUnderstandsPi(
    kind: byte, payload: seq<byte>, next: seq<byte>, rest: seq<byte>, was: seq<byte>, mem: seq<byte>,
    expected: byte, buffer: int, lengthAt: int, errorAt: int)
    requires |payload| <= MAX_PAYLOAD && |was| == |mem| == MEMORY_SIZE
    requires CanReceive(Frame(kind, payload) + next, expected, buffer, lengthAt, errorAt)
    requires ReceivedAs(Frame(kind, payload) + next, rest, was, mem, expected, buffer, lengthAt, errorAt)
    ensures kind == expected ==> (rest == next <==> payload != [])
    ensures kind == expected && 1 <= |payload| <= 4095 ==>
              && buffer + |payload| < MEMORY_SIZE
              && mem[buffer..buffer + |payload|] == payload && mem[buffer + |payload|] == 0
              && HoldsWord(mem, lengthAt, |payload|) && SameWord(was, mem, errorAt)
    ensures kind == expected && |payload| > 4095 ==>
              HoldsWord(mem, lengthAt, 0) && HoldsWord(mem, errorAt, PACKET_SIZE_TOO_LARGE_ERROR)
    ensures kind != expected ==>
              && rest == payload + REAR + next
              && HoldsWord(mem, errorAt, PACKET_TYPE_ERROR) && SameWord(was, mem, lengthAt)
  {
    hide HoldsWord, SameWord, OnlyResults, Outside, Used, Frame, StartsFrame, BodyLength, TypeSeen;
    var c := Frame(kind, payload) + next;
    FrameSeen(kind, payload, next);
  }

  /** What it makes of six bytes of the expected type that are no front of a frame: a size too small for the
      rear delimiter is taken for one above 65532, and that many bytes are passed over; otherwise a bad
      delimiter is an error at once, unless the body is too large to be looked at. */
  lemma {:induction false} ClientRefusesFront(
    c: seq<byte>, rest: seq<byte>, was: seq<byte>, mem: seq<byte>,
    expected: byte, buffer: int, lengthAt: int, errorAt: int)
    requires |was| == |mem| == MEMORY_SIZE && CanReceive(c, expected, buffer, lengthAt, errorAt)
    requires ReceivedAs(c, rest, was, mem, expected, buffer, lengthAt, errorAt)
    requires c[5] == expected && (c[0] != 43 || c[1] != 43 || c[2] != 43)
    ensures var size := c[3] as int + 256 * c[4] as int;
            if 3 <= size < 0x1003 then
              && rest == c[6..] && SameWord(was, mem, lengthAt)
              && mem[errorAt] == 3 && mem[errorAt + 1] == 0
            else
              var n := if size < 3 then 0x10000 + size - 3 else size - 3;
              && |c| >= n + 9 && rest == c[n + 9..]
              && mem[lengthAt] == 0 && mem[lengthAt + 1] == 0 && mem[errorAt] == 4 && mem[errorAt + 1] == 0
  {
    hide OnlyResults, Outside, Used, BodyLength, StartsFrame, DeclaredSize, AllOverwritten;
    FrontSeen(c);
  }

  /** The client's reading of any six bytes. */
  lemma {:induction false} FrontSeen(c: seq<byte>)
    requires |c| >= 6
    ensures var size := c[3] as int + 256 * c[4] as int;
            BodyLength(c) == if size < 3 then 0x10000 + size - 3 else size - 3
    ensures StartsFrame(c) ==> c[0] == 43 && c[1] == 43 && c[2] == 43
  {
    if c[..3] == FRONT {
      assert c[..3][0] == c[0] && c[..3][1] == c[1] && c[..3][2] == c[2];
    }
  }

  /** The client's reading of the front of a frame, and where the parts of the frame lie. */
  lemma {:induction false} FrameSeen(kind: byte, payload: seq<byte>, next: seq<byte>)
    requires |payload| <= MAX_PAYLOAD
    ensures var c, n := Frame(kind, payload) + next, |payload|;
            && StartsFrame(c) && TypeSeen(c) == kind && BodyLength(c) == n
            && c[6..6 + n] == payload && c[n + PACKET_OVERHEAD..] == next
            && c[6..] == payload + REAR + next
  {
    var c := Frame(kind, payload) + next;
    assert c[3] == (|payload| + 3) % 256 && c[4] == (|payload| + 3) / 256;
    assert c[..3] == FRONT;
  }

  // ------------------------------------------------------------------- the machine

  /** The memory, the bytes sent and the bytes still to come. The FIFO is ready after at most
      `patience` more answers that it is not. */
  class Cpc {
    const memory: array<byte>
    var tx: seq<byte>
    var rx: seq<byte>
    var patience: nat

    ghost predicate Valid() {
      memory.Length == MEMORY_SIZE
    }

    constructor (rx: seq<byte>, patience: nat)
      ensures Valid() && fresh(memory) && tx == [] && this.rx == rx
    {
      memory := new byte[MEMORY_SIZE](_ => 0);
      tx, this.rx, this.patience := [], rx, patience;
    }

    /** Whether the FIFO is ready, as its status says. */
    method PollStatus() returns (ready: bool)
      modifies `patience
      ensures ready ==> patience == old(patience)
      ensures !ready ==> patience < old(patience)
    {
      ready := *;
      if patience == 0 {
        ready := true;
      }
      if !ready {
        patience := patience - 1;
      }
    }

    method FifoOutByte(v: byte) returns (ok: bool)
      modifies `tx, `patience
      ensures tx == if ok then old(tx) + [v] else old(tx)
      ensures if ok then patience == old(patience) else patience < old(patience)
    {
      ok := PollStatus();
      if ok {
        tx := tx + [v];
      }
    }

    method FifoInByte(hl: int) returns (ok: bool)
      requires Valid() && 0 <= hl < MEMORY_SIZE && rx != []
      modifies `rx, `patience, memory
      ensures if ok then rx == old(rx)[1..] && memory[..] == old(memory[..])[hl := old(rx)[0]]
              else rx == old(rx) && memory[..] == old(memory[..])
      ensures if ok then patience == old(patience) else patience < old(patience)
    {
      ok := PollStatus();
      if ok {
        memory[hl] := rx[0];
        rx := rx[1..];
      }
    }

    method SendByte(v: byte)
      modifies `tx, `patience
      ensures tx == old(tx) + [v]
    {
      var ok := FifoOutByte(v);
      while !ok
        invariant tx == if ok then old(tx) + [v] else old(tx)
        decreases !ok, patience
      {
        ok := FifoOutByte(v);
      }
    }

    method ReceiveByte(hl: int)
      requires Valid() && 0 <= hl < MEMORY_SIZE && rx != []
      modifies `rx, `patience, memory
      ensures rx == old(rx)[1..] && memory[..] == old(memory[..])[hl := old(rx)[0]]
    {
      var ok := FifoInByte(hl);
      while !ok
        invariant if ok then rx == old(rx)[1..] && memory[..] == old(memory[..])[hl := old(rx)[0]]
                  else rx == old(rx) && memory[..] == old(memory[..])
        decreases !ok, patience
      {
        ok := FifoInByte(hl);
      }
    }

    // ------------------------------------------------------------------- sending

    method SendPacket(kind: byte, at: int, length: int)
      requires Valid() && 0 <= at < MEMORY_SIZE && 0 <= length < MEMORY_SIZE
      modifies `tx, `patience
      ensures tx == old(tx) + Sent(kind, memory[..], at, length)
    {
      hide MemoryAt, Header;
      ghost var extra := if kind == TEXT_COMMAND then 1 else 0;
      SendFront(kind, length);
      ghost var front := Header(kind, length + extra);
      SendBody(at, length);
      ghost var body := MemoryAt(memory[..], at, LoopCount(length));
      if kind == TEXT_COMMAND {
        SendByte(NEW_LINE);
      }
      assert tx == old(tx) + front + Meant(kind, body);
      SendByte(MINUS);
      SendByte(MINUS);
      SendByte(MINUS);
      assert tx == old(tx) + (front + Meant(kind, body) + REAR);
    }

    method SendFront(kind: byte, length: int)
      requires 0 <= length < MEMORY_SIZE
      modifies `tx, `patience
      ensures tx == old(tx) + Header(kind, length + if kind == TEXT_COMMAND then 1 else 0)
    {
      hide Low, High, Next16;
      SendByte(PLUS);
      SendByte(PLUS);
      SendByte(PLUS);
      var hl := Next16(Next16(Next16(length)));
      if kind == TEXT_COMMAND {
        hl := Next16(hl);
      }
      SendByte(Low(hl));
      SendByte(High(hl));
      SendByte(kind);
      SizeOnTheWire(length, if kind == TEXT_COMMAND then 1 else 0);
    }

    /** The byte loop: it sends a byte, counts down, and only then looks at the counter. */
    method SendBody(at: int, length: int)
      requires Valid() && 0 <= at < MEMORY_SIZE && 0 <= length < MEMORY_SIZE
      modifies `tx, `patience
      ensures tx == old(tx) + MemoryAt(memory[..], at, LoopCount(length))
    {
      hide MemoryAt, At, Next16;
      var hl, bc, more := at, length, true;
      ghost var k := 0;
      ghost var mem := memory[..];
      AtSteps(at, 0);
      assert MemoryAt(mem, at, 0) == [];
      while more
        invariant 0 <= hl < MEMORY_SIZE && 0 <= bc < MEMORY_SIZE
        invariant hl == At(at, k)
        invariant k + (if more then LoopCount(bc) else 0) == LoopCount(length)
        invariant tx == old(tx) + MemoryAt(mem, at, k)
        decreases more, LoopCount(bc)
      {
        SendByte(memory[hl]);
        MemoryAtNext(mem, at, k);
        AtSteps(at, k);
        hl := Next16(hl);
        bc := Previous16(bc);
        k := k + 1;
        more := bc != 0;
      }
    }

    // ------------------------------------------------------------------- receiving

    /** The six bytes in front of a body, counted down in `b`. */
    method ReceiveFront(buffer: int) returns (hl: int)
      requires Valid() && 0 <= buffer && buffer + 6 <= MEMORY_SIZE && |rx| >= 6
      modifies `rx, `patience, memory
      ensures rx == old(rx)[6..] && hl == At(buffer, 6)
      ensures memory[..] == Stored(old(memory[..]), buffer, old(rx)[..6])
    {
      hide Stored, At, Next16;
      ghost var was, c := memory[..], rx;
      hl := buffer;
      var b := 6;
      AtSteps(buffer, 0);
      StoredNothing(was, buffer);
      while b != 0
        invariant 0 <= b <= 6 && hl == At(buffer, 6 - b)
        invariant rx == c[6 - b..]
        invariant memory[..] == Stored(was, buffer, c[..6 - b])
      {
        AtSteps(buffer, 6 - b);
        StoredNext(was, buffer, c[..6 - b], c[6 - b]);
        assert c[..6 - b] + [c[6 - b]] == c[..6 - b + 1];
        ReceiveByte(hl);
        hl := Next16(hl);
        b := b - 1;
      }
    }

    /** Whether the three bytes in front of `hl` are the front delimiter, read backwards. */
    method FrontDelimiter(hl: int) returns (plusses: bool)
      requires Valid() && 3 <= hl <= MEMORY_SIZE
      ensures plusses <==> memory[hl - 3..hl] == FRONT
    {
      var at, d := hl, 3;
      while d != 0
        invariant 0 <= d <= 3 && at == hl - (3 - d)
        invariant forall x :: at <= x < hl ==> memory[x] == PLUS
      {
        at := at - 1;
        if memory[at] != PLUS {
          assert memory[hl - 3..hl][at - (hl - 3)] == memory[at];
          return false;
        }
        d := d - 1;
      }
      return true;
    }

    /** The body and the rear delimiter. The delimiter's bytes land behind the body, and a zero byte
        is written over them. A length of 0 is counted down from 65536. */
    method ReceiveBody(buffer: int, length: int)
      requires Valid() && 0 <= buffer && 0 <= length && buffer + length < MEMORY_SIZE
      requires |rx| >= LoopCount(length) + 3
      modifies `rx, `patience, memory
      ensures rx == old(rx)[LoopCount(length) + 3..]
      ensures length >= 1 ==> memory[..] == Stored(old(memory[..]), buffer, old(rx)[..length] + [0])
      ensures length == 0 ==> AllOverwritten(memory[..], buffer, old(rx))
    {
      hide Stored, At, Next16;
      ghost var was, c := memory[..], rx;
      var hl, bc, more := buffer, length, true;
      ghost var k := 0;
      AtSteps(buffer, 0);
      StoredNothing(was, buffer);
      while more
        invariant 0 <= k <= LoopCount(length) && hl == At(buffer, k) && 0 <= bc < MEMORY_SIZE
        invariant k + (if more then LoopCount(bc) else 0) == LoopCount(length)
        invariant rx == c[k..]
        invariant length >= 1 ==> memory[..] == Stored(was, buffer, c[..k])
        invariant length == 0 ==> forall j: nat :: j < k ==> memory[At(buffer, j)] == c[j]
        decreases more, LoopCount(bc)
      {
        AtSteps(buffer, k);
        AtApart(buffer, k);
        if length >= 1 {
          StoredNext(was, buffer, c[..k], c[k]);
          assert c[..k] + [c[k]] == c[..k + 1];
        }
        ReceiveByte(hl);
        hl := Next16(hl);
        bc := Previous16(bc);
        k := k + 1;
        more := bc != 0;
      }
      AtSteps(buffer, k);
      AtApart(buffer, k);
      if length >= 1 {
        StoredNext(was, buffer, c[..length], 0);
      }
      ReceiveTerminator(hl);
    }

    /** Three bytes to the same place, and zero over the last. */
    method ReceiveTerminator(hl: int)
      requires Valid() && 0 <= hl < MEMORY_SIZE && |rx| >= 3
      modifies `rx, `patience, memory
      ensures rx == old(rx)[3..]
      ensures memory[..] == old(memory[..])[hl := 0]
    {
      var b := 3;
      while b != 0
        invariant 0 <= b <= 3 && rx == old(rx)[3 - b..]
        invariant memory[..] == old(memory[..])[hl := memory[hl]]
      {
        ReceiveByte(hl);
        b := b - 1;
      }
      memory[hl] := 0;
    }

    /** A body too large for the buffer: every byte goes to its first place. */
    method DrainPacketFromQueue(buffer: int, length: int)
      requires Valid() && 0 <= buffer < MEMORY_SIZE && 1 <= length < MEMORY_SIZE && |rx| >= length + 3
      modifies `rx, `patience, memory
      ensures rx == old(rx)[length + 3..]
      ensures memory[..] == old(memory[..])[buffer := 0]
    {
      var bc, more := length, true;
      while more
        invariant 0 <= bc <= length && (more <==> bc != 0)
        invariant rx == old(rx)[length - bc..]
        invariant memory[..] == old(memory[..])[buffer := memory[buffer]]
        decreases bc
      {
        ReceiveByte(buffer);
        bc := Previous16(bc);
        more := bc != 0;
      }
      ReceiveTerminator(buffer);
    }

    /** The word at `at`, low byte first: what `SetBufferLengthParam` and `SetError` write. */
    method SetWord(at: int, word: int)
      requires Valid() && 0 <= at < MEMORY_SIZE - 1
      modifies memory
      ensures memory[..] == Stored(old(memory[..]), at, [Low(word), High(word)])
    {
      hide Low, High;
      memory[at] := Low(word);
      memory[at + 1] := High(word);
    }

    method ReceivePacket(expected: byte, buffer: int, lengthAt: int, errorAt: int)
      requires Valid() && CanReceive(rx, expected, buffer, lengthAt, errorAt)
      modifies `rx, `patience, memory
      ensures ReceivedAs(old(rx), rx, old(memory[..]), memory[..], expected, buffer, lengthAt, errorAt)
    {
      hide Low, High, Previous16, Stored, CanReceive, ReceivedAs, At;
      ghost var c, was := rx, memory[..];
      CanReceiveFacts(c, expected, buffer, lengthAt, errorAt);
      var hl := ReceiveFront(buffer);
      FrontAddresses(buffer);
      FrontStored(c, was, buffer);
      hl := Previous16(hl);
      if memory[hl] != expected {
        SetWord(errorAt, PACKET_TYPE_ERROR);
        RefusedForType(c, was, expected, buffer, lengthAt, errorAt);
        return;
      }
      hl := Previous16(hl);
      var b := memory[hl];
      hl := Previous16(hl);
      var bc := Previous16(Previous16(Previous16(memory[hl] as int + 256 * b as int)));
      if bc / 256 >= BUFFER_MAX_SIZE_HI {
        DrainPacketFromQueue(buffer, bc);
        SetWord(lengthAt, 0);
        SetWord(errorAt, PACKET_SIZE_TOO_LARGE_ERROR);
        RefusedForSize(c, was, expected, buffer, lengthAt, errorAt);
        return;
      }
      var plusses := FrontDelimiter(hl);
      if !plusses {
        SetWord(errorAt, BAD_DELIMITER_ERROR);
        RefusedForDelimiter(c, was, expected, buffer, lengthAt, errorAt);
        return;
      }
      SetWord(lengthAt, bc);
      ReceiveBody(buffer, bc);
      if bc >= 1 {
        BodyIsDelivered(c, was, expected, buffer, lengthAt, errorAt);
      } else {
        Overrun(c, was, memory[..], expected, buffer, lengthAt, errorAt);
      }
    }
  }
}
