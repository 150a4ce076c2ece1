/** `packet.c` over the ring: finding, writing and reading frames. Each method is specified by the
    pure functions of `FrameCodec` on the bytes a reader can see. */
module Packet {
  import opened Bytes
  import opened RingQueue
  import opened FrameCodec

  // ------------------------------------------------------------------ reading

  method SkipToNextPacket(q: Queue) returns (found: bool)
    requires q.Valid()
    modifies q`readNext, q`contents
    ensures q.Valid()
    ensures q.contents == old(q.contents)[FindStart(old(q.contents))..]
    ensures q.readNext == Around(old(q.readNext), FindStart(old(q.contents)))
    ensures found <==> StartsFrame(q.contents)
  {
    hide Queue.Valid;
    q.Facts();
    found := false;
    var ok, three := q.NextThreeBytes();
    if ok {
      ghost var c, k := q.contents, 0;
      while three != FRONT
        invariant q.Valid() && k + 3 <= |c| && q.contents == c[k..] && three == c[k..][..3]
        invariant FindStart(c) == k + FindStart(c[k..])
        invariant q.readNext == Around(old(q.readNext), k)
        decreases |c| - k
      {
        assert c[k..][1..] == c[k + 1..];
        q.IncrementRead(1);
        k := k + 1;
        ok, three := q.NextThreeBytes();
        if !ok {
          return false;
        }
      }
      found := true;
    }
  }

  method SkipTerminatorOfPacket(q: Queue)
    requires q.Valid()
    modifies q`readNext, q`contents
    ensures q.Valid()
    ensures q.contents == SkipTerminator(old(q.contents))
  {
    var ok, three := q.NextThreeBytes();
    if ok {
      if three == REAR {
        q.IncrementRead(3);
      }
    }
  }

  method PacketType(q: Queue) returns (kind: byte)
    requires q.Valid()
    ensures |q.contents| > 5 ==> kind == q.contents[5]
  {
    kind := q.data[(q.readNext + 5) % QUEUE_SIZE];
  }

  method PacketSize(q: Queue) returns (n: int)
    requires q.Valid()
    ensures |q.contents| >= 6 ==> n == DeclaredSize(q.contents)
  {
    var byte1: int := q.data[(q.readNext + 3) % QUEUE_SIZE];
    var byte2: int := q.data[(q.readNext + 4) % QUEUE_SIZE];
    n := byte1 + byte2 * 256;
  }

  method PacketHasTerminator(q: Queue, size: nat) returns (found: bool)
    requires q.Valid()
    ensures size + 6 <= |q.contents| ==> (found <==> q.contents[size + 3..size + 6] == REAR)
  {
    var byte1 := q.ReadAheadByte(3 + size);
    var byte2 := q.ReadAheadByte(3 + size + 1);
    var byte3 := q.ReadAheadByte(3 + size + 2);
    found := byte1 == MINUS && byte2 == MINUS && byte3 == MINUS;
    if size + 6 <= |q.contents| {
      ghost var rear := q.contents[size + 3..size + 6];
      assert rear == [byte1, byte2, byte3];
    }
  }

  method IsCompletePacketAvailable(q: Queue) returns (found: bool)
    requires q.Valid()
    modifies q`readNext, q`contents
    ensures q.Valid()
    ensures q.contents == AfterCheck(old(q.contents))
    ensures found <==> Accepts(old(q.contents))
    ensures found ==> q.readNext == Around(old(q.readNext), FindStart(old(q.contents)))
  {
    hide Queue.Valid;
    found := false;
    var started := SkipToNextPacket(q);
    if started {
      var available := q.NumberBytesToRead();
      if available >= 6 {
        var size := PacketSize(q);
        if available >= size + 6 {
          var kind := PacketType(q);
          var terminated := PacketHasTerminator(q, size);
          if kind == 0 || kind >= MAX_PACKET_TYPE {
            q.IncrementRead(size + 6);
          } else if !terminated {
            q.IncrementRead(size + 6);
          } else {
            found := true;
          }
        }
      }
    }
  }

  function AtLeastZero(n: int): nat {
    if n > 0 then n else 0
  }

  /** Copies the first `n` payload bytes of the frame at the head into `buffer` when the declared
      payload has that many, and stops right behind them; otherwise nothing moves. A negative `n`
      copies nothing, but the front of the frame is still consumed. */
  method GetDataFromPacket(q: Queue, buffer: array<byte>, n: int) returns (ok: bool)
    requires q.Valid() && buffer != q.data && n <= buffer.Length
    requires Judge(q.contents).Accept?
    modifies q`readNext, q`contents, buffer
    ensures q.Valid()
    ensures ok <==> DeclaredSize(old(q.contents)) - 3 >= n
    ensures ok ==> 6 + AtLeastZero(n) <= |old(q.contents)|
    ensures ok ==> q.contents == old(q.contents)[6 + AtLeastZero(n)..]
    ensures ok ==> buffer[..AtLeastZero(n)] == old(q.contents)[6..6 + AtLeastZero(n)]
    ensures !ok ==> q.contents == old(q.contents)
  {
    hide Queue.Valid;
    ok := false;
    var size := PacketSize(q);
    if size - 3 >= n {
      ghost var c := q.contents;
      AcceptedIsFrame(c);
      q.IncrementRead(6);
      var index := 0;
      while index < n
        invariant 0 <= index && (index <= n || index == 0)
        invariant q.Valid() && q.contents == c[6 + index..]
        invariant buffer[..index] == c[6..6 + index]
      {
        var b := q.CurrentReadByte();
        buffer[index] := b;
        q.IncrementRead(1);
        index := index + 1;
      }
      ok := true;
    }
  }

  // ------------------------------------------------------------------ writing

  /** The ring content after a whole frame is written behind `c`: nothing changes when the space
      test fails, and a frame that fills the ring exactly loses it. */
  function PutFrame(c: seq<byte>, kind: byte, payload: seq<byte>): (r: seq<byte>)
    requires |c| < QUEUE_SIZE
    ensures |r| < QUEUE_SIZE
  {
    if SpaceFor(|c|, |payload| + PACKET_OVERHEAD) then Put(c, Frame(kind, payload)) else c
  }

  method WriteDataToPacket(q: Queue, payload: seq<byte>, kind: byte) returns (ok: bool)
    requires q.Valid()
    modifies q`storeNext, q`contents, q.data
    ensures q.Valid()
    ensures ok <==> SpaceFor(|old(q.contents)|, |payload| + PACKET_OVERHEAD)
    ensures q.contents == PutFrame(old(q.contents), kind, payload)
  {
    ok := StartBuildDataPacket(q, |payload|, kind);
    if ok {
      AddDataToPacket(q, payload);
      FinishBuildDataPacketAndSend(q);
      ghost var c := old(q.contents);
      PutPieces(c, Header(kind, |payload|), payload);
      PutPieces(c, Header(kind, |payload|) + payload, REAR);
    }
  }

  /** The front of a frame that will carry `payloadSize` bytes, if the whole frame has room. */
  method StartBuildDataPacket(q: Queue, payloadSize: nat, kind: byte) returns (ok: bool)
    requires q.Valid()
    modifies q`storeNext, q`contents, q.data
    ensures q.Valid()
    ensures ok <==> SpaceFor(|old(q.contents)|, payloadSize + PACKET_OVERHEAD)
    ensures q.contents
         == if ok then Put(old(q.contents), Header(kind, payloadSize)) else old(q.contents)
  {
    ok := q.IsSpaceAvailable(payloadSize + PACKET_OVERHEAD);
    if ok {
      var size := payloadSize + 3;
      WriteFront(q, size % 256, size / 256 % 256, kind);
      assert [size % 256] + [size / 256 % 256] + [kind] == [size % 256, size / 256 % 256, kind];
    }
  }

  /** The leading delimiter and the three header bytes, once there is room for more than these. */
  method WriteFront(q: Queue, lower: byte, upper: byte, kind: byte)
    requires q.Valid() && |q.contents| + 6 < QUEUE_SIZE
    modifies q`storeNext, q`contents, q.data
    ensures q.Valid()
    ensures q.contents == old(q.contents) + (FRONT + ([lower] + [upper] + [kind]))
  {
    hide Queue.Valid;
    ghost var c := q.contents;
    var _ := q.WriteData(FRONT);
    var _ := q.WriteData([lower]);
    var _ := q.WriteData([upper]);
    var _ := q.WriteData([kind]);
    assert c + FRONT + [lower] + [upper] + [kind] == c + (FRONT + ([lower] + [upper] + [kind]));
  }

  method AddDataToPacket(q: Queue, bs: seq<byte>)
    requires q.Valid()
    modifies q`storeNext, q`contents, q.data
    ensures q.Valid() && q.contents == Put(old(q.contents), bs)
  {
    var _ := q.WriteData(bs);
  }

  method AddBytesToPacket(q: Queue, bs: seq<byte>)
    requires q.Valid() && |q.contents| + |bs| < QUEUE_SIZE
    modifies q`storeNext, q`contents, q.data
    ensures q.Valid() && q.contents == old(q.contents) + bs
  {
    hide Queue.Valid;
    for i := 0 to |bs|
      invariant q.Valid() && q.contents == old(q.contents) + bs[..i]
    {
      var _ := q.WriteByte(bs[i]);
    }
  }

  method FinishBuildDataPacketAndSend(q: Queue)
    requires q.Valid()
    modifies q`storeNext, q`contents, q.data
    ensures q.Valid() && q.contents == Put(old(q.contents), REAR)
  {
    var _ := q.WriteData(REAR);
  }

  // ---------------------------------------------- the builder and the one-shot writer

  /** What the builder's successive writes leave behind the unread bytes `c`. */
  function PutAll(c: seq<byte>, pieces: seq<seq<byte>>): (r: seq<byte>)
    requires |c| < QUEUE_SIZE
    ensures |r| < QUEUE_SIZE
    decreases |pieces|
  {
    if pieces == [] then c else PutAll(Put(c, pieces[0]), pieces[1..])
  }

  /** With room for all of them, no piece is dropped. */
  lemma {:induction false} PutAllKeepsEveryPiece(c: seq<byte>, pieces: seq<seq<byte>>)
    requires |c| + |Flatten(pieces)| < QUEUE_SIZE
    ensures PutAll(c, pieces) == c + Flatten(pieces)
    decreases |pieces|
  {
    if pieces != [] {
      PutAllKeepsEveryPiece(c + pieces[0], pieces[1..]);
      assert c + pieces[0] + Flatten(pieces[1..]) == c + Flatten(pieces);
    }
  }

  /** Starting, adding any split of the payload and finishing leaves the ring as the one-shot
      writer does, exact fill included; and before the terminator every piece is in the ring. */
  lemma {:induction false} BuilderEqualsWriter(c: seq<byte>, kind: byte, pieces: seq<seq<byte>>)
    requires |c| < QUEUE_SIZE && SpaceFor(|c|, |Flatten(pieces)| + PACKET_OVERHEAD)
    ensures var started := Put(c, Header(kind, |Flatten(pieces)|));
            && PutAll(started, pieces) == c + Header(kind, |Flatten(pieces)|) + Flatten(pieces)
            && Put(PutAll(started, pieces), REAR) == PutFrame(c, kind, Flatten(pieces))
  {
    var payload := Flatten(pieces);
    var started := Put(c, Header(kind, |payload|));
    PutAllKeepsEveryPiece(started, pieces);
    PutPieces(c, Header(kind, |payload|), payload);
    PutPieces(c, Header(kind, |payload|) + payload, REAR);
  }

  /** When every byte still fits with room to spare, the frame is written whole. */
  lemma {:induction false} PutFrameWithRoom(c: seq<byte>, kind: byte, payload: seq<byte>)
    requires |c| + |payload| + PACKET_OVERHEAD < QUEUE_SIZE
    ensures PutFrame(c, kind, payload) == c + Frame(kind, payload)
  {
  }

  /** The builder as `write_out_help_text_array` runs it over an array of strings. */
  method WriteOutHelpTextArray(q: Queue, text: seq<seq<byte>>) returns (done: bool)
    requires q.Valid()
    modifies q`storeNext, q`contents, q.data
    ensures q.Valid()
    ensures done <==> SpaceFor(|old(q.contents)|, |Flatten(text)| + PACKET_OVERHEAD)
    ensures q.contents == PutFrame(old(q.contents), TEXT_COMMAND, Flatten(text))
  {
    done := false;
    var size := SizeOfStringArray(text);
    var started := StartBuildDataPacket(q, size, TEXT_COMMAND);
    if started {
      ghost var c := q.contents;
      for index := 0 to |text|
        invariant q.Valid()
        invariant PutAll(q.contents, text[index..]) == PutAll(c, text)
      {
        assert text[index..][1..] == text[index + 1..];
        AddDataToPacket(q, text[index]);
      }
      FinishBuildDataPacketAndSend(q);
      BuilderEqualsWriter(old(q.contents), TEXT_COMMAND, text);
      done := true;
    }
  }

  method SizeOfStringArray(text: seq<seq<byte>>) returns (size: nat)
    ensures size == |Flatten(text)|
  {
    size := 0;
    assert text[..0] == [];
    for index := 0 to |text|
      invariant size == |Flatten(text[..index])|
    {
      assert text[..index + 1] == text[..index] + [text[index]];
      FlattenAppend(text[..index], [text[index]]);
      assert Flatten([text[index]]) == text[index];
      size := size + |text[index]|;
    }
    assert text[..|text|] == text;
  }
}
