/** The wire format `+++ size_lo size_hi type payload ---` of `packet.c`, on byte sequences:
    one frame as bytes, the check the main loop makes on whatever has arrived so far, and the
    frames a whole stream stands for. */
module FrameCodec {
  import opened Bytes

  const PLUS: byte := 43
  const MINUS: byte := 45

  const FRONT: seq<byte> := [PLUS, PLUS, PLUS]
  const REAR: seq<byte> := [MINUS, MINUS, MINUS]

  const TEXT_COMMAND: byte := 1
  const BINARY_COMMAND: byte := 2
  const BINARY_DATA: byte := 3
  const GRAPHIC_DIRECTIVES: byte := 4
  const MAX_PACKET_TYPE: byte := 5

  /** Bytes of a frame that are not payload. */
  const PACKET_OVERHEAD: nat := 9
  /** The longest payload whose size the 16-bit field can hold. */
  const MAX_PAYLOAD: nat := 65532

  // ---------------------------------------------------------------- one frame

  /** The frame carrying `payload`; the size field keeps the low 16 bits of the size. */
  function Frame(kind: byte, payload: seq<byte>): (f: seq<byte>)
    ensures |f| == |payload| + PACKET_OVERHEAD
  {
    Header(kind, |payload|) + payload + REAR
  }

  function Header(kind: byte, payloadSize: nat): (h: seq<byte>)
    ensures |h| == 6
  {
    var size := payloadSize + 3;
    FRONT + [size % 256, size / 256 % 256, kind]
  }

  function DeclaredSize(c: seq<byte>): (n: nat)
    requires |c| >= 6
    ensures n < 65536
  {
    c[3] as int + 256 * (c[4] as int)
  }

  predicate KnownType(kind: byte) {
    0 < kind < MAX_PACKET_TYPE
  }

  predicate StartsFrame(c: seq<byte>) {
    |c| >= 3 && c[..3] == FRONT
  }

  /** A well-formed frame, read off the bytes alone. */
  predicate IsFrame(f: seq<byte>) {
    && |f| >= PACKET_OVERHEAD
    && StartsFrame(f)
    && |f| == DeclaredSize(f) + 6
    && KnownType(f[5])
    && f[|f| - 3..] == REAR
  }

  function Payload(f: seq<byte>): seq<byte>
    requires |f| >= PACKET_OVERHEAD
  {
    f[6..|f| - 3]
  }

  lemma {:induction false} FrameIsFrame(kind: byte, payload: seq<byte>)
    requires KnownType(kind) && |payload| <= MAX_PAYLOAD
    ensures IsFrame(Frame(kind, payload))
    ensures Payload(Frame(kind, payload)) == payload
  {
    var f := Frame(kind, payload);
    assert f[..3] == FRONT;
    assert f[|f| - 3..] == REAR;
  }

  /** The bytes of a frame, one by one: three `+`, the size with its low byte first, the type, the
      payload, three `-`. */
  lemma {:induction false} FrameBytes(kind: byte, payload: seq<byte>)
    requires |payload| <= 65532
    ensures var f, n := Frame(kind, payload), |payload|;
            && |f| == n + 9
            && f[0] == 43 && f[1] == 43 && f[2] == 43
            && f[3] as int == (n + 3) % 256 && f[4] as int == (n + 3) / 256 && f[5] == kind
            && f[6..6 + n] == payload
            && f[6 + n] == 45 && f[7 + n] == 45 && f[8 + n] == 45
  {
  }

  /** A frame read off the bytes alone. */
  lemma {:induction false} IsFrameBytes(f: seq<byte>)
    ensures IsFrame(f) <==>
              && |f| >= 9 && f[3] as int + 256 * f[4] as int + 6 == |f| && 1 <= f[5] <= 4
              && f[0] == 43 && f[1] == 43 && f[2] == 43
              && f[|f| - 3] == 45 && f[|f| - 2] == 45 && f[|f| - 1] == 45
  {
    if |f| >= 9 {
      assert f[..3] == [f[0], f[1], f[2]];
      assert f[|f| - 3..] == [f[|f| - 3], f[|f| - 2], f[|f| - 1]];
    }
  }

  /** The well-formed frames are exactly the ones the writer produces. */
  lemma {:induction false} FrameIsItsParts(f: seq<byte>)
    requires IsFrame(f)
    ensures |Payload(f)| <= MAX_PAYLOAD
    ensures f == Frame(f[5], Payload(f))
  {
    var size := DeclaredSize(f);
    assert size % 256 == f[3] && size / 256 == f[4];
    assert f == f[..3] + [f[3], f[4], f[5]] + Payload(f) + f[|f| - 3..];
  }

  // ---------------------------------------------------------------- one check

  /** How many bytes `queue_skip_to_next_packet` drops: up to the first `+++`, or all but the
      last two bytes when there is none. */
  function FindStart(c: seq<byte>): (i: nat)
    ensures i <= |c|
  {
    if |c| < 3 || StartsFrame(c) then 0 else 1 + FindStart(c[1..])
  }

  datatype Verdict =
    | Wait                // not enough bytes yet
    | Discard(n: nat)     // a frame with a bad type or no terminator: drop n bytes
    | Accept(n: nat)      // a complete frame of n bytes is at the head

  /** What the check decides once `FindStart` bytes are gone. The tests come in the order of the
      source: length, type, terminator. */
  function Judge(c: seq<byte>): (v: Verdict)
    ensures !v.Wait? ==> 6 <= v.n <= |c|
  {
    if !StartsFrame(c) || |c| < 6 then Wait
    else
      var n := DeclaredSize(c) + 6;
      if |c| < n then Wait
      else if !KnownType(c[5]) then Discard(n)
      else if c[n - 3..n] != REAR then Discard(n)
      else Accept(n)
  }

  /** The content after one check: garbage and a bad frame go, an accepted frame stays. */
  function AfterCheck(c: seq<byte>): (r: seq<byte>)
    ensures |r| <= |c|
  {
    var d := c[FindStart(c)..];
    var v := Judge(d);
    if v.Discard? then d[v.n..] else d
  }

  predicate Accepts(c: seq<byte>) {
    Judge(c[FindStart(c)..]).Accept?
  }

  lemma {:induction false} AcceptedLength(c: seq<byte>)
    requires Judge(c).Accept?
    ensures Judge(c).n == DeclaredSize(c) + 6 <= |c| && DeclaredSize(c) >= 3
  {
    AcceptedIsFrame(c);
  }

  /** After a check that accepts, the accepted frame is at the head. */
  lemma {:induction false} AcceptedHead(c: seq<byte>)
    requires Accepts(c)
    ensures Judge(AfterCheck(c)).Accept?
  {
  }

  lemma {:induction false} FindStartIsFirst(c: seq<byte>)
    ensures forall j :: 0 <= j < FindStart(c) ==> !StartsFrame(c[j..])
    ensures StartsFrame(c[FindStart(c)..]) || |c[FindStart(c)..]| < 3
  {
    if |c| >= 3 && !StartsFrame(c) {
      FindStartIsFirst(c[1..]);
      forall j | 0 <= j < FindStart(c) ensures !StartsFrame(c[j..]) {
        if j > 0 { assert c[j..] == c[1..][j - 1..]; }
      }
      assert c[FindStart(c)..] == c[1..][FindStart(c[1..])..];
    }
  }

  /** Dropping bytes that start no frame, even in a longer stream, changes nothing. */
  lemma {:induction false} FindStartSkips(c: seq<byte>, i: nat)
    requires i + 2 <= |c| || i == 0
    requires forall j :: 0 <= j < i ==> !StartsFrame(c[j..])
    ensures FindStart(c) == i + FindStart(c[i..])
  {
    if i > 0 {
      assert c[0..] == c;
      forall j | 0 <= j < i - 1 ensures !StartsFrame(c[1..][j..]) {
        assert c[1..][j..] == c[j + 1..];
      }
      FindStartSkips(c[1..], i - 1);
      assert c[1..][i - 1..] == c[i..];
    } else {
      assert c[0..] == c;
    }
  }

  /** Every accepted frame is well formed; in particular the declared sizes 0, 1 and 2 are never
      accepted, because the header, type and terminator tests cannot then all succeed. */
  lemma {:induction false} AcceptedIsFrame(c: seq<byte>)
    requires Judge(c).Accept?
    ensures IsFrame(c[..Judge(c).n]) && DeclaredSize(c) >= 3
  {
    var n := Judge(c).n;
    var rear := c[n - 3..n];
    assert c[n - 3] == rear[0] && c[n - 2] == rear[1] && c[n - 1] == rear[2];
    var f := c[..n];
    assert f[..3] == c[..3];
    assert f[n - 3..] == c[n - 3..n];
  }

  /** A packet that is there as a whole but is no frame, for its type or its end, is dropped as a whole:
      as many bytes as it declares, and nothing of what follows. */
  lemma {:induction false} BadPacketIsDropped(c: seq<byte>)
    requires StartsFrame(c) && |c| >= 6
    requires var n := c[3] as int + 256 * c[4] as int + 6; |c| >= n && !IsFrame(c[..n])
    ensures var n := c[3] as int + 256 * c[4] as int + 6;
            && !Accepts(c) && AfterCheck(c) == c[n..]
            && Frames(c) == Frames(c[n..])
  {
    var n := c[3] as int + 256 * c[4] as int + 6;
    assert c[0..] == c;
    if Judge(c).Accept? {
      AcceptedIsFrame(c);
    }
  }

  /** A packet of which a part is missing is left alone, good or bad. */
  lemma {:induction false} PartialPacketWaits(c: seq<byte>)
    requires StartsFrame(c) && (|c| < 6 || |c| < c[3] as int + 256 * c[4] as int + 6)
    ensures !Accepts(c) && AfterCheck(c) == c && Frames(c) == []
  {
    assert c[0..] == c;
  }

  /** A well-formed frame at the head is accepted, whatever follows it. */
  lemma {:induction false} FrameIsAccepted(f: seq<byte>, rest: seq<byte>)
    requires IsFrame(f)
    ensures FindStart(f + rest) == 0
    ensures Judge(f + rest) == Accept(|f|)
    ensures Accepts(f + rest) && AfterCheck(f + rest) == f + rest
  {
    var c := f + rest;
    assert c[..3] == f[..3];
    assert c[|f| - 3..|f|] == f[|f| - 3..];
    assert c[0..] == c;
  }

  /** A frame of which only a part has arrived makes the check wait and drop nothing. */
  lemma {:induction false} PartialFrameWaits(f: seq<byte>, c: seq<byte>)
    requires IsFrame(f) && |c| < |f| && c == f[..|c|]
    ensures FindStart(c) == 0 && Judge(c) == Wait
    ensures !Accepts(c) && AfterCheck(c) == c
  {
    if |c| >= 3 { assert c[..3] == f[..3]; }
    assert c[0..] == c;
  }

  // ------------------------------------------------------- the stream as frames

  /** The frames a whole stream stands for: what repeated checks accept when the consumer takes
      each accepted frame off the stream. */
  function Frames(s: seq<byte>): seq<seq<byte>>
    decreases |s|, 1
  {
    FramesFrom(s[FindStart(s)..])
  }

  function FramesFrom(d: seq<byte>): seq<seq<byte>>
    decreases |d|, 0
  {
    match Judge(d)
    case Wait => []
    case Discard(n) => Frames(d[n..])
    case Accept(n) => [d[..n]] + Frames(d[n..])
  }

  /** A verdict other than `Wait` is final: more bytes do not change it. */
  lemma {:induction false} JudgeIsStable(c: seq<byte>, x: seq<byte>)
    requires !Judge(c).Wait?
    ensures Judge(c + x) == Judge(c)
  {
    var n := DeclaredSize(c) + 6;
    assert (c + x)[..3] == c[..3];
    assert (c + x)[n - 3..n] == c[n - 3..n];
  }

  /** Bytes a check drops as garbage are garbage in every extension of the stream. */
  lemma {:induction false} SkipIsStable(c: seq<byte>, x: seq<byte>)
    ensures Frames(c + x) == Frames(c[FindStart(c)..] + x)
  {
    var i := FindStart(c);
    GarbageLeavesTwo(c);
    GarbageStaysGarbage(c, x);
    FindStartSkips(c + x, i);
    assert (c + x)[i..] == c[i..] + x;
    FramesAfterSkip(c + x, i);
  }

  lemma {:induction false} GarbageStaysGarbage(c: seq<byte>, x: seq<byte>)
    ensures forall j :: 0 <= j < FindStart(c) ==> !StartsFrame((c + x)[j..])
  {
    FindStartIsFirst(c);
    GarbageLeavesTwo(c);
    forall j | 0 <= j < FindStart(c) ensures !StartsFrame((c + x)[j..]) {
      assert !StartsFrame(c[j..]);
      assert (c + x)[j..][..3] == c[j..][..3];
    }
  }

  lemma {:induction false} FramesAfterSkip(s: seq<byte>, i: nat)
    requires i <= |s| && FindStart(s) == i + FindStart(s[i..])
    ensures Frames(s) == Frames(s[i..])
  {
    assert s[FindStart(s)..] == s[i..][FindStart(s[i..])..];
  }

  lemma {:induction false} GarbageLeavesTwo(c: seq<byte>)
    ensures FindStart(c) > 0 ==> FindStart(c) + 2 <= |c|
  {
    if |c| >= 3 && !StartsFrame(c) {
      GarbageLeavesTwo(c[1..]);
    }
  }

  datatype Decoder = Decoder(buffer: seq<byte>, frames: seq<seq<byte>>)

  datatype LinkEvent = Arrive(bytes: seq<byte>) | Check

  /** Either bytes arrive, or the buffer is checked and an accepted frame is taken off it. */
  function Decode(d: Decoder, e: LinkEvent): Decoder {
    match e
    case Arrive(bytes) => d.(buffer := d.buffer + bytes)
    case Check =>
      var c := AfterCheck(d.buffer);
      if Accepts(d.buffer) then
        var n := Judge(c).n;
        Decoder(c[n..], d.frames + [c[..n]])
      else d.(buffer := c)
  }

  function DecodeAll(d: Decoder, events: seq<LinkEvent>): Decoder
    decreases |events|
  {
    if events == [] then d else DecodeAll(Decode(d, events[0]), events[1..])
  }

  /** The bytes one event delivers. */
  function Arrived(e: LinkEvent): seq<byte> {
    if e.Arrive? then e.bytes else []
  }

  /** The byte stream an event sequence delivers, with its cuts and checks forgotten. */
  function Arrivals(events: seq<LinkEvent>): seq<byte> {
    if events == [] then []
    else Arrived(events[0]) + Arrivals(events[1..])
  }

  /** What the decoder has accepted, and will accept once `x` has arrived and been checked. */
  function Promise(d: Decoder, x: seq<byte>): seq<seq<byte>> {
    d.frames + Frames(d.buffer + x)
  }

  lemma {:induction false} CheckKeepsPromise(d: Decoder, x: seq<byte>)
    ensures Promise(Decode(d, Check), x) == Promise(d, x)
  {
    var c := d.buffer[FindStart(d.buffer)..];
    SkipIsStable(d.buffer, x);
    if !Judge(c).Wait? {
      var n := Judge(c).n;
      JudgeIsStable(c, x);
      assert StartsFrame(c + x) by { assert (c + x)[..3] == c[..3]; }
      assert (c + x)[0..] == c + x;
      assert (c + x)[n..] == c[n..] + x;
      assert (c + x)[..n] == c[..n];
    }
  }

  lemma {:induction false} EventKeepsPromise(d: Decoder, e: LinkEvent, x: seq<byte>)
    ensures Promise(Decode(d, e), x) == Promise(d, Arrived(e) + x)
  {
    match e
    case Arrive(bytes) => assert d.buffer + bytes + x == d.buffer + (bytes + x);
    case Check =>
      CheckKeepsPromise(d, x);
      assert [] + x == x;
  }

  /** However the stream is cut into arrivals and whenever the checks happen, the promise of the
      decoder is the promise it started with. */
  lemma {:induction false} DecoderKeepsPromise(d: Decoder, events: seq<LinkEvent>, x: seq<byte>)
    ensures Promise(DecodeAll(d, events), x) == Promise(d, Arrivals(events) + x)
    decreases |events|
  {
    if events == [] {
      assert [] + x == x;
    } else {
      var e, rest := events[0], Arrivals(events[1..]);
      DecoderKeepsPromise(Decode(d, e), events[1..], x);
      EventKeepsPromise(d, e, rest + x);
      assert Arrived(e) + (rest + x) == Arrivals(events) + x;
    }
  }

  const START: Decoder := Decoder([], [])

  /** No check can make further progress on this buffer. */
  predicate Settled(c: seq<byte>) {
    FindStart(c) == 0 && Judge(c).Wait?
  }

  lemma {:induction false} SettledHoldsNothing(d: Decoder)
    requires Settled(d.buffer)
    ensures Frames(d.buffer) == [] && Decode(d, Check) == d
  {
    assert d.buffer[0..] == d.buffer;
  }

  /** The accepted frames are always an initial part of the stream's frames, and all of them as
      soon as a check finds nothing more to do; the cuts and the moments of checking are gone
      from the statement. */
  lemma {:induction false} ChunkIndependence(events: seq<LinkEvent>)
    ensures DecodeAll(START, events).frames <= Frames(Arrivals(events))
    ensures Settled(DecodeAll(START, events).buffer) ==>
              DecodeAll(START, events).frames == Frames(Arrivals(events))
  {
    var d := DecodeAll(START, events);
    DecoderKeepsPromise(START, events, []);
    assert [] + (Arrivals(events) + []) == Arrivals(events);
    assert d.buffer + [] == d.buffer;
    assert Frames(Arrivals(events)) == d.frames + Frames(d.buffer);
    if Settled(d.buffer) { SettledHoldsNothing(d); }
  }

  /** Two receivers of the same stream agree on its frames. */
  lemma {:induction false} SameStreamSameFrames(one: seq<LinkEvent>, other: seq<LinkEvent>)
    requires Arrivals(one) == Arrivals(other)
    requires Settled(DecodeAll(START, one).buffer) && Settled(DecodeAll(START, other).buffer)
    ensures DecodeAll(START, one).frames == DecodeAll(START, other).frames
  {
    ChunkIndependence(one);
    ChunkIndependence(other);
  }

  /** Checks make progress: each one either settles the buffer or shortens it, so as many checks
      as there are bytes always settle it. */
  lemma {:induction false} ChecksSettle(d: Decoder, checks: seq<LinkEvent>)
    requires forall i :: 0 <= i < |checks| ==> checks[i].Check?
    requires |checks| > |d.buffer|
    ensures Settled(DecodeAll(d, checks).buffer)
    decreases |checks|
  {
    var next := Decode(d, Check);
    if |next.buffer| < |d.buffer| {
      ChecksSettle(next, checks[1..]);
    } else {
      CheckOfSettled(d);
      SettledStays(d, checks);
    }
  }

  lemma {:induction false} CheckOfSettled(d: Decoder)
    requires |Decode(d, Check).buffer| == |d.buffer|
    ensures Settled(d.buffer)
  {
    assert d.buffer[0..] == d.buffer;
  }

  lemma {:induction false} SettledStays(d: Decoder, checks: seq<LinkEvent>)
    requires forall i :: 0 <= i < |checks| ==> checks[i].Check?
    requires Settled(d.buffer)
    ensures DecodeAll(d, checks) == d
  {
    if checks != [] {
      SettledHoldsNothing(d);
      SettledStays(d, checks[1..]);
    }
  }

  // ------------------------------------------------------- resynchronisation

  /** `g` can precede a frame without hiding its start: no `+++` inside it, and no `+` at its end. */
  predicate Transparent(g: seq<byte>) {
    (forall j :: 0 <= j < |g| ==> !StartsFrame(g[j..])) && (g == [] || g[|g| - 1] != PLUS)
  }

  /** The start of a frame behind `g` is found exactly when `g` is transparent: a `+` at the end of
      the garbage already makes the decoder start one byte early. */
  lemma {:induction false} ResyncExactly(g: seq<byte>, f: seq<byte>)
    requires StartsFrame(f)
    ensures FindStart(g + f) == |g| <==> Transparent(g)
  {
    if Transparent(g) {
      ResyncBehindTransparent(g, f);
    } else if FindStart(g + f) == |g| {
      FindStartIsFirst(g + f);
      var j := EarlyStart(g, f);
      assert false;
    }
  }

  lemma {:induction false} ResyncBehindTransparent(g: seq<byte>, f: seq<byte>)
    requires StartsFrame(f) && Transparent(g)
    ensures FindStart(g + f) == |g|
  {
    var s := g + f;
    assert s[|g|..] == f;
    forall j | 0 <= j < |g| ensures !StartsFrame(s[j..]) {
      if j + 3 <= |g| {
        assert s[j..][..3] == g[j..][..3];
      } else {
        assert s[j..][..3][|g| - 1 - j] == g[|g| - 1];
      }
    }
    FindStartSkips(s, |g|);
  }

  lemma {:induction false} EarlyStart(g: seq<byte>, f: seq<byte>) returns (j: nat)
    requires StartsFrame(f) && !Transparent(g)
    ensures j < |g| && StartsFrame((g + f)[j..])
  {
    if k :| 0 <= k < |g| && StartsFrame(g[k..]) {
      j := k;
      assert (g + f)[j..][..3] == g[j..][..3];
    } else {
      j := |g| - 1;
      assert (g + f)[j..][..3] == [g[j]] + f[..3][..2];
    }
  }

  /** The content behind an accepted frame once a consumer has read its payload and skipped the
      terminator when one is there, as `queue_skip_terminator_of_packet` does. */
  function SkipTerminator(c: seq<byte>): (r: seq<byte>)
    ensures |r| <= |c|
  {
    if |c| >= 3 && c[..3] == REAR then c[3..] else c
  }

  /** Where the parts of a frame stand in the stream. */
  lemma {:induction false} FrameParts(kind: byte, payload: seq<byte>, rest: seq<byte>)
    requires |payload| <= MAX_PAYLOAD
    ensures var c := Frame(kind, payload) + rest;
            && c[5] == kind && DeclaredSize(c) == |payload| + 3
            && c[6..6 + |payload|] == payload
            && c[6..] == payload + REAR + rest
            && c[6 + |payload|..] == REAR + rest
  {
    var c := Frame(kind, payload) + rest;
    assert c == Header(kind, |payload|) + (payload + REAR + rest);
    assert c[6..] == payload + REAR + rest;
    assert c[6..][..|payload|] == payload && c[6..][|payload|..] == REAR + rest;
  }

  /** Anything else is left alone. */
  lemma {:induction false} OthersAreKept(c: seq<byte>)
    ensures SkipTerminator(c) == c <==> !(|c| >= 3 && c[0] == 45 && c[1] == 45 && c[2] == 45)
    ensures SkipTerminator(c) != c ==> |c| >= 3 && SkipTerminator(c) == c[3..]
  {
    if |c| >= 3 {
      assert c[..3] == [c[0], c[1], c[2]];
    }
  }

  lemma {:induction false} TerminatorIsSkipped(rest: seq<byte>)
    ensures SkipTerminator(REAR + rest) == rest
  {
    assert (REAR + rest)[..3] == REAR && (REAR + rest)[3..] == rest;
  }

  /** Write, resynchronise, check, read, skip: any payload the size field can describe comes
      back unchanged, delimiters inside it included, and exactly what followed the frame is left. */
  lemma {:induction false} FrameRoundTrip(g: seq<byte>, kind: byte, payload: seq<byte>, rest: seq<byte>)
    requires KnownType(kind) && |payload| <= MAX_PAYLOAD && Transparent(g)
    ensures var c := g + Frame(kind, payload) + rest;
            Accepts(c) && AfterCheck(c) == Frame(kind, payload) + rest
    ensures (Frame(kind, payload) + rest)[5] == kind
    ensures DeclaredSize(Frame(kind, payload) + rest) - 3 == |payload|
    ensures (Frame(kind, payload) + rest)[6..6 + |payload|] == payload
    ensures SkipTerminator((Frame(kind, payload) + rest)[6 + |payload|..]) == rest
  {
    hide Transparent, Frame, IsFrame, DeclaredSize, SkipTerminator;
    var f := Frame(kind, payload);
    FrameParts(kind, payload, rest);
    TerminatorIsSkipped(rest);
    FrameIsFrame(kind, payload);
    FrameIsAccepted(f, rest);
    assert StartsFrame(f + rest);
    ResyncExactly(g, f + rest);
    assert g + f + rest == g + (f + rest);
    assert (g + (f + rest))[|g|..] == f + rest;
  }

  /** No check reads past what is stored, and dropping a bad frame strictly shrinks the content. */
  lemma {:induction false} CheckProgress(c: seq<byte>)
    ensures exists k :: 0 <= k <= |c| && AfterCheck(c) == c[k..]
    ensures Judge(c[FindStart(c)..]).Discard? ==> |AfterCheck(c)| + 6 <= |c|
  {
    var i := FindStart(c);
    var v := Judge(c[i..]);
    var k := if v.Discard? then i + v.n else i;
    assert AfterCheck(c) == c[k..];
  }
}
