/** The fixed ring of `queue.c`: two indices into a byte array, and nothing that tells a full
    ring from an empty one. The ghost field `contents` is the sequence of bytes a reader can still
    see; every operation is specified on that sequence, so wrap-around never shows. */
module RingQueue {
  import opened Bytes

  const QUEUE_SIZE: nat := 131070

  /** The bytes from index `r` up to, but not including, index `s`, going round the ring. */
  function Unread(d: seq<byte>, r: int, s: int): (u: seq<byte>)
    requires |d| == QUEUE_SIZE && 0 <= r < QUEUE_SIZE && 0 <= s < QUEUE_SIZE
    ensures |u| == if r <= s then s - r else QUEUE_SIZE - r + s
  {
    if r <= s then d[r..s] else d[r..] + d[..s]
  }

  /** What a reader sees after `bs` is written behind the unread bytes `c`: appended when there is
      room to spare, everything lost when the ring fills exactly, refused when it does not fit. */
  function Put(c: seq<byte>, bs: seq<byte>): (r: seq<byte>)
    requires |c| < QUEUE_SIZE
    ensures |r| < QUEUE_SIZE
  {
    if |c| + |bs| < QUEUE_SIZE then c + bs
    else if |c| + |bs| == QUEUE_SIZE then []
    else c
  }

  /** The free-space test of `is_queue_space_available`, on the number of unread bytes. */
  predicate SpaceFor(unread: nat, space: int)
    requires unread < QUEUE_SIZE
  {
    if unread == 0 then space < QUEUE_SIZE else unread + space <= QUEUE_SIZE
  }

  /** The index `n` places behind `i`, going round the ring once at most. */
  function Around(i: int, n: int): int {
    if i + n < QUEUE_SIZE then i + n else i + n - QUEUE_SIZE
  }

  /** C's remainder: it takes the sign of the dividend. */
  function CRem(a: int, b: int): int
    requires b > 0
  {
    if a >= 0 then a % b else -((-a) % b)
  }

  predicate IsRing(d: seq<byte>, r: int, s: int) {
    |d| == QUEUE_SIZE && 0 <= r < QUEUE_SIZE && 0 <= s < QUEUE_SIZE
  }

  lemma {:induction false} AroundIsRemainder(i: int, n: int)
    requires 0 <= i < QUEUE_SIZE && 0 <= n <= QUEUE_SIZE
    ensures (i + n) % QUEUE_SIZE == Around(i, n)
  {
  }

  /** A step of the read index over unread bytes drops them. */
  lemma {:induction false} UnreadFrom(d: seq<byte>, r: int, s: int, k: nat)
    requires IsRing(d, r, s) && k <= |Unread(d, r, s)|
    ensures 0 <= Around(r, k) < QUEUE_SIZE
    ensures Unread(d, Around(r, k), s) == Unread(d, r, s)[k..]
  {
  }

  /** A step by any `n`, past the unread bytes or not, changes their number modulo the size. */
  lemma {:induction false} UnreadCount(d: seq<byte>, r: int, s: int, n: nat)
    requires IsRing(d, r, s)
    ensures |Unread(d, (r + n) % QUEUE_SIZE, s)| == (|Unread(d, r, s)| - n) % QUEUE_SIZE
  {
    assert |Unread(d, r, s)| == (s - r) % QUEUE_SIZE;
    var r' := (r + n) % QUEUE_SIZE;
    assert |Unread(d, r', s)| == (s - r') % QUEUE_SIZE;
    assert (s - r') % QUEUE_SIZE == (s - r - n) % QUEUE_SIZE;
  }

  /** A step back shows the previous byte again. */
  lemma {:induction false} UnreadBack(d: seq<byte>, r: int, s: int)
    requires IsRing(d, r, s) && r > 0
    ensures |Unread(d, r, s)| < QUEUE_SIZE - 1 ==> Unread(d, r - 1, s) == [d[r - 1]] + Unread(d, r, s)
  {
  }

  /** Storing a byte and stepping the store index appends it, or empties a ring that it fills. */
  lemma {:induction false} UnreadAppend(d: seq<byte>, r: int, s: int, b: byte)
    requires IsRing(d, r, s)
    ensures 0 <= Around(s, 1) < QUEUE_SIZE
    ensures Unread(d[s := b], r, Around(s, 1)) == Put(Unread(d, r, s), [b])
  {
    var s' := Around(s, 1);
    if s' == r {
      assert |Unread(d, r, s)| == QUEUE_SIZE - 1;
    } else if r <= s && s' != 0 {
      assert d[s := b][r..s'] == d[r..s] + [b];
    } else if r <= s {
      assert d[s := b][r..] + d[..0] == d[r..s] + [b];
    } else {
      assert d[s := b][..s'] == d[..s] + [b];
      assert d[s := b][r..] == d[r..];
    }
  }

  /** One place before the read index stands the byte that was stepped over last. */
  lemma {:induction false} StepBefore(d: seq<byte>, at: int, s: int)
    requires IsRing(d, at, s)
    ensures var p := if at == 0 then QUEUE_SIZE - 1 else at - 1;
            && IsRing(d, p, s) && Around(p, 1) == at
            && (forall r :: IsRing(d, r, s) && Around(r, 1) == at ==> r == p)
            && (p != s ==> Unread(d, p, s) != [] && Unread(d, p, s)[0] == d[p])
            && (|Unread(d, at, s)| < QUEUE_SIZE - 1 ==> Unread(d, p, s) == [d[p]] + Unread(d, at, s))
  {
    var p := if at == 0 then QUEUE_SIZE - 1 else at - 1;
    if p != s {
      UnreadAt(d, p, s, 0);
      UnreadFrom(d, p, s, 1);
    }
  }

  /** Where a step of `n` leads, and what is unread from there. */
  lemma {:induction false} StepIndex(d: seq<byte>, r: int, s: int, n: int)
    requires IsRing(d, r, s)
    ensures var r', c := CRem(r + n, QUEUE_SIZE), Unread(d, r, s);
            && (n >= 0 ==> 0 <= r' < QUEUE_SIZE && |Unread(d, r', s)| == (|c| - n) % QUEUE_SIZE)
            && (0 <= n <= |c| ==> r' == Around(r, n) && Unread(d, r', s) == c[n..])
            && (n == -1 && r > 0 ==> r' == r - 1)
            && (n == -1 && r > 0 && |c| < QUEUE_SIZE - 1 ==> Unread(d, r', s) == [d[r - 1]] + c)
            && (n == -1 && r == 0 ==> r' == -1)
  {
    hide Unread;
    if n >= 0 {
      UnreadCount(d, r, s, n);
      if n <= |Unread(d, r, s)| {
        AroundIsRemainder(r, n);
        UnreadFrom(d, r, s, n);
      }
    } else if n == -1 && r > 0 {
      UnreadBack(d, r, s);
    }
  }

  lemma {:induction false} UnreadAt(d: seq<byte>, r: int, s: int, k: nat)
    requires IsRing(d, r, s) && k < |Unread(d, r, s)|
    ensures 0 <= Around(r, k) < QUEUE_SIZE
    ensures Unread(d, r, s)[k] == d[Around(r, k)]
  {
  }

  /** Writing in pieces is writing at once: the ring loses everything in both or in neither. */
  lemma {:induction false} PutPieces(c: seq<byte>, a: seq<byte>, b: seq<byte>)
    requires |c| + |a| < QUEUE_SIZE && |c| + |a| + |b| <= QUEUE_SIZE
    ensures Put(Put(c, a), b) == Put(c, a + b)
  {
    assert c + a + b == c + (a + b);
  }

  /** The free-space test against the writes it guards: on a ring with unread bytes it answers whether a
      write is taken at all, an exact fill included; on an empty one, whether the bytes stay readable. */
  lemma {:induction false} SpaceForWrites(c: seq<byte>, bs: seq<byte>)
    requires |c| < QUEUE_SIZE && bs != []
    ensures c != [] ==> (SpaceFor(|c|, |bs|) <==> Put(c, bs) != c)
    ensures c == [] ==> (SpaceFor(|c|, |bs|) <==> Put(c, bs) == bs)
  {
    if |c| + |bs| < QUEUE_SIZE {
      assert |c + bs| > |c|;
    }
  }

  lemma {:induction false} PutNothing(c: seq<byte>)
    requires |c| < QUEUE_SIZE
    ensures Put(c, []) == c
  {
  }

  lemma {:induction false} PutTooMuch(c: seq<byte>, bs: seq<byte>)
    requires |c| < QUEUE_SIZE < |c| + |bs|
    ensures Put(c, bs) == c
  {
  }

  class Queue {
    const data: array<byte>
    var storeNext: int
    var readNext: int
    /** The unread bytes, oldest first. */
    ghost var contents: seq<byte>

    ghost predicate Valid()
      reads this, data
    {
      && data.Length == QUEUE_SIZE
      && 0 <= storeNext < QUEUE_SIZE
      && 0 <= readNext < QUEUE_SIZE
      && contents == Unread(data[..], readNext, storeNext)
    }

    constructor ()
      ensures Valid() && fresh(data) && contents == [] && readNext == 0
    {
      data := new byte[QUEUE_SIZE](_ => 0);
      storeNext, readNext := 0, 0;
      contents := [];
    }

    /** What validity says, for proofs that keep its definition hidden. */
    lemma {:induction false} Facts()
      requires Valid()
      ensures IsRing(data[..], readNext, storeNext)
      ensures contents == Unread(data[..], readNext, storeNext) && |contents| < QUEUE_SIZE
    {
    }

    method NumberBytesToRead() returns (n: int)
      requires Valid()
      ensures n == |contents|
    {
      n := ((QUEUE_SIZE + storeNext) - readNext) % QUEUE_SIZE;
    }

    method NumberFreeBytes() returns (n: int)
      requires Valid()
      ensures n == QUEUE_SIZE - |contents|
    {
      if storeNext == readNext {
        n := QUEUE_SIZE;
      } else {
        n := ((QUEUE_SIZE - storeNext) + readNext) % QUEUE_SIZE;
      }
    }

    method IsSpaceAvailable(space: int) returns (ok: bool)
      requires Valid()
      ensures |contents| < QUEUE_SIZE
      ensures ok <==> SpaceFor(|contents|, space)
    {
      ok := false;
      if storeNext == readNext && QUEUE_SIZE > space {
        ok := true;
      } else if ((QUEUE_SIZE - storeNext) + readNext) % QUEUE_SIZE >= space {
        ok := true;
      }
    }

    method CurrentReadByte() returns (b: byte)
      requires Valid()
      ensures |contents| > 0 ==> b == contents[0]
    {
      if |contents| > 0 {
        UnreadAt(data[..], readNext, storeNext, 0);
      }
      b := data[readNext];
    }

    method ReadAheadByte(ahead: nat) returns (b: byte)
      requires Valid()
      ensures ahead < |contents| ==> b == contents[ahead]
    {
      b := data[(readNext + ahead) % QUEUE_SIZE];
      if ahead < |contents| {
        AroundIsRemainder(readNext, ahead);
        UnreadAt(data[..], readNext, storeNext, ahead);
      }
    }

    /** The byte a reader has just stepped over: the first of what was unread where the read index
        stood one place back. */
    method PreviousReadByte() returns (b: byte)
      requires Valid()
      ensures forall r :: IsRing(data[..], r, storeNext) && Around(r, 1) == readNext && r != storeNext ==>
                Unread(data[..], r, storeNext) != [] && b == Unread(data[..], r, storeNext)[0]
      ensures |contents| < QUEUE_SIZE - 1 ==>
                exists r :: IsRing(data[..], r, storeNext) && Around(r, 1) == readNext
                         && Unread(data[..], r, storeNext) == [b] + contents
    {
      StepBefore(data[..], readNext, storeNext);
      hide Unread, Around;
      var previous := 0;
      if readNext == 0 {
        previous := QUEUE_SIZE - 1;
      } else {
        previous := readNext - 1;
      }
      b := data[previous];
    }

    /** Steps the read index. A step past the unread bytes leaves a ring that shows stale bytes;
        a step of -1 shows the previous byte again, unless it starts at index 0, where C's
        remainder produces the index -1. */
    method IncrementRead(n: int)
      requires Valid()
      modifies `readNext, `contents
      ensures readNext == CRem(old(readNext) + n, QUEUE_SIZE)
      ensures n >= 0 ==> Valid() && |contents| == (|old(contents)| - n) % QUEUE_SIZE
      ensures 0 <= n <= |old(contents)| ==> contents == old(contents)[n..]
      ensures 0 <= n <= |old(contents)| ==> readNext == Around(old(readNext), n)
      ensures n == -1 && old(readNext) > 0 && |old(contents)| < QUEUE_SIZE - 1 ==>
                Valid() && contents == [data[old(readNext) - 1]] + old(contents)
      ensures n == -1 && old(readNext) == 0 ==> readNext == -1
    {
      hide Unread, CRem, Around;
      Facts();
      StepIndex(data[..], readNext, storeNext, n);
      readNext := CRem(readNext + n, QUEUE_SIZE);
      contents := if 0 <= readNext < QUEUE_SIZE then Unread(data[..], readNext, storeNext) else [];
    }

    /** `get_current_read_byte` followed by a step of one. */
    method TakeByte() returns (b: byte)
      requires Valid() && |contents| > 0
      modifies `readNext, `contents
      ensures Valid()
      ensures b == old(contents)[0] && contents == old(contents)[1..]
      ensures readNext == Around(old(readNext), 1)
    {
      hide Valid;
      Facts();
      b := CurrentReadByte();
      IncrementRead(1);
    }

    /** Puts the read index back to where it was before bytes were read and `unread` was unread. */
    method Rewind(held: int, ghost unread: seq<byte>)
      requires IsRing(data[..], held, storeNext) && unread == Unread(data[..], held, storeNext)
      modifies `readNext, `contents
      ensures Valid() && contents == unread && readNext == held
    {
      hide Unread;
      readNext := held;
      contents := unread;
    }

    /** `store_to_current_write_byte` followed by `increment_store_next_index(…, 1)`. */
    method Append(b: byte)
      requires Valid()
      modifies `storeNext, `contents, data
      ensures Valid()
      ensures contents == Put(old(contents), [b])
    {
      ghost var d := data[..];
      UnreadAppend(d, readNext, storeNext, b);
      AroundIsRemainder(storeNext, 1);
      hide Unread, Put;
      contents := Put(contents, [b]);
      data[storeNext] := b;
      assert data[..] == d[storeNext := b];
      storeNext := (storeNext + 1) % QUEUE_SIZE;
    }

    /** Takes `n` bytes off the front, or nothing when fewer are unread. */
    method GetData(buffer: array<byte>, n: nat) returns (ok: bool)
      requires Valid() && buffer != data && n <= buffer.Length
      modifies `readNext, `contents, buffer
      ensures Valid()
      ensures ok <==> n <= |old(contents)|
      ensures ok ==> buffer[..n] == old(contents)[..n] && contents == old(contents)[n..]
      ensures !ok ==> contents == old(contents) && buffer[..n] == old(buffer[..n])
      ensures buffer[n..] == old(buffer[n..])
    {
      hide Valid;
      ok := false;
      var unread := NumberBytesToRead();
      if unread >= n {
        for index := 0 to n
          invariant Valid()
          invariant buffer[..index] == old(contents)[..index]
          invariant buffer[n..] == old(buffer[n..])
          invariant contents == old(contents)[index..]
        {
          var b := CurrentReadByte();
          buffer[index] := b;
          IncrementRead(1);
        }
        ok := true;
      }
    }

    /** Appends `bs` when it fits beside the unread bytes, except that a write which fills the
        ring exactly leaves both indices equal, so that nothing is left to read. */
    method WriteData(bs: seq<byte>) returns (ok: bool)
      requires Valid()
      modifies `storeNext, `contents, data
      ensures Valid() && |old(contents)| < QUEUE_SIZE
      ensures ok <==> |old(contents)| + |bs| <= QUEUE_SIZE
      ensures contents == Put(old(contents), bs)
    {
      hide Valid, Put;
      Facts();
      ghost var c := contents;
      PutNothing(c);
      ok := false;
      var free := NumberFreeBytes();
      if free >= |bs| {
        for index := 0 to |bs|
          invariant Valid()
          invariant contents == Put(c, bs[..index])
        {
          PutPieces(c, bs[..index], [bs[index]]);
          assert bs[..index] + [bs[index]] == bs[..index + 1];
          Append(bs[index]);
        }
        assert bs[..|bs|] == bs;
        ok := true;
      } else {
        PutTooMuch(c, bs);
      }
    }

    method WriteByte(b: byte) returns (ok: bool)
      requires Valid()
      modifies `storeNext, `contents, data
      ensures Valid() && ok && |old(contents)| < QUEUE_SIZE
      ensures contents == Put(old(contents), [b])
    {
      hide Valid;
      Facts();
      ok := false;
      var free := NumberFreeBytes();
      if free >= 1 {
        Append(b);
        ok := true;
      }
    }

    /** The next three bytes, with the read index put back where it was. */
    method NextThreeBytes() returns (ok: bool, three: seq<byte>)
      requires Valid()
      modifies `readNext, `contents
      ensures Valid() && readNext == old(readNext) && contents == old(contents)
      ensures ok <==> |contents| >= 3
      ensures ok ==> three == contents[..3]
    {
      hide Valid, Unread;
      Facts();
      ok, three := false, [];
      var held := readNext;
      var unread := NumberBytesToRead();
      if unread >= 3 {
        for index := 0 to 3
          invariant Valid() && |three| == index
          invariant three == old(contents)[..index]
          invariant contents == old(contents)[index..]
        {
          var b := CurrentReadByte();
          three := three + [b];
          IncrementRead(1);
        }
        Rewind(held, old(contents));
        ok := true;
      }
    }
  }
}
