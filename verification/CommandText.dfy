/** `command.c`: the command table, the name of a text command, and the binary parameters. */
module CommandText {
  import opened Bytes
  import opened RingQueue
  import opened FrameCodec
  import opened Packet

  const SPACE: byte := 32
  const MAX_COMMAND_NAME_LENGTH: nat := 30
  const MAX_COMMANDS: nat := 33

  const UNKNOWN: nat := 0
  const SHUTDOWN: nat := 2
  const RESET: nat := 5
  const HELP: nat := 6
  const REBOOT: nat := 7
  const WIFI_IP: nat := 11
  const SHELL_EXEC: nat := 12
  const CREATE_ALLOC: nat := 21
  const FREE_ALLOC: nat := 22
  const RETRIEVE_ALLOC: nat := 23
  const STORE_ALLOC: nat := 24
  const INSERT_ALLOC: nat := 25
  const CUT_ALLOC: nat := 26
  const LOAD_ALLOC: nat := 27

  // ----------------------------------------------------------------- the table

  /** `command_text` of the table row `id`. */
  function CommandName(id: nat): string
    requires id < MAX_COMMANDS
  {
    match id
    case 0 => "UNKNOWN" case 1 => "PING" case 2 => "SHUTDOWN" case 3 => "TIME"
    case 4 => "DATE" case 5 => "RESET" case 6 => "HELP" case 7 => "REBOOT"
    case 8 => "TRON" case 9 => "TROFF" case 10 => "VERSION" case 11 => "WIFIIP"
    case 12 => "SHELLEXEC" case 13 => "SPARE2" case 14 => "SPARE3" case 15 => "SPARE4"
    case 16 => "SPARE5" case 17 => "SPARE6" case 18 => "SPARE7" case 19 => "SPARE8"
    case 20 => "SPARE9" case 21 => "CALLOC" case 22 => "FALLOC" case 23 => "RALLOC"
    case 24 => "SALLOC" case 25 => "IALLOC" case 26 => "XALLOC" case 27 => "PILALLOC"
    case 28 => "PISALLOC" case 29 => "GETFILE" case 30 => "PUTFILE" case 31 => "GETMEMFILE"
    case _ => "PUTMEMFILE"
  }

  /** Milliseconds between two runs of an unfinished command. */
  function TickPeriod(id: nat): (ms: nat)
    ensures ms >= 100
  {
    if id == SHUTDOWN || id == REBOOT then 3000
    else if id == RETRIEVE_ALLOC then 500
    else 100
  }

  /** The room in the output queue without which a command is not run. */
  function OutQueueSpace(id: nat): (n: nat)
    ensures n >= 30
  {
    if id == HELP then 1024
    else if id == WIFI_IP then 100
    else if id == SHELL_EXEC then 2048
    else 30
  }

  predicate Spells(text: seq<byte>, name: string) {
    |text| == |name| && forall i :: 0 <= i < |text| ==> text[i] as int == name[i] as int
  }

  /** The first row from `id` on whose name is `text`, or the unknown command. */
  function CommandIdFrom(text: seq<byte>, id: nat): (r: nat)
    requires id <= MAX_COMMANDS
    ensures r < MAX_COMMANDS
    decreases MAX_COMMANDS - id
  {
    if id == MAX_COMMANDS then UNKNOWN
    else if Spells(text, CommandName(id)) then id
    else CommandIdFrom(text, id + 1)
  }

  /** The row found spells the text and is the first that does; when no row does, it is the unknown
      command. */
  lemma {:induction false} FoundRowIsFirst(text: seq<byte>, id: nat)
    requires id <= MAX_COMMANDS
    ensures var r := CommandIdFrom(text, id);
            if forall k :: id <= k < MAX_COMMANDS ==> !Spells(text, CommandName(k)) then r == UNKNOWN
            else id <= r && Spells(text, CommandName(r)) && forall k :: id <= k < r ==> !Spells(text, CommandName(k))
    decreases MAX_COMMANDS - id
  {
    hide Spells, CommandName;
    if id < MAX_COMMANDS && !Spells(text, CommandName(id)) {
      FoundRowIsFirst(text, id + 1);
    }
  }

  lemma {:induction false} NamesDiffer(i: nat, j: nat)
    requires i < j < MAX_COMMANDS
    ensures CommandName(i) != CommandName(j)
  {
  }

  /** No two rows have the same name, so a name finds the row it stands in. */
  lemma {:induction false} NamesAreDistinct(text: seq<byte>, id: nat)
    requires id < MAX_COMMANDS && Spells(text, CommandName(id))
    ensures CommandIdFrom(text, 0) == id
  {
    hide CommandName, CommandIdFrom;
    FoundRowIsFirst(text, 0);
    var r := CommandIdFrom(text, 0);
    assert CommandName(r) == CommandName(id);
    if r < id {
      NamesDiffer(r, id);
    }
  }

  /** A text that spells `name` is the command `id`. */
  ghost predicate Finds(name: string, id: nat) {
    forall text :: Spells(text, name) ==> CommandIdFrom(text, 0) == id
  }

  lemma {:induction false} FindsItsRow(id: nat)
    requires id < MAX_COMMANDS
    ensures Finds(CommandName(id), id)
  {
    hide CommandName, CommandIdFrom, Spells;
    forall text | Spells(text, CommandName(id)) ensures CommandIdFrom(text, 0) == id {
      NamesAreDistinct(text, id);
    }
  }

  /** Every name, as the source spells it, is the command the source gives it to. */
  lemma {:induction false} NamesAreSpelled()
    ensures Finds("UNKNOWN", 0) && Finds("PING", 1) && Finds("SHUTDOWN", 2) && Finds("TIME", 3)
    ensures Finds("DATE", 4) && Finds("RESET", 5) && Finds("HELP", 6) && Finds("REBOOT", 7) && Finds("TRON", 8)
    ensures Finds("TROFF", 9) && Finds("VERSION", 10) && Finds("WIFIIP", 11) && Finds("SHELLEXEC", 12)
    ensures Finds("SPARE2", 13) && Finds("SPARE3", 14) && Finds("SPARE4", 15) && Finds("SPARE5", 16)
  {
    hide Finds;
    FindsItsRow(0); FindsItsRow(1); FindsItsRow(2); FindsItsRow(3); FindsItsRow(4); FindsItsRow(5);
    FindsItsRow(6); FindsItsRow(7); FindsItsRow(8); FindsItsRow(9); FindsItsRow(10); FindsItsRow(11);
    FindsItsRow(12); FindsItsRow(13); FindsItsRow(14); FindsItsRow(15); FindsItsRow(16);
  }

  lemma {:induction false} MoreNamesAreSpelled()
    ensures Finds("SPARE6", 17) && Finds("SPARE7", 18) && Finds("SPARE8", 19) && Finds("SPARE9", 20)
    ensures Finds("CALLOC", 21) && Finds("FALLOC", 22) && Finds("RALLOC", 23) && Finds("SALLOC", 24)
    ensures Finds("IALLOC", 25) && Finds("XALLOC", 26) && Finds("PILALLOC", 27) && Finds("PISALLOC", 28)
    ensures Finds("GETFILE", 29) && Finds("PUTFILE", 30) && Finds("GETMEMFILE", 31) && Finds("PUTMEMFILE", 32)
  {
    hide Finds;
    FindsItsRow(17); FindsItsRow(18); FindsItsRow(19); FindsItsRow(20); FindsItsRow(21);
    FindsItsRow(22); FindsItsRow(23); FindsItsRow(24); FindsItsRow(25); FindsItsRow(26);
    FindsItsRow(27); FindsItsRow(28); FindsItsRow(29); FindsItsRow(30); FindsItsRow(31);
    FindsItsRow(32);
  }

  method CommandIdFromString(text: seq<byte>) returns (id: nat)
    ensures id == CommandIdFrom(text, 0)
    ensures id < MAX_COMMANDS && (id == UNKNOWN || Spells(text, CommandName(id)))
    ensures forall k :: 0 <= k < MAX_COMMANDS && k != id ==> !Spells(text, CommandName(k))
  {
    hide CommandName, Spells;
    FoundRowIsFirst(text, 0);
    for index := 0 to MAX_COMMANDS
      invariant CommandIdFrom(text, 0) == CommandIdFrom(text, index)
      invariant forall k :: 0 <= k < index ==> !Spells(text, CommandName(k))
    {
      if Spells(text, CommandName(index)) {
        OnlyRow(text, index);
        return index;
      }
    }
    return UNKNOWN;
  }

  lemma {:induction false} OnlyRow(text: seq<byte>, id: nat)
    requires id < MAX_COMMANDS && Spells(text, CommandName(id))
    ensures forall k :: 0 <= k < MAX_COMMANDS && k != id ==> !Spells(text, CommandName(k))
  {
    hide CommandName, CommandIdFrom, Spells;
    forall k | 0 <= k < MAX_COMMANDS && k != id ensures !Spells(text, CommandName(k)) {
      if Spells(text, CommandName(k)) {
        NamesAreDistinct(text, id);
        NamesAreDistinct(text, k);
      }
    }
  }

  // ----------------------------------------------------------- the command name

  predicate IsSeparator(b: byte) {
    b == SPACE || b == NEW_LINE
  }

  /** The first separator of `p` at index `i` or later, or the end of `p`. */
  function FirstSeparator(p: seq<byte>, i: nat): (j: nat)
    requires i <= |p|
    ensures i <= j <= |p|
    decreases |p| - i
  {
    if i == |p| || IsSeparator(p[i]) then i else FirstSeparator(p, i + 1)
  }

  /** Where the name in a text payload ends: a separator in the first place does not count. */
  function NameLength(p: seq<byte>): (n: nat)
    ensures n <= |p|
  {
    if p == [] then 0 else FirstSeparator(p, 1)
  }

  lemma {:induction false} FirstSeparatorIsFirst(p: seq<byte>, i: nat)
    requires i <= |p|
    ensures FirstSeparator(p, i) < |p| ==> IsSeparator(p[FirstSeparator(p, i)])
    ensures forall k :: i <= k < FirstSeparator(p, i) ==> !IsSeparator(p[k])
    decreases |p| - i
  {
    if i < |p| && !IsSeparator(p[i]) {
      FirstSeparatorIsFirst(p, i + 1);
    }
  }

  lemma {:induction false} NameLengthIsFirst(p: seq<byte>)
    requires p != []
    ensures 0 < NameLength(p)
    ensures NameLength(p) < |p| ==> IsSeparator(p[NameLength(p)])
    ensures forall k :: 1 <= k < NameLength(p) ==> !IsSeparator(p[k])
  {
    FirstSeparatorIsFirst(p, 1);
  }

  /** A payload that carries a name: 1 to 29 bytes before a space or a newline. */
  predicate HasName(p: seq<byte>) {
    |p| >= 2 && p[0] != NEW_LINE && NameLength(p) < |p| && NameLength(p) < MAX_COMMAND_NAME_LENGTH
  }

  /** How many payload and terminator bytes a payload without a name costs. */
  function Consumed(p: seq<byte>): nat {
    if p == [] then 0
    else if p[0] == NEW_LINE || |p| == 1 then 1
    else if |p| < MAX_COMMAND_NAME_LENGTH - 1 then |p| + 1
    else |p|
  }

  /** The one payload length for which the read index is stepped by -1. */
  predicate StepsBack(p: seq<byte>) {
    |p| == MAX_COMMAND_NAME_LENGTH - 1 && p[0] != NEW_LINE && NameLength(p) == |p|
  }

  /** The step of -1 starts at index 0, and C's remainder makes the read index negative. */
  predicate Underflows(p: seq<byte>, readNext: int) {
    StepsBack(p) && Around(readNext, 6 + MAX_COMMAND_NAME_LENGTH) == 0
  }

  /** The payload of the accepted frame at the head of `c`. */
  function HeadPayload(c: seq<byte>): (p: seq<byte>)
    requires Judge(c).Accept?
    ensures |c| >= 9 + |p| && |p| <= MAX_PAYLOAD
  {
    AcceptedIsFrame(c);
    c[6..DeclaredSize(c) + 3]
  }

  /** What is left of the content once the name at its head has been looked for. */
  function AfterName(c: seq<byte>): seq<byte>
    requires Judge(c).Accept?
  {
    var p := HeadPayload(c);
    if HasName(p) then c[6 + NameLength(p) + 1..] else c[6 + Consumed(p)..]
  }

  /** Reads the name of the text command at the head, which is the C string left in the caller's
      30-byte buffer, and stops just behind the separator; a payload without a name costs
      `Consumed` bytes. */
  method GetCommandText(q: Queue) returns (ok: bool, name: seq<byte>)
    requires q.Valid() && Judge(q.contents).Accept?
    modifies q`readNext, q`contents
    ensures ok <==> HasName(HeadPayload(old(q.contents)))
    ensures ok ==> var p := HeadPayload(old(q.contents)); name == p[..NameLength(p)]
    ensures Underflows(HeadPayload(old(q.contents)), old(q.readNext)) ==> !ok && q.readNext == -1
    ensures !Underflows(HeadPayload(old(q.contents)), old(q.readNext)) ==> q.Valid()
    ensures !Underflows(HeadPayload(old(q.contents)), old(q.readNext)) ==>
              q.contents == AfterName(old(q.contents))
  {
    hide Queue.Valid, Unread, Judge;
    q.Facts();
    ghost var c := q.contents;
    ghost var p := HeadPayload(c);
    ghost var start := q.readNext;
    ok, name := false, [];
    var bodySize := SkipHeader(q);
    HeadBytes(c);
    var first := q.CurrentReadByte();
    if first == NEW_LINE || bodySize == 1 {
      q.IncrementRead(1);
    } else if bodySize == 0 {
      // an empty payload: nothing to step over
    } else {
      ok, name := ScanName(q, bodySize, c[6..], p);
      if |name| == MAX_COMMAND_NAME_LENGTH && !ok {
        SkipLongName(q, bodySize - |name|, c, start);
      }
    }
  }

  /** Steps over the rest of a name that did not fit, or one byte back when the payload ended with
      the room in the name; `start` is where the frame began. */
  method SkipLongName(q: Queue, n: int, ghost c: seq<byte>, ghost start: int)
    requires q.Valid() && -1 <= n && 0 <= start < QUEUE_SIZE
    requires 36 + n <= |c| && |c| >= 36 && q.contents == c[36..]
    requires c == Unread(q.data[..], start, q.storeNext) && q.readNext == Around(start, 36)
    modifies q`readNext, q`contents
    ensures n == -1 && Around(start, 36) == 0 ==> q.readNext == -1
    ensures !(n == -1 && Around(start, 36) == 0) ==> q.Valid() && q.contents == c[36 + n..]
  {
    q.IncrementRead(n);
    if n == -1 && Around(start, 36) != 0 {
      UnreadFrom(q.data[..], start, q.storeNext, 35);
    }
  }

  lemma {:induction false} HeadBytes(c: seq<byte>)
    requires Judge(c).Accept?
    ensures |HeadPayload(c)| == DeclaredSize(c) - 3
    ensures c[6..][..|HeadPayload(c)|] == HeadPayload(c) && c[6..][|HeadPayload(c)|] == MINUS
  {
    var n := Judge(c).n;
    assert c[n - 3] == c[n - 3..n][0];
  }

  /** Steps over `+++`, the size and the type, returning the payload size. */
  method SkipHeader(q: Queue) returns (bodySize: int)
    requires q.Valid() && |q.contents| >= 6
    modifies q`readNext, q`contents
    ensures q.Valid() && q.contents == old(q.contents)[6..]
    ensures q.readNext == Around(old(q.readNext), 6)
    ensures bodySize == DeclaredSize(old(q.contents)) - 3
  {
    hide Queue.Valid;
    q.Facts();
    ghost var c := q.contents;
    q.IncrementRead(3);
    var low: int := q.TakeByte();
    assert low == c[3] as int && q.contents == c[4..];
    var high: int := q.TakeByte();
    assert high == c[4] as int && q.contents == c[5..];
    bodySize := high * 256 + low - 3;
    var _ := q.TakeByte();
  }

  /** One look at the byte at `i`: where it stands in `d`, and that only the separator which ends
      the name can stop the scan. */
  lemma {:induction false} ScanStep(d: seq<byte>, p: seq<byte>, i: nat)
    requires |d| >= 3 + |p| && p == d[..|p|] && d[|p|] == MINUS && p != []
    requires i <= NameLength(p)
    ensures d[i..][0] == d[i] && d[i..][1..] == d[i + 1..] && d[..i + 1] == d[..i] + [d[i]]
    ensures IsSeparator(d[i]) && i > 0 <==> i == NameLength(p) < |p|
  {
    NameLengthIsFirst(p);
    assert i < |p| ==> d[i] == p[i];
  }

  /** The copy loop of `get_command_text`: one byte at a time until a separator, the room for the
      name, or one byte past the payload `p`, which the unread bytes `d` begin with. */
  method ScanName(q: Queue, bodySize: int, ghost d: seq<byte>, ghost p: seq<byte>)
    returns (ok: bool, name: seq<byte>)
    requires q.Valid() && q.contents == d
    requires |d| >= 3 + |p| && p == d[..|p|] && d[|p|] == MINUS
    requires bodySize == |p| >= 2 && p[0] != NEW_LINE
    modifies q`readNext, q`contents
    ensures q.Valid()
    ensures |name| <= MAX_COMMAND_NAME_LENGTH && |name| <= |p| + 1
    ensures name == d[..|name|]
    ensures ok <==> HasName(p)
    ensures ok ==> |name| == NameLength(p) && q.contents == d[|name| + 1..]
    ensures !ok ==> q.contents == d[|name|..] && q.readNext == Around(old(q.readNext), |name|)
    ensures !ok ==> |name| == MAX_COMMAND_NAME_LENGTH || |name| == |p| + 1
    ensures !ok && |name| == |p| + 1 ==> NameLength(p) == |p|
  {
    hide Queue.Valid;
    q.Facts();
    ghost var start, length := q.readNext, NameLength(p);
    ok, name := false, [];
    var index := 0;
    while index < MAX_COMMAND_NAME_LENGTH && !ok && index <= bodySize
      invariant q.Valid() && index == |name| <= MAX_COMMAND_NAME_LENGTH
      invariant !ok ==> q.readNext == Around(start, index)
      invariant ok ==> index == length < |p| && index < MAX_COMMAND_NAME_LENGTH
      invariant index <= length || index == length + 1 == |p| + 1
      invariant q.contents == if ok then d[index + 1..] else d[index..]
      invariant name == d[..index]
      decreases MAX_COMMAND_NAME_LENGTH - index, !ok
    {
      ScanStep(d, p, index);
      var b := q.CurrentReadByte();
      if (b == SPACE || b == NEW_LINE) && index > 0 {
        ok := true;
        var _ := q.TakeByte();
      } else {
        name := name + [b];
        var _ := q.TakeByte();
        index := index + 1;
      }
    }
  }

  // ------------------------------------------------------- what the name scan promises

  /** `name` is a command name: 1 to 29 bytes, no separator behind the first byte, and the first
      byte not a newline. */
  predicate IsName(name: seq<byte>) {
    && 0 < |name| < MAX_COMMAND_NAME_LENGTH
    && name[0] != NEW_LINE
    && forall k :: 1 <= k < |name| ==> !IsSeparator(name[k])
  }

  /** A text carries a name exactly when it is 1 to 29 bytes, a space or a newline, and anything; and the
      name is what stands before the first separator that is not the first byte. */
  lemma {:induction false} HasNameIff(p: seq<byte>)
    ensures HasName(p) <==> exists n :: IsNameUpTo(p, n)
    ensures forall n :: IsNameUpTo(p, n) ==> n == NameLength(p)
  {
    if p != [] {
      NameLengthIsFirst(p);
    }
    if HasName(p) {
      assert IsNameUpTo(p, NameLength(p));
    }
  }

  /** The first `n` bytes are a name with a separator behind it. */
  predicate IsNameUpTo(p: seq<byte>, n: int) {
    && 1 <= n <= 29 && n < |p| && p[0] != 10
    && (p[n] == 32 || p[n] == 10)
    && forall k :: 1 <= k < n ==> p[k] != 32 && p[k] != 10
  }

  /** A text frame `name` + newline, or `name` + space + arguments, yields exactly that name and
      leaves exactly what stands behind the separator. */
  lemma {:induction false} NamedTextIsRead(name: seq<byte>, sep: byte, args: seq<byte>, rest: seq<byte>)
    requires IsName(name) && IsSeparator(sep) && |name| + 1 + |args| <= MAX_PAYLOAD
    ensures var p := name + [sep] + args;
            var c := Frame(TEXT_COMMAND, p) + rest;
            && Judge(c).Accept?
            && HeadPayload(c) == p
            && HasName(p)
            && p[..NameLength(p)] == name
            && AfterName(c) == args + REAR + rest
  {
    var p := name + [sep] + args;
    var c := Frame(TEXT_COMMAND, p) + rest;
    HeadOfFrame(TEXT_COMMAND, p, rest);
    NameLengthIsFirst(p);
    assert p[|name|] == sep;
    assert NameLength(p) == |name| by {
      assert forall k :: 1 <= k < |name| ==> !IsSeparator(p[k]);
    }
    assert c[6 + |name| + 1..] == args + REAR + rest;
  }

  lemma {:induction false} HeadOfFrame(kind: byte, p: seq<byte>, rest: seq<byte>)
    requires KnownType(kind) && |p| <= MAX_PAYLOAD
    ensures Judge(Frame(kind, p) + rest).Accept?
    ensures HeadPayload(Frame(kind, p) + rest) == p
  {
    FrameIsFrame(kind, p);
    FrameIsAccepted(Frame(kind, p), rest);
  }

  /** A front delimiter stands somewhere in the payload. */
  predicate HoldsFront(p: seq<byte>) {
    exists j :: 0 <= j < |p| && StartsFrame(p[j..])
  }

  /** The check behind a rejected text finds the frame behind it, if and only if the payload does not
      begin with a newline and hold a front delimiter. Only the newline of such a payload is stepped
      over, so that the delimiter in it is taken for the start of a frame. */
  lemma {:induction false} RejectedTextKeepsNextFrame(p: seq<byte>, f: seq<byte>, more: seq<byte>)
    requires !HasName(p) && |p| <= MAX_PAYLOAD && IsFrame(f)
    ensures Judge(Frame(TEXT_COMMAND, p) + (f + more)).Accept?
    ensures var left := SkipTerminator(AfterName(Frame(TEXT_COMMAND, p) + (f + more)));
            Accepts(left) && AfterCheck(left) == f + more <==> !(p != [] && p[0] == NEW_LINE && HoldsFront(p))
  {
    hide HoldsFront, Judge, Frame;
    var rest := f + more;
    HeadOfFrame(TEXT_COMMAND, p, rest);
    LeftOfRejected(p, rest);
    if |p| >= 2 && p[0] == NEW_LINE {
      NewLineKeepsNextFrame(p, f, more);
    } else {
      NoFrontInOne(p);
      if 2 <= |p| < MAX_COMMAND_NAME_LENGTH - 1 {
        FrameBehindMinuses(f, more);
      } else {
        TerminatorIsSkipped(rest);
        FrameIsAccepted(f, more);
      }
    }
  }

  lemma {:induction false} NoFrontInOne(p: seq<byte>)
    ensures |p| <= 1 ==> !HoldsFront(p)
  {
  }

  /** What is left in front of the next frame when a text has been rejected. */
  lemma {:induction false} LeftOfRejected(p: seq<byte>, rest: seq<byte>)
    requires !HasName(p) && |p| <= MAX_PAYLOAD && Judge(Frame(TEXT_COMMAND, p) + rest).Accept?
    requires HeadPayload(Frame(TEXT_COMMAND, p) + rest) == p
    ensures AfterName(Frame(TEXT_COMMAND, p) + rest)
         == (if |p| >= 2 && p[0] == NEW_LINE then p[1..] + REAR
             else if 2 <= |p| < MAX_COMMAND_NAME_LENGTH - 1 then [MINUS, MINUS] else REAR) + rest
  {
    hide Judge, Frame;
    FrameFrom(TEXT_COMMAND, p, rest, 1);
    FrameFrom(TEXT_COMMAND, p, rest, |p|);
    FrameFrom(TEXT_COMMAND, p, rest, |p| + 1);
    assert p[|p|..] + REAR + rest == REAR + rest;
  }

  /** What stands behind the header and `n` more bytes. */
  lemma {:induction false} FrameFrom(kind: byte, p: seq<byte>, rest: seq<byte>, n: nat)
    ensures n <= |p| ==> (Frame(kind, p) + rest)[6 + n..] == p[n..] + REAR + rest
    ensures n == |p| + 1 ==> (Frame(kind, p) + rest)[6 + n..] == [MINUS, MINUS] + rest
  {
    assert Frame(kind, p) + rest == Header(kind, |p|) + (p + (REAR + rest));
  }

  lemma {:induction false} NewLineKeepsNextFrame(p: seq<byte>, f: seq<byte>, more: seq<byte>)
    requires |p| >= 2 && p[0] == NEW_LINE && IsFrame(f)
    ensures var left := SkipTerminator(p[1..] + REAR + (f + more));
            Accepts(left) && AfterCheck(left) == f + more <==> !HoldsFront(p)
  {
    hide HoldsFront, Judge, Transparent;
    var rest := f + more;
    var all := p[1..] + REAR;
    var g := SkipTerminator(all);
    assert (all + rest)[..3] == all[..3];
    var left := SkipTerminator(all + rest);
    assert left == g + rest;
    FrontOfFrame(f, more);
    ResyncExactly(g, rest);
    TransparentRest(p);
    FrameIsAccepted(f, more);
    if FindStart(left) == |g| {
      assert left[|g|..] == rest;
    } else if Accepts(left) {
      assert |AfterCheck(left)| == |left| - FindStart(left);
    }
  }

  lemma {:induction false} FrontOfFrame(f: seq<byte>, more: seq<byte>)
    requires IsFrame(f)
    ensures StartsFrame(f + more)
  {
    assert (f + more)[..3] == f[..3];
  }

  lemma {:induction false} StartsAt(c: seq<byte>, i: nat)
    requires i <= |c|
    ensures StartsFrame(c[i..]) <==> i + 3 <= |c| && c[i] == PLUS && c[i + 1] == PLUS && c[i + 2] == PLUS
  {
    if i + 3 <= |c| {
      assert c[i..][..3] == [c[i], c[i + 1], c[i + 2]];
    }
  }

  /** The rest of such a payload, with its terminator, hides no start of a frame exactly when it holds no
      front delimiter. */
  lemma {:induction false} TransparentRest(p: seq<byte>)
    requires |p| >= 2 && p[0] == NEW_LINE
    ensures Transparent(SkipTerminator(p[1..] + REAR)) <==> !HoldsFront(p)
  {
    hide StartsFrame, HoldsFront;
    var all := p[1..] + REAR;
    var g := SkipTerminator(all);
    var k := |all| - |g|;
    assert g == all[k..] && g[|g| - 1] == MINUS;
    if j :| 0 <= j < |g| && StartsFrame(g[j..]) {
      StartsAt(g, j);
      FrontInside(p, j + k);
    }
    if HoldsFront(p) {
      var i := FrontIndex(p);
      StartsAt(g, i - 1 - k);
    }
  }

  lemma {:induction false} FrontInside(p: seq<byte>, j: nat)
    requires |p| >= 2 && j + 3 <= |p| + 2
    requires var all := p[1..] + REAR; all[j] == PLUS && all[j + 1] == PLUS && all[j + 2] == PLUS
    ensures HoldsFront(p)
  {
    StartsAt(p, j + 1);
  }

  /** Where the delimiter stands; not where a terminator could be skipped. */
  lemma {:induction false} FrontIndex(p: seq<byte>) returns (i: nat)
    requires |p| >= 2 && p[0] == NEW_LINE && HoldsFront(p)
    ensures 1 <= i && i + 3 <= |p| && p[i] == PLUS && p[i + 1] == PLUS && p[i + 2] == PLUS
    ensures var all := p[1..] + REAR;
            && all[i - 1] == PLUS && all[i] == PLUS && all[i + 1] == PLUS
            && (all[..3] == REAR ==> i >= 4)
  {
    var all := p[1..] + REAR;
    i :| 0 <= i < |p| && StartsFrame(p[i..]);
    StartsAt(p, i);
    if all[..3] == REAR {
      assert all[0] == all[..3][0] && all[1] == all[..3][1] && all[2] == all[..3][2];
    }
  }

  /** A newline and a front delimiter are such a payload, whatever the frame behind it. */
  lemma {:induction false} NewLineCostsNextFrame(f: seq<byte>)
    requires IsFrame(f)
    ensures var p := [NEW_LINE] + FRONT;
            && !HasName(p) && HoldsFront(p)
            && var left := SkipTerminator(AfterName(Frame(TEXT_COMMAND, p) + (f + [])));
              !(Accepts(left) && AfterCheck(left) == f + [])
  {
    var p := [NEW_LINE] + FRONT;
    assert p[1..] == FRONT;
    assert StartsFrame(p[1..]);
    RejectedTextKeepsNextFrame(p, f, []);
  }

  lemma {:induction false} FrameBehindMinuses(f: seq<byte>, more: seq<byte>)
    requires IsFrame(f)
    ensures var left := SkipTerminator([MINUS, MINUS] + (f + more));
            Accepts(left) && AfterCheck(left) == f + more
  {
    var left := [MINUS, MINUS] + (f + more);
    assert left[2] == f[0] == f[..3][0] == PLUS;
    assert left[..3][2] != REAR[2];
    assert StartsFrame(f + more) by { assert (f + more)[..3] == f[..3]; }
    ResyncBehindTransparent([MINUS, MINUS], f + more);
    assert left[2..] == f + more;
    FrameIsAccepted(f, more);
  }

  // ------------------------------------------------- a name that steps the index below zero

  /** 29 letters and no separator. */
  function LongName(): seq<byte> {
    seq(MAX_COMMAND_NAME_LENGTH - 1, _ => 65)
  }

  lemma {:induction false} LongNameUnderflows()
    ensures var c := Frame(TEXT_COMMAND, LongName());
            Judge(c).Accept? && HeadPayload(c) == LongName() && Underflows(HeadPayload(c), QUEUE_SIZE - 36)
  {
    var p := LongName();
    HeadOfFrame(TEXT_COMMAND, p, []);
    assert Frame(TEXT_COMMAND, p) + [] == Frame(TEXT_COMMAND, p);
    NameLengthIsFirst(p);
  }

  /** From a new queue: after as many bytes in and out as bring the frame to the end of the ring, its
      name leaves the read index at -1. */
  method StepBelowZero() returns (q: Queue)
    ensures fresh(q) && q.readNext == -1
  {
    hide Queue.Valid;
    q := new Queue();
    for i := 0 to QUEUE_SIZE - 36
      invariant fresh(q) && fresh(q.data) && q.Valid() && q.contents == [] && q.readNext == i
    {
      var _ := q.WriteByte(0);
      var _ := q.TakeByte();
    }
    var _ := WriteDataToPacket(q, LongName(), TEXT_COMMAND);
    LongNameUnderflows();
    PutFrameWithRoom([], TEXT_COMMAND, LongName());
    assert [] + Frame(TEXT_COMMAND, LongName()) == Frame(TEXT_COMMAND, LongName());
    var _, _ := GetCommandText(q);
  }

  // --------------------------------------------------------------- binary parameters

  method GetCommandBin(q: Queue) returns (id: byte)
    requires q.Valid() && |q.contents| >= 7
    modifies q`readNext, q`contents
    ensures q.Valid()
    ensures id == old(q.contents)[6] && q.contents == old(q.contents)[7..]
  {
    q.IncrementRead(6);
    id := q.CurrentReadByte();
    q.IncrementRead(1);
  }

  function Param16(c: seq<byte>): (n: nat)
    requires |c| >= 2
    ensures n < 65536
  {
    c[0] as int + 256 * (c[1] as int)
  }

  /** The value the parameter reader sees: high 16 bits first, each half low byte first, read as a
      signed 32-bit number. */
  function Param32(c: seq<byte>): (n: int)
    requires |c| >= 4
    ensures -0x8000_0000 <= n < 0x8000_0000
  {
    Signed32(Param16(c) * 65536 + Param16(c[2..]))
  }

  function Signed32(u: nat): (n: int)
    requires u < 0x1_0000_0000
    ensures -0x8000_0000 <= n < 0x8000_0000
  {
    if u < 0x8000_0000 then u else u - 0x1_0000_0000
  }

  /** The order of the parameter bytes: a word has its low byte first, a number its high word. */
  lemma {:induction false} ParamBytes(c: seq<byte>)
    requires |c| >= 4
    ensures Param16(c) == c[0] as int + 256 * c[1] as int
    ensures var u := c[2] as int + 256 * c[3] as int + 65536 * c[0] as int + 16777216 * c[1] as int;
            Param32(c) == if u < 2147483648 then u else u - 4294967296
  {
  }

  /** The four bytes `add_int_to_packet` writes for `v`. */
  function IntBytes(v: int): (b: seq<byte>)
    ensures |b| == 4
  {
    [v / 0x1_0000 % 256, v / 0x100_0000 % 256, v % 256, v / 256 % 256]
  }

  /** Reading back what the writer wrote gives the number, for every signed 32-bit number. */
  lemma {:induction false} IntRoundTrip(v: int, rest: seq<byte>)
    requires -0x8000_0000 <= v < 0x8000_0000
    ensures Param32(IntBytes(v) + rest) == v
  {
    var c := IntBytes(v) + rest;
    TwoBytes(v / 0x1_0000);
    TwoBytes(v);
    assert v / 0x1_0000 / 256 == v / 0x100_0000;
    assert Param16(c) == v / 0x1_0000 % 0x1_0000 && Param16(c[2..]) == v % 0x1_0000;
    UnsignedHalves(v);
  }

  lemma {:induction false} TwoBytes(v: int)
    ensures v % 256 + 256 * (v / 256 % 256) == v % 0x1_0000
  {
  }

  lemma {:induction false} UnsignedHalves(v: int)
    requires -0x8000_0000 <= v < 0x8000_0000
    ensures Signed32(v / 0x1_0000 % 0x1_0000 * 0x1_0000 + v % 0x1_0000) == v
  {
    var top := v / 0x1_0000;
    assert top % 0x1_0000 == if top >= 0 then top else top + 0x1_0000;
  }

  /** Writing back what was read gives the bytes. */
  lemma {:induction false} BytesRoundTrip(c: seq<byte>)
    requires |c| >= 4
    ensures IntBytes(Param32(c)) == c[..4]
  {
    Halves(c[0], c[1], c[2], c[3]);
  }

  lemma {:induction false} Halves(a: byte, b: byte, c: byte, d: byte)
    ensures IntBytes(Signed32((a as int + 256 * (b as int)) * 65536 + (c as int + 256 * (d as int))))
         == [a, b, c, d]
  {
    var hi: int, lo: int := a as int + 256 * (b as int), c as int + 256 * (d as int);
    var v := Signed32(hi * 65536 + lo);
    var top := if v >= 0 then hi else hi - 0x1_0000;
    LowHalf(top, c, d);
    assert top % 256 == a as int && top / 256 % 256 == b as int;
  }

  lemma {:induction false} LowHalf(top: int, c: byte, d: byte)
    ensures var v := top * 65536 + (c as int + 256 * (d as int));
            v % 256 == c && v / 256 % 256 == d && v / 0x1_0000 == top && v / 0x100_0000 == top / 256
  {
    var v := top * 65536 + (c as int + 256 * (d as int));
    var mid := top * 256 + d as int;
    assert v == mid * 256 + c as int;
    assert mid == top * 256 + d as int;
  }

  method NextParam8(q: Queue) returns (n: byte)
    requires q.Valid() && |q.contents| >= 1
    modifies q`readNext, q`contents
    ensures q.Valid()
    ensures n == old(q.contents)[0] && q.contents == old(q.contents)[1..]
  {
    n := q.TakeByte();
  }

  method NextParam16(q: Queue) returns (n: int)
    requires q.Valid() && |q.contents| >= 2
    modifies q`readNext, q`contents
    ensures q.Valid()
    ensures n == Param16(old(q.contents)) && q.contents == old(q.contents)[2..]
  {
    var low: int := q.TakeByte();
    var high: int := q.TakeByte();
    n := high * 256 + low;
  }

  method NextParam32(q: Queue) returns (n: int)
    requires q.Valid() && |q.contents| >= 4
    modifies q`readNext, q`contents
    ensures q.Valid()
    ensures n == Param32(old(q.contents)) && q.contents == old(q.contents)[4..]
  {
    var high := NextParam16(q);
    var low := NextParam16(q);
    n := Signed32(high * 65536 + low);
  }

  method AddIntToPacket(q: Queue, v: int)
    requires q.Valid() && |q.contents| + 4 < QUEUE_SIZE
    modifies q`storeNext, q`contents, q.data
    ensures q.Valid() && q.contents == old(q.contents) + IntBytes(v)
  {
    AddBytesToPacket(q, [v / 0x1_0000 % 256, v / 0x100_0000 % 256, v % 256, v / 256 % 256]);
  }
}
