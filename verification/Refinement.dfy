/** The service as a client sees it: a list of requests answered one after the other. The
    main loop, however its passes interleave with bytes coming and going, refines that. */
module Refinement {
  import opened Bytes
  import opened FrameCodec
  import opened Memstore
  import opened Packet
  import opened CommandText
  import opened MemoryCommands
  import opened MainLoop

  // ----------------------------------------------------------- the sequential service

  datatype Request =
    | CallocReq(pages: nat, kb: byte)
    | FallocReq(id: byte)
    | RallocReq(id: byte, page: nat)
    | SallocReq(id: byte, page: nat, data: seq<byte>)
    | IallocReq(id: byte, at: int, data: seq<byte>)
    | XallocReq(id: byte, at: int, len: int)
    /** Any other command, as a binary or as a text frame, with the reply the environment chooses. */
    | BinaryReq(id: byte, params: seq<byte>, reply: Option<seq<byte>>)
    | TextReq(name: seq<byte>, separator: byte, params: seq<byte>, reply: Option<seq<byte>>)

  predicate IsGeneral(r: Request) {
    r.BinaryReq? || r.TextReq?
  }

  predicate CarriesData(r: Request) {
    r.SallocReq? || r.IallocReq?
  }

  /** The payload of the request's command frame. */
  function Body(r: Request): (b: seq<byte>)
    ensures 1 <= |b|
    ensures !IsGeneral(r) ==> |b| <= 10
  {
    match r
    case CallocReq(pages, kb) => [CREATE_ALLOC] + Bytes16(pages) + [kb]
    case FallocReq(id) => [FREE_ALLOC, id]
    case RallocReq(id, page) => [RETRIEVE_ALLOC, id] + Bytes16(page)
    case SallocReq(id, page, _) => [STORE_ALLOC, id] + Bytes16(page)
    case IallocReq(id, at, data) => [INSERT_ALLOC, id] + IntBytes(at) + IntBytes(|data|)
    case XallocReq(id, at, len) => [CUT_ALLOC, id] + IntBytes(at) + IntBytes(len)
    case BinaryReq(id, params, _) => [id] + params
    case TextReq(name, separator, params, _) => name + [separator] + params
  }

  /** The payloads of the six commands, byte by byte. */
  lemma {:induction false} BodyBytes(pages: nat, kb: byte, id: byte, page: nat, data: seq<byte>, at: int, len: int)
    ensures Body(CallocReq(pages, kb)) == [21, pages % 256, pages / 256 % 256, kb]
    ensures Body(FallocReq(id)) == [22, id]
    ensures Body(RallocReq(id, page)) == [23, id, page % 256, page / 256 % 256]
    ensures Body(SallocReq(id, page, data)) == [24, id, page % 256, page / 256 % 256]
    ensures Body(IallocReq(id, at, data)) == [25, id] + IntBytes(at) + IntBytes(|data|)
    ensures Body(XallocReq(id, at, len)) == [26, id] + IntBytes(at) + IntBytes(len)
  {
  }

  function KindOf(r: Request): byte {
    if r.TextReq? then TEXT_COMMAND else BINARY_COMMAND
  }

  /** The command the request names. */
  function CommandOf(r: Request): (id: nat) {
    if r.TextReq? then CommandIdFrom(r.name, 0) else Body(r)[0]
  }

  /** What the command finds behind its name or id. */
  function Params(r: Request): seq<byte> {
    if r.TextReq? then r.params else Body(r)[1..]
  }

  function Bytes16(n: nat): (b: seq<byte>)
    ensures |b| == 2
  {
    [n % 256, n / 256 % 256]
  }

  /** The request on the wire: its command frame and, for a store or an insert, its data frame. */
  function Encode(r: Request): seq<byte> {
    Frame(KindOf(r), Body(r)) + DataPart(r)
  }

  function DataPart(r: Request): seq<byte> {
    if CarriesData(r) then Frame(BINARY_DATA, r.data) else []
  }

  function Answer3(command: byte, id: byte, error: byte): seq<byte> {
    Frame(BINARY_COMMAND, [command, id, error])
  }

  function Answer5(command: byte, id: byte, page: nat, error: byte): seq<byte> {
    Frame(BINARY_COMMAND, [command, id] + Bytes16(page) + [error])
  }

  function AnswerText(reply: Option<seq<byte>>): seq<byte> {
    if reply.Some? then Frame(TEXT_COMMAND, reply.value) else []
  }

  /** What one request does to the store and answers; `granted` is the heap's answer to a CALLOC. */
  function Serve(mem: Store, r: Request, granted: bool): (Store, seq<byte>)
    requires WellFormed(mem) && RequestOk(mem, r)
  {
    match r
    case CallocReq(pages, kb) =>
      if !(1 <= pages <= MAX_PAGES && 1 <= kb <= 32) then (mem, Answer3(CREATE_ALLOC, 0, 1))
      else
        CreatedId(mem, pages, kb, granted);
        var (mem', id) := Create(mem, pages, kb, granted);
        (mem', Answer3(CREATE_ALLOC, id, if id == 0 then 2 else 0))
    case FallocReq(id) =>
      var (mem', ok) := Free(mem, id);
      (mem', if ok then Answer3(FREE_ALLOC, id, 0) else Answer3(FREE_ALLOC, 0, 1))
    case RallocReq(id, page) =>
      if page <= MAX_PAGES && HasPage(mem, id, page)
      then (mem, Answer5(RETRIEVE_ALLOC, id, page, 0) + Frame(BINARY_DATA, RetrievePage(mem, id, page).value))
      else (mem, Answer5(RETRIEVE_ALLOC, 0, page, 1))
    case SallocReq(id, page, data) =>
      var stored := StorePage(mem, id, page, data);
      if stored.Some? then (stored.value, Answer5(STORE_ALLOC, id, page, 0))
      else (mem, Answer5(STORE_ALLOC, 0, page, 1))
    case IallocReq(id, at, data) =>
      var inserted := Insert(mem, id, at, |data|, data);
      if inserted.Some? then (inserted.value, Answer3(INSERT_ALLOC, id, 0))
      else (mem, Answer3(INSERT_ALLOC, 0, 1))
    case XallocReq(id, at, len) =>
      if at + len > AllocSize(mem, id) then (mem, Answer3(CUT_ALLOC, 0, 2))
      else
        var cut := Cut(mem, id, at, len);
        if cut.Some? then (cut.value, Answer3(CUT_ALLOC, id, 0)) else (mem, Answer3(CUT_ALLOC, 0, 1))
    case BinaryReq(_, _, reply) => (mem, AnswerText(reply))
    case TextReq(_, _, _, reply) => (mem, AnswerText(reply))
  }

  predicate Is32Bit(n: int) {
    -0x8000_0000 <= n < 0x8000_0000
  }

  /** The command frame fits the wire format, and a text begins with a name. */
  predicate WireOk(r: Request) {
    && |Body(r)| <= MAX_PAYLOAD
    && (r.TextReq? ==> IsName(r.name) && IsSeparator(r.separator))
  }

  /** A command outside the six that touches neither the store nor the rings as a whole, with a reply
      that keeps to the room reserved for it. */
  predicate GeneralOk(r: Request)
    requires IsGeneral(r)
  {
    && CommandOf(r) < MAX_COMMANDS && !IsMemoryCommand(CommandOf(r))
    && CommandOf(r) != RESET && CommandOf(r) != LOAD_ALLOC
    && (r.reply.Some? ==> |r.reply.value| + PACKET_OVERHEAD < OutQueueSpace(CommandOf(r)))
  }

  /** What a conforming client sends in this state of the store: fields that fit the wire format,
      a page of exactly the page size for a store into a live allocation, and as many bytes to
      insert as fit the allocation. */
  predicate RequestOk(mem: Store, r: Request) {
    WireOk(r) &&
    match r
    case CallocReq(pages, _) => pages < 65536
    case FallocReq(_) => true
    case RallocReq(_, page) => page < 65536
    case SallocReq(id, page, data) => page <= MAX_PAGES && |data| == PageSize(mem, id) > 0
    case IallocReq(id, at, data) =>
      Is32Bit(at) && |data| <= MAX_PAYLOAD && at + |data| <= AllocSize(mem, id)
    case XallocReq(_, at, len) => Is32Bit(at) && Is32Bit(len) && Is32Bit(at + len)
    case BinaryReq(_, _, _) => GeneralOk(r)
    case TextReq(_, _, _, _) => GeneralOk(r)
  }

  lemma {:induction false} RequestFitsWire(mem: Store, r: Request)
    requires RequestOk(mem, r)
    ensures WireOk(r)
  {
  }

  lemma {:induction false} ServeKeepsWellFormed(mem: Store, r: Request, granted: bool)
    requires WellFormed(mem) && RequestOk(mem, r)
    ensures WellFormed(Serve(mem, r, granted).0)
  {
    hide WellFormed, Create, Free, StorePage, Insert, Cut, RetrievePage;
    match r
    case CallocReq(pages, kb) =>
      if 1 <= pages <= MAX_PAGES && 1 <= kb <= 32 { CreateTakesLowest(mem, pages, kb, granted); }
    case FallocReq(id) => FreeKeepsStore(mem, id);
    case RallocReq(_, _) =>
    case SallocReq(id, page, data) =>
      if HasPage(mem, id, page) { StoreThenRetrieve(mem, id, page, data, id, page); }
    case IallocReq(id, at, data) =>
      if CanEdit(mem, id, at, |data|) { EditsKeepStore(mem, id, at, |data|, data); }
    case XallocReq(id, at, len) =>
      if CanEdit(mem, id, at, len) { EditsKeepStore(mem, id, at, len, Zeros(len)); }
    case BinaryReq(_, _, _) =>
    case TextReq(_, _, _, _) =>
  }

  /** What an answer tells the client, byte by byte. Error 0 means that it was done as asked: the new id of
      CALLOC is live now and was not before; the id of FALLOC was live, or is 0; a page lies inside its
      buffer; a stretch lies inside its buffer with a byte to spare. */
  lemma {:induction false} AnswersOfSlots(mem: Store, r: Request, granted: bool)
    requires WellFormed(mem) && RequestOk(mem, r) && (r.CallocReq? || r.FallocReq?)
    ensures var (mem', answer) := Serve(mem, r, granted);
            && (r.FallocReq? ==>
                  && answer == Frame(2, if r.id in LiveIds(mem) || r.id == 0 then [22, r.id, 0] else [22, 0, 1])
                  && LiveIds(mem') == LiveIds(mem) - {r.id})
            && (r.CallocReq? ==>
                  if r.pages < 1 || r.pages > 9999 || r.kb < 1 || r.kb > 32
                  then mem' == mem && answer == Frame(2, [21, 0, 1])
                  else if !granted || |LiveIds(mem)| == 20 then mem' == mem && answer == Frame(2, [21, 0, 2])
                  else exists id: byte :: IsNew(mem, mem', id) && answer == Frame(2, [21, id, 0]))
  {
    hide Frame, WellFormed, Create, Free;
    if r.FallocReq? {
      FreeKeepsStore(mem, r.id);
    } else if 1 <= r.pages <= MAX_PAGES && 1 <= r.kb <= 32 {
      CreateTakesLowest(mem, r.pages, r.kb, granted);
      CreatedId(mem, r.pages, r.kb, granted);
      var (mem', id) := Create(mem, r.pages, r.kb, granted);
      if id != 0 {
        var created: byte := id;
        assert IsNew(mem, mem', created);
        assert Serve(mem, r, granted).1 == Frame(2, [21, created, 0]);
      }
    }
  }

  predicate IsNew(mem: Store, mem': Store, id: byte) {
    id !in LiveIds(mem) && LiveIds(mem') == LiveIds(mem) + {id as int}
  }

  lemma {:induction false} Answer5Bytes(command: byte, id: byte, page: nat, error: byte)
    requires page < 65536
    ensures Answer5(command, id, page, error) == Frame(2, [command, id, page % 256, page / 256, error])
  {
    assert [command, id] + Bytes16(page) + [error] == [command, id, page % 256, page / 256, error];
  }

  lemma {:induction false} AnswersOfPages(mem: Store, r: Request, granted: bool)
    requires WellFormed(mem) && RequestOk(mem, r) && (r.RallocReq? || r.SallocReq?)
    ensures var lo: byte, hi: byte := r.page % 256, r.page / 256;
            var there := Live(mem, r.id) && (r.page + 1) * mem[r.id].pageSize <= |mem[r.id].data|;
            var answer := Serve(mem, r, granted).1;
            && (r.SallocReq? ==> answer == Frame(2, if there then [24, r.id, lo, hi, 0] else [24, 0, lo, hi, 1]))
            && (r.RallocReq? && !there ==> answer == Frame(2, [23, 0, lo, hi, 1]))
            && (r.RallocReq? && there ==>
                  && 0 <= r.page * mem[r.id].pageSize <= |mem[r.id].data| - mem[r.id].pageSize
                  && answer == Frame(2, [23, r.id, lo, hi, 0])
                             + Frame(3, mem[r.id].data[r.page * mem[r.id].pageSize..][..mem[r.id].pageSize]))
  {
    hide Frame, WireOk;
    forall command: byte, id: byte, error: byte
      ensures Answer5(command, id, r.page, error) == Frame(2, [command, id, r.page % 256, r.page / 256, error])
    {
      Answer5Bytes(command, id, r.page, error);
    }
    if Live(mem, r.id) {
      assert WellFormedSlot(mem[r.id], r.id);
      PagesAreSlices(mem, r.id, r.page, Zeros(mem[r.id].pageSize));
      PageEnds(mem[r.id].pages, mem[r.id].pageSize, r.page);
    }
    if r.SallocReq? && HasPage(mem, r.id, r.page) {
      PagesAreSlices(mem, r.id, r.page, r.data);
    }
  }

  lemma {:induction false} AnswersOfEdits(mem: Store, r: Request, granted: bool)
    requires WellFormed(mem) && RequestOk(mem, r) && (r.IallocReq? || r.XallocReq?)
    ensures var command: byte, len := if r.IallocReq? then 25 else 26, if r.IallocReq? then |r.data| else r.len;
            var size := if Live(mem, r.id) then |mem[r.id].data| else 0;
            Serve(mem, r, granted).1 ==
            Frame(2, if r.at + len > size then [command, 0, 2]
                        else if 0 <= r.at && 1 <= len && r.at + len < size then [command, r.id, 0]
                        else [command, 0, 1])
  {
    hide Frame, WireOk, InsertBytes, CutBytes;
    if Live(mem, r.id) {
      SizesAreOfTheBuffer(mem, r.id, r.at, if r.IallocReq? then |r.data| else r.len,
                          if r.IallocReq? then r.data else Zeros(AtLeastZero(r.len)));
    }
  }

  /** The store and all the answers after the first `k` requests. */
  function Spec(reqs: seq<Request>, heap: nat -> bool, k: nat): (r: (Store, seq<byte>))
    requires k <= |reqs| && ConformingUpTo(reqs, heap, k)
    ensures WellFormed(r.0)
    decreases k, 1
  {
    if k == 0 then (EmptyStore(), [])
    else
      var (mem, out) := Spec(reqs, heap, k - 1);
      ServeKeepsWellFormed(mem, reqs[k - 1], heap(k - 1));
      var (mem', answer) := Serve(mem, reqs[k - 1], heap(k - 1));
      (mem', out + answer)
  }

  /** The first `k` requests come from a conforming client, and the temporary buffers that stores
      and inserts need are granted. */
  predicate ConformingUpTo(reqs: seq<Request>, heap: nat -> bool, k: nat)
    requires k <= |reqs|
    decreases k, 0
  {
    k == 0 ||
    (&& ConformingUpTo(reqs, heap, k - 1)
     && RequestOk(Spec(reqs, heap, k - 1).0, reqs[k - 1])
     && (CarriesData(reqs[k - 1]) ==> heap(k - 1)))
  }

  /** The bytes of the first `k` requests. */
  function Wire(reqs: seq<Request>, k: nat): seq<byte>
    requires k <= |reqs|
  {
    if k == 0 then [] else Wire(reqs, k - 1) + Encode(reqs[k - 1])
  }
}
