/** The paged allocations of `memstore_manager.c`: the store as a value with the laws its edits
    obey, and the class whose buffers are edited in place. */
module Memstore {
  import opened Bytes

  const MAX_MEMORY_ALLOCATIONS: nat := 21
  const MAX_PAGES: nat := 9999
  const MAX_PAGE_SIZE: nat := 32768

  /** One allocation record with the bytes of its buffer; id 0 marks a free slot. */
  datatype Alloc = Alloc(id: int, pages: int, pageSize: int, data: seq<byte>)

  const FREE: Alloc := Alloc(0, 0, 0, [])

  type Store = st: seq<Alloc> | |st| == MAX_MEMORY_ALLOCATIONS witness seq(MAX_MEMORY_ALLOCATIONS, _ => FREE)

  /** The store after `memstore_init`. */
  function EmptyStore(): (st: Store)
    ensures WellFormed(st)
  {
    seq(MAX_MEMORY_ALLOCATIONS, _ => FREE)
  }

  predicate WellFormedSlot(a: Alloc, i: nat) {
    || a == FREE
    || (&& a.id == i > 0
        && 1 <= a.pages <= MAX_PAGES
        && 1024 <= a.pageSize <= MAX_PAGE_SIZE
        && |a.data| == a.pages * a.pageSize)
  }

  /** Slot i holds id 0 or i, and slot 0 stays free. */
  predicate WellFormed(st: Store) {
    forall i: nat :: i < MAX_MEMORY_ALLOCATIONS ==> WellFormedSlot(st[i], i)
  }

  predicate Live(st: Store, id: int) {
    0 < id < MAX_MEMORY_ALLOCATIONS && st[id].id == id
  }

  // ------------------------------------------------------------- the operations

  function PageSize(st: Store, id: int): int {
    if Live(st, id) then st[id].pageSize else 0
  }

  function AllocSize(st: Store, id: int): int {
    if Live(st, id) then st[id].pageSize * st[id].pages else 0
  }

  lemma {:induction false} PageSizeInRange(st: Store, id: int)
    requires WellFormed(st)
    ensures 0 <= PageSize(st, id) <= MAX_PAGE_SIZE
  {
    if Live(st, id) { assert WellFormedSlot(st[id], id); }
  }

  /** The lowest free slot from `i` on, or 0. */
  function FreeSlotFrom(st: Store, i: nat): nat
    requires i <= MAX_MEMORY_ALLOCATIONS
    decreases MAX_MEMORY_ALLOCATIONS - i
  {
    if i == MAX_MEMORY_ALLOCATIONS then 0
    else if st[i].id == 0 then i
    else FreeSlotFrom(st, i + 1)
  }

  /** A new zeroed allocation in the lowest free slot; id 0 when every slot is taken or the heap
      does not grant the buffer. */
  function Create(st: Store, pages: nat, kb: nat, granted: bool): (r: (Store, nat))
  {
    var id := FreeSlotFrom(st, 1);
    if 0 < id < MAX_MEMORY_ALLOCATIONS && granted
    then (st[id := Alloc(id, pages, kb * 1024, Zeros(pages * (kb * 1024)))], id)
    else (st, 0)
  }

  /** Frees the slot when it holds the id asked for; slot 0 holds id 0, so freeing 0 succeeds. */
  function Free(st: Store, id: nat): (Store, bool) {
    if id < MAX_MEMORY_ALLOCATIONS && st[id].id == id then (st[id := FREE], true) else (st, false)
  }

  predicate HasPage(st: Store, id: int, page: int) {
    Live(st, id) && 0 <= page < st[id].pages
  }

  function RetrievePage(st: Store, id: int, page: int): (r: Option<seq<byte>>)
    requires WellFormed(st)
    ensures r.Some? <==> HasPage(st, id, page)
    ensures r.Some? ==> |r.value| == st[id].pageSize
  {
    if HasPage(st, id, page) then
      PageFits(st[id].pages, st[id].pageSize, page);
      Some(st[id].data[page * st[id].pageSize..page * st[id].pageSize + st[id].pageSize])
    else None
  }

  /** `src` laid over `data` from index `at`. */
  function Overwrite(data: seq<byte>, at: nat, src: seq<byte>): (r: seq<byte>)
    requires at + |src| <= |data|
    ensures |r| == |data|
  {
    data[..at] + src + data[at + |src|..]
  }

  /** The store with the bytes of one allocation replaced. */
  function WithData(st: Store, id: nat, data: seq<byte>): Store
    requires id < MAX_MEMORY_ALLOCATIONS
  {
    st[id := st[id].(data := data)]
  }

  function StorePage(st: Store, id: int, page: int, src: seq<byte>): (r: Option<Store>)
    requires WellFormed(st) && |src| >= PageSize(st, id)
    ensures r.Some? <==> HasPage(st, id, page)
  {
    if HasPage(st, id, page) then
      PageFits(st[id].pages, st[id].pageSize, page);
      Some(WithData(st, id, Overwrite(st[id].data, page * st[id].pageSize, src[..st[id].pageSize])))
    else None
  }

  /** `src` inserted at `at`; as many bytes are lost from the top end. */
  function InsertBytes(data: seq<byte>, at: nat, src: seq<byte>): (r: seq<byte>)
    requires at + |src| <= |data|
    ensures |r| == |data|
  {
    data[..at] + src + data[at..|data| - |src|]
  }

  /** `len` bytes cut at `at`; zeros fill up the top end. */
  function CutBytes(data: seq<byte>, at: nat, len: nat): (r: seq<byte>)
    requires at + len <= |data|
    ensures |r| == |data|
  {
    data[..at] + data[at + len..] + Zeros(len)
  }

  /** The guard both edits share: strictly inside a live allocation. */
  predicate CanEdit(st: Store, id: int, at: int, len: int) {
    Live(st, id) && at >= 0 && len > 0 && at + len < st[id].pages * st[id].pageSize
  }

  function Insert(st: Store, id: int, at: int, len: int, src: seq<byte>): (r: Option<Store>)
    requires WellFormed(st) && |src| >= len
    ensures r.Some? <==> CanEdit(st, id, at, len)
  {
    if CanEdit(st, id, at, len)
    then Some(WithData(st, id, InsertBytes(st[id].data, at, src[..len])))
    else None
  }

  function Cut(st: Store, id: int, at: int, len: int): (r: Option<Store>)
    requires WellFormed(st)
    ensures r.Some? <==> CanEdit(st, id, at, len)
  {
    if CanEdit(st, id, at, len)
    then Some(WithData(st, id, CutBytes(st[id].data, at, len)))
    else None
  }

  // ---------------------------------------------------------------- arithmetic

  lemma {:induction false} PageFits(pages: int, pageSize: int, page: int)
    requires 0 <= page < pages && pageSize >= 0
    ensures 0 <= page * pageSize && page * pageSize + pageSize <= pages * pageSize
  {
    var above := pages - page - 1;
    assert above * pageSize >= 0;
    assert pages * pageSize == page * pageSize + pageSize + above * pageSize;
  }

  lemma {:induction false} SizeBound(pages: int, pageSize: int)
    requires 0 <= pages <= MAX_PAGES && 0 <= pageSize <= MAX_PAGE_SIZE
    ensures pages * pageSize <= 327647232
  {
    var spare := MAX_PAGES - pages;
    assert spare * pageSize >= 0;
    assert pages * pageSize + spare * pageSize == MAX_PAGES * pageSize;
  }

  // ------------------------------------------------------------------ edit algebra

  /** Cutting and putting the same bytes back restores every byte. */
  lemma {:induction false} CutThenInsertBytes(data: seq<byte>, at: nat, len: nat)
    requires at + len <= |data|
    ensures InsertBytes(CutBytes(data, at, len), at, data[at..at + len]) == data
  {
    var cut := CutBytes(data, at, len);
    assert cut[..at] == data[..at];
    assert cut[at..|data| - len] == data[at + len..];
  }

  /** Inserting and cutting the same stretch loses exactly the top end, which becomes zero. */
  lemma {:induction false} InsertThenCutBytes(data: seq<byte>, at: nat, src: seq<byte>)
    requires at + |src| <= |data|
    ensures CutBytes(InsertBytes(data, at, src), at, |src|) == data[..|data| - |src|] + Zeros(|src|)
  {
    var ins := InsertBytes(data, at, src);
    assert ins[..at] == data[..at];
    assert ins[at + |src|..] == data[at..|data| - |src|];
    assert data[..at] + data[at..|data| - |src|] == data[..|data| - |src|];
  }

  /** On the store: whenever a cut succeeds, inserting what it removed succeeds and undoes it. */
  lemma {:induction false} CutThenInsert(st: Store, id: int, at: int, len: int)
    requires WellFormed(st) && CanEdit(st, id, at, len)
    ensures WellFormed(Cut(st, id, at, len).value)
    ensures Insert(Cut(st, id, at, len).value, id, at, len, st[id].data[at..at + len]) == Some(st)
  {
    EditsKeepStore(st, id, at, len, st[id].data[at..at + len]);
    CutThenInsertBytes(st[id].data, at, len);
    var removed := st[id].data[at..at + len];
    assert removed[..len] == removed;
    var cut := Cut(st, id, at, len).value;
    assert cut[id].data == CutBytes(st[id].data, at, len);
    assert cut[id := st[id]] == st;
  }

  lemma {:induction false} InsertThenCut(st: Store, id: int, at: int, src: seq<byte>)
    requires WellFormed(st) && CanEdit(st, id, at, |src|)
    ensures WellFormed(Insert(st, id, at, |src|, src).value)
    ensures Cut(Insert(st, id, at, |src|, src).value, id, at, |src|)
         == Some(WithData(st, id, st[id].data[..|st[id].data| - |src|] + Zeros(|src|)))
  {
    EditsKeepStore(st, id, at, |src|, src);
    assert src[..|src|] == src;
    InsertThenCutBytes(st[id].data, at, src);
    var ins := Insert(st, id, at, |src|, src).value;
    var kept := st[id].data[..|st[id].data| - |src|] + Zeros(|src|);
    assert ins[id].data == InsertBytes(st[id].data, at, src);
    assert WithData(ins, id, kept) == WithData(st, id, kept);
  }

  /** A successful edit keeps the store well formed and every other allocation as it was. */
  lemma {:induction false} EditsKeepStore(st: Store, id: int, at: int, len: int, src: seq<byte>)
    requires WellFormed(st) && CanEdit(st, id, at, len) && |src| >= len
    ensures WellFormed(Cut(st, id, at, len).value) && WellFormed(Insert(st, id, at, len, src).value)
    ensures forall j :: 0 <= j < MAX_MEMORY_ALLOCATIONS && j != id ==>
              Cut(st, id, at, len).value[j] == st[j] && Insert(st, id, at, len, src).value[j] == st[j]
  {
    assert WellFormedSlot(st[id], id);
  }

  // ------------------------------------------------------------------ page algebra

  /** A page read back right after it was stored is what was stored; any other page of any
      allocation reads as before. */
  lemma {:induction false} StoreThenRetrieve(st: Store, id: int, page: int, src: seq<byte>, id': int, page': int)
    requires WellFormed(st) && HasPage(st, id, page) && |src| >= PageSize(st, id)
    ensures WellFormed(StorePage(st, id, page, src).value)
    ensures RetrievePage(StorePage(st, id, page, src).value, id', page')
         == if id' == id && page' == page then Some(src[..PageSize(st, id)])
            else RetrievePage(st, id', page')
  {
    var st' := StorePage(st, id, page, src).value;
    assert WellFormedSlot(st[id], id);
    var a := st[id];
    PageFits(a.pages, a.pageSize, page);
    if id' == id && HasPage(st, id, page') {
      PageFits(a.pages, a.pageSize, page');
      if page' < page {
        PageFits(page, a.pageSize, page');
      } else if page < page' {
        PageFits(page', a.pageSize, page);
      }
      var o, o' := page * a.pageSize, page' * a.pageSize;
      assert o' == o || o' + a.pageSize <= o || o + a.pageSize <= o';
      OverwriteSlice(a.data, o, src[..a.pageSize], o');
    }
  }

  lemma {:induction false} OverwriteSlice(data: seq<byte>, at: nat, src: seq<byte>, from: nat)
    requires at + |src| <= |data| && from + |src| <= |data|
    requires from == at || from + |src| <= at || at + |src| <= from
    ensures Overwrite(data, at, src)[from..from + |src|]
         == if from == at then src else data[from..from + |src|]
  {
  }

  /** The pages of an allocation are the slices of a page's length that lie inside its buffer. */
  lemma {:induction false} PagesAreSlices(st: Store, id: int, page: int, src: seq<byte>)
    requires WellFormed(st) && 0 < id < 21 && st[id].id == id && |src| >= st[id].pageSize
    ensures RetrievePage(st, id, page).Some? <==> 0 <= page && (page + 1) * st[id].pageSize <= |st[id].data|
    ensures StorePage(st, id, page, src).Some? <==> 0 <= page && (page + 1) * st[id].pageSize <= |st[id].data|
    ensures var size := st[id].pageSize;
            0 <= page && 0 <= page * size && (page + 1) * size <= |st[id].data| ==>
              && RetrievePage(st, id, page) == Some(st[id].data[page * size..][..size])
              && var after := StorePage(st, id, page, src).value[id].data;
                && |after| == |st[id].data|
                && forall k :: 0 <= k < |after| ==>
                     after[k] == if page * size <= k < page * size + size then src[k - page * size] else st[id].data[k]
  {
    assert WellFormedSlot(st[id], id);
    var a := st[id];
    if 0 <= page {
      PageEnds(a.pages, a.pageSize, page);
      var from := page * a.pageSize;
      if from + a.pageSize <= |a.data| {
        assert a.data[from..][..a.pageSize] == a.data[from..from + a.pageSize];
      }
    }
  }

  lemma {:induction false} PageEnds(pages: int, size: int, page: int)
    requires 0 <= page && 0 < size
    ensures page < pages <==> (page + 1) * size <= pages * size
    ensures 0 <= page * size && (page + 1) * size == page * size + size
  {
    if page < pages {
      PageFits(pages, size, page);
    } else {
      var over := page - pages;
      assert page * size == pages * size + over * size && over * size >= 0;
    }
  }

  /** No other id has a page, a size or anything to edit. */
  lemma {:induction false} NothingElseIsThere(st: Store, id: int, page: int, at: int, len: int, src: seq<byte>)
    requires WellFormed(st) && !(0 < id < 21 && st[id].id == id) && |src| >= len
    ensures RetrievePage(st, id, page).None? && StorePage(st, id, page, src).None?
    ensures PageSize(st, id) == 0 && AllocSize(st, id) == 0
    ensures Insert(st, id, at, len, src).None? && Cut(st, id, at, len).None?
  {
  }

  /** The sizes are those of the buffer, and an edit needs at least one byte behind the stretch. */
  lemma {:induction false} SizesAreOfTheBuffer(st: Store, id: int, at: int, len: int, src: seq<byte>)
    requires WellFormed(st) && 0 < id < 21 && st[id].id == id && |src| >= len
    ensures AllocSize(st, id) == |st[id].data| && PageSize(st, id) == st[id].pageSize
    ensures Cut(st, id, at, len).Some? <==> 0 <= at && 1 <= len && at + len < |st[id].data|
    ensures Insert(st, id, at, len, src).Some? <==> 0 <= at && 1 <= len && at + len < |st[id].data|
  {
    assert WellFormedSlot(st[id], id);
  }

  /** The edits byte by byte. */
  lemma {:induction false} EditedBytes(data: seq<byte>, at: nat, src: seq<byte>, k: nat)
    requires at + |src| <= |data| && k < |data|
    ensures InsertBytes(data, at, src)[k]
         == if k < at then data[k] else if k < at + |src| then src[k - at] else data[k - |src|]
    ensures CutBytes(data, at, |src|)[k]
         == if k < at then data[k] else if k < |data| - |src| then data[k + |src|] else 0
  {
  }

  // ---------------------------------------------------------------------- slots

  lemma {:induction false} FreeSlotIsLowest(st: Store, i: nat)
    requires 0 < i <= MAX_MEMORY_ALLOCATIONS
    ensures var f := FreeSlotFrom(st, i);
            if f == 0 then forall j :: i <= j < MAX_MEMORY_ALLOCATIONS ==> st[j].id != 0
            else i <= f < MAX_MEMORY_ALLOCATIONS && st[f].id == 0 && forall j :: i <= j < f ==> st[j].id != 0
    decreases MAX_MEMORY_ALLOCATIONS - i
  {
    if i < MAX_MEMORY_ALLOCATIONS && st[i].id != 0 {
      FreeSlotIsLowest(st, i + 1);
    }
  }

  function LiveIds(st: Store): set<int> {
    set id | 0 < id < MAX_MEMORY_ALLOCATIONS && st[id].id == id
  }

  /** Creation takes the lowest slot that is not live and adds just that id to the live ones; it
      fails exactly when twenty allocations are live or the heap refuses. */
  lemma {:induction false} CreateTakesLowest(st: Store, pages: nat, kb: nat, granted: bool)
    requires WellFormed(st) && 1 <= pages <= MAX_PAGES && 1 <= kb <= 32
    ensures var (st', id) := Create(st, pages, kb, granted);
            && WellFormed(st')
            && (id == 0 <==> |LiveIds(st)| == 20 || !granted)
            && (id == 0 ==> st' == st)
            && (id != 0 ==> && id !in LiveIds(st) && LiveIds(st') == LiveIds(st) + {id}
                            && (forall j :: 0 < j < id ==> j in LiveIds(st))
                            && st'[id].data == Zeros(pages * (kb * 1024)))
  {
    hide WellFormed, WellFormedSlot, LiveIds, FreeSlotFrom;
    var f := FreeSlotFrom(st, 1);
    FreeSlotIsLowest(st, 1);
    LiveIffTaken(st);
    AllLiveIffTwenty(st);
    if f != 0 && granted {
      NewRecordIsWellFormed(f, pages, kb);
      Allocated(st, f, Alloc(f, pages, kb * 1024, Zeros(pages * (kb * 1024))));
    }
  }

  /** A new allocation has exactly the pages asked for, of the size asked for, and they read as zeros. */
  lemma {:induction false} CreatedPages(st: Store, pages: nat, kb: nat, granted: bool, page: int)
    requires WellFormed(st) && 1 <= pages <= MAX_PAGES && 1 <= kb <= 32 && Create(st, pages, kb, granted).1 != 0
    ensures var (st', id) := Create(st, pages, kb, granted);
            && WellFormed(st') && id < 21
            && PageSize(st', id) == kb * 1024
            && (RetrievePage(st', id, page) == if 0 <= page < pages then Some(Zeros(kb * 1024)) else None)
  {
    hide WellFormed;
    CreateTakesLowest(st, pages, kb, granted);
    FreeSlotIsLowest(st, 1);
    var (st', id) := Create(st, pages, kb, granted);
    if 0 <= page < pages {
      PageFits(pages, kb * 1024, page);
      var from := page * (kb * 1024);
      assert Zeros(pages * (kb * 1024))[from..from + kb * 1024] == Zeros(kb * 1024);
    }
  }

  lemma {:induction false} LiveIffTaken(st: Store)
    requires WellFormed(st)
    ensures forall j :: 0 < j < MAX_MEMORY_ALLOCATIONS ==> (st[j].id != 0 <==> j in LiveIds(st))
  {
    forall j | 0 < j < MAX_MEMORY_ALLOCATIONS ensures st[j].id != 0 <==> j in LiveIds(st) {
      assert WellFormedSlot(st[j], j);
    }
  }

  lemma {:induction false} NewRecordIsWellFormed(id: nat, pages: nat, kb: nat)
    requires 0 < id && 1 <= pages <= MAX_PAGES && 1 <= kb <= 32
    ensures WellFormedSlot(Alloc(id, pages, kb * 1024, Zeros(pages * (kb * 1024))), id)
  {
  }

  /** A well-formed record in a free slot makes just its id live. */
  lemma {:induction false} Allocated(st: Store, id: nat, a: Alloc)
    requires WellFormed(st) && 0 < id < MAX_MEMORY_ALLOCATIONS && st[id].id == 0
    requires WellFormedSlot(a, id) && a.id == id
    ensures WellFormed(st[id := a]) && LiveIds(st[id := a]) == LiveIds(st) + {id} && id !in LiveIds(st)
  {
    hide WellFormedSlot;
    var st' := st[id := a];
    forall i: nat | i < MAX_MEMORY_ALLOCATIONS ensures WellFormedSlot(st'[i], i) {
      assert WellFormedSlot(st[i], i);
    }
  }

  /** The first allocation of a run, of one page of 1024 bytes. */
  lemma {:induction false} OneAllocation()
    ensures var (mem, id) := Create(EmptyStore(), 1, 1, true);
            WellFormed(mem) && id == 1 && PageSize(mem, 1) == 1024 && HasPage(mem, 1, 0)
  {
    CreateTakesLowest(EmptyStore(), 1, 1, true);
  }

  /** The ids 1, …, n - 1. */
  function IdsBelow(n: nat): (ids: set<int>)
    requires n > 0
    ensures |ids| == n - 1
    ensures forall id :: id in ids <==> 0 < id < n
  {
    if n == 1 then {} else IdsBelow(n - 1) + {n - 1}
  }

  lemma {:induction false} CreatedSlot(st: Store, pages: nat, kb: nat)
    requires WellFormed(st) && 1 <= pages <= MAX_PAGES && 1 <= kb <= 32 && FreeSlotFrom(st, 1) != 0
    ensures var (st', id) := Create(st, pages, kb, true);
            && id == FreeSlotFrom(st, 1) < MAX_MEMORY_ALLOCATIONS && WellFormed(st')
            && st'[id] == Alloc(id, pages, kb * 1024, Zeros(pages * (kb * 1024)))
            && st[id].id == 0
            && forall j :: 0 <= j < MAX_MEMORY_ALLOCATIONS && j != id ==> st'[j] == st[j]
  {
    FreeSlotIsLowest(st, 1);
    CreateTakesLowest(st, pages, kb, true);
  }

  lemma {:induction false} AllLiveIffTwenty(st: Store)
    ensures |LiveIds(st)| == 20 <==> forall j :: 0 < j < MAX_MEMORY_ALLOCATIONS ==> j in LiveIds(st)
  {
    var all := IdsBelow(MAX_MEMORY_ALLOCATIONS);
    assert LiveIds(st) <= all;
    if forall j :: 0 < j < MAX_MEMORY_ALLOCATIONS ==> j in LiveIds(st) {
      assert LiveIds(st) == all;
    }
    if |LiveIds(st)| == 20 {
      SubsetOfSameSize(LiveIds(st), all);
    }
  }

  lemma {:induction false} SubsetOfSameSize<T>(a: set<T>, b: set<T>)
    requires a <= b && |a| == |b|
    ensures a == b
  {
    assert b == a + (b - a);
  }

  lemma {:induction false} FreeKeepsStore(st: Store, id: nat)
    requires WellFormed(st)
    ensures var (st', ok) := Free(st, id);
            && WellFormed(st')
            && (ok <==> id in LiveIds(st) || id == 0)
            && LiveIds(st') == LiveIds(st) - {id}
            && (id == 0 ==> st' == st)
            && forall j :: 0 <= j < MAX_MEMORY_ALLOCATIONS && j != id ==> st'[j] == st[j]
  {
    assert WellFormedSlot(st[0], 0);
    var st' := Free(st, id).0;
    forall i: nat | i < MAX_MEMORY_ALLOCATIONS ensures WellFormedSlot(st'[i], i) {
      assert WellFormedSlot(st[i], i);
    }
  }

  // -------------------------------------------------------------------- all runs

  datatype Op =
    | OpCreate(pages: nat, kb: nat, granted: bool)
    | OpFree(freed: nat)
    | OpStore(id: int, page: int, src: seq<byte>)
    | OpInsert(id: int, at: int, len: int, src: seq<byte>)
    | OpCut(id: int, at: int, len: int)

  /** What the command layer passes down: page counts and sizes it has checked, and a source
      buffer that holds at least the bytes the operation copies. */
  predicate Checked(st: Store, op: Op) {
    && (op.OpCreate? ==> 1 <= op.pages <= MAX_PAGES && 1 <= op.kb <= 32)
    && (op.OpStore? ==> |op.src| >= PageSize(st, op.id))
    && (op.OpInsert? ==> |op.src| >= op.len)
  }

  function Apply(st: Store, op: Op): Store
    requires WellFormed(st) && Checked(st, op)
  {
    if op.OpCreate? then Create(st, op.pages, op.kb, op.granted).0
    else if op.OpFree? then Free(st, op.freed).0
    else if op.OpStore? then OrElse(StorePage(st, op.id, op.page, op.src), st)
    else if op.OpInsert? then OrElse(Insert(st, op.id, op.at, op.len, op.src), st)
    else OrElse(Cut(st, op.id, op.at, op.len), st)
  }

  function OrElse(o: Option<Store>, st: Store): Store {
    if o.Some? then o.value else st
  }

  /** Every operation keeps the store well formed. */
  lemma {:induction false} ApplyKeepsWellFormed(st: Store, op: Op)
    requires WellFormed(st) && Checked(st, op)
    ensures WellFormed(Apply(st, op))
  {
    match op
    case OpCreate(pages, kb, granted) => CreateTakesLowest(st, pages, kb, granted);
    case OpFree(id) => FreeKeepsStore(st, id);
    case OpStore(id, page, src) =>
      if HasPage(st, id, page) { StoreThenRetrieve(st, id, page, src, id, page); }
    case OpInsert(id, at, len, src) =>
      if CanEdit(st, id, at, len) { EditsKeepStore(st, id, at, len, src); }
    case OpCut(id, at, len) =>
      if CanEdit(st, id, at, len) { EditsKeepStore(st, id, at, len, st[id].data[at..at + len]); }
  }

  /** `states` is a run of the store from power-up under the operations `ops`. */
  ghost predicate StoreRun(states: seq<Store>, ops: seq<Op>) {
    && |states| == |ops| + 1
    && states[0] == EmptyStore()
    && forall i :: 0 <= i < |ops| ==> StoreStep(states[i], ops[i], states[i + 1])
  }

  ghost predicate StoreStep(st: Store, op: Op, st': Store) {
    WellFormed(st) ==> Checked(st, op) && st' == Apply(st, op)
  }

  /** In every state of every run: slot i holds id 0 or i, slot 0 is free, and no live buffer is
      larger than 9999 pages of 32768 bytes. */
  lemma {:induction false} StoreInvariant(states: seq<Store>, ops: seq<Op>, n: nat)
    requires StoreRun(states, ops) && n < |states|
    ensures WellFormed(states[n]) && states[n][0] == FREE
    ensures forall id :: Live(states[n], id) ==> |states[n][id].data| <= 327647232
  {
    if n > 0 {
      StoreInvariant(states, ops, n - 1);
      assert StoreStep(states[n - 1], ops[n - 1], states[n - 1 + 1]);
      ApplyKeepsWellFormed(states[n - 1], ops[n - 1]);
    }
    assert WellFormedSlot(states[n][0], 0);
    forall id | Live(states[n], id) ensures |states[n][id].data| <= 327647232 {
      assert WellFormedSlot(states[n][id], id);
      SizeBound(states[n][id].pages, states[n][id].pageSize);
    }
  }

  // ------------------------------------------------------- the records and buffers

  datatype Slot = Slot(id: int, pages: int, pageSize: int, data: array?<byte>)

  const FREE_SLOT: Slot := Slot(0, 0, 0, null)

  /** C's `memmove` inside one buffer: it copies from the bottom or from the top, whichever keeps
      the source bytes intact when the two stretches overlap. */
  method MemMove(a: array<byte>, dst: nat, src: nat, n: nat)
    requires dst + n <= a.Length && src + n <= a.Length
    modifies a
    ensures a[..] == Overwrite(old(a[..]), dst, old(a[src..src + n]))
  {
    if dst <= src {
      MoveFromBottom(a, dst, src, n);
    } else {
      MoveFromTop(a, dst, src, n);
    }
  }

  method MoveFromBottom(a: array<byte>, dst: nat, src: nat, n: nat)
    requires dst <= src && src + n <= a.Length
    modifies a
    ensures a[..] == Overwrite(old(a[..]), dst, old(a[src..src + n]))
  {
    ghost var was := a[..];
    for k := 0 to n
      invariant a[..] == Overwrite(was, dst, was[src..src + k])
    {
      MoveStepFromBottom(was, dst, src, k);
      assert a[src + k] == a[..][src + k];
      a[dst + k] := a[src + k];
    }
  }

  lemma {:induction false} MoveStepFromBottom(was: seq<byte>, dst: nat, src: nat, k: nat)
    requires dst <= src && src + k < |was|
    ensures Overwrite(was, dst, was[src..src + k])[src + k] == was[src + k]
    ensures Overwrite(was, dst, was[src..src + k])[dst + k := was[src + k]]
         == Overwrite(was, dst, was[src..src + k + 1])
  {
    OverwriteGrowsUp(was, dst, was[src..src + k], was[src + k]);
    assert was[src..src + k + 1] == was[src..src + k] + [was[src + k]];
  }

  method MoveFromTop(a: array<byte>, dst: nat, src: nat, n: nat)
    requires src < dst && dst + n <= a.Length
    modifies a
    ensures a[..] == Overwrite(old(a[..]), dst, old(a[src..src + n]))
  {
    ghost var was := a[..];
    for k := n downto 0
      invariant a[..] == Overwrite(was, dst + k, was[src + k..src + n])
    {
      MoveStepFromTop(was, dst, src, n, k);
      assert a[src + k] == a[..][src + k];
      a[dst + k] := a[src + k];
    }
  }

  lemma {:induction false} MoveStepFromTop(was: seq<byte>, dst: nat, src: nat, n: nat, k: nat)
    requires src < dst && dst + n <= |was| && k < n
    ensures Overwrite(was, dst + k + 1, was[src + k + 1..src + n])[src + k] == was[src + k]
    ensures Overwrite(was, dst + k + 1, was[src + k + 1..src + n])[dst + k := was[src + k]]
         == Overwrite(was, dst + k, was[src + k..src + n])
  {
    OverwriteGrowsDown(was, dst + k, was[src + k + 1..src + n], was[src + k]);
    assert was[src + k..src + n] == [was[src + k]] + was[src + k + 1..src + n];
  }

  lemma {:induction false} OverwriteGrowsUp(data: seq<byte>, at: nat, src: seq<byte>, b: byte)
    requires at + |src| < |data|
    ensures Overwrite(data, at, src)[at + |src| := b] == Overwrite(data, at, src + [b])
  {
  }

  lemma {:induction false} OverwriteGrowsDown(data: seq<byte>, at: nat, src: seq<byte>, b: byte)
    requires at + 1 + |src| <= |data|
    ensures Overwrite(data, at + 1, src)[at := b] == Overwrite(data, at, [b] + src)
  {
  }

  method MemCopy(a: array<byte>, dst: nat, src: seq<byte>)
    requires dst + |src| <= a.Length
    modifies a
    ensures a[..] == Overwrite(old(a[..]), dst, src)
  {
    ghost var was := a[..];
    for k := 0 to |src|
      invariant a[..] == Overwrite(was, dst, src[..k])
    {
      OverwriteGrowsUp(was, dst, src[..k], src[k]);
      assert src[..k + 1] == src[..k] + [src[k]];
      a[dst + k] := src[k];
    }
    assert src[..|src|] == src;
  }

  lemma {:induction false} OverwritesInsert(data: seq<byte>, at: nat, src: seq<byte>)
    requires at + |src| <= |data|
    ensures Overwrite(Overwrite(data, at + |src|, data[at..|data| - |src|]), at, src)
         == InsertBytes(data, at, src)
  {
    var tail := data[at..|data| - |src|];
    assert Overwrite(data, at + |src|, tail) == data[..at + |src|] + tail;
    assert (data[..at + |src|] + tail)[..at] == data[..at];
  }

  lemma {:induction false} OverwritesCut(data: seq<byte>, at: nat, len: nat)
    requires at + len <= |data|
    ensures Overwrite(Overwrite(data, at, data[at + len..]), |data| - len, Zeros(len))
         == CutBytes(data, at, len)
  {
    var tail := data[at + len..];
    assert Overwrite(data, at, tail)[..|data| - len] == data[..at] + tail;
  }

  /** The two copies of `memstore_insert_data` on the whole buffer. */
  method InsertInBuffer(a: array<byte>, at: nat, src: seq<byte>)
    requires at + |src| <= a.Length
    modifies a
    ensures a[..] == InsertBytes(old(a[..]), at, src)
  {
    hide Overwrite, InsertBytes;
    OverwritesInsert(a[..], at, src);
    assert a[..][at..a.Length - |src|] == a[at..a.Length - |src|];
    MemMove(a, at + |src|, at, a.Length - at - |src|);
    MemCopy(a, at, src);
  }

  /** The move and the clear of `memstore_cut_data` on the whole buffer. */
  method CutFromBuffer(a: array<byte>, at: nat, len: nat)
    requires at + len <= a.Length
    modifies a
    ensures a[..] == CutBytes(old(a[..]), at, len)
  {
    hide Overwrite, CutBytes;
    OverwritesCut(a[..], at, len);
    assert a[..][at + len..] == a[at + len..a.Length];
    MemMove(a, at, at + len, a.Length - at - len);
    MemCopy(a, a.Length - len, Zeros(len));
  }

  /** The table of `memstore_manager.c`. The ghost field `store` is its value, and `Valid` makes
      every live slot own a buffer of its own. */
  class MemoryTable {
    const slots: array<Slot>
    ghost var store: Store
    ghost var Repr: set<object>

    ghost predicate Valid()
      reads this, Repr
      ensures Valid() ==> this in Repr
    {
      && this in Repr && slots in Repr
      && slots.Length == MAX_MEMORY_ALLOCATIONS
      && WellFormed(store)
      && (forall i :: 0 <= i < slots.Length ==> slots[i].data == null || slots[i].data in Repr)
      && (forall i :: 0 <= i < slots.Length ==> Holds(slots[i], store[i]))
      && (forall i, j :: 0 <= i < j < slots.Length && slots[i].data != null ==> slots[i].data != slots[j].data)
    }

    static ghost predicate Holds(s: Slot, a: Alloc)
      reads s.data
    {
      && s.id == a.id && s.pages == a.pages && s.pageSize == a.pageSize
      && (s.data == null <==> a.id == 0)
      && (s.data != null ==> s.data[..] == a.data)
    }

    constructor ()
      ensures Valid() && fresh(Repr) && store == EmptyStore()
    {
      slots := new Slot[MAX_MEMORY_ALLOCATIONS](_ => FREE_SLOT);
      store := EmptyStore();
      Repr := {this, slots};
    }

    method PageSizeBytes(id: int) returns (n: int)
      requires Valid()
      ensures n == PageSize(store, id)
    {
      n := 0;
      if 0 < id < MAX_MEMORY_ALLOCATIONS {
        assert Holds(slots[id], store[id]);
        if slots[id].id == id {
          n := slots[id].pageSize;
        }
      }
    }

    method AllocSizeBytes(id: int) returns (n: int)
      requires Valid()
      ensures n == AllocSize(store, id)
    {
      n := 0;
      if 0 < id < MAX_MEMORY_ALLOCATIONS {
        assert Holds(slots[id], store[id]);
        if slots[id].id == id {
          n := slots[id].pageSize * slots[id].pages;
        }
      }
    }

    method FreeMemoryAllocation() returns (id: nat)
      requires Valid()
      ensures id == FreeSlotFrom(store, 1)
    {
      for index := 1 to MAX_MEMORY_ALLOCATIONS
        invariant FreeSlotFrom(store, 1) == FreeSlotFrom(store, index)
      {
        assert Holds(slots[index], store[index]);
        if slots[index].id == 0 {
          return index;
        }
      }
      return 0;
    }

    /** `granted` is the answer of `calloc`. */
    method CreateAllocation(pages: nat, kb: nat, granted: bool) returns (id: nat)
      requires Valid() && 1 <= pages <= MAX_PAGES && 1 <= kb <= 32
      modifies Repr
      ensures Valid() && fresh(Repr - old(Repr))
      ensures (store, id) == Create(old(store), pages, kb, granted)
    {
      id := FreeMemoryAllocation();
      FreeSlotIsLowest(store, 1);
      if 0 < id < MAX_MEMORY_ALLOCATIONS {
        if granted {
          SetUp(id, pages, kb);
        } else {
          ClearFree(id);
          id := 0;
        }
      }
    }

    /** Fills a free record and gives it a zeroed buffer. */
    method SetUp(id: nat, pages: nat, kb: nat)
      requires Valid() && 1 <= pages <= MAX_PAGES && 1 <= kb <= 32
      requires 0 < id < MAX_MEMORY_ALLOCATIONS && id == FreeSlotFrom(store, 1)
      modifies Repr
      ensures Valid() && fresh(Repr - old(Repr))
      ensures store == Create(old(store), pages, kb, true).0
    {
      hide Create, WellFormed, FreeSlotFrom;
      ghost var created := Create(store, pages, kb, true).0;
      CreatedSlot(store, pages, kb);
      var buffer := new byte[pages * (kb * 1024)](_ => 0);
      assert buffer[..] == Zeros(pages * (kb * 1024));
      slots[id] := Slot(id, pages, kb * 1024, buffer);
      store := created;
      Repr := Repr + {buffer};
    }

    /** Clears a record that is free already. */
    method ClearFree(id: nat)
      requires Valid() && id < MAX_MEMORY_ALLOCATIONS && store[id].id == 0
      modifies slots
      ensures Valid()
    {
      assert Holds(slots[id], store[id]) && WellFormedSlot(store[id], id);
      slots[id] := FREE_SLOT;
    }

    method FreeAllocation(id: nat) returns (ok: bool)
      requires Valid()
      modifies Repr
      ensures Valid() && fresh(Repr - old(Repr))
      ensures (store, ok) == Free(old(store), id)
    {
      ok := false;
      if id < MAX_MEMORY_ALLOCATIONS {
        assert Holds(slots[id], store[id]);
        if slots[id].id == id {
          FreeKeepsStore(store, id);
          slots[id] := FREE_SLOT;
          store := Free(store, id).0;
          ok := true;
        }
      }
    }

    /** The bytes the returned pointer shows; `number_of_bytes` is their count. */
    method RetrievePageOfData(id: int, page: int) returns (data: Option<seq<byte>>)
      requires Valid()
      ensures data == RetrievePage(store, id, page)
    {
      data := None;
      if 0 < id < MAX_MEMORY_ALLOCATIONS {
        assert Holds(slots[id], store[id]);
        if 0 <= page < slots[id].pages && slots[id].id == id {
          var a := slots[id];
          PageFits(a.pages, a.pageSize, page);
          assert WellFormedSlot(store[id], id);
          data := Some(a.data[page * a.pageSize..page * a.pageSize + a.pageSize]);
        }
      }
    }

    method StorePageOfData(id: int, page: int, src: seq<byte>) returns (ok: bool)
      requires Valid() && |src| >= PageSize(store, id)
      modifies Repr
      ensures Valid() && Repr == old(Repr)
      ensures ok <==> HasPage(old(store), id, page)
      ensures store == OrElse(StorePage(old(store), id, page, src), old(store))
    {
      ok := false;
      if 0 < id < MAX_MEMORY_ALLOCATIONS {
        assert Holds(slots[id], store[id]);
        if 0 <= page < slots[id].pages && slots[id].id == id {
          var a := slots[id];
          PageFits(a.pages, a.pageSize, page);
          assert WellFormedSlot(store[id], id);
          StoreThenRetrieve(store, id, page, src, id, page);
          MemCopy(a.data, page * a.pageSize, src[..a.pageSize]);
          store := StorePage(store, id, page, src).value;
          ok := true;
        }
      }
    }

    method InsertData(id: int, at: int, len: int, src: seq<byte>) returns (ok: bool)
      requires Valid() && |src| >= len
      modifies Repr
      ensures Valid() && Repr == old(Repr)
      ensures ok <==> CanEdit(old(store), id, at, len)
      ensures store == OrElse(Insert(old(store), id, at, len, src), old(store))
    {
      ok := false;
      if 0 < id < MAX_MEMORY_ALLOCATIONS {
        assert Holds(slots[id], store[id]);
        if at >= 0 && len > 0 && at + len < slots[id].pages * slots[id].pageSize && slots[id].id == id {
          var a := slots[id];
          assert WellFormedSlot(store[id], id);
          EditsKeepStore(store, id, at, len, src);
          InsertInBuffer(a.data, at, src[..len]);
          store := Insert(store, id, at, len, src).value;
          ok := true;
        }
      }
    }

    method CutData(id: int, at: int, len: int) returns (ok: bool)
      requires Valid()
      modifies Repr
      ensures Valid() && Repr == old(Repr)
      ensures ok <==> CanEdit(old(store), id, at, len)
      ensures store == OrElse(Cut(old(store), id, at, len), old(store))
    {
      ok := false;
      if 0 < id < MAX_MEMORY_ALLOCATIONS {
        assert Holds(slots[id], store[id]);
        if at >= 0 && len > 0 && at + len < slots[id].pages * slots[id].pageSize && slots[id].id == id {
          var a := slots[id];
          assert WellFormedSlot(store[id], id);
          EditsKeepStore(store, id, at, len, store[id].data[at..at + len]);
          CutFromBuffer(a.data, at, len);
          store := Cut(store, id, at, len).value;
          ok := true;
        }
      }
    }
  }
}
