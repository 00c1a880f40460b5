/** Pages of a data file as a map from record ids to bytes, and the page chain of one heap file. */
module HeapModel {
  import opened Types
  import opened Bytes
  import opened SlottedPageModel

  /** What the pages of a file represent. */
  type View = map<PageId, PageState>

  /** The record stored under an id, if any. */
  function Lookup(pages: View, rid: RecordId): Option<seq<byte>> {
    if rid.page in pages && Live(pages[rid.page], rid.slot) then Some(pages[rid.page].records[rid.slot]) else None
  }

  /** What is stored under `rid` becomes `v`; everything else is as before. */
  ghost predicate OneChanged(a: View, b: View, rid: RecordId, v: Option<seq<byte>>) {
    forall x :: Lookup(b, x) == if x == rid then v else Lookup(a, x)
  }

  ghost predicate SameStore(a: View, b: View) {
    forall x :: Lookup(b, x) == Lookup(a, x)
  }

  /** How bytes are stored: an empty record is a deleted one. */
  function Stored(r: seq<byte>): Option<seq<byte>> {
    if r == [] then None else Some(r)
  }

  /** Pages of the file carry numbers below the allocation counter. */
  predicate InFile(pages: View, nextId: PageId) {
    forall id :: id in pages ==> 0 <= id < nextId
  }

  function NextIn(chain: seq<PageId>, i: nat): PageId
    requires i < |chain|
  {
    if i + 1 < |chain| then chain[i + 1] else INVALID_PAGE
  }

  predicate LinkOk(pages: View, chain: seq<PageId>, i: nat)
    requires i < |chain|
  {
    chain[i] in pages && pages[chain[i]].next == NextIn(chain, i)
  }

  /** The pages of the heap file, first to last, each linking to the next. */
  predicate Chained(pages: View, chain: seq<PageId>) {
    && |chain| > 0
    && (forall i, j :: 0 <= i < j < |chain| ==> chain[i] != chain[j])
    && (forall i: nat :: i < |chain| ==> LinkOk(pages, chain, i))
  }

  /** A page changes without its link: the chain stays. */
  lemma {:induction false} ChainKept(pages: View, chain: seq<PageId>, id: PageId, d: PageState)
    requires Chained(pages, chain) && id in pages
    requires d.next == pages[id].next
    ensures Chained(pages[id := d], chain)
  {
    var b := pages[id := d];
    forall i: nat | i < |chain| ensures LinkOk(b, chain, i) {
      assert LinkOk(pages, chain, i);
    }
  }

  /** A new page, linked from the last one. */
  lemma {:induction false} ChainExtended(pages: View, chain: seq<PageId>, newId: PageId, d: PageState, linked: PageState)
    requires Chained(pages, chain) && newId !in pages
    requires d.next == INVALID_PAGE
    requires var lastId := chain[|chain| - 1]; lastId in pages && linked == pages[lastId].(next := newId)
    ensures var b := pages[newId := d][chain[|chain| - 1] := linked];
            Chained(b, chain + [newId])
  {
    var n := |chain|;
    var b := pages[newId := d][chain[n - 1] := linked];
    var c := chain + [newId];
    forall i: nat | i < n ensures chain[i] in pages {
      assert LinkOk(pages, chain, i);
    }
    forall i: nat | i < |c| ensures LinkOk(b, c, i) {
      if i < n {
        assert LinkOk(pages, chain, i);
      }
    }
  }

  /** Changing one slot of one page changes one record. */
  lemma {:induction false} SlotChange(pages: View, id: PageId, d: PageState, i: nat, r: seq<byte>)
    requires id in pages
    requires i <= |pages[id].records| && d.records == SetRecord(pages[id].records, i, r)
    ensures OneChanged(pages, pages[id := d], RecordId(id, i), Stored(r))
  {
    var b := pages[id := d];
    forall x ensures Lookup(b, x) == if x == RecordId(id, i) then Stored(r) else Lookup(pages, x) {
    }
  }

  /** A page without records, and a changed link, store nothing. */
  lemma {:induction false} LinkChange(pages: View, id: PageId, d: PageState, newId: PageId, e: PageState)
    requires id in pages && newId !in pages
    requires d.records == pages[id].records && e.records == []
    ensures SameStore(pages, pages[newId := e][id := d])
  {
    var b := pages[newId := e][id := d];
    forall x ensures Lookup(b, x) == Lookup(pages, x) {
    }
  }

  /* ---------- The operations ---------- */

  datatype Heap = Heap(pages: View, chain: seq<PageId>, last: nat, next: PageId)

  predicate WellFormed(h: Heap) {
    Chained(h.pages, h.chain) && InFile(h.pages, h.next) && FreeOk(h.pages) && h.last < |h.chain| && 0 <= h.next
  }

  predicate FreeOk(pages: View) {
    forall id :: id in pages ==> pages[id].free <= PAGE_SIZE
  }

  /** The state after an operation and what the operation returns. */
  datatype Outcome = Outcome(heap: Heap, result: Result<RecordId>)

  /** The first page of the chain, from position `k` on, with room for `n` bytes. */
  function FirstRoom(h: Heap, k: nat, n: nat): (i: nat)
    requires WellFormed(h) && k <= |h.chain|
    ensures k <= i <= |h.chain| && (i < |h.chain| ==> RoomAt(h, i, n))
    decreases |h.chain| - k
  {
    if k == |h.chain| || RoomAt(h, k, n) then k else FirstRoom(h, k + 1, n)
  }

  lemma {:induction false} FirstRoomIsFirst(h: Heap, k: nat, n: nat, j: nat)
    requires WellFormed(h) && k <= j < |h.chain| && j < FirstRoom(h, k, n)
    ensures !RoomAt(h, j, n)
    decreases |h.chain| - k
  {
    if k < j {
      FirstRoomIsFirst(h, k + 1, n, j);
    }
  }

  lemma {:induction false} FirstRoomStep(h: Heap, k: nat, n: nat)
    requires WellFormed(h) && k < |h.chain|
    ensures FirstRoom(h, k, n) == if RoomAt(h, k, n) then k else FirstRoom(h, k + 1, n)
  {
  }

  predicate RoomAt(h: Heap, k: nat, n: nat)
    requires k < |h.chain|
  {
    h.chain[k] in h.pages && HasRoom(h.pages[h.chain[k]], n)
  }

  function StoreAt(h: Heap, k: nat, r: seq<byte>): Outcome
    requires k < |h.chain| && RoomAt(h, k, |r|)
  {
    var id := h.chain[k];
    var p := h.pages[id];
    Outcome(h.(pages := h.pages[id := Insert(p, r)], last := k), Success(RecordId(id, FreeSlot(p.records))))
  }

  /** An empty page behind the last one. */
  function Extend(h: Heap): Heap
    requires WellFormed(h)
  {
    var id := h.chain[|h.chain| - 1];
    assert LinkOk(h.pages, h.chain, |h.chain| - 1);
    h.(pages := h.pages[h.next := PageState(h.next, INVALID_PAGE, [], PAGE_SIZE)][id := h.pages[id].(next := h.next)],
       chain := h.chain + [h.next], next := h.next + 1)
  }

  function InsertRecord(h: Heap, r: seq<byte>): Outcome
    requires WellFormed(h)
  {
    var k := FirstRoom(h, h.last, |r|);
    if k < |h.chain| then StoreAt(h, k, r)
    else
      var g := Extend(h);
      if RoomAt(g, k, |r|) then StoreAt(g, k, r) else Outcome(g, Failure(OutOfSpace))
  }

  function DeleteRecord(h: Heap, rid: RecordId): Outcome {
    if Lookup(h.pages, rid).None? then Outcome(h, Failure(NotFound))
    else Outcome(h.(pages := h.pages[rid.page := Replace(h.pages[rid.page], rid.slot, [])]), Success(rid))
  }

  function UpdateRecord(h: Heap, rid: RecordId, r: seq<byte>): Outcome
    requires WellFormed(h)
  {
    var before := Lookup(h.pages, rid);
    if before.Some? && |r| <= |before.value| then
      Outcome(h.(pages := h.pages[rid.page := Replace(h.pages[rid.page], rid.slot, r)]), Success(rid))
    else
      var d := DeleteRecord(h, rid);
      if d.result.Failure? then d
      else
        ReplaceKeeps(h, rid.page, rid.slot, []);
        InsertRecord(d.heap, r)
  }

  /* ---------- What each operation does to the stored records ---------- */

  /** Replacing a record in its slot keeps the file in order and changes that record only. */
  lemma {:induction false} ReplaceKeeps(h: Heap, id: PageId, i: nat, r: seq<byte>)
    requires WellFormed(h) && id in h.pages && i < |h.pages[id].records|
    ensures WellFormed(h.(pages := h.pages[id := Replace(h.pages[id], i, r)]))
    ensures OneChanged(h.pages, h.pages[id := Replace(h.pages[id], i, r)], RecordId(id, i), Stored(r))
  {
    var p := Replace(h.pages[id], i, r);
    ChainKept(h.pages, h.chain, id, p);
    SlotChange(h.pages, id, p, i, r);
  }

  lemma {:induction false} StoreKeeps(h: Heap, k: nat, r: seq<byte>)
    requires WellFormed(h) && k < |h.chain| && RoomAt(h, k, |r|)
    ensures var o := StoreAt(h, k, r);
            && WellFormed(o.heap) && o.result.value.page == h.chain[k] && |r| <= MAX_RECORD
            && Lookup(h.pages, o.result.value) == None
            && OneChanged(h.pages, o.heap.pages, o.result.value, Stored(r))
  {
    var id := h.chain[k];
    var p := h.pages[id];
    ChainKept(h.pages, h.chain, id, Insert(p, r));
    SlotChange(h.pages, id, Insert(p, r), FreeSlot(p.records), r);
  }

  lemma {:induction false} ExtendKeeps(h: Heap)
    requires WellFormed(h)
    ensures WellFormed(Extend(h)) && SameStore(h.pages, Extend(h).pages)
    ensures forall n: nat :: RoomAt(Extend(h), |h.chain|, n) <==> n <= MAX_RECORD
  {
    assert LinkOk(h.pages, h.chain, |h.chain| - 1);
    var id := h.chain[|h.chain| - 1];
    var e, d := PageState(h.next, INVALID_PAGE, [], PAGE_SIZE), h.pages[id].(next := h.next);
    ChainExtended(h.pages, h.chain, h.next, e, d);
    LinkChange(h.pages, id, d, h.next, e);
  }

  /** Inserting: an id that was not in use, exactly this record more; it fails only for what no page can hold. */
  lemma {:induction false} InsertKeeps(h: Heap, r: seq<byte>)
    requires WellFormed(h)
    ensures var o := InsertRecord(h, r);
            && WellFormed(o.heap)
            && (o.result.Success? <==> |r| <= MAX_RECORD)
            && (match o.result
                case Success(rid) =>
                  rid.page in o.heap.chain && Lookup(h.pages, rid) == None && OneChanged(h.pages, o.heap.pages, rid, Stored(r))
                case Failure(st) => st == OutOfSpace && SameStore(h.pages, o.heap.pages))
  {
    var k := FirstRoom(h, h.last, |r|);
    if k < |h.chain| {
      StoreKeeps(h, k, r);
    } else {
      ExtendKeeps(h);
      var g := Extend(h);
      if RoomAt(g, k, |r|) {
        StoreKeeps(g, k, r);
      }
    }
  }

  /* ---------- Runs ---------- */

  datatype Op = InsertOp(r: seq<byte>) | DeleteOp(rid: RecordId) | UpdateOp(rid: RecordId, r: seq<byte>)

  function Step(h: Heap, op: Op): Outcome
    requires WellFormed(h)
  {
    match op
    case InsertOp(r) => InsertRecord(h, r)
    case DeleteOp(rid) => DeleteRecord(h, rid)
    case UpdateOp(rid, r) => UpdateRecord(h, rid, r)
  }

  type Store = map<RecordId, seq<byte>>

  ghost predicate Agrees(pages: View, m: Store) {
    forall rid :: Lookup(pages, rid) == if rid in m then Some(m[rid]) else None
  }

  function PutRecord(m: Store, rid: RecordId, r: seq<byte>): Store {
    if r == [] then m - {rid} else m[rid := r]
  }

  /** The operations on a plain map from record ids to bytes, under the ids that were returned. */
  function StoreStep(m: Store, op: Op, result: Result<RecordId>): Store {
    match op
    case InsertOp(r) => if result.Success? then PutRecord(m, result.value, r) else m
    case DeleteOp(rid) => m - {rid}
    case UpdateOp(rid, r) =>
      if rid !in m then m
      else if result.Success? then PutRecord(m - {rid}, result.value, r)
      else m - {rid}
  }

  /** What an operation returns, in terms of the stored records. */
  predicate ResultRight(m: Store, op: Op, result: Result<RecordId>) {
    match op
    case InsertOp(r) =>
      (result.Success? <==> |r| <= MAX_RECORD) && (if result.Success? then result.value !in m else result.status == OutOfSpace)
    case DeleteOp(rid) => result == if rid in m then Success(rid) else Failure(NotFound)
    case UpdateOp(rid, r) =>
      if rid !in m then result == Failure(NotFound)
      else if |r| <= |m[rid]| then result == Success(rid)
      else
        && (result.Success? <==> |r| <= MAX_RECORD)
        && (if result.Success? then result.value == rid || result.value !in m else result.status == OutOfSpace)
  }

  lemma {:induction false} AgreesAfter(a: View, b: View, m: Store, rid: RecordId, r: seq<byte>)
    requires Agrees(a, m) && OneChanged(a, b, rid, Stored(r))
    ensures Agrees(b, PutRecord(m, rid, r))
  {
    forall x ensures Lookup(b, x) == if x in PutRecord(m, rid, r) then Some(PutRecord(m, rid, r)[x]) else None {
      assert Lookup(a, x) == if x in m then Some(m[x]) else None;
    }
  }

  lemma {:induction false} AgreesSame(a: View, b: View, m: Store)
    requires Agrees(a, m) && SameStore(a, b)
    ensures Agrees(b, m)
  {
    forall x ensures Lookup(b, x) == if x in m then Some(m[x]) else None {
      assert Lookup(a, x) == if x in m then Some(m[x]) else None;
    }
  }

  lemma {:induction false} InsertAgrees(h: Heap, m: Store, r: seq<byte>)
    requires WellFormed(h) && Agrees(h.pages, m)
    ensures var o := InsertRecord(h, r);
            && WellFormed(o.heap) && ResultRight(m, InsertOp(r), o.result)
            && Agrees(o.heap.pages, StoreStep(m, InsertOp(r), o.result))
  {
    InsertKeeps(h, r);
    var o := InsertRecord(h, r);
    if o.result.Success? {
      AgreesAfter(h.pages, o.heap.pages, m, o.result.value, r);
      assert Lookup(h.pages, o.result.value) == None;
    } else {
      AgreesSame(h.pages, o.heap.pages, m);
    }
  }

  lemma {:induction false} DeleteAgrees(h: Heap, m: Store, rid: RecordId)
    requires WellFormed(h) && Agrees(h.pages, m)
    ensures var o := DeleteRecord(h, rid);
            && WellFormed(o.heap) && ResultRight(m, DeleteOp(rid), o.result) && Agrees(o.heap.pages, m - {rid})
  {
    var o := DeleteRecord(h, rid);
    assert Lookup(h.pages, rid) == if rid in m then Some(m[rid]) else None;
    if o.result.Success? {
      ReplaceKeeps(h, rid.page, rid.slot, []);
      AgreesAfter(h.pages, o.heap.pages, m, rid, []);
    } else {
      assert m - {rid} == m;
    }
  }

  lemma {:induction false} UpdateAgrees(h: Heap, m: Store, rid: RecordId, r: seq<byte>)
    requires WellFormed(h) && Agrees(h.pages, m)
    ensures var o := UpdateRecord(h, rid, r);
            && WellFormed(o.heap) && ResultRight(m, UpdateOp(rid, r), o.result)
            && Agrees(o.heap.pages, StoreStep(m, UpdateOp(rid, r), o.result))
  {
    assert Lookup(h.pages, rid) == if rid in m then Some(m[rid]) else None;
    if rid in m && |r| <= |m[rid]| {
      ReplaceKeeps(h, rid.page, rid.slot, r);
      AgreesAfter(h.pages, UpdateRecord(h, rid, r).heap.pages, m, rid, r);
      assert PutRecord(m - {rid}, rid, r) == PutRecord(m, rid, r);
    } else if rid in m {
      DeleteAgrees(h, m, rid);
      InsertAgrees(DeleteRecord(h, rid).heap, m - {rid}, r);
    }
  }

  lemma {:induction false} StepAgrees(h: Heap, m: Store, op: Op)
    requires WellFormed(h) && Agrees(h.pages, m)
    ensures var o := Step(h, op);
            && WellFormed(o.heap) && ResultRight(m, op, o.result) && Agrees(o.heap.pages, StoreStep(m, op, o.result))
  {
    match op
    case InsertOp(r) => InsertAgrees(h, m, r);
    case DeleteOp(rid) => DeleteAgrees(h, m, rid);
    case UpdateOp(rid, r) => UpdateAgrees(h, m, rid, r);
  }

  lemma {:induction false} StepWellFormed(h: Heap, op: Op)
    requires WellFormed(h)
    ensures WellFormed(Step(h, op).heap)
  {
    match op
    case InsertOp(r) => InsertKeeps(h, r);
    case DeleteOp(rid) =>
      if Lookup(h.pages, rid).Some? {
        ReplaceKeeps(h, rid.page, rid.slot, []);
      }
    case UpdateOp(rid, r) =>
      if Lookup(h.pages, rid).Some? {
        ReplaceKeeps(h, rid.page, rid.slot, r);
        ReplaceKeeps(h, rid.page, rid.slot, []);
        InsertKeeps(DeleteRecord(h, rid).heap, r);
      }
  }

  function RunHeap(h: Heap, ops: seq<Op>): (g: Heap)
    requires WellFormed(h)
    ensures WellFormed(g)
    decreases |ops|
  {
    if |ops| == 0 then h
    else
      StepWellFormed(h, ops[0]);
      RunHeap(Step(h, ops[0]).heap, ops[1..])
  }

  /** The same run on a plain map. */
  function RunStore(h: Heap, m: Store, ops: seq<Op>): Store
    requires WellFormed(h)
    decreases |ops|
  {
    if |ops| == 0 then m
    else
      var o := Step(h, ops[0]);
      StepWellFormed(h, ops[0]);
      RunStore(o.heap, StoreStep(m, ops[0], o.result), ops[1..])
  }

  predicate ResultsRight(h: Heap, m: Store, ops: seq<Op>)
    requires WellFormed(h)
    decreases |ops|
  {
    if |ops| == 0 then true
    else
      var o := Step(h, ops[0]);
      StepWellFormed(h, ops[0]);
      ResultRight(m, ops[0], o.result) && ResultsRight(o.heap, StoreStep(m, ops[0], o.result), ops[1..])
  }

  /** Over every run the heap file holds what a plain map holds, and every call returns what the map calls for. */
  lemma {:induction false} RunRefines(h: Heap, m: Store, ops: seq<Op>)
    requires WellFormed(h) && Agrees(h.pages, m)
    ensures Agrees(RunHeap(h, ops).pages, RunStore(h, m, ops)) && ResultsRight(h, m, ops)
    decreases |ops|
  {
    if |ops| > 0 {
      StepAgrees(h, m, ops[0]);
      var o := Step(h, ops[0]);
      RunRefines(o.heap, StoreStep(m, ops[0], o.result), ops[1..]);
    }
  }

  /**
   An update of a stored record fails if and only if the new bytes are longer than the old ones
   and than what an empty page can hold; the record is then lost. Otherwise the returned id
   holds the new bytes.
   */
  lemma {:induction false} UpdateLosesIff(h: Heap, m: Store, rid: RecordId, r: seq<byte>)
    requires WellFormed(h) && Agrees(h.pages, m) && rid in m
    ensures var o := UpdateRecord(h, rid, r);
            && (o.result.Failure? <==> |r| > |m[rid]| && |r| > MAX_RECORD)
            && (if o.result.Failure? then Lookup(o.heap.pages, rid) == None
                else Lookup(o.heap.pages, o.result.value) == Stored(r))
  {
    UpdateAgrees(h, m, rid, r);
    var o := UpdateRecord(h, rid, r);
    var n := StoreStep(m, UpdateOp(rid, r), o.result);
    var x := if o.result.Failure? then rid else o.result.value;
    assert Lookup(o.heap.pages, x) == if x in n then Some(n[x]) else None;
  }

  /** A heap file as it is created, on page 0 of an empty file. */
  function NewHeap(): Heap {
    Heap(map[0 := PageState(0, INVALID_PAGE, [], PAGE_SIZE)], [0], 0, 1)
  }

  /** In a new heap file a record is inserted and then updated to one byte more than a page can hold: no record is left. */
  lemma {:induction false} GrownRecordLost(short: seq<byte>, long: seq<byte>) returns (rid: RecordId)
    requires 0 < |short| <= MAX_RECORD && |long| == 4081
    ensures WellFormed(NewHeap())
    ensures var o := InsertRecord(NewHeap(), short);
            && o.result == Success(rid) && Lookup(o.heap.pages, rid) == Some(short) && WellFormed(o.heap)
            && var u := UpdateRecord(o.heap, rid, long);
               u.result == Failure(OutOfSpace) && Agrees(u.heap.pages, map[])
  {
    var h := NewHeap();
    assert LinkOk(h.pages, h.chain, 0);
    assert Agrees(h.pages, map[]);
    InsertAgrees(h, map[], short);
    var o := InsertRecord(h, short);
    rid := o.result.value;
    var m := map[rid := short];
    assert PutRecord(map[], rid, short) == m;
    assert Lookup(o.heap.pages, rid) == Some(m[rid]);
    UpdateAgrees(o.heap, m, rid, long);
    UpdateLosesIff(o.heap, m, rid, long);
    assert m - {rid} == map[];
  }

  /* ---------- Scanning ---------- */

  datatype Item = Item(rid: RecordId, bytes: seq<byte>)

  function ScanPage(id: PageId, rs: seq<seq<byte>>, from: nat): seq<Item>
    decreases |rs| - from
  {
    if from >= |rs| then []
    else ScanOne(id, rs[from], from) + ScanPage(id, rs, from + 1)
  }

  function ScanOne(id: PageId, r: seq<byte>, slot: nat): seq<Item> {
    if r == [] then [] else [Item(RecordId(id, slot), r)]
  }

  function ScanChain(pages: View, chain: seq<PageId>): seq<Item>
    requires forall i :: 0 <= i < |chain| ==> chain[i] in pages
  {
    if |chain| == 0 then [] else ScanPage(chain[0], pages[chain[0]].records, 0) + ScanChain(pages, chain[1..])
  }

  lemma {:induction false} ScanStep(id: PageId, rs: seq<seq<byte>>, s: nat, items: seq<Item>)
    requires s < |rs|
    ensures items + ScanPage(id, rs, s) == items + ScanOne(id, rs[s], s) + ScanPage(id, rs, s + 1)
    ensures rs[s] == [] ==> items + ScanPage(id, rs, s) == items + ScanPage(id, rs, s + 1)
  {
    assert ScanPage(id, rs, s) == ScanOne(id, rs[s], s) + ScanPage(id, rs, s + 1);
  }

  lemma {:induction false} ScanEnd(id: PageId, rs: seq<seq<byte>>, items: seq<Item>)
    ensures items + ScanPage(id, rs, |rs|) == items
  {
  }

  lemma {:induction false} ScanChainStep(pages: View, chain: seq<PageId>, k: nat, items: seq<Item>)
    requires ChainPages(pages, chain) && k < |chain|
    ensures items + ScanChain(pages, chain[k..]) ==
            items + ScanPage(chain[k], pages[chain[k]].records, 0) + ScanChain(pages, chain[k + 1..])
  {
    assert chain[k..][1..] == chain[k + 1..];
  }

  lemma {:induction false} ScanChainEnd(pages: View, chain: seq<PageId>, items: seq<Item>)
    requires ChainPages(pages, chain)
    ensures items + ScanChain(pages, chain[|chain|..]) == items
  {
  }

  predicate DistinctIds(s: seq<Item>) {
    forall i, j :: 0 <= i < j < |s| ==> s[i].rid != s[j].rid
  }

  lemma {:induction false} ScanPageItems(id: PageId, rs: seq<seq<byte>>, from: nat, x: Item)
    ensures x in ScanPage(id, rs, from) <==>
            x.rid.page == id && from <= x.rid.slot < |rs| && rs[x.rid.slot] == x.bytes && x.bytes != []
    decreases |rs| - from
  {
    if from < |rs| {
      ScanPageItems(id, rs, from + 1, x);
      assert x.rid == RecordId(id, from) <==> x.rid.page == id && x.rid.slot == from;
    }
  }

  lemma {:induction false} DistinctAppend(a: seq<Item>, b: seq<Item>)
    requires DistinctIds(a) && DistinctIds(b)
    requires forall i, j :: 0 <= i < |a| && 0 <= j < |b| ==> a[i].rid != b[j].rid
    ensures DistinctIds(a + b)
  {
  }

  lemma {:induction false} ScanPageDistinct(id: PageId, rs: seq<seq<byte>>, from: nat)
    ensures DistinctIds(ScanPage(id, rs, from))
    decreases |rs| - from
  {
    if from < |rs| {
      ScanPageDistinct(id, rs, from + 1);
      var tail := ScanPage(id, rs, from + 1);
      forall j | 0 <= j < |tail| ensures tail[j].rid != RecordId(id, from) {
        ScanPageItems(id, rs, from + 1, tail[j]);
      }
      DistinctAppend(ScanOne(id, rs[from], from), tail);
    }
  }

  /** The pages of a chain exist and are all different. */
  predicate ChainPages(pages: View, chain: seq<PageId>) {
    (forall i :: 0 <= i < |chain| ==> chain[i] in pages) && (forall i, j :: 0 <= i < j < |chain| ==> chain[i] != chain[j])
  }

  lemma {:induction false} ScanChainItems(pages: View, chain: seq<PageId>, x: Item)
    requires ChainPages(pages, chain)
    ensures x in ScanChain(pages, chain) <==> x.rid.page in chain && Lookup(pages, x.rid) == Some(x.bytes)
  {
    if |chain| > 0 {
      ScanPageItems(chain[0], pages[chain[0]].records, 0, x);
      ScanChainItems(pages, chain[1..], x);
      assert chain == [chain[0]] + chain[1..];
    }
  }

  lemma {:induction false} ScanChainDistinct(pages: View, chain: seq<PageId>)
    requires ChainPages(pages, chain)
    ensures DistinctIds(ScanChain(pages, chain))
  {
    if |chain| > 0 {
      var rs, rest := pages[chain[0]].records, chain[1..];
      var a, b := ScanPage(chain[0], rs, 0), ScanChain(pages, rest);
      ScanPageDistinct(chain[0], rs, 0);
      ScanChainDistinct(pages, rest);
      forall i | 0 <= i < |a| ensures a[i].rid.page == chain[0] {
        ScanPageItems(chain[0], rs, 0, a[i]);
      }
      forall j | 0 <= j < |b| ensures b[j].rid.page != chain[0] {
        ScanChainItems(pages, rest, b[j]);
      }
      DistinctAppend(a, b);
    }
  }

  /** A scan visits every live record of the chain exactly once. */
  lemma {:induction false} ScanExact(pages: View, chain: seq<PageId>)
    requires Chained(pages, chain)
    ensures ChainPages(pages, chain) && DistinctIds(ScanChain(pages, chain))
    ensures forall x :: x in ScanChain(pages, chain) <==> x.rid.page in chain && Lookup(pages, x.rid) == Some(x.bytes)
  {
    ChainedPages(pages, chain);
    ScanChainDistinct(pages, chain);
    forall x ensures x in ScanChain(pages, chain) <==> x.rid.page in chain && Lookup(pages, x.rid) == Some(x.bytes) {
      ScanChainItems(pages, chain, x);
    }
  }

  lemma {:induction false} ChainedPages(pages: View, chain: seq<PageId>)
    requires Chained(pages, chain)
    ensures ChainPages(pages, chain)
  {
    forall i: nat | i < |chain| ensures chain[i] in pages {
      assert LinkOk(pages, chain, i);
    }
  }
}
