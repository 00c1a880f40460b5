/** A heap file working on page bytes: a chain of slotted pages, each fetched, changed and put back. */
module HeapFile {
  import opened Types
  import opened Bytes
  import opened PageFields
  import opened SlottedPageModel
  import S = SlottedPage
  import opened HeapModel

  type PageMap = map<PageId, PageBytes>

  ghost predicate Holds(d: PageBytes, p: PageState) {
    PageOk(d) && Abs(d) == p
  }

  ghost predicate Represents(pages: PageMap, v: View) {
    pages.Keys == v.Keys && forall id :: id in pages ==> Holds(pages[id], v[id])
  }

  /* ---------- One page fetched, changed and put back ---------- */

  method Fetch(d: PageBytes) returns (page: S.SlottedPage)
    ensures fresh(page) && fresh(page.data) && page.data.Length == PAGE_SIZE && page.data[..] == d
  {
    var a := new byte[PAGE_SIZE](i requires 0 <= i < PAGE_SIZE => d[i]);
    page := new S.SlottedPage(a);
  }

  method NewPage(id: PageId) returns (e: PageBytes)
    requires 0 <= id < TWO_31
    ensures Holds(e, PageState(id, INVALID_PAGE, [], PAGE_SIZE))
  {
    var a := new byte[PAGE_SIZE](i => 0);
    var page := new S.SlottedPage(a);
    page.Init(id, INVALID_PAGE);
    e := page.data[..];
  }

  method LinkTo(d: PageBytes, id: PageId, ghost p: PageState) returns (e: PageBytes)
    requires Holds(d, p) && 0 <= id < TWO_31
    ensures Holds(e, p.(next := id))
  {
    var page := Fetch(d);
    page.SetNextPageId(id);
    e := page.data[..];
  }

  method InsertInto(d: PageBytes, r: seq<byte>, ghost p: PageState) returns (slot: Option<nat>, e: PageBytes)
    requires Holds(d, p)
    ensures if HasRoom(p, |r|) then slot == Some(FreeSlot(p.records)) && Holds(e, SlottedPageModel.Insert(p, r)) else slot == None
  {
    var page := Fetch(d);
    slot := page.InsertRecord(r);
    e := page.data[..];
  }

  method DeleteFrom(d: PageBytes, i: nat, ghost p: PageState) returns (ok: bool, e: PageBytes)
    requires Holds(d, p)
    ensures ok <==> Live(p, i)
    ensures ok ==> Holds(e, Replace(p, i, []))
  {
    var page := Fetch(d);
    ok := page.DeleteRecord(i);
    e := page.data[..];
  }

  method UpdateIn(d: PageBytes, i: nat, r: seq<byte>, ghost p: PageState) returns (ok: bool, e: PageBytes)
    requires Holds(d, p)
    ensures ok <==> Live(p, i) && |r| <= |p.records[i]|
    ensures ok ==> Holds(e, Replace(p, i, r))
  {
    var page := Fetch(d);
    ok := page.UpdateRecordInPlace(i, r);
    e := page.data[..];
  }

  method ReadFrom(d: PageBytes, i: nat, ghost p: PageState) returns (r: Option<seq<byte>>)
    requires Holds(d, p)
    ensures r == if Live(p, i) then Some(p.records[i]) else None
  {
    var page := Fetch(d);
    r := page.GetRecord(i);
  }

  function NextOf(d: PageBytes, ghost p: PageState): (next: PageId)
    requires Holds(d, p)
    ensures next == p.next
  {
    ReadHeader(d).nextPageId
  }

  /** The live records of a page, slot by slot. */
  method ScanSlots(id: PageId, d: PageBytes, ghost p: PageState) returns (items: seq<Item>)
    requires Holds(d, p)
    ensures items == ScanPage(id, p.records, 0)
  {
    items := [];
    var s := 0;
    var n := CountSlots(d, p);
    while s < n
      invariant s <= n == |p.records|
      invariant items + ScanPage(id, p.records, s) == ScanPage(id, p.records, 0)
    {
      var rec := ReadFrom(d, s, p);
      ScanStep(id, p.records, s, items);
      if rec.Some? {
        items := items + [Item(RecordId(id, s), rec.value)];
      }
      s := s + 1;
    }
    ScanEnd(id, p.records, items);
  }

  method CountSlots(d: PageBytes, ghost p: PageState) returns (n: nat)
    requires Holds(d, p)
    ensures n == |p.records|
  {
    n := ReadHeader(d).slotCount;
  }

  lemma {:induction false} HeldPageFits(pages: PageMap, v: View)
    requires Represents(pages, v)
    ensures FreeOk(v)
  {
    forall id | id in v ensures v[id].free <= PAGE_SIZE {
      assert id in pages && Holds(pages[id], v[id]);
    }
  }

  lemma {:induction false} LinkInFile(h: Heap, k: nat)
    requires WellFormed(h) && k < |h.chain|
    ensures h.chain[k] in h.pages && h.chain[k] != INVALID_PAGE && h.pages[h.chain[k]].next == NextIn(h.chain, k)
  {
    assert LinkOk(h.pages, h.chain, k);
  }

  /** A walk along the chain: the page at position `k`, and the page before it. */
  ghost predicate OnChain(h: Heap, k: nat, current: PageId, prev: PageId) {
    && k <= |h.chain|
    && (k < |h.chain| ==> current == h.chain[k] && current != INVALID_PAGE)
    && (k == |h.chain| ==> k > 0 && current == INVALID_PAGE && prev == h.chain[k - 1] && prev != INVALID_PAGE)
  }

  class HeapFile {
    var pages: PageMap
    var nextId: PageId
    var firstPageId: PageId
    var lastInsertPageId: PageId
    ghost var heap: Heap

    ghost predicate Valid()
      reads this
    {
      && Represents(pages, heap.pages) && WellFormed(heap)
      && nextId == heap.next && firstPageId == heap.chain[0] && lastInsertPageId == heap.chain[heap.last]
    }

    /** Creates a heap file with one empty page in a file that may hold pages of other heap files. */
    constructor (file: PageMap, next: PageId, ghost v: View)
      requires Represents(file, v) && InFile(v, next) && 0 <= next < TWO_31
      ensures Valid() && heap.chain == [next] && nextId == next + 1 && SameStore(v, heap.pages)
    {
      var e := NewPage(next);
      pages := file[next := e];
      nextId := next + 1;
      firstPageId := next;
      lastInsertPageId := next;
      heap := Heap(v[next := PageState(next, INVALID_PAGE, [], PAGE_SIZE)], [next], 0, next + 1);
      new;
      HeldPageFits(file, v);
      assert LinkOk(heap.pages, heap.chain, 0);
    }

    /** A new page behind the last page of the chain. */
    method AllocateNewPage(link: PageId) returns (id: PageId)
      requires Valid() && nextId < TWO_31 && link == heap.chain[|heap.chain| - 1]
      modifies this`pages, this`nextId, this`heap
      ensures id == old(nextId) && Valid() && heap == Extend(old(heap))
    {
      ExtendKeeps(heap);
      assert LinkOk(heap.pages, heap.chain, |heap.chain| - 1);
      id := nextId;
      nextId := nextId + 1;
      var e := NewPage(id);
      var d := LinkTo(pages[link], id, heap.pages[link]);
      pages := pages[id := e];
      pages := pages[link := d];
      heap := Extend(heap);
    }

    /** Writes back a page that took a record and makes it the next insert position. */
    method PutBack(id: PageId, e: PageBytes, ghost k: nat, ghost r: seq<byte>)
      requires Valid() && k < |heap.chain| && id == heap.chain[k] && RoomAt(heap, k, |r|)
      requires Holds(e, SlottedPageModel.Insert(heap.pages[id], r))
      modifies this`pages, this`lastInsertPageId, this`heap
      ensures Valid() && heap == StoreAt(old(heap), k, r).heap
    {
      StoreKeeps(heap, k, r);
      pages := pages[id := e];
      lastInsertPageId := id;
      heap := StoreAt(heap, k, r).heap;
    }

    /** Stores a record on the first page with room from the last insert position on, or on a new page. */
    method InsertRecord(r: seq<byte>) returns (result: Result<RecordId>)
      requires Valid() && nextId < TWO_31
      modifies this
      ensures Valid() && Outcome(heap, result) == HeapModel.InsertRecord(old(heap), r)
    {
      var rid, prev := InsertOnChain(r);
      if rid.Some? {
        return Success(rid.value);
      }
      result := InsertIntoNewPage(if prev != INVALID_PAGE then prev else lastInsertPageId, r);
    }

    /** Walks the chain from the last insert position; without room anywhere, ends behind its last page. */
    method InsertOnChain(r: seq<byte>) returns (rid: Option<RecordId>, prev: PageId)
      requires Valid()
      modifies this
      ensures Valid() && nextId == old(nextId)
      ensures var k := FirstRoom(old(heap), old(heap).last, |r|);
              if k < |old(heap).chain| then
                rid.Some? && Outcome(heap, Success(rid.value)) == StoreAt(old(heap), k, r)
              else rid == None && heap == old(heap) && prev == heap.chain[|heap.chain| - 1] && prev != INVALID_PAGE
    {
      ghost var k: nat := heap.last;
      LinkInFile(heap, k);
      var current := lastInsertPageId;
      prev := INVALID_PAGE;
      while current != INVALID_PAGE
        invariant Valid() && heap == old(heap) && nextId == old(nextId)
        invariant OnChain(heap, k, current, prev)
        invariant FirstRoom(heap, heap.last, |r|) == FirstRoom(heap, k, |r|)
        decreases |heap.chain| - k
      {
        LinkInFile(heap, k);
        FirstRoomStep(heap, k, |r|);
        var slot, e := InsertInto(pages[current], r, heap.pages[current]);
        if slot.Some? {
          PutBack(current, e, k, r);
          return Some(RecordId(current, slot.value)), prev;
        }
        prev := current;
        current := NextOf(pages[current], heap.pages[current]);
        k := k + 1;
        if k < |heap.chain| {
          LinkInFile(heap, k);
        }
      }
      rid := None;
    }

    method InsertIntoNewPage(link: PageId, r: seq<byte>) returns (result: Result<RecordId>)
      requires Valid() && nextId < TWO_31 && link == heap.chain[|heap.chain| - 1]
      modifies this
      ensures Valid()
      ensures var g, k := Extend(old(heap)), |old(heap).chain|;
              Outcome(heap, result) ==
                if RoomAt(g, k, |r|) then StoreAt(g, k, r) else Outcome(g, Failure(OutOfSpace))
    {
      var id := AllocateNewPage(link);
      ghost var k := |heap.chain| - 1;
      assert LinkOk(heap.pages, heap.chain, k);
      var slot, e := InsertInto(pages[id], r, heap.pages[id]);
      if slot.None? {
        return Failure(OutOfSpace);
      }
      PutBack(id, e, k, r);
      result := Success(RecordId(id, slot.value));
    }

    method GetRecordBytes(rid: RecordId) returns (result: Result<seq<byte>>)
      requires Valid()
      ensures result == match Lookup(heap.pages, rid) case Some(r) => Success(r) case None => Failure(NotFound)
    {
      if rid.page !in pages {
        return Failure(NotFound);
      }
      var rec := ReadFrom(pages[rid.page], rid.slot, heap.pages[rid.page]);
      result := if rec.Some? then Success(rec.value) else Failure(NotFound);
    }

    method DeleteRecord(rid: RecordId) returns (status: Status)
      requires Valid()
      modifies this`pages, this`heap
      ensures Valid() && heap == HeapModel.DeleteRecord(old(heap), rid).heap
      ensures status == if old(Lookup(heap.pages, rid)).Some? then Ok else NotFound
    {
      if rid.page !in pages {
        return NotFound;
      }
      var ok, e := DeleteFrom(pages[rid.page], rid.slot, heap.pages[rid.page]);
      if !ok {
        return NotFound;
      }
      ReplaceKeeps(heap, rid.page, rid.slot, []);
      pages := pages[rid.page := e];
      heap := HeapModel.DeleteRecord(heap, rid).heap;
      status := Ok;
    }

    /** Replaces a record, in place if the new bytes are no longer than the old, else by deleting and inserting. */
    method UpdateRecord(rid: RecordId, r: seq<byte>) returns (result: Result<RecordId>)
      requires Valid() && nextId < TWO_31
      modifies this
      ensures Valid() && Outcome(heap, result) == HeapModel.UpdateRecord(old(heap), rid, r)
    {
      if rid.page !in pages {
        return Failure(NotFound);
      }
      var inPlace, e := UpdateIn(pages[rid.page], rid.slot, r, heap.pages[rid.page]);
      if inPlace {
        ReplaceKeeps(heap, rid.page, rid.slot, r);
        pages := pages[rid.page := e];
        heap := HeapModel.UpdateRecord(heap, rid, r).heap;
        return Success(rid);
      }
      var status := DeleteRecord(rid);
      if status != Ok {
        return Failure(status);
      }
      result := InsertRecord(r);
    }

    /** Every record of the heap file, in chain and slot order. */
    method Scan() returns (items: seq<Item>)
      requires Valid()
      ensures ChainPages(heap.pages, heap.chain) && items == ScanChain(heap.pages, heap.chain)
    {
      ChainedPages(heap.pages, heap.chain);
      items := [];
      var current := firstPageId;
      ghost var k := 0;
      while current != INVALID_PAGE
        invariant k <= |heap.chain| && current == if k < |heap.chain| then heap.chain[k] else INVALID_PAGE
        invariant k < |heap.chain| ==> current != INVALID_PAGE
        invariant items + ScanChain(heap.pages, heap.chain[k..]) == ScanChain(heap.pages, heap.chain)
        decreases |heap.chain| - k
      {
        assert LinkOk(heap.pages, heap.chain, k);
        ScanChainStep(heap.pages, heap.chain, k, items);
        var found := ScanSlots(current, pages[current], heap.pages[current]);
        items := items + found;
        current := NextOf(pages[current], heap.pages[current]);
        k := k + 1;
        if k < |heap.chain| {
          assert LinkOk(heap.pages, heap.chain, k);
        }
      }
      ScanChainEnd(heap.pages, heap.chain, items);
    }
  }
}
