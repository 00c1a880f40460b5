/**
 The byte layout of a slotted page: a header, a slot directory growing up and record bytes
 growing down. The layout is proved to represent a list of records.
 */
module SlottedPageModel {
  import opened Types
  import opened Bytes
  import opened PageFields

  const HEADER_SIZE: nat := 12
  const SLOT_SIZE: nat := 4

  /** The longest record an empty page has room for. */
  const MAX_RECORD: nat := 4080

  /* ---------- Header and slots ---------- */

  datatype Header = Header(pageId: PageId, nextPageId: PageId, slotCount: nat, freeSpaceOffset: nat)

  predicate HeaderFits(h: Header) {
    && -TWO_31 <= h.pageId < TWO_31 && -TWO_31 <= h.nextPageId < TWO_31
    && h.slotCount < TWO_16 && h.freeSpaceOffset < TWO_16
  }

  function ReadHeader(d: PageBytes): Header {
    Header(I32(d, 0), I32(d, 4), U16(d, 8), U16(d, 10))
  }

  function WriteHeader(d: PageBytes, h: Header): PageBytes
    requires HeaderFits(h)
  {
    PutU16(PutU16(PutI32(PutI32(d, 0, h.pageId), 4, h.nextPageId), 8, h.slotCount), 10, h.freeSpaceOffset)
  }

  /** A written header reads back; nothing behind the header changes. */
  lemma {:induction false} WriteHeaderReads(d: PageBytes, h: Header)
    requires HeaderFits(h)
    ensures ReadHeader(WriteHeader(d, h)) == h
  {
    var d1 := PutI32(d, 0, h.pageId);
    var d2 := PutI32(d1, 4, h.nextPageId);
    var d3 := PutU16(d2, 8, h.slotCount);
    var d4 := PutU16(d3, 10, h.freeSpaceOffset);
    PutI32Reads(d, 0, h.pageId);
    PutI32Reads(d1, 4, h.nextPageId);
    PutU16Reads(d2, 8, h.slotCount);
    PutU16Reads(d3, 10, h.freeSpaceOffset);
    PutField(d1, 4, ToBytes(Unsigned32(h.nextPageId), 4), 0, 4);
    PutField(d2, 8, ToBytes(h.slotCount, 2), 0, 4);
    PutField(d2, 8, ToBytes(h.slotCount, 2), 4, 4);
    PutField(d3, 10, ToBytes(h.freeSpaceOffset, 2), 0, 4);
    PutField(d3, 10, ToBytes(h.freeSpaceOffset, 2), 4, 4);
    PutField(d3, 10, ToBytes(h.freeSpaceOffset, 2), 8, 2);
  }

  lemma {:induction false} WriteHeaderKeeps(d: PageBytes, h: Header, q: nat, n: nat)
    requires HeaderFits(h) && HEADER_SIZE <= q && q + n <= PAGE_SIZE
    ensures Field(WriteHeader(d, h), q, n) == Field(d, q, n)
  {
    var d1 := PutI32(d, 0, h.pageId);
    var d2 := PutI32(d1, 4, h.nextPageId);
    var d3 := PutU16(d2, 8, h.slotCount);
    PutField(d, 0, ToBytes(Unsigned32(h.pageId), 4), q, n);
    PutField(d1, 4, ToBytes(Unsigned32(h.nextPageId), 4), q, n);
    PutField(d2, 8, ToBytes(h.slotCount, 2), q, n);
    PutField(d3, 10, ToBytes(h.freeSpaceOffset, 2), q, n);
  }

  datatype Slot = Slot(offset: nat, length: nat)

  function SlotPos(i: nat): nat {
    HEADER_SIZE + i * SLOT_SIZE
  }

  function ReadSlot(d: PageBytes, i: nat): Slot
    requires SlotPos(i + 1) <= PAGE_SIZE
  {
    Slot(U16(d, SlotPos(i)), U16(d, SlotPos(i) + 2))
  }

  function WriteSlot(d: PageBytes, i: nat, s: Slot): PageBytes
    requires SlotPos(i + 1) <= PAGE_SIZE
  {
    PutU16(PutU16(d, SlotPos(i), s.offset), SlotPos(i) + 2, s.length)
  }

  lemma {:induction false} WriteSlotReads(d: PageBytes, i: nat, s: Slot)
    requires SlotPos(i + 1) <= PAGE_SIZE && s.offset < TWO_16 && s.length < TWO_16
    ensures ReadSlot(WriteSlot(d, i, s), i) == s
  {
    var d1 := PutU16(d, SlotPos(i), s.offset);
    PutU16Reads(d, SlotPos(i), s.offset);
    PutU16Reads(d1, SlotPos(i) + 2, s.length);
    PutField(d1, SlotPos(i) + 2, ToBytes(s.length, 2), SlotPos(i), 2);
  }

  lemma {:induction false} WriteSlotKeeps(d: PageBytes, i: nat, s: Slot, q: nat, n: nat)
    requires SlotPos(i + 1) <= PAGE_SIZE && q + n <= PAGE_SIZE && Disjoint(SlotPos(i), SLOT_SIZE, q, n)
    ensures Field(WriteSlot(d, i, s), q, n) == Field(d, q, n)
  {
    PutField(d, SlotPos(i), ToBytes(s.offset, 2), q, n);
    PutField(PutU16(d, SlotPos(i), s.offset), SlotPos(i) + 2, ToBytes(s.length, 2), q, n);
  }

  /* ---------- What a page represents ---------- */

  /** A live slot lies in the record area. */
  predicate SlotOk(d: PageBytes, h: Header, i: nat)
    requires SlotPos(i + 1) <= PAGE_SIZE
  {
    var s := ReadSlot(d, i);
    s.length > 0 ==> h.freeSpaceOffset <= s.offset && s.offset + s.length <= PAGE_SIZE
  }

  /** The bytes of two live slots do not overlap. */
  predicate SlotsApart(d: PageBytes, i: nat, j: nat)
    requires SlotPos(i + 1) <= PAGE_SIZE && SlotPos(j + 1) <= PAGE_SIZE
  {
    var s, t := ReadSlot(d, i), ReadSlot(d, j);
    s.length > 0 && t.length > 0 ==> Disjoint(s.offset, s.length, t.offset, t.length)
  }

  predicate PageOk(d: PageBytes) {
    var h := ReadHeader(d);
    && SlotPos(h.slotCount) <= h.freeSpaceOffset <= PAGE_SIZE
    && (forall i: nat :: i < h.slotCount ==> SlotOk(d, h, i))
    && (forall i: nat, j: nat :: i < j < h.slotCount ==> SlotsApart(d, i, j))
  }

  /** The bytes of a slot; none for a deleted record. */
  function RecordAt(d: PageBytes, i: nat): seq<byte>
    requires PageOk(d) && i < ReadHeader(d).slotCount
  {
    var s := ReadSlot(d, i);
    assert SlotOk(d, ReadHeader(d), i);
    if s.length == 0 then [] else Field(d, s.offset, s.length)
  }

  datatype PageState = PageState(id: PageId, next: PageId, records: seq<seq<byte>>, free: nat)

  function Abs(d: PageBytes): PageState
    requires PageOk(d)
  {
    var h := ReadHeader(d);
    PageState(h.pageId, h.nextPageId, seq(h.slotCount, i requires 0 <= i < h.slotCount => RecordAt(d, i)), h.freeSpaceOffset)
  }

  /* ---------- The operations on what a page represents ---------- */

  /** The first deleted slot, or the number of slots. */
  function FreeSlot(rs: seq<seq<byte>>): (i: nat)
    ensures i <= |rs| && (i < |rs| ==> rs[i] == []) && forall j :: 0 <= j < i ==> rs[j] != []
  {
    if |rs| == 0 then 0
    else if rs[0] == [] then 0
    else
      var i := FreeSlot(rs[1..]);
      assert forall j :: 1 <= j < i + 1 ==> rs[j] == rs[1..][j - 1];
      i + 1
  }

  predicate HasRoom(p: PageState, n: nat) {
    var slots := if FreeSlot(p.records) < |p.records| then |p.records| else |p.records| + 1;
    SlotPos(slots) + n <= p.free
  }

  function Insert(p: PageState, r: seq<byte>): PageState
    requires HasRoom(p, |r|)
  {
    var i := FreeSlot(p.records);
    p.(records := if i < |p.records| then p.records[i := r] else p.records + [r], free := p.free - |r|)
  }

  predicate Live(p: PageState, i: nat) {
    i < |p.records| && p.records[i] != []
  }

  /** The bytes of a slot, if it exists and is not deleted. */
  function ReadRecord(d: PageBytes, i: nat): (r: Option<seq<byte>>)
    requires PageOk(d)
    ensures r == if Live(Abs(d), i) then Some(Abs(d).records[i]) else None
  {
    if i >= ReadHeader(d).slotCount then None
    else
      var s := ReadSlot(d, i);
      assert SlotOk(d, ReadHeader(d), i);
      assert Abs(d).records[i] == RecordAt(d, i);
      if s.length == 0 then None else Some(Field(d, s.offset, s.length))
  }

  function Replace(p: PageState, i: nat, r: seq<byte>): PageState
    requires i < |p.records|
  {
    p.(records := p.records[i := r])
  }

  /* ---------- The bytes follow ---------- */

  lemma {:induction false} InitRepresents(d: PageBytes, id: PageId, next: PageId)
    requires -TWO_31 <= id < TWO_31 && -TWO_31 <= next < TWO_31
    ensures PageOk(WriteHeader(d, Header(id, next, 0, PAGE_SIZE)))
    ensures Abs(WriteHeader(d, Header(id, next, 0, PAGE_SIZE))) == PageState(id, next, [], PAGE_SIZE)
  {
    WriteHeaderReads(d, Header(id, next, 0, PAGE_SIZE));
  }

  /** The slots and live bytes of a page are found again in another page. */
  predicate SlotKept(d: PageBytes, e: PageBytes, i: nat)
    requires SlotPos(i + 1) <= PAGE_SIZE
  {
    var s := ReadSlot(d, i);
    && ReadSlot(e, i) == s
    && (s.length > 0 && s.offset + s.length <= PAGE_SIZE ==>
          Field(e, s.offset, s.length) == Field(d, s.offset, s.length))
  }

  lemma {:induction false} SetNextRepresents(d: PageBytes, next: PageId)
    requires PageOk(d) && -TWO_31 <= next < TWO_31
    ensures var e := WriteHeader(d, ReadHeader(d).(nextPageId := next));
            PageOk(e) && Abs(e) == Abs(d).(next := next)
  {
    var h := ReadHeader(d).(nextPageId := next);
    var e := WriteHeader(d, h);
    WriteHeaderReads(d, h);
    forall i: nat | i < h.slotCount ensures SlotKept(d, e, i) {
      assert SlotOk(d, ReadHeader(d), i);
      HeaderKeepsSlot(d, h, i);
    }
    SlotsKeptRepresent(d, e, h.slotCount);
  }

  lemma {:induction false} HeaderKeepsSlot(d: PageBytes, h: Header, i: nat)
    requires HeaderFits(h) && SlotPos(i + 1) <= PAGE_SIZE
    requires var s := ReadSlot(d, i); s.length > 0 ==> HEADER_SIZE <= s.offset
    ensures SlotKept(d, WriteHeader(d, h), i)
  {
    var s := ReadSlot(d, i);
    WriteHeaderKeeps(d, h, SlotPos(i), 2);
    WriteHeaderKeeps(d, h, SlotPos(i) + 2, 2);
    if s.length > 0 && s.offset + s.length <= PAGE_SIZE {
      WriteHeaderKeeps(d, h, s.offset, s.length);
    }
  }

  /** With every slot kept, the page represents the same records. */
  lemma {:induction false} SlotsKeptRepresent(d: PageBytes, e: PageBytes, n: nat)
    requires PageOk(d) && n == ReadHeader(d).slotCount == ReadHeader(e).slotCount
    requires ReadHeader(e).freeSpaceOffset == ReadHeader(d).freeSpaceOffset
    requires forall i: nat :: i < n ==> SlotKept(d, e, i)
    ensures PageOk(e) && Abs(e).records == Abs(d).records
  {
    forall i: nat | i < n ensures SlotOk(e, ReadHeader(e), i) {
      assert SlotKept(d, e, i) && SlotOk(d, ReadHeader(d), i);
    }
    forall i: nat, j: nat | i < j < n ensures SlotsApart(e, i, j) {
      assert SlotKept(d, e, i) && SlotKept(d, e, j) && SlotsApart(d, i, j);
    }
    forall i: nat | i < n ensures RecordAt(e, i) == RecordAt(d, i) {
      assert SlotKept(d, e, i) && SlotOk(d, ReadHeader(d), i);
    }
  }

  /** One slot holds a record, apart from the live bytes of every other slot. */
  predicate SlotHolds(d: PageBytes, e: PageBytes, n: nat, i: nat, r: seq<byte>)
    requires SlotPos(i + 1) <= PAGE_SIZE && SlotPos(n) <= PAGE_SIZE
  {
    var s, free := ReadSlot(e, i), ReadHeader(e).freeSpaceOffset;
    && s.length == |r|
    && (s.length > 0 ==>
          && free <= s.offset && s.offset + s.length <= PAGE_SIZE && Field(e, s.offset, s.length) == r
          && forall j: nat :: j < n && j != i ==> ApartFrom(d, j, s))
  }

  predicate ApartFrom(d: PageBytes, j: nat, s: Slot)
    requires SlotPos(j + 1) <= PAGE_SIZE
  {
    var t := ReadSlot(d, j);
    t.length > 0 ==> Disjoint(t.offset, t.length, s.offset, s.length)
  }

  function SetRecord(rs: seq<seq<byte>>, i: nat, r: seq<byte>): seq<seq<byte>>
    requires i <= |rs|
  {
    if i < |rs| then rs[i := r] else rs + [r]
  }

  /** With one slot set and every other slot kept, one record changes. */
  lemma {:induction false} SlotSetRepresents(d: PageBytes, e: PageBytes, n: nat, m: nat, i: nat, r: seq<byte>)
    requires PageOk(d) && n == ReadHeader(d).slotCount && m == ReadHeader(e).slotCount
    requires (i < n == m) || (i == n && m == n + 1)
    requires SlotPos(m) <= ReadHeader(e).freeSpaceOffset <= ReadHeader(d).freeSpaceOffset
    requires forall j: nat :: j < n && j != i ==> SlotKept(d, e, j)
    requires SlotHolds(d, e, n, i, r)
    ensures PageOk(e) && Abs(e).records == SetRecord(Abs(d).records, i, r)
  {
    forall j: nat | j < m ensures SlotOk(e, ReadHeader(e), j) {
      assert j != i ==> SlotKept(d, e, j) && SlotOk(d, ReadHeader(d), j);
    }
    forall j: nat, k: nat | j < k < m ensures SlotsApart(e, j, k) {
      SlotSetApart(d, e, n, i, r, j, k);
    }
    forall j: nat | j < m ensures RecordAt(e, j) == if j == i then r else RecordAt(d, j) {
      assert j != i ==> SlotKept(d, e, j) && SlotOk(d, ReadHeader(d), j);
    }
  }

  lemma {:induction false} SlotSetApart(d: PageBytes, e: PageBytes, n: nat, i: nat, r: seq<byte>, j: nat, k: nat)
    requires PageOk(d) && n == ReadHeader(d).slotCount && i <= n && SlotPos(i + 1) <= PAGE_SIZE
    requires forall j: nat :: j < n && j != i ==> SlotKept(d, e, j)
    requires SlotHolds(d, e, n, i, r)
    requires j < k && (k < n || k == i)
    ensures SlotsApart(e, j, k)
  {
    if k == i {
      assert SlotKept(d, e, j);
      assert r != [] ==> ApartFrom(d, j, ReadSlot(e, i));
    } else if j == i {
      assert SlotKept(d, e, k);
      assert r != [] ==> ApartFrom(d, k, ReadSlot(e, i));
    } else {
      assert SlotKept(d, e, j) && SlotKept(d, e, k) && SlotsApart(d, j, k);
    }
  }

  /** Bytes outside a slot's own entry and its live bytes may change. */
  lemma {:induction false} PutKeepsSlot(d: PageBytes, p: nat, r: seq<byte>, j: nat)
    requires SlotPos(j + 1) <= p && p + |r| <= PAGE_SIZE
    requires ApartFrom(d, j, Slot(p, |r|))
    ensures SlotKept(d, Put(d, p, r), j)
  {
    var s := ReadSlot(d, j);
    PutField(d, p, r, SlotPos(j), 2);
    PutField(d, p, r, SlotPos(j) + 2, 2);
    if s.length > 0 && s.offset + s.length <= PAGE_SIZE {
      PutField(d, p, r, s.offset, s.length);
    }
  }

  lemma {:induction false} WriteSlotKeepsSlot(d: PageBytes, i: nat, s: Slot, j: nat)
    requires i != j && SlotPos(i + 1) <= PAGE_SIZE && SlotPos(j + 1) <= PAGE_SIZE
    requires var t := ReadSlot(d, j); t.length > 0 ==> SlotPos(i + 1) <= t.offset
    ensures SlotKept(d, WriteSlot(d, i, s), j)
  {
    var t := ReadSlot(d, j);
    assert i < j ==> SlotPos(i + 1) <= SlotPos(j);
    assert j < i ==> SlotPos(j + 1) <= SlotPos(i);
    WriteSlotKeeps(d, i, s, SlotPos(j), 2);
    WriteSlotKeeps(d, i, s, SlotPos(j) + 2, 2);
    if t.length > 0 && t.offset + t.length <= PAGE_SIZE {
      WriteSlotKeeps(d, i, s, t.offset, t.length);
    }
  }

  /** The bytes after the record, the slot and the header have been written. */
  function InsertBytesAt(d: PageBytes, i: nat, p: nat, r: seq<byte>, h: Header): PageBytes
    requires SlotPos(i + 1) <= PAGE_SIZE && p + |r| <= PAGE_SIZE && HeaderFits(h)
  {
    WriteHeader(WriteSlot(Put(d, p, r), i, Slot(p, |r|)), h)
  }

  /** Where a record goes, and the slot count and free offset it leaves. */
  datatype Place = Place(slot: nat, slotCount: nat, offset: nat)

  function PlaceFor(p: PageState, n: nat): Place
    requires HasRoom(p, n)
  {
    var i := FreeSlot(p.records);
    Place(i, if i < |p.records| then |p.records| else |p.records| + 1, p.free - n)
  }

  predicate PlaceFits(place: Place, r: seq<byte>) {
    place.slot < place.slotCount && SlotPos(place.slotCount) <= place.offset && place.offset + |r| <= PAGE_SIZE
  }

  function InsertBytes(d: PageBytes, place: Place, r: seq<byte>): PageBytes
    requires PlaceFits(place, r)
  {
    var h := ReadHeader(d).(slotCount := place.slotCount, freeSpaceOffset := place.offset);
    InsertBytesAt(d, place.slot, place.offset, r, h)
  }

  lemma {:induction false} InsertRepresents(d: PageBytes, r: seq<byte>, place: Place)
    requires PageOk(d) && HasRoom(Abs(d), |r|) && place == PlaceFor(Abs(d), |r|)
    ensures PlaceFits(place, r)
    ensures PageOk(InsertBytes(d, place, r)) && Abs(InsertBytes(d, place, r)) == Insert(Abs(d), r)
  {
    InsertAtRepresents(d, place.slot, place.offset, r, ReadHeader(d), place.slotCount);
  }

  lemma {:induction false} InsertAtRepresents(d: PageBytes, i: nat, p: nat, r: seq<byte>, h: Header, m: nat)
    requires PageOk(d) && h == ReadHeader(d)
    requires (i < h.slotCount == m) || (i == h.slotCount && m == h.slotCount + 1)
    requires SlotPos(m) <= p && p + |r| == h.freeSpaceOffset
    ensures var e := InsertBytesAt(d, i, p, r, h.(slotCount := m, freeSpaceOffset := p));
            PageOk(e) && Abs(e) == PageState(h.pageId, h.nextPageId, SetRecord(Abs(d).records, i, r), p)
  {
    var h2 := h.(slotCount := m, freeSpaceOffset := p);
    var e := InsertBytesAt(d, i, p, r, h2);
    forall j: nat | j < h.slotCount && j != i ensures SlotKept(d, e, j) && ApartFrom(d, j, Slot(p, |r|)) {
      InsertKeepsSlot(d, r, i, p, h2, j);
    }
    InsertedSlot(d, i, p, r, h2);
    SlotSetRepresents(d, e, h.slotCount, m, i, r);
  }

  lemma {:induction false} InsertKeepsSlot(d: PageBytes, r: seq<byte>, i: nat, p: nat, h2: Header, j: nat)
    requires PageOk(d) && j < ReadHeader(d).slotCount && j != i && HeaderFits(h2)
    requires SlotPos(i + 1) <= p && SlotPos(j + 1) <= p && p + |r| == ReadHeader(d).freeSpaceOffset
    ensures ApartFrom(d, j, Slot(p, |r|))
    ensures SlotKept(d, InsertBytesAt(d, i, p, r, h2), j)
  {
    var d1 := Put(d, p, r);
    var d2 := WriteSlot(d1, i, Slot(p, |r|));
    assert SlotOk(d, ReadHeader(d), j);
    PutKeepsSlot(d, p, r, j);
    WriteSlotKeepsSlot(d1, i, Slot(p, |r|), j);
    HeaderKeepsSlot(d2, h2, j);
  }

  lemma {:induction false} InsertedSlot(d: PageBytes, i: nat, p: nat, r: seq<byte>, h2: Header)
    requires SlotPos(i + 1) <= p && p + |r| <= PAGE_SIZE && HeaderFits(h2)
    ensures var e := InsertBytesAt(d, i, p, r, h2);
            ReadHeader(e) == h2 && ReadSlot(e, i) == Slot(p, |r|) && Field(e, p, |r|) == r
  {
    var d1 := Put(d, p, r);
    var d2 := WriteSlot(d1, i, Slot(p, |r|));
    PutField(d, p, r, p, |r|);
    WriteSlotReads(d1, i, Slot(p, |r|));
    WriteSlotKeeps(d1, i, Slot(p, |r|), p, |r|);
    HeaderKeepsSlot(d2, h2, i);
    WriteHeaderKeeps(d2, h2, p, |r|);
    WriteHeaderReads(d2, h2);
  }

  /** Deleting clears the length of the slot. */
  lemma {:induction false} DeleteRepresents(d: PageBytes, i: nat)
    requires PageOk(d) && i < ReadHeader(d).slotCount
    ensures var e := WriteSlot(d, i, ReadSlot(d, i).(length := 0));
            PageOk(e) && Abs(e) == Replace(Abs(d), i, [])
  {
    var s := ReadSlot(d, i).(length := 0);
    var e, n := WriteSlot(d, i, s), ReadHeader(d).slotCount;
    WriteSlotReads(d, i, s);
    SlotKeepsHeader(d, i, s);
    forall j: nat | j < n && j != i ensures SlotKept(d, e, j) {
      assert SlotOk(d, ReadHeader(d), j);
      WriteSlotKeepsSlot(d, i, s, j);
    }
    SlotSetRepresents(d, e, n, n, i, []);
  }

  lemma {:induction false} SlotKeepsHeader(d: PageBytes, i: nat, s: Slot)
    requires SlotPos(i + 1) <= PAGE_SIZE
    ensures ReadHeader(WriteSlot(d, i, s)) == ReadHeader(d)
  {
    WriteSlotKeeps(d, i, s, 0, 4);
    WriteSlotKeeps(d, i, s, 4, 4);
    WriteSlotKeeps(d, i, s, 8, 2);
    WriteSlotKeeps(d, i, s, 10, 2);
  }

  /** The bytes after a record has been overwritten by one no longer than it. */
  function UpdateBytes(d: PageBytes, i: nat, r: seq<byte>): PageBytes
    requires PageOk(d) && Live(Abs(d), i) && |r| <= |Abs(d).records[i]|
  {
    assert SlotOk(d, ReadHeader(d), i);
    WriteSlot(Put(d, ReadSlot(d, i).offset, r), i, ReadSlot(d, i).(length := |r|))
  }

  lemma {:induction false} UpdateRepresents(d: PageBytes, i: nat, r: seq<byte>)
    requires PageOk(d) && Live(Abs(d), i) && |r| <= |Abs(d).records[i]|
    ensures PageOk(UpdateBytes(d, i, r)) && Abs(UpdateBytes(d, i, r)) == Replace(Abs(d), i, r)
  {
    var s, n := ReadSlot(d, i), ReadHeader(d).slotCount;
    assert SlotOk(d, ReadHeader(d), i);
    var p, t := s.offset, s.(length := |r|);
    var d1 := Put(d, p, r);
    var e := WriteSlot(d1, i, t);
    PutField(d, p, r, p, |r|);
    PutKeepsHeader(d, p, r);
    SlotKeepsHeader(d1, i, t);
    WriteSlotReads(d1, i, t);
    WriteSlotKeeps(d1, i, t, p, |r|);
    forall j: nat | j < n && j != i ensures SlotKept(d, e, j) && ApartFrom(d, j, Slot(p, |r|)) {
      assert SlotOk(d, ReadHeader(d), j);
      assert if i < j then SlotsApart(d, i, j) else SlotsApart(d, j, i);
      PutKeepsSlot(d, p, r, j);
      WriteSlotKeepsSlot(d1, i, t, j);
    }
    SlotSetRepresents(d, e, n, n, i, r);
  }

  lemma {:induction false} PutKeepsHeader(d: PageBytes, p: nat, r: seq<byte>)
    requires HEADER_SIZE <= p && p + |r| <= PAGE_SIZE
    ensures ReadHeader(Put(d, p, r)) == ReadHeader(d)
  {
    PutField(d, p, r, 0, 4);
    PutField(d, p, r, 4, 4);
    PutField(d, p, r, 8, 2);
    PutField(d, p, r, 10, 2);
  }
}
