/** Slotted-page operations in place on a page buffer. */
module SlottedPage {
  import opened Types
  import opened Bytes
  import opened PageFields
  import opened SlottedPageModel

  class SlottedPage {
    const data: array<byte>

    constructor (page: array<byte>)
      requires page.Length == PAGE_SIZE
      ensures data == page
    {
      data := page;
    }

    method PutHeader(h: Header)
      requires data.Length == PAGE_SIZE && HeaderFits(h)
      modifies data
      ensures data[..] == WriteHeader(old(data[..]), h)
    {
      CopyInto(data, 0, ToBytes(Unsigned32(h.pageId), 4));
      CopyInto(data, 4, ToBytes(Unsigned32(h.nextPageId), 4));
      CopyInto(data, 8, ToBytes(h.slotCount, 2));
      CopyInto(data, 10, ToBytes(h.freeSpaceOffset, 2));
    }

    method PutSlot(i: nat, s: Slot)
      requires data.Length == PAGE_SIZE && SlotPos(i + 1) <= PAGE_SIZE
      modifies data
      ensures data[..] == WriteSlot(old(data[..]), i, s)
    {
      CopyInto(data, SlotPos(i), ToBytes(s.offset, 2));
      CopyInto(data, SlotPos(i) + 2, ToBytes(s.length, 2));
    }

    method Init(pageId: PageId, nextPageId: PageId)
      requires data.Length == PAGE_SIZE && -TWO_31 <= pageId < TWO_31 && -TWO_31 <= nextPageId < TWO_31
      modifies data
      ensures PageOk(data[..]) && Abs(data[..]) == PageState(pageId, nextPageId, [], PAGE_SIZE)
    {
      InitRepresents(data[..], pageId, nextPageId);
      PutHeader(Header(pageId, nextPageId, 0, PAGE_SIZE));
    }

    method SetNextPageId(next: PageId)
      requires data.Length == PAGE_SIZE && PageOk(data[..]) && -TWO_31 <= next < TWO_31
      modifies data
      ensures PageOk(data[..]) && Abs(data[..]) == old(Abs(data[..])).(next := next)
    {
      SetNextRepresents(data[..], next);
      var h := ReadHeader(data[..]);
      PutHeader(h.(nextPageId := next));
    }

    /** Stores a record in the first deleted slot, or in a new one, if there is room. */
    method InsertRecord(r: seq<byte>) returns (slot: Option<nat>)
      requires data.Length == PAGE_SIZE && PageOk(data[..])
      modifies data
      ensures PageOk(data[..])
      ensures var p := old(Abs(data[..]));
              if HasRoom(p, |r|) then
                slot == Some(FreeSlot(p.records)) && Abs(data[..]) == SlottedPageModel.Insert(p, r)
              else slot == None && data[..] == old(data[..])
    {
      var place := FindPlace(data[..], |r|);
      if place.None? {
        return None;
      }
      InsertRepresents(data[..], r, place.value);
      Store(place.value, r);
      slot := Some(place.value.slot);
    }

    /** Writes the record, its slot and the header. */
    method Store(place: Place, r: seq<byte>)
      requires data.Length == PAGE_SIZE && PlaceFits(place, r)
      modifies data
      ensures data[..] == InsertBytes(old(data[..]), place, r)
    {
      var h := ReadHeader(data[..]);
      CopyInto(data, place.offset, r);
      PutSlot(place.slot, Slot(place.offset, |r|));
      PutHeader(h.(slotCount := place.slotCount, freeSpaceOffset := place.offset));
    }

    /** The bytes of a slot, if it holds a record. */
    method GetRecord(i: nat) returns (r: Option<seq<byte>>)
      requires data.Length == PAGE_SIZE && PageOk(data[..])
      ensures var p := Abs(data[..]); r == if Live(p, i) then Some(p.records[i]) else None
    {
      r := ReadRecord(data[..], i);
    }

    method DeleteRecord(i: nat) returns (ok: bool)
      requires data.Length == PAGE_SIZE && PageOk(data[..])
      modifies data
      ensures PageOk(data[..])
      ensures var p := old(Abs(data[..]));
              if Live(p, i) then ok && Abs(data[..]) == Replace(p, i, []) else !ok && data[..] == old(data[..])
    {
      if i >= ReadHeader(data[..]).slotCount {
        return false;
      }
      assert SlotOk(data[..], ReadHeader(data[..]), i);
      var s := ReadSlot(data[..], i);
      if s.length == 0 {
        return false;
      }
      DeleteRepresents(data[..], i);
      PutSlot(i, s.(length := 0));
      ok := true;
    }

    /** Overwrites a record with one that is no longer. */
    method UpdateRecordInPlace(i: nat, r: seq<byte>) returns (ok: bool)
      requires data.Length == PAGE_SIZE && PageOk(data[..])
      modifies data
      ensures PageOk(data[..])
      ensures var p := old(Abs(data[..]));
              if Live(p, i) && |r| <= |p.records[i]| then ok && Abs(data[..]) == Replace(p, i, r)
              else !ok && data[..] == old(data[..])
    {
      if i >= ReadHeader(data[..]).slotCount {
        return false;
      }
      assert SlotOk(data[..], ReadHeader(data[..]), i);
      var s := ReadSlot(data[..], i);
      if s.length == 0 || |r| > s.length {
        return false;
      }
      UpdateRepresents(data[..], i, r);
      CopyInto(data, s.offset, r);
      PutSlot(i, s.(length := |r|));
      ok := true;
    }
  }

  method FindPlace(d: PageBytes, n: nat) returns (place: Option<Place>)
    requires PageOk(d)
    ensures if HasRoom(Abs(d), n) then place == Some(PlaceFor(Abs(d), n)) else place == None
  {
    var h := ReadHeader(d);
    var i := FindFreeSlot(d);
    var slots := if i < h.slotCount then h.slotCount else h.slotCount + 1;
    if SlotPos(slots) > h.freeSpaceOffset || h.freeSpaceOffset - SlotPos(slots) < n {
      return None;
    }
    place := Some(Place(i, slots, h.freeSpaceOffset - n));
  }

  method FindFreeSlot(d: PageBytes) returns (i: nat)
    requires PageOk(d)
    ensures i == FreeSlot(Abs(d).records)
  {
    var n := ReadHeader(d).slotCount;
    ghost var rs := Abs(d).records;
    i := 0;
    while i < n
      invariant i <= n
      invariant forall j :: 0 <= j < i ==> rs[j] != []
    {
      assert SlotOk(d, ReadHeader(d), i) && rs[i] == RecordAt(d, i);
      if ReadSlot(d, i).length == 0 {
        break;
      }
      i := i + 1;
    }
    assert FreeSlot(rs) == i;
  }
}
