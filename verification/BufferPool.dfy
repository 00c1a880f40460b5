/** The buffer pool and its LRU replacer, updating their lists and tables in place. */
module BufferPool {
  import opened Types
  import opened BufferModel

  /** A list of frames, most recently unpinned first, and the set of frames in it. */
  class LRUReplacer {
    var lruList: seq<nat>
    var position: set<nat>

    ghost predicate Valid()
      reads this
    {
      NoDup(lruList) && forall f :: f in position <==> f in lruList
    }

    constructor ()
      ensures Valid() && lruList == []
    {
      lruList, position := [], {};
    }

    method Unpin(f: nat)
      requires Valid()
      modifies this
      ensures Valid() && lruList == if f in old(lruList) then old(lruList) else [f] + old(lruList)
    {
      if f in position {
        return;
      }
      lruList := [f] + lruList;
      position := position + {f};
    }

    method Pin(f: nat)
      requires Valid()
      modifies this
      ensures Valid() && lruList == Without(old(lruList), f)
    {
      if f !in position {
        return;
      }
      WithoutAll(lruList, f);
      lruList := Without(lruList, f);
      position := position - {f};
    }

    method Victim() returns (f: Option<nat>)
      requires Valid()
      modifies this
      ensures Valid()
      ensures var s := old(lruList);
              if s == [] then f == None && lruList == s else f == Some(s[|s| - 1]) && lruList == s[..|s| - 1]
    {
      if |lruList| == 0 {
        return None;
      }
      var last := lruList[|lruList| - 1];
      assert lruList == lruList[..|lruList| - 1] + [last];
      position := position - {last};
      lruList := lruList[..|lruList| - 1];
      f := Some(last);
    }
  }

  lemma {:induction false} WithoutAll(s: seq<nat>, f: nat)
    requires NoDup(s)
    ensures NoDup(Without(s, f)) && forall g :: g in Without(s, f) <==> g in s && g != f
  {
    if f in s {
      var r := Without(s, f);
      forall j, k | 0 <= j < k < |r| ensures r[j] != r[k] {
        WithoutAt(s, f, j);
        WithoutAt(s, f, k);
      }
    }
    forall g ensures g in Without(s, f) <==> g in s && g != f {
      WithoutMember(s, f, g);
    }
  }

  /** Every frame number in the lists and the page table is one. */
  ghost predicate InRange(p: Pool) {
    && (forall id :: id in p.table ==> p.table[id] < |p.frames|)
    && (Victim(p).Some? ==> Victim(p).value < |p.frames|)
  }

  lemma {:induction false} InRangeOf(p: Pool)
    requires Struct(p)
    ensures InRange(p)
  {
    VictimRight(p);
  }

  class BufferPool {
    var frames: seq<Frame>
    var pageTable: map<PageId, nat>
    var freeList: seq<nat>
    const replacer: LRUReplacer
    var disk: seq<Page>
    ghost var pending: set<PageId>
    ghost var zeroAt: map<nat, nat>
    ghost var now: nat

    ghost function Abs(): Pool
      reads this, replacer
    {
      Pool(frames, pageTable, freeList, replacer.lruList, disk, pending, zeroAt, now)
    }

    ghost predicate Valid()
      reads this, replacer
    {
      replacer.Valid() && Struct(Abs())
    }

    constructor (size: nat, file: seq<Page>)
      ensures Valid() && Clean(Abs()) && Abs() == EmptyPool(size, file) && fresh(replacer)
    {
      frames := seq(size, _ => EmptyFrame());
      pageTable := map[];
      freeList := seq(size, i => i);
      replacer := new LRUReplacer();
      disk := file;
      pending, zeroAt, now := {}, map[], 0;
      new;
      EmptyPoolInv(size, file);
    }

    method FindVictimFrame() returns (f: Option<nat>)
      requires replacer.Valid()
      modifies this`freeList, replacer
      ensures replacer.Valid() && f == Victim(old(Abs())) && Abs() == Unlisted(old(Abs()))
    {
      if |freeList| > 0 {
        f := Some(freeList[|freeList| - 1]);
        freeList := freeList[..|freeList| - 1];
        return;
      }
      f := replacer.Victim();
    }

    /** Writes a dirty page back to the file and empties its frame. */
    method EmptyOut(f: nat)
      requires f < |frames|
      modifies this`disk, this`pageTable, this`frames
      ensures Abs() == Emptied(old(Abs()), f)
    {
      var x := frames[f];
      if x.id != INVALID_PAGE {
        if x.dirty && 0 <= x.id < |disk| {
          disk := disk[x.id := x.page];
        }
        pageTable := pageTable - {x.id};
      }
      frames := frames[f := EmptyFrame()];
    }
  
    /** Pins a page, reading it into a frame if it is not resident; fails if no frame is free to take or no such page exists. */
    method FetchPage(id: PageId) returns (frame: Option<nat>)
      requires Valid()
      modifies this, replacer
      ensures Valid() && Pinned(Abs(), frame) == Fetch(old(Abs()), id) && PinnedKept(old(Abs()), Abs())
      ensures old(Clean(Abs())) ==> Clean(Abs()) && SameView(old(Abs()), Abs())
    {
      FetchKeeps(Abs(), id);
      if Clean(Abs()) {
        FetchView(Abs(), id);
      }
      InRangeOf(Abs());
      frame := PinPage(id);
    }

    method PinPage(id: PageId) returns (frame: Option<nat>)
      requires replacer.Valid() && InRange(Abs())
      modifies this, replacer
      ensures replacer.Valid() && Pinned(Abs(), frame) == Fetch(old(Abs()), id)
    {
      if id in pageTable {
        var f := pageTable[id];
        if frames[f].pins == 0 {
          replacer.Pin(f);
        }
        frames := frames[f := frames[f].(pins := frames[f].pins + 1)];
        return Some(f);
      }
      var victim := FindVictimFrame();
      if victim.None? {
        return None;
      }
      var f := victim.value;
      EmptyOut(f);
      if !(0 <= id < |disk|) {
        freeList := freeList + [f];
        return None;
      }
      frames := frames[f := Frame(disk[id], id, 1, false)];
      pageTable := pageTable[id := f];
      frame := Some(f);
    }

    /** Adds a page to the file and pins it; the page number is used up even when no frame can be had. */
    method NewPage() returns (frame: Option<nat>, id: PageId)
      requires Valid()
      modifies this, replacer
      ensures Valid() && Pinned(Abs(), frame) == New(old(Abs())) && id == |old(disk)| && PinnedKept(old(Abs()), Abs())
      ensures old(Clean(Abs())) ==> Clean(Abs())
    {
      NewKeeps(Abs());
      if Clean(Abs()) {
        NewPageView(Abs());
      }
      InRangeOf(Abs());
      frame, id := PinNewPage();
    }

    method PinNewPage() returns (frame: Option<nat>, id: PageId)
      requires replacer.Valid() && InRange(Abs())
      modifies this, replacer
      ensures replacer.Valid() && Pinned(Abs(), frame) == New(old(Abs())) && id == |old(disk)|
    {
      id := |disk|;
      disk := disk + [ZeroPage()];
      var victim := FindVictimFrame();
      if victim.None? {
        return None, id;
      }
      var f := victim.value;
      EmptyOut(f);
      frames := frames[f := EmptyFrame().(id := id, pins := 1, dirty := true)];
      pageTable := pageTable[id := f];
      frame := Some(f);
    }

    /** Gives up a pin; the last pin given up puts the frame into the replacer. */
    method UnpinPage(id: PageId, dirty: bool) returns (ok: bool)
      requires Valid()
      modifies this, replacer
      ensures Valid() && Abs() == BufferModel.Unpin(old(Abs()), id, dirty) && SameView(old(Abs()), Abs())
      ensures ok <==> old(Resident(Abs(), id) && frames[pageTable[id]].pins > 0)
      ensures old(Clean(Abs()) && UnpinDisciplined(Abs(), id, dirty)) ==> Clean(Abs())
    {
      UnpinKeeps(Abs(), id, dirty);
      UnpinView(Abs(), id, dirty);
      if Clean(Abs()) && UnpinDisciplined(Abs(), id, dirty) {
        UnpinClean(Abs(), id, dirty);
      }
      InRangeOf(Abs());
      ok := GiveUpPin(id, dirty);
    }

    method GiveUpPin(id: PageId, dirty: bool) returns (ok: bool)
      requires replacer.Valid() && InRange(Abs())
      modifies this, replacer
      ensures replacer.Valid() && Abs() == BufferModel.Unpin(old(Abs()), id, dirty)
      ensures ok <==> old(Resident(Abs(), id) && frames[pageTable[id]].pins > 0)
    {
      if id !in pageTable {
        return false;
      }
      var f := pageTable[id];
      var x := frames[f];
      if x.pins <= 0 {
        return false;
      }
      frames := frames[f := x.(dirty := x.dirty || dirty, pins := x.pins - 1)];
      if dirty {
        pending := pending - {id};
      }
      if x.pins == 1 {
        replacer.Unpin(f);
        zeroAt, now := zeroAt[f := now], now + 1;
      }
      ok := true;
    }

    method FlushPage(id: PageId) returns (status: Status)
      requires Valid()
      modifies this
      ensures Valid() && Abs() == BufferModel.FlushPage(old(Abs()), id)
      ensures old(Clean(Abs())) ==> Clean(Abs())
      ensures status == if id in old(pageTable) then Ok else NotFound
    {
      FlushPageKeeps(Abs(), id);
      if id !in pageTable {
        return NotFound;
      }
      var f := pageTable[id];
      assert FrameOk(Abs(), f);
      disk := disk[id := frames[f].page];
      frames := frames[f := frames[f].(dirty := false)];
      pending := pending - {id};
      status := Ok;
    }

    /** Writes every dirty page to the file; `order` is the order in which the page table is walked. */
    method FlushAll(order: seq<PageId>) returns (status: Status)
      requires Valid() && forall id :: id in order <==> id in pageTable
      modifies this
      ensures Valid() && status == Ok && SameView(old(Abs()), Abs())
      ensures Abs() == BufferModel.FlushAll(old(Abs()), order)
      ensures old(Clean(Abs())) ==> Clean(Abs())
      ensures old(Clean(Abs()) && pending == {}) ==> forall x: nat :: x < |disk| ==> disk[x] == Logical(old(Abs()), x)
    {
      var i := 0;
      while i < |order|
        invariant i <= |order| && Valid() && pageTable == old(pageTable)
        invariant Abs() == BufferModel.FlushAll(old(Abs()), order[..i])
      {
        var id := order[i];
        assert order[..i + 1] == order[..i] + [id] && id in order;
        FlushOneMore(old(Abs()), order[..i], id);
        FlushIfDirtyKeeps(Abs(), id);
        assert FrameOk(Abs(), pageTable[id]);
        if frames[pageTable[id]].dirty {
          var written := FlushPage(id);
          if written != Ok {
            return written;
          }
        }
        i := i + 1;
      }
      assert order[..i] == order;
      FlushAllKeeps(old(Abs()), order);
      if old(Clean(Abs()) && pending == {}) {
        FlushAllWrites(old(Abs()), order);
      }
      status := Ok;
    }

    /** A client changes a page in its frame. */
    method WriteByClient(id: PageId, page: Page)
      requires Valid() && Resident(Abs(), id)
      modifies this
      ensures Valid() && Abs() == Write(old(Abs()), id, page)
      ensures old(Clean(Abs()) && frames[pageTable[id]].pins > 0) ==> Clean(Abs())
    {
      WriteKeeps(Abs(), id, page);
      var f := pageTable[id];
      frames := frames[f := frames[f].(page := page)];
      pending := pending + {id};
    }
  }

  lemma {:induction false} FlushOneMore(p: Pool, ids: seq<PageId>, id: PageId)
    ensures BufferModel.FlushAll(p, ids + [id]) == FlushIfDirty(BufferModel.FlushAll(p, ids), id)
    decreases |ids|
  {
    if |ids| == 0 {
      assert [id][1..] == [] && ids + [id] == [id];
    } else {
      FlushOneMore(FlushIfDirty(p, ids[0]), ids[1..], id);
      assert (ids + [id])[1..] == ids[1..] + [id];
    }
  }
}
