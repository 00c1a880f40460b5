/**
 A write-back page cache: frames, page table, free list and LRU order over a page file. Over
 every run the pages seen through the cache are those of a plain page store.
 */
module BufferModel {
  import opened Types
  import opened Bytes

  type Page = seq<byte>

  function ZeroPage(): Page {
    seq(PAGE_SIZE, _ => 0)
  }

  datatype Frame = Frame(page: Page, id: PageId, pins: nat, dirty: bool)

  function EmptyFrame(): Frame {
    Frame(ZeroPage(), INVALID_PAGE, 0, false)
  }

  /**
   The pool over its file. Three components are history: `pending` are pages that a client has
   written and not yet flagged as dirty, `zeroAt` is when a frame's pin count last fell to
   zero, and `now` counts those events.
   */
  datatype Pool = Pool(frames: seq<Frame>, table: map<PageId, nat>, free: seq<nat>, lru: seq<nat>, disk: seq<Page>,
                       pending: set<PageId>, zeroAt: map<nat, nat>, now: nat)

  /* ---------- Order in the replacer ---------- */

  predicate NoDup(s: seq<nat>) {
    forall i, j :: 0 <= i < j < |s| ==> s[i] != s[j]
  }

  function Pos(s: seq<nat>, f: nat): (i: nat)
    requires f in s
    ensures i < |s| && s[i] == f
  {
    if s[0] == f then 0 else 1 + Pos(s[1..], f)
  }

  function Without(s: seq<nat>, f: nat): seq<nat> {
    if f in s then s[..Pos(s, f)] + s[Pos(s, f) + 1..] else s
  }

  /** The replacer lists frames from the most recently to the least recently unpinned. */
  predicate Aged(s: seq<nat>, at: map<nat, nat>, now: nat) {
    && (forall i :: 0 <= i < |s| ==> s[i] in at && at[s[i]] < now)
    && (forall i, j :: 0 <= i < j < |s| ==> s[i] in at && s[j] in at && at[s[i]] > at[s[j]])
  }

  lemma {:induction false} WithoutAt(s: seq<nat>, f: nat, k: nat)
    requires f in s && k < |s| - 1
    ensures |Without(s, f)| == |s| - 1 && Without(s, f)[k] == s[if k < Pos(s, f) then k else k + 1]
  {
  }

  lemma {:induction false} WithoutMember(s: seq<nat>, f: nat, g: nat)
    requires NoDup(s)
    ensures g in Without(s, f) <==> g in s && g != f
  {
    if f in s {
      var i := Pos(s, f);
      assert s == s[..i] + [f] + s[i + 1..];
    }
  }

  lemma {:induction false} WithoutAged(s: seq<nat>, f: nat, at: map<nat, nat>, now: nat)
    requires NoDup(s) && Aged(s, at, now)
    ensures NoDup(Without(s, f)) && Aged(Without(s, f), at, now)
  {
    var r := Without(s, f);
    if f in s {
      forall k | 0 <= k < |r| ensures r[k] in at && at[r[k]] < now {
        WithoutAt(s, f, k);
      }
      forall j, k | 0 <= j < k < |r| ensures r[j] != r[k] && r[j] in at && r[k] in at && at[r[j]] > at[r[k]] {
        WithoutAt(s, f, j);
        WithoutAt(s, f, k);
      }
    }
  }

  /* ---------- The pool ---------- */

  predicate Resident(p: Pool, id: PageId) {
    id in p.table && p.table[id] < |p.frames|
  }

  /** Either empty and on the free list, or holding one page, and in the replacer exactly when unpinned. */
  predicate FrameOk(p: Pool, f: nat)
    requires f < |p.frames|
  {
    var x := p.frames[f];
    if x.id == INVALID_PAGE then x == EmptyFrame() && f in p.free && f !in p.lru
    else
      && 0 <= x.id < |p.disk| && x.id in p.table && p.table[x.id] == f
      && f !in p.free && (f in p.lru <==> x.pins == 0)
  }

  predicate TableOk(p: Pool) {
    forall id :: id in p.table ==> p.table[id] < |p.frames| && id != INVALID_PAGE && p.frames[p.table[id]].id == id
  }

  /** A frame in the hands of an operation: empty and on no list. */
  predicate Loose(p: Pool, f: nat) {
    f < |p.frames| && p.frames[f] == EmptyFrame() && f !in p.free && f !in p.lru
  }

  /** A page that is not dirty and has no unflagged write equals its copy in the file. */
  predicate CleanOk(p: Pool, f: nat)
    requires f < |p.frames|
  {
    var x := p.frames[f];
    0 <= x.id < |p.disk| && !x.dirty && x.id !in p.pending ==> x.page == p.disk[x.id]
  }

  predicate PendingOk(p: Pool) {
    forall id :: id in p.pending ==> Resident(p, id) && p.frames[p.table[id]].pins > 0
  }

  predicate Lists(p: Pool) {
    && NoDup(p.free) && NoDup(p.lru) && Aged(p.lru, p.zeroAt, p.now)
    && (forall i :: 0 <= i < |p.free| ==> p.free[i] < |p.frames|)
    && (forall i :: 0 <= i < |p.lru| ==> p.lru[i] < |p.frames|)
  }

  /**
   Each frame is in exactly one place, on the free list, in the replacer or pinned, and the page
   table is the inverse of the frames; `loose` is a frame in the hands of an operation.
   */
  predicate StructBut(p: Pool, loose: Option<nat>) {
    && Lists(p) && TableOk(p)
    && (forall f: nat :: f < |p.frames| && loose != Some(f) ==> FrameOk(p, f))
    && (loose.Some? ==> Loose(p, loose.value))
  }

  predicate Struct(p: Pool) {
    StructBut(p, None)
  }

  /** No page differs from the file without being dirty or in the hands of a client that pins it. */
  predicate Clean(p: Pool) {
    PendingOk(p) && forall f: nat :: f < |p.frames| ==> CleanOk(p, f)
  }

  predicate Inv(p: Pool) {
    Struct(p) && Clean(p)
  }

  /** The page a client sees: the frame if the page is resident, else the file. */
  function Logical(p: Pool, id: nat): Page
    requires id < |p.disk|
  {
    if Resident(p, id) then p.frames[p.table[id]].page else p.disk[id]
  }

  predicate SameView(p: Pool, q: Pool) {
    |q.disk| == |p.disk| && forall id: nat :: id < |p.disk| ==> Logical(q, id) == Logical(p, id)
  }

  function EmptyPool(size: nat, disk: seq<Page>): Pool {
    Pool(seq(size, _ => EmptyFrame()), map[], seq(size, i => i), [], disk, {}, map[], 0)
  }

  lemma {:induction false} EmptyPoolInv(size: nat, disk: seq<Page>)
    ensures Inv(EmptyPool(size, disk))
    ensures forall id: nat :: id < |disk| ==> Logical(EmptyPool(size, disk), id) == disk[id]
  {
    var p := EmptyPool(size, disk);
    forall f: nat | f < size ensures FrameOk(p, f) {
      assert p.free[f] == f;
    }
  }

  /* ---------- Taking a frame ---------- */

  /** The frame an operation takes: from the free list, else the least recently unpinned one. */
  function Victim(p: Pool): Option<nat> {
    if |p.free| > 0 then Some(p.free[|p.free| - 1])
    else if |p.lru| > 0 then Some(p.lru[|p.lru| - 1])
    else None
  }

  function Unlisted(p: Pool): Pool {
    if |p.free| > 0 then p.(free := p.free[..|p.free| - 1])
    else if |p.lru| > 0 then p.(lru := p.lru[..|p.lru| - 1])
    else p
  }

  /** The frame emptied: its page written to the file if dirty, and taken out of the page table. */
  function Emptied(p: Pool, f: nat): Pool
    requires f < |p.frames|
  {
    var x := p.frames[f];
    p.(disk := if 0 <= x.id < |p.disk| && x.dirty then p.disk[x.id := x.page] else p.disk,
       table := if x.id == INVALID_PAGE then p.table else p.table - {x.id},
       frames := p.frames[f := EmptyFrame()])
  }

  function Taken(p: Pool, f: nat): Pool
    requires f < |p.frames|
  {
    Emptied(Unlisted(p), f)
  }

  /** The victim is unpinned; one from the replacer is the frame whose pin count fell to zero longest ago. */
  lemma {:induction false} VictimRight(p: Pool)
    requires Struct(p)
    ensures match Victim(p)
            case None => forall f: nat :: f < |p.frames| ==> p.frames[f].pins > 0
            case Some(v) =>
              && v < |p.frames| && p.frames[v].pins == 0
              && (p.frames[v].id != INVALID_PAGE ==>
                    && v in p.zeroAt
                    && forall f: nat :: f < |p.frames| && p.frames[f].pins == 0 ==>
                         p.frames[f].id != INVALID_PAGE && f in p.zeroAt && p.zeroAt[v] <= p.zeroAt[f])
  {
    var v := Victim(p);
    if v.Some? {
      assert v.value in p.free || v.value in p.lru;
      assert FrameOk(p, v.value);
    }
    forall f: nat | f < |p.frames| && p.frames[f].pins == 0
      ensures f in p.free || f in p.lru
      ensures v.Some? && p.frames[v.value].id != INVALID_PAGE ==>
                p.frames[f].id != INVALID_PAGE && v.value in p.zeroAt && f in p.zeroAt && p.zeroAt[v.value] <= p.zeroAt[f]
    {
      assert FrameOk(p, f);
      if v.Some? && p.frames[v.value].id != INVALID_PAGE {
        assert v.value !in p.free && p.free == [];
        var i :| 0 <= i < |p.lru| && p.lru[i] == f;
      }
    }
  }

  lemma {:induction false} UnlistedKeeps(p: Pool)
    requires Struct(p) && Victim(p).Some?
    ensures var f, q := Victim(p).value, Unlisted(p);
            && f < |p.frames| && f !in q.free && f !in q.lru && p.frames[f].pins == 0
            && Lists(q) && q == p.(free := q.free, lru := q.lru)
            && forall g: nat :: g < |p.frames| && g != f ==> (g in q.free <==> g in p.free) && (g in q.lru <==> g in p.lru)
  {
    var f, q := Victim(p).value, Unlisted(p);
    assert f in p.free || f in p.lru;
    assert FrameOk(p, f);
    if |p.free| > 0 {
      assert p.free == q.free + [f];
    } else {
      assert p.lru == q.lru + [f];
    }
  }

  /** Taking a frame keeps every other frame as it is. */
  lemma {:induction false} TakenKeeps(p: Pool)
    requires Struct(p) && Victim(p).Some?
    ensures var f := Victim(p).value;
            f < |p.frames| && StructBut(Taken(p, f), Some(f)) && |Taken(p, f).disk| == |p.disk|
            && Taken(p, f).pending == p.pending && (forall id :: id in Taken(p, f).table ==> id in p.table)
            && PinnedKept(p, Taken(p, f))
  {
    var f := Victim(p).value;
    UnlistedKeeps(p);
    var r := Taken(p, f);
    assert FrameOk(p, f);
    forall g: nat | g < |p.frames| && g != f ensures FrameOk(r, g) {
      assert FrameOk(p, g);
    }
    forall id | id in r.table ensures r.table[id] < |r.frames| && r.table[id] != f && r.frames[r.table[id]].id == id {
      assert id in p.table;
    }
  }

  /** Taking a frame loses nothing, if no write is unflagged: the file gets what the frame held. */
  lemma {:induction false} TakenView(p: Pool)
    requires Inv(p) && Victim(p).Some?
    ensures var f := Victim(p).value;
            f < |p.frames| && Clean(Taken(p, f)) && SameView(p, Taken(p, f))
  {
    var f := Victim(p).value;
    TakenKeeps(p);
    UnlistedKeeps(p);
    var r := Taken(p, f);
    assert FrameOk(p, f) && CleanOk(p, f);
    assert p.frames[f].id !in p.pending;
    forall g: nat | g < |p.frames| && g != f ensures CleanOk(r, g) {
      assert FrameOk(p, g) && CleanOk(p, g);
    }
    forall id: nat | id < |p.disk| ensures Logical(r, id) == Logical(p, id) {
    }
  }

  /** Pinned pages are where they were, with what they held. */
  predicate PinnedKept(p: Pool, q: Pool) {
    && |q.frames| == |p.frames|
    && forall f: nat :: f < |p.frames| && p.frames[f].pins > 0 ==>
         q.frames[f].id == p.frames[f].id && q.frames[f].page == p.frames[f].page && q.frames[f].pins >= p.frames[f].pins
  }

  function Installed(p: Pool, f: nat, id: PageId, page: Page, dirty: bool): Pool
    requires f < |p.frames|
  {
    p.(frames := p.frames[f := Frame(page, id, 1, dirty)], table := p.table[id := f])
  }

  lemma {:induction false} InstalledKeeps(p: Pool, f: nat, id: PageId, dirty: bool)
    requires StructBut(p, Some(f)) && 0 <= id < |p.disk| && id !in p.table
    ensures var q := Installed(p, f, id, p.disk[id], dirty);
            Struct(q) && PinnedKept(p, q) && (Clean(p) ==> Clean(q)) && SameView(p, q)
  {
    var q := Installed(p, f, id, p.disk[id], dirty);
    forall g: nat | g < |q.frames| ensures FrameOk(q, g) && (Clean(p) ==> CleanOk(q, g)) {
      assert Clean(p) ==> CleanOk(p, g);
      assert g != f ==> FrameOk(p, g);
    }
    forall x: nat | x < |p.disk| ensures Logical(q, x) == Logical(p, x) {
    }
  }

  lemma {:induction false} GivenBackKeeps(p: Pool, f: nat)
    requires StructBut(p, Some(f))
    ensures var q := p.(free := p.free + [f]);
            Struct(q) && PinnedKept(p, q) && (Clean(p) ==> Clean(q)) && SameView(p, q)
  {
    var q := p.(free := p.free + [f]);
    forall g: nat | g < |q.frames| ensures FrameOk(q, g) && (Clean(p) ==> CleanOk(q, g)) {
      assert Clean(p) ==> CleanOk(p, g);
      assert g != f ==> FrameOk(p, g);
      assert q.free[|p.free|] == f;
    }
  }

  /* ---------- The operations ---------- */

  /** The pool after a request for a page, and the frame it is in. */
  datatype Pinned = Pinned(pool: Pool, frame: Option<nat>)

  function Repinned(p: Pool, f: nat): Pool
    requires f < |p.frames|
  {
    p.(frames := p.frames[f := p.frames[f].(pins := p.frames[f].pins + 1)],
       lru := if p.frames[f].pins == 0 then Without(p.lru, f) else p.lru)
  }

  function Fetch(p: Pool, id: PageId): Pinned {
    if Resident(p, id) then Pinned(Repinned(p, p.table[id]), Some(p.table[id]))
    else
      match Victim(p)
      case None => Pinned(p, None)
      case Some(f) =>
        if f >= |p.frames| then Pinned(p, None)
        else
          var q := Taken(p, f);
          if 0 <= id < |q.disk| then Pinned(Installed(q, f, id, q.disk[id], false), Some(f))
          else Pinned(q.(free := q.free + [f]), None)
  }

  /** A page added to the file, and pinned if a frame can be had. */
  function New(p: Pool): Pinned {
    var g := p.(disk := p.disk + [ZeroPage()]);
    match Victim(g)
    case None => Pinned(g, None)
    case Some(f) =>
      if f >= |g.frames| then Pinned(g, None)
      else Pinned(Installed(Taken(g, f), f, |p.disk|, ZeroPage(), true), Some(f))
  }

  function Unpin(p: Pool, id: PageId, dirty: bool): Pool {
    if !Resident(p, id) || p.frames[p.table[id]].pins == 0 then p
    else
      var f := p.table[id];
      var x := p.frames[f];
      var q := p.(frames := p.frames[f := x.(dirty := x.dirty || dirty, pins := x.pins - 1)],
                  pending := if dirty then p.pending - {id} else p.pending);
      if x.pins > 1 then q
      else q.(lru := if f in q.lru then q.lru else [f] + q.lru, zeroAt := q.zeroAt[f := q.now], now := q.now + 1)
  }

  function FlushPage(p: Pool, id: PageId): Pool {
    if !Resident(p, id) || !(0 <= id < |p.disk|) then p
    else
      var f := p.table[id];
      p.(disk := p.disk[id := p.frames[f].page], frames := p.frames[f := p.frames[f].(dirty := false)],
         pending := p.pending - {id})
  }

  /** Flushing the frame of one page, if it is dirty. */
  function FlushIfDirty(p: Pool, id: PageId): Pool {
    if Resident(p, id) && 0 <= id < |p.disk| && p.frames[p.table[id]].dirty then FlushPage(p, id) else p
  }

  /** A client writes into a page it has pinned. */
  function Write(p: Pool, id: PageId, page: Page): Pool {
    if !Resident(p, id) then p
    else
      var f := p.table[id];
      p.(frames := p.frames[f := p.frames[f].(page := page)], pending := p.pending + {id})
  }

  /* ---------- Each operation keeps the structure, and the view if no write goes unflagged ---------- */

  lemma {:induction false} RepinnedKeeps(p: Pool, f: nat)
    requires Struct(p) && f < |p.frames| && p.frames[f].id != INVALID_PAGE
    ensures var q := Repinned(p, f);
            Struct(q) && PinnedKept(p, q) && (Clean(p) ==> Clean(q)) && SameView(p, q)
  {
    var q := Repinned(p, f);
    WithoutAged(p.lru, f, p.zeroAt, p.now);
    forall g: nat | g < |q.frames| ensures FrameOk(q, g) && (Clean(p) ==> CleanOk(q, g)) {
      assert FrameOk(p, g) && (Clean(p) ==> CleanOk(p, g));
      WithoutMember(p.lru, f, g);
    }
    WithoutInRange(p, f);
    forall x: nat | x < |p.disk| ensures Logical(q, x) == Logical(p, x) {
    }
  }

  lemma {:induction false} WithoutInRange(p: Pool, f: nat)
    requires Lists(p)
    ensures forall i :: 0 <= i < |Without(p.lru, f)| ==> Without(p.lru, f)[i] < |p.frames|
  {
    var r := Without(p.lru, f);
    forall i | 0 <= i < |r| ensures r[i] < |p.frames| {
      WithoutMember(p.lru, f, r[i]);
    }
  }

  lemma {:induction false} FetchKeeps(p: Pool, id: PageId)
    requires Struct(p)
    ensures var o := Fetch(p, id);
            && Struct(o.pool) && PinnedKept(p, o.pool) && o.pool.pending == p.pending
            && (o.frame.Some? ==> Resident(o.pool, id) && o.pool.table[id] == o.frame.value && o.pool.frames[o.frame.value].pins > 0)
            && (o.frame.None? ==> id !in p.table && (Victim(p).None? || !(0 <= id < |p.disk|)))
  {
    if Resident(p, id) {
      RepinnedKeeps(p, p.table[id]);
    } else if Victim(p).Some? {
      TakenKeeps(p);
      var f := Victim(p).value;
      var q := Taken(p, f);
      if 0 <= id < |q.disk| {
        InstalledKeeps(q, f, id, false);
      } else {
        GivenBackKeeps(q, f);
      }
    }
  }

  lemma {:induction false} FetchView(p: Pool, id: PageId)
    requires Inv(p)
    ensures Clean(Fetch(p, id).pool) && SameView(p, Fetch(p, id).pool)
  {
    if Resident(p, id) {
      RepinnedKeeps(p, p.table[id]);
    } else if Victim(p).Some? {
      TakenKeeps(p);
      TakenView(p);
      var f := Victim(p).value;
      var q := Taken(p, f);
      if 0 <= id < |q.disk| {
        InstalledKeeps(q, f, id, false);
      } else {
        GivenBackKeeps(q, f);
      }
    }
  }

  lemma {:induction false} GrownKeeps(p: Pool)
    requires Struct(p)
    ensures var g := p.(disk := p.disk + [ZeroPage()]);
            && Struct(g) && (Clean(p) ==> Clean(g)) && |p.disk| !in g.table && Logical(g, |p.disk|) == ZeroPage()
            && forall x: nat :: x < |p.disk| ==> Logical(g, x) == Logical(p, x)
  {
    var g := p.(disk := p.disk + [ZeroPage()]);
    forall f: nat | f < |p.frames| ensures FrameOk(g, f) && (Clean(p) ==> CleanOk(g, f)) {
      assert FrameOk(p, f) && (Clean(p) ==> CleanOk(p, f));
    }
    forall id | id in p.table ensures id < |p.disk| {
      assert FrameOk(p, p.table[id]);
    }
  }

  lemma {:induction false} NewKeeps(p: Pool)
    requires Struct(p)
    ensures var o := New(p);
            && Struct(o.pool) && PinnedKept(p, o.pool) && |o.pool.disk| == |p.disk| + 1
            && o.pool.pending == p.pending
            && (o.frame.None? <==> Victim(p).None?)
            && (o.frame.Some? ==> Resident(o.pool, |p.disk|) && o.pool.table[|p.disk|] == o.frame.value)
  {
    GrownKeeps(p);
    var g := p.(disk := p.disk + [ZeroPage()]);
    if Victim(g).Some? {
      TakenKeeps(g);
      var f := Victim(g).value;
      var q := Taken(g, f);
      assert |p.disk| !in q.table;
      NewPageIsZero(g, f, |p.disk|);
      InstalledKeeps(q, f, |p.disk|, true);
    }
  }

  /** The file's last page, not in the cache, is not touched by taking a frame. */
  lemma {:induction false} NewPageIsZero(g: Pool, f: nat, id: nat)
    requires Struct(g) && f < |g.frames| && id < |g.disk| && id !in g.table
    ensures Taken(g, f).disk[id] == g.disk[id]
  {
    assert FrameOk(g, f);
  }

  lemma {:induction false} NewPageView(p: Pool)
    requires Inv(p)
    ensures var o := New(p);
            && Clean(o.pool) && |o.pool.disk| == |p.disk| + 1 && Logical(o.pool, |p.disk|) == ZeroPage()
            && (forall x: nat :: x < |p.disk| ==> Logical(o.pool, x) == Logical(p, x))
  {
    GrownKeeps(p);
    var g := p.(disk := p.disk + [ZeroPage()]);
    if Victim(g).Some? {
      TakenKeeps(g);
      TakenView(g);
      var f := Victim(g).value;
      var q := Taken(g, f);
      assert |p.disk| !in q.table;
      NewPageIsZero(g, f, |p.disk|);
      InstalledKeeps(q, f, |p.disk|, true);
      NewView(p, g, q, Installed(q, f, |p.disk|, ZeroPage(), true));
    }
  }

  lemma {:induction false} NewView(p: Pool, g: Pool, q: Pool, r: Pool)
    requires |g.disk| == |p.disk| + 1 && Logical(g, |p.disk|) == ZeroPage()
    requires forall x: nat :: x < |p.disk| ==> Logical(g, x) == Logical(p, x)
    requires SameView(g, q) && SameView(q, r)
    ensures |r.disk| == |p.disk| + 1 && Logical(r, |p.disk|) == ZeroPage()
    ensures forall x: nat :: x < |p.disk| ==> Logical(r, x) == Logical(p, x)
  {
    forall x: nat | x < |g.disk| ensures Logical(r, x) == Logical(g, x) {
      assert Logical(q, x) == Logical(g, x);
    }
  }

  /** The one thing asked of clients: the last unpin of a page with an unflagged write flags it. */
  predicate UnpinDisciplined(p: Pool, id: PageId, dirty: bool) {
    dirty || id !in p.pending || !Resident(p, id) || p.frames[p.table[id]].pins != 1
  }

  /** An unpin, flagged or not, keeps the structure. */
  lemma {:induction false} UnpinKeeps(p: Pool, id: PageId, dirty: bool)
    requires Struct(p)
    ensures Struct(Unpin(p, id, dirty))
  {
    var q := Unpin(p, id, dirty);
    if Resident(p, id) && p.frames[p.table[id]].pins > 0 {
      var f := p.table[id];
      assert FrameOk(p, f);
      if p.frames[f].pins == 1 {
        AgedPush(p.lru, f, p.zeroAt, p.now);
      }
      forall g: nat | g < |q.frames| ensures FrameOk(q, g) {
        assert FrameOk(p, g);
      }
    }
  }

  /** It changes nothing that clients see. */
  lemma {:induction false} UnpinView(p: Pool, id: PageId, dirty: bool)
    requires Struct(p)
    ensures SameView(p, Unpin(p, id, dirty))
  {
    var q := Unpin(p, id, dirty);
    forall x: nat | x < |p.disk| ensures Logical(q, x) == Logical(p, x) {
    }
  }

  /** Only that no write goes unflagged asks for discipline. */
  lemma {:induction false} UnpinClean(p: Pool, id: PageId, dirty: bool)
    requires Inv(p) && UnpinDisciplined(p, id, dirty)
    ensures Clean(Unpin(p, id, dirty))
  {
    var q := Unpin(p, id, dirty);
    if Resident(p, id) && p.frames[p.table[id]].pins > 0 {
      assert FrameOk(p, p.table[id]);
      forall g: nat | g < |q.frames| ensures CleanOk(q, g) {
        assert FrameOk(p, g) && CleanOk(p, g);
      }
    }
  }

  lemma {:induction false} AgedPush(s: seq<nat>, f: nat, at: map<nat, nat>, now: nat)
    requires NoDup(s) && Aged(s, at, now) && f !in s
    ensures NoDup([f] + s) && Aged([f] + s, at[f := now], now + 1)
  {
  }

  lemma {:induction false} FlushPageKeeps(p: Pool, id: PageId)
    requires Struct(p)
    ensures var q := FlushPage(p, id);
            && Struct(q) && PinnedKept(p, q) && (Clean(p) ==> Clean(q)) && SameView(p, q) && q.table == p.table
            && q.pending == (if Resident(p, id) then p.pending - {id} else p.pending)
            && (Resident(p, id) ==> 0 <= id < |q.disk| && q.disk[id] == Logical(p, id))
            && (forall x: nat :: x < |p.disk| && x != id ==> q.disk[x] == p.disk[x])
  {
    var q := FlushPage(p, id);
    if Resident(p, id) {
      assert FrameOk(p, p.table[id]);
      forall g: nat | g < |q.frames| ensures FrameOk(q, g) && (Clean(p) ==> CleanOk(q, g)) {
        assert FrameOk(p, g) && (Clean(p) ==> CleanOk(p, g));
      }
      forall x: nat | x < |p.disk| ensures Logical(q, x) == Logical(p, x) {
      }
    }
  }

  lemma {:induction false} WriteKeeps(p: Pool, id: PageId, page: Page)
    requires Struct(p) && Resident(p, id)
    ensures var q := Write(p, id, page);
            && Struct(q) && |q.disk| == |p.disk| && 0 <= id < |p.disk|
            && (Clean(p) && p.frames[p.table[id]].pins > 0 ==> Clean(q))
            && forall x: nat :: x < |p.disk| ==> Logical(q, x) == if x == id then page else Logical(p, x)
  {
    var q := Write(p, id, page);
    var kept := Clean(p) && p.frames[p.table[id]].pins > 0;
    assert FrameOk(p, p.table[id]);
    forall g: nat | g < |q.frames| ensures FrameOk(q, g) && (kept ==> CleanOk(q, g)) {
      assert FrameOk(p, g) && (kept ==> CleanOk(p, g));
    }
    forall x: nat | x < |p.disk| ensures Logical(q, x) == if x == id then page else Logical(p, x) {
    }
  }

  /* ---------- Flushing everything ---------- */

  /** Flushes the dirty pages among `ids`, one after another. */
  function FlushAll(p: Pool, ids: seq<PageId>): Pool
    decreases |ids|
  {
    if |ids| == 0 then p else FlushAll(FlushIfDirty(p, ids[0]), ids[1..])
  }

  lemma {:induction false} FlushIfDirtyKeeps(p: Pool, id: PageId)
    requires Struct(p)
    ensures var q := FlushIfDirty(p, id);
            && Struct(q) && PinnedKept(p, q) && (Clean(p) ==> Clean(q)) && SameView(p, q) && q.table == p.table && q.pending <= p.pending && |q.frames| == |p.frames|
            && (forall f: nat :: f < |p.frames| ==> q.frames[f].dirty == (p.frames[f].dirty && !(Resident(p, id) && p.table[id] == f)))
  {
    if Resident(p, id) {
      FlushPageKeeps(p, id);
      assert FrameOk(p, p.table[id]);
    }
  }

  lemma {:induction false} FlushAllKeeps(p: Pool, ids: seq<PageId>)
    requires Struct(p)
    ensures var q := FlushAll(p, ids);
            && Struct(q) && PinnedKept(p, q) && (Clean(p) ==> Clean(q)) && SameView(p, q) && q.table == p.table && q.pending <= p.pending && |q.frames| == |p.frames|
            && (forall f: nat :: f < |p.frames| && q.frames[f].dirty ==> p.frames[f].dirty)
            && (forall id :: id in ids && id in p.table ==> !q.frames[p.table[id]].dirty)
    decreases |ids|
  {
    if |ids| > 0 {
      var r := FlushIfDirty(p, ids[0]);
      FlushIfDirtyKeeps(p, ids[0]);
      FlushAllKeeps(r, ids[1..]);
      ViewTransitive(p, r, FlushAll(r, ids[1..]));
      assert ids == [ids[0]] + ids[1..];
    }
  }

  lemma {:induction false} ViewTransitive(p: Pool, q: Pool, r: Pool)
    requires SameView(p, q) && SameView(q, r)
    ensures SameView(p, r)
  {
    forall x: nat | x < |p.disk| ensures Logical(r, x) == Logical(p, x) {
      assert Logical(q, x) == Logical(p, x);
    }
  }

  /** After flushing every resident page, with no unflagged write left, the file holds what clients see. */
  lemma {:induction false} FlushAllWrites(p: Pool, ids: seq<PageId>)
    requires Inv(p) && p.pending == {} && forall id :: id in p.table ==> id in ids
    ensures var q := FlushAll(p, ids);
            |q.disk| == |p.disk| && forall x: nat :: x < |p.disk| ==> q.disk[x] == Logical(p, x)
  {
    FlushAllKeeps(p, ids);
    var q := FlushAll(p, ids);
    forall x: nat | x < |p.disk| ensures q.disk[x] == Logical(p, x) {
      assert Logical(q, x) == Logical(p, x);
      if Resident(q, x) {
        assert CleanOk(q, q.table[x]) && FrameOk(q, q.table[x]);
        assert x in ids;
      }
    }
  }

  /* ---------- Runs ---------- */

  datatype Op =
    | FetchOp(id: PageId)
    | NewOp
    | UnpinOp(id: PageId, dirty: bool)
    | FlushOp(id: PageId)
    | FlushAllOp(order: seq<PageId>)
    | WriteOp(id: PageId, page: Page)

  function Step(p: Pool, op: Op): Pool {
    match op
    case FetchOp(id) => Fetch(p, id).pool
    case NewOp => New(p).pool
    case UnpinOp(id, dirty) => Unpin(p, id, dirty)
    case FlushOp(id) => FlushPage(p, id)
    case FlushAllOp(order) => FlushAll(p, order)
    case WriteOp(id, page) => Write(p, id, page)
  }

  /** Clients write only pages they have pinned, and flag their writes no later than the last unpin. */
  predicate Disciplined(p: Pool, op: Op) {
    match op
    case UnpinOp(id, dirty) => UnpinDisciplined(p, id, dirty)
    case WriteOp(id, _) => Resident(p, id) && p.frames[p.table[id]].pins > 0
    case _ => true
  }

  function Run(p: Pool, ops: seq<Op>): Pool
    decreases |ops|
  {
    if |ops| == 0 then p else Run(Step(p, ops[0]), ops[1..])
  }

  predicate DisciplinedRun(p: Pool, ops: seq<Op>)
    decreases |ops|
  {
    |ops| == 0 || (Disciplined(p, ops[0]) && DisciplinedRun(Step(p, ops[0]), ops[1..]))
  }

  /** The same operations on a plain page store: only new pages and client writes matter. */
  function PlainStep(store: seq<Page>, op: Op): seq<Page> {
    match op
    case NewOp => store + [ZeroPage()]
    case WriteOp(id, page) => if 0 <= id < |store| then store[id := page] else store
    case _ => store
  }

  function PlainRun(store: seq<Page>, ops: seq<Op>): seq<Page>
    decreases |ops|
  {
    if |ops| == 0 then store else PlainRun(PlainStep(store, ops[0]), ops[1..])
  }

  predicate Sees(p: Pool, store: seq<Page>) {
    |store| == |p.disk| && forall id: nat :: id < |store| ==> Logical(p, id) == store[id]
  }

  lemma {:induction false} StepTransparent(p: Pool, store: seq<Page>, op: Op)
    requires Inv(p) && Sees(p, store) && Disciplined(p, op)
    ensures Inv(Step(p, op)) && Sees(Step(p, op), PlainStep(store, op))
  {
    if op.NewOp? {
      NewSees(p, store);
    } else if op.WriteOp? {
      WriteSees(p, op.id, op.page, store);
    } else {
      StepKeepsView(p, op);
      StillSees(p, Step(p, op), store);
    }
  }

  lemma {:induction false} NewSees(p: Pool, store: seq<Page>)
    requires Inv(p) && Sees(p, store)
    ensures Inv(New(p).pool) && Sees(New(p).pool, store + [ZeroPage()])
  {
    NewKeeps(p);
    NewPageView(p);
  }

  lemma {:induction false} WriteSees(p: Pool, id: PageId, page: Page, store: seq<Page>)
    requires Inv(p) && Sees(p, store) && Resident(p, id) && p.frames[p.table[id]].pins > 0
    ensures 0 <= id < |store| && Inv(Write(p, id, page)) && Sees(Write(p, id, page), store[id := page])
  {
    WriteKeeps(p, id, page);
  }

  lemma {:induction false} StepKeepsView(p: Pool, op: Op)
    requires Inv(p) && Disciplined(p, op) && !op.NewOp? && !op.WriteOp?
    ensures Inv(Step(p, op)) && SameView(p, Step(p, op))
  {
    if op.FetchOp? {
      FetchKeeps(p, op.id);
      FetchView(p, op.id);
    } else if op.UnpinOp? {
      UnpinKeeps(p, op.id, op.dirty);
      UnpinView(p, op.id, op.dirty);
      UnpinClean(p, op.id, op.dirty);
    } else if op.FlushOp? {
      FlushPageKeeps(p, op.id);
    } else {
      FlushAllKeeps(p, op.order);
    }
  }

  lemma {:induction false} StillSees(p: Pool, q: Pool, store: seq<Page>)
    requires Sees(p, store) && SameView(p, q)
    ensures Sees(q, store)
  {
    forall id: nat | id < |store| ensures Logical(q, id) == store[id] {
      assert Logical(q, id) == Logical(p, id);
    }
  }

  /** Every operation of any client keeps each frame in exactly one place and the page table inverse to the frames. */
  lemma {:induction false} StepStruct(p: Pool, op: Op)
    requires Struct(p)
    ensures Struct(Step(p, op))
  {
    match op {
      case FetchOp(id) => FetchKeeps(p, id);
      case NewOp => NewKeeps(p);
      case UnpinOp(id, dirty) => UnpinKeeps(p, id, dirty);
      case FlushOp(id) => FlushPageKeeps(p, id);
      case FlushAllOp(order) => FlushAllKeeps(p, order);
      case WriteOp(id, page) =>
        if Resident(p, id) {
          WriteKeeps(p, id, page);
        }
    }
  }

  lemma {:induction false} RunStruct(p: Pool, ops: seq<Op>)
    requires Struct(p)
    ensures Struct(Run(p, ops))
    decreases |ops|
  {
    if |ops| > 0 {
      StepStruct(p, ops[0]);
      RunStruct(Step(p, ops[0]), ops[1..]);
    }
  }

  /** In every pool that any run of any clients reaches from an empty one, the structure holds. */
  lemma {:induction false} ReachableStruct(size: nat, disk: seq<Page>, ops: seq<Op>)
    ensures Struct(Run(EmptyPool(size, disk), ops))
  {
    EmptyPoolInv(size, disk);
    RunStruct(EmptyPool(size, disk), ops);
  }

  /** The page is in frame `f`, pinned at least `pins` times, and holds these bytes. */
  predicate HeldIn(p: Pool, id: PageId, f: nat, pins: nat, page: Page) {
    && id in p.table && p.table[id] == f < |p.frames| && p.frames[f].id == id
    && p.frames[f].pins >= pins && p.frames[f].page == page
  }

  /** What other clients do cannot take away a page while one pins it. */
  predicate OfOthers(op: Op, id: PageId) {
    !(op.UnpinOp? && op.id == id) && !(op.WriteOp? && op.id == id)
  }

  /** No operation evicts a pinned page, moves it or changes its bytes. */
  lemma {:induction false} PinnedStays(p: Pool, op: Op, id: PageId, f: nat, pins: nat, page: Page)
    requires Struct(p) && HeldIn(p, id, f, pins, page) && pins > 0 && OfOthers(op, id)
    ensures Struct(Step(p, op)) && HeldIn(Step(p, op), id, f, pins, page)
  {
    StepStruct(p, op);
    var q := Step(p, op);
    if op.WriteOp? || op.UnpinOp? {
      assert q.frames[f] == p.frames[f];
    } else {
      StepKeepsPinned(p, op);
      assert FrameOk(p, f) && FrameOk(q, f);
    }
  }

  lemma {:induction false} StepKeepsPinned(p: Pool, op: Op)
    requires Struct(p) && !op.WriteOp? && !op.UnpinOp?
    ensures PinnedKept(p, Step(p, op))
  {
    if op.FetchOp? {
      FetchKeeps(p, op.id);
    } else if op.NewOp? {
      NewKeeps(p);
    } else if op.FlushOp? {
      FlushPageKeeps(p, op.id);
    } else {
      FlushAllKeeps(p, op.order);
    }
  }

  /** Over every run in which its pin is not given up, a pinned page stays in its frame with its bytes. */
  lemma {:induction false} PinnedStaysRun(p: Pool, ops: seq<Op>, id: PageId, f: nat, pins: nat, page: Page)
    requires Struct(p) && HeldIn(p, id, f, pins, page) && pins > 0
    requires forall i :: 0 <= i < |ops| ==> OfOthers(ops[i], id)
    ensures HeldIn(Run(p, ops), id, f, pins, page)
    decreases |ops|
  {
    if |ops| > 0 {
      PinnedStays(p, ops[0], id, f, pins, page);
      PinnedStaysRun(Step(p, ops[0]), ops[1..], id, f, pins, page);
    }
  }

  /** Over every disciplined run the cache shows exactly the pages of a plain store, and stays in order. */
  lemma {:induction false} RunTransparent(p: Pool, store: seq<Page>, ops: seq<Op>)
    requires Inv(p) && Sees(p, store) && DisciplinedRun(p, ops)
    ensures Inv(Run(p, ops)) && Sees(Run(p, ops), PlainRun(store, ops))
    decreases |ops|
  {
    if |ops| > 0 {
      StepTransparent(p, store, ops[0]);
      RunTransparent(Step(p, ops[0]), PlainStep(store, ops[0]), ops[1..]);
    }
  }

  /** From an empty pool: after any disciplined run, flushing everything makes the file the plain store. */
  lemma {:induction false} RunThenFlush(size: nat, disk: seq<Page>, ops: seq<Op>, order: seq<PageId>)
    requires DisciplinedRun(EmptyPool(size, disk), ops)
    requires var q := Run(EmptyPool(size, disk), ops); q.pending == {} && forall id :: id in q.table ==> id in order
    ensures FlushAll(Run(EmptyPool(size, disk), ops), order).disk == PlainRun(disk, ops)
  {
    EmptyPoolInv(size, disk);
    RunTransparent(EmptyPool(size, disk), disk, ops);
    FlushAllWrites(Run(EmptyPool(size, disk), ops), order);
  }

  /**
   When the last unpin of a page does not flag it, evicting its frame keeps what clients saw if
   and only if the frame was dirty already or equals the copy in the file.
   */
  lemma {:induction false} UnflaggedKeptIff(p: Pool, id: nat)
    requires Struct(p) && Resident(p, id) && p.frames[p.table[id]].pins == 1
    ensures var f := p.table[id];
            id < |p.disk| && f < |Unpin(p, id, false).frames|
            && (Logical(Emptied(Unpin(p, id, false), f), id) == Logical(p, id) <==>
                p.frames[f].dirty || p.frames[f].page == p.disk[id])
  {
    assert FrameOk(p, p.table[id]);
  }

  /** A client that fetches page 0, writes it, gives it up without flagging it, and a fetch of page 1 that evicts it. */
  function LosingRun(page: Page): seq<Op> {
    [FetchOp(0), WriteOp(0, page), UnpinOp(0, false), FetchOp(1)]
  }

  /** The pool of one frame, holding page `id`, along that run. */
  function OneFrame(disk: seq<Page>, x: Frame, lru: seq<nat>, pending: set<PageId>, zeroAt: map<nat, nat>, now: nat): Pool {
    Pool([x], map[x.id := 0], [], lru, disk, pending, zeroAt, now)
  }

  lemma {:induction false} LosingFetch(disk: seq<Page>)
    requires |disk| == 2
    ensures Step(EmptyPool(1, disk), FetchOp(0)) == OneFrame(disk, Frame(disk[0], 0, 1, false), [], {}, map[], 0)
  {
    var p := EmptyPool(1, disk);
    assert p.frames == [EmptyFrame()] && p.free == [0] && p.free[..0] == [];
    assert p.table[0 := 0] == map[0 := 0];
  }

  lemma {:induction false} LosingUnpin(disk: seq<Page>, page: Page)
    requires |disk| == 2
    ensures Step(OneFrame(disk, Frame(page, 0, 1, false), [], {0}, map[], 0), UnpinOp(0, false)) ==
            OneFrame(disk, Frame(page, 0, 0, false), [0], {0}, map[0 := 0], 1)
  {
    assert [0] + [] == [0] && map[][0 := 0] == map[0 := 0];
  }

  lemma {:induction false} LosingEvict(disk: seq<Page>, page: Page)
    requires |disk| == 2
    ensures Step(OneFrame(disk, Frame(page, 0, 0, false), [0], {0}, map[0 := 0], 1), FetchOp(1)) ==
            OneFrame(disk, Frame(disk[1], 1, 1, false), [], {0}, map[0 := 0], 1)
  {
    assert map[0 := 0] - {0} == map[] && [0][..0] == [];
  }

  /** In a pool of one frame that write is gone for every page that differs from the one in the file. */
  lemma {:induction false} UnflaggedWriteLost(disk: seq<Page>, page: Page)
    requires |disk| == 2 && page != disk[0]
    ensures var q := Run(EmptyPool(1, disk), LosingRun(page));
            |q.disk| == 2 && Logical(q, 0) == disk[0] && PlainRun(disk, LosingRun(page)) == [page, disk[1]]
  {
    var ops := LosingRun(page);
    var tail := ops[1..][1..];
    assert ops[1..] == [ops[1], ops[2], ops[3]] && tail == [ops[2], ops[3]] && tail[1..] == [ops[3]] && tail[1..][1..] == [];
    LosingFetch(disk);
    var p1 := OneFrame(disk, Frame(disk[0], 0, 1, false), [], {}, map[], 0);
    var p2 := OneFrame(disk, Frame(page, 0, 1, false), [], {0}, map[], 0);
    assert Step(p1, ops[1]) == p2;
    LosingUnpin(disk, page);
    LosingEvict(disk, page);
    var p3 := OneFrame(disk, Frame(page, 0, 0, false), [0], {0}, map[0 := 0], 1);
    var p4 := OneFrame(disk, Frame(disk[1], 1, 1, false), [], {0}, map[0 := 0], 1);
    assert Run(EmptyPool(1, disk), ops) == Run(p1, ops[1..]) == Run(p2, tail) == Run(p3, tail[1..]) == p4;
    var after := disk[0 := page];
    assert after == [page, disk[1]];
    assert PlainRun(disk, ops) == PlainRun(disk, ops[1..]) == PlainRun(after, tail) == PlainRun(after, tail[1..]) == after;
  }
}
