/** The loops that read the leaf chain: each leaf's part of a search, and how the parts add up. */
module BPlusTreeScan {
  import opened Types
  import opened BPlusTreeModel
  import opened BPlusTreeSearch
  import opened BPlusTreePages
  import opened BPlusTreeChain

  /* ---------- One leaf ---------- */

  lemma {:induction false} MatchesTail(es: seq<Entry>, n: nat, k: Key)
    requires Sorted(es) && n < |es| && es[n].key > k
    ensures Matches(es, k) == Matches(es[..n], k)
  {
    assert es == es[..n] + es[n..];
    MatchesAppend(es[..n], es[n..], k);
    MatchesNone(es[n..], k);
  }

  lemma {:induction false} MatchesSnoc(es: seq<Entry>, n: nat, k: Key)
    requires n < |es|
    ensures Matches(es[..n + 1], k) == Matches(es[..n], k) + if es[n].key == k then [es[n].rid] else []
  {
    assert es[..n + 1] == es[..n] + [es[n]];
    MatchesAppend(es[..n], [es[n]], k);
  }

  /** The record ids of one key in one leaf; the first leaf may skip ahead to the key. */
  method CollectEqual(es: seq<Entry>, k: Key, first: bool) returns (rids: seq<RecordId>, exceeded: bool)
    requires Sorted(es)
    ensures rids == Matches(es, k)
    ensures exceeded ==> |es| > 0 && es[|es| - 1].key > k
  {
    var i := 0;
    rids, exceeded := [], false;
    if first {
      while i < |es| && es[i].key < k
        invariant i <= |es| && Matches(es[..i], k) == []
      {
        MatchesSnoc(es, i, k);
        i := i + 1;
      }
    }
    while i < |es|
      invariant i <= |es| && rids == Matches(es[..i], k)
    {
      MatchesSnoc(es, i, k);
      if es[i].key == k {
        rids := rids + [es[i].rid];
      } else if es[i].key > k {
        MatchesTail(es, i, k);
        exceeded := true;
        return;
      }
      i := i + 1;
    }
    assert es[..i] == es;
  }

  lemma {:induction false} InRangeTail(es: seq<Entry>, n: nat, r: Range)
    requires Sorted(es) && n < |es| && AboveRange(es[n].key, r)
    ensures InRange(es, r) == InRange(es[..n], r)
  {
    assert es == es[..n] + es[n..];
    InRangeAppend(es[..n], es[n..], r);
    var tl := es[n..];
    forall i | 0 <= i < |tl| ensures AboveRange(tl[i].key, r) {
      assert tl[i] == es[n + i];
      assert es[n].key <= es[n + i].key;
    }
    InRangeNone(tl, r);
  }

  lemma {:induction false} InRangeSnoc(es: seq<Entry>, n: nat, r: Range)
    requires n < |es|
    ensures InRange(es[..n + 1], r) ==
            InRange(es[..n], r) + if BelowRange(es[n].key, r) || AboveRange(es[n].key, r) then [] else [es[n]]
  {
    assert es[..n + 1] == es[..n] + [es[n]];
    InRangeAppend(es[..n], [es[n]], r);
  }

  /** The entries of one leaf that are in range. */
  method CollectRange(es: seq<Entry>, r: Range) returns (out: seq<Entry>, stop: bool)
    requires Sorted(es)
    ensures out == InRange(es, r)
    ensures stop ==> |es| > 0 && AboveRange(es[|es| - 1].key, r)
  {
    out, stop := [], false;
    var i := 0;
    while i < |es|
      invariant i <= |es| && out == InRange(es[..i], r)
    {
      InRangeSnoc(es, i, r);
      if !BelowRange(es[i].key, r) {
        if AboveRange(es[i].key, r) {
          InRangeTail(es, i, r);
          stop := true;
          return;
        }
        out := out + [es[i]];
      }
      i := i + 1;
    }
    assert es[..i] == es;
  }

  lemma {:induction false} FindAppend(a: seq<Entry>, b: seq<Entry>, e: Entry)
    requires e !in a
    ensures Find(a + b, e) == match Find(b, e) case None => None case Some(p) => Some(|a| + p)
  {
    if |a| == 0 {
      assert a + b == b;
    } else {
      assert (a + b)[1..] == a[1..] + b;
      FindAppend(a[1..], b, e);
    }
  }

  /** The place of an entry in one leaf. */
  method FindInLeaf(es: seq<Entry>, e: Entry) returns (pos: Option<nat>, exceeded: bool)
    requires Sorted(es)
    ensures pos == Find(es, e)
    ensures exceeded ==> |es| > 0 && es[|es| - 1].key > e.key
  {
    exceeded := false;
    var i := 0;
    while i < |es|
      invariant i <= |es| && e !in es[..i]
    {
      if es[i].key > e.key {
        forall j | i <= j < |es| ensures es[j] != e {
        }
        assert e !in es;
        return None, true;
      }
      if es[i] == e {
        assert es == es[..i] + es[i..];
        FindAppend(es[..i], es[i..], e);
        return Some(i), false;
      }
      i := i + 1;
    }
    assert es[..i] == es;
    return None, false;
  }

  /* ---------- The whole chain ---------- */

  /** A list of leaves that the pages chain in order, with keys in order along the chain. */
  ghost predicate Linked(pages: Pages, ls: seq<Tree>) {
    && (forall j :: 0 <= j < |ls| ==> ls[j].Leaf? && ls[j].id >= 0)
    && Chain(pages, ls, INVALID_PAGE)
    && Sorted(Cat(ls))
  }

  lemma {:induction false} LeafIdsIn(t: Tree)
    ensures forall j :: 0 <= j < |Leaves(t)| ==> Leaves(t)[j].id in Ids(t)
    decreases t, 0
  {
    if t.Inner? {
      LeafIdsInF(t.kids);
    }
  }

  lemma {:induction false} LeafIdsInF(ts: seq<Tree>)
    ensures forall j :: 0 <= j < |LeavesF(ts)| ==> LeavesF(ts)[j].id in IdsF(ts)
    decreases ts, 1
  {
    if |ts| > 0 {
      LeafIdsIn(ts[0]);
      LeafIdsInF(ts[1..]);
    }
  }

  lemma {:induction false} TreeLeafList(pages: Pages, t: Tree, h: nat, next: PageId) returns (ls: seq<Tree>)
    requires Shape(t, h) && Weak(t) && Allocated(t, next) && Rep(pages, t, INVALID_PAGE)
    ensures ls == Leaves(t) && |ls| > 0 && ls[0].id == FirstLeaf(t)
    ensures Linked(pages, ls) && Cat(ls) == Flat(t)
  {
    ls := Leaves(t);
    RepChain(pages, t, h, INVALID_PAGE);
    CatLeaves(t);
    LeafIdsIn(t);
    OrdFlat(t, None, None, false);
  }

  predicate NotAbove(a: seq<Entry>, b: seq<Entry>) {
    forall x, y :: 0 <= x < |a| && 0 <= y < |b| ==> a[x].key <= b[y].key
  }

  /** The entries of leaf `j` are in order, and not above those of the leaves after it. */
  lemma {:induction false} LeafOrder(ls: seq<Tree>, j: nat)
    requires forall x :: 0 <= x < |ls| ==> ls[x].Leaf?
    requires j < |ls| && Sorted(Cat(ls))
    ensures Sorted(ls[j].es)
    ensures NotAbove(ls[j].es, Cat(ls[j + 1..]))
  {
    CatAt(ls, j);
    SortedParts(Cat(ls[..j]), ls[j].es, Cat(ls[j + 1..]));
  }

  lemma {:induction false} SortedParts(a: seq<Entry>, b: seq<Entry>, c: seq<Entry>)
    requires Sorted(a + b + c)
    ensures Sorted(b)
    ensures NotAbove(b, c)
  {
    var w := a + b + c;
    assert forall x :: 0 <= x < |b| ==> w[|a| + x] == b[x];
    assert forall y :: 0 <= y < |c| ==> w[|a| + |b| + y] == c[y];
  }

  /** Leaf `j` of a list within the entries from leaf `j0` on. */
  lemma {:induction false} LeafWithin(ls: seq<Tree>, j0: nat, j: nat)
    requires forall x :: 0 <= x < |ls| ==> ls[x].Leaf?
    requires j0 <= j < |ls|
    ensures Cat(ls[j0..j + 1]) == Cat(ls[j0..j]) + ls[j].es
    ensures Cat(ls[j0..]) == Cat(ls[j0..j + 1]) + Cat(ls[j + 1..])
  {
    var l := ls[j0..j + 1];
    CatAt(l, j - j0);
    assert l[..j - j0] == ls[j0..j] && l[..j - j0 + 1] == l;
    assert ls[j0..] == l + ls[j + 1..];
    CatAppend(l, ls[j + 1..]);
  }

  /* ---------- Steps of a scan over the chain ---------- */

  /** The record ids of a key in the leaves from `j` on. */
  ghost function MatchesFrom(ls: seq<Tree>, j: nat, k: Key): seq<RecordId>
    requires forall x :: 0 <= x < |ls| ==> ls[x].Leaf?
    decreases |ls| - j
  {
    if j >= |ls| then [] else Matches(ls[j].es, k) + MatchesFrom(ls, j + 1, k)
  }

  lemma {:induction false} MatchesFromIs(ls: seq<Tree>, j: nat, k: Key)
    requires forall x :: 0 <= x < |ls| ==> ls[x].Leaf?
    requires j <= |ls|
    ensures MatchesFrom(ls, j, k) == Matches(Cat(ls[j..]), k)
    decreases |ls| - j
  {
    if j < |ls| {
      MatchesFromIs(ls, j + 1, k);
      assert ls[j..][1..] == ls[j + 1..];
      MatchesAppend(ls[j].es, Cat(ls[j + 1..]), k);
    }
  }

  /** Nothing is found behind a leaf that goes beyond the key. */
  lemma {:induction false} NoneBehind(ls: seq<Tree>, j: nat, k: Key)
    requires forall x :: 0 <= x < |ls| ==> ls[x].Leaf?
    requires j < |ls| && Sorted(Cat(ls)) && |ls[j].es| > 0 && ls[j].es[|ls[j].es| - 1].key > k
    ensures MatchesFrom(ls, j + 1, k) == []
  {
    MatchesFromIs(ls, j + 1, k);
    LeafOrder(ls, j);
    MatchesNone(Cat(ls[j + 1..]), k);
  }

  /** The entries in range in the leaves from `j` on. */
  ghost function InRangeFrom(ls: seq<Tree>, j: nat, r: Range): seq<Entry>
    requires forall x :: 0 <= x < |ls| ==> ls[x].Leaf?
    decreases |ls| - j
  {
    if j >= |ls| then [] else InRange(ls[j].es, r) + InRangeFrom(ls, j + 1, r)
  }

  lemma {:induction false} InRangeFromIs(ls: seq<Tree>, j: nat, r: Range)
    requires forall x :: 0 <= x < |ls| ==> ls[x].Leaf?
    requires j <= |ls|
    ensures InRangeFrom(ls, j, r) == InRange(Cat(ls[j..]), r)
    decreases |ls| - j
  {
    if j < |ls| {
      InRangeFromIs(ls, j + 1, r);
      assert ls[j..][1..] == ls[j + 1..];
      InRangeAppend(ls[j].es, Cat(ls[j + 1..]), r);
    }
  }

  lemma {:induction false} NoneInRangeBehind(ls: seq<Tree>, j: nat, r: Range)
    requires forall x :: 0 <= x < |ls| ==> ls[x].Leaf?
    requires j < |ls| && Sorted(Cat(ls)) && |ls[j].es| > 0 && AboveRange(ls[j].es[|ls[j].es| - 1].key, r)
    ensures InRangeFrom(ls, j + 1, r) == []
  {
    InRangeFromIs(ls, j + 1, r);
    LeafOrder(ls, j);
    InRangeNone(Cat(ls[j + 1..]), r);
  }

  lemma {:induction false} FindHere(ls: seq<Tree>, j0: nat, j: nat, e: Entry, i: nat)
    requires forall x :: 0 <= x < |ls| ==> ls[x].Leaf?
    requires j0 <= j < |ls| && e !in Cat(ls[j0..j]) && Find(ls[j].es, e) == Some(i)
    ensures FoundAt(ls, j0, e, j, i)
  {
    var a, b, c := Cat(ls[j0..j]), ls[j].es, Cat(ls[j + 1..]);
    AroundLeaf(ls, j0, j);
    FindInMiddle(a, b, c, e, i);
  }

  lemma {:induction false} AroundLeaf(ls: seq<Tree>, j0: nat, j: nat)
    requires forall x :: 0 <= x < |ls| ==> ls[x].Leaf?
    requires j0 <= j < |ls|
    ensures Cat(ls[j0..]) == Cat(ls[j0..j]) + ls[j].es + Cat(ls[j + 1..])
  {
    LeafWithin(ls, j0, j);
  }

  lemma {:induction false} FindInMiddle(a: seq<Entry>, b: seq<Entry>, c: seq<Entry>, e: Entry, i: nat)
    requires e !in a && Find(b, e) == Some(i)
    ensures i < |b| && Find(a + b + c, e) == Some(|a| + i)
  {
    FindAppend(a, b + c, e);
    FindInFront(b, c, e);
    assert a + b + c == a + (b + c);
  }

  lemma {:induction false} FindNotHere(ls: seq<Tree>, j0: nat, j: nat, e: Entry)
    requires forall x :: 0 <= x < |ls| ==> ls[x].Leaf?
    requires j0 <= j < |ls| && Sorted(Cat(ls)) && e !in Cat(ls[j0..j]) && e !in ls[j].es
    ensures e !in Cat(ls[j0..j + 1])
    ensures |ls[j].es| > 0 && ls[j].es[|ls[j].es| - 1].key > e.key ==> e !in Cat(ls[j0..])
  {
    LeafWithin(ls, j0, j);
    LeafOrder(ls, j);
  }

  lemma {:induction false} FindInFront(a: seq<Entry>, b: seq<Entry>, e: Entry)
    requires e in a
    ensures Find(a + b, e) == Find(a, e)
  {
    if a[0] != e {
      assert (a + b)[1..] == a[1..] + b;
      FindInFront(a[1..], b, e);
    }
  }

  /* ---------- Descending to a leaf ---------- */

  method FindChildIndex(keys: seq<Key>, k: Key) returns (i: nat)
    ensures i == Route(keys, k)
  {
    i := 0;
    while i < |keys| && keys[i] <= k
      invariant i <= |keys|
      invariant forall j :: 0 <= j < i ==> keys[j] <= k
    {
      i := i + 1;
    }
    RouteUnique(keys, k, i);
  }

  lemma {:induction false} DescendStep(t: Tree, h: nat, k: Key)
    requires Shape(t, h) && h > 0
    ensures var c := t.kids[Route(t.keys, k)];
            && LeafIndex(c, k) < |Leaves(c)| && LeafIndex(t, k) < |Leaves(t)|
            && Leaves(t)[LeafIndex(t, k)] == Leaves(c)[LeafIndex(c, k)]
  {
    var i := Route(t.keys, k);
    LeavesFSplit(t.kids, i);
    LeafIndexSplits(t.kids[i], h - 1, k);
  }

  /** The page of the leaf a key is routed to. */
  ghost function LeafIdFor(t: Tree, k: Key): PageId {
    match t
    case Leaf(id, _) => id
    case Inner(_, keys, kids) =>
      var i := Route(keys, k);
      if i < |kids| then LeafIdFor(kids[i], k) else INVALID_PAGE
  }

  lemma {:induction false} LeafIdForIndex(t: Tree, h: nat, k: Key)
    requires Shape(t, h)
    ensures LeafIndex(t, k) < |Leaves(t)| && Leaves(t)[LeafIndex(t, k)].id == LeafIdFor(t, k)
    decreases h
  {
    if h > 0 {
      LeafIdForIndex(t.kids[Route(t.keys, k)], h - 1, k);
      DescendStep(t, h, k);
    }
  }

  /** The leaf a key is routed to, with its position in the list of leaves. */
  method FindLeafForKey(pages: Pages, root: PageId, k: Key, ghost t: Tree, ghost h: nat, ghost nxt: PageId)
    returns (current: PageId, ghost j: nat)
    requires root == t.id && Shape(t, h) && Rep(pages, t, nxt)
    ensures current == LeafIdFor(t, k)
    ensures j == LeafIndex(t, k) < |Leaves(t)| && current == Leaves(t)[j].id
  {
    j := LeafIndex(t, k);
    LeafIdForIndex(t, h, k);
    current := Descend(pages, root, k, t, h, nxt);
  }

  method Descend(pages: Pages, root: PageId, k: Key, ghost t: Tree, ghost h: nat, ghost nxt: PageId) returns (current: PageId)
    requires root == t.id && Shape(t, h) && Rep(pages, t, nxt)
    ensures current == LeafIdFor(t, k)
  {
    current := root;
    ghost var c, d, n := t, h, nxt;
    while true
      invariant current == c.id && Shape(c, d) && Rep(pages, c, n)
      invariant LeafIdFor(c, k) == LeafIdFor(t, k)
      decreases d
    {
      var node := pages[current];
      if node.LeafNode? {
        return;
      }
      var idx := FindChildIndex(node.keys, k);
      assert Shape(c.kids[idx], d - 1) && Rep(pages, c.kids[idx], NextOf(c.kids, idx, n));
      current := node.kids[idx];
      c, d, n := c.kids[idx], d - 1, NextOf(c.kids, idx, n);
    }
  }

  /** The leftmost leaf. */
  method FindFirstLeaf(pages: Pages, root: PageId, ghost t: Tree, ghost h: nat, ghost nxt: PageId) returns (current: PageId)
    requires root == t.id && Shape(t, h) && Rep(pages, t, nxt)
    ensures current == FirstLeaf(t)
  {
    current := root;
    ghost var c, d, n := t, h, nxt;
    while true
      invariant current == c.id && Shape(c, d) && Rep(pages, c, n)
      invariant FirstLeaf(c) == FirstLeaf(t)
      decreases d
    {
      var node := pages[current];
      if node.LeafNode? {
        return;
      }
      current := node.kids[0];
      c, d, n := c.kids[0], d - 1, NextOf(c.kids, 0, n);
    }
  }

  /* ---------- Walking the chain ---------- */

  /** The record ids of one key in the leaves from `start` on, stopping at the first larger key. */
  method ScanEqual(pages: Pages, start: PageId, k: Key, ghost ls: seq<Tree>, ghost j0: nat) returns (results: seq<RecordId>)
    requires Linked(pages, ls) && j0 < |ls| && start == ls[j0].id
    ensures results == MatchesFrom(ls, j0, k)
  {
    var leafId, first := start, true;
    ghost var j := j0;
    results := [];
    while leafId != INVALID_PAGE
      invariant j0 <= j <= |ls| && leafId == (if j < |ls| then ls[j].id else INVALID_PAGE)
      invariant results + MatchesFrom(ls, j, k) == MatchesFrom(ls, j0, k)
      decreases |ls| - j
    {
      var rids, exceeded, next := EqualInLeaf(pages, leafId, k, first, ls, j);
      first := false;
      MatchesNext(ls, j, k, results);
      results := results + rids;
      if exceeded {
        NoneBehind(ls, j, k);
        return;
      }
      leafId := next;
      j := j + 1;
    }
  }

  lemma {:induction false} MatchesNext(ls: seq<Tree>, j: nat, k: Key, results: seq<RecordId>)
    requires (forall x :: 0 <= x < |ls| ==> ls[x].Leaf?) && j < |ls|
    ensures results + MatchesFrom(ls, j, k) == results + Matches(ls[j].es, k) + MatchesFrom(ls, j + 1, k)
  {
  }

  lemma {:induction false} InRangeNext(ls: seq<Tree>, j: nat, r: Range, results: seq<Entry>)
    requires (forall x :: 0 <= x < |ls| ==> ls[x].Leaf?) && j < |ls|
    ensures results + InRangeFrom(ls, j, r) == results + InRange(ls[j].es, r) + InRangeFrom(ls, j + 1, r)
  {
  }

  /** One leaf of the chain: its matches, whether it goes beyond the key, and the leaf behind it. */
  method EqualInLeaf(pages: Pages, leafId: PageId, k: Key, first: bool, ghost ls: seq<Tree>, ghost j: nat)
    returns (rids: seq<RecordId>, exceeded: bool, next: PageId)
    requires Linked(pages, ls) && j < |ls| && leafId == ls[j].id
    ensures ls[j].Leaf? && rids == Matches(ls[j].es, k)
    ensures exceeded ==> |ls[j].es| > 0 && ls[j].es[|ls[j].es| - 1].key > k
    ensures next == if j + 1 < |ls| then ls[j + 1].id else INVALID_PAGE
  {
    assert LinkAt(pages, ls, j, INVALID_PAGE);
    LeafOrder(ls, j);
    var leaf := pages[leafId];
    rids, exceeded := CollectEqual(leaf.es, k, first);
    next := leaf.next;
  }

  /** The entries in range in the leaves from `start` on, stopping at the first key above the range. */
  method ScanRange(pages: Pages, start: PageId, r: Range, ghost ls: seq<Tree>, ghost j0: nat) returns (results: seq<Entry>)
    requires Linked(pages, ls) && j0 < |ls| && start == ls[j0].id
    ensures results == InRangeFrom(ls, j0, r)
  {
    var leafId := start;
    ghost var j := j0;
    results := [];
    while leafId != INVALID_PAGE
      invariant j0 <= j <= |ls| && leafId == (if j < |ls| then ls[j].id else INVALID_PAGE)
      invariant results + InRangeFrom(ls, j, r) == InRangeFrom(ls, j0, r)
      decreases |ls| - j
    {
      var out, stop, next := RangeInLeaf(pages, leafId, r, ls, j);
      InRangeNext(ls, j, r, results);
      results := results + out;
      if stop {
        NoneInRangeBehind(ls, j, r);
        return;
      }
      leafId := next;
      j := j + 1;
    }
  }

  method RangeInLeaf(pages: Pages, leafId: PageId, r: Range, ghost ls: seq<Tree>, ghost j: nat)
    returns (out: seq<Entry>, stop: bool, next: PageId)
    requires Linked(pages, ls) && j < |ls| && leafId == ls[j].id
    ensures ls[j].Leaf? && out == InRange(ls[j].es, r)
    ensures stop ==> |ls[j].es| > 0 && AboveRange(ls[j].es[|ls[j].es| - 1].key, r)
    ensures next == if j + 1 < |ls| then ls[j + 1].id else INVALID_PAGE
  {
    assert LinkAt(pages, ls, j, INVALID_PAGE);
    LeafOrder(ls, j);
    var leaf := pages[leafId];
    out, stop := CollectRange(leaf.es, r);
    next := leaf.next;
  }

  /** The first occurrence of an entry from leaf `j0` on is entry `i` of leaf `j`. */
  ghost predicate FoundAt(ls: seq<Tree>, j0: nat, e: Entry, j: nat, i: nat)
    requires forall x :: 0 <= x < |ls| ==> ls[x].Leaf?
  {
    && j0 <= j < |ls| && i < |ls[j].es|
    && Find(Cat(ls[j0..]), e) == Some(|Cat(ls[j0..j])| + i)
  }

  /** The leaf and position of the first occurrence of an entry from `start` on. */
  method Locate(pages: Pages, start: PageId, e: Entry, ghost ls: seq<Tree>, ghost j0: nat)
    returns (leafId: PageId, pos: Option<nat>, ghost j: nat)
    requires Linked(pages, ls) && j0 < |ls| && start == ls[j0].id
    ensures pos.None? ==> Find(Cat(ls[j0..]), e) == None
    ensures pos.Some? ==> FoundAt(ls, j0, e, j, pos.value) && leafId == ls[j].id
  {
    leafId, j := start, j0;
    assert ls[j0..j0] == [];
    while leafId != INVALID_PAGE
      invariant j0 <= j <= |ls|
      invariant leafId == if j < |ls| then ls[j].id else INVALID_PAGE
      invariant e !in Cat(ls[j0..j])
      decreases |ls| - j
    {
      assert LinkAt(pages, ls, j, INVALID_PAGE);
      var leaf := pages[leafId];
      LeafOrder(ls, j);
      var exceeded;
      pos, exceeded := FindInLeaf(leaf.es, e);
      if pos.Some? {
        FindHere(ls, j0, j, e, pos.value);
        return;
      }
      FindNotHere(ls, j0, j, e);
      if exceeded {
        return;
      }
      leafId := leaf.next;
      j := j + 1;
    }
    assert ls[j0..j] == ls[j0..];
    pos := None;
  }

  /** Where a deletion takes its entry from, in terms of the leaf and the place in it. */
  lemma {:induction false} DeleteAt(t: Tree, h: nat, e: Entry, ls: seq<Tree>, j: nat, i: nat)
    requires Shape(t, h) && ls == Leaves(t)
    requires forall x :: 0 <= x < |ls| ==> ls[x].Leaf?
    requires FoundAt(ls, LeafIndex(t, e.key), e, j, i)
    ensures DeletePos(t, e) == Some(|Cat(ls[..j])| + i)
  {
    var j0 := LeafIndex(t, e.key);
    LeafIndexSplits(t, h, e.key);
    DeletePosIs(t, e, |Cat(ls[j0..j])| + i);
    CatLength(ls, j0, j);
  }

  lemma {:induction false} DeletePosIs(t: Tree, e: Entry, p: nat)
    requires Find(From(t, e.key), e) == Some(p)
    ensures DeletePos(t, e) == Some(|Before(t, e.key)| + p)
  {
  }

  lemma {:induction false} CatLength(ls: seq<Tree>, a: nat, b: nat)
    requires forall x :: 0 <= x < |ls| ==> ls[x].Leaf?
    requires a <= b <= |ls|
    ensures |Cat(ls[..b])| == |Cat(ls[..a])| + |Cat(ls[a..b])|
  {
    assert ls[..b] == ls[..a] + ls[a..b];
    CatAppend(ls[..a], ls[a..b]);
  }

  lemma {:induction false} DeleteNowhere(t: Tree, h: nat, e: Entry, ls: seq<Tree>)
    requires Shape(t, h) && ls == Leaves(t)
    requires forall x :: 0 <= x < |ls| ==> ls[x].Leaf?
    requires LeafIndex(t, e.key) <= |ls| && Find(Cat(ls[LeafIndex(t, e.key)..]), e) == None
    ensures DeletePos(t, e) == None
  {
    LeafIndexSplits(t, h, e.key);
  }
}
