/**
 The B+Tree index working in place on its pages. Every operation is proved to take the
 pages from holding one tree to holding the tree its specification function yields.
 */
module BPlusTree {
  import opened Types
  import opened BPlusTreeModel
  import opened BPlusTreeSearch
  import opened BPlusTreePages
  import opened BPlusTreeChain
  import opened BPlusTreeScan
  import Runs = BPlusTreeRuns

  /** The pages hold the tree, in key order, on pages that have been allocated. */
  ghost predicate Holds(pages: Pages, s: State) {
    && WellShaped(s) && Weak(s.tree)
    && Apart(s.tree) && Allocated(s.tree, s.next)
    && Rep(pages, s.tree, INVALID_PAGE)
  }

  /** Pages that belong to something else are left alone. */
  ghost predicate OthersKept(a: Pages, b: Pages, ids: set<PageId>) {
    forall x :: x in a && x !in ids ==> x in b && b[x] == a[x]
  }

  ghost predicate InFile(pages: Pages, next: PageId) {
    0 <= next && forall x :: x in pages ==> x < next
  }

  /** One round of the search for a split position. */
  lemma {:induction false} BoundaryStep(es: seq<Entry>, left: nat, right: nat)
    requires 1 <= left <= right <= |es| && |es| >= 2 && left < |es|
    requires forall p :: left - 1 <= p < right ==> es[p].key == es[left - 1].key
    requires left > 1 || right < |es|
    ensures var n := |es|;
            var l, r := if left > 1 then left - 1 else left, if right < n then right + 1 else right;
            if right < n && es[right].key != es[right - 1].key then Boundary(es, left, right) == right
            else if left > 1 && es[left - 1].key != es[left - 2].key then Boundary(es, left, right) == left - 1
            else
              && (forall p :: l - 1 <= p < r ==> es[p].key == es[l - 1].key)
              && Boundary(es, left, right) == Boundary(es, l, r)
  {
  }

  /** The search for two different neighbouring keys, outwards from the middle. */
  method FindSplitPoint(es: seq<Entry>) returns (mid: nat)
    requires |es| >= 2
    ensures mid == SplitPoint(es)
  {
    var n := |es|;
    var left, right := n / 2, n / 2;
    while left > 1 || right < n
      invariant 1 <= left <= right <= n && left < n
      invariant forall p :: left - 1 <= p < right ==> es[p].key == es[left - 1].key
      invariant Boundary(es, left, right) == SplitPoint(es)
      decreases left + (n - right)
    {
      BoundaryStep(es, left, right);
      if right < n && es[right].key != es[right - 1].key {
        return right;
      }
      if left > 1 && es[left - 1].key != es[left - 2].key {
        return left - 1;
      }
      if right < n {
        right := right + 1;
      }
      if left > 1 {
        left := left - 1;
      }
    }
    mid := n / 2;
  }

  method FindLeafPosition(es: seq<Entry>, k: Key) returns (i: nat)
    ensures i == LeafPos(es, k)
  {
    i := 0;
    while i < |es| && es[i].key < k
      invariant i <= |es|
      invariant forall j :: 0 <= j < i ==> es[j].key < k
    {
      i := i + 1;
    }
    assert !(LeafPos(es, k) < i) && !(i < LeafPos(es, k));
  }

  /** The pages hold subtree `t`, whose last leaf points to `nxt`. */
  ghost predicate Placed(pages: Pages, t: Tree, h: nat, next: PageId, nxt: PageId) {
    Shape(t, h) && Apart(t) && Allocated(t, next) && Rep(pages, t, nxt)
  }

  /** Inserting `e` below `t` yields `t2` and leaves the page counter at `n`. */
  ghost predicate IsInsert(t: Tree, h: nat, e: Entry, next: PageId, t2: Tree, n: PageId) {
    Shape(t, h) && !Full(t) && (t2, n) == InsertNonFull(t, h, e, next)
  }

  ghost predicate IsInsertBelow(t: Tree, h: nat, e: Entry, next: PageId, t2: Tree, n: PageId) {
    h > 0 && Shape(t, h) && !Full(t.kids[Route(t.keys, e.key)]) && (t2, n) == InsertBelow(t, h, e, next)
  }

  /** One level of an insertion, when the child on the way has room. */
  lemma {:induction false} InsertIntoRoom(t: Tree, h: nat, e: Entry, next: PageId, t2: Tree, n: PageId)
    requires h > 0 && IsInsert(t, h, e, next, t2, n) && !Full(t.kids[Route(t.keys, e.key)])
    ensures IsInsertBelow(t, h, e, next, t2, n)
  {
  }

  /** One level of an insertion, when the child on the way is full: `m` is the node after its split. */
  lemma {:induction false} InsertAfterSplit(t: Tree, h: nat, e: Entry, next: PageId, t2: Tree, n: PageId)
    returns (m: Tree, next1: PageId)
    requires h > 0 && IsInsert(t, h, e, next, t2, n)
    requires Apart(t) && Allocated(t, next)
    requires Full(t.kids[Route(t.keys, e.key)])
    ensures CanSplit(t.kids[Route(t.keys, e.key)]) && m == SplitChild(t, Route(t.keys, e.key), next)
    ensures next1 == next + 1
    ensures m.id == t.id && Shape(m, h) && Apart(m) && Allocated(m, next1) && Ids(m) == Ids(t) + {next}
    ensures IsInsertBelow(m, h, e, next1, t2, n)
  {
    SplitReady(t, h, e, next);
    m, next1 := SplitChild(t, Route(t.keys, e.key), next), next + 1;
  }

  /** One level further down: the child a key is routed to, before and after the insertion. */
  lemma {:induction false} InsertKid(pages: Pages, t: Tree, h: nat, e: Entry, next: PageId, t2: Tree, n: PageId, nxt: PageId)
    returns (i: nat, c: Tree, c2: Tree, follower: PageId)
    requires IsInsertBelow(t, h, e, next, t2, n) && Placed(pages, t, h, next, nxt)
    ensures i == Route(t.keys, e.key) && i < |t.kids| && c == t.kids[i] && follower == NextOf(t.kids, i, nxt)
    ensures t.id in pages && pages[t.id].InnerNode? && pages[t.id].keys == t.keys
    ensures i < |pages[t.id].kids| && pages[t.id].kids[i] == c.id
    ensures Placed(pages, c, h - 1, next, follower) && IsInsert(c, h - 1, e, next, c2, n)
    ensures c2.id == c.id && FirstLeaf(c2) == FirstLeaf(c) && Ids(c) <= Ids(t)
    ensures t2 == WithKid(t, i, c2)
  {
    i := Route(t.keys, e.key);
    c, c2, follower := t.kids[i], t2.kids[i], NextOf(t.kids, i, nxt);
    IdsKid(t, i);
    InsertIds(c, h - 1, e, next);
  }

  /** The pages after an insertion into child `i` hold the node with that child replaced. */
  lemma {:induction false} BelowDone(a: Pages, b: Pages, t: Tree, i: nat, c: Tree, c2: Tree, t2: Tree, follower: PageId, nxt: PageId)
    requires t.Inner? && i < |t.kids| && c == t.kids[i] && Rep(a, t, nxt) && Apart(t) && follower == NextOf(t.kids, i, nxt)
    requires Rep(b, c2, follower) && t2 == WithKid(t, i, c2) && c2.id == c.id && FirstLeaf(c2) == FirstLeaf(c) && OthersKept(a, b, Ids(c))
    ensures Rep(b, t2, nxt) && OthersKept(a, b, Ids(t))
  {
    RepWithKid(a, b, t, i, c2, nxt);
    IdsKid(t, i);
  }

  /** The pages a split of child `i` starts from. */
  lemma {:induction false} SplitSetting(pages: Pages, t: Tree, h: nat, i: nat, nxt: PageId) returns (c: Tree)
    requires h > 0 && KidsShape(t, h) && i < |t.kids| && Full(t.kids[i])
    requires Rep(pages, t, nxt) && Apart(t)
    ensures c == t.kids[i] && CanSplit(c) && c.id != t.id
    ensures t.id in pages && pages[t.id] == InnerNode(t.keys, Roots(t.kids)) && c.id == Roots(t.kids)[i]
    ensures c.id in pages && pages[c.id].LeafNode? == c.Leaf?
    ensures c.Leaf? ==> pages[c.id].es == c.es
    ensures c.Inner? ==> pages[c.id].keys == c.keys && |pages[c.id].kids| == |c.kids|
    ensures t.id in Ids(t) && c.id in Ids(t)
  {
    c := t.kids[i];
    assert Shape(c, h - 1);
    assert Rep(pages, c, NextOf(t.kids, i, nxt));
    IdsKid(t, i);
    IdInIds(t);
    IdInIds(c);
  }

  /** The pages after the three node pages of a split have been written. */
  lemma {:induction false} SplitDone(a: Pages, b: Pages, t: Tree, i: nat, c: Tree, newId: PageId, nxt: PageId)
    requires t.Inner? && |t.kids| == |t.keys| + 1 && i < |t.kids| && c == t.kids[i] && CanSplit(c)
    requires Apart(t) && newId !in Ids(t) && Rep(a, t, nxt)
    requires c.id in a && t.id in a && c.id != t.id && c.id in Ids(t) && t.id in Ids(t)
    requires a[c.id].LeafNode? == c.Leaf? && (c.Leaf? ==> a[c.id].es == c.es)
    requires c.Inner? ==> a[c.id].keys == c.keys && |a[c.id].kids| == |c.kids|
    requires var m := if c.Leaf? then SplitPoint(c.es) else |c.keys| / 2;
             var sep := if c.Leaf? then c.es[m].key else c.keys[m];
             a[t.id] == InnerNode(t.keys, Roots(t.kids)) &&
             b == a[newId := RightPage(a[c.id], m)][c.id := LeftPage(a[c.id], newId, m)][t.id := ParentPage(a[t.id], i, sep, newId)]
    ensures Rep(b, SplitChild(t, i, newId), nxt)
  {
    assert Rep(a, c, NextOf(t.kids, i, nxt));
    SplitChildRep(a, b, t, i, newId, nxt);
  }

  lemma {:induction false} NewRootIds(s: State)
    requires WellShaped(s) && Apart(s.tree) && Allocated(s.tree, s.next)
    ensures var r := Inner(s.next, [], [s.tree]);
            Ids(r) == Ids(s.tree) + {s.next} && Apart(r) && Allocated(r, s.next + 1) && KidsShape(r, s.height + 1)
  {
    IdInIds(s.tree);
    IdsFOne(s.tree);
  }

  lemma {:induction false} NewRootRep(a: Pages, b: Pages, s: State)
    requires Rep(a, s.tree, INVALID_PAGE) && s.next !in Ids(s.tree)
    requires b == a[s.next := InnerNode([], [s.tree.id])]
    ensures Rep(b, Inner(s.next, [], [s.tree]), INVALID_PAGE)
  {
    RepFrame(a, b, s.tree, INVALID_PAGE);
    assert Roots([s.tree]) == [s.tree.id];
  }

  /** The pages hold a root without keys above a full node, ready to be split. */
  ghost predicate GrowReady(pages: Pages, r: Tree, h: nat, next: PageId, t2: Tree) {
    && h > 0 && KidsShape(r, h) && !Full(r) && |r.kids| > 0 && Full(r.kids[0])
    && Rep(pages, r, INVALID_PAGE) && Apart(r) && Allocated(r, next) && InFile(pages, next)
    && CanSplit(r.kids[0]) && t2 == SplitChild(r, 0, next)
  }

  /** The pages after a node without keys has been put above a full root. */
  lemma {:induction false} NewRoot(a: Pages, b: Pages, s: State, g: State) returns (r: Tree)
    requires Holds(a, s) && Full(s.tree) && InFile(a, s.next) && g == GrowRoot(s)
    requires b == a[s.next := InnerNode([], [s.tree.id])]
    ensures r.id == s.next == g.tree.id && Ids(r) == Ids(s.tree) + {s.next} && g.next == s.next + 2
    ensures GrowReady(b, r, s.height + 1, s.next + 1, g.tree)
  {
    r := Inner(s.next, [], [s.tree]);
    NewRootIds(s);
    NewRootRep(a, b, s);
  }

  lemma {:induction false} OthersKeptByGrow(a: Pages, b: Pages, c: Pages, ids: set<PageId>, n: PageId)
    requires InFile(a, n) && (forall id :: id in a && id != n ==> id in b && b[id] == a[id])
    requires OthersKept(b, c, ids + {n})
    ensures OthersKept(a, c, ids)
  {
  }

  /** What the pages have to hold after an insertion. */
  lemma {:induction false} InsertResult(s: State, e: Entry) returns (r: State)
    requires WellShaped(s) && Weak(s.tree) && Apart(s.tree) && Allocated(s.tree, s.next)
    ensures r == Insert(s, e)
    ensures var g := if Full(s.tree) then GrowRoot(s) else s;
            IsInsert(g.tree, g.height, e, g.next, r.tree, r.next) && r.height == g.height && r.tree.id == g.tree.id
    ensures WellShaped(r) && Weak(r.tree) && Apart(r.tree) && Allocated(r.tree, r.next)
  {
    r := Insert(s, e);
    Runs.InsertKeeps(s, e);
    if Full(s.tree) {
      GrowRootIds(s);
    }
    var g := if Full(s.tree) then GrowRoot(s) else s;
    InsertIds(g.tree, g.height, e, g.next);
    IdInIds(g.tree);
  }

  lemma {:induction false} OthersKeptTwice(a: Pages, b: Pages, c: Pages, s: State, g: State)
    requires OthersKept(a, b, Ids(s.tree)) && OthersKept(b, c, Ids(g.tree)) && InFile(a, s.next)
    requires Ids(g.tree) <= Ids(s.tree) + {s.next, s.next + 1}
    ensures OthersKept(a, c, Ids(s.tree))
  {
  }

  lemma {:induction false} GrowRootIds(s: State)
    requires WellShaped(s) && Apart(s.tree) && Allocated(s.tree, s.next) && Full(s.tree)
    ensures var g := GrowRoot(s);
            && Ids(g.tree) == Ids(s.tree) + {s.next, s.next + 1}
            && Apart(g.tree) && Allocated(g.tree, g.next)
  {
    NewRootIds(s);
    var r := Inner(s.next, [], [s.tree]);
    SplitChildIds(r, 0, s.next + 1);
  }

  /** Rewriting one leaf page takes one entry out of the tree the pages hold. */
  lemma {:induction false} RemoveHolds(a: Pages, b: Pages, s: State, p: nat, j: nat, i: nat) returns (r: State)
    requires Holds(a, s) && InFile(a, s.next)
    requires forall x :: 0 <= x < |Leaves(s.tree)| ==> Leaves(s.tree)[x].Leaf?
    requires j < |Leaves(s.tree)| && i < |Leaves(s.tree)[j].es|
    requires p == |Cat(Leaves(s.tree)[..j])| + i && p < |Flat(s.tree)|
    requires var l := Leaves(s.tree)[j];
             l.id in a && a[l.id].LeafNode? && b == a[l.id := LeafNode(Without(l.es, i), a[l.id].next)]
    ensures r == s.(tree := RemoveAt(s.tree, p)) && Holds(b, r) && r.tree.id == s.tree.id
    ensures InFile(b, s.next) && OthersKept(a, b, Ids(s.tree))
  {
    RemoveRep(a, b, s.tree, s.height, INVALID_PAGE, p, j, i);
    RemoveAtShape(s.tree, s.height, p);
    RemoveAtOrd(s.tree, p, None, None, false);
    r := s.(tree := RemoveAt(s.tree, p));
  }

  /** Rewriting the leaf page where a deletion finds its entry performs the deletion. */
  lemma {:induction false} DeleteHolds(a: Pages, b: Pages, s: State, e: Entry, ls: seq<Tree>, j: nat, i: nat) returns (r: State)
    requires Holds(a, s) && InFile(a, s.next)
    requires ls == Leaves(s.tree) && forall x :: 0 <= x < |ls| ==> ls[x].Leaf?
    requires FoundAt(ls, LeafIndex(s.tree, e.key), e, j, i)
    requires var id := ls[j].id; id in a && a[id].LeafNode? && b == a[id := LeafNode(Without(ls[j].es, i), a[id].next)]
    ensures r == Delete(s, e) && DeletePos(s.tree, e).Some?
    ensures Holds(b, r) && r.tree.id == s.tree.id && r.height == s.height && r.next == s.next
    ensures InFile(b, s.next) && OthersKept(a, b, Ids(s.tree))
  {
    DeleteAt(s.tree, s.height, e, ls, j, i);
    var p := |Cat(ls[..j])| + i;
    r := RemoveHolds(a, b, s, p, j, i);
    DeleteIs(s, e, p, r);
  }

  lemma {:induction false} DeleteIs(s: State, e: Entry, p: nat, r: State)
    requires WellShaped(s) && DeletePos(s.tree, e) == Some(p) && r == s.(tree := RemoveAt(s.tree, p))
    ensures r == Delete(s, e)
  {
  }

  class BPlusTree {
    var pages: Pages
    var root: PageId
    var nextId: PageId
    ghost var tree: Tree
    ghost var height: nat

    ghost function Abs(): State
      reads this
    {
      State(tree, height, nextId)
    }

    ghost predicate Valid()
      reads this
    {
      root == tree.id && Holds(pages, Abs()) && InFile(pages, nextId)
    }

    /** An empty index: a page for the root pointer and an empty leaf. */
    constructor (firstFree: PageId)
      requires 0 <= firstFree
      ensures Valid() && Flat(tree) == [] && Strict(tree)
    {
      root := firstFree + 1;
      nextId := firstFree + 2;
      pages := map[firstFree + 1 := LeafNode([], INVALID_PAGE)];
      tree := Leaf(firstFree + 1, []);
      height := 0;
    }

    /** Splits full child `i`: the pages hold `t` before and `t2`, with the child in two halves, after. */
    method SplitChild(parentId: PageId, i: nat, ghost t: Tree, ghost h: nat, ghost nxt: PageId, ghost t2: Tree)
      requires h > 0 && KidsShape(t, h) && !Full(t) && i < |t.kids| && Full(t.kids[i])
      requires parentId == t.id && Rep(pages, t, nxt) && Apart(t) && Allocated(t, nextId)
      requires InFile(pages, nextId)
      requires CanSplit(t.kids[i]) && t2 == BPlusTreeModel.SplitChild(t, i, nextId)
      modifies this`pages, this`nextId
      ensures nextId == old(nextId) + 1 && InFile(pages, nextId)
      ensures Splittable(old(pages), parentId, i) && pages == SplitPages(old(pages), parentId, i, old(nextId))
      ensures Rep(pages, t2, nxt)
      ensures OthersKept(old(pages), pages, Ids(t))
    {
      ghost var c := SplitSetting(pages, t, h, i, nxt);
      var parent := pages[parentId];
      var childId := parent.kids[i];
      var child := pages[childId];
      var newId := nextId;
      nextId := nextId + 1;
      var separator: Key, mid: nat;
      if child.LeafNode? {
        mid := FindSplitPoint(child.es);
        separator := child.es[mid].key;
      } else {
        mid := |child.keys| / 2;
        separator := child.keys[mid];
      }
      pages := pages[newId := RightPage(child, mid)];
      pages := pages[childId := LeftPage(child, newId, mid)];
      pages := pages[parentId := ParentPage(parent, i, separator, newId)];
      SplitDone(old(pages), pages, t, i, c, newId, nxt);
    }

    /** Insertion below a node that is not full: the pages hold `t` before and `t2` after. */
    method InsertNonFull(nodeId: PageId, e: Entry, ghost t: Tree, ghost h: nat, ghost nxt: PageId,
                         ghost t2: Tree, ghost n: PageId)
      requires nodeId == t.id && Placed(pages, t, h, nextId, nxt) && InFile(pages, nextId)
      requires IsInsert(t, h, e, nextId, t2, n)
      modifies this`pages, this`nextId
      ensures nextId == n && InFile(pages, n)
      ensures Rep(pages, t2, nxt)
      ensures OthersKept(old(pages), pages, Ids(t))
      decreases h, 1
    {
      IdInIds(t);
      var node := pages[nodeId];
      if node.LeafNode? {
        var i := FindLeafPosition(node.es, e.key);
        pages := pages[nodeId := LeafNode(node.es[..i] + [e] + node.es[i..], node.next)];
        return;
      }
      var idx := FindChildIndex(node.keys, e.key);
      assert Shape(t.kids[idx], h - 1) && Rep(pages, t.kids[idx], NextOf(t.kids, idx, nxt));
      var child := pages[node.kids[idx]];
      var childFull := if child.LeafNode? then |child.es| >= LEAF_MAX else |child.keys| >= INNER_MAX;
      if childFull {
        ghost var m, next1 := InsertAfterSplit(t, h, e, nextId, t2, n);
        SplitChild(nodeId, idx, t, h, nxt, m);
        assert nextId == next1;
        InsertBelow(nodeId, e, m, h, nxt, t2, n);
      } else {
        InsertIntoRoom(t, h, e, nextId, t2, n);
        InsertBelow(nodeId, e, t, h, nxt, t2, n);
      }
    }

    /** Insertion into the child a key is routed to. */
    method InsertBelow(nodeId: PageId, e: Entry, ghost t: Tree, ghost h: nat, ghost nxt: PageId,
                       ghost t2: Tree, ghost n: PageId)
      requires nodeId == t.id && Placed(pages, t, h, nextId, nxt) && InFile(pages, nextId)
      requires IsInsertBelow(t, h, e, nextId, t2, n)
      modifies this`pages, this`nextId
      ensures nextId == n && InFile(pages, n)
      ensures Rep(pages, t2, nxt)
      ensures OthersKept(old(pages), pages, Ids(t))
      decreases h, 0
    {
      ghost var i, c, c2, follower := InsertKid(pages, t, h, e, nextId, t2, n, nxt);
      var node := pages[nodeId];
      var idx := FindChildIndex(node.keys, e.key);
      InsertNonFull(node.kids[idx], e, c, h - 1, follower, c2, n);
      BelowDone(old(pages), pages, t, i, c, c2, t2, follower, nxt);
    }

    /** Insertion: the pages afterwards hold the tree with the entry inserted. */
    method Insert(e: Entry)
      requires Valid()
      modifies this
      ensures Valid()
      ensures Abs() == BPlusTreeModel.Insert(old(Abs()), e)
      ensures OthersKept(old(pages), pages, old(Ids(tree)))
    {
      ghost var s, g := Abs(), Abs();
      ghost var r := InsertResult(s, e);
      var node := pages[root];
      var rootFull := if node.LeafNode? then |node.es| >= LEAF_MAX else |node.keys| >= INNER_MAX;
      if rootFull {
        g := GrowRoot(s);
        GrowRootIds(s);
        GrowFrom(s, g);
      }
      ghost var grown := pages;
      InsertNonFull(root, e, g.tree, g.height, INVALID_PAGE, r.tree, r.next);
      tree, height := r.tree, r.height;
      OthersKeptTwice(old(pages), grown, pages, s, g);
    }

    method GrowFrom(ghost s: State, ghost g: State)
      requires Full(s.tree) && root == s.tree.id && nextId == s.next
      requires Holds(pages, s) && InFile(pages, nextId) && g == GrowRoot(s)
      modifies this`pages, this`root, this`nextId
      ensures nextId == g.next && root == g.tree.id && InFile(pages, nextId)
      ensures Rep(pages, g.tree, INVALID_PAGE) && OthersKept(old(pages), pages, Ids(s.tree))
    {
      ghost var r := NewRoot(pages, pages[nextId := InnerNode([], [root])], s, g);
      Grow(Ids(s.tree), r, s.height + 1, g.tree);
    }

    /** A new root `r` above a full one, which is split; the tree is then `t2`. */
    method Grow(ghost ids: set<PageId>, ghost r: Tree, ghost h: nat, ghost t2: Tree)
      requires GrowReady(pages[nextId := InnerNode([], [root])], r, h, nextId + 1, t2)
      requires r.id == nextId && Ids(r) == ids + {nextId} && InFile(pages, nextId)
      modifies this`pages, this`root, this`nextId
      ensures nextId == old(nextId) + 2 && root == r.id && InFile(pages, nextId)
      ensures Rep(pages, t2, INVALID_PAGE) && OthersKept(old(pages), pages, ids)
    {
      var newRoot := nextId;
      nextId := nextId + 1;
      pages := pages[newRoot := InnerNode([], [root])];
      ghost var mid := pages;
      SplitChild(newRoot, 0, r, h, INVALID_PAGE, t2);
      root := newRoot;
      OthersKeptByGrow(old(pages), mid, pages, ids, newRoot);
    }

    /** All record ids of a key, from the routed leaf along the chain. */
    method SearchEqual(k: Key) returns (results: seq<RecordId>)
      requires Valid()
      ensures results == BPlusTreeSearch.SearchEqual(tree, k)
      ensures Strict(tree) ==> results == Matches(Flat(tree), k)
    {
      ghost var ls := TreeLeafList(pages, tree, height, nextId);
      LeafIndexSplits(tree, height, k);
      if Strict(tree) {
        SearchExact(tree, k);
      }
      var leafId, j := FindLeafForKey(pages, root, k, tree, height, INVALID_PAGE);
      results := ScanEqual(pages, leafId, k, ls, j);
      MatchesFromIs(ls, j, k);
    }

    /** All entries in a range, in chain order. */
    method RangeScan(r: Range) returns (results: seq<Entry>)
      requires Valid()
      ensures results == BPlusTreeSearch.RangeScan(tree, r)
      ensures Strict(tree) || r.low.None? || !r.lowInclusive ==> results == InRange(Flat(tree), r)
    {
      ghost var ls := TreeLeafList(pages, tree, height, nextId);
      if Strict(tree) || r.low.None? || !r.lowInclusive {
        RangeScanExact(tree, r);
      }
      if r.low.Some? {
        LeafIndexSplits(tree, height, r.low.value);
        var leafId, j := FindLeafForKey(pages, root, r.low.value, tree, height, INVALID_PAGE);
        results := ScanRange(pages, leafId, r, ls, j);
        InRangeFromIs(ls, j, r);
      } else {
        var leafId := FindFirstLeaf(pages, root, tree, height, INVALID_PAGE);
        assert ls[0..] == ls;
        results := ScanRange(pages, leafId, r, ls, 0);
        InRangeFromIs(ls, 0, r);
      }
    }

    /** Removes one entry; leaves are never merged. */
    method Delete(e: Entry) returns (status: Status)
      requires Valid()
      modifies this
      ensures Valid() && Abs() == BPlusTreeSearch.Delete(old(Abs()), e)
      ensures status == if old(DeletePos(tree, e)).Some? then Ok else NotFound
      ensures OthersKept(old(pages), pages, old(Ids(tree)))
    {
      ghost var ls := TreeLeafList(pages, tree, height, nextId);
      var start, j0 := FindLeafForKey(pages, root, e.key, tree, height, INVALID_PAGE);
      var leafId, pos, j := Locate(pages, start, e, ls, j0);
      if pos.None? {
        DeleteNowhere(tree, height, e, ls);
        return NotFound;
      }
      assert LinkAt(pages, ls, j, INVALID_PAGE);
      var leaf := pages[leafId];
      pages := pages[leafId := LeafNode(Without(leaf.es, pos.value), leaf.next)];
      ghost var r := DeleteHolds(old(pages), pages, old(Abs()), e, ls, j, pos.value);
      tree := r.tree;
      status := Ok;
    }
  }
}
