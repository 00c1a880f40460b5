/**
 The B+Tree on the bytes of its file: a page that holds the number of the root and one page per
 node. Whole insertions and deletions are carried out by page writes on those bytes, and leave
 bytes that hold the tree the specification yields.
 */
module BPlusTreeFile {
  import opened Types
  import opened Bytes
  import opened PageFields
  import opened BPlusTreeModel
  import opened BPlusTreePages
  import opened BPlusTreeChain
  import opened BPlusTreeScan
  import opened BPlusNode
  import opened BPlusTreeBytes
  import Search = BPlusTreeSearch
  import B = BPlusTree

  /** Pages `b` are pages `a` after the split of child `i` of a node page. */
  ghost predicate SplitsPages(a: Pages, b: Pages, parentId: PageId, i: nat, newId: PageId) {
    Splittable(a, parentId, i) && |a[parentId].keys| < INNER_MAX && b == SplitPages(a, parentId, i, newId)
  }

  /** The pages a split of a full child leaves hold the node `m` with the child in two halves. */
  lemma {:induction false} SplitOnPages(pages: Pages, t: Tree, h: nat, i: nat, newId: PageId, nxt: PageId, m: Tree) returns (b: Pages)
    requires h > 0 && KidsShape(t, h) && !Full(t) && i < |t.kids| && Full(t.kids[i])
    requires Rep(pages, t, nxt) && Apart(t) && Allocated(t, newId) && B.InFile(pages, newId)
    requires CanSplit(t.kids[i]) && m == BPlusTreeModel.SplitChild(t, i, newId)
    ensures SplitsPages(pages, b, t.id, i, newId) && Rep(b, m, nxt)
    ensures B.InFile(b, newId + 1) && B.OthersKept(pages, b, Ids(t))
  {
    var c := B.SplitSetting(pages, t, h, i, nxt);
    b := SplitPages(pages, t.id, i, newId);
    B.SplitDone(pages, b, t, i, c, newId, nxt);
  }

  /** An insertion that meets a full child goes on below the node `m` with that child split, on pages `b`. */
  lemma {:induction false} SplitFirst(pages: Pages, t: Tree, h: nat, i: nat, e: Entry, next: PageId, t2: Tree, n: PageId, nxt: PageId)
    returns (m: Tree, b: Pages, next1: PageId)
    requires h > 0 && B.IsInsert(t, h, e, next, t2, n) && B.Placed(pages, t, h, next, nxt) && B.InFile(pages, next)
    requires i == Route(t.keys, e.key) && Full(t.kids[i])
    ensures next1 == next + 1 <= n
    ensures SplitsPages(pages, b, t.id, i, next) && B.InFile(b, next1) && B.OthersKept(pages, b, Ids(t))
    ensures m.id == t.id && B.Placed(b, m, h, next1, nxt) && Ids(m) == Ids(t) + {next}
    ensures B.IsInsertBelow(m, h, e, next1, t2, n)
  {
    m, next1 := B.InsertAfterSplit(t, h, e, next, t2, n);
    InsertBelowIds(m, h, e, next1);
    b := SplitOnPages(pages, t, h, i, next, nxt, m);
  }

  /** Inserting never gives page numbers back. */
  lemma {:induction false} NextGrowsFromRoot(g: State, e: Entry, t2: Tree, n: PageId)
    requires B.IsInsert(g.tree, g.height, e, g.next, t2, n) && Apart(g.tree) && Allocated(g.tree, g.next)
    ensures g.next <= n
  {
    InsertIds(g.tree, g.height, e, g.next);
  }

  method EmptyLeaf() returns (d: PageBytes)
    ensures NodeOk(d) && NodeOf(d) == LeafNode([], INVALID_PAGE)
  {
    var leaf := Load(seq(PAGE_SIZE, _ => 0));
    leaf.InitLeaf(INVALID_PAGE);
    d := leaf.data[..];
  }

  /** The node page of a tree, and the child a key is routed to. */
  lemma {:induction false} WayDown(pages: Pages, t: Tree, h: nat, next: PageId, nxt: PageId, k: Key)
    requires B.Placed(pages, t, h, next, nxt)
    ensures t.id in pages && (pages[t.id].LeafNode? <==> h == 0) && (h == 0 <==> t.Leaf?)
    ensures h > 0 ==>
              var i := Route(t.keys, k);
              && pages[t.id].keys == t.keys && |pages[t.id].kids| == |t.kids| && i < |t.kids|
              && pages[t.id].kids[i] == t.kids[i].id
              && Shape(t.kids[i], h - 1) && Rep(pages, t.kids[i], NextOf(t.kids, i, nxt))
  {
  }

  lemma {:induction false} LeafInsertion(t: Tree, h: nat, e: Entry, next: PageId, t2: Tree, n: PageId)
    requires B.IsInsert(t, h, e, next, t2, n) && t.Leaf?
    ensures |t.es| < LEAF_MAX && t2 == Leaf(t.id, InsertLeaf(t.es, e)) && n == next && Ids(t) == {t.id}
  {
  }

  lemma {:induction false} OthersKeptBySplit(a: Pages, b: Pages, c: Pages, ids: set<PageId>, n: PageId)
    requires B.InFile(a, n) && B.OthersKept(a, b, ids) && B.OthersKept(b, c, ids + {n})
    ensures B.OthersKept(a, c, ids)
  {
  }

  class IndexFile {
    var meta: PageBytes
    var file: PageFile
    var nextId: PageId
    ghost var pages: Pages
    ghost var tree: Tree
    ghost var height: nat

    ghost function Abs(): State
      reads this
    {
      State(tree, height, nextId)
    }

    ghost predicate Valid()
      reads this
    {
      && Stored(file, pages) && I32(meta, 0) == tree.id
      && B.Holds(pages, Abs()) && B.InFile(pages, nextId) && nextId <= TWO_31
    }

    /** An empty index: the page of the root's number, and an empty leaf behind it. */
    constructor (firstFree: PageId)
      requires 0 <= firstFree && firstFree + 2 <= TWO_31
      ensures Valid() && Flat(tree) == [] && Strict(tree)
    {
      var root, blank := firstFree + 1, seq(PAGE_SIZE, _ => 0);
      var d := EmptyLeaf();
      PutI32Reads(blank, 0, root);
      meta := PutI32(blank, 0, root);
      file := map[root := d];
      nextId := firstFree + 2;
      pages := map[root := LeafNode([], INVALID_PAGE)];
      tree := Leaf(root, []);
      height := 0;
    }

    /** The node on a page, read from its bytes. */
    method Fetch(id: PageId) returns (node: Node)
      requires Stored(file, pages) && id in pages
      ensures node == pages[id]
    {
      node := NodeOf(file[id]);
    }

    /** The split of child `i` of a node page on bytes. */
    method SplitFull(parentId: PageId, i: nat, ghost b: Pages, ghost next: PageId)
      requires Stored(file, pages) && SplitsPages(pages, b, parentId, i, nextId) && 0 <= nextId < TWO_31 && next == nextId + 1
      modifies this`file, this`pages, this`nextId
      ensures Stored(file, pages) && pages == b && nextId == next
    {
      file := BPlusTreeBytes.SplitChild(file, parentId, i, nextId, pages);
      pages := b;
      nextId := nextId + 1;
    }

    /** Insertion below a node that is not full: the bytes hold `t` before and `t2` after. */
    method InsertNonFull(nodeId: PageId, e: Entry, ghost t: Tree, ghost h: nat, ghost nxt: PageId,
                         ghost t2: Tree, ghost n: PageId)
      requires nodeId == t.id && B.Placed(pages, t, h, nextId, nxt) && B.InFile(pages, nextId)
      requires B.IsInsert(t, h, e, nextId, t2, n)
      requires Stored(file, pages) && EntryFits(e) && n <= TWO_31
      modifies this`file, this`pages, this`nextId
      ensures Stored(file, pages) && nextId == n && B.InFile(pages, n)
      ensures Rep(pages, t2, nxt) && B.OthersKept(old(pages), pages, Ids(t))
      decreases h, 1
    {
      WayDown(pages, t, h, nextId, nxt, e.key);
      var node := Fetch(nodeId);
      if node.LeafNode? {
        LeafInsertion(t, h, e, nextId, t2, n);
        PutInLeaf(nodeId, e, t, nxt);
        return;
      }
      var idx := FindChildIndex(node.keys, e.key);
      var childFull := IsFull(node.kids[idx], t.kids[idx], h - 1, NextOf(t.kids, idx, nxt));
      if childFull {
        ghost var m, b, next := SplitFirst(pages, t, h, idx, e, nextId, t2, n, nxt);
        SplitAndInsert(nodeId, idx, e, Ids(t), b, m, h, nxt, next, t2, n);
      } else {
        B.InsertIntoRoom(t, h, e, nextId, t2, n);
        InsertBelow(nodeId, e, t, h, nxt, t2, n);
      }
    }

    /** A full child on the way is split first. */
    method SplitAndInsert(nodeId: PageId, i: nat, e: Entry, ghost ids: set<PageId>, ghost b: Pages, ghost m: Tree,
                          ghost h: nat, ghost nxt: PageId, ghost next: PageId, ghost t2: Tree, ghost n: PageId)
      requires Stored(file, pages) && SplitsPages(pages, b, nodeId, i, nextId) && next == nextId + 1
      requires B.InFile(pages, nextId) && B.InFile(b, next) && B.OthersKept(pages, b, ids)
      requires nodeId == m.id && B.Placed(b, m, h, next, nxt) && Ids(m) == ids + {nextId}
      requires B.IsInsertBelow(m, h, e, next, t2, n) && EntryFits(e) && nextId < n <= TWO_31
      modifies this`file, this`pages, this`nextId
      ensures Stored(file, pages) && nextId == n && B.InFile(pages, n)
      ensures Rep(pages, t2, nxt) && B.OthersKept(old(pages), pages, ids)
      decreases h, 0, 1
    {
      SplitFull(nodeId, i, b, next);
      InsertBelow(nodeId, e, m, h, nxt, t2, n);
      OthersKeptBySplit(old(pages), b, pages, ids, old(nextId));
    }

    method IsFull(id: PageId, ghost t: Tree, ghost h: nat, ghost nxt: PageId) returns (full: bool)
      requires Stored(file, pages) && id == t.id && Shape(t, h) && Rep(pages, t, nxt)
      ensures full == Full(t)
    {
      var node := Fetch(id);
      full := if node.LeafNode? then |node.es| >= LEAF_MAX else |node.keys| >= INNER_MAX;
    }

    /** The entry goes in front of the first one with a key that is not smaller. */
    method PutInLeaf(id: PageId, e: Entry, ghost t: Tree, ghost nxt: PageId)
      requires Stored(file, pages) && t.Leaf? && id == t.id && Rep(pages, t, nxt) && |t.es| < LEAF_MAX && EntryFits(e)
      requires B.InFile(pages, nextId)
      modifies this`file, this`pages
      ensures Stored(file, pages) && B.InFile(pages, nextId)
      ensures Rep(pages, Leaf(id, InsertLeaf(t.es, e)), nxt) && B.OthersKept(old(pages), pages, {id})
    {
      var node := Fetch(id);
      var i := B.FindLeafPosition(node.es, e.key);
      file := InsertIntoLeaf(file, id, i, e, pages);
      pages := pages[id := LeafNode(node.es[..i] + [e] + node.es[i..], node.next)];
    }

    method InsertBelow(nodeId: PageId, e: Entry, ghost t: Tree, ghost h: nat, ghost nxt: PageId,
                       ghost t2: Tree, ghost n: PageId)
      requires nodeId == t.id && B.Placed(pages, t, h, nextId, nxt) && B.InFile(pages, nextId)
      requires B.IsInsertBelow(t, h, e, nextId, t2, n)
      requires Stored(file, pages) && EntryFits(e) && n <= TWO_31
      modifies this`file, this`pages, this`nextId
      ensures Stored(file, pages) && nextId == n && B.InFile(pages, n)
      ensures Rep(pages, t2, nxt) && B.OthersKept(old(pages), pages, Ids(t))
      decreases h, 0, 0
    {
      ghost var i, c, c2, follower := B.InsertKid(pages, t, h, e, nextId, t2, n, nxt);
      var node := Fetch(nodeId);
      var idx := FindChildIndex(node.keys, e.key);
      InsertNonFull(node.kids[idx], e, c, h - 1, follower, c2, n);
      B.BelowDone(old(pages), pages, t, i, c, c2, t2, follower, nxt);
    }

    /** Insertion: the bytes afterwards hold the tree with the entry inserted. */
    method Insert(e: Entry)
      requires Valid() && EntryFits(e) && BPlusTreeModel.Insert(Abs(), e).next <= TWO_31
      modifies this
      ensures Valid()
      ensures Abs() == BPlusTreeModel.Insert(old(Abs()), e)
      ensures B.OthersKept(old(pages), pages, old(Ids(tree)))
    {
      ghost var s, g := Abs(), Abs();
      ghost var r := B.InsertResult(s, e);
      var root := I32(meta, 0);
      var rootFull := IsFull(root, tree, height, INVALID_PAGE);
      if rootFull {
        g := GrowRoot(s);
        B.GrowRootIds(s);
        NextGrowsFromRoot(g, e, r.tree, r.next);
        root := GrowFrom(root, s, g);
      }
      ghost var grown := pages;
      InsertNonFull(root, e, g.tree, g.height, INVALID_PAGE, r.tree, r.next);
      tree, height := r.tree, r.height;
      B.OthersKeptTwice(old(pages), grown, pages, s, g);
    }

    /** A new root above a full one. */
    method GrowFrom(root: PageId, ghost s: State, ghost g: State) returns (newRoot: PageId)
      requires Full(s.tree) && root == s.tree.id && nextId == s.next && nextId + 2 <= TWO_31
      requires B.Holds(pages, s) && B.InFile(pages, nextId) && Stored(file, pages) && g == GrowRoot(s)
      modifies this`meta, this`file, this`pages, this`nextId
      ensures Stored(file, pages) && nextId == g.next && newRoot == I32(meta, 0) == g.tree.id
      ensures B.InFile(pages, nextId) && Rep(pages, g.tree, INVALID_PAGE)
      ensures B.OthersKept(old(pages), pages, Ids(s.tree))
    {
      ghost var r := B.NewRoot(pages, pages[nextId := InnerNode([], [root])], s, g);
      newRoot := Grow(root, Ids(s.tree), r, s.height + 1, g.tree);
    }

    /** The old root is split below the new one `r`, whose number goes to the first page. */
    method Grow(root: PageId, ghost ids: set<PageId>, ghost r: Tree, ghost h: nat, ghost t2: Tree) returns (newRoot: PageId)
      requires Stored(file, pages) && -TWO_31 <= root < TWO_31 && 0 <= nextId && nextId + 2 <= TWO_31
      requires B.GrowReady(pages[nextId := InnerNode([], [root])], r, h, nextId + 1, t2)
      requires r.id == nextId && Ids(r) == ids + {nextId} && B.InFile(pages, nextId)
      modifies this`meta, this`file, this`pages, this`nextId
      ensures Stored(file, pages) && nextId == old(nextId) + 2 && newRoot == I32(meta, 0) == r.id
      ensures B.InFile(pages, nextId) && Rep(pages, t2, INVALID_PAGE) && B.OthersKept(old(pages), pages, ids)
    {
      newRoot := nextId;
      file := BPlusTreeBytes.NewRoot(file, newRoot, root, pages);
      pages := pages[newRoot := InnerNode([], [root])];
      nextId := nextId + 1;
      ghost var mid := pages;
      ghost var b := SplitOnPages(pages, r, h, 0, nextId, INVALID_PAGE, t2);
      SplitFull(newRoot, 0, b, nextId + 1);
      SetRoot(newRoot);
      B.OthersKeptByGrow(old(pages), mid, pages, ids, newRoot);
    }

    method SetRoot(root: PageId)
      requires -TWO_31 <= root < TWO_31
      modifies this`meta
      ensures I32(meta, 0) == root
    {
      PutI32Reads(meta, 0, root);
      meta := PutI32(meta, 0, root);
    }

    /** The page of the leaf a key is routed to. */
    method FindLeaf(root: PageId, k: Key, ghost t: Tree, ghost h: nat) returns (current: PageId)
      requires Stored(file, pages) && root == t.id && Shape(t, h) && Rep(pages, t, INVALID_PAGE)
      ensures current == LeafIdFor(t, k)
    {
      current := root;
      ghost var c, d, n := t, h, INVALID_PAGE;
      while true
        invariant current == c.id && Shape(c, d) && Rep(pages, c, n)
        invariant LeafIdFor(c, k) == LeafIdFor(t, k)
        decreases d
      {
        var node := Fetch(current);
        if node.LeafNode? {
          return;
        }
        var idx := FindChildIndex(node.keys, k);
        assert Shape(c.kids[idx], d - 1) && Rep(pages, c.kids[idx], NextOf(c.kids, idx, n));
        current := node.kids[idx];
        c, d, n := c.kids[idx], d - 1, NextOf(c.kids, idx, n);
      }
    }

    /** The leaf and position of the first occurrence of an entry from `start` on. */
    method Locate(start: PageId, e: Entry, ghost ls: seq<Tree>, ghost j0: nat)
      returns (leafId: PageId, pos: Option<nat>, ghost j: nat)
      requires Stored(file, pages) && Linked(pages, ls) && j0 < |ls| && start == ls[j0].id
      ensures pos.None? ==> Search.Find(Cat(ls[j0..]), e) == None
      ensures pos.Some? ==> FoundAt(ls, j0, e, j, pos.value) && leafId == ls[j].id
    {
      leafId, j := start, j0;
      assert ls[j0..j0] == [];
      while leafId != INVALID_PAGE
        invariant j0 <= j <= |ls|
        invariant leafId == if j < |ls| then ls[j].id else INVALID_PAGE
        invariant e !in Cat(ls[j0..j])
        decreases |ls| - j
      {
        assert LinkAt(pages, ls, j, INVALID_PAGE);
        var leaf := Fetch(leafId);
        LeafOrder(ls, j);
        var exceeded;
        pos, exceeded := FindInLeaf(leaf.es, e);
        if pos.Some? {
          FindHere(ls, j0, j, e, pos.value);
          return;
        }
        FindNotHere(ls, j0, j, e);
        if exceeded {
          return;
        }
        leafId := leaf.next;
        j := j + 1;
      }
      assert ls[j0..j] == ls[j0..];
      pos := None;
    }

    /** Deletion: the bytes afterwards hold the tree without the entry. */
    method Delete(e: Entry) returns (status: Status)
      requires Valid()
      modifies this
      ensures Valid() && Abs() == Search.Delete(old(Abs()), e)
      ensures status == if old(Search.DeletePos(tree, e)).Some? then Ok else NotFound
      ensures B.OthersKept(old(pages), pages, old(Ids(tree)))
    {
      ghost var ls := TreeLeafList(pages, tree, height, nextId);
      LeafIdForIndex(tree, height, e.key);
      var start := FindLeaf(I32(meta, 0), e.key, tree, height);
      var leafId, pos, j := Locate(start, e, ls, LeafIndex(tree, e.key));
      if pos.None? {
        DeleteNowhere(tree, height, e, ls);
        return NotFound;
      }
      TakeOut(leafId, pos.value, ls, j);
      ghost var r := B.DeleteHolds(old(pages), pages, old(Abs()), e, ls, j, pos.value);
      tree := r.tree;
      status := Ok;
    }

    method TakeOut(leafId: PageId, i: nat, ghost ls: seq<Tree>, ghost j: nat)
      requires Stored(file, pages) && Linked(pages, ls) && j < |ls| && leafId == ls[j].id && i < |ls[j].es|
      modifies this`file, this`pages
      ensures Stored(file, pages) && leafId in old(pages) && old(pages)[leafId].LeafNode?
      ensures pages == old(pages)[leafId := LeafNode(Search.Without(ls[j].es, i), old(pages)[leafId].next)]
    {
      assert LinkAt(pages, ls, j, INVALID_PAGE);
      file := RemoveFromLeaf(file, leafId, i, pages);
      pages := pages[leafId := LeafNode(Search.Without(ls[j].es, i), pages[leafId].next)];
    }
  }
}
