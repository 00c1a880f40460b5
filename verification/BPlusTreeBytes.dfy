/**
 The page writes of the tree on the bytes of its pages: splitting a node with its copying loops,
 inserting into a leaf, removing from a leaf and starting a new root. Each turns bytes that hold
 the tree's node pages into bytes that hold the node pages after the tree's own step.
 */
module BPlusTreeBytes {
  import opened Types
  import opened Bytes
  import opened PageFields
  import opened BPlusTreeModel
  import opened BPlusTreePages
  import opened BPlusNode
  import Search = BPlusTreeSearch
  import B = BPlusTree

  type PageFile = map<PageId, PageBytes>

  /** The bytes of every page read as its node. */
  ghost predicate Stored(file: PageFile, pages: Pages) {
    && (forall id {:trigger id in file} :: id in file <==> id in pages)
    && forall id {:trigger file[id]} :: id in pages ==> NodeOk(file[id]) && NodeOf(file[id]) == pages[id]
  }

  lemma {:induction false} StoredWrite(file: PageFile, pages: Pages, id: PageId, d: PageBytes)
    requires Stored(file, pages) && NodeOk(d)
    ensures Stored(file[id := d], pages[id := NodeOf(d)])
  {
  }

  /** A page in memory. */
  method Load(d: PageBytes) returns (v: BPlusNodeView)
    ensures fresh(v) && fresh(v.data) && v.data.Length == PAGE_SIZE && v.data[..] == d
  {
    var a := new byte[PAGE_SIZE](i requires 0 <= i < PAGE_SIZE => d[i]);
    v := new BPlusNodeView(a);
    assert a[..] == d;
  }

  /* ---------- Splitting ---------- */

  /** Copies the entries from `mid` on to the front of another page. */
  method CopyEntries(from: BPlusNodeView, to: BPlusNodeView, mid: nat, count: nat, ghost es: seq<Entry>)
    returns (ghost out: seq<Entry>)
    requires from.data.Length == to.data.Length == PAGE_SIZE && from.data != to.data
    requires Places(from.data[..], es) && mid + count <= LEAF_MAX
    modifies to.data
    ensures Places(to.data[..], out) && SameHeader(old(to.data[..]), to.data[..])
    ensures out[..count] == es[mid..mid + count]
  {
    out := PlacesOf(to.data[..]);
    var j := 0;
    while j < count
      invariant j <= count && Places(to.data[..], out) && SameHeader(old(to.data[..]), to.data[..])
      invariant from.data[..] == old(from.data[..])
      invariant forall k :: 0 <= k < j ==> out[k] == es[mid + k]
    {
      var e := from.GetPlace(mid + j, es);
      to.SetPlace(j, e, out);
      out := out[j := e];
      j := j + 1;
    }
  }

  /** A leaf page cut at `mid`: its upper entries and its link go to the new page. */
  method SplitLeaf(child: BPlusNodeView, right: BPlusNodeView, newId: PageId, mid: nat)
    requires child.data.Length == right.data.Length == PAGE_SIZE && child.data != right.data
    requires IsLeaf(child.data[..]) && NodeOk(child.data[..]) && mid <= KeyCount(child.data[..])
    requires -TWO_31 <= newId < TWO_31
    modifies child.data, right.data
    ensures NodeOk(right.data[..]) && NodeOf(right.data[..]) == RightPage(old(NodeOf(child.data[..])), mid)
    ensures NodeOk(child.data[..]) && NodeOf(child.data[..]) == LeftPage(old(NodeOf(child.data[..])), newId, mid)
  {
    ghost var es := PlacesOf(child.data[..]);
    LeafFromPlaces(child.data[..], es);
    var n := KeyCount(child.data[..]);
    right.InitLeaf(NextLeafId(child.data[..]));
    child.SetNextLeafId(newId, es);
    ghost var out := CopyEntries(child, right, mid, n - mid, es);
    right.RecountLeaf(n - mid, out);
    child.RecountLeaf(mid, es);
    assert es[..n][mid..] == es[mid..n] && es[..n][..mid] == es[..mid];
  }

  method CopyKeys(from: BPlusNodeView, to: BPlusNodeView, mid: nat, count: nat, ghost ks: seq<Key>, ghost cs: seq<PageId>,
                  ghost ks0: seq<Key>, ghost cs0: seq<PageId>) returns (ghost out: seq<Key>)
    requires from.data.Length == to.data.Length == PAGE_SIZE && from.data != to.data
    requires InnerPlaces(from.data[..], ks, cs) && InnerPlaces(to.data[..], ks0, cs0) && mid + count <= INNER_MAX
    modifies to.data
    ensures InnerPlaces(to.data[..], out, cs0) && SameHeader(old(to.data[..]), to.data[..])
    ensures out[..count] == ks[mid..mid + count]
  {
    out := ks0;
    var j := 0;
    while j < count
      invariant j <= count && InnerPlaces(to.data[..], out, cs0) && SameHeader(old(to.data[..]), to.data[..])
      invariant from.data[..] == old(from.data[..])
      invariant forall k :: 0 <= k < j ==> out[k] == ks[mid + k]
    {
      var key := KeyAt(from.data[..], mid + j);
      to.SetKey(j, key, out, cs0);
      out := out[j := key];
      j := j + 1;
    }
  }

  method CopyChildren(from: BPlusNodeView, to: BPlusNodeView, mid: nat, count: nat, ghost ks: seq<Key>, ghost cs: seq<PageId>,
                      ghost ks0: seq<Key>, ghost cs0: seq<PageId>) returns (ghost out: seq<PageId>)
    requires from.data.Length == to.data.Length == PAGE_SIZE && from.data != to.data
    requires InnerPlaces(from.data[..], ks, cs) && InnerPlaces(to.data[..], ks0, cs0) && mid + count <= INNER_MAX + 1
    modifies to.data
    ensures InnerPlaces(to.data[..], ks0, out) && SameHeader(old(to.data[..]), to.data[..])
    ensures out[..count] == cs[mid..mid + count]
  {
    out := cs0;
    var j := 0;
    while j < count
      invariant j <= count && InnerPlaces(to.data[..], ks0, out) && SameHeader(old(to.data[..]), to.data[..])
      invariant from.data[..] == old(from.data[..])
      invariant forall k :: 0 <= k < j ==> out[k] == cs[mid + k]
    {
      var child := ChildAt(from.data[..], mid + j);
      to.SetChild(j, child, ks0, out);
      out := out[j := child];
      j := j + 1;
    }
  }

  /** An internal page cut around its key `mid`, which goes to neither half. */
  method SplitInner(child: BPlusNodeView, right: BPlusNodeView, newId: PageId, mid: nat)
    requires child.data.Length == right.data.Length == PAGE_SIZE && child.data != right.data
    requires !IsLeaf(child.data[..]) && NodeOk(child.data[..]) && mid < KeyCount(child.data[..])
    modifies child.data, right.data
    ensures NodeOk(right.data[..]) && NodeOf(right.data[..]) == RightPage(old(NodeOf(child.data[..])), mid)
    ensures NodeOk(child.data[..]) && NodeOf(child.data[..]) == LeftPage(old(NodeOf(child.data[..])), newId, mid)
  {
    ghost var ks, cs := InnerPlacesOf(child.data[..]);
    var n := KeyCount(child.data[..]);
    right.InitInternal();
    ghost var ks0, cs0 := InnerPlacesOf(right.data[..]);
    ghost var keys := CopyKeys(child, right, mid + 1, n - mid - 1, ks, cs, ks0, cs0);
    ghost var kids := CopyChildren(child, right, mid + 1, n - mid, ks, cs, keys, cs0);
    right.RecountInner(n - mid - 1, keys, kids);
    child.RecountInner(mid, ks, cs);
    assert ks[..n][mid + 1..] == ks[mid + 1..n] && ks[..n][..mid] == ks[..mid];
    assert cs[..n + 1][mid + 1..] == cs[mid + 1..n + 1] && cs[..n + 1][..mid + 1] == cs[..mid + 1];
  }

  /** Both kinds of node: the halves of the child and the key that separates them. */
  method SplitNode(child: BPlusNodeView, right: BPlusNodeView, newId: PageId) returns (separator: Key)
    requires child.data.Length == right.data.Length == PAGE_SIZE && child.data != right.data
    requires NodeOk(child.data[..]) && KeyCount(child.data[..]) >= (if IsLeaf(child.data[..]) then 2 else 1)
    requires -TWO_31 <= newId < TWO_31
    modifies child.data, right.data
    ensures var c := old(NodeOf(child.data[..]));
            var mid := if c.LeafNode? then SplitPoint(c.es) else |c.keys| / 2;
            && separator == (if c.LeafNode? then c.es[mid].key else c.keys[mid])
            && NodeOk(right.data[..]) && NodeOf(right.data[..]) == RightPage(c, mid)
            && NodeOk(child.data[..]) && NodeOf(child.data[..]) == LeftPage(c, newId, mid)
    ensures -TWO_63 <= separator < TWO_63
  {
    var n := KeyCount(child.data[..]);
    if IsLeaf(child.data[..]) {
      var mid := B.FindSplitPoint(NodeOf(child.data[..]).es);
      separator := LeafEntryAt(child.data[..], mid).key;
      SplitLeaf(child, right, newId, mid);
    } else {
      separator := KeyAt(child.data[..], n / 2);
      SplitInner(child, right, newId, n / 2);
    }
  }

  /** The whole split on bytes: the file holds what the tree's split writes. */
  method SplitChild(file: PageFile, parentId: PageId, i: nat, newId: PageId, ghost pages: Pages) returns (out: PageFile)
    requires Stored(file, pages) && Splittable(pages, parentId, i) && |pages[parentId].keys| < INNER_MAX
    requires -TWO_31 <= newId < TWO_31
    ensures Stored(out, SplitPages(pages, parentId, i, newId))
  {
    var parent := Load(file[parentId]);
    var childId := ChildAt(file[parentId], i);
    var child := Load(file[childId]);
    var right := Load(seq(PAGE_SIZE, _ => 0));
    var separator := SplitNode(child, right, newId);
    parent.InsertInternalKeyChildAt(i, separator, newId);
    StoredWrite(file, pages, newId, right.data[..]);
    var f1, p1 := file[newId := right.data[..]], pages[newId := NodeOf(right.data[..])];
    StoredWrite(f1, p1, childId, child.data[..]);
    var f2, p2 := f1[childId := child.data[..]], p1[childId := NodeOf(child.data[..])];
    StoredWrite(f2, p2, parentId, parent.data[..]);
    out := f2[parentId := parent.data[..]];
  }

  /* ---------- The other page writes ---------- */

  method InsertIntoLeaf(file: PageFile, id: PageId, i: nat, e: Entry, ghost pages: Pages) returns (out: PageFile)
    requires Stored(file, pages) && id in pages && pages[id].LeafNode? && i <= |pages[id].es| < LEAF_MAX && EntryFits(e)
    ensures Stored(out, pages[id := LeafNode(pages[id].es[..i] + [e] + pages[id].es[i..], pages[id].next)])
  {
    var leaf := Load(file[id]);
    leaf.InsertLeafEntryAt(i, e);
    StoredWrite(file, pages, id, leaf.data[..]);
    out := file[id := leaf.data[..]];
  }

  method RemoveFromLeaf(file: PageFile, id: PageId, i: nat, ghost pages: Pages) returns (out: PageFile)
    requires Stored(file, pages) && id in pages && pages[id].LeafNode? && i < |pages[id].es|
    ensures Stored(out, pages[id := LeafNode(Search.Without(pages[id].es, i), pages[id].next)])
  {
    var leaf := Load(file[id]);
    leaf.RemoveLeafEntryAt(i);
    StoredWrite(file, pages, id, leaf.data[..]);
    out := file[id := leaf.data[..]];
  }

  /** A new root without keys above an old one. */
  method NewRoot(file: PageFile, newRoot: PageId, root: PageId, ghost pages: Pages) returns (out: PageFile)
    requires Stored(file, pages) && -TWO_31 <= root < TWO_31
    ensures Stored(out, pages[newRoot := InnerNode([], [root])])
  {
    var node := Load(seq(PAGE_SIZE, _ => 0));
    node.InitInternal();
    ghost var ks, cs := InnerPlacesOf(node.data[..]);
    node.SetChild(0, root, ks, cs);
    InnerFromPlaces(node.data[..], ks, cs[0 := root]);
    StoredWrite(file, pages, newRoot, node.data[..]);
    out := file[newRoot := node.data[..]];
  }
}
