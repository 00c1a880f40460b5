/** How a tree is laid out in the pages of the index file: node pages, child pointers and the leaf chain. */
module BPlusTreePages {
  import opened Types
  import opened BPlusTreeModel
  import opened BPlusTreeSearch

  /** What a node page holds; leaf pages also point to the next leaf. */
  datatype Node =
    | LeafNode(es: seq<Entry>, next: PageId)
    | InnerNode(keys: seq<Key>, kids: seq<PageId>)

  type Pages = map<PageId, Node>

  /* ---------- Page numbers ---------- */

  ghost function Ids(t: Tree): set<PageId> {
    match t
    case Leaf(id, _) => {id}
    case Inner(id, _, kids) => {id} + IdsF(kids)
  }

  ghost function IdsF(ts: seq<Tree>): set<PageId> {
    if |ts| == 0 then {} else Ids(ts[0]) + IdsF(ts[1..])
  }

  /** Every node has a page of its own. */
  ghost predicate Apart(t: Tree) {
    match t
    case Leaf(_, _) => true
    case Inner(id, _, kids) => id !in IdsF(kids) && ApartF(kids)
  }

  ghost predicate ApartF(ts: seq<Tree>) {
    |ts| > 0 ==> Apart(ts[0]) && ApartF(ts[1..]) && Ids(ts[0]) !! IdsF(ts[1..])
  }

  /** All page numbers of the tree have been handed out. */
  ghost predicate Allocated(t: Tree, next: PageId) {
    forall x :: x in Ids(t) ==> 0 <= x < next
  }

  lemma {:induction false} IdsFAppend(a: seq<Tree>, b: seq<Tree>)
    ensures IdsF(a + b) == IdsF(a) + IdsF(b)
    ensures ApartF(a + b) <==> ApartF(a) && ApartF(b) && IdsF(a) !! IdsF(b)
  {
    if |a| == 0 {
      assert a + b == b;
    } else {
      assert (a + b)[1..] == a[1..] + b;
      IdsFAppend(a[1..], b);
    }
  }

  lemma {:induction false} IdsFOne(t: Tree)
    ensures IdsF([t]) == Ids(t)
    ensures ApartF([t]) <==> Apart(t)
  {
    assert [t][1..] == [];
  }

  /** The page numbers around child `i`. */
  lemma {:induction false} IdsFSplit(ts: seq<Tree>, i: nat)
    requires i < |ts|
    ensures IdsF(ts) == IdsF(ts[..i]) + Ids(ts[i]) + IdsF(ts[i + 1..])
    ensures ApartF(ts) <==>
            && ApartF(ts[..i]) && Apart(ts[i]) && ApartF(ts[i + 1..])
            && IdsF(ts[..i]) !! Ids(ts[i]) !! IdsF(ts[i + 1..])
  {
    assert ts == ts[..i] + ([ts[i]] + ts[i + 1..]);
    IdsFAppend(ts[..i], [ts[i]] + ts[i + 1..]);
    IdsFAppend([ts[i]], ts[i + 1..]);
    IdsFOne(ts[i]);
  }

  lemma {:induction false} IdsKid(t: Tree, i: nat)
    requires t.Inner? && i < |t.kids|
    ensures Ids(t.kids[i]) <= Ids(t)
    ensures Apart(t) ==> Apart(t.kids[i]) && t.id !in Ids(t.kids[i])
  {
    IdsFSplit(t.kids, i);
  }

  lemma {:induction false} KidsApart(t: Tree, i: nat, j: nat)
    requires t.Inner? && i < |t.kids| && j < |t.kids| && i != j && Apart(t)
    ensures Ids(t.kids[i]) !! Ids(t.kids[j])
  {
    IdsFSplit(t.kids, i);
    if j < i {
      IdsFSplit(t.kids[..i], j);
    } else {
      IdsFSplit(t.kids[i + 1..], j - i - 1);
    }
  }

  lemma {:induction false} IdInIds(t: Tree)
    ensures t.id in Ids(t)
  {
  }

  ghost function FirstLeaf(t: Tree): PageId {
    match t
    case Leaf(id, _) => id
    case Inner(_, _, kids) => if |kids| == 0 then INVALID_PAGE else FirstLeaf(kids[0])
  }

  ghost function Roots(ts: seq<Tree>): seq<PageId> {
    seq(|ts|, i requires 0 <= i < |ts| => ts[i].id)
  }

  /* ---------- Layout ---------- */

  /** The leaf that follows subtree `i`. */
  ghost function NextOf(ts: seq<Tree>, i: nat, nxt: PageId): PageId
    requires i < |ts|
  {
    if i + 1 < |ts| then FirstLeaf(ts[i + 1]) else nxt
  }

  /** The pages hold the tree, and its last leaf points to page `nxt`. */
  ghost predicate Rep(pages: Pages, t: Tree, nxt: PageId)
    decreases t
  {
    match t
    case Leaf(id, es) => id in pages && pages[id] == LeafNode(es, nxt)
    case Inner(id, keys, kids) =>
      && id in pages && pages[id] == InnerNode(keys, Roots(kids))
      && forall i :: 0 <= i < |kids| ==> Rep(pages, kids[i], NextOf(kids, i, nxt))
  }

  /** The pages hold a run of neighbouring subtrees. */
  ghost predicate RepAll(pages: Pages, ts: seq<Tree>, nxt: PageId) {
    forall i :: 0 <= i < |ts| ==> Rep(pages, ts[i], NextOf(ts, i, nxt))
  }

  ghost predicate SameOn(a: Pages, b: Pages, ids: set<PageId>) {
    forall x :: x in ids && x in a ==> x in b && b[x] == a[x]
  }

  /** Only the tree's own pages matter. */
  lemma {:induction false} RepFrame(a: Pages, b: Pages, t: Tree, nxt: PageId)
    requires Rep(a, t, nxt) && SameOn(a, b, Ids(t))
    ensures Rep(b, t, nxt)
    decreases t
  {
    IdInIds(t);
    if t.Inner? {
      forall i | 0 <= i < |t.kids| ensures Rep(b, t.kids[i], NextOf(t.kids, i, nxt)) {
        IdsKid(t, i);
        RepFrame(a, b, t.kids[i], NextOf(t.kids, i, nxt));
      }
    }
  }

  /** Replacing one subtree by another that starts at the same leaf. */
  lemma {:induction false} RepWithKid(a: Pages, b: Pages, t: Tree, i: nat, c: Tree, nxt: PageId)
    requires t.Inner? && i < |t.kids| && Rep(a, t, nxt) && Apart(t)
    requires Rep(b, c, NextOf(t.kids, i, nxt))
    requires c.id == t.kids[i].id && FirstLeaf(c) == FirstLeaf(t.kids[i])
    requires forall x :: x in a && x !in Ids(t.kids[i]) ==> x in b && b[x] == a[x]
    ensures Rep(b, WithKid(t, i, c), nxt)
  {
    var kids := t.kids[i := c];
    assert Roots(kids) == Roots(t.kids);
    IdsKid(t, i);
    forall j | 0 <= j < |kids| ensures Rep(b, kids[j], NextOf(kids, j, nxt)) {
      assert NextOf(kids, j, nxt) == NextOf(t.kids, j, nxt);
      if j != i {
        KidsApart(t, i, j);
        RepFrame(a, b, t.kids[j], NextOf(t.kids, j, nxt));
      }
    }
  }

  /* ---------- Splitting ---------- */

  /** The page of the left half after a split. */
  function LeftPage(c: Node, newId: PageId, m: nat): Node
    requires if c.LeafNode? then m <= |c.es| else m < |c.keys| && m + 1 <= |c.kids|
  {
    match c
    case LeafNode(es, _) => LeafNode(es[..m], newId)
    case InnerNode(keys, kids) => InnerNode(keys[..m], kids[..m + 1])
  }

  /** The page of the right half after a split. */
  function RightPage(c: Node, m: nat): Node
    requires if c.LeafNode? then m <= |c.es| else m < |c.keys| && m + 1 <= |c.kids|
  {
    match c
    case LeafNode(es, next) => LeafNode(es[m..], next)
    case InnerNode(keys, kids) => InnerNode(keys[m + 1..], kids[m + 1..])
  }

  lemma {:induction false} SplitIds(c: Tree, newId: PageId)
    requires CanSplit(c) && Apart(c) && newId !in Ids(c)
    ensures var s := Split(c, newId);
            && Ids(s.left) + Ids(s.right) == Ids(c) + {newId} && Ids(s.left) !! Ids(s.right)
            && Apart(s.left) && Apart(s.right)
            && s.left.id == c.id && s.right.id == newId && FirstLeaf(s.left) == FirstLeaf(c)
  {
    if c.Inner? {
      var m := |c.keys| / 2;
      assert c.kids == c.kids[..m + 1] + c.kids[m + 1..];
      IdsFAppend(c.kids[..m + 1], c.kids[m + 1..]);
    }
  }

  /** Pages `b` hold the two halves of node `c`, which pages `a` hold in one. */
  ghost predicate HalvesWritten(a: Pages, b: Pages, c: Tree, newId: PageId, nxt: PageId) {
    && CanSplit(c) && Rep(a, c, nxt)
    && c.id in b && newId in b
    && var m := if c.Leaf? then SplitPoint(c.es) else |c.keys| / 2;
       b[c.id] == LeftPage(a[c.id], newId, m) && b[newId] == RightPage(a[c.id], m)
  }

  /** The children of an internal node that a split moves are where they were. */
  lemma {:induction false} LeftHalfRep(a: Pages, b: Pages, c: Tree, newId: PageId, nxt: PageId)
    requires c.Inner? && Apart(c) && newId !in Ids(c) && HalvesWritten(a, b, c, newId, nxt)
    requires SameOn(a, b, Ids(c) - {c.id})
    ensures var s := Split(c, newId); Rep(b, s.left, FirstLeaf(s.right))
  {
    var m := |c.keys| / 2;
    var s := Split(c, newId);
    var l := s.left;
    assert Roots(l.kids) == Roots(c.kids)[..m + 1];
    forall i | 0 <= i < |l.kids| ensures Rep(b, l.kids[i], NextOf(l.kids, i, FirstLeaf(s.right))) {
      assert l.kids[i] == c.kids[i];
      IdsKid(c, i);
      RepFrame(a, b, c.kids[i], NextOf(c.kids, i, nxt));
    }
  }

  lemma {:induction false} RightHalfRep(a: Pages, b: Pages, c: Tree, newId: PageId, nxt: PageId)
    requires c.Inner? && Apart(c) && newId !in Ids(c) && HalvesWritten(a, b, c, newId, nxt)
    requires SameOn(a, b, Ids(c) - {c.id})
    ensures Rep(b, Split(c, newId).right, nxt)
  {
    var m := |c.keys| / 2;
    var r := Split(c, newId).right;
    assert Roots(r.kids) == Roots(c.kids)[m + 1..];
    forall i | 0 <= i < |r.kids| ensures Rep(b, r.kids[i], NextOf(r.kids, i, nxt)) {
      assert r.kids[i] == c.kids[m + 1 + i];
      IdsKid(c, m + 1 + i);
      RepFrame(a, b, c.kids[m + 1 + i], NextOf(c.kids, m + 1 + i, nxt));
    }
  }

  /** The two halves are laid out next to each other, the right one on the new page. */
  lemma {:induction false} SplitRep(a: Pages, b: Pages, c: Tree, newId: PageId, nxt: PageId)
    requires Apart(c) && newId !in Ids(c) && HalvesWritten(a, b, c, newId, nxt)
    requires SameOn(a, b, Ids(c) - {c.id})
    ensures var s := Split(c, newId);
            Rep(b, s.left, FirstLeaf(s.right)) && Rep(b, s.right, nxt)
  {
    if c.Inner? {
      LeftHalfRep(a, b, c, newId, nxt);
      RightHalfRep(a, b, c, newId, nxt);
    }
  }

  lemma {:induction false} SplitChildIds(t: Tree, i: nat, newId: PageId)
    requires t.Inner? && |t.kids| == |t.keys| + 1 && i < |t.kids| && CanSplit(t.kids[i])
    requires Apart(t) && newId !in Ids(t)
    ensures var t2 := SplitChild(t, i, newId);
            && Ids(t2) == Ids(t) + {newId} && Apart(t2)
            && t2.id == t.id && FirstLeaf(t2) == FirstLeaf(t)
  {
    IdsKid(t, i);
    SplitIds(t.kids[i], newId);
    IdsFSplit(t.kids, i);
    var s := Split(t.kids[i], newId);
    var kids := SplitChild(t, i, newId).kids;
    assert kids == t.kids[..i] + ([s.left] + ([s.right] + t.kids[i + 1..]));
    IdsFAppend(t.kids[..i], [s.left] + ([s.right] + t.kids[i + 1..]));
    IdsFAppend([s.left], [s.right] + t.kids[i + 1..]);
    IdsFAppend([s.right], t.kids[i + 1..]);
    IdsFOne(s.left);
    IdsFOne(s.right);
  }

  ghost function KidAfterSplit(t: Tree, s: Halves, i: nat, j: nat): Tree
    requires t.Inner? && i < |t.kids| && j <= |t.kids|
  {
    if j < i then t.kids[j] else if j == i then s.left else if j == i + 1 then s.right else t.kids[j - 1]
  }

  /** The parent page with the new separator and child pointer put in. */
  function ParentPage(p: Node, i: nat, sep: Key, newId: PageId): Node
    requires p.InnerNode? && i <= |p.keys| && i + 1 <= |p.kids|
  {
    InnerNode(p.keys[..i] + [sep] + p.keys[i..], p.kids[..i + 1] + [newId] + p.kids[i + 1..])
  }

  /** A node page and its child page that can be split. */
  predicate Splittable(pages: Pages, parentId: PageId, i: nat) {
    && parentId in pages && pages[parentId].InnerNode?
    && i <= |pages[parentId].keys| && |pages[parentId].kids| == |pages[parentId].keys| + 1
    && var childId := pages[parentId].kids[i];
       && childId in pages && childId != parentId
       && match pages[childId]
          case LeafNode(es, _) => |es| >= 2
          case InnerNode(keys, kids) => |keys| >= 1 && |kids| == |keys| + 1
  }

  /** The pages after a split: the right half on a new page, the left half in place, the parent with one key more. */
  function SplitPages(pages: Pages, parentId: PageId, i: nat, newId: PageId): Pages
    requires Splittable(pages, parentId, i)
  {
    var parent := pages[parentId];
    var childId := parent.kids[i];
    var child := pages[childId];
    var mid := if child.LeafNode? then SplitPoint(child.es) else |child.keys| / 2;
    var separator := if child.LeafNode? then child.es[mid].key else child.keys[mid];
    pages[newId := RightPage(child, mid)][childId := LeftPage(child, newId, mid)][parentId := ParentPage(parent, i, separator, newId)]
  }

  /** After a split the pages hold the tree with the child replaced by its halves. */
  lemma {:induction false} SplitChildRep(a: Pages, b: Pages, t: Tree, i: nat, newId: PageId, nxt: PageId)
    requires t.Inner? && |t.kids| == |t.keys| + 1 && i < |t.kids|
    requires Apart(t) && newId !in Ids(t) && Rep(a, t, nxt)
    requires HalvesWritten(a, b, t.kids[i], newId, NextOf(t.kids, i, nxt))
    requires t.id in b && b[t.id] == ParentPage(a[t.id], i, Split(t.kids[i], newId).sep, newId)
    requires SameOn(a, b, Ids(t) - {t.id, t.kids[i].id})
    ensures Rep(b, SplitChild(t, i, newId), nxt)
  {
    var c := t.kids[i];
    IdsKid(t, i);
    assert SameOn(a, b, Ids(c) - {c.id});
    SplitRep(a, b, c, newId, NextOf(t.kids, i, nxt));
    SplitChildRoots(t, i, newId);
    var kids := SplitChild(t, i, newId).kids;
    forall j | 0 <= j < |kids| ensures Rep(b, kids[j], NextOf(kids, j, nxt)) {
      SplitChildNext(t, i, newId, j, nxt);
      if j != i && j != i + 1 {
        OtherKidRep(a, b, t, i, if j < i then j else j - 1, nxt);
      }
    }
  }

  lemma {:induction false} SplitChildRoots(t: Tree, i: nat, newId: PageId)
    requires t.Inner? && |t.kids| == |t.keys| + 1 && i < |t.kids| && CanSplit(t.kids[i])
    ensures Roots(SplitChild(t, i, newId).kids) == Roots(t.kids)[..i + 1] + [newId] + Roots(t.kids)[i + 1..]
  {
  }

  lemma {:induction false} SplitChildNext(t: Tree, i: nat, newId: PageId, j: nat, nxt: PageId)
    requires t.Inner? && |t.kids| == |t.keys| + 1 && i < |t.kids| && CanSplit(t.kids[i])
    requires j <= |t.kids|
    ensures var kids, s := SplitChild(t, i, newId).kids, Split(t.kids[i], newId);
            && kids[j] == KidAfterSplit(t, s, i, j)
            && NextOf(kids, j, nxt) ==
               if j == i then FirstLeaf(s.right) else NextOf(t.kids, if j < i then j else j - 1, nxt)
  {
    var kids, s := SplitChild(t, i, newId).kids, Split(t.kids[i], newId);
    if j + 1 < |kids| {
      assert kids[j + 1] == KidAfterSplit(t, s, i, j + 1);
    }
    assert FirstLeaf(s.left) == FirstLeaf(t.kids[i]);
  }

  lemma {:induction false} OtherKidRep(a: Pages, b: Pages, t: Tree, i: nat, o: nat, nxt: PageId)
    requires t.Inner? && i < |t.kids| && o < |t.kids| && o != i
    requires Apart(t) && Rep(a, t, nxt) && SameOn(a, b, Ids(t) - {t.id, t.kids[i].id})
    ensures Rep(b, t.kids[o], NextOf(t.kids, o, nxt))
  {
    IdsKid(t, o);
    IdInIds(t.kids[i]);
    KidsApart(t, o, i);
    RepFrame(a, b, t.kids[o], NextOf(t.kids, o, nxt));
  }
}
