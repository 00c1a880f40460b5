/** The chain of leaves: the in-order list of leaves, and positions in it. */
module BPlusTreeChain {
  import opened Types
  import opened BPlusTreeModel
  import opened BPlusTreeSearch
  import opened BPlusTreePages

  ghost function Leaves(t: Tree): seq<Tree> {
    match t
    case Leaf(_, _) => [t]
    case Inner(_, _, kids) => LeavesF(kids)
  }

  ghost function LeavesF(ts: seq<Tree>): seq<Tree> {
    if |ts| == 0 then [] else Leaves(ts[0]) + LeavesF(ts[1..])
  }

  lemma {:induction false} LeavesFAppend(a: seq<Tree>, b: seq<Tree>)
    ensures LeavesF(a + b) == LeavesF(a) + LeavesF(b)
  {
    if |a| == 0 {
      assert a + b == b;
    } else {
      assert (a + b)[1..] == a[1..] + b;
      LeavesFAppend(a[1..], b);
    }
  }

  lemma {:induction false} LeavesFSplit(ts: seq<Tree>, i: nat)
    requires i < |ts|
    ensures LeavesF(ts) == LeavesF(ts[..i]) + Leaves(ts[i]) + LeavesF(ts[i + 1..])
  {
    assert ts == ts[..i] + ([ts[i]] + ts[i + 1..]);
    LeavesFAppend(ts[..i], [ts[i]] + ts[i + 1..]);
    LeavesFAppend([ts[i]], ts[i + 1..]);
    assert [ts[i]][1..] == [];
  }

  /** The entries of a list of leaves, in order. */
  ghost function Cat(ls: seq<Tree>): seq<Entry>
    requires forall i :: 0 <= i < |ls| ==> ls[i].Leaf?
  {
    if |ls| == 0 then [] else ls[0].es + Cat(ls[1..])
  }

  lemma {:induction false} CatAppend(a: seq<Tree>, b: seq<Tree>)
    requires forall i :: 0 <= i < |a| ==> a[i].Leaf?
    requires forall i :: 0 <= i < |b| ==> b[i].Leaf?
    ensures Cat(a + b) == Cat(a) + Cat(b)
  {
    if |a| == 0 {
      assert a + b == b;
    } else {
      assert (a + b)[1..] == a[1..] + b;
      CatAppend(a[1..], b);
    }
  }

  /** Position of leaf `j` within the entries of the whole list. */
  lemma {:induction false} CatAt(ls: seq<Tree>, j: nat)
    requires forall i :: 0 <= i < |ls| ==> ls[i].Leaf?
    requires j < |ls|
    ensures Cat(ls) == Cat(ls[..j]) + ls[j].es + Cat(ls[j + 1..])
    ensures Cat(ls[..j + 1]) == Cat(ls[..j]) + ls[j].es
  {
    assert ls == ls[..j] + ([ls[j]] + ls[j + 1..]);
    CatAppend(ls[..j], [ls[j]] + ls[j + 1..]);
    CatAppend([ls[j]], ls[j + 1..]);
    assert [ls[j]][1..] == [];
    assert ls[..j + 1] == ls[..j] + [ls[j]];
    CatAppend(ls[..j], [ls[j]]);
  }

  lemma {:induction false} LeavesAreLeaves(t: Tree)
    ensures forall i :: 0 <= i < |Leaves(t)| ==> Leaves(t)[i].Leaf?
    decreases t, 0
  {
    if t.Inner? {
      LeavesFAreLeaves(t.kids);
    }
  }

  lemma {:induction false} LeavesFAreLeaves(ts: seq<Tree>)
    ensures forall i :: 0 <= i < |LeavesF(ts)| ==> LeavesF(ts)[i].Leaf?
    decreases ts, 1
  {
    if |ts| > 0 {
      LeavesAreLeaves(ts[0]);
      LeavesFAreLeaves(ts[1..]);
    }
  }

  lemma {:induction false} CatLeaves(t: Tree)
    ensures (forall i :: 0 <= i < |Leaves(t)| ==> Leaves(t)[i].Leaf?) && Cat(Leaves(t)) == Flat(t)
    decreases t, 0
  {
    LeavesAreLeaves(t);
    if t.Inner? {
      CatLeavesF(t.kids);
    } else {
      assert [t][1..] == [];
    }
  }

  lemma {:induction false} CatLeavesF(ts: seq<Tree>)
    ensures (forall i :: 0 <= i < |LeavesF(ts)| ==> LeavesF(ts)[i].Leaf?) && Cat(LeavesF(ts)) == FlatF(ts)
    decreases ts, 1
  {
    LeavesFAreLeaves(ts);
    if |ts| > 0 {
      CatLeaves(ts[0]);
      CatLeavesF(ts[1..]);
      CatAppend(Leaves(ts[0]), LeavesF(ts[1..]));
    }
  }

  /** A leaf page of the chain. */
  ghost predicate LinkAt(pages: Pages, ls: seq<Tree>, j: nat, nxt: PageId)
    requires j < |ls|
  {
    && ls[j].Leaf? && ls[j].id in pages
    && pages[ls[j].id] == LeafNode(ls[j].es, if j + 1 < |ls| then ls[j + 1].id else nxt)
  }

  /** The leaf pages are linked in order and the last one points to `nxt`. */
  ghost predicate Chain(pages: Pages, ls: seq<Tree>, nxt: PageId) {
    forall j :: 0 <= j < |ls| ==> LinkAt(pages, ls, j, nxt)
  }

  lemma {:induction false} ChainAppend(pages: Pages, a: seq<Tree>, b: seq<Tree>, nxt: PageId)
    requires |b| > 0 && Chain(pages, a, b[0].id) && Chain(pages, b, nxt)
    ensures Chain(pages, a + b, nxt)
  {
    forall j | 0 <= j < |a + b| ensures LinkAt(pages, a + b, j, nxt) {
      if j < |a| {
        assert LinkAt(pages, a, j, b[0].id);
      } else {
        assert LinkAt(pages, b, j - |a|, nxt);
      }
    }
  }

  /** The pages of a tree chain its leaves in order: the next-leaf links are the in-order list of leaves. */
  lemma {:induction false} RepChain(pages: Pages, t: Tree, h: nat, nxt: PageId)
    requires Rep(pages, t, nxt) && Shape(t, h)
    ensures |Leaves(t)| > 0 && Leaves(t)[0].id == FirstLeaf(t)
    ensures Chain(pages, Leaves(t), nxt)
    decreases h, 0
  {
    if h > 0 {
      RepAllChain(pages, t.kids, h - 1, nxt);
    }
  }

  lemma {:induction false} RepAllChain(pages: Pages, ts: seq<Tree>, h: nat, nxt: PageId)
    requires |ts| > 0 && RepAll(pages, ts, nxt)
    requires forall i :: 0 <= i < |ts| ==> Shape(ts[i], h)
    ensures |LeavesF(ts)| > 0 && LeavesF(ts)[0].id == FirstLeaf(ts[0])
    ensures Chain(pages, LeavesF(ts), nxt)
    decreases h, |ts|
  {
    RepChain(pages, ts[0], h, NextOf(ts, 0, nxt));
    var rest := ts[1..];
    if |rest| == 0 {
      assert LeavesF(ts) == Leaves(ts[0]);
    } else {
      forall i | 0 <= i < |rest| ensures Rep(pages, rest[i], NextOf(rest, i, nxt)) {
        assert rest[i] == ts[i + 1] && NextOf(rest, i, nxt) == NextOf(ts, i + 1, nxt);
      }
      RepAllChain(pages, rest, h, nxt);
      ChainAppend(pages, Leaves(ts[0]), LeavesF(rest), nxt);
    }
  }

  /** The position in the leaf list of the leaf a key is routed to. */
  ghost function LeafIndex(t: Tree, k: Key): nat {
    match t
    case Leaf(_, _) => 0
    case Inner(_, keys, kids) =>
      var i := Route(keys, k);
      if i < |kids| then |LeavesF(kids[..i])| + LeafIndex(kids[i], k) else 0
  }

  /** The leaf list splits at that position into what a search skips and what it visits. */
  lemma {:induction false} LeafIndexSplits(t: Tree, h: nat, k: Key)
    requires Shape(t, h)
    ensures LeafIndex(t, k) < |Leaves(t)|
    ensures forall i :: 0 <= i < |Leaves(t)| ==> Leaves(t)[i].Leaf?
    ensures Cat(Leaves(t)[..LeafIndex(t, k)]) == Before(t, k)
    ensures Cat(Leaves(t)[LeafIndex(t, k)..]) == From(t, k)
    decreases h
  {
    LeavesAreLeaves(t);
    if h == 0 {
      assert [t][0..] == [t] && [t][1..] == [];
    } else {
      var i := Route(t.keys, k);
      var c := t.kids[i];
      LeavesFSplit(t.kids, i);
      LeafIndexSplits(c, h - 1, k);
      CatLeavesF(t.kids[..i]);
      CatLeavesF(t.kids[i + 1..]);
      CatAround(LeavesF(t.kids[..i]), Leaves(c), LeavesF(t.kids[i + 1..]), LeafIndex(c, k));
    }
  }

  /** Cutting a list of leaves within its middle part. */
  lemma {:induction false} CatAround(a: seq<Tree>, m: seq<Tree>, b: seq<Tree>, n: nat)
    requires forall i :: 0 <= i < |a| ==> a[i].Leaf?
    requires forall i :: 0 <= i < |m| ==> m[i].Leaf?
    requires forall i :: 0 <= i < |b| ==> b[i].Leaf?
    requires n <= |m|
    ensures var w := a + m + b;
            && Cat(w[..|a| + n]) == Cat(a) + Cat(m[..n])
            && Cat(w[|a| + n..]) == Cat(m[n..]) + Cat(b)
  {
    var w := a + m + b;
    assert w[..|a| + n] == a + m[..n];
    assert w[|a| + n..] == m[n..] + b;
    CatAppend(a, m[..n]);
    CatAppend(m[n..], b);
  }

  /* ---------- Insertion ---------- */

  /** What an insertion does to page numbers: the old ones stay, new ones come from the counter. */
  ghost predicate GrowsFrom(t: Tree, t2: Tree, next: PageId, n: PageId) {
    && next <= n
    && t2.id == t.id && FirstLeaf(t2) == FirstLeaf(t)
    && Apart(t2) && Ids(t) <= Ids(t2)
    && forall x :: x in Ids(t2) ==> x in Ids(t) || next <= x < n
  }

  lemma {:induction false} InsertIds(t: Tree, h: nat, e: Entry, next: PageId)
    requires Shape(t, h) && !Full(t) && Apart(t) && Allocated(t, next)
    ensures GrowsFrom(t, InsertNonFull(t, h, e, next).0, next, InsertNonFull(t, h, e, next).1)
    decreases h, 2
  {
    if h > 0 {
      if Full(t.kids[Route(t.keys, e.key)]) {
        InsertSplitIds(t, h, e, next);
      } else {
        InsertBelowIds(t, h, e, next);
      }
    }
  }

  /** After the split of a full child the node is ready for the insertion to go on. */
  lemma {:induction false} SplitReady(t: Tree, h: nat, e: Entry, next: PageId)
    requires h > 0 && KidsShape(t, h) && !Full(t) && Apart(t) && Allocated(t, next)
    requires Full(t.kids[Route(t.keys, e.key)])
    ensures var t2 := SplitChild(t, Route(t.keys, e.key), next);
            && Shape(t2, h) && !Full(t2.kids[Route(t2.keys, e.key)])
            && Apart(t2) && Allocated(t2, next + 1)
            && Ids(t2) == Ids(t) + {next} && t2.id == t.id && FirstLeaf(t2) == FirstLeaf(t)
  {
    var i := Route(t.keys, e.key);
    SplitChildShape(t, h, i, next);
    SplitChildRoute(t, h, i, next, e.key);
    SplitChildIds(t, i, next);
    assert 0 <= next by {
      IdInIds(t);
    }
  }

  lemma {:induction false} InsertSplitIds(t: Tree, h: nat, e: Entry, next: PageId)
    requires h > 0 && Shape(t, h) && !Full(t) && Apart(t) && Allocated(t, next)
    requires Full(t.kids[Route(t.keys, e.key)])
    ensures GrowsFrom(t, InsertNonFull(t, h, e, next).0, next, InsertNonFull(t, h, e, next).1)
    decreases h, 1
  {
    SplitReady(t, h, e, next);
    var t2 := SplitChild(t, Route(t.keys, e.key), next);
    InsertBelowIds(t2, h, e, next + 1);
    GrowsAfterSplit(t, t2, InsertBelow(t2, h, e, next + 1).0, next, InsertBelow(t2, h, e, next + 1).1);
  }

  lemma {:induction false} GrowsAfterSplit(t: Tree, t2: Tree, t3: Tree, next: PageId, n: PageId)
    requires Ids(t2) == Ids(t) + {next} && t2.id == t.id && FirstLeaf(t2) == FirstLeaf(t)
    requires GrowsFrom(t2, t3, next + 1, n)
    ensures GrowsFrom(t, t3, next, n)
  {
  }

  lemma {:induction false} InsertBelowIds(t: Tree, h: nat, e: Entry, next: PageId)
    requires h > 0 && Shape(t, h) && !Full(t.kids[Route(t.keys, e.key)])
    requires Apart(t) && Allocated(t, next)
    ensures GrowsFrom(t, InsertBelow(t, h, e, next).0, next, InsertBelow(t, h, e, next).1)
    decreases h, 0
  {
    var i := Route(t.keys, e.key);
    IdsKid(t, i);
    InsertIds(t.kids[i], h - 1, e, next);
    var (c, n) := InsertNonFull(t.kids[i], h - 1, e, next);
    WithKidIds(t, i, c, next, n);
  }

  lemma {:induction false} WithKidIds(t: Tree, i: nat, c: Tree, next: PageId, n: PageId)
    requires t.Inner? && i < |t.kids| && Apart(t)
    requires forall x :: x in Ids(t) ==> x < next
    requires GrowsFrom(t.kids[i], c, next, n)
    ensures GrowsFrom(t, WithKid(t, i, c), next, n)
  {
    var kids := t.kids[i := c];
    assert kids[..i] == t.kids[..i] && kids[i + 1..] == t.kids[i + 1..];
    IdsFSplit(t.kids, i);
    IdsFSplit(kids, i);
    IdsKid(t, i);
    IdInIds(t);
    var t2 := WithKid(t, i, c);
    forall x | x in Ids(t2) ensures x in Ids(t) || next <= x < n {
      assert x == t.id || x in IdsF(kids);
    }
    var l, r := IdsF(kids[..i]), IdsF(kids[i + 1..]);
    assert l <= Ids(t) && r <= Ids(t);
    assert ApartF(t.kids);
    assert l !! Ids(t.kids[i]) !! r;
    forall x | x in l + r ensures x !in Ids(c) {
      assert x in Ids(t) && x !in Ids(t.kids[i]);
    }
    assert l !! Ids(c) !! r;
    assert ApartF(kids);
    assert FirstLeaf(t2) == FirstLeaf(t);
  }

  /* ---------- Deletion ---------- */

  /** The child and the leaf holding a position: entry `i` of leaf `j`. */
  lemma {:induction false} KidAtLeaf(ts: seq<Tree>, p: nat, j: nat, i: nat) returns (d: nat)
    requires forall x :: 0 <= x < |LeavesF(ts)| ==> LeavesF(ts)[x].Leaf?
    requires j < |LeavesF(ts)| && i < |LeavesF(ts)[j].es|
    requires p == |Cat(LeavesF(ts)[..j])| + i
    requires p < |FlatF(ts)|
    ensures var (c, q) := KidAt(ts, p);
            && j == |LeavesF(ts[..c])| + d && d < |Leaves(ts[c])|
            && (forall x :: 0 <= x < |Leaves(ts[c])| ==> Leaves(ts[c])[x].Leaf?)
            && Leaves(ts[c])[d] == LeavesF(ts)[j]
            && q == |Cat(Leaves(ts[c])[..d])| + i
  {
    var first, rest := Leaves(ts[0]), LeavesF(ts[1..]);
    CatLeaves(ts[0]);
    CatLeavesF(ts[1..]);
    CatAcross(first, rest, j);
    if j < |first| {
      d := j;
      assert ts[..0] == [];
    } else {
      var q := p - |Flat(ts[0])|;
      d := KidAtLeaf(ts[1..], q, j - |first|, i);
      var c := KidAt(ts[1..], q).0;
      assert ts[..c + 1][1..] == ts[1..][..c];
    }
  }

  /** Where leaf `j` of two lists put together begins. */
  lemma {:induction false} CatAcross(a: seq<Tree>, b: seq<Tree>, j: nat)
    requires forall i :: 0 <= i < |a| ==> a[i].Leaf?
    requires forall i :: 0 <= i < |b| ==> b[i].Leaf?
    requires j < |a + b|
    ensures forall i :: 0 <= i < |a + b| ==> (a + b)[i].Leaf?
    ensures j < |a| ==> (a + b)[..j] == a[..j] && |Cat(a[..j])| + |a[j].es| <= |Cat(a)|
    ensures j >= |a| ==>
              && |Cat((a + b)[..j])| == |Cat(a)| + |Cat(b[..j - |a|])|
              && |Cat(b[..j - |a|])| + |b[j - |a|].es| <= |Cat(b)|
  {
    if j < |a| {
      assert (a + b)[..j] == a[..j];
      CatAt(a, j);
    } else {
      assert (a + b)[..j] == a + b[..j - |a|];
      CatAppend(a, b[..j - |a|]);
      CatAt(b, j - |a|);
    }
  }

  /** Rewriting one leaf page removes the entry from the tree the pages hold. */
  lemma {:induction false} RemoveRep(a: Pages, b: Pages, t: Tree, h: nat, nxt: PageId, p: nat, j: nat, i: nat)
    requires Rep(a, t, nxt) && Apart(t) && Shape(t, h)
    requires forall x :: 0 <= x < |Leaves(t)| ==> Leaves(t)[x].Leaf?
    requires j < |Leaves(t)| && i < |Leaves(t)[j].es|
    requires p == |Cat(Leaves(t)[..j])| + i && p < |Flat(t)|
    requires var l := Leaves(t)[j]; l.id in a && a[l.id].LeafNode? && b == a[l.id := LeafNode(Without(l.es, i), a[l.id].next)]
    ensures Rep(b, RemoveAt(t, p), nxt)
    ensures RemoveAt(t, p).id == t.id && FirstLeaf(RemoveAt(t, p)) == FirstLeaf(t)
    ensures Ids(RemoveAt(t, p)) == Ids(t) && Apart(RemoveAt(t, p))
    ensures Leaves(t)[j].id in Ids(t)
    decreases h
  {
    if h == 0 {
      assert Leaves(t) == [t];
      assert [t][..0] == [];
    } else {
      var (c, q) := KidAt(t.kids, p);
      var d := KidAtLeaf(t.kids, p, j, i);
      var kid := t.kids[c];
      IdsKid(t, c);
      RemoveRep(a, b, kid, h - 1, NextOf(t.kids, c, nxt), q, d, i);
      var r := RemoveAt(kid, q);
      RepWithKid(a, b, t, c, r, nxt);
      SameIdsKid(t, c, r);
    }
  }

  lemma {:induction false} SameIdsKid(t: Tree, i: nat, c: Tree)
    requires t.Inner? && i < |t.kids| && Apart(t) && Ids(c) == Ids(t.kids[i]) && Apart(c)
    ensures Ids(WithKid(t, i, c)) == Ids(t) && Apart(WithKid(t, i, c))
  {
    var kids := t.kids[i := c];
    assert kids[..i] == t.kids[..i] && kids[i + 1..] == t.kids[i + 1..];
    IdsFSplit(t.kids, i);
    IdsFSplit(kids, i);
  }
}
