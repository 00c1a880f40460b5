/** The chain of leaf pages has no cycle: following the links visits every leaf page once, in order, and ends. */
module BPlusTreeAcyclic {
  import opened Types
  import opened BPlusTreeModel
  import opened BPlusTreeSearch
  import opened BPlusTreePages
  import opened BPlusTreeChain
  import Runs = BPlusTreeRuns
  import B = BPlusTree

  predicate DistinctPages(ls: seq<Tree>) {
    forall i, j :: 0 <= i < j < |ls| ==> ls[i].id != ls[j].id
  }

  /** Nodes on pages of their own make leaves on pages of their own. */
  lemma {:induction false} LeavesDistinct(t: Tree)
    requires Apart(t)
    ensures DistinctPages(Leaves(t)) && forall i :: 0 <= i < |Leaves(t)| ==> Leaves(t)[i].id in Ids(t)
    decreases t, 0
  {
    if t.Inner? {
      LeavesDistinctF(t.kids);
    }
  }

  lemma {:induction false} LeavesDistinctF(ts: seq<Tree>)
    requires ApartF(ts)
    ensures DistinctPages(LeavesF(ts)) && forall i :: 0 <= i < |LeavesF(ts)| ==> LeavesF(ts)[i].id in IdsF(ts)
    decreases ts, 1
  {
    if |ts| > 0 {
      LeavesDistinct(ts[0]);
      LeavesDistinctF(ts[1..]);
      var a, b := Leaves(ts[0]), LeavesF(ts[1..]);
      var all := LeavesF(ts);
      assert all == a + b;
      forall i, j | 0 <= i < j < |all| ensures all[i].id != all[j].id {
        if i < |a| <= j {
          assert a[i].id in Ids(ts[0]) && b[j - |a|].id in IdsF(ts[1..]);
        }
      }
    }
  }

  /** The page reached from `id` by following `n` links. */
  ghost function Follow(pages: Pages, id: PageId, n: nat): PageId {
    if n == 0 then id
    else
      var p := Follow(pages, id, n - 1);
      if p in pages && pages[p].LeafNode? then pages[p].next else INVALID_PAGE
  }

  lemma {:induction false} FollowChain(pages: Pages, ls: seq<Tree>, n: nat)
    requires |ls| > 0 && Chain(pages, ls, INVALID_PAGE) && n <= |ls|
    ensures Follow(pages, ls[0].id, n) == if n < |ls| then ls[n].id else INVALID_PAGE
  {
    if n > 0 {
      FollowChain(pages, ls, n - 1);
      assert LinkAt(pages, ls, n - 1, INVALID_PAGE);
    }
  }

  /** From the first leaf on, every leaf page is reached once, in order, and then the end. */
  ghost predicate Acyclic(pages: Pages, t: Tree) {
    var n := |Leaves(t)|;
    && (forall i :: 0 <= i < n ==> Follow(pages, FirstLeaf(t), i) == Leaves(t)[i].id)
    && Follow(pages, FirstLeaf(t), n) == INVALID_PAGE
    && forall i, j :: 0 <= i < j <= n ==> Follow(pages, FirstLeaf(t), i) != Follow(pages, FirstLeaf(t), j)
  }

  lemma {:induction false} ChainAcyclic(pages: Pages, t: Tree, h: nat, next: PageId)
    requires Shape(t, h) && Apart(t) && Allocated(t, next) && Rep(pages, t, INVALID_PAGE)
    ensures Acyclic(pages, t)
  {
    RepChain(pages, t, h, INVALID_PAGE);
    LeavesDistinct(t);
    var ls := Leaves(t);
    forall i | 0 <= i <= |ls| ensures Follow(pages, FirstLeaf(t), i) == if i < |ls| then ls[i].id else INVALID_PAGE {
      FollowChain(pages, ls, i);
    }
  }

  /** Every index that its operations leave in order has an acyclic leaf chain. */
  lemma {:induction false} TreeAcyclic(tree: B.BPlusTree)
    requires tree.Valid()
    ensures Acyclic(tree.pages, tree.tree)
  {
    ChainAcyclic(tree.pages, tree.tree, tree.height, tree.nextId);
  }

  /* ---------- Over every run ---------- */

  ghost predicate OnOwnPages(s: State) {
    WellShaped(s) && Weak(s.tree) && Apart(s.tree) && Allocated(s.tree, s.next)
  }

  lemma {:induction false} RemoveAtIds(t: Tree, p: nat)
    requires p < |Flat(t)| && Apart(t)
    ensures Ids(RemoveAt(t, p)) == Ids(t) && Apart(RemoveAt(t, p))
    decreases t
  {
    if t.Inner? {
      var (i, q) := KidAt(t.kids, p);
      KidAtOffset(t.kids, p);
      IdsKid(t, i);
      RemoveAtIds(t.kids[i], q);
      SameIdsKid(t, i, RemoveAt(t.kids[i], q));
    }
  }

  lemma {:induction false} StepOnOwnPages(s: State, op: Runs.Op)
    requires OnOwnPages(s)
    ensures OnOwnPages(Runs.Step(s, op))
  {
    Runs.StepKeeps(s, op);
    if op.Ins? {
      var r := B.InsertResult(s, op.e);
    } else {
      var p := DeletePos(s.tree, op.e);
      if p.Some? {
        RemoveAtIds(s.tree, p.value);
      }
    }
  }

  lemma {:induction false} RunOnOwnPages(s: State, ops: seq<Runs.Op>)
    requires OnOwnPages(s)
    ensures OnOwnPages(Runs.Run(s, ops))
    decreases |ops|
  {
    if |ops| > 0 {
      RunOnOwnPages(s, ops[..|ops| - 1]);
      StepOnOwnPages(Runs.Run(s, ops[..|ops| - 1]), ops[|ops| - 1]);
    }
  }

  /** After every run of insertions and deletions, the pages that hold the tree chain its leaves without a cycle. */
  lemma {:induction false} RunAcyclic(s: State, ops: seq<Runs.Op>, pages: Pages)
    requires OnOwnPages(s) && Rep(pages, Runs.Run(s, ops).tree, INVALID_PAGE)
    ensures Acyclic(pages, Runs.Run(s, ops).tree)
  {
    RunOnOwnPages(s, ops);
    var r := Runs.Run(s, ops);
    ChainAcyclic(pages, r.tree, r.height, r.next);
  }
}
