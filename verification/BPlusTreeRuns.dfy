/** What holds of the B+Tree index after every run of insertions and deletions. */
module BPlusTreeRuns {
  import opened Types
  import opened BPlusTreeModel
  import opened BPlusTreeSearch

  /* ---------- One insertion ---------- */

  lemma {:induction false} GrowRootKeeps(s: State, strict: bool)
    requires WellShaped(s) && Full(s.tree) && Ord(s.tree, None, None, strict)
    requires strict && s.tree.Leaf? ==> !Uniform(s.tree.es)
    ensures Ord(GrowRoot(s).tree, None, None, strict)
  {
    var root := Inner(s.next, [], [s.tree]);
    assert Ord(root, None, None, strict);
    SplitChildOrd(root, 0, s.next + 1, None, None, strict);
  }

  lemma {:induction false} GrowRootFlat(s: State)
    requires WellShaped(s) && Full(s.tree)
    ensures Flat(GrowRoot(s).tree) == Flat(s.tree)
  {
    var root := Inner(s.next, [], [s.tree]);
    SplitChildFlat(root, s.height + 1, 0, s.next + 1);
    FlatFOne(s.tree);
  }

  /** A key is routed to the same leaf once a full node has been split below a new root, or to half of a full leaf. */
  lemma {:induction false} NewRootLeafFor(c: Tree, h: nat, id: PageId, k: Key)
    requires Shape(c, h) && Full(c) && (c.Inner? ==> SortedKeys(c.keys))
    ensures CanSplit(c)
    ensures var leaf := LeafFor(SplitChild(Inner(id, [], [c]), 0, id + 1), k);
            if c.Leaf? then |leaf| < LEAF_MAX else leaf == LeafFor(c, k)
  {
    var root := Inner(id, [], [c]);
    SplitLeafFor(root, h + 1, 0, id + 1, k);
  }

  lemma {:induction false} GrowRootLeafFor(s: State, k: Key)
    requires WellShaped(s) && Full(s.tree) && (s.tree.Inner? ==> SortedKeys(s.tree.keys))
    ensures var leaf := LeafFor(GrowRoot(s).tree, k);
            if s.tree.Leaf? then |leaf| < LEAF_MAX else leaf == LeafFor(s.tree, k)
  {
    NewRootLeafFor(s.tree, s.height, s.next, k);
  }

  /**
   Insertion adds exactly one entry, moves no other, keeps all leaves at one depth and the
   keys in order, without any restriction on duplicates.
   */
  lemma {:induction false} InsertKeeps(s: State, e: Entry)
    requires WellShaped(s) && Weak(s.tree)
    ensures WellShaped(Insert(s, e)) && Weak(Insert(s, e).tree)
    ensures OneMore(Flat(s.tree), Flat(Insert(s, e).tree), e)
    ensures Sorted(Flat(Insert(s, e).tree))
  {
    if Full(s.tree) {
      GrowRootKeeps(s, false);
      GrowRootFlat(s);
    }
    var g := if Full(s.tree) then GrowRoot(s) else s;
    InsertNonFullShape(g.tree, g.height, e, g.next);
    InsertNonFullOrd(g.tree, g.height, e, g.next, None, None, false);
    InsertNonFullFlat(g.tree, g.height, e, g.next);
    OrdFlat(Insert(s, e).tree, None, None, false);
  }

  /** Some separator of the tree is not strict. */
  ghost predicate Loose(t: Tree, lo: Option<Key>, hi: Option<Key>) {
    !Ord(t, lo, hi, true)
  }

  /** A leaf that holds the key of its upper separator makes that separator loose. */
  lemma {:induction false} LooseLeaf(t: Tree, x: nat, lo: Option<Key>, k: Key)
    requires t.Leaf? && x < |t.es| && t.es[x].key == k
    ensures Loose(t, lo, Some(k))
  {
  }

  lemma {:induction false} LooseBelow(t: Tree, i: nat, lo: Option<Key>, hi: Option<Key>)
    requires t.Inner? && |t.kids| == |t.keys| + 1 && i < |t.kids|
    requires Loose(t.kids[i], LoOf(t.keys, lo, i), HiOf(t.keys, hi, i))
    ensures Loose(t, lo, hi)
  {
  }

  /** The left half of a full leaf of one key, with or without one more entry, holds the key of the separator. */
  lemma {:induction false} HalfHoldsKey(c: Tree, e: Entry, next: PageId) returns (x: nat, y: nat)
    requires Shape(c, 0) && Full(c) && Uniform(c.es)
    ensures CanSplit(c)
    ensures var s := Split(c, next);
            var more := InsertNonFull(s.left, 0, e, next + 1).0;
            && s.left.Leaf? && x < |s.left.es| && s.left.es[x].key == s.sep
            && more.Leaf? && y < |more.es| && more.es[y].key == s.sep
  {
    var m := SplitPoint(c.es);
    assert c.es[0].key == c.es[m].key;
    x := 0;
    y := if LeafPos(c.es[..m], e.key) == 0 then 1 else 0;
  }

  /** Cutting a leaf of one key leaves that key on both sides of its separator. */
  lemma {:induction false} CutUniformLeaf(t: Tree, h: nat, e: Entry, next: PageId, lo: Option<Key>, hi: Option<Key>)
    requires h > 0 && KidsShape(t, h) && !Full(t)
    requires var c := t.kids[Route(t.keys, e.key)]; c.Leaf? && Full(c) && Uniform(c.es)
    ensures var t2 := SplitChild(t, Route(t.keys, e.key), next);
            var j := Route(t2.keys, e.key);
            Shape(t2, h) && !Full(t2.kids[j]) && Loose(InsertBelow(t2, h, e, next + 1).0, lo, hi)
  {
    var i := Route(t.keys, e.key);
    var c := t.kids[i];
    assert Shape(c, h - 1);
    SplitChildShape(t, h, i, next);
    SplitChildRoute(t, h, i, next, e.key);
    var x, y := HalfHoldsKey(c, e, next);
    var t2 := SplitChild(t, i, next);
    var j := Route(t2.keys, e.key);
    var r := InsertBelow(t2, h, e, next + 1).0;
    assert r == WithKid(t2, j, InsertNonFull(t2.kids[j], h - 1, e, next + 1).0);
    LooseLeaf(r.kids[i], if j == i then y else x, LoOf(t2.keys, lo, i), t2.keys[i]);
    LooseBelow(r, i, lo, hi);
  }

  /** An insertion routed to a full leaf of one key makes a separator loose. */
  lemma {:induction false} StuckLoosens(t: Tree, h: nat, e: Entry, next: PageId, lo: Option<Key>, hi: Option<Key>)
    requires Shape(t, h) && !Full(t) && Ord(t, lo, hi, true) && Stuck(t, e.key)
    ensures Loose(InsertNonFull(t, h, e, next).0, lo, hi)
    decreases h, 1
  {
    var i := Route(t.keys, e.key);
    var c := t.kids[i];
    assert Shape(c, h - 1);
    assert LeafFor(t, e.key) == LeafFor(c, e.key);
    if !Full(c) {
      StuckBelowLoosens(t, h, e, next, lo, hi);
    } else if c.Leaf? {
      CutUniformLeaf(t, h, e, next, lo, hi);
    } else {
      assert Ord(c, LoOf(t.keys, lo, i), HiOf(t.keys, hi, i), true);
      SplitChildShape(t, h, i, next);
      SplitChildRoute(t, h, i, next, e.key);
      SplitChildOrd(t, i, next, lo, hi, true);
      SplitLeafFor(t, h, i, next, e.key);
      StuckBelowLoosens(SplitChild(t, i, next), h, e, next + 1, lo, hi);
    }
  }

  lemma {:induction false} StuckBelowLoosens(t: Tree, h: nat, e: Entry, next: PageId, lo: Option<Key>, hi: Option<Key>)
    requires h > 0 && Shape(t, h) && Ord(t, lo, hi, true)
    requires var c := t.kids[Route(t.keys, e.key)]; !Full(c) && Stuck(c, e.key)
    ensures Loose(InsertBelow(t, h, e, next).0, lo, hi)
    decreases h, 0
  {
    var i := Route(t.keys, e.key);
    StuckLoosens(t.kids[i], h - 1, e, next, LoOf(t.keys, lo, i), HiOf(t.keys, hi, i));
    var c := InsertNonFull(t.kids[i], h - 1, e, next).0;
    assert InsertBelow(t, h, e, next).0 == WithKid(t, i, c);
    LooseKid(t, i, c, lo, hi);
  }

  lemma {:induction false} LooseKid(t: Tree, i: nat, c: Tree, lo: Option<Key>, hi: Option<Key>)
    requires t.Inner? && |t.kids| == |t.keys| + 1 && i < |t.kids|
    requires Loose(c, LoOf(t.keys, lo, i), HiOf(t.keys, hi, i))
    ensures Loose(WithKid(t, i, c), lo, hi)
  {
    assert t.kids[i := c][i] == c;
  }

  lemma {:induction false} CutUniformRoot(s: State, e: Entry)
    requires WellShaped(s) && s.tree.Leaf? && Full(s.tree) && Uniform(s.tree.es)
    ensures !Strict(Insert(s, e).tree)
  {
    var root := Inner(s.next, [], [s.tree]);
    CutUniformLeaf(root, s.height + 1, e, s.next + 1, None, None);
    var g := GrowRoot(s);
    assert g.tree == SplitChild(root, 0, s.next + 1);
    assert InsertNonFull(g.tree, g.height, e, g.next) == InsertBelow(g.tree, g.height, e, g.next);
  }

  lemma {:induction false} InsertNonFullStrictIff(s: State, e: Entry)
    requires WellShaped(s) && Strict(s.tree) && !Full(s.tree)
    ensures Strict(InsertNonFull(s.tree, s.height, e, s.next).0) <==> !Stuck(s.tree, e.key)
  {
    if Stuck(s.tree, e.key) {
      StuckLoosens(s.tree, s.height, e, s.next, None, None);
    } else {
      InsertNonFullOrd(s.tree, s.height, e, s.next, None, None, true);
    }
  }

  /**
   An insertion keeps separators strict if and only if the leaf its key goes to is not a
   full leaf of a single key: the one case in which the split has to fall back to the middle.
   */
  lemma {:induction false} InsertStrictIff(s: State, e: Entry)
    requires WellShaped(s) && Strict(s.tree)
    ensures Strict(Insert(s, e).tree) <==> !Stuck(s.tree, e.key)
  {
    if !Full(s.tree) {
      InsertNonFullStrictIff(s, e);
    } else if s.tree.Leaf? && Uniform(s.tree.es) {
      CutUniformRoot(s, e);
    } else {
      GrowRootLeafFor(s, e.key);
      GrowRootKeeps(s, true);
      InsertNonFullStrictIff(GrowRoot(s), e);
    }
  }

  /* ---------- Few duplicates ---------- */

  ghost function Count(t: Tree, k: Key): nat {
    |Matches(Flat(t), k)|
  }

  ghost predicate FewDuplicates(t: Tree) {
    forall k :: Count(t, k) < LEAF_MAX
  }

  lemma {:induction false} MatchesUniform(es: seq<Entry>, k: Key)
    requires forall i :: 0 <= i < |es| ==> es[i].key == k
    ensures |Matches(es, k)| == |es|
  {
    if |es| > 0 {
      MatchesUniform(es[1..], k);
    }
  }

  /** The leaf a key is routed to is a contiguous part of the contents. */
  lemma {:induction false} LeafForWithin(t: Tree, h: nat, k: Key) returns (a: seq<Entry>, b: seq<Entry>)
    requires Shape(t, h)
    ensures Flat(t) == a + LeafFor(t, k) + b
    decreases h
  {
    if h == 0 {
      a, b := [], [];
    } else {
      var i := Route(t.keys, k);
      a, b := LeafForWithin(t.kids[i], h - 1, k);
      FlatFSplit(t.kids, i);
      a, b := FlatF(t.kids[..i]) + a, b + FlatF(t.kids[i + 1..]);
    }
  }

  lemma {:induction false} StuckMeansMany(s: State, k: Key)
    requires WellShaped(s) && Stuck(s.tree, k)
    ensures Count(s.tree, LeafFor(s.tree, k)[0].key) >= LEAF_MAX
  {
    var leaf := LeafFor(s.tree, k);
    var a, b := LeafForWithin(s.tree, s.height, k);
    var dup := leaf[0].key;
    MatchesUniform(leaf, dup);
    MatchesAppend(a + leaf, b, dup);
    MatchesAppend(a, leaf, dup);
  }

  /** While no key has as many entries as a leaf holds, no insertion is stuck. */
  lemma {:induction false} FewDuplicatesNotStuck(s: State, k: Key)
    requires WellShaped(s) && FewDuplicates(s.tree)
    ensures !Stuck(s.tree, k)
  {
    if Stuck(s.tree, k) {
      StuckMeansMany(s, k);
    }
  }

  /* ---------- Runs ---------- */

  datatype Op = Ins(e: Entry) | Del(e: Entry)

  ghost function Step(s: State, op: Op): (r: State)
    requires WellShaped(s)
    ensures WellShaped(r)
  {
    match op
    case Ins(e) =>
      var g := if Full(s.tree) then GrowRoot(s) else s;
      InsertNonFullShape(g.tree, g.height, e, g.next);
      Insert(s, e)
    case Del(e) => Delete(s, e)
  }

  /** The tree after a run. */
  ghost function Run(s: State, ops: seq<Op>): (r: State)
    requires WellShaped(s)
    ensures WellShaped(r)
    decreases |ops|
  {
    if |ops| == 0 then s
    else Step(Run(s, ops[..|ops| - 1]), ops[|ops| - 1])
  }

  function EntriesStep(m: multiset<Entry>, op: Op): multiset<Entry> {
    match op
    case Ins(e) => m + multiset{e}
    case Del(e) => m - multiset{e}
  }

  /** The same run on the plain collection of entries the index stands for. */
  ghost function Entries(m: multiset<Entry>, ops: seq<Op>): multiset<Entry>
    decreases |ops|
  {
    if |ops| == 0 then m else EntriesStep(Entries(m, ops[..|ops| - 1]), ops[|ops| - 1])
  }

  /** No key has 292 entries when an insertion of the run starts. */
  ghost predicate FewDuplicatesRun(s: State, ops: seq<Op>)
    requires WellShaped(s)
  {
    forall n :: 0 <= n < |ops| && ops[n].Ins? ==> FewDuplicates(Run(s, ops[..n]).tree)
  }

  lemma {:induction false} WithoutMultiset(es: seq<Entry>, p: nat)
    requires p < |es|
    ensures multiset(Without(es, p)) == multiset(es) - multiset{es[p]}
  {
    assert es == es[..p] + [es[p]] + es[p + 1..];
  }

  lemma {:induction false} DeleteKeeps(s: State, e: Entry, strict: bool)
    requires WellShaped(s) && Ord(s.tree, None, None, strict)
    ensures Ord(Delete(s, e).tree, None, None, strict)
    ensures match DeletePos(s.tree, e)
            case None => Delete(s, e) == s
            case Some(p) => Flat(Delete(s, e).tree) == Without(Flat(s.tree), p)
  {
    match DeletePos(s.tree, e) {
      case None =>
      case Some(p) =>
        RemoveAtOrd(s.tree, p, None, None, strict);
        RemoveAtFlat(s.tree, p);
    }
  }

  /** One step keeps the weak order; insertions add one entry, deletions remove it or nothing. */
  lemma {:induction false} StepKeeps(s: State, op: Op)
    requires WellShaped(s) && Weak(s.tree)
    ensures Weak(Step(s, op).tree)
    ensures var m, m2 := multiset(Flat(s.tree)), multiset(Flat(Step(s, op).tree));
            match op
            case Ins(e) => m2 == m + multiset{e}
            case Del(e) => m2 == m || (e in m && m2 == m - multiset{e})
  {
    match op {
      case Ins(e) =>
        InsertKeeps(s, e);
        OneMoreMultiset(Flat(s.tree), Flat(Insert(s, e).tree), e);
      case Del(e) =>
        DeleteKeeps(s, e, false);
        var p := DeletePos(s.tree, e);
        if p.Some? {
          WithoutMultiset(Flat(s.tree), p.value);
        }
    }
  }

  /** Every reachable tree is balanced, within capacity and in key order. */
  lemma {:induction false} RunKeepsOrder(s: State, ops: seq<Op>)
    requires WellShaped(s) && Weak(s.tree)
    ensures WellShaped(Run(s, ops)) && Weak(Run(s, ops).tree) && Sorted(Flat(Run(s, ops).tree))
    decreases |ops|
  {
    if |ops| > 0 {
      RunKeepsOrder(s, ops[..|ops| - 1]);
      StepKeeps(Run(s, ops[..|ops| - 1]), ops[|ops| - 1]);
    }
    OrdFlat(Run(s, ops).tree, None, None, false);
  }

  /** With few duplicates one step keeps separators strict and does to the entries what it says. */
  lemma {:induction false} StepKeepsStrict(s: State, op: Op)
    requires WellShaped(s) && Strict(s.tree) && (op.Ins? ==> FewDuplicates(s.tree))
    ensures Strict(Step(s, op).tree)
    ensures multiset(Flat(Step(s, op).tree)) == EntriesStep(multiset(Flat(s.tree)), op)
  {
    match op {
      case Ins(e) =>
        StrictImpliesWeak(s.tree, None, None);
        StepKeeps(s, op);
        FewDuplicatesNotStuck(s, e.key);
        InsertStrictIff(s, e);
      case Del(e) =>
        DeleteKeeps(s, e, true);
        DeleteExact(s.tree, e);
        var p := DeletePos(s.tree, e);
        if p.Some? {
          WithoutMultiset(Flat(s.tree), p.value);
        }
    }
  }

  /** With few duplicates the separators stay strict and the index holds exactly the entries put in. */
  lemma {:induction false} RunKeepsStrict(s: State, ops: seq<Op>)
    requires WellShaped(s) && Strict(s.tree) && FewDuplicatesRun(s, ops)
    ensures Strict(Run(s, ops).tree)
    ensures multiset(Flat(Run(s, ops).tree)) == Entries(multiset(Flat(s.tree)), ops)
    decreases |ops|
  {
    if |ops| > 0 {
      var init := ops[..|ops| - 1];
      assert forall n :: 0 <= n < |init| ==> init[..n] == ops[..n];
      RunKeepsStrict(s, init);
      StepKeepsStrict(Run(s, init), ops[|ops| - 1]);
    }
  }

  /**
   After every run that meets no key with 292 entries at the start of an insertion: the
   index holds exactly the entries inserted and not deleted, every search returns exactly
   the record ids of its key, every range scan returns exactly the entries in range in key
   order, and a further deletion finds its entry exactly when it is stored.
   */
  lemma {:induction false} RunExact(s: State, ops: seq<Op>)
    requires WellShaped(s) && Strict(s.tree) && FewDuplicatesRun(s, ops)
    ensures var t := Run(s, ops).tree;
            && multiset(Flat(t)) == Entries(multiset(Flat(s.tree)), ops)
            && (forall k :: SearchEqual(t, k) == Matches(Flat(t), k))
            && (forall r :: RangeScan(t, r) == InRange(Flat(t), r) && Sorted(RangeScan(t, r)))
            && (forall e :: DeletePos(t, e).Some? <==> e in Flat(t))
  {
    RunKeepsStrict(s, ops);
    var t := Run(s, ops).tree;
    StrictImpliesWeak(t, None, None);
    OrdFlat(t, None, None, true);
    forall k ensures SearchEqual(t, k) == Matches(Flat(t), k) {
      SearchExact(t, k);
    }
    forall r ensures RangeScan(t, r) == InRange(Flat(t), r) && Sorted(RangeScan(t, r)) {
      RangeScanExact(t, r);
      InRangeSorted(Flat(t), r);
    }
    forall e ensures DeletePos(t, e).Some? <==> e in Flat(t) {
      DeleteExact(t, e);
    }
  }

  /** A range scan without a lower bound is exact after every run at all. */
  lemma {:induction false} RunOpenScanExact(s: State, ops: seq<Op>, r: Range)
    requires WellShaped(s) && Weak(s.tree) && r.low.None?
    ensures RangeScan(Run(s, ops).tree, r) == InRange(Flat(Run(s, ops).tree), r)
    ensures Sorted(RangeScan(Run(s, ops).tree, r))
  {
    RunKeepsOrder(s, ops);
    RangeScanExact(Run(s, ops).tree, r);
    InRangeSorted(Flat(Run(s, ops).tree), r);
  }

  /** A 293rd entry under one key makes the search for that key lose entries. */
  lemma {:induction false} OverfullKeyLosesEntries(s: State, k: Key, rid: RecordId)
    requires s.height == 0 && s.tree.Leaf? && |s.tree.es| == LEAF_MAX
    requires forall i :: 0 <= i < LEAF_MAX ==> s.tree.es[i].key == k
    ensures var t := Insert(s, Entry(k, rid)).tree;
            |SearchEqual(t, k)| < |Matches(Flat(t), k)| == LEAF_MAX + 1
  {
    var e := Entry(k, rid);
    InsertStrictIff(s, e);
    InsertKeeps(s, e);
    OneMoreSame(s.tree.es, Flat(Insert(s, e).tree), e);
    AllMatch(Insert(s, e).tree, k);
  }

  lemma {:induction false} OneMoreSame(a: seq<Entry>, b: seq<Entry>, e: Entry)
    requires OneMore(a, b, e) && forall i :: 0 <= i < |a| ==> a[i].key == e.key
    ensures |b| == |a| + 1 && forall i :: 0 <= i < |b| ==> b[i].key == e.key
  {
    var p :| 0 <= p <= |a| && b == a[..p] + [e] + a[p..];
  }

  /** In a tree of one key with a loose separator the search for that key loses entries. */
  lemma {:induction false} AllMatch(t: Tree, k: Key)
    requires Weak(t) && !Strict(t)
    requires forall i :: 0 <= i < |Flat(t)| ==> Flat(t)[i].key == k
    ensures |SearchEqual(t, k)| < |Matches(Flat(t), k)| == |Flat(t)|
  {
    MatchesUniform(Flat(t), k);
    var lost := LooseSeparatorSkips(t, None, None);
    var x :| 0 <= x < |Before(t, lost)| && Before(t, lost)[x].key == lost;
    BeforeFrom(t, lost);
    assert Flat(t)[x].key == lost;
    MatchesSome(Before(t, k), x);
    MatchesAppend(Before(t, k), From(t, k), k);
  }
}
