/**
 The B+Tree index as a value: nodes carry the page number they are stored in, and
 page allocation is a counter, exactly as the page file hands pages out.

 The class in BPlusTree.dfy is proved to compute these functions on its pages; the
 properties of the index over all runs are proved here, on the value.
 */
module BPlusTreeModel {
  import opened Types

  /** Keys are signed 64-bit integers that are only ever compared. */
  type Key = int

  datatype Entry = Entry(key: Key, rid: RecordId)

  const NODE_HEADER := 7
  const LEAF_MAX: nat := (PAGE_SIZE - NODE_HEADER) / 14
  const INNER_MAX: nat := (PAGE_SIZE - NODE_HEADER - 4) / 12

  datatype Tree =
    | Leaf(id: PageId, es: seq<Entry>)
    | Inner(id: PageId, keys: seq<Key>, kids: seq<Tree>)

  /* ---------- Shape: balance and capacity ---------- */

  /** All leaves are `h` levels down and every node respects its capacity. */
  ghost predicate Shape(t: Tree, h: nat) {
    if h == 0 then t.Leaf? && |t.es| <= LEAF_MAX
    else
      && t.Inner?
      && 1 <= |t.keys| <= INNER_MAX
      && |t.kids| == |t.keys| + 1
      && forall i :: 0 <= i < |t.kids| ==> Shape(t.kids[i], h - 1)
  }

  /** An internal node of height `h` whose children are well shaped; it may still have no key. */
  ghost predicate KidsShape(t: Tree, h: nat)
    requires h > 0
  {
    && t.Inner?
    && |t.keys| <= INNER_MAX
    && |t.kids| == |t.keys| + 1
    && forall i :: 0 <= i < |t.kids| ==> Shape(t.kids[i], h - 1)
  }

  predicate Full(t: Tree) {
    if t.Leaf? then |t.es| >= LEAF_MAX else |t.keys| >= INNER_MAX
  }

  /* ---------- In-order contents ---------- */

  ghost function Flat(t: Tree): seq<Entry> {
    match t
    case Leaf(_, es) => es
    case Inner(_, _, kids) => FlatF(kids)
  }

  ghost function FlatF(ts: seq<Tree>): seq<Entry> {
    if |ts| == 0 then [] else Flat(ts[0]) + FlatF(ts[1..])
  }

  lemma {:induction false} FlatFAppend(a: seq<Tree>, b: seq<Tree>)
    ensures FlatF(a + b) == FlatF(a) + FlatF(b)
  {
    if |a| == 0 {
      assert a + b == b;
    } else {
      assert (a + b)[1..] == a[1..] + b;
      FlatFAppend(a[1..], b);
    }
  }

  lemma {:induction false} FlatFOne(t: Tree)
    ensures FlatF([t]) == Flat(t)
  {
    assert [t][1..] == [];
  }

  /** The contents around child `i`. */
  lemma {:induction false} FlatFSplit(ts: seq<Tree>, i: nat)
    requires i < |ts|
    ensures FlatF(ts) == FlatF(ts[..i]) + Flat(ts[i]) + FlatF(ts[i + 1..])
  {
    assert ts == ts[..i] + ([ts[i]] + ts[i + 1..]);
    FlatFAppend(ts[..i], [ts[i]] + ts[i + 1..]);
    FlatFAppend([ts[i]], ts[i + 1..]);
    FlatFOne(ts[i]);
  }

  /* ---------- Key order ---------- */

  predicate AtLeast(k: Key, lo: Option<Key>) {
    lo.None? || lo.value <= k
  }

  /** Below an upper separator; strictly below it when `strict`. */
  predicate Below(k: Key, hi: Option<Key>, strict: bool) {
    hi.None? || k < hi.value || (!strict && k == hi.value)
  }

  predicate SortedKeys(ks: seq<Key>) {
    forall i, j :: 0 <= i < j < |ks| ==> ks[i] <= ks[j]
  }

  predicate Sorted(es: seq<Entry>) {
    forall i, j :: 0 <= i < j < |es| ==> es[i].key <= es[j].key
  }

  predicate InBounds(es: seq<Entry>, lo: Option<Key>, hi: Option<Key>, strict: bool) {
    forall i :: 0 <= i < |es| ==> AtLeast(es[i].key, lo) && Below(es[i].key, hi, strict)
  }

  function LoOf(keys: seq<Key>, lo: Option<Key>, i: nat): Option<Key>
    requires i <= |keys|
  {
    if i == 0 then lo else Some(keys[i - 1])
  }

  function HiOf(keys: seq<Key>, hi: Option<Key>, i: nat): Option<Key>
    requires i <= |keys|
  {
    if i == |keys| then hi else Some(keys[i])
  }

  /**
   Separators and entries are in order. A child's keys are never below the separator on
   its left; they are at most the separator on its right, and strictly below it when
   `strict` holds.
   */
  ghost predicate Ord(t: Tree, lo: Option<Key>, hi: Option<Key>, strict: bool)
    decreases t
  {
    match t
    case Leaf(_, es) => Sorted(es) && InBounds(es, lo, hi, strict)
    case Inner(_, keys, kids) =>
      && |kids| == |keys| + 1
      && SortedKeys(keys)
      && (forall i :: 0 <= i < |keys| ==> AtLeast(keys[i], lo) && Below(keys[i], hi, false))
      && forall i :: 0 <= i < |kids| ==> Ord(kids[i], LoOf(keys, lo, i), HiOf(keys, hi, i), strict)
  }

  /** The order that every reachable tree has. */
  ghost predicate Weak(t: Tree) {
    Ord(t, None, None, false)
  }

  /** The order that makes key routing exact. */
  ghost predicate Strict(t: Tree) {
    Ord(t, None, None, true)
  }

  lemma {:induction false} StrictImpliesWeak(t: Tree, lo: Option<Key>, hi: Option<Key>)
    requires Ord(t, lo, hi, true)
    ensures Ord(t, lo, hi, false)
    decreases t
  {
    if t.Inner? {
      forall i | 0 <= i < |t.kids|
        ensures Ord(t.kids[i], LoOf(t.keys, lo, i), HiOf(t.keys, hi, i), false)
      {
        StrictImpliesWeak(t.kids[i], LoOf(t.keys, lo, i), HiOf(t.keys, hi, i));
      }
    }
  }

  /** Ordered separators make the in-order contents sorted and keep them within the bounds. */
  lemma {:induction false} OrdFlat(t: Tree, lo: Option<Key>, hi: Option<Key>, strict: bool)
    requires Ord(t, lo, hi, strict)
    ensures Sorted(Flat(t)) && InBounds(Flat(t), lo, hi, strict)
    decreases t, |if t.Inner? then t.kids else []| + 1
  {
    if t.Inner? {
      OrdFlatFrom(t, lo, hi, strict, 0);
      assert t.kids[0..] == t.kids;
    }
  }

  /** The children from `i` on hold sorted keys, none below the separator left of `i`. */
  lemma {:induction false} OrdFlatFrom(t: Tree, lo: Option<Key>, hi: Option<Key>, strict: bool, i: nat)
    requires t.Inner? && Ord(t, lo, hi, strict)
    requires i < |t.kids|
    ensures Sorted(FlatF(t.kids[i..]))
    ensures InBounds(FlatF(t.kids[i..]), LoOf(t.keys, lo, i), hi, strict)
    ensures InBounds(FlatF(t.kids[i..]), lo, hi, strict)
    decreases t, |t.kids| - i
  {
    var c := t.kids[i];
    assert Ord(c, LoOf(t.keys, lo, i), HiOf(t.keys, hi, i), strict);
    OrdFlat(c, LoOf(t.keys, lo, i), HiOf(t.keys, hi, i), strict);
    assert t.kids[i..][1..] == t.kids[i + 1..];
    if i + 1 < |t.kids| {
      OrdFlatFrom(t, lo, hi, strict, i + 1);
    } else {
      assert FlatF(t.kids[i + 1..]) == [];
    }
  }

  /* ---------- Routing ---------- */

  /** The child a key is routed to: the first whose right separator is above the key. */
  function Route(keys: seq<Key>, k: Key): (i: nat)
    ensures i <= |keys|
    ensures forall j :: 0 <= j < i ==> keys[j] <= k
    ensures i < |keys| ==> k < keys[i]
  {
    if |keys| == 0 || k < keys[0] then 0 else Route(keys[1..], k) + 1
  }

  lemma {:induction false} RouteUnique(keys: seq<Key>, k: Key, i: nat)
    requires i <= |keys|
    requires forall j :: 0 <= j < i ==> keys[j] <= k
    requires i < |keys| ==> k < keys[i]
    ensures Route(keys, k) == i
  {
  }

  /** The leaf a key is routed to. */
  ghost function LeafFor(t: Tree, k: Key): seq<Entry> {
    match t
    case Leaf(_, es) => es
    case Inner(_, keys, kids) =>
      var i := Route(keys, k);
      if i < |kids| then LeafFor(kids[i], k) else []
  }

  /** The entries in the leaves before the one a key is routed to. */
  ghost function Before(t: Tree, k: Key): seq<Entry> {
    match t
    case Leaf(_, _) => []
    case Inner(_, keys, kids) =>
      var i := Route(keys, k);
      if i < |kids| then FlatF(kids[..i]) + Before(kids[i], k) else FlatF(kids)
  }

  /** The entries from the leaf a key is routed to onwards. */
  ghost function From(t: Tree, k: Key): seq<Entry> {
    match t
    case Leaf(_, es) => es
    case Inner(_, keys, kids) =>
      var i := Route(keys, k);
      if i < |kids| then From(kids[i], k) + FlatF(kids[i + 1..]) else []
  }

  lemma {:induction false} BeforeFrom(t: Tree, k: Key)
    ensures Flat(t) == Before(t, k) + From(t, k)
  {
    if t.Inner? {
      var i := Route(t.keys, k);
      if i < |t.kids| {
        BeforeFrom(t.kids[i], k);
        FlatFSplit(t.kids, i);
      }
    }
  }

  /* ---------- Splitting a full node ---------- */

  /**
   The search for a split position of a leaf: outwards from the middle, the right side
   first, until two neighbouring keys differ; the middle itself when all keys are equal.
   */
  function Boundary(es: seq<Entry>, left: nat, right: nat): (m: nat)
    requires 1 <= left <= right <= |es|
    requires |es| >= 2 && left < |es|
    requires forall p :: left - 1 <= p < right ==> es[p].key == es[left - 1].key
    ensures 1 <= m < |es|
    ensures es[m - 1].key != es[m].key || (m == |es| / 2 && forall p :: 0 <= p < |es| ==> es[p].key == es[0].key)
    decreases left + (|es| - right)
  {
    var n := |es|;
    if left <= 1 && right >= n then n / 2
    else if right < n && es[right].key != es[right - 1].key then right
    else if left > 1 && es[left - 1].key != es[left - 2].key then left - 1
    else Boundary(es, if left > 1 then left - 1 else left, if right < n then right + 1 else right)
  }

  function SplitPoint(es: seq<Entry>): nat
    requires |es| >= 2
  {
    Boundary(es, |es| / 2, |es| / 2)
  }

  /** A leaf holding one key only; a full one cannot be split between two keys. */
  predicate Uniform(es: seq<Entry>) {
    forall i, j :: 0 <= i < j < |es| ==> es[i].key == es[j].key
  }

  /** The leaf is cut between two different keys exactly when it holds two different keys. */
  lemma {:induction false} SplitPointSeparates(es: seq<Entry>)
    requires |es| >= 2 && Sorted(es)
    ensures 1 <= SplitPoint(es) < |es|
    ensures !Uniform(es) <==> es[SplitPoint(es) - 1].key < es[SplitPoint(es)].key
    ensures Uniform(es) ==> SplitPoint(es) == |es| / 2
  {
    var m := SplitPoint(es);
    assert es[m - 1].key <= es[m].key;
  }

  predicate CanSplit(c: Tree) {
    if c.Leaf? then |c.es| >= 2 else |c.keys| >= 1 && |c.kids| == |c.keys| + 1
  }

  datatype Halves = Halves(left: Tree, sep: Key, right: Tree)

  /** A full node cut in two; the right half goes to page `newId`. */
  function Split(c: Tree, newId: PageId): Halves
    requires CanSplit(c)
  {
    match c
    case Leaf(id, es) =>
      var m := SplitPoint(es);
      Halves(Leaf(id, es[..m]), es[m].key, Leaf(newId, es[m..]))
    case Inner(id, keys, kids) =>
      var m := |keys| / 2;
      Halves(Inner(id, keys[..m], kids[..m + 1]), keys[m], Inner(newId, keys[m + 1..], kids[m + 1..]))
  }

  /** A node with its full child `i` replaced by the two halves of that child. */
  function SplitChild(t: Tree, i: nat, newId: PageId): Tree
    requires t.Inner? && |t.kids| == |t.keys| + 1 && i < |t.kids|
    requires CanSplit(t.kids[i])
  {
    var s := Split(t.kids[i], newId);
    Inner(t.id, t.keys[..i] + [s.sep] + t.keys[i..], t.kids[..i] + [s.left, s.right] + t.kids[i + 1..])
  }

  lemma {:induction false} SplitShape(c: Tree, h: nat, newId: PageId)
    requires Shape(c, h) && Full(c)
    ensures Shape(Split(c, newId).left, h) && Shape(Split(c, newId).right, h)
    ensures !Full(Split(c, newId).left) && !Full(Split(c, newId).right)
  {
  }

  /** Splitting a full child of a node that is not full keeps the shape; neither half is full. */
  lemma {:induction false} SplitChildShape(t: Tree, h: nat, i: nat, newId: PageId)
    requires h > 0 && KidsShape(t, h) && !Full(t)
    requires i < |t.kids| && Full(t.kids[i])
    ensures Shape(SplitChild(t, i, newId), h)
    ensures !Full(SplitChild(t, i, newId).kids[i]) && !Full(SplitChild(t, i, newId).kids[i + 1])
  {
    var c := t.kids[i];
    SplitShape(c, h - 1, newId);
    var s := Split(c, newId);
    var kids := t.kids[..i] + [s.left, s.right] + t.kids[i + 1..];
    forall j | 0 <= j < |kids| ensures Shape(kids[j], h - 1) {
      if j < i {
        assert kids[j] == t.kids[j];
      } else if j > i + 1 {
        assert kids[j] == t.kids[j - 1];
      }
    }
  }

  lemma {:induction false} SplitFlat(c: Tree, h: nat, newId: PageId)
    requires Shape(c, h) && Full(c)
    ensures Flat(Split(c, newId).left) + Flat(Split(c, newId).right) == Flat(c)
  {
    if c.Inner? {
      var m := |c.keys| / 2;
      assert c.kids == c.kids[..m + 1] + c.kids[m + 1..];
      FlatFAppend(c.kids[..m + 1], c.kids[m + 1..]);
    }
  }

  /** Splitting moves no entry. */
  lemma {:induction false} SplitChildFlat(t: Tree, h: nat, i: nat, newId: PageId)
    requires h > 0 && KidsShape(t, h) && i < |t.kids| && Full(t.kids[i])
    ensures Flat(SplitChild(t, i, newId)) == Flat(t)
  {
    SplitFlat(t.kids[i], h - 1, newId);
    var s := Split(t.kids[i], newId);
    FlatFSplit(t.kids, i);
    FlatFTwo(t.kids[..i], s.left, s.right, t.kids[i + 1..]);
  }

  lemma {:induction false} FlatFTwo(l: seq<Tree>, x: Tree, y: Tree, r: seq<Tree>)
    ensures FlatF(l + [x, y] + r) == FlatF(l) + (Flat(x) + Flat(y)) + FlatF(r)
  {
    FlatFAppend(l + [x, y], r);
    FlatFAppend(l, [x, y]);
    assert [x, y] == [x] + [y];
    FlatFAppend([x], [y]);
    FlatFOne(x);
    FlatFOne(y);
  }

  /* ---------- Insertion ---------- */

  /** The position of a new key in a leaf: before the first key that is not smaller. */
  function LeafPos(es: seq<Entry>, k: Key): (i: nat)
    ensures i <= |es|
    ensures forall j :: 0 <= j < i ==> es[j].key < k
    ensures i < |es| ==> k <= es[i].key
  {
    if |es| == 0 || k <= es[0].key then 0 else LeafPos(es[1..], k) + 1
  }

  function InsertLeaf(es: seq<Entry>, e: Entry): seq<Entry> {
    var i := LeafPos(es, e.key);
    es[..i] + [e] + es[i..]
  }

  /** Insertion below a node that is not full; a full child is split before it is entered. */
  ghost function InsertNonFull(t: Tree, h: nat, e: Entry, next: PageId): (r: (Tree, PageId))
    requires Shape(t, h) && !Full(t)
    decreases h, 1
  {
    if h == 0 then (Leaf(t.id, InsertLeaf(t.es, e)), next)
    else
      var i := Route(t.keys, e.key);
      if Full(t.kids[i]) then
        SplitChildShape(t, h, i, next);
        SplitChildRoute(t, h, i, next, e.key);
        InsertBelow(SplitChild(t, i, next), h, e, next + 1)
      else
        InsertBelow(t, h, e, next)
  }

  /** Insertion into the child the key is routed to, which is not full. */
  ghost function InsertBelow(t: Tree, h: nat, e: Entry, next: PageId): (r: (Tree, PageId))
    requires h > 0 && Shape(t, h) && !Full(t.kids[Route(t.keys, e.key)])
    decreases h, 0
  {
    var i := Route(t.keys, e.key);
    var (c, n) := InsertNonFull(t.kids[i], h - 1, e, next);
    (WithKid(t, i, c), n)
  }

  function WithKid(t: Tree, i: nat, c: Tree): Tree
    requires t.Inner? && i < |t.kids|
  {
    Inner(t.id, t.keys, t.kids[i := c])
  }

  /** After a split the key is routed to one of the two halves. */
  lemma {:induction false} SplitChildRoute(t: Tree, h: nat, i: nat, newId: PageId, k: Key)
    requires h > 0 && KidsShape(t, h) && !Full(t)
    requires i == Route(t.keys, k) && Full(t.kids[i])
    ensures var sep := Split(t.kids[i], newId).sep;
            Route(SplitChild(t, i, newId).keys, k) == if sep <= k then i + 1 else i
  {
    var s := Split(t.kids[i], newId);
    var keys := SplitChild(t, i, newId).keys;
    var j := if s.sep <= k then i + 1 else i;
    assert forall x :: 0 <= x < i ==> keys[x] == t.keys[x];
    assert i < |t.keys| ==> keys[i + 1] == t.keys[i];
    RouteUnique(keys, k, j);
  }

  datatype State = State(tree: Tree, height: nat, next: PageId)

  ghost predicate WellShaped(s: State) {
    Shape(s.tree, s.height)
  }

  /** A full root becomes the only child of a new root and is split. */
  ghost function GrowRoot(s: State): (r: State)
    requires WellShaped(s) && Full(s.tree)
    ensures WellShaped(r) && !Full(r.tree)
  {
    var root := Inner(s.next, [], [s.tree]);
    SplitChildShape(root, s.height + 1, 0, s.next + 1);
    State(SplitChild(root, 0, s.next + 1), s.height + 1, s.next + 2)
  }

  ghost function Insert(s: State, e: Entry): State
    requires WellShaped(s)
  {
    var g := if Full(s.tree) then GrowRoot(s) else s;
    var (t, n) := InsertNonFull(g.tree, g.height, e, g.next);
    State(t, g.height, n)
  }

  lemma {:induction false} InsertNonFullShape(t: Tree, h: nat, e: Entry, next: PageId)
    requires Shape(t, h) && !Full(t)
    ensures Shape(InsertNonFull(t, h, e, next).0, h)
    decreases h, 1
  {
    if h > 0 {
      var i := Route(t.keys, e.key);
      if Full(t.kids[i]) {
        SplitChildShape(t, h, i, next);
        SplitChildRoute(t, h, i, next, e.key);
        InsertBelowShape(SplitChild(t, i, next), h, e, next + 1);
      } else {
        InsertBelowShape(t, h, e, next);
      }
    }
  }

  lemma {:induction false} InsertBelowShape(t: Tree, h: nat, e: Entry, next: PageId)
    requires h > 0 && Shape(t, h) && !Full(t.kids[Route(t.keys, e.key)])
    ensures Shape(InsertBelow(t, h, e, next).0, h)
    decreases h, 0
  {
    InsertNonFullShape(t.kids[Route(t.keys, e.key)], h - 1, e, next);
  }

  /** `b` is `a` with one entry put in somewhere. */
  ghost predicate OneMore(a: seq<Entry>, b: seq<Entry>, e: Entry) {
    exists p :: 0 <= p <= |a| && b == a[..p] + [e] + a[p..]
  }

  lemma {:induction false} OneMoreWithin(x: seq<Entry>, a: seq<Entry>, b: seq<Entry>, y: seq<Entry>, e: Entry)
    requires OneMore(a, b, e)
    ensures OneMore(x + a + y, x + b + y, e)
  {
    var p :| 0 <= p <= |a| && b == a[..p] + [e] + a[p..];
    var q := |x| + p;
    var w := x + a + y;
    assert w[..q] == x + a[..p];
    assert w[q..] == a[p..] + y;
    assert x + b + y == w[..q] + [e] + w[q..];
  }

  lemma {:induction false} OneMoreMultiset(a: seq<Entry>, b: seq<Entry>, e: Entry)
    requires OneMore(a, b, e)
    ensures multiset(b) == multiset(a) + multiset{e}
  {
    var p :| 0 <= p <= |a| && b == a[..p] + [e] + a[p..];
    assert a == a[..p] + a[p..];
  }

  lemma {:induction false} ReplaceKidFlat(t: Tree, i: nat, c: Tree, e: Entry)
    requires t.Inner? && i < |t.kids| && OneMore(Flat(t.kids[i]), Flat(c), e)
    ensures OneMore(Flat(t), Flat(WithKid(t, i, c)), e)
  {
    var kids := t.kids[i := c];
    FlatFSplit(t.kids, i);
    FlatFSplit(kids, i);
    assert kids[..i] == t.kids[..i] && kids[i + 1..] == t.kids[i + 1..];
    OneMoreWithin(FlatF(t.kids[..i]), Flat(t.kids[i]), Flat(c), FlatF(t.kids[i + 1..]), e);
  }

  /** Insertion adds the one entry and moves no other, whatever the tree. */
  lemma {:induction false} InsertNonFullFlat(t: Tree, h: nat, e: Entry, next: PageId)
    requires Shape(t, h) && !Full(t)
    ensures OneMore(Flat(t), Flat(InsertNonFull(t, h, e, next).0), e)
    decreases h, 1
  {
    if h > 0 {
      var i := Route(t.keys, e.key);
      if Full(t.kids[i]) {
        SplitChildShape(t, h, i, next);
        SplitChildFlat(t, h, i, next);
        SplitChildRoute(t, h, i, next, e.key);
        InsertBelowFlat(SplitChild(t, i, next), h, e, next + 1);
      } else {
        InsertBelowFlat(t, h, e, next);
      }
    }
  }

  lemma {:induction false} InsertBelowFlat(t: Tree, h: nat, e: Entry, next: PageId)
    requires h > 0 && Shape(t, h) && !Full(t.kids[Route(t.keys, e.key)])
    ensures OneMore(Flat(t), Flat(InsertBelow(t, h, e, next).0), e)
    decreases h, 0
  {
    var i := Route(t.keys, e.key);
    InsertNonFullFlat(t.kids[i], h - 1, e, next);
    ReplaceKidFlat(t, i, InsertNonFull(t.kids[i], h - 1, e, next).0, e);
  }

  /** Replacing a child by one with the same bounds keeps the order. */
  lemma {:induction false} ReplaceKidOrd(t: Tree, i: nat, c: Tree, lo: Option<Key>, hi: Option<Key>, strict: bool)
    requires t.Inner? && i < |t.kids| && Ord(t, lo, hi, strict)
    requires Ord(c, LoOf(t.keys, lo, i), HiOf(t.keys, hi, i), strict)
    ensures Ord(WithKid(t, i, c), lo, hi, strict)
  {
  }

  /** The two halves lie on either side of the separator, within the bounds of the whole. */
  ghost predicate HalvesOrd(s: Halves, lo: Option<Key>, hi: Option<Key>, strict: bool) {
    && AtLeast(s.sep, lo) && Below(s.sep, hi, false)
    && Ord(s.left, lo, Some(s.sep), strict)
    && Ord(s.right, Some(s.sep), hi, strict)
  }

  lemma {:induction false} SplitLeafOrd(c: Tree, newId: PageId, lo: Option<Key>, hi: Option<Key>, strict: bool)
    requires c.Leaf? && |c.es| >= 2 && Ord(c, lo, hi, strict)
    requires strict ==> !Uniform(c.es)
    ensures HalvesOrd(Split(c, newId), lo, hi, strict)
  {
    var es := c.es;
    SplitPointSeparates(es);
    var m := SplitPoint(es);
  }

  lemma {:induction false} SplitInnerOrd(c: Tree, newId: PageId, lo: Option<Key>, hi: Option<Key>, strict: bool)
    requires c.Inner? && CanSplit(c) && Ord(c, lo, hi, strict)
    ensures HalvesOrd(Split(c, newId), lo, hi, strict)
  {
    var keys, m := c.keys, |c.keys| / 2;
    OrdSlice(c, c.id, 0, m, lo, hi, strict);
    OrdSlice(c, newId, m + 1, |keys|, lo, hi, strict);
    assert keys[0..m] == keys[..m] && c.kids[0..m + 1] == c.kids[..m + 1];
    assert keys[m + 1..|keys|] == keys[m + 1..] && c.kids[m + 1..|keys| + 1] == c.kids[m + 1..];
  }

  /** Consecutive children with the separators between them are ordered. */
  lemma {:induction false} OrdSlice(c: Tree, id: PageId, a: nat, b: nat, lo: Option<Key>, hi: Option<Key>, strict: bool)
    requires c.Inner? && Ord(c, lo, hi, strict)
    requires a <= b <= |c.keys|
    ensures Ord(Inner(id, c.keys[a..b], c.kids[a..b + 1]), LoOf(c.keys, lo, a), HiOf(c.keys, hi, b), strict)
  {
    var keys, kids := c.keys[a..b], c.kids[a..b + 1];
    var l, r := LoOf(c.keys, lo, a), HiOf(c.keys, hi, b);
    forall i | 0 <= i < |kids| ensures Ord(kids[i], LoOf(keys, l, i), HiOf(keys, r, i), strict) {
      assert Ord(c.kids[a + i], LoOf(c.keys, lo, a + i), HiOf(c.keys, hi, a + i), strict);
      assert LoOf(keys, l, i) == LoOf(c.keys, lo, a + i);
      assert HiOf(keys, r, i) == HiOf(c.keys, hi, a + i);
    }
  }

  /** A split keeps the order; the strict order too, unless a full leaf of one key is cut. */
  lemma {:induction false} SplitChildOrd(t: Tree, i: nat, newId: PageId, lo: Option<Key>, hi: Option<Key>, strict: bool)
    requires t.Inner? && Ord(t, lo, hi, strict)
    requires i < |t.kids| && CanSplit(t.kids[i])
    requires strict && t.kids[i].Leaf? ==> !Uniform(t.kids[i].es)
    ensures Ord(SplitChild(t, i, newId), lo, hi, strict)
  {
    var c, l, r := t.kids[i], LoOf(t.keys, lo, i), HiOf(t.keys, hi, i);
    assert Ord(c, l, r, strict);
    if c.Leaf? {
      SplitLeafOrd(c, newId, l, r, strict);
    } else {
      SplitInnerOrd(c, newId, l, r, strict);
    }
    OrdTwoForOne(t, i, Split(c, newId), lo, hi, strict);
  }

  lemma {:induction false} OrdTwoForOne(t: Tree, i: nat, s: Halves, lo: Option<Key>, hi: Option<Key>, strict: bool)
    requires t.Inner? && Ord(t, lo, hi, strict) && i < |t.kids|
    requires HalvesOrd(s, LoOf(t.keys, lo, i), HiOf(t.keys, hi, i), strict)
    ensures Ord(Inner(t.id, t.keys[..i] + [s.sep] + t.keys[i..], t.kids[..i] + [s.left, s.right] + t.kids[i + 1..]),
                lo, hi, strict)
  {
    var keys, kids := t.keys[..i] + [s.sep] + t.keys[i..], t.kids[..i] + [s.left, s.right] + t.kids[i + 1..];
    forall j | 0 <= j < |kids| ensures Ord(kids[j], LoOf(keys, lo, j), HiOf(keys, hi, j), strict) {
      if j < i {
        assert kids[j] == t.kids[j];
        assert LoOf(keys, lo, j) == LoOf(t.keys, lo, j) && HiOf(keys, hi, j) == HiOf(t.keys, hi, j);
      } else if j > i + 1 {
        assert kids[j] == t.kids[j - 1];
        assert LoOf(keys, lo, j) == LoOf(t.keys, lo, j - 1) && HiOf(keys, hi, j) == HiOf(t.keys, hi, j - 1);
      }
    }
    InsertKeySorted(t.keys, i, s.sep);
    forall j | 0 <= j < |keys| ensures AtLeast(keys[j], lo) && Below(keys[j], hi, false) {
      assert j < i ==> keys[j] == t.keys[j];
      assert j > i ==> keys[j] == t.keys[j - 1];
    }
  }

  lemma {:induction false} InsertKeySorted(keys: seq<Key>, i: nat, k: Key)
    requires SortedKeys(keys) && i <= |keys|
    requires i > 0 ==> keys[i - 1] <= k
    requires i < |keys| ==> k <= keys[i]
    ensures SortedKeys(keys[..i] + [k] + keys[i..])
  {
  }

  lemma {:induction false} InsertLeafOrd(t: Tree, e: Entry, lo: Option<Key>, hi: Option<Key>, strict: bool)
    requires t.Leaf? && Ord(t, lo, hi, strict)
    requires AtLeast(e.key, lo) && Below(e.key, hi, true)
    ensures Ord(Leaf(t.id, InsertLeaf(t.es, e)), lo, hi, strict)
  {
    var i := LeafPos(t.es, e.key);
    var es := InsertLeaf(t.es, e);
    forall a | 0 <= a < |es| ensures AtLeast(es[a].key, lo) && Below(es[a].key, hi, strict) {
      assert es[a] == if a < i then t.es[a] else if a == i then e else t.es[a - 1];
    }
    forall a, b | 0 <= a < b < |es| ensures es[a].key <= es[b].key {
      assert es[a] == if a < i then t.es[a] else if a == i then e else t.es[a - 1];
      assert es[b] == if b < i then t.es[b] else if b == i then e else t.es[b - 1];
    }
  }

  /** The leaf a key goes to is full and holds one key only. */
  ghost predicate Stuck(t: Tree, k: Key) {
    |LeafFor(t, k)| >= LEAF_MAX && Uniform(LeafFor(t, k))
  }

  /** Insertion keeps the order that routing relies on. */
  lemma {:induction false} InsertNonFullOrd(t: Tree, h: nat, e: Entry, next: PageId, lo: Option<Key>, hi: Option<Key>, strict: bool)
    requires Shape(t, h) && !Full(t) && Ord(t, lo, hi, strict)
    requires AtLeast(e.key, lo) && Below(e.key, hi, true)
    requires strict ==> !Stuck(t, e.key)
    ensures Ord(InsertNonFull(t, h, e, next).0, lo, hi, strict)
    decreases h, 1
  {
    if h == 0 {
      InsertLeafOrd(t, e, lo, hi, strict);
    } else {
      var i := Route(t.keys, e.key);
      assert Ord(t.kids[i], LoOf(t.keys, lo, i), HiOf(t.keys, hi, i), strict);
      assert LeafFor(t, e.key) == LeafFor(t.kids[i], e.key);
      if Full(t.kids[i]) {
        SplitChildShape(t, h, i, next);
        SplitChildRoute(t, h, i, next, e.key);
        SplitChildOrd(t, i, next, lo, hi, strict);
        SplitLeafFor(t, h, i, next, e.key);
        InsertBelowOrd(SplitChild(t, i, next), h, e, next + 1, lo, hi, strict);
      } else {
        InsertBelowOrd(t, h, e, next, lo, hi, strict);
      }
    }
  }

  lemma {:induction false} InsertBelowOrd(t: Tree, h: nat, e: Entry, next: PageId, lo: Option<Key>, hi: Option<Key>, strict: bool)
    requires h > 0 && Shape(t, h) && Ord(t, lo, hi, strict)
    requires AtLeast(e.key, lo) && Below(e.key, hi, true)
    requires var c := t.kids[Route(t.keys, e.key)]; !Full(c) && (strict ==> !Stuck(c, e.key))
    ensures Ord(InsertBelow(t, h, e, next).0, lo, hi, strict)
    decreases h, 0
  {
    var i := Route(t.keys, e.key);
    InsertNonFullOrd(t.kids[i], h - 1, e, next, LoOf(t.keys, lo, i), HiOf(t.keys, hi, i), strict);
    ReplaceKidOrd(t, i, InsertNonFull(t.kids[i], h - 1, e, next).0, lo, hi, strict);
  }

  /** A half is never a full leaf, and an internal split routes keys to the same leaf. */
  lemma {:induction false} SplitLeafFor(t: Tree, h: nat, i: nat, newId: PageId, k: Key)
    requires h > 0 && KidsShape(t, h) && !Full(t)
    requires i == Route(t.keys, k) && Full(t.kids[i])
    requires t.kids[i].Inner? ==> SortedKeys(t.kids[i].keys)
    ensures var t2 := SplitChild(t, i, newId);
            var j := Route(t2.keys, k);
            if t.kids[i].Leaf? then |LeafFor(t2.kids[j], k)| < LEAF_MAX
            else LeafFor(t2.kids[j], k) == LeafFor(t.kids[i], k)
  {
    SplitChildShape(t, h, i, newId);
    SplitChildRoute(t, h, i, newId, k);
    var c := t.kids[i];
    var s := Split(c, newId);
    assert Shape(c, h - 1);
    if c.Inner? {
      var m := |c.keys| / 2;
      var r := Route(c.keys, k);
      if s.sep <= k {
        assert r > m;
        RouteUnique(s.right.keys, k, r - m - 1);
        assert s.right.kids[r - m - 1] == c.kids[r];
      } else {
        assert r <= m;
        RouteUnique(s.left.keys, k, r);
        assert s.left.kids[r] == c.kids[r];
      }
    }
  }
}
