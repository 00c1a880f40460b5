/** Equality search, range search and lazy deletion of the B+Tree index, and when they are exact. */
module BPlusTreeSearch {
  import opened Types
  import opened BPlusTreeModel

  /* ---------- Equality search ---------- */

  /** The record ids stored under one key, in order. */
  function Matches(es: seq<Entry>, k: Key): seq<RecordId> {
    if |es| == 0 then []
    else (if es[0].key == k then [es[0].rid] else []) + Matches(es[1..], k)
  }

  lemma {:induction false} MatchesAppend(a: seq<Entry>, b: seq<Entry>, k: Key)
    ensures Matches(a + b, k) == Matches(a, k) + Matches(b, k)
  {
    if |a| == 0 {
      assert a + b == b;
    } else {
      assert (a + b)[0] == a[0] && (a + b)[1..] == a[1..] + b;
      MatchesAppend(a[1..], b, k);
    }
  }

  lemma {:induction false} MatchesNone(es: seq<Entry>, k: Key)
    requires forall i :: 0 <= i < |es| ==> es[i].key != k
    ensures Matches(es, k) == []
  {
    if |es| > 0 {
      MatchesNone(es[1..], k);
    }
  }

  lemma {:induction false} MatchesSome(es: seq<Entry>, i: nat)
    requires i < |es|
    ensures Matches(es, es[i].key) != []
  {
    if i > 0 {
      MatchesSome(es[1..], i - 1);
    }
  }

  /** What a search for one key returns: the matches from the routed leaf onwards. */
  ghost function SearchEqual(t: Tree, k: Key): seq<RecordId> {
    Matches(From(t, k), k)
  }

  /** Entries in the leaves that a search skips are not above the key; below it when separators are strict. */
  lemma {:induction false} SkippedKeys(t: Tree, k: Key, lo: Option<Key>, hi: Option<Key>, strict: bool)
    requires Ord(t, lo, hi, strict)
    ensures forall x :: 0 <= x < |Before(t, k)| ==> Below(Before(t, k)[x].key, Some(k), strict)
    decreases t
  {
    if t.Inner? {
      var i := Route(t.keys, k);
      assert Ord(t.kids[i], LoOf(t.keys, lo, i), HiOf(t.keys, hi, i), strict);
      SkippedKeys(t.kids[i], k, LoOf(t.keys, lo, i), HiOf(t.keys, hi, i), strict);
      if i > 0 {
        OrdSlice(t, t.id, 0, i - 1, lo, hi, strict);
        assert t.kids[0..i] == t.kids[..i];
        var left := Inner(t.id, t.keys[0..i - 1], t.kids[0..i]);
        OrdFlat(left, lo, Some(t.keys[i - 1]), strict);
        assert Flat(left) == FlatF(t.kids[..i]);
      }
    }
  }

  /** With strict separators a search finds every entry stored under its key. */
  lemma {:induction false} SearchExact(t: Tree, k: Key)
    requires Strict(t)
    ensures SearchEqual(t, k) == Matches(Flat(t), k)
  {
    SkippedKeys(t, k, None, None, true);
    MatchesNone(Before(t, k), k);
    BeforeFrom(t, k);
    MatchesAppend(Before(t, k), From(t, k), k);
  }

  /** An entry that the search for its own key skips. */
  ghost predicate Skipped(t: Tree, k: Key) {
    exists x :: 0 <= x < |Before(t, k)| && Before(t, k)[x].key == k
  }

  lemma {:induction false} SkippedInKid(t: Tree, i: nat, x: nat, lo: Option<Key>, hi: Option<Key>)
    requires t.Inner? && Ord(t, lo, hi, false) && i < |t.kids|
    requires x < |Flat(t.kids[i])| && i < Route(t.keys, Flat(t.kids[i])[x].key)
    ensures Skipped(t, Flat(t.kids[i])[x].key)
  {
    var e := Flat(t.kids[i])[x];
    var r := Route(t.keys, e.key);
    FlatFSplit(t.kids[..r], i);
    assert t.kids[..r][..i] == t.kids[..i] && t.kids[..r][i] == t.kids[i];
    var y := |FlatF(t.kids[..i])| + x;
    assert FlatF(t.kids[..r])[y] == e;
    assert Before(t, e.key)[y] == e;
  }

  /** A key that is stored in the tree and equals its upper bound. */
  ghost predicate AtBound(t: Tree, hi: Option<Key>, k: Key) {
    hi == Some(k) && exists x :: 0 <= x < |Flat(t)| && Flat(t)[x].key == k
  }

  /** A separator that is not strict makes the search for some stored key miss an entry. */
  lemma {:induction false} LooseSeparatorSkips(t: Tree, lo: Option<Key>, hi: Option<Key>) returns (k: Key)
    requires Ord(t, lo, hi, false) && !Ord(t, lo, hi, true)
    ensures Skipped(t, k) || AtBound(t, hi, k)
    decreases t
  {
    match t {
      case Leaf(_, es) =>
        var x :| 0 <= x < |es| && !(AtLeast(es[x].key, lo) && Below(es[x].key, hi, true));
        k := es[x].key;
        assert Flat(t)[x].key == k;
      case Inner(_, keys, kids) =>
        var i :| 0 <= i < |kids| && !Ord(kids[i], LoOf(keys, lo, i), HiOf(keys, hi, i), true);
        k := LooseSeparatorSkips(kids[i], LoOf(keys, lo, i), HiOf(keys, hi, i));
        if Skipped(kids[i], k) {
          SkippedUp(t, i, k, lo, hi);
        } else {
          BoundUp(t, i, k, lo, hi);
        }
    }
  }

  lemma {:induction false} BoundUp(t: Tree, i: nat, k: Key, lo: Option<Key>, hi: Option<Key>)
    requires t.Inner? && Ord(t, lo, hi, false) && i < |t.kids| && AtBound(t.kids[i], HiOf(t.keys, hi, i), k)
    ensures Skipped(t, k) || AtBound(t, hi, k)
  {
    var x :| 0 <= x < |Flat(t.kids[i])| && Flat(t.kids[i])[x].key == k;
    if i < |t.keys| {
      assert i < Route(t.keys, k);
      SkippedInKid(t, i, x, lo, hi);
    } else {
      FlatFSplit(t.kids, i);
      assert Flat(t)[|FlatF(t.kids[..i])| + x].key == k;
    }
  }

  lemma {:induction false} SkippedUp(t: Tree, i: nat, k: Key, lo: Option<Key>, hi: Option<Key>)
    requires t.Inner? && Ord(t, lo, hi, false) && i < |t.kids| && Skipped(t.kids[i], k)
    ensures Skipped(t, k)
  {
    var c := t.kids[i];
    var x :| 0 <= x < |Before(c, k)| && Before(c, k)[x].key == k;
    BeforeFrom(c, k);
    assert Flat(c)[x].key == k;
    OrdFlat(c, LoOf(t.keys, lo, i), HiOf(t.keys, hi, i), false);
    var r := Route(t.keys, k);
    if r == i {
      assert Before(t, k)[|FlatF(t.kids[..i])| + x].key == k;
    } else {
      assert i < r;
      SkippedInKid(t, i, x, lo, hi);
    }
  }

  /** Every search is exact if and only if all separators are strict. */
  lemma {:induction false} ExactSearchesIffStrict(t: Tree)
    requires Weak(t)
    ensures (forall k :: SearchEqual(t, k) == Matches(Flat(t), k)) <==> Strict(t)
  {
    if Strict(t) {
      forall k ensures SearchEqual(t, k) == Matches(Flat(t), k) {
        SearchExact(t, k);
      }
    } else {
      var k := LooseSeparatorSkips(t, None, None);
      var x :| 0 <= x < |Before(t, k)| && Before(t, k)[x].key == k;
      MatchesSome(Before(t, k), x);
      BeforeFrom(t, k);
      MatchesAppend(Before(t, k), From(t, k), k);
      assert |Matches(Flat(t), k)| > |SearchEqual(t, k)|;
    }
  }

  /* ---------- Range search ---------- */

  datatype Range = Range(low: Option<Key>, lowInclusive: bool, high: Option<Key>, highInclusive: bool)

  predicate BelowRange(k: Key, r: Range) {
    r.low.Some? && (k < r.low.value || (!r.lowInclusive && k == r.low.value))
  }

  predicate AboveRange(k: Key, r: Range) {
    r.high.Some? && (k > r.high.value || (!r.highInclusive && k == r.high.value))
  }

  function InRange(es: seq<Entry>, r: Range): seq<Entry> {
    if |es| == 0 then []
    else (if BelowRange(es[0].key, r) || AboveRange(es[0].key, r) then [] else [es[0]]) + InRange(es[1..], r)
  }

  lemma {:induction false} InRangeAppend(a: seq<Entry>, b: seq<Entry>, r: Range)
    ensures InRange(a + b, r) == InRange(a, r) + InRange(b, r)
  {
    if |a| == 0 {
      assert a + b == b;
    } else {
      assert (a + b)[1..] == a[1..] + b;
      InRangeAppend(a[1..], b, r);
    }
  }

  lemma {:induction false} InRangeNone(es: seq<Entry>, r: Range)
    requires forall i :: 0 <= i < |es| ==> BelowRange(es[i].key, r) || AboveRange(es[i].key, r)
    ensures InRange(es, r) == []
  {
    if |es| > 0 {
      InRangeNone(es[1..], r);
    }
  }

  /** What a range scan returns: the entries in range from the leaf of the lower bound onwards. */
  ghost function RangeScan(t: Tree, r: Range): seq<Entry> {
    InRange(if r.low.Some? then From(t, r.low.value) else Flat(t), r)
  }

  /**
   A range scan is exact with strict separators; without them it still is whenever the
   lower bound is absent or exclusive.
   */
  lemma {:induction false} RangeScanExact(t: Tree, r: Range)
    requires Weak(t)
    requires Strict(t) || r.low.None? || !r.lowInclusive
    ensures RangeScan(t, r) == InRange(Flat(t), r)
  {
    if r.low.Some? {
      var k := r.low.value;
      SkippedKeys(t, k, None, None, Strict(t));
      InRangeNone(Before(t, k), r);
      BeforeFrom(t, k);
      InRangeAppend(Before(t, k), From(t, k), r);
    }
  }

  /** A range scan returns its entries in key order. */
  lemma {:induction false} InRangeSorted(es: seq<Entry>, r: Range)
    requires Sorted(es)
    ensures Sorted(InRange(es, r))
    ensures forall x :: x in InRange(es, r) ==> x in es
  {
    if |es| > 0 {
      InRangeSorted(es[1..], r);
      forall x | x in InRange(es[1..], r) ensures es[0].key <= x.key {
        var i :| 0 <= i < |es[1..]| && es[1..][i] == x;
        assert es[i + 1] == x;
      }
    }
  }

  /* ---------- Deletion ---------- */

  /** The position of the first occurrence of an entry. */
  function Find(es: seq<Entry>, e: Entry): (r: Option<nat>)
    ensures r.Some? ==> r.value < |es| && es[r.value] == e
    ensures r.Some? <==> e in es
  {
    if |es| == 0 then None
    else if es[0] == e then Some(0)
    else
      var r := Find(es[1..], e);
      if r.None? then None else Some(r.value + 1)
  }

  /** The child holding in-order position `p`, and the position within it. */
  ghost function KidAt(ts: seq<Tree>, p: nat): (r: (nat, nat))
    requires p < |FlatF(ts)|
    ensures r.0 < |ts| && r.1 < |Flat(ts[r.0])|
  {
    if p < |Flat(ts[0])| then (0, p)
    else
      var r := KidAt(ts[1..], p - |Flat(ts[0])|);
      (r.0 + 1, r.1)
  }

  lemma {:induction false} KidAtOffset(ts: seq<Tree>, p: nat)
    requires p < |FlatF(ts)|
    ensures p == |FlatF(ts[..KidAt(ts, p).0])| + KidAt(ts, p).1
  {
    if p >= |Flat(ts[0])| {
      KidAtOffset(ts[1..], p - |Flat(ts[0])|);
      var i := KidAt(ts[1..], p - |Flat(ts[0])|).0;
      assert ts[..i + 1][1..] == ts[1..][..i];
    }
  }

  function Without(es: seq<Entry>, p: nat): seq<Entry>
    requires p < |es|
  {
    es[..p] + es[p + 1..]
  }

  /** Removes the entry at in-order position `p` from its leaf; nodes are never merged. */
  ghost function RemoveAt(t: Tree, p: nat): Tree
    requires p < |Flat(t)|
    decreases t
  {
    match t
    case Leaf(id, es) => Leaf(id, Without(es, p))
    case Inner(id, keys, kids) =>
      var (i, q) := KidAt(kids, p);
      WithKid(t, i, RemoveAt(kids[i], q))
  }

  lemma {:induction false} RemoveAtFlat(t: Tree, p: nat)
    requires p < |Flat(t)|
    ensures Flat(RemoveAt(t, p)) == Without(Flat(t), p)
    decreases t
  {
    if t.Inner? {
      var (i, q) := KidAt(t.kids, p);
      KidAtOffset(t.kids, p);
      RemoveAtFlat(t.kids[i], q);
      var kids := t.kids[i := RemoveAt(t.kids[i], q)];
      FlatFSplit(t.kids, i);
      FlatFSplit(kids, i);
      assert kids[..i] == t.kids[..i] && kids[i + 1..] == t.kids[i + 1..];
    }
  }

  lemma {:induction false} RemoveAtShape(t: Tree, h: nat, p: nat)
    requires Shape(t, h) && p < |Flat(t)|
    ensures Shape(RemoveAt(t, p), h)
    decreases t
  {
    if t.Inner? {
      var (i, q) := KidAt(t.kids, p);
      RemoveAtShape(t.kids[i], h - 1, q);
    }
  }

  lemma {:induction false} RemoveAtOrd(t: Tree, p: nat, lo: Option<Key>, hi: Option<Key>, strict: bool)
    requires Ord(t, lo, hi, strict) && p < |Flat(t)|
    ensures Ord(RemoveAt(t, p), lo, hi, strict)
    decreases t
  {
    match t {
      case Leaf(_, es) =>
        forall i | 0 <= i < |Without(es, p)| ensures Without(es, p)[i] == es[if i < p then i else i + 1] {
        }
      case Inner(_, keys, kids) =>
        var (i, q) := KidAt(kids, p);
        assert Ord(kids[i], LoOf(keys, lo, i), HiOf(keys, hi, i), strict);
        RemoveAtOrd(kids[i], q, LoOf(keys, lo, i), HiOf(keys, hi, i), strict);
        ReplaceKidOrd(t, i, RemoveAt(kids[i], q), lo, hi, strict);
    }
  }

  /** Where a deletion takes its entry from; nothing when the entry is not met from the routed leaf on. */
  ghost function DeletePos(t: Tree, e: Entry): (r: Option<nat>)
    ensures r.Some? ==> r.value < |Flat(t)| && Flat(t)[r.value] == e
  {
    BeforeFrom(t, e.key);
    match Find(From(t, e.key), e)
    case None => None
    case Some(p) => Some(|Before(t, e.key)| + p)
  }

  /** With strict separators a deletion meets its entry exactly when the entry is stored. */
  lemma {:induction false} DeleteExact(t: Tree, e: Entry)
    requires Strict(t)
    ensures DeletePos(t, e).Some? <==> e in Flat(t)
  {
    BeforeFrom(t, e.key);
    SkippedKeys(t, e.key, None, None, true);
  }

  ghost function Delete(s: State, e: Entry): (r: State)
    requires WellShaped(s)
    ensures WellShaped(r)
  {
    match DeletePos(s.tree, e)
    case None => s
    case Some(p) =>
      RemoveAtShape(s.tree, s.height, p);
      s.(tree := RemoveAt(s.tree, p))
  }
}
