/**
 The byte layout of an index page, and the operations that shift entries in place. Each is
 proved to do to the page what the tree's operations do to the node it stands for.
 */
module BPlusNode {
  import opened Types
  import opened Bytes
  import opened PageFields
  import opened BPlusTreeModel
  import opened BPlusTreePages
  import Search = BPlusTreeSearch

  const HEADER_SIZE: nat := 7
  const LEAF_ENTRY: nat := 14
  const KEY_SIZE: nat := 8
  const CHILD_SIZE: nat := 4

  /* ---------- Positions ---------- */

  function EntryPos(i: nat): nat {
    HEADER_SIZE + i * LEAF_ENTRY
  }

  function KeyPos(i: nat): nat {
    HEADER_SIZE + i * KEY_SIZE
  }

  function ChildPos(i: nat): nat {
    KeyPos(INNER_MAX) + i * CHILD_SIZE
  }

  /* ---------- What a page stands for ---------- */

  function IsLeaf(d: PageBytes): bool {
    d[0] != 0
  }

  function KeyCount(d: PageBytes): nat {
    U16(d, 1)
  }

  function NextLeafId(d: PageBytes): PageId {
    I32(d, 3)
  }

  function LeafEntryAt(d: PageBytes, i: nat): Entry
    requires i < LEAF_MAX
  {
    var p := EntryPos(i);
    Entry(I64(d, p), RecordId(I32(d, p + 8), U16(d, p + 12)))
  }

  function KeyAt(d: PageBytes, i: nat): Key
    requires i < INNER_MAX
  {
    I64(d, KeyPos(i))
  }

  function ChildAt(d: PageBytes, i: nat): PageId
    requires i <= INNER_MAX
  {
    I32(d, ChildPos(i))
  }

  /** The key count fits the kind of node. */
  predicate NodeOk(d: PageBytes) {
    KeyCount(d) <= if IsLeaf(d) then LEAF_MAX else INNER_MAX
  }

  function NodeOf(d: PageBytes): Node
    requires NodeOk(d)
  {
    var n := KeyCount(d);
    if IsLeaf(d) then LeafNode(seq(n, i requires 0 <= i < n => LeafEntryAt(d, i)), NextLeafId(d))
    else InnerNode(seq(n, i requires 0 <= i < n => KeyAt(d, i)), seq(n + 1, i requires 0 <= i < n + 1 => ChildAt(d, i)))
  }

  /** Entries, keys and page numbers within the widths of their fields. */
  predicate EntryFits(e: Entry) {
    -TWO_63 <= e.key < TWO_63 && -TWO_31 <= e.rid.page < TWO_31 && e.rid.slot < TWO_16
  }

  /* ---------- Writing one entry ---------- */

  function SetLeafEntry(d: PageBytes, i: nat, e: Entry): PageBytes
    requires i < LEAF_MAX && EntryFits(e)
  {
    var p := EntryPos(i);
    PutU16(PutI32(PutI64(d, p, e.key), p + 8, e.rid.page), p + 12, e.rid.slot)
  }

  lemma {:induction false} SetLeafEntryKeeps(d: PageBytes, i: nat, e: Entry, q: nat, n: nat)
    requires i < LEAF_MAX && EntryFits(e) && q + n <= PAGE_SIZE && Disjoint(EntryPos(i), LEAF_ENTRY, q, n)
    ensures Field(SetLeafEntry(d, i, e), q, n) == Field(d, q, n)
  {
    var p := EntryPos(i);
    var d1 := PutI64(d, p, e.key);
    var d2 := PutI32(d1, p + 8, e.rid.page);
    PutField(d, p, ToBytes(Unsigned64(e.key), 8), q, n);
    PutField(d1, p + 8, ToBytes(Unsigned32(e.rid.page), 4), q, n);
    PutField(d2, p + 12, ToBytes(e.rid.slot, 2), q, n);
  }

  lemma {:induction false} SetLeafEntryReads(d: PageBytes, i: nat, e: Entry)
    requires i < LEAF_MAX && EntryFits(e)
    ensures LeafEntryAt(SetLeafEntry(d, i, e), i) == e
  {
    var p := EntryPos(i);
    var d1 := PutI64(d, p, e.key);
    var d2 := PutI32(d1, p + 8, e.rid.page);
    PutI64Reads(d, p, e.key);
    PutI32Reads(d1, p + 8, e.rid.page);
    PutU16Reads(d2, p + 12, e.rid.slot);
    PutField(d1, p + 8, ToBytes(Unsigned32(e.rid.page), 4), p, 8);
    PutField(d2, p + 12, ToBytes(e.rid.slot, 2), p, 8);
    PutField(d2, p + 12, ToBytes(e.rid.slot, 2), p + 8, 4);
  }

  /** Writing an entry changes that entry and nothing else of the node. */
  lemma {:induction false} SetLeafEntryAt(d: PageBytes, i: nat, e: Entry, k: nat)
    requires i < LEAF_MAX && k < LEAF_MAX && EntryFits(e)
    ensures LeafEntryAt(SetLeafEntry(d, i, e), k) == if k == i then e else LeafEntryAt(d, k)
  {
    if k == i {
      SetLeafEntryReads(d, i, e);
    } else {
      assert k < i ==> EntryPos(k) + LEAF_ENTRY <= EntryPos(i);
      assert i < k ==> EntryPos(i) + LEAF_ENTRY <= EntryPos(k);
      SetLeafEntryKeeps(d, i, e, EntryPos(k), 8);
      SetLeafEntryKeeps(d, i, e, EntryPos(k) + 8, 4);
      SetLeafEntryKeeps(d, i, e, EntryPos(k) + 12, 2);
    }
  }

  predicate SameHeader(d: PageBytes, e: PageBytes) {
    IsLeaf(e) == IsLeaf(d) && KeyCount(e) == KeyCount(d) && NextLeafId(e) == NextLeafId(d)
  }

  lemma {:induction false} HeaderKept(d: PageBytes, p: nat, s: seq<byte>)
    requires HEADER_SIZE <= p && p + |s| <= PAGE_SIZE
    ensures SameHeader(d, Put(d, p, s))
  {
    PutField(d, p, s, 1, 2);
    PutField(d, p, s, 3, 4);
  }

  lemma {:induction false} SetLeafEntryHeader(d: PageBytes, i: nat, e: Entry)
    requires i < LEAF_MAX && EntryFits(e)
    ensures SameHeader(d, SetLeafEntry(d, i, e))
  {
    var p := EntryPos(i);
    var d1 := PutI64(d, p, e.key);
    var d2 := PutI32(d1, p + 8, e.rid.page);
    HeaderKept(d, p, ToBytes(Unsigned64(e.key), 8));
    HeaderKept(d1, p + 8, ToBytes(Unsigned32(e.rid.page), 4));
    HeaderKept(d2, p + 12, ToBytes(e.rid.slot, 2));
  }

  /** Entries read from a page fit their fields. */
  lemma {:induction false} ReadEntryFits(d: PageBytes, i: nat)
    requires i < LEAF_MAX
    ensures EntryFits(LeafEntryAt(d, i))
  {
  }

  lemma {:induction false} SetKeyCountReads(d: PageBytes, n: nat)
    requires n < TWO_16
    ensures var e := PutU16(d, 1, n);
            KeyCount(e) == n && IsLeaf(e) == IsLeaf(d) && NextLeafId(e) == NextLeafId(d)
  {
    PutU16Reads(d, 1, n);
    PutField(d, 1, ToBytes(n, 2), 3, 4);
    PutField(d, 1, ToBytes(n, 2), 0, 1);
    assert Field(PutU16(d, 1, n), 0, 1)[0] == Field(d, 0, 1)[0];
  }

  lemma {:induction false} SetKeyCountKeeps(d: PageBytes, n: nat, q: nat, m: nat)
    requires HEADER_SIZE <= q && q + m <= PAGE_SIZE
    ensures Field(PutU16(d, 1, n), q, m) == Field(d, q, m)
  {
    PutField(d, 1, ToBytes(n, 2), q, m);
  }

  /** The entries of a leaf page, one after the other, including the unused places. */
  ghost predicate Places(d: PageBytes, es: seq<Entry>) {
    |es| == LEAF_MAX && forall k :: 0 <= k < LEAF_MAX ==> LeafEntryAt(d, k) == es[k]
  }

  lemma {:induction false} PlacesSet(d: PageBytes, es: seq<Entry>, i: nat, e: Entry)
    requires Places(d, es) && i < LEAF_MAX && EntryFits(e)
    ensures Places(SetLeafEntry(d, i, e), es[i := e]) && SameHeader(d, SetLeafEntry(d, i, e))
  {
    SetLeafEntryHeader(d, i, e);
    var d2, es2 := SetLeafEntry(d, i, e), es[i := e];
    forall k | 0 <= k < LEAF_MAX ensures LeafEntryAt(d2, k) == es2[k] {
      SetLeafEntryAt(d, i, e, k);
    }
  }

  lemma {:induction false} PlacesCounted(d: PageBytes, es: seq<Entry>, n: nat)
    requires Places(d, es) && n < TWO_16
    ensures Places(PutU16(d, 1, n), es)
  {
    var d2 := PutU16(d, 1, n);
    forall k | 0 <= k < LEAF_MAX ensures LeafEntryAt(d2, k) == es[k] {
      SetKeyCountKeeps(d, n, EntryPos(k), 8);
      SetKeyCountKeeps(d, n, EntryPos(k) + 8, 4);
      SetKeyCountKeeps(d, n, EntryPos(k) + 12, 2);
    }
  }

  lemma {:induction false} LeafFromPlaces(d: PageBytes, es: seq<Entry>)
    requires Places(d, es) && IsLeaf(d) && NodeOk(d)
    ensures NodeOf(d) == LeafNode(es[..KeyCount(d)], NextLeafId(d))
  {
  }

  function PlacesOf(d: PageBytes): (es: seq<Entry>)
    ensures Places(d, es)
  {
    seq(LEAF_MAX, i requires 0 <= i < LEAF_MAX => LeafEntryAt(d, i))
  }

  /* ---------- Inner nodes ---------- */

  ghost predicate InnerPlaces(d: PageBytes, ks: seq<Key>, cs: seq<PageId>) {
    && |ks| == INNER_MAX && |cs| == INNER_MAX + 1
    && (forall k :: 0 <= k < INNER_MAX ==> KeyAt(d, k) == ks[k])
    && (forall k :: 0 <= k < INNER_MAX + 1 ==> ChildAt(d, k) == cs[k])
  }

  lemma {:induction false} InnerPlacesOf(d: PageBytes) returns (ks: seq<Key>, cs: seq<PageId>)
    ensures InnerPlaces(d, ks, cs)
    ensures !IsLeaf(d) && NodeOk(d) ==> NodeOf(d) == InnerNode(ks[..KeyCount(d)], cs[..KeyCount(d) + 1])
  {
    ks := seq(INNER_MAX, i requires 0 <= i < INNER_MAX => KeyAt(d, i));
    cs := seq(INNER_MAX + 1, i requires 0 <= i < INNER_MAX + 1 => ChildAt(d, i));
    if !IsLeaf(d) && NodeOk(d) {
      InnerFromPlaces(d, ks, cs);
    }
  }

  lemma {:induction false} KeySet(d: PageBytes, ks: seq<Key>, cs: seq<PageId>, i: nat, key: Key)
    requires InnerPlaces(d, ks, cs) && i < INNER_MAX && -TWO_63 <= key < TWO_63
    ensures var e := PutI64(d, KeyPos(i), key);
            InnerPlaces(e, ks[i := key], cs) && SameHeader(d, e)
  {
    var s := ToBytes(Unsigned64(key), 8);
    var e, ks2 := PutI64(d, KeyPos(i), key), ks[i := key];
    HeaderKept(d, KeyPos(i), s);
    forall k | 0 <= k < INNER_MAX ensures KeyAt(e, k) == ks2[k] {
      if k == i {
        PutI64Reads(d, KeyPos(i), key);
      } else {
        PutField(d, KeyPos(i), s, KeyPos(k), 8);
      }
    }
    forall k | 0 <= k < INNER_MAX + 1 ensures ChildAt(e, k) == cs[k] {
      PutField(d, KeyPos(i), s, ChildPos(k), 4);
    }
  }

  lemma {:induction false} ChildSet(d: PageBytes, ks: seq<Key>, cs: seq<PageId>, i: nat, child: PageId)
    requires InnerPlaces(d, ks, cs) && i <= INNER_MAX && -TWO_31 <= child < TWO_31
    ensures var e := PutI32(d, ChildPos(i), child);
            InnerPlaces(e, ks, cs[i := child]) && SameHeader(d, e)
  {
    var s := ToBytes(Unsigned32(child), 4);
    var e, cs2 := PutI32(d, ChildPos(i), child), cs[i := child];
    HeaderKept(d, ChildPos(i), s);
    forall k | 0 <= k < INNER_MAX ensures KeyAt(e, k) == ks[k] {
      PutField(d, ChildPos(i), s, KeyPos(k), 8);
    }
    forall k | 0 <= k < INNER_MAX + 1 ensures ChildAt(e, k) == cs2[k] {
      if k == i {
        PutI32Reads(d, ChildPos(i), child);
      } else {
        PutField(d, ChildPos(i), s, ChildPos(k), 4);
      }
    }
  }

  lemma {:induction false} InnerCounted(d: PageBytes, ks: seq<Key>, cs: seq<PageId>, n: nat)
    requires InnerPlaces(d, ks, cs) && n < TWO_16
    ensures InnerPlaces(PutU16(d, 1, n), ks, cs)
  {
    var e := PutU16(d, 1, n);
    forall k | 0 <= k < INNER_MAX ensures KeyAt(e, k) == ks[k] {
      SetKeyCountKeeps(d, n, KeyPos(k), 8);
    }
    forall k | 0 <= k < INNER_MAX + 1 ensures ChildAt(e, k) == cs[k] {
      SetKeyCountKeeps(d, n, ChildPos(k), 4);
    }
  }

  lemma {:induction false} InnerFromPlaces(d: PageBytes, ks: seq<Key>, cs: seq<PageId>)
    requires InnerPlaces(d, ks, cs) && !IsLeaf(d) && NodeOk(d)
    ensures NodeOf(d) == InnerNode(ks[..KeyCount(d)], cs[..KeyCount(d) + 1])
  {
  }

  /* ---------- Shifted places ---------- */

  /** The places from `j` to `n` have moved up by one. */
  ghost predicate ShiftedUp<T>(a: seq<T>, b: seq<T>, j: nat, n: nat) {
    |a| == |b| && forall k :: 0 <= k < |a| ==> b[k] == a[if j < k <= n then k - 1 else k]
  }

  lemma {:induction false} ShiftedOneMore<T>(a: seq<T>, b: seq<T>, j: nat, n: nat)
    requires ShiftedUp(a, b, j, n) && 0 < j <= n < |a|
    ensures ShiftedUp(a, b[j := b[j - 1]], j - 1, n)
  {
  }

  lemma {:induction false} OneMoreFromShifted<T>(a: seq<T>, b: seq<T>, i: nat, n: nat, x: T)
    requires ShiftedUp(a, b, i, n) && i <= n < |a|
    ensures OneMoreAt(a, b[i := x], i, n, x)
  {
  }

  /** The places from `i` to `j` have moved down by one. */
  ghost predicate ShiftedDown<T>(a: seq<T>, b: seq<T>, i: nat, j: nat) {
    |a| == |b| && j < |a| && forall k :: 0 <= k < |a| ==> b[k] == a[if i <= k < j then k + 1 else k]
  }

  lemma {:induction false} DownOneMore<T>(a: seq<T>, b: seq<T>, i: nat, j: nat)
    requires ShiftedDown(a, b, i, j) && i <= j && j + 1 < |a|
    ensures ShiftedDown(a, b[j := b[j + 1]], i, j + 1)
  {
  }

  /** The places from `i` to `n` have moved up by one, and place `i` holds `x`. */
  ghost predicate OneMoreAt<T>(a: seq<T>, b: seq<T>, i: nat, n: nat, x: T) {
    |a| == |b| && forall k :: 0 <= k < |a| ==> b[k] == if k == i then x else a[if i < k <= n then k - 1 else k]
  }

  lemma {:induction false} InsertedPlaces<T>(a: seq<T>, b: seq<T>, n: nat, i: nat, x: T)
    requires i <= n < |a| && OneMoreAt(a, b, i, n, x)
    ensures b[..n + 1] == a[..n][..i] + [x] + a[..n][i..]
  {
  }

  lemma {:induction false} InnerInserted(ks0: seq<Key>, ks: seq<Key>, cs0: seq<PageId>, cs: seq<PageId>, n: nat, i: nat, key: Key, child: PageId)
    requires i <= n && n < |ks0| && n + 1 < |cs0|
    requires OneMoreAt(ks0, ks, i, n, key) && OneMoreAt(cs0, cs, i + 1, n + 1, child)
    ensures InnerNode(ks[..n + 1], cs[..n + 2]) ==
            InnerNode(ks0[..n][..i] + [key] + ks0[..n][i..], cs0[..n + 1][..i + 1] + [child] + cs0[..n + 1][i + 1..])
  {
    InsertedPlaces(ks0, ks, n, i, key);
    InsertedPlaces(cs0, cs, n + 1, i + 1, child);
  }

  lemma {:induction false} RemovedPlaces<T>(a: seq<T>, b: seq<T>, n: nat, i: nat)
    requires i < n <= |a| && ShiftedDown(a, b, i, n - 1)
    ensures b[..n - 1] == a[..n][..i] + a[..n][i + 1..]
  {
  }

  /* ---------- In place ---------- */

  class BPlusNodeView {
    const data: array<byte>

    constructor (page: array<byte>)
      requires page.Length == PAGE_SIZE
      ensures data == page
    {
      data := page;
    }

    method SetKeyCount(n: nat)
      requires data.Length == PAGE_SIZE && n < TWO_16
      modifies data
      ensures data[..] == PutU16(old(data[..]), 1, n)
    {
      CopyInto(data, 1, ToBytes(n, 2));
    }

    method InitLeaf(next: PageId)
      requires data.Length == PAGE_SIZE && -TWO_31 <= next < TWO_31
      modifies data
      ensures NodeOk(data[..]) && NodeOf(data[..]) == LeafNode([], next)
    {
      data[0] := 1;
      SetKeyCountReads(data[..], 0);
      SetKeyCount(0);
      NextLeafReads(data[..], next);
      CopyInto(data, 3, ToBytes(Unsigned32(next), 4));
    }

    method InitInternal()
      requires data.Length == PAGE_SIZE
      modifies data
      ensures !IsLeaf(data[..]) && KeyCount(data[..]) == 0
    {
      data[0] := 0;
      SetKeyCountReads(data[..], 0);
      SetKeyCount(0);
      NextLeafReads(data[..], INVALID_PAGE);
      CopyInto(data, 3, ToBytes(Unsigned32(INVALID_PAGE), 4));
    }

    method SetNextLeafId(next: PageId, ghost es: seq<Entry>)
      requires data.Length == PAGE_SIZE && Places(data[..], es) && -TWO_31 <= next < TWO_31
      modifies data
      ensures Places(data[..], es) && NextLeafId(data[..]) == next
      ensures KeyCount(data[..]) == old(KeyCount(data[..])) && IsLeaf(data[..]) == old(IsLeaf(data[..]))
    {
      NextLeafReads(data[..], next);
      NextLeafPlaces(data[..], next, es);
      CopyInto(data, 3, ToBytes(Unsigned32(next), 4));
    }

    method SetEntry(i: nat, e: Entry)
      requires data.Length == PAGE_SIZE && i < LEAF_MAX && EntryFits(e)
      modifies data
      ensures data[..] == SetLeafEntry(old(data[..]), i, e)
    {
      var p := EntryPos(i);
      CopyInto(data, p, ToBytes(Unsigned64(e.key), 8));
      CopyInto(data, p + 8, ToBytes(Unsigned32(e.rid.page), 4));
      CopyInto(data, p + 12, ToBytes(e.rid.slot, 2));
    }

    method SetPlace(i: nat, e: Entry, ghost es: seq<Entry>)
      requires data.Length == PAGE_SIZE && i < LEAF_MAX && EntryFits(e) && Places(data[..], es)
      modifies data
      ensures Places(data[..], es[i := e]) && SameHeader(old(data[..]), data[..])
    {
      PlacesSet(data[..], es, i, e);
      SetEntry(i, e);
    }

    method GetPlace(i: nat, ghost es: seq<Entry>) returns (e: Entry)
      requires data.Length == PAGE_SIZE && i < LEAF_MAX && Places(data[..], es)
      ensures e == es[i] && EntryFits(e)
    {
      ReadEntryFits(data[..], i);
      e := LeafEntryAt(data[..], i);
    }

    /** Shifts the entries from `i` on up by one place and writes the new entry. */
    method InsertLeafEntryAt(i: nat, e: Entry)
      requires data.Length == PAGE_SIZE && IsLeaf(data[..]) && KeyCount(data[..]) < LEAF_MAX
      requires i <= KeyCount(data[..]) && EntryFits(e)
      modifies data
      ensures NodeOk(data[..])
      ensures var es := old(NodeOf(data[..])).es;
              NodeOf(data[..]) == LeafNode(es[..i] + [e] + es[i..], old(NextLeafId(data[..])))
    {
      ghost var es0 := PlacesOf(data[..]);
      LeafFromPlaces(data[..], es0);
      var n := KeyCount(data[..]);
      ghost var es := ShiftUp(i, n, e, es0);
      RecountLeaf(n + 1, es);
      InsertedPlaces(es0, es, n, i, e);
    }

    method ShiftUp(i: nat, n: nat, e: Entry, ghost es0: seq<Entry>) returns (ghost es: seq<Entry>)
      requires data.Length == PAGE_SIZE && Places(data[..], es0) && i <= n < LEAF_MAX && EntryFits(e)
      modifies data
      ensures Places(data[..], es) && SameHeader(old(data[..]), data[..])
      ensures OneMoreAt(es0, es, i, n, e)
    {
      es := es0;
      var j := n;
      while j > i
        invariant i <= j <= n && Places(data[..], es) && SameHeader(old(data[..]), data[..])
        invariant ShiftedUp(es0, es, j, n)
      {
        CopyPlace(j - 1, j, es);
        ShiftedOneMore(es0, es, j, n);
        es := es[j := es[j - 1]];
        j := j - 1;
      }
      SetPlace(i, e, es);
      OneMoreFromShifted(es0, es, i, n, e);
      es := es[i := e];
    }

    method CopyPlace(from: nat, to: nat, ghost es: seq<Entry>)
      requires data.Length == PAGE_SIZE && from < LEAF_MAX && to < LEAF_MAX && Places(data[..], es)
      modifies data
      ensures Places(data[..], es[to := es[from]]) && SameHeader(old(data[..]), data[..])
    {
      var e := GetPlace(from, es);
      SetPlace(to, e, es);
    }

    /** Sets the key count of a leaf whose places are known. */
    method RecountLeaf(n: nat, ghost es: seq<Entry>)
      requires data.Length == PAGE_SIZE && Places(data[..], es) && IsLeaf(data[..]) && n <= LEAF_MAX
      modifies data
      ensures NodeOk(data[..]) && NodeOf(data[..]) == LeafNode(es[..n], old(NextLeafId(data[..])))
    {
      PlacesCounted(data[..], es, n);
      SetKeyCountReads(data[..], n);
      SetKeyCount(n);
      LeafFromPlaces(data[..], es);
    }

    /** Shifts the entries behind `i` down by one place. */
    method RemoveLeafEntryAt(i: nat)
      requires data.Length == PAGE_SIZE && IsLeaf(data[..]) && NodeOk(data[..]) && i < KeyCount(data[..])
      modifies data
      ensures NodeOk(data[..])
      ensures NodeOf(data[..]) == LeafNode(Search.Without(old(NodeOf(data[..])).es, i), old(NextLeafId(data[..])))
    {
      ghost var es0 := PlacesOf(data[..]);
      LeafFromPlaces(data[..], es0);
      var n := KeyCount(data[..]);
      ghost var es := ShiftDown(i, n, es0);
      RecountLeaf(n - 1, es);
      RemovedPlaces(es0, es, n, i);
    }

    method ShiftDown(i: nat, n: nat, ghost es0: seq<Entry>) returns (ghost es: seq<Entry>)
      requires data.Length == PAGE_SIZE && Places(data[..], es0) && i < n <= LEAF_MAX
      modifies data
      ensures Places(data[..], es) && SameHeader(old(data[..]), data[..])
      ensures ShiftedDown(es0, es, i, n - 1)
    {
      es := es0;
      var j := i;
      while j + 1 < n
        invariant i <= j < n && Places(data[..], es) && SameHeader(old(data[..]), data[..])
        invariant ShiftedDown(es0, es, i, j)
      {
        CopyPlace(j + 1, j, es);
        DownOneMore(es0, es, i, j);
        es := es[j := es[j + 1]];
        j := j + 1;
      }
    }

    /** Shifts keys and children up by one place and writes the new key and its right child. */
    method InsertInternalKeyChildAt(i: nat, key: Key, child: PageId)
      requires data.Length == PAGE_SIZE && !IsLeaf(data[..]) && KeyCount(data[..]) < INNER_MAX
      requires i <= KeyCount(data[..]) && -TWO_63 <= key < TWO_63 && -TWO_31 <= child < TWO_31
      modifies data
      ensures NodeOk(data[..])
      ensures var x := old(NodeOf(data[..]));
              NodeOf(data[..]) == InnerNode(x.keys[..i] + [key] + x.keys[i..], x.kids[..i + 1] + [child] + x.kids[i + 1..])
    {
      ghost var ks0, cs0 := InnerPlacesOf(data[..]);
      var n := KeyCount(data[..]);
      ghost var ks, cs := ShiftInner(i, key, child, ks0, cs0);
      RecountInner(n + 1, ks, cs);
      InnerInserted(ks0, ks, cs0, cs, n, i, key, child);
    }

    method ShiftInner(i: nat, key: Key, child: PageId, ghost ks0: seq<Key>, ghost cs0: seq<PageId>)
      returns (ghost ks: seq<Key>, ghost cs: seq<PageId>)
      requires data.Length == PAGE_SIZE && InnerPlaces(data[..], ks0, cs0) && i <= KeyCount(data[..]) < INNER_MAX
      requires -TWO_63 <= key < TWO_63 && -TWO_31 <= child < TWO_31
      modifies data
      ensures InnerPlaces(data[..], ks, cs) && SameHeader(old(data[..]), data[..])
      ensures OneMoreAt(ks0, ks, i, old(KeyCount(data[..])), key) && OneMoreAt(cs0, cs, i + 1, old(KeyCount(data[..])) + 1, child)
    {
      ks := ShiftKeys(i, key, ks0, cs0);
      cs := ShiftChildren(i + 1, child, ks, cs0);
    }

    method RecountInner(n: nat, ghost ks: seq<Key>, ghost cs: seq<PageId>)
      requires data.Length == PAGE_SIZE && InnerPlaces(data[..], ks, cs) && !IsLeaf(data[..]) && n <= INNER_MAX
      modifies data
      ensures NodeOk(data[..]) && NodeOf(data[..]) == InnerNode(ks[..n], cs[..n + 1])
    {
      InnerCounted(data[..], ks, cs, n);
      SetKeyCountReads(data[..], n);
      SetKeyCount(n);
      InnerFromPlaces(data[..], ks, cs);
    }

    method SetKey(i: nat, key: Key, ghost ks: seq<Key>, ghost cs: seq<PageId>)
      requires data.Length == PAGE_SIZE && InnerPlaces(data[..], ks, cs) && i < INNER_MAX && -TWO_63 <= key < TWO_63
      modifies data
      ensures InnerPlaces(data[..], ks[i := key], cs) && SameHeader(old(data[..]), data[..])
    {
      KeySet(data[..], ks, cs, i, key);
      CopyInto(data, KeyPos(i), ToBytes(Unsigned64(key), 8));
    }

    method SetChild(i: nat, child: PageId, ghost ks: seq<Key>, ghost cs: seq<PageId>)
      requires data.Length == PAGE_SIZE && InnerPlaces(data[..], ks, cs) && i <= INNER_MAX && -TWO_31 <= child < TWO_31
      modifies data
      ensures InnerPlaces(data[..], ks, cs[i := child]) && SameHeader(old(data[..]), data[..])
    {
      ChildSet(data[..], ks, cs, i, child);
      CopyInto(data, ChildPos(i), ToBytes(Unsigned32(child), 4));
    }

    method CopyKey(from: nat, to: nat, ghost ks: seq<Key>, ghost cs: seq<PageId>)
      requires data.Length == PAGE_SIZE && InnerPlaces(data[..], ks, cs) && from < INNER_MAX && to < INNER_MAX
      modifies data
      ensures InnerPlaces(data[..], ks[to := ks[from]], cs) && SameHeader(old(data[..]), data[..])
    {
      var key := KeyAt(data[..], from);
      SetKey(to, key, ks, cs);
    }

    method CopyChild(from: nat, to: nat, ghost ks: seq<Key>, ghost cs: seq<PageId>)
      requires data.Length == PAGE_SIZE && InnerPlaces(data[..], ks, cs) && from <= INNER_MAX && to <= INNER_MAX
      modifies data
      ensures InnerPlaces(data[..], ks, cs[to := cs[from]]) && SameHeader(old(data[..]), data[..])
    {
      var child := ChildAt(data[..], from);
      SetChild(to, child, ks, cs);
    }

    method ShiftKeys(i: nat, key: Key, ghost ks0: seq<Key>, ghost cs0: seq<PageId>) returns (ghost ks: seq<Key>)
      requires data.Length == PAGE_SIZE && InnerPlaces(data[..], ks0, cs0)
      requires i <= KeyCount(data[..]) < INNER_MAX && -TWO_63 <= key < TWO_63
      modifies data
      ensures InnerPlaces(data[..], ks, cs0) && SameHeader(old(data[..]), data[..])
      ensures OneMoreAt(ks0, ks, i, old(KeyCount(data[..])), key)
    {
      ks := ks0;
      var n := KeyCount(data[..]);
      var j := n;
      while j > i
        invariant i <= j <= n && InnerPlaces(data[..], ks, cs0) && SameHeader(old(data[..]), data[..])
        invariant ShiftedUp(ks0, ks, j, n)
      {
        CopyKey(j - 1, j, ks, cs0);
        ShiftedOneMore(ks0, ks, j, n);
        ks := ks[j := ks[j - 1]];
        j := j - 1;
      }
      SetKey(i, key, ks, cs0);
      OneMoreFromShifted(ks0, ks, i, n, key);
      ks := ks[i := key];
    }

    method ShiftChildren(i: nat, child: PageId, ghost ks0: seq<Key>, ghost cs0: seq<PageId>) returns (ghost cs: seq<PageId>)
      requires data.Length == PAGE_SIZE && InnerPlaces(data[..], ks0, cs0)
      requires i <= KeyCount(data[..]) + 1 <= INNER_MAX && -TWO_31 <= child < TWO_31
      modifies data
      ensures InnerPlaces(data[..], ks0, cs) && SameHeader(old(data[..]), data[..])
      ensures OneMoreAt(cs0, cs, i, old(KeyCount(data[..])) + 1, child)
    {
      cs := cs0;
      var n := KeyCount(data[..]) + 1;
      var j := n;
      while j > i
        invariant i <= j <= n && InnerPlaces(data[..], ks0, cs) && SameHeader(old(data[..]), data[..])
        invariant ShiftedUp(cs0, cs, j, n)
      {
        CopyChild(j - 1, j, ks0, cs);
        ShiftedOneMore(cs0, cs, j, n);
        cs := cs[j := cs[j - 1]];
        j := j - 1;
      }
      SetChild(i, child, ks0, cs);
      OneMoreFromShifted(cs0, cs, i, n, child);
      cs := cs[i := child];
    }
  }

  lemma {:induction false} NextLeafReads(d: PageBytes, next: PageId)
    requires -TWO_31 <= next < TWO_31
    ensures var e := PutI32(d, 3, next);
            NextLeafId(e) == next && KeyCount(e) == KeyCount(d) && IsLeaf(e) == IsLeaf(d)
  {
    PutI32Reads(d, 3, next);
    PutField(d, 3, ToBytes(Unsigned32(next), 4), 1, 2);
    PutField(d, 3, ToBytes(Unsigned32(next), 4), 0, 1);
    assert Field(PutI32(d, 3, next), 0, 1)[0] == Field(d, 0, 1)[0];
  }

  lemma {:induction false} NextLeafPlaces(d: PageBytes, next: PageId, es: seq<Entry>)
    requires Places(d, es) && -TWO_31 <= next < TWO_31
    ensures Places(PutI32(d, 3, next), es)
  {
    var s, e := ToBytes(Unsigned32(next), 4), PutI32(d, 3, next);
    forall k | 0 <= k < LEAF_MAX ensures LeafEntryAt(e, k) == es[k] {
      PutField(d, 3, s, EntryPos(k), 8);
      PutField(d, 3, s, EntryPos(k) + 8, 4);
      PutField(d, 3, s, EntryPos(k) + 12, 2);
    }
  }
}
