/** Rows stored as encoded records in a heap file, as a map from record ids to rows. */
module RecordManager {
  import opened Types
  import opened Bytes
  import opened Values
  import opened SlottedPageModel
  import opened HeapModel
  import opened IndexScan
  import C = RecordCodec

  type RowMap = map<RecordId, Row>
  type Encoder = Row -> Result<seq<byte>>
  type Decoder = seq<byte> -> Result<Row>

  /** A codec that reads back what it writes, and never writes an empty record. */
  ghost predicate CodecOk(encode: Encoder, decode: Decoder) {
    forall row :: match encode(row)
                  case Success(bs) => bs != [] && decode(bs) == Success(row)
                  case Failure(st) => st == InvalidArgument
  }

  function EncoderFor(schema: Schema, dc: C.DoubleCodec): Encoder {
    row => if C.RowRepresentable(row, dc) then C.Encode(schema, row, dc) else Failure(InvalidArgument)
  }

  function DecoderFor(schema: Schema, dc: C.DoubleCodec): Decoder {
    bs => C.Decode(schema, bs, dc)
  }

  /** The record codec of a table with at least one column is such a codec. */
  lemma {:induction false} RecordCodecOk(schema: Schema, dc: C.DoubleCodec)
    requires |schema| > 0
    ensures CodecOk(EncoderFor(schema, dc), DecoderFor(schema, dc))
  {
    forall row ensures var r := EncoderFor(schema, dc)(row);
                       if r.Success? then r.value != [] && C.Decode(schema, r.value, dc) == Success(row)
                       else r.status == InvalidArgument
    {
      if C.RowRepresentable(row, dc) && C.Encode(schema, row, dc).Success? {
        C.RoundTrip(schema, row, dc, []);
        assert C.Encode(schema, row, dc).value + [] == C.Encode(schema, row, dc).value;
        C.EncodedLength(schema, row, dc);
      }
    }
  }

  /** The row can be encoded, in no more bytes than an empty page has room for. */
  predicate Storable(encode: Encoder, row: Row) {
    encode(row).Success? && |encode(row).value| <= MAX_RECORD
  }

  /** The bytes stored under an id of this heap file. */
  ghost function BytesAt(h: Heap, rid: RecordId): Option<seq<byte>> {
    if rid.page in h.chain then Lookup(h.pages, rid) else None
  }

  ghost predicate RowHeld(h: Heap, encode: Encoder, rows: RowMap, rid: RecordId) {
    match BytesAt(h, rid)
    case None => rid !in rows
    case Some(bs) => rid in rows && encode(rows[rid]) == Success(bs)
  }

  /** The heap file holds exactly the encoded rows. */
  ghost predicate Holds(h: Heap, encode: Encoder, rows: RowMap) {
    forall rid :: RowHeld(h, encode, rows, rid)
  }

  lemma {:induction false} RowStored(h: Heap, encode: Encoder, rows: RowMap, rid: RecordId)
    requires Holds(h, encode, rows)
    ensures rid in rows ==> rid.page in h.chain && Lookup(h.pages, rid).Some?
  {
    assert RowHeld(h, encode, rows, rid);
  }

  lemma {:induction false} HoldsAfterInsert(h: Heap, encode: Encoder, rows: RowMap, row: Row, bs: seq<byte>)
    requires WellFormed(h) && Holds(h, encode, rows) && encode(row) == Success(bs) && bs != []
    ensures var o := InsertRecord(h, bs);
            && WellFormed(o.heap) && (o.result.Success? <==> |bs| <= MAX_RECORD)
            && match o.result
               case Success(rid) => rid !in rows && Holds(o.heap, encode, rows[rid := row])
               case Failure(st) => st == OutOfSpace && Holds(o.heap, encode, rows)
  {
    InsertKeeps(h, bs);
    var o := InsertRecord(h, bs);
    ChainGrows(h, bs);
    var after := if o.result.Success? then rows[o.result.value := row] else rows;
    if o.result.Success? {
      assert RowHeld(h, encode, rows, o.result.value);
    }
    forall rid ensures RowHeld(o.heap, encode, after, rid) {
      assert RowHeld(h, encode, rows, rid);
      NoRecordsBehindChain(h, bs, rid);
    }
  }

  /** An insert leaves the chain as it is or adds one page. */
  lemma {:induction false} ChainGrows(h: Heap, bs: seq<byte>)
    requires WellFormed(h)
    ensures var o := InsertRecord(h, bs);
            o.heap.chain == h.chain || (o.heap.chain == h.chain + [h.next] && h.next !in h.pages)
  {
  }

  lemma {:induction false} NoRecordsBehindChain(h: Heap, bs: seq<byte>, rid: RecordId)
    requires WellFormed(h)
    ensures rid.page in h.chain ==> rid.page in InsertRecord(h, bs).heap.chain
    ensures rid.page in InsertRecord(h, bs).heap.chain && rid.page !in h.chain ==> Lookup(h.pages, rid) == None
  {
    ChainGrows(h, bs);
  }

  /** A deletion takes the row with it; an id on a page of another heap file leaves the rows alone. */
  lemma {:induction false} HoldsAfterDelete(h: Heap, encode: Encoder, rows: RowMap, rid: RecordId)
    requires WellFormed(h) && Holds(h, encode, rows)
    ensures var o := DeleteRecord(h, rid);
            && WellFormed(o.heap) && Holds(o.heap, encode, rows - {rid})
            && o.result == (if Lookup(h.pages, rid).Some? then Success(rid) else Failure(NotFound))
            && (rid.page in h.chain ==> (Lookup(h.pages, rid).Some? <==> rid in rows))
  {
    var o := DeleteRecord(h, rid);
    assert RowHeld(h, encode, rows, rid);
    if o.result.Success? {
      ReplaceKeeps(h, rid.page, rid.slot, []);
    }
    forall x ensures RowHeld(o.heap, encode, rows - {rid}, x) {
      assert RowHeld(h, encode, rows, x);
    }
  }

  lemma {:induction false} HoldsAfterReplace(h: Heap, encode: Encoder, rows: RowMap, rid: RecordId, row: Row, bs: seq<byte>)
    requires WellFormed(h) && Holds(h, encode, rows) && encode(row) == Success(bs) && bs != []
    requires var before := Lookup(h.pages, rid); before.Some? && |bs| <= |before.value|
    ensures var o := UpdateRecord(h, rid, bs);
            && WellFormed(o.heap) && o.result == Success(rid)
            && Holds(o.heap, encode, if rid.page in h.chain then rows[rid := row] else rows)
  {
    var o := UpdateRecord(h, rid, bs);
    ReplaceKeeps(h, rid.page, rid.slot, bs);
    assert RowHeld(h, encode, rows, rid);
    var after := if rid.page in h.chain then rows[rid := row] else rows;
    forall x ensures RowHeld(o.heap, encode, after, x) {
      assert RowHeld(h, encode, rows, x);
    }
  }

  /** What an update does to the rows: in place, moved to a free id, refused, or lost. */
  ghost predicate UpdateOutcome(before: RowMap, after: RowMap, rid: RecordId, row: Row, result: Result<RecordId>) {
    match result
    case Success(to) => rid in before && (to == rid || to !in before) && after == (before - {rid})[to := row]
    case Failure(OutOfSpace) => rid in before && after == before - {rid}
    case Failure(_) => after == before
  }

  /**
   What an update does when the id lies on a page of another heap file: a record that grows is
   taken from there and becomes a row here; otherwise no row changes.
   */
  ghost predicate ForeignOutcome(before: RowMap, after: RowMap, rid: RecordId, row: Row, result: Result<RecordId>) {
    match result
    case Success(to) => if to == rid then after == before else to !in before && after == before[to := row]
    case Failure(_) => after == before
  }

  lemma {:induction false} HoldsAfterUpdate(h: Heap, encode: Encoder, rows: RowMap, rid: RecordId, row: Row, bs: seq<byte>)
    returns (after: RowMap)
    requires WellFormed(h) && Holds(h, encode, rows) && encode(row) == Success(bs) && bs != []
    ensures var o := UpdateRecord(h, rid, bs);
            && WellFormed(o.heap) && Holds(o.heap, encode, after)
            && (Lookup(h.pages, rid).None? ==> o.result == Failure(NotFound))
            && (Lookup(h.pages, rid).Some? && |bs| <= MAX_RECORD ==> o.result.Success?)
            && if rid.page in h.chain then
                 UpdateOutcome(rows, after, rid, row, o.result) && (Lookup(h.pages, rid).Some? <==> rid in rows)
               else ForeignOutcome(rows, after, rid, row, o.result) && rid !in rows
  {
    assert RowHeld(h, encode, rows, rid);
    var before := Lookup(h.pages, rid);
    if before.None? {
      after := rows;
    } else if |bs| <= |before.value| {
      HoldsAfterReplace(h, encode, rows, rid, row, bs);
      after := if rid.page in h.chain then rows[rid := row] else rows;
      assert rid.page in h.chain ==> after == (rows - {rid})[rid := row];
    } else {
      HoldsAfterDelete(h, encode, rows, rid);
      var d := DeleteRecord(h, rid).heap;
      HoldsAfterInsert(d, encode, rows - {rid}, row, bs);
      var o := InsertRecord(d, bs);
      after := if o.result.Success? then (rows - {rid})[o.result.value := row] else rows - {rid};
      assert rid !in rows ==> rows - {rid} == rows;
      if o.result.Success? {
        assert RowHeld(o.heap, encode, after, o.result.value);
        ChainGrows(d, bs);
      }
    }
  }

  /* ---------- Scanning ---------- */

  /** The tuples of a list of records, leaving out those that do not decode. */
  function Decoded(items: seq<Item>, decode: Decoder): seq<Tuple> {
    if |items| == 0 then []
    else
      var r := decode(items[0].bytes);
      (if r.Success? then [Tuple(items[0].rid, r.value)] else []) + Decoded(items[1..], decode)
  }

  /** The tuples are the rows, each once. */
  ghost predicate Lists(t: Table, rows: RowMap) {
    Distinct(t) && forall x :: x in t <==> x.rid in rows && rows[x.rid] == x.values
  }

  lemma {:induction false} DecodedItems(items: seq<Item>, decode: Decoder, x: Tuple)
    ensures x in Decoded(items, decode) <==> exists k :: 0 <= k < |items| && ItemDecodes(items[k], decode, x)
  {
    if |items| > 0 {
      DecodedItems(items[1..], decode, x);
      if exists k :: 0 <= k < |items[1..]| && ItemDecodes(items[1..][k], decode, x) {
        var k :| 0 <= k < |items[1..]| && ItemDecodes(items[1..][k], decode, x);
        assert ItemDecodes(items[k + 1], decode, x);
      }
      if exists k :: 0 <= k < |items| && ItemDecodes(items[k], decode, x) {
        var k :| 0 <= k < |items| && ItemDecodes(items[k], decode, x);
        assert k > 0 ==> ItemDecodes(items[1..][k - 1], decode, x);
      }
    }
  }

  predicate ItemDecodes(item: Item, decode: Decoder, x: Tuple) {
    item.rid == x.rid && decode(item.bytes) == Success(x.values)
  }

  lemma {:induction false} DecodedDistinct(items: seq<Item>, decode: Decoder)
    requires DistinctIds(items)
    ensures Distinct(Decoded(items, decode))
  {
    if |items| > 0 {
      DecodedDistinct(items[1..], decode);
      var rest := Decoded(items[1..], decode);
      forall j | 0 <= j < |rest| ensures rest[j].rid != items[0].rid {
        DecodedItems(items[1..], decode, rest[j]);
      }
    }
  }

  /** Scanning the heap file and decoding lists every row exactly once. */
  lemma {:induction false} ScanLists(h: Heap, encode: Encoder, decode: Decoder, rows: RowMap)
    requires WellFormed(h) && Holds(h, encode, rows) && CodecOk(encode, decode)
    ensures ChainPages(h.pages, h.chain) && Lists(Decoded(ScanChain(h.pages, h.chain), decode), rows)
  {
    ScanExact(h.pages, h.chain);
    var items := ScanChain(h.pages, h.chain);
    DecodedDistinct(items, decode);
    forall x ensures x in Decoded(items, decode) <==> x.rid in rows && rows[x.rid] == x.values {
      ScannedRow(h, encode, decode, rows, items, x);
    }
  }

  lemma {:induction false} ScannedRow(h: Heap, encode: Encoder, decode: Decoder, rows: RowMap, items: seq<Item>, x: Tuple)
    requires Holds(h, encode, rows) && CodecOk(encode, decode)
    requires forall i :: i in items <==> i.rid.page in h.chain && Lookup(h.pages, i.rid) == Some(i.bytes)
    ensures x in Decoded(items, decode) <==> x.rid in rows && rows[x.rid] == x.values
  {
    DecodedItems(items, decode, x);
    assert RowHeld(h, encode, rows, x.rid);
    if x in Decoded(items, decode) {
      var k :| 0 <= k < |items| && ItemDecodes(items[k], decode, x);
      assert items[k] in items;
      assert encode(rows[x.rid]).Success?;
    }
    if x.rid in rows && rows[x.rid] == x.values {
      var item := Item(x.rid, BytesAt(h, x.rid).value);
      assert item in items;
      var k :| 0 <= k < |items| && items[k] == item;
      assert encode(x.values).Success?;
      assert ItemDecodes(items[k], decode, x);
    }
  }

  class RecordManager {
    const encode: Encoder
    const decode: Decoder
    var heap: Heap
    ghost var rows: RowMap

    ghost predicate Valid()
      reads this
    {
      WellFormed(heap) && CodecOk(encode, decode) && Holds(heap, encode, rows)
    }

    /** Opens a heap file whose records are exactly the encoded rows. */
    constructor (h: Heap, e: Encoder, d: Decoder, ghost rs: RowMap)
      requires WellFormed(h) && CodecOk(e, d) && Holds(h, e, rs)
      ensures Valid() && rows == rs && encode == e && decode == d
    {
      encode, decode, heap, rows := e, d, h, rs;
    }

    method InsertRow(row: Row) returns (result: Result<RecordId>)
      requires Valid()
      modifies this
      ensures Valid()
      ensures match result
              case Success(rid) => rid !in old(rows) && rows == old(rows)[rid := row]
              case Failure(_) => rows == old(rows)
      ensures result.Success? <==> Storable(encode, row)
    {
      var encoded := encode(row);
      if encoded.Failure? {
        return Failure(encoded.status);
      }
      if |encoded.value| > 0xFFFF {
        return Failure(InvalidArgument);
      }
      HoldsAfterInsert(heap, encode, rows, row, encoded.value);
      var o := InsertRecord(heap, encoded.value);
      heap := o.heap;
      result := o.result;
      if result.Success? {
        rows := rows[result.value := row];
      }
    }

    method GetRow(rid: RecordId) returns (result: Result<Row>)
      requires Valid()
      ensures rid in rows ==> result == Success(rows[rid])
      ensures rid !in rows && rid.page in heap.chain ==> result == Failure(NotFound)
      ensures Lookup(heap.pages, rid).None? ==> result == Failure(NotFound)
      ensures Lookup(heap.pages, rid).Some? ==> result == decode(Lookup(heap.pages, rid).value)
    {
      assert RowHeld(heap, encode, rows, rid);
      var bs := Lookup(heap.pages, rid);
      if bs.None? {
        return Failure(NotFound);
      }
      result := decode(bs.value);
    }

    method UpdateRow(rid: RecordId, row: Row) returns (result: Result<RecordId>)
      requires Valid()
      modifies this
      ensures Valid()
      ensures if rid.page in old(heap.chain) then UpdateOutcome(old(rows), rows, rid, row, result)
              else ForeignOutcome(old(rows), rows, rid, row, result)
      ensures old(Lookup(heap.pages, rid)).None? ==> result.Failure? && rows == old(rows)
      ensures old(Lookup(heap.pages, rid)).Some? && Storable(encode, row) ==> result.Success?
      ensures rid in old(rows) ==> old(Lookup(heap.pages, rid)).Some? && rid.page in old(heap.chain)
    {
      RowStored(heap, encode, rows, rid);
      var encoded := encode(row);
      if encoded.Failure? {
        return Failure(encoded.status);
      }
      if |encoded.value| > 0xFFFF {
        return Failure(InvalidArgument);
      }
      ghost var after := HoldsAfterUpdate(heap, encode, rows, rid, row, encoded.value);
      var o := UpdateRecord(heap, rid, encoded.value);
      heap := o.heap;
      rows := after;
      result := o.result;
    }

    method DeleteRow(rid: RecordId) returns (status: Status)
      requires Valid()
      modifies this
      ensures Valid() && rows == old(rows) - {rid}
      ensures status == if old(Lookup(heap.pages, rid)).Some? then Ok else NotFound
      ensures rid.page in old(heap.chain) ==> (status == Ok <==> rid in old(rows))
      ensures rid in old(rows) ==> status == Ok
    {
      RowStored(heap, encode, rows, rid);
      HoldsAfterDelete(heap, encode, rows, rid);
      var o := DeleteRecord(heap, rid);
      heap := o.heap;
      rows := rows - {rid};
      status := if o.result.Success? then Ok else o.result.status;
    }

    method Scan() returns (t: Table)
      requires Valid()
      ensures Lists(t, rows)
    {
      ScanLists(heap, encode, decode, rows);
      t := Decoded(ScanChain(heap.pages, heap.chain), decode);
    }
  }
}
