/** Rows as bytes: a bitmap of the NULLs, then the other values one after another. */
module RecordCodec {
  import opened Types
  import opened Bytes
  import opened Values

  /** How doubles are written; the engine copies their eight bytes. */
  datatype DoubleCodec = DoubleCodec(toBytes: real -> seq<byte>, fromBytes: seq<byte> -> real)

  predicate Lawful(dc: DoubleCodec, d: real) {
    |dc.toBytes(d)| == 8 && dc.fromBytes(dc.toBytes(d)) == d
  }

  /** The value is one the engine's types can hold; strings are strings of bytes. */
  predicate Representable(v: Value, dc: DoubleCodec) {
    match v
    case Null => true
    case Int32(i) => -TWO_31 <= i < TWO_31
    case Int64(n) => -TWO_63 <= n < TWO_63
    case Double(d) => Lawful(dc, d)
    case Bool(_) => true
    case Text(s) => ByteString(s)
  }

  predicate ByteString(s: string) {
    forall i :: 0 <= i < |s| ==> s[i] as int < 256
  }

  predicate RowRepresentable(row: Row, dc: DoubleCodec) {
    forall i :: 0 <= i < |row| ==> Representable(row[i], dc)
  }

  /** Whether a column takes a value. */
  predicate Accepts(c: Column, v: Value) {
    && MatchesType(v, c.ctype)
    && (v.Null? ==> c.nullable)
    && (v.Text? ==> |v.s| <= c.maxLength && |v.s| <= 0xFFFF)
  }

  function TextBytes(s: string): (bs: seq<byte>)
    requires ByteString(s)
    ensures |bs| == |s|
  {
    if |s| == 0 then [] else [s[0] as int] + TextBytes(s[1..])
  }

  function BytesText(bs: seq<byte>): string {
    if |bs| == 0 then [] else [bs[0] as char] + BytesText(bs[1..])
  }

  function FieldBytes(v: Value, dc: DoubleCodec): seq<byte>
    requires Representable(v, dc)
  {
    match v
    case Null => []
    case Int32(i) => ToBytes(Unsigned32(i), 4)
    case Int64(n) => ToBytes(Unsigned64(n), 8)
    case Double(d) => dc.toBytes(d)
    case Bool(b) => [if b then 1 else 0]
    case Text(s) => ToBytes(|s|, 2) + TextBytes(s)
  }

  /* ---------- The bitmap ---------- */

  function Pow2(k: nat): nat {
    if k == 0 then 1 else 2 * Pow2(k - 1)
  }

  /** Bit `k` of a number. */
  predicate Bit(b: nat, k: nat) {
    if k == 0 then b % 2 == 1 else Bit(b / 2, k - 1)
  }

  /** The number with bit `k` set (a bitwise OR). */
  function SetBit(b: nat, k: nat): nat {
    if k == 0 then b / 2 * 2 + 1 else SetBit(b / 2, k - 1) * 2 + b % 2
  }

  lemma {:induction false} Halved(b: nat, p: nat)
    requires b < 2 * p
    ensures b / 2 < p
  {
  }

  lemma {:induction false} SetBitBound(b: nat, k: nat, w: nat)
    requires k < w && b < Pow2(w)
    ensures SetBit(b, k) < Pow2(w)
  {
    assert Pow2(w) == 2 * Pow2(w - 1);
    Halved(b, Pow2(w - 1));
    if k > 0 {
      SetBitBound(b / 2, k - 1, w - 1);
      assert SetBit(b, k) == SetBit(b / 2, k - 1) * 2 + b % 2;
    }
  }

  lemma {:induction false} SetBitBits(b: nat, k: nat, j: nat)
    ensures Bit(SetBit(b, k), j) <==> j == k || Bit(b, j)
  {
    if j > 0 && k > 0 {
      SetBitBits(b / 2, k - 1, j - 1);
    }
  }

  lemma {:induction false} ZeroBits(j: nat)
    ensures !Bit(0, j)
  {
    if j > 0 {
      ZeroBits(j - 1);
    }
  }

  function BitmapSize(n: nat): nat {
    (n + 7) / 8
  }

  function SetBitAt(bs: seq<byte>, i: nat): (r: seq<byte>)
    requires i / 8 < |bs|
    ensures |r| == |bs|
  {
    assert Pow2(8) == 256 by { assert Pow2(4) == 16; }
    SetBitBound(bs[i / 8], i % 8, 8);
    bs[i / 8 := SetBit(bs[i / 8], i % 8)]
  }

  predicate BitAt(bs: seq<byte>, i: nat)
    requires i / 8 < |bs|
  {
    Bit(bs[i / 8], i % 8)
  }

  /** The bitmap after the first `i` columns. */
  function NullMarks(row: Row, i: nat): (bs: seq<byte>)
    requires i <= |row|
    ensures |bs| == BitmapSize(|row|)
  {
    if i == 0 then seq(BitmapSize(|row|), _ => 0)
    else if row[i - 1].Null? then SetBitAt(NullMarks(row, i - 1), i - 1)
    else NullMarks(row, i - 1)
  }

  /** A bit of the bitmap is set exactly for the NULLs. */
  lemma {:induction false} NullMarksBits(row: Row, i: nat, j: nat)
    requires i <= |row| && j < |row|
    ensures BitAt(NullMarks(row, i), j) <==> j < i && row[j].Null?
  {
    if i == 0 {
      ZeroBits(j % 8);
    } else {
      NullMarksBits(row, i - 1, j);
      var bs := NullMarks(row, i - 1);
      SetBitBits(bs[(i - 1) / 8], (i - 1) % 8, j % 8);
      assert j == i - 1 <==> j / 8 == (i - 1) / 8 && j % 8 == (i - 1) % 8;
    }
  }

  /* ---------- Encoding ---------- */

  predicate AcceptsRow(schema: Schema, row: Row) {
    |row| == |schema| && forall i :: 0 <= i < |row| ==> Accepts(schema[i], row[i])
  }

  function Fields(vs: Row, dc: DoubleCodec): seq<byte>
    requires RowRepresentable(vs, dc)
  {
    if |vs| == 0 then [] else FieldBytes(vs[0], dc) + Fields(vs[1..], dc)
  }

  function Encode(schema: Schema, row: Row, dc: DoubleCodec): Result<seq<byte>>
    requires RowRepresentable(row, dc)
  {
    if AcceptsRow(schema, row) then Success(NullMarks(row, |row|) + Fields(row, dc)) else Failure(InvalidArgument)
  }

  /** The bytes a value takes besides its bit. */
  function Width(v: Value): nat {
    match v
    case Null => 0
    case Int32(_) => 4
    case Int64(_) => 8
    case Double(_) => 8
    case Bool(_) => 1
    case Text(s) => 2 + |s|
  }

  function Widths(vs: Row): nat {
    if |vs| == 0 then 0 else Width(vs[0]) + Widths(vs[1..])
  }

  /** An encoded row takes one bit per column, and bytes for the values that are not NULL only. */
  lemma {:induction false} EncodedLength(schema: Schema, row: Row, dc: DoubleCodec)
    requires RowRepresentable(row, dc) && AcceptsRow(schema, row)
    ensures |Encode(schema, row, dc).value| == (|row| + 7) / 8 + Widths(row)
  {
    FieldsLength(row, dc);
  }

  lemma {:induction false} FieldsLength(vs: Row, dc: DoubleCodec)
    requires RowRepresentable(vs, dc)
    ensures |Fields(vs, dc)| == Widths(vs)
  {
    if |vs| > 0 {
      FieldsLength(vs[1..], dc);
    }
  }

  /* ---------- Decoding ---------- */

  /** A value and the position behind it. */
  datatype Field = Field(value: Value, next: nat)

  function DecodeField(t: ColumnType, bs: seq<byte>, p: nat, dc: DoubleCodec): (r: Result<Field>)
    ensures r.Success? ==> p <= r.value.next <= |bs| && MatchesType(r.value.value, t)
  {
    match t
    case TInt =>
      if p + 4 > |bs| then Failure(Corruption) else Success(Field(Int32(Signed32(FromBytes(bs[p..p + 4]))), p + 4))
    case TBigInt =>
      if p + 8 > |bs| then Failure(Corruption) else Success(Field(Int64(Signed64(FromBytes(bs[p..p + 8]))), p + 8))
    case TDouble =>
      if p + 8 > |bs| then Failure(Corruption) else Success(Field(Double(dc.fromBytes(bs[p..p + 8])), p + 8))
    case TBool =>
      if p + 1 > |bs| then Failure(Corruption) else Success(Field(Bool(bs[p] != 0), p + 1))
    case TVarchar =>
      if p + 2 > |bs| then Failure(Corruption)
      else
        var n := FromBytes(bs[p..p + 2]);
        if p + 2 + n > |bs| then Failure(Corruption)
        else Success(Field(Text(BytesText(bs[p + 2..p + 2 + n])), p + 2 + n))
  }

  /** The first `n` bits of a bitmap. */
  function NullBits(bs: seq<byte>, n: nat): (nulls: seq<bool>)
    requires BitmapSize(n) <= |bs|
    ensures |nulls| == n
  {
    seq(n, i requires 0 <= i < n => BitAt(bs, i))
  }

  /** The values of the columns from `i` on, read from position `p`. */
  function DecodeFrom(schema: Schema, nulls: seq<bool>, bs: seq<byte>, i: nat, p: nat, dc: DoubleCodec): Result<Row>
    requires |nulls| == |schema|
    decreases |schema| - i
  {
    if i >= |schema| then Success([])
    else if nulls[i] then Cons(Null, DecodeFrom(schema, nulls, bs, i + 1, p, dc))
    else
      var f := DecodeField(schema[i].ctype, bs, p, dc);
      if f.Failure? then Failure(f.status)
      else Cons(f.value.value, DecodeFrom(schema, nulls, bs, i + 1, f.value.next, dc))
  }

  function Cons(v: Value, r: Result<Row>): Result<Row> {
    if r.Failure? then r else Success([v] + r.value)
  }

  function Decode(schema: Schema, bs: seq<byte>, dc: DoubleCodec): Result<Row> {
    var n := BitmapSize(|schema|);
    if |bs| < n then Failure(Corruption) else DecodeFrom(schema, NullBits(bs, |schema|), bs, 0, n, dc)
  }

  /* ---------- Round trip ---------- */

  /** The bytes `f` stand at position `p`. */
  predicate At(bs: seq<byte>, p: nat, f: seq<byte>) {
    p + |f| <= |bs| && bs[p..p + |f|] == f
  }

  lemma {:induction false} TextRoundTrip(s: string)
    requires ByteString(s)
    ensures BytesText(TextBytes(s)) == s
  {
    if |s| > 0 {
      TextRoundTrip(s[1..]);
    }
  }

  lemma {:induction false} FieldRoundTrip(c: Column, v: Value, bs: seq<byte>, p: nat, dc: DoubleCodec)
    requires Accepts(c, v) && !v.Null? && Representable(v, dc)
    requires At(bs, p, FieldBytes(v, dc))
    ensures DecodeField(c.ctype, bs, p, dc) == Success(Field(v, p + |FieldBytes(v, dc)|))
  {
    Pow256Values();
    match v
    case Int32(i) => BytesRoundTrip(Unsigned32(i), 4);
    case Int64(n) => BytesRoundTrip(Unsigned64(n), 8);
    case Double(d) =>
    case Bool(b) => assert bs[p] == bs[p..p + 1][0];
    case Text(s) =>
      BytesRoundTrip(|s|, 2);
      TextRoundTrip(s);
      var f := FieldBytes(v, dc);
      assert bs[p..p + 2] == bs[p..p + |f|][..2] == ToBytes(|s|, 2);
      assert bs[p + 2..p + |f|] == bs[p..p + |f|][2..] == TextBytes(s);
  }

  /** The values fit the columns from `i` on, and `nulls` marks the NULLs among them. */
  predicate Fits(schema: Schema, nulls: seq<bool>, i: nat, vs: Row, dc: DoubleCodec)
    requires |nulls| == |schema|
    decreases |vs|
  {
    && i + |vs| == |schema|
    && (|vs| > 0 ==>
          && Accepts(schema[i], vs[0]) && Representable(vs[0], dc) && (nulls[i] <==> vs[0].Null?)
          && Fits(schema, nulls, i + 1, vs[1..], dc))
  }

  lemma {:induction false} RowFits(schema: Schema, row: Row, nulls: seq<bool>, i: nat, dc: DoubleCodec)
    requires RowRepresentable(row, dc) && AcceptsRow(schema, row) && i <= |row| == |nulls|
    requires forall j :: 0 <= j < |row| ==> (nulls[j] <==> row[j].Null?)
    ensures Fits(schema, nulls, i, row[i..], dc)
    decreases |row| - i
  {
    if i < |row| {
      RowFits(schema, row, nulls, i + 1, dc);
      HeadTail(row, i);
    }
  }

  lemma {:induction false} HeadTail(row: Row, i: nat)
    requires i < |row|
    ensures row[i..][0] == row[i] && row[i..][1..] == row[i + 1..]
  {
  }

  /** The values of the columns from `i` on stand in the buffer at `p`. */
  predicate StoredAt(schema: Schema, nulls: seq<bool>, bs: seq<byte>, i: nat, p: nat, vs: Row, dc: DoubleCodec) {
    |nulls| == |schema| && Fits(schema, nulls, i, vs, dc) && RowRepresentable(vs, dc) && At(bs, p, Fields(vs, dc))
  }

  lemma {:induction false} FieldsRoundTrip(schema: Schema, nulls: seq<bool>, bs: seq<byte>, i: nat, p: nat, vs: Row, dc: DoubleCodec)
    requires StoredAt(schema, nulls, bs, i, p, vs, dc)
    ensures DecodeFrom(schema, nulls, bs, i, p, dc) == Success(vs)
    decreases |vs|
  {
    if |vs| > 0 {
      var q := FirstField(schema, nulls, bs, i, p, vs, dc);
      FieldsRoundTrip(schema, nulls, bs, i + 1, q, vs[1..], dc);
      DecodeStep(schema, nulls, bs, i, p, q, vs, dc);
    }
  }

  /** The position behind the first value, and what holds there. */
  lemma {:induction false} FirstField(schema: Schema, nulls: seq<bool>, bs: seq<byte>, i: nat, p: nat, vs: Row, dc: DoubleCodec)
    returns (q: nat)
    requires |vs| > 0 && StoredAt(schema, nulls, bs, i, p, vs, dc)
    ensures StoredAt(schema, nulls, bs, i + 1, q, vs[1..], dc)
    ensures i < |schema| && FieldReads(schema[i], nulls[i], vs[0], bs, p, q, dc)
  {
    HeadReads(schema, nulls, bs, i, p, vs, dc);
    TailStored(schema, nulls, bs, i, p, vs, dc);
    q := p + Width(vs[0]);
  }

  /** The first value reads back. */
  lemma {:induction false} HeadReads(schema: Schema, nulls: seq<bool>, bs: seq<byte>, i: nat, p: nat, vs: Row, dc: DoubleCodec)
    requires |vs| > 0 && StoredAt(schema, nulls, bs, i, p, vs, dc)
    ensures i < |schema| && FieldReads(schema[i], nulls[i], vs[0], bs, p, p + Width(vs[0]), dc)
  {
    HeadStored(schema, nulls, bs, i, p, vs, dc);
    var c, isNull, v := schema[i], nulls[i], vs[0];
    FieldReadsAt(c, isNull, v, bs, p, dc);
  }

  /** A value that its column takes stands in the buffer at `p`. */
  predicate FieldAt(c: Column, isNull: bool, v: Value, bs: seq<byte>, p: nat, dc: DoubleCodec) {
    Accepts(c, v) && Representable(v, dc) && (isNull <==> v.Null?) && At(bs, p, FieldBytes(v, dc))
  }

  lemma {:induction false} HeadStored(schema: Schema, nulls: seq<bool>, bs: seq<byte>, i: nat, p: nat, vs: Row, dc: DoubleCodec)
    requires |vs| > 0 && StoredAt(schema, nulls, bs, i, p, vs, dc)
    ensures i < |schema| == |nulls| && FieldAt(schema[i], nulls[i], vs[0], bs, p, dc)
  {
    FitsTail(schema, nulls, i, vs, dc);
    AtSplit(bs, p, FieldBytes(vs[0], dc), Fields(vs[1..], dc));
  }

  lemma {:induction false} TailStored(schema: Schema, nulls: seq<bool>, bs: seq<byte>, i: nat, p: nat, vs: Row, dc: DoubleCodec)
    requires |vs| > 0 && StoredAt(schema, nulls, bs, i, p, vs, dc)
    ensures StoredAt(schema, nulls, bs, i + 1, p + Width(vs[0]), vs[1..], dc)
  {
    FitsTail(schema, nulls, i, vs, dc);
    AtSplit(bs, p, FieldBytes(vs[0], dc), Fields(vs[1..], dc));
  }

  lemma {:induction false} FitsTail(schema: Schema, nulls: seq<bool>, i: nat, vs: Row, dc: DoubleCodec)
    requires |vs| > 0 && |nulls| == |schema| && Fits(schema, nulls, i, vs, dc) && RowRepresentable(vs, dc)
    ensures i < |schema| && Accepts(schema[i], vs[0]) && Representable(vs[0], dc) && (nulls[i] <==> vs[0].Null?)
    ensures Fits(schema, nulls, i + 1, vs[1..], dc) && RowRepresentable(vs[1..], dc)
    ensures Fields(vs, dc) == FieldBytes(vs[0], dc) + Fields(vs[1..], dc)
  {
  }

  lemma {:induction false} FieldReadsAt(c: Column, isNull: bool, v: Value, bs: seq<byte>, p: nat, dc: DoubleCodec)
    requires FieldAt(c, isNull, v, bs, p, dc)
    ensures FieldReads(c, isNull, v, bs, p, p + Width(v), dc)
  {
    if !v.Null? {
      FieldRoundTrip(c, v, bs, p, dc);
    }
  }

  /** The value of a column is read from `p` and ends at `q`. */
  predicate FieldReads(c: Column, isNull: bool, v: Value, bs: seq<byte>, p: nat, q: nat, dc: DoubleCodec) {
    if isNull then v.Null? && q == p else DecodeField(c.ctype, bs, p, dc) == Success(Field(v, q))
  }

  lemma {:induction false} DecodeStep(schema: Schema, nulls: seq<bool>, bs: seq<byte>, i: nat, p: nat, q: nat, vs: Row, dc: DoubleCodec)
    requires i < |schema| == |nulls| && |vs| > 0 && FieldReads(schema[i], nulls[i], vs[0], bs, p, q, dc)
    requires DecodeFrom(schema, nulls, bs, i + 1, q, dc) == Success(vs[1..])
    ensures DecodeFrom(schema, nulls, bs, i, p, dc) == Success(vs)
  {
    assert vs == [vs[0]] + vs[1..];
  }

  lemma {:induction false} AtSplit(bs: seq<byte>, p: nat, f: seq<byte>, rest: seq<byte>)
    requires At(bs, p, f + rest)
    ensures At(bs, p, f) && At(bs, p + |f|, rest)
  {
    var n, m := |f|, |rest|;
    assert bs[p..p + n] == bs[p..p + n + m][..n];
    assert bs[p + n..p + n + m] == bs[p..p + n + m][n..];
  }

  lemma {:induction false} Middle(a: seq<byte>, f: seq<byte>, b: seq<byte>)
    ensures At(a + f + b, |a|, f)
  {
  }

  lemma {:induction false} MarksRead(schema: Schema, row: Row, bs: seq<byte>, nulls: seq<bool>, dc: DoubleCodec)
    requires RowRepresentable(row, dc) && AcceptsRow(schema, row)
    requires NullMarks(row, |row|) <= bs && nulls == NullBits(bs, |row|)
    ensures Fits(schema, nulls, 0, row, dc)
  {
    var marks := NullMarks(row, |row|);
    forall j | 0 <= j < |row| ensures nulls[j] <==> row[j].Null? {
      NullMarksBits(row, |row|, j);
      assert bs[j / 8] == marks[j / 8];
    }
    RowFits(schema, row, nulls, 0, dc);
    assert row[0..] == row;
  }

  /** Decoding an encoded row gives the row back, for any number of columns and whatever follows it. */
  lemma {:induction false} RoundTrip(schema: Schema, row: Row, dc: DoubleCodec, tail: seq<byte>)
    requires RowRepresentable(row, dc) && Encode(schema, row, dc).Success?
    ensures Decode(schema, Encode(schema, row, dc).value + tail, dc) == Success(row)
  {
    var marks := NullMarks(row, |row|);
    var bs := marks + Fields(row, dc) + tail;
    var nulls := NullBits(bs, |row|);
    MarksRead(schema, row, bs, nulls, dc);
    Middle(marks, Fields(row, dc), tail);
    FieldsRoundTrip(schema, nulls, bs, 0, |marks|, row, dc);
  }

  /* ---------- The loops ---------- */

  /** Encodes column by column, setting bits of the bitmap at the front and appending values. */
  method EncodeRow(schema: Schema, row: Row, dc: DoubleCodec) returns (r: Result<seq<byte>>)
    requires RowRepresentable(row, dc)
    ensures r == Encode(schema, row, dc)
  {
    if |row| != |schema| {
      return Failure(InvalidArgument);
    }
    var out: seq<byte> := seq(BitmapSize(|schema|), _ => 0);
    var i := 0;
    EncodeStart(schema, row, dc, out);
    while i < |schema|
      invariant i <= |schema| && Encoded(schema, row, dc, i, out)
    {
      var v := row[i];
      if !Accepts(schema[i], v) {
        return Failure(InvalidArgument);
      }
      ghost var before := out;
      if v.Null? {
        out := SetBitAt(out, i);
      } else {
        out := out + FieldBytes(v, dc);
      }
      EncodeStep(schema, row, dc, i, before, out);
      i := i + 1;
    }
    EncodeEnd(schema, row, dc, out);
    r := Success(out);
  }

  /** The buffer after the first `i` columns have been accepted and written. */
  ghost predicate Encoded(schema: Schema, row: Row, dc: DoubleCodec, i: nat, out: seq<byte>)
    requires i <= |row| == |schema| && RowRepresentable(row, dc)
  {
    var n := BitmapSize(|row|);
    && (forall j :: 0 <= j < i ==> Accepts(schema[j], row[j]))
    && |out| >= n && out[..n] == NullMarks(row, i)
    && out[n..] + Fields(row[i..], dc) == Fields(row, dc)
  }

  lemma {:induction false} EncodeStart(schema: Schema, row: Row, dc: DoubleCodec, out: seq<byte>)
    requires |row| == |schema| && RowRepresentable(row, dc) && out == NullMarks(row, 0)
    ensures Encoded(schema, row, dc, 0, out)
  {
    var n := BitmapSize(|row|);
    assert out[..n] == out && row[0..] == row;
    assert out[n..] + Fields(row, dc) == Fields(row, dc);
  }

  lemma {:induction false} EncodeStep(schema: Schema, row: Row, dc: DoubleCodec, i: nat, before: seq<byte>, out: seq<byte>)
    requires i < |row| == |schema| && RowRepresentable(row, dc) && Accepts(schema[i], row[i])
    requires Encoded(schema, row, dc, i, before)
    requires out == if row[i].Null? then SetBitAt(before, i) else before + FieldBytes(row[i], dc)
    ensures Encoded(schema, row, dc, i + 1, out)
  {
    var n, f := BitmapSize(|row|), FieldBytes(row[i], dc);
    MarkStep(row, i, n, before, out, f);
    FieldsFrom(row, i, dc);
    FieldsMove(before[n..], out[n..], f, Fields(row[i..], dc), Fields(row[i + 1..], dc));
  }

  lemma {:induction false} FieldsFrom(row: Row, i: nat, dc: DoubleCodec)
    requires RowRepresentable(row, dc) && i < |row|
    ensures Fields(row[i..], dc) == FieldBytes(row[i], dc) + Fields(row[i + 1..], dc)
  {
    HeadTail(row, i);
  }

  lemma {:induction false} MarkStep(row: Row, i: nat, n: nat, before: seq<byte>, out: seq<byte>, f: seq<byte>)
    requires i < |row| && n == BitmapSize(|row|) <= |before| && before[..n] == NullMarks(row, i)
    requires out == if row[i].Null? then SetBitAt(before, i) else before + f
    requires row[i].Null? ==> f == []
    ensures |out| >= n && out[..n] == NullMarks(row, i + 1) && out[n..] == before[n..] + f
  {
    if row[i].Null? {
      assert SetBitAt(before, i)[..n] == SetBitAt(before[..n], i);
    }
  }

  lemma {:induction false} FieldsMove(a: seq<byte>, b: seq<byte>, f: seq<byte>, all: seq<byte>, rest: seq<byte>)
    requires b == a + f && all == f + rest
    ensures a + all == b + rest
  {
  }

  lemma {:induction false} EncodeEnd(schema: Schema, row: Row, dc: DoubleCodec, out: seq<byte>)
    requires |row| == |schema| && RowRepresentable(row, dc) && Encoded(schema, row, dc, |row|, out)
    ensures Encode(schema, row, dc) == Success(out)
  {
    var n := BitmapSize(|row|);
    assert out == out[..n] + out[n..];
    assert row[|row|..] == [] && out[n..] + [] == out[n..];
  }

  /** Decodes column by column with a cursor behind the bitmap. */
  method DecodeRow(schema: Schema, bs: seq<byte>, dc: DoubleCodec) returns (r: Result<Row>)
    ensures r == Decode(schema, bs, dc)
  {
    var n := BitmapSize(|schema|);
    if |bs| < n {
      return Failure(Corruption);
    }
    var values: Row := [];
    var cursor := n;
    var i := 0;
    ghost var nulls := NullBits(bs, |schema|);
    AppendNone(Decode(schema, bs, dc));
    while i < |schema|
      invariant i <= |schema|
      invariant Decode(schema, bs, dc) == Append(values, DecodeFrom(schema, nulls, bs, i, cursor, dc))
    {
      if BitAt(bs, i) {
        AppendCons(values, Null, DecodeFrom(schema, nulls, bs, i + 1, cursor, dc));
        values := values + [Null];
      } else {
        var f := DecodeField(schema[i].ctype, bs, cursor, dc);
        if f.Failure? {
          return Failure(f.status);
        }
        cursor := f.value.next;
        AppendCons(values, f.value.value, DecodeFrom(schema, nulls, bs, i + 1, cursor, dc));
        values := values + [f.value.value];
      }
      i := i + 1;
    }
    assert values + [] == values;
    r := Success(values);
  }

  function Append(a: Row, r: Result<Row>): Result<Row> {
    if r.Failure? then r else Success(a + r.value)
  }

  lemma {:induction false} AppendNone(r: Result<Row>)
    ensures Append([], r) == r
  {
    if r.Success? {
      assert [] + r.value == r.value;
    }
  }

  lemma {:induction false} AppendCons(a: Row, v: Value, r: Result<Row>)
    ensures Append(a, Cons(v, r)) == Append(a + [v], r)
  {
    if r.Success? {
      assert a + ([v] + r.value) == a + [v] + r.value;
    }
  }
}
