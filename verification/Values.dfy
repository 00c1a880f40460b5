/** Column values, schemas, and the conversion of integers to double precision. */
module Values {
  import opened Types
  import opened Bytes

  datatype ColumnType = TInt | TBigInt | TDouble | TBool | TVarchar

  datatype Column = Column(name: string, ctype: ColumnType, nullable: bool, maxLength: nat)

  type Schema = seq<Column>

  /** A value; doubles are finite and stand for the real number they denote. */
  datatype Value =
    | Null
    | Int32(i: int)
    | Int64(n: int)
    | Double(d: real)
    | Bool(b: bool)
    | Text(s: string)

  type Row = seq<Value>

  /** The first column of the given name. */
  function IndexOf(schema: Schema, name: string): (r: Option<nat>)
    ensures r.Some? ==> r.value < |schema| && schema[r.value].name == name
    ensures r.Some? ==> forall i :: 0 <= i < r.value ==> schema[i].name != name
    ensures r.None? ==> forall i :: 0 <= i < |schema| ==> schema[i].name != name
  {
    if |schema| == 0 then None
    else if schema[0].name == name then Some(0)
    else
      var r := IndexOf(schema[1..], name);
      if r.None? then None else Some(r.value + 1)
  }

  predicate MatchesType(v: Value, t: ColumnType) {
    match t
    case TInt => v.Null? || v.Int32?
    case TBigInt => v.Null? || v.Int64?
    case TDouble => v.Null? || v.Double?
    case TBool => v.Null? || v.Bool?
    case TVarchar => v.Null? || v.Text?
  }

  /* ---------- Integers as doubles ---------- */

  const TWO_52: int := 0x10_0000_0000_0000
  const TWO_53: int := 0x20_0000_0000_0000

  /** The distance between neighbouring doubles at a given magnitude, when that is at least one. */
  function Ulp(m: nat): (u: nat)
    ensures u >= 1
    ensures m < TWO_53 ==> u == 1
    ensures m >= TWO_53 ==> u >= 2 && TWO_52 * u <= m < TWO_53 * u
  {
    if m < TWO_53 then 1 else 2 * Ulp(m / 2)
  }

  /** The lower or the upper of two neighbouring multiples; the even one when halfway. */
  function Pick(q: nat, r: nat, u: nat, lower: int, upper: int): int {
    if 2 * r < u || (2 * r == u && q % 2 == 0) then lower else upper
  }

  /** Rounding to a multiple of `u`. */
  function RoundTo(m: nat, u: nat): int
    requires u >= 1
  {
    Pick(m / u, m % u, u, m / u * u, (m / u + 1) * u)
  }

  /** The double nearest to an integer, as an integer. */
  function Nearest(n: int): int {
    if n >= 0 then RoundTo(n, Ulp(n)) else -RoundTo(-n, Ulp(-n))
  }

  lemma {:induction false} DivMul(m: nat, u: nat)
    requires u >= 1
    ensures m / u * u <= m < (m / u + 1) * u && m / u * u + m % u == m
  {
    assert (m / u + 1) * u == m / u * u + u;
  }

  lemma {:induction false} MulLe(a: nat, b: nat, u: nat)
    requires a <= b
    ensures a * u <= b * u
  {
  }

  lemma {:induction false} QuotientMonotone(a: nat, b: nat, u: nat)
    requires u >= 1 && a <= b
    ensures a / u <= b / u
    ensures a / u == b / u ==> a % u <= b % u
  {
    DivMul(a, u);
    DivMul(b, u);
    if a / u > b / u {
      MulLe(b / u + 1, a / u, u);
    }
  }

  lemma {:induction false} RoundToBetween(m: nat, u: nat)
    requires u >= 1
    ensures m / u * u <= RoundTo(m, u) <= (m / u + 1) * u
  {
    MulLe(m / u, m / u + 1, u);
  }

  lemma {:induction false} PickMonotone(q: nat, r: nat, s: nat, u: nat, lower: int, upper: int)
    requires r <= s && lower <= upper
    ensures Pick(q, r, u, lower, upper) <= Pick(q, s, u, lower, upper)
  {
  }

  lemma {:induction false} RoundToMonotone(a: nat, b: nat, u: nat)
    requires u >= 1 && a <= b
    ensures RoundTo(a, u) <= RoundTo(b, u)
  {
    QuotientMonotone(a, b, u);
    RoundToOrdered(a, b, a / u, b / u, u);
  }

  lemma {:induction false} RoundToOrdered(a: nat, b: nat, p: nat, q: nat, u: nat)
    requires u >= 1 && p == a / u && q == b / u && p <= q && (p == q ==> a % u <= b % u)
    ensures RoundTo(a, u) <= RoundTo(b, u)
  {
    if p < q {
      RoundToBetween(a, u);
      RoundToBetween(b, u);
      MulLe(p + 1, q, u);
    } else {
      MulLe(p, p + 1, u);
      PickMonotone(p, a % u, b % u, u, p * u, (p + 1) * u);
    }
  }

  /** A multiple of the step is never crossed by rounding. */
  lemma {:induction false} RoundToStays(m: nat, u: nat, k: nat)
    requires u >= 1
    ensures m < k * u ==> RoundTo(m, u) <= k * u
    ensures m >= k * u ==> RoundTo(m, u) >= k * u
  {
    DivMul(m, u);
    RoundToBetween(m, u);
    if m < k * u {
      if m / u >= k {
        MulLe(k, m / u, u);
      }
      MulLe(m / u + 1, k, u);
    } else {
      if m / u < k {
        MulLe(m / u + 1, k, u);
      }
      MulLe(k, m / u, u);
    }
  }

  /** Steps are powers of two: a larger one is a multiple of twice a smaller one. */
  lemma {:induction false} UlpDoubles(a: nat, b: nat) returns (f: nat)
    requires a <= b && Ulp(a) != Ulp(b)
    ensures f >= 1 && Ulp(b) == 2 * f * Ulp(a)
    decreases b
  {
    if a < TWO_53 {
      if b / 2 < TWO_53 {
        f := 1;
      } else {
        f := UlpDoubles(a, b / 2);
        f := 2 * f;
      }
    } else {
      f := UlpDoubles(a / 2, b / 2);
    }
  }

  lemma {:induction false} NearestMonotoneNat(a: nat, b: nat)
    requires a <= b
    ensures RoundTo(a, Ulp(a)) <= RoundTo(b, Ulp(b))
  {
    var u, v := Ulp(a), Ulp(b);
    if u == v {
      RoundToMonotone(a, b, u);
    } else {
      var f := UlpDoubles(a, b);
      BetweenSteps(a, b, u, v, f);
    }
  }

  /** Two numbers on either side of a power of two. */
  lemma {:induction false} BetweenSteps(a: nat, b: nat, u: nat, v: nat, f: nat)
    requires u >= 1 && f >= 1 && v == 2 * f * u
    requires a < TWO_53 * u && TWO_52 * v <= b
    ensures RoundTo(a, u) <= RoundTo(b, v)
  {
    var k := TWO_53 * f;
    SameProduct(f, u, v);
    MulLe(TWO_53, k, u);
    RoundToStays(a, u, k);
    RoundToStays(b, v, TWO_52);
  }

  lemma {:induction false} SameProduct(f: nat, u: nat, v: nat)
    requires v == 2 * f * u
    ensures TWO_53 * f * u == TWO_52 * v
  {
    assert TWO_53 * f * u == TWO_52 * (2 * f * u);
  }

  /** Conversion to double never reverses the order of two integers. */
  lemma {:induction false} NearestMonotone(a: int, b: int)
    requires a <= b
    ensures Nearest(a) <= Nearest(b)
  {
    if a >= 0 {
      NearestMonotoneNat(a, b);
    } else if b < 0 {
      NearestMonotoneNat(-b, -a);
    } else {
      RoundToStays(-a, Ulp(-a), 0);
      RoundToStays(b, Ulp(b), 0);
    }
  }

  /** Integers below 2^53 are exact, and no other integer is rounded to one of them. */
  lemma {:induction false} NearestExact(n: int, c: int)
    requires -TWO_53 < c < TWO_53
    ensures Nearest(n) == c <==> n == c
  {
    SmallExact(c);
    if -TWO_53 < n < TWO_53 {
      SmallExact(n);
    } else if n >= TWO_53 {
      assert Ulp(TWO_53) == 2 * Ulp(TWO_52);
      assert RoundTo(TWO_53, 2) == TWO_53;
      NearestMonotone(TWO_53, n);
    } else {
      assert Ulp(TWO_53) == 2 * Ulp(TWO_52);
      assert RoundTo(TWO_53, 2) == TWO_53;
      NearestMonotone(n, -TWO_53);
    }
  }

  lemma {:induction false} SmallExact(n: int)
    requires -TWO_53 < n < TWO_53
    ensures Nearest(n) == n
  {
  }
}
