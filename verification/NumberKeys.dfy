/** The shared 17-byte key of all BSON numbers, and how it follows the numeric order. */
module NumberKeys {
  import opened Bytes
  import opened KeyOrder

  const TWO52: int := 0x10_0000_0000_0000
  const TWO53: int := 0x20_0000_0000_0000
  const TWO63: int := 0x8000_0000_0000_0000
  const TWO64: int := 0x1_0000_0000_0000_0000

  type I64 = n: int | -TWO63 <= n < TWO63

  const NUM_NAN: Byte := 0x00
  const NUM_NEG: Byte := 0x40
  const NUM_ZERO: Byte := 0x80
  const NUM_POS: Byte := 0xC0

  /** A 64-bit float as a value; both zeros are `Finite(0.0)`. */
  datatype F64 = NaN | NegInf | PosInf | Finite(r: real)

  function Pow2(e: nat): (p: nat)
    ensures p > 0
  {
    if e == 0 then 1 else 2 * Pow2(e - 1)
  }

  /** `r` has a significand of at most 53 bits. */
  ghost predicate IsDouble(r: real) {
    exists s: int, e: nat :: IsScaled(r, s, e)
  }

  ghost predicate IsScaled(r: real, s: int, e: nat) {
    && -TWO53 < s < TWO53
    && (r == (s * Pow2(e)) as real || r * Pow2(e) as real == s as real)
  }

  ghost predicate ValidF64(f: F64) { f.Finite? ==> IsDouble(f.r) }

  /** The floats there are. */
  type Float64 = f: F64 | ValidF64(f) witness NaN

  /** Class byte, integer part and fraction, as they follow each other in the key. */
  datatype NumKey = NumKey(cls: Byte, hi: nat, lo: nat) {
    predicate Valid() { hi <= U64_MAX && lo <= U64_MAX }

    function Bytes(): (b: seq<Byte>)
      ensures |b| == 17
    {
      [cls] + BigEndian(hi, WORD) + BigEndian(lo, WORD)
    }

    function Cmp(other: NumKey): Order {
      OrderOf(cls, other.cls).Then(OrderOf(hi, other.hi)).Then(OrderOf(lo, other.lo))
    }
  }

  function Saturated(n: int): (u: nat)
    ensures u <= U64_MAX
  {
    if n < 0 then 0 else if n > U64_MAX then U64_MAX else n
  }

  /** The integer part, truncated and saturated to 64 bits. */
  function IntPart(a: real): (u: nat)
    ensures u <= U64_MAX
  {
    Saturated(a.Floor)
  }

  /** The fraction scaled by 2^64, truncated. */
  function FracPart(a: real): (u: nat)
    ensures u <= U64_MAX
  {
    Saturated(((a - a.Floor as real) * TWO64 as real).Floor)
  }

  function EncodeF64(f: F64): (k: NumKey)
    ensures k.Valid()
  {
    match f
    case NaN => NumKey(NUM_NAN, 0, 0)
    case PosInf => NumKey(NUM_POS, U64_MAX, U64_MAX)
    case NegInf => NumKey(NUM_NEG, 0, 0)
    case Finite(r) =>
      if r == 0.0 then NumKey(NUM_ZERO, 0, 0)
      else if r < 0.0 then NumKey(NUM_NEG, U64_MAX - IntPart(-r), U64_MAX - FracPart(-r))
      else NumKey(NUM_POS, IntPart(r), FracPart(r))
  }

  function EncodeI64(n: I64): (k: NumKey)
    ensures k.Valid()
  {
    if n == 0 then NumKey(NUM_ZERO, 0, 0)
    else if n < 0 then NumKey(NUM_NEG, U64_MAX + n, U64_MAX)
    else NumKey(NUM_POS, n, 0)
  }

  /** Byte order of the 17 bytes is the order of the three parts. */
  lemma NumKeyShows(a: NumKey, b: NumKey)
    requires a.Valid() && b.Valid()
    ensures Shows(a.Cmp(b), a.Bytes(), b.Bytes())
  {
    Pow256Values();
    BigEndianShows(a.hi, b.hi, WORD);
    BigEndianShows(a.lo, b.lo, WORD);
    var c := OrderOf(a.cls, b.cls);
    ShowsThen(c, [a.cls], [b.cls], OrderOf(a.hi, b.hi), BigEndian(a.hi, WORD), BigEndian(b.hi, WORD));
    ShowsThen(c.Then(OrderOf(a.hi, b.hi)), [a.cls] + BigEndian(a.hi, WORD), [b.cls] + BigEndian(b.hi, WORD),
              OrderOf(a.lo, b.lo), BigEndian(a.lo, WORD), BigEndian(b.lo, WORD));
  }

  // ---------------------------------------------------------------------------
  // Numeric order
  // ---------------------------------------------------------------------------

  /** NaN sorts below every other number. */
  predicate NumLess(a: F64, b: F64) {
    match (a, b)
    case (_, NaN) => false
    case (NaN, _) => true
    case (NegInf, _) => !b.NegInf?
    case (_, NegInf) => false
    case (PosInf, _) => false
    case (_, PosInf) => true
    case (Finite(x), Finite(y)) => x < y
  }

  /** An integer and the float of the same value have the same key. */
  lemma IntegerKey(n: I64)
    ensures EncodeI64(n) == EncodeF64(Finite(n as real))
  {
    if n > 0 { WholeParts(n); }
    if n < 0 {
      var m: nat := 0 - n;
      WholeParts(m);
      assert -(n as real) == m as real;
    }
  }

  lemma WholeParts(n: nat)
    requires n <= U64_MAX
    ensures IntPart(n as real) == n && FracPart(n as real) == 0
  {
    assert (n as real).Floor == n;
  }

  lemma {:induction false} Pow2Adds(a: nat, b: nat)
    ensures Pow2(a + b) == Pow2(a) * Pow2(b)
  {
    if a > 0 { Pow2Adds(a - 1, b); }
  }

  lemma Pow2Values()
    ensures Pow2(11) == 2048 && Pow2(52) == TWO52 && Pow2(53) == TWO53
  {
    assert Pow2(13) == 8192;
    Pow2Adds(13, 13);
    Pow2Adds(26, 26);
  }

  predicate IsWhole(r: real) { r == r.Floor as real }

  lemma CastProduct(p: int, q: int)
    ensures (p * q) as real == p as real * q as real
  {
  }

  /** r * p whole makes every multiple r * t with t = p * q whole. */
  lemma Rescale(r: real, p: int, q: int, s: int, t: int) returns (k: int)
    requires r * p as real == s as real && t == p * q
    ensures r * t as real == k as real
  {
    k := s * q;
    CastProduct(p, q);
    CastProduct(s, q);
    assert r * (p as real * q as real) == r * p as real * q as real;
  }

  lemma GrowsBy(r: real, p: int)
    requires 1.0 <= r && 1 <= p
    ensures p as real <= r * p as real && r <= r * p as real
  {
    assert (r - 1.0) * p as real >= 0.0;
    assert r * (p as real - 1.0) >= 0.0;
  }

  lemma Pow2Grows(a: nat, b: nat)
    requires a <= b
    ensures Pow2(a) <= Pow2(b)
  {
    Pow2Adds(a, b - a);
    assert Pow2(a) * (Pow2(b - a) - 1) >= 0;
  }

  /** A double is whole, or a whole number of at most 53 bits over a power of two. */
  lemma DoubleCases(r: real) returns (s: int, e: nat)
    requires IsDouble(r)
    ensures -TWO53 < s < TWO53
    ensures r == (s * Pow2(e)) as real || r * Pow2(e) as real == s as real
  {
    s, e :| IsScaled(r, s, e);
  }

  /** A double from 1 on, written over a power of two, needs no more than 52 binary places. */
  lemma FewPlaces(r: real, s: int, e: nat)
    requires 1.0 <= r && s < TWO53 && r * Pow2(e) as real == s as real
    ensures e <= 52
  {
    GrowsBy(r, Pow2(e));
    if e > 52 {
      Pow2Values();
      Pow2Grows(53, e);
    }
  }

  lemma Complement(e: nat)
    requires e <= 52
    ensures Pow2(e) * Pow2(52 - e) == TWO52
  {
    Pow2Adds(e, 52 - e);
    Pow2Values();
  }

  /** Doubles from 1 on lie on the grid of step 2^-52. */
  lemma DoubleGrid(r: real)
    requires IsDouble(r) && 1.0 <= r
    ensures IsWhole(r * TWO52 as real)
  {
    var s, e := DoubleCases(r);
    if r == (s * Pow2(e)) as real {
      var n := s * Pow2(e);
      WholeGrid(r, n);
    } else {
      ScaledDouble(r, s, e);
    }
  }

  lemma ScaledDouble(r: real, s: int, e: nat)
    requires 1.0 <= r && s < TWO53 && r * Pow2(e) as real == s as real
    ensures IsWhole(r * TWO52 as real)
  {
    FewPlaces(r, s, e);
    Complement(e);
    ScaledGrid(r, s, Pow2(e), Pow2(52 - e));
  }

  lemma WholeGrid(r: real, n: int)
    requires r == n as real
    ensures IsWhole(r * TWO52 as real)
  {
    CastProduct(n, TWO52);
    FloorOfWhole(r * TWO52 as real, n * TWO52);
  }

  lemma ScaledGrid(r: real, s: int, p: int, q: int)
    requires r * p as real == s as real && p * q == TWO52
    ensures IsWhole(r * TWO52 as real)
  {
    var k := Rescale(r, p, q, s, TWO52);
    FloorOfWhole(r * TWO52 as real, k);
  }

  lemma FloorOfWhole(r: real, k: int)
    requires r == k as real
    ensures IsWhole(r)
  {
  }

  /** The largest double below 2^64 is 2^64 - 2048, and doubles from 2^53 on are whole. */
  lemma DoubleTop(r: real)
    requires IsDouble(r) && TWO53 as real <= r
    ensures IsWhole(r)
    ensures r < TWO64 as real ==> r <= (TWO64 - 2048) as real
  {
    var s, e := DoubleCases(r);
    Pow2Values();
    if r == (s * Pow2(e)) as real {
      TopMultiple(s, e);
    } else {
      GrowsBy(r, Pow2(e));
      assert false;
    }
  }

  lemma TopMultiple(s: int, e: nat)
    requires s < TWO53
    ensures s * Pow2(e) < TWO64 ==> s * Pow2(e) <= TWO64 - 2048
  {
    if e < 11 {
      Pow2Grows(e, 10);
      SmallFactor(s, Pow2(e));
    } else {
      var q := Pow2(e - 11);
      assert Pow2(e) == 2048 * q by { Pow2Adds(11, e - 11); }
      assert s * (2048 * q) == 2048 * (s * q);
    }
  }

  lemma SmallFactor(s: int, p: nat)
    requires s < TWO53 && p <= 1024
    ensures s * p <= TWO53 * 1024
  {
    assert (TWO53 - s) * p >= 0;
  }

  /** Below saturation the two parts are the digits of the scaled integer floor(a * 2^64). */
  lemma ScaledFloor(a: real)
    requires 0.0 <= a < TWO64 as real
    ensures (a * TWO64 as real).Floor == IntPart(a) * TWO64 + FracPart(a)
  {
  }

  lemma Saturates(a: real)
    requires IsDouble(a) && TWO64 as real <= a
    ensures IntPart(a) == U64_MAX && FracPart(a) == 0
  {
    DoubleTop(a);
  }

  /** Two positive doubles whose keys cannot tell them apart. */
  predicate SameDigits(a: real, b: real) {
    || (TWO64 as real <= a && TWO64 as real <= b)
    || (a < TWO64 as real && b < TWO64 as real && (a * TWO64 as real).Floor == (b * TWO64 as real).Floor)
  }

  function PartsOrder(a: real, b: real): Order {
    OrderOf(IntPart(a), IntPart(b)).Then(OrderOf(FracPart(a), FracPart(b)))
  }

  lemma MagnitudeOrder(a: real, b: real)
    requires IsDouble(a) && IsDouble(b) && 0.0 < a < b
    ensures PartsOrder(a, b) == if SameDigits(a, b) then Equal else Less
  {
    if TWO64 as real <= b {
      Saturates(b);
      if TWO64 as real <= a {
        Saturates(a);
      } else if TWO53 as real <= a {
        DoubleTop(a);
      }
    } else {
      ScaledFloor(a);
      ScaledFloor(b);
    }
  }

  /** The numbers have the same sign and the same digits up to the 64th binary place. */
  predicate Tied(a: F64, b: F64) {
    a.Finite? && b.Finite?
    && ((0.0 < a.r && 0.0 < b.r && SameDigits(a.r, b.r)) || (a.r < 0.0 && b.r < 0.0 && SameDigits(-b.r, -a.r)))
  }

  lemma NegatedDouble(r: real)
    requires IsDouble(r)
    ensures IsDouble(-r)
  {
    var s: int, e: nat :| IsScaled(r, s, e);
    assert (-s) * Pow2(e) == -(s * Pow2(e));
    assert IsScaled(-r, -s, e);
  }

  lemma PositiveOrder(a: real, b: real)
    requires IsDouble(a) && IsDouble(b) && 0.0 < a < b
    ensures EncodeF64(Finite(a)).Cmp(EncodeF64(Finite(b))) == if SameDigits(a, b) then Equal else Less
  {
    MagnitudeOrder(a, b);
  }

  lemma NegativeOrder(a: real, b: real)
    requires IsDouble(a) && IsDouble(b) && a < b < 0.0
    ensures EncodeF64(Finite(a)).Cmp(EncodeF64(Finite(b))) == if SameDigits(-b, -a) then Equal else Less
  {
    NegatedDouble(a);
    NegatedDouble(b);
    MagnitudeOrder(-b, -a);
  }

  /** The infinities' sentinels lie beyond every finite key. */
  lemma SentinelOrder(a: real)
    requires IsDouble(a)
    ensures EncodeF64(Finite(a)).Cmp(EncodeF64(PosInf)) == Less
    ensures EncodeF64(NegInf).Cmp(EncodeF64(Finite(a))) == Less
  {
    if 0.0 < a {
      FiniteBelowSentinel(a);
    } else if a < 0.0 {
      NegatedDouble(a);
      FiniteBelowSentinel(-a);
    }
  }

  /** Keys never invert the numeric order, and lose it exactly on tied pairs. */
  lemma FloatOrder(a: F64, b: F64)
    requires ValidF64(a) && ValidF64(b) && NumLess(a, b)
    ensures EncodeF64(a).Cmp(EncodeF64(b)) == if Tied(a, b) then Equal else Less
  {
    if a.Finite? && b.Finite? {
      if 0.0 < a.r { PositiveOrder(a.r, b.r); } else if b.r < 0.0 { NegativeOrder(a.r, b.r); }
    } else if a.Finite? {
      SentinelOrder(a.r);
    } else if b.Finite? {
      SentinelOrder(b.r);
    }
  }

  lemma FiniteBelowSentinel(a: real)
    requires IsDouble(a) && 0.0 < a
    ensures IntPart(a) < U64_MAX || FracPart(a) < U64_MAX
  {
    if TWO64 as real <= a { Saturates(a); } else if TWO53 as real <= a { DoubleTop(a); }
  }

  /** Against a positive double, a positive integer's digits decide the order strictly. */
  lemma MixedMagnitude(n: int, f: real)
    requires 0 < n <= TWO63 && IsDouble(f) && 0.0 < f
    ensures PartsOrder(n as real, f) == if n as real < f then Less else if n as real == f then Equal else Greater
    ensures PartsOrder(f, n as real) == PartsOrder(n as real, f).Reversed()
  {
    if TWO64 as real <= f {
      Saturates(f);
    } else {
      ScaledFloor(f);
      if n as real < f {
        DoubleGrid(f);
        assert (f * TWO52 as real).Floor >= n * TWO52 + 1;
      }
    }
  }

  /** Comparisons of an integer with a float follow the numeric order strictly. */
  lemma MixedOrder(n: I64, f: F64)
    requires ValidF64(f)
    ensures NumLess(Finite(n as real), f) ==> EncodeI64(n).Cmp(EncodeF64(f)) == Less
    ensures NumLess(f, Finite(n as real)) ==> EncodeF64(f).Cmp(EncodeI64(n)) == Less
    ensures f == Finite(n as real) ==> EncodeI64(n) == EncodeF64(f)
  {
    IntegerKey(n);
    if f.Finite? && n > 0 && f.r > 0.0 {
      MixedMagnitude(n, f.r);
    } else if f.Finite? && n < 0 && f.r < 0.0 {
      NegatedDouble(f.r);
      MixedMagnitude(0 - n, -f.r);
    }
  }

  // ---------------------------------------------------------------------------
  // Numbers of all kinds
  // ---------------------------------------------------------------------------

  datatype Number = Whole(n: I64) | Floating(f: Float64) {
    /** The number itself; an integer of more than 53 bits need not be a float. */
    function Amount(): F64 { if Whole? then Finite(n as real) else f }

    function Key(): (k: NumKey)
      ensures k.Valid()
    {
      if Whole? then EncodeI64(n) else EncodeF64(f)
    }
  }

  /** By amount; the only different numbers that compare equal are two tied floats. */
  function CompareNumbers(a: Number, b: Number): Order {
    if a.Floating? && b.Floating? && Tied(a.f, b.f) then Equal
    else if NumLess(a.Amount(), b.Amount()) then Less
    else if NumLess(b.Amount(), a.Amount()) then Greater
    else Equal
  }

  lemma IntegerOrder(n: I64, m: I64)
    ensures EncodeI64(n).Cmp(EncodeI64(m)) == OrderOf(n, m)
  {
  }

  lemma CmpReverses(a: NumKey, b: NumKey)
    ensures b.Cmp(a) == a.Cmp(b).Reversed()
  {
  }

  lemma CmpSelf(a: NumKey)
    ensures a.Cmp(a) == Equal
  {
  }

  lemma FloatsCompare(a: Float64, b: Float64)
    ensures EncodeF64(a).Cmp(EncodeF64(b)) == CompareNumbers(Floating(a), Floating(b))
  {
    CmpReverses(EncodeF64(a), EncodeF64(b));
    if NumLess(a, b) {
      FloatOrder(a, b);
    } else if NumLess(b, a) {
      FloatOrder(b, a);
    } else {
      CmpSelf(EncodeF64(a));
    }
  }

  lemma MixedCompare(n: I64, f: Float64)
    ensures EncodeI64(n).Cmp(EncodeF64(f)) == CompareNumbers(Whole(n), Floating(f))
  {
    MixedOrder(n, f);
    CmpReverses(EncodeF64(f), EncodeI64(n));
    if f == Finite(n as real) { CmpSelf(EncodeF64(f)); }
  }

  /** Number keys of any two kinds compare as the numbers do. */
  lemma NumberKeysCompare(a: Number, b: Number)
    ensures a.Key().Cmp(b.Key()) == CompareNumbers(a, b)
  {
    if a.Whole? && b.Whole? {
      IntegerOrder(a.n, b.n);
    } else if a.Whole? {
      MixedCompare(a.n, b.f);
    } else if b.Whole? {
      MixedCompare(b.n, a.f);
      CmpReverses(b.Key(), a.Key());
    } else {
      FloatsCompare(a.f, b.f);
    }
  }

  /** The claim that distinct floats always get distinct keys is false: a key keeps 64 integer bits. */
  lemma TiedFloats()
    ensures exists a, b :: ValidF64(a) && ValidF64(b) && NumLess(a, b) && EncodeF64(a) == EncodeF64(b)
  {
    var a, b := Finite(TWO64 as real), Finite((2 * TWO64) as real);
    Pow2Values();
    Pow2Adds(11, 1);
    Pow2Adds(12, 1);
    assert IsScaled(a.r, TWO52, 12) && IsScaled(b.r, TWO52, 13);
    FloatOrder(a, b);
  }
}
