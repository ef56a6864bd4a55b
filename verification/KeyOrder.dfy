/** Byte-string order, and the algebra by which encodings of parts compose to encodings of wholes. */
module KeyOrder {
  import opened Bytes

  datatype Order = Less | Equal | Greater {
    /** Lexicographic composition. */
    function Then(next: Order): Order { if this == Equal then next else this }

    function Reversed(): Order {
      match this
      case Less => Greater
      case Equal => Equal
      case Greater => Less
    }
  }

  function OrderOf(a: int, b: int): Order {
    if a < b then Less else if a == b then Equal else Greater
  }

  /** The order that `memcmp` and slice comparison give. */
  function Memcmp(a: seq<Byte>, b: seq<Byte>): Order {
    if a == [] then (if b == [] then Equal else Less)
    else if b == [] then Greater
    else OrderOf(a[0], b[0]).Then(Memcmp(a[1..], b[1..]))
  }

  /** `a` is smaller than `b` at a byte that both have: no suffix can change that. */
  predicate Below(a: seq<Byte>, b: seq<Byte>) {
    a != [] && b != [] && (a[0] < b[0] || (a[0] == b[0] && Below(a[1..], b[1..])))
  }

  /** The encodings `a` and `b` show the order `o`, robustly against suffixes. */
  predicate Shows(o: Order, a: seq<Byte>, b: seq<Byte>) {
    match o
    case Less => Below(a, b)
    case Equal => a == b
    case Greater => Below(b, a)
  }

  lemma {:induction false} BelowExtends(a: seq<Byte>, b: seq<Byte>, s: seq<Byte>, t: seq<Byte>)
    requires Below(a, b)
    ensures Below(a + s, b + t)
  {
    assert (a + s)[1..] == a[1..] + s && (b + t)[1..] == b[1..] + t;
    if a[0] == b[0] { BelowExtends(a[1..], b[1..], s, t); }
  }

  lemma {:induction false} BelowBehind(p: seq<Byte>, a: seq<Byte>, b: seq<Byte>)
    requires Below(a, b)
    ensures Below(p + a, p + b)
  {
    if p == [] {
      assert p + a == a && p + b == b;
    } else {
      assert (p + a)[1..] == p[1..] + a && (p + b)[1..] == p[1..] + b;
      BelowBehind(p[1..], a, b);
    }
  }

  /** Concatenating encodings composes the orders they show. */
  lemma ShowsThen(o: Order, a: seq<Byte>, b: seq<Byte>, p: Order, c: seq<Byte>, d: seq<Byte>)
    requires Shows(o, a, b) && (o == Equal ==> Shows(p, c, d))
    ensures Shows(o.Then(p), a + c, b + d)
  {
    match o
    case Less => BelowExtends(a, b, c, d);
    case Greater => BelowExtends(b, a, d, c);
    case Equal =>
      match p {
        case Less => BelowBehind(a, c, d);
        case Greater => BelowBehind(a, d, c);
        case Equal =>
      }
  }

  lemma {:induction false} BelowMemcmp(a: seq<Byte>, b: seq<Byte>)
    requires Below(a, b)
    ensures Memcmp(a, b) == Less && Memcmp(b, a) == Greater
  {
    if a[0] == b[0] { BelowMemcmp(a[1..], b[1..]); }
  }

  lemma {:induction false} MemcmpSelf(a: seq<Byte>)
    ensures Memcmp(a, a) == Equal
  {
    if a != [] { MemcmpSelf(a[1..]); }
  }

  lemma {:induction false} MemcmpReverses(a: seq<Byte>, b: seq<Byte>)
    ensures Memcmp(b, a) == Memcmp(a, b).Reversed() && (Memcmp(a, b) == Equal <==> a == b)
  {
    if a != [] && b != [] {
      MemcmpReverses(a[1..], b[1..]);
      assert a == [a[0]] + a[1..] && b == [b[0]] + b[1..];
    }
  }

  lemma {:induction false} MemcmpTransitive(a: seq<Byte>, b: seq<Byte>, c: seq<Byte>)
    requires Memcmp(a, b) != Greater && Memcmp(b, c) != Greater
    ensures Memcmp(a, c) == if a == b && b == c then Equal else Less
  {
    MemcmpReverses(a, b);
    MemcmpReverses(b, c);
    if a != [] && b != [] && c != [] {
      if a[0] == b[0] == c[0] { MemcmpTransitive(a[1..], b[1..], c[1..]); }
      assert a == [a[0]] + a[1..] && b == [b[0]] + b[1..] && c == [c[0]] + c[1..];
    }
  }

  /** A shown order is the order that comparison of the raw bytes reports. */
  lemma ShowsMemcmp(o: Order, a: seq<Byte>, b: seq<Byte>)
    requires Shows(o, a, b)
    ensures Memcmp(a, b) == o
  {
    match o
    case Less => BelowMemcmp(a, b);
    case Equal => MemcmpSelf(a);
    case Greater => BelowMemcmp(b, a);
  }

  lemma {:induction false} BelowNotPrefix(a: seq<Byte>, b: seq<Byte>)
    requires Below(a, b)
    ensures !(a <= b) && !(b <= a)
  {
    if a[0] == b[0] { BelowNotPrefix(a[1..], b[1..]); }
  }

  /** Encodings that show an order are prefix-free. */
  lemma ShowsPrefixFree(o: Order, a: seq<Byte>, b: seq<Byte>)
    requires Shows(o, a, b) && a <= b
    ensures a == b && o == Equal
  {
    if o == Less { BelowNotPrefix(a, b); } else if o == Greater { BelowNotPrefix(b, a); }
  }

  // ---------------------------------------------------------------------------
  // Bitwise inversion
  // ---------------------------------------------------------------------------

  function Inverted(a: seq<Byte>): (r: seq<Byte>)
    ensures |r| == |a| && forall i :: 0 <= i < |a| ==> r[i] == 255 - a[i]
  {
    seq(|a|, i requires 0 <= i < |a| => 255 - a[i])
  }

  lemma {:induction false} BelowInverted(a: seq<Byte>, b: seq<Byte>)
    requires Below(a, b)
    ensures Below(Inverted(b), Inverted(a))
  {
    if a[0] == b[0] {
      BelowInverted(a[1..], b[1..]);
      assert Inverted(a)[1..] == Inverted(a[1..]) && Inverted(b)[1..] == Inverted(b[1..]);
    }
  }

  /** Inverting every byte reverses the order shown. */
  lemma ShowsInverted(o: Order, a: seq<Byte>, b: seq<Byte>)
    requires Shows(o, a, b)
    ensures Shows(o.Reversed(), Inverted(a), Inverted(b))
  {
    if o == Less { BelowInverted(a, b); } else if o == Greater { BelowInverted(b, a); }
  }

  // ---------------------------------------------------------------------------
  // Big-endian integers
  // ---------------------------------------------------------------------------

  function Pow256(k: nat): (p: nat)
    ensures p > 0
  {
    if k == 0 then 1 else 256 * Pow256(k - 1)
  }

  function BigEndian(n: nat, k: nat): (b: seq<Byte>)
    ensures |b| == k
    decreases k
  {
    if k == 0 then [] else BigEndian(n / 256, k - 1) + [n % 256]
  }

  lemma {:induction false} BigEndianShows(m: nat, n: nat, k: nat)
    requires m < Pow256(k) && n < Pow256(k)
    ensures Shows(OrderOf(m, n), BigEndian(m, k), BigEndian(n, k))
    decreases k
  {
    if k > 0 {
      BigEndianShows(m / 256, n / 256, k - 1);
      ShowsThen(OrderOf(m / 256, n / 256), BigEndian(m / 256, k - 1), BigEndian(n / 256, k - 1),
                OrderOf(m % 256, n % 256), [m % 256], [n % 256]);
    }
  }

  /** Bytes of a 64-bit and of a 32-bit integer. */
  const WORD: nat := 8
  const HALF: nat := 4

  lemma Pow256Values()
    ensures Pow256(HALF) == 0x1_0000_0000 && Pow256(WORD) == 0x1_0000_0000_0000_0000
  {
    assert Pow256(2) == 0x1_0000 && Pow256(3) == 0x100_0000;
    assert Pow256(5) == 0x100_0000_0000 && Pow256(6) == 0x1_0000_0000_0000;
    assert Pow256(7) == 0x100_0000_0000_0000;
  }
}
