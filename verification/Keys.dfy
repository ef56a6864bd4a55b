/** Order-preserving index keys: BSON values, their encodings and the order they embed. */
module Keys {
  import opened Bytes
  import opened KeyOrder
  import opened NumberKeys

  type I32 = n: int | -0x8000_0000 <= n < 0x8000_0000
  type U32 = n: int | 0 <= n <= U32_MAX
  type Bytes12 = s: seq<Byte> | |s| == 12 witness Zeros(12)

  /**
   BSON values. Strings are their UTF-8 bytes; a decimal is represented by the float that
   its decimal text parses to, which is all the encoder looks at.
   */
  datatype Value =
    | MinKey
    | Null
    | Undefined
    | Int32(i32: I32)
    | Int64(i64: I64)
    | Double(f: Float64)
    | Decimal128(f: Float64)
    | Symbol(text: seq<Byte>)
    | String(text: seq<Byte>)
    | JavaScriptCode(text: seq<Byte>)
    | JavaScriptCodeWithScope(text: seq<Byte>)
    | Document(fields: seq<Field>)
    | Array(items: seq<Value>)
    | Binary(subtype: Byte, data: seq<Byte>)
    | ObjectId(id: Bytes12)
    | Boolean(b: bool)
    | DateTime(millis: I64)
    | Timestamp(time: U32, increment: U32)
    | RegularExpression(pattern: seq<Byte>, options: seq<Byte>)
    | DbPointer(repr: seq<Byte>)
    | MaxKey

  datatype Field = Field(name: seq<Byte>, value: Value)

  const TYPE_MIN_KEY: Byte := 0x00
  const TYPE_NULL: Byte := 0x05
  const TYPE_NUMBER: Byte := 0x10
  const TYPE_SYMBOL: Byte := 0x15
  const TYPE_STRING: Byte := 0x20
  const TYPE_OBJECT: Byte := 0x30
  const TYPE_ARRAY: Byte := 0x40
  const TYPE_BIN_DATA: Byte := 0x50
  const TYPE_OBJECT_ID: Byte := 0x60
  const TYPE_BOOLEAN: Byte := 0x70
  const TYPE_DATE: Byte := 0x80
  const TYPE_TIMESTAMP: Byte := 0x85
  const TYPE_REGEXP: Byte := 0x90
  const TYPE_MAX_KEY: Byte := 0xFF
  const COMPOUND_SEP: Byte := 0x01

  /** One node is free of the shapes whose encoding is ambiguous. */
  predicate NodeOk(v: Value) {
    match v
    case Document(fields) => forall i :: 0 <= i < |fields| ==> fields[i].name != []
    case Array(items) => forall i :: 0 <= i < |items| ==> !items[i].MinKey?
    case Binary(_, data) => |data| <= U32_MAX
    case DbPointer(_) => false
    case _ => true
  }

  ghost predicate ChildrenOk(v: Value)
    decreases v, 0
  {
    match v
    case Document(fields) => forall i :: 0 <= i < |fields| ==> WellFormed(fields[i].value)
    case Array(items) => forall i :: 0 <= i < |items| ==> WellFormed(items[i])
    case _ => true
  }

  /** Unambiguous at every depth. */
  ghost predicate WellFormed(v: Value)
    decreases v, 1
  {
    NodeOk(v) && ChildrenOk(v)
  }

  // ---------------------------------------------------------------------------
  // Encoding
  // ---------------------------------------------------------------------------

  function EncodedByte(b: Byte): (r: seq<Byte>) {
    if b == 0 then [1, 1] else if b == 1 then [1, 2] else [b]
  }

  /** Escaped bytes with a zero terminator. */
  function EncodedText(s: seq<Byte>): (r: seq<Byte>)
    ensures r != []
  {
    if s == [] then [0] else EncodedByte(s[0]) + EncodedText(s[1..])
  }

  /** A signed 64-bit integer with its sign bit flipped, as an unsigned one. */
  function Biased(ms: I64): (u: nat)
    ensures u <= U64_MAX
  {
    var twos := if ms < 0 then ms + TWO64 else ms;
    if twos >= TWO63 then twos - TWO63 else twos + TWO63
  }

  /** A length cast to 32 bits. */
  function Low32(n: nat): (u: nat)
    ensures u <= U32_MAX
    ensures n <= U32_MAX ==> u == n
  {
    n % 0x1_0000_0000
  }

  /** The four length bytes of a binary value. */
  function LengthBytes(n: nat): (b: seq<Byte>)
    ensures |b| == 4
  {
    BigEndian(Low32(n), HALF)
  }

  function TypeByte(v: Value): Byte {
    match v
    case MinKey => TYPE_MIN_KEY
    case Null => TYPE_NULL
    case Undefined => TYPE_NULL
    case Int32(_) => TYPE_NUMBER
    case Int64(_) => TYPE_NUMBER
    case Double(_) => TYPE_NUMBER
    case Decimal128(_) => TYPE_NUMBER
    case Symbol(_) => TYPE_SYMBOL
    case String(_) => TYPE_STRING
    case JavaScriptCode(_) => TYPE_STRING
    case JavaScriptCodeWithScope(_) => TYPE_STRING
    case Document(_) => TYPE_OBJECT
    case Array(_) => TYPE_ARRAY
    case Binary(_, _) => TYPE_BIN_DATA
    case ObjectId(_) => TYPE_OBJECT_ID
    case Boolean(_) => TYPE_BOOLEAN
    case DateTime(_) => TYPE_DATE
    case Timestamp(_, _) => TYPE_TIMESTAMP
    case RegularExpression(_, _) => TYPE_REGEXP
    case DbPointer(_) => TYPE_REGEXP
    case MaxKey => TYPE_MAX_KEY
  }

  /** What follows the type byte. */
  function Body(v: Value): (r: seq<Byte>)
    decreases v, 0
  {
    match v
    case MinKey => []
    case Null => []
    case Undefined => []
    case Int32(n) => EncodeI64(n).Bytes()
    case Int64(n) => EncodeI64(n).Bytes()
    case Double(f) => EncodeF64(f).Bytes()
    case Decimal128(f) => EncodeF64(f).Bytes()
    case Symbol(s) => EncodedText(s)
    case String(s) => EncodedText(s)
    case JavaScriptCode(s) => EncodedText(s)
    case JavaScriptCodeWithScope(s) => EncodedText(s)
    case Document(fields) => EncodedFields(fields)
    case Array(items) => EncodedItems(items)
    case Binary(subtype, data) => [subtype] + LengthBytes(|data|) + data
    case ObjectId(id) => id
    case Boolean(b) => [if b then 1 else 0]
    case DateTime(ms) => BigEndian(Biased(ms), WORD)
    case Timestamp(t, i) => BigEndian(t, HALF) + BigEndian(i, HALF)
    case RegularExpression(p, o) => EncodedText(p) + EncodedText(o)
    case DbPointer(repr) => EncodedText(repr)
    case MaxKey => []
  }

  /** The key of a single value. */
  function Encoded(v: Value): (r: seq<Byte>)
    ensures r != [] && r[0] == TypeByte(v)
    decreases v, 1
  {
    [TypeByte(v)] + Body(v)
  }

  function EncodedFields(fields: seq<Field>): (r: seq<Byte>)
    ensures r != []
    decreases fields, 2
  {
    if fields == [] then [0]
    else EncodedText(fields[0].name) + Encoded(fields[0].value) + EncodedFields(fields[1..])
  }

  function EncodedItems(items: seq<Value>): (r: seq<Byte>)
    ensures r != []
    decreases items, 2
  {
    if items == [] then [0] else Encoded(items[0]) + [0] + EncodedItems(items[1..])
  }

  // ---------------------------------------------------------------------------
  // The order on values
  // ---------------------------------------------------------------------------

  /** Position of a value's type in the canonical type order; equal for types that compare by content. */
  function Rank(v: Value): nat {
    match v
    case MinKey => 0
    case Null => 1
    case Undefined => 1
    case Int32(_) => 2
    case Int64(_) => 2
    case Double(_) => 2
    case Decimal128(_) => 2
    case Symbol(_) => 3
    case String(_) => 4
    case JavaScriptCode(_) => 4
    case JavaScriptCodeWithScope(_) => 4
    case Document(_) => 5
    case Array(_) => 6
    case Binary(_, _) => 7
    case ObjectId(_) => 8
    case Boolean(_) => 9
    case DateTime(_) => 10
    case Timestamp(_, _) => 11
    case RegularExpression(_, _) => 12
    case DbPointer(_) => 12
    case MaxKey => 13
  }

  function NumberOf(v: Value): Number
    requires Rank(v) == 2
  {
    match v
    case Int32(n) => Whole(n)
    case Int64(n) => Whole(n)
    case Double(f) => Floating(f)
    case Decimal128(f) => Floating(f)
  }

  function TextOf(v: Value): seq<Byte>
    requires Rank(v) == 3 || Rank(v) == 4
  {
    v.text
  }

  /** Values compare by type, then by content: documents field by field, name before value. */
  function Compare(v: Value, w: Value): Order
    decreases v, 0
  {
    if Rank(v) != Rank(w) then OrderOf(Rank(v), Rank(w))
    else match v
      case Document(fields) => CompareFields(fields, w.fields)
      case Array(items) => CompareItems(items, w.items)
      case _ => CompareScalars(v, w)
  }

  function CompareScalars(v: Value, w: Value): Order
    requires Rank(v) == Rank(w) && !v.Document? && !v.Array?
  {
    match v
    case Binary(subtype, data) =>
      OrderOf(subtype, w.subtype).Then(OrderOf(|data|, |w.data|)).Then(Memcmp(data, w.data))
    case ObjectId(id) => Memcmp(id, w.id)
    case Boolean(b) => if b == w.b then Equal else if w.b then Less else Greater
    case DateTime(ms) => OrderOf(ms, w.millis)
    case Timestamp(t, i) => OrderOf(t, w.time).Then(OrderOf(i, w.increment))
    case RegularExpression(p, o) => if w.DbPointer? then Equal else Memcmp(p, w.pattern).Then(Memcmp(o, w.options))
    case _ =>
      if Rank(v) == 2 then CompareNumbers(NumberOf(v), NumberOf(w))
      else if Rank(v) == 3 || Rank(v) == 4 then Memcmp(TextOf(v), TextOf(w))
      else Equal
  }

  function CompareFields(a: seq<Field>, b: seq<Field>): Order
    decreases a, 1
  {
    if a == [] then (if b == [] then Equal else Less)
    else if b == [] then Greater
    else Memcmp(a[0].name, b[0].name).Then(Compare(a[0].value, b[0].value)).Then(CompareFields(a[1..], b[1..]))
  }

  function CompareItems(a: seq<Value>, b: seq<Value>): Order
    decreases a, 1
  {
    if a == [] then (if b == [] then Equal else Less)
    else if b == [] then Greater
    else Compare(a[0], b[0]).Then(CompareItems(a[1..], b[1..]))
  }

  // ---------------------------------------------------------------------------
  // The encoding embeds the order
  // ---------------------------------------------------------------------------

  lemma RankShows(v: Value, w: Value)
    ensures OrderOf(TypeByte(v), TypeByte(w)) == OrderOf(Rank(v), Rank(w))
  {
  }

  lemma ByteShows(a: Byte, b: Byte)
    ensures Shows(OrderOf(a, b), EncodedByte(a), EncodedByte(b))
  {
    if a <= 1 && b <= 1 {
      assert [1, 1][1..] == [1] && [1, 2][1..] == [2];
    }
  }

  lemma {:induction false} TextShows(s: seq<Byte>, t: seq<Byte>)
    ensures Shows(Memcmp(s, t), EncodedText(s), EncodedText(t))
  {
    if s != [] && t != [] {
      ByteShows(s[0], t[0]);
      TextShows(s[1..], t[1..]);
      ShowsThen(OrderOf(s[0], t[0]), EncodedByte(s[0]), EncodedByte(t[0]),
                Memcmp(s[1..], t[1..]), EncodedText(s[1..]), EncodedText(t[1..]));
    }
  }

  lemma {:induction false} SameLengthShows(s: seq<Byte>, t: seq<Byte>)
    requires |s| == |t|
    ensures Shows(Memcmp(s, t), s, t)
  {
    if s != [] {
      SameLengthShows(s[1..], t[1..]);
      assert s == [s[0]] + s[1..] && t == [t[0]] + t[1..];
      ShowsThen(OrderOf(s[0], t[0]), [s[0]], [t[0]], Memcmp(s[1..], t[1..]), s[1..], t[1..]);
    }
  }

  /** Three encoded parts in a row. */
  lemma ShowsThree(o: Order, a: seq<Byte>, b: seq<Byte>, p: Order, c: seq<Byte>, d: seq<Byte>,
                   q: Order, e: seq<Byte>, f: seq<Byte>)
    requires Shows(o, a, b) && Shows(p, c, d) && (o == Equal && p == Equal ==> Shows(q, e, f))
    ensures Shows(o.Then(p).Then(q), a + c + e, b + d + f)
  {
    ShowsThen(o, a, b, p, c, d);
    ShowsThen(o.Then(p), a + c, b + d, q, e, f);
  }

  lemma LengthShows(m: nat, n: nat)
    requires m <= U32_MAX && n <= U32_MAX
    ensures Shows(OrderOf(m, n), LengthBytes(m), LengthBytes(n))
  {
    Pow256Values();
    BigEndianShows(m, n, HALF);
  }

  lemma BinaryShows(v: Value, w: Value)
    requires v.Binary? && w.Binary? && NodeOk(v) && NodeOk(w)
    ensures Shows(CompareScalars(v, w), Body(v), Body(w))
  {
    var m, n := |v.data|, |w.data|;
    LengthShows(m, n);
    if m == n { SameLengthShows(v.data, w.data); }
    ShowsThree(OrderOf(v.subtype, w.subtype), [v.subtype], [w.subtype],
               OrderOf(m, n), LengthBytes(m), LengthBytes(n),
               Memcmp(v.data, w.data), v.data, w.data);
  }

  lemma ScalarShows(v: Value, w: Value)
    requires NodeOk(v) && NodeOk(w) && Rank(v) == Rank(w) && !v.Document? && !v.Array?
    ensures Shows(CompareScalars(v, w), Body(v), Body(w))
  {
    Pow256Values();
    if Rank(v) == 2 {
      NumberShows(v, w);
    } else if Rank(v) == 3 || Rank(v) == 4 {
      TextShows(TextOf(v), TextOf(w));
    } else if v.Binary? {
      BinaryShows(v, w);
    } else if v.ObjectId? {
      SameLengthShows(v.id, w.id);
    } else if v.DateTime? {
      BigEndianShows(Biased(v.millis), Biased(w.millis), WORD);
    } else if v.Timestamp? {
      TimestampShows(v, w);
    } else if v.RegularExpression? {
      TextShows(v.pattern, w.pattern);
      TextShows(v.options, w.options);
      ShowsThen(Memcmp(v.pattern, w.pattern), EncodedText(v.pattern), EncodedText(w.pattern),
                Memcmp(v.options, w.options), EncodedText(v.options), EncodedText(w.options));
    }
  }

  lemma NumberShows(v: Value, w: Value)
    requires Rank(v) == 2 && Rank(w) == 2
    ensures Shows(CompareNumbers(NumberOf(v), NumberOf(w)), Body(v), Body(w))
  {
    NumberKeysCompare(NumberOf(v), NumberOf(w));
    NumKeyShows(NumberOf(v).Key(), NumberOf(w).Key());
  }

  lemma TimestampShows(v: Value, w: Value)
    requires v.Timestamp? && w.Timestamp?
    ensures Shows(CompareScalars(v, w), Body(v), Body(w))
  {
    Pow256Values();
    BigEndianShows(v.time, w.time, HALF);
    BigEndianShows(v.increment, w.increment, HALF);
    ShowsThen(OrderOf(v.time, w.time), BigEndian(v.time, HALF), BigEndian(w.time, HALF),
              OrderOf(v.increment, w.increment), BigEndian(v.increment, HALF), BigEndian(w.increment, HALF));
  }

  /** An encoded text starts with zero exactly if the text is empty. */
  lemma TextStart(s: seq<Byte>)
    ensures EncodedText(s)[0] == 0 <==> s == []
  {
  }

  /**
   The main embedding: for well-formed values of any depth the encodings differ at a common
   byte in the direction of the value order, and are equal exactly if the values compare equal.
   */
  lemma {:induction false} EncodingShows(v: Value, w: Value)
    requires WellFormed(v) && WellFormed(w)
    ensures Shows(Compare(v, w), Encoded(v), Encoded(w))
    decreases v, 1
  {
    RankShows(v, w);
    if Rank(v) == Rank(w) {
      BodyShows(v, w);
      ShowsThen(Equal, [TypeByte(v)], [TypeByte(w)], Compare(v, w), Body(v), Body(w));
    }
  }

  lemma {:induction false} BodyShows(v: Value, w: Value)
    requires WellFormed(v) && WellFormed(w) && Rank(v) == Rank(w)
    ensures Shows(Compare(v, w), Body(v), Body(w))
    decreases v, 0
  {
    if v.Document? {
      FieldsShow(v.fields, w.fields);
    } else if v.Array? {
      ItemsShow(v.items, w.items);
    } else {
      ScalarShows(v, w);
    }
  }

  lemma {:induction false} FieldsShow(a: seq<Field>, b: seq<Field>)
    requires WellFormed(Document(a)) && WellFormed(Document(b))
    ensures Shows(CompareFields(a, b), EncodedFields(a), EncodedFields(b))
    decreases a, 2
  {
    if a == [] && b != [] {
      TextStart(b[0].name);
    } else if a != [] && b == [] {
      TextStart(a[0].name);
    } else if a != [] {
      TextShows(a[0].name, b[0].name);
      EncodingShows(a[0].value, b[0].value);
      TailWellFormed(a);
      TailWellFormed(b);
      FieldsShow(a[1..], b[1..]);
      ShowsThree(Memcmp(a[0].name, b[0].name), EncodedText(a[0].name), EncodedText(b[0].name),
                 Compare(a[0].value, b[0].value), Encoded(a[0].value), Encoded(b[0].value),
                 CompareFields(a[1..], b[1..]), EncodedFields(a[1..]), EncodedFields(b[1..]));
    }
  }

  lemma TailWellFormed(a: seq<Field>)
    requires a != [] && WellFormed(Document(a))
    ensures WellFormed(Document(a[1..])) && WellFormed(a[0].value) && a[0].name != []
  {
    forall i | 0 <= i < |a[1..]| ensures a[1..][i].name != [] && WellFormed(a[1..][i].value) {
      assert a[1..][i] == a[i + 1];
    }
  }

  lemma {:induction false} ItemsShow(a: seq<Value>, b: seq<Value>)
    requires WellFormed(Array(a)) && WellFormed(Array(b))
    ensures Shows(CompareItems(a, b), EncodedItems(a), EncodedItems(b))
    decreases a, 2
  {
    if a != [] && b != [] {
      EncodingShows(a[0], b[0]);
      RestWellFormed(a);
      RestWellFormed(b);
      ItemsShow(a[1..], b[1..]);
      ShowsThree(Compare(a[0], b[0]), Encoded(a[0]), Encoded(b[0]), Equal, [0], [0],
                 CompareItems(a[1..], b[1..]), EncodedItems(a[1..]), EncodedItems(b[1..]));
    }
  }

  lemma RestWellFormed(a: seq<Value>)
    requires a != [] && WellFormed(Array(a))
    ensures WellFormed(Array(a[1..])) && WellFormed(a[0]) && !a[0].MinKey?
  {
    forall i | 0 <= i < |a[1..]| ensures !a[1..][i].MinKey? && WellFormed(a[1..][i]) {
      assert a[1..][i] == a[i + 1];
    }
  }

  /** Comparing keys with `memcmp` is comparing the values. */
  lemma KeysCompareAsValues(v: Value, w: Value)
    requires WellFormed(v) && WellFormed(w)
    ensures Memcmp(Encoded(v), Encoded(w)) == Compare(v, w)
    ensures Encoded(v) == Encoded(w) <==> Compare(v, w) == Equal
  {
    EncodingShows(v, w);
    ShowsMemcmp(Compare(v, w), Encoded(v), Encoded(w));
    MemcmpSelf(Encoded(v));
  }

  /** No well-formed key is a proper prefix of another, plain or inverted. */
  lemma KeysArePrefixFree(v: Value, w: Value)
    requires WellFormed(v) && WellFormed(w)
    ensures Encoded(v) <= Encoded(w) ==> Encoded(v) == Encoded(w)
    ensures Inverted(Encoded(v)) <= Inverted(Encoded(w)) ==> Encoded(v) == Encoded(w)
  {
    EncodingShows(v, w);
    var o := Compare(v, w);
    if Encoded(v) <= Encoded(w) { ShowsPrefixFree(o, Encoded(v), Encoded(w)); }
    ShowsInverted(o, Encoded(v), Encoded(w));
    if Inverted(Encoded(v)) <= Inverted(Encoded(w)) {
      ShowsPrefixFree(o.Reversed(), Inverted(Encoded(v)), Inverted(Encoded(w)));
    }
  }
}
