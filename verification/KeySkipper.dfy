/** Finding the end of an encoded value without decoding it. */
module KeySkipper {
  import opened Bytes
  import opened KeyOrder
  import opened Keys

  /** The offset just past what was skipped, or an error. */
  datatype Skipped = Past(at: nat) | Malformed

  /** The bytes as the encoder produced them, before the inversion of descending fields. */
  function Raw(bytes: seq<Byte>, ascending: bool): (r: seq<Byte>)
    ensures |r| == |bytes|
  {
    if ascending then bytes else Inverted(bytes)
  }

  function SkipFixed(b: seq<Byte>, off: nat, len: nat): Skipped {
    if off + len <= |b| then Past(off + len) else Malformed
  }

  function SkipText(b: seq<Byte>, off: nat): (r: Skipped)
    ensures r.Past? ==> off < r.at <= |b|
    decreases |b| - off
  {
    if |b| <= off then Malformed else if b[off] == 0 then Past(off + 1) else SkipText(b, off + 1)
  }

  /** The value of four big-endian bytes. */
  function Word(a: nat, b: nat, c: nat, d: nat): nat {
    0x100_0000 * a + 0x1_0000 * b + 0x100 * c + d
  }

  function SkipBinary(b: seq<Byte>, off: nat): (r: Skipped)
    ensures r.Past? ==> off < r.at <= |b|
  {
    if |b| < off + 5 then Malformed
    else SkipFixed(b, off + 5, Word(b[off + 1], b[off + 2], b[off + 3], b[off + 4]))
  }

  /** Skip one value of any type; on any input it stops past its start and within the bytes. */
  function SkipValue(b: seq<Byte>, off: nat): (r: Skipped)
    ensures r.Past? ==> off < r.at <= |b|
    decreases |b| - off, 0
  {
    if |b| <= off then Malformed
    else
      var t := b[off];
      if t == TYPE_MIN_KEY || t == TYPE_NULL || t == TYPE_MAX_KEY then Past(off + 1)
      else if t == TYPE_NUMBER then SkipFixed(b, off + 1, 17)
      else if t == TYPE_SYMBOL || t == TYPE_STRING then SkipText(b, off + 1)
      else if t == TYPE_OBJECT then SkipFields(b, off + 1)
      else if t == TYPE_ARRAY then SkipItems(b, off + 1)
      else if t == TYPE_BIN_DATA then SkipBinary(b, off + 1)
      else if t == TYPE_OBJECT_ID then SkipFixed(b, off + 1, 12)
      else if t == TYPE_BOOLEAN then SkipFixed(b, off + 1, 1)
      else if t == TYPE_DATE || t == TYPE_TIMESTAMP then SkipFixed(b, off + 1, 8)
      else if t == TYPE_REGEXP then
        var pattern := SkipText(b, off + 1);
        if pattern.Malformed? then Malformed else SkipText(b, pattern.at)
      else Malformed
  }

  function SkipFields(b: seq<Byte>, off: nat): (r: Skipped)
    ensures r.Past? ==> off < r.at <= |b|
    decreases |b| - off, 1
  {
    if |b| <= off then Malformed
    else if b[off] == 0 then Past(off + 1)
    else
      var name := SkipText(b, off);
      if name.Malformed? then Malformed
      else
        var value := SkipValue(b, name.at);
        if value.Malformed? then Malformed else SkipFields(b, value.at)
  }

  function SkipItems(b: seq<Byte>, off: nat): (r: Skipped)
    ensures r.Past? ==> off < r.at <= |b|
    decreases |b| - off, 1
  {
    if |b| <= off then Malformed
    else if b[off] == 0 then Past(off + 1)
    else
      var value := SkipValue(b, off);
      if value.Malformed? || |b| <= value.at || b[value.at] != 0 then Malformed
      else SkipItems(b, value.at + 1)
  }

  // ---------------------------------------------------------------------------
  // The skipper inverts the encoder
  // ---------------------------------------------------------------------------

  /** `e` lies in `b` at `off`. */
  predicate Holds(b: seq<Byte>, off: nat, e: seq<Byte>) {
    off + |e| <= |b| && forall i {:trigger e[i]} :: 0 <= i < |e| ==> b[off + i] == e[i]
  }

  lemma HoldsParts(b: seq<Byte>, off: nat, d: seq<Byte>, e: seq<Byte>)
    requires Holds(b, off, d + e)
    ensures Holds(b, off, d) && Holds(b, off + |d|, e)
  {
    forall i | 0 <= i < |d| ensures b[off + i] == d[i] { assert (d + e)[i] == d[i]; }
    forall i | 0 <= i < |e| ensures b[off + |d| + i] == e[i] { assert (d + e)[|d| + i] == e[i]; }
  }

  lemma HoldsAt(b: seq<Byte>, off: nat, e: seq<Byte>, i: nat)
    requires Holds(b, off, e) && i < |e|
    ensures b[off + i] == e[i]
  {
  }

  lemma {:induction false} SkipsText(b: seq<Byte>, off: nat, s: seq<Byte>)
    requires Holds(b, off, EncodedText(s))
    ensures SkipText(b, off) == Past(off + |EncodedText(s)|)
    decreases |s|
  {
    if s == [] {
      HoldsAt(b, off, [0], 0);
    } else {
      HoldsParts(b, off, EncodedByte(s[0]), EncodedText(s[1..]));
      HoldsAt(b, off, EncodedByte(s[0]), 0);
      if s[0] <= 1 { HoldsAt(b, off, EncodedByte(s[0]), 1); }
      SkipsText(b, off + |EncodedByte(s[0])|, s[1..]);
    }
  }

  lemma SkipsBinary(b: seq<Byte>, off: nat, v: Value)
    requires v.Binary? && NodeOk(v) && Holds(b, off, Body(v))
    ensures SkipBinary(b, off) == Past(off + |Body(v)|)
  {
    var n := |v.data|;
    var len := LengthBytes(n);
    HoldsParts(b, off, [v.subtype] + len, v.data);
    HoldsParts(b, off, [v.subtype], len);
    HoldsAt(b, off + 1, len, 0);
    HoldsAt(b, off + 1, len, 1);
    HoldsAt(b, off + 1, len, 2);
    HoldsAt(b, off + 1, len, 3);
    LengthValue(n);
  }

  lemma LengthValue(n: nat)
    requires n <= U32_MAX
    ensures var len := LengthBytes(n); n == Word(len[0], len[1], len[2], len[3])
  {
    assert BigEndian(n, 4) == BigEndian(n / 256, 3) + [n % 256];
    assert BigEndian(n / 256, 3) == BigEndian(n / 256 / 256, 2) + [n / 256 % 256];
    assert BigEndian(n / 256 / 256, 2) == BigEndian(n / 256 / 256 / 256, 1) + [n / 256 / 256 % 256];
    assert BigEndian(n / 256 / 256 / 256, 1) == [n / 256 / 256 / 256 % 256];
  }

  /** On a well-formed value's encoding, wherever it lies and whatever follows, the skipper stops at its end. */
  lemma {:induction false} SkipsValue(b: seq<Byte>, off: nat, v: Value)
    requires WellFormed(v) && Holds(b, off, Encoded(v))
    ensures SkipValue(b, off) == Past(off + |Encoded(v)|)
    decreases v, 1
  {
    HoldsParts(b, off, [TypeByte(v)], Body(v));
    HoldsAt(b, off, [TypeByte(v)], 0);
    if v.Document? {
      SkipsFields(b, off + 1, v.fields);
    } else if v.Array? {
      SkipsItems(b, off + 1, v.items);
    } else {
      SkipsScalar(b, off, v);
    }
  }

  lemma SkipsScalar(b: seq<Byte>, off: nat, v: Value)
    requires NodeOk(v) && !v.Document? && !v.Array?
    requires off < |b| && b[off] == TypeByte(v) && Holds(b, off + 1, Body(v))
    ensures SkipValue(b, off) == Past(off + 1 + |Body(v)|)
  {
    if Rank(v) == 3 || Rank(v) == 4 {
      SkipsText(b, off + 1, TextOf(v));
    } else if v.Binary? {
      SkipsBinary(b, off + 1, v);
    } else if v.RegularExpression? {
      SkipsRegex(b, off, v);
    } else {
      SkipsFixed(b, off, v);
    }
  }

  /** Types without a length of their own have one fixed size each. */
  lemma SkipsFixed(b: seq<Byte>, off: nat, v: Value)
    requires Rank(v) !in {3, 4, 5, 6, 7, 12}
    requires off < |b| && b[off] == TypeByte(v) && off + 1 + |Body(v)| <= |b|
    ensures SkipValue(b, off) == Past(off + 1 + |Body(v)|)
  {
  }

  lemma SkipsRegex(b: seq<Byte>, off: nat, v: Value)
    requires v.RegularExpression?
    requires off < |b| && b[off] == TypeByte(v) && Holds(b, off + 1, Body(v))
    ensures SkipValue(b, off) == Past(off + 1 + |Body(v)|)
  {
    HoldsParts(b, off + 1, EncodedText(v.pattern), EncodedText(v.options));
    SkipsText(b, off + 1, v.pattern);
    SkipsText(b, off + 1 + |EncodedText(v.pattern)|, v.options);
  }

  lemma {:induction false} SkipsFields(b: seq<Byte>, off: nat, fields: seq<Field>)
    requires WellFormed(Document(fields)) && Holds(b, off, EncodedFields(fields))
    ensures SkipFields(b, off) == Past(off + |EncodedFields(fields)|)
    decreases fields, 3
  {
    if fields == [] {
      HoldsAt(b, off, [0], 0);
    } else {
      TailWellFormed(fields);
      var end := SkipsFirstField(b, off, fields);
      SkipsFields(b, end, fields[1..]);
    }
  }

  /** Skipping a document is skipping its first field, then the rest from `end`. */
  lemma {:induction false} SkipsFirstField(b: seq<Byte>, off: nat, fields: seq<Field>) returns (end: nat)
    requires fields != [] && fields[0].name != [] && WellFormed(fields[0].value)
    requires Holds(b, off, EncodedFields(fields))
    ensures SkipFields(b, off) == SkipFields(b, end) && Holds(b, end, EncodedFields(fields[1..]))
    ensures off + |EncodedFields(fields)| == end + |EncodedFields(fields[1..])|
    decreases fields, 2
  {
    SkipsOneField(b, off, fields);
    var at := off + |EncodedText(fields[0].name)|;
    end := at + |Encoded(fields[0].value)|;
    SkipsValue(b, at, fields[0].value);
    FieldsStep(b, off, at, end);
  }

  lemma FieldsStep(b: seq<Byte>, off: nat, name: nat, value: nat)
    requires off < |b| && b[off] != 0 && SkipText(b, off) == Past(name) && SkipValue(b, name) == Past(value)
    ensures SkipFields(b, off) == SkipFields(b, value)
  {
  }

  lemma ItemsStep(b: seq<Byte>, off: nat, value: nat)
    requires off < |b| && b[off] != 0 && SkipValue(b, off) == Past(value) && value < |b| && b[value] == 0
    ensures SkipItems(b, off) == SkipItems(b, value + 1)
  {
  }

  /** The parts of a non-empty document's encoding and the skip over its first name. */
  lemma SkipsOneField(b: seq<Byte>, off: nat, fields: seq<Field>)
    requires fields != [] && fields[0].name != [] && Holds(b, off, EncodedFields(fields))
    ensures var name, value := EncodedText(fields[0].name), Encoded(fields[0].value);
      && off < |b| && b[off] != 0
      && SkipText(b, off) == Past(off + |name|)
      && Holds(b, off + |name|, value)
      && Holds(b, off + |name| + |value|, EncodedFields(fields[1..]))
      && |EncodedFields(fields)| == |name| + |value| + |EncodedFields(fields[1..])|
  {
    var name, value := EncodedText(fields[0].name), Encoded(fields[0].value);
    HoldsParts(b, off, name + value, EncodedFields(fields[1..]));
    HoldsParts(b, off, name, value);
    HoldsAt(b, off, name, 0);
    TextStart(fields[0].name);
    SkipsText(b, off, fields[0].name);
  }

  lemma {:induction false} SkipsItems(b: seq<Byte>, off: nat, items: seq<Value>)
    requires WellFormed(Array(items)) && Holds(b, off, EncodedItems(items))
    ensures SkipItems(b, off) == Past(off + |EncodedItems(items)|)
    decreases items, 3
  {
    if items == [] {
      HoldsAt(b, off, [0], 0);
    } else {
      RestWellFormed(items);
      var end := SkipsFirstItem(b, off, items);
      SkipsItems(b, end, items[1..]);
    }
  }

  lemma {:induction false} SkipsFirstItem(b: seq<Byte>, off: nat, items: seq<Value>) returns (end: nat)
    requires items != [] && !items[0].MinKey? && WellFormed(items[0]) && Holds(b, off, EncodedItems(items))
    ensures SkipItems(b, off) == SkipItems(b, end) && Holds(b, end, EncodedItems(items[1..]))
    ensures off + |EncodedItems(items)| == end + |EncodedItems(items[1..])|
    decreases items, 2
  {
    SkipsOneItem(b, off, items);
    SkipsValue(b, off, items[0]);
    ItemsStep(b, off, off + |Encoded(items[0])|);
    end := off + |Encoded(items[0])| + 1;
  }

  lemma SkipsOneItem(b: seq<Byte>, off: nat, items: seq<Value>)
    requires items != [] && !items[0].MinKey? && Holds(b, off, EncodedItems(items))
    ensures var value := Encoded(items[0]);
      && off + |value| < |b| && b[off] != 0 && b[off + |value|] == 0
      && Holds(b, off, value)
      && Holds(b, off + |value| + 1, EncodedItems(items[1..]))
      && |EncodedItems(items)| == |value| + 1 + |EncodedItems(items[1..])|
  {
    ItemParts(b, off, Encoded(items[0]), EncodedItems(items[1..]));
  }

  lemma ItemParts(b: seq<Byte>, off: nat, value: seq<Byte>, rest: seq<Byte>)
    requires value != [] && value[0] != 0 && Holds(b, off, value + [0] + rest)
    ensures off + |value| < |b| && b[off] != 0 && b[off + |value|] == 0
    ensures Holds(b, off, value) && Holds(b, off + |value| + 1, rest)
  {
    HoldsParts(b, off, value + [0], rest);
    HoldsParts(b, off, value, [0]);
    HoldsAt(b, off, value, 0);
    HoldsAt(b, off + |value|, [0], 0);
  }

  // ---------------------------------------------------------------------------
  // Exactly when the skipper is right
  // ---------------------------------------------------------------------------

  /** An empty field name is taken for the end of the document. */
  lemma EmptyNameStops(b: seq<Byte>, off: nat, fields: seq<Field>)
    requires fields != [] && fields[0].name == [] && Holds(b, off, EncodedFields(fields))
    ensures SkipFields(b, off) == Past(off + 1) && |EncodedFields(fields)| > 1
  {
    HoldsAt(b, off, EncodedFields(fields), 0);
  }

  lemma BadTail(fields: seq<Field>)
    requires ChildrenOk(Document(fields)) && !NodeOk(Document(fields)) && fields[0].name != []
    ensures ChildrenOk(Document(fields[1..])) && !NodeOk(Document(fields[1..]))
  {
    var rest := fields[1..];
    forall i | 0 <= i < |rest| ensures WellFormed(rest[i].value) { assert rest[i] == fields[i + 1]; }
    var i :| 0 <= i < |fields| && fields[i].name == [];
    assert rest[i - 1].name == [];
  }

  lemma {:induction false} SkipsFieldsShort(b: seq<Byte>, off: nat, fields: seq<Field>)
    requires ChildrenOk(Document(fields)) && !NodeOk(Document(fields)) && Holds(b, off, EncodedFields(fields))
    ensures SkipFields(b, off) != Past(off + |EncodedFields(fields)|)
    decreases |fields|
  {
    if fields[0].name == [] {
      EmptyNameStops(b, off, fields);
    } else {
      var end := SkipsFirstField(b, off, fields);
      BadTail(fields);
      SkipsFieldsShort(b, end, fields[1..]);
    }
  }

  lemma {:induction false} SkipsItemsShort(b: seq<Byte>, off: nat, items: seq<Value>)
    requires ChildrenOk(Array(items)) && !NodeOk(Array(items)) && Holds(b, off, EncodedItems(items))
    ensures SkipItems(b, off) != Past(off + |EncodedItems(items)|)
    decreases |items|
  {
    if items[0].MinKey? {
      HoldsAt(b, off, EncodedItems(items), 0);
    } else {
      var end := SkipsFirstItem(b, off, items);
      BadRest(items);
      SkipsItemsShort(b, end, items[1..]);
    }
  }

  lemma BadRest(items: seq<Value>)
    requires ChildrenOk(Array(items)) && !NodeOk(Array(items)) && !items[0].MinKey?
    ensures ChildrenOk(Array(items[1..])) && !NodeOk(Array(items[1..]))
  {
    var rest := items[1..];
    forall i | 0 <= i < |rest| ensures WellFormed(rest[i]) { assert rest[i] == items[i + 1]; }
    var i :| 0 <= i < |items| && items[i].MinKey?;
    assert rest[i - 1].MinKey?;
  }

  lemma SkipsBinaryShort(b: seq<Byte>, off: nat, v: Value)
    requires v.Binary? && !NodeOk(v) && Holds(b, off, Body(v))
    ensures SkipBinary(b, off) != Past(off + |Body(v)|)
  {
    var n := Low32(|v.data|);
    var len := LengthBytes(n);
    HoldsParts(b, off, [v.subtype] + len, v.data);
    HoldsParts(b, off, [v.subtype], len);
    HoldsAt(b, off + 1, len, 0);
    HoldsAt(b, off + 1, len, 1);
    HoldsAt(b, off + 1, len, 2);
    HoldsAt(b, off + 1, len, 3);
    LengthValue(n);
  }

  lemma SkipsPointerShort(b: seq<Byte>, v: Value)
    requires v.DbPointer? && |b| == 1 + |Body(v)| && b[0] == TypeByte(v) && Holds(b, 1, Body(v))
    ensures SkipValue(b, 0) == Malformed
  {
    SkipsText(b, 1, v.repr);
  }

  /** A badly shaped node makes the skipper stop early or fail, even with nothing behind it. */
  lemma SkipsShort(b: seq<Byte>, v: Value)
    requires ChildrenOk(v) && !NodeOk(v) && |b| == 1 + |Body(v)| && b[0] == TypeByte(v) && Holds(b, 1, Body(v))
    ensures SkipValue(b, 0) != Past(|b|)
  {
    if v.DbPointer? {
      SkipsPointerShort(b, v);
    } else {
      SkipStarts(b, v);
      if v.Document? {
        SkipsFieldsShort(b, 1, v.fields);
      } else if v.Array? {
        SkipsItemsShort(b, 1, v.items);
      } else {
        SkipsBinaryShort(b, 1, v);
      }
    }
  }

  /** The skipper goes by the type byte. */
  lemma SkipStarts(b: seq<Byte>, v: Value)
    requires b != [] && b[0] == TypeByte(v) && (v.Document? || v.Array? || v.Binary?)
    ensures SkipValue(b, 0) == if v.Document? then SkipFields(b, 1) else if v.Array? then SkipItems(b, 1) else SkipBinary(b, 1)
  {
  }

  /** The skipper finds the end of the value's encoding before `rest`. */
  predicate FindsEnd(v: Value, rest: seq<Byte>) { SkipValue(Encoded(v) + rest, 0) == Past(|Encoded(v)|) }

  lemma ShortAlone(v: Value)
    requires ChildrenOk(v) && !NodeOk(v)
    ensures !FindsEnd(v, [])
  {
    var b := Encoded(v);
    assert b + [] == b;
    HoldsParts(b, 0, [TypeByte(v)], Body(v));
    SkipsShort(b, v);
  }

  /**
   For a value with well-formed children: the skipper finds the end of its encoding before
   every possible suffix if and only if the node itself is unambiguous.
   */
  lemma SkipExactIff(v: Value)
    requires ChildrenOk(v)
    ensures (forall rest :: FindsEnd(v, rest)) <==> NodeOk(v)
  {
    if NodeOk(v) {
      forall rest ensures FindsEnd(v, rest) {
        assert Holds(Encoded(v) + rest, 0, Encoded(v));
        SkipsValue(Encoded(v) + rest, 0, v);
      }
    } else {
      ShortAlone(v);
    }
  }

  lemma OneFieldKey(name: seq<Byte>)
    ensures EncodedFields([Field(name, Null)]) == EncodedText(name) + [5, 0]
  {
    assert [Field(name, Null)][1..] == [];
  }

  lemma TwoFieldKey(name: seq<Byte>)
    ensures EncodedFields([Field([], MinKey), Field(name, Null)]) == [0, 0] + EncodedText(name) + [5, 0]
  {
    OneFieldKey(name);
    assert [Field([], MinKey), Field(name, Null)][1..] == [Field(name, Null)];
  }

  lemma OneItemKey(v: Value)
    ensures EncodedItems([v]) == Encoded(v) + [0, 0]
  {
    assert [v][1..] == [];
  }

  lemma TwoItemKey(v: Value, w: Value)
    ensures EncodedItems([v, w]) == Encoded(v) + [0] + Encoded(w) + [0, 0]
  {
    OneItemKey(w);
    assert [v, w][1..] == [w];
  }

  lemma ShortTextKey(b: Byte)
    requires b > 1
    ensures EncodedText([b]) == [b, 0] && EncodedText([0x30, b]) == [0x30, b, 0]
  {
    assert [b][1..] == [] && [0x30, b][1..] == [b];
  }

  /** Outside the well-formed values two different arrays can share one key. */
  lemma KeyCollision()
    ensures exists v, w :: Compare(v, w) != Equal && Encoded(v) == Encoded(w)
  {
    var odd := Document([Field([], MinKey), Field([0x30, 0x61], Null)]);
    var empty, plain := Document([]), Document([Field([0x61], Null)]);
    ShortTextKey(0x61);
    TwoFieldKey([0x30, 0x61]);
    OneFieldKey([0x61]);
    OneItemKey(odd);
    TwoItemKey(empty, plain);
    assert Encoded(odd) == [0x30, 0, 0, 0x30, 0x61, 0, 5, 0];
    assert Encoded(plain) == [0x30, 0x61, 0, 5, 0] && Encoded(empty) == [0x30, 0];
    assert Encoded(Array([odd])) == Encoded(Array([empty, plain]));
    assert Compare(odd, empty) == Greater;
    assert Compare(Array([odd]), Array([empty, plain])) == Greater;
  }
}
