/** Compound index keys with ascending and descending fields, and the range of a unique prefix. */
module CompoundKeys {
  import opened Bytes
  import opened KeyOrder
  import opened Keys
  import opened KeySkipper
  import KeyCodec

  datatype KeyField = KeyField(value: Value, ascending: bool)

  /** A field's bytes in the key; descending fields are bitwise inverted. */
  function Part(f: KeyField): (r: seq<Byte>)
    ensures r != []
  {
    Raw(Encoded(f.value), f.ascending)
  }

  /** The key of the first `n` fields. */
  function Compound(fields: seq<KeyField>, n: nat): (r: seq<Byte>)
    requires n <= |fields|
  {
    if n == 0 then []
    else Compound(fields, n - 1) + (if n > 1 then [COMPOUND_SEP] else []) + Part(fields[n - 1])
  }

  function ComparePart(f: KeyField, g: KeyField): Order {
    if f.ascending then Compare(f.value, g.value) else Compare(f.value, g.value).Reversed()
  }

  /** Field by field over the first `n` fields, reversed where a field is descending. */
  function CompareFirst(a: seq<KeyField>, b: seq<KeyField>, n: nat): Order
    requires n <= |a| && n <= |b|
  {
    if n == 0 then Equal else CompareFirst(a, b, n - 1).Then(ComparePart(a[n - 1], b[n - 1]))
  }

  /** Two rows of one index agree on the directions of their fields. */
  ghost predicate Comparable(a: seq<KeyField>, b: seq<KeyField>) {
    && |a| == |b|
    && forall i :: 0 <= i < |a| ==> a[i].ascending == b[i].ascending && WellFormed(a[i].value) && WellFormed(b[i].value)
  }

  lemma PartShows(f: KeyField, g: KeyField)
    requires f.ascending == g.ascending && WellFormed(f.value) && WellFormed(g.value)
    ensures Shows(ComparePart(f, g), Part(f), Part(g))
  {
    EncodingShows(f.value, g.value);
    if !f.ascending { ShowsInverted(Compare(f.value, g.value), Encoded(f.value), Encoded(g.value)); }
  }

  lemma {:induction false} CompoundShows(a: seq<KeyField>, b: seq<KeyField>, n: nat)
    requires Comparable(a, b) && n <= |a|
    ensures Shows(CompareFirst(a, b, n), Compound(a, n), Compound(b, n))
  {
    if n > 0 {
      CompoundShows(a, b, n - 1);
      PartShows(a[n - 1], b[n - 1]);
      var sep: seq<Byte> := if n > 1 then [COMPOUND_SEP] else [];
      var o := CompareFirst(a, b, n - 1);
      ShowsThen(o, Compound(a, n - 1), Compound(b, n - 1), Equal, sep, sep);
      ShowsThen(o, Compound(a, n - 1) + sep, Compound(b, n - 1) + sep,
                ComparePart(a[n - 1], b[n - 1]), Part(a[n - 1]), Part(b[n - 1]));
    }
  }

  /** Byte order of compound keys is the order of their fields, each in its direction. */
  lemma CompoundKeysCompare(a: seq<KeyField>, b: seq<KeyField>)
    requires Comparable(a, b)
    ensures Memcmp(Compound(a, |a|), Compound(b, |b|)) == CompareFirst(a, b, |a|)
  {
    CompoundShows(a, b, |a|);
    ShowsMemcmp(CompareFirst(a, b, |a|), Compound(a, |a|), Compound(b, |a|));
  }

  method EncodeCompoundKey(fields: seq<KeyField>) returns (buf: seq<Byte>)
    ensures buf == Compound(fields, |fields|)
  {
    buf := [];
    for i := 0 to |fields|
      invariant buf == Compound(fields, i)
    {
      if i > 0 { buf := buf + [COMPOUND_SEP]; }
      var part := EncodeField(fields[i]);
      buf := buf + part;
    }
  }

  method EncodeField(f: KeyField) returns (part: seq<Byte>)
    ensures part == Part(f)
  {
    part := KeyCodec.AppendValue([], f.value);
    if !f.ascending { part := InvertBytes(part); }
  }

  method InvertBytes(bytes: seq<Byte>) returns (out: seq<Byte>)
    ensures out == Inverted(bytes)
  {
    out := bytes;
    for i := 0 to |bytes|
      invariant |out| == |bytes| && out[i..] == bytes[i..]
      invariant forall j :: 0 <= j < i ==> out[j] == 255 - bytes[j]
    {
      out := out[i := 255 - out[i]];
    }
  }

  // ---------------------------------------------------------------------------
  // The range of a unique prefix
  // ---------------------------------------------------------------------------

  /** Past a field at `off`; every field but the first follows a separator. */
  function SkipField(key: seq<Byte>, off: nat, first: bool, ascending: bool): (r: Skipped)
    ensures r.Past? ==> r.at <= |key|
  {
    if first then SkipValue(Raw(key, ascending), off)
    else if off < |key| && key[off] == COMPOUND_SEP then SkipValue(Raw(key, ascending), off + 1)
    else Malformed
  }

  /** The end of the first `n` indexed fields of `key`. */
  function EndOfFields(key: seq<Byte>, ascending: seq<bool>, n: nat): (r: Skipped)
    requires n <= |ascending|
    ensures r.Past? ==> r.at <= |key|
  {
    if n == 0 then Past(0)
    else
      var prev := EndOfFields(key, ascending, n - 1);
      if prev.Malformed? then Malformed else SkipField(key, prev.at, n == 1, ascending[n - 1])
  }

  datatype Range = Range(start: seq<Byte>, end: seq<Byte>) | BadKey {
    /** Whether a scan of `[start, end)` meets the key. */
    predicate Contains(key: seq<Byte>) {
      Range? && Memcmp(start, key) != Greater && Memcmp(key, end) == Less
    }
  }

  /** All keys that continue `key` behind the separator at `at`. */
  function RangeAt(key: seq<Byte>, at: Skipped): Range {
    if at.Past? && at.at < |key| && key[at.at] == COMPOUND_SEP then
      Range(key[..at.at] + [COMPOUND_SEP], key[..at.at] + [COMPOUND_SEP + 1])
    else BadKey
  }

  function PrefixRange(key: seq<Byte>, ascending: seq<bool>): Range {
    RangeAt(key, EndOfFields(key, ascending, |ascending|))
  }

  method CompoundPrefixRange(key: seq<Byte>, ascending: seq<bool>) returns (r: Range)
    ensures r == PrefixRange(key, ascending)
  {
    var offset: nat := 0;
    for i := 0 to |ascending|
      invariant EndOfFields(key, ascending, i) == Past(offset)
    {
      var next := SkipEncodedField(key, offset, i == 0, ascending[i]);
      if next.Malformed? {
        EndsMalformed(key, ascending, i + 1);
        return BadKey;
      }
      offset := next.at;
    }
    r := PrefixRangeAt(key, offset);
  }

  method PrefixRangeAt(key: seq<Byte>, offset: nat) returns (r: Range)
    ensures r == RangeAt(key, Past(offset))
  {
    if |key| <= offset || key[offset] != COMPOUND_SEP { return BadKey; }
    var start := key[..offset + 1];
    var last := |start| - 1;
    var end := start[last := if start[last] < 255 then start[last] + 1 else 255];
    return Range(start, end);
  }

  method SkipEncodedField(key: seq<Byte>, offset: nat, first: bool, ascending: bool) returns (r: Skipped)
    ensures r == SkipField(key, offset, first, ascending)
  {
    var off := offset;
    if !first {
      if |key| <= off || key[off] != COMPOUND_SEP { return Malformed; }
      off := off + 1;
    }
    r := KeyCodec.SkipEncodedValue(key, off, ascending);
  }

  /** An error in one field is an error for the key. */
  lemma {:induction false} EndsMalformed(key: seq<Byte>, ascending: seq<bool>, n: nat)
    requires n <= |ascending| && EndOfFields(key, ascending, n).Malformed?
    ensures EndOfFields(key, ascending, |ascending|).Malformed?
    decreases |ascending| - n
  {
    if n < |ascending| { EndsMalformed(key, ascending, n + 1); }
  }

  lemma HoldsPart(key: seq<Byte>, off: nat, f: KeyField)
    requires Holds(key, off, Part(f))
    ensures Holds(Raw(key, f.ascending), off, Encoded(f.value))
  {
    if !f.ascending {
      forall i | 0 <= i < |Encoded(f.value)| ensures Inverted(key)[off + i] == Encoded(f.value)[i] {
        HoldsAt(key, off, Part(f), i);
      }
    }
  }

  lemma FieldEnds(key: seq<Byte>, off: nat, first: bool, f: KeyField)
    requires WellFormed(f.value) && off < |key|
    requires if first then Holds(key, off, Part(f)) else key[off] == COMPOUND_SEP && Holds(key, off + 1, Part(f))
    ensures SkipField(key, off, first, f.ascending) == Past(off + (if first then 0 else 1) + |Part(f)|)
  {
    var at := if first then off else off + 1;
    HoldsPart(key, at, f);
    SkipsValue(Raw(key, f.ascending), at, f.value);
  }

  lemma FieldHeld(key: seq<Byte>, before: seq<Byte>, first: bool, part: seq<Byte>)
    requires Holds(key, 0, before + (if first then [] else [COMPOUND_SEP]) + part) && part != []
    ensures Holds(key, 0, before) && |before| < |key|
    ensures if first then Holds(key, |before|, part) else key[|before|] == COMPOUND_SEP && Holds(key, |before| + 1, part)
  {
    var sep: seq<Byte> := if first then [] else [COMPOUND_SEP];
    HoldsParts(key, 0, before + sep, part);
    HoldsParts(key, 0, before, sep);
    if !first { HoldsAt(key, |before|, sep, 0); }
  }

  /** The skipper retraces the encoder through any number of fields in either direction. */
  lemma {:induction false} EndsWhereEncoded(key: seq<Byte>, fields: seq<KeyField>, ascending: seq<bool>, n: nat)
    requires n <= |ascending| <= |fields| && Holds(key, 0, Compound(fields, n))
    requires forall i :: 0 <= i < n ==> fields[i].ascending == ascending[i] && WellFormed(fields[i].value)
    ensures EndOfFields(key, ascending, n) == Past(|Compound(fields, n)|)
  {
    if n > 0 {
      var before, f := Compound(fields, n - 1), fields[n - 1];
      FieldHeld(key, before, n == 1, Part(f));
      EndsWhereEncoded(key, fields, ascending, n - 1);
      FieldEnds(key, |before|, n == 1, f);
    }
  }

  lemma {:induction false} MemcmpPrefix(a: seq<Byte>, s: seq<Byte>)
    ensures Memcmp(a, a + s) != Greater
  {
    if a != [] {
      assert (a + s)[1..] == a[1..] + s;
      MemcmpPrefix(a[1..], s);
    }
  }

  lemma RangeOfPrefix(p: seq<Byte>, q: seq<Byte>, id: seq<Byte>, o: Order)
    requires Shows(o, p, q)
    ensures Range(p + [1], p + [2]).Contains(q + [1] + id) <==> o == Equal
  {
    var key := q + [1] + id;
    assert key == q + ([1] + id);
    match o
    case Less =>
      BelowExtends(p, q, [2], [1] + id);
      BelowMemcmp(p + [2], key);
    case Greater =>
      BelowExtends(q, p, [1] + id, [1]);
      BelowMemcmp(key, p + [1]);
    case Equal =>
      MemcmpPrefix(p + [1], id);
      BelowBehind(p, [1] + id, [2]);
      BelowMemcmp(key, p + [2]);
  }

  lemma RowEnds(row: seq<KeyField>, ascending: seq<bool>, n: nat)
    requires |row| == n + 1 && |ascending| == n && n > 0
    requires forall i :: 0 <= i < n ==> row[i].ascending == ascending[i] && WellFormed(row[i].value)
    ensures EndOfFields(Compound(row, n + 1), ascending, n) == Past(|Compound(row, n)|)
  {
    RangeAtSeparator(Compound(row, n), Part(row[n]));
    EndsWhereEncoded(Compound(row, n + 1), row, ascending, n);
  }

  lemma RangeOfRow(row: seq<KeyField>, ascending: seq<bool>, n: nat)
    requires |row| == n + 1 && |ascending| == n && n > 0
    requires forall i :: 0 <= i < n ==> row[i].ascending == ascending[i] && WellFormed(row[i].value)
    ensures var p := Compound(row, n);
      PrefixRange(Compound(row, n + 1), ascending) == Range(p + [1], p + [2])
  {
    RowEnds(row, ascending, n);
    RangeAtSeparator(Compound(row, n), Part(row[n]));
  }

  lemma RangeAtSeparator(p: seq<Byte>, rest: seq<Byte>)
    ensures var key := p + [COMPOUND_SEP] + rest;
      Holds(key, 0, p) && RangeAt(key, Past(|p|)) == Range(p + [1], p + [2])
  {
    assert (p + [COMPOUND_SEP] + rest)[..|p|] == p;
  }

  /**
   The range computed from one row's key contains another row's key exactly when the two rows
   agree on every indexed field, whatever their trailing ids.
   */
  lemma PrefixRangeIsExact(row: seq<KeyField>, other: seq<KeyField>, ascending: seq<bool>)
    requires Comparable(row, other) && |row| == |ascending| + 1 && ascending != []
    requires forall i :: 0 <= i < |ascending| ==> row[i].ascending == ascending[i]
    ensures var n := |ascending|;
      PrefixRange(Compound(row, n + 1), ascending).Contains(Compound(other, n + 1)) <==> CompareFirst(row, other, n) == Equal
  {
    var n := |ascending|;
    var p, q, o := Compound(row, n), Compound(other, n), CompareFirst(row, other, n);
    RangeOfRow(row, ascending, n);
    CompoundShows(row, other, n);
    RangeOfPrefix(p, q, Part(other[n]), o);
  }
}
