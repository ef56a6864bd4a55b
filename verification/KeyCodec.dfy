/** The encoder and the skipper as the source runs them: appending to a buffer, advancing an offset. */
module KeyCodec {
  import opened Bytes
  import opened KeyOrder
  import opened NumberKeys
  import opened Keys
  import opened KeySkipper

  // ---------------------------------------------------------------------------
  // Encoding
  // ---------------------------------------------------------------------------

  method AppendText(buf: seq<Byte>, text: seq<Byte>) returns (out: seq<Byte>)
    ensures out == buf + EncodedText(text)
  {
    out := buf;
    for i := 0 to |text|
      invariant out + EncodedText(text[i..]) == buf + EncodedText(text)
    {
      ghost var rest := text[i..];
      assert rest[1..] == text[i + 1..];
      assert EncodedText(rest) == EncodedByte(text[i]) + EncodedText(text[i + 1..]);
      if text[i] == 0 {
        out := out + [1, 1];
      } else if text[i] == 1 {
        out := out + [1, 2];
      } else {
        out := out + [text[i]];
      }
    }
    assert text[|text|..] == [];
    out := out + [0];
  }

  method AppendNumber(buf: seq<Byte>, k: NumKey) returns (out: seq<Byte>)
    ensures out == buf + k.Bytes()
  {
    out := buf + [k.cls];
    out := out + BigEndian(k.hi, WORD);
    out := out + BigEndian(k.lo, WORD);
  }

  method AppendScalar(buf: seq<Byte>, v: Value) returns (out: seq<Byte>)
    requires !v.Document? && !v.Array?
    ensures out == buf + Body(v)
  {
    if Rank(v) == 2 {
      out := AppendNumber(buf, NumberOf(v).Key());
    } else if Rank(v) == 3 || Rank(v) == 4 {
      out := AppendText(buf, TextOf(v));
    } else if v.RegularExpression? {
      out := AppendText(buf, v.pattern);
      out := AppendText(out, v.options);
      assert out == buf + (EncodedText(v.pattern) + EncodedText(v.options));
    } else if v.DbPointer? {
      out := AppendText(buf, v.repr);
    } else {
      var body := FixedBody(v);
      out := buf + body;
    }
  }

  /** The bytes of values that are neither numbers nor text. */
  method FixedBody(v: Value) returns (body: seq<Byte>)
    requires !v.Document? && !v.Array? && Rank(v) !in {2, 3, 4} && !v.RegularExpression? && !v.DbPointer?
    ensures body == Body(v)
  {
    match v
    case Binary(subtype, data) => body := [subtype] + LengthBytes(|data|) + data;
    case ObjectId(id) => body := id;
    case Boolean(b) => body := [if b then 1 else 0];
    case DateTime(ms) => body := BigEndian(Biased(ms), WORD);
    case Timestamp(t, i) => body := BigEndian(t, HALF) + BigEndian(i, HALF);
    case _ => body := [];
  }

  method AppendBody(buf: seq<Byte>, v: Value) returns (out: seq<Byte>)
    ensures out == buf + Body(v)
    decreases v, 1
  {
    if v.Document? {
      out := AppendFields(buf, v.fields);
    } else if v.Array? {
      out := AppendItems(buf, v.items);
    } else {
      out := AppendScalar(buf, v);
    }
  }

  method AppendValue(buf: seq<Byte>, v: Value) returns (out: seq<Byte>)
    ensures out == buf + Encoded(v)
    decreases v, 2
  {
    out := buf + [TypeByte(v)];
    out := AppendBody(out, v);
    Joined(buf, [TypeByte(v)], Body(v));
  }

  lemma Joined(a: seq<Byte>, b: seq<Byte>, c: seq<Byte>)
    ensures a + b + c == a + (b + c)
  {
  }

  method AppendFields(buf: seq<Byte>, fields: seq<Field>) returns (out: seq<Byte>)
    ensures out == buf + EncodedFields(fields)
    decreases fields, 0
  {
    out := buf;
    for i := 0 to |fields|
      invariant out + EncodedFields(fields[i..]) == buf + EncodedFields(fields)
    {
      assert fields[i..][1..] == fields[i + 1..];
      ghost var before, name, value := out, EncodedText(fields[i].name), Encoded(fields[i].value);
      out := AppendText(out, fields[i].name);
      out := AppendValue(out, fields[i].value);
      Joined(before, name, value);
      Joined(before, name + value, EncodedFields(fields[i + 1..]));
    }
    assert fields[|fields|..] == [];
    out := out + [0];
  }

  method AppendItems(buf: seq<Byte>, items: seq<Value>) returns (out: seq<Byte>)
    ensures out == buf + EncodedItems(items)
    decreases items, 0
  {
    out := buf;
    for i := 0 to |items|
      invariant out + EncodedItems(items[i..]) == buf + EncodedItems(items)
    {
      assert items[i..][1..] == items[i + 1..];
      ghost var before, value := out, Encoded(items[i]);
      out := AppendValue(out, items[i]);
      out := out + [0];
      Joined(before, value, [0]);
      Joined(before, value + [0], EncodedItems(items[i + 1..]));
    }
    assert items[|items|..] == [];
    out := out + [0];
  }

  // ---------------------------------------------------------------------------
  // Skipping
  // ---------------------------------------------------------------------------

  function RawByte(bytes: seq<Byte>, off: nat, ascending: bool): Byte
    requires off < |bytes|
  {
    if ascending then bytes[off] else 255 - bytes[off]
  }

  method SkipEncodedText(bytes: seq<Byte>, offset: nat, ascending: bool) returns (r: Skipped)
    ensures r == SkipText(Raw(bytes, ascending), offset)
  {
    var off := offset;
    while true
      invariant SkipText(Raw(bytes, ascending), offset) == SkipText(Raw(bytes, ascending), off)
      decreases |bytes| - off
    {
      if |bytes| <= off { return Malformed; }
      var raw := RawByte(bytes, off, ascending);
      off := off + 1;
      if raw == 0 { return Past(off); }
    }
  }

  method SkipEncodedBinary(bytes: seq<Byte>, offset: nat, ascending: bool) returns (r: Skipped)
    ensures r == SkipBinary(Raw(bytes, ascending), offset)
  {
    if |bytes| < offset + 5 { return Malformed; }
    var len: seq<Byte> := [];
    for i := 0 to 4
      invariant len == Raw(bytes, ascending)[offset + 1..offset + 1 + i]
    {
      len := len + [RawByte(bytes, offset + 1 + i, ascending)];
    }
    return SkipFixed(bytes, offset + 5, Word(len[0], len[1], len[2], len[3]));
  }

  method SkipEncodedValue(bytes: seq<Byte>, offset: nat, ascending: bool) returns (r: Skipped)
    ensures r == SkipValue(Raw(bytes, ascending), offset)
    decreases |bytes| - offset, 0
  {
    if |bytes| <= offset { return Malformed; }
    var t := RawByte(bytes, offset, ascending);
    if t == TYPE_MIN_KEY || t == TYPE_NULL || t == TYPE_MAX_KEY {
      r := Past(offset + 1);
    } else if t == TYPE_NUMBER {
      r := SkipFixed(bytes, offset + 1, 17);
    } else if t == TYPE_SYMBOL || t == TYPE_STRING {
      r := SkipEncodedText(bytes, offset + 1, ascending);
    } else if t == TYPE_OBJECT {
      r := SkipEncodedDocument(bytes, offset + 1, ascending);
    } else if t == TYPE_ARRAY {
      r := SkipEncodedArray(bytes, offset + 1, ascending);
    } else if t == TYPE_BIN_DATA {
      r := SkipEncodedBinary(bytes, offset + 1, ascending);
    } else if t == TYPE_OBJECT_ID {
      r := SkipFixed(bytes, offset + 1, 12);
    } else if t == TYPE_BOOLEAN {
      r := SkipFixed(bytes, offset + 1, 1);
    } else if t == TYPE_DATE || t == TYPE_TIMESTAMP {
      r := SkipFixed(bytes, offset + 1, 8);
    } else if t == TYPE_REGEXP {
      r := SkipEncodedText(bytes, offset + 1, ascending);
      if r.Past? { r := SkipEncodedText(bytes, r.at, ascending); }
    } else {
      r := Malformed;
    }
  }

  method SkipEncodedDocument(bytes: seq<Byte>, offset: nat, ascending: bool) returns (r: Skipped)
    ensures r == SkipFields(Raw(bytes, ascending), offset)
    decreases |bytes| - offset, 1
  {
    var off := offset;
    while true
      invariant offset <= off
      invariant SkipFields(Raw(bytes, ascending), offset) == SkipFields(Raw(bytes, ascending), off)
      decreases |bytes| - off
    {
      if |bytes| <= off { return Malformed; }
      if RawByte(bytes, off, ascending) == 0 { return Past(off + 1); }
      var name := SkipEncodedText(bytes, off, ascending);
      if name.Malformed? { return Malformed; }
      var value := SkipEncodedValue(bytes, name.at, ascending);
      if value.Malformed? { return Malformed; }
      off := value.at;
    }
  }

  method SkipEncodedArray(bytes: seq<Byte>, offset: nat, ascending: bool) returns (r: Skipped)
    ensures r == SkipItems(Raw(bytes, ascending), offset)
    decreases |bytes| - offset, 1
  {
    var off := offset;
    while true
      invariant offset <= off
      invariant SkipItems(Raw(bytes, ascending), offset) == SkipItems(Raw(bytes, ascending), off)
      decreases |bytes| - off
    {
      if |bytes| <= off { return Malformed; }
      if RawByte(bytes, off, ascending) == 0 { return Past(off + 1); }
      var value := SkipEncodedValue(bytes, off, ascending);
      if value.Malformed? || |bytes| <= value.at || RawByte(bytes, value.at, ascending) != 0 { return Malformed; }
      off := value.at + 1;
    }
  }
}
