/** Which value of a document an index reads, and the keys it stores for the document. */
module IndexRows {
  import opened Bytes
  import opened Options
  import opened Keys
  import opened CompoundKeys
  import opened Filter

  // ---------------------------------------------------------------------------
  // Dotted paths, as their segments
  // ---------------------------------------------------------------------------

  /** The value that an index reads: every segment but the last names an embedded document. */
  function Extracted(doc: seq<Field>, path: seq<string>): Option<Value>
    decreases |path|
  {
    if path == [] then None
    else
      var current := Get(doc, path[0]);
      if current.None? || |path| == 1 then current
      else if current.value.Document? then Extracted(current.value.fields, path[1..])
      else None
  }

  /** The value that a filter reads: the last segment may also be a position in an array. */
  function Nested(doc: seq<Field>, path: seq<string>, number: string -> Option<nat>): Option<Value>
    decreases |path|
  {
    if path == [] then None
    else
      var current := Get(doc, path[0]);
      if current.None? || |path| == 1 then current
      else if current.value.Document? then Nested(current.value.fields, path[1..], number)
      else if current.value.Array? && |path| == 2 then ElementAt(current.value.items, number(path[1]))
      else None
  }

  function ElementAt(items: seq<Value>, n: Option<nat>): Option<Value> {
    if n.Some? && n.value < |items| then Some(items[n.value]) else None
  }

  /** The path ends in a position of an array that has it. */
  predicate EndsInArray(doc: seq<Field>, path: seq<string>, number: string -> Option<nat>)
    requires path != []
  {
    var last := |path| - 1;
    var parent := Extracted(doc, path[..last]);
    last > 0 && parent.Some? && parent.value.Array? && ElementAt(parent.value.items, number(path[last])).Some?
  }

  /** Index and filter read the same value exactly when the path does not end in a position of an array. */
  lemma {:induction false} PathsAgreeIff(doc: seq<Field>, path: seq<string>, number: string -> Option<nat>)
    requires path != []
    ensures Nested(doc, path, number) == Extracted(doc, path) <==> !EndsInArray(doc, path, number)
    ensures EndsInArray(doc, path, number) ==> Extracted(doc, path).None?
    decreases |path|
  {
    var current := Get(doc, path[0]);
    if |path| >= 2 {
      var rest := path[1..];
      assert path[..|path| - 1][1..] == rest[..|rest| - 1];
      assert path[|path| - 1] == rest[|rest| - 1];
      assert path[..|path| - 1][0] == path[0];
      if current.Some? && current.value.Document? { PathsAgreeIff(current.value.fields, rest, number); }
    }
  }

  // ---------------------------------------------------------------------------
  // The keys of a document
  // ---------------------------------------------------------------------------

  /** One field of the key pattern with what the document has there. */
  datatype Indexed = Indexed(value: Option<Value>, ascending: bool)

  predicate IsArray(f: Indexed) { f.value.Some? && f.value.value.Array? }

  predicate Missing(fs: seq<Indexed>) { exists i :: 0 <= i < |fs| && fs[i].value.None? }

  predicate ParallelArrays(fs: seq<Indexed>) {
    exists i, j :: 0 <= i < j < |fs| && IsArray(fs[i]) && IsArray(fs[j])
  }

  function OrNull(v: Option<Value>): Value { if v.Some? then v.value else Null }

  function Row(fs: seq<Indexed>, id: Value): seq<KeyField> {
    seq(|fs|, i requires 0 <= i < |fs| => KeyField(OrNull(fs[i].value), fs[i].ascending)) + [KeyField(id, true)]
  }

  function RowKey(fs: seq<Indexed>, id: Value): seq<Byte> {
    var row := Row(fs, id);
    Compound(row, |row|)
  }

  /** The first array among the first `n` fields. */
  function ArrayAt(fs: seq<Indexed>, n: nat): (r: Option<nat>)
    requires n <= |fs|
    ensures r.Some? ==> r.value < n && IsArray(fs[r.value])
    ensures forall i :: 0 <= i < n && IsArray(fs[i]) ==> r.Some? && r.value <= i
  {
    if n == 0 then None
    else
      var before := ArrayAt(fs, n - 1);
      if before.None? && IsArray(fs[n - 1]) then Some(n - 1) else before
  }

  function WithElement(fs: seq<Indexed>, at: nat, v: Value): seq<Indexed>
    requires at < |fs|
  {
    fs[at := Indexed(Some(v), fs[at].ascending)]
  }

  function ElementKeys(fs: seq<Indexed>, at: nat, items: seq<Value>, id: Value): seq<seq<Byte>>
    requires at < |fs|
  {
    seq(|items|, j requires 0 <= j < |items| => RowKey(WithElement(fs, at, items[j]), id))
  }

  /** One key per element of the one array field, or a single key; `None` for two array fields. */
  function IndexKeys(fs: seq<Indexed>, id: Value, sparse: bool): Option<seq<seq<Byte>>> {
    if sparse && Missing(fs) then Some([])
    else if ParallelArrays(fs) then None
    else
      var at := ArrayAt(fs, |fs|);
      if at.Some? then Some(ElementKeys(fs, at.value, fs[at.value].value.value.items, id)) else Some([RowKey(fs, id)])
  }

  method BuildRow(fs: seq<Indexed>, id: Value) returns (key: seq<Byte>)
    ensures key == RowKey(fs, id)
  {
    var entry: seq<KeyField> := [];
    for i := 0 to |fs|
      invariant |entry| == i
      invariant forall j :: 0 <= j < i ==> entry[j] == KeyField(OrNull(fs[j].value), fs[j].ascending)
    {
      entry := entry + [KeyField(OrNull(fs[i].value), fs[i].ascending)];
    }
    entry := entry + [KeyField(id, true)];
    assert entry == Row(fs, id);
    key := EncodeCompoundKey(entry);
  }

  method AnyMissing(fs: seq<Indexed>) returns (any: bool)
    ensures any == Missing(fs)
  {
    for i := 0 to |fs|
      invariant forall j :: 0 <= j < i ==> fs[j].value.Some?
    {
      if fs[i].value.None? { return true; }
    }
    return false;
  }

  /** The position of the array field, and whether there is a second one. */
  method FindArray(fs: seq<Indexed>) returns (at: Option<nat>, parallel: bool)
    ensures parallel == ParallelArrays(fs)
    ensures !parallel ==> at == ArrayAt(fs, |fs|)
  {
    at := None;
    for i := 0 to |fs|
      invariant at == ArrayAt(fs, i)
      invariant forall j, k :: 0 <= j < k < i ==> !(IsArray(fs[j]) && IsArray(fs[k]))
    {
      if IsArray(fs[i]) {
        if at.Some? { return at, true; }
        at := Some(i);
      }
    }
    return at, false;
  }

  /** `build_index_keys`: the keys, and whether the index becomes a multikey one. */
  method BuildIndexKeys(fs: seq<Indexed>, id: Value, sparse: bool) returns (keys: Option<seq<seq<Byte>>>, multikey: bool)
    ensures keys == IndexKeys(fs, id, sparse)
    ensures keys.Some? ==> (multikey <==> !(sparse && Missing(fs)) && exists i :: 0 <= i < |fs| && IsArray(fs[i]))
  {
    var missing := AnyMissing(fs);
    if sparse && missing { return Some([]), false; }
    var at, parallel := FindArray(fs);
    if parallel { return None, false; }
    if at.None? {
      var key := BuildRow(fs, id);
      return Some([key]), false;
    }
    var items := fs[at.value].value.value.items;
    var built: seq<seq<Byte>> := [];
    for i := 0 to |items|
      invariant |built| == i && forall j :: 0 <= j < i ==> built[j] == RowKey(WithElement(fs, at.value, items[j]), id)
    {
      var key := BuildRow(WithElement(fs, at.value, items[i]), id);
      built := built + [key];
    }
    assert built == ElementKeys(fs, at.value, items, id);
    return Some(built), true;
  }

  // ---------------------------------------------------------------------------
  // The leading values of a document's keys
  // ---------------------------------------------------------------------------

  function Prefix(v: Value, ascending: bool): seq<Byte> { Part(KeyField(v, ascending)) + [COMPOUND_SEP] }

  /** The values that keys can start with: the elements of an array, and null for nothing. */
  function LeadValues(v: Option<Value>): seq<Value> { Elements(OrNull(v)) }

  /** The document has a key at all: no array of the pattern is empty, and a sparse index finds every field. */
  predicate IsStored(fs: seq<Indexed>, sparse: bool) {
    && !(sparse && Missing(fs))
    && forall i :: 0 <= i < |fs| && IsArray(fs[i]) ==> fs[i].value.value.items != []
  }

  lemma {:induction false} CompoundLeads(row: seq<KeyField>, n: nat)
    requires 2 <= n <= |row|
    ensures Prefix(row[0].value, row[0].ascending) < Compound(row, n)
    decreases n
  {
    assert Compound(row, 0) == [];
    assert Compound(row, 1) == Part(row[0]);
    if n > 2 {
      CompoundLeads(row, n - 1);
    } else {
      assert Compound(row, 2) == Part(row[0]) + [COMPOUND_SEP] + Part(row[1]);
    }
  }

  lemma RowLeads(fs: seq<Indexed>, id: Value)
    requires fs != []
    ensures Prefix(OrNull(fs[0].value), fs[0].ascending) < RowKey(fs, id)
  {
    CompoundLeads(Row(fs, id), |Row(fs, id)|);
  }

  predicate SomeLeads(vs: seq<Value>, ascending: bool, key: seq<Byte>) {
    exists i :: 0 <= i < |vs| && Prefix(vs[i], ascending) < key
  }

  predicate LeadsSome(v: Value, ascending: bool, keys: seq<seq<Byte>>) {
    exists i :: 0 <= i < |keys| && Prefix(v, ascending) < keys[i]
  }

  /** Every key starts with one of the values, and every value starts a key. */
  predicate Led(keys: seq<seq<Byte>>, vs: seq<Value>, ascending: bool) {
    && (forall i :: 0 <= i < |keys| ==> SomeLeads(vs, ascending, keys[i]))
    && (forall j :: 0 <= j < |vs| ==> LeadsSome(vs[j], ascending, keys))
  }

  /** A stored document's keys start with its leading values, and any other has no keys. */
  lemma KeysLead(fs: seq<Indexed>, id: Value, sparse: bool)
    requires fs != [] && IndexKeys(fs, id, sparse).Some?
    ensures var keys, vs := IndexKeys(fs, id, sparse).value, LeadValues(fs[0].value);
      if IsStored(fs, sparse) then Led(keys, vs, fs[0].ascending) else keys == []
  {
    var at := ArrayAt(fs, |fs|);
    if !(sparse && Missing(fs)) {
      if at.None? {
        RowLeads(fs, id);
        assert !IsArray(fs[0]) && IndexKeys(fs, id, sparse).value == [RowKey(fs, id)];
        OneKeyLeads(OrNull(fs[0].value), fs[0].ascending, RowKey(fs, id));
      } else {
        assert forall i :: 0 <= i < |fs| && IsArray(fs[i]) ==> i == at.value;
        ElementKeysLead(fs, at.value, id);
      }
    }
  }

  lemma OneKeyLeads(v: Value, ascending: bool, key: seq<Byte>)
    requires Prefix(v, ascending) < key
    ensures SomeLeads([v], ascending, key) && LeadsSome(v, ascending, [key])
  {
    assert [v][0] == v && [key][0] == key;
  }

  lemma ElementKeysLead(fs: seq<Indexed>, at: nat, id: Value)
    requires at < |fs| && IsArray(fs[at]) && forall i :: 0 <= i < |fs| && IsArray(fs[i]) ==> i == at
    ensures var items, vs := fs[at].value.value.items, LeadValues(fs[0].value);
      var keys := ElementKeys(fs, at, items, id);
      items != [] ==> Led(keys, vs, fs[0].ascending)
  {
    var items, vs, asc := fs[at].value.value.items, LeadValues(fs[0].value), fs[0].ascending;
    var keys := ElementKeys(fs, at, items, id);
    forall i | 0 <= i < |items| ensures Prefix(LeadOf(fs, at, items[i]), asc) < keys[i] && LeadOf(fs, at, items[i]) in vs {
      RowLeads(WithElement(fs, at, items[i]), id);
    }
    forall i | 0 <= i < |keys| ensures SomeLeads(vs, asc, keys[i]) {
      assert Prefix(LeadOf(fs, at, items[i]), asc) < keys[i];
    }
    if items != [] {
      forall j | 0 <= j < |vs| ensures LeadsSome(vs[j], asc, keys) {
        var k := if at == 0 then j else 0;
        assert vs[j] == LeadOf(fs, at, items[k]) && Prefix(LeadOf(fs, at, items[k]), asc) < keys[k];
      }
    }
  }

  /** The leading value of the key for one element. */
  function LeadOf(fs: seq<Indexed>, at: nat, v: Value): Value
    requires at < |fs|
  {
    if at == 0 then v else OrNull(fs[0].value)
  }
}
