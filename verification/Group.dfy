/** `$group`: one pass that keeps running states refines partitioning by key and folding each part. */
module Group {
  import opened Bytes
  import opened Keys
  import opened Options
  import opened Accumulators

  /** An expression's value for a document, missing or not, or an error. */
  datatype Resolved = Ok(value: Option<Value>) | Error

  /** A document by what the group key and the accumulators' arguments resolve to. */
  datatype Row = Row(key: Resolved, args: seq<Resolved>)

  datatype State = State(key: seq<Byte>, id: Value, accs: seq<Acc>)

  /** A missing key groups with null. */
  function KeyValue(row: Row): Value {
    if row.key.Ok? && row.key.value.Some? then row.key.value.value else Null
  }

  function KeyBytes(row: Row): seq<Byte> { Encoded(KeyValue(row)) }

  predicate ArgOk(op: Op, arg: Resolved) { arg.Ok? && (op.MergeObjects? ==> Mergeable(arg.value)) }

  predicate RowOk(row: Row, ops: seq<Op>) {
    row.key.Ok? && |row.args| == |ops| && forall j :: 0 <= j < |ops| ==> ArgOk(ops[j], row.args[j])
  }

  // ---------------------------------------------------------------------------
  // Partition, then fold
  // ---------------------------------------------------------------------------

  /** The distinct keys of the first `n` rows, in the order of first occurrence. */
  function GroupKeys(rows: seq<Row>, n: nat): seq<seq<Byte>>
    requires n <= |rows|
  {
    if n == 0 then []
    else
      var before := GroupKeys(rows, n - 1);
      if KeyBytes(rows[n - 1]) in before then before else before + [KeyBytes(rows[n - 1])]
  }

  /** The values of argument `j` over the rows with the key. */
  function Args(rows: seq<Row>, n: nat, key: seq<Byte>, j: nat): seq<Option<Value>>
    requires n <= |rows|
  {
    if n == 0 then []
    else
      var before, row := Args(rows, n - 1, key, j), rows[n - 1];
      if KeyBytes(row) == key && j < |row.args| && row.args[j].Ok? then before + [row.args[j].value] else before
  }

  function CountOf(rows: seq<Row>, n: nat, key: seq<Byte>): nat
    requires n <= |rows|
  {
    if n == 0 then 0 else CountOf(rows, n - 1, key) + if KeyBytes(rows[n - 1]) == key then 1 else 0
  }

  /** The key value of the first row with the key. */
  function FirstId(rows: seq<Row>, n: nat, key: seq<Byte>): Value
    requires n <= |rows|
  {
    if n == 0 then Null
    else if CountOf(rows, n - 1, key) > 0 then FirstId(rows, n - 1, key)
    else if KeyBytes(rows[n - 1]) == key then KeyValue(rows[n - 1])
    else Null
  }

  /** The state of a group is the fold of exactly its rows. */
  predicate StateOk(s: State, rows: seq<Row>, n: nat, ops: seq<Op>)
    requires n <= |rows|
  {
    && s.id == FirstId(rows, n, s.key)
    && |s.accs| == |ops|
    && forall j :: 0 <= j < |ops| ==> Fold(ops[j], Args(rows, n, s.key, j)) == Some(s.accs[j])
  }

  predicate GroupsOk(groups: seq<State>, rows: seq<Row>, n: nat, ops: seq<Op>)
    requires n <= |rows|
  {
    && |groups| == |GroupKeys(rows, n)|
    && forall g :: 0 <= g < |groups| ==> groups[g].key == GroupKeys(rows, n)[g] && StateOk(groups[g], rows, n, ops)
  }

  // ---------------------------------------------------------------------------
  // The loop
  // ---------------------------------------------------------------------------

  lemma {:induction false} FoldShape(op: Op, vs: seq<Option<Value>>)
    ensures Fold(op, vs).Some? ==> (Fold(op, vs).value.MergeAcc? <==> op.MergeObjects?)
  {
    if vs != [] { FoldShape(op, vs[..|vs| - 1]); }
  }

  method AccumulateRow(accs: seq<Acc>, row: Row) returns (out: Option<seq<Acc>>)
    requires |row.args| == |accs|
    ensures out.Some? <==> forall j :: 0 <= j < |accs| ==> row.args[j].Ok? && Accumulate(accs[j], row.args[j].value).Some?
    ensures out.Some? ==> |out.value| == |accs|
    ensures out.Some? ==> forall j :: 0 <= j < |accs| ==> Accumulate(accs[j], row.args[j].value) == Some(out.value[j])
  {
    var done: seq<Acc> := [];
    for j := 0 to |accs|
      invariant |done| == j
      invariant forall i :: 0 <= i < j ==> row.args[i].Ok? && Accumulate(accs[i], row.args[i].value) == Some(done[i])
    {
      if row.args[j].Error? { return None; }
      var next := Accumulate(accs[j], row.args[j].value);
      if next.None? { return None; }
      done := done + [next.value];
    }
    return Some(done);
  }

  method Position(order: seq<State>, key: seq<Byte>) returns (p: nat)
    ensures p <= |order| && (p < |order| ==> order[p].key == key)
    ensures forall g :: 0 <= g < p ==> order[g].key != key
  {
    p := 0;
    while p < |order| && order[p].key != key
      invariant p <= |order| && forall g :: 0 <= g < p ==> order[g].key != key
    {
      p := p + 1;
    }
  }

  lemma {:induction false} KeyCounted(rows: seq<Row>, n: nat, key: seq<Byte>, j: nat)
    requires n <= |rows|
    ensures key in GroupKeys(rows, n) <==> CountOf(rows, n, key) > 0
    ensures CountOf(rows, n, key) == 0 ==> Args(rows, n, key, j) == []
  {
    if n > 0 { KeyCounted(rows, n - 1, key, j); }
  }

  predicate AllDistinct(ks: seq<seq<Byte>>) { forall g, h :: 0 <= g < h < |ks| ==> ks[g] != ks[h] }

  lemma {:induction false} KeysDistinct(rows: seq<Row>, n: nat)
    requires n <= |rows|
    ensures AllDistinct(GroupKeys(rows, n))
  {
    if n > 0 {
      KeysDistinct(rows, n - 1);
      var ks := GroupKeys(rows, n - 1);
      assert forall g :: 0 <= g < |ks| ==> ks[g] in ks;
    }
  }

  /** A group that the row does not belong to stays as it is. */
  lemma OtherGroup(s: State, rows: seq<Row>, i: nat, ops: seq<Op>)
    requires i < |rows| && StateOk(s, rows, i, ops) && s.key != KeyBytes(rows[i]) && CountOf(rows, i, s.key) > 0
    ensures StateOk(s, rows, i + 1, ops)
  {
    forall j | 0 <= j < |ops| ensures Fold(ops[j], Args(rows, i + 1, s.key, j)) == Some(s.accs[j]) {
      assert Args(rows, i + 1, s.key, j) == Args(rows, i, s.key, j);
    }
  }

  /** The states fold the rows before row `i` that have its key. */
  predicate Folded(accs: seq<Acc>, rows: seq<Row>, i: nat, key: seq<Byte>, ops: seq<Op>)
    requires i <= |rows|
  {
    |accs| == |ops| && forall j :: 0 <= j < |ops| ==> Fold(ops[j], Args(rows, i, key, j)) == Some(accs[j])
  }

  lemma FreshFolded(rows: seq<Row>, i: nat, key: seq<Byte>, ops: seq<Op>, accs: seq<Acc>)
    requires i <= |rows| && CountOf(rows, i, key) == 0
    requires |accs| == |ops| && forall j :: 0 <= j < |ops| ==> accs[j] == NewAcc(ops[j])
    ensures Folded(accs, rows, i, key, ops)
  {
    forall j | 0 <= j < |ops| ensures Fold(ops[j], Args(rows, i, key, j)) == Some(accs[j]) { KeyCounted(rows, i, key, j); }
  }

  lemma AccumulatesIff(acc: Acc, op: Op, vs: seq<Option<Value>>, v: Option<Value>)
    requires Fold(op, vs) == Some(acc)
    ensures Accumulate(acc, v).Some? <==> (op.MergeObjects? ==> Mergeable(v))
    ensures Fold(op, vs + [v]) == Accumulate(acc, v)
  {
    FoldShape(op, vs);
    assert (vs + [v])[..|vs|] == vs;
  }

  /** The row's arguments fit its operators exactly when folding them in succeeds. */
  lemma FitsIff(accs: seq<Acc>, rows: seq<Row>, i: nat, ops: seq<Op>)
    requires i < |rows| && Folded(accs, rows, i, KeyBytes(rows[i]), ops) && rows[i].key.Ok? && |rows[i].args| == |ops|
    ensures RowOk(rows[i], ops) <==>
      forall j :: 0 <= j < |accs| ==> rows[i].args[j].Ok? && Accumulate(accs[j], rows[i].args[j].value).Some?
  {
    var row := rows[i];
    forall j | 0 <= j < |ops| && row.args[j].Ok?
      ensures Accumulate(accs[j], row.args[j].value).Some? <==> ArgOk(ops[j], row.args[j])
    {
      AccumulatesIff(accs[j], ops[j], Args(rows, i, KeyBytes(row), j), row.args[j].value);
    }
  }

  /** Folding the row in gives the fold of one row more. */
  lemma OwnGroup(accs: seq<Acc>, out: seq<Acc>, rows: seq<Row>, i: nat, ops: seq<Op>)
    requires i < |rows| && Folded(accs, rows, i, KeyBytes(rows[i]), ops) && RowOk(rows[i], ops) && |out| == |accs|
    requires forall j :: 0 <= j < |accs| ==> Accumulate(accs[j], rows[i].args[j].value) == Some(out[j])
    ensures Folded(out, rows, i + 1, KeyBytes(rows[i]), ops)
  {
    var row, key := rows[i], KeyBytes(rows[i]);
    forall j | 0 <= j < |ops| ensures Fold(ops[j], Args(rows, i + 1, key, j)) == Some(out[j]) {
      assert ArgOk(ops[j], row.args[j]);
      AccumulatesIff(accs[j], ops[j], Args(rows, i, key, j), row.args[j].value);
    }
  }

  /** All groups after one more row, of which `p` is the row's own. */
  lemma GroupsStep(groups: seq<State>, rows: seq<Row>, i: nat, ops: seq<Op>, p: nat, own: State, after: seq<State>)
    requires i < |rows| && GroupsOk(groups, rows, i, ops) && p <= |groups| && own.key == KeyBytes(rows[i])
    requires (p < |groups| ==> groups[p].key == own.key) && forall g :: 0 <= g < p ==> groups[g].key != own.key
    requires StateOk(own, rows, i + 1, ops)
    requires after == if p < |groups| then groups[p := own] else groups + [own]
    ensures GroupsOk(after, rows, i + 1, ops)
  {
    var ks := GroupKeys(rows, i);
    KeysDistinct(rows, i);
    assert p < |groups| ==> own.key in ks by { if p < |groups| { assert ks[p] == own.key; } }
    assert p == |groups| ==> own.key !in ks by { assert forall g :: 0 <= g < |ks| ==> groups[g].key == ks[g]; }
    forall g | 0 <= g < |groups| && g != p ensures StateOk(groups[g], rows, i + 1, ops) {
      assert groups[g].key == ks[g] && ks[g] in ks;
      assert ks[g] != own.key by { if p < |groups| { assert ks[p] == own.key; } }
      KeyCounted(rows, i, ks[g], 0);
      OtherGroup(groups[g], rows, i, ops);
    }
  }

  /** The id of the row's own group, old or new. */
  lemma OwnId(rows: seq<Row>, i: nat, id: Value)
    requires i < |rows|
    requires id == if CountOf(rows, i, KeyBytes(rows[i])) > 0 then FirstId(rows, i, KeyBytes(rows[i])) else KeyValue(rows[i])
    ensures id == FirstId(rows, i + 1, KeyBytes(rows[i]))
  {
  }

  /** Put one row into its group. */
  method AddRow(groups: seq<State>, ghost rows: seq<Row>, ghost i: nat, row: Row, ops: seq<Op>) returns (r: Option<seq<State>>)
    requires i < |rows| && row == rows[i] && |row.args| == |ops| && GroupsOk(groups, rows, i, ops)
    ensures r.Some? <==> RowOk(row, ops)
    ensures r.Some? ==> GroupsOk(r.value, rows, i + 1, ops)
  {
    if row.key.Error? { return None; }
    var key := KeyBytes(row);
    var p := Position(groups, key);
    KeyCounted(rows, i, key, 0);
    var state := State(key, KeyValue(row), seq(|ops|, j requires 0 <= j < |ops| => NewAcc(ops[j])));
    if p < |groups| {
      state := groups[p];
      assert GroupKeys(rows, i)[p] == key;
    } else {
      assert key !in GroupKeys(rows, i) by {
        assert forall g :: 0 <= g < |groups| ==> groups[g].key == GroupKeys(rows, i)[g];
      }
      FreshFolded(rows, i, key, ops, state.accs);
    }
    FitsIff(state.accs, rows, i, ops);
    var next := AccumulateRow(state.accs, row);
    if next.None? { return None; }
    OwnGroup(state.accs, next.value, rows, i, ops);
    OwnId(rows, i, state.id);
    var own := state.(accs := next.value);
    var after := if p < |groups| then groups[p := own] else groups + [own];
    GroupsStep(groups, rows, i, ops, p, own, after);
    return Some(after);
  }

  /** The groups of all rows; an error exactly when some row has one. */
  method RunGroup(rows: seq<Row>, ops: seq<Op>) returns (r: Option<seq<State>>)
    requires forall i :: 0 <= i < |rows| ==> |rows[i].args| == |ops|
    ensures r.Some? <==> forall i :: 0 <= i < |rows| ==> RowOk(rows[i], ops)
    ensures r.Some? ==> GroupsOk(r.value, rows, |rows|, ops)
  {
    var groups: seq<State> := [];
    for i := 0 to |rows|
      invariant forall k :: 0 <= k < i ==> RowOk(rows[k], ops)
      invariant GroupsOk(groups, rows, i, ops)
    {
      var next := AddRow(groups, rows, i, rows[i], ops);
      if next.None? { return None; }
      groups := next.value;
    }
    return Some(groups);
  }

  // ---------------------------------------------------------------------------
  // The partition
  // ---------------------------------------------------------------------------

  function Total(rows: seq<Row>, n: nat, keys: seq<seq<Byte>>): nat
    requires n <= |rows|
  {
    if keys == [] then 0 else Total(rows, n, keys[..|keys| - 1]) + CountOf(rows, n, keys[|keys| - 1])
  }

  lemma {:induction false} TotalStep(rows: seq<Row>, n: nat, keys: seq<seq<Byte>>)
    requires n < |rows| && AllDistinct(keys)
    ensures Total(rows, n + 1, keys) == Total(rows, n, keys) + if KeyBytes(rows[n]) in keys then 1 else 0
  {
    if keys != [] {
      TotalStep(rows, n, keys[..|keys| - 1]);
      assert keys == keys[..|keys| - 1] + [keys[|keys| - 1]];
    }
  }

  /** Group counts sum to the number of rows, over one group per distinct key. */
  lemma {:induction false} CountsSum(rows: seq<Row>, n: nat)
    requires n <= |rows|
    ensures Total(rows, n, GroupKeys(rows, n)) == n
  {
    if n > 0 {
      CountsSum(rows, n - 1);
      KeysDistinct(rows, n - 1);
      var ks, key := GroupKeys(rows, n - 1), KeyBytes(rows[n - 1]);
      TotalStep(rows, n - 1, ks);
      if key !in ks { TotalAppend(rows, n, ks, key); }
    }
  }

  lemma TotalAppend(rows: seq<Row>, n: nat, ks: seq<seq<Byte>>, key: seq<Byte>)
    requires 0 < n <= |rows| && key !in GroupKeys(rows, n - 1) && KeyBytes(rows[n - 1]) == key
    ensures Total(rows, n, ks + [key]) == Total(rows, n, ks) + 1
  {
    assert (ks + [key])[..|ks|] == ks;
    KeyCounted(rows, n - 1, key, 0);
  }

  /** The argument lists of a group have one value per row of the group. */
  lemma {:induction false} ArgsCount(rows: seq<Row>, n: nat, key: seq<Byte>, ops: seq<Op>, j: nat)
    requires n <= |rows| && j < |ops| && forall i :: 0 <= i < n ==> RowOk(rows[i], ops)
    ensures |Args(rows, n, key, j)| == CountOf(rows, n, key)
  {
    if n > 0 {
      ArgsCount(rows, n - 1, key, ops, j);
      assert ArgOk(ops[j], rows[n - 1].args[j]);
    }
  }

  /** `first` is where the key occurs first. */
  predicate OccursFirst(rows: seq<Row>, n: nat, key: seq<Byte>, first: nat)
    requires n <= |rows|
  {
    first < n && KeyBytes(rows[first]) == key && forall i :: 0 <= i < first ==> KeyBytes(rows[i]) != key
  }

  /** Groups stand in the order in which their keys occur first. */
  lemma {:induction false} FirstSeenOrder(rows: seq<Row>, n: nat, g: nat, h: nat, a: nat, b: nat)
    requires n <= |rows| && g < h < |GroupKeys(rows, n)|
    requires OccursFirst(rows, n, GroupKeys(rows, n)[g], a) && OccursFirst(rows, n, GroupKeys(rows, n)[h], b)
    ensures a < b
  {
    var ks := GroupKeys(rows, n - 1);
    KeySeen(rows, n - 1, ks[g]);
    if h < |ks| {
      KeySeen(rows, n - 1, ks[h]);
      FirstSeenOrder(rows, n - 1, g, h, a, b);
    } else {
      LastKeyIsNew(rows, n, b);
    }
  }

  /** A key that the last row brings in occurs there first. */
  lemma LastKeyIsNew(rows: seq<Row>, n: nat, b: nat)
    requires 0 < n <= |rows| && KeyBytes(rows[n - 1]) !in GroupKeys(rows, n - 1)
    requires OccursFirst(rows, n, KeyBytes(rows[n - 1]), b)
    ensures b == n - 1
  {
    if b < n - 1 {
      KeyCounted(rows, n - 1, KeyBytes(rows[b]), 0);
      RowCounted(rows, n - 1, b);
    }
  }

  lemma {:induction false} RowCounted(rows: seq<Row>, n: nat, i: nat)
    requires i < n <= |rows|
    ensures CountOf(rows, n, KeyBytes(rows[i])) > 0
  {
    if i < n - 1 { RowCounted(rows, n - 1, i); }
  }

  lemma {:induction false} KeySeen(rows: seq<Row>, n: nat, key: seq<Byte>)
    requires n <= |rows| && key in GroupKeys(rows, n)
    ensures exists i :: 0 <= i < n && KeyBytes(rows[i]) == key
  {
    if key in GroupKeys(rows, n - 1) { KeySeen(rows, n - 1, key); }
  }
}
