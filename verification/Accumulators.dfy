/** The accumulators of `$group`, each against its direct definition over the group's values. */
module Accumulators {
  import opened Bytes
  import opened KeyOrder
  import opened NumberKeys
  import opened Keys
  import opened Options
  import Sorting

  datatype Op =
    | Sum
    | Extreme(max: bool)
    | First
    | Last
    | Push
    | AddToSet
    | MergeObjects
    | FirstN(n: nat, keepLast: bool)
    | MinMaxN(n: nat, wantMax: bool)

  /** Integers while possible; doubles are exact reals here, and `Float(None)` is a sum that is not finite. */
  datatype Numeric = Int(n: I64) | Float(x: Option<real>)

  datatype Acc =
    | SumAcc(sum: Numeric)
    | ExtremeAcc(max: bool, current: Option<Value>)
    | FirstAcc(slot: Option<Value>)
    | LastAcc(slot: Option<Value>)
    | PushAcc(items: seq<Value>)
    | SetAcc(values: seq<Value>, keys: seq<seq<Byte>>)
    | MergeAcc(merged: seq<Field>)
    | FirstNAcc(values: seq<Value>, n: nat, keepLast: bool)
    | MinMaxNAcc(pairs: seq<(seq<Byte>, Value)>, n: nat, wantMax: bool)

  function NewAcc(op: Op): Acc {
    match op
    case Sum => SumAcc(Int(0))
    case Extreme(max) => ExtremeAcc(max, None)
    case First => FirstAcc(None)
    case Last => LastAcc(None)
    case Push => PushAcc([])
    case AddToSet => SetAcc([], [])
    case MergeObjects => MergeAcc([])
    case FirstN(n, keepLast) => FirstNAcc([], n, keepLast)
    case MinMaxN(n, wantMax) => MinMaxNAcc([], n, wantMax)
  }

  predicate InRange(n: int) { -0x8000_0000_0000_0000 <= n <= 0x7FFF_FFFF_FFFF_FFFF }

  function AddInt(acc: Numeric, n: I64): Numeric {
    match acc
    case Int(m) => if InRange(m + n) then Int(m + n) else Float(Some((m + n) as real))
    case Float(x) => Float(if x.Some? then Some(x.value + n as real) else None)
  }

  function AddFloat(acc: Numeric, f: Option<real>): Numeric {
    var soFar := if acc.Int? then Some(acc.n as real) else acc.x;
    Float(if soFar.Some? && f.Some? then Some(soFar.value + f.value) else None)
  }

  function Add(acc: Numeric, v: Value): Numeric {
    match v
    case Int32(n) => AddInt(acc, n)
    case Int64(n) => AddInt(acc, n)
    case Double(f) => AddFloat(acc, if f.Finite? then Some(f.r) else None)
    case _ => acc
  }

  function FoldExtreme(max: bool, current: Option<Value>, v: Value): Option<Value> {
    if v.Null? then current
    else if current.None? then Some(v)
    else if Memcmp(Encoded(v), Encoded(current.value)) == (if max then Greater else Less) then Some(v)
    else current
  }

  function Insert(fields: seq<Field>, f: Field): seq<Field> {
    if fields == [] then [f]
    else if fields[0].name == f.name then [f] + fields[1..]
    else [fields[0]] + Insert(fields[1..], f)
  }

  function InsertAll(fields: seq<Field>, more: seq<Field>): seq<Field> {
    if more == [] then fields else Insert(InsertAll(fields, more[..|more| - 1]), more[|more| - 1])
  }

  /** Fold one resolved value, `None` when missing, into the state; only `$mergeObjects` can fail. */
  function Accumulate(acc: Acc, value: Option<Value>): Option<Acc> {
    match acc
    case SumAcc(sum) => Some(SumAcc(if value.Some? then Add(sum, value.value) else sum))
    case ExtremeAcc(max, current) => Some(if value.Some? then ExtremeAcc(max, FoldExtreme(max, current, value.value)) else acc)
    case FirstAcc(slot) => Some(if slot.None? then FirstAcc(value) else acc)
    case LastAcc(_) => Some(LastAcc(value))
    case PushAcc(items) => Some(if value.Some? then PushAcc(items + [value.value]) else acc)
    case SetAcc(values, keys) =>
      Some(if value.Some? && Encoded(value.value) !in keys then SetAcc(values + [value.value], keys + [Encoded(value.value)]) else acc)
    case MergeAcc(merged) =>
      if value.None? || value.value.Null? then Some(acc)
      else if value.value.Document? then Some(MergeAcc(InsertAll(merged, value.value.fields)))
      else None
    case FirstNAcc(values, n, keepLast) =>
      if value.None? then Some(acc)
      else
        var more := values + [value.value];
        Some(FirstNAcc(if |more| <= n then more else if keepLast then more[1..] else more[..n], n, keepLast))
    case MinMaxNAcc(pairs, n, wantMax) =>
      Some(if value.Some? && !value.value.Null? then MinMaxNAcc(pairs + [(Encoded(value.value), value.value)], n, wantMax) else acc)
  }

  /** The state after a sequence of values. */
  function Fold(op: Op, vs: seq<Option<Value>>): Option<Acc> {
    if vs == [] then Some(NewAcc(op))
    else
      var before := Fold(op, vs[..|vs| - 1]);
      if before.None? then None else Accumulate(before.value, vs[|vs| - 1])
  }

  // ---------------------------------------------------------------------------
  // Direct definitions
  // ---------------------------------------------------------------------------

  function Present(vs: seq<Option<Value>>): seq<Value> {
    if vs == [] then []
    else
      var before := Present(vs[..|vs| - 1]);
      if vs[|vs| - 1].Some? then before + [vs[|vs| - 1].value] else before
  }

  function NonNull(vs: seq<Option<Value>>): seq<Value> {
    if vs == [] then []
    else
      var before := NonNull(vs[..|vs| - 1]);
      if vs[|vs| - 1].Some? && !vs[|vs| - 1].value.Null? then before + [vs[|vs| - 1].value] else before
  }

  /** `$first` is the first value that is not missing, `$last` the last value even if missing, `$push` all that are present. */
  lemma {:induction false} FoldPicks(vs: seq<Option<Value>>)
    ensures Fold(First, vs) == Some(FirstAcc(if Present(vs) == [] then None else Some(Present(vs)[0])))
    ensures Fold(Last, vs) == Some(LastAcc(if vs == [] then None else vs[|vs| - 1]))
    ensures Fold(Push, vs) == Some(PushAcc(Present(vs)))
  {
    if vs != [] { FoldPicks(vs[..|vs| - 1]); }
  }

  /** The first or the last `n` values. */
  function Window(p: seq<Value>, n: nat, keepLast: bool): seq<Value> {
    if |p| <= n then p else if keepLast then p[|p| - n..] else p[..n]
  }

  lemma WindowStep(p: seq<Value>, v: Value, n: nat, keepLast: bool)
    ensures Accumulate(FirstNAcc(Window(p, n, keepLast), n, keepLast), Some(v))
         == Some(FirstNAcc(Window(p + [v], n, keepLast), n, keepLast))
  {
    var more, next := Window(p, n, keepLast) + [v], Window(p + [v], n, keepLast);
    if |p| > n {
      assert keepLast ==> more[1..] == next;
      assert !keepLast ==> more[..n] == next;
    } else if |p| == n {
      assert more == p + [v];
    }
  }

  /** `$firstN` and `$lastN` keep the first and the last `n` of the present values. */
  lemma {:induction false} FoldWindow(n: nat, keepLast: bool, vs: seq<Option<Value>>)
    ensures Fold(FirstN(n, keepLast), vs) == Some(FirstNAcc(Window(Present(vs), n, keepLast), n, keepLast))
  {
    if vs != [] {
      var before, last := vs[..|vs| - 1], vs[|vs| - 1];
      FoldWindow(n, keepLast, before);
      if last.Some? { WindowStep(Present(before), last.value, n, keepLast); }
    }
  }

  function Wanted(max: bool): Order { if max then Greater else Less }

  /** The first of the values that are extreme in key order. */
  predicate IsFirstExtreme(max: bool, vs: seq<Value>, i: nat)
    requires i < |vs|
  {
    forall j :: 0 <= j < |vs| ==>
      && Memcmp(Encoded(vs[j]), Encoded(vs[i])) != Wanted(max)
      && (j < i ==> Encoded(vs[j]) != Encoded(vs[i]))
  }

  lemma ExtremeStep(max: bool, vs: seq<Value>, i: nat, v: Value) returns (k: nat)
    requires i < |vs| && IsFirstExtreme(max, vs, i)
    ensures k == (if Memcmp(Encoded(v), Encoded(vs[i])) == Wanted(max) then |vs| else i)
    ensures IsFirstExtreme(max, vs + [v], k)
  {
    var e, m := Encoded(v), Encoded(vs[i]);
    k := if Memcmp(e, m) == Wanted(max) then |vs| else i;
    var all := vs + [v];
    MemcmpReverses(e, m);
    forall j | 0 <= j < |all|
      ensures Memcmp(Encoded(all[j]), Encoded(all[k])) != Wanted(max) && (j < k ==> Encoded(all[j]) != Encoded(all[k]))
    {
      if k == |vs| && j < k {
        var x := Encoded(vs[j]);
        MemcmpReverses(x, m);
        MemcmpReverses(x, e);
        if max { MemcmpTransitive(x, m, e); } else { MemcmpTransitive(e, m, x); }
      }
      if j == |vs| { MemcmpReverses(e, e); }
    }
  }

  /** `$min` and `$max` give the first extreme of the values that are neither missing nor null. */
  lemma {:induction false} FoldExtremes(max: bool, vs: seq<Option<Value>>)
    ensures var p := NonNull(vs);
      if p == [] then Fold(Extreme(max), vs) == Some(ExtremeAcc(max, None))
      else exists i :: 0 <= i < |p| && IsFirstExtreme(max, p, i) && Fold(Extreme(max), vs) == Some(ExtremeAcc(max, Some(p[i])))
  {
    if vs != [] {
      var before, last := vs[..|vs| - 1], vs[|vs| - 1];
      FoldExtremes(max, before);
      var p := NonNull(before);
      if last.Some? && !last.value.Null? {
        if p == [] {
          MemcmpReverses(Encoded(last.value), Encoded(last.value));
          assert IsFirstExtreme(max, NonNull(vs), 0);
        } else {
          var i :| 0 <= i < |p| && IsFirstExtreme(max, p, i) && Fold(Extreme(max), before) == Some(ExtremeAcc(max, Some(p[i])));
          var k := ExtremeStep(max, p, i, last.value);
          assert NonNull(vs) == p + [last.value];
          assert IsFirstExtreme(max, NonNull(vs), k);
        }
      }
    }
  }

  predicate HasKey(vs: seq<Value>, key: seq<Byte>) { exists i :: 0 <= i < |vs| && Encoded(vs[i]) == key }

  /** The values in which a key occurs for the first time. */
  function Distinct(vs: seq<Value>): seq<Value> {
    if vs == [] then []
    else
      var before, v := vs[..|vs| - 1], vs[|vs| - 1];
      if HasKey(before, Encoded(v)) then Distinct(before) else Distinct(before) + [v]
  }

  function EncodedAll(vs: seq<Value>): (r: seq<seq<Byte>>)
    ensures |r| == |vs| && forall i :: 0 <= i < |vs| ==> r[i] == Encoded(vs[i])
  {
    seq(|vs|, i requires 0 <= i < |vs| => Encoded(vs[i]))
  }

  lemma {:induction false} DistinctKeys(vs: seq<Value>, key: seq<Byte>)
    ensures HasKey(Distinct(vs), key) <==> HasKey(vs, key)
    ensures forall i, j :: 0 <= i < j < |Distinct(vs)| ==> Encoded(Distinct(vs)[i]) != Encoded(Distinct(vs)[j])
  {
    if vs != [] {
      var before, v := vs[..|vs| - 1], vs[|vs| - 1];
      DistinctKeys(before, key);
      DistinctKeys(before, Encoded(v));
      HasKeyAppend(before, v, key);
      assert vs == before + [v];
      if !HasKey(before, Encoded(v)) { HasKeyAppend(Distinct(before), v, key); }
    }
  }

  lemma HasKeyAppend(vs: seq<Value>, v: Value, key: seq<Byte>)
    ensures HasKey(vs + [v], key) <==> HasKey(vs, key) || Encoded(v) == key
  {
    if HasKey(vs, key) {
      var i :| 0 <= i < |vs| && Encoded(vs[i]) == key;
      assert Encoded((vs + [v])[i]) == key;
    }
    assert (vs + [v])[|vs|] == v;
  }

  lemma SetStep(p: seq<Value>, v: Value)
    ensures var d, e := Distinct(p), Distinct(p + [v]);
      Accumulate(SetAcc(d, EncodedAll(d)), Some(v)) == Some(SetAcc(e, EncodedAll(e)))
  {
    var d, key := Distinct(p), Encoded(v);
    assert (p + [v])[..|p|] == p;
    DistinctKeys(p, key);
    assert key in EncodedAll(d) <==> HasKey(d, key);
    assert EncodedAll(d + [v]) == EncodedAll(d) + [key];
  }

  /** `$addToSet` gives one value per key, in the order of first occurrence. */
  lemma {:induction false} FoldSet(vs: seq<Option<Value>>)
    ensures var d := Distinct(Present(vs)); Fold(AddToSet, vs) == Some(SetAcc(d, EncodedAll(d)))
  {
    if vs != [] {
      var before, last := vs[..|vs| - 1], vs[|vs| - 1];
      FoldSet(before);
      if last.Some? { SetStep(Present(before), last.value); }
    }
  }

  // ---------------------------------------------------------------------------
  // Sums
  // ---------------------------------------------------------------------------

  function IntOf(v: Value): int { if v.Int32? then v.i32 else if v.Int64? then v.i64 else 0 }

  function IntTotal(vs: seq<Value>): int {
    if vs == [] then 0 else IntTotal(vs[..|vs| - 1]) + IntOf(vs[|vs| - 1])
  }

  /** The exact sum, `None` with a double that is not finite. */
  function RealTotal(vs: seq<Value>): Option<real> {
    if vs == [] then Some(0.0)
    else
      var before, v := RealTotal(vs[..|vs| - 1]), vs[|vs| - 1];
      if before.None? || (v.Double? && !v.f.Finite?) then None
      else Some(before.value + if v.Double? then v.f.r else IntOf(v) as real)
  }

  /** No double, and no prefix beyond 64 bits. */
  predicate StaysInt(vs: seq<Value>) {
    vs == [] || (StaysInt(vs[..|vs| - 1]) && !vs[|vs| - 1].Double? && InRange(IntTotal(vs)))
  }

  lemma {:induction false} IntsAreReals(vs: seq<Value>)
    requires StaysInt(vs)
    ensures RealTotal(vs) == Some(IntTotal(vs) as real)
  {
    if vs != [] { IntsAreReals(vs[..|vs| - 1]); }
  }

  function SumOf(p: seq<Value>): Numeric {
    if StaysInt(p) && InRange(IntTotal(p)) then Int(IntTotal(p)) else Float(RealTotal(p))
  }

  lemma SumStep(p: seq<Value>, v: Value)
    requires StaysInt(p) ==> InRange(IntTotal(p))
    ensures Add(SumOf(p), v) == SumOf(p + [v]) && (StaysInt(p + [v]) ==> InRange(IntTotal(p + [v])))
  {
    assert (p + [v])[..|p|] == p;
    if StaysInt(p) { IntsAreReals(p); }
  }

  /** `$sum` is the exact total: an integer while there is no double and no prefix overflows, a double from then on. */
  lemma {:induction false} FoldSums(vs: seq<Option<Value>>)
    ensures var p := Present(vs); Fold(Sum, vs) == Some(SumAcc(SumOf(p))) && (StaysInt(p) ==> InRange(IntTotal(p)))
  {
    if vs != [] {
      var before, last := vs[..|vs| - 1], vs[|vs| - 1];
      FoldSums(before);
      if last.Some? { SumStep(Present(before), last.value); }
    }
  }

  // ---------------------------------------------------------------------------
  // Merged objects
  // ---------------------------------------------------------------------------

  function Lookup(fields: seq<Field>, name: seq<Byte>): Option<Value> {
    if fields == [] then None else if fields[0].name == name then Some(fields[0].value) else Lookup(fields[1..], name)
  }

  /** The last field with the name. */
  function LastOf(fields: seq<Field>, name: seq<Byte>): Option<Value> {
    if fields == [] then None
    else if fields[|fields| - 1].name == name then Some(fields[|fields| - 1].value)
    else LastOf(fields[..|fields| - 1], name)
  }

  function Or(a: Option<Value>, b: Option<Value>): Option<Value> { if a.Some? then a else b }

  /** What the name was last set to by any of the objects. */
  function LastSet(vs: seq<Option<Value>>, name: seq<Byte>): Option<Value> {
    if vs == [] then None
    else
      var before, v := LastSet(vs[..|vs| - 1], name), vs[|vs| - 1];
      if v.Some? && v.value.Document? then Or(LastOf(v.value.fields, name), before) else before
  }

  lemma {:induction false} InsertLookup(fields: seq<Field>, f: Field, name: seq<Byte>)
    ensures Lookup(Insert(fields, f), name) == if f.name == name then Some(f.value) else Lookup(fields, name)
  {
    if fields != [] && fields[0].name != f.name {
      InsertLookup(fields[1..], f, name);
      assert Insert(fields, f)[1..] == Insert(fields[1..], f);
    }
  }

  lemma {:induction false} InsertAllLookup(fields: seq<Field>, more: seq<Field>, name: seq<Byte>)
    ensures Lookup(InsertAll(fields, more), name) == Or(LastOf(more, name), Lookup(fields, name))
  {
    if more != [] {
      InsertAllLookup(fields, more[..|more| - 1], name);
      InsertLookup(InsertAll(fields, more[..|more| - 1]), more[|more| - 1], name);
    }
  }

  predicate Mergeable(v: Option<Value>) { v.None? || v.value.Null? || v.value.Document? }

  /** `$mergeObjects` fails exactly on a value that is no object, and else each name has its latest value. */
  lemma {:induction false} FoldMerges(vs: seq<Option<Value>>, name: seq<Byte>)
    ensures Fold(MergeObjects, vs).Some? <==> forall i :: 0 <= i < |vs| ==> Mergeable(vs[i])
    ensures Fold(MergeObjects, vs).Some? ==>
      Fold(MergeObjects, vs).value.MergeAcc? && Lookup(Fold(MergeObjects, vs).value.merged, name) == LastSet(vs, name)
  {
    if vs != [] {
      var before, last := vs[..|vs| - 1], vs[|vs| - 1];
      FoldMerges(before, name);
      if Fold(MergeObjects, before).Some? && last.Some? && last.value.Document? {
        InsertAllLookup(Fold(MergeObjects, before).value.merged, last.value.fields, name);
      }
    }
  }

  // ---------------------------------------------------------------------------
  // N extremes
  // ---------------------------------------------------------------------------

  type Keyed = (seq<Byte>, Value)

  function KeyedAll(vs: seq<Value>): (r: seq<Keyed>)
    ensures |r| == |vs| && forall i :: 0 <= i < |vs| ==> r[i] == (Encoded(vs[i]), vs[i])
  {
    seq(|vs|, i requires 0 <= i < |vs| => (Encoded(vs[i]), vs[i]))
  }

  predicate NotAfter(a: Keyed, b: Keyed) { Memcmp(a.0, b.0) != Greater }

  function Reversed(s: seq<Keyed>): (r: seq<Keyed>)
    ensures |r| == |s| && forall i :: 0 <= i < |s| ==> r[i] == s[|s| - 1 - i]
  {
    seq(|s|, i requires 0 <= i < |s| => s[|s| - 1 - i])
  }

  /** Ascending for the smallest, descending for the largest, cut to `n`. */
  function FinishMinMaxN(pairs: seq<Keyed>, n: nat, wantMax: bool): seq<Keyed> {
    var sorted := Sorting.Sort(pairs, NotAfter);
    var s := if wantMax then Reversed(sorted) else sorted;
    if |s| <= n then s else s[..n]
  }

  lemma {:induction false} FoldCandidates(n: nat, wantMax: bool, vs: seq<Option<Value>>)
    ensures Fold(MinMaxN(n, wantMax), vs) == Some(MinMaxNAcc(KeyedAll(NonNull(vs)), n, wantMax))
  {
    if vs != [] {
      var before, last := vs[..|vs| - 1], vs[|vs| - 1];
      FoldCandidates(n, wantMax, before);
      if last.Some? && !last.value.Null? {
        assert KeyedAll(NonNull(before) + [last.value]) == KeyedAll(NonNull(before)) + [(Encoded(last.value), last.value)];
      }
    }
  }

  lemma KeysOrder()
    ensures Sorting.IsOrder(NotAfter)
  {
    forall a: Keyed, b: Keyed ensures NotAfter(a, b) || NotAfter(b, a) { MemcmpReverses(a.0, b.0); }
    forall a: Keyed, b: Keyed, c: Keyed | NotAfter(a, b) && NotAfter(b, c) ensures NotAfter(a, c) {
      MemcmpTransitive(a.0, b.0, c.0);
    }
  }

  predicate InOrder(a: Keyed, b: Keyed, wantMax: bool) { if wantMax then NotAfter(b, a) else NotAfter(a, b) }

  /** `$minN` and `$maxN` give `n` of the candidates, sorted, such that no other candidate comes before any of them. */
  lemma NExtremes(pairs: seq<Keyed>, n: nat, wantMax: bool) returns (rest: seq<Keyed>)
    ensures var r := FinishMinMaxN(pairs, n, wantMax);
      && |r| == (if |pairs| < n then |pairs| else n)
      && multiset(r) + multiset(rest) == multiset(pairs)
      && (forall i, j :: 0 <= i < j < |r| ==> InOrder(r[i], r[j], wantMax))
      && forall i, j :: 0 <= i < |r| && 0 <= j < |rest| ==> InOrder(r[i], rest[j], wantMax)
  {
    var s := InSequence(pairs, wantMax);
    var k := if |s| <= n then |s| else n;
    rest := s[k..];
    assert s == s[..k] + rest;
  }

  /** All candidates, best first. */
  lemma InSequence(pairs: seq<Keyed>, wantMax: bool) returns (s: seq<Keyed>)
    ensures var sorted := Sorting.Sort(pairs, NotAfter); s == if wantMax then Reversed(sorted) else sorted
    ensures |s| == |pairs| && multiset(s) == multiset(pairs)
    ensures forall i, j :: 0 <= i < j < |s| ==> InOrder(s[i], s[j], wantMax)
  {
    var sorted := Sorting.Sort(pairs, NotAfter);
    KeysOrder();
    Sorting.SortOrders(pairs, NotAfter);
    Sorting.SortKeeps(pairs, NotAfter);
    assert |sorted| == |pairs| by { assert |multiset(sorted)| == |multiset(pairs)|; }
    s := if wantMax then Reversed(sorted) else sorted;
    ReversedKeeps(sorted);
    forall i, j | 0 <= i < j < |s| ensures InOrder(s[i], s[j], wantMax) {
      if wantMax { assert NotAfter(sorted[|s| - 1 - j], sorted[|s| - 1 - i]); }
    }
  }

  lemma {:induction false} ReversedKeeps(s: seq<Keyed>)
    ensures multiset(Reversed(s)) == multiset(s)
  {
    if s != [] {
      ReversedKeeps(s[1..]);
      assert Reversed(s) == Reversed(s[1..]) + [s[0]];
      assert s == [s[0]] + s[1..];
    }
  }
}
