/** Plan selection, and that every matching document passes the condition that was chosen for it. */
module Planner {
  import opened Bytes
  import opened KeyOrder
  import opened Keys
  import opened Options
  import opened Filter

  datatype IndexCondition =
    | Eq(value: Value)
    | Range(gt: Option<Value>, gte: Option<Value>, lt: Option<Value>, lte: Option<Value>)
    | In(values: seq<Value>)
    | Any

  datatype IndexMeta = IndexMeta(name: string, keys: seq<Field>, pfe: Option<seq<Field>>)

  datatype ScanPlan =
    | CollScan
    | PrimaryKeyLookup(condition: IndexCondition)
    | IndexScan(index: IndexMeta, field: string, condition: IndexCondition)

  // ---------------------------------------------------------------------------
  // Selection
  // ---------------------------------------------------------------------------

  function ExtractOperators(ops: seq<Field>): Option<IndexCondition> {
    var present, among := Get(ops, "$exists"), Get(ops, "$in");
    var gt, gte, lt, lte := Get(ops, "$gt"), Get(ops, "$gte"), Get(ops, "$lt"), Get(ops, "$lte");
    if Get(ops, "$ne").Some? || Get(ops, "$nin").Some? || Get(ops, "$not").Some? then None
    else if present == Some(Boolean(false)) || present == Some(Int32(0)) || present == Some(Int64(0)) then None
    else if Get(ops, "$eq").Some? then Some(Eq(Get(ops, "$eq").value))
    else if among.Some? && among.value.Array? then Some(In(among.value.items))
    else if gt.Some? || gte.Some? || lt.Some? || lte.Some? then Some(Range(gt, gte, lt, lte))
    else if present == Some(Boolean(true)) || present == Some(Int32(1)) || present == Some(Int64(1)) then Some(Any)
    else if Get(ops, "$all").Some? || Get(ops, "$elemMatch").Some? || Get(ops, "$regex").Some? then Some(Any)
    else None
  }

  function ExtractCondition(condition: Value): Option<IndexCondition> {
    if condition.Document? && HasOperators(condition.fields) then ExtractOperators(condition.fields) else Some(Eq(condition))
  }

  function ExtractField(filter: seq<Field>, field: string): Option<IndexCondition> {
    if Get(filter, field).Some? then ExtractCondition(Get(filter, field).value) else None
  }

  function ExtractPrimaryKey(filter: seq<Field>): Option<IndexCondition> {
    var c := ExtractField(filter, "_id");
    if c.Some? && (c.value.Eq? || c.value.In?) then c else None
  }

  predicate CoversPfe(filter: seq<Field>, pfe: Option<seq<Field>>) {
    pfe.Some? ==> forall i :: 0 <= i < |pfe.value| ==> Get(filter, Key(pfe.value[i])) == Some(pfe.value[i].value)
  }

  /** The first index whose leading field is constrained and whose partial filter is covered. */
  function SelectIndex(filter: seq<Field>, indexes: seq<IndexMeta>): ScanPlan {
    if indexes == [] then CollScan
    else
      var index := indexes[0];
      if index.keys == [] || !CoversPfe(filter, index.pfe) then SelectIndex(filter, indexes[1..])
      else
        var c := ExtractField(filter, Key(index.keys[0]));
        if c.Some? then IndexScan(index, Key(index.keys[0]), c.value) else SelectIndex(filter, indexes[1..])
  }

  function SelectPlan(filter: seq<Field>, indexes: seq<IndexMeta>): ScanPlan {
    var c := ExtractPrimaryKey(filter);
    if c.Some? then PrimaryKeyLookup(c.value) else SelectIndex(filter, indexes)
  }

  // ---------------------------------------------------------------------------
  // Soundness
  // ---------------------------------------------------------------------------

  predicate Meets(value: Option<Value>, bound: Option<Value>, direction: Order, orEqual: bool, l: Leaves) {
    bound.Some? ==> Compares(value, bound.value, direction, orEqual, l)
  }

  /** Whether a document whose indexed field is `value` passes the condition. */
  predicate Passes(c: IndexCondition, value: Option<Value>, l: Leaves) {
    match c
    case Eq(v) => EqualTo(value, v, l)
    case In(vs) => InList(value, vs, l)
    case Any => value.Some?
    case Range(gt, gte, lt, lte) =>
      && Meets(value, gt, Greater, false, l) && Meets(value, gte, Greater, true, l)
      && Meets(value, lt, Less, false, l) && Meets(value, lte, Less, true, l)
  }

  lemma {:induction false} EveryPairMatches(doc: seq<Field>, pairs: seq<Field>, key: string, l: Leaves)
    requires EvalPairs(doc, pairs, l).Match? && Get(pairs, key).Some?
    ensures EvalTopLevel(doc, key, Get(pairs, key).value, l).Match?
    decreases |pairs|
  {
    if Key(pairs[0]) != key { EveryPairMatches(doc, pairs[1..], key, l); }
  }

  lemma {:induction false} EveryOpMatches(value: Option<Value>, ops: seq<Field>, skipRegex: bool, op: string, l: Leaves)
    requires EvalEach(value, ops, skipRegex, l).Match? && Get(ops, op).Some?
    requires op != "$regex" && op != "$options"
    ensures EvalOp(value, op, Get(ops, op).value, l).Match?
    decreases |ops|
  {
    if Key(ops[0]) != op { EveryOpMatches(value, ops[1..], skipRegex, op, l); }
  }

  /** A matched operator document matches by each operator in it. */
  lemma OpMatches(value: Option<Value>, ops: seq<Field>, op: string, l: Leaves)
    requires EvalOperators(value, ops, l).Match?
    requires op != "$regex" && op != "$options"
    ensures Get(ops, op).Some? ==> EvalOp(value, op, Get(ops, op).value, l).Match?
  {
    if Get(ops, op).Some? { EveryOpMatches(value, ops, Get(ops, "$regex").Some?, op, l); }
  }

  lemma OperatorsPass(value: Option<Value>, ops: seq<Field>, l: Leaves)
    requires EvalOperators(value, ops, l).Match? && ExtractOperators(ops).Some?
    ensures Passes(ExtractOperators(ops).value, value, l)
  {
    OpMatches(value, ops, "$eq", l);
    OpMatches(value, ops, "$in", l);
    OpMatches(value, ops, "$gt", l);
    OpMatches(value, ops, "$gte", l);
    OpMatches(value, ops, "$lt", l);
    OpMatches(value, ops, "$lte", l);
    OpMatches(value, ops, "$exists", l);
    OpMatches(value, ops, "$all", l);
    OpMatches(value, ops, "$elemMatch", l);
  }

  lemma ConditionPasses(value: Option<Value>, condition: Value, l: Leaves)
    requires EvalField(value, condition, l).Match? && ExtractCondition(condition).Some? && !condition.RegularExpression?
    ensures Passes(ExtractCondition(condition).value, value, l)
  {
    if condition.Document? && HasOperators(condition.fields) { OperatorsPass(value, condition.fields, l); }
  }

  lemma FieldPasses(doc: seq<Field>, filter: seq<Field>, field: string, l: Leaves)
    requires EvalFilter(doc, filter, l).Match? && !IsOperator(field)
    requires ExtractField(filter, field).Some? && !Get(filter, field).value.RegularExpression?
    ensures Passes(ExtractField(filter, field).value, l.field(doc, field), l)
  {
    EveryPairMatches(doc, filter, field, l);
    ConditionPasses(l.field(doc, field), Get(filter, field).value, l);
  }

  /** A document matched by a covering filter matches the partial index's filter. */
  lemma {:induction false} PfeMatches(doc: seq<Field>, filter: seq<Field>, pfe: seq<Field>, l: Leaves)
    requires EvalFilter(doc, filter, l).Match? && CoversPfe(filter, Some(pfe))
    ensures EvalFilter(doc, pfe, l).Match?
  {
    NoCollation(filter, pfe);
    PfePairsMatch(doc, filter, pfe, l);
  }

  lemma {:induction false} NoCollation(filter: seq<Field>, pfe: seq<Field>)
    requires Get(filter, "collation").None?
    requires forall i :: 0 <= i < |pfe| ==> Get(filter, Key(pfe[i])) == Some(pfe[i].value)
    ensures Get(pfe, "collation").None?
  {
    if pfe != [] { NoCollation(filter, pfe[1..]); }
  }

  lemma {:induction false} PfePairsMatch(doc: seq<Field>, filter: seq<Field>, pfe: seq<Field>, l: Leaves)
    requires EvalPairs(doc, filter, l).Match?
    requires forall i :: 0 <= i < |pfe| ==> Get(filter, Key(pfe[i])) == Some(pfe[i].value)
    ensures EvalPairs(doc, pfe, l).Match?
    decreases |pfe|
  {
    if pfe != [] {
      EveryPairMatches(doc, filter, Key(pfe[0]), l);
      PfePairsMatch(doc, filter, pfe[1..], l);
    }
  }

  /** What the plan asks of a document. */
  predicate PlanFinds(plan: ScanPlan, doc: seq<Field>, l: Leaves) {
    match plan
    case CollScan => true
    case PrimaryKeyLookup(c) => Passes(c, l.field(doc, "_id"), l)
    case IndexScan(index, field, c) =>
      Passes(c, l.field(doc, field), l) && (index.pfe.Some? ==> EvalFilter(doc, index.pfe.value, l).Match?)
  }

  /** The planned field's condition is a bare regular expression. */
  predicate ByRegex(filter: seq<Field>, plan: ScanPlan) {
    match plan
    case CollScan => false
    case PrimaryKeyLookup(_) => Get(filter, "_id").Some? && Get(filter, "_id").value.RegularExpression?
    case IndexScan(_, field, _) => Get(filter, field).Some? && Get(filter, field).value.RegularExpression?
  }

  predicate NamesFields(indexes: seq<IndexMeta>) {
    forall i :: 0 <= i < |indexes| && indexes[i].keys != [] ==> !IsOperator(Key(indexes[i].keys[0]))
  }

  lemma {:induction false} SelectedIndexFinds(doc: seq<Field>, filter: seq<Field>, indexes: seq<IndexMeta>, l: Leaves)
    requires EvalFilter(doc, filter, l).Match? && NamesFields(indexes)
    requires !ByRegex(filter, SelectIndex(filter, indexes))
    ensures PlanFinds(SelectIndex(filter, indexes), doc, l)
    decreases |indexes|
  {
    if indexes != [] {
      var index := indexes[0];
      if index.keys == [] || !CoversPfe(filter, index.pfe) || ExtractField(filter, Key(index.keys[0])).None? {
        SelectedIndexFinds(doc, filter, indexes[1..], l);
      } else {
        FieldPasses(doc, filter, Key(index.keys[0]), l);
        if index.pfe.Some? { PfeMatches(doc, filter, index.pfe.value, l); }
      }
    }
  }

  /** Every matched document meets the chosen plan's condition and its index's partial filter. */
  lemma PlanFindsMatches(doc: seq<Field>, filter: seq<Field>, indexes: seq<IndexMeta>, l: Leaves)
    requires EvalFilter(doc, filter, l).Match? && NamesFields(indexes)
    requires !ByRegex(filter, SelectPlan(filter, indexes))
    ensures PlanFinds(SelectPlan(filter, indexes), doc, l)
  {
    if ExtractPrimaryKey(filter).Some? {
      FieldPasses(doc, filter, "_id", l);
    } else {
      SelectedIndexFinds(doc, filter, indexes, l);
    }
  }

  /** Extraction from a condition is safe for every field value exactly when the condition is not a bare regular expression. */
  lemma ExtractionSafeIff(condition: Value, text: seq<Byte>, l: Leaves)
    requires ExtractCondition(condition).Some?
    requires condition.RegularExpression? ==>
      l.compiles(condition.pattern, condition.options) && l.regex(text, condition.pattern, condition.options)
      && !SameValue(String(text), condition, l)
    ensures (forall value :: EvalField(value, condition, l).Match? ==> Passes(ExtractCondition(condition).value, value, l))
      <==> !condition.RegularExpression?
  {
    if condition.RegularExpression? {
      var value := Some(String(text));
      assert Elements(String(text))[0] == String(text);
      assert EvalField(value, condition, l).Match? && !EqualTo(value, condition, l);
      assert !Passes(ExtractCondition(condition).value, value, l);
    } else {
      forall value | EvalField(value, condition, l).Match? ensures Passes(ExtractCondition(condition).value, value, l) {
        ConditionPasses(value, condition, l);
      }
    }
  }

  predicate Eligible(filter: seq<Field>, index: IndexMeta) {
    index.keys != [] && CoversPfe(filter, index.pfe) && ExtractField(filter, Key(index.keys[0])).Some?
  }

  /** Without a usable `_id` the first eligible index is taken, and a collection scan exactly when there is none. */
  lemma {:induction false} FirstEligibleIndex(filter: seq<Field>, indexes: seq<IndexMeta>)
    ensures SelectIndex(filter, indexes).CollScan? <==> forall i :: 0 <= i < |indexes| ==> !Eligible(filter, indexes[i])
    ensures !SelectIndex(filter, indexes).CollScan? ==> exists i ::
      && 0 <= i < |indexes| && Eligible(filter, indexes[i]) && (forall j :: 0 <= j < i ==> !Eligible(filter, indexes[j]))
      && var field := Key(indexes[i].keys[0]);
         SelectIndex(filter, indexes) == IndexScan(indexes[i], field, ExtractField(filter, field).value)
    decreases |indexes|
  {
    if indexes != [] && !Eligible(filter, indexes[0]) {
      var rest := indexes[1..];
      FirstEligibleIndex(filter, rest);
      assert forall i :: 0 < i < |indexes| ==> indexes[i] == rest[i - 1];
      if !SelectIndex(filter, rest).CollScan? {
        var i :| 0 <= i < |rest| && Eligible(filter, rest[i]) && (forall j :: 0 <= j < i ==> !Eligible(filter, rest[j]))
          && SelectIndex(filter, rest) == IndexScan(rest[i], Key(rest[i].keys[0]), ExtractField(filter, Key(rest[i].keys[0])).value);
        assert indexes[i + 1] == rest[i];
      }
    }
  }

  // ---------------------------------------------------------------------------
  // Logical operators
  // ---------------------------------------------------------------------------

  /** A filter matches exactly when each of its conditions does. */
  lemma {:induction false} PairsMatchIff(doc: seq<Field>, pairs: seq<Field>, l: Leaves)
    ensures EvalPairs(doc, pairs, l).Match? <==>
      forall i :: 0 <= i < |pairs| ==> EvalTopLevel(doc, Key(pairs[i]), pairs[i].value, l).Match?
    decreases |pairs|
  {
    if pairs != [] {
      PairsMatchIff(doc, pairs[1..], l);
      assert forall i :: 0 < i < |pairs| ==> pairs[i] == pairs[1..][i - 1];
    }
  }

  /** `$and` matches exactly when all its filters do. */
  lemma {:induction false} AndMatchIff(doc: seq<Field>, items: seq<Value>, l: Leaves)
    ensures EvalAnd(doc, items, l).Match? <==> forall i :: 0 <= i < |items| ==> EvalSub(doc, items[i], l).Match?
    decreases |items|
  {
    if items != [] {
      AndMatchIff(doc, items[1..], l);
      assert forall i :: 0 < i < |items| ==> items[i] == items[1..][i - 1];
    }
  }

  /** `$or` matches exactly when one filter does before any fails. */
  lemma {:induction false} OrMatchIff(doc: seq<Field>, items: seq<Value>, l: Leaves)
    ensures EvalOr(doc, items, l).Match? <==> exists i :: 0 <= i < |items| && MatchesFirst(doc, items, i, l)
    decreases |items|
  {
    if items != [] {
      var rest := items[1..];
      if EvalSub(doc, items[0], l).Match? {
        assert MatchesFirst(doc, items, 0, l);
      } else if EvalSub(doc, items[0], l).NoMatch? {
        OrMatchIff(doc, rest, l);
        forall i | 0 <= i < |rest| ensures MatchesFirst(doc, rest, i, l) <==> MatchesFirst(doc, items, i + 1, l) {
          ShiftedMatch(doc, items, i, l);
        }
        if exists i :: 0 <= i < |items| && MatchesFirst(doc, items, i, l) {
          var i :| 0 <= i < |items| && MatchesFirst(doc, items, i, l);
          assert MatchesFirst(doc, rest, i - 1, l);
        }
      }
    }
  }

  lemma ShiftedMatch(doc: seq<Field>, items: seq<Value>, i: nat, l: Leaves)
    requires i + 1 < |items| && EvalSub(doc, items[0], l).NoMatch?
    ensures MatchesFirst(doc, items[1..], i, l) <==> MatchesFirst(doc, items, i + 1, l)
  {
    var rest := items[1..];
    assert forall j :: 0 < j < |items| ==> items[j] == rest[j - 1];
    assert forall j :: 0 <= j < |rest| ==> rest[j] == items[j + 1];
  }

  /** Item `i` matches and none before it matches or fails. */
  predicate MatchesFirst(doc: seq<Field>, items: seq<Value>, i: nat, l: Leaves)
    requires i < |items|
  {
    EvalSub(doc, items[i], l).Match? && forall j :: 0 <= j < i ==> EvalSub(doc, items[j], l).NoMatch?
  }

  /** `$nor` is the negation of `$or`, errors included. */
  lemma {:induction false} NorNegatesOr(doc: seq<Field>, items: seq<Value>, l: Leaves)
    ensures EvalNor(doc, items, l) == Not(EvalOr(doc, items, l))
    decreases |items|
  {
    if items != [] { NorNegatesOr(doc, items[1..], l); }
  }

  /** Conditions joined match as both filters do, the first one first. */
  lemma {:induction false} PairsJoin(doc: seq<Field>, a: seq<Field>, b: seq<Field>, l: Leaves)
    ensures EvalPairs(doc, a + b, l) == AndThen(EvalPairs(doc, a, l), EvalPairs(doc, b, l))
    decreases |a|
  {
    if a == [] {
      assert a + b == b;
    } else {
      assert (a + b)[1..] == a[1..] + b;
      PairsJoin(doc, a[1..], b, l);
    }
  }
}
