/** Evaluation of query filters against documents. */
module Filter {
  import opened Bytes
  import opened KeyOrder
  import opened Keys
  import opened Options

  /** `Ok(true)`, `Ok(false)` and any error. */
  datatype Result = Match | NoMatch | Failed

  /** What the evaluator leaves to others: key order, regular expressions, paths, expressions and simple leaf operators. */
  datatype Leaves = Leaves(
    compare: (Value, Value) -> Order,
    compiles: (seq<Byte>, seq<Byte>) -> bool,
    regex: (seq<Byte>, seq<Byte>, seq<Byte>) -> bool,
    field: (seq<Field>, string) -> Option<Value>,
    expr: (seq<Field>, Value) -> Result,
    simple: (string, Option<Value>, Value) -> Result)

  function Of(b: bool): Result { if b then Match else NoMatch }

  function Not(r: Result): Result {
    match r
    case Match => NoMatch
    case NoMatch => Match
    case Failed => Failed
  }

  /** `a`, and if it matches, `b`. */
  function AndThen(a: Result, b: Result): Result { if a.Match? then b else a }

  /** `a`, and if it does not match, `b`. */
  function OrElse(a: Result, b: Result): Result { if a.NoMatch? then b else a }

  /** A field's name, one character per byte. */
  function Key(f: Field): string { seq(|f.name|, i requires 0 <= i < |f.name| => f.name[i] as char) }

  function Get(pairs: seq<Field>, key: string): Option<Value> {
    if pairs == [] then None else if Key(pairs[0]) == key then Some(pairs[0].value) else Get(pairs[1..], key)
  }

  predicate IsOperator(key: string) { |key| > 0 && key[0] == '$' }

  predicate HasOperators(pairs: seq<Field>) { exists i :: 0 <= i < |pairs| && IsOperator(Key(pairs[i])) }

  // ---------------------------------------------------------------------------
  // Leaf operators
  // ---------------------------------------------------------------------------

  predicate SameValue(a: Value, b: Value, l: Leaves) { l.compare(a, b).Equal? }

  /** An array matches by any of its elements. */
  function Elements(v: Value): seq<Value> { if v.Array? then v.items else [v] }

  predicate AnyEqual(vs: seq<Value>, target: Value, l: Leaves) {
    exists i :: 0 <= i < |vs| && SameValue(vs[i], target, l)
  }

  predicate EqualTo(value: Option<Value>, target: Value, l: Leaves) {
    match value
    case None => target.Null?
    case Some(v) => SameValue(v, target, l) || (v.Array? && AnyEqual(v.items, target, l))
  }

  predicate Compares(value: Option<Value>, target: Value, direction: Order, orEqual: bool, l: Leaves) {
    value.Some? && var vs := Elements(value.value);
    exists i :: 0 <= i < |vs| && (l.compare(vs[i], target) == direction || (orEqual && l.compare(vs[i], target).Equal?))
  }

  predicate InList(value: Option<Value>, targets: seq<Value>, l: Leaves) {
    exists i :: 0 <= i < |targets| && EqualTo(value, targets[i], l)
  }

  function TruthOf(v: Value): Option<bool> {
    match v
    case Boolean(b) => Some(b)
    case Int32(n) => Some(n != 0)
    case Int64(n) => Some(n != 0)
    case Double(f) => Some(!(f.Finite? && f.r == 0.0))
    case _ => None
  }

  function EvalRegex(value: Option<Value>, pattern: seq<Byte>, options: seq<Byte>, l: Leaves): Result {
    if !l.compiles(pattern, options) then Failed
    else if value.None? then NoMatch
    else
      var vs := Elements(value.value);
      Of(exists i :: 0 <= i < |vs| && vs[i].String? && l.regex(vs[i].text, pattern, options))
  }

  // ---------------------------------------------------------------------------
  // Conditions
  // ---------------------------------------------------------------------------

  function EvalFilter(doc: seq<Field>, filter: seq<Field>, l: Leaves): Result
    decreases filter, 9
  {
    if Get(filter, "collation").Some? then Failed else EvalPairs(doc, filter, l)
  }

  /** All conditions, from the first on. */
  function EvalPairs(doc: seq<Field>, pairs: seq<Field>, l: Leaves): Result
    decreases pairs, 8
  {
    if pairs == [] then Match
    else AndThen(EvalTopLevel(doc, Key(pairs[0]), pairs[0].value, l), EvalPairs(doc, pairs[1..], l))
  }

  function EvalTopLevel(doc: seq<Field>, key: string, condition: Value, l: Leaves): Result
    decreases condition, 7
  {
    if key == "$and" then
      if condition.Array? then EvalAnd(doc, condition.items, l) else Failed
    else if key == "$or" then
      if condition.Array? && condition.items != [] then EvalOr(doc, condition.items, l) else Failed
    else if key == "$nor" then
      if condition.Array? && condition.items != [] then EvalNor(doc, condition.items, l) else Failed
    else if key == "$comment" then Match
    else if key == "$expr" then l.expr(doc, condition)
    else if IsOperator(key) then Failed
    else EvalField(l.field(doc, key), condition, l)
  }

  function EvalSub(doc: seq<Field>, item: Value, l: Leaves): Result
    decreases item, 10
  {
    if item.Document? then EvalFilter(doc, item.fields, l) else Failed
  }

  function EvalAnd(doc: seq<Field>, items: seq<Value>, l: Leaves): Result
    decreases items, 6
  {
    if items == [] then Match else AndThen(EvalSub(doc, items[0], l), EvalAnd(doc, items[1..], l))
  }

  function EvalOr(doc: seq<Field>, items: seq<Value>, l: Leaves): Result
    decreases items, 6
  {
    if items == [] then NoMatch else OrElse(EvalSub(doc, items[0], l), EvalOr(doc, items[1..], l))
  }

  function EvalNor(doc: seq<Field>, items: seq<Value>, l: Leaves): Result
    decreases items, 6
  {
    if items == [] then Match
    else
      match EvalSub(doc, items[0], l)
      case Match => NoMatch
      case NoMatch => EvalNor(doc, items[1..], l)
      case Failed => Failed
  }

  function EvalField(value: Option<Value>, condition: Value, l: Leaves): Result
    decreases condition, 5
  {
    if condition.Document? && HasOperators(condition.fields) then EvalOperators(value, condition.fields, l)
    else if condition.RegularExpression? then EvalRegex(value, condition.pattern, condition.options, l)
    else Of(EqualTo(value, condition, l))
  }

  /** `$regex` with its `$options` first, then every other operator. */
  function EvalOperators(value: Option<Value>, ops: seq<Field>, l: Leaves): Result
    decreases ops, 4
  {
    match Get(ops, "$regex")
    case None => if Get(ops, "$options").Some? then Failed else EvalEach(value, ops, false, l)
    case Some(p) =>
      var options := Get(ops, "$options");
      if !(p.String? || p.RegularExpression?) then Failed
      else if options.Some? && !options.value.String? then Failed
      else AndThen(
        EvalRegex(value, if p.String? then p.text else p.pattern, if options.Some? then options.value.text else [], l),
        EvalEach(value, ops, true, l))
  }

  function EvalEach(value: Option<Value>, ops: seq<Field>, skipRegex: bool, l: Leaves): Result
    decreases ops, 3
  {
    if ops == [] then Match
    else if skipRegex && (Key(ops[0]) == "$regex" || Key(ops[0]) == "$options") then EvalEach(value, ops[1..], skipRegex, l)
    else AndThen(EvalOp(value, Key(ops[0]), ops[0].value, l), EvalEach(value, ops[1..], skipRegex, l))
  }

  function EvalOp(value: Option<Value>, op: string, arg: Value, l: Leaves): Result
    decreases arg, 2
  {
    if op == "$eq" then Of(EqualTo(value, arg, l))
    else if op == "$ne" then Of(!EqualTo(value, arg, l))
    else if op == "$gt" then Of(Compares(value, arg, Greater, false, l))
    else if op == "$gte" then Of(Compares(value, arg, Greater, true, l))
    else if op == "$lt" then Of(Compares(value, arg, Less, false, l))
    else if op == "$lte" then Of(Compares(value, arg, Less, true, l))
    else if op == "$in" then (if arg.Array? then Of(InList(value, arg.items, l)) else Failed)
    else if op == "$nin" then (if arg.Array? then Of(!InList(value, arg.items, l)) else Failed)
    else if op == "$not" then
      (if arg.Document? && arg.fields != [] then Not(EvalOperators(value, arg.fields, l)) else Failed)
    else if op == "$exists" then
      (if TruthOf(arg).Some? then Of(value.Some? == TruthOf(arg).value) else Failed)
    else if op == "$elemMatch" then EvalElemMatch(value, arg, l)
    else if op == "$all" then EvalAll(value, arg, l)
    else l.simple(op, value, arg)
  }

  function EvalElemMatch(value: Option<Value>, arg: Value, l: Leaves): Result
    decreases arg, 1
  {
    if !arg.Document? then Failed
    else if value.None? || !value.value.Array? then NoMatch
    else EvalAnyElement(value.value.items, arg.fields, l)
  }

  function EvalAnyElement(items: seq<Value>, conditions: seq<Field>, l: Leaves): Result
    decreases conditions, 10, |items|
  {
    if items == [] then NoMatch
    else
      var first :=
        if HasOperators(conditions) then EvalOperators(Some(items[0]), conditions, l)
        else if items[0].Document? then EvalFilter(items[0].fields, conditions, l)
        else NoMatch;
      OrElse(first, EvalAnyElement(items[1..], conditions, l))
  }

  function EvalAll(value: Option<Value>, arg: Value, l: Leaves): Result
    decreases arg, 1
  {
    if !arg.Array? then Failed
    else if arg.items == [] || value.None? then NoMatch
    else if value.value.Array? then EvalRequired(value.value, arg.items, l)
    else Of(forall i :: 0 <= i < |arg.items| ==> SameValue(value.value, arg.items[i], l))
  }

  function EvalRequired(whole: Value, required: seq<Value>, l: Leaves): Result
    requires whole.Array?
    decreases required, 0
  {
    if required == [] then Match else AndThen(EvalOneRequired(whole, required[0], l), EvalRequired(whole, required[1..], l))
  }

  function EvalOneRequired(whole: Value, r: Value, l: Leaves): Result
    requires whole.Array?
    decreases r, 2
  {
    if r.Document? && Get(r.fields, "$elemMatch").Some? then
      GetSmaller(r.fields, "$elemMatch");
      EvalElemMatch(Some(whole), Get(r.fields, "$elemMatch").value, l)
    else Of(AnyEqual(whole.items, r, l))
  }

  lemma {:induction false} GetSmaller(pairs: seq<Field>, key: string)
    ensures Get(pairs, key).Some? ==> exists i :: 0 <= i < |pairs| && pairs[i].value == Get(pairs, key).value
    ensures Get(pairs, key).Some? ==> Get(pairs, key).value < Document(pairs)
  {
    if pairs != [] && Key(pairs[0]) != key {
      GetSmaller(pairs[1..], key);
      if Get(pairs, key).Some? {
        var i :| 0 <= i < |pairs[1..]| && pairs[1..][i].value == Get(pairs, key).value;
        assert pairs[i + 1].value == Get(pairs, key).value;
      }
    }
  }
}
