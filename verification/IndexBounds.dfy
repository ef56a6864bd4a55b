/** The byte ranges that a scan visits, and which matching documents it passes over. */
module IndexBounds {
  import opened Bytes
  import opened KeyOrder
  import opened Keys
  import opened CompoundKeys
  import opened Options
  import opened Filter
  import opened Planner
  import opened IndexRows

  datatype Bounds = Bounds(start: Option<seq<Byte>>, end: Option<seq<Byte>>) {
    predicate Contain(key: seq<Byte>) {
      NotBefore(start, key) && NotBehind(key, end)
    }
  }

  function PrefixNext(v: Value, ascending: bool): seq<Byte> { Part(KeyField(v, ascending)) + [COMPOUND_SEP + 1] }

  /** The edge of a scan that begins at a limit; of an inclusive and an exclusive limit the inclusive one is used. */
  function StartEdge(inclusive: Option<Value>, exclusive: Option<Value>, ascending: bool): Option<seq<Byte>> {
    if inclusive.Some? then Some(Prefix(inclusive.value, ascending))
    else if exclusive.Some? then Some(PrefixNext(exclusive.value, ascending))
    else None
  }

  function EndEdge(inclusive: Option<Value>, exclusive: Option<Value>, ascending: bool): Option<seq<Byte>> {
    if inclusive.Some? then Some(PrefixNext(inclusive.value, ascending))
    else if exclusive.Some? then Some(Prefix(exclusive.value, ascending))
    else None
  }

  function BoundsOf(c: IndexCondition, ascending: bool): Bounds {
    match c
    case Eq(v) => Bounds(Some(Prefix(v, ascending)), Some(PrefixNext(v, ascending)))
    case Any => Bounds(None, None)
    case In(_) => Bounds(None, None)
    case Range(gt, gte, lt, lte) =>
      if ascending then Bounds(StartEdge(gte, gt, true), EndEdge(lte, lt, true))
      else Bounds(StartEdge(lte, lt, false), EndEdge(gte, gt, false))
  }

  /** A key is visited: by the one scan of the bounds, or by the scan of one listed value, which excludes its end. */
  predicate Visits(c: IndexCondition, ascending: bool, key: seq<Byte>) {
    match c
    case In(vs) =>
      exists i :: 0 <= i < |vs|
        && Memcmp(Prefix(vs[i], ascending), key) != Greater && Memcmp(key, PrefixNext(vs[i], ascending)) == Less
    case _ => BoundsOf(c, ascending).Contain(key)
  }

  predicate AboveLimits(v: Value, gt: Option<Value>, gte: Option<Value>) {
    if gte.Some? then Compare(v, gte.value) != Less else gt.Some? ==> Compare(v, gt.value) == Greater
  }

  predicate BelowLimits(v: Value, lt: Option<Value>, lte: Option<Value>) {
    if lte.Some? then Compare(v, lte.value) != Greater else lt.Some? ==> Compare(v, lt.value) == Less
  }

  /** The indexed value lies within the limits that are used. */
  predicate Within(c: IndexCondition, v: Value) {
    match c
    case Eq(x) => Compare(v, x) == Equal
    case Any => true
    case In(xs) => exists i :: 0 <= i < |xs| && Compare(v, xs[i]) == Equal
    case Range(gt, gte, lt, lte) => AboveLimits(v, gt, gte) && BelowLimits(v, lt, lte)
  }

  ghost predicate Limited(v: Option<Value>) { v.Some? ==> WellFormed(v.value) }

  ghost predicate AllWellFormed(vs: seq<Value>) { forall i :: 0 <= i < |vs| ==> WellFormed(vs[i]) }

  ghost predicate ConditionOk(c: IndexCondition) {
    match c
    case Eq(v) => WellFormed(v)
    case Any => true
    case In(vs) => AllWellFormed(vs)
    case Range(gt, gte, lt, lte) => Limited(gt) && Limited(gte) && Limited(lt) && Limited(lte)
  }

  // ---------------------------------------------------------------------------
  // One key
  // ---------------------------------------------------------------------------

  /** Against a limit's prefix a key stands as its leading value does, and behind it when the values are equal. */
  lemma PrefixCompares(x: Value, v: Value, ascending: bool, key: seq<Byte>)
    requires WellFormed(x) && WellFormed(v) && Prefix(v, ascending) < key
    ensures var o := ComparePart(KeyField(v, ascending), KeyField(x, ascending));
      && Memcmp(Prefix(x, ascending), key) == (if o == Equal then Less else o.Reversed())
      && Memcmp(key, Prefix(x, ascending)) == (if o == Equal then Greater else o)
      && Memcmp(PrefixNext(x, ascending), key) == (if o == Equal then Greater else o.Reversed())
      && Memcmp(key, PrefixNext(x, ascending)) == (if o == Equal then Less else o)
  {
    var f, g := KeyField(v, ascending), KeyField(x, ascending);
    var rest := key[|Prefix(v, ascending)|..];
    assert key == Part(f) + [1] + rest;
    PartShows(f, g);
    PrefixOrder(Part(f), Part(g), rest, ComparePart(f, g));
  }

  lemma PrefixOrder(a: seq<Byte>, b: seq<Byte>, rest: seq<Byte>, o: Order)
    requires Shows(o, a, b) && rest != []
    ensures var key := a + [1] + rest;
      && Memcmp(b + [1], key) == (if o == Equal then Less else o.Reversed())
      && Memcmp(key, b + [1]) == (if o == Equal then Greater else o)
      && Memcmp(b + [2], key) == (if o == Equal then Greater else o.Reversed())
      && Memcmp(key, b + [2]) == (if o == Equal then Less else o)
  {
    var key := a + [1] + rest;
    assert key == a + ([1] + rest);
    match o
    case Less =>
      BelowExtends(a, b, [1] + rest, [1]);
      BelowExtends(a, b, [1] + rest, [2]);
      BelowMemcmp(key, b + [1]);
      BelowMemcmp(key, b + [2]);
    case Greater =>
      BelowExtends(b, a, [1], [1] + rest);
      BelowExtends(b, a, [2], [1] + rest);
      BelowMemcmp(b + [1], key);
      BelowMemcmp(b + [2], key);
    case Equal =>
      ProperPrefix(b + [1], rest);
      BelowBehind(a, [1] + rest, [2]);
      BelowMemcmp(key, b + [2]);
  }

  lemma {:induction false} ProperPrefix(a: seq<Byte>, s: seq<Byte>)
    requires s != []
    ensures Memcmp(a, a + s) == Less && Memcmp(a + s, a) == Greater
  {
    if a == [] {
      assert a + s == s;
    } else {
      assert (a + s)[1..] == a[1..] + s;
      ProperPrefix(a[1..], s);
    }
  }

  predicate NotBefore(start: Option<seq<Byte>>, key: seq<Byte>) { start.Some? ==> Memcmp(start.value, key) != Greater }

  predicate NotBehind(key: seq<Byte>, end: Option<seq<Byte>>) { end.Some? ==> Memcmp(key, end.value) != Greater }

  lemma LowerEdge(gt: Option<Value>, gte: Option<Value>, v: Value, ascending: bool, key: seq<Byte>)
    requires Limited(gt) && Limited(gte) && WellFormed(v) && Prefix(v, ascending) < key
    ensures (if ascending then NotBefore(StartEdge(gte, gt, true), key) else NotBehind(key, EndEdge(gte, gt, false)))
      <==> AboveLimits(v, gt, gte)
  {
    var x := if gte.Some? then gte else gt;
    if x.Some? { PrefixCompares(x.value, v, ascending, key); }
  }

  lemma UpperEdge(lt: Option<Value>, lte: Option<Value>, v: Value, ascending: bool, key: seq<Byte>)
    requires Limited(lt) && Limited(lte) && WellFormed(v) && Prefix(v, ascending) < key
    ensures (if ascending then NotBehind(key, EndEdge(lte, lt, true)) else NotBefore(StartEdge(lte, lt, false), key))
      <==> BelowLimits(v, lt, lte)
  {
    var x := if lte.Some? then lte else lt;
    if x.Some? { PrefixCompares(x.value, v, ascending, key); }
  }

  lemma ListedExact(vs: seq<Value>, v: Value, ascending: bool, key: seq<Byte>)
    requires AllWellFormed(vs) && WellFormed(v) && Prefix(v, ascending) < key
    ensures Visits(In(vs), ascending, key) <==> Within(In(vs), v)
  {
    forall i | 0 <= i < |vs|
      ensures Memcmp(Prefix(vs[i], ascending), key) != Greater && Memcmp(key, PrefixNext(vs[i], ascending)) == Less
        <==> Compare(v, vs[i]) == Equal
    {
      PrefixCompares(vs[i], v, ascending, key);
    }
  }

  /** A key is visited exactly when its leading value is within the limits that are used. */
  lemma BoundsExact(c: IndexCondition, v: Value, ascending: bool, key: seq<Byte>)
    requires ConditionOk(c) && WellFormed(v) && Prefix(v, ascending) < key
    ensures Visits(c, ascending, key) <==> Within(c, v)
  {
    match c
    case Any =>
    case Eq(x) => PrefixCompares(x, v, ascending, key);
    case In(xs) => ListedExact(xs, v, ascending, key);
    case Range(gt, gte, lt, lte) =>
      LowerEdge(gt, gte, v, ascending, key);
      UpperEdge(lt, lte, v, ascending, key);
  }

  // ---------------------------------------------------------------------------
  // All keys of a document
  // ---------------------------------------------------------------------------

  /** The scan comes across one of the document's keys. */
  predicate ScanFinds(c: IndexCondition, fs: seq<Indexed>, id: Value, sparse: bool)
    requires fs != [] && IndexKeys(fs, id, sparse).Some?
  {
    SomeVisited(c, fs[0].ascending, IndexKeys(fs, id, sparse).value)
  }

  predicate SomeVisited(c: IndexCondition, ascending: bool, keys: seq<seq<Byte>>) {
    exists i :: 0 <= i < |keys| && Visits(c, ascending, keys[i])
  }

  predicate SomeWithin(c: IndexCondition, vs: seq<Value>) { exists i :: 0 <= i < |vs| && Within(c, vs[i]) }

  lemma KeyVisited(c: IndexCondition, vs: seq<Value>, ascending: bool, key: seq<Byte>)
    requires ConditionOk(c) && AllWellFormed(vs) && SomeLeads(vs, ascending, key)
    ensures Visits(c, ascending, key) ==> SomeWithin(c, vs)
  {
    var j :| 0 <= j < |vs| && Prefix(vs[j], ascending) < key;
    BoundsExact(c, vs[j], ascending, key);
  }

  lemma ValueVisited(c: IndexCondition, v: Value, ascending: bool, keys: seq<seq<Byte>>)
    requires ConditionOk(c) && WellFormed(v) && LeadsSome(v, ascending, keys)
    ensures Within(c, v) ==> SomeVisited(c, ascending, keys)
  {
    var i :| 0 <= i < |keys| && Prefix(v, ascending) < keys[i];
    BoundsExact(c, v, ascending, keys[i]);
  }

  lemma VisitedIsWithin(c: IndexCondition, keys: seq<seq<Byte>>, vs: seq<Value>, ascending: bool)
    requires ConditionOk(c) && AllWellFormed(vs) && Led(keys, vs, ascending) && SomeVisited(c, ascending, keys)
    ensures SomeWithin(c, vs)
  {
    var i :| 0 <= i < |keys| && Visits(c, ascending, keys[i]);
    assert SomeLeads(vs, ascending, keys[i]);
    KeyVisited(c, vs, ascending, keys[i]);
  }

  lemma WithinIsVisited(c: IndexCondition, keys: seq<seq<Byte>>, vs: seq<Value>, ascending: bool)
    requires ConditionOk(c) && AllWellFormed(vs) && Led(keys, vs, ascending) && SomeWithin(c, vs)
    ensures SomeVisited(c, ascending, keys)
  {
    var j :| 0 <= j < |vs| && Within(c, vs[j]);
    assert LeadsSome(vs[j], ascending, keys);
    ValueVisited(c, vs[j], ascending, keys);
  }

  lemma VisitedWhenLed(c: IndexCondition, keys: seq<seq<Byte>>, vs: seq<Value>, ascending: bool, stored: bool)
    requires ConditionOk(c) && AllWellFormed(vs) && (if stored then Led(keys, vs, ascending) else keys == [])
    ensures SomeVisited(c, ascending, keys) <==> stored && SomeWithin(c, vs)
  {
    if stored {
      if SomeVisited(c, ascending, keys) { VisitedIsWithin(c, keys, vs, ascending); }
      if SomeWithin(c, vs) { WithinIsVisited(c, keys, vs, ascending); }
    }
  }

  /** Any document is found exactly when it has keys and one leading value alone is within the limits. */
  lemma VisitedIff(c: IndexCondition, fs: seq<Indexed>, id: Value, sparse: bool)
    requires fs != [] && IndexKeys(fs, id, sparse).Some? && ConditionOk(c) && AllWellFormed(LeadValues(fs[0].value))
    ensures ScanFinds(c, fs, id, sparse) <==> IsStored(fs, sparse) && SomeWithin(c, LeadValues(fs[0].value))
  {
    KeysLead(fs, id, sparse);
    var keys, vs, stored := IndexKeys(fs, id, sparse).value, LeadValues(fs[0].value), IsStored(fs, sparse);
    VisitedWhenLed(c, keys, vs, fs[0].ascending, stored);
  }

  // ---------------------------------------------------------------------------
  // Matching documents
  // ---------------------------------------------------------------------------

  /** The filter compares by key bytes. */
  ghost predicate ByKeys(l: Leaves) {
    forall a, b :: l.compare(a, b) == Memcmp(Encoded(a), Encoded(b))
  }

  lemma ComparesAsValues(l: Leaves, v: Value, x: Value)
    requires ByKeys(l) && WellFormed(v) && WellFormed(x)
    ensures l.compare(v, x) == Compare(v, x)
  {
    KeysCompareAsValues(v, x);
  }

  lemma LimitMet(v: Value, bound: Option<Value>, direction: Order, orEqual: bool, l: Leaves)
    requires ByKeys(l) && WellFormed(v) && Limited(bound) && !v.Array?
    requires Meets(Some(v), bound, direction, orEqual, l)
    ensures bound.Some? ==> Compare(v, bound.value) == direction || (orEqual && Compare(v, bound.value) == Equal)
  {
    if bound.Some? { ComparesAsValues(l, v, bound.value); }
  }

  /** A single value, or none, that passes the condition is within its limits. */
  lemma SinglePasses(c: IndexCondition, value: Option<Value>, l: Leaves)
    requires ByKeys(l) && ConditionOk(c) && WellFormed(OrNull(value)) && !OrNull(value).Array? && Passes(c, value, l)
    ensures Within(c, OrNull(value))
  {
    var v := OrNull(value);
    match c
    case Any =>
    case Eq(x) => ComparesAsValues(l, v, x);
    case In(xs) =>
      var i :| 0 <= i < |xs| && EqualTo(value, xs[i], l);
      ComparesAsValues(l, v, xs[i]);
    case Range(gt, gte, lt, lte) =>
      if value.Some? {
        LimitMet(v, gt, Greater, false, l);
        LimitMet(v, gte, Greater, true, l);
        LimitMet(v, lt, Less, false, l);
        LimitMet(v, lte, Less, true, l);
      }
  }

  predicate NoLower(c: IndexCondition)
    requires c.Range?
  {
    c.gt.None? && c.gte.None?
  }

  predicate NoUpper(c: IndexCondition)
    requires c.Range?
  {
    c.lt.None? && c.lte.None?
  }

  /** What an array that passes must have beyond that: one element that does for the whole condition. */
  predicate OneElementDoes(c: IndexCondition, items: seq<Value>) {
    match c
    case Any => true
    case Range(_, _, _, _) => NoLower(c) || NoUpper(c) || SomeWithin(c, items)
    case _ => SomeWithin(c, items)
  }

  lemma ElementMeets(items: seq<Value>, bound: Value, direction: Order, orEqual: bool, l: Leaves) returns (i: nat)
    requires ByKeys(l) && WellFormed(bound) && AllWellFormed(items) && Compares(Some(Array(items)), bound, direction, orEqual, l)
    ensures i < |items| && (Compare(items[i], bound) == direction || (orEqual && Compare(items[i], bound) == Equal))
  {
    var k :| 0 <= k < |items| && (l.compare(items[k], bound) == direction || (orEqual && l.compare(items[k], bound).Equal?));
    ComparesAsValues(l, items[k], bound);
    i := k;
  }

  /** A range limited on one side only is passed by an element that is within it. */
  lemma OneSidedRange(c: IndexCondition, items: seq<Value>, l: Leaves)
    requires ByKeys(l) && ConditionOk(c) && AllWellFormed(items) && items != []
    requires c.Range? && (NoLower(c) || NoUpper(c)) && Passes(c, Some(Array(items)), l)
    ensures SomeWithin(c, items)
  {
    if c.gte.Some? {
      var i := ElementMeets(items, c.gte.value, Greater, true, l);
      assert Within(c, items[i]);
    } else if c.gt.Some? {
      var i := ElementMeets(items, c.gt.value, Greater, false, l);
      assert Within(c, items[i]);
    } else if c.lte.Some? {
      var i := ElementMeets(items, c.lte.value, Less, true, l);
      assert Within(c, items[i]);
    } else if c.lt.Some? {
      var i := ElementMeets(items, c.lt.value, Less, false, l);
      assert Within(c, items[i]);
    } else {
      assert Within(c, items[0]);
    }
  }

  /**
   Exactly which documents that pass a condition its index scan finds. Passed over are those without
   keys, because a sparse index lacks a field or an array of the pattern is empty, and those with an array
   in the leading field that only matches as a whole or only by different elements for the two sides of a range.
   */
  lemma MatchVisitedIff(c: IndexCondition, fs: seq<Indexed>, id: Value, sparse: bool, l: Leaves)
    requires fs != [] && IndexKeys(fs, id, sparse).Some? && ConditionOk(c) && AllWellFormed(LeadValues(fs[0].value))
    requires ByKeys(l) && Passes(c, fs[0].value, l)
    ensures ScanFinds(c, fs, id, sparse) <==>
      IsStored(fs, sparse) && (IsArray(fs[0]) ==> OneElementDoes(c, fs[0].value.value.items))
  {
    VisitedIff(c, fs, id, sparse);
    var vs := LeadValues(fs[0].value);
    if IsArray(fs[0]) {
      if vs != [] && c.Any? { assert Within(c, vs[0]); }
      if vs != [] && c.Range? && (NoLower(c) || NoUpper(c)) { OneSidedRange(c, vs, l); }
    } else {
      assert vs == [OrNull(fs[0].value)] && WellFormed(vs[0]);
      SinglePasses(c, fs[0].value, l);
      assert Within(c, vs[0]);
    }
  }

  /** So for the plan that is chosen for a filter, of every document that the filter matches. */
  lemma PlannedScanIff(
    doc: seq<Field>, filter: seq<Field>, indexes: seq<IndexMeta>, fs: seq<Indexed>, id: Value, sparse: bool, l: Leaves)
    requires EvalFilter(doc, filter, l).Match? && NamesFields(indexes) && ByKeys(l)
    requires SelectPlan(filter, indexes).IndexScan? && !ByRegex(filter, SelectPlan(filter, indexes))
    requires fs != [] && fs[0].value == l.field(doc, SelectPlan(filter, indexes).field)
    requires IndexKeys(fs, id, sparse).Some? && AllWellFormed(LeadValues(fs[0].value))
    requires ConditionOk(SelectPlan(filter, indexes).condition)
    ensures var plan := SelectPlan(filter, indexes);
      && (plan.index.pfe.Some? ==> EvalFilter(doc, plan.index.pfe.value, l).Match?)
      && (ScanFinds(plan.condition, fs, id, sparse) <==>
            IsStored(fs, sparse) && (IsArray(fs[0]) ==> OneElementDoes(plan.condition, fs[0].value.value.items)))
  {
    PlanFindsMatches(doc, filter, indexes, l);
    MatchVisitedIff(SelectPlan(filter, indexes).condition, fs, id, sparse, l);
  }

  // ---------------------------------------------------------------------------
  // The primary tree
  // ---------------------------------------------------------------------------

  /** A lookup by `_id` fetches the keys of the listed values and no others. */
  predicate Fetches(c: IndexCondition, id: Value) {
    match c
    case Eq(v) => Encoded(v) == Encoded(id)
    case In(vs) => exists i :: 0 <= i < |vs| && Encoded(vs[i]) == Encoded(id)
    case _ => false
  }

  predicate EqualsWhole(c: IndexCondition, id: Value, l: Leaves) {
    match c
    case Eq(v) => SameValue(id, v, l)
    case In(vs) => exists i :: 0 <= i < |vs| && SameValue(id, vs[i], l)
    case _ => false
  }

  lemma SameKey(l: Leaves, a: Value, b: Value)
    requires ByKeys(l)
    ensures SameValue(a, b, l) <==> Encoded(a) == Encoded(b)
  {
    MemcmpReverses(Encoded(a), Encoded(b));
  }

  /** A document that passes is fetched exactly when its `_id` is no array, or is equal as a whole. */
  lemma PrimaryFetchIff(c: IndexCondition, id: Value, l: Leaves)
    requires (c.Eq? || c.In?) && ByKeys(l) && Passes(c, Some(id), l)
    ensures Fetches(c, id) <==> !id.Array? || EqualsWhole(c, id, l)
  {
    match c
    case Eq(v) => SameKey(l, id, v);
    case In(vs) =>
      forall i | 0 <= i < |vs| ensures SameValue(id, vs[i], l) <==> Encoded(vs[i]) == Encoded(id) {
        SameKey(l, id, vs[i]);
      }
  }

  // ---------------------------------------------------------------------------
  // Matching documents that are passed over
  // ---------------------------------------------------------------------------

  lemma ApartPass(a: Value, lo: Value, hi: Value, b: Value, l: Leaves)
    requires ByKeys(l) && WellFormed(a) && WellFormed(lo) && WellFormed(hi) && WellFormed(b)
    requires Compare(a, hi) == Less && Compare(b, lo) == Greater
    ensures Passes(Planner.Range(Some(lo), None, Some(hi), None), Some(Array([a, b])), l)
  {
    ComparesAsValues(l, a, hi);
    ComparesAsValues(l, b, lo);
    var vs := Elements(Array([a, b]));
    assert l.compare(vs[0], hi) == Less && l.compare(vs[1], lo) == Greater;
  }

  lemma ApartOutside(a: Value, lo: Value, hi: Value, b: Value, c: IndexCondition)
    requires WellFormed(a) && WellFormed(lo) && WellFormed(hi) && WellFormed(b)
    requires Compare(a, lo) == Less && Compare(b, hi) == Greater && c == Planner.Range(Some(lo), None, Some(hi), None)
    ensures AllWellFormed([a, b]) && !SomeWithin(c, [a, b])
  {
  }

  /**
   The filter lets each limit be met by an element of its own. So an array with one element below a
   two-sided range and one above it passes the condition and is not found.
   */
  lemma TwoSidedRangeMisses(a: Value, lo: Value, hi: Value, b: Value, fs: seq<Indexed>, id: Value, l: Leaves)
    requires ByKeys(l) && WellFormed(a) && WellFormed(lo) && WellFormed(hi) && WellFormed(b)
    requires Compare(a, lo) == Less && Compare(a, hi) == Less && Compare(b, lo) == Greater && Compare(b, hi) == Greater
    requires |fs| == 1 && fs[0].value == Some(Array([a, b]))
    ensures var c := Planner.Range(Some(lo), None, Some(hi), None);
      Passes(c, fs[0].value, l) && IndexKeys(fs, id, false).Some? && !ScanFinds(c, fs, id, false)
  {
    var c := Planner.Range(Some(lo), None, Some(hi), None);
    ApartPass(a, lo, hi, b, l);
    ApartOutside(a, lo, hi, b, c);
    assert LeadValues(fs[0].value) == [a, b];
    VisitedIff(c, fs, id, false);
  }

  /** An array without elements that exists, and an array that equals the target as a whole. */
  lemma WholeArrayMisses(v: Value, fs: seq<Indexed>, id: Value, l: Leaves)
    requires ByKeys(l) && v.Array? && WellFormed(v) && forall i :: 0 <= i < |v.items| ==> !v.items[i].Array?
    requires |fs| == 1 && fs[0].value == Some(v)
    ensures IndexKeys(fs, id, false).Some?
    ensures Passes(Eq(v), Some(v), l) && !ScanFinds(Eq(v), fs, id, false)
    ensures v.items == [] ==> Passes(Any, Some(v), l) && !ScanFinds(Any, fs, id, false)
  {
    SameKey(l, v, v);
    VisitedIff(Eq(v), fs, id, false);
    VisitedIff(Any, fs, id, false);
  }
}
