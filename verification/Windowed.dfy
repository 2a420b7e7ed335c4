/** Threshold rules: a paged aggregation over the event store, against counting
    the events one by one. */
module Windowed {
  import opened Text
  import opened Documents
  import opened Conditions
  import opened Query
  import opened CompilerCorrect

  /** A stored event: its tenant, its timestamp and the document itself. */
  datatype Event = Event(tenant: string, time: int, doc: Value)

  datatype Expiry = Never | Unreadable | At(t: int)

  datatype RuleException = RuleException(conditions: Node, expires: Expiry)

  datatype Rule = Rule(
    conditions: Node, durationSeconds: nat, threshold: nat, groupBy: seq<Path>, distinctField: Option<Path>,
    exceptions: seq<RuleException>)

  /** An exception whose expiry cannot be read counts as expired. */
  predicate Active(e: RuleException, now: int) {
    match e.expires
    case Never => true
    case Unreadable => false
    case At(t) => t > now
  }

  const TENANT: Path := ["tenant_id"]
  const TIMESTAMP: Path := ["timestamp"]

  // ----- the query --------------------------------------------------------

  function Instant(t: int): Value { Num(t as real, "") }

  /** Tenant, time and the rule's conditions. The two bounds of the time range
      are written as two clauses, which is the same for a field with one value. */
  function BaseFilter(rule: Rule, tenant: string, now: int, conditions: Query): seq<Query> {
    [Term(TENANT, tenant, false),
     Range(TIMESTAMP, AtLeast, Instant(now - rule.durationSeconds)), Range(TIMESTAMP, AtMost, Instant(now)),
     conditions]
  }

  /** The compiled conditions of the exceptions still in force. */
  function ExceptionClauses(mapping: Mapping, exceptions: seq<RuleException>, now: int): Option<seq<Query>> {
    if exceptions == [] then Some([])
    else
      var first, rest := CompileNode(mapping, exceptions[0].conditions), ExceptionClauses(mapping, exceptions[1..], now);
      if rest.None? then None
      else if !Active(exceptions[0], now) then rest
      else if first.Unsupported? then None
      else Some([first.query] + rest.value)
  }

  /** What the aggregation searches; none if something does not compile, and
      then the run raises. */
  function SearchQuery(mapping: Mapping, rule: Rule, tenant: string, now: int): Option<Query> {
    var conditions, clauses := CompileNode(mapping, rule.conditions), ExceptionClauses(mapping, rule.exceptions, now);
    if conditions.Unsupported? || clauses.None? then None
    else Some(BoolQuery([], BaseFilter(rule, tenant, now, conditions.query), [], clauses.value))
  }

  // ----- the two ways to decide which events count ------------------------

  predicate Searched(env: Env, mapping: Mapping, rule: Rule, tenant: string, now: int, e: Event) {
    var q := SearchQuery(mapping, rule, tenant, now);
    q.Some? && Selects(env, mapping, q.value, e.doc)
  }

  predicate InScope(rule: Rule, tenant: string, now: int, e: Event) {
    e.tenant == tenant && now - rule.durationSeconds <= e.time <= now
  }

  predicate Excepted(env: Env, exceptions: seq<RuleException>, now: int, doc: Value) {
    exists i :: 0 <= i < |exceptions| && Active(exceptions[i], now) && EvaluateNode(env, exceptions[i].conditions, doc)
  }

  /** The same question put to the streaming evaluator. */
  predicate Counted(env: Env, rule: Rule, tenant: string, now: int, e: Event) {
    InScope(rule, tenant, now, e) && EvaluateNode(env, rule.conditions, e.doc) && !Excepted(env, rule.exceptions, now, e.doc)
  }

  /** The index declares the two scope fields, and the event's document carries
      its tenant and its timestamp there. */
  predicate Stored(mapping: Mapping, e: Event) {
    && TENANT in mapping && mapping[TENANT].Keyword? && Leaves(e.doc, TENANT) == [Str(e.tenant)]
    && TIMESTAMP in mapping && mapping[TIMESTAMP].Date? && Leaves(e.doc, TIMESTAMP) == [Instant(e.time)]
  }

  /** Rule and documents are such that the two paths mean the same. */
  ghost predicate Comparable(env: Env, mapping: Mapping, rule: Rule, events: seq<Event>) {
    && EnvOk(env)
    && TreeWellTyped(env, mapping, rule.conditions)
    && (forall i :: 0 <= i < |rule.exceptions| ==> TreeWellTyped(env, mapping, rule.exceptions[i].conditions))
    && (forall e :: e in events ==> Stored(mapping, e) && DocComparable(env, mapping, rule, e.doc))
  }

  ghost predicate DocComparable(env: Env, mapping: Mapping, rule: Rule, doc: Value) {
    && DocFits(env, mapping, doc) && NegatedFieldsSingle(rule.conditions, doc)
    && forall i :: 0 <= i < |rule.exceptions| ==> NegatedFieldsSingle(rule.exceptions[i].conditions, doc)
  }

  /** The scope clauses select the tenant's events of the window. */
  lemma ScopeSelected(env: Env, mapping: Mapping, rule: Rule, tenant: string, now: int, e: Event)
    requires Stored(mapping, e)
    ensures Selects(env, mapping, Term(TENANT, tenant, false), e.doc) <==> e.tenant == tenant
    ensures Selects(env, mapping, Range(TIMESTAMP, AtLeast, Instant(now - rule.durationSeconds)), e.doc) <==> now - rule.durationSeconds <= e.time
    ensures Selects(env, mapping, Range(TIMESTAMP, AtMost, Instant(now)), e.doc) <==> e.time <= now
  {
    var t, s := Str(e.tenant), Instant(e.time);
    assert t in Leaves(e.doc, TENANT) && forall v :: v in Leaves(e.doc, TENANT) ==> v == t;
    assert s in Leaves(e.doc, TIMESTAMP) && forall v :: v in Leaves(e.doc, TIMESTAMP) ==> v == s;
  }

  lemma {:induction false} FilterInScope(env: Env, mapping: Mapping, rule: Rule, tenant: string, now: int, conditions: Query, e: Event)
    requires Stored(mapping, e)
    ensures var filter := BaseFilter(rule, tenant, now, conditions);
            (forall i :: 0 <= i < |filter| ==> Selects(env, mapping, filter[i], e.doc)) <==>
            InScope(rule, tenant, now, e) && Selects(env, mapping, conditions, e.doc)
  {
    ScopeSelected(env, mapping, rule, tenant, now, e);
    var filter := BaseFilter(rule, tenant, now, conditions);
    assert filter[0] == Term(TENANT, tenant, false) && filter[3] == conditions;
    assert filter[1] == Range(TIMESTAMP, AtLeast, Instant(now - rule.durationSeconds)) && filter[2] == Range(TIMESTAMP, AtMost, Instant(now));
  }

  /** Each exception, compiled, selects what the evaluator accepts. */
  predicate ExceptionsAgree(env: Env, mapping: Mapping, exceptions: seq<RuleException>, doc: Value) {
    forall i :: 0 <= i < |exceptions| ==>
      var q := CompileNode(mapping, exceptions[i].conditions);
      q.Ok? && (Selects(env, mapping, q.query, doc) <==> EvaluateNode(env, exceptions[i].conditions, doc))
  }

  lemma {:induction false} ExceptionsSelected(env: Env, mapping: Mapping, exceptions: seq<RuleException>, now: int, doc: Value)
    requires ExceptionsAgree(env, mapping, exceptions, doc)
    ensures var clauses := ExceptionClauses(mapping, exceptions, now);
            clauses.Some? &&
            ((exists i :: 0 <= i < |clauses.value| && Selects(env, mapping, clauses.value[i], doc)) <==> Excepted(env, exceptions, now, doc))
  {
    if exceptions != [] {
      var rest := exceptions[1..];
      assert forall i :: 0 <= i < |rest| ==> rest[i] == exceptions[i + 1];
      ExceptionsSelected(env, mapping, rest, now, doc);
      ExceptedCons(env, exceptions, now, doc);
      if Active(exceptions[0], now) {
        SelectedCons(env, mapping, CompileNode(mapping, exceptions[0].conditions).query, ExceptionClauses(mapping, rest, now).value, doc);
      }
    }
  }

  lemma ExceptedCons(env: Env, exceptions: seq<RuleException>, now: int, doc: Value)
    requires exceptions != []
    ensures Excepted(env, exceptions, now, doc) <==>
            (Active(exceptions[0], now) && EvaluateNode(env, exceptions[0].conditions, doc)) || Excepted(env, exceptions[1..], now, doc)
  {
    var rest := exceptions[1..];
    if i :| 0 <= i < |rest| && Active(rest[i], now) && EvaluateNode(env, rest[i].conditions, doc) {
      assert exceptions[i + 1] == rest[i];
    }
    if i :| 0 <= i < |exceptions| && Active(exceptions[i], now) && EvaluateNode(env, exceptions[i].conditions, doc) {
      if i > 0 { assert rest[i - 1] == exceptions[i]; }
    }
  }

  lemma {:induction false} SelectedCons(env: Env, mapping: Mapping, q: Query, rest: seq<Query>, doc: Value)
    ensures (exists i :: 0 <= i < |[q] + rest| && Selects(env, mapping, ([q] + rest)[i], doc)) <==>
            Selects(env, mapping, q, doc) || exists i :: 0 <= i < |rest| && Selects(env, mapping, rest[i], doc)
  {
    var all := [q] + rest;
    if Selects(env, mapping, q, doc) { assert all[0] == q; }
    if i :| 0 <= i < |rest| && Selects(env, mapping, rest[i], doc) { assert all[i + 1] == rest[i]; }
  }

  lemma {:induction false} FilterSelected(env: Env, mapping: Mapping, filter: seq<Query>, mustNot: seq<Query>, doc: Value)
    ensures Selects(env, mapping, BoolQuery([], filter, [], mustNot), doc) <==>
            && (forall i :: 0 <= i < |filter| ==> Selects(env, mapping, filter[i], doc))
            && !exists i :: 0 <= i < |mustNot| && Selects(env, mapping, mustNot[i], doc)
  {
  }

  lemma ExceptionsMeanTheSame(env: Env, mapping: Mapping, rule: Rule, doc: Value)
    requires EnvOk(env) && DocComparable(env, mapping, rule, doc)
    requires forall i :: 0 <= i < |rule.exceptions| ==> TreeWellTyped(env, mapping, rule.exceptions[i].conditions)
    ensures ExceptionsAgree(env, mapping, rule.exceptions, doc)
  {
    forall i | 0 <= i < |rule.exceptions|
      ensures var q := CompileNode(mapping, rule.exceptions[i].conditions);
              q.Ok? && (Selects(env, mapping, q.query, doc) <==> EvaluateNode(env, rule.exceptions[i].conditions, doc))
    {
      CompilerPreservesMeaning(env, mapping, rule.exceptions[i].conditions, doc);
    }
  }

  /** The query selects an event exactly when it is the tenant's, lies in the
      window, the evaluator accepts it, and no exception in force does. */
  lemma SearchedIsCounted(env: Env, mapping: Mapping, rule: Rule, tenant: string, now: int, events: seq<Event>, e: Event)
    requires Comparable(env, mapping, rule, events) && e in events
    ensures SearchQuery(mapping, rule, tenant, now).Some?
    ensures Searched(env, mapping, rule, tenant, now, e) <==> Counted(env, rule, tenant, now, e)
  {
    assert Stored(mapping, e) && DocComparable(env, mapping, rule, e.doc);
    CompilerPreservesMeaning(env, mapping, rule.conditions, e.doc);
    ExceptionsMeanTheSame(env, mapping, rule, e.doc);
    ExceptionsSelected(env, mapping, rule.exceptions, now, e.doc);
    var conditions := CompileNode(mapping, rule.conditions).query;
    FilterInScope(env, mapping, rule, tenant, now, conditions, e);
    FilterSelected(env, mapping, BaseFilter(rule, tenant, now, conditions), ExceptionClauses(mapping, rule.exceptions, now).value, e.doc);
  }

  /** The same said with instants: an exception without expiry, or one that lies
      ahead, excludes; one that has passed, or that cannot be read, never does. */
  lemma SearchedExactly(env: Env, mapping: Mapping, rule: Rule, tenant: string, now: int, events: seq<Event>, e: Event)
    requires Comparable(env, mapping, rule, events) && e in events
    ensures Searched(env, mapping, rule, tenant, now, e) <==>
            && e.tenant == tenant && now - rule.durationSeconds <= e.time <= now
            && EvaluateNode(env, rule.conditions, e.doc)
            && !exists i :: 0 <= i < |rule.exceptions| && EvaluateNode(env, rule.exceptions[i].conditions, e.doc)
                 && (rule.exceptions[i].expires == Never || (rule.exceptions[i].expires.At? && now < rule.exceptions[i].expires.t))
  {
    SearchedIsCounted(env, mapping, rule, tenant, now, events, e);
    forall i | 0 <= i < |rule.exceptions|
      ensures Active(rule.exceptions[i], now) <==>
              rule.exceptions[i].expires == Never || (rule.exceptions[i].expires.At? && now < rule.exceptions[i].expires.t)
    {
    }
  }

  // ----- entities and counts ----------------------------------------------

  /** One component of a bucket key, as the index stores it. */
  datatype Key = TextKey(s: string) | NumberKey(n: real)

  function IndexKey(env: Env, t: FieldType, v: Value): Key {
    if t.Number? && AsNumber(env, v).Some? then NumberKey(AsNumber(env, v).value) else TextKey(TextOf(v))
  }

  function KeysAt(env: Env, mapping: Mapping, doc: Value, f: Path): set<Key> {
    if f in mapping then set v | v in Leaves(doc, f) :: IndexKey(env, mapping[f], v) else {}
  }

  /** The event belongs to the entity: one of its values in every grouping
      field. An event that lacks a grouping field belongs to none. */
  predicate BelongsTo(env: Env, mapping: Mapping, doc: Value, groupBy: seq<Path>, key: seq<Key>)
  {
    |key| == |groupBy| && forall i :: 0 <= i < |groupBy| ==> key[i] in KeysAt(env, mapping, doc, groupBy[i])
  }

  /** The events of one entity, in store order. */
  function Of(env: Env, mapping: Mapping, groupBy: seq<Path>, key: seq<Key>, events: seq<Event>): seq<Event> {
    if events == [] then []
    else
      (if BelongsTo(env, mapping, events[0].doc, groupBy, key) then [events[0]] else [])
      + Of(env, mapping, groupBy, key, events[1..])
  }

  function DistinctKeys(env: Env, mapping: Mapping, f: Path, events: seq<Event>): set<Key> {
    if events == [] then {} else KeysAt(env, mapping, events[0].doc, f) + DistinctKeys(env, mapping, f, events[1..])
  }

  /** What a threshold is compared with: events, or distinct values of a field. */
  function Observed(env: Env, mapping: Mapping, rule: Rule, events: seq<Event>): nat {
    if rule.distinctField.Some? then |DistinctKeys(env, mapping, rule.distinctField.value, events)| else |events|
  }

  function Filter(p: Event -> bool, events: seq<Event>): seq<Event> {
    if events == [] then [] else (if p(events[0]) then [events[0]] else []) + Filter(p, events[1..])
  }

  /** Counting the naive way: each event of the entity the evaluator accepts. */
  function NaiveObserved(env: Env, mapping: Mapping, rule: Rule, tenant: string, now: int, events: seq<Event>, key: seq<Key>): nat {
    Observed(env, mapping, rule,
      Of(env, mapping, rule.groupBy, key, Filter(e => Counted(env, rule, tenant, now, e), events)))
  }

  lemma {:induction false} FilterSame(p: Event -> bool, q: Event -> bool, events: seq<Event>)
    requires forall e :: e in events ==> p(e) == q(e)
    ensures Filter(p, events) == Filter(q, events)
  {
    if events != [] {
      assert events[0] in events;
      FilterSame(p, q, events[1..]);
    }
  }

  // ----- what is counted, event by event ------------------------------------

  lemma {:induction false} FilterKeeps(p: Event -> bool, events: seq<Event>, e: Event)
    ensures multiset(Filter(p, events))[e] == if p(e) then multiset(events)[e] else 0
  {
    if events != [] {
      FilterKeeps(p, events[1..], e);
      assert events == [events[0]] + events[1..];
    }
  }

  lemma {:induction false} OfKeeps(env: Env, mapping: Mapping, groupBy: seq<Path>, key: seq<Key>, events: seq<Event>, e: Event)
    ensures multiset(Of(env, mapping, groupBy, key, events))[e] == if BelongsTo(env, mapping, e.doc, groupBy, key) then multiset(events)[e] else 0
  {
    if events != [] {
      OfKeeps(env, mapping, groupBy, key, events[1..], e);
      assert events == [events[0]] + events[1..];
    }
  }

  lemma {:induction false} DistinctMembers(env: Env, mapping: Mapping, f: Path, events: seq<Event>, k: Key)
    ensures k in DistinctKeys(env, mapping, f, events) <==> exists e :: e in events && k in KeysAt(env, mapping, e.doc, f)
  {
    if events != [] {
      DistinctMembers(env, mapping, f, events[1..], k);
      assert forall e :: e in events <==> e == events[0] || e in events[1..];
    }
  }

  /** The naive count is a count of events, or of the different keys they have in
      the distinct field; the events are those the evaluator counts and that
      belong to the entity, each as often as it is stored. */
  lemma NaiveCountMeans(env: Env, mapping: Mapping, rule: Rule, tenant: string, now: int, events: seq<Event>, key: seq<Key>)
    returns (mine: seq<Event>, keys: set<Key>)
    ensures NaiveObserved(env, mapping, rule, tenant, now, events, key) == if rule.distinctField.None? then |mine| else |keys|
    ensures forall e :: multiset(mine)[e] ==
              if Counted(env, rule, tenant, now, e) && BelongsTo(env, mapping, e.doc, rule.groupBy, key) then multiset(events)[e] else 0
    ensures rule.distinctField.Some? ==>
              forall k :: k in keys <==> exists e :: e in mine && k in KeysAt(env, mapping, e.doc, rule.distinctField.value)
  {
    var counted := Filter(e => Counted(env, rule, tenant, now, e), events);
    mine := Of(env, mapping, rule.groupBy, key, counted);
    forall e ensures multiset(mine)[e] ==
              if Counted(env, rule, tenant, now, e) && BelongsTo(env, mapping, e.doc, rule.groupBy, key) then multiset(events)[e] else 0
    {
      FilterKeeps(e => Counted(env, rule, tenant, now, e), events, e);
      OfKeeps(env, mapping, rule.groupBy, key, counted, e);
    }
    keys := if rule.distinctField.Some? then DistinctKeys(env, mapping, rule.distinctField.value, mine) else {};
    if rule.distinctField.Some? {
      forall k ensures k in keys <==> exists e :: e in mine && k in KeysAt(env, mapping, e.doc, rule.distinctField.value) {
        DistinctMembers(env, mapping, rule.distinctField.value, mine, k);
      }
    }
  }

  /** An event belongs to the entity of a text on a keyword field exactly when it
      has that text there; on a number field, a value that reads as the number. */
  lemma BelongingMeans(env: Env, mapping: Mapping, doc: Value, f: Path, text: string, n: real)
    requires f in mapping
    ensures mapping[f].Keyword? ==>
              (BelongsTo(env, mapping, doc, [f], [TextKey(text)]) <==> exists v :: v in Leaves(doc, f) && TextOf(v) == text)
    ensures mapping[f].Number? ==>
              (BelongsTo(env, mapping, doc, [f], [NumberKey(n)]) <==> exists v :: v in Leaves(doc, f) && AsNumber(env, v) == Some(n))
  {
    var keys := KeysAt(env, mapping, doc, f);
    assert forall k :: BelongsTo(env, mapping, doc, [f], [k]) <==> k in keys by {
      forall k ensures BelongsTo(env, mapping, doc, [f], [k]) <==> k in keys { assert [k][0] == k && [f][0] == f; }
    }
  }

  // ----- the aggregation --------------------------------------------------

  datatype Bucket = Bucket(key: seq<Key>, observed: nat)

  predicate DistinctBuckets(all: seq<Bucket>) {
    forall i, j :: 0 <= i < j < |all| ==> all[i].key != all[j].key
  }

  /** What the store answers in total: one bucket for every entity some
      searched event belongs to, each with its exact count, in some order. */
  ghost predicate Aggregates(env: Env, mapping: Mapping, rule: Rule, found: seq<Event>, all: seq<Bucket>) {
    && DistinctBuckets(all)
    && (forall b :: b in all ==> b.observed == Observed(env, mapping, rule, Of(env, mapping, rule.groupBy, b.key, found)))
    && (forall key :: Of(env, mapping, rule.groupBy, key, found) != [] ==> exists b :: b in all && b.key == key)
  }

  /** The position just after a key. */
  function After(all: seq<Bucket>, key: seq<Key>): (n: nat)
    ensures n <= |all|
  {
    if all == [] then 0 else if all[0].key == key then 1 else 1 + After(all[1..], key)
  }

  /** One page: the buckets after a key, at most `size` of them. */
  function Page(all: seq<Bucket>, after: Option<seq<Key>>, size: nat): seq<Bucket> {
    var start := if after.None? then 0 else After(all, after.value);
    all[start..if start + size < |all| then start + size else |all|]
  }

  lemma {:induction false} AfterPosition(all: seq<Bucket>, i: nat)
    requires DistinctBuckets(all) && i < |all|
    ensures After(all, all[i].key) == i + 1
    decreases |all|
  {
    if i > 0 {
      assert all[0].key != all[i].key;
      AfterPosition(all[1..], i - 1);
    }
  }

  // ----- the collection loop ----------------------------------------------

  /** A reported entity, with the count that was compared with the threshold. */
  datatype Match = Match(entity: seq<Key>, observed: nat)

  /** Suppression: `Off`, or a store that grants or refuses each entity's claim. */
  datatype Suppression = Off | On(granted: seq<Key> -> bool)

  predicate Reports(rule: Rule, suppression: Suppression, b: Bucket) {
    b.observed >= rule.threshold && (suppression.On? ==> suppression.granted(b.key))
  }

  function MatchesOf(rule: Rule, suppression: Suppression, buckets: seq<Bucket>): seq<Match> {
    if buckets == [] then []
    else
      (if Reports(rule, suppression, buckets[0]) then [Match(buckets[0].key, buckets[0].observed)] else [])
      + MatchesOf(rule, suppression, buckets[1..])
  }

  lemma {:induction false} MatchesConcat(rule: Rule, suppression: Suppression, a: seq<Bucket>, b: seq<Bucket>)
    ensures MatchesOf(rule, suppression, a + b) == MatchesOf(rule, suppression, a) + MatchesOf(rule, suppression, b)
    decreases |a|
  {
    if a == [] {
      assert a + b == b;
    } else {
      assert (a + b)[1..] == a[1..] + b && (a + b)[0] == a[0];
      MatchesConcat(rule, suppression, a[1..], b);
      var first := if Reports(rule, suppression, a[0]) then [Match(a[0].key, a[0].observed)] else [];
      assert first + (MatchesOf(rule, suppression, a[1..]) + MatchesOf(rule, suppression, b))
          == first + MatchesOf(rule, suppression, a[1..]) + MatchesOf(rule, suppression, b);
    }
  }

  method BucketMatch(rule: Rule, suppression: Suppression, b: Bucket) returns (m: Option<Match>)
    ensures m == if Reports(rule, suppression, b) then Some(Match(b.key, b.observed)) else None
  {
    if b.observed < rule.threshold { return None; }
    if suppression.On? && !suppression.granted(b.key) { return None; }
    return Some(Match(b.key, b.observed));
  }

  method PageMatches(rule: Rule, suppression: Suppression, page: seq<Bucket>, before: seq<Match>) returns (matches: seq<Match>)
    ensures matches == before + MatchesOf(rule, suppression, page)
  {
    matches := before;
    for i := 0 to |page|
      invariant matches == before + MatchesOf(rule, suppression, page[..i])
    {
      assert page[..i + 1] == page[..i] + [page[i]];
      MatchesConcat(rule, suppression, page[..i], [page[i]]);
      var m := BucketMatch(rule, suppression, page[i]);
      if m.Some? { matches := matches + [m.value]; }
    }
    assert page[..|page|] == page;
  }

  /** After the first `seen` buckets comes the page that starts there. */
  lemma NextPage(rule: Rule, suppression: Suppression, all: seq<Bucket>, seen: nat, pageSize: nat)
    requires DistinctBuckets(all) && seen <= |all|
    ensures var page := Page(all, if seen == 0 then None else Some(all[seen - 1].key), pageSize);
            && |page| == (if seen + pageSize < |all| then pageSize else |all| - seen)
            && (page != [] ==> page[|page| - 1] == all[seen + |page| - 1])
            && MatchesOf(rule, suppression, all[..seen + |page|]) ==
               MatchesOf(rule, suppression, all[..seen]) + MatchesOf(rule, suppression, page)
  {
    PageStarts(all, seen, pageSize);
    NextMatches(rule, suppression, all, seen, if seen + pageSize < |all| then seen + pageSize else |all|);
  }

  lemma NextMatches(rule: Rule, suppression: Suppression, all: seq<Bucket>, seen: nat, stop: nat)
    requires seen <= stop <= |all|
    ensures MatchesOf(rule, suppression, all[..stop]) ==
            MatchesOf(rule, suppression, all[..seen]) + MatchesOf(rule, suppression, all[seen..stop])
  {
    assert all[..seen] + all[seen..stop] == all[..stop];
    MatchesConcat(rule, suppression, all[..seen], all[seen..stop]);
  }

  lemma PageStarts(all: seq<Bucket>, seen: nat, pageSize: nat)
    requires DistinctBuckets(all) && seen <= |all|
    ensures Page(all, if seen == 0 then None else Some(all[seen - 1].key), pageSize) ==
            all[seen..if seen + pageSize < |all| then seen + pageSize else |all|]
  {
    if seen > 0 { AfterPosition(all, seen - 1); }
  }

  /** Page through the buckets. Each is examined once, in order; the loop ends
      at the last bucket or on the page that reaches the cap. */
  method Collect(rule: Rule, suppression: Suppression, all: seq<Bucket>, pageSize: nat, maxBuckets: nat)
    returns (matches: seq<Match>, seen: nat)
    requires DistinctBuckets(all) && pageSize >= 1
    ensures seen <= |all| && matches == MatchesOf(rule, suppression, all[..seen])
    ensures seen == |all| || maxBuckets <= seen
    ensures seen < pageSize + if maxBuckets > 1 then maxBuckets else 1
  {
    matches, seen := [], 0;
    var after: Option<seq<Key>> := None;
    while true
      invariant seen <= |all| && (seen == 0 || seen < maxBuckets)
      invariant matches == MatchesOf(rule, suppression, all[..seen])
      invariant after == if seen == 0 then None else Some(all[seen - 1].key)
      decreases |all| - seen, 0
    {
      var page := Page(all, after, pageSize);
      NextPage(rule, suppression, all, seen, pageSize);
      matches := PageMatches(rule, suppression, page, matches);
      seen := seen + |page|;
      after := if page == [] then None else Some(page[|page| - 1].key);
      if after == None { return; }
      if seen >= maxBuckets { return; }
    }
  }

  lemma {:induction false} MatchesMembers(rule: Rule, suppression: Suppression, buckets: seq<Bucket>)
    ensures forall m :: m in MatchesOf(rule, suppression, buckets) <==>
              exists b :: b in buckets && Reports(rule, suppression, b) && m == Match(b.key, b.observed)
  {
    if buckets != [] {
      MatchesMembers(rule, suppression, buckets[1..]);
      assert forall b :: b in buckets <==> b == buckets[0] || b in buckets[1..];
    }
  }

  /** Windowed evaluation refines the naive count: when the cap is not in the
      way, an entity is reported exactly when its naive count reaches the
      threshold and its claim is granted, and it is reported with that count. */
  lemma WindowedRefinesNaive(env: Env, mapping: Mapping, rule: Rule, tenant: string, now: int, events: seq<Event>,
                             all: seq<Bucket>, suppression: Suppression, key: seq<Key>, n: nat)
    requires Comparable(env, mapping, rule, events) && rule.threshold >= 1
    requires Aggregates(env, mapping, rule, Filter(e => Searched(env, mapping, rule, tenant, now, e), events), all)
    ensures Match(key, n) in MatchesOf(rule, suppression, all) <==>
            && n == NaiveObserved(env, mapping, rule, tenant, now, events, key)
            && n >= rule.threshold
            && (suppression.On? ==> suppression.granted(key))
  {
    var searched, counted := e => Searched(env, mapping, rule, tenant, now, e), e => Counted(env, rule, tenant, now, e);
    forall e | e in events ensures searched(e) == counted(e) {
      SearchedIsCounted(env, mapping, rule, tenant, now, events, e);
    }
    FilterSame(searched, counted, events);
    var mine := Of(env, mapping, rule.groupBy, key, Filter(searched, events));
    assert NaiveObserved(env, mapping, rule, tenant, now, events, key) == Observed(env, mapping, rule, mine);
    MatchesMembers(rule, suppression, all);
    if mine == [] {
      assert Observed(env, mapping, rule, mine) == 0;
    } else {
      var b :| b in all && b.key == key;
    }
  }

  /** One scheduled run of a windowed rule: nothing for a disabled rule,
      otherwise the naive verdict on every entity, as long as there are no more
      entities than the bucket cap. */
  method Run(env: Env, mapping: Mapping, rule: Rule, disabled: bool, tenant: string, now: int, ghost events: seq<Event>,
             all: seq<Bucket>, suppression: Suppression, pageSize: nat, maxBuckets: nat)
    returns (matches: seq<Match>)
    requires Comparable(env, mapping, rule, events) && rule.threshold >= 1 && pageSize >= 1
    requires Aggregates(env, mapping, rule, Filter(e => Searched(env, mapping, rule, tenant, now, e), events), all)
    ensures disabled ==> matches == []
    ensures !disabled && |all| <= maxBuckets ==>
              forall key, n: nat :: Match(key, n) in matches <==>
                && n == NaiveObserved(env, mapping, rule, tenant, now, events, key)
                && n >= rule.threshold
                && (suppression.On? ==> suppression.granted(key))
  {
    if disabled { return []; }
    var seen;
    matches, seen := Collect(rule, suppression, all, pageSize, maxBuckets);
    if |all| <= maxBuckets {
      assert all[..seen] == all;
      forall key, n: nat
        ensures Match(key, n) in matches <==>
                  && n == NaiveObserved(env, mapping, rule, tenant, now, events, key)
                  && n >= rule.threshold
                  && (suppression.On? ==> suppression.granted(key))
      {
        WindowedRefinesNaive(env, mapping, rule, tenant, now, events, all, suppression, key, n);
      }
    }
  }
}
