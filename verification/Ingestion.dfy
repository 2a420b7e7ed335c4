/** The ingestion funnel: rate limit, validation, idempotency claim, publishing
    and dead-lettering over a store whose keys expire. What it does is proved
    equal to a reference that looks at nothing but the history of calls. */
module Ingestion {
  import opened Text

  newtype Byte = x: int | 0 <= x < 256

  /** Times and lifetimes are in milliseconds. */
  const MINUTE: nat := 60_000
  const COUNTER_LIFE: nat := 120_000

  datatype Event = Event(tenant: nat, key: string, payload: seq<Byte>)

  datatype Reason = PayloadTooLarge | EmptyPayload | PublishFailed

  datatype Outcome = Accepted | Duplicate | RateLimited | DeadLettered(reason: Reason) | Dropped(reason: Reason)

  /** One call: the event, the clock, and whether the bus would take the event
      on its topic and on the dead-letter topic. */
  datatype Call = Call(event: Event, at: int, publishes: bool, deadLetters: bool)

  datatype Config = Config(limit: nat, maxBytes: nat, ttl: nat)

  /** A tenant's minute. */
  datatype Slot = Slot(tenant: nat, window: int)

  datatype Counter = Counter(count: nat, expires: int)

  datatype DeadLetter = DeadLetter(event: Event, reason: Reason)

  datatype State = State(
    counters: map<Slot, Counter>, claims: map<string, int>,
    bus: seq<Event>, deadLetters: seq<DeadLetter>, dropped: nat)

  const EMPTY := State(map[], map[], [], [], 0)

  function SlotOf(c: Call): Slot {
    Slot(c.event.tenant, c.at / MINUTE)
  }

  // ----- the store --------------------------------------------------------

  /** An expired counter reads as absent. */
  function Count(counters: map<Slot, Counter>, slot: Slot, now: int): nat {
    if slot in counters && now < counters[slot].expires then counters[slot].count else 0
  }

  /** Increment, and give the key a lifetime when the increment created it. */
  function Incremented(counters: map<Slot, Counter>, slot: Slot, now: int): map<Slot, Counter> {
    var count := Count(counters, slot, now) + 1;
    counters[slot := Counter(count, if count == 1 then now + COUNTER_LIFE else counters[slot].expires)]
  }

  predicate Live(claims: map<string, int>, key: string, now: int) {
    key in claims && now < claims[key]
  }

  // ----- one call ---------------------------------------------------------

  function Validate(cfg: Config, e: Event): Option<Reason> {
    if e.payload == [] then Some(EmptyPayload)
    else if |e.payload| > cfg.maxBytes then Some(PayloadTooLarge)
    else None
  }

  function Refused(c: Call, reason: Reason): Outcome {
    if c.deadLetters then DeadLettered(reason) else Dropped(reason)
  }

  /** What a call leaves behind on the bus, given how it ended. */
  function Recorded(st: State, c: Call, o: Outcome): State {
    match o
    case Accepted => st.(bus := st.bus + [c.event])
    case DeadLettered(reason) => st.(deadLetters := st.deadLetters + [DeadLetter(c.event, reason)])
    case Dropped(_) => st.(dropped := st.dropped + 1)
    case _ => st
  }

  function Decided(cfg: Config, st: State, c: Call): Outcome {
    if Count(st.counters, SlotOf(c), c.at) + 1 > cfg.limit then RateLimited
    else if Validate(cfg, c.event).Some? then Refused(c, Validate(cfg, c.event).value)
    else if Live(st.claims, c.event.key, c.at) then Duplicate
    else if c.publishes then Accepted
    else Refused(c, PublishFailed)
  }

  /** The claim is taken before publishing and given back if that fails. */
  function ClaimsAfter(cfg: Config, claims: map<string, int>, c: Call, o: Outcome): map<string, int> {
    if o.Accepted? then claims[c.event.key := c.at + cfg.ttl]
    else if o == Refused(c, PublishFailed) then claims - {c.event.key}
    else claims
  }

  function Ingest(cfg: Config, st: State, c: Call): State {
    var o := Decided(cfg, st, c);
    Recorded(st.(counters := Incremented(st.counters, SlotOf(c), c.at), claims := ClaimsAfter(cfg, st.claims, c, o)), c, o)
  }

  // ----- the reference: history and nothing else ----------------------------

  datatype Record = Record(call: Call, outcome: Outcome)

  /** How many calls a tenant made in a minute. */
  function Calls(history: seq<Record>, slot: Slot): nat {
    if history == [] then 0
    else Calls(history[..|history| - 1], slot) + if SlotOf(history[|history| - 1].call) == slot then 1 else 0
  }

  predicate Covers(r: Record, key: string, now: int, ttl: nat) {
    r.outcome.Accepted? && r.call.event.key == key && now < r.call.at + ttl
  }

  /** The event was published within the last `ttl`. */
  predicate Published(history: seq<Record>, key: string, now: int, ttl: nat) {
    exists j :: 0 <= j < |history| && Covers(history[j], key, now, ttl)
  }

  function Verdict(cfg: Config, history: seq<Record>, c: Call): Outcome {
    if Calls(history, SlotOf(c)) >= cfg.limit then RateLimited
    else if c.event.payload == [] then Refused(c, EmptyPayload)
    else if |c.event.payload| > cfg.maxBytes then Refused(c, PayloadTooLarge)
    else if Published(history, c.event.key, c.at, cfg.ttl) then Duplicate
    else if c.publishes then Accepted
    else Refused(c, PublishFailed)
  }

  function Reference(cfg: Config, calls: seq<Call>): (history: seq<Record>)
    ensures |history| == |calls|
  {
    if calls == [] then []
    else
      var n := |calls| - 1;
      var before := Reference(cfg, calls[..n]);
      before + [Record(calls[n], Verdict(cfg, before, calls[n]))]
  }

  /** What a history puts on the bus, on the dead-letter topic and in the loss
      counter. */
  function OnBus(history: seq<Record>): seq<Event> {
    if history == [] then []
    else
      var r := history[|history| - 1];
      OnBus(history[..|history| - 1]) + if r.outcome.Accepted? then [r.call.event] else []
  }

  function OnDeadLetters(history: seq<Record>): seq<DeadLetter> {
    if history == [] then []
    else
      var r := history[|history| - 1];
      OnDeadLetters(history[..|history| - 1]) + if r.outcome.DeadLettered? then [DeadLetter(r.call.event, r.outcome.reason)] else []
  }

  function Lost(history: seq<Record>): nat {
    if history == [] then 0
    else Lost(history[..|history| - 1]) + if history[|history| - 1].outcome.Dropped? then 1 else 0
  }

  // ----- the store agrees with the history ---------------------------------

  /** A counter outlives its own minute and has counted every call in it. */
  predicate CounterAgrees(counters: map<Slot, Counter>, history: seq<Record>, slot: Slot) {
    if slot in counters
    then counters[slot].count == Calls(history, slot) > 0 && counters[slot].expires >= (slot.window + 1) * MINUTE
    else Calls(history, slot) == 0
  }

  ghost predicate CountersAgree(counters: map<Slot, Counter>, history: seq<Record>) {
    forall slot :: CounterAgrees(counters, history, slot)
  }

  /** From now on, a key is claimed exactly while it was recently published. */
  ghost predicate ClaimsAgree(cfg: Config, claims: map<string, int>, history: seq<Record>, now: int) {
    forall key, t :: t >= now ==> (Live(claims, key, t) <==> Published(history, key, t, cfg.ttl))
  }

  ghost predicate Inv(cfg: Config, st: State, history: seq<Record>, now: int) {
    && CountersAgree(st.counters, history)
    && ClaimsAgree(cfg, st.claims, history, now)
    && st.bus == OnBus(history) && st.deadLetters == OnDeadLetters(history) && st.dropped == Lost(history)
  }

  lemma CallsSnoc(history: seq<Record>, r: Record, slot: Slot)
    ensures Calls(history + [r], slot) == Calls(history, slot) + if SlotOf(r.call) == slot then 1 else 0
  {
    assert (history + [r])[..|history|] == history;
  }

  /** The key cannot expire inside its own minute, so nothing is forgotten. */
  lemma CountIsCalls(counters: map<Slot, Counter>, history: seq<Record>, c: Call)
    requires CounterAgrees(counters, history, SlotOf(c))
    ensures Count(counters, SlotOf(c), c.at) == Calls(history, SlotOf(c))
  {
    assert c.at < (c.at / MINUTE + 1) * MINUTE;
  }

  lemma CounterKept(counters: map<Slot, Counter>, history: seq<Record>, r: Record, slot: Slot)
    requires CounterAgrees(counters, history, slot)
    ensures CounterAgrees(Incremented(counters, SlotOf(r.call), r.call.at), history + [r], slot)
  {
    CallsSnoc(history, r, slot);
    if slot == SlotOf(r.call) {
      CountIsCalls(counters, history, r.call);
      assert r.call.at + COUNTER_LIFE >= (slot.window + 1) * MINUTE;
    }
  }

  lemma PublishedSnoc(history: seq<Record>, r: Record, key: string, now: int, ttl: nat)
    ensures Published(history + [r], key, now, ttl) <==> Published(history, key, now, ttl) || Covers(r, key, now, ttl)
  {
    var longer := history + [r];
    if Published(history, key, now, ttl) {
      var j :| 0 <= j < |history| && Covers(history[j], key, now, ttl);
      assert Covers(longer[j], key, now, ttl);
    }
    if Covers(r, key, now, ttl) { assert Covers(longer[|history|], key, now, ttl); }
  }

  /** A publication only ever drops out of reach. */
  lemma PublishedFades(history: seq<Record>, key: string, now: int, later: int, ttl: nat)
    requires now <= later && Published(history, key, later, ttl)
    ensures Published(history, key, now, ttl)
  {
    var j :| 0 <= j < |history| && Covers(history[j], key, later, ttl);
    assert Covers(history[j], key, now, ttl);
  }

  lemma ClaimKept(cfg: Config, claims: map<string, int>, history: seq<Record>, now: int, r: Record, key: string, t: int)
    requires ClaimsAgree(cfg, claims, history, now) && now <= r.call.at <= t
    requires r.outcome.Accepted? || r.outcome == Refused(r.call, PublishFailed) ==> !Live(claims, r.call.event.key, r.call.at)
    ensures Live(ClaimsAfter(cfg, claims, r.call, r.outcome), key, t) <==> Published(history + [r], key, t, cfg.ttl)
  {
    PublishedSnoc(history, r, key, t, cfg.ttl);
    assert Live(claims, key, t) <==> Published(history, key, t, cfg.ttl);
    if key == r.call.event.key && Published(history, key, t, cfg.ttl) {
      PublishedFades(history, key, r.call.at, t, cfg.ttl);
      assert Live(claims, key, r.call.at);
    }
  }

  /** The store decides as the history does. */
  lemma DecidedIsVerdict(cfg: Config, st: State, history: seq<Record>, now: int, c: Call)
    requires Inv(cfg, st, history, now) && now <= c.at
    ensures Decided(cfg, st, c) == Verdict(cfg, history, c)
  {
    assert CounterAgrees(st.counters, history, SlotOf(c));
    CountIsCalls(st.counters, history, c);
    assert Live(st.claims, c.event.key, c.at) <==> Published(history, c.event.key, c.at, cfg.ttl);
  }

  lemma RecordedKept(st: State, history: seq<Record>, r: Record)
    requires st.bus == OnBus(history) && st.deadLetters == OnDeadLetters(history) && st.dropped == Lost(history)
    ensures var st' := Recorded(st, r.call, r.outcome); var history' := history + [r];
            st'.bus == OnBus(history') && st'.deadLetters == OnDeadLetters(history') && st'.dropped == Lost(history')
  {
    assert (history + [r])[..|history|] == history;
  }

  /** Every call keeps store and history in agreement, whatever the bus does. */
  lemma IngestKeeps(cfg: Config, st: State, history: seq<Record>, now: int, c: Call)
    requires Inv(cfg, st, history, now) && now <= c.at
    ensures Inv(cfg, Ingest(cfg, st, c), history + [Record(c, Verdict(cfg, history, c))], c.at)
  {
    DecidedIsVerdict(cfg, st, history, now, c);
    var o := Decided(cfg, st, c);
    var r := Record(c, o);
    var counters, claims := Incremented(st.counters, SlotOf(c), c.at), ClaimsAfter(cfg, st.claims, c, o);
    forall slot ensures CounterAgrees(counters, history + [r], slot) {
      assert CounterAgrees(st.counters, history, slot);
      CounterKept(st.counters, history, r, slot);
    }
    forall key, t | t >= c.at ensures Live(claims, key, t) <==> Published(history + [r], key, t, cfg.ttl) {
      ClaimKept(cfg, st.claims, history, now, r, key, t);
    }
    RecordedKept(st.(counters := counters, claims := claims), history, r);
  }

  // ----- every serial run -------------------------------------------------

  function Run(cfg: Config, calls: seq<Call>): State {
    if calls == [] then EMPTY else Ingest(cfg, Run(cfg, calls[..|calls| - 1]), calls[|calls| - 1])
  }

  /** The clock does not go back. */
  predicate Ordered(calls: seq<Call>) {
    forall i, j :: 0 <= i < j < |calls| ==> calls[i].at <= calls[j].at
  }

  lemma {:induction false} RunAgrees(cfg: Config, calls: seq<Call>)
    requires Ordered(calls)
    ensures calls == [] ==> forall now :: Inv(cfg, EMPTY, [], now)
    ensures calls != [] ==> Inv(cfg, Run(cfg, calls), Reference(cfg, calls), calls[|calls| - 1].at)
  {
    if calls == [] {
      return;
    }
    var n := |calls| - 1;
    RunAgrees(cfg, calls[..n]);
    var now := if n == 0 then calls[0].at else calls[n - 1].at;
    IngestKeeps(cfg, Run(cfg, calls[..n]), Reference(cfg, calls[..n]), now, calls[n]);
  }

  /** What the store answered, call by call. */
  function Answers(cfg: Config, calls: seq<Call>): (history: seq<Record>)
    ensures |history| == |calls|
  {
    if calls == [] then []
    else
      var n := |calls| - 1;
      Answers(cfg, calls[..n]) + [Record(calls[n], Decided(cfg, Run(cfg, calls[..n]), calls[n]))]
  }

  lemma {:induction false} AnswersAt(cfg: Config, calls: seq<Call>, i: nat)
    requires i < |calls|
    ensures Answers(cfg, calls)[..i] == Answers(cfg, calls[..i])
    ensures Answers(cfg, calls)[i] == Record(calls[i], Decided(cfg, Run(cfg, calls[..i]), calls[i]))
  {
    var n := |calls| - 1;
    var before, last := Answers(cfg, calls[..n]), Record(calls[n], Decided(cfg, Run(cfg, calls[..n]), calls[n]));
    SnocAt(before, last, i);
    if i < n {
      AnswersAt(cfg, calls[..n], i);
      assert calls[..n][..i] == calls[..i] && calls[..n][i] == calls[i];
    }
  }

  lemma SnocAt<T>(s: seq<T>, x: T, i: nat)
    requires i <= |s|
    ensures (s + [x])[..i] == s[..i] && (s + [x])[i] == if i < |s| then s[i] else x
  {
  }

  /** The bus, the dead-letter topic and the loss counter hold exactly what was
      answered, in order. */
  lemma {:induction false} TopicsFollow(cfg: Config, calls: seq<Call>)
    ensures var st, history := Run(cfg, calls), Answers(cfg, calls);
            st.bus == OnBus(history) && st.deadLetters == OnDeadLetters(history) && st.dropped == Lost(history)
  {
    if calls != [] {
      var n := |calls| - 1;
      TopicsFollow(cfg, calls[..n]);
      var st, c := Run(cfg, calls[..n]), calls[n];
      var o := Decided(cfg, st, c);
      var st' := st.(counters := Incremented(st.counters, SlotOf(c), c.at), claims := ClaimsAfter(cfg, st.claims, c, o));
      RecordedKept(st', Answers(cfg, calls[..n]), Record(c, o));
    }
  }

  /** The store, with its expiring keys, answers every call of a run as the
      reference does with the whole history. */
  lemma {:induction false} StoreRefinesHistory(cfg: Config, calls: seq<Call>)
    requires Ordered(calls)
    ensures Answers(cfg, calls) == Reference(cfg, calls)
  {
    if calls != [] {
      var n := |calls| - 1;
      StoreRefinesHistory(cfg, calls[..n]);
      RunAgrees(cfg, calls[..n]);
      var now := if n == 0 then calls[0].at else calls[n - 1].at;
      DecidedIsVerdict(cfg, Run(cfg, calls[..n]), Reference(cfg, calls[..n]), now, calls[n]);
    }
  }

  // ----- the rate limit, under any clock ------------------------------------

  function Min(a: nat, b: nat): nat { if a <= b then a else b }

  function Admitted(history: seq<Record>, slot: Slot): nat {
    if history == [] then 0
    else
      var r := history[|history| - 1];
      Admitted(history[..|history| - 1], slot) + if SlotOf(r.call) == slot && !r.outcome.RateLimited? then 1 else 0
  }

  /** The counters of a run have counted its calls, even if the clock jumps. */
  lemma {:induction false} CountersFollow(cfg: Config, calls: seq<Call>, slot: Slot)
    ensures CounterAgrees(Run(cfg, calls).counters, Answers(cfg, calls), slot)
  {
    if calls != [] {
      var n := |calls| - 1;
      var before := Answers(cfg, calls[..n]);
      var st := Run(cfg, calls[..n]);
      CountersFollow(cfg, calls[..n], slot);
      CounterKept(st.counters, before, Record(calls[n], Decided(cfg, st, calls[n])), slot);
    }
  }

  /** A call is turned away exactly when the tenant has made `limit` calls in
      that minute before. */
  lemma LimitedExactly(cfg: Config, calls: seq<Call>, c: Call)
    ensures Decided(cfg, Run(cfg, calls), c).RateLimited? <==> Calls(Answers(cfg, calls), SlotOf(c)) >= cfg.limit
  {
    CountersFollow(cfg, calls, SlotOf(c));
    CountIsCalls(Run(cfg, calls).counters, Answers(cfg, calls), c);
  }

  /** Of a tenant's calls in one minute, exactly min(calls, limit) get through,
      whatever the clock does between them. */
  lemma {:induction false} AdmitsExactly(cfg: Config, calls: seq<Call>, slot: Slot)
    ensures Admitted(Answers(cfg, calls), slot) == Min(Calls(Answers(cfg, calls), slot), cfg.limit)
  {
    if calls != [] {
      var n := |calls| - 1;
      AdmitsExactly(cfg, calls[..n], slot);
      LimitedExactly(cfg, calls[..n], calls[n]);
      assert Answers(cfg, calls)[..n] == Answers(cfg, calls[..n]);
    }
  }

  /** A tenant's admitted calls in the sixty seconds from `from`, both ends
      included. */
  function AdmittedFrom(history: seq<Record>, tenant: nat, from: int): nat {
    if history == [] then 0
    else
      var r := history[|history| - 1];
      AdmittedFrom(history[..|history| - 1], tenant, from)
      + if r.call.event.tenant == tenant && from <= r.call.at <= from + MINUTE && !r.outcome.RateLimited? then 1 else 0
  }

  lemma {:induction false} IntervalSplits(history: seq<Record>, tenant: nat, from: int)
    ensures var w := from / MINUTE;
            AdmittedFrom(history, tenant, from) <= Admitted(history, Slot(tenant, w)) + Admitted(history, Slot(tenant, w + 1))
  {
    if history != [] {
      var n := |history| - 1;
      IntervalSplits(history[..n], tenant, from);
      var at := history[n].call.at;
    }
  }

  /** No interval of sixty seconds, wherever it starts, sees more than twice
      the limit. */
  lemma AtMostTwice(cfg: Config, calls: seq<Call>, tenant: nat, from: int)
    ensures AdmittedFrom(Answers(cfg, calls), tenant, from) <= 2 * cfg.limit
  {
    IntervalSplits(Answers(cfg, calls), tenant, from);
    AdmitsExactly(cfg, calls, Slot(tenant, from / MINUTE));
    AdmitsExactly(cfg, calls, Slot(tenant, from / MINUTE + 1));
  }

  /** `limit` calls just before a minute turns and `limit` just after, each with
      a key and a payload of its own. */
  function Burst(limit: nat, n: nat): (calls: seq<Call>)
    ensures |calls| == n && forall i :: 0 <= i < n ==>
              && calls[i].event == Event(0, Padded("", i), [0]) && calls[i].publishes
              && calls[i].at == if i < limit then MINUTE - 1 else MINUTE
  {
    seq(n, i requires 0 <= i => Call(Event(0, Padded("", i), [0]), if i < limit then MINUTE - 1 else MINUTE, true, true))
  }

  predicate AllAdmitted(limit: nat, history: seq<Record>) {
    var n := |history|;
    && Calls(history, Slot(0, 0)) == Min(n, limit) && Calls(history, Slot(0, 1)) == n - Min(n, limit)
    && AdmittedFrom(history, 0, MINUTE - 1) == n
  }

  lemma BurstStep(limit: nat, history: seq<Record>, r: Record)
    requires AllAdmitted(limit, history) && r.call.event.tenant == 0 && !r.outcome.RateLimited?
    requires r.call.at == if |history| < limit then MINUTE - 1 else MINUTE
    ensures AllAdmitted(limit, history + [r])
  {
    assert SlotOf(r.call) == if |history| < limit then Slot(0, 0) else Slot(0, 1);
    CallsSnoc(history, r, Slot(0, 0));
    CallsSnoc(history, r, Slot(0, 1));
    assert (history + [r])[..|history|] == history;
  }

  lemma BurstPasses(cfg: Config, history: seq<Record>, c: Call)
    requires AllAdmitted(cfg.limit, history) && |history| < 2 * cfg.limit && c.event.tenant == 0
    requires c.at == if |history| < cfg.limit then MINUTE - 1 else MINUTE
    ensures Calls(history, SlotOf(c)) < cfg.limit
  {
    assert SlotOf(c) == if |history| < cfg.limit then Slot(0, 0) else Slot(0, 1);
  }

  lemma {:induction false} BurstAdmitted(cfg: Config, n: nat)
    requires n <= 2 * cfg.limit
    ensures AllAdmitted(cfg.limit, Answers(cfg, Burst(cfg.limit, n)))
  {
    if n > 0 {
      BurstAdmitted(cfg, n - 1);
      var calls := Burst(cfg.limit, n);
      assert calls[..n - 1] == Burst(cfg.limit, n - 1);
      var before := Answers(cfg, calls[..n - 1]);
      BurstPasses(cfg, before, calls[n - 1]);
      LimitedExactly(cfg, calls[..n - 1], calls[n - 1]);
      BurstStep(cfg.limit, before, Record(calls[n - 1], Decided(cfg, Run(cfg, calls[..n - 1]), calls[n - 1])));
    }
  }

  /** Twice the limit is admitted, for every limit. */
  lemma TwiceIsAdmitted(cfg: Config)
    ensures exists calls, from :: Ordered(calls) && AdmittedFrom(Answers(cfg, calls), 0, from) == 2 * cfg.limit
  {
    var calls := Burst(cfg.limit, 2 * cfg.limit);
    BurstAdmitted(cfg, 2 * cfg.limit);
    assert Ordered(calls) && AdmittedFrom(Answers(cfg, calls), 0, MINUTE - 1) == 2 * cfg.limit;
  }

  // ----- duplicates -------------------------------------------------------

  /** The claim a call meets is there exactly if the key was published less than
      a TTL before. */
  lemma ClaimMeansPublished(cfg: Config, calls: seq<Call>, i: nat)
    requires Ordered(calls) && i < |calls|
    ensures var key, at := calls[i].event.key, calls[i].at;
            Live(Run(cfg, calls[..i]).claims, key, at) <==> Published(Answers(cfg, calls)[..i], key, at, cfg.ttl)
  {
    AnswersAt(cfg, calls, i);
    RunAgrees(cfg, calls[..i]);
    StoreRefinesHistory(cfg, calls[..i]);
    var now := if i == 0 then calls[i].at else calls[i - 1].at;
    assert ClaimsAgree(cfg, Run(cfg, calls[..i]).claims, Reference(cfg, calls[..i]), now);
  }

  /** The store answers DUPLICATE exactly when the call passed limit and
      validation and the same key was published less than a TTL before. */
  lemma DuplicateExactly(cfg: Config, calls: seq<Call>, i: nat)
    requires Ordered(calls) && i < |calls|
    ensures var history := Answers(cfg, calls); var c := calls[i];
            history[i].outcome.Duplicate? <==>
            && Calls(history[..i], SlotOf(c)) < cfg.limit && Validate(cfg, c.event).None?
            && exists j :: 0 <= j < i && Covers(history[j], c.event.key, c.at, cfg.ttl)
  {
    AnswersAt(cfg, calls, i);
    LimitedExactly(cfg, calls[..i], calls[i]);
    ClaimMeansPublished(cfg, calls, i);
    PublishedBefore(Answers(cfg, calls), i, calls[i].event.key, calls[i].at, cfg.ttl);
  }

  lemma PublishedBefore(history: seq<Record>, i: nat, key: string, at: int, ttl: nat)
    requires i <= |history|
    ensures Published(history[..i], key, at, ttl) <==> exists j :: 0 <= j < i && Covers(history[j], key, at, ttl)
  {
    if j :| 0 <= j < |history[..i]| && Covers(history[..i][j], key, at, ttl) {
      assert Covers(history[j], key, at, ttl);
    }
    if j :| 0 <= j < i && Covers(history[j], key, at, ttl) {
      assert Covers(history[..i][j], key, at, ttl);
    }
  }

  /** Two publications of one key are at least a TTL apart. */
  lemma PublicationsAreApart(cfg: Config, calls: seq<Call>, i: nat, j: nat)
    requires Ordered(calls) && i < j < |calls| && calls[i].event.key == calls[j].event.key
    requires Answers(cfg, calls)[i].outcome.Accepted? && Answers(cfg, calls)[j].outcome.Accepted?
    ensures calls[j].at >= calls[i].at + cfg.ttl
  {
    AnswersAt(cfg, calls, i);
    AnswersAt(cfg, calls, j);
    ClaimMeansPublished(cfg, calls, j);
    PublishedBefore(Answers(cfg, calls), j, calls[j].event.key, calls[j].at, cfg.ttl);
    assert calls[j].at < calls[i].at + cfg.ttl ==> Covers(Answers(cfg, calls)[i], calls[j].event.key, calls[j].at, cfg.ttl);
  }

  /** A failed publication makes nothing a duplicate: if a later call with the
      key is answered DUPLICATE, the key was published in between. */
  lemma RetryIsNotDuplicate(cfg: Config, calls: seq<Call>, i: nat, j: nat) returns (k: nat)
    requires Ordered(calls) && i < j < |calls| && calls[i].event.key == calls[j].event.key
    requires Answers(cfg, calls)[i].outcome == Refused(calls[i], PublishFailed) && Answers(cfg, calls)[j].outcome.Duplicate?
    ensures i < k < j && Covers(Answers(cfg, calls)[k], calls[j].event.key, calls[j].at, cfg.ttl)
  {
    var history, key := Answers(cfg, calls), calls[i].event.key;
    AnswersAt(cfg, calls, i);
    ClaimMeansPublished(cfg, calls, i);
    DuplicateExactly(cfg, calls, j);
    k :| 0 <= k < j && Covers(history[k], key, calls[j].at, cfg.ttl);
    if k < i {
      assert Covers(history[k], key, calls[i].at, cfg.ttl);
      PublishedBefore(history, i, key, calls[i].at, cfg.ttl);
      assert false;
    }
  }

  // ----- the limit is reached by publications -------------------------------

  /** A tenant's publications in the sixty seconds from `from`, both ends
      included. */
  function PublishedFrom(history: seq<Record>, tenant: nat, from: int): nat {
    if history == [] then 0
    else
      var r := history[|history| - 1];
      PublishedFrom(history[..|history| - 1], tenant, from)
      + if r.call.event.tenant == tenant && from <= r.call.at <= from + MINUTE && r.outcome.Accepted? then 1 else 0
  }

  lemma {:induction false} BurstPublished(cfg: Config, i: nat)
    requires cfg.maxBytes >= 1 && i < 2 * cfg.limit
    ensures Answers(cfg, Burst(cfg.limit, 2 * cfg.limit))[i].outcome.Accepted?
  {
    var calls := Burst(cfg.limit, 2 * cfg.limit);
    var history := Answers(cfg, calls);
    AnswersAt(cfg, calls, i);
    assert calls[..i] == Burst(cfg.limit, i);
    BurstAdmitted(cfg, i);
    BurstPasses(cfg, Answers(cfg, calls[..i]), calls[i]);
    LimitedExactly(cfg, calls[..i], calls[i]);
    forall j | 0 <= j < i ensures !Covers(history[j], calls[i].event.key, calls[i].at, cfg.ttl) {
      AnswersAt(cfg, calls, j);
      assert |calls[j].event.key| != |calls[i].event.key|;
    }
    DuplicateExactly(cfg, calls, i);
  }

  lemma {:induction false} AllPublished(history: seq<Record>, from: int)
    requires forall i :: 0 <= i < |history| ==>
               history[i].outcome.Accepted? && history[i].call.event.tenant == 0 && from <= history[i].call.at <= from + MINUTE
    ensures PublishedFrom(history, 0, from) == |history|
  {
    if history != [] { AllPublished(history[..|history| - 1], from); }
  }

  /** Twice the limit is reached by events that are all published, for every
      limit. */
  lemma TwiceIsReached(cfg: Config)
    requires cfg.maxBytes >= 1
    ensures exists calls, from :: Ordered(calls) && PublishedFrom(Answers(cfg, calls), 0, from) == 2 * cfg.limit
  {
    var calls := Burst(cfg.limit, 2 * cfg.limit);
    var history := Answers(cfg, calls);
    forall i | 0 <= i < |history|
      ensures history[i].outcome.Accepted? && history[i].call.event.tenant == 0 && MINUTE - 1 <= history[i].call.at <= MINUTE - 1 + MINUTE
    {
      AnswersAt(cfg, calls, i);
      BurstPublished(cfg, i);
    }
    AllPublished(history, MINUTE - 1);
    assert Ordered(calls) && PublishedFrom(Answers(cfg, calls), 0, MINUTE - 1) == 2 * cfg.limit;
  }

  // ----- nothing vanishes -------------------------------------------------

  function Turned(history: seq<Record>): nat {
    if history == [] then 0
    else
      var o := history[|history| - 1].outcome;
      Turned(history[..|history| - 1]) + if o.RateLimited? || o.Duplicate? then 1 else 0
  }

  lemma {:induction false} HistoryConserves(history: seq<Record>)
    ensures |OnBus(history)| + |OnDeadLetters(history)| + Lost(history) + Turned(history) == |history|
  {
    if history != [] { HistoryConserves(history[..|history| - 1]); }
  }

  /** Every call is on the bus, dead-lettered, counted as lost, or was turned
      away with a verdict; and nothing else is anywhere. */
  lemma Conservation(cfg: Config, calls: seq<Call>)
    ensures var st := Run(cfg, calls);
            |st.bus| + |st.deadLetters| + st.dropped + Turned(Answers(cfg, calls)) == |calls|
  {
    TopicsFollow(cfg, calls);
    HistoryConserves(Answers(cfg, calls));
  }

  // ----- the answers, one by one --------------------------------------------

  /** A window is a minute of the clock: sixty thousand milliseconds. */
  lemma WindowIsAMinute(c: Call)
    ensures 60_000 * SlotOf(c).window <= c.at < 60_000 * (SlotOf(c).window + 1) && SlotOf(c).tenant == c.event.tenant
  {
  }

  /** A counter lives for two minutes from the call that created it. */
  lemma CounterLivesTwoMinutes(counters: map<Slot, Counter>, slot: Slot, now: int)
    ensures var c := Incremented(counters, slot, now)[slot];
            if slot !in counters || counters[slot].expires <= now then c == Counter(1, now + 120_000)
            else c.count == counters[slot].count + 1 && (counters[slot].count > 0 ==> c.expires == counters[slot].expires)
  {
  }

  /** The answers, in the order they are considered: over the limit; nothing in
      the payload; too much in it; published a short while ago; published now;
      and refusals for which the dead-letter topic decides how they end. */
  lemma AnswersMean(cfg: Config, calls: seq<Call>, i: nat)
    requires Ordered(calls) && i < |calls|
    ensures var history := Answers(cfg, calls); var c, o := calls[i], history[i].outcome;
            var recent := exists j :: 0 <= j < i && history[j].outcome == Accepted
                            && history[j].call.event.key == c.event.key && c.at < history[j].call.at + cfg.ttl;
            if Calls(history[..i], SlotOf(c)) >= cfg.limit then o == RateLimited
            else if |c.event.payload| == 0 then o == (if c.deadLetters then DeadLettered(EmptyPayload) else Dropped(EmptyPayload))
            else if |c.event.payload| > cfg.maxBytes then o == (if c.deadLetters then DeadLettered(PayloadTooLarge) else Dropped(PayloadTooLarge))
            else if recent then o == Duplicate
            else if c.publishes then o == Accepted
            else o == (if c.deadLetters then DeadLettered(PublishFailed) else Dropped(PublishFailed))
  {
    AnswersAt(cfg, calls, i);
    LimitedExactly(cfg, calls[..i], calls[i]);
    ClaimMeansPublished(cfg, calls, i);
    var history, c := Answers(cfg, calls), calls[i];
    PublishedBefore(history, i, c.event.key, c.at, cfg.ttl);
    assert forall j :: 0 <= j < i ==>
      (Covers(history[j], c.event.key, c.at, cfg.ttl) <==>
       history[j].outcome == Accepted && history[j].call.event.key == c.event.key && c.at < history[j].call.at + cfg.ttl);
  }

  /** What is on the bus was accepted and what is dead-lettered was answered so. */
  lemma {:induction false} TopicsMean(history: seq<Record>, e: Event, reason: Reason)
    ensures e in OnBus(history) <==> exists i :: 0 <= i < |history| && history[i].outcome == Accepted && history[i].call.event == e
    ensures DeadLetter(e, reason) in OnDeadLetters(history) <==>
            exists i :: 0 <= i < |history| && history[i].outcome == DeadLettered(reason) && history[i].call.event == e
  {
    if history != [] {
      var n := |history| - 1;
      TopicsMean(history[..n], e, reason);
      assert forall i :: 0 <= i < n ==> history[..n][i] == history[i];
    }
  }

  // ----- the service ------------------------------------------------------

  class IngestionService {
    const cfg: Config
    var counters: map<Slot, Counter>
    var claims: map<string, int>
    var bus: seq<Event>
    var deadLetters: seq<DeadLetter>
    var dropped: nat
    ghost var history: seq<Record>
    ghost var clock: int

    ghost function St(): State
      reads this
    {
      State(counters, claims, bus, deadLetters, dropped)
    }

    ghost predicate Valid()
      reads this
    {
      Inv(cfg, St(), history, clock)
    }

    constructor (cfg: Config, ghost now: int)
      ensures Valid() && this.cfg == cfg && history == [] && clock == now && St() == EMPTY
    {
      this.cfg := cfg;
      counters, claims, bus, deadLetters, dropped := map[], map[], [], [], 0;
      history, clock := [], now;
    }

    method WithinRateLimit(c: Call) returns (ok: bool)
      modifies this`counters
      ensures counters == Incremented(old(counters), SlotOf(c), c.at)
      ensures ok <==> Count(old(counters), SlotOf(c), c.at) < cfg.limit
    {
      var slot := SlotOf(c);
      if slot in counters && c.at >= counters[slot].expires { counters := counters - {slot}; }
      var count := 1;
      if slot in counters { count := counters[slot].count + 1; }
      var expires := if slot in counters then counters[slot].expires else c.at;
      if count == 1 { expires := c.at + COUNTER_LIFE; }
      counters := counters[slot := Counter(count, expires)];
      ok := count <= cfg.limit;
    }

    method ClaimIdempotencyKey(c: Call) returns (claimed: bool)
      modifies this`claims
      ensures claimed <==> !Live(old(claims), c.event.key, c.at)
      ensures claims == if claimed then old(claims)[c.event.key := c.at + cfg.ttl] else old(claims)
    {
      claimed := c.event.key !in claims || c.at >= claims[c.event.key];
      if claimed { claims := claims[c.event.key := c.at + cfg.ttl]; }
    }

    method ReleaseIdempotencyKey(c: Call)
      modifies this`claims
      ensures claims == old(claims) - {c.event.key}
    {
      claims := claims - {c.event.key};
    }

    method DeadLetterEvent(c: Call, reason: Reason) returns (o: Outcome)
      modifies this`deadLetters, this`dropped
      ensures o == Refused(c, reason)
      ensures deadLetters == old(deadLetters) + if c.deadLetters then [DeadLetter(c.event, reason)] else []
      ensures dropped == old(dropped) + if c.deadLetters then 0 else 1
    {
      if !c.deadLetters {
        dropped := dropped + 1;
        return Dropped(reason);
      }
      deadLetters := deadLetters + [DeadLetter(c.event, reason)];
      o := DeadLettered(reason);
    }

    method Funnel(c: Call) returns (o: Outcome)
      modifies this`counters, this`claims, this`bus, this`deadLetters, this`dropped
      ensures o == Decided(cfg, old(St()), c)
      ensures St() == Ingest(cfg, old(St()), c)
    {
      var within := WithinRateLimit(c);
      if !within { return RateLimited; }
      var invalid := Validate(cfg, c.event);
      if invalid.Some? {
        o := DeadLetterEvent(c, invalid.value);
        return;
      }
      var claimed := ClaimIdempotencyKey(c);
      if !claimed { return Duplicate; }
      if !c.publishes {
        ReleaseIdempotencyKey(c);
        o := DeadLetterEvent(c, PublishFailed);
        return;
      }
      bus := bus + [c.event];
      o := Accepted;
    }

    /** The answer is the one the whole history gives. */
    method IngestEvent(c: Call) returns (o: Outcome)
      requires Valid() && clock <= c.at
      modifies this
      ensures Valid() && clock == c.at
      ensures o == Verdict(cfg, old(history), c)
      ensures history == old(history) + [Record(c, o)]
    {
      DecidedIsVerdict(cfg, St(), history, clock, c);
      IngestKeeps(cfg, St(), history, clock, c);
      o := Funnel(c);
      history, clock := history + [Record(c, o)], c.at;
    }
  }
}
