/** Display numbers handed out under concurrency: transactions that insert the
    counter row if it is missing, lock it, increment it, and commit or abort, in
    any interleaving. */
module DisplayIds {
  /** One counter per tenant and year. */
  datatype Key = Key(tenant: nat, year: nat)

  type TxId = nat

  /** A counter row a transaction holds, because it inserted it or locked it:
      the value it found, the value it has counted up to, and the numbers handed
      out on the way. */
  datatype Held = Held(base: nat, value: nat, given: seq<nat>)

  type Tx = map<Key, Held>

  /** Committed counter rows, the numbers on committed alerts (or incidents),
      and the transactions under way. */
  datatype State = State(rows: map<Key, nat>, issued: map<Key, seq<nat>>, txs: map<TxId, Tx>)

  const EMPTY := State(map[], map[], map[])

  function Committed(st: State, k: Key): nat {
    if k in st.rows then st.rows[k] else 0
  }

  function Issued(st: State, k: Key): seq<nat> {
    if k in st.issued then st.issued[k] else []
  }

  function TxOf(st: State, t: TxId): Tx {
    if t in st.txs then st.txs[t] else map[]
  }

  predicate Holds(st: State, t: TxId, k: Key) {
    k in TxOf(st, t)
  }

  /** Some other transaction stands in the way. */
  predicate Blocked(st: State, t: TxId, k: Key) {
    exists u :: u in st.txs && u != t && Holds(st, u, k)
  }

  datatype Action =
    | InsertIfMissing(k: Key)
    | Lock(k: Key)
    | Increment(k: Key)
    | Commit
    | Abort

  datatype Event = Event(tx: TxId, action: Action)

  function SetHeld(st: State, t: TxId, k: Key, h: Held): State {
    st.(txs := st.txs[t := TxOf(st, t)[k := h]])
  }

  /** The numbers from lo + 1 to hi. */
  function Numbers(lo: nat, hi: nat): (s: seq<nat>)
    requires lo <= hi
    ensures |s| == hi - lo && forall i :: 0 <= i < |s| ==> s[i] == lo + 1 + i
  {
    seq(hi - lo, i requires 0 <= i < hi - lo => lo + 1 + i)
  }

  /** What committing a held row adds to the issued numbers. */
  function Added(tx: Tx, k: Key): seq<nat> {
    if k in tx then tx[k].given else []
  }

  /** One step. A step that would have to wait leaves everything as it is. */
  function Next(st: State, e: Event): State {
    var t := e.tx;
    match e.action
    case InsertIfMissing(k) =>
      // waits for an uncommitted insert; does nothing if the row is there
      if k in st.rows || Holds(st, t, k) || Blocked(st, t, k) then st else SetHeld(st, t, k, Held(0, 0, []))
    case Lock(k) =>
      // sees committed rows only, waits for whoever holds the lock
      if k !in st.rows || Holds(st, t, k) || Blocked(st, t, k) then st else SetHeld(st, t, k, Held(st.rows[k], st.rows[k], []))
    case Increment(k) =>
      if !Holds(st, t, k) then st else
        var h := TxOf(st, t)[k];
        SetHeld(st, t, k, h.(value := h.value + 1, given := h.given + [h.value + 1]))
    case Commit =>
      var tx := TxOf(st, t);
      State(
        st.rows + (map k | k in tx :: tx[k].value),
        map k | k in st.issued.Keys + tx.Keys :: Issued(st, k) + Added(tx, k),
        st.txs - {t})
    case Abort => st.(txs := st.txs - {t})
  }

  function Exec(st: State, events: seq<Event>): State
    decreases |events|
  {
    if events == [] then st else Exec(Next(st, events[0]), events[1..])
  }

  // ----- what every step keeps --------------------------------------------

  predicate InStep(h: Held, committed: nat) {
    h.base == committed <= h.value && h.given == Numbers(h.base, h.value)
  }

  /** A held row was found at its committed value, the numbers handed out are
      those from there to its own, and nobody else holds it. */
  predicate HeldOk(st: State, t: TxId, k: Key) {
    Holds(st, t, k) ==>
      && InStep(TxOf(st, t)[k], Committed(st, k))
      && !Blocked(st, t, k)
  }

  /** The committed numbers of a counter are exactly 1, 2, ... up to its value. */
  predicate Gapless(st: State, k: Key) {
    Issued(st, k) == Numbers(0, Committed(st, k))
  }

  ghost predicate Inv(st: State) {
    && (forall t, k :: HeldOk(st, t, k))
    && (forall k :: Gapless(st, k))
  }

  lemma SetHeldKeeps(st: State, t: TxId, k: Key, h: Held)
    requires Inv(st) && !Blocked(st, t, k) && InStep(h, Committed(st, k))
    ensures Inv(SetHeld(st, t, k, h))
  {
    var st' := SetHeld(st, t, k, h);
    forall u, j ensures Holds(st', u, j) <==> (u == t && j == k) || Holds(st, u, j) {
    }
    forall u, j ensures HeldOk(st', u, j) {
      assert HeldOk(st, u, j) && HeldOk(st, t, j);
      forall v | v in st'.txs && v != u ensures Holds(st', u, j) ==> !Holds(st', v, j) {
        assert HeldOk(st, v, j) && (Holds(st, v, j) ==> v in st.txs) && (Holds(st, u, j) ==> u in st.txs);
      }
    }
    forall j ensures Gapless(st', j) { assert Gapless(st, j); }
  }

  lemma EndKeeps(st: State, t: TxId)
    requires Inv(st)
    ensures Inv(st.(txs := st.txs - {t}))
  {
    var st' := st.(txs := st.txs - {t});
    forall u, j ensures HeldOk(st', u, j) { assert HeldOk(st, u, j); }
    forall j ensures Gapless(st', j) { assert Gapless(st, j); }
  }

  /** Publishing a transaction's rows and numbers together keeps every counter
      gapless, because nobody else can have moved the rows it holds. */
  lemma CommitKeeps(st: State, t: TxId)
    requires Inv(st)
    ensures Inv(Next(st, Event(t, Commit)))
  {
    var st', tx := Next(st, Event(t, Commit)), TxOf(st, t);
    forall k ensures Committed(st', k) == (if k in tx then tx[k].value else Committed(st, k)) && Gapless(st', k) {
      assert Gapless(st, k) && HeldOk(st, t, k);
      assert Issued(st', k) == Issued(st, k) + Added(tx, k);
    }
    forall u, j ensures HeldOk(st', u, j) {
      assert HeldOk(st, u, j) && (Holds(st, u, j) ==> u in st.txs) && (Holds(st, t, j) ==> t in st.txs);
    }
  }

  lemma NextKeeps(st: State, e: Event)
    requires Inv(st)
    ensures Inv(Next(st, e))
  {
    match e.action
    case InsertIfMissing(k) =>
      if !(k in st.rows || Holds(st, e.tx, k) || Blocked(st, e.tx, k)) { SetHeldKeeps(st, e.tx, k, Held(0, 0, [])); }
    case Lock(k) =>
      if !(k !in st.rows || Holds(st, e.tx, k) || Blocked(st, e.tx, k)) {
        SetHeldKeeps(st, e.tx, k, Held(st.rows[k], st.rows[k], []));
      }
    case Increment(k) =>
      if Holds(st, e.tx, k) {
        assert HeldOk(st, e.tx, k);
        var h := TxOf(st, e.tx)[k];
        assert Numbers(h.base, h.value + 1) == Numbers(h.base, h.value) + [h.value + 1];
        SetHeldKeeps(st, e.tx, k, h.(value := h.value + 1, given := h.given + [h.value + 1]));
      }
    case Commit => CommitKeeps(st, e.tx);
    case Abort => EndKeeps(st, e.tx);
  }

  lemma {:induction false} ExecKeeps(st: State, events: seq<Event>)
    requires Inv(st)
    ensures Inv(Exec(st, events))
    decreases |events|
  {
    if events != [] {
      NextKeeps(st, events[0]);
      ExecKeeps(Next(st, events[0]), events[1..]);
    }
  }

  /** Under every interleaving, the committed numbers of each tenant and year
      are exactly 1 to the counter's value, with no gap and no repetition. */
  lemma AlwaysGapless(events: seq<Event>, k: Key)
    ensures var st := Exec(EMPTY, events);
            Issued(st, k) == Numbers(0, Committed(st, k))
  {
    assert Inv(EMPTY);
    ExecKeeps(EMPTY, events);
    assert Gapless(Exec(EMPTY, events), k);
  }

  /** In every reachable state the numbers a transaction has handed out, one per
      increment, are exactly those from the committed value to its own. */
  lemma HandedOutIsTheRange(events: seq<Event>, t: TxId, k: Key)
    requires Holds(Exec(EMPTY, events), t, k)
    ensures var st := Exec(EMPTY, events);
            var h := TxOf(st, t)[k];
            Committed(st, k) <= h.value && h.given == Numbers(Committed(st, k), h.value)
  {
    assert Inv(EMPTY);
    ExecKeeps(EMPTY, events);
    assert HeldOk(Exec(EMPTY, events), t, k);
  }

  /** A number a transaction is about to commit is held by no other
      transaction and on no committed alert. */
  lemma InFlightNumbersAreFresh(events: seq<Event>, t: TxId, u: TxId, k: Key, n: nat)
    requires var st := Exec(EMPTY, events);
             Holds(st, t, k) && n in Added(TxOf(st, t), k) && u != t
    ensures var st := Exec(EMPTY, events);
            n !in Issued(st, k) && !Holds(st, u, k)
  {
    var st := Exec(EMPTY, events);
    ExecKeeps(EMPTY, events);
    assert HeldOk(st, t, k) && Gapless(st, k);
    assert Holds(st, u, k) ==> u in st.txs;
  }

  // ----- the printed form -------------------------------------------------

  function Digit(d: nat): char
    requires d < 10
  {
    ('0' as int + d) as char
  }

  function Decimal(n: nat): string {
    (if n < 10 then "" else Decimal(n / 10)) + [Digit(n % 10)]
  }

  function Zeros(n: nat): string {
    seq(n, _ => '0')
  }

  /** `{n:06d}` */
  function Padded(n: nat): string {
    Pad(Decimal(n))
  }

  function Pad(d: string): string {
    if |d| < 6 then Zeros(6 - |d|) + d else d
  }

  /** `ALT-2026-000123` */
  function DisplayId(prefix: string, k: Key, n: nat): string {
    prefix + "-" + (Decimal(k.year) + "-" + Padded(n))
  }

  /** Reading decimal digits back. */
  function ValueOf(s: string): int {
    if s == "" then 0 else 10 * ValueOf(s[..|s| - 1]) + (s[|s| - 1] as int - '0' as int)
  }

  lemma {:induction false} DecimalValue(n: nat)
    ensures ValueOf(Decimal(n)) == n && '-' !in Decimal(n)
  {
    var d := Decimal(n);
    var front := if n < 10 then "" else Decimal(n / 10);
    assert d == front + [Digit(n % 10)];
    assert d[..|d| - 1] == front;
    if n >= 10 { DecimalValue(n / 10); }
  }

  lemma {:induction false} LeadingZeros(z: nat, s: string)
    ensures ValueOf(Zeros(z) + s) == ValueOf(s)
    decreases z + |s|
  {
    var t := Zeros(z) + s;
    if s != "" {
      assert t[..|t| - 1] == Zeros(z) + s[..|s| - 1];
      LeadingZeros(z, s[..|s| - 1]);
    } else if z > 0 {
      assert t[..|t| - 1] == Zeros(z - 1) + "";
      LeadingZeros(z - 1, "");
    }
  }

  lemma PaddedValue(n: nat)
    ensures ValueOf(Padded(n)) == n
  {
    DecimalValue(n);
    PadValue(Decimal(n));
  }

  lemma PadValue(d: string)
    ensures ValueOf(Pad(d)) == ValueOf(d)
  {
    if |d| < 6 { LeadingZeros(6 - |d|, d); }
  }

  function FirstDash(s: string): nat {
    if s == "" || s[0] == '-' then 0 else 1 + FirstDash(s[1..])
  }

  lemma {:induction false} FirstDashOf(a: string, x: string)
    requires '-' !in a
    ensures FirstDash(a + "-" + x) == |a|
  {
    var s := a + "-" + x;
    if a == "" {
      assert s[0] == '-';
    } else {
      assert s[0] == a[0] && s[1..] == a[1..] + "-" + x;
      FirstDashOf(a[1..], x);
    }
  }

  lemma SplitAtDash(a: string, b: string, c: string, d: string)
    requires '-' !in a && '-' !in c && a + "-" + b == c + "-" + d
    ensures a == c && b == d
  {
    var s, t := a + "-" + b, c + "-" + d;
    FirstDashOf(a, b);
    FirstDashOf(c, d);
    assert s[..|a|] == a && t[..|c|] == c;
    assert s[|a| + 1..] == b && t[|c| + 1..] == d;
  }

  /** Printed ids with the same prefix are equal only for the same year and number. */
  lemma DisplayIdInjective(prefix: string, k: Key, n: nat, j: Key, m: nat)
    requires DisplayId(prefix, k, n) == DisplayId(prefix, j, m)
    ensures k.year == j.year && n == m
  {
    var x, y := Decimal(k.year) + "-" + Padded(n), Decimal(j.year) + "-" + Padded(m);
    assert (prefix + "-" + x)[|prefix| + 1..] == x && (prefix + "-" + y)[|prefix| + 1..] == y;
    DecimalValue(k.year);
    DecimalValue(j.year);
    SplitAtDash(Decimal(k.year), Padded(n), Decimal(j.year), Padded(m));
    PaddedValue(n);
    PaddedValue(m);
  }

  /** So the committed display ids of one tenant are all different: two places
      in the issued numbers that print alike are the same place. */
  lemma CommittedIdsAreUnique(events: seq<Event>, prefix: string, k: Key, j: Key, p: nat, q: nat)
    requires var st := Exec(EMPTY, events);
             && k.tenant == j.tenant && p < |Issued(st, k)| && q < |Issued(st, j)|
             && DisplayId(prefix, k, Issued(st, k)[p]) == DisplayId(prefix, j, Issued(st, j)[q])
    ensures k == j && p == q
  {
    var st := Exec(EMPTY, events);
    AlwaysGapless(events, k);
    AlwaysGapless(events, j);
    DisplayIdInjective(prefix, k, Issued(st, k)[p], j, Issued(st, j)[q]);
  }

  lemma {:induction false} DecimalLength(n: nat, d: nat)
    requires 0 < d && (d == 1 || Power(d - 1) <= n) && n < Power(d)
    ensures |Decimal(n)| == d
    decreases d
  {
    if d > 1 {
      assert n >= 10 by { TenAtLeast(d - 1); }
      assert Power(d - 1) == 10 * (if d == 2 then 1 else Power(d - 2)) && Power(d) == 10 * Power(d - 1);
      DecimalLength(n / 10, d - 1);
    }
  }

  function Power(d: nat): nat { if d == 0 then 1 else 10 * Power(d - 1) }

  lemma {:induction false} TenAtLeast(d: nat)
    requires d > 0
    ensures Power(d) >= 10
  {
    if d > 1 { TenAtLeast(d - 1); }
  }

  lemma {:induction false} DigitsOf(n: nat) returns (d: nat)
    ensures 0 < d && (d == 1 || Power(d - 1) <= n) && n < Power(d)
  {
    if n < 10 {
      d := 1;
      assert Power(1) == 10 * Power(0);
    } else {
      var e := DigitsOf(n / 10);
      d := e + 1;
      if e == 1 { assert Power(1) == 10 * Power(0); }
    }
  }

  /** Numbers below a million are printed in six digits, larger ones in as many
      as they have. */
  lemma SixDigits(n: nat)
    ensures n < 1_000_000 ==> |Padded(n)| == 6
    ensures n >= 1_000_000 ==> Padded(n) == Decimal(n)
  {
    var d := DigitsOf(n);
    DecimalLength(n, d);
    Million();
    if d >= 7 { PowerGrows(6, d - 1); }
    if d <= 6 { PowerGrows(d, 6); }
  }

  lemma Million()
    ensures Power(6) == 1_000_000
  {
    assert Power(1) == 10 && Power(2) == 100 && Power(3) == 1000 && Power(4) == 10_000 && Power(5) == 100_000;
  }

  lemma {:induction false} PowerGrows(a: nat, b: nat)
    requires a <= b
    ensures Power(a) <= Power(b)
    decreases b - a
  {
    if a < b { PowerGrows(a, b - 1); }
  }

  /** A transaction that has the counter to itself is given the next number, and
      with its commit the number is issued. */
  lemma AloneGetsNext(events: seq<Event>, t: TxId, k: Key)
    requires var st := Exec(EMPTY, events); TxOf(st, t) == map[] && !Blocked(st, t, k)
    ensures var st := Exec(EMPTY, events);
            var done := Exec(st, [Event(t, InsertIfMissing(k)), Event(t, Lock(k)), Event(t, Increment(k)), Event(t, Commit)]);
            && Committed(done, k) == Committed(st, k) + 1
            && Issued(done, k) == Issued(st, k) + [Committed(st, k) + 1]
  {
    var st := Exec(EMPTY, events);
    var steps := [Event(t, InsertIfMissing(k)), Event(t, Lock(k)), Event(t, Increment(k)), Event(t, Commit)];
    var held := Next(Next(st, steps[0]), steps[1]);
    AloneHolds(st, t, k);
    var counted := Next(held, steps[2]);
    AloneCounts(held, t, k, Committed(st, k));
    ExecFour(st, steps[0], steps[1], steps[2], steps[3]);
    IssuedAtCommit(counted, t, k, Committed(st, k));
  }

  /** An aborted transaction leaves no trace. */
  lemma AbortDiscards(st: State, t: TxId)
    ensures var aborted := Next(st, Event(t, Abort));
            && aborted.rows == st.rows && aborted.issued == st.issued && TxOf(aborted, t) == map[]
            && forall u :: u != t ==> TxOf(aborted, u) == TxOf(st, u)
  {
  }

  lemma ExecFour(st: State, a: Event, b: Event, c: Event, d: Event)
    ensures Exec(st, [a, b, c, d]) == Next(Next(Next(Next(st, a), b), c), d)
  {
    assert [a, b, c, d][1..] == [b, c, d] && [b, c, d][1..] == [c, d] && [c, d][1..] == [d] && [d][1..] == [];
    assert Exec(Next(Next(Next(st, a), b), c), [d]) == Next(Next(Next(Next(st, a), b), c), d);
    assert Exec(Next(Next(st, a), b), [c, d]) == Exec(Next(Next(Next(st, a), b), c), [d]);
  }

  lemma AloneHolds(st: State, t: TxId, k: Key)
    requires TxOf(st, t) == map[] && !Blocked(st, t, k)
    ensures var held := Next(Next(st, Event(t, InsertIfMissing(k))), Event(t, Lock(k)));
            && TxOf(held, t) == map[k := Held(Committed(st, k), Committed(st, k), [])]
            && held.rows == st.rows && held.issued == st.issued
  {
  }

  lemma AloneCounts(held: State, t: TxId, k: Key, n: nat)
    requires TxOf(held, t) == map[k := Held(n, n, [])]
    ensures var counted := Next(held, Event(t, Increment(k)));
            && TxOf(counted, t) == map[k := Held(n, n + 1, [n + 1])]
            && counted.rows == held.rows && counted.issued == held.issued
  {
    var h := Held(n, n, []);
    assert [] + [n + 1] == [n + 1];
    assert h.(value := h.value + 1, given := h.given + [h.value + 1]) == Held(n, n + 1, [n + 1]);
    assert map[k := h][k := Held(n, n + 1, [n + 1])] == map[k := Held(n, n + 1, [n + 1])];
  }

  lemma IssuedAtCommit(st: State, t: TxId, k: Key, n: nat)
    requires TxOf(st, t) == map[k := Held(n, n + 1, [n + 1])]
    ensures var done := Next(st, Event(t, Commit));
            Committed(done, k) == n + 1 && Issued(done, k) == Issued(st, k) + [n + 1]
  {
  }

  /** For instance. */
  lemma PrintsLikeThis(tenant: nat)
    ensures DisplayId("ALT", Key(tenant, 2026), 123) == "ALT-2026-000123"
  {
    Year();
    Sequence();
    assert "ALT" + "-" + ("2026" + "-" + "000123") == "ALT-2026-000123";
  }

  lemma Year()
    ensures Decimal(2026) == "2026"
  {
    assert Decimal(2) == "2" && Decimal(20) == "20" && Decimal(202) == "202";
  }

  lemma Sequence()
    ensures Padded(123) == "000123"
  {
    assert Decimal(1) == "1" && Decimal(12) == "12" && Decimal(123) == "123";
    assert Zeros(3) == "000";
  }
}
