/** Printing an event in the Common Event Format and parsing it back. */
module CefRoundTrip {
  import opened Text
  import opened Cef

  type Pairs = seq<(string, string)>

  predicate ValidKey(k: string) {
    k != "" && IsLetter(k[0]) && forall i :: 0 <= i < |k| ==> IsKeyChar(k[i])
  }

  predicate ValidKeys(pairs: Pairs) {
    forall i :: 0 <= i < |pairs| ==> ValidKey(pairs[i].0)
  }

  /** The same keys with every value changed by f. */
  function MapValues(pairs: Pairs, f: string -> string): (r: Pairs)
    ensures |r| == |pairs|
    ensures forall i :: 0 <= i < |r| ==> r[i] == (pairs[i].0, f(pairs[i].1))
  {
    seq(|pairs|, i requires 0 <= i < |pairs| => (pairs[i].0, f(pairs[i].1)))
  }

  /** Extension values escape backslash and equals. */
  function EscapeValue(v: string): string {
    Escape(v, false, true)
  }

  /** Pairs whose values are already escaped, separated by single spaces. */
  function PrintRaw(raw: Pairs): string {
    if raw == [] then ""
    else raw[0].0 + "=" + raw[0].1 + (if |raw| == 1 then "" else " " + PrintRaw(raw[1..]))
  }

  function PrintExtension(pairs: Pairs): string {
    PrintRaw(MapValues(pairs, EscapeValue))
  }

  /** Header fields, each followed by a pipe. They escape backslash and pipe. */
  function PrintHeader(header: seq<string>): string {
    if header == [] then "" else Escape(header[0], true, false) + "|" + PrintHeader(header[1..])
  }

  function PrintLine(version: string, header: seq<string>, pairs: Pairs): string {
    "CEF:" + version + "|" + PrintHeader(header) + PrintExtension(pairs)
  }

  // ----- the header survives splitting ------------------------------------

  /** An escaped field holds no delimiter the splitter would see. */
  lemma {:induction false} SplitEscaped(f: string, rest: string, open: string, equals: bool)
    ensures SplitFrom(Escape(f, true, equals) + "|" + rest, open, false, '|') ==
            [open + Escape(f, true, equals)] + SplitFrom(rest, "", false, '|')
    decreases |f|
  {
    if f == "" {
      assert "" + "|" + rest == "|" + rest && ("|" + rest)[1..] == rest && open + "" == open;
    } else {
      var e, tail := EscapeChar(f[0], true, equals), Escape(f[1..], true, equals);
      SplitChunk(e, tail + "|" + rest, open);
      SplitEscaped(f[1..], rest, open + e, equals);
      assert e + tail + "|" + rest == e + (tail + "|" + rest);
      assert open + e + tail == open + (e + tail);
    }
  }

  /** One escaped character is taken into the open segment whole. */
  lemma SplitChunk(e: string, rest: string, open: string)
    requires (|e| == 1 && e[0] != '\\' && e[0] != '|') || (|e| == 2 && e[0] == '\\')
    ensures SplitFrom(e + rest, open, false, '|') == SplitFrom(rest, open + e, false, '|')
  {
    if |e| == 1 {
      assert e == [e[0]];
      SplitOne(e[0], rest, open, false);
    } else {
      assert e == [e[0]] + [e[1]] && e + rest == [e[0]] + ([e[1]] + rest) && open + e == open + [e[0]] + [e[1]];
      SplitOne(e[0], [e[1]] + rest, open, false);
      SplitOne(e[1], rest, open + [e[0]], true);
    }
  }

  lemma SplitOne(c: char, rest: string, open: string, escaped: bool)
    requires escaped || c != '|'
    ensures SplitFrom([c] + rest, open, escaped, '|') == SplitFrom(rest, open + [c], !escaped && c == '\\', '|')
  {
    assert ([c] + rest)[1..] == rest;
  }

  lemma {:induction false} SplitHeader(header: seq<string>, ext: string)
    ensures Splits(SplitFrom(PrintHeader(header) + ext, "", false, '|'), header, SplitFrom(ext, "", false, '|'))
  {
    if header == [] {
      assert PrintHeader(header) + ext == ext;
    } else {
      var e, printed := Escape(header[0], true, false), PrintHeader(header[1..]);
      assert e + "|" + printed + ext == e + "|" + (printed + ext);
      SplitEscaped(header[0], printed + ext, "", false);
      assert "" + e == e;
      SplitHeader(header[1..], ext);
      SplitsCons(SplitFrom(printed + ext, "", false, '|'), header, SplitFrom(ext, "", false, '|'));
    }
  }

  /** The first segments are the escaped header fields, the others are given. */
  predicate Splits(parts: seq<string>, header: seq<string>, others: seq<string>) {
    && |parts| > |header|
    && (forall i :: 0 <= i < |header| ==> parts[i] == Escape(header[i], true, false))
    && parts[|header|..] == others
  }

  lemma SplitsCons(parts: seq<string>, header: seq<string>, others: seq<string>)
    requires header != [] && Splits(parts, header[1..], others)
    ensures Splits([Escape(header[0], true, false)] + parts, header, others)
  {
    var longer := [Escape(header[0], true, false)] + parts;
    assert longer[|header|..] == parts[|header| - 1..];
    forall i | 0 <= i < |header| ensures longer[i] == Escape(header[i], true, false) {
      if i > 0 { assert longer[i] == parts[i - 1] && header[i] == header[1..][i - 1]; }
    }
  }

  predicate Plain(s: string) {
    '|' !in s && '\\' !in s
  }

  lemma {:induction false} PlainEscape(s: string)
    requires Plain(s)
    ensures Escape(s, true, false) == s
  {
    if s != "" {
      assert s == [s[0]] + s[1..];
      PlainEscape(s[1..]);
    }
  }

  // ----- the extension survives the key search ----------------------------

  /** Every equals sign has a backslash right in front of it. */
  predicate Guarded(esc: string) {
    forall q :: 0 <= q < |esc| && esc[q] == '=' ==> q > 0 && esc[q - 1] == '\\'
  }

  predicate SoundPair(pair: (string, string)) {
    ValidKey(pair.0) && Guarded(pair.1)
  }

  /** Valid keys and guarded values. */
  predicate Sound(raw: Pairs) {
    forall i :: 0 <= i < |raw| ==> SoundPair(raw[i])
  }

  lemma {:induction false} EscapeGuards(v: string)
    ensures Guarded(EscapeValue(v))
  {
    if v != "" {
      EscapeGuards(v[1..]);
      var e, rest := EscapeChar(v[0], false, true), EscapeValue(v[1..]);
      var esc := EscapeValue(v);
      assert esc == e + rest;
      forall q | 0 <= q < |esc| && esc[q] == '=' ensures q > 0 && esc[q - 1] == '\\' {
        if q >= |e| {
          assert rest[q - |e|] == '=';
        }
      }
    }
  }

  /** No key begins inside an escaped value, even one that reads ` key=`. */
  lemma NoKeyInValue(ext: string, a: nat, b: nat, p: nat)
    requires 0 < a <= p < b <= |ext| && Guarded(ext[a..b])
    requires b < |ext| ==> ext[b] == ' '
    ensures MatchAt(ext, p) == None
  {
    if p + 1 < |ext| && IsLetter(ext[p + 1]) {
      var stop := KeyStop(ext, p + 1);
      KeyStopIsFirst(ext, p + 1);
      assert IsKeyChar(ext[p + 1]) && stop >= p + 2;
      if stop < b {
        assert ext[a..b][stop - a] == ext[stop] && ext[a..b][stop - a - 1] == ext[stop - 1];
        assert IsKeyChar(ext[stop - 1]);
      }
    }
  }

  predicate NoKeyBetween(ext: string, p: nat, q: nat)
    requires q <= |ext|
  {
    forall i :: p <= i < q ==> MatchAt(ext, i) == None
  }

  /** The leftmost, non-overlapping matches from p on, said without searching. */
  predicate Leftmost(ext: string, p: nat, ms: seq<KeyMatch>)
    decreases |ms|
  {
    if ms == [] then p <= |ext| && NoKeyBetween(ext, p, |ext|) && MatchAt(ext, |ext|) == None
    else
      && p <= ms[0].start <= |ext| && NoKeyBetween(ext, p, ms[0].start)
      && MatchAt(ext, ms[0].start) == Some(ms[0])
      && Leftmost(ext, ms[0].keyEnd + 1, ms[1..])
  }

  /** The search finds the leftmost matches. */
  lemma {:induction false} FindAllIsLeftmost(ext: string, p: nat, ms: seq<KeyMatch>)
    requires p <= |ext| && Leftmost(ext, p, ms)
    ensures FindAll(ext, p) == ms
    decreases |ext| - p
  {
    if MatchAt(ext, p).Some? {
      FirstIsHere(ext, p, ms);
      FindAllIsLeftmost(ext, ms[0].keyEnd + 1, ms[1..]);
      assert ms == [ms[0]] + ms[1..];
    } else {
      FirstIsLater(ext, p, ms);
      if p < |ext| { FindAllIsLeftmost(ext, p + 1, ms); }
    }
  }

  /** And what it finds is leftmost, on every text. */
  lemma {:induction false} FindAllLeftmost(ext: string, p: nat)
    requires p <= |ext|
    ensures Leftmost(ext, p, FindAll(ext, p))
    decreases |ext| - p
  {
    var m := MatchAt(ext, p);
    if m.Some? {
      FindAllLeftmost(ext, m.value.keyEnd + 1);
      LeftmostCons(ext, p, m.value, FindAll(ext, m.value.keyEnd + 1));
    } else if p < |ext| {
      FindAllLeftmost(ext, p + 1);
      LeftmostLater(ext, p, FindAll(ext, p + 1));
    }
  }

  lemma {:induction false} LeftmostLater(ext: string, p: nat, ms: seq<KeyMatch>)
    requires p < |ext| && MatchAt(ext, p) == None && Leftmost(ext, p + 1, ms)
    ensures Leftmost(ext, p, ms)
  {
  }

  lemma {:induction false} FirstIsHere(ext: string, p: nat, ms: seq<KeyMatch>)
    requires p <= |ext| && Leftmost(ext, p, ms) && MatchAt(ext, p).Some?
    ensures ms != [] && MatchAt(ext, p) == Some(ms[0]) && Leftmost(ext, ms[0].keyEnd + 1, ms[1..])
  {
  }

  lemma {:induction false} FirstIsLater(ext: string, p: nat, ms: seq<KeyMatch>)
    requires p <= |ext| && Leftmost(ext, p, ms) && MatchAt(ext, p).None?
    ensures if p == |ext| then ms == [] else Leftmost(ext, p + 1, ms)
  {
  }

  lemma {:induction false} LeftmostCons(ext: string, p: nat, m: KeyMatch, rest: seq<KeyMatch>)
    requires p <= m.start <= |ext| && NoKeyBetween(ext, p, m.start) && MatchAt(ext, m.start) == Some(m)
    requires Leftmost(ext, m.keyEnd + 1, rest)
    ensures Leftmost(ext, p, [m] + rest)
  {
    assert ([m] + rest)[1..] == rest;
  }

  lemma {:induction false} KeyStopAt(ext: string, k: nat, e: nat)
    requires k <= e < |ext| && ext[e] == '=' && forall i :: k <= i < e ==> IsKeyChar(ext[i])
    ensures KeyStop(ext, k) == e
    decreases e - k
  {
    if k < e { KeyStopAt(ext, k + 1, e); }
  }

  /** A valid key followed by `=` is matched in full. */
  lemma KeyMatched(ext: string, k: nat, key: string)
    requires ValidKey(key) && k + |key| < |ext| && ext[k..k + |key|] == key && ext[k + |key|] == '='
    ensures KeyAt(ext, k) && KeyStop(ext, k) == k + |key|
  {
    forall i | k <= i < k + |key| ensures ext[i] == key[i - k] { assert ext[k..k + |key|][i - k] == key[i - k]; }
    KeyStopAt(ext, k, k + |key|);
  }

  /** A printed pair whose key begins at k: the key, an equals sign, the escaped value. */
  predicate PairAt(ext: string, k: nat, key: string, esc: string) {
    && k + |key| + 1 + |esc| <= |ext|
    && ext[k..k + |key|] == key
    && ext[k + |key|] == '='
    && ext[k + |key| + 1..k + |key| + 1 + |esc|] == esc
  }

  lemma Pieces(ext: string, k: nat, key: string, esc: string, tail: string)
    requires k <= |ext| && ext[k..] == key + "=" + esc + tail
    ensures PairAt(ext, k, key, esc) && ext[k + |key| + 1 + |esc|..] == tail
  {
    var t := ext[k..];
    assert t[..|key|] == key && t[|key|] == '=';
    assert t[1 + |key|..1 + |key| + |esc|] == esc && t[1 + |key| + |esc|..] == tail;
    assert ext[k..][..|key|] == ext[k..k + |key|];
    assert ext[k..][1 + |key|..1 + |key| + |esc|] == ext[k + 1 + |key|..k + 1 + |key| + |esc|];
    assert ext[k..][1 + |key| + |esc|..] == ext[k + 1 + |key| + |esc|..];
  }

  /** Where the key of pair i is printed. */
  function KeyPos(raw: Pairs, i: nat): nat
    requires i <= |raw|
    decreases i, 0
  {
    if i == 0 then 0 else ValueEnd(raw, i - 1) + 1
  }

  /** The position just after the value of pair i. */
  function ValueEnd(raw: Pairs, i: nat): nat
    requires i < |raw|
    decreases i, 1
  {
    KeyPos(raw, i) + |raw[i].0| + 1 + |raw[i].1|
  }

  /** Pair i stands in its place, with a space or the end of the text after it. */
  predicate PrintedAt(ext: string, raw: Pairs, i: nat)
    requires i < |raw|
  {
    && PairAt(ext, KeyPos(raw, i), raw[i].0, raw[i].1)
    && if i + 1 == |raw| then ValueEnd(raw, i) == |ext| else ValueEnd(raw, i) < |ext| && ext[ValueEnd(raw, i)] == ' '
  }

  predicate Printed(ext: string, raw: Pairs) {
    forall i :: 0 <= i < |raw| ==> PrintedAt(ext, raw, i)
  }

  lemma {:induction false} RawIsPrinted(ext: string, raw: Pairs, i: nat)
    requires i < |raw| && KeyPos(raw, i) <= |ext| && ext[KeyPos(raw, i)..] == PrintRaw(raw[i..])
    ensures forall j :: i <= j < |raw| ==> PrintedAt(ext, raw, j)
    decreases |raw| - i
  {
    var others := raw[i..];
    assert others[0] == raw[i] && others[1..] == raw[i + 1..];
    RawHead(ext, KeyPos(raw, i), raw[i].0, raw[i].1, |others| == 1, PrintRaw(others[1..]));
    if i + 1 < |raw| { RawIsPrinted(ext, raw, i + 1); }
  }

  lemma RawHead(ext: string, k: nat, key: string, esc: string, last: bool, rest: string)
    requires k <= |ext| && ext[k..] == key + "=" + esc + (if last then "" else " " + rest)
    ensures var e := k + |key| + 1 + |esc|;
            && PairAt(ext, k, key, esc)
            && if last then e == |ext| else e < |ext| && ext[e] == ' ' && ext[e + 1..] == rest
  {
    Pieces(ext, k, key, esc, if last then "" else " " + rest);
    if !last {
      AfterSpace(ext, k + |key| + 1 + |esc|, rest);
    }
  }

  lemma AfterSpace(ext: string, e: nat, x: string)
    requires e <= |ext| && ext[e..] == " " + x
    ensures e < |ext| && ext[e] == ' ' && ext[e + 1..] == x
  {
    assert ext[e..][0] == ' ' && ext[e..][1..] == x;
  }

  /** The match that should find pair i: it begins at the space in front. */
  function PlaceOf(raw: Pairs, i: nat): KeyMatch
    requires i < |raw|
  {
    KeyMatch(if i == 0 then 0 else ValueEnd(raw, i - 1), KeyPos(raw, i), KeyPos(raw, i) + |raw[i].0|)
  }

  function Places(raw: Pairs): (ms: seq<KeyMatch>)
    ensures |ms| == |raw| && forall i :: 0 <= i < |ms| ==> ms[i] == PlaceOf(raw, i)
  {
    seq(|raw|, i requires 0 <= i < |raw| => PlaceOf(raw, i))
  }

  /** A key begins at the very start of the text, or after a space. */
  predicate KeyPosition(ext: string, start: nat, k: nat) {
    (start == 0 && k == 0) || (k == start + 1 && start < |ext| && ext[start] == ' ')
  }

  /** The leftmost keys are exactly those that were printed. */
  lemma {:induction false} KeysFound(ext: string, p: nat, raw: Pairs, i: nat)
    requires i < |raw| && Sound(raw) && Printed(ext, raw)
    requires p <= PlaceOf(raw, i).start <= |ext| && NoKeyBetween(ext, p, PlaceOf(raw, i).start)
    ensures Leftmost(ext, p, Places(raw)[i..])
    decreases |raw| - i
  {
    var m, ms := PlaceOf(raw, i), Places(raw);
    PlaceMatched(ext, raw, i);
    assert ms[i..] == [m] + ms[i + 1..];
    if i + 1 < |raw| {
      KeysFound(ext, m.keyEnd + 1, raw, i + 1);
    } else {
      LeftmostNone(ext, m.keyEnd + 1);
    }
    LeftmostCons(ext, p, m, ms[i + 1..]);
  }

  /** A match is found where it begins, and no other key before its value ends. */
  predicate Matched(ext: string, m: KeyMatch, e: nat) {
    && m.start <= |ext| && MatchAt(ext, m.start) == Some(m)
    && m.keyEnd + 1 <= e <= |ext| && NoKeyBetween(ext, m.keyEnd + 1, e)
    && (e == |ext| ==> MatchAt(ext, |ext|) == None)
  }

  /** The pair is printed at the match: key, equals sign and value up to e. */
  predicate Holds(ext: string, m: KeyMatch, e: nat, pair: (string, string)) {
    && KeyPosition(ext, m.start, m.keyStart) && PairAt(ext, m.keyStart, pair.0, pair.1)
    && m.keyEnd == m.keyStart + |pair.0| && e == m.keyEnd + 1 + |pair.1|
    && (e < |ext| ==> ext[e] == ' ')
  }

  lemma PlaceHolds(ext: string, raw: Pairs, i: nat)
    requires i < |raw| && PrintedAt(ext, raw, i) && (i > 0 ==> PrintedAt(ext, raw, i - 1))
    ensures Holds(ext, PlaceOf(raw, i), ValueEnd(raw, i), raw[i])
  {
  }

  lemma PlaceMatched(ext: string, raw: Pairs, i: nat)
    requires i < |raw| && Sound(raw) && Printed(ext, raw)
    ensures Matched(ext, PlaceOf(raw, i), ValueEnd(raw, i)) && (i + 1 == |raw| ==> ValueEnd(raw, i) == |ext|)
  {
    assert PrintedAt(ext, raw, i) && (i > 0 ==> PrintedAt(ext, raw, i - 1)) && SoundPair(raw[i]);
    PlaceHolds(ext, raw, i);
    HeldIsMatched(ext, PlaceOf(raw, i), ValueEnd(raw, i), raw[i]);
  }

  lemma HeldIsMatched(ext: string, m: KeyMatch, e: nat, pair: (string, string))
    requires Holds(ext, m, e, pair) && SoundPair(pair)
    ensures Matched(ext, m, e)
  {
    PairFound(ext, m.start, m.keyStart, pair.0, pair.1);
  }

  lemma {:induction false} LeftmostNone(ext: string, p: nat)
    requires p <= |ext| && NoKeyBetween(ext, p, |ext|) && MatchAt(ext, |ext|) == None
    ensures Leftmost(ext, p, [])
  {
  }

  /** A printed pair is matched at its start, and no other key before its value ends. */
  lemma PairFound(ext: string, start: nat, k: nat, key: string, esc: string)
    requires ValidKey(key) && Guarded(esc) && PairAt(ext, k, key, esc) && KeyPosition(ext, start, k)
    requires var e := k + |key| + 1 + |esc|; e < |ext| ==> ext[e] == ' '
    ensures MatchAt(ext, start) == Some(KeyMatch(start, k, k + |key|))
    ensures NoKeyBetween(ext, k + |key| + 1, k + |key| + 1 + |esc|)
    ensures ext != "" && MatchAt(ext, |ext|) == None
  {
    KeyMatched(ext, k, key);
    var a, e := k + |key| + 1, k + |key| + 1 + |esc|;
    forall i | a <= i < e ensures MatchAt(ext, i) == None { NoKeyInValue(ext, a, e, i); }
  }

  /** Between consecutive places lie exactly the keys and the escaped values. */
  lemma PlaceAt(ext: string, raw: Pairs, i: nat)
    requires i < |raw| && PrintedAt(ext, raw, i)
    ensures Placed(ext, Places(raw), raw, i)
  {
    assert Stop(ext, Places(raw), i) == ValueEnd(raw, i);
  }

  lemma ExtensionRoundTrip(pairs: Pairs)
    requires ValidKeys(pairs)
    ensures ExtensionPairs(PrintExtension(pairs)) == MapValues(pairs, Strip)
  {
    var raw, ext := MapValues(pairs, EscapeValue), PrintExtension(pairs);
    if pairs != [] {
      assert ext[0..] == ext;
      assert raw[0..] == raw && Places(raw)[0..] == Places(raw);
      RawIsPrinted(ext, raw, 0);
      forall i | 0 <= i < |pairs| ensures SoundPair(raw[i]) { EscapeGuards(pairs[i].1); }
      KeysFound(ext, 0, raw, 0);
      FindAllIsLeftmost(ext, 0, Places(raw));
      forall i | 0 <= i < |pairs| ensures Placed(ext, Places(raw), raw, i) { PlaceAt(ext, raw, i); }
      CutPlaced(ext, Places(raw), raw);
      UnescapeAll(pairs);
    }
  }

  /** Match i names key i, and value i fills the text up to the next match. */
  predicate Placed(ext: string, ms: seq<KeyMatch>, raw: Pairs, i: nat)
    requires i < |ms| == |raw|
  {
    var m, stop := ms[i], Stop(ext, ms, i);
    && m.keyStart <= m.keyEnd < stop <= |ext|
    && ext[m.keyStart..m.keyEnd] == raw[i].0
    && ext[m.keyEnd + 1..stop] == raw[i].1
  }

  lemma CutPlaced(ext: string, ms: seq<KeyMatch>, raw: Pairs)
    requires |ms| == |raw| && forall i :: 0 <= i < |ms| ==> Placed(ext, ms, raw, i)
    ensures Ordered(ext, ms) && Cut(ext, ms) == MapValues(raw, Unescape)
  {
    forall i | 0 <= i < |ms|
      ensures ms[i].keyStart <= ms[i].keyEnd < Stop(ext, ms, i) <= |ext|
      ensures PairOf(ext, ms[i], Stop(ext, ms, i)) == (raw[i].0, Unescape(raw[i].1))
    {
      assert Placed(ext, ms, raw, i);
    }
  }

  lemma UnescapeAll(pairs: Pairs)
    ensures MapValues(MapValues(pairs, EscapeValue), Unescape) == MapValues(pairs, Strip)
  {
    forall i | 0 <= i < |pairs| ensures Unescape(EscapeValue(pairs[i].1)) == Strip(pairs[i].1) {
      UnescapeEscape(pairs[i].1, false, true);
    }
  }

  // ----- the whole line ---------------------------------------------------

  predicate DistinctKeys(pairs: Pairs) {
    forall i, j :: 0 <= i < j < |pairs| ==> pairs[i].0 != pairs[j].0
  }

  function Names(pairs: Pairs): set<string> {
    set i | 0 <= i < |pairs| :: pairs[i].0
  }

  lemma {:induction false} CollectDistinct(pairs: Pairs)
    requires DistinctKeys(pairs)
    ensures Collect(pairs).Keys == Names(pairs)
    ensures forall i :: 0 <= i < |pairs| ==> pairs[i].0 in Collect(pairs) && Collect(pairs)[pairs[i].0] == pairs[i].1
  {
    if pairs != [] {
      var n := |pairs| - 1;
      var front := pairs[..n];
      CollectDistinct(front);
      assert forall i :: 0 <= i < n ==> front[i] == pairs[i];
      assert forall k :: k in Collect(pairs).Keys <==> k in Collect(front).Keys || k == pairs[n].0;
    }
  }

  lemma SegmentsOfLine(version: string, header: seq<string>, pairs: Pairs)
    requires |header| == 6 && Plain(version)
    ensures var segments := SplitFrom(PrintLine(version, header, pairs), "", false, '|');
            && |segments| >= 8
            && segments[0] == PREFIX + version
            && (forall i :: 0 <= i < 6 ==> segments[i + 1] == Escape(header[i], true, false))
            && Join(segments[7..], "|") == PrintExtension(pairs)
  {
    var ext, first := PrintExtension(pairs), PREFIX + version;
    assert first + "|" + PrintHeader(header) + ext == first + "|" + (PrintHeader(header) + ext);
    assert Plain(first);
    FirstSegment(first, PrintHeader(header) + ext);
    SplitHeader(header, ext);
    SplitJoin(ext, "", false, '|');
    assert "" + ext == ext;
    LaterSegments(first, SplitFrom(PrintHeader(header) + ext, "", false, '|'), header, SplitFrom(ext, "", false, '|'));
  }

  lemma FirstSegment(first: string, rest: string)
    requires Plain(first)
    ensures SplitFrom(first + "|" + rest, "", false, '|') == [first] + SplitFrom(rest, "", false, '|')
  {
    PlainEscape(first);
    SplitEscaped(first, rest, "", false);
    assert "" + first == first;
  }

  lemma LaterSegments(first: string, parts: seq<string>, header: seq<string>, others: seq<string>)
    requires |header| == 6 && Splits(parts, header, others)
    ensures var segments := [first] + parts;
            && |segments| >= 8 && segments[0] == first && segments[7..] == others
            && forall i :: 0 <= i < 6 ==> segments[i + 1] == Escape(header[i], true, false)
  {
    assert ([first] + parts)[7..] == parts[6..];
  }

  /** A syslog envelope in front of the line is skipped, provided the prefix
      does not occur before the line begins. */
  predicate Envelope(envelope: string, line: string) {
    forall j :: 0 <= j < |envelope| ==> !OccursAt(PREFIX, envelope + line, j)
  }

  /** The event as one list of named fields: version, the six header fields, the extension. */
  function EventPairs(version: string, header: seq<string>, pairs: Pairs): Pairs
    requires |header| == 6
  {
    HeaderNamed(version, header) + pairs
  }

  function HeaderNamed(version: string, header: seq<string>): Pairs
    requires |header| == 6
  {
    [("cef_version", version)] + seq(6, i requires 0 <= i < 6 => (HEADER_NAMES[i], header[i]))
  }

  /** Under these names the header fields are found. */
  lemma HeaderNames(version: string, header: seq<string>)
    requires |header| == 6
    ensures HeaderNamed(version, header) ==
            [("cef_version", version), ("device_vendor", header[0]), ("device_product", header[1]), ("device_version", header[2]),
             ("signature_id", header[3]), ("name", header[4]), ("severity", header[5])]
  {
  }

  /** The dictionary holds exactly these fields, with these values. */
  predicate Carries(fields: map<string, string>, event: Pairs) {
    && fields.Keys == Names(event)
    && forall i :: 0 <= i < |event| ==> fields[event[i].0] == event[i].1
  }

  /** Printing and parsing returns the event, each value stripped. */
  lemma RoundTrip(envelope: string, version: string, header: seq<string>, pairs: Pairs)
    requires |header| == 6 && Plain(version) && ValidKeys(pairs)
    requires Envelope(envelope, PrintLine(version, header, pairs))
    ensures ParseSpec(envelope + PrintLine(version, header, pairs)) ==
            Parsed(Collect(MapValues(EventPairs(version, header, pairs), Strip)))
  {
    FindLine(envelope, PrintLine(version, header, pairs));
    HeaderOfLine(version, header, pairs);
    ExtensionRoundTrip(pairs);
    StripConcat(HeaderNamed(version, header), pairs);
  }

  lemma StripConcat(a: Pairs, b: Pairs)
    ensures MapValues(a + b, Strip) == MapValues(a, Strip) + MapValues(b, Strip)
  {
  }

  lemma HeaderOfLine(version: string, header: seq<string>, pairs: Pairs)
    requires |header| == 6 && Plain(version)
    ensures var segments := SplitFrom(PrintLine(version, header, pairs), "", false, '|');
            && |segments| >= 8
            && Join(segments[7..], "|") == PrintExtension(pairs)
            && HeaderPairs(segments) == MapValues(HeaderNamed(version, header), Strip)
  {
    SegmentsOfLine(version, header, pairs);
    var segments := SplitFrom(PrintLine(version, header, pairs), "", false, '|');
    forall i | 0 <= i < 6 ensures Unescape(segments[i + 1]) == Strip(header[i]) { UnescapeEscape(header[i], true, false); }
    assert WithoutPrefix(segments[0]) == version;
  }

  lemma FindLine(envelope: string, line: string)
    requires PREFIX <= line && Envelope(envelope, line)
    ensures Find(envelope + line, PREFIX, 0) == |envelope| && (envelope + line)[|envelope|..] == line
  {
    var text := envelope + line;
    assert text[|envelope|..|envelope| + 4] == line[..4];
    assert OccursAt(PREFIX, text, |envelope|);
  }

  /** With distinct names, the round trip is exact precisely for events whose
      values carry no surrounding whitespace. */
  lemma RoundTripExact(envelope: string, version: string, header: seq<string>, pairs: Pairs)
    requires |header| == 6 && Plain(version) && ValidKeys(pairs)
    requires DistinctKeys(EventPairs(version, header, pairs))
    requires Envelope(envelope, PrintLine(version, header, pairs))
    ensures var r := ParseSpec(envelope + PrintLine(version, header, pairs));
            var event := EventPairs(version, header, pairs);
            r.Parsed? && (Carries(r.fields, event) <==> forall i :: 0 <= i < |event| ==> Stripped(event[i].1))
  {
    RoundTrip(envelope, version, header, pairs);
    CarriesStripped(EventPairs(version, header, pairs));
  }

  lemma CarriesStripped(event: Pairs)
    requires DistinctKeys(event)
    ensures Carries(Collect(MapValues(event, Strip)), event) <==> forall i :: 0 <= i < |event| ==> Stripped(event[i].1)
  {
    var s := MapValues(event, Strip);
    CollectDistinct(s);
    assert Names(event) == Names(s) by {
      forall i | 0 <= i < |event| ensures event[i].0 in Names(s) { assert s[i].0 == event[i].0; }
      forall i | 0 <= i < |event| ensures s[i].0 in Names(event) { assert s[i].0 == event[i].0; }
    }
    forall i | 0 <= i < |event|
      ensures event[i].0 in Collect(s) && Collect(s)[event[i].0] == Strip(event[i].1)
      ensures Strip(event[i].1) == event[i].1 <==> Stripped(event[i].1)
    {
      assert s[i].0 == event[i].0;
      StripFixesStripped(event[i].1);
    }
  }
}
