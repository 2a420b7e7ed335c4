/** The ArcSight Common Event Format parser, and the round trip with a printer
    that escapes as the Character Encoding section of the format's guide asks. */
module Cef {
  import opened Text

  datatype ParseResult = Parsed(fields: map<string, string>) | ParserError(segments: nat)

  const PREFIX := "CEF:"

  /** `_HEADER_FIELDS` without its first entry, "cef_version". */
  const HEADER_NAMES: seq<string> :=
    ["device_vendor", "device_product", "device_version", "signature_id", "name", "severity"]

  // ----- splitting on unescaped delimiters --------------------------------

  /** What remains to be split, given the text of the open segment and whether
      the last character was an unescaped backslash. */
  function SplitFrom(text: string, open: string, escaped: bool, delimiter: char): (parts: seq<string>)
    ensures |parts| >= 1
    decreases |text|
  {
    if text == "" then [open]
    else if !escaped && text[0] != '\\' && text[0] == delimiter then
      [open] + SplitFrom(text[1..], "", false, delimiter)
    else
      SplitFrom(text[1..], open + [text[0]], !escaped && text[0] == '\\', delimiter)
  }

  method SplitUnescaped(text: string, delimiter: char) returns (parts: seq<string>)
    ensures parts == SplitFrom(text, "", false, delimiter)
  {
    parts := [];
    var current := "";
    var escaped := false;
    for i := 0 to |text|
      invariant parts + SplitFrom(text[i..], current, escaped, delimiter) == SplitFrom(text, "", false, delimiter)
    {
      var c := text[i];
      assert text[i..][0] == c && text[i..][1..] == text[i + 1..];
      if escaped {
        current := current + [c];
        escaped := false;
      } else if c == '\\' {
        current := current + [c];
        escaped := true;
      } else if c == delimiter {
        parts := parts + [current];
        current := "";
      } else {
        current := current + [c];
      }
    }
    parts := parts + [current];
  }

  /** Splitting then joining on the delimiter is the identity on every text,
      which is what lets the extension be put back together. */
  lemma {:induction false} SplitJoin(text: string, open: string, escaped: bool, delimiter: char)
    ensures Join(SplitFrom(text, open, escaped, delimiter), [delimiter]) == open + text
    decreases |text|
  {
    if text != "" {
      if !escaped && text[0] != '\\' && text[0] == delimiter {
        SplitJoin(text[1..], "", false, delimiter);
        var rest := SplitFrom(text[1..], "", false, delimiter);
        assert ([open] + rest)[1..] == rest;
        assert open + [delimiter] + ("" + text[1..]) == open + text;
      } else {
        SplitJoin(text[1..], open + [text[0]], !escaped && text[0] == '\\', delimiter);
        assert open + [text[0]] + text[1..] == open + text;
      }
    }
  }

  // ----- escaping ---------------------------------------------------------

  /** A backslash is always doubled; `pipes` and `equals` say which of the two
      other special characters get a backslash in front. */
  function Escape(s: string, pipes: bool, equals: bool): string {
    if s == "" then ""
    else EscapeChar(s[0], pipes, equals) + Escape(s[1..], pipes, equals)
  }

  function EscapeChar(c: char, pipes: bool, equals: bool): string {
    if c == '\\' || (c == '|' && pipes) || (c == '=' && equals) then ['\\', c] else [c]
  }

  /** `_unescape` before its final strip: three whole-string replacements. */
  function Unescape3(s: string): string {
    Replace(Replace(Replace(s, "\\|", "|"), "\\=", "="), "\\\\", "\\")
  }

  function Unescape(s: string): string {
    Strip(Unescape3(s))
  }

  /** A run of backslashes. */
  function Slashes(n: nat): (r: string)
    ensures |r| == n && forall i :: 0 <= i < n ==> r[i] == '\\'
  {
    seq(n, _ => '\\')
  }

  /** The length of the run of backslashes at the front. */
  function Run(s: string): (n: nat)
    ensures n <= |s| && s[..n] == Slashes(n) && (n < |s| ==> s[n] != '\\')
  {
    if s != "" && s[0] == '\\' then
      assert s == ['\\'] + s[1..];
      1 + Run(s[1..])
    else 0
  }

  lemma EscapeRun(n: nat, x: string, pipes: bool, equals: bool)
    ensures Escape(Slashes(n) + x, pipes, equals) == Slashes(2 * n) + Escape(x, pipes, equals)
  {
    var s := Slashes(n) + x;
    if n == 0 {
      assert s == x && Slashes(0) + Escape(x, pipes, equals) == Escape(x, pipes, equals);
    } else {
      assert s[1..] == Slashes(n - 1) + x;
      EscapeRun(n - 1, x, pipes, equals);
      assert "\\\\" + (Slashes(2 * (n - 1)) + Escape(x, pipes, equals)) == Slashes(2 * n) + Escape(x, pipes, equals);
    }
  }

  /** Unescaping `\d` eats one backslash of the run in front of d and leaves
      every other run alone. */
  lemma {:induction false} DropOverRun(n: nat, c: char, x: string, d: char)
    requires c != '\\' && d != '\\'
    ensures Replace(Slashes(n) + ([c] + x), ['\\', d], [d]) ==
            Slashes(if c == d && n > 0 then n - 1 else n) + ([c] + Replace(x, ['\\', d], [d]))
  {
    var s := Slashes(n) + ([c] + x);
    var pat := ['\\', d];
    if n == 0 {
      assert s == [c] + x && s[1..] == x && s[0] == c;
      if |s| < 2 { assert x == ""; } else { assert s[..2][0] == c; }
    } else if n == 1 && c == d {
      assert s[..2] == pat && s[2..] == x;
    } else {
      assert s[1..] == Slashes(n - 1) + ([c] + x) && s[0] == '\\';
      assert s[..2][1] == if n == 1 then c else '\\';
      DropOverRun(n - 1, c, x, d);
      SlashesJoin(1, if c == d then n - 2 else n - 1, [c] + Replace(x, pat, [d]));
      assert Slashes(1) == ['\\'];
    }
  }

  lemma DropOnlyRun(n: nat, d: char)
    requires d != '\\'
    ensures Replace(Slashes(n), ['\\', d], [d]) == Slashes(n)
  {
    if n >= 2 {
      assert Slashes(n)[1..] == Slashes(n - 1);
      assert Slashes(n)[..2][1] == '\\';
      DropOnlyRun(n - 1, d);
    }
  }

  lemma SlashesJoin(a: nat, b: nat, x: string)
    ensures Slashes(a) + (Slashes(b) + x) == Slashes(a + b) + x
  {
  }

  /** Halving the backslashes of a run rounds up, so one that lost a backslash
      to an earlier replacement still comes out right. */
  lemma {:induction false} HalveRun(n: nat, c: char, x: string)
    requires c != '\\'
    ensures Replace(Slashes(n) + ([c] + x), "\\\\", "\\") ==
            Slashes((n + 1) / 2) + ([c] + Replace(x, "\\\\", "\\"))
  {
    var s := Slashes(n) + ([c] + x);
    if n == 0 {
      assert s == [c] + x && s[1..] == x && s[0] == c;
      if |s| < 2 { assert x == ""; } else { assert s[..2][0] == c; }
    } else if n == 1 {
      assert s[1..] == Slashes(0) + ([c] + x) && s[0] == '\\';
      assert s[..2][1] == c;
      HalveRun(0, c, x);
      SlashesJoin(1, 0, [c] + Replace(x, "\\\\", "\\"));
      assert Slashes(1) == ['\\'];
    } else {
      assert s[..2] == "\\\\" && s[2..] == Slashes(n - 2) + ([c] + x);
      HalveRun(n - 2, c, x);
      assert (n - 1) / 2 + 1 == (n + 1) / 2;
      SlashesJoin(1, (n - 1) / 2, [c] + Replace(x, "\\\\", "\\"));
      assert Slashes(1) == "\\";
    }
  }

  lemma {:induction false} HalveOnlyRun(n: nat)
    ensures Replace(Slashes(2 * n), "\\\\", "\\") == Slashes(n)
  {
    var s := Slashes(2 * n);
    if n > 0 {
      assert s[..2] == "\\\\" && s[2..] == Slashes(2 * (n - 1));
      HalveOnlyRun(n - 1);
      assert "\\" + Slashes(n - 1) == Slashes(n);
    }
  }

  /** The backslashes left in front of c after all three replacements. */
  function Survivors(m: nat, c: char): nat {
    if (c == '|' || c == '=') && m > 0 then m / 2 else (m + 1) / 2
  }

  lemma UnescapeRun(m: nat, c: char, e: string)
    requires c != '\\'
    ensures Unescape3(Slashes(m) + ([c] + e)) == Slashes(Survivors(m, c)) + ([c] + Unescape3(e))
  {
    DropOverRun(m, c, e, '|');
    var m1 := if c == '|' && m > 0 then m - 1 else m;
    DropOverRun(m1, c, Replace(e, "\\|", "|"), '=');
    var m2 := if c == '=' && m1 > 0 then m1 - 1 else m1;
    HalveRun(m2, c, Replace(Replace(e, "\\|", "|"), "\\=", "="));
  }

  /** The escape of a text that begins with n backslashes and then c. */
  lemma EscapeHead(n: nat, c: char, rest: string, pipes: bool, equals: bool)
    requires c != '\\'
    ensures Escape(Slashes(n) + ([c] + rest), pipes, equals) ==
            Slashes(if (c == '|' && pipes) || (c == '=' && equals) then 2 * n + 1 else 2 * n)
            + ([c] + Escape(rest, pipes, equals))
  {
    EscapeRun(n, [c] + rest, pipes, equals);
    assert ([c] + rest)[1..] == rest;
    var e := Escape(rest, pipes, equals);
    if (c == '|' && pipes) || (c == '=' && equals) {
      assert ['\\', c] + e == Slashes(1) + ([c] + e);
      SlashesJoin(2 * n, 1, [c] + e);
    }
  }

  /** The three sequential replacements undo every one of the four escapings,
      although none of them looks at which backslash escapes which. */
  lemma {:induction false} UnescapeEscape(s: string, pipes: bool, equals: bool)
    ensures Unescape3(Escape(s, pipes, equals)) == s
    decreases |s|
  {
    var n := Run(s);
    if n == |s| {
      assert s == Slashes(n) + "" == Slashes(n);
      EscapeRun(n, "", pipes, equals);
      assert Escape(s, pipes, equals) == Slashes(2 * n) + "" == Slashes(2 * n);
      DropOnlyRun(2 * n, '|');
      DropOnlyRun(2 * n, '=');
      HalveOnlyRun(n);
    } else {
      var c, rest := s[n], s[n + 1..];
      assert s == Slashes(n) + ([c] + rest);
      EscapeHead(n, c, rest, pipes, equals);
      UnescapeRun(if (c == '|' && pipes) || (c == '=' && equals) then 2 * n + 1 else 2 * n,
                  c, Escape(rest, pipes, equals));
      UnescapeEscape(rest, pipes, equals);
    }
  }

  // ----- the extension ----------------------------------------------------

  predicate IsLetter(c: char) {
    'A' <= c <= 'Z' || 'a' <= c <= 'z'
  }

  predicate IsKeyChar(c: char) {
    IsLetter(c) || '0' <= c <= '9' || c == '_' || c == '.' || c == '-'
  }

  /** The end of the longest run of key characters starting at k. */
  function KeyStop(ext: string, k: nat): (e: nat)
    requires k <= |ext|
    ensures k <= e <= |ext|
    decreases |ext| - k
  {
    if k < |ext| && IsKeyChar(ext[k]) then KeyStop(ext, k + 1) else k
  }

  /** `KeyStop` is the first position at or after k that holds no key character. */
  lemma {:induction false} KeyStopIsFirst(ext: string, k: nat)
    requires k <= |ext|
    ensures forall i :: k <= i < KeyStop(ext, k) ==> IsKeyChar(ext[i])
    ensures KeyStop(ext, k) < |ext| ==> !IsKeyChar(ext[KeyStop(ext, k)])
    decreases |ext| - k
  {
    if k < |ext| && IsKeyChar(ext[k]) { KeyStopIsFirst(ext, k + 1); }
  }

  /** A key, immediately followed by `=`, begins at k. */
  predicate KeyAt(ext: string, k: nat) {
    k < |ext| && IsLetter(ext[k]) && KeyStop(ext, k) < |ext| && ext[KeyStop(ext, k)] == '='
  }

  /** A letter, and a letter, digit, underscore, dot or hyphen. */
  lemma KeyCharacters(c: char)
    ensures IsLetter(c) <==> c in "ABCDEFGHIJKLMNOPQRSTUVWXYZ" || c in "abcdefghijklmnopqrstuvwxyz"
    ensures IsKeyChar(c) <==> IsLetter(c) || c in "0123456789" || c in "_.-"
  {
    UpperLetters(c);
    LowerLetters(c);
    Digits(c);
  }

  lemma UpperLetters(c: char)
    ensures 'A' <= c <= 'Z' <==> c in "ABCDEFGHIJKLMNOPQRSTUVWXYZ"
  {
    var upper := "ABCDEFGHIJKLMNOPQRSTUVWXYZ";
    if 'A' <= c <= 'Z' { assert upper[c as int - 'A' as int] == c; }
  }

  lemma LowerLetters(c: char)
    ensures 'a' <= c <= 'z' <==> c in "abcdefghijklmnopqrstuvwxyz"
  {
    var lower := "abcdefghijklmnopqrstuvwxyz";
    if 'a' <= c <= 'z' { assert lower[c as int - 'a' as int] == c; }
  }

  lemma Digits(c: char)
    ensures '0' <= c <= '9' <==> c in "0123456789"
  {
    var digits := "0123456789";
    if '0' <= c <= '9' { assert digits[c as int - '0' as int] == c; }
  }

  datatype KeyMatch = KeyMatch(start: nat, keyStart: nat, keyEnd: nat)

  /** `_EXTENSION_KEY` tried at position p: at the very start of the text, or
      after one whitespace character. */
  function MatchAt(ext: string, p: nat): (r: Option<KeyMatch>)
    requires p <= |ext|
    ensures r.Some? ==> p == r.value.start <= r.value.keyStart <= r.value.keyEnd < |ext|
  {
    if p == 0 && KeyAt(ext, 0) then Some(KeyMatch(0, 0, KeyStop(ext, 0)))
    else if p < |ext| && IsSpace(ext[p]) && KeyAt(ext, p + 1) then Some(KeyMatch(p, p + 1, KeyStop(ext, p + 1)))
    else None
  }

  /** A key stands from k to e: a letter, key characters, then an equals sign. */
  predicate Key(ext: string, k: nat, e: nat) {
    && k < e < |ext| && IsLetter(ext[k]) && (forall i :: k <= i < e ==> IsKeyChar(ext[i])) && ext[e] == '='
  }

  predicate KeyStands(ext: string, k: nat) {
    exists e :: k < e < |ext| && Key(ext, k, e)
  }

  lemma KeyStopsAt(ext: string, k: nat, e: nat)
    requires Key(ext, k, e)
    ensures KeyStop(ext, k) == e
  {
    KeyStopIsFirst(ext, k);
    assert !IsKeyChar('=');
  }

  lemma KeyAtMeans(ext: string, k: nat)
    requires k <= |ext|
    ensures KeyAt(ext, k) <==> KeyStands(ext, k)
    ensures forall e :: k < e < |ext| && Key(ext, k, e) ==> KeyStop(ext, k) == e
  {
    KeyStopIsFirst(ext, k);
    if KeyAt(ext, k) { assert IsKeyChar(ext[k]) && Key(ext, k, KeyStop(ext, k)); }
    forall e | k < e < |ext| && Key(ext, k, e) ensures KeyStop(ext, k) == e { KeyStopsAt(ext, k, e); }
  }

  /** A match begins at p exactly when a key stands there and p is the very start,
      or when p holds whitespace and a key stands right after it. */
  lemma MatchExactly(ext: string, p: nat)
    requires p <= |ext|
    ensures MatchAt(ext, p).Some? <==>
            (p == 0 && KeyStands(ext, 0)) || (p < |ext| && IsSpace(ext[p]) && KeyStands(ext, p + 1))
    ensures MatchAt(ext, p).Some? ==>
              var m := MatchAt(ext, p).value;
              m.start == p && Key(ext, m.keyStart, m.keyEnd)
  {
    KeyAtMeans(ext, p);
    if p < |ext| { KeyAtMeans(ext, p + 1); }
    if MatchAt(ext, p).Some? {
      var m := MatchAt(ext, p).value;
      KeyAtMeans(ext, m.keyStart);
    }
  }

  /** `finditer`: leftmost matches, each search resuming where the last match ended. */
  function FindAll(ext: string, p: nat): seq<KeyMatch>
    requires p <= |ext|
    decreases |ext| - p
  {
    var m := MatchAt(ext, p);
    if m.Some? then [m.value] + FindAll(ext, m.value.keyEnd + 1)
    else if p == |ext| then []
    else FindAll(ext, p + 1)
  }

  /** Where the value of match i ends: at the next match, or at the end of the text. */
  function Stop(ext: string, ms: seq<KeyMatch>, i: nat): nat {
    if i + 1 < |ms| then ms[i + 1].start else |ext|
  }

  /** Matches lie inside the text and none begins before the last one ended. */
  predicate Ordered(ext: string, ms: seq<KeyMatch>) {
    forall i :: 0 <= i < |ms| ==> ms[i].keyStart <= ms[i].keyEnd < Stop(ext, ms, i) <= |ext|
  }

  lemma {:induction false} FindAllOrdered(ext: string, p: nat)
    requires p <= |ext|
    ensures Ordered(ext, FindAll(ext, p))
    ensures FindAll(ext, p) != [] ==> p <= FindAll(ext, p)[0].start <= |ext|
    decreases |ext| - p
  {
    var m := MatchAt(ext, p);
    if m.Some? {
      var rest := FindAll(ext, m.value.keyEnd + 1);
      FindAllOrdered(ext, m.value.keyEnd + 1);
      var all := FindAll(ext, p);
      assert all == [m.value] + rest;
      forall i | 0 <= i < |all| ensures all[i].keyStart <= all[i].keyEnd < Stop(ext, all, i) <= |ext| {
        if i > 0 { assert all[i] == rest[i - 1] && Stop(ext, all, i) == Stop(ext, rest, i - 1); }
      }
    } else if p < |ext| {
      FindAllOrdered(ext, p + 1);
    }
  }

  /** The key a match names and the value from its equals sign up to `stop`. */
  function PairOf(ext: string, m: KeyMatch, stop: nat): (string, string)
    requires m.keyStart <= m.keyEnd < stop <= |ext|
  {
    (ext[m.keyStart..m.keyEnd], Unescape(ext[m.keyEnd + 1..stop]))
  }

  /** The pairs the matches cut the extension into. */
  function Cut(ext: string, ms: seq<KeyMatch>): seq<(string, string)>
    requires Ordered(ext, ms)
  {
    seq(|ms|, i requires 0 <= i < |ms| => PairOf(ext, ms[i], Stop(ext, ms, i)))
  }

  /** Later pairs overwrite earlier ones, as assignment into a dictionary does. */
  function Collect(pairs: seq<(string, string)>): map<string, string> {
    if pairs == [] then map[]
    else Collect(pairs[..|pairs| - 1])[pairs[|pairs| - 1].0 := pairs[|pairs| - 1].1]
  }

  function ExtensionPairs(ext: string): seq<(string, string)> {
    FindAllOrdered(ext, 0);
    Cut(ext, FindAll(ext, 0))
  }

  method ParseExtension(ext: string) returns (fields: map<string, string>)
    ensures fields == Collect(ExtensionPairs(ext))
  {
    var matches := FindAll(ext, 0);
    FindAllOrdered(ext, 0);
    ghost var pairs := ExtensionPairs(ext);
    fields := map[];
    for index := 0 to |matches|
      invariant fields == Collect(pairs[..index])
    {
      var m := matches[index];
      var valueEnd := if index + 1 < |matches| then matches[index + 1].start else |ext|;
      var (key, value) := PairOf(ext, m, valueEnd);
      CollectNext(pairs, index);
      fields := fields[key := value];
    }
    assert pairs[..|matches|] == pairs;
  }

  lemma CollectNext(pairs: seq<(string, string)>, n: nat)
    requires n < |pairs|
    ensures Collect(pairs[..n + 1]) == Collect(pairs[..n])[pairs[n].0 := pairs[n].1]
  {
    assert pairs[..n + 1][..n] == pairs[..n];
  }

  /** Of equal keys the last one counts. */
  lemma {:induction false} CollectMeans(pairs: seq<(string, string)>, k: string, v: string)
    ensures k in Collect(pairs) && Collect(pairs)[k] == v <==>
            exists i :: 0 <= i < |pairs| && pairs[i] == (k, v) && forall j :: i < j < |pairs| ==> pairs[j].0 != k
  {
    if pairs != [] {
      var n := |pairs| - 1;
      CollectMeans(pairs[..n], k, v);
      assert forall i :: 0 <= i < n ==> pairs[..n][i] == pairs[i];
      if pairs[n].0 == k && pairs[n].1 == v { assert pairs[n] == (k, v); }
    }
  }

  // ----- the whole line ---------------------------------------------------

  /** The first position of pat at or after i, or |s| + 1. */
  function Find(s: string, pat: string, i: nat): (k: nat)
    requires i <= |s|
    ensures i <= k && (k <= |s| <==> exists j :: i <= j <= |s| && OccursAt(pat, s, j))
    ensures k <= |s| ==> OccursAt(pat, s, k)
    ensures forall j :: i <= j < k && j <= |s| ==> !OccursAt(pat, s, j)
    decreases |s| - i
  {
    if OccursAt(pat, s, i) then i else if i == |s| then |s| + 1 else Find(s, pat, i + 1)
  }

  function WithoutPrefix(s: string): string {
    if PREFIX <= s then s[|PREFIX|..] else s
  }

  function HeaderPairs(segments: seq<string>): seq<(string, string)>
    requires |segments| >= 7
  {
    [("cef_version", Strip(WithoutPrefix(segments[0])))]
    + seq(6, i requires 0 <= i < 6 => (HEADER_NAMES[i], Unescape(segments[i + 1])))
  }

  function ParseSpec(text: string): ParseResult {
    var start := Find(text, PREFIX, 0);
    if start > |text| then ParserError(0)
    else
      var segments := SplitFrom(text[start..], "", false, '|');
      if |segments| < 8 then ParserError(|segments|)
      else
        var ext := Join(segments[7..], "|");
        Parsed(Collect(HeaderPairs(segments) + ExtensionPairs(ext)))
  }

  method Parse(text: string) returns (r: ParseResult)
    ensures r == ParseSpec(text)
  {
    var start := Find(text, PREFIX, 0);
    if start > |text| { return ParserError(0); }
    var segments := SplitUnescaped(text[start..], '|');
    if |segments| < 8 { return ParserError(|segments|); }
    var header := ParseHeader(segments);
    var extension := ParseExtension(Join(segments[7..], "|"));
    CollectConcat(HeaderPairs(segments), ExtensionPairs(Join(segments[7..], "|")));
    return Parsed(header + extension);
  }

  method ParseHeader(segments: seq<string>) returns (fields: map<string, string>)
    requires |segments| >= 8
    ensures fields == Collect(HeaderPairs(segments))
  {
    ghost var pairs := HeaderPairs(segments);
    fields := map["cef_version" := Strip(WithoutPrefix(segments[0]))];
    CollectNext(pairs, 0);
    assert pairs[..0] == [] && Collect([]) == map[];
    for i := 0 to 6
      invariant fields == Collect(pairs[..i + 1])
    {
      fields := fields[HEADER_NAMES[i] := Unescape(segments[i + 1])];
      CollectNext(pairs, i + 1);
    }
    assert pairs[..7] == pairs;
  }

  lemma {:induction false} CollectConcat(a: seq<(string, string)>, b: seq<(string, string)>)
    ensures Collect(a + b) == Collect(a) + Collect(b)
    decreases |b|
  {
    if b == [] {
      assert a + b == a;
    } else {
      var n := |b| - 1;
      assert (a + b)[..|a + b| - 1] == a + b[..n];
      CollectConcat(a, b[..n]);
    }
  }
}
