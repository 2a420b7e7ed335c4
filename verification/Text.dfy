/** Strings as the backend's own language treats them: non-overlapping
    left-to-right replacement, whitespace stripping, joining, folding and
    trimming. */
module Text {

  datatype Option<+T> = None | Some(value: T)

  /** `s.replace(pat, sub)`: every occurrence, scanning left to right, never
      looking again at what was just written. */
  function Replace(s: string, pat: string, sub: string): string
    requires |pat| > 0
    decreases |s|
  {
    if |s| < |pat| then s
    else if s[..|pat|] == pat then sub + Replace(s[|pat|..], pat, sub)
    else [s[0]] + Replace(s[1..], pat, sub)
  }

  /** The characters `str.isspace` and the regular-expression class `\s` accept. */
  predicate IsSpace(c: char) {
    var n := c as int;
    || n == 32 || 9 <= n <= 13 || 28 <= n <= 31 || n == 133 || n == 160 || n == 5760
    || 8192 <= n <= 8202 || n == 8232 || n == 8233 || n == 8239 || n == 8287 || n == 12288
  }

  function StripLeft(s: string): (r: string)
    ensures r != "" ==> !IsSpace(r[0])
  {
    if s != "" && IsSpace(s[0]) then StripLeft(s[1..]) else s
  }

  function StripRight(s: string): (r: string)
    ensures r <= s
    ensures r != "" ==> !IsSpace(r[|r| - 1])
  {
    if s != "" && IsSpace(s[|s| - 1]) then StripRight(s[..|s| - 1]) else s
  }

  /** `s.strip()` */
  function Strip(s: string): string {
    StripRight(StripLeft(s))
  }

  lemma {:induction false} StripRightSplits(s: string) returns (b: string)
    ensures s == StripRight(s) + b && forall c :: c in b ==> IsSpace(c)
  {
    if s != "" && IsSpace(s[|s| - 1]) {
      var rest := StripRightSplits(s[..|s| - 1]);
      b := rest + [s[|s| - 1]];
      assert s == s[..|s| - 1] + [s[|s| - 1]];
    } else {
      b := "";
      assert s + "" == s;
    }
  }

  lemma {:induction false} StripLeftSplits(s: string) returns (a: string)
    ensures s == a + StripLeft(s) && forall c :: c in a ==> IsSpace(c)
  {
    if s != "" && IsSpace(s[0]) {
      var rest := StripLeftSplits(s[1..]);
      a := [s[0]] + rest;
      assert s == [s[0]] + s[1..];
    } else {
      a := "";
      assert "" + s == s;
    }
  }

  /** Stripping takes whitespace off both ends, all of it and nothing else. */
  lemma StripMeans(s: string) returns (a: string, b: string)
    ensures s == a + Strip(s) + b && Stripped(Strip(s))
    ensures (forall c :: c in a ==> IsSpace(c)) && forall c :: c in b ==> IsSpace(c)
  {
    a := StripLeftSplits(s);
    var inner := StripLeft(s);
    b := StripRightSplits(inner);
    StrippedBothEnds(inner);
    assert a + (StripRight(inner) + b) == a + StripRight(inner) + b;
  }

  lemma StrippedBothEnds(inner: string)
    requires inner != "" ==> !IsSpace(inner[0])
    ensures Stripped(StripRight(inner))
  {
    if StripRight(inner) != "" { assert StripRight(inner)[0] == inner[0]; }
  }

  /** The ASCII characters among the whitespace. */
  lemma AsciiSpaces(c: char)
    requires c as int < 128
    ensures IsSpace(c) <==> c == ' ' || c == '\t' || c == '\n' || c == '\r' || 11 <= c as int <= 12 || 28 <= c as int <= 31
  {
  }

  predicate Stripped(s: string) {
    s != "" ==> !IsSpace(s[0]) && !IsSpace(s[|s| - 1])
  }

  /** Stripping leaves exactly the already-stripped strings alone. */
  lemma StripFixesStripped(s: string)
    ensures Strip(s) == s <==> Stripped(s)
  {
    var left := StripLeft(s);
    if Strip(s) == s {
      assert |left| <= |s| && |StripRight(left)| <= |left|;
      assert left == s;
    }
  }

  /** A trailing space never survives stripping. */
  lemma StripTrailingSpace(s: string)
    ensures Strip(s + " ") == Strip(s)
  {
    if s == "" {
      assert s + " " == " ";
      assert StripLeft(" ") == StripLeft(""[..]) by { assert " "[1..] == ""; }
    } else if IsSpace(s[0]) {
      assert (s + " ")[1..] == s[1..] + " ";
      StripTrailingSpace(s[1..]);
    } else {
      assert StripLeft(s + " ") == s + " ";
      assert (s + " ")[..|s + " "| - 1] == s;
    }
  }

  /** A text with n spaces after it. */
  function Padded(s: string, n: nat): (r: string)
    ensures |r| == |s| + n
  {
    if n == 0 then s else Padded(s, n - 1) + " "
  }

  lemma {:induction false} PaddedStrips(s: string, n: nat)
    ensures Strip(Padded(s, n)) == Strip(s)
  {
    if n > 0 {
      PaddedStrips(s, n - 1);
      StripTrailingSpace(Padded(s, n - 1));
    }
  }

  /** `sep.join(parts)` */
  function Join(parts: seq<string>, sep: string): string {
    if |parts| == 0 then ""
    else if |parts| == 1 then parts[0]
    else parts[0] + sep + Join(parts[1..], sep)
  }

  /** Character-by-character case folding; `c => c` is the case-sensitive case. */
  function Folded(s: string, fold: char -> char): (r: string)
    ensures |r| == |s|
    ensures forall i :: 0 <= i < |s| ==> r[i] == fold(s[i])
  {
    seq(|s|, i requires 0 <= i < |s| => fold(s[i]))
  }

  /** `t in s` */
  predicate Occurs(t: string, s: string) {
    exists i :: 0 <= i <= |s| && OccursAt(t, s, i)
  }

  predicate OccursAt(t: string, s: string, i: nat) {
    i + |t| <= |s| && s[i..i + |t|] == t
  }

  /** `s[-n:]`, for n > 0 */
  function LastN<T>(s: seq<T>, n: nat): (r: seq<T>)
    ensures |r| == if |s| > n then n else |s|
  {
    if |s| > n then s[|s| - n..] else s
  }

  /** What is kept is the end of the sequence. */
  lemma LastNIsTheEnd<T>(s: seq<T>, n: nat) returns (dropped: seq<T>)
    ensures s == dropped + LastN(s, n) && |LastN(s, n)| == if |s| < n then |s| else n
  {
    dropped := s[..|s| - |LastN(s, n)|];
  }

  /** Trimming early loses nothing that trimming late would keep. */
  lemma LastNTwice<T>(a: seq<T>, b: seq<T>, n: nat)
    ensures LastN(LastN(a, n) + b, n) == LastN(a + b, n)
  {
    if |a| > n {
      assert a + b == a[..|a| - n] + (LastN(a, n) + b);
    }
  }

  /** `s.endswith(t)` */
  predicate HasSuffix(s: string, t: string) {
    |t| <= |s| && s[|s| - |t|..] == t
  }
}
