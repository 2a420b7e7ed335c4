/** The wildcard patterns sent to the cluster (`_escape_wildcard`,
    `_escape_free_text`) and the cluster's own reading of such a pattern. */
module Wildcard {
  import opened Text

  /** Three whole-string replacements, in the order the code applies them. */
  function Escape(t: string): string {
    Replace(Replace(Replace(t, "\\", "\\\\"), "*", "\\*"), "?", "\\?")
  }

  /** The cluster's pattern language: `*` is any run, `?` any one character, a
      backslash makes the next character literal, anything else is literal.
      Literals are compared after folding both sides. */
  predicate Accepts(pattern: string, s: string, fold: char -> char)
    decreases |pattern|
  {
    if pattern == "" then s == ""
    else if pattern[0] == '*' then
      exists k :: 0 <= k <= |s| && Accepts(pattern[1..], s[k..], fold)
    else if pattern[0] == '?' then
      s != "" && Accepts(pattern[1..], s[1..], fold)
    else if pattern[0] == '\\' && |pattern| >= 2 then
      s != "" && fold(pattern[1]) == fold(s[0]) && Accepts(pattern[2..], s[1..], fold)
    else
      s != "" && fold(pattern[0]) == fold(s[0]) && Accepts(pattern[1..], s[1..], fold)
  }

  function EscapeChar(c: char): string {
    if c == '\\' || c == '*' || c == '?' then ['\\', c] else [c]
  }

  /** The three replacements do not interfere: the first character of the
      text is escaped on its own, whatever follows it. */
  lemma EscapeCons(t: string)
    requires t != ""
    ensures Escape(t) == EscapeChar(t[0]) + Escape(t[1..])
  {
    var c, rest := t[0], t[1..];
    var r1 := Replace(rest, "\\", "\\\\");
    var r2 := Replace(r1, "*", "\\*");
    var b := if c == '\\' then "\\\\" else [c];
    assert t[..1] == [c];
    assert Replace(t, "\\", "\\\\") == b + r1;
    var d := if c == '\\' then "\\\\" else if c == '*' then "\\*" else [c];
    assert Replace(b + r1, "*", "\\*") == d + r2 by { ReplacePrefix(b, r1, '*', "\\*"); }
    ReplacePrefix(d, r2, '?', "\\?");
  }

  /** One-character replacement works on each character of a short prefix separately. */
  lemma ReplacePrefix(b: string, x: string, c: char, sub: string)
    requires 1 <= |b| <= 2
    ensures Replace(b + x, [c], sub) ==
            (if b[0] == c then sub else [b[0]]) +
            (if |b| == 2 then (if b[1] == c then sub else [b[1]]) else "") + Replace(x, [c], sub)
  {
    assert b + x == [b[0]] + (b[1..] + x);
    if |b| == 2 {
      assert b[1..] + x == [b[1]] + x;
    } else {
      assert b[1..] + x == x;
    }
  }

  /** An escaped text consumes exactly one fold-equal copy of itself. */
  lemma {:induction false} EscapedIsLiteral(t: string, rest: string, s: string, fold: char -> char)
    ensures Accepts(Escape(t) + rest, s, fold) <==>
            |t| <= |s| && Folded(s[..|t|], fold) == Folded(t, fold) && Accepts(rest, s[|t|..], fold)
    decreases |t|
  {
    if t == "" {
      assert Escape(t) + rest == rest;
      assert s[..0] == "" && s[0..] == s;
    } else {
      EscapeCons(t);
      var tail := Escape(t[1..]) + rest;
      var p := Escape(t) + rest;
      assert p == EscapeChar(t[0]) + tail;
      assert p[|EscapeChar(t[0])|..] == tail;
      assert Accepts(p, s, fold) <==> s != "" && fold(t[0]) == fold(s[0]) && Accepts(tail, s[1..], fold);
      if s != "" {
        EscapedIsLiteral(t[1..], rest, s[1..], fold);
        if |t| <= |s| {
          assert s[1..][|t| - 1..] == s[|t|..];
          var u, v := Folded(s[..|t|], fold), Folded(t, fold);
          assert u == [fold(s[0])] + Folded(s[1..][..|t| - 1], fold);
          assert v == [fold(t[0])] + Folded(t[1..], fold);
          assert u[0] == fold(s[0]) && u[1..] == Folded(s[1..][..|t| - 1], fold);
          assert v[0] == fold(t[0]) && v[1..] == Folded(t[1..], fold);
        }
      }
    }
  }

  lemma FoldedSlice(s: string, i: nat, j: nat, fold: char -> char)
    requires i <= j <= |s|
    ensures Folded(s[i..j], fold) == Folded(s, fold)[i..j]
  {
  }

  /** `*escape(t)` accepts exactly the texts that end with t, whatever
      backslashes, stars or question marks t holds. */
  lemma SuffixPattern(t: string, s: string, fold: char -> char)
    ensures Accepts("*" + Escape(t), s, fold) <==> HasSuffix(Folded(s, fold), Folded(t, fold))
  {
    var p := "*" + Escape(t);
    assert p[1..] == Escape(t) == Escape(t) + "";
    forall k | 0 <= k <= |s|
      ensures Accepts(p[1..], s[k..], fold) <==> k == |s| - |t| && Folded(s, fold)[k..] == Folded(t, fold)
    {
      EscapedIsLiteral(t, "", s[k..], fold);
      if |t| <= |s| - k {
        assert s[k..][|t|..] == s[k + |t|..];
        assert s[k..][..|t|] == s[k..k + |t|];
        FoldedSlice(s, k, k + |t|, fold);
      }
    }
    if HasSuffix(Folded(s, fold), Folded(t, fold)) {
      assert Accepts(p[1..], s[|s| - |t|..], fold);
    }
  }

  lemma EscapedThenAnything(t: string, s: string, k: nat, fold: char -> char)
    requires k <= |s|
    ensures Accepts(Escape(t) + "*", s[k..], fold) <==> OccursAt(Folded(t, fold), Folded(s, fold), k)
  {
    EscapedIsLiteral(t, "*", s[k..], fold);
    if |t| <= |s| - k {
      assert s[k..][..|t|] == s[k..k + |t|];
      FoldedSlice(s, k, k + |t|, fold);
      StarAcceptsAll(s[k..][|t|..], fold);
    }
  }

  lemma StarAcceptsAll(s: string, fold: char -> char)
    ensures Accepts("*", s, fold)
  {
    assert "*"[1..] == "" && s[|s|..] == "";
    assert Accepts("*"[1..], s[|s|..], fold);
  }

  /** `*escape(t)*` accepts exactly the texts that hold t somewhere. */
  lemma ContainsPattern(t: string, s: string, fold: char -> char)
    ensures Accepts("*" + Escape(t) + "*", s, fold) <==> Occurs(Folded(t, fold), Folded(s, fold))
  {
    var p := "*" + Escape(t) + "*";
    var q := Escape(t) + "*";
    assert p[1..] == q && p[0] == '*';
    assert Accepts(p, s, fold) <==> exists k :: 0 <= k <= |s| && Accepts(q, s[k..], fold);
    forall k | 0 <= k <= |s|
      ensures Accepts(q, s[k..], fold) <==> OccursAt(Folded(t, fold), Folded(s, fold), k)
    {
      EscapedThenAnything(t, s, k, fold);
    }
  }

  /** Unescaped, a question mark is any one character, a star anything at all,
      and any other character itself. */
  lemma Metacharacters(s: string, c: char, fold: char -> char)
    ensures Accepts("?", s, fold) <==> |s| == 1
    ensures Accepts("*", s, fold)
    ensures c != '?' && c != '*' ==> (Accepts([c], s, fold) <==> |s| == 1 && fold(s[0]) == fold(c))
  {
    StarAcceptsAll(s, fold);
    assert "?"[1..] == "" && [c][1..] == "";
  }
}
