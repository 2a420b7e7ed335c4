/** Exactly how far the two evaluation paths agree. */
module CompilerLimits {
  import opened Text
  import opened Documents
  import opened Conditions
  import opened Query
  import opened CompilerCorrect

  // ----- fields with several values ---------------------------------------

  /** All values of the field read the same. */
  predicate OneText(doc: Value, f: Path) {
    forall u, v :: u in Leaves(doc, f) && v in Leaves(doc, f) ==> AsText(u) == AsText(v)
  }

  /** A case-sensitive `not_contains` that tells two different texts apart. */
  function Separator(f: Path, a: string, b: string): Condition {
    Condition(f, NotContains, Str(if Occurs(a, b) then b else a), true)
  }

  lemma FoldedSame(s: string, env: Env)
    ensures Folded(s, FoldFor(env, true)) == s
  {
  }

  lemma OccursInItself(s: string)
    ensures Occurs(s, s)
  {
    assert s[0..0 + |s|] == s;
    assert OccursAt(s, s, 0);
  }

  lemma OccursOneWay(a: string, b: string)
    requires Occurs(a, b) && Occurs(b, a)
    ensures a == b
  {
    var i :| 0 <= i <= |b| && OccursAt(a, b, i);
    var j :| 0 <= j <= |a| && OccursAt(b, a, j);
    assert i == 0 && b[0..0 + |a|] == b;
  }

  lemma SeparatorIsMixed(env: Env, doc: Value, f: Path, u: Value, v: Value)
    requires u in Leaves(doc, f) && v in Leaves(doc, f) && AsText(u).Some? && AsText(v).Some? && AsText(u) != AsText(v)
    ensures Mixed(env, Separator(f, AsText(u).value, AsText(v).value), doc)
  {
    var a, b := AsText(u).value, AsText(v).value;
    var c := Separator(f, a, b);
    FoldedSame(a, env);
    FoldedSame(b, env);
    OccursInItself(a);
    OccursInItself(b);
    if Occurs(a, b) && Occurs(b, a) {
      OccursOneWay(a, b);
    }
    assert MatchesValue(env, Inverted(c), if Occurs(a, b) then v else u);
    assert !MatchesValue(env, Inverted(c), if Occurs(a, b) then u else v);
  }

  /** On a keyword field of a given document, every well-typed condition means
      the same on both paths exactly when the values of the field all read the
      same. One value, or none, is the usual case. */
  lemma AgreesExactlyOnOneText(env: Env, mapping: Mapping, doc: Value, f: Path)
    requires EnvOk(env) && f in mapping && mapping[f].Keyword? && FieldFits(env, mapping[f], doc, f)
    ensures (forall c: Condition :: c.field == f && WellTyped(env, mapping, c) ==> Agrees(env, mapping, c, doc))
            <==> OneText(doc, f)
  {
    if OneText(doc, f) {
      forall c: Condition | c.field == f && WellTyped(env, mapping, c) ensures Agrees(env, mapping, c, doc) {
        if Positive(c.op).Some? {
          OneTextIsNotMixed(env, mapping, c, doc);
          NegativeAgreesExactly(env, mapping, c, doc);
        } else {
          PositiveAgrees(env, mapping, c, doc);
        }
      }
    } else {
      LeavesAreScalars(doc, f);
      var u, v :| u in Leaves(doc, f) && v in Leaves(doc, f) && AsText(u) != AsText(v);
      assert Scalar(u) && Scalar(v);
      var c := Separator(f, AsText(u).value, AsText(v).value);
      SeparatorIsMixed(env, doc, f, u, v);
      NegativeAgreesExactly(env, mapping, c, doc);
      assert !Agrees(env, mapping, c, doc);
    }
  }

  lemma OneTextIsNotMixed(env: Env, mapping: Mapping, c: Condition, doc: Value)
    requires WellTyped(env, mapping, c) && Positive(c.op).Some? && mapping[c.field].Keyword? && OneText(doc, c.field)
    ensures !Mixed(env, c, doc)
  {
    LeavesAreScalars(doc, c.field);
    var p := Inverted(c);
    forall u, v | u in Leaves(doc, c.field) && v in Leaves(doc, c.field)
      ensures MatchesValue(env, p, u) <==> MatchesValue(env, p, v)
    {
      assert AsText(u) == AsText(v) && Scalar(u) && Scalar(v);
      SameTextSameTest(env, p, u, v);
    }
  }

  /** Tests on a keyword field look only at the text of a value. */
  lemma SameTextSameTest(env: Env, p: Condition, u: Value, v: Value)
    requires Scalar(u) && Scalar(v) && AsText(u) == AsText(v)
    requires p.op.Equals? || p.op.Contains? || p.op.In?
    requires p.op.Equals? ==> Scalar(p.value) && AsNumber(env, p.value) == None
    requires p.op.In? ==> forall e :: e in Candidates(p.value) ==> Scalar(e) && AsNumber(env, e) == None
    ensures MatchesValue(env, p, u) <==> MatchesValue(env, p, v)
  {
    if p.op.In? {
      forall i | 0 <= i < |Candidates(p.value)|
        ensures Equal(env, u, Candidates(p.value)[i], p.caseSensitive) <==> Equal(env, v, Candidates(p.value)[i], p.caseSensitive)
      {
      }
    }
  }

  // ----- text that reads as a number --------------------------------------

  /** A document holding one value at one path and nothing else. */
  function Nest(path: Path, v: Value): Value
    decreases |path|
  {
    if path == [] then v else Obj(map[path[0] := Nest(path[1..], v)])
  }

  lemma {:induction false} NestLeaves(path: Path, v: Value)
    requires Scalar(v)
    ensures Leaves(Nest(path, v), path) == [v] && Fits(Nest(path, v), path)
    decreases |path|
  {
    if path != [] { NestLeaves(path[1..], v); }
  }

  /** An equality test as the schema lets it through: one scalar, or a list of
      them. A number in a rule prints as text that reads as the number. */
  predicate EqualityTest(env: Env, c: Condition) {
    && (c.op.Equals? || c.op.NotEquals? ==> Scalar(c.value))
    && (c.op.Equals? || c.op.NotEquals? || ((c.op.In? || c.op.NotIn?) && c.value.List? && c.value.items != []))
    && forall e :: e in Candidates(c.value) ==> Scalar(e) && (e.Num? ==> env.parse(Strip(e.repr)) == Some(e.n))
  }

  /** The test a condition makes of one value, without the negation. */
  function Test(c: Condition): Condition {
    if Positive(c.op).Some? then Inverted(c) else c
  }

  function Longest(vs: seq<Value>): (n: nat)
    ensures forall v :: v in vs ==> |TextOf(v)| <= n
  {
    if vs == [] then 0
    else
      var rest := Longest(vs[1..]);
      assert forall v :: v in vs ==> v == vs[0] || v in vs[1..];
      if |TextOf(vs[0])| > rest then |TextOf(vs[0])| else rest
  }

  /** On a document with one value, the evaluator's verdict is the test of that
      value. */
  lemma OneValue(env: Env, c: Condition, v: Value)
    requires Scalar(v) && !c.op.Exists?
    ensures var doc := Nest(c.field, v);
            && Leaves(doc, c.field) == [v] && Fits(doc, c.field)
            && (EvaluateCondition(env, c, doc) <==> MatchesValue(env, c, v))
  {
    var doc := Nest(c.field, v);
    NestLeaves(c.field, v);
    ResolvedIsIndexed(doc, c.field);
    assert v in [v] && forall x :: x in [v] ==> x == v;
  }

  lemma LongerIsOther(env: Env, x: string, term: string, insensitive: bool)
    requires |x| > |term|
    ensures !TermMatches(env, Keyword, Str(x), term, insensitive)
  {
    assert |Folded(x, QueryFold(env, insensitive))| != |Folded(term, QueryFold(env, insensitive))|;
  }

  /** A text longer than every operand is no operand's term. */
  lemma LongTextIsNoTerm(env: Env, mapping: Mapping, c: Condition, x: string)
    requires EqualityTest(env, c) && c.field in mapping && mapping[c.field].Keyword? && |x| > Longest(Candidates(c.value))
    ensures !Selects(env, mapping, PositiveClause(mapping, Test(c)).query, Nest(c.field, Str(x)))
  {
    var p, doc := Test(c), Nest(c.field, Str(x));
    NestLeaves(c.field, Str(x));
    ClauseSelects(env, mapping, p, doc);
    var insensitive := CaseInsensitiveAllowed(mapping, c.field, !c.caseSensitive);
    forall e | e in Candidates(c.value) ensures !TermMatches(env, Keyword, Str(x), TextOf(e), insensitive) {
      LongerIsOther(env, x, TextOf(e), insensitive);
    }
    assert forall v :: v in [Str(x)] ==> v == Str(x);
  }

  /** The same number with spaces after it, longer than every operand. */
  lemma PaddedNumber(env: Env, e: Value, operands: seq<Value>, caseSensitive: bool) returns (x: string)
    requires AsNumber(env, e).Some? && (e.Num? ==> env.parse(Strip(e.repr)) == Some(e.n))
    ensures |x| > Longest(operands) && Equal(env, Str(x), e, caseSensitive)
  {
    x := Padded(TextOf(e), Longest(operands) + 1);
    PaddedStrips(TextOf(e), Longest(operands) + 1);
  }

  /** A text that is longer than every operand and equals one as a number: equal
      for the evaluator, a different term for the store. */
  lemma PaddedNumberDisagrees(env: Env, mapping: Mapping, c: Condition, e: Value, x: string)
    requires EqualityTest(env, c) && c.field in mapping && mapping[c.field].Keyword? && e in Candidates(c.value)
    requires |x| > Longest(Candidates(c.value)) && Equal(env, Str(x), e, c.caseSensitive)
    ensures !Agrees(env, mapping, c, Nest(c.field, Str(x)))
  {
    LongTextIsNoTerm(env, mapping, c, x);
    EqualsOperand(env, c, Str(x), e);
    MatchedNotSelected(env, mapping, c, Str(x));
  }

  lemma EqualsOperand(env: Env, c: Condition, v: Value, e: Value)
    requires EqualityTest(env, c) && e in Candidates(c.value) && Equal(env, v, e, c.caseSensitive)
    ensures MatchesValue(env, Test(c), v)
  {
    var i :| 0 <= i < |Candidates(c.value)| && Candidates(c.value)[i] == e;
  }

  /** A value that passes the test and that the clause does not select tells the
      two paths apart, whether the condition is negative or not. */
  lemma MatchedNotSelected(env: Env, mapping: Mapping, c: Condition, v: Value)
    requires EqualityTest(env, c) && Scalar(v) && c.field in mapping && MatchesValue(env, Test(c), v)
    requires !Selects(env, mapping, PositiveClause(mapping, Test(c)).query, Nest(c.field, v))
    ensures !Agrees(env, mapping, c, Nest(c.field, v))
  {
    OneValue(env, c, v);
    if Positive(c.op).Some? { NegativeSelects(env, mapping, c, Nest(c.field, v)); }
  }

  // ----- fields the index does not declare --------------------------------

  /** Nothing is ever selected by a test of an undeclared field. */
  lemma UndeclaredSelectsNothing(env: Env, mapping: Mapping, c: Condition, doc: Value)
    requires c.field !in mapping && !c.op.Exists? && !c.op.Matches?
    requires c.op.In? || c.op.Cidr? ==> Candidates(c.value) != []
    ensures CompileCondition(mapping, c).Ok? && !Selects(env, mapping, CompileCondition(mapping, c).query, doc)
  {
    if Positive(c.op).Some? { NegativeSelects(env, mapping, c, doc); }
  }

  /** So on an undeclared field the two paths agree exactly on the documents the
      evaluator refuses. */
  lemma UndeclaredAgreesExactly(env: Env, mapping: Mapping, c: Condition, doc: Value)
    requires c.field !in mapping && !c.op.Exists? && !c.op.Matches?
    requires c.op.In? || c.op.Cidr? ==> Candidates(c.value) != []
    ensures Agrees(env, mapping, c, doc) <==> !EvaluateCondition(env, c, doc)
  {
    UndeclaredSelectsNothing(env, mapping, c, doc);
  }

  /** The documents a condition is judged on: those of the right shape, with at
      most one value where the condition is negative. */
  ghost predicate AgreesThroughout(env: Env, mapping: Mapping, c: Condition) {
    forall doc :: Fits(doc, c.field) && (Positive(c.op).Some? ==> SingleValued(doc, c.field)) ==> Agrees(env, mapping, c, doc)
  }

  /** `exists` means the same on every document exactly when the index declares
      the field. */
  lemma ExistsAgreesExactly(env: Env, mapping: Mapping, f: Path, present: bool, caseSensitive: bool)
    ensures AgreesThroughout(env, mapping, Condition(f, Exists, Bool(present), caseSensitive)) <==> f in mapping
  {
    var c := Condition(f, Exists, Bool(present), caseSensitive);
    forall doc | Fits(doc, f) ensures f in mapping ==> Agrees(env, mapping, c, doc) {
      ResolvedIsIndexed(doc, f);
      NoneOfSelects(env, mapping, ExistsQuery(f), doc);
    }
    var doc := Nest(f, Str(""));
    NestLeaves(f, Str(""));
    ResolvedIsIndexed(doc, f);
    NoneOfSelects(env, mapping, ExistsQuery(f), doc);
    assert f !in mapping ==> !Agrees(env, mapping, c, doc);
  }

  lemma WellTypedThroughout(env: Env, mapping: Mapping, c: Condition)
    requires EnvOk(env) && WellTyped(env, mapping, c) && mapping[c.field].Keyword?
    ensures AgreesThroughout(env, mapping, c)
  {
    forall doc | Fits(doc, c.field) && (Positive(c.op).Some? ==> SingleValued(doc, c.field)) ensures Agrees(env, mapping, c, doc) {
      LeavesAreScalars(doc, c.field);
      LeafAgrees(env, mapping, c, doc);
    }
  }

  /** Some document with one value is accepted by the evaluator. */
  lemma EqualityAcceptsSome(env: Env, c: Condition) returns (v: Value)
    requires EnvOk(env) && EqualityTest(env, c)
    ensures Scalar(v) && MatchesValue(env, c, v)
  {
    if Positive(c.op).None? {
      v := Candidates(c.value)[0];
      EqualsOperand(env, c, v, v);
    } else {
      v := Str(Padded("true", Longest(Candidates(c.value)) + 1));
      forall e | e in Candidates(c.value) ensures !Equal(env, v, e, c.caseSensitive) {
        LongWordIsDifferent(env, e, Longest(Candidates(c.value)) + 1, c.caseSensitive);
      }
      NotAnyOperand(env, c, v);
    }
  }

  lemma LongWordIsDifferent(env: Env, e: Value, n: nat, caseSensitive: bool)
    requires EnvOk(env) && Scalar(e) && n > |TextOf(e)|
    ensures !Equal(env, Str(Padded("true", n)), e, caseSensitive)
  {
    PaddedStrips("true", n);
    StripFixesStripped("true");
    assert |Folded(Padded("true", n), FoldFor(env, caseSensitive))| != |Folded(TextOf(e), FoldFor(env, caseSensitive))|;
  }

  lemma NotAnyOperand(env: Env, c: Condition, v: Value)
    requires EqualityTest(env, c) && Positive(c.op).Some?
    requires forall e :: e in Candidates(c.value) ==> !Equal(env, v, e, c.caseSensitive)
    ensures MatchesValue(env, c, v)
  {
    if c.op.NotEquals? { assert c.value in Candidates(c.value); }
  }

  lemma DisagreesSomewhere(env: Env, mapping: Mapping, c: Condition, v: Value)
    requires Scalar(v) && !c.op.Exists? && !Agrees(env, mapping, c, Nest(c.field, v))
    ensures !AgreesThroughout(env, mapping, c)
  {
    OneValue(env, c, v);
  }

  lemma AcceptedUndeclared(env: Env, mapping: Mapping, c: Condition, v: Value)
    requires c.field !in mapping && !c.op.Exists? && !c.op.Matches? && (c.op.In? || c.op.Cidr? ==> Candidates(c.value) != [])
    requires Scalar(v) && MatchesValue(env, c, v)
    ensures !AgreesThroughout(env, mapping, c)
  {
    OneValue(env, c, v);
    UndeclaredAgreesExactly(env, mapping, c, Nest(c.field, v));
    DisagreesSomewhere(env, mapping, c, v);
  }

  /** Equality, `in`, and their negations, on a keyword field or one the index
      does not declare: they mean the same on every document exactly when the
      field is declared and no operand reads as a number. */
  lemma EqualityAgreesExactly(env: Env, mapping: Mapping, c: Condition)
    requires EnvOk(env) && EqualityTest(env, c) && (c.field in mapping ==> mapping[c.field].Keyword?)
    ensures AgreesThroughout(env, mapping, c) <==>
            c.field in mapping && forall e :: e in Candidates(c.value) ==> AsNumber(env, e) == None
  {
    if c.field !in mapping {
      var v := EqualityAcceptsSome(env, c);
      AcceptedUndeclared(env, mapping, c, v);
    } else if e :| e in Candidates(c.value) && AsNumber(env, e).Some? {
      var x := PaddedNumber(env, e, Candidates(c.value), c.caseSensitive);
      PaddedNumberDisagrees(env, mapping, c, e, x);
      DisagreesSomewhere(env, mapping, c, Str(x));
    } else {
      WellTypedThroughout(env, mapping, c);
    }
  }

  /** The text operators on such a field: exactly when it is declared, but for
      `not_contains` with an empty text, which nothing satisfies anywhere. */
  lemma TextAgreesExactly(env: Env, mapping: Mapping, c: Condition)
    requires EnvOk(env) && Scalar(c.value) && (c.field in mapping ==> mapping[c.field].Keyword?)
    requires c.op.Contains? || c.op.NotContains? || c.op.StartsWith? || c.op.EndsWith?
    ensures AgreesThroughout(env, mapping, c) <==> c.field in mapping || (c.op.NotContains? && TextOf(c.value) == "")
  {
    if c.field in mapping {
      WellTypedThroughout(env, mapping, c);
    } else if c.op.NotContains? {
      NotContainsUndeclared(env, mapping, c);
    } else {
      OccursInItself(Folded(TextOf(c.value), FoldFor(env, c.caseSensitive)));
      AcceptedUndeclared(env, mapping, c, c.value);
    }
  }

  lemma NotContainsUndeclared(env: Env, mapping: Mapping, c: Condition)
    requires Scalar(c.value) && c.field !in mapping && c.op.NotContains?
    ensures AgreesThroughout(env, mapping, c) <==> TextOf(c.value) == ""
  {
    var t := Folded(TextOf(c.value), FoldFor(env, c.caseSensitive));
    if TextOf(c.value) == "" {
      forall doc | Fits(doc, c.field) ensures Agrees(env, mapping, c, doc) {
        ResolvedIsIndexed(doc, c.field);
        LeavesAreScalars(doc, c.field);
        UndeclaredAgreesExactly(env, mapping, c, doc);
        forall v | v in Leaves(doc, c.field) ensures !MatchesValue(env, c, v) {
          assert OccursAt("", Folded(TextOf(v), FoldFor(env, c.caseSensitive)), 0);
        }
      }
    } else {
      assert !Occurs(t, "");
      AcceptedUndeclared(env, mapping, c, Str(""));
    }
  }

  // ----- empty lists ------------------------------------------------------

  /** The schema lets the list of an `in` or a `cidr` be empty. It then compiles
      to a query with no clause, which the store runs and which selects every
      document, and the evaluator accepts none: the two disagree on all of them. */
  lemma EmptyListDisagrees(env: Env, mapping: Mapping, c: Condition, doc: Value)
    requires (c.op.In? || c.op.Cidr?) && c.value == List([])
    ensures CompileCondition(mapping, c) == Ok(BoolQuery([], [], [], []))
    ensures Accepted(env, mapping, BoolQuery([], [], [], [])) && Selects(env, mapping, BoolQuery([], [], [], []), doc)
    ensures !EvaluateCondition(env, c, doc) && !Agrees(env, mapping, c, doc)
  {
  }

  /** With `not_in` it is the other way round: selected nowhere, accepted
      wherever the field has a value. */
  lemma EmptyNotInAgreesExactly(env: Env, mapping: Mapping, f: Path, caseSensitive: bool, doc: Value)
    requires f in mapping && Fits(doc, f)
    ensures Agrees(env, mapping, Condition(f, NotIn, List([]), caseSensitive), doc) <==> Leaves(doc, f) == []
  {
    var c := Condition(f, NotIn, List([]), caseSensitive);
    ResolvedIsIndexed(doc, f);
    var inner := BoolQuery([], [], [], []);
    var q := CompileCondition(mapping, c).query;
    assert q == BoolQuery([ExistsQuery(f)], [], [], [inner]);
    assert q.mustNot[0] == inner && Selects(env, mapping, inner, doc);
    assert !Selects(env, mapping, q, doc);
    if Leaves(doc, f) != [] {
      var v := Leaves(doc, f)[0];
      assert v in NonNull(Resolve([doc], f)) && MatchesValue(env, c, v);
    }
  }

  // ----- networks ---------------------------------------------------------

  /** The documents the store can hold for the field. */
  ghost predicate AgreesOnFitting(env: Env, mapping: Mapping, c: Condition)
    requires c.field in mapping
  {
    forall doc :: FieldFits(env, mapping[c.field], doc, c.field) ==> Agrees(env, mapping, c, doc)
  }

  /** `cidr` with texts for networks, as they are written. */
  predicate NetworkTest(c: Condition) {
    c.op.Cidr? && forall e :: e in Candidates(c.value) ==> e.Str? && Stripped(e.s)
  }

  lemma ExactTerm(env: Env, x: string, term: string)
    ensures TermMatches(env, Keyword, Str(x), term, false) <==> x == term
  {
    FoldedSame(x, env);
    FoldedSame(term, env);
    assert QueryFold(env, false) == FoldFor(env, true);
  }

  /** On a keyword field the clause compares texts. */
  lemma CidrSelectsText(env: Env, mapping: Mapping, c: Condition, x: string)
    requires c.op.Cidr? && Candidates(c.value) != [] && c.field in mapping && mapping[c.field].Keyword?
    requires forall e :: e in Candidates(c.value) ==> e.Str?
    ensures Selects(env, mapping, CompileCondition(mapping, c).query, Nest(c.field, Str(x))) <==> Str(x) in Candidates(c.value)
  {
    var doc, items := Nest(c.field, Str(x)), Candidates(c.value);
    NestLeaves(c.field, Str(x));
    ClauseSelects(env, mapping, c, doc);
    assert forall v :: v in [Str(x)] <==> v == Str(x);
    forall i | 0 <= i < |items| ensures TermMatches(env, Keyword, Str(x), TextOf(items[i]), false) <==> items[i] == Str(x) {
      assert items[i] in items && items[i] == Str(TextOf(items[i]));
      ExactTerm(env, x, TextOf(items[i]));
    }
    assert ClauseMatches(env, Keyword, c, Str(x), CaseInsensitiveAllowed(mapping, c.field, !c.caseSensitive)) <==> Str(x) in items;
  }

  /** An address with spaces after it. */
  lemma PaddedAddress(networks: seq<Value>, address: string) returns (x: string)
    ensures |x| > Longest(networks) && Strip(x) == Strip(address)
  {
    x := Padded(address, Longest(networks) + 1);
    PaddedStrips(address, Longest(networks) + 1);
  }

  /** An address in one of the networks, written longer than any of them: a
      member for the evaluator, no network's text for the store. */
  lemma LongAddressDisagrees(env: Env, mapping: Mapping, c: Condition, x: string, e: Value)
    requires NetworkTest(c) && c.field in mapping && mapping[c.field].Keyword?
    requires e in Candidates(c.value) && env.inNetwork(Strip(x), Strip(e.s)) && |x| > Longest(Candidates(c.value))
    ensures !Agrees(env, mapping, c, Nest(c.field, Str(x)))
  {
    OneValue(env, c, Str(x));
    CidrSelectsText(env, mapping, c, x);
    InSomeNetwork(env, c.value, x, e);
    assert |TextOf(Str(x))| == |x|;
  }

  lemma InSomeNetwork(env: Env, networks: Value, x: string, e: Value)
    requires e in Candidates(networks) && e.Str? && env.inNetwork(Strip(x), Strip(e.s))
    ensures CidrMatch(env, Str(x), networks)
  {
    var i :| 0 <= i < |Candidates(networks)| && Candidates(networks)[i] == e;
    assert AsText(Candidates(networks)[i]) == Some(e.s);
  }

  /** The text of a network no address is in: selected as it stands, never
      accepted. */
  lemma EmptyNetworkDisagrees(env: Env, mapping: Mapping, c: Condition)
    requires NetworkTest(c) && c.field in mapping && mapping[c.field].Keyword? && Candidates(c.value) != []
    requires forall address: string, e :: e in Candidates(c.value) ==> !env.inNetwork(Strip(address), Strip(e.s))
    ensures !Agrees(env, mapping, c, Nest(c.field, Candidates(c.value)[0]))
  {
    var x := Candidates(c.value)[0].s;
    OneValue(env, c, Str(x));
    CidrSelectsText(env, mapping, c, x);
    assert !CidrMatch(env, Str(x), c.value);
  }

  lemma KeywordCidrDisagrees(env: Env, mapping: Mapping, c: Condition)
    requires NetworkTest(c) && c.field in mapping && mapping[c.field].Keyword?
    ensures !AgreesOnFitting(env, mapping, c)
  {
    if Candidates(c.value) == [] {
      EmptyListDisagrees(env, mapping, c, Nest(c.field, Str("")));
      DisagreesOn(env, mapping, c, Str(""));
    } else if address: string, e :| e in Candidates(c.value) && env.inNetwork(Strip(address), Strip(e.s)) {
      var x := PaddedAddress(Candidates(c.value), address);
      LongAddressDisagrees(env, mapping, c, x, e);
      DisagreesOn(env, mapping, c, Str(x));
    } else {
      EmptyNetworkDisagrees(env, mapping, c);
      DisagreesOn(env, mapping, c, Candidates(c.value)[0]);
    }
  }

  lemma DisagreesOn(env: Env, mapping: Mapping, c: Condition, v: Value)
    requires c.field in mapping && ValueFits(env, mapping[c.field], v) && !Agrees(env, mapping, c, Nest(c.field, v))
    ensures !AgreesOnFitting(env, mapping, c)
  {
    NestLeaves(c.field, v);
    assert FieldFits(env, mapping[c.field], Nest(c.field, v), c.field);
  }

  /** `cidr` on a declared keyword or address field means the same on every
      document the store can hold exactly when the field is an address field
      and there is a network to test. */
  lemma CidrAgreesExactly(env: Env, mapping: Mapping, c: Condition)
    requires EnvOk(env) && NetworkTest(c) && c.field in mapping && (mapping[c.field].Keyword? || mapping[c.field].Ip?)
    ensures AgreesOnFitting(env, mapping, c) <==> mapping[c.field].Ip? && Candidates(c.value) != []
  {
    if mapping[c.field].Keyword? {
      KeywordCidrDisagrees(env, mapping, c);
    } else if Candidates(c.value) == [] {
      EmptyListDisagrees(env, mapping, c, Nest(c.field, Str("")));
      DisagreesOn(env, mapping, c, Str(""));
    } else {
      forall doc | FieldFits(env, mapping[c.field], doc, c.field) ensures Agrees(env, mapping, c, doc) {
        PositiveAgrees(env, mapping, c, doc);
      }
    }
  }
}
