/** What each operator asks of a value, letter by letter and number by number:
    of the evaluator, and of the query the condition compiles to. */
module ConditionMeaning {
  import opened Text
  import opened Documents
  import opened Conditions
  import opened Query
  import opened CompilerCorrect

  // ----- texts ------------------------------------------------------------

  /** The same text, or the same up to case. */
  predicate SameLetters(env: Env, a: string, b: string, exact: bool) {
    if exact then a == b
    else |a| == |b| && forall i :: 0 <= i < |a| ==> env.fold(a[i]) == env.fold(b[i])
  }

  predicate FoundAt(env: Env, t: string, u: string, i: nat, exact: bool) {
    i + |t| <= |u| && SameLetters(env, u[i..i + |t|], t, exact)
  }

  predicate TextTest(env: Env, op: Operator, u: string, e: string, exact: bool) {
    match op
    case Equals => SameLetters(env, u, e, exact)
    case Contains => exists i :: 0 <= i <= |u| && FoundAt(env, e, u, i, exact)
    case StartsWith => FoundAt(env, e, u, 0, exact)
    case EndsWith => |e| <= |u| && FoundAt(env, e, u, |u| - |e|, exact)
    case _ => false
  }

  function BaseOperator(op: Operator): Operator {
    match op
    case NotEquals => Equals
    case In => Equals
    case NotIn => Equals
    case NotContains => Contains
    case _ => op
  }

  predicate Negative(op: Operator) {
    op == NotEquals || op == NotContains || op == NotIn
  }

  /** A text condition: its operands are texts, one of them or a list. */
  predicate TextCondition(c: Condition) {
    && (match c.op
        case In => c.value.List?
        case NotIn => c.value.List?
        case Equals => c.value.Str?
        case NotEquals => c.value.Str?
        case Contains => c.value.Str?
        case NotContains => c.value.Str?
        case StartsWith => c.value.Str?
        case EndsWith => c.value.Str?
        case _ => false)
    && forall e :: e in Operands(c) ==> e.Str?
  }

  function Operands(c: Condition): seq<Value> {
    if c.value.List? then c.value.items else [c.value]
  }

  /** Some operand passes the test on this text. */
  predicate Passes(env: Env, c: Condition, u: string)
    requires TextCondition(c)
  {
    exists k :: 0 <= k < |Operands(c)| && TextTest(env, BaseOperator(c.op), u, Operands(c)[k].s, c.caseSensitive)
  }

  /** Equality of texts is at stake only if not both read as numbers. */
  predicate NotBothNumbers(env: Env, c: Condition, u: string)
    requires TextCondition(c)
  {
    BaseOperator(c.op) == Equals ==>
      forall k :: 0 <= k < |Operands(c)| ==> env.parse(Strip(u)).None? || env.parse(Strip(Operands(c)[k].s)).None?
  }

  predicate AllTexts(vs: seq<Value>) {
    forall v :: v in vs ==> v.Str?
  }

  lemma FoldedMeans(env: Env, a: string, b: string, exact: bool)
    ensures Folded(a, FoldFor(env, exact)) == Folded(b, FoldFor(env, exact)) <==> SameLetters(env, a, b, exact)
  {
    var x, y := Folded(a, FoldFor(env, exact)), Folded(b, FoldFor(env, exact));
    assert forall i :: 0 <= i < |a| ==> x[i] == if exact then a[i] else env.fold(a[i]);
    assert forall i :: 0 <= i < |b| ==> y[i] == if exact then b[i] else env.fold(b[i]);
    if SameLetters(env, a, b, exact) { assert forall i :: 0 <= i < |a| ==> x[i] == y[i]; }
    if x == y {
      assert |a| == |x| == |y| == |b|;
      forall i | 0 <= i < |a| ensures (if exact then a[i] else env.fold(a[i])) == (if exact then b[i] else env.fold(b[i])) {
        assert x[i] == y[i];
      }
    }
  }

  /** Slices of folded texts, and where one text is found in another. */
  lemma FoundMeans(env: Env, t: string, u: string, i: nat, exact: bool)
    requires i <= |u|
    ensures OccursAt(Folded(t, FoldFor(env, exact)), Folded(u, FoldFor(env, exact)), i) <==> FoundAt(env, t, u, i, exact)
  {
    if i + |t| <= |u| {
      Wildcard.FoldedSlice(u, i, i + |t|, FoldFor(env, exact));
      FoldedMeans(env, u[i..i + |t|], t, exact);
    }
  }

  lemma OccursMeans(env: Env, t: string, u: string, exact: bool)
    ensures Occurs(Folded(t, FoldFor(env, exact)), Folded(u, FoldFor(env, exact))) <==>
            exists i :: 0 <= i <= |u| && FoundAt(env, t, u, i, exact)
  {
    forall i | 0 <= i <= |u|
      ensures OccursAt(Folded(t, FoldFor(env, exact)), Folded(u, FoldFor(env, exact)), i) <==> FoundAt(env, t, u, i, exact)
    {
      FoundMeans(env, t, u, i, exact);
    }
  }

  lemma PrefixMeans(env: Env, t: string, u: string, exact: bool)
    ensures Folded(t, FoldFor(env, exact)) <= Folded(u, FoldFor(env, exact)) <==> FoundAt(env, t, u, 0, exact)
  {
    FoundMeans(env, t, u, 0, exact);
  }

  lemma SuffixMeans(env: Env, t: string, u: string, exact: bool)
    ensures HasSuffix(Folded(u, FoldFor(env, exact)), Folded(t, FoldFor(env, exact))) <==>
            |t| <= |u| && FoundAt(env, t, u, |u| - |t|, exact)
  {
    if |t| <= |u| {
      FoundMeans(env, t, u, |u| - |t|, exact);
      var x := Folded(u, FoldFor(env, exact));
      assert x[|u| - |t|..] == x[|u| - |t|..|u| - |t| + |t|];
    }
  }

  // ----- the evaluator on texts -------------------------------------------

  lemma EqualMeans(env: Env, u: string, e: string, exact: bool)
    requires env.parse(Strip(u)).None? || env.parse(Strip(e)).None?
    ensures Equal(env, Str(u), Str(e), exact) <==> SameLetters(env, u, e, exact)
  {
    FoldedMeans(env, u, e, exact);
  }

  lemma AnyEqualMeans(env: Env, c: Condition, u: string)
    requires TextCondition(c) && NotBothNumbers(env, c, u) && BaseOperator(c.op) == Equals
    ensures AnyEqual(env, Str(u), Operands(c), c.caseSensitive) <==> Passes(env, c, u)
  {
    forall k | 0 <= k < |Operands(c)|
      ensures Equal(env, Str(u), Operands(c)[k], c.caseSensitive) <==> TextTest(env, Equals, u, Operands(c)[k].s, c.caseSensitive)
    {
      assert Operands(c)[k] in Operands(c);
      EqualMeans(env, u, Operands(c)[k].s, c.caseSensitive);
    }
  }

  lemma SinglePasses(env: Env, c: Condition, u: string)
    requires TextCondition(c) && c.value.Str?
    ensures Passes(env, c, u) <==> TextTest(env, BaseOperator(c.op), u, c.value.s, c.caseSensitive)
  {
    assert Operands(c)[0] == c.value;
  }

  /** Whether the evaluator's test of one text holds. */
  lemma MatchesPasses(env: Env, c: Condition, u: string)
    requires TextCondition(c) && NotBothNumbers(env, c, u)
    ensures MatchesValue(env, c, Str(u)) <==> (Passes(env, c, u) <==> !Negative(c.op))
  {
    if c.op.In? || c.op.NotIn? {
      AnyEqualMeans(env, c, u);
    } else {
      SinglePasses(env, c, u);
      var e := c.value.s;
      if c.op.Equals? || c.op.NotEquals? {
        assert Operands(c)[0] == c.value;
        EqualMeans(env, u, e, c.caseSensitive);
      } else if c.op.Contains? || c.op.NotContains? {
        OccursMeans(env, e, u, c.caseSensitive);
      } else if c.op.StartsWith? {
        PrefixMeans(env, e, u, c.caseSensitive);
      } else {
        SuffixMeans(env, e, u, c.caseSensitive);
      }
    }
  }

  /** The evaluator accepts a document whose field holds texts exactly when one
      of them passes, or under a negative operator when one of them does not. */
  lemma EvaluatorReadsTexts(env: Env, c: Condition, doc: Value)
    requires TextCondition(c) && Fits(doc, c.field) && AllTexts(Leaves(doc, c.field))
    requires forall v :: v in Leaves(doc, c.field) ==> NotBothNumbers(env, c, v.s)
    ensures EvaluateCondition(env, c, doc) <==>
            exists v :: v in Leaves(doc, c.field) && (Passes(env, c, v.s) <==> !Negative(c.op))
  {
    ResolvedIsIndexed(doc, c.field);
    forall v | v in Leaves(doc, c.field) ensures MatchesValue(env, c, v) <==> (Passes(env, c, v.s) <==> !Negative(c.op)) {
      MatchesPasses(env, c, v.s);
    }
  }

  // ----- the event store on texts -----------------------------------------

  /** The clause of a positive text condition, on one text of a keyword field. */
  lemma ClausePasses(env: Env, c: Condition, u: string)
    requires TextCondition(c) && !Negative(c.op)
    ensures ClauseMatches(env, Keyword, c, Str(u), !c.caseSensitive) <==> Passes(env, c, u)
  {
    if c.op.In? {
      assert Candidates(c.value) == Operands(c) && BaseOperator(c.op) == Equals;
      forall k | 0 <= k < |Operands(c)|
        ensures TermMatches(env, Keyword, Str(u), TextOf(Operands(c)[k]), !c.caseSensitive) <==>
                TextTest(env, Equals, u, Operands(c)[k].s, c.caseSensitive)
      {
        assert Operands(c)[k] in Operands(c);
        FoldedMeans(env, u, Operands(c)[k].s, c.caseSensitive);
      }
    } else {
      SinglePasses(env, c, u);
      SingleClausePasses(env, c, u);
    }
  }

  lemma SingleClausePasses(env: Env, c: Condition, u: string)
    requires c.value.Str? && (c.op.Equals? || c.op.Contains? || c.op.StartsWith? || c.op.EndsWith?)
    ensures ClauseMatches(env, Keyword, c, Str(u), !c.caseSensitive) <==> TextTest(env, c.op, u, c.value.s, c.caseSensitive)
  {
    var e := c.value.s;
    if c.op.Equals? {
      FoldedMeans(env, u, e, c.caseSensitive);
    } else if c.op.Contains? {
      Wildcard.ContainsPattern(e, u, FoldFor(env, c.caseSensitive));
      OccursMeans(env, e, u, c.caseSensitive);
    } else if c.op.StartsWith? {
      PrefixMeans(env, e, u, c.caseSensitive);
    } else {
      Wildcard.SuffixPattern(e, u, FoldFor(env, c.caseSensitive));
      SuffixMeans(env, e, u, c.caseSensitive);
    }
  }

  lemma PositiveReadsTexts(env: Env, mapping: Mapping, c: Condition, doc: Value)
    requires TextCondition(c) && !Negative(c.op) && Operands(c) != [] && AllTexts(Leaves(doc, c.field))
    requires c.field in mapping && mapping[c.field].Keyword?
    ensures PositiveClause(mapping, c).Ok?
    ensures Selects(env, mapping, PositiveClause(mapping, c).query, doc) <==>
            exists v :: v in Leaves(doc, c.field) && Passes(env, c, v.s)
  {
    ClauseSelects(env, mapping, c, doc);
    forall v | v in Leaves(doc, c.field) ensures ClauseMatches(env, Keyword, c, v, !c.caseSensitive) <==> Passes(env, c, v.s) {
      ClausePasses(env, c, v.s);
    }
  }

  /** The compiled query selects a document whose keyword field holds texts
      exactly when one of them passes, or under a negative operator when there
      is one and none passes. */
  lemma StoreReadsTexts(env: Env, mapping: Mapping, c: Condition, doc: Value)
    requires TextCondition(c) && Operands(c) != [] && AllTexts(Leaves(doc, c.field))
    requires c.field in mapping && mapping[c.field].Keyword?
    ensures CompileCondition(mapping, c).Ok?
    ensures Selects(env, mapping, CompileCondition(mapping, c).query, doc) <==>
            if Negative(c.op) then Leaves(doc, c.field) != [] && forall v :: v in Leaves(doc, c.field) ==> !Passes(env, c, v.s)
            else exists v :: v in Leaves(doc, c.field) && Passes(env, c, v.s)
  {
    if Negative(c.op) {
      var p := Inverted(c);
      PositiveReadsTexts(env, mapping, p, doc);
      NegativeSelects(env, mapping, c, doc);
      forall v | v in Leaves(doc, c.field) ensures Passes(env, p, v.s) <==> Passes(env, c, v.s) {
        assert Operands(p) == Operands(c);
      }
    } else {
      PositiveReadsTexts(env, mapping, c, doc);
    }
  }

  // ----- numbers, presence, networks, words for booleans -------------------

  /** The number a value reads as. */
  function NumberIn(env: Env, v: Value): Option<real> {
    if v.Num? then Some(v.n) else if v.Str? then env.parse(Strip(v.s)) else None
  }

  predicate Ranges(op: Operator, x: real, y: real) {
    match op
    case Gt => x > y
    case Gte => x >= y
    case Lt => x < y
    case Lte => x <= y
    case _ => false
  }

  predicate RangeOperator(op: Operator) {
    op.Gt? || op.Gte? || op.Lt? || op.Lte?
  }

  predicate InRange(env: Env, c: Condition, v: Value) {
    NumberIn(env, v).Some? && NumberIn(env, c.value).Some? && Ranges(c.op, NumberIn(env, v).value, NumberIn(env, c.value).value)
  }

  /** A range compares numbers, for the evaluator and, on a declared field, for
      the store. */
  lemma RangesReadNumbers(env: Env, mapping: Mapping, c: Condition, doc: Value)
    requires RangeOperator(c.op) && Fits(doc, c.field)
    ensures EvaluateCondition(env, c, doc) <==> exists v :: v in Leaves(doc, c.field) && InRange(env, c, v)
    ensures CompileCondition(mapping, c).Ok?
    ensures c.field in mapping ==>
              (Selects(env, mapping, CompileCondition(mapping, c).query, doc) <==>
               exists v :: v in Leaves(doc, c.field) && InRange(env, c, v))
  {
    ResolvedIsIndexed(doc, c.field);
    assert forall v :: MatchesValue(env, c, v) <==> InRange(env, c, v);
    assert CompileCondition(mapping, c) == Ok(Range(c.field, RangeOf(c.op), c.value));
    assert forall v :: RangeMatches(env, v, RangeOf(c.op), c.value) <==> InRange(env, c, v);
  }

  /** Two values that both read as numbers are equal as numbers; the words for
      booleans are "true" and "false". */
  lemma EqualityReadsNumbersAndWords(env: Env, v: Value, e: Value, b: bool, exact: bool)
    ensures NumberIn(env, v).Some? && NumberIn(env, e).Some? ==>
              (Equal(env, v, e, exact) <==> NumberIn(env, v) == NumberIn(env, e))
    ensures Equal(env, Bool(b), Str(if b then "true" else "false"), exact)
    ensures Equal(env, Bool(true), Bool(b), true) <==> b
  {
    assert |"true"| == 4 && |"false"| == 5;
  }

  /** `exists` asks whether anything but null is there. */
  lemma ExistsReadsPresence(env: Env, f: Path, present: bool, exact: bool, doc: Value)
    requires Fits(doc, f)
    ensures EvaluateCondition(env, Condition(f, Exists, Bool(present), exact), doc) <==> (present <==> Leaves(doc, f) != [])
  {
    ResolvedIsIndexed(doc, f);
  }

  predicate InOneOf(env: Env, c: Condition, v: Value)
    requires v.Str? && AllTexts(Operands(c))
  {
    exists k :: 0 <= k < |Operands(c)| && env.inNetwork(Strip(v.s), Strip(Operands(c)[k].s))
  }

  /** `cidr` asks whether some address of the field is in some network. */
  lemma CidrReadsNetworks(env: Env, c: Condition, doc: Value)
    requires c.op.Cidr? && AllTexts(Operands(c)) && Fits(doc, c.field) && AllTexts(Leaves(doc, c.field))
    ensures EvaluateCondition(env, c, doc) <==> exists v :: v in Leaves(doc, c.field) && InOneOf(env, c, v)
  {
    ResolvedIsIndexed(doc, c.field);
    forall v | v in Leaves(doc, c.field) ensures MatchesValue(env, c, v) <==> InOneOf(env, c, v) {
      CidrMeans(env, c, v);
    }
  }

  lemma CidrMeans(env: Env, c: Condition, v: Value)
    requires v.Str? && AllTexts(Operands(c))
    ensures CidrMatch(env, v, c.value) <==> InOneOf(env, c, v)
  {
    var es := Candidates(c.value);
    assert es == Operands(c);
    forall k | 0 <= k < |es| ensures es[k].Str? && AsText(es[k]) == Some(es[k].s) {
      assert es[k] in es;
    }
    if InOneOf(env, c, v) {
      var k :| 0 <= k < |es| && env.inNetwork(Strip(v.s), Strip(es[k].s));
      assert AsText(es[k]).Some?;
    }
  }

  /** `matches` asks the regular-expression library about each text. */
  lemma MatchesReadsPatterns(env: Env, c: Condition, doc: Value)
    requires c.op.Matches? && c.value.Str? && Fits(doc, c.field) && AllTexts(Leaves(doc, c.field))
    ensures EvaluateCondition(env, c, doc) <==> exists v :: v in Leaves(doc, c.field) && env.regex(v.s, c.value.s, c.caseSensitive)
  {
    ResolvedIsIndexed(doc, c.field);
    forall v | v in Leaves(doc, c.field) ensures MatchesValue(env, c, v) <==> env.regex(v.s, c.value.s, c.caseSensitive) {
      PatternMeans(env, c, v);
    }
  }

  lemma PatternMeans(env: Env, c: Condition, v: Value)
    requires c.op.Matches? && c.value.Str? && v.Str?
    ensures MatchesValue(env, c, v) <==> env.regex(v.s, c.value.s, c.caseSensitive)
  {
  }

  // ----- groups -----------------------------------------------------------

  /** `all` needs every node, `any` one of them, `not` the opposite. */
  lemma GroupsRead(env: Env, doc: Value, first: Node, rest: seq<Node>)
    ensures EvaluateNode(env, All([]), doc) && !EvaluateNode(env, Any([]), doc)
    ensures EvaluateNode(env, All([first] + rest), doc) <==> EvaluateNode(env, first, doc) && EvaluateNode(env, All(rest), doc)
    ensures EvaluateNode(env, Any([first] + rest), doc) <==> EvaluateNode(env, first, doc) || EvaluateNode(env, Any(rest), doc)
    ensures EvaluateNode(env, Not(first), doc) <==> !EvaluateNode(env, first, doc)
  {
    var nodes := [first] + rest;
    assert nodes[0] == first && forall i :: 0 <= i < |rest| ==> nodes[i + 1] == rest[i];
    if EvaluateNode(env, All(nodes), doc) {
      forall i | 0 <= i < |rest| ensures EvaluateNode(env, rest[i], doc) { assert nodes[i + 1] == rest[i]; }
    }
    if EvaluateNode(env, Any(rest), doc) {
      var i :| 0 <= i < |rest| && EvaluateNode(env, rest[i], doc);
      assert EvaluateNode(env, nodes[i + 1], doc);
    }
  }
}
