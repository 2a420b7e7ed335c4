/** The two evaluation paths mean the same thing: what a compiled query selects
    against what the streaming evaluator accepts. */
module CompilerCorrect {
  import opened Text
  import opened Documents
  import opened Conditions
  import opened Query

  // ----- what a rule and a document must look like ------------------------

  /** Numbers are read as numbers, and the words for booleans are not. */
  predicate EnvOk(env: Env) {
    env.parse("true") == None && env.parse("false") == None
  }

  predicate Truth(v: Value) {
    AsText(v) == Some("true") || AsText(v) == Some("false")
  }

  /** An indexed value the store accepted for a field of this type. */
  predicate ValueFits(env: Env, t: FieldType, v: Value) {
    Scalar(v) &&
    match t
    case Keyword => true
    case Number => AsNumber(env, v).Some?
    case Boolean => Truth(v) && !v.Num?
    case Ip => v.Str? && Stripped(v.s)
    case Date => v.Num?
  }

  /** A rule value that can be compared for equality with such a field. On a
      keyword field this excludes text that reads as a number. */
  predicate OperandFits(env: Env, t: FieldType, e: Value) {
    Scalar(e) &&
    match t
    case Keyword => AsNumber(env, e) == None
    case Number => AsNumber(env, e).Some? && (e.Num? ==> env.parse(Strip(e.repr)) == Some(e.n))
    case Boolean => Truth(e) && !e.Num?
    case Ip => false
    case Date => false
  }

  predicate WellTyped(env: Env, mapping: Mapping, c: Condition) {
    c.field in mapping &&
    var t := mapping[c.field];
    match c.op
    case Equals => OperandFits(env, t, c.value)
    case NotEquals => OperandFits(env, t, c.value)
    case In => ListFits(env, t, c.value)
    case NotIn => ListFits(env, t, c.value)
    case Exists => c.value.Bool?
    case Matches => false
    case Cidr => t.Ip? && Candidates(c.value) != [] && forall e :: e in Candidates(c.value) ==> e.Str? && Stripped(e.s)
    case Gt => t.Number? && AsNumber(env, c.value).Some?
    case Gte => t.Number? && AsNumber(env, c.value).Some?
    case Lt => t.Number? && AsNumber(env, c.value).Some?
    case Lte => t.Number? && AsNumber(env, c.value).Some?
    case _ => t.Keyword? && Scalar(c.value)
  }

  predicate ListFits(env: Env, t: FieldType, value: Value) {
    value.List? && value.items != [] && forall e :: e in value.items ==> OperandFits(env, t, e)
  }

  /** The document has the shape and the types the mapping declares. */
  ghost predicate DocFits(env: Env, mapping: Mapping, doc: Value) {
    forall f :: f in mapping ==> FieldFits(env, mapping[f], doc, f)
  }

  predicate FieldFits(env: Env, t: FieldType, doc: Value, f: Path) {
    Fits(doc, f) && forall v :: v in Leaves(doc, f) ==> ValueFits(env, t, v)
  }

  predicate TreeWellTyped(env: Env, mapping: Mapping, node: Node) {
    match node
    case Leaf(c) => WellTyped(env, mapping, c)
    case All(nodes) => nodes != [] && forall i :: 0 <= i < |nodes| ==> TreeWellTyped(env, mapping, nodes[i])
    case Any(nodes) => nodes != [] && forall i :: 0 <= i < |nodes| ==> TreeWellTyped(env, mapping, nodes[i])
    case Not(inner) => TreeWellTyped(env, mapping, inner)
  }

  // ----- one value --------------------------------------------------------

  lemma EqualIsTerm(env: Env, t: FieldType, v: Value, e: Value, caseSensitive: bool)
    requires EnvOk(env) && ValueFits(env, t, v) && OperandFits(env, t, e)
    ensures Equal(env, v, e, caseSensitive) <==> TermMatches(env, t, v, TextOf(e), !caseSensitive && t.Keyword?)
  {
    match t
    case Keyword =>
    case Number =>
    case Boolean =>
      TruthIsNoNumber(env, v);
    case Ip =>
    case Date =>
  }

  lemma TruthIsNoNumber(env: Env, v: Value)
    requires EnvOk(env) && Truth(v) && !v.Num?
    ensures AsNumber(env, v) == None
  {
    StripFixesStripped("true");
    StripFixesStripped("false");
  }

  /** A positive clause on one field, as a test on one value. */
  predicate ClauseMatches(env: Env, t: FieldType, c: Condition, v: Value, insensitive: bool) {
    match c.op
    case Equals => TermMatches(env, t, v, TextOf(c.value), insensitive)
    case Contains => WildcardMatches(env, v, "*" + Wildcard.Escape(TextOf(c.value)) + "*", insensitive)
    case StartsWith => PrefixMatches(env, v, TextOf(c.value), insensitive)
    case EndsWith => WildcardMatches(env, v, "*" + Wildcard.Escape(TextOf(c.value)), insensitive)
    case In => exists i :: 0 <= i < |Candidates(c.value)| && TermMatches(env, t, v, TextOf(Candidates(c.value)[i]), insensitive)
    case Cidr => exists i :: 0 <= i < |Candidates(c.value)| && TermMatches(env, t, v, TextOf(Candidates(c.value)[i]), false)
    case _ => RangeMatches(env, v, RangeOf(c.op), c.value)
  }

  predicate Testing(op: Operator) {
    Positive(op).None? && !op.Exists? && !op.Matches?
  }

  lemma ValueAgrees(env: Env, mapping: Mapping, c: Condition, v: Value)
    requires EnvOk(env) && WellTyped(env, mapping, c) && Testing(c.op) && ValueFits(env, mapping[c.field], v)
    ensures MatchesValue(env, c, v) <==>
            ClauseMatches(env, mapping[c.field], c, v, CaseInsensitiveAllowed(mapping, c.field, !c.caseSensitive))
  {
    var t := mapping[c.field];
    if c.op.Equals? {
      EqualIsTerm(env, t, v, c.value, c.caseSensitive);
    } else if c.op.In? {
      InIsTerms(env, t, v, c.value.items, c.caseSensitive);
    } else if c.op.Cidr? {
      CidrIsTerms(env, t, v, c.value);
    } else if c.op.Contains? || c.op.StartsWith? || c.op.EndsWith? {
      TextAgrees(env, t, c, v);
    }
  }

  lemma TextAgrees(env: Env, t: FieldType, c: Condition, v: Value)
    requires Scalar(c.value) && Scalar(v) && (c.op.Contains? || c.op.StartsWith? || c.op.EndsWith?)
    ensures MatchesValue(env, c, v) <==> ClauseMatches(env, t, c, v, !c.caseSensitive)
  {
    if c.op.Contains? {
      Wildcard.ContainsPattern(TextOf(c.value), TextOf(v), FoldFor(env, c.caseSensitive));
    } else if c.op.EndsWith? {
      Wildcard.SuffixPattern(TextOf(c.value), TextOf(v), FoldFor(env, c.caseSensitive));
    }
  }

  lemma InIsTerms(env: Env, t: FieldType, v: Value, items: seq<Value>, caseSensitive: bool)
    requires EnvOk(env) && ValueFits(env, t, v) && forall e :: e in items ==> OperandFits(env, t, e)
    ensures AnyEqual(env, v, items, caseSensitive) <==>
            exists i :: 0 <= i < |items| && TermMatches(env, t, v, TextOf(items[i]), !caseSensitive && t.Keyword?)
  {
    forall i | 0 <= i < |items|
      ensures Equal(env, v, items[i], caseSensitive) <==> TermMatches(env, t, v, TextOf(items[i]), !caseSensitive && t.Keyword?)
    {
      EqualIsTerm(env, t, v, items[i], caseSensitive);
    }
  }

  lemma CidrIsTerms(env: Env, t: FieldType, v: Value, value: Value)
    requires t.Ip? && ValueFits(env, t, v) && forall e :: e in Candidates(value) ==> e.Str? && Stripped(e.s)
    ensures CidrMatch(env, v, value) <==>
            exists i :: 0 <= i < |Candidates(value)| && TermMatches(env, t, v, TextOf(Candidates(value)[i]), false)
  {
    StripFixesStripped(v.s);
    var items := Candidates(value);
    forall i | 0 <= i < |items|
      ensures AsText(items[i]).Some? && Strip(AsText(items[i]).value) == TextOf(items[i])
    {
      StripFixesStripped(items[i].s);
    }
  }

  // ----- one condition ----------------------------------------------------

  lemma ClauseSelects(env: Env, mapping: Mapping, c: Condition, doc: Value)
    requires c.field in mapping && Testing(c.op) && (c.op.In? || c.op.Cidr? ==> Candidates(c.value) != [])
    ensures var insensitive := CaseInsensitiveAllowed(mapping, c.field, !c.caseSensitive);
            Selects(env, mapping, PositiveClause(mapping, c).query, doc) <==>
            exists v :: v in Leaves(doc, c.field) && ClauseMatches(env, mapping[c.field], c, v, insensitive)
  {
    if c.op.In? || c.op.Cidr? {
      var insensitive := c.op.In? && CaseInsensitiveAllowed(mapping, c.field, !c.caseSensitive);
      TermsSelect(env, mapping, c.field, Candidates(c.value), insensitive, doc);
    } else if c.op.Contains? || c.op.StartsWith? || c.op.EndsWith? {
      TextClauseSelects(env, mapping, c, doc);
    } else {
      PlainClauseSelects(env, mapping, c, doc);
    }
  }

  lemma TextClauseSelects(env: Env, mapping: Mapping, c: Condition, doc: Value)
    requires c.field in mapping && (c.op.Contains? || c.op.StartsWith? || c.op.EndsWith?)
    ensures var insensitive := CaseInsensitiveAllowed(mapping, c.field, !c.caseSensitive);
            Selects(env, mapping, PositiveClause(mapping, c).query, doc) <==>
            exists v :: v in Leaves(doc, c.field) && ClauseMatches(env, mapping[c.field], c, v, insensitive)
  {
    match c.op
    case Contains =>
    case StartsWith =>
    case EndsWith =>
  }

  lemma PlainClauseSelects(env: Env, mapping: Mapping, c: Condition, doc: Value)
    requires c.field in mapping && (c.op.Equals? || c.op.Gt? || c.op.Gte? || c.op.Lt? || c.op.Lte?)
    ensures var insensitive := CaseInsensitiveAllowed(mapping, c.field, !c.caseSensitive);
            Selects(env, mapping, PositiveClause(mapping, c).query, doc) <==>
            exists v :: v in Leaves(doc, c.field) && ClauseMatches(env, mapping[c.field], c, v, insensitive)
  {
    if !c.op.Equals? {
      assert PositiveClause(mapping, c).query == Range(c.field, RangeOf(c.op), c.value);
    }
  }

  lemma TermsSelect(env: Env, mapping: Mapping, f: Path, items: seq<Value>, insensitive: bool, doc: Value)
    requires f in mapping && items != []
    ensures Selects(env, mapping, AnyOf(Terms(f, items, insensitive)), doc) <==>
            exists v :: v in Leaves(doc, f) &&
              exists i :: 0 <= i < |items| && TermMatches(env, mapping[f], v, TextOf(items[i]), insensitive)
  {
    var qs := Terms(f, items, insensitive);
    forall i | 0 <= i < |items|
      ensures Selects(env, mapping, qs[i], doc) <==>
              exists v :: v in Leaves(doc, f) && TermMatches(env, mapping[f], v, TextOf(items[i]), insensitive)
    {
    }
  }

  lemma NoneOfSelects(env: Env, mapping: Mapping, q: Query, doc: Value)
    ensures Selects(env, mapping, NoneOf(q), doc) <==> !Selects(env, mapping, q, doc)
  {
    assert NoneOf(q).mustNot[0] == q;
  }

  /** For an operator that is not negative, the compiled clause selects exactly
      the documents the evaluator accepts, however many values the field has. */
  lemma PositiveAgrees(env: Env, mapping: Mapping, c: Condition, doc: Value)
    requires EnvOk(env) && WellTyped(env, mapping, c) && Positive(c.op).None?
    requires FieldFits(env, mapping[c.field], doc, c.field)
    ensures CompileCondition(mapping, c).Ok?
    ensures Selects(env, mapping, CompileCondition(mapping, c).query, doc) <==> EvaluateCondition(env, c, doc)
  {
    ResolvedIsIndexed(doc, c.field);
    if c.op.Exists? {
      NoneOfSelects(env, mapping, ExistsQuery(c.field), doc);
    } else {
      ClauseSelects(env, mapping, c, doc);
      forall v | v in Leaves(doc, c.field)
        ensures MatchesValue(env, c, v) <==>
                ClauseMatches(env, mapping[c.field], c, v, CaseInsensitiveAllowed(mapping, c.field, !c.caseSensitive))
      {
        ValueAgrees(env, mapping, c, v);
      }
    }
  }

  /** The condition a negative operator inverts. */
  function Inverted(c: Condition): Condition
    requires Positive(c.op).Some?
  {
    c.(op := Positive(c.op).value)
  }

  /** A field holds both a value the positive test accepts and one it does not. */
  predicate Mixed(env: Env, c: Condition, doc: Value)
    requires Positive(c.op).Some?
  {
    && (exists v :: v in Leaves(doc, c.field) && MatchesValue(env, Inverted(c), v))
    && (exists v :: v in Leaves(doc, c.field) && !MatchesValue(env, Inverted(c), v))
  }

  /** A negative operator is "some value does not match" in the evaluator and
      "the field exists and no value matches" in the store. They part exactly
      on fields with values on both sides, and then only the evaluator accepts. */
  lemma NegativeAgreesExactly(env: Env, mapping: Mapping, c: Condition, doc: Value)
    requires EnvOk(env) && WellTyped(env, mapping, c) && Positive(c.op).Some?
    requires FieldFits(env, mapping[c.field], doc, c.field)
    ensures CompileCondition(mapping, c).Ok?
    ensures var selected := Selects(env, mapping, CompileCondition(mapping, c).query, doc);
            var accepted := EvaluateCondition(env, c, doc);
            && (selected ==> accepted)
            && ((selected <==> accepted) <==> !Mixed(env, c, doc))
  {
    PositiveAgrees(env, mapping, Inverted(c), doc);
    NegativeSelects(env, mapping, c, doc);
    NegativeEvaluates(env, c, doc);
    if Leaves(doc, c.field) != [] { assert Leaves(doc, c.field)[0] in Leaves(doc, c.field); }
  }

  /** A negative condition compiles to "the field exists and the positive clause
      does not select". */
  lemma NegativeSelects(env: Env, mapping: Mapping, c: Condition, doc: Value)
    requires Positive(c.op).Some?
    ensures PositiveClause(mapping, Inverted(c)).Ok? && CompileCondition(mapping, c).Ok?
    ensures Selects(env, mapping, CompileCondition(mapping, c).query, doc) <==>
            c.field in mapping && Leaves(doc, c.field) != [] && !Selects(env, mapping, PositiveClause(mapping, Inverted(c)).query, doc)
  {
    var clause, q := PositiveClause(mapping, Inverted(c)).query, CompileCondition(mapping, c).query;
    assert q == BoolQuery([ExistsQuery(c.field)], [], [], [clause]);
    assert q.must[0] == ExistsQuery(c.field) && q.mustNot[0] == clause;
  }

  /** The evaluator asks it of each value on its own. */
  lemma NegativeEvaluates(env: Env, c: Condition, doc: Value)
    requires Positive(c.op).Some? && Fits(doc, c.field)
    ensures EvaluateCondition(env, c, doc) <==> exists v :: v in Leaves(doc, c.field) && !MatchesValue(env, Inverted(c), v)
    ensures EvaluateCondition(env, Inverted(c), doc) <==> exists v :: v in Leaves(doc, c.field) && MatchesValue(env, Inverted(c), v)
  {
    ResolvedIsIndexed(doc, c.field);
    assert forall v :: MatchesValue(env, c, v) <==> !MatchesValue(env, Inverted(c), v);
  }

  predicate SingleValued(doc: Value, f: Path) {
    |Leaves(doc, f)| <= 1
  }

  lemma SingleIsNotMixed(env: Env, c: Condition, doc: Value)
    requires Positive(c.op).Some? && SingleValued(doc, c.field)
    ensures !Mixed(env, c, doc)
  {
  }

  // ----- whole trees ------------------------------------------------------

  /** The document has at most one value in every field the tree tests negatively. */
  predicate NegatedFieldsSingle(node: Node, doc: Value) {
    match node
    case Leaf(c) => Positive(c.op).Some? ==> SingleValued(doc, c.field)
    case All(nodes) => forall i :: 0 <= i < |nodes| ==> NegatedFieldsSingle(nodes[i], doc)
    case Any(nodes) => forall i :: 0 <= i < |nodes| ==> NegatedFieldsSingle(nodes[i], doc)
    case Not(inner) => NegatedFieldsSingle(inner, doc)
  }

  lemma LeafAgrees(env: Env, mapping: Mapping, c: Condition, doc: Value)
    requires EnvOk(env) && WellTyped(env, mapping, c) && FieldFits(env, mapping[c.field], doc, c.field)
    requires Positive(c.op).Some? ==> SingleValued(doc, c.field)
    ensures CompileCondition(mapping, c).Ok?
    ensures Selects(env, mapping, CompileCondition(mapping, c).query, doc) <==> EvaluateCondition(env, c, doc)
  {
    if Positive(c.op).Some? {
      NegativeAgreesExactly(env, mapping, c, doc);
      SingleIsNotMixed(env, c, doc);
    } else {
      PositiveAgrees(env, mapping, c, doc);
    }
  }

  /** Both paths give the same verdict on this document. */
  predicate Agrees(env: Env, mapping: Mapping, c: Condition, doc: Value) {
    var q := CompileCondition(mapping, c);
    q.Ok? && (Selects(env, mapping, q.query, doc) <==> EvaluateCondition(env, c, doc))
  }

  /** Every condition in the tree gets the same verdict on both paths. */
  predicate LeavesAgree(env: Env, mapping: Mapping, node: Node, doc: Value) {
    match node
    case Leaf(c) => Agrees(env, mapping, c, doc)
    case All(nodes) => nodes != [] && forall i :: 0 <= i < |nodes| ==> LeavesAgree(env, mapping, nodes[i], doc)
    case Any(nodes) => nodes != [] && forall i :: 0 <= i < |nodes| ==> LeavesAgree(env, mapping, nodes[i], doc)
    case Not(inner) => LeavesAgree(env, mapping, inner, doc)
  }

  lemma {:induction false} AgreeingCompiles(env: Env, mapping: Mapping, node: Node, doc: Value)
    requires LeavesAgree(env, mapping, node, doc)
    ensures CompileNode(mapping, node).Ok?
    decreases node, 1
  {
    match node
    case Leaf(c) =>
    case All(nodes) => AllAgreeingCompile(env, mapping, nodes, doc);
    case Any(nodes) => AllAgreeingCompile(env, mapping, nodes, doc);
    case Not(inner) => AgreeingCompiles(env, mapping, inner, doc);
  }

  lemma {:induction false} AllAgreeingCompile(env: Env, mapping: Mapping, nodes: seq<Node>, doc: Value)
    requires forall i :: 0 <= i < |nodes| ==> LeavesAgree(env, mapping, nodes[i], doc)
    ensures CompileAll(mapping, nodes).Some?
    decreases nodes, 0
  {
    if nodes != [] {
      AgreeingCompiles(env, mapping, nodes[0], doc);
      AllAgreeingCompile(env, mapping, nodes[1..], doc);
    }
  }

  /** Compilation is compositional: whatever the fields and types, a tree means
      the same on both paths as soon as each of its conditions does. */
  lemma {:induction false} TreeAgrees(env: Env, mapping: Mapping, node: Node, doc: Value)
    requires LeavesAgree(env, mapping, node, doc)
    ensures CompileNode(mapping, node).Ok?
    ensures Selects(env, mapping, CompileNode(mapping, node).query, doc) <==> EvaluateNode(env, node, doc)
    decreases node
  {
    AgreeingCompiles(env, mapping, node, doc);
    match node
    case Leaf(c) =>
    case Not(inner) =>
      TreeAgrees(env, mapping, inner, doc);
      NoneOfSelects(env, mapping, CompileNode(mapping, inner).query, doc);
    case All(nodes) =>
      GroupAgrees(env, mapping, nodes, doc);
      AllMeans(env, mapping, nodes, CompileAll(mapping, nodes).value, doc);
    case Any(nodes) =>
      GroupAgrees(env, mapping, nodes, doc);
      AnyMeans(env, mapping, nodes, CompileAll(mapping, nodes).value, doc);
  }

  lemma AllMeans(env: Env, mapping: Mapping, nodes: seq<Node>, qs: seq<Query>, doc: Value)
    requires |qs| == |nodes|
    requires forall i :: 0 <= i < |nodes| ==> (Selects(env, mapping, qs[i], doc) <==> EvaluateNode(env, nodes[i], doc))
    ensures Selects(env, mapping, BoolQuery([], qs, [], []), doc) <==> EvaluateNode(env, All(nodes), doc)
  {
  }

  lemma AnyMeans(env: Env, mapping: Mapping, nodes: seq<Node>, qs: seq<Query>, doc: Value)
    requires |qs| == |nodes| && nodes != []
    requires forall i :: 0 <= i < |nodes| ==> (Selects(env, mapping, qs[i], doc) <==> EvaluateNode(env, nodes[i], doc))
    ensures Selects(env, mapping, AnyOf(qs), doc) <==> EvaluateNode(env, Any(nodes), doc)
  {
  }

  lemma {:induction false} GroupAgrees(env: Env, mapping: Mapping, nodes: seq<Node>, doc: Value)
    requires CompileAll(mapping, nodes).Some? && forall i :: 0 <= i < |nodes| ==> LeavesAgree(env, mapping, nodes[i], doc)
    ensures forall i :: 0 <= i < |nodes| ==>
              (Selects(env, mapping, CompileAll(mapping, nodes).value[i], doc) <==> EvaluateNode(env, nodes[i], doc))
    decreases nodes
  {
    forall i | 0 <= i < |nodes|
      ensures Selects(env, mapping, CompileAll(mapping, nodes).value[i], doc) <==> EvaluateNode(env, nodes[i], doc)
    {
      CompileAllAt(mapping, nodes, i);
      TreeAgrees(env, mapping, nodes[i], doc);
    }
  }

  lemma {:induction false} WellTypedAgree(env: Env, mapping: Mapping, node: Node, doc: Value)
    requires EnvOk(env) && TreeWellTyped(env, mapping, node) && DocFits(env, mapping, doc)
    requires NegatedFieldsSingle(node, doc)
    ensures LeavesAgree(env, mapping, node, doc)
    decreases node
  {
    match node
    case Leaf(c) => LeafAgrees(env, mapping, c, doc);
    case Not(inner) => WellTypedAgree(env, mapping, inner, doc);
    case All(nodes) =>
      forall i | 0 <= i < |nodes| ensures LeavesAgree(env, mapping, nodes[i], doc) { WellTypedAgree(env, mapping, nodes[i], doc); }
    case Any(nodes) =>
      forall i | 0 <= i < |nodes| ensures LeavesAgree(env, mapping, nodes[i], doc) { WellTypedAgree(env, mapping, nodes[i], doc); }
  }

  /** The compiler preserves meaning: under any nesting of all, any and not,
      and with absent fields, the query selects exactly what the evaluator
      accepts. */
  lemma CompilerPreservesMeaning(env: Env, mapping: Mapping, node: Node, doc: Value)
    requires EnvOk(env) && TreeWellTyped(env, mapping, node) && DocFits(env, mapping, doc)
    requires NegatedFieldsSingle(node, doc)
    ensures CompileNode(mapping, node).Ok?
    ensures Selects(env, mapping, CompileNode(mapping, node).query, doc) <==> EvaluateNode(env, node, doc)
  {
    WellTypedAgree(env, mapping, node, doc);
    TreeAgrees(env, mapping, node, doc);
  }

  predicate NotFree(node: Node) {
    match node
    case Leaf(_) => true
    case All(nodes) => forall i :: 0 <= i < |nodes| ==> NotFree(nodes[i])
    case Any(nodes) => forall i :: 0 <= i < |nodes| ==> NotFree(nodes[i])
    case Not(_) => false
  }

  /** Without a `not` group, and with any number of values per field, the
      windowed path never selects what the streaming path would not accept. */
  lemma {:induction false} NeverOverMatches(env: Env, mapping: Mapping, node: Node, doc: Value)
    requires EnvOk(env) && TreeWellTyped(env, mapping, node) && DocFits(env, mapping, doc) && NotFree(node)
    requires CompileNode(mapping, node).Ok? && Selects(env, mapping, CompileNode(mapping, node).query, doc)
    ensures EvaluateNode(env, node, doc)
    decreases node
  {
    match node
    case Leaf(c) =>
      if Positive(c.op).Some? { NegativeAgreesExactly(env, mapping, c, doc); } else { PositiveAgrees(env, mapping, c, doc); }
    case All(nodes) =>
      var qs := CompileAll(mapping, nodes).value;
      forall i | 0 <= i < |nodes| ensures EvaluateNode(env, nodes[i], doc) {
        CompileAllAt(mapping, nodes, i);
        assert Selects(env, mapping, qs[i], doc);
        NeverOverMatches(env, mapping, nodes[i], doc);
      }
    case Any(nodes) =>
      var qs := CompileAll(mapping, nodes).value;
      var i :| 0 <= i < |qs| && Selects(env, mapping, qs[i], doc);
      CompileAllAt(mapping, nodes, i);
      NeverOverMatches(env, mapping, nodes[i], doc);
  }
}
