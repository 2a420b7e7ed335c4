/** Which compiled queries the event store runs at all. A rule that loads and
    compiles can still be refused there: exactly when is a question about each
    condition's operator, its field's type and its operand. */
module CompilerAccepted {
  import opened Documents
  import opened Conditions
  import opened Query
  import opened CompilerCorrect

  predicate TextOperator(op: Operator) {
    op.Contains? || op.NotContains? || op.StartsWith? || op.EndsWith?
  }

  /** What a loader could check before compiling. */
  predicate Askable(env: Env, mapping: Mapping, c: Condition) {
    c.field in mapping ==>
      var t := mapping[c.field];
      match c.op
      case Exists => true
      case Equals => ReadsAs(env, t, TextOf(c.value))
      case NotEquals => ReadsAs(env, t, TextOf(c.value))
      case In => forall e :: e in Candidates(c.value) ==> ReadsAs(env, t, TextOf(e))
      case NotIn => forall e :: e in Candidates(c.value) ==> ReadsAs(env, t, TextOf(e))
      case Cidr => forall e :: e in Candidates(c.value) ==> ReadsAs(env, t, TextOf(e))
      case Gt => LimitReadsAs(env, t, c.value)
      case Gte => LimitReadsAs(env, t, c.value)
      case Lt => LimitReadsAs(env, t, c.value)
      case Lte => LimitReadsAs(env, t, c.value)
      case _ => t.Keyword?
  }

  lemma TermsAccepted(env: Env, mapping: Mapping, f: Path, values: seq<Value>, insensitive: bool)
    requires f in mapping && (insensitive ==> mapping[f].Keyword?)
    ensures Accepted(env, mapping, AnyOf(Terms(f, values, insensitive))) <==>
            forall e :: e in values ==> ReadsAs(env, mapping[f], TextOf(e))
  {
    var qs := Terms(f, values, insensitive);
    forall i | 0 <= i < |values| ensures Accepted(env, mapping, qs[i]) <==> ReadsAs(env, mapping[f], TextOf(values[i])) {
    }
    if Accepted(env, mapping, AnyOf(qs)) {
      forall e | e in values ensures ReadsAs(env, mapping[f], TextOf(e)) {
        var i :| 0 <= i < |values| && values[i] == e;
        assert Accepted(env, mapping, qs[i]);
      }
    }
  }

  lemma PositiveAcceptedExactly(env: Env, mapping: Mapping, c: Condition)
    requires !c.op.Matches? && Positive(c.op).None?
    ensures PositiveClause(mapping, c).Ok?
    ensures Accepted(env, mapping, PositiveClause(mapping, c).query) <==> Askable(env, mapping, c)
  {
    var insensitive := c.op.In? && CaseInsensitiveAllowed(mapping, c.field, !c.caseSensitive);
    if c.op.In? || c.op.Cidr? {
      if c.field in mapping { TermsAccepted(env, mapping, c.field, Candidates(c.value), insensitive); }
    } else if c.op.Exists? {
      NoneOfAccepted(env, mapping, ExistsQuery(c.field));
    }
  }

  lemma NoneOfAccepted(env: Env, mapping: Mapping, q: Query)
    ensures Accepted(env, mapping, NoneOf(q)) <==> Accepted(env, mapping, q)
  {
    assert NoneOf(q).mustNot[0] == q;
  }

  /** The store runs a compiled condition exactly when its operator and operand
      can be asked of the field's type. */
  lemma AcceptedExactly(env: Env, mapping: Mapping, c: Condition)
    requires !c.op.Matches?
    ensures CompileCondition(mapping, c).Ok?
    ensures Accepted(env, mapping, CompileCondition(mapping, c).query) <==> Askable(env, mapping, c)
  {
    if Positive(c.op).Some? {
      PositiveAcceptedExactly(env, mapping, Inverted(c));
      var clause := PositiveClause(mapping, Inverted(c)).query;
      var q := CompileCondition(mapping, c).query;
      assert q == BoolQuery([ExistsQuery(c.field)], [], [], [clause]);
      assert q.mustNot[0] == clause;
      assert Askable(env, mapping, Inverted(c)) <==> Askable(env, mapping, c);
    } else {
      PositiveAcceptedExactly(env, mapping, c);
    }
  }

  predicate TreeAskable(env: Env, mapping: Mapping, node: Node) {
    match node
    case Leaf(c) => Askable(env, mapping, c)
    case All(nodes) => forall i :: 0 <= i < |nodes| ==> TreeAskable(env, mapping, nodes[i])
    case Any(nodes) => forall i :: 0 <= i < |nodes| ==> TreeAskable(env, mapping, nodes[i])
    case Not(inner) => TreeAskable(env, mapping, inner)
  }

  /** For every tree that loads: it compiles, and the store runs it if and only
      if every condition in it can be asked of its field. */
  lemma {:induction false} TreeAcceptedExactly(env: Env, mapping: Mapping, node: Node)
    requires CompileNode(mapping, node).Ok?
    ensures Accepted(env, mapping, CompileNode(mapping, node).query) <==> TreeAskable(env, mapping, node)
    decreases node
  {
    match node
    case Leaf(c) => AcceptedExactly(env, mapping, c);
    case Not(inner) =>
      TreeAcceptedExactly(env, mapping, inner);
      NoneOfAccepted(env, mapping, CompileNode(mapping, inner).query);
    case All(nodes) => GroupAcceptedExactly(env, mapping, node, nodes);
    case Any(nodes) => GroupAcceptedExactly(env, mapping, node, nodes);
  }

  lemma {:induction false} GroupAcceptedExactly(env: Env, mapping: Mapping, node: Node, nodes: seq<Node>)
    requires (node == All(nodes) || node == Any(nodes)) && CompileAll(mapping, nodes).Some?
    ensures (forall i :: 0 <= i < |nodes| ==> Accepted(env, mapping, CompileAll(mapping, nodes).value[i])) <==>
            forall i :: 0 <= i < |nodes| ==> TreeAskable(env, mapping, nodes[i])
    decreases node, 0
  {
    forall i | 0 <= i < |nodes|
      ensures Accepted(env, mapping, CompileAll(mapping, nodes).value[i]) <==> TreeAskable(env, mapping, nodes[i])
    {
      CompileAllAt(mapping, nodes, i);
      TreeAcceptedExactly(env, mapping, nodes[i]);
    }
  }

  /** A text operator on a declared field that is not text loads, compiles, and
      is refused by the store. */
  lemma TextOperatorRefused(env: Env, mapping: Mapping, c: Condition)
    requires c.field in mapping && !mapping[c.field].Keyword? && TextOperator(c.op)
    ensures UnsupportedOperators(Leaf(c)) == []
    ensures CompileNode(mapping, Leaf(c)).Ok? && !Accepted(env, mapping, CompileNode(mapping, Leaf(c)).query)
  {
    AcceptedExactly(env, mapping, c);
  }

  // ----- the case-insensitive option --------------------------------------

  /** The option is set on text fields only. */
  predicate CaseOptionsFit(mapping: Mapping, q: Query) {
    match q
    case Term(f, _, insensitive) => insensitive && f in mapping ==> mapping[f].Keyword?
    case Prefix(f, _, insensitive) => insensitive && f in mapping ==> mapping[f].Keyword?
    case WildcardQuery(f, _, insensitive) => insensitive && f in mapping ==> mapping[f].Keyword?
    case Range(_, _, _) => true
    case ExistsQuery(_) => true
    case BoolQuery(must, filter, should, mustNot) =>
      && (forall i :: 0 <= i < |must| ==> CaseOptionsFit(mapping, must[i]))
      && (forall i :: 0 <= i < |filter| ==> CaseOptionsFit(mapping, filter[i]))
      && (forall i :: 0 <= i < |should| ==> CaseOptionsFit(mapping, should[i]))
      && (forall i :: 0 <= i < |mustNot| ==> CaseOptionsFit(mapping, mustNot[i]))
  }

  lemma ConditionOptionsFit(mapping: Mapping, c: Condition)
    requires CompileCondition(mapping, c).Ok?
    ensures CaseOptionsFit(mapping, CompileCondition(mapping, c).query)
  {
  }

  /** Whatever the rule, no compiled query asks for case-insensitive matching on
      a declared field that is not text. */
  lemma {:induction false} OptionsAlwaysFit(mapping: Mapping, node: Node)
    requires CompileNode(mapping, node).Ok?
    ensures CaseOptionsFit(mapping, CompileNode(mapping, node).query)
    decreases node
  {
    match node
    case Leaf(c) => ConditionOptionsFit(mapping, c);
    case Not(inner) => OptionsAlwaysFit(mapping, inner);
    case All(nodes) =>
      forall i | 0 <= i < |nodes| ensures CaseOptionsFit(mapping, CompileAll(mapping, nodes).value[i]) {
        CompileAllAt(mapping, nodes, i);
        OptionsAlwaysFit(mapping, nodes[i]);
      }
    case Any(nodes) =>
      forall i | 0 <= i < |nodes| ensures CaseOptionsFit(mapping, CompileAll(mapping, nodes).value[i]) {
        CompileAllAt(mapping, nodes, i);
        OptionsAlwaysFit(mapping, nodes[i]);
      }
  }
}
