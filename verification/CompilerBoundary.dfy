/** Where the boundary lies: among the conditions the event store runs on a
    declared field, the well-typed ones are exactly those that mean the same on
    both paths. */
module CompilerBoundary {
  import opened Text
  import opened Documents
  import opened Conditions
  import opened Query
  import opened CompilerCorrect
  import opened CompilerLimits
  import opened CompilerAccepted

  predicate PlainOperand(env: Env, e: Value) {
    Scalar(e) && (e.Num? ==> env.parse(Strip(e.repr)) == Some(e.n))
  }

  predicate PlainOperands(env: Env, es: seq<Value>) {
    forall e :: e in es ==> PlainOperand(env, e)
  }

  /** Conditions whose reading by the event store is modelled: what an `exists`,
      a `cidr`, a text test, an equality test or a range may be asked of here. */
  predicate Modelled(env: Env, mapping: Mapping, c: Condition)
    requires c.field in mapping
  {
    var t := mapping[c.field];
    match c.op
    case Matches => false
    case Exists => c.value.Bool?
    case Cidr => NetworkTest(c) && (Candidates(c.value) == [] || t.Keyword? || t.Ip?)
    case Equals => PlainOperand(env, c.value) && !t.Ip? && !t.Date?
    case NotEquals => PlainOperand(env, c.value) && !t.Ip? && !t.Date?
    case In => c.value.List? && PlainOperands(env, c.value.items) && (c.value.items == [] || (!t.Ip? && !t.Date?))
    case NotIn => c.value.List? && PlainOperands(env, c.value.items) && (c.value.items == [] || (!t.Ip? && !t.Date?))
    case Gt => t.Number?
    case Gte => t.Number?
    case Lt => t.Number?
    case Lte => t.Number?
    case _ => Scalar(c.value)
  }

  /** Both paths agree on all documents the store can hold for the field, with at
      most one value where the condition is negative. */
  ghost predicate AgreesOnHeld(env: Env, mapping: Mapping, c: Condition)
    requires c.field in mapping
  {
    forall doc :: FieldFits(env, mapping[c.field], doc, c.field) && (Positive(c.op).Some? ==> SingleValued(doc, c.field)) ==>
      Agrees(env, mapping, c, doc)
  }

  // ----- what is not well typed -------------------------------------------

  predicate EmptyList(c: Condition) {
    (c.op.In? || c.op.NotIn? || c.op.Cidr?) && c.value == List([])
  }

  predicate NumberOnKeyword(env: Env, mapping: Mapping, c: Condition) {
    && c.field in mapping && mapping[c.field].Keyword? && EqualityTest(env, c)
    && exists e :: e in Candidates(c.value) && AsNumber(env, e).Some?
  }

  predicate NetworkOnKeyword(mapping: Mapping, c: Condition) {
    c.field in mapping && mapping[c.field].Keyword? && NetworkTest(c)
  }

  lemma OperandIsTyped(env: Env, t: FieldType, e: Value)
    requires EnvOk(env) && PlainOperand(env, e) && ReadsAs(env, t, TextOf(e)) && (t.Number? || t.Boolean?)
    ensures OperandFits(env, t, e)
  {
    StripFixesStripped("true");
    StripFixesStripped("false");
  }

  lemma EqualityIsCovered(env: Env, mapping: Mapping, c: Condition)
    requires EnvOk(env) && c.field in mapping && (c.op.Equals? || c.op.NotEquals? || c.op.In? || c.op.NotIn?)
    requires Askable(env, mapping, c) && Modelled(env, mapping, c)
    ensures WellTyped(env, mapping, c) || EmptyList(c) || NumberOnKeyword(env, mapping, c)
  {
    var t, es := mapping[c.field], Candidates(c.value);
    if es != [] {
      forall e | e in es ensures PlainOperand(env, e) && ReadsAs(env, t, TextOf(e)) {
      }
      if !t.Keyword? {
        forall e | e in es ensures OperandFits(env, t, e) { OperandIsTyped(env, t, e); }
      }
      if !c.value.List? { assert c.value in es; }
    }
  }

  /** A modelled condition the store runs is well typed, or belongs to one of
      three families. */
  lemma EveryConditionIsCovered(env: Env, mapping: Mapping, c: Condition)
    requires EnvOk(env) && c.field in mapping && Askable(env, mapping, c) && Modelled(env, mapping, c)
    ensures WellTyped(env, mapping, c) || EmptyList(c) || NumberOnKeyword(env, mapping, c) || NetworkOnKeyword(mapping, c)
  {
    if c.op.Equals? || c.op.NotEquals? || c.op.In? || c.op.NotIn? {
      EqualityIsCovered(env, mapping, c);
    }
  }

  // ----- each family disagrees somewhere ----------------------------------

  /** A value the store can hold for a field of this type. */
  function SomeValue(t: FieldType): Value {
    match t
    case Boolean => Bool(true)
    case Keyword => Str("")
    case Ip => Str("")
    case _ => Num(0.0, "0")
  }

  lemma HeldDisagreement(env: Env, mapping: Mapping, c: Condition, v: Value)
    requires c.field in mapping && ValueFits(env, mapping[c.field], v) && !Agrees(env, mapping, c, Nest(c.field, v))
    ensures !AgreesOnHeld(env, mapping, c)
  {
    NestLeaves(c.field, v);
    assert FieldFits(env, mapping[c.field], Nest(c.field, v), c.field);
  }

  lemma EmptyListFails(env: Env, mapping: Mapping, c: Condition)
    requires c.field in mapping && EmptyList(c)
    ensures !AgreesOnHeld(env, mapping, c)
  {
    var v := SomeValue(mapping[c.field]);
    NestLeaves(c.field, v);
    if c.op.NotIn? {
      EmptyNotInAgreesExactly(env, mapping, c.field, c.caseSensitive, Nest(c.field, v));
      assert c == Condition(c.field, NotIn, List([]), c.caseSensitive);
    } else {
      EmptyListDisagrees(env, mapping, c, Nest(c.field, v));
    }
    HeldDisagreement(env, mapping, c, v);
  }

  lemma NumberOnKeywordFails(env: Env, mapping: Mapping, c: Condition)
    requires NumberOnKeyword(env, mapping, c)
    ensures !AgreesOnHeld(env, mapping, c)
  {
    var e :| e in Candidates(c.value) && AsNumber(env, e).Some?;
    var x := PaddedNumber(env, e, Candidates(c.value), c.caseSensitive);
    PaddedNumberDisagrees(env, mapping, c, e, x);
    HeldDisagreement(env, mapping, c, Str(x));
  }

  lemma NetworkOnKeywordFails(env: Env, mapping: Mapping, c: Condition)
    requires NetworkOnKeyword(mapping, c)
    ensures !AgreesOnHeld(env, mapping, c)
  {
    KeywordCidrDisagrees(env, mapping, c);
  }

  /** Among the conditions the store runs on a declared field, the well-typed
      ones are exactly those on which the two paths never differ. */
  lemma WellTypedExactly(env: Env, mapping: Mapping, c: Condition)
    requires EnvOk(env) && c.field in mapping && Askable(env, mapping, c) && Modelled(env, mapping, c)
    ensures AgreesOnHeld(env, mapping, c) <==> WellTyped(env, mapping, c)
  {
    if WellTyped(env, mapping, c) {
      forall doc | FieldFits(env, mapping[c.field], doc, c.field) && (Positive(c.op).Some? ==> SingleValued(doc, c.field))
        ensures Agrees(env, mapping, c, doc)
      {
        LeafAgrees(env, mapping, c, doc);
      }
    } else {
      EveryConditionIsCovered(env, mapping, c);
      if EmptyList(c) {
        EmptyListFails(env, mapping, c);
      } else if NumberOnKeyword(env, mapping, c) {
        NumberOnKeywordFails(env, mapping, c);
      } else {
        NetworkOnKeywordFails(env, mapping, c);
      }
    }
  }
}
