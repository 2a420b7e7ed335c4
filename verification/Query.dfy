/** The compiler from rule conditions to event-store queries, and the store's
    own reading of such a query. */
module Query {
  import opened Text
  import opened Documents
  import opened Conditions
  import Wildcard

  datatype RangeOp = GreaterThan | AtLeast | LessThan | AtMost

  datatype Query =
    | Term(field: Path, value: string, insensitive: bool)
    | Prefix(field: Path, value: string, insensitive: bool)
    | WildcardQuery(field: Path, pattern: string, insensitive: bool)
    | Range(field: Path, bound: RangeOp, limit: Value)
    | ExistsQuery(field: Path)
    | BoolQuery(must: seq<Query>, filter: seq<Query>, should: seq<Query>, mustNot: seq<Query>)

  datatype Compiled = Ok(query: Query) | Unsupported(op: Operator)

  /** Types of the fields the index declares. An instant is a number. */
  datatype FieldType = Keyword | Number | Boolean | Ip | Date

  type Mapping = map<Path, FieldType>

  // ----- the compiler -----------------------------------------------------

  predicate CaseInsensitiveAllowed(mapping: Mapping, field: Path, requested: bool) {
    requested && (field in mapping ==> mapping[field].Keyword?)
  }

  /** `_text`: booleans in lower case, everything else as it prints. */
  function TextOf(v: Value): string {
    if AsText(v).Some? then AsText(v).value else ""
  }

  function Terms(field: Path, values: seq<Value>, insensitive: bool): (qs: seq<Query>)
    ensures |qs| == |values|
    ensures forall i :: 0 <= i < |qs| ==> qs[i] == Term(field, TextOf(values[i]), insensitive)
  {
    seq(|values|, i requires 0 <= i < |values| => Term(field, TextOf(values[i]), insensitive))
  }

  function AnyOf(qs: seq<Query>): Query {
    BoolQuery([], [], qs, [])
  }

  function NoneOf(q: Query): Query {
    BoolQuery([], [], [], [q])
  }

  function RangeOf(op: Operator): RangeOp {
    match op
    case Gt => GreaterThan
    case Gte => AtLeast
    case Lt => LessThan
    case _ => AtMost
  }

  function PositiveClause(mapping: Mapping, c: Condition): Compiled {
    var insensitive := CaseInsensitiveAllowed(mapping, c.field, !c.caseSensitive);
    match c.op
    case Equals => Ok(Term(c.field, TextOf(c.value), insensitive))
    case In => Ok(AnyOf(Terms(c.field, Candidates(c.value), insensitive)))
    case Contains => Ok(WildcardQuery(c.field, "*" + Wildcard.Escape(TextOf(c.value)) + "*", insensitive))
    case StartsWith => Ok(Prefix(c.field, TextOf(c.value), insensitive))
    case EndsWith => Ok(WildcardQuery(c.field, "*" + Wildcard.Escape(TextOf(c.value)), insensitive))
    case Gt => Ok(Range(c.field, RangeOf(c.op), c.value))
    case Gte => Ok(Range(c.field, RangeOf(c.op), c.value))
    case Lt => Ok(Range(c.field, RangeOf(c.op), c.value))
    case Lte => Ok(Range(c.field, RangeOf(c.op), c.value))
    case Cidr => Ok(AnyOf(Terms(c.field, Candidates(c.value), false)))
    case Exists => if c.value == Bool(true) then Ok(ExistsQuery(c.field)) else Ok(NoneOf(ExistsQuery(c.field)))
    case _ => Unsupported(c.op)
  }

  /** The operator a negative operator inverts. */
  function Positive(op: Operator): Option<Operator> {
    match op
    case NotEquals => Some(Equals)
    case NotContains => Some(Contains)
    case NotIn => Some(In)
    case _ => None
  }

  function CompileCondition(mapping: Mapping, c: Condition): Compiled {
    var positive := Positive(c.op);
    if positive.None? then PositiveClause(mapping, c)
    else
      var clause := PositiveClause(mapping, c.(op := positive.value));
      if clause.Unsupported? then clause
      else Ok(BoolQuery([ExistsQuery(c.field)], [], [], [clause.query]))
  }

  function CompileNode(mapping: Mapping, node: Node): Compiled {
    match node
    case Leaf(c) => CompileCondition(mapping, c)
    case All(nodes) =>
      var r := CompileAll(mapping, nodes);
      if r.None? then Unsupported(Matches) else Ok(BoolQuery([], r.value, [], []))
    case Any(nodes) =>
      var r := CompileAll(mapping, nodes);
      if r.None? then Unsupported(Matches) else Ok(AnyOf(r.value))
    case Not(inner) =>
      var r := CompileNode(mapping, inner);
      if r.Unsupported? then r else Ok(NoneOf(r.query))
  }

  function CompileAll(mapping: Mapping, nodes: seq<Node>): (r: Option<seq<Query>>)
    ensures r.Some? ==> |r.value| == |nodes|
  {
    if nodes == [] then Some([])
    else
      var first, rest := CompileNode(mapping, nodes[0]), CompileAll(mapping, nodes[1..]);
      if first.Unsupported? || rest.None? then None else Some([first.query] + rest.value)
  }

  function UnsupportedOperators(node: Node): seq<Operator> {
    match node
    case Leaf(c) => if c.op.Matches? then [c.op] else []
    case All(nodes) => UnsupportedAll(nodes)
    case Any(nodes) => UnsupportedAll(nodes)
    case Not(inner) => UnsupportedOperators(inner)
  }

  function UnsupportedAll(nodes: seq<Node>): seq<Operator> {
    if nodes == [] then [] else UnsupportedOperators(nodes[0]) + UnsupportedAll(nodes[1..])
  }

  /** Compilation succeeds exactly on the trees the loader lets through. */
  lemma {:induction false} CompilesExactlyWhenSupported(mapping: Mapping, node: Node)
    ensures CompileNode(mapping, node).Ok? <==> UnsupportedOperators(node) == []
    decreases node, 1
  {
    match node
    case Leaf(c) =>
    case All(nodes) => AllCompileExactlyWhenSupported(mapping, nodes);
    case Any(nodes) => AllCompileExactlyWhenSupported(mapping, nodes);
    case Not(inner) => CompilesExactlyWhenSupported(mapping, inner);
  }

  lemma {:induction false} AllCompileExactlyWhenSupported(mapping: Mapping, nodes: seq<Node>)
    ensures CompileAll(mapping, nodes).Some? <==> UnsupportedAll(nodes) == []
    decreases nodes, 0
  {
    if nodes != [] {
      CompilesExactlyWhenSupported(mapping, nodes[0]);
      AllCompileExactlyWhenSupported(mapping, nodes[1..]);
    }
  }

  lemma {:induction false} CompileAllAt(mapping: Mapping, nodes: seq<Node>, i: nat)
    requires CompileAll(mapping, nodes).Some? && i < |nodes|
    ensures CompileNode(mapping, nodes[i]) == Ok(CompileAll(mapping, nodes).value[i])
    decreases nodes
  {
    if i > 0 { CompileAllAt(mapping, nodes[1..], i - 1); }
  }

  // ----- the event store --------------------------------------------------

  function QueryFold(env: Env, insensitive: bool): char -> char {
    FoldFor(env, !insensitive)
  }

  /** One indexed value against one term, by the type of the field. */
  predicate TermMatches(env: Env, t: FieldType, v: Value, term: string, insensitive: bool) {
    match t
    case Keyword =>
      AsText(v).Some? &&
      Folded(AsText(v).value, QueryFold(env, insensitive)) == Folded(term, QueryFold(env, insensitive))
    case Number => AsNumber(env, v).Some? && AsNumber(env, v) == AsNumber(env, Str(term))
    case Boolean => AsText(v) == Some(term)
    case Ip => AsText(v).Some? && env.inNetwork(AsText(v).value, term)
    case Date => v.Num? && AsNumber(env, v) == AsNumber(env, Str(term))
  }

  predicate RangeMatches(env: Env, v: Value, bound: RangeOp, limit: Value) {
    var x, y := AsNumber(env, v), AsNumber(env, limit);
    x.Some? && y.Some? &&
    match bound
    case GreaterThan => x.value > y.value
    case AtLeast => x.value >= y.value
    case LessThan => x.value < y.value
    case AtMost => x.value <= y.value
  }

  predicate PrefixMatches(env: Env, v: Value, prefix: string, insensitive: bool) {
    AsText(v).Some? && Folded(prefix, QueryFold(env, insensitive)) <= Folded(AsText(v).value, QueryFold(env, insensitive))
  }

  predicate WildcardMatches(env: Env, v: Value, pattern: string, insensitive: bool) {
    AsText(v).Some? && Wildcard.Accepts(pattern, AsText(v).value, QueryFold(env, insensitive))
  }

  /** Which documents a query selects. A field the mapping does not declare is
      not indexed; a bool query with no clause at all selects everything. */
  predicate Selects(env: Env, mapping: Mapping, q: Query, doc: Value) {
    match q
    case Term(f, term, insensitive) =>
      f in mapping && exists v :: v in Leaves(doc, f) && TermMatches(env, mapping[f], v, term, insensitive)
    case Prefix(f, prefix, insensitive) =>
      f in mapping && exists v :: v in Leaves(doc, f) && PrefixMatches(env, v, prefix, insensitive)
    case WildcardQuery(f, pattern, insensitive) =>
      f in mapping && exists v :: v in Leaves(doc, f) && WildcardMatches(env, v, pattern, insensitive)
    case Range(f, bound, limit) =>
      f in mapping && exists v :: v in Leaves(doc, f) && RangeMatches(env, v, bound, limit)
    case ExistsQuery(f) => f in mapping && Leaves(doc, f) != []
    case BoolQuery(must, filter, should, mustNot) =>
      && (forall i :: 0 <= i < |must| ==> Selects(env, mapping, must[i], doc))
      && (forall i :: 0 <= i < |filter| ==> Selects(env, mapping, filter[i], doc))
      && (should == [] || exists i :: 0 <= i < |should| && Selects(env, mapping, should[i], doc))
      && (forall i :: 0 <= i < |mustNot| ==> !Selects(env, mapping, mustNot[i], doc))
  }

  /** The term reads as a value of the field's type. */
  predicate ReadsAs(env: Env, t: FieldType, term: string) {
    match t
    case Keyword => true
    case Number => AsNumber(env, Str(term)).Some?
    case Boolean => term == "true" || term == "false"
    case Ip => env.isNetwork(term)
    case Date => AsNumber(env, Str(term)).Some?
  }

  predicate LimitReadsAs(env: Env, t: FieldType, limit: Value) {
    match t
    case Keyword => Scalar(limit)
    case Number => AsNumber(env, limit).Some?
    case Date => AsNumber(env, limit).Some?
    case _ => Scalar(limit) && ReadsAs(env, t, TextOf(limit))
  }

  /** Queries the store runs at all; it refuses text options on fields that
      are not text, and terms that do not read as the field's type. */
  predicate Accepted(env: Env, mapping: Mapping, q: Query) {
    match q
    case Term(f, term, insensitive) =>
      f in mapping ==> ReadsAs(env, mapping[f], term) && (insensitive ==> mapping[f].Keyword?)
    case Prefix(f, _, _) => f in mapping ==> mapping[f].Keyword?
    case WildcardQuery(f, _, _) => f in mapping ==> mapping[f].Keyword?
    case Range(f, _, limit) => f in mapping ==> LimitReadsAs(env, mapping[f], limit)
    case ExistsQuery(_) => true
    case BoolQuery(must, filter, should, mustNot) =>
      && (forall i :: 0 <= i < |must| ==> Accepted(env, mapping, must[i]))
      && (forall i :: 0 <= i < |filter| ==> Accepted(env, mapping, filter[i]))
      && (forall i :: 0 <= i < |should| ==> Accepted(env, mapping, should[i]))
      && (forall i :: 0 <= i < |mustNot| ==> Accepted(env, mapping, mustNot[i]))
  }
}
