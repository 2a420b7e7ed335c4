/** The rule grammar and its streaming evaluator. */
module Conditions {
  import opened Text
  import opened Documents

  datatype Operator =
    | Equals | NotEquals | Contains | NotContains | StartsWith | EndsWith | Matches
    | In | NotIn | Gt | Gte | Lt | Lte | Exists | Cidr

  datatype Condition = Condition(field: Path, op: Operator, value: Value, caseSensitive: bool)

  datatype Node =
    | Leaf(c: Condition)
    | All(nodes: seq<Node>)
    | Any(nodes: seq<Node>)
    | Not(node: Node)

  /** What the evaluator and the event store both leave to a library: folding
      one character, reading a number, regular expressions, networks, and
      whether a text is an address or a network at all. */
  datatype Env = Env(
    fold: char -> char,
    parse: string -> Option<real>,
    regex: (string, string, bool) -> bool,
    inNetwork: (string, string) -> bool,
    isNetwork: string -> bool)

  function AsText(v: Value): Option<string> {
    match v
    case Str(s) => Some(s)
    case Bool(b) => Some(if b then "true" else "false")
    case Num(_, repr) => Some(repr)
    case _ => None
  }

  function AsNumber(env: Env, v: Value): Option<real> {
    match v
    case Num(n, _) => Some(n)
    case Str(s) => env.parse(Strip(s))
    case _ => None
  }

  function FoldFor(env: Env, caseSensitive: bool): char -> char {
    if caseSensitive then c => c else env.fold
  }

  function Equal(env: Env, left: Value, right: Value, caseSensitive: bool): bool {
    var ln, rn := AsNumber(env, left), AsNumber(env, right);
    var lt, rt := AsText(left), AsText(right);
    if ln.Some? && rn.Some? then ln.value == rn.value
    else if lt.None? || rt.None? then left == right
    else Folded(lt.value, FoldFor(env, caseSensitive)) == Folded(rt.value, FoldFor(env, caseSensitive))
  }

  /** Both sides as folded text, when both have one. */
  function TextPair(env: Env, left: Value, right: Value, caseSensitive: bool): Option<(string, string)> {
    var lt, rt := AsText(left), AsText(right);
    if lt.None? || rt.None? then None
    else Some((Folded(lt.value, FoldFor(env, caseSensitive)), Folded(rt.value, FoldFor(env, caseSensitive))))
  }

  function Compare(env: Env, left: Value, right: Value, op: Operator): bool {
    var ln, rn := AsNumber(env, left), AsNumber(env, right);
    ln.Some? && rn.Some? &&
    match op
    case Gt => ln.value > rn.value
    case Gte => ln.value >= rn.value
    case Lt => ln.value < rn.value
    case _ => ln.value <= rn.value
  }

  /** The operands a rule value stands for: the items of a list, or the value
      itself. */
  function Candidates(expected: Value): seq<Value> {
    if expected.List? then expected.items else [expected]
  }

  function CidrMatch(env: Env, v: Value, networks: Value): bool {
    var address := AsText(v);
    address.Some? &&
    exists i :: 0 <= i < |Candidates(networks)| && AsText(Candidates(networks)[i]).Some? &&
      env.inNetwork(Strip(address.value), Strip(AsText(Candidates(networks)[i]).value))
  }

  function AnyEqual(env: Env, v: Value, candidates: seq<Value>, caseSensitive: bool): bool {
    exists i :: 0 <= i < |candidates| && Equal(env, v, candidates[i], caseSensitive)
  }

  /** Whether one resolved value satisfies the condition's operator. */
  function MatchesValue(env: Env, c: Condition, v: Value): bool {
    var pair := TextPair(env, v, c.value, c.caseSensitive);
    match c.op
    case Equals => Equal(env, v, c.value, c.caseSensitive)
    case NotEquals => !Equal(env, v, c.value, c.caseSensitive)
    case Contains => pair.Some? && Occurs(pair.value.1, pair.value.0)
    case NotContains => !(pair.Some? && Occurs(pair.value.1, pair.value.0))
    case StartsWith => pair.Some? && pair.value.1 <= pair.value.0
    case EndsWith => pair.Some? && HasSuffix(pair.value.0, pair.value.1)
    case Matches => AsText(v).Some? && c.value.Str? && env.regex(AsText(v).value, c.value.s, c.caseSensitive)
    case In => AnyEqual(env, v, Candidates(c.value), c.caseSensitive)
    case NotIn => !AnyEqual(env, v, Candidates(c.value), c.caseSensitive)
    case Cidr => CidrMatch(env, v, c.value)
    case Exists => false
    case _ => Compare(env, v, c.value, c.op)
  }

  predicate EvaluateCondition(env: Env, c: Condition, document: Value) {
    var values := NonNull(Resolve([document], c.field));
    if c.op.Exists? then (values != []) == (c.value == Bool(true))
    else exists v :: v in values && MatchesValue(env, c, v)
  }

  predicate EvaluateNode(env: Env, node: Node, document: Value) {
    match node
    case Leaf(c) => EvaluateCondition(env, c, document)
    case All(nodes) => forall i :: 0 <= i < |nodes| ==> EvaluateNode(env, nodes[i], document)
    case Any(nodes) => exists i :: 0 <= i < |nodes| && EvaluateNode(env, nodes[i], document)
    case Not(inner) => !EvaluateNode(env, inner, document)
  }
}
