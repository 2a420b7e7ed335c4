/** Event documents, how the rule evaluator reaches into them, and what the
    event store indexes of them. */
module Documents {
  /** A JSON value. A number carries the text it is written as. */
  datatype Value =
    | Null
    | Bool(b: bool)
    | Num(n: real, repr: string)
    | Str(s: string)
    | List(items: seq<Value>)
    | Obj(fields: map<string, Value>)

  /** A dotted path, split at its dots. */
  type Path = seq<string>

  // ----- resolve_path -----------------------------------------------------

  function Get(node: Value, segment: string): seq<Value> {
    if node.Obj? && segment in node.fields then [node.fields[segment]] else []
  }

  function GetAll(items: seq<Value>, segment: string): seq<Value> {
    if items == [] then [] else Get(items[0], segment) + GetAll(items[1..], segment)
  }

  /** One path segment from one node; a list fans out to its objects. */
  function StepNode(node: Value, segment: string): seq<Value> {
    if node.List? then GetAll(node.items, segment) else Get(node, segment)
  }

  function Step(nodes: seq<Value>, segment: string): seq<Value> {
    if nodes == [] then [] else StepNode(nodes[0], segment) + Step(nodes[1..], segment)
  }

  function Flatten(nodes: seq<Value>): seq<Value> {
    if nodes == [] then []
    else (if nodes[0].List? then nodes[0].items else [nodes[0]]) + Flatten(nodes[1..])
  }

  function Resolve(nodes: seq<Value>, path: Path): seq<Value>
    decreases |path|
  {
    if path == [] then Flatten(nodes) else Resolve(Step(nodes, path[0]), path[1..])
  }

  lemma {:induction false} ResolveNothing(path: Path)
    ensures Resolve([], path) == []
  {
    if path != [] { ResolveNothing(path[1..]); }
  }

  lemma {:induction false} StepConcat(a: seq<Value>, b: seq<Value>, segment: string)
    ensures Step(a + b, segment) == Step(a, segment) + Step(b, segment)
    decreases |a|
  {
    if a == [] {
      assert a + b == b;
    } else {
      assert (a + b)[1..] == a[1..] + b && (a + b)[0] == a[0];
      StepConcat(a[1..], b, segment);
      var first := StepNode(a[0], segment);
      assert first + (Step(a[1..], segment) + Step(b, segment)) == first + Step(a[1..], segment) + Step(b, segment);
    }
  }

  lemma {:induction false} GetAllConcat(a: seq<Value>, b: seq<Value>, segment: string)
    ensures GetAll(a + b, segment) == GetAll(a, segment) + GetAll(b, segment)
    decreases |a|
  {
    if a == [] {
      assert a + b == b;
    } else {
      assert (a + b)[1..] == a[1..] + b && (a + b)[0] == a[0];
      GetAllConcat(a[1..], b, segment);
      var first := Get(a[0], segment);
      assert first + (GetAll(a[1..], segment) + GetAll(b, segment)) == first + GetAll(a[1..], segment) + GetAll(b, segment);
    }
  }

  lemma {:induction false} FlattenConcat(a: seq<Value>, b: seq<Value>)
    ensures Flatten(a + b) == Flatten(a) + Flatten(b)
    decreases |a|
  {
    if a == [] {
      assert a + b == b;
    } else {
      assert (a + b)[1..] == a[1..] + b && (a + b)[0] == a[0];
      FlattenConcat(a[1..], b);
      var first := if a[0].List? then a[0].items else [a[0]];
      assert first + (Flatten(a[1..]) + Flatten(b)) == first + Flatten(a[1..]) + Flatten(b);
    }
  }

  method FanOut(items: seq<Value>, segment: string, following: seq<Value>) returns (r: seq<Value>)
    ensures r == following + GetAll(items, segment)
  {
    r := following;
    for i := 0 to |items|
      invariant r == following + GetAll(items[..i], segment)
    {
      assert items[..i + 1] == items[..i] + [items[i]];
      GetAllConcat(items[..i], [items[i]], segment);
      if items[i].Obj? && segment in items[i].fields {
        r := r + [items[i].fields[segment]];
      }
    }
    assert items[..|items|] == items;
  }

  method Follow(current: seq<Value>, segment: string) returns (following: seq<Value>)
    ensures following == Step(current, segment)
  {
    following := [];
    for i := 0 to |current|
      invariant following == Step(current[..i], segment)
    {
      var node := current[i];
      assert current[..i + 1] == current[..i] + [node];
      StepConcat(current[..i], [node], segment);
      assert Step([node], segment) == StepNode(node, segment) by { assert [node][1..] == []; }
      if node.Obj? {
        if segment in node.fields { following := following + [node.fields[segment]]; }
      } else if node.List? {
        following := FanOut(node.items, segment, following);
      }
    }
    assert current[..|current|] == current;
  }

  method ResolvePath(document: Value, path: Path) returns (values: seq<Value>)
    ensures values == Resolve([document], path)
  {
    var current := [document];
    for i := 0 to |path|
      invariant Resolve(current, path[i..]) == Resolve([document], path)
    {
      var following := Follow(current, path[i]);
      assert path[i..][1..] == path[i + 1..];
      if following == [] {
        ResolveNothing(path[i + 1..]);
        return [];
      }
      current := following;
    }
    values := [];
    for i := 0 to |current|
      invariant values == Flatten(current[..i])
    {
      assert current[..i + 1] == current[..i] + [current[i]];
      FlattenConcat(current[..i], [current[i]]);
      assert Flatten([current[i]]) == if current[i].List? then current[i].items else [current[i]] by {
        assert [current[i]][1..] == [];
      }
      values := values + if current[i].List? then current[i].items else [current[i]];
    }
    assert current[..|current|] == current;
  }

  // ----- what the event store indexes -------------------------------------

  predicate Scalar(v: Value) {
    v.Bool? || v.Num? || v.Str?
  }

  /** The terms indexed for a field: lists are flattened at every depth, null
      and objects leave no term. */
  function Leaves(v: Value, path: Path): seq<Value>
    decreases |path|, v, 1
  {
    if v.List? then LeavesAll(v.items, path)
    else if path == [] then (if Scalar(v) then [v] else [])
    else if v.Obj? && path[0] in v.fields then Leaves(v.fields[path[0]], path[1..])
    else []
  }

  function LeavesAll(vs: seq<Value>, path: Path): seq<Value>
    decreases |path|, vs, 0
  {
    if vs == [] then [] else Leaves(vs[0], path) + LeavesAll(vs[1..], path)
  }

  function NonNull(vs: seq<Value>): (r: seq<Value>)
    ensures forall v :: v in r <==> v in vs && v != Null
  {
    if vs == [] then [] else (if vs[0] == Null then [] else [vs[0]]) + NonNull(vs[1..])
  }

  // ----- the same values, document by document ------------------------------

  /** What one value contributes to a resolution: a list fans out once. */
  function Reach(v: Value, path: Path): seq<Value>
    decreases |path|, 2
  {
    if v.List? then ReachItems(v.items, path) else ReachOne(v, path)
  }

  /** A value that is not fanned out: at the end of the path it is taken as it
      is, before the end only an object leads on. */
  function ReachOne(v: Value, path: Path): seq<Value>
    decreases |path|, 0
  {
    if path == [] then [v]
    else if v.Obj? && path[0] in v.fields then Reach(v.fields[path[0]], path[1..])
    else []
  }

  function ReachItems(items: seq<Value>, path: Path): seq<Value>
    decreases |path|, 1, |items|
  {
    if items == [] then [] else ReachOne(items[0], path) + ReachItems(items[1..], path)
  }

  function ReachAll(nodes: seq<Value>, path: Path): seq<Value> {
    if nodes == [] then [] else Reach(nodes[0], path) + ReachAll(nodes[1..], path)
  }

  lemma {:induction false} ReachConcat(a: seq<Value>, b: seq<Value>, path: Path)
    ensures ReachAll(a + b, path) == ReachAll(a, path) + ReachAll(b, path)
    decreases |a|
  {
    if a == [] {
      assert a + b == b;
    } else {
      assert (a + b)[1..] == a[1..] + b && (a + b)[0] == a[0];
      ReachConcat(a[1..], b, path);
      var first := Reach(a[0], path);
      assert first + (ReachAll(a[1..], path) + ReachAll(b, path)) == first + ReachAll(a[1..], path) + ReachAll(b, path);
    }
  }

  lemma ReachGet(v: Value, path: Path)
    requires path != []
    ensures ReachAll(Get(v, path[0]), path[1..]) == ReachOne(v, path)
  {
    if v.Obj? && path[0] in v.fields {
      var w := v.fields[path[0]];
      assert [w][1..] == [] && ReachAll([w], path[1..]) == Reach(w, path[1..]) + [];
    }
  }

  lemma {:induction false} ReachGetAll(items: seq<Value>, path: Path)
    requires path != []
    ensures ReachAll(GetAll(items, path[0]), path[1..]) == ReachItems(items, path)
    decreases |items|
  {
    if items != [] {
      ReachGet(items[0], path);
      ReachGetAll(items[1..], path);
      ReachConcat(Get(items[0], path[0]), GetAll(items[1..], path[0]), path[1..]);
    }
  }

  lemma {:induction false} ReachStep(nodes: seq<Value>, path: Path)
    requires path != []
    ensures ReachAll(Step(nodes, path[0]), path[1..]) == ReachAll(nodes, path)
    decreases |nodes|
  {
    if nodes != [] {
      if nodes[0].List? { ReachGetAll(nodes[0].items, path); } else { ReachGet(nodes[0], path); }
      ReachStep(nodes[1..], path);
      ReachConcat(StepNode(nodes[0], path[0]), Step(nodes[1..], path[0]), path[1..]);
    }
  }

  lemma {:induction false} ItemsReached(items: seq<Value>)
    ensures ReachItems(items, []) == items
    decreases |items|
  {
    if items != [] {
      ItemsReached(items[1..]);
      assert items == [items[0]] + items[1..];
    }
  }

  lemma {:induction false} FlattenReached(nodes: seq<Value>)
    ensures ReachAll(nodes, []) == Flatten(nodes)
    decreases |nodes|
  {
    if nodes != [] {
      FlattenReached(nodes[1..]);
      if nodes[0].List? { ItemsReached(nodes[0].items); }
    }
  }

  lemma {:induction false} ResolveReaches(nodes: seq<Value>, path: Path)
    ensures Resolve(nodes, path) == ReachAll(nodes, path)
    decreases |path|
  {
    if path == [] {
      FlattenReached(nodes);
    } else {
      ResolveReaches(Step(nodes, path[0]), path[1..]);
      ReachStep(nodes, path);
    }
  }

  // ----- when the two agree -----------------------------------------------

  /** The shape under which nothing is missed and nothing extra is reached. At
      the end of the path: a scalar or null, or a list of such. Before it:
      anything, as long as what lies further down has this shape and no list
      directly inside a list leads to indexed values. */
  predicate Fits(v: Value, path: Path)
    decreases |path|, 1
  {
    if v.List? then forall i :: 0 <= i < |v.items| ==> FitsOne(v.items[i], path) else FitsOne(v, path)
  }

  predicate FitsOne(v: Value, path: Path)
    decreases |path|, 0
  {
    if path == [] then v.Null? || Scalar(v)
    else
      && (v.List? ==> Leaves(v, path) == [])
      && (v.Obj? && path[0] in v.fields ==> Fits(v.fields[path[0]], path[1..]))
  }

  predicate AllScalars(vs: seq<Value>) {
    forall v :: v in vs ==> Scalar(v)
  }

  /** Reached and indexed agree on one value in one of two ways: exactly when it
      fits, and, if nothing but scalars is reached, by count. */
  predicate Tallies(reached: seq<Value>, indexed: seq<Value>, fits: bool) {
    && (fits ==> NonNull(reached) == indexed)
    && (AllScalars(NonNull(reached)) ==> |NonNull(reached)| <= |indexed| && (|NonNull(reached)| == |indexed| ==> fits))
  }

  lemma {:induction false} NonNullConcat(a: seq<Value>, b: seq<Value>)
    ensures NonNull(a + b) == NonNull(a) + NonNull(b)
    decreases |a|
  {
    if a == [] {
      assert a + b == b;
    } else {
      assert (a + b)[1..] == a[1..] + b && (a + b)[0] == a[0];
      NonNullConcat(a[1..], b);
      var first := if a[0] == Null then [] else [a[0]];
      assert first + (NonNull(a[1..]) + NonNull(b)) == first + NonNull(a[1..]) + NonNull(b);
    }
  }

  /** What tallies separately tallies together: counts cannot make up for each
      other, because neither side exceeds what was indexed. */
  lemma TalliesTogether(r: seq<Value>, i: seq<Value>, fits: bool, r': seq<Value>, i': seq<Value>, fits': bool)
    requires Tallies(r, i, fits) && Tallies(r', i', fits')
    ensures Tallies(r + r', i + i', fits && fits')
  {
    NonNullConcat(r, r');
    var a, b := NonNull(r), NonNull(r');
    if AllScalars(a + b) {
      assert forall v :: v in a ==> v in a + b;
      assert forall v :: v in b ==> v in a + b;
    }
  }

  lemma {:induction false} OneTallies(v: Value, path: Path)
    ensures Tallies(ReachOne(v, path), Leaves(v, path), FitsOne(v, path))
    decreases |path|, 0
  {
    if path == [] {
      assert [v][1..] == [];
      assert NonNull([v]) == if v == Null then [] else [v];
    } else if v.Obj? && path[0] in v.fields {
      ValueTallies(v.fields[path[0]], path[1..]);
    }
  }

  lemma {:induction false} ItemsTally(items: seq<Value>, path: Path)
    ensures Tallies(ReachItems(items, path), LeavesAll(items, path), forall i :: 0 <= i < |items| ==> FitsOne(items[i], path))
    decreases |path|, 1, |items|
  {
    if items != [] {
      OneTallies(items[0], path);
      ItemsTally(items[1..], path);
      var rest := forall i :: 0 <= i < |items[1..]| ==> FitsOne(items[1..][i], path);
      TalliesTogether(ReachOne(items[0], path), Leaves(items[0], path), FitsOne(items[0], path),
                      ReachItems(items[1..], path), LeavesAll(items[1..], path), rest);
      AllSplits(items, path);
    }
  }

  lemma AllSplits(items: seq<Value>, path: Path)
    requires items != []
    ensures (forall i :: 0 <= i < |items| ==> FitsOne(items[i], path)) <==>
            FitsOne(items[0], path) && forall i :: 0 <= i < |items[1..]| ==> FitsOne(items[1..][i], path)
  {
    if FitsOne(items[0], path) && forall i :: 0 <= i < |items[1..]| ==> FitsOne(items[1..][i], path) {
      forall i | 0 <= i < |items| ensures FitsOne(items[i], path) {
        if i > 0 { assert items[1..][i - 1] == items[i]; }
      }
    }
  }

  lemma {:induction false} ValueTallies(v: Value, path: Path)
    ensures Tallies(Reach(v, path), Leaves(v, path), Fits(v, path))
    decreases |path|, 2
  {
    if v.List? { ItemsTally(v.items, path); } else { OneTallies(v, path); }
  }

  /** The evaluator reaches exactly the values the store indexed, in the same
      order, if and only if the document has the shape. */
  lemma ResolvedIsIndexedExactly(document: Value, path: Path)
    ensures NonNull(Resolve([document], path)) == Leaves(document, path) <==> Fits(document, path)
  {
    ResolveReaches([document], path);
    assert [document][1..] == [] && ReachAll([document], path) == Reach(document, path) + [];
    assert Resolve([document], path) == Reach(document, path);
    ValueTallies(document, path);
    LeavesAreScalars(document, path);
    var reached := NonNull(Reach(document, path));
    assert reached == Leaves(document, path) ==> AllScalars(reached);
  }

  lemma ResolvedIsIndexed(document: Value, path: Path)
    requires Fits(document, path)
    ensures NonNull(Resolve([document], path)) == Leaves(document, path)
  {
    ResolvedIsIndexedExactly(document, path);
  }

  lemma {:induction false} LeavesAreScalars(v: Value, path: Path)
    ensures forall x :: x in Leaves(v, path) ==> Scalar(x)
    decreases |path|, v, 1
  {
    if v.List? {
      AllLeavesAreScalars(v.items, path);
    } else if path != [] && v.Obj? && path[0] in v.fields {
      LeavesAreScalars(v.fields[path[0]], path[1..]);
    }
  }

  lemma {:induction false} AllLeavesAreScalars(vs: seq<Value>, path: Path)
    ensures forall x :: x in LeavesAll(vs, path) ==> Scalar(x)
    decreases |path|, vs, 0
  {
    if vs != [] {
      LeavesAreScalars(vs[0], path);
      AllLeavesAreScalars(vs[1..], path);
    }
  }

  /** A list inside a list is indexed but not reached: this is why the shape matters. */
  lemma NestedListIsMissed()
    ensures var doc := Obj(map["tags" := List([List([Str("x")])])]);
            Leaves(doc, ["tags"]) == [Str("x")] && NonNull(Resolve([doc], ["tags"])) == [List([Str("x")])]
  {
    var inner := List([Str("x")]);
    var doc := Obj(map["tags" := List([inner])]);
    assert ["tags"][1..] == [];
    assert [doc][1..] == [] && [inner][1..] == [] && [Str("x")][1..] == [] && [List([inner])][1..] == [];
    assert Step([doc], "tags") == [List([inner])];
    assert LeavesAll([Str("x")], []) == [Str("x")];
    assert LeavesAll([inner], []) == Leaves(inner, []) + [] == [Str("x")];
    assert Leaves(doc, ["tags"]) == Leaves(List([inner]), []) == LeavesAll([inner], []);
    assert Resolve([doc], ["tags"]) == Resolve([List([inner])], []) == Flatten([List([inner])]) == [inner];
    assert NonNull([inner]) == [inner];
  }
}
