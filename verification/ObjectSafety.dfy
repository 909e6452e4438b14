/** The bounded walk of packages/protocol-a2a/src/transport.ts: an explicit stack,
    a node budget, a depth limit and a list of forbidden keys. */
module ObjectSafety {
  import opened Outcomes
  import opened JsonTree
  import Decimal

  const MAX_OBJECT_DEPTH: nat := 64
  const MAX_OBJECT_NODES: nat := 10_000

  predicate Hostile(key: string) {
    key == "__proto__" || key == "constructor" || key == "prototype"
  }

  datatype SafetyError = TooManyNodes | TooDeep | ForbiddenKey

  // ---- What the walk decides, said recursively ----

  /** The number of objects and arrays in a tree. */
  ghost function Nodes(v: Json): nat
    decreases v, 2, 0
  {
    match v
    case Arr(items) => 1 + ItemNodes(v, |items|)
    case Obj(fields) => 1 + FieldNodes(v, fields.Keys)
    case _ => 0
  }

  ghost function ItemNodes(v: Json, n: nat): nat
    requires v.Arr? && n <= |v.items|
    decreases v, 1, n
  {
    if n == 0 then 0 else ItemNodes(v, n - 1) + Nodes(v.items[n - 1])
  }

  ghost function FieldNodes(v: Json, keys: set<string>): nat
    requires v.Obj? && keys <= v.fields.Keys
    decreases v, 1, |keys|
  {
    if keys == {} then 0
    else
      var k :| k in keys;
      Nodes(v.fields[k]) + FieldNodes(v, keys - {k})
  }

  /** The order in which members are counted does not matter. */
  lemma {:induction false} FieldNodesSplit(v: Json, keys: set<string>, k: string)
    requires v.Obj? && keys <= v.fields.Keys && k in keys
    ensures FieldNodes(v, keys) == Nodes(v.fields[k]) + FieldNodes(v, keys - {k})
    decreases |keys|
  {
    var j :| j in keys && FieldNodes(v, keys) == Nodes(v.fields[j]) + FieldNodes(v, keys - {j});
    if j != k {
      FieldNodesSplit(v, keys - {j}, k);
      FieldNodesSplit(v, keys - {k}, j);
      assert keys - {j} - {k} == keys - {k} - {j};
    }
  }

  /** No object or array below a node at depth `depth` is deeper than the limit. */
  ghost predicate Shallow(v: Json, depth: nat) {
    Container(v) ==>
      depth <= MAX_OBJECT_DEPTH &&
      match v
      case Arr(items) => forall i | 0 <= i < |items| :: Shallow(items[i], depth + 1)
      case Obj(fields) => forall k | k in fields :: Shallow(fields[k], depth + 1)
      case _ => true
  }

  /** `containsHostileObjectKey` of packages/protocol-a2a/src/executor.ts. */
  predicate ContainsHostileObjectKey(v: Json) {
    match v
    case Arr(items) => exists i | 0 <= i < |items| :: ContainsHostileObjectKey(items[i])
    case Obj(fields) => exists k | k in fields :: Hostile(k) || ContainsHostileObjectKey(fields[k])
    case _ => false
  }

  // ---- The walk ----

  type Stack = seq<(Json, nat)>

  ghost function StackNodes(stack: Stack): nat {
    if stack == [] then 0 else StackNodes(stack[..|stack| - 1]) + Nodes(stack[|stack| - 1].0)
  }

  lemma {:induction false} StackNodesConcat(a: Stack, b: Stack)
    ensures StackNodes(a + b) == StackNodes(a) + StackNodes(b)
  {
    if b == [] {
      assert a + b == a;
    } else {
      assert (a + b)[..|a + b| - 1] == a + b[..|b| - 1];
      StackNodesConcat(a, b[..|b| - 1]);
    }
  }

  ghost predicate AllShallow(stack: Stack) { forall e | e in stack :: Shallow(e.0, e.1) }

  ghost predicate AnyHostile(stack: Stack) { exists e | e in stack :: ContainsHostileObjectKey(e.0) }

  /** The children of a container, each once, one level deeper. */
  ghost predicate ChildrenOf(v: Json, depth: nat, children: Stack) {
    && StackNodes(children) + 1 == Nodes(v)
    && (depth <= MAX_OBJECT_DEPTH ==> (AllShallow(children) <==> Shallow(v, depth)))
    && (AnyHostile(children) <==> ContainsHostileObjectKey(v))
  }

  lemma ItemsAreChildren(v: Json, depth: nat, children: Stack)
    requires v.Arr? && |children| == |v.items| && forall i | 0 <= i < |children| ::
             children[i] == (v.items[i], depth + 1)
    requires StackNodes(children) == ItemNodes(v, |v.items|)
    ensures ChildrenOf(v, depth, children)
  {
    if AllShallow(children) {
      forall i | 0 <= i < |children| ensures Shallow(v.items[i], depth + 1) { assert children[i] in children; }
    }
    forall i | 0 <= i < |children| && ContainsHostileObjectKey(v.items[i]) ensures AnyHostile(children) {
      assert children[i] in children;
    }
  }

  method PushItems(v: Json, depth: nat) returns (children: Stack)
    requires v.Arr?
    ensures ChildrenOf(v, depth, children)
  {
    children := [];
    for i := 0 to |v.items|
      invariant |children| == i && forall k | 0 <= k < i :: children[k] == (v.items[k], depth + 1)
      invariant StackNodes(children) == ItemNodes(v, i)
    {
      assert (children + [(v.items[i], depth + 1)])[..i] == children;
      children := children + [(v.items[i], depth + 1)];
    }
    ItemsAreChildren(v, depth, children);
  }

  lemma FieldsAreChildren(v: Json, depth: nat, children: Stack)
    requires v.Obj? && forall k | k in v.fields :: !Hostile(k)
    requires forall e :: e in children <==> exists k | k in v.fields :: e == (v.fields[k], depth + 1)
    requires StackNodes(children) == FieldNodes(v, v.fields.Keys)
    ensures ChildrenOf(v, depth, children)
  {
    forall k | k in v.fields ensures (v.fields[k], depth + 1) in children {
    }
  }

  method PushFields(v: Json, depth: nat) returns (r: Option<Stack>)
    requires v.Obj?
    ensures r.None? ==> ContainsHostileObjectKey(v)
    ensures r.Some? ==> ChildrenOf(v, depth, r.value)
  {
    var children: Stack := [];
    var todo := v.fields.Keys;
    ghost var done: set<string> := {};
    while todo != {}
      invariant todo <= v.fields.Keys && done == v.fields.Keys - todo
      invariant forall k | k in done :: !Hostile(k)
      invariant forall e :: e in children <==> exists k | k in done :: e == (v.fields[k], depth + 1)
      invariant StackNodes(children) == FieldNodes(v, done)
      decreases todo
    {
      var key :| key in todo;
      if Hostile(key) { return None; }
      var child := (v.fields[key], depth + 1);
      assert (children + [child])[..|children|] == children;
      FieldNodesSplit(v, done + {key}, key);
      assert done + {key} - {key} == done;
      children := children + [child];
      todo, done := todo - {key}, done + {key};
    }
    assert done == v.fields.Keys;
    FieldsAreChildren(v, depth, children);
    return Some(children);
  }

  method PushEntries(v: Json, depth: nat) returns (r: Option<Stack>)
    requires Container(v)
    ensures r.None? ==> ContainsHostileObjectKey(v)
    ensures r.Some? ==> ChildrenOf(v, depth, r.value)
  {
    if v.Arr? {
      var children := PushItems(v, depth);
      return Some(children);
    }
    r := PushFields(v, depth);
  }

  lemma {:induction false} PopSplits(stack: Stack, n: nat)
    requires stack != [] && n == |stack| - 1
    ensures AllShallow(stack) <==> AllShallow(stack[..n]) && Shallow(stack[n].0, stack[n].1)
    ensures AnyHostile(stack) <==> AnyHostile(stack[..n]) || ContainsHostileObjectKey(stack[n].0)
  {
    assert stack == stack[..n] + [stack[n]];
  }

  lemma PushJoins(a: Stack, b: Stack)
    ensures AllShallow(a + b) <==> AllShallow(a) && AllShallow(b)
    ensures AnyHostile(a + b) <==> AnyHostile(a) || AnyHostile(b)
    ensures StackNodes(a + b) == StackNodes(a) + StackNodes(b)
  {
    StackNodesConcat(a, b);
    assert forall e :: e in a + b <==> e in a || e in b;
  }

  /** A tree is accepted exactly when it has at most 10,000 objects and arrays, none
      deeper than 64, and no forbidden key anywhere; each error tells the truth. */
  method ObjectSafetyError(value: Json) returns (r: Option<SafetyError>)
    ensures r.None? <==> Nodes(value) <= MAX_OBJECT_NODES && Shallow(value, 0) && !ContainsHostileObjectKey(value)
    ensures r == Some(TooManyNodes) ==> Nodes(value) > MAX_OBJECT_NODES
    ensures r == Some(TooDeep) ==> !Shallow(value, 0)
    ensures r == Some(ForbiddenKey) ==> ContainsHostileObjectKey(value)
  {
    var stack: Stack := [(value, 0)];
    var visited := 0;
    assert StackNodes(stack) == StackNodes(stack[..0]) + Nodes(value);
    PopSplits(stack, 0);
    while |stack| > 0
      invariant visited + StackNodes(stack) == Nodes(value) && visited <= MAX_OBJECT_NODES
      invariant AllShallow(stack) <==> Shallow(value, 0)
      invariant AnyHostile(stack) <==> ContainsHostileObjectKey(value)
      decreases StackNodes(stack), |stack|
    {
      var n := |stack| - 1;
      PopSplits(stack, n);
      var current := stack[n];
      stack := stack[..n];
      if !Container(current.0) { continue; }
      visited := visited + 1;
      if visited > MAX_OBJECT_NODES { return Some(TooManyNodes); }
      if current.1 > MAX_OBJECT_DEPTH { return Some(TooDeep); }
      var pushed := PushEntries(current.0, current.1);
      if pushed.None? { return Some(ForbiddenKey); }
      PushJoins(stack, pushed.value);
      stack := stack + pushed.value;
    }
    return None;
  }

  // ---- The recursive limits, said of pointers into the tree ----

  lemma ChildByToken(v: Json, i: nat)
    requires v.Arr? && i < |v.items|
    ensures Child(v, Decimal.Print(i)) == Some(v.items[i])
  {
    Decimal.ValueOfPrint(i);
  }

  /** Shallow trees are those in which no pointer of more than the allowed length
      leads to an object or array. */
  lemma {:induction false} ShallowMeansShortPointers(v: Json, depth: nat, tokens: seq<string>)
    requires Shallow(v, depth) && Resolve(v, tokens).Some? && Container(Resolve(v, tokens).value)
    ensures depth + |tokens| <= MAX_OBJECT_DEPTH
    decreases |tokens|
  {
    if tokens != [] {
      ShallowMeansShortPointers(Child(v, tokens[0]).value, depth + 1, tokens[1..]);
    }
  }

  lemma {:induction false} DeepMeansLongPointer(v: Json, depth: nat) returns (tokens: seq<string>)
    requires !Shallow(v, depth)
    ensures Resolve(v, tokens).Some? && Container(Resolve(v, tokens).value) && depth + |tokens| > MAX_OBJECT_DEPTH
    decreases v
  {
    if depth > MAX_OBJECT_DEPTH {
      tokens := [];
    } else {
      var token: string;
      if v.Arr? {
        var i :| 0 <= i < |v.items| && !Shallow(v.items[i], depth + 1);
        ChildByToken(v, i);
        token := Decimal.Print(i);
        tokens := DeepMeansLongPointer(v.items[i], depth + 1);
      } else {
        token :| token in v.fields && !Shallow(v.fields[token], depth + 1);
        tokens := DeepMeansLongPointer(v.fields[token], depth + 1);
      }
      assert ([token] + tokens)[1..] == tokens;
      tokens := [token] + tokens;
    }
  }

  /** A forbidden key is a member name of some object that a pointer reaches. */
  lemma {:induction false} HostileKeyHasPointer(v: Json) returns (tokens: seq<string>, key: string)
    requires ContainsHostileObjectKey(v)
    ensures Resolve(v, tokens).Some? && Resolve(v, tokens).value.Obj?
    ensures key in Resolve(v, tokens).value.fields && Hostile(key)
    decreases v
  {
    if v.Obj? && exists k | k in v.fields :: Hostile(k) {
      key :| key in v.fields && Hostile(key);
      tokens := [];
    } else {
      var token: string;
      if v.Arr? {
        var i :| 0 <= i < |v.items| && ContainsHostileObjectKey(v.items[i]);
        ChildByToken(v, i);
        token := Decimal.Print(i);
        tokens, key := HostileKeyHasPointer(v.items[i]);
      } else {
        token :| token in v.fields && ContainsHostileObjectKey(v.fields[token]);
        tokens, key := HostileKeyHasPointer(v.fields[token]);
      }
      assert ([token] + tokens)[1..] == tokens;
      tokens := [token] + tokens;
    }
  }

  lemma {:induction false} PointerFindsHostileKey(v: Json, tokens: seq<string>, key: string)
    requires Resolve(v, tokens).Some? && Resolve(v, tokens).value.Obj?
    requires key in Resolve(v, tokens).value.fields && Hostile(key)
    ensures ContainsHostileObjectKey(v)
    decreases |tokens|
  {
    if tokens != [] {
      PointerFindsHostileKey(Child(v, tokens[0]).value, tokens[1..], key);
    }
  }

  /** No pointer with more tokens than this leads to an object or array. */
  ghost predicate NoneDeeper(v: Json, limit: nat) {
    forall tokens | Resolve(v, tokens).Some? && Container(Resolve(v, tokens).value) :: |tokens| <= limit
  }

  /** No pointer leads to an object with a member of one of the three names. */
  ghost predicate NoForbiddenKey(v: Json) {
    forall tokens | Resolve(v, tokens).Some? && Resolve(v, tokens).value.Obj? ::
      Resolve(v, tokens).value.fields.Keys !! {"__proto__", "constructor", "prototype"}
  }

  lemma ShallowExactly(v: Json)
    ensures Shallow(v, 0) <==> NoneDeeper(v, 64)
  {
    if Shallow(v, 0) {
      forall tokens | Resolve(v, tokens).Some? && Container(Resolve(v, tokens).value) {
        ShallowMeansShortPointers(v, 0, tokens);
      }
    } else {
      var tokens := DeepMeansLongPointer(v, 0);
    }
  }

  lemma HostileExactly(v: Json)
    ensures ContainsHostileObjectKey(v) <==> !NoForbiddenKey(v)
  {
    if ContainsHostileObjectKey(v) {
      var tokens, key := HostileKeyHasPointer(v);
      assert key in Resolve(v, tokens).value.fields.Keys;
    }
    if !NoForbiddenKey(v) {
      var tokens :| Resolve(v, tokens).Some? && Resolve(v, tokens).value.Obj? &&
                    !(Resolve(v, tokens).value.fields.Keys !! {"__proto__", "constructor", "prototype"});
      var key :| key in Resolve(v, tokens).value.fields.Keys && key in {"__proto__", "constructor", "prototype"};
      PointerFindsHostileKey(v, tokens, key);
    }
  }

  /** What the walk accepts, by count, pointers and names. */
  lemma AcceptedExactly(v: Json)
    ensures Nodes(v) <= MAX_OBJECT_NODES && Shallow(v, 0) && !ContainsHostileObjectKey(v) <==>
            Nodes(v) <= 10_000 && NoneDeeper(v, 64) && NoForbiddenKey(v)
  {
    ShallowExactly(v);
    HostileExactly(v);
  }
}
