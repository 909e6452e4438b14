/** The structural diff of packages/contracts/scripts/compat.ts. */
module Compat {
  import opened Outcomes
  import opened JsonTree
  import Decimal

  // ---- Objects, and arrays read as objects keyed by index ----

  function IndexKeys(n: nat): (keys: set<string>)
    ensures forall k :: k in keys <==> Decimal.Canonical(k) && Decimal.Value(k) < n
  {
    if n == 0 then {}
    else
      Decimal.ValueOfPrint(n - 1);
      assert forall k | Decimal.Canonical(k) && Decimal.Value(k) == n - 1 :: k == Decimal.Print(n - 1) by {
        forall k | Decimal.Canonical(k) && Decimal.Value(k) == n - 1 ensures k == Decimal.Print(n - 1) {
          Decimal.PrintOfValue(k);
        }
      }
      IndexKeys(n - 1) + {Decimal.Print(n - 1)}
  }

  /** What `Object.keys` and indexing see. */
  function MembersOf(v: Json): (m: map<string, Json>)
    ensures forall k | k in m :: m[k] < v
  {
    match v
    case Obj(fields) => fields
    case Arr(items) => map k | k in IndexKeys(|items|) :: items[Decimal.Value(k)]
    case _ => map[]
  }

  /** The members a partial function gives to some keys. */
  function Collect(member: string -> Option<Json>, keys: set<string>): map<string, Json> {
    map k | k in keys && member(k).Some? :: member(k).value
  }

  lemma CollectSame(f: string -> Option<Json>, f': string -> Option<Json>, keys: set<string>, keys': set<string>)
    requires forall k :: f(k) == f'(k)
    requires forall k | f(k).Some? :: k in keys && k in keys'
    ensures Collect(f, keys) == Collect(f', keys')
  {
  }

  function ReadMember(v: Json, key: string): Option<Json>
    decreases v, 0
  {
    if key in MembersOf(v) then Some(Read(MembersOf(v)[key])) else None
  }

  /** The tree with every array read as an object keyed by index. */
  function Read(v: Json): Json
    decreases v, 1
  {
    if Container(v) then Obj(Collect(k => ReadMember(v, k), MembersOf(v).Keys)) else v
  }

  // ---- Changes ----

  datatype ChangeType =
    | PropertyRemoved | OptionalPropertyAdded | PropertyTypeChanged | AdditionalPropertiesChanged
    | MinimumIncreased | MinimumDecreased | MaximumIncreased | MaximumDecreased
    | PatternChanged | FormatChanged | DefaultChanged | ReferenceTargetChanged | AnnotationChange

  datatype Bump = NoBump | Patch | Minor | Major

  datatype Change = Change(
    path: seq<string>, prev: Option<Json>, next: Option<Json>, changeType: ChangeType, bump: Bump)

  /** `Number(v)`, with `None` for NaN. */
  type Coercion = Json -> Option<real>

  predicate Greater(number: Coercion, a: Json, b: Json) {
    number(a).Some? && number(b).Some? && number(a).value > number(b).value
  }

  /** The type of a change between two values that are not both containers. */
  function Classify(number: Coercion, key: string, prev: Json, next: Json): ChangeType {
    if key == "additionalProperties" then AdditionalPropertiesChanged
    else if key == "minimum" then (if Greater(number, next, prev) then MinimumIncreased else MinimumDecreased)
    else if key == "maximum" then (if Greater(number, next, prev) then MaximumIncreased else MaximumDecreased)
    else if key == "pattern" then PatternChanged
    else if key == "format" then FormatChanged
    else if key == "default" then DefaultChanged
    else if key == "$ref" then ReferenceTargetChanged
    else PropertyTypeChanged
  }

  predicate IsMajor(t: ChangeType) {
    t !in {OptionalPropertyAdded, MinimumDecreased, MaximumIncreased, DefaultChanged, AnnotationChange}
  }

  function BumpFor(t: ChangeType): Bump { if IsMajor(t) then Major else Minor }

  function Removal(path: seq<string>, prev: Json): Change { Change(path, Some(prev), None, PropertyRemoved, Major) }

  function Addition(path: seq<string>, next: Json): Change {
    Change(path, None, Some(next), OptionalPropertyAdded, Minor)
  }

  function Replacement(number: Coercion, path: seq<string>, key: string, prev: Json, next: Json): Change {
    var t := Classify(number, key, prev, next);
    Change(path + [key], Some(prev), Some(next), t, BumpFor(t))
  }

  /** The changes of all the keys together. */
  function Union(changesOf: string -> set<Change>, keys: set<string>): set<Change> {
    set key, c | key in keys && c in changesOf(key) :: c
  }

  lemma UnionAdds(changesOf: string -> set<Change>, keys: set<string>, key: string)
    requires forall k | k in keys :: changesOf(k) !! changesOf(key)
    ensures multiset(Union(changesOf, keys + {key})) == multiset(Union(changesOf, keys)) + multiset(changesOf(key))
  {
    var before, here := Union(changesOf, keys), changesOf(key);
    assert Union(changesOf, keys + {key}) == before + here;
    assert before !! here;
  }

  /** The changes reported for one key of two containers at `path`. */
  function DiffAt(number: Coercion, prev: Json, next: Json, path: seq<string>, key: string): set<Change>
    decreases prev, 0
  {
    var o, n := MembersOf(prev), MembersOf(next);
    if key in o && key !in n then {Removal(path + [key], o[key])}
    else if key in o && key in n then
      if Container(o[key]) && Container(n[key]) then Diff(number, o[key], n[key], path + [key])
      else if o[key] != n[key] then {Replacement(number, path, key, o[key], n[key])}
      else {}
    else if key in n then {Addition(path + [key], n[key])}
    else {}
  }

  function DiffOver(number: Coercion, prev: Json, next: Json, path: seq<string>, keys: set<string>): set<Change>
    decreases prev, 1
  {
    Union(key => DiffAt(number, prev, next, path, key), keys)
  }

  function Diff(number: Coercion, prev: Json, next: Json, path: seq<string>): set<Change>
    decreases prev, 2
  {
    DiffOver(number, prev, next, path, MembersOf(prev).Keys + MembersOf(next).Keys)
  }

  predicate BothContainers(prev: Json, next: Json, key: string) {
    && key in MembersOf(prev) && key in MembersOf(next)
    && Container(MembersOf(prev)[key]) && Container(MembersOf(next)[key])
  }

  lemma ContainersDiffInside(number: Coercion, prev: Json, next: Json, path: seq<string>, key: string)
    requires BothContainers(prev, next, key)
    ensures DiffAt(number, prev, next, path, key)
            == Diff(number, MembersOf(prev)[key], MembersOf(next)[key], path + [key])
  {
  }

  lemma DiffOverHas(number: Coercion, prev: Json, next: Json, path: seq<string>, keys: set<string>, key: string,
                    c: Change)
    requires key in keys && c in DiffAt(number, prev, next, path, key)
    ensures c in DiffOver(number, prev, next, path, keys)
  {
    var changesOf := key => DiffAt(number, prev, next, path, key);
    assert c in changesOf(key);
  }

  lemma DiffHasKey(number: Coercion, prev: Json, next: Json, path: seq<string>, c: Change) returns (key: string)
    requires c in Diff(number, prev, next, path)
    ensures c in DiffAt(number, prev, next, path, key)
  {
    key :| key in MembersOf(prev).Keys + MembersOf(next).Keys && c in DiffAt(number, prev, next, path, key);
  }

  /** The path of a change for `key` goes through `key`. */
  ghost predicate Through(path: seq<string>, key: string, c: Change) {
    |c.path| > |path| && c.path[..|path|] == path && c.path[|path|] == key
  }

  lemma ThroughFromAbove(path: seq<string>, key: string, k: string, c: Change)
    requires Through(path + [key], k, c)
    ensures Through(path, key, c)
  {
    assert c.path[..|path| + 1] == path + [key];
    assert c.path[..|path|] == c.path[..|path| + 1][..|path|];
  }

  lemma {:induction false} PathsGoThroughKey(number: Coercion, prev: Json, next: Json, path: seq<string>, key: string,
                                             c: Change)
    requires c in DiffAt(number, prev, next, path, key)
    ensures Through(path, key, c)
    decreases prev
  {
    var o, n := MembersOf(prev), MembersOf(next);
    if key in o && key in n && Container(o[key]) && Container(n[key]) {
      var k := DiffHasKey(number, o[key], n[key], path + [key], c);
      PathsGoThroughKey(number, o[key], n[key], path + [key], k, c);
      ThroughFromAbove(path, key, k, c);
    }
  }

  lemma KeysDoNotMix(number: Coercion, prev: Json, next: Json, path: seq<string>, key: string, key': string)
    requires key != key'
    ensures DiffAt(number, prev, next, path, key) !! DiffAt(number, prev, next, path, key')
  {
    forall c ensures c in DiffAt(number, prev, next, path, key) ==> Through(path, key, c) {
      if c in DiffAt(number, prev, next, path, key) { PathsGoThroughKey(number, prev, next, path, key, c); }
    }
    forall c ensures c in DiffAt(number, prev, next, path, key') ==> Through(path, key', c) {
      if c in DiffAt(number, prev, next, path, key') { PathsGoThroughKey(number, prev, next, path, key', c); }
    }
  }

  lemma DiffOverAdds(number: Coercion, prev: Json, next: Json, path: seq<string>, keys: set<string>, key: string)
    requires key !in keys
    ensures multiset(DiffOver(number, prev, next, path, keys + {key}))
         == multiset(DiffOver(number, prev, next, path, keys)) + multiset(DiffAt(number, prev, next, path, key))
  {
    var changesOf := key => DiffAt(number, prev, next, path, key);
    forall k | k in keys ensures changesOf(k) !! changesOf(key) {
      KeysDoNotMix(number, prev, next, path, k, key);
    }
    UnionAdds(changesOf, keys, key);
  }

  /** Reports exactly the changes of the diff, each once. */
  method CompareSchemas(number: Coercion, prev: Json, next: Json, path: seq<string>) returns (changes: seq<Change>)
    requires Container(prev) && Container(next)
    ensures multiset(changes) == multiset(Diff(number, prev, next, path))
    decreases prev, 1
  {
    changes := [];
    var o, n := MembersOf(prev), MembersOf(next);
    var todo := o.Keys;
    while todo != {}
      invariant todo <= o.Keys
      invariant multiset(changes) == multiset(DiffOver(number, prev, next, path, o.Keys - todo))
      decreases todo
    {
      var key :| key in todo;
      var reported := CompareKey(number, prev, next, path, key);
      DiffOverAdds(number, prev, next, path, o.Keys - todo, key);
      assert o.Keys - (todo - {key}) == o.Keys - todo + {key};
      changes := changes + reported;
      todo := todo - {key};
    }
    changes := ReportAdditions(number, prev, next, path, changes);
  }

  method CompareKey(number: Coercion, prev: Json, next: Json, path: seq<string>, key: string)
    returns (changes: seq<Change>)
    requires key in MembersOf(prev)
    ensures multiset(changes) == multiset(DiffAt(number, prev, next, path, key))
    decreases prev, 0
  {
    var o, n := MembersOf(prev), MembersOf(next);
    if key !in n {
      changes := [Removal(path + [key], o[key])];
    } else if Container(o[key]) && Container(n[key]) {
      changes := CompareSchemas(number, o[key], n[key], path + [key]);
    } else if o[key] != n[key] {
      changes := [Replacement(number, path, key, o[key], n[key])];
    } else {
      changes := [];
    }
  }

  /** Reporting the addition of one more key leaves the others to do. */
  lemma AdditionCounts(number: Coercion, prev: Json, next: Json, path: seq<string>, reported: seq<Change>,
                       all: set<string>, todo: set<string>, key: string)
    requires key in MembersOf(next) && key !in MembersOf(prev) && key in todo && todo <= all
    requires multiset(reported) == multiset(DiffOver(number, prev, next, path, all - todo))
    ensures multiset(reported + [Addition(path + [key], MembersOf(next)[key])])
         == multiset(DiffOver(number, prev, next, path, all - (todo - {key})))
  {
    DiffOverAdds(number, prev, next, path, all - todo, key);
    assert all - (todo - {key}) == all - todo + {key};
    assert DiffAt(number, prev, next, path, key) == {Addition(path + [key], MembersOf(next)[key])};
  }

  /** The second loop: keys that only the next version has. */
  method ReportAdditions(number: Coercion, prev: Json, next: Json, path: seq<string>, reported: seq<Change>)
    returns (changes: seq<Change>)
    requires multiset(reported) == multiset(DiffOver(number, prev, next, path, MembersOf(prev).Keys))
    ensures multiset(changes) == multiset(Diff(number, prev, next, path))
  {
    changes := reported;
    var o, n := MembersOf(prev), MembersOf(next);
    var todo := n.Keys - o.Keys;
    ghost var all := o.Keys + n.Keys;
    assert all - todo == o.Keys;
    while todo != {}
      invariant todo <= n.Keys - o.Keys
      invariant multiset(changes) == multiset(DiffOver(number, prev, next, path, all - todo))
      decreases todo
    {
      var key :| key in todo;
      AdditionCounts(number, prev, next, path, changes, all, todo, key);
      changes := changes + [Addition(path + [key], n[key])];
      todo := todo - {key};
    }
    assert all - todo == all;
  }

  // ---- The changes are a complete diff ----

  ghost function At(changes: set<Change>, path: seq<string>): (r: Option<Change>)
    ensures r.Some? ==> r.value in changes && r.value.path == path
    ensures r.None? ==> forall c | c in changes :: c.path != path
  {
    if c :| c in changes && c.path == path then Some(c) else None
  }

  ghost function KeysBelow(changes: set<Change>, path: seq<string>): set<string> {
    set c | c in changes && |c.path| == |path| + 1 && c.path[..|path|] == path :: c.path[|path|]
  }

  /** What the reported changes make of one member. */
  ghost function ApplyToMember(v: Json, changes: set<Change>, path: seq<string>, key: string): Option<Json>
    decreases v, 0
  {
    match At(changes, path + [key])
    case Some(c) => if c.next.Some? then Some(Read(c.next.value)) else None
    case None =>
      if key !in MembersOf(v) then None
      else if Container(MembersOf(v)[key]) then Some(ApplyChanges(MembersOf(v)[key], changes, path + [key]))
      else Some(MembersOf(v)[key])
  }

  /** The container at `path` with the reported changes made. */
  ghost function ApplyChanges(v: Json, changes: set<Change>, path: seq<string>): Json
    decreases v, 1
  {
    Obj(Collect(key => ApplyToMember(v, changes, path, key), MembersOf(v).Keys + KeysBelow(changes, path)))
  }

  /** The changes below `path` are those of the diff of `prev` and `next`. */
  ghost predicate DescribesAt(number: Coercion, prev: Json, next: Json, path: seq<string>, changes: set<Change>) {
    forall c :: c in Diff(number, prev, next, path) <==> c in changes && path < c.path
  }

  lemma DiffAtInDiff(number: Coercion, prev: Json, next: Json, path: seq<string>, key: string, c: Change)
    requires c in DiffAt(number, prev, next, path, key)
    ensures c in Diff(number, prev, next, path)
  {
    DiffOverHas(number, prev, next, path, MembersOf(prev).Keys + MembersOf(next).Keys, key, c);
  }

  lemma KeyChanges(number: Coercion, prev: Json, next: Json, path: seq<string>, changes: set<Change>, key: string,
                   c: Change)
    requires DescribesAt(number, prev, next, path, changes)
    ensures c in DiffAt(number, prev, next, path, key) <==> c in changes && path + [key] <= c.path
  {
    if c in DiffAt(number, prev, next, path, key) {
      DiffAtInDiff(number, prev, next, path, key, c);
      PathsGoThroughKey(number, prev, next, path, key, c);
      assert c.path[..|path| + 1] == path + [key];
    }
    if c in changes && path + [key] <= c.path {
      assert c.path[..|path|] == (path + [key])[..|path|];
      var k := DiffHasKey(number, prev, next, path, c);
      PathsGoThroughKey(number, prev, next, path, k, c);
      assert c.path[|path|] == (path + [key])[|path|];
    }
  }

  lemma {:induction false} ApplyToMemberGives(number: Coercion, prev: Json, next: Json, path: seq<string>,
                                              changes: set<Change>, key: string)
    requires DescribesAt(number, prev, next, path, changes)
    ensures ApplyToMember(prev, changes, path, key) == ReadMember(next, key)
    decreases prev, 0
  {
    if BothContainers(prev, next, key) {
      NestedDescribes(number, prev, next, path, changes, key);
      NoChangeAtContainer(number, prev, next, path, changes, key);
      ApplyGives(number, MembersOf(prev)[key], MembersOf(next)[key], path + [key], changes);
    } else {
      ApplyToPlainMember(number, prev, next, path, changes, key);
    }
  }

  lemma NoChangeAtContainer(number: Coercion, prev: Json, next: Json, path: seq<string>, changes: set<Change>,
                            key: string)
    requires DescribesAt(number, prev, next, path, changes) && BothContainers(prev, next, key)
    ensures At(changes, path + [key]).None?
  {
    forall c | c in changes ensures c.path != path + [key] {
      KeyChanges(number, prev, next, path, changes, key, c);
      if c.path == path + [key] {
        ContainersDiffInside(number, prev, next, path, key);
        NestedPathsAreLonger(number, MembersOf(prev)[key], MembersOf(next)[key], path + [key], c);
      }
    }
  }

  lemma ApplyToPlainMember(number: Coercion, prev: Json, next: Json, path: seq<string>, changes: set<Change>,
                           key: string)
    requires DescribesAt(number, prev, next, path, changes) && !BothContainers(prev, next, key)
    ensures ApplyToMember(prev, changes, path, key) == ReadMember(next, key)
  {
    var o, n := MembersOf(prev), MembersOf(next);
    var here := path + [key];
    forall c { KeyChanges(number, prev, next, path, changes, key, c); }
    if key in o && key !in n {
      assert Removal(here, o[key]) in DiffAt(number, prev, next, path, key);
    } else if key in o && o[key] != n[key] {
      assert Replacement(number, path, key, o[key], n[key]) in DiffAt(number, prev, next, path, key);
    } else if key !in o && key in n {
      assert Addition(here, n[key]) in DiffAt(number, prev, next, path, key);
    }
  }

  lemma NestedPathsAreLonger(number: Coercion, prev: Json, next: Json, path: seq<string>, c: Change)
    requires c in Diff(number, prev, next, path)
    ensures path < c.path
  {
    var k := DiffHasKey(number, prev, next, path, c);
    PathsGoThroughKey(number, prev, next, path, k, c);
  }

  lemma NestedDescribes(number: Coercion, prev: Json, next: Json, path: seq<string>, changes: set<Change>, key: string)
    requires DescribesAt(number, prev, next, path, changes)
    requires BothContainers(prev, next, key)
    ensures DescribesAt(number, MembersOf(prev)[key], MembersOf(next)[key], path + [key], changes)
  {
    var here := path + [key];
    forall c
      ensures c in Diff(number, MembersOf(prev)[key], MembersOf(next)[key], here) <==> c in changes && here < c.path
    {
      KeyChanges(number, prev, next, path, changes, key, c);
      if c in Diff(number, MembersOf(prev)[key], MembersOf(next)[key], here) {
        NestedPathsAreLonger(number, MembersOf(prev)[key], MembersOf(next)[key], here, c);
      }
    }
  }

  lemma KeyIsCovered(number: Coercion, prev: Json, next: Json, path: seq<string>, changes: set<Change>, key: string)
    requires DescribesAt(number, prev, next, path, changes) && key in MembersOf(next)
    ensures key in MembersOf(prev).Keys + KeysBelow(changes, path)
  {
    if key !in MembersOf(prev) {
      var c := Addition(path + [key], MembersOf(next)[key]);
      assert c in DiffAt(number, prev, next, path, key);
      KeyChanges(number, prev, next, path, changes, key, c);
      assert c.path[..|path|] == path && c.path[|path|] == key;
    }
  }

  lemma SameMembers(prev: Json, changes: set<Change>, path: seq<string>, next: Json)
    requires Container(next)
    requires forall key | key in MembersOf(next) :: key in MembersOf(prev).Keys + KeysBelow(changes, path)
    requires forall key :: ApplyToMember(prev, changes, path, key) == ReadMember(next, key)
    ensures ApplyChanges(prev, changes, path) == Read(next)
  {
    CollectSame(key => ApplyToMember(prev, changes, path, key), key => ReadMember(next, key),
                MembersOf(prev).Keys + KeysBelow(changes, path), MembersOf(next).Keys);
  }

  lemma {:induction false} ApplyGives(number: Coercion, prev: Json, next: Json, path: seq<string>, changes: set<Change>)
    requires Container(prev) && Container(next) && DescribesAt(number, prev, next, path, changes)
    ensures ApplyChanges(prev, changes, path) == Read(next)
    decreases prev, 1
  {
    forall key { ApplyToMemberGives(number, prev, next, path, changes, key); }
    forall key | key in MembersOf(next) { KeyIsCovered(number, prev, next, path, changes, key); }
    SameMembers(prev, changes, path, next);
  }

  /** Making the reported changes in the previous tree yields the next one. */
  lemma DiffIsComplete(number: Coercion, prev: Json, next: Json)
    requires Container(prev) && Container(next)
    ensures ApplyChanges(prev, Diff(number, prev, next, []), []) == Read(next)
  {
    forall c | c in Diff(number, prev, next, []) {
      NestedPathsAreLonger(number, prev, next, [], c);
    }
    ApplyGives(number, prev, next, [], Diff(number, prev, next, []));
  }

  lemma MembersReadAlike(prev: Json, next: Json, key: string)
    requires Container(prev) && Container(next) && Read(prev) == Read(next)
    ensures key in MembersOf(prev) <==> key in MembersOf(next)
    ensures key in MembersOf(prev) ==> Read(MembersOf(prev)[key]) == Read(MembersOf(next)[key])
  {
    assert key in MembersOf(prev) <==> key in Read(prev).fields;
    assert key in MembersOf(next) <==> key in Read(next).fields;
  }

  lemma NoKeyDiffers(number: Coercion, prev: Json, next: Json, path: seq<string>)
    requires forall key :: DiffAt(number, prev, next, path, key) == {}
    ensures Diff(number, prev, next, path) == {}
  {
    var changesOf := key => DiffAt(number, prev, next, path, key);
    assert forall key :: changesOf(key) == {};
  }

  lemma {:induction false} EqualTreesNoDiff(number: Coercion, prev: Json, next: Json, path: seq<string>)
    requires Container(prev) && Container(next) && Read(prev) == Read(next)
    ensures Diff(number, prev, next, path) == {}
    decreases prev
  {
    var o, n := MembersOf(prev), MembersOf(next);
    forall key ensures DiffAt(number, prev, next, path, key) == {} {
      MembersReadAlike(prev, next, key);
      if key in o && Container(o[key]) && Container(n[key]) {
        EqualTreesNoDiff(number, o[key], n[key], path + [key]);
      }
    }
    NoKeyDiffers(number, prev, next, path);
  }

  /** Nothing is reported exactly when the two trees read the same. */
  lemma NoChangesExactlyWhenEqual(number: Coercion, prev: Json, next: Json)
    requires Container(prev) && Container(next)
    ensures Diff(number, prev, next, []) == {} <==> Read(prev) == Read(next)
  {
    if Read(prev) == Read(next) {
      EqualTreesNoDiff(number, prev, next, []);
    } else if Diff(number, prev, next, []) == {} {
      EqualTreesNoDiff(number, prev, prev, []);
      DiffIsComplete(number, prev, prev);
      DiffIsComplete(number, prev, next);
      assert false;
    }
  }

  // ---- Removed keys ----

  function Lookup(v: Json, p: seq<string>): Option<Json> {
    if p == [] then Some(v)
    else if p[0] in MembersOf(v) then Lookup(MembersOf(v)[p[0]], p[1..])
    else None
  }

  ghost predicate Lost(prev: Json, next: Json, p: seq<string>) {
    Lookup(prev, p).Some? && Lookup(next, p).None?
  }

  lemma LostBelow(prev: Json, next: Json, p: seq<string>)
    requires Lost(prev, next, p)
    ensures p != [] && p[0] in MembersOf(prev)
    ensures p[0] in MembersOf(next) ==> Lost(MembersOf(prev)[p[0]], MembersOf(next)[p[0]], p[1..])
  {
  }

  /** `c` is a reported change at the key `p` or above it. */
  ghost predicate Reports(number: Coercion, prev: Json, next: Json, path: seq<string>, p: seq<string>, c: Change) {
    c in Diff(number, prev, next, path) && c.path <= path + p
  }

  /** Putting a plain value in place of a container at this key is only a minor change. */
  predicate Lenient(number: Coercion, key: string, prev: Json, next: Json) {
    || key == "default"
    || (key == "minimum" && !Greater(number, next, prev))
    || (key == "maximum" && Greater(number, next, prev))
  }

  /** Going down `p`, the first place that is not a container in both versions has
      become a plain value, at a lenient key. */
  predicate LostLeniently(number: Coercion, prev: Json, next: Json, p: seq<string>) {
    && p != [] && p[0] in MembersOf(prev) && p[0] in MembersOf(next)
    && var o, n := MembersOf(prev)[p[0]], MembersOf(next)[p[0]];
       if Container(o) && Container(n) then LostLeniently(number, o, n, p[1..])
       else Lenient(number, p[0], o, n)
  }

  lemma OnlyItsKeyReports(number: Coercion, prev: Json, next: Json, path: seq<string>, p: seq<string>, c: Change)
    requires p != []
    ensures Reports(number, prev, next, path, p, c) <==>
            c in DiffAt(number, prev, next, path, p[0]) && c.path <= path + p
  {
    if Reports(number, prev, next, path, p, c) {
      var key := DiffHasKey(number, prev, next, path, c);
      PathsGoThroughKey(number, prev, next, path, key, c);
      assert c.path[|path|] == (path + p)[|path|];
    }
    if c in DiffAt(number, prev, next, path, p[0]) { DiffAtInDiff(number, prev, next, path, p[0], c); }
  }

  lemma ReportedBelow(number: Coercion, prev: Json, next: Json, path: seq<string>, p: seq<string>, c: Change)
    requires p != [] && BothContainers(prev, next, p[0])
    ensures Reports(number, prev, next, path, p, c) <==>
            Reports(number, MembersOf(prev)[p[0]], MembersOf(next)[p[0]], path + [p[0]], p[1..], c)
  {
    OnlyItsKeyReports(number, prev, next, path, p, c);
    ContainersDiffInside(number, prev, next, path, p[0]);
    SplitPath(path, p);
  }

  lemma SplitPath(path: seq<string>, p: seq<string>)
    requires p != []
    ensures path + [p[0]] + p[1..] == path + p
  {
  }

  /** A lost key, at any depth, is reported by exactly one change at or above it, and
      that change is major exactly when the key was not lost leniently. */
  lemma {:induction false} LostKeyForcesMajor(number: Coercion, prev: Json, next: Json, path: seq<string>,
                                              p: seq<string>) returns (c: Change)
    requires Container(prev) && Container(next)
    requires Lost(prev, next, p)
    ensures forall d :: Reports(number, prev, next, path, p, d) <==> d == c
    ensures c.bump == Major <==> !LostLeniently(number, prev, next, p)
    decreases |p|
  {
    LostBelow(prev, next, p);
    var key := p[0];
    if BothContainers(prev, next, key) {
      c := LostKeyForcesMajor(number, MembersOf(prev)[key], MembersOf(next)[key], path + [key], p[1..]);
      forall d { ReportedBelow(number, prev, next, path, p, d); }
    } else {
      c := LostKeyHere(number, prev, next, path, p);
    }
  }

  /** The change reported where the versions part. */
  function ChangeHere(number: Coercion, prev: Json, next: Json, path: seq<string>, key: string): Change
    requires key in MembersOf(prev)
  {
    if key in MembersOf(next) then Replacement(number, path, key, MembersOf(prev)[key], MembersOf(next)[key])
    else Removal(path + [key], MembersOf(prev)[key])
  }

  lemma LostKeyHere(number: Coercion, prev: Json, next: Json, path: seq<string>, p: seq<string>) returns (c: Change)
    requires Lost(prev, next, p) && p[0] in MembersOf(prev) && !BothContainers(prev, next, p[0])
    ensures forall d :: Reports(number, prev, next, path, p, d) <==> d == c
    ensures c.bump == Major <==> !LostLeniently(number, prev, next, p)
  {
    forall d { OnlyItsKeyReports(number, prev, next, path, p, d); }
    SplitPath(path, p);
    c := ChangeHere(number, prev, next, path, p[0]);
    OnlyChangeHere(number, prev, next, path, p);
    LenientChangeHere(number, prev, next, path, p);
  }

  lemma OnlyChangeHere(number: Coercion, prev: Json, next: Json, path: seq<string>, p: seq<string>)
    requires Lost(prev, next, p) && p[0] in MembersOf(prev) && !BothContainers(prev, next, p[0])
    ensures DiffAt(number, prev, next, path, p[0]) == {ChangeHere(number, prev, next, path, p[0])}
  {
    if p[0] in MembersOf(next) { LostMemberDiffers(MembersOf(prev)[p[0]], MembersOf(next)[p[0]], p[1..]); }
  }

  lemma LenientChangeHere(number: Coercion, prev: Json, next: Json, path: seq<string>, p: seq<string>)
    requires p != [] && p[0] in MembersOf(prev) && !BothContainers(prev, next, p[0])
    ensures ChangeHere(number, prev, next, path, p[0]).bump == Major <==> !LostLeniently(number, prev, next, p)
  {
    if p[0] in MembersOf(next) { LenientMeansMinor(number, p[0], MembersOf(prev)[p[0]], MembersOf(next)[p[0]]); }
  }

  lemma LenientMeansMinor(number: Coercion, key: string, prev: Json, next: Json)
    ensures BumpFor(Classify(number, key, prev, next)) == Major <==> !Lenient(number, key, prev, next)
  {
  }

  lemma LostMemberDiffers(prev: Json, next: Json, p: seq<string>)
    requires Lost(prev, next, p)
    ensures prev != next
  {
  }

  /** The exception is real: replacing a `default` container by a plain value loses
      its keys, and only a minor change is reported. */
  lemma LostDefaultKeyIsMinor(number: Coercion, key: string, lost: Json, plain: Json, prev: Json, next: Json)
    requires !Container(plain)
    requires prev == Obj(map["default" := Obj(map[key := lost])]) && next == Obj(map["default" := plain])
    ensures Lookup(prev, ["default", key]) == Some(lost)
    ensures Lookup(next, ["default", key]) == None
    ensures forall c | c in Diff(number, prev, next, []) :: c.bump == Minor
  {
    var p := ["default", key];
    assert p[1..] == [key];
    assert Lookup(prev, p) == Lookup(Obj(map[key := lost]), [key]) == Lookup(lost, []);
    assert key !in MembersOf(plain);
    assert Lookup(next, p) == Lookup(plain, [key]) == None;
    forall c | c in Diff(number, prev, next, []) ensures c.bump == Minor {
      var k := DiffHasKey(number, prev, next, [], c);
    }
  }

  // ---- Exactly which edits are major ----

  lemma {:induction false} LookupUnfold(v: Json, p: seq<string>)
    requires p != []
    ensures Lookup(v, p) == if p[0] in MembersOf(v) then Lookup(MembersOf(v)[p[0]], p[1..]) else None
  {
  }

  lemma {:induction false} LookupAppend(v: Json, p: seq<string>, q: seq<string>)
    ensures Lookup(v, p + q) == if Lookup(v, p).Some? then Lookup(Lookup(v, p).value, q) else None
    decreases |p|
  {
    if p == [] {
      assert p + q == q;
    } else {
      assert (p + q)[0] == p[0] && (p + q)[1..] == p[1..] + q;
      LookupUnfold(v, p);
      LookupUnfold(v, p + q);
      if p[0] in MembersOf(v) { LookupAppend(MembersOf(v)[p[0]], p[1..], q); }
    }
  }

  /** At `p` both versions still have the container around; the key of the previous one is
      gone, or its value has changed, is plain in one version at least, and the change is
      not a lenient one. */
  ghost predicate BreaksAt(number: Coercion, prev: Json, next: Json, p: seq<string>) {
    && p != [] && Lookup(prev, p).Some?
    && Lookup(next, p[..|p| - 1]).Some? && Container(Lookup(next, p[..|p| - 1]).value)
    && (Lookup(next, p).Some? ==>
          BreaksMember(number, p[|p| - 1], Lookup(prev, p).value, Lookup(next, p).value))
  }

  predicate BreaksMember(number: Coercion, key: string, prev: Json, next: Json) {
    !(Container(prev) && Container(next)) && prev != next && !Lenient(number, key, prev, next)
  }

  lemma {:induction false} BreaksHere(number: Coercion, prev: Json, next: Json, key: string)
    requires Container(prev) && Container(next)
    ensures BreaksAt(number, prev, next, [key]) <==>
            key in MembersOf(prev) &&
            (key in MembersOf(next) ==> BreaksMember(number, key, MembersOf(prev)[key], MembersOf(next)[key]))
  {
    var p := [key];
    assert p[..|p| - 1] == [] && p[1..] == [];
    LookupUnfold(prev, p);
    LookupUnfold(next, p);
  }

  lemma {:induction false} BreaksInside(number: Coercion, prev: Json, next: Json, p: seq<string>, q: seq<string>)
    requires q != [] && Lookup(prev, p).Some? && Lookup(next, p).Some?
    ensures BreaksAt(number, prev, next, p + q) <==> BreaksAt(number, Lookup(prev, p).value, Lookup(next, p).value, q)
  {
    assert (p + q)[..|p + q| - 1] == p + q[..|q| - 1];
    LookupAppend(prev, p, q);
    LookupAppend(next, p, q);
    LookupAppend(next, p, q[..|q| - 1]);
  }

  lemma {:induction false} BreaksBelowKey(number: Coercion, prev: Json, next: Json, key: string, q: seq<string>)
    requires q != [] && key in MembersOf(prev) && key in MembersOf(next)
    ensures BreaksAt(number, prev, next, [key] + q) <==>
            BreaksAt(number, MembersOf(prev)[key], MembersOf(next)[key], q)
  {
    assert [key][1..] == [];
    assert Lookup(prev, [key]) == Some(MembersOf(prev)[key]) && Lookup(next, [key]) == Some(MembersOf(next)[key]);
    BreaksInside(number, prev, next, [key], q);
  }

  lemma {:induction false} MajorHere(number: Coercion, prev: Json, next: Json, path: seq<string>, key: string,
                                     c: Change)
    requires Container(prev) && Container(next) && !BothContainers(prev, next, key)
    ensures c in DiffAt(number, prev, next, path, key) && c.bump == Major ==>
            BreaksAt(number, prev, next, [key]) && c.path == path + [key]
    ensures BreaksAt(number, prev, next, [key]) ==>
            var d := ChangeHere(number, prev, next, path, key);
            d in DiffAt(number, prev, next, path, key) && d.bump == Major && d.path == path + [key]
  {
    BreaksHere(number, prev, next, key);
    if key in MembersOf(prev) && key in MembersOf(next) {
      LenientMeansMinor(number, key, MembersOf(prev)[key], MembersOf(next)[key]);
    }
  }

  lemma {:induction false} BreakBelow(number: Coercion, prev: Json, next: Json, p: seq<string>)
    requires p != [] && BothContainers(prev, next, p[0])
    requires BreaksAt(number, MembersOf(prev)[p[0]], MembersOf(next)[p[0]], p[1..])
    ensures BreaksAt(number, prev, next, p)
  {
    assert p == [p[0]] + p[1..];
    BreaksBelowKey(number, prev, next, p[0], p[1..]);
  }

  lemma {:induction false} SamePath(path: seq<string>, p: seq<string>, key: string)
    requires path + p == path + [key]
    ensures p == [key]
  {
    assert (path + p)[|path|..] == p && (path + [key])[|path|..] == [key];
  }

  /** A major change is reported only where an edit breaks. */
  lemma {:induction false} MajorMeansBreak(number: Coercion, prev: Json, next: Json, path: seq<string>,
                                           p: seq<string>, c: Change)
    requires Container(prev) && Container(next)
    requires c in Diff(number, prev, next, path) && c.bump == Major && c.path == path + p
    ensures BreaksAt(number, prev, next, p)
    decreases |p|
  {
    NestedPathsAreLonger(number, prev, next, path, c);
    if BothContainers(prev, next, p[0]) {
      ReportedBelow(number, prev, next, path, p, c);
      SplitPath(path, p);
      MajorMeansBreak(number, MembersOf(prev)[p[0]], MembersOf(next)[p[0]], path + [p[0]], p[1..], c);
      BreakBelow(number, prev, next, p);
    } else {
      OnlyItsKeyReports(number, prev, next, path, p, c);
      MajorHere(number, prev, next, path, p[0], c);
      SamePath(path, p, p[0]);
    }
  }

  lemma {:induction false} LookupStep(v: Json, p: seq<string>)
    requires p != [] && Lookup(v, p).Some?
    ensures p[0] in MembersOf(v)
    ensures if |p| == 1 then Lookup(v, p).value == MembersOf(v)[p[0]] else Container(MembersOf(v)[p[0]])
  {
    if |p| == 1 { assert p[1..] == []; }
  }

  lemma {:induction false} BreakGoesInside(number: Coercion, prev: Json, next: Json, p: seq<string>)
    requires BreaksAt(number, prev, next, p) && |p| > 1
    ensures BothContainers(prev, next, p[0])
  {
    LookupStep(prev, p);
    LookupStep(next, p[..|p| - 1]);
  }

  /** Where an edit breaks, a major change is reported. */
  lemma {:induction false} BreakMeansMajor(number: Coercion, prev: Json, next: Json, path: seq<string>, p: seq<string>)
    returns (c: Change)
    requires Container(prev) && Container(next) && BreaksAt(number, prev, next, p)
    ensures c in Diff(number, prev, next, path) && c.bump == Major && c.path == path + p
    decreases |p|
  {
    var key := p[0];
    if |p| == 1 {
      assert p == [key];
      BreaksHere(number, prev, next, key);
      c := ChangeHere(number, prev, next, path, key);
      MajorHere(number, prev, next, path, key, c);
    } else {
      BreakGoesInside(number, prev, next, p);
      assert p == [key] + p[1..];
      BreaksBelowKey(number, prev, next, key, p[1..]);
      c := BreakMeansMajor(number, MembersOf(prev)[key], MembersOf(next)[key], path + [key], p[1..]);
      ContainersDiffInside(number, prev, next, path, key);
      SplitPath(path, p);
    }
    DiffAtInDiff(number, prev, next, path, key, c);
  }

  ghost predicate Breaks(number: Coercion, prev: Json, next: Json) {
    exists p :: BreaksAt(number, prev, next, p)
  }

  /** A major change is reported exactly when some edit breaks; additions never are. */
  lemma {:induction false} MajorExactlyWhenBreaking(number: Coercion, prev: Json, next: Json, path: seq<string>)
    requires Container(prev) && Container(next)
    ensures (exists c :: c in Diff(number, prev, next, path) && c.bump == Major) <==> Breaks(number, prev, next)
  {
    if c :| c in Diff(number, prev, next, path) && c.bump == Major {
      NestedPathsAreLonger(number, prev, next, path, c);
      assert c.path == path + c.path[|path|..];
      MajorMeansBreak(number, prev, next, path, c.path[|path|..], c);
    }
    if p :| BreaksAt(number, prev, next, p) {
      var c := BreakMeansMajor(number, prev, next, path, p);
    }
  }

  // ---- What is reported for one edited value ----

  /** Both versions have a container at `s`. */
  ghost predicate BothAt(prev: Json, next: Json, s: seq<string>, o: Json, n: Json) {
    Lookup(prev, s) == Some(o) && Lookup(next, s) == Some(n) && Container(o) && Container(n)
  }

  /** A change whose path goes on with `key` is one of the changes for `key`. */
  lemma {:induction false} InDiffByKey(number: Coercion, prev: Json, next: Json, path: seq<string>, key: string,
                                       c: Change)
    requires path + [key] <= c.path
    ensures c in Diff(number, prev, next, path) <==> c in DiffAt(number, prev, next, path, key)
  {
    if c in Diff(number, prev, next, path) {
      var k := DiffHasKey(number, prev, next, path, c);
      PathsGoThroughKey(number, prev, next, path, k, c);
      assert c.path[|path|] == (path + [key])[|path|];
    }
    if c in DiffAt(number, prev, next, path, key) { DiffAtInDiff(number, prev, next, path, key, c); }
  }

  lemma {:induction false} BothAtStep(prev: Json, next: Json, s: seq<string>, o: Json, n: Json)
    requires BothAt(prev, next, s, o, n) && s != []
    ensures BothContainers(prev, next, s[0])
    ensures BothAt(MembersOf(prev)[s[0]], MembersOf(next)[s[0]], s[1..], o, n)
  {
    LookupStep(prev, s);
    LookupStep(next, s);
    LookupUnfold(prev, s);
    LookupUnfold(next, s);
    assert |s| == 1 ==> s[1..] == [];
  }

  lemma PathThrough(path: seq<string>, s: seq<string>, key: string)
    requires s != []
    ensures path + s == path + [s[0]] + s[1..] && path + s + [key] == path + [s[0]] + s[1..] + [key]
    ensures path + [s[0]] <= path + s + [key]
  {
    assert s == [s[0]] + s[1..];
  }

  /** The changes at a key of such a container, or below it, are those of the two containers. */
  lemma {:induction false} DiffOfPlace(number: Coercion, prev: Json, next: Json, path: seq<string>, s: seq<string>,
                                       key: string, o: Json, n: Json, c: Change)
    requires BothAt(prev, next, s, o, n) && path + s + [key] <= c.path
    ensures c in Diff(number, prev, next, path) <==> c in DiffAt(number, o, n, path + s, key)
    decreases |s|
  {
    if s == [] {
      assert path + s == path;
      InDiffByKey(number, prev, next, path, key, c);
    } else {
      BothAtStep(prev, next, s, o, n);
      PathThrough(path, s, key);
      DiffOfPlace(number, MembersOf(prev)[s[0]], MembersOf(next)[s[0]], path + [s[0]], s[1..], key, o, n, c);
      ContainersDiffInside(number, prev, next, path, s[0]);
      InDiffByKey(number, prev, next, path, s[0], c);
    }
  }

  lemma DiffOfPlaceFromRoot(number: Coercion, prev: Json, next: Json, s: seq<string>, key: string, o: Json, n: Json,
                            c: Change)
    requires BothAt(prev, next, s, o, n)
    ensures c in Diff(number, prev, next, []) && s + [key] <= c.path <==>
            c in DiffAt(number, o, n, s, key) && s + [key] <= c.path
  {
    assert [] + s == s;
    if s + [key] <= c.path { DiffOfPlace(number, prev, next, [], s, key, o, n, c); }
  }

  /** A key that is gone is reported by one change, at its place, as a removed property. */
  lemma {:induction false} RemovedKeyReported(number: Coercion, prev: Json, next: Json, s: seq<string>, key: string,
                                              o: Json, n: Json, c: Change)
    requires BothAt(prev, next, s, o, n) && key in MembersOf(o) && key !in MembersOf(n)
    ensures c in Diff(number, prev, next, []) && s + [key] <= c.path <==>
            c == Change(s + [key], Some(MembersOf(o)[key]), None, PropertyRemoved, Major)
  {
    DiffOfPlaceFromRoot(number, prev, next, s, key, o, n, c);
  }

  /** A key that is new is reported by one change, as an optional property. */
  lemma {:induction false} AddedKeyReported(number: Coercion, prev: Json, next: Json, s: seq<string>, key: string,
                                            o: Json, n: Json, c: Change)
    requires BothAt(prev, next, s, o, n) && key !in MembersOf(o) && key in MembersOf(n)
    ensures c in Diff(number, prev, next, []) && s + [key] <= c.path <==>
            c == Change(s + [key], None, Some(MembersOf(n)[key]), OptionalPropertyAdded, Minor)
  {
    DiffOfPlaceFromRoot(number, prev, next, s, key, o, n, c);
  }

  /** `b` stands in place of `a` at `key` of the container at `s`, and one of the two at
      least is plain. */
  ghost predicate ReplacedAt(prev: Json, next: Json, s: seq<string>, key: string, a: Json, b: Json) {
    && Lookup(prev, s + [key]) == Some(a) && Lookup(next, s + [key]) == Some(b)
    && a != b && !(Container(a) && Container(b))
  }

  lemma {:induction false} PlaceOf(v: Json, s: seq<string>, key: string) returns (o: Json)
    requires Lookup(v, s + [key]).Some?
    ensures Lookup(v, s) == Some(o) && Container(o)
    ensures key in MembersOf(o) && MembersOf(o)[key] == Lookup(v, s + [key]).value
  {
    LookupAppend(v, s, [key]);
    o := Lookup(v, s).value;
    LookupUnfold(o, [key]);
    assert [key][1..] == [];
  }

  /** The edit is reported by exactly one change at its place. */
  lemma {:induction false} EditReportedOnce(number: Coercion, prev: Json, next: Json, s: seq<string>, key: string,
                                            a: Json, b: Json, c: Change)
    requires ReplacedAt(prev, next, s, key, a, b)
    ensures c in Diff(number, prev, next, []) && s + [key] <= c.path <==> c == Replacement(number, s, key, a, b)
  {
    var o := PlaceOf(prev, s, key);
    var n := PlaceOf(next, s, key);
    DiffOfPlaceFromRoot(number, prev, next, s, key, o, n, c);
  }

  /** The two values are numbers, and the second is the greater one. */
  ghost predicate Rises(number: Coercion, a: Json, b: Json) {
    exists x, y :: number(a) == Some(x) && number(b) == Some(y) && x < y
  }

  /** What the change says of the edit: the two values, its kind and the bump, by the key. */
  ghost predicate SaysOfEdit(number: Coercion, key: string, a: Json, b: Json, c: Change) {
    && c.prev == Some(a) && c.next == Some(b)
    && (key == "minimum" ==>
          (c.changeType, c.bump) ==
            if Rises(number, a, b) then (MinimumIncreased, Major) else (MinimumDecreased, Minor))
    && (key == "maximum" ==>
          (c.changeType, c.bump) ==
            if Rises(number, a, b) then (MaximumIncreased, Minor) else (MaximumDecreased, Major))
    && (key == "default" ==> (c.changeType, c.bump) == (DefaultChanged, Minor))
    && (key == "additionalProperties" ==> (c.changeType, c.bump) == (AdditionalPropertiesChanged, Major))
    && (key == "pattern" ==> (c.changeType, c.bump) == (PatternChanged, Major))
    && (key == "format" ==> (c.changeType, c.bump) == (FormatChanged, Major))
    && (key == "$ref" ==> (c.changeType, c.bump) == (ReferenceTargetChanged, Major))
    && (key !in {"minimum", "maximum", "default", "additionalProperties", "pattern", "format", "$ref"} ==>
          (c.changeType, c.bump) == (PropertyTypeChanged, Major))
  }

  /** A value edited at any depth is reported once, as the kind of change its key makes it. */
  lemma {:induction false} EditReported(number: Coercion, prev: Json, next: Json, s: seq<string>, key: string,
                                        a: Json, b: Json) returns (c: Change)
    requires ReplacedAt(prev, next, s, key, a, b)
    ensures forall d :: d in Diff(number, prev, next, []) && s + [key] <= d.path <==> d == c
    ensures c.path == s + [key]
    ensures SaysOfEdit(number, key, a, b, c)
  {
    c := Replacement(number, s, key, a, b);
    forall d { EditReportedOnce(number, prev, next, s, key, a, b, d); }
    assert Rises(number, a, b) <==> number(a).Some? && number(b).Some? && number(a).value < number(b).value;
    Classified(number, key, a, b, c);
  }

  lemma Classified(number: Coercion, key: string, a: Json, b: Json, c: Change)
    requires Rises(number, a, b) <==> number(a).Some? && number(b).Some? && number(a).value < number(b).value
    requires c.prev == Some(a) && c.next == Some(b)
    requires c.changeType == Classify(number, key, a, b) && c.bump == BumpFor(Classify(number, key, a, b))
    ensures SaysOfEdit(number, key, a, b, c)
  {
  }

  /** In particular a plain number under `minimum` or `maximum`: raising the one and lowering
      the other is major. */
  lemma {:induction false} BoundEditIsMajorExactly(number: Coercion, prev: Json, next: Json, s: seq<string>,
                                                   key: string, x: real, y: real) returns (c: Change)
    requires key in {"minimum", "maximum"} && x != y
    requires forall z :: number(Num(z)) == Some(z)
    requires Lookup(prev, s + [key]) == Some(Num(x)) && Lookup(next, s + [key]) == Some(Num(y))
    ensures forall d :: d in Diff(number, prev, next, []) && s + [key] <= d.path <==> d == c
    ensures c.path == s + [key]
    ensures c.bump == Major <==> if key == "minimum" then x < y else y < x
    ensures c.bump in {Minor, Major}
  {
    c := EditReported(number, prev, next, s, key, Num(x), Num(y));
    assert number(Num(x)) == Some(x) && number(Num(y)) == Some(y);
  }

  // ---- Lists of plain values: `required` and `enum` ----

  predicate PlainValues(items: seq<Json>) { forall i | 0 <= i < |items| :: !Container(items[i]) }

  lemma {:induction false} IndexIsNotLenient(number: Coercion, key: string, prev: Json, next: Json)
    requires Decimal.Canonical(key)
    ensures !Lenient(number, key, prev, next)
  {
    assert Decimal.IsDigit(key[0]);
    assert "default"[0] == 'd' && "minimum"[0] == 'm' && "maximum"[0] == 'm';
  }

  lemma {:induction false} ItemBreaks(number: Coercion, o: seq<Json>, n: seq<Json>, key: string)
    requires PlainValues(o)
    ensures BreaksAt(number, Arr(o), Arr(n), [key]) <==>
            Decimal.Canonical(key) && Decimal.Value(key) < |o| &&
            (Decimal.Value(key) < |n| ==> o[Decimal.Value(key)] != n[Decimal.Value(key)])
  {
    BreaksHere(number, Arr(o), Arr(n), key);
    if Decimal.Canonical(key) && Decimal.Value(key) < |o| && Decimal.Value(key) < |n| {
      IndexIsNotLenient(number, key, o[Decimal.Value(key)], n[Decimal.Value(key)]);
    }
  }

  /** An edit of a list of plain values breaks exactly when the previous list is not an
      initial part of the next one: lists are compared index by index. */
  lemma {:induction false} ListBreaksExactly(number: Coercion, o: seq<Json>, n: seq<Json>)
    requires PlainValues(o)
    ensures Breaks(number, Arr(o), Arr(n)) <==> !(o <= n)
  {
    if p :| BreaksAt(number, Arr(o), Arr(n), p) {
      if |p| > 1 {
        BreakGoesInside(number, Arr(o), Arr(n), p);
        assert false;
      }
      assert p == [p[0]];
      ItemBreaks(number, o, n, p[0]);
    }
    if !(o <= n) {
      var i: nat :| i < |o| && (i < |n| ==> o[i] != n[i]);
      Decimal.ValueOfPrint(i);
      ItemBreaks(number, o, n, Decimal.Print(i));
    }
  }

  /** So a list asks for a major bump exactly then. */
  lemma {:induction false} ListMajorExactly(number: Coercion, o: seq<Json>, n: seq<Json>, path: seq<string>)
    requires PlainValues(o)
    ensures (exists c :: c in Diff(number, Arr(o), Arr(n), path) && c.bump == Major) <==> !(o <= n)
  {
    MajorExactlyWhenBreaking(number, Arr(o), Arr(n), path);
    ListBreaksExactly(number, o, n);
  }

  /** The list under a key; a missing one is empty. */
  function ListUnder(fields: map<string, Json>, key: string): seq<Json> {
    if key in fields && fields[key].Arr? then fields[key].items else []
  }

  predicate PlainListOrMissing(fields: map<string, Json>, key: string) {
    key in fields ==> fields[key].Arr? && PlainValues(fields[key].items)
  }

  /** Some edit at the key of the object at `s`, or below it, breaks. */
  ghost predicate BreaksWithin(number: Coercion, prev: Json, next: Json, s: seq<string>, key: string) {
    exists q :: BreaksAt(number, prev, next, s + ([key] + q))
  }

  lemma {:induction false} BreaksWithinMember(number: Coercion, prev: map<string, Json>, next: map<string, Json>,
                                              key: string, q: seq<string>)
    requires PlainListOrMissing(prev, key) && PlainListOrMissing(next, key)
    ensures BreaksAt(number, Obj(prev), Obj(next), [key] + q) <==>
            key in prev &&
            if q == [] then key !in next
            else key in next && BreaksAt(number, Arr(ListUnder(prev, key)), Arr(ListUnder(next, key)), q)
  {
    if q == [] {
      assert [key] + q == [key];
      BreaksHere(number, Obj(prev), Obj(next), key);
    } else if key in prev && key in next {
      BreaksBelowKey(number, Obj(prev), Obj(next), key, q);
    } else {
      var p := [key] + q;
      assert p[..|p| - 1][0] == key;
    }
  }

  /** A list under a key of an object that both versions have: a major change is reported
      for it exactly when the list is gone or the previous one is not an initial part. */
  lemma {:induction false} ListUnderKeyBreaksExactly(number: Coercion, prev: Json, next: Json, s: seq<string>,
                                                     o: map<string, Json>, n: map<string, Json>, key: string)
    requires Lookup(prev, s) == Some(Obj(o)) && Lookup(next, s) == Some(Obj(n))
    requires PlainListOrMissing(o, key) && PlainListOrMissing(n, key)
    ensures BreaksWithin(number, prev, next, s, key) <==>
            (key in o && key !in n) || !(ListUnder(o, key) <= ListUnder(n, key))
  {
    forall q ensures BreaksAt(number, prev, next, s + ([key] + q)) <==> BreaksAt(number, Obj(o), Obj(n), [key] + q) {
      BreaksInside(number, prev, next, s, [key] + q);
    }
    forall q { BreaksWithinMember(number, o, n, key, q); }
    ListBreaksExactly(number, ListUnder(o, key), ListUnder(n, key));
    if key in o && key !in n {
      assert BreaksAt(number, Obj(o), Obj(n), [key] + []);
    }
    if key in o && key in n {
      if q :| BreaksAt(number, Arr(ListUnder(o, key)), Arr(ListUnder(n, key)), q) {
        assert BreaksAt(number, prev, next, s + ([key] + q));
      }
    }
  }

  predicate Adds(o: seq<Json>, n: seq<Json>) { exists x | x in n :: x !in o }

  /** What the policy asks to be major: a new required name; an enum value that comes or goes. */
  predicate PolicyAsksMajor(key: string, o: seq<Json>, n: seq<Json>) {
    (key == "required" && Adds(o, n)) || (key == "enum" && (Adds(o, n) || Adds(n, o)))
  }

  /** The policy is kept for `required` and `enum` lists exactly when values are not merely
      appended: appending to a list, or giving a schema its first one, is only minor. */
  lemma {:induction false} PolicyKeptExactly(number: Coercion, prev: Json, next: Json, s: seq<string>,
                                             o: map<string, Json>, n: map<string, Json>, key: string)
    requires key == "required" || key == "enum"
    requires Lookup(prev, s) == Some(Obj(o)) && Lookup(next, s) == Some(Obj(n))
    requires PlainListOrMissing(o, key) && PlainListOrMissing(n, key)
    ensures (PolicyAsksMajor(key, ListUnder(o, key), ListUnder(n, key)) ==> BreaksWithin(number, prev, next, s, key))
       <==> !(ListUnder(o, key) <= ListUnder(n, key) && Adds(ListUnder(o, key), ListUnder(n, key)))
  {
    ListUnderKeyBreaksExactly(number, prev, next, s, o, n, key);
    if key in o && key !in n { assert ListUnder(n, key) == []; }
  }

  /** In particular a removed value always forces a major bump. */
  lemma {:induction false} RemovedValueBreaks(number: Coercion, prev: Json, next: Json, s: seq<string>,
                                              o: map<string, Json>, n: map<string, Json>, key: string, x: Json)
    requires Lookup(prev, s) == Some(Obj(o)) && Lookup(next, s) == Some(Obj(n))
    requires PlainListOrMissing(o, key) && PlainListOrMissing(n, key)
    requires x in ListUnder(o, key) && x !in ListUnder(n, key)
    ensures BreaksWithin(number, prev, next, s, key)
  {
    ListUnderKeyBreaksExactly(number, prev, next, s, o, n, key);
  }

  lemma {:induction false} OnlyKeyDiffers(number: Coercion, prev: Json, next: Json, path: seq<string>, key: string)
    requires forall k | k != key :: DiffAt(number, prev, next, path, k) == {}
    ensures Diff(number, prev, next, path) == DiffAt(number, prev, next, path, key)
  {
    forall c ensures c in Diff(number, prev, next, path) <==> c in DiffAt(number, prev, next, path, key) {
      if c in Diff(number, prev, next, path) { var k := DiffHasKey(number, prev, next, path, c); }
      if c in DiffAt(number, prev, next, path, key) { DiffAtInDiff(number, prev, next, path, key, c); }
    }
  }

  lemma {:induction false} SameMemberNoDiff(number: Coercion, prev: Json, next: Json, path: seq<string>, key: string)
    requires key in MembersOf(prev) <==> key in MembersOf(next)
    requires key in MembersOf(prev) ==> MembersOf(prev)[key] == MembersOf(next)[key]
    ensures DiffAt(number, prev, next, path, key) == {}
  {
    if BothContainers(prev, next, key) {
      EqualTreesNoDiff(number, MembersOf(prev)[key], MembersOf(next)[key], path + [key]);
    }
  }

  lemma {:induction false} AppendedItem(number: Coercion, o: seq<Json>, x: Json, path: seq<string>)
    ensures Diff(number, Arr(o), Arr(o + [x]), path) == {Addition(path + [Decimal.Print(|o|)], x)}
  {
    var prev, next, last := Arr(o), Arr(o + [x]), Decimal.Print(|o|);
    Decimal.ValueOfPrint(|o|);
    forall k | k != last ensures DiffAt(number, prev, next, path, k) == {} {
      if Decimal.Canonical(k) { Decimal.CanonicalEqual(k, last); }
      SameMemberNoDiff(number, prev, next, path, k);
    }
    OnlyKeyDiffers(number, prev, next, path, last);
  }

  /** The failing input: a value is appended to a list, say a name to `required`. The one
      change reported is the addition of an optional property, and minor. */
  lemma {:induction false} AppendedValueIsMinor(number: Coercion, fields: map<string, Json>, key: string,
                                                o: seq<Json>, x: Json)
    ensures Diff(number, Obj(fields[key := Arr(o)]), Obj(fields[key := Arr(o + [x])]), [])
         == {Addition([key, Decimal.Print(|o|)], x)}
  {
    var prev, next := Obj(fields[key := Arr(o)]), Obj(fields[key := Arr(o + [x])]);
    forall k | k != key ensures DiffAt(number, prev, next, [], k) == {} {
      SameMemberNoDiff(number, prev, next, [], k);
    }
    OnlyKeyDiffers(number, prev, next, [], key);
    AppendedItem(number, o, x, [key]);
    assert [] + [key] == [key] && [key] + [Decimal.Print(|o|)] == [key, Decimal.Print(|o|)];
  }

  /** So is the first list a schema gets. */
  lemma {:induction false} FirstListIsMinor(number: Coercion, fields: map<string, Json>, key: string, added: Json)
    requires key !in fields
    ensures Diff(number, Obj(fields), Obj(fields[key := added]), []) == {Addition([key], added)}
  {
    var prev, next := Obj(fields), Obj(fields[key := added]);
    forall k | k != key ensures DiffAt(number, prev, next, [], k) == {} {
      SameMemberNoDiff(number, prev, next, [], k);
    }
    OnlyKeyDiffers(number, prev, next, [], key);
    assert [] + [key] == [key];
  }

  // ---- The report over all files ----

  function Rank(b: Bump): nat {
    match b
    case NoBump => 0
    case Patch => 1
    case Minor => 2
    case Major => 3
  }

  /** The bump is the highest that any change requires, and none without changes. */
  ghost predicate IsHighest(bump: Bump, changes: seq<Change>) {
    && (forall c | c in changes :: Rank(c.bump) <= Rank(bump))
    && (changes == [] ==> bump == NoBump)
    && (changes != [] ==> exists c | c in changes :: c.bump == bump)
  }

  predicate Requires(changes: seq<Change>, bump: Bump) {
    exists c | c in changes :: c.bump == bump
  }

  method Summarize(changes: seq<Change>) returns (bump: Bump)
    ensures IsHighest(bump, changes)
  {
    bump := NoBump;
    if Requires(changes, Major) { bump := Major; }
    else if Requires(changes, Minor) { bump := Minor; }
    else if Requires(changes, Patch) { bump := Patch; }
    assert changes != [] ==> changes[0] in changes;
  }

  /** A file of the baseline manifest, as found in the current contracts. */
  datatype BaselineFile = Missing | Unchanged | Descriptor | Edited(prev: Json, next: Json)

  type Manifest = seq<(string, BaselineFile)>

  predicate Checked(file: (string, BaselineFile)) {
    file.0 != "SHA256SUMS" && file.0 != "COMPATIBILITY_REPORT.json"
  }

  const MISSING_FILE := Change([], Some(Str("exists")), Some(Str("missing")), PropertyRemoved, Major)
  const DESCRIPTOR_CHANGE := Change(
    [], Some(Str("see contracts/releases/<baseline>/CONTRACT_RELEASE.yaml")),
    Some(Str("see contracts/CONTRACT_RELEASE.yaml")),
    AnnotationChange, Patch)

  function FileChanges(number: Coercion, file: BaselineFile): set<Change> {
    match file
    case Missing => {MISSING_FILE}
    case Unchanged => {}
    case Descriptor => {DESCRIPTOR_CHANGE}
    case Edited(prev, next) => Diff(number, prev, next, [])
  }

  /** The file is none that is checked, or the baseline file up to what the diff can see. */
  predicate Faithful(file: (string, BaselineFile)) {
    || file.0 == "SHA256SUMS" || file.0 == "COMPATIBILITY_REPORT.json"
    || file.1.Unchanged? || (file.1.Edited? && Read(file.1.prev) == Read(file.1.next))
  }

  ghost predicate ReportedBy(number: Coercion, files: Manifest, name: string, c: Change) {
    exists f | f in files :: f.0 == name && Checked(f) && c in FileChanges(number, f.1)
  }

  lemma ReportedByOneMore(number: Coercion, files: Manifest, f: (string, BaselineFile), name: string, c: Change)
    ensures ReportedBy(number, files + [f], name, c) <==>
            ReportedBy(number, files, name, c) || (f.0 == name && Checked(f) && c in FileChanges(number, f.1))
  {
    assert f in files + [f];
  }

  datatype Report = Report(changes: seq<(string, Change)>, bump: Bump, compatible: bool)

  method CompareFile(number: Coercion, file: BaselineFile) returns (changes: seq<Change>)
    requires file.Edited? ==> Container(file.prev) && Container(file.next)
    ensures multiset(changes) == multiset(FileChanges(number, file))
  {
    match file
    case Missing => changes := [MISSING_FILE];
    case Unchanged => changes := [];
    case Descriptor => changes := [DESCRIPTOR_CHANGE];
    case Edited(prev, next) => changes := CompareSchemas(number, prev, next, []);
  }

  function Tagged(name: string, changes: seq<Change>): (r: seq<(string, Change)>)
    ensures |r| == |changes| && forall i | 0 <= i < |r| :: r[i] == (name, changes[i])
  {
    seq(|changes|, i requires 0 <= i < |changes| => (name, changes[i]))
  }

  method CollectChanges(number: Coercion, files: Manifest) returns (changes: seq<(string, Change)>)
    requires forall f | f in files && f.1.Edited? :: Container(f.1.prev) && Container(f.1.next)
    ensures forall name, c :: (name, c) in changes <==> ReportedBy(number, files, name, c)
  {
    changes := [];
    for i := 0 to |files|
      invariant forall name, c :: (name, c) in changes <==> ReportedBy(number, files[..i], name, c)
    {
      forall name, c { ReportedByOneMore(number, files[..i], files[i], name, c); }
      assert files[..i + 1] == files[..i] + [files[i]];
      if Checked(files[i]) {
        var found := CompareFile(number, files[i].1);
        SameElements(found, FileChanges(number, files[i].1));
        changes := changes + Tagged(files[i].0, found);
      }
    }
    assert files[..|files|] == files;
  }

  lemma SameElements(found: seq<Change>, wanted: set<Change>)
    requires multiset(found) == multiset(wanted)
    ensures forall c :: c in found <==> c in wanted
  {
    forall c ensures c in found <==> c in wanted {
      assert c in found <==> c in multiset(found);
      assert c in wanted <==> c in multiset(wanted);
    }
  }

  /** The report is compatible exactly when no checked file is missing or reads
      differently, and otherwise asks for the highest bump of any change. */
  method CompatCheck(number: Coercion, files: Manifest) returns (report: Report)
    requires forall f | f in files && f.1.Edited? :: Container(f.1.prev) && Container(f.1.next)
    ensures forall name, c :: (name, c) in report.changes <==> ReportedBy(number, files, name, c)
    ensures IsHighest(report.bump, Untagged(report.changes))
    ensures report.compatible <==> forall f | f in files :: Faithful(f)
  {
    var changes := CollectChanges(number, files);
    var bump := Summarize(Untagged(changes));
    CompatibleExactlyWhenFaithful(number, files, changes);
    report := Report(changes, bump, changes == []);
  }

  function Untagged(changes: seq<(string, Change)>): (r: seq<Change>)
    ensures |r| == |changes| && forall i | 0 <= i < |r| :: r[i] == changes[i].1
  {
    seq(|changes|, i requires 0 <= i < |changes| => changes[i].1)
  }

  /** A key lost from any checked file, at any depth, makes the release a major one,
      unless it was lost leniently. */
  lemma LostKeyMakesReleaseMajor(number: Coercion, files: Manifest, changes: seq<(string, Change)>, bump: Bump,
                                 f: (string, BaselineFile), p: seq<string>)
    requires forall name, c :: (name, c) in changes <==> ReportedBy(number, files, name, c)
    requires IsHighest(bump, Untagged(changes))
    requires f in files && Checked(f) && f.1.Edited? && Container(f.1.prev) && Container(f.1.next)
    requires Lost(f.1.prev, f.1.next, p) && !LostLeniently(number, f.1.prev, f.1.next, p)
    ensures bump == Major
  {
    var c := LostKeyForcesMajor(number, f.1.prev, f.1.next, [], p);
    assert c in FileChanges(number, f.1) by {
      assert Reports(number, f.1.prev, f.1.next, [], p, c);
    }
    ReportedIsListed(number, files, changes, f, c);
    MajorChangeWins(changes, bump, f.0, c);
  }

  /** What makes a file a reason for a major release: it is checked, and is missing or has
      an edit that breaks. */
  ghost predicate FileBreaks(number: Coercion, f: (string, BaselineFile)) {
    && f.0 != "SHA256SUMS" && f.0 != "COMPATIBILITY_REPORT.json"
    && (f.1.Missing? || (f.1.Edited? && Breaks(number, f.1.prev, f.1.next)))
  }

  lemma MajorFileExactly(number: Coercion, f: (string, BaselineFile))
    requires f.1.Edited? ==> Container(f.1.prev) && Container(f.1.next)
    ensures FileBreaks(number, f) <==> Checked(f) && exists c :: c in FileChanges(number, f.1) && c.bump == Major
  {
    match f.1
    case Missing => assert MISSING_FILE in FileChanges(number, f.1);
    case Edited(prev, next) => MajorExactlyWhenBreaking(number, prev, next, []);
    case _ =>
  }

  lemma MajorIsReported(changes: seq<(string, Change)>, bump: Bump) returns (name: string, c: Change)
    requires IsHighest(bump, Untagged(changes)) && bump == Major
    ensures (name, c) in changes && c.bump == Major
  {
    var d :| d in Untagged(changes) && d.bump == Major;
    var i :| 0 <= i < |changes| && Untagged(changes)[i] == d;
    name, c := changes[i].0, changes[i].1;
  }

  /** The release is a major one exactly when some checked file is missing or has an edit
      that breaks. */
  lemma ReleaseMajorExactly(number: Coercion, files: Manifest, changes: seq<(string, Change)>, bump: Bump)
    requires forall f | f in files && f.1.Edited? :: Container(f.1.prev) && Container(f.1.next)
    requires forall name, c :: (name, c) in changes <==> ReportedBy(number, files, name, c)
    requires IsHighest(bump, Untagged(changes))
    ensures bump == Major <==> exists f :: f in files && FileBreaks(number, f)
  {
    if bump == Major {
      var name, c := MajorIsReported(changes, bump);
      assert ReportedBy(number, files, name, c);
      var f :| f in files && f.0 == name && Checked(f) && c in FileChanges(number, f.1);
      MajorFileExactly(number, f);
    }
    if f :| f in files && FileBreaks(number, f) {
      MajorFileExactly(number, f);
      var c :| c in FileChanges(number, f.1) && c.bump == Major;
      ReportedIsListed(number, files, changes, f, c);
      MajorChangeWins(changes, bump, f.0, c);
    }
  }

  /** A release whose only edit is one addition is a minor one. */
  lemma {:induction false} AdditionIsMinorRelease(number: Coercion, f: (string, BaselineFile), path: seq<string>,
                                                  x: Json, changes: seq<(string, Change)>, bump: Bump)
    requires Checked(f) && f.1.Edited? && Diff(number, f.1.prev, f.1.next, []) == {Addition(path, x)}
    requires forall name, c :: (name, c) in changes <==> ReportedBy(number, [f], name, c)
    requires IsHighest(bump, Untagged(changes))
    ensures bump == Minor
  {
    OnlyChangeDecides(number, f, Addition(path, x), changes, bump);
  }

  /** A raised minimum or a lowered maximum, at any depth of a checked file, makes the
      release a major one. */
  lemma {:induction false} TighterBoundIsMajorRelease(number: Coercion, files: Manifest, changes: seq<(string, Change)>,
                                                      bump: Bump, f: (string, BaselineFile), s: seq<string>,
                                                      key: string, x: real, y: real)
    requires forall name, c :: (name, c) in changes <==> ReportedBy(number, files, name, c)
    requires IsHighest(bump, Untagged(changes)) && forall z :: number(Num(z)) == Some(z)
    requires f in files && f.0 != "SHA256SUMS" && f.0 != "COMPATIBILITY_REPORT.json" && f.1.Edited?
    requires Lookup(f.1.prev, s + [key]) == Some(Num(x)) && Lookup(f.1.next, s + [key]) == Some(Num(y))
    requires (key == "minimum" && x < y) || (key == "maximum" && y < x)
    ensures bump == Major
  {
    var c := BoundEditIsMajorExactly(number, f.1.prev, f.1.next, s, key, x, y);
    assert c in Diff(number, f.1.prev, f.1.next, []) && s + [key] <= c.path;
    ReportedIsListed(number, files, changes, f, c);
    MajorChangeWins(changes, bump, f.0, c);
  }

  /** The bump of a release with one change is the bump of that change. */
  lemma {:induction false} OnlyChangeDecides(number: Coercion, f: (string, BaselineFile), c: Change,
                                             changes: seq<(string, Change)>, bump: Bump)
    requires forall name, d :: (name, d) in changes <==> ReportedBy(number, [f], name, d)
    requires IsHighest(bump, Untagged(changes)) && Checked(f) && FileChanges(number, f.1) == {c}
    ensures bump == c.bump
  {
    ReportedIsListed(number, [f], changes, f, c);
    forall d | d in Untagged(changes) ensures d == c {
      var i :| 0 <= i < |changes| && Untagged(changes)[i] == d;
      assert (changes[i].0, changes[i].1) in changes;
      assert ReportedBy(number, [f], changes[i].0, changes[i].1);
    }
    assert Untagged(changes) != [];
  }

  lemma {:induction false} OneBoundDiffers(number: Coercion, fields: map<string, Json>, key: string, x: real, y: real)
    requires x != y
    ensures var prev, next := Obj(fields[key := Num(x)]), Obj(fields[key := Num(y)]);
            && Lookup(prev, [] + [key]) == Some(Num(x)) && Lookup(next, [] + [key]) == Some(Num(y))
            && Diff(number, prev, next, []) == {Replacement(number, [], key, Num(x), Num(y))}
  {
    var prev, next := Obj(fields[key := Num(x)]), Obj(fields[key := Num(y)]);
    assert [] + [key] == [key] && [key][1..] == [];
    LookupUnfold(prev, [key]);
    LookupUnfold(next, [key]);
    forall k | k != key ensures DiffAt(number, prev, next, [], k) == {} {
      if k in fields { SameMemberNoDiff(number, prev, next, [], k); }
    }
    OnlyKeyDiffers(number, prev, next, [], key);
  }

  /** A release in which one bound of one file is loosened and nothing else changes is a
      minor one. */
  lemma {:induction false} LooserBoundIsMinorRelease(number: Coercion, f: (string, BaselineFile),
                                                     fields: map<string, Json>, key: string, x: real, y: real,
                                                     changes: seq<(string, Change)>, bump: Bump)
    requires forall name, c :: (name, c) in changes <==> ReportedBy(number, [f], name, c)
    requires IsHighest(bump, Untagged(changes)) && forall z :: number(Num(z)) == Some(z)
    requires f.0 != "SHA256SUMS" && f.0 != "COMPATIBILITY_REPORT.json"
    requires f.1 == Edited(Obj(fields[key := Num(x)]), Obj(fields[key := Num(y)]))
    requires (key == "minimum" && y < x) || (key == "maximum" && x < y)
    ensures bump == Minor
  {
    OneBoundDiffers(number, fields, key, x, y);
    var c := BoundEditIsMajorExactly(number, f.1.prev, f.1.next, [], key, x, y);
    assert c in Diff(number, f.1.prev, f.1.next, []) && [] + [key] <= c.path;
    OnlyChangeDecides(number, f, c, changes, bump);
  }

  lemma ReportedIsListed(number: Coercion, files: Manifest, changes: seq<(string, Change)>, f: (string, BaselineFile),
                         c: Change)
    requires forall name, c :: (name, c) in changes <==> ReportedBy(number, files, name, c)
    requires f in files && Checked(f) && c in FileChanges(number, f.1)
    ensures (f.0, c) in changes
  {
    assert ReportedBy(number, files, f.0, c);
  }

  lemma MajorChangeWins(changes: seq<(string, Change)>, bump: Bump, name: string, c: Change)
    requires IsHighest(bump, Untagged(changes)) && (name, c) in changes && c.bump == Major
    ensures bump == Major
  {
    var i :| 0 <= i < |changes| && changes[i] == (name, c);
    assert Untagged(changes)[i] in Untagged(changes);
  }

  lemma {:induction false} DiffIsMinorOrMajor(number: Coercion, prev: Json, next: Json, path: seq<string>, c: Change)
    requires c in Diff(number, prev, next, path)
    ensures c.bump in {Minor, Major}
    decreases prev
  {
    var key := DiffHasKey(number, prev, next, path, c);
    if BothContainers(prev, next, key) {
      DiffIsMinorOrMajor(number, MembersOf(prev)[key], MembersOf(next)[key], path + [key], c);
    }
  }

  /** Each change of a file that is not as it was asks for a patch if the file is a release
      descriptor, and for more otherwise; and there is one. */
  lemma UnfaithfulAsks(number: Coercion, f: (string, BaselineFile)) returns (c: Change)
    requires f.1.Edited? ==> Container(f.1.prev) && Container(f.1.next)
    requires !Faithful(f)
    ensures Checked(f) && c in FileChanges(number, f.1)
    ensures if f.1.Descriptor? then c.bump == Patch else c.bump in {Minor, Major}
  {
    FaithfulExactlyWithoutChanges(number, f);
    c :| c in FileChanges(number, f.1);
    if f.1.Edited? { DiffIsMinorOrMajor(number, f.1.prev, f.1.next, [], c); }
  }

  lemma BumpReported(number: Coercion, files: Manifest, changes: seq<(string, Change)>, bump: Bump)
    returns (f: (string, BaselineFile), c: Change)
    requires forall name, c :: (name, c) in changes <==> ReportedBy(number, files, name, c)
    requires IsHighest(bump, Untagged(changes)) && changes != []
    ensures f in files && Checked(f) && c in FileChanges(number, f.1) && c.bump == bump
  {
    c :| c in Untagged(changes) && c.bump == bump;
    var i :| 0 <= i < |changes| && Untagged(changes)[i] == c;
    assert (changes[i].0, changes[i].1) in changes;
    assert ReportedBy(number, files, changes[i].0, c);
    f :| f in files && f.0 == changes[i].0 && Checked(f) && c in FileChanges(number, f.1);
  }

  lemma AtLeastReported(number: Coercion, files: Manifest, changes: seq<(string, Change)>, bump: Bump,
                        f: (string, BaselineFile), c: Change)
    requires forall name, c :: (name, c) in changes <==> ReportedBy(number, files, name, c)
    requires IsHighest(bump, Untagged(changes))
    requires f in files && Checked(f) && c in FileChanges(number, f.1)
    ensures Rank(c.bump) <= Rank(bump) && changes != []
  {
    ReportedIsListed(number, files, changes, f, c);
    var i :| 0 <= i < |changes| && changes[i] == (f.0, c);
    assert Untagged(changes)[i] in Untagged(changes);
  }

  /** No bump is asked for exactly when every file is as it was, and a patch exactly when
      only release descriptors are not. */
  lemma ReleasePatchExactly(number: Coercion, files: Manifest, changes: seq<(string, Change)>, bump: Bump)
    requires forall f | f in files && f.1.Edited? :: Container(f.1.prev) && Container(f.1.next)
    requires forall name, c :: (name, c) in changes <==> ReportedBy(number, files, name, c)
    requires IsHighest(bump, Untagged(changes))
    ensures bump == NoBump <==> forall f | f in files :: Faithful(f)
    ensures bump == Patch <==>
            && (exists f | f in files :: !Faithful(f))
            && (forall f | f in files && !Faithful(f) :: f.1.Descriptor?)
  {
    CompatibleExactlyWhenFaithful(number, files, changes);
    if changes != [] {
      var f, c := BumpReported(number, files, changes, bump);
      if f.1.Edited? { DiffIsMinorOrMajor(number, f.1.prev, f.1.next, [], c); }
      FaithfulExactlyWithoutChanges(number, f);
      forall g | g in files && !Faithful(g) ensures if g.1.Descriptor? then Rank(bump) >= 1 else Rank(bump) >= 2 {
        var d := UnfaithfulAsks(number, g);
        AtLeastReported(number, files, changes, bump, g, d);
      }
    }
  }

  lemma FaithfulExactlyWithoutChanges(number: Coercion, f: (string, BaselineFile))
    requires f.1.Edited? ==> Container(f.1.prev) && Container(f.1.next)
    ensures Faithful(f) <==> !Checked(f) || FileChanges(number, f.1) == {}
  {
    if f.1.Edited? { NoChangesExactlyWhenEqual(number, f.1.prev, f.1.next); }
  }

  lemma CompatibleExactlyWhenFaithful(number: Coercion, files: Manifest, changes: seq<(string, Change)>)
    requires forall f | f in files && f.1.Edited? :: Container(f.1.prev) && Container(f.1.next)
    requires forall name, c :: (name, c) in changes <==> ReportedBy(number, files, name, c)
    ensures changes == [] <==> forall f | f in files :: Faithful(f)
  {
    forall f | f in files { FaithfulExactlyWithoutChanges(number, f); }
    if changes != [] {
      assert (changes[0].0, changes[0].1) in changes;
      assert ReportedBy(number, files, changes[0].0, changes[0].1);
    }
    forall f | f in files && Checked(f) && FileChanges(number, f.1) != {} ensures changes != [] {
      var c :| c in FileChanges(number, f.1);
      assert ReportedBy(number, files, f.0, c);
    }
  }
}
