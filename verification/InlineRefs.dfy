/** Inlining of `$ref`s over a set of schema files
    (packages/pcc-schema/scripts/create-combined-schemas.ts). */
module InlineRefs {
  import opened Outcomes
  import opened JsonTree

  /** A loaded schema with its `JSON.stringify` text, which `visited` uses as its key. */
  datatype Document = Document(text: string, root: Json)

  type Schemas = map<string, Document>

  const CONTRACT_PREFIX := "https://siteborne.net/schemas/"
  const UTILITY_PREFIX := "https://utility.siteborne.net/schemas/"

  function LocalPath(ref: string): string {
    if CONTRACT_PREFIX <= ref then ref[|CONTRACT_PREFIX|..]
    else if UTILITY_PREFIX <= ref then ref[|UTILITY_PREFIX|..]
    else ref
  }

  /** `obj.$ref` is truthy; with `RefsAreStrings` it is then a non-empty string. */
  predicate IsRefObject(v: Json) { IsRef(v) && RefOf(v) != "" }

  predicate Falsy(v: Json) {
    v == Null || v == Bool(false) || v == Num(0.0) || v == Str("")
  }

  /** The source calls string methods on every truthy `$ref`. */
  ghost predicate RefsAreStrings(v: Json) {
    match v
    case Arr(items) => forall i | 0 <= i < |items| :: RefsAreStrings(items[i])
    case Obj(fields) =>
      && ("$ref" in fields ==> fields["$ref"].Str? || Falsy(fields["$ref"]))
      && forall k | k in fields :: RefsAreStrings(fields[k])
    case _ => true
  }

  /** Schema files are named by relative paths, and the text of a file determines it. */
  ghost predicate WellFormed(schemas: Schemas) {
    && (forall p | p in schemas ::
          && p != "" && !("#" <= p) && !(CONTRACT_PREFIX <= p) && !(UTILITY_PREFIX <= p)
          && RefsAreStrings(schemas[p].root))
    && (forall p, q | p in schemas && q in schemas && schemas[p].text == schemas[q].text ::
        schemas[p].root == schemas[q].root)
  }

  function Texts(schemas: Schemas): set<string> {
    set p | p in schemas :: schemas[p].text
  }

  /** The document a resolvable reference object refers to. */
  function Target(schemas: Schemas, v: Json): Option<Document> {
    if IsRefObject(v) && LocalPath(RefOf(v)) in schemas then Some(schemas[LocalPath(RefOf(v))]) else None
  }

  function LocalRef(path: string): Json { Obj(map["$ref" := Str(path)]) }

  function Inline(schemas: Schemas, visited: set<string>, v: Json): Json
    decreases Texts(schemas) - visited, v
  {
    match v
    case Arr(items) => Arr(seq(|items|, i requires 0 <= i < |items| => Inline(schemas, visited, items[i])))
    case Obj(fields) =>
      if !IsRefObject(v) then Obj(map k | k in fields :: Inline(schemas, visited, fields[k]))
      else if Target(schemas, v).None? then v
      else
        var doc := Target(schemas, v).value;
        if doc.text in visited then LocalRef(LocalPath(RefOf(v)))
        else
          assert doc.text in Texts(schemas) - visited;
          Inline(schemas, visited + {doc.text}, doc.root)
    case _ => v
  }

  class Inliner {
    const schemas: Schemas
    var visited: set<string>

    constructor (schemas: Schemas)
      ensures this.schemas == schemas && visited == {}
    {
      this.schemas := schemas;
      visited := {};
    }

    /** Terminates on every schema set, and leaves `visited` as it found it. */
    method InlineRefs(obj: Json) returns (r: Json)
      requires WellFormed(schemas) && RefsAreStrings(obj)
      modifies this
      ensures visited == old(visited)
      ensures r == Inline(schemas, visited, obj)
      decreases Texts(schemas) - visited, obj
    {
      match obj
      case Arr(items) =>
        var out: seq<Json> := [];
        for i := 0 to |items|
          invariant visited == old(visited)
          invariant |out| == i && forall k | 0 <= k < i :: out[k] == Inline(schemas, visited, items[k])
        {
          var item := InlineRefs(items[i]);
          out := out + [item];
        }
        return Arr(out);
      case Obj(fields) =>
        if IsRefObject(obj) {
          var localPath := LocalPath(RefOf(obj));
          if localPath !in schemas { return obj; }
          var referenced := schemas[localPath];
          if referenced.text in visited { return LocalRef(localPath); }
          assert referenced.text in Texts(schemas) - visited;
          visited := visited + {referenced.text};
          r := InlineRefs(referenced.root);
          visited := visited - {referenced.text};
          return r;
        }
        var members := InlineMembers(fields, obj);
        return Obj(members);
      case _ => return obj;
    }

    method InlineMembers(fields: map<string, Json>, ghost obj: Json) returns (out: map<string, Json>)
      requires WellFormed(schemas) && RefsAreStrings(obj) && obj == Obj(fields)
      modifies this
      ensures visited == old(visited)
      ensures out == map k | k in fields :: Inline(schemas, visited, fields[k])
      decreases Texts(schemas) - visited, obj, 0
    {
      out := map[];
      var todo := fields.Keys;
      while todo != {}
        invariant visited == old(visited) && todo <= fields.Keys
        invariant out == map k | k in fields && k !in todo :: Inline(schemas, visited, fields[k])
        decreases todo
      {
        var key :| key in todo;
        var value := InlineRefs(fields[key]);
        out := out[key := value];
        todo := todo - {key};
      }
    }
  }

  /** Inlining keeps plain objects plain. */
  lemma InlineKeepsPlain(schemas: Schemas, visited: set<string>, v: Json)
    requires v.Obj? && !IsRefObject(v) && RefsAreStrings(v)
    ensures Inline(schemas, visited, v).Obj? && !IsRefObject(Inline(schemas, visited, v))
  {
    if "$ref" in v.fields {
      assert Inline(schemas, visited, v.fields["$ref"]) == v.fields["$ref"];
    }
  }

  lemma LocalRefTarget(schemas: Schemas, v: Json)
    requires WellFormed(schemas) && Target(schemas, v).Some?
    ensures Target(schemas, LocalRef(LocalPath(RefOf(v)))) == Target(schemas, v)
  {
  }

  // ---- Which references name which file ----

  /** A reference to a file by its path or by either of its two addresses, whatever stands
      beside it, becomes the inlined file, or the local reference where the file is being
      expanded already. */
  lemma FileIsInlined(schemas: Schemas, visited: set<string>, v: Json, p: string)
    requires WellFormed(schemas) && p in schemas
    requires v.Obj? && "$ref" in v.fields
    requires v.fields["$ref"] in {Str(p), Str("https://siteborne.net/schemas/" + p),
                                  Str("https://utility.siteborne.net/schemas/" + p)}
    ensures Inline(schemas, visited, v)
         == if schemas[p].text in visited then Obj(map["$ref" := Str(p)])
            else Inline(schemas, visited + {schemas[p].text}, schemas[p].root)
  {
    AddressOf(p);
    assert p != "";
  }

  lemma AddressOf(p: string)
    ensures LocalPath("https://siteborne.net/schemas/" + p) == p
    ensures LocalPath("https://utility.siteborne.net/schemas/" + p) == p
  {
    var utility := "https://utility.siteborne.net/schemas/" + p;
    assert utility[8] == 'u' && CONTRACT_PREFIX[8] == 's';
  }

  /** Any other reference is left as it is, with all that stands beside it. */
  lemma OtherReferenceIsKept(schemas: Schemas, visited: set<string>, v: Json)
    requires v.Obj? && "$ref" in v.fields && v.fields["$ref"].Str? && v.fields["$ref"].s != ""
    requires forall p | p in schemas ::
               v.fields["$ref"].s !in {p, "https://siteborne.net/schemas/" + p,
                                       "https://utility.siteborne.net/schemas/" + p}
    ensures Inline(schemas, visited, v) == v
  {
    var ref := v.fields["$ref"].s;
    var p := LocalPath(ref);
    assert CONTRACT_PREFIX <= ref ==> ref == CONTRACT_PREFIX + ref[|CONTRACT_PREFIX|..];
    assert UTILITY_PREFIX <= ref ==> ref == UTILITY_PREFIX + ref[|UTILITY_PREFIX|..];
  }

  /** An object without a `$ref`, or with a falsy one, is inlined member by member. */
  lemma PlainObjectIsEntered(schemas: Schemas, visited: set<string>, v: Json)
    requires v.Obj? && ("$ref" in v.fields ==> v.fields["$ref"] in {Null, Bool(false), Num(0.0), Str("")})
    ensures Inline(schemas, visited, v) == Obj(map k | k in v.fields :: Inline(schemas, visited, v.fields[k]))
    ensures (forall k | k in v.fields :: RefsAreStrings(v.fields[k])) ==> RefsAreStrings(v)
  {
  }

  // ---- What is left ----

  /** Some resolvable reference of `v` (siblings of references aside) names the document `text`. */
  ghost predicate Mentions(schemas: Schemas, v: Json, text: string) {
    match v
    case Arr(items) => exists i | 0 <= i < |items| :: Mentions(schemas, items[i], text)
    case Obj(fields) =>
      if IsRefObject(v) then Target(schemas, v).Some? && Target(schemas, v).value.text == text
      else exists k | k in fields :: Mentions(schemas, fields[k], text)
    case _ => false
  }

  /** A document with text `t` refers directly to one with text `u`. */
  ghost predicate RefersTo(schemas: Schemas, t: string, u: string) {
    exists p | p in schemas :: schemas[p].text == t && Mentions(schemas, schemas[p].root, u)
  }

  ghost predicate IsChain(schemas: Schemas, chain: seq<string>) {
    forall i, j | 0 <= i < j < |chain| && j == i + 1 :: RefersTo(schemas, chain[i], chain[j])
  }

  /** A chain of references that comes back to a document it has already passed. */
  ghost predicate ComesBack(schemas: Schemas, path: seq<string>) {
    |path| >= 2 && IsChain(schemas, path) && path[|path| - 1] in path[..|path| - 1]
  }

  /** `chain` is the path of documents being expanded around `v`. */
  ghost predicate ExpansionPath(schemas: Schemas, chain: seq<string>, visited: set<string>, v: Json) {
    && IsChain(schemas, chain)
    && (forall t :: t in visited <==> t in chain)
    && (chain != [] ==> forall u | Mentions(schemas, v, u) :: RefersTo(schemas, chain[|chain| - 1], u))
  }

  /** `path` goes on from the documents of `chain` until it comes back, at `u`. */
  ghost predicate OwnPath(schemas: Schemas, chain: seq<string>, path: seq<string>, u: string) {
    ComesBack(schemas, path) && chain < path && path[|path| - 1] == u
  }

  lemma PathOfPart(schemas: Schemas, chain: seq<string>, visited: set<string>, v: Json, part: Json)
    requires ExpansionPath(schemas, chain, visited, v)
    requires forall u {:trigger Mentions(schemas, part, u)} | Mentions(schemas, part, u) :: Mentions(schemas, v, u)
    ensures ExpansionPath(schemas, chain, visited, part)
  {
  }

  lemma PathOfTarget(schemas: Schemas, chain: seq<string>, visited: set<string>, v: Json)
    requires ExpansionPath(schemas, chain, visited, v) && Target(schemas, v).Some?
    ensures var doc := Target(schemas, v).value;
            ExpansionPath(schemas, chain + [doc.text], visited + {doc.text}, doc.root)
  {
    var doc := Target(schemas, v).value;
    var longer := chain + [doc.text];
    assert Mentions(schemas, v, doc.text);
    assert longer[|longer| - 1] == doc.text;
    forall u | Mentions(schemas, doc.root, u) ensures RefersTo(schemas, doc.text, u) {
      assert schemas[LocalPath(RefOf(v))] == doc;
    }
  }

  /** A reference left in a plain node was left in one of its parts. */
  lemma LeftoverInPart(schemas: Schemas, chain: seq<string>, visited: set<string>, v: Json, u: string)
    returns (part: Json)
    requires ExpansionPath(schemas, chain, visited, v)
    requires !IsRefObject(v) && RefsAreStrings(v) && Mentions(schemas, Inline(schemas, visited, v), u)
    ensures part < v && RefsAreStrings(part) && Mentions(schemas, Inline(schemas, visited, part), u)
    ensures forall w {:trigger Mentions(schemas, part, w)} | Mentions(schemas, part, w) :: Mentions(schemas, v, w)
    ensures ExpansionPath(schemas, chain, visited, part)
  {
    var out := Inline(schemas, visited, v);
    if v.Arr? {
      var i :| 0 <= i < |v.items| && Mentions(schemas, out.items[i], u);
      part := v.items[i];
      forall w { MentionsInItem(schemas, v, i, w); }
    } else {
      InlineKeepsPlain(schemas, visited, v);
      var k :| k in v.fields && Mentions(schemas, out.fields[k], u);
      part := v.fields[k];
      forall w { MentionsInField(schemas, v, k, w); }
    }
    PathOfPart(schemas, chain, visited, v, part);
  }

  lemma VisitedTargetEndsPath(schemas: Schemas, chain: seq<string>, visited: set<string>, v: Json, u: string)
    returns (path: seq<string>)
    requires WellFormed(schemas) && ExpansionPath(schemas, chain, visited, v)
    requires Target(schemas, v).Some? && Target(schemas, v).value.text in visited
    requires Mentions(schemas, LocalRef(LocalPath(RefOf(v))), u)
    ensures OwnPath(schemas, chain, path, u) && Mentions(schemas, v, path[|chain|])
  {
    LocalRefTarget(schemas, v);
    path := chain + [u];
    assert Mentions(schemas, v, u);
    assert path[..|path| - 1] == chain;
  }

  /** Every resolvable reference that inlining leaves names a document on its own
      expansion path: `path` is the documents expanded around it, then its target. */
  lemma {:induction false} LeftoverIsOnItsPath(schemas: Schemas, chain: seq<string>, visited: set<string>, v: Json,
                                               u: string)
    returns (path: seq<string>)
    requires WellFormed(schemas) && RefsAreStrings(v) && ExpansionPath(schemas, chain, visited, v)
    requires Mentions(schemas, Inline(schemas, visited, v), u)
    ensures OwnPath(schemas, chain, path, u) && Mentions(schemas, v, path[|chain|])
    decreases Texts(schemas) - visited, v
  {
    if !IsRefObject(v) {
      path := LeftoverInPlain(schemas, chain, visited, v, u);
    } else if Target(schemas, v).value.text in visited {
      path := VisitedTargetEndsPath(schemas, chain, visited, v, u);
    } else {
      path := LeftoverBehindRef(schemas, chain, visited, v, u);
    }
  }

  lemma {:induction false} LeftoverInPlain(schemas: Schemas, chain: seq<string>, visited: set<string>, v: Json,
                                           u: string)
    returns (path: seq<string>)
    requires WellFormed(schemas) && RefsAreStrings(v) && ExpansionPath(schemas, chain, visited, v) && !IsRefObject(v)
    requires Mentions(schemas, Inline(schemas, visited, v), u)
    ensures OwnPath(schemas, chain, path, u) && Mentions(schemas, v, path[|chain|])
    decreases Texts(schemas) - visited, v, 0
  {
    var part := LeftoverInPart(schemas, chain, visited, v, u);
    path := LeftoverIsOnItsPath(schemas, chain, visited, part, u);
  }

  lemma {:induction false} LeftoverBehindRef(schemas: Schemas, chain: seq<string>, visited: set<string>, v: Json,
                                             u: string)
    returns (path: seq<string>)
    requires WellFormed(schemas) && ExpansionPath(schemas, chain, visited, v)
    requires Target(schemas, v).Some? && Target(schemas, v).value.text !in visited
    requires Mentions(schemas, Inline(schemas, visited, v), u)
    ensures OwnPath(schemas, chain, path, u) && Mentions(schemas, v, path[|chain|])
    decreases Texts(schemas) - visited, v, 0
  {
    var doc := Target(schemas, v).value;
    assert doc.text in Texts(schemas) - visited;
    PathOfTarget(schemas, chain, visited, v);
    path := LeftoverIsOnItsPath(schemas, chain + [doc.text], visited + {doc.text}, doc.root, u);
    assert path[|chain|] == (chain + [doc.text])[|chain|];
  }

  lemma MentionsInItem(schemas: Schemas, v: Json, i: nat, u: string)
    requires v.Arr? && i < |v.items|
    ensures Mentions(schemas, v.items[i], u) ==> Mentions(schemas, v, u)
  {
  }

  lemma MentionsInField(schemas: Schemas, v: Json, k: string, u: string)
    requires v.Obj? && !IsRefObject(v) && k in v.fields
    ensures Mentions(schemas, v.fields[k], u) ==> Mentions(schemas, v, u)
  {
  }

  ghost predicate NothingLeft(schemas: Schemas, visited: set<string>, v: Json) {
    forall u :: !Mentions(schemas, Inline(schemas, visited, v), u)
  }

  lemma NothingLeftInItem(schemas: Schemas, visited: set<string>, v: Json, i: nat)
    requires v.Arr? && i < |v.items| && NothingLeft(schemas, visited, v)
    ensures NothingLeft(schemas, visited, v.items[i])
  {
    var out := Inline(schemas, visited, v);
    assert out.items[i] == Inline(schemas, visited, v.items[i]);
    forall u ensures !Mentions(schemas, out.items[i], u) {
      MentionsInItem(schemas, out, i, u);
      assert !Mentions(schemas, out, u);
    }
  }

  lemma NothingLeftInField(schemas: Schemas, visited: set<string>, v: Json, k: string)
    requires v.Obj? && !IsRefObject(v) && RefsAreStrings(v) && k in v.fields && NothingLeft(schemas, visited, v)
    ensures NothingLeft(schemas, visited, v.fields[k])
  {
    var out := Inline(schemas, visited, v);
    InlineKeepsPlain(schemas, visited, v);
    forall u ensures !Mentions(schemas, out.fields[k], u) {
      MentionsInField(schemas, out, k, u);
      assert !Mentions(schemas, out, u);
    }
  }

  /** If nothing resolvable is left, no chain of references from `v` ever comes back. */
  lemma {:induction false} NothingLeftMeansNoReturn(schemas: Schemas, visited: set<string>, v: Json, path: seq<string>)
    requires WellFormed(schemas) && RefsAreStrings(v)
    requires NothingLeft(schemas, visited, v)
    requires path != [] && IsChain(schemas, path) && Mentions(schemas, v, path[0])
    ensures forall i | 0 <= i < |path| :: path[i] !in visited
    ensures forall i, j | 0 <= i < j < |path| :: path[i] != path[j]
    decreases Texts(schemas) - visited, v
  {
    var out := Inline(schemas, visited, v);
    if v.Arr? {
      var i :| 0 <= i < |v.items| && Mentions(schemas, v.items[i], path[0]);
      NothingLeftInItem(schemas, visited, v, i);
      NothingLeftMeansNoReturn(schemas, visited, v.items[i], path);
    } else if !IsRefObject(v) {
      var k :| k in v.fields && Mentions(schemas, v.fields[k], path[0]);
      NothingLeftInField(schemas, visited, v, k);
      NothingLeftMeansNoReturn(schemas, visited, v.fields[k], path);
    } else {
      var doc := Target(schemas, v).value;
      LocalRefTarget(schemas, v);
      assert !Mentions(schemas, out, doc.text);
      assert doc.text in Texts(schemas) - visited;
      if |path| > 1 {
        assert RefersTo(schemas, path[0], path[1]);
        NothingLeftMeansNoReturn(schemas, visited + {doc.text}, doc.root, path[1..]);
      }
    }
  }

  ghost predicate LeavesRefs(schemas: Schemas, v: Json) {
    !NothingLeft(schemas, {}, v)
  }

  ghost predicate CanReturn(schemas: Schemas, v: Json) {
    exists path :: ComesBack(schemas, path) && Mentions(schemas, v, path[0])
  }

  lemma LeftoverMeansReturn(schemas: Schemas, v: Json)
    requires WellFormed(schemas) && RefsAreStrings(v) && LeavesRefs(schemas, v)
    ensures CanReturn(schemas, v)
  {
    var u :| Mentions(schemas, Inline(schemas, {}, v), u);
    var path := LeftoverIsOnItsPath(schemas, [], {}, v, u);
  }

  lemma ReturnMeansLeftover(schemas: Schemas, v: Json)
    requires WellFormed(schemas) && RefsAreStrings(v) && CanReturn(schemas, v)
    ensures LeavesRefs(schemas, v)
  {
    var path :| ComesBack(schemas, path) && Mentions(schemas, v, path[0]);
    var i :| 0 <= i < |path| - 1 && path[i] == path[|path| - 1];
    if !LeavesRefs(schemas, v) {
      NothingLeftMeansNoReturn(schemas, {}, v, path);
      assert false;
    }
  }

  /** Resolvable references are left exactly when the original can be followed back
      to a document already passed; on an acyclic set none is left. */
  lemma RefsAreLeftExactlyOnCycles(schemas: Schemas, v: Json)
    requires WellFormed(schemas) && RefsAreStrings(v)
    ensures LeavesRefs(schemas, v) <==> CanReturn(schemas, v)
  {
    if LeavesRefs(schemas, v) { LeftoverMeansReturn(schemas, v); }
    if CanReturn(schemas, v) { ReturnMeansLeftover(schemas, v); }
  }
}
