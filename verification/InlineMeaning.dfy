/** What inlining does to the meaning of a schema
    (packages/pcc-schema/scripts/create-combined-schemas.ts).

    References to schema files are followed, siblings of references are ignored. A fragment
    reference is resolved in the nearest enclosing schema resource: the closest object
    around it that carries an `$id`, or else the document it stands in (JSON Schema
    draft-07 core, section 8.2). */
module InlineMeaning {
  import opened Outcomes
  import opened JsonTree
  import opened InlineRefs
  import opened Chains
  import Decimal

  // ---- Places: a node and the resource that its fragment references are resolved in ----

  datatype Place = Place(base: Json, node: Json)

  /** Fragment references are either followed, or left alone as opaque marks. */
  datatype Reading = FragmentsFollowed | FragmentsOpaque

  /** A schema resource of its own; an `$id` that is only a fragment does not make one. */
  predicate Identified(v: Json) {
    v.Obj? && !IsRefObject(v) && "$id" in v.fields && v.fields["$id"].Str? && !("#" <= v.fields["$id"].s)
  }

  function At(base: Json, v: Json): (o: Place)
    ensures o.node == v
  {
    Place(if Identified(v) then v else base, v)
  }

  predicate IsFragment(v: Json) { IsRefObject(v) && "#" <= RefOf(v) }

  function Walk(o: Place, tokens: seq<string>): Option<Place>
    decreases |tokens|
  {
    if tokens == [] then Some(o)
    else
      match Child(o.node, tokens[0])
      case None => None
      case Some(c) => Walk(At(o.base, c), tokens[1..])
  }

  /** The reference tokens of a fragment; plain-name fragments are not resolved. */
  function FragmentTokens(ref: string): Option<seq<string>> {
    if ref == "#" then Some([]) else if "#/" <= ref then Some(Tokens(ref[2..])) else None
  }

  function FollowFragment(o: Place): Option<Place>
    requires IsFragment(o.node)
  {
    match FragmentTokens(RefOf(o.node))
    case None => None
    case Some(tokens) => Walk(Place(o.base, o.base), tokens)
  }

  /** Where the reference at a place leads in one step, if it is a reference that leads anywhere. */
  function Next(schemas: Schemas, reading: Reading): Step<Place> {
    (o: Place) =>
      var t := Target(schemas, o.node);
      if t.Some? then Some(Place(t.value.root, t.value.root))
      else if reading.FragmentsFollowed? && IsFragment(o.node) then FollowFragment(o)
      else None
  }

  datatype Tree =
    | Cut
    | Loop
    | Opaque(ref: string)
    | Leaf(value: Json)
    | Items(items: seq<Tree>)
    | Members(members: map<string, Tree>)

  /** The tree a schema stands for, cut off at a depth. */
  ghost function Unfold(next: Step<Place>, o: Place, depth: nat): Tree
    decreases depth, 0
  {
    if depth == 0 then Cut
    else
      match End(next, o)
      case None => Loop
      case Some(e) => UnfoldEnded(next, e, depth - 1)
  }

  /** The tree at a place where the chain of references has ended. */
  ghost function UnfoldEnded(next: Step<Place>, e: Place, depth: nat): Tree
    decreases depth, 1
  {
    if IsRefObject(e.node) then Opaque(RefOf(e.node))
    else
      match e.node
      case Arr(items) =>
        Items(seq(|items|, i requires 0 <= i < |items| => Unfold(next, At(e.base, items[i]), depth)))
      case Obj(fields) => Members(map k | k in fields :: Unfold(next, At(e.base, fields[k]), depth))
      case _ => Leaf(e.node)
  }

  /** The tree of a whole document. */
  ghost function Meaning(schemas: Schemas, reading: Reading, v: Json, depth: nat): Tree {
    Unfold(Next(schemas, reading), Place(v, v), depth)
  }

  // ---- When fragment references survive ----

  /** The pointer passes through no reference on its way. */
  predicate ThroughPlain(v: Json, tokens: seq<string>)
    decreases |tokens|
  {
    tokens == [] ||
    (!IsRefObject(v) && (Child(v, tokens[0]).Some? ==> ThroughPlain(Child(v, tokens[0]).value, tokens[1..])))
  }

  predicate PlainFragment(base: Json, v: Json)
    requires IsFragment(v)
  {
    var tokens := FragmentTokens(RefOf(v));
    tokens.Some? ==> ThroughPlain(base, tokens.value)
  }

  function Inside(base: Option<Json>, v: Json): Option<Json> {
    if Identified(v) then Some(v) else base
  }

  /** Every fragment reference of `v` has a resource to be resolved in, and its pointer
      passes through no reference. `base` is the resource around `v`, if it has one of its own. */
  ghost predicate Sound(base: Option<Json>, v: Json)
    decreases v
  {
    if IsRefObject(v) then IsFragment(v) ==> base.Some? && PlainFragment(base.value, v)
    else
      match v
      case Arr(items) => forall i | 0 <= i < |items| :: Sound(Inside(base, items[i]), items[i])
      case Obj(fields) => forall k | k in fields :: Sound(Inside(base, fields[k]), fields[k])
      case _ => true
  }

  /** A document that can be placed inside another: outside its own `$id` resources it has
      no fragment reference. */
  ghost predicate Embeddable(root: Json) {
    Sound(Inside(None, root), root)
  }

  /** What is asked of a document that is read on its own. */
  ghost predicate Standalone(root: Json) {
    Sound(Some(root), root)
  }

  /** Every file holds a schema: an object or a boolean. */
  ghost predicate SchemaFiles(schemas: Schemas) {
    forall p | p in schemas :: schemas[p].root.Obj? || schemas[p].root.Bool?
  }

  ghost predicate AllEmbeddable(schemas: Schemas) {
    forall p | p in schemas :: Embeddable(schemas[p].root)
  }

  /** What a reading asks of the schema files: nothing, if fragments are opaque. */
  ghost predicate Survives(schemas: Schemas, reading: Reading) {
    reading.FragmentsFollowed? ==> SchemaFiles(schemas) && AllEmbeddable(schemas)
  }

  // ---- A place and what inlining makes of it ----

  /** `base`, the resource around `o`, has been inlined as a whole around `o'`. */
  ghost predicate ResourceMatches(schemas: Schemas, visited: set<string>, base: Json, o: Place, o': Place) {
    RefsAreStrings(base) && Standalone(base) && o.base == base && o'.base == Inline(schemas, visited, base)
  }

  /** `o'` is `o` inlined; `base` is the resource that the fragment references of `o` need, if any. */
  ghost predicate Matches(schemas: Schemas, reading: Reading, visited: set<string>, base: Option<Json>, o: Place,
                          o': Place) {
    && RefsAreStrings(o.node) && o'.node == Inline(schemas, visited, o.node)
    && (reading.FragmentsFollowed? ==>
          && Sound(base, o.node)
          && (Identified(o'.node) ==> o'.base == o'.node)
          && (base.Some? ==> ResourceMatches(schemas, visited, base.value, o, o')))
  }

  /** The resource needed below a node, given the one around it; a resolvable reference needs none. */
  ghost function Needed(schemas: Schemas, base: Option<Json>, v: Json): Option<Json> {
    if Target(schemas, v).Some? then None else Inside(base, v)
  }

  lemma {:induction false} OnlyStringsBecomeStrings(schemas: Schemas, visited: set<string>, v: Json)
    requires SchemaFiles(schemas)
    ensures Inline(schemas, visited, v).Str? <==> v.Str?
    decreases Texts(schemas) - visited
  {
    if Target(schemas, v).Some? && Target(schemas, v).value.text !in visited {
      var doc := Target(schemas, v).value;
      assert doc.text in Texts(schemas) - visited;
      OnlyStringsBecomeStrings(schemas, visited + {doc.text}, doc.root);
    }
  }

  lemma InlineKeepsIdentity(schemas: Schemas, visited: set<string>, v: Json)
    requires RefsAreStrings(v) && Target(schemas, v).None?
    ensures IsRefObject(v) ==> Inline(schemas, visited, v) == v
    ensures !IsRefObject(v) ==> !IsRefObject(Inline(schemas, visited, v))
    ensures SchemaFiles(schemas) ==> (Identified(Inline(schemas, visited, v)) <==> Identified(v))
  {
    if v.Obj? && !IsRefObject(v) {
      InlineKeepsPlain(schemas, visited, v);
      if SchemaFiles(schemas) && "$id" in v.fields { OnlyStringsBecomeStrings(schemas, visited, v.fields["$id"]); }
    }
  }

  lemma FragmentsHaveNoTarget(schemas: Schemas, v: Json)
    requires WellFormed(schemas) && IsFragment(v)
    ensures Target(schemas, v).None?
  {
    assert LocalPath(RefOf(v)) == RefOf(v) by {
      assert RefOf(v)[0] == '#' && CONTRACT_PREFIX[0] == 'h' && UTILITY_PREFIX[0] == 'h';
    }
  }

  /** What matches around a part matches at the part. */
  lemma PartMatches(schemas: Schemas, reading: Reading, visited: set<string>, base: Option<Json>, o: Place, o': Place,
                    c: Json)
    requires WellFormed(schemas) && Survives(schemas, reading) && Matches(schemas, reading, visited, base, o, o')
    requires RefsAreStrings(c) && (reading.FragmentsFollowed? ==> Sound(Inside(base, c), c))
    ensures Matches(schemas, reading, visited, Needed(schemas, base, c), At(o.base, c),
            At(o'.base, Inline(schemas, visited, c)))
  {
    if Target(schemas, c).None? {
      InlineKeepsIdentity(schemas, visited, c);
    } else if IsFragment(c) {
      FragmentsHaveNoTarget(schemas, c);
    }
  }

  lemma ChildMatches(schemas: Schemas, reading: Reading, visited: set<string>, base: Option<Json>, o: Place,
                     o': Place, token: string)
    requires WellFormed(schemas) && Survives(schemas, reading) && Matches(schemas, reading, visited, base, o, o')
    requires !IsRefObject(o.node)
    ensures Child(o.node, token).Some? <==> Child(o'.node, token).Some?
    ensures Child(o.node, token).Some? ==>
            var c := Child(o.node, token).value;
            && Child(o'.node, token).value == Inline(schemas, visited, c)
            && Matches(schemas, reading, visited, Needed(schemas, base, c), At(o.base, c),
                At(o'.base, Inline(schemas, visited, c)))
  {
    if Child(o.node, token).Some? {
      PartMatches(schemas, reading, visited, base, o, o', Child(o.node, token).value);
    }
  }

  /** Walking a pointer through plain nodes leads to matching places, or nowhere on both sides. */
  lemma {:induction false} WalkMatches(schemas: Schemas, reading: Reading, visited: set<string>, base: Option<Json>,
                                       o: Place, o': Place, tokens: seq<string>) returns (end: Option<Json>)
    requires WellFormed(schemas) && Survives(schemas, reading) && Matches(schemas, reading, visited, base, o, o')
    requires ThroughPlain(o.node, tokens)
    ensures Walk(o, tokens).Some? <==> Walk(o', tokens).Some?
    ensures Walk(o, tokens).Some? ==>
            Matches(schemas, reading, visited, end, Walk(o, tokens).value, Walk(o', tokens).value)
    decreases |tokens|
  {
    end := base;
    if tokens != [] {
      ChildMatches(schemas, reading, visited, base, o, o', tokens[0]);
      if Child(o.node, tokens[0]).Some? {
        var c := Child(o.node, tokens[0]).value;
        end := WalkMatches(schemas, reading, visited, Needed(schemas, base, c),
                           At(o.base, c), At(o'.base, Inline(schemas, visited, c)), tokens[1..]);
      }
    }
  }

  lemma WholeMatches(schemas: Schemas, reading: Reading, visited: set<string>, v: Json)
    requires WellFormed(schemas) && Survives(schemas, reading)
    requires RefsAreStrings(v) && (reading.FragmentsFollowed? ==> Standalone(v))
    ensures var out := Inline(schemas, visited, v);
            Matches(schemas, reading, visited, if Target(schemas, v).Some? then None else Some(v),
                    Place(v, v), Place(out, out))
  {
    if Target(schemas, v).Some? && IsFragment(v) { FragmentsHaveNoTarget(schemas, v); }
  }

  /** A fragment reference leads to matching places, or nowhere on both sides. */
  lemma FragmentMatches(schemas: Schemas, visited: set<string>, base: Option<Json>, o: Place, o': Place)
    returns (end: Option<Json>)
    requires WellFormed(schemas) && Survives(schemas, FragmentsFollowed)
    requires Matches(schemas, FragmentsFollowed, visited, base, o, o') && IsFragment(o.node)
    ensures o'.node == o.node
    ensures FollowFragment(o).Some? <==> FollowFragment(o').Some?
    ensures FollowFragment(o).Some? ==>
            Matches(schemas, FragmentsFollowed, visited, end, FollowFragment(o).value, FollowFragment(o').value)
  {
    end := base;
    FragmentsHaveNoTarget(schemas, o.node);
    var tokens := FragmentTokens(RefOf(o.node));
    if tokens.Some? {
      var b := base.value;
      WholeMatches(schemas, FragmentsFollowed, visited, b);
      end := WalkMatches(schemas, FragmentsFollowed, visited, if Target(schemas, b).Some? then None else Some(b),
                         Place(b, b), Place(o'.base, o'.base), tokens.value);
    }
  }

  /** A reference to a document that is expanded here: the place itself stays, and matches the document. */
  lemma ExpandedMatches(schemas: Schemas, reading: Reading, visited: set<string>, base: Option<Json>, o: Place,
                        o': Place)
    requires WellFormed(schemas) && Survives(schemas, reading) && Matches(schemas, reading, visited, base, o, o')
    requires Target(schemas, o.node).Some? && Target(schemas, o.node).value.text !in visited
    ensures var doc := Target(schemas, o.node).value;
            Matches(schemas, reading, visited + {doc.text}, Needed(schemas, None, doc.root),
                Place(doc.root, doc.root), o')
  {
    var doc := Target(schemas, o.node).value;
    if Target(schemas, doc.root).None? {
      InlineKeepsIdentity(schemas, visited + {doc.text}, doc.root);
    } else if IsFragment(doc.root) {
      FragmentsHaveNoTarget(schemas, doc.root);
    }
  }

  lemma PlainEnds(schemas: Schemas, reading: Reading, visited: set<string>, base: Option<Json>, o: Place, o': Place)
    requires WellFormed(schemas) && Survives(schemas, reading) && Matches(schemas, reading, visited, base, o, o')
    requires Target(schemas, o.node).None? && (reading.FragmentsFollowed? ==> !IsFragment(o.node))
    ensures Next(schemas, reading)(o).None? && Next(schemas, reading)(o').None?
  {
    InlineKeepsIdentity(schemas, visited, o.node);
  }

  /** `o'` is `o` inlined with `m` documents left to expand. */
  ghost function Inlined(schemas: Schemas, reading: Reading): Relation<Place> {
    (m: nat, o: Place, o': Place) =>
      exists visited, base {:trigger Matches(schemas, reading, visited, base, o, o')} ::
        m == |Texts(schemas) - visited| && Matches(schemas, reading, visited, base, o, o')
  }

  lemma IsInlined(schemas: Schemas, reading: Reading, visited: set<string>, base: Option<Json>, o: Place, o': Place)
    requires Matches(schemas, reading, visited, base, o, o')
    ensures Inlined(schemas, reading)(|Texts(schemas) - visited|, o, o')
    ensures Related(Inlined(schemas, reading), o, o')
  {
    var rel := Inlined(schemas, reading);
    assert rel(|Texts(schemas) - visited|, o, o');
  }

  lemma FewerLeft(schemas: Schemas, visited: set<string>, text: string)
    requires text in Texts(schemas) - visited
    ensures |Texts(schemas) - (visited + {text})| < |Texts(schemas) - visited|
  {
    assert Texts(schemas) - (visited + {text}) == Texts(schemas) - visited - {text};
  }

  lemma DocumentGoesOn(schemas: Schemas, reading: Reading, visited: set<string>, base: Option<Json>, o: Place,
                       o': Place)
    requires WellFormed(schemas) && Survives(schemas, reading) && Matches(schemas, reading, visited, base, o, o')
    requires Target(schemas, o.node).Some?
    ensures GoesOn(Next(schemas, reading), Inlined(schemas, reading), |Texts(schemas) - visited|, o, o')
  {
    var doc := Target(schemas, o.node).value;
    if doc.text in visited {
      LocalRefTarget(schemas, o.node);
    } else {
      ExpandedMatches(schemas, reading, visited, base, o, o');
      FewerLeft(schemas, visited, doc.text);
      IsInlined(schemas, reading, visited + {doc.text}, Needed(schemas, None, doc.root), Place(doc.root, doc.root), o');
    }
  }

  lemma FragmentGoesOn(schemas: Schemas, visited: set<string>, base: Option<Json>, o: Place, o': Place)
    requires WellFormed(schemas) && Survives(schemas, FragmentsFollowed)
    requires Matches(schemas, FragmentsFollowed, visited, base, o, o') && IsFragment(o.node)
    ensures GoesOn(Next(schemas, FragmentsFollowed), Inlined(schemas, FragmentsFollowed), |Texts(schemas) - visited|,
            o, o')
  {
    FragmentsHaveNoTarget(schemas, o.node);
    var b := FragmentMatches(schemas, visited, base, o, o');
    if FollowFragment(o).Some? {
      IsInlined(schemas, FragmentsFollowed, visited, b, FollowFragment(o).value, FollowFragment(o').value);
    }
  }

  lemma MatchingGoesOn(schemas: Schemas, reading: Reading, visited: set<string>, base: Option<Json>, o: Place,
                       o': Place)
    requires WellFormed(schemas) && Survives(schemas, reading) && Matches(schemas, reading, visited, base, o, o')
    ensures GoesOn(Next(schemas, reading), Inlined(schemas, reading), |Texts(schemas) - visited|, o, o')
  {
    if Target(schemas, o.node).Some? {
      DocumentGoesOn(schemas, reading, visited, base, o, o');
    } else if reading.FragmentsFollowed? && IsFragment(o.node) {
      FragmentGoesOn(schemas, visited, base, o, o');
    } else {
      PlainEnds(schemas, reading, visited, base, o, o');
    }
  }

  lemma InliningSimulates(schemas: Schemas, reading: Reading)
    requires WellFormed(schemas) && Survives(schemas, reading)
    ensures Simulation(Next(schemas, reading), Inlined(schemas, reading))
  {
    var rel := Inlined(schemas, reading);
    forall m: nat, o: Place, o': Place | rel(m, o, o') ensures GoesOn(Next(schemas, reading), rel, m, o, o') {
      var visited, base :| m == |Texts(schemas) - visited| && Matches(schemas, reading, visited, base, o, o');
      MatchingGoesOn(schemas, reading, visited, base, o, o');
    }
  }

  // ---- Inlining keeps the meaning ----

  lemma PartIsInlined(schemas: Schemas, reading: Reading, visited: set<string>, base: Option<Json>, e: Place,
                      e': Place, c: Json)
    requires WellFormed(schemas) && Survives(schemas, reading) && Matches(schemas, reading, visited, base, e, e')
    requires RefsAreStrings(c) && (reading.FragmentsFollowed? ==> Sound(Inside(base, c), c))
    ensures Related(Inlined(schemas, reading), At(e.base, c), At(e'.base, Inline(schemas, visited, c)))
  {
    PartMatches(schemas, reading, visited, base, e, e', c);
    IsInlined(schemas, reading, visited, Needed(schemas, base, c), At(e.base, c),
        At(e'.base, Inline(schemas, visited, c)));
  }

  /** What two related ended places look like: the same reference, or the same shape with
      related parts. */
  ghost predicate SameShape(rel: Relation<Place>, e: Place, e': Place) {
    && (IsRefObject(e.node) <==> IsRefObject(e'.node))
    && (IsRefObject(e.node) ==> e'.node == e.node)
    && (!IsRefObject(e.node) ==>
          match (e.node, e'.node)
          case (Arr(items), Arr(items')) =>
            |items| == |items'| &&
            forall i | 0 <= i < |items| :: Related(rel, At(e.base, items[i]), At(e'.base, items'[i]))
          case (Obj(fields), Obj(fields')) =>
            fields.Keys == fields'.Keys &&
            forall k | k in fields :: Related(rel, At(e.base, fields[k]), At(e'.base, fields'[k]))
          case _ => e'.node == e.node && !Container(e.node))
  }

  ghost predicate ShapesKept(next: Step<Place>, rel: Relation<Place>) {
    forall e, e' {:trigger SameShape(rel, e, e')} | Related(rel, e, e') && next(e).None? :: SameShape(rel, e, e')
  }

  /** Places that are alike unfold to the same tree, under any simulation that keeps shapes. */
  lemma {:induction false} AlikeUnfoldAlike(next: Step<Place>, rel: Relation<Place>, o: Place, o': Place, depth: nat)
    requires Simulation(next, rel) && ShapesKept(next, rel) && Alike(rel, o, o')
    ensures Unfold(next, o, depth) == Unfold(next, o', depth)
    decreases depth, 0
  {
    EndsAlike(next, rel, o, o');
    if depth > 0 && End(next, o).Some? {
      var e, e' := End(next, o).value, End(next, o').value;
      EndSettled(next, o);
      if e != e' { EndedUnfoldAlike(next, rel, e, e', depth - 1); }
    }
  }

  lemma {:induction false} EndedUnfoldAlike(next: Step<Place>, rel: Relation<Place>, e: Place, e': Place, depth: nat)
    requires Simulation(next, rel) && ShapesKept(next, rel) && Related(rel, e, e') && next(e).None?
    ensures UnfoldEnded(next, e, depth) == UnfoldEnded(next, e', depth)
    decreases depth, 1
  {
    assert SameShape(rel, e, e');
    if !IsRefObject(e.node) {
      match e.node
      case Arr(items) =>
        forall i | 0 <= i < |items|
          ensures Unfold(next, At(e.base, items[i]), depth) == Unfold(next, At(e'.base, e'.node.items[i]), depth)
        {
          AlikeUnfoldAlike(next, rel, At(e.base, items[i]), At(e'.base, e'.node.items[i]), depth);
        }
      case Obj(fields) =>
        forall k | k in fields
          ensures Unfold(next, At(e.base, fields[k]), depth) == Unfold(next, At(e'.base, e'.node.fields[k]), depth)
        {
          AlikeUnfoldAlike(next, rel, At(e.base, fields[k]), At(e'.base, e'.node.fields[k]), depth);
        }
      case _ =>
    }
  }

  lemma PartsAreSound(base: Option<Json>, v: Json)
    requires Sound(base, v) && !IsRefObject(v)
    ensures v.Arr? ==> forall i | 0 <= i < |v.items| :: Sound(Inside(base, v.items[i]), v.items[i])
    ensures v.Obj? ==> forall k | k in v.fields :: Sound(Inside(base, v.fields[k]), v.fields[k])
  {
  }

  lemma ItemsInlined(schemas: Schemas, reading: Reading, visited: set<string>, base: Option<Json>, e: Place, e': Place)
    requires WellFormed(schemas) && Survives(schemas, reading) && Matches(schemas, reading, visited, base, e, e')
    requires e.node.Arr?
    ensures SameShape(Inlined(schemas, reading), e, e')
  {
    if reading.FragmentsFollowed? { PartsAreSound(base, e.node); }
    var items := e.node.items;
    forall i | 0 <= i < |items|
      ensures Related(Inlined(schemas, reading), At(e.base, items[i]), At(e'.base, e'.node.items[i]))
    {
      PartIsInlined(schemas, reading, visited, base, e, e', items[i]);
    }
  }

  lemma MembersInlined(schemas: Schemas, reading: Reading, visited: set<string>, base: Option<Json>, e: Place,
                       e': Place)
    requires WellFormed(schemas) && Survives(schemas, reading) && Matches(schemas, reading, visited, base, e, e')
    requires e.node.Obj? && !IsRefObject(e.node)
    ensures SameShape(Inlined(schemas, reading), e, e')
  {
    if reading.FragmentsFollowed? { PartsAreSound(base, e.node); }
    InlineKeepsPlain(schemas, visited, e.node);
    var fields := e.node.fields;
    forall k | k in fields
      ensures Related(Inlined(schemas, reading), At(e.base, fields[k]), At(e'.base, e'.node.fields[k]))
    {
      PartIsInlined(schemas, reading, visited, base, e, e', fields[k]);
    }
  }

  lemma EndedSameShape(schemas: Schemas, reading: Reading, visited: set<string>, base: Option<Json>, e: Place,
                       e': Place)
    requires WellFormed(schemas) && Survives(schemas, reading) && Matches(schemas, reading, visited, base, e, e')
    requires Target(schemas, e.node).None?
    ensures SameShape(Inlined(schemas, reading), e, e')
  {
    if e.node.Arr? {
      ItemsInlined(schemas, reading, visited, base, e, e');
    } else if e.node.Obj? && !IsRefObject(e.node) {
      MembersInlined(schemas, reading, visited, base, e, e');
    }
  }

  lemma InliningKeepsShapes(schemas: Schemas, reading: Reading)
    requires WellFormed(schemas) && Survives(schemas, reading)
    ensures ShapesKept(Next(schemas, reading), Inlined(schemas, reading))
  {
    var rel := Inlined(schemas, reading);
    forall e, e' | Related(rel, e, e') && Next(schemas, reading)(e).None? ensures SameShape(rel, e, e') {
      var m: nat :| rel(m, e, e');
      var visited, base :| Matches(schemas, reading, visited, base, e, e');
      EndedSameShape(schemas, reading, visited, base, e, e');
    }
  }

  /** The inlined schema means what the original meant, at every depth and on every set of
      schema files, cyclic ones too: with fragments opaque always, and with fragments
      followed if every file is embeddable. */
  lemma InliningPreservesMeaning(schemas: Schemas, reading: Reading, v: Json, depth: nat)
    requires WellFormed(schemas) && RefsAreStrings(v)
    requires Survives(schemas, reading) && (reading.FragmentsFollowed? ==> Standalone(v))
    ensures Meaning(schemas, reading, Inline(schemas, {}, v), depth) == Meaning(schemas, reading, v, depth)
  {
    var out := Inline(schemas, {}, v);
    var base := if Target(schemas, v).Some? then None else Some(v);
    WholeMatches(schemas, reading, {}, v);
    IsInlined(schemas, reading, {}, base, Place(v, v), Place(out, out));
    InliningSimulates(schemas, reading);
    InliningKeepsShapes(schemas, reading);
    AlikeUnfoldAlike(Next(schemas, reading), Inlined(schemas, reading), Place(v, v), Place(out, out), depth);
  }

  // ---- The condition is exact ----

  /** `at` leads from `v`, through plain nodes that are not resources of their own, to a
      fragment reference `f`. */
  ghost predicate LooseFragment(v: Json, at: seq<string>, f: Json)
    decreases |at|
  {
    if at == [] then v == f && IsFragment(f)
    else
      && !IsRefObject(v) && Child(v, at[0]).Some?
      && !Identified(Child(v, at[0]).value) && LooseFragment(Child(v, at[0]).value, at[1..], f)
  }

  lemma ItemToken(v: Json, i: nat) returns (token: string)
    requires v.Arr? && i < |v.items|
    ensures Child(v, token) == Some(v.items[i])
  {
    Decimal.ValueOfPrint(i);
    token := Decimal.Print(i);
  }

  /** A document that is sound on its own but not embeddable has a loose fragment. */
  lemma {:induction false} FindLoose(base: Json, v: Json) returns (at: seq<string>, f: Json)
    requires Sound(Some(base), v) && !Sound(None, v)
    ensures LooseFragment(v, at, f) && IsFragment(f) && PlainFragment(base, f)
    decreases v
  {
    if IsRefObject(v) {
      at, f := [], v;
    } else {
      var token, c;
      if v.Arr? {
        var i :| 0 <= i < |v.items| && !Sound(Inside(None, v.items[i]), v.items[i]);
        c := v.items[i];
        token := ItemToken(v, i);
      } else {
        token :| token in v.fields && !Sound(Inside(None, v.fields[token]), v.fields[token]);
        c := v.fields[token];
      }
      assert Sound(Inside(Some(base), c), c);
      at, f := FindLoose(base, c);
      assert ([token] + at)[1..] == at;
      at := [token] + at;
    }
  }

  /** In its own document the fragment leads to a node that is not a reference again. */
  predicate Lands(root: Json, f: Json) {
    IsFragment(f) && FollowFragment(Place(root, f)).Some? && !IsRefObject(FollowFragment(Place(root, f)).value.node)
  }

  ghost predicate LooseFragmentsLand(root: Json) {
    forall at, f | LooseFragment(root, at, f) :: Lands(root, f)
  }

  lemma LooseNodeHasNoTarget(schemas: Schemas, v: Json, at: seq<string>, f: Json)
    requires WellFormed(schemas) && LooseFragment(v, at, f)
    ensures Target(schemas, v).None?
  {
    if at == [] { FragmentsHaveNoTarget(schemas, f); }
  }

  /** Nothing is followed at a node that is not a reference. */
  ghost predicate PlainStops(next: Step<Place>) {
    forall o: Place :: !IsRefObject(o.node) ==> next(o).None?
  }

  lemma UnfoldPlain(next: Step<Place>, o: Place, depth: nat)
    requires depth > 0 && PlainStops(next) && !IsRefObject(o.node)
    ensures Unfold(next, o, depth) == UnfoldEnded(next, o, depth - 1)
  {
    EndOfEnded(next, o);
  }

  lemma DifferBelow(next: Step<Place>, o: Place, o': Place, token: string, depth: nat)
    requires !IsRefObject(o.node) && !IsRefObject(o'.node)
    requires Child(o.node, token).Some? && Child(o'.node, token).Some?
    requires o.node.Arr? <==> o'.node.Arr?
    requires Unfold(next, At(o.base, Child(o.node, token).value), depth)
          != Unfold(next, At(o'.base, Child(o'.node, token).value), depth)
    ensures UnfoldEnded(next, o, depth) != UnfoldEnded(next, o', depth)
  {
    if o.node.Arr? {
      var i := Decimal.Value(token);
      var t, t' := UnfoldEnded(next, o, depth), UnfoldEnded(next, o', depth);
      assert t.items[i] == Unfold(next, At(o.base, o.node.items[i]), depth);
      assert t'.items[i] == Unfold(next, At(o'.base, o'.node.items[i]), depth);
    } else {
      var t, t' := UnfoldEnded(next, o, depth), UnfoldEnded(next, o', depth);
      assert t.members[token] == Unfold(next, At(o.base, o.node.fields[token]), depth);
      assert t'.members[token] == Unfold(next, At(o'.base, o'.node.fields[token]), depth);
    }
  }

  lemma ChildInlined(schemas: Schemas, visited: set<string>, v: Json, token: string)
    requires RefsAreStrings(v) && !IsRefObject(v) && Child(v, token).Some?
    ensures Child(Inline(schemas, visited, v), token) == Some(Inline(schemas, visited, Child(v, token).value))
    ensures RefsAreStrings(Child(v, token).value)
  {
  }

  lemma LooseNodeInlined(schemas: Schemas, visited: set<string>, v: Json, at: seq<string>, f: Json)
    requires WellFormed(schemas) && SchemaFiles(schemas) && RefsAreStrings(v)
    requires LooseFragment(v, at, f) && !Identified(v)
    ensures !Identified(Inline(schemas, visited, v))
    ensures at == [] ==> Inline(schemas, visited, v) == f
    ensures at != [] ==> !IsRefObject(Inline(schemas, visited, v))
  {
    LooseNodeHasNoTarget(schemas, v, at, f);
    InlineKeepsIdentity(schemas, visited, v);
  }

  lemma DifferenceRises(schemas: Schemas, next: Step<Place>, visited: set<string>, base: Json, base': Json,
                        v: Json, token: string, depth: nat)
    requires PlainStops(next) && RefsAreStrings(v) && !IsRefObject(v) && !IsRefObject(Inline(schemas, visited, v))
    requires Child(v, token).Some? && !Identified(Child(v, token).value)
    requires !Identified(Inline(schemas, visited, Child(v, token).value))
    requires Unfold(next, Place(base, Child(v, token).value), depth)
          != Unfold(next, Place(base', Inline(schemas, visited, Child(v, token).value)), depth)
    ensures Unfold(next, Place(base, v), depth + 1)
            != Unfold(next, Place(base', Inline(schemas, visited, v)), depth + 1)
  {
    var o, o' := Place(base, v), Place(base', Inline(schemas, visited, v));
    ChildInlined(schemas, visited, v, token);
    DifferBelow(next, o, o', token, depth);
    UnfoldPlain(next, o, depth + 1);
    UnfoldPlain(next, o', depth + 1);
  }

  /** If a loose fragment means something else inside the other base, the tree around it shows. */
  lemma {:induction false} LooseFragmentShows(schemas: Schemas, next: Step<Place>, visited: set<string>, base: Json,
                                              base': Json,
                                              v: Json, at: seq<string>, f: Json)
    requires WellFormed(schemas) && SchemaFiles(schemas) && PlainStops(next) && RefsAreStrings(v)
    requires LooseFragment(v, at, f) && !Identified(v)
    requires Unfold(next, Place(base, f), 1) != Unfold(next, Place(base', f), 1)
    ensures Unfold(next, Place(base, v), |at| + 1) != Unfold(next, Place(base', Inline(schemas, visited, v)), |at| + 1)
    decreases |at|
  {
    LooseNodeInlined(schemas, visited, v, at, f);
    if at != [] {
      var c := Child(v, at[0]).value;
      ChildInlined(schemas, visited, v, at[0]);
      LooseNodeInlined(schemas, visited, c, at[1..], f);
      LooseFragmentShows(schemas, next, visited, base, base', c, at[1..], f);
      DifferenceRises(schemas, next, visited, base, base', v, at[0], |at|);
    }
  }

  // ---- A host in which a loose fragment is lost ----

  ghost function Host(key: string, path: string): Json { Obj(map[key := LocalRef(path)]) }

  lemma {:induction false} LongerThanAll(keys: set<string>) returns (n: nat)
    ensures forall k | k in keys :: |k| < n
  {
    if keys == {} {
      n := 0;
    } else {
      var k :| k in keys;
      n := LongerThanAll(keys - {k});
      n := if n > |k| then n else |k| + 1;
    }
  }

  lemma FreshKey(keys: set<string>) returns (key: string)
    ensures key !in keys
  {
    var n := LongerThanAll(keys);
    key := seq(n, _ => 'a');
  }

  /** The first token of the fragment, if there is one. */
  function FirstToken(f: Json): set<string>
    requires IsFragment(f)
  {
    var tokens := FragmentTokens(RefOf(f));
    if tokens.Some? && tokens.value != [] then {tokens.value[0]} else {}
  }

  /** A key under which the document can be placed without catching its fragment by accident. */
  predicate Uncaught(key: string, root: Json, f: Json)
    requires IsFragment(f)
  {
    && key != "$ref" && key != "$id" && key !in FirstToken(f)
    && (root.Obj? ==> key !in root.fields)
  }

  lemma UnfoldLanding(next: Step<Place>, o: Place, end: Place)
    requires next(o) == Some(end) && next(end).None?
    ensures Unfold(next, o, 1) == UnfoldEnded(next, end, 0)
  {
    EndOfStep(next, o);
    EndOfEnded(next, end);
  }

  lemma LostToHost(schemas: Schemas, f: Json, key: string, out: Json)
    requires WellFormed(schemas) && IsFragment(f) && FragmentTokens(RefOf(f)).Some? && key !in FirstToken(f)
    requires key != "$ref" && out.Obj? && out.fields.Keys == {key}
    ensures var next := Next(schemas, FragmentsFollowed);
            Unfold(next, Place(out, f), 1) ==
              if FragmentTokens(RefOf(f)).value == [] then UnfoldEnded(next, Place(out, out), 0)
              else Opaque(RefOf(f))
  {
    FragmentsHaveNoTarget(schemas, f);
    var next := Next(schemas, FragmentsFollowed);
    if FragmentTokens(RefOf(f)).value == [] {
      UnfoldLanding(next, Place(out, f), Place(out, out));
    } else {
      EndOfEnded(next, Place(out, f));
    }
  }

  lemma LandsInDocument(schemas: Schemas, root: Json, f: Json)
    requires WellFormed(schemas) && Lands(root, f)
    ensures Unfold(Next(schemas, FragmentsFollowed), Place(root, f), 1)
         == UnfoldEnded(Next(schemas, FragmentsFollowed), FollowFragment(Place(root, f)).value, 0)
  {
    FragmentsHaveNoTarget(schemas, f);
    UnfoldLanding(Next(schemas, FragmentsFollowed), Place(root, f), FollowFragment(Place(root, f)).value);
  }

  /** In the document the fragment leads to a plain node; in an object with one other key
      it leads nowhere, or to that object. */
  lemma FragmentIsLost(schemas: Schemas, root: Json, f: Json, key: string, out: Json)
    requires WellFormed(schemas) && Lands(root, f) && Uncaught(key, root, f)
    requires out.Obj? && out.fields.Keys == {key}
    ensures Unfold(Next(schemas, FragmentsFollowed), Place(root, f), 1)
            != Unfold(Next(schemas, FragmentsFollowed), Place(out, f), 1)
  {
    LandsInDocument(schemas, root, f);
    LostToHost(schemas, f, key, out);
    if FragmentTokens(RefOf(f)).value == [] {
      assert key in UnfoldEnded(Next(schemas, FragmentsFollowed), Place(out, out), 0).members;
    }
  }

  lemma PlainNodesStop(schemas: Schemas)
    ensures PlainStops(Next(schemas, FragmentsFollowed))
  {
  }

  lemma HostInlined(schemas: Schemas, key: string, path: string)
    requires WellFormed(schemas) && path in schemas && key != "$ref"
    ensures var doc := schemas[path];
            Inline(schemas, {}, Host(key, path)) == Obj(map[key := Inline(schemas, {doc.text}, doc.root)])
  {
    var doc, host := schemas[path], Host(key, path);
    assert Target(schemas, host.fields[key]) == Some(doc);
    assert {} + {doc.text} == {doc.text};
    assert Inline(schemas, {}, host.fields[key]) == Inline(schemas, {doc.text}, doc.root);
  }

  /** The meaning of a document with one member. */
  lemma {:induction false} MeansMember(next: Step<Place>, key: string, c: Json, depth: nat)
    requires PlainStops(next) && key != "$ref" && !Identified(c)
    ensures Unfold(next, Place(Obj(map[key := c]), Obj(map[key := c])), depth + 1)
         == Members(map[key := Unfold(next, Place(Obj(map[key := c]), c), depth)])
  {
    var v := Obj(map[key := c]);
    UnfoldPlain(next, Place(v, v), depth + 1);
  }

  lemma MembersDiffer(key: string, a: Tree, b: Tree)
    requires a != b
    ensures Members(map[key := a]) != Members(map[key := b])
  {
    assert map[key := a][key] == a && map[key := b][key] == b;
  }

  /** The file, inlined as the only member of a document, has another tree than on its own. */
  ghost predicate ShowsUnder(schemas: Schemas, doc: Document, key: string, depth: nat) {
    var next, inlined := Next(schemas, FragmentsFollowed), Inline(schemas, {doc.text}, doc.root);
    && !Identified(inlined)
    && Unfold(next, Place(doc.root, doc.root), depth) != Unfold(next, Place(Obj(map[key := inlined]), inlined), depth)
  }

  /** A file without `$id` whose fragment `f` leads to a plain node of its own, and a key
      that does not catch it. */
  ghost predicate LosesFragment(root: Json, at: seq<string>, f: Json, key: string) {
    !Identified(root) && LooseFragment(root, at, f) && Lands(root, f) && Uncaught(key, root, f)
  }

  lemma {:induction false} LooseFragmentShowsUnder(schemas: Schemas, doc: Document, at: seq<string>, f: Json,
                                                   key: string)
    requires WellFormed(schemas) && SchemaFiles(schemas) && RefsAreStrings(doc.root)
    requires LosesFragment(doc.root, at, f, key)
    ensures ShowsUnder(schemas, doc, key, |at| + 1)
  {
    var out := Obj(map[key := Inline(schemas, {doc.text}, doc.root)]);
    PlainNodesStop(schemas);
    LooseNodeInlined(schemas, {doc.text}, doc.root, at, f);
    FragmentIsLost(schemas, doc.root, f, key, out);
    LooseFragmentShows(schemas, Next(schemas, FragmentsFollowed), {doc.text}, doc.root, out, doc.root, at, f);
  }

  ghost predicate KeepsMeaning(schemas: Schemas, v: Json) {
    forall depth: nat :: Meaning(schemas, FragmentsFollowed, Inline(schemas, {}, v), depth)
        == Meaning(schemas, FragmentsFollowed, v, depth)
  }

  lemma {:induction false} HostDiffers(next: Step<Place>, key: string, link: Json, root: Json, inlined: Json,
                                       depth: nat)
    requires PlainStops(next) && key != "$ref" && !Identified(link) && !Identified(inlined)
    requires next(Place(Obj(map[key := link]), link)) == Some(Place(root, root))
    requires Unfold(next, Place(root, root), depth) != Unfold(next, Place(Obj(map[key := inlined]), inlined), depth)
    ensures var host, out := Obj(map[key := link]), Obj(map[key := inlined]);
            Unfold(next, Place(out, out), depth + 1) != Unfold(next, Place(host, host), depth + 1)
  {
    EndOfStep(next, Place(Obj(map[key := link]), link));
    MeansMember(next, key, link, depth);
    MeansMember(next, key, inlined, depth);
    MembersDiffer(key, Unfold(next, Place(Obj(map[key := inlined]), inlined), depth),
                  Unfold(next, Place(Obj(map[key := link]), link), depth));
  }

  lemma {:induction false} LinkLeads(schemas: Schemas, path: string, base: Json)
    requires WellFormed(schemas) && path in schemas
    ensures Next(schemas, FragmentsFollowed)(Place(base, LocalRef(path)))
            == Some(Place(schemas[path].root, schemas[path].root))
    ensures !Identified(LocalRef(path))
  {
    assert Target(schemas, LocalRef(path)) == Some(schemas[path]);
  }

  lemma {:induction false} FileShowsInHost(schemas: Schemas, path: string, key: string, depth: nat)
    requires WellFormed(schemas) && path in schemas && key != "$ref"
    requires ShowsUnder(schemas, schemas[path], key, depth)
    ensures !KeepsMeaning(schemas, Host(key, path))
  {
    var next, doc := Next(schemas, FragmentsFollowed), schemas[path];
    var inlined := Inline(schemas, {doc.text}, doc.root);
    PlainNodesStop(schemas);
    LinkLeads(schemas, path, Host(key, path));
    HostInlined(schemas, key, path);
    HostDiffers(next, key, LocalRef(path), doc.root, inlined, depth);
    assert Meaning(schemas, FragmentsFollowed, Inline(schemas, {}, Host(key, path)), depth + 1)
        != Meaning(schemas, FragmentsFollowed, Host(key, path), depth + 1);
  }

  /** The failing input: a file with a loose fragment reference, placed inside another
      document, loses its target; the two documents no longer mean the same. */
  lemma {:induction false} LooseFragmentIsLost(schemas: Schemas, path: string, at: seq<string>, f: Json, key: string)
    requires WellFormed(schemas) && SchemaFiles(schemas) && path in schemas
    requires LosesFragment(schemas[path].root, at, f, key)
    ensures !KeepsMeaning(schemas, Host(key, path))
  {
    LooseFragmentShowsUnder(schemas, schemas[path], at, f, key);
    FileShowsInHost(schemas, path, key, |at| + 1);
  }

  ghost function SmallFile(): Json { Obj(map["a" := LocalRef("#/b"), "b" := Null]) }

  lemma {:induction false} SmallFileLoose()
    ensures LosesFragment(SmallFile(), ["a"], LocalRef("#/b"), "x")
  {
    var root, f := SmallFile(), LocalRef("#/b");
    assert RefOf(f) == "#/b" && "#/b"[2..] == "b";
    TokensWhole("b");
    assert FollowFragment(Place(root, f)) == Walk(Place(root, root), ["b"]) == Walk(At(root, Null), ["b"][1..]);
    assert ["a"][1..] == [] && LooseFragment(f, [], f) && Child(root, "a") == Some(f);
  }

  lemma {:induction false} SmallSchemas(schemas: Schemas)
    requires schemas == map["p" := Document("t", SmallFile())]
    ensures WellFormed(schemas) && SchemaFiles(schemas)
  {
    assert RefsAreStrings(LocalRef("#/b")) && RefsAreStrings(Null);
    assert "p"[0] == 'p' && CONTRACT_PREFIX[0] == 'h' && UTILITY_PREFIX[0] == 'h' && "#"[0] == '#';
    assert schemas.Keys == {"p"} && schemas["p"].root == SmallFile();
  }

  /** A concrete file that does: its `a` refers to `#/b`, and it is placed under `x`. */
  lemma {:induction false} SmallFileLosesFragment(schemas: Schemas)
    requires schemas == map["p" := Document("t", SmallFile())]
    ensures WellFormed(schemas) && SchemaFiles(schemas) && !KeepsMeaning(schemas, Host("x", "p"))
  {
    SmallFileLoose();
    SmallSchemas(schemas);
    LooseFragmentIsLost(schemas, "p", ["a"], LocalRef("#/b"), "x");
  }

  /** To a reader that ignores `$id` every file is like that: a pointer into the file no
      longer resolves from the root of the output. */
  lemma RootPointerIsLost(schemas: Schemas, path: string, key: string, tokens: seq<string>)
    requires WellFormed(schemas) && path in schemas && key != "$ref"
    requires tokens != [] && tokens[0] != key && Resolve(schemas[path].root, tokens).Some?
    ensures Resolve(Inline(schemas, {}, Host(key, path)), tokens).None?
  {
    HostInlined(schemas, key, path);
  }

  ghost predicate SoundDocument(v: Json) { RefsAreStrings(v) && Standalone(v) }

  lemma HostIsSound(key: string, path: string)
    requires key != "$ref" && path != "" && !("#" <= path)
    ensures SoundDocument(Host(key, path))
  {
    assert !IsFragment(LocalRef(path));
  }

  lemma NotEmbeddableFails(schemas: Schemas, path: string) returns (host: Json)
    requires WellFormed(schemas) && SchemaFiles(schemas) && path in schemas
    requires Standalone(schemas[path].root) && LooseFragmentsLand(schemas[path].root) && !Embeddable(schemas[path].root)
    ensures SoundDocument(host) && !KeepsMeaning(schemas, host)
  {
    var root := schemas[path].root;
    var at, f := FindLoose(root, root);
    var key := FreshKey({"$ref", "$id"} + FirstToken(f) + (if root.Obj? then root.fields.Keys else {}));
    host := Host(key, path);
    HostIsSound(key, path);
    LooseFragmentIsLost(schemas, path, at, f, key);
  }

  /** The condition is exact. For files that are sound on their own and whose loose
      fragments lead to nodes of their own: inlining keeps the meaning of every sound
      document exactly when every file is embeddable, that is, has no fragment reference
      outside a resource with an `$id`. */
  lemma FragmentsSurviveExactly(schemas: Schemas)
    requires WellFormed(schemas) && SchemaFiles(schemas)
    requires forall p | p in schemas :: Standalone(schemas[p].root) && LooseFragmentsLand(schemas[p].root)
    ensures AllEmbeddable(schemas) <==> forall v | SoundDocument(v) :: KeepsMeaning(schemas, v)
  {
    if AllEmbeddable(schemas) {
      forall v, depth: nat | SoundDocument(v)
        ensures Meaning(schemas, FragmentsFollowed, Inline(schemas, {}, v), depth)
                == Meaning(schemas, FragmentsFollowed, v, depth)
      {
        InliningPreservesMeaning(schemas, FragmentsFollowed, v, depth);
      }
    } else {
      var p :| p in schemas && !Embeddable(schemas[p].root);
      var host := NotEmbeddableFails(schemas, p);
    }
  }
}
