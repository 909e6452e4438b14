/** Self-contained output schemas (packages/protocol-mcp/src/frozen-contracts.ts):
    the service schema, the PCC schema and the money schema become one document. */
module Bundling {
  import opened Outcomes
  import opened JsonTree
  import opened Unfolding

  const UTILITY_ORIGIN := "https://utility.siteborne.net"
  const CONTRACT_ORIGIN := "https://siteborne.net"
  const PCC_SCHEMA_ID := UTILITY_ORIGIN + "/schemas/proof-carrying-context.schema.json"
  const MONEY_SCHEMA_ID := CONTRACT_ORIGIN + "/schemas/common/money.schema.json"
  const PCC_ROOT := "#/$defs/pcc"
  const MONEY_ROOT := "#/$defs/money"

  // ---- The two rewritings ----

  function RewriteMember(key: string, child: Json): Json
    decreases child, 1
  {
    if key == "$ref" && child.Str? && "#/" <= child.s then Str(PCC_ROOT + "/" + child.s[2..])
    else RewritePccInternalRefs(child)
  }

  function RewritePccInternalRefs(value: Json): Json
    decreases value, 0
  {
    match value
    case Arr(items) => Arr(seq(|items|, i requires 0 <= i < |items| => RewritePccInternalRefs(items[i])))
    case Obj(fields) => Obj(map key | key in fields :: RewriteMember(key, fields[key]))
    case _ => value
  }

  function BundleMember(key: string, child: Json): Json
    decreases child, 1
  {
    if key == "$ref" && child == Str(PCC_SCHEMA_ID) then Str(PCC_ROOT)
    else if key == "$ref" && child == Str(MONEY_SCHEMA_ID) then Str(MONEY_ROOT)
    else BundlePccReference(child)
  }

  function BundlePccReference(schema: Json): Json
    decreases schema, 0
  {
    match schema
    case Arr(items) => Arr(seq(|items|, i requires 0 <= i < |items| => BundlePccReference(items[i])))
    case Obj(fields) => Obj(map key | key in fields :: BundleMember(key, fields[key]))
    case _ => schema
  }

  method RewriteRefsLoop(value: Json) returns (result: Json)
    ensures result == RewritePccInternalRefs(value)
    decreases value
  {
    match value
    case Arr(items) =>
      var out: seq<Json> := [];
      for i := 0 to |items|
        invariant |out| == i && forall k | 0 <= k < i :: out[k] == RewritePccInternalRefs(items[k])
      {
        var item := RewriteRefsLoop(items[i]);
        out := out + [item];
      }
      return Arr(out);
    case Obj(fields) =>
      var out: map<string, Json> := map[];
      var todo := fields.Keys;
      while todo != {}
        invariant todo <= fields.Keys
        invariant out == map key | key in fields && key !in todo :: RewriteMember(key, fields[key])
        decreases todo
      {
        var key :| key in todo;
        var child := fields[key];
        if key == "$ref" && child.Str? && "#/" <= child.s {
          out := out[key := Str(PCC_ROOT + "/" + child.s[2..])];
        } else {
          var rewritten := RewriteRefsLoop(child);
          out := out[key := rewritten];
        }
        todo := todo - {key};
      }
      return Obj(out);
    case _ => return value;
  }

  method BundleRefsLoop(schema: Json) returns (result: Json)
    ensures result == BundlePccReference(schema)
    decreases schema
  {
    match schema
    case Arr(items) =>
      var out: seq<Json> := [];
      for i := 0 to |items|
        invariant |out| == i && forall k | 0 <= k < i :: out[k] == BundlePccReference(items[k])
      {
        var item := BundleRefsLoop(items[i]);
        out := out + [item];
      }
      return Arr(out);
    case Obj(fields) =>
      var out: map<string, Json> := map[];
      var todo := fields.Keys;
      while todo != {}
        invariant todo <= fields.Keys
        invariant out == map key | key in fields && key !in todo :: BundleMember(key, fields[key])
        decreases todo
      {
        var key :| key in todo;
        var value := fields[key];
        if key == "$ref" && value == Str(PCC_SCHEMA_ID) {
          out := out[key := Str(PCC_ROOT)];
        } else if key == "$ref" && value == Str(MONEY_SCHEMA_ID) {
          out := out[key := Str(MONEY_ROOT)];
        } else {
          var bundled := BundleRefsLoop(value);
          out := out[key := bundled];
        }
        todo := todo - {key};
      }
      return Obj(out);
    case _ => return schema;
  }

  /** A document root without the two keywords that name the document. */
  function WithoutIds(root: Json): (r: Json)
    requires root.Obj?
    ensures r.Obj?
  {
    Obj(root.fields - {"$id", "$schema"})
  }

  /** What the bundle puts in place of the service's `$defs`. */
  function Definitions(pcc: Json, money: Json): Json
    requires pcc.Obj? && money.Obj?
  {
    Obj(map["pcc" := WithoutIds(RewritePccInternalRefs(pcc)), "money" := WithoutIds(money)])
  }

  function SelfContainedOutputSchema(schema: Json, pcc: Json, money: Json): (bundle: Json)
    requires schema.Obj? && pcc.Obj? && money.Obj?
    ensures bundle.Obj?
  {
    Obj(BundlePccReference(schema).fields["$defs" := Definitions(pcc, money)])
  }

  // ---- Following references, across documents and inside the bundle ----

  datatype Doc = Service | Pcc | Money

  /** The reference names the document `id`, as a whole or with a fragment. */
  predicate Names(id: string, ref: string) { ref == id || id + "#" <= ref }

  function FragmentOf(id: string, ref: string): string
    requires Names(id, ref)
  {
    if ref == id then "#" else ref[|id|..]
  }

  function OwnId(root: Json): Option<string> {
    if root.Obj? && "$id" in root.fields && root.fields["$id"].Str? then Some(root.fields["$id"].s) else None
  }

  predicate NamesSelf(root: Json, ref: string) {
    OwnId(root).Some? && Names(OwnId(root).value, ref)
  }

  function SelfFragment(root: Json, ref: string): string
    requires NamesSelf(root, ref)
  {
    FragmentOf(OwnId(root).value, ref)
  }

  /** The part of a document that the bundle keeps. */
  function OutsideDefs(root: Json): Json
    requires root.Obj?
  {
    Obj(root.fields - {"$defs"})
  }

  /** A document's root as the target of a reference: of the service and of the bundle all but
      the definitions, of the others all but the names. */
  function RootNode(doc: Doc, root: Json): Json
    requires root.Obj?
  {
    if doc.Service? then OutsideDefs(root) else WithoutIds(root)
  }

  function InDocument(root: Json, doc: Doc, fragment: string): Option<(Doc, Json)>
    requires root.Obj?
  {
    if fragment == "#" then Some((doc, RootNode(doc, root)))
    else
      match ResolveFragment(root, fragment)
      case None => None
      case Some(target) => Some((doc, target))
  }

  function Across(service: Json, pcc: Json, money: Json, doc: Doc, ref: string): Option<(Doc, Json)>
    requires service.Obj? && pcc.Obj? && money.Obj?
  {
    if Names(PCC_SCHEMA_ID, ref) then InDocument(pcc, Pcc, FragmentOf(PCC_SCHEMA_ID, ref))
    else if Names(MONEY_SCHEMA_ID, ref) then InDocument(money, Money, FragmentOf(MONEY_SCHEMA_ID, ref))
    else if NamesSelf(service, ref) then InDocument(service, Service, SelfFragment(service, ref))
    else InDocument(match doc case Service => service case Pcc => pcc case Money => money, doc, ref)
  }

  function Within(bundle: Json, ref: string): Option<(Doc, Json)>
    requires bundle.Obj?
  {
    InDocument(bundle, Service, if NamesSelf(bundle, ref) then SelfFragment(bundle, ref) else ref)
  }

  /** Across the three documents: by document id, or inside the current document. */
  function AcrossDocuments(service: Json, pcc: Json, money: Json): Follow<Doc>
    requires service.Obj? && pcc.Obj? && money.Obj?
  {
    (doc: Doc, ref: string) => Across(service, pcc, money, doc, ref)
  }

  /** In the bundle, which keeps the service's `$id`, there is one document only. */
  function InBundle(service: Json, pcc: Json, money: Json): Follow<Doc>
    requires service.Obj? && pcc.Obj? && money.Obj?
  {
    var bundle := SelfContainedOutputSchema(service, pcc, money);
    (_: Doc, ref: string) => Within(bundle, ref)
  }

  // ---- When bundling is meant to work ----

  predicate ProperId(id: string) { id != "" && id[0] != '#' && '#' !in id }

  /** The service's `$id`, if it is a string, names no other document and has no fragment. */
  predicate ProperService(service: Json) {
    match OwnId(service)
    case None => true
    case Some(id) => ProperId(id) && id != PCC_SCHEMA_ID && id != MONEY_SCHEMA_ID
  }

  /** The place of a document id that bundling replaces. */
  predicate BundledPlace(tokens: seq<string>, v: Json)
    requires tokens != []
  {
    tokens[|tokens| - 1] == "$ref" && v in {Str(PCC_SCHEMA_ID), Str(MONEY_SCHEMA_ID)}
  }

  /** The place of a pointer that rewriting replaces. */
  predicate RewrittenPlace(tokens: seq<string>, v: Json)
    requires tokens != []
  {
    tokens[|tokens| - 1] == "$ref" && v.Str? && "#/" <= v.s
  }

  /** A fragment of the service leads to the same place of the bundle, or nowhere in both. */
  predicate FragmentKept(service: Json, pcc: Json, money: Json, fragment: string)
    requires pcc.Obj? && money.Obj?
  {
    "#/" <= fragment ==>
    var tokens := Tokens(fragment[2..]);
    var target := Resolve(service, tokens);
    if tokens[0] == "$defs" then target.None? && Resolve(Definitions(pcc, money), tokens[1..]).None?
    else target.Some? ==> !BundledPlace(tokens, target.value)
  }

  predicate NamesDocument(service: Json, ref: string) {
    Names(PCC_SCHEMA_ID, ref) || Names(MONEY_SCHEMA_ID, ref) || NamesSelf(service, ref)
  }

  /** The bundle knows no document but itself: a name that is not replaced must lead nowhere, or
      be the service's own. */
  predicate NamedRefKept(service: Json, pcc: Json, money: Json, ref: string)
    requires pcc.Obj? && money.Obj?
    requires NamesDocument(service, ref)
  {
    if Names(PCC_SCHEMA_ID, ref) then ResolveFragment(pcc, FragmentOf(PCC_SCHEMA_ID, ref)).None?
    else if Names(MONEY_SCHEMA_ID, ref) then ResolveFragment(money, FragmentOf(MONEY_SCHEMA_ID, ref)).None?
    else FragmentKept(service, pcc, money, SelfFragment(service, ref))
  }

  predicate ServiceRef(service: Json, pcc: Json, money: Json, ref: string)
    requires pcc.Obj? && money.Obj?
  {
    || ref == PCC_SCHEMA_ID || ref == MONEY_SCHEMA_ID
    || if NamesDocument(service, ref) then NamedRefKept(service, pcc, money, ref)
       else FragmentKept(service, pcc, money, ref)
  }

  predicate PccRef(service: Json, pcc: Json, money: Json, ref: string)
    requires pcc.Obj? && money.Obj?
  {
    if NamesDocument(service, ref) then NamedRefKept(service, pcc, money, ref)
    else if "#/" <= ref then
      var tokens := Tokens(ref[2..]);
      var target := Resolve(pcc, tokens);
      target.Some? && tokens[0] !in {"$id", "$schema"} && !RewrittenPlace(tokens, target.value)
    else ref != "#"
  }

  predicate MoneyRef(service: Json, pcc: Json, money: Json, ref: string)
    requires service.Obj? && pcc.Obj? && money.Obj?
  {
    if NamesDocument(service, ref) then NamedRefKept(service, pcc, money, ref)
    else
      && ResolveFragment(money, ref).None?
      && ResolveFragment(SelfContainedOutputSchema(service, pcc, money), ref).None?
  }

  function ServiceRefs(service: Json, pcc: Json, money: Json): string -> bool
    requires pcc.Obj? && money.Obj?
  {
    ref => ServiceRef(service, pcc, money, ref)
  }

  function PccRefs(service: Json, pcc: Json, money: Json): string -> bool
    requires pcc.Obj? && money.Obj?
  {
    ref => PccRef(service, pcc, money, ref)
  }

  function MoneyRefs(service: Json, pcc: Json, money: Json): string -> bool
    requires service.Obj? && pcc.Obj? && money.Obj?
  {
    ref => MoneyRef(service, pcc, money, ref)
  }

  /** Every reference of the three documents, outside the service's `$defs` if it has any, is
      of a kind that keeps its meaning. */
  ghost predicate Bundleable(service: Json, pcc: Json, money: Json) {
    && service.Obj? && pcc.Obj? && money.Obj? && ProperService(service)
    && AllRefs(OutsideDefs(service), ServiceRefs(service, pcc, money))
    && AllRefs(pcc, PccRefs(service, pcc, money))
    && AllRefs(money, MoneyRefs(service, pcc, money))
  }

  // ---- Document ids ----

  lemma PccIdIsProper()
    ensures ProperId(PCC_SCHEMA_ID)
  {
    assert PCC_SCHEMA_ID[0] == 'h';
  }

  lemma MoneyIdIsProper()
    ensures ProperId(MONEY_SCHEMA_ID)
  {
    assert MONEY_SCHEMA_ID[0] == 'h';
  }

  lemma ProperIds()
    ensures ProperId(PCC_SCHEMA_ID) && ProperId(MONEY_SCHEMA_ID)
  {
    PccIdIsProper();
    MoneyIdIsProper();
  }

  lemma FragmentNamesNothing(id: string, ref: string)
    requires ProperId(id) && "#" <= ref
    ensures !Names(id, ref)
  {
    assert ref[0] == '#';
    assert (id + "#")[0] == id[0];
  }

  lemma NamedAlike(id: string, other: string, ref: string)
    requires ProperId(id) && ProperId(other) && Names(id, ref) && Names(other, ref)
    ensures id == other
  {
    assert id == ref[..|id|] && other == ref[..|other|];
    assert |id| < |ref| ==> ref[|id|] == '#' && ref[|id|] !in other;
    assert |other| < |ref| ==> ref[|other|] == '#' && ref[|other|] !in id;
  }

  lemma OneDocumentIsNamed(id: string, other: string, ref: string)
    requires ProperId(id) && ProperId(other) && id != other && Names(id, ref)
    ensures !Names(other, ref)
  {
    if Names(other, ref) {
      NamedAlike(id, other, ref);
    }
  }

  lemma BundleKeepsId(service: Json, pcc: Json, money: Json)
    requires service.Obj? && pcc.Obj? && money.Obj?
    ensures OwnId(SelfContainedOutputSchema(service, pcc, money)) == OwnId(service)
  {
    if "$id" in service.fields {
      assert BundleMember("$id", service.fields["$id"]) == BundlePccReference(service.fields["$id"]);
    }
  }

  /** The bundle knows the ids of PCC and money no longer. */
  lemma NameLeadsNowhere(service: Json, pcc: Json, money: Json, id: string, ref: string)
    requires service.Obj? && pcc.Obj? && money.Obj? && ProperService(service)
    requires id in {PCC_SCHEMA_ID, MONEY_SCHEMA_ID} && Names(id, ref)
    ensures !NamesSelf(service, ref) && Within(SelfContainedOutputSchema(service, pcc, money), ref).None?
  {
    ProperIds();
    BundleKeepsId(service, pcc, money);
    if OwnId(service).Some? {
      OneDocumentIsNamed(id, OwnId(service).value, ref);
    }
    assert ref[0] == id[0];
  }

  /** A fragment is read inside the current document, on both sides. */
  lemma FragmentsStayLocal(service: Json, pcc: Json, money: Json, ref: string)
    requires service.Obj? && pcc.Obj? && money.Obj? && ProperService(service) && "#" <= ref
    ensures !NamesDocument(service, ref)
    ensures !NamesSelf(SelfContainedOutputSchema(service, pcc, money), ref)
  {
    ProperIds();
    BundleKeepsId(service, pcc, money);
    FragmentNamesNothing(PCC_SCHEMA_ID, ref);
    FragmentNamesNothing(MONEY_SCHEMA_ID, ref);
    if OwnId(service).Some? {
      FragmentNamesNothing(OwnId(service).value, ref);
    }
  }

  // ---- Rewriting commutes with pointer resolution ----

  /** What rewriting leaves at a pointer: of the value there, as the member it is. */
  lemma {:induction false} RewriteCommutes(v: Json, tokens: seq<string>)
    requires tokens != []
    ensures Resolve(RewritePccInternalRefs(v), tokens)
         == match Resolve(v, tokens)
            case None => None
            case Some(t) => Some(RewriteMember(tokens[|tokens| - 1], t))
  {
    if Child(v, tokens[0]).Some? {
      var child := Child(v, tokens[0]).value;
      assert Child(RewritePccInternalRefs(v), tokens[0]) == Some(RewriteMember(tokens[0], child));
      if |tokens| > 1 {
        RewriteCommutes(child, tokens[1..]);
      }
    }
  }

  lemma {:induction false} BundleCommutes(v: Json, tokens: seq<string>)
    requires tokens != []
    ensures Resolve(BundlePccReference(v), tokens)
         == match Resolve(v, tokens)
            case None => None
            case Some(t) => Some(BundleMember(tokens[|tokens| - 1], t))
  {
    if Child(v, tokens[0]).Some? {
      var child := Child(v, tokens[0]).value;
      assert Child(BundlePccReference(v), tokens[0]) == Some(BundleMember(tokens[0], child));
      if |tokens| > 1 {
        BundleCommutes(child, tokens[1..]);
      }
    }
  }

  /** A tree of the same shape at every pointer: containers stay containers with the same
      members, or as many items. */
  ghost predicate SameShape(v: Json, v': Json) {
    && (v.Obj? ==> v'.Obj? && v'.fields.Keys == v.fields.Keys)
    && (v.Arr? ==> v'.Arr? && |v'.items| == |v.items|)
  }

  /** All that rewriting changes is the text of pointers: it keeps the shape of the tree and
      every plain value, but puts the pointers under `#/$defs/pcc`. */
  lemma RewrittenExactly(v: Json, tokens: seq<string>)
    requires Resolve(v, tokens).Some?
    ensures Resolve(RewritePccInternalRefs(v), tokens).Some?
    ensures SameShape(Resolve(v, tokens).value, Resolve(RewritePccInternalRefs(v), tokens).value)
    ensures var t := Resolve(v, tokens).value;
            !Container(t) ==>
            Resolve(RewritePccInternalRefs(v), tokens).value
            == if tokens != [] && tokens[|tokens| - 1] == "$ref" && t.Str? && "#/" <= t.s
               then Str("#/$defs/pcc/" + t.s[2..]) else t
  {
    if tokens != [] { RewriteCommutes(v, tokens); }
    assert PCC_ROOT + "/" == "#/$defs/pcc/";
  }

  /** All that bundling changes is the text of the two ids. */
  lemma BundledExactly(v: Json, tokens: seq<string>)
    requires Resolve(v, tokens).Some?
    ensures Resolve(BundlePccReference(v), tokens).Some?
    ensures SameShape(Resolve(v, tokens).value, Resolve(BundlePccReference(v), tokens).value)
    ensures var t := Resolve(v, tokens).value;
            !Container(t) ==>
            Resolve(BundlePccReference(v), tokens).value
            == if tokens == [] || tokens[|tokens| - 1] != "$ref" then t
               else if t == Str("https://utility.siteborne.net" + "/schemas/proof-carrying-context.schema.json")
               then Str("#/$defs/pcc")
               else if t == Str("https://siteborne.net" + "/schemas/common/money.schema.json")
               then Str("#/$defs/money")
               else t
  {
    if tokens != [] { BundleCommutes(v, tokens); }
  }

  lemma PccPointerTokens(p: string)
    ensures "#/" <= PCC_ROOT + "/" + p
    ensures Tokens((PCC_ROOT + "/" + p)[2..]) == ["$defs", "pcc"] + Tokens(p)
  {
    assert (PCC_ROOT + "/" + p)[2..] == "$defs" + "/" + ("pcc" + "/" + p);
    TokensFirst("$defs", "pcc" + "/" + p);
    TokensFirst("pcc", p);
  }

  lemma RootPointerTokens()
    ensures Tokens(PCC_ROOT[2..]) == ["$defs", "pcc"]
    ensures Tokens(MONEY_ROOT[2..]) == ["$defs", "money"]
  {
    assert PCC_ROOT[2..] == "$defs" + "/" + "pcc";
    assert MONEY_ROOT[2..] == "$defs" + "/" + "money";
    TokensFirst("$defs", "pcc");
    TokensFirst("$defs", "money");
    TokensWhole("pcc");
    TokensWhole("money");
  }

  lemma ResolveTwo(v: Json, a: string, b: string, rest: seq<string>)
    requires v.Obj? && a in v.fields && v.fields[a].Obj? && b in v.fields[a].fields
    ensures Resolve(v, [a, b] + rest) == Resolve(v.fields[a].fields[b], rest)
  {
    assert ([a, b] + rest)[1..] == [b] + rest;
    assert ([b] + rest)[1..] == rest;
  }

  lemma BundleHoldsPcc(service: Json, pcc: Json, money: Json, rest: seq<string>)
    requires service.Obj? && pcc.Obj? && money.Obj?
    ensures Resolve(SelfContainedOutputSchema(service, pcc, money), ["$defs", "pcc"] + rest)
         == Resolve(WithoutIds(RewritePccInternalRefs(pcc)), rest)
    ensures Resolve(SelfContainedOutputSchema(service, pcc, money), ["$defs", "money"] + rest)
         == Resolve(WithoutIds(money), rest)
  {
    var bundle := SelfContainedOutputSchema(service, pcc, money);
    ResolveTwo(bundle, "$defs", "pcc", rest);
    ResolveTwo(bundle, "$defs", "money", rest);
  }

  lemma ResolveByChild(v: Json, v': Json, tokens: seq<string>)
    requires tokens != [] && Child(v, tokens[0]) == Child(v', tokens[0])
    ensures Resolve(v, tokens) == Resolve(v', tokens)
  {
  }

  /** What the embedded PCC holds: what PCC holds, rewritten, but nothing where PCC names itself. */
  lemma EmbeddedResolves(pcc: Json, tokens: seq<string>)
    requires pcc.Obj? && tokens != []
    ensures Resolve(WithoutIds(RewritePccInternalRefs(pcc)), tokens)
         == if tokens[0] in {"$id", "$schema"} then None
            else
              match Resolve(pcc, tokens)
              case None => None
              case Some(t) => Some(RewriteMember(tokens[|tokens| - 1], t))
  {
    var rewritten := RewritePccInternalRefs(pcc);
    if tokens[0] in {"$id", "$schema"} {
      assert Child(WithoutIds(rewritten), tokens[0]).None?;
    } else {
      ResolveByChild(WithoutIds(rewritten), rewritten, tokens);
      RewriteCommutes(pcc, tokens);
    }
  }

  /** The bundle holds the same at `#/$defs/pcc/` + p. */
  lemma PccPointerInBundle(service: Json, pcc: Json, money: Json, p: string)
    requires service.Obj? && pcc.Obj? && money.Obj?
    ensures ResolveFragment(SelfContainedOutputSchema(service, pcc, money), PCC_ROOT + "/" + p)
         == if Tokens(p)[0] in {"$id", "$schema"} then None
            else
              match Resolve(pcc, Tokens(p))
              case None => None
              case Some(t) => Some(RewriteMember(Tokens(p)[|Tokens(p)| - 1], t))
  {
    PccPointerTokens(p);
    BundleHoldsPcc(service, pcc, money, Tokens(p));
    EmbeddedResolves(pcc, Tokens(p));
  }

  lemma EmbeddedRoots(service: Json, pcc: Json, money: Json)
    requires service.Obj? && pcc.Obj? && money.Obj?
    ensures var bundle := SelfContainedOutputSchema(service, pcc, money);
            && ResolveFragment(bundle, PCC_ROOT) == Some(RewritePccInternalRefs(WithoutIds(pcc)))
            && ResolveFragment(bundle, MONEY_ROOT) == Some(WithoutIds(money))
  {
    RootPointerTokens();
    BundleHoldsPcc(service, pcc, money, []);
    assert ["$defs", "pcc"] + [] == ["$defs", "pcc"] && ["$defs", "money"] + [] == ["$defs", "money"];
    assert WithoutIds(RewritePccInternalRefs(pcc)) == RewritePccInternalRefs(WithoutIds(pcc));
  }

  lemma ResolveUpdated(fields: map<string, Json>, key: string, v: Json, tokens: seq<string>)
    requires tokens != []
    ensures tokens[0] == key ==> Resolve(Obj(fields[key := v]), tokens) == Resolve(v, tokens[1..])
    ensures tokens[0] != key ==> Resolve(Obj(fields[key := v]), tokens) == Resolve(Obj(fields), tokens)
  {
  }

  lemma MoneyPointerTokens(p: string)
    ensures "#/" <= "#/$defs/money/" + p
    ensures Tokens(("#/$defs/money/" + p)[2..]) == ["$defs", "money"] + Tokens(p)
  {
    assert "#/$defs/money/" + p == "#/" + ("$defs" + "/" + ("money" + "/" + p));
    TokensFirst("$defs", "money" + "/" + p);
    TokensFirst("money", p);
  }

  lemma WithoutIdsResolves(root: Json, tokens: seq<string>)
    requires root.Obj? && tokens != []
    ensures Resolve(WithoutIds(root), tokens)
         == if tokens[0] in {"$id", "$schema"} then None else Resolve(root, tokens)
  {
    if tokens[0] !in {"$id", "$schema"} { ResolveByChild(WithoutIds(root), root, tokens); }
  }

  /** What the bundle holds below `#/$defs/money`: what the money schema holds, but not its names. */
  lemma MoneyPointerInBundle(service: Json, pcc: Json, money: Json, p: string)
    requires service.Obj? && pcc.Obj? && money.Obj?
    ensures ResolveFragment(SelfContainedOutputSchema(service, pcc, money), "#/$defs/money/" + p)
         == if Tokens(p)[0] in {"$id", "$schema"} then None else Resolve(money, Tokens(p))
  {
    MoneyPointerTokens(p);
    BundleHoldsPcc(service, pcc, money, Tokens(p));
    WithoutIdsResolves(money, Tokens(p));
  }

  /** What the bundle holds at a pointer of its own: under `$defs` the two definitions, elsewhere
      what the service holds, bundled. */
  lemma ServicePointerInBundle(service: Json, pcc: Json, money: Json, tokens: seq<string>)
    requires service.Obj? && pcc.Obj? && money.Obj? && tokens != []
    ensures Resolve(SelfContainedOutputSchema(service, pcc, money), tokens)
         == if tokens[0] == "$defs" then Resolve(Definitions(pcc, money), tokens[1..])
            else
              match Resolve(service, tokens)
              case None => None
              case Some(t) => Some(BundleMember(tokens[|tokens| - 1], t))
  {
    BundleCommutes(service, tokens);
    ResolveUpdated(BundlePccReference(service).fields, "$defs", Definitions(pcc, money), tokens);
  }

  // ---- The bundle means what the documents meant ----

  function RefTo(ref: string): Json { Obj(map["$ref" := Str(ref)]) }

  function RewriteMembers(fields: map<string, Json>): map<string, Json> {
    map key | key in fields :: RewriteMember(key, fields[key])
  }

  function BundleMembers(fields: map<string, Json>): map<string, Json> {
    map key | key in fields :: BundleMember(key, fields[key])
  }

  function BundledRef(ref: string): string {
    if ref == PCC_SCHEMA_ID then PCC_ROOT else if ref == MONEY_SCHEMA_ID then MONEY_ROOT else ref
  }

  function RewrittenRef(ref: string): string {
    if "#/" <= ref then PCC_ROOT + "/" + ref[2..] else ref
  }

  /** Which node of the bundle stands for which node of the three documents. */
  ghost function StandsFor(service: Json, pcc: Json, money: Json): Relation<Doc>
    requires service.Obj? && pcc.Obj? && money.Obj?
  {
    (doc: Doc, v: Json, doc': Doc, v': Json) =>
      && doc' == Service
      && match doc
         case Money => AllRefs(v, MoneyRefs(service, pcc, money)) && v' == v
         case Pcc => AllRefs(v, PccRefs(service, pcc, money)) && v' == RewritePccInternalRefs(v)
         case Service => AllRefs(v, ServiceRefs(service, pcc, money)) && v' == BundlePccReference(v)
  }

  lemma RefsOutsideDefs(service: Json, pcc: Json, money: Json, tokens: seq<string>)
    requires Bundleable(service, pcc, money)
    requires tokens != [] && tokens[0] != "$defs" && Resolve(service, tokens).Some?
    ensures AllRefs(Resolve(service, tokens).value, ServiceRefs(service, pcc, money))
  {
    assert Child(OutsideDefs(service), tokens[0]) == Child(service, tokens[0]);
    AllRefsInside(OutsideDefs(service), ServiceRefs(service, pcc, money), tokens);
  }

  lemma WithoutIdsRefs(root: Json, allowed: string -> bool)
    requires root.Obj? && AllRefs(root, allowed)
    ensures AllRefs(WithoutIds(root), allowed)
  {
  }

  /** Rewriting turns references into references, and nothing else into one. */
  lemma RewriteKeepsRefs(fields: map<string, Json>)
    ensures IsRef(Obj(RewriteMembers(fields))) <==> IsRef(Obj(fields))
    ensures IsRef(Obj(fields)) ==> RefOf(Obj(RewriteMembers(fields))) == RewrittenRef(RefOf(Obj(fields)))
    ensures RewriteMembers(fields) - {"$ref"} == RewriteMembers(fields - {"$ref"})
  {
    if "$ref" in fields {
      assert RewritePccInternalRefs(fields["$ref"]).Str? <==> fields["$ref"].Str?;
      assert fields["$ref"].Str? ==> RewritePccInternalRefs(fields["$ref"]) == fields["$ref"];
    }
  }

  lemma BundleKeepsRefs(fields: map<string, Json>)
    ensures IsRef(Obj(BundleMembers(fields))) <==> IsRef(Obj(fields))
    ensures IsRef(Obj(fields)) ==> RefOf(Obj(BundleMembers(fields))) == BundledRef(RefOf(Obj(fields)))
    ensures BundleMembers(fields) - {"$ref"} == BundleMembers(fields - {"$ref"})
  {
    if "$ref" in fields {
      assert BundlePccReference(fields["$ref"]).Str? <==> fields["$ref"].Str?;
      assert fields["$ref"].Str? ==> BundlePccReference(fields["$ref"]) == fields["$ref"];
    }
  }

  lemma PccMembersStand(service: Json, pcc: Json, money: Json, fields: map<string, Json>)
    requires service.Obj? && pcc.Obj? && money.Obj?
    requires forall k | k in fields :: AllRefs(fields[k], PccRefs(service, pcc, money))
    requires "$ref" in fields ==> !fields["$ref"].Str?
    ensures MembersRelated(StandsFor(service, pcc, money), Pcc, fields, Service, RewriteMembers(fields))
  {
  }

  lemma ServiceMembersStand(service: Json, pcc: Json, money: Json, fields: map<string, Json>)
    requires service.Obj? && pcc.Obj? && money.Obj?
    requires forall k | k in fields :: AllRefs(fields[k], ServiceRefs(service, pcc, money))
    requires "$ref" in fields ==> !fields["$ref"].Str?
    ensures MembersRelated(StandsFor(service, pcc, money), Service, fields, Service, BundleMembers(fields))
  {
  }

  /** A fragment of the service that is kept leads to related nodes. */
  lemma FragmentStands(service: Json, pcc: Json, money: Json, fragment: string, ref: string)
    requires Bundleable(service, pcc, money) && FragmentKept(service, pcc, money, fragment)
    ensures TargetsRelated(StandsFor(service, pcc, money), InDocument(service, Service, fragment), ref,
                           InDocument(SelfContainedOutputSchema(service, pcc, money), Service, fragment), ref)
  {
    if fragment == "#" {
      assert OutsideDefs(SelfContainedOutputSchema(service, pcc, money)) == BundlePccReference(OutsideDefs(service));
    } else if "#/" <= fragment {
      var tokens := Tokens(fragment[2..]);
      ServicePointerInBundle(service, pcc, money, tokens);
      if tokens[0] != "$defs" && Resolve(service, tokens).Some? {
        RefsOutsideDefs(service, pcc, money, tokens);
      }
    }
  }

  lemma NamedTargetStands(service: Json, pcc: Json, money: Json, doc: Doc, ref: string)
    requires Bundleable(service, pcc, money) && NamesDocument(service, ref) && NamedRefKept(service, pcc, money, ref)
    ensures TargetsRelated(StandsFor(service, pcc, money), Across(service, pcc, money, doc, ref), ref,
                           Within(SelfContainedOutputSchema(service, pcc, money), ref), ref)
  {
    if Names(PCC_SCHEMA_ID, ref) {
      NameLeadsNowhere(service, pcc, money, PCC_SCHEMA_ID, ref);
    } else if Names(MONEY_SCHEMA_ID, ref) {
      NameLeadsNowhere(service, pcc, money, MONEY_SCHEMA_ID, ref);
    } else {
      BundleKeepsId(service, pcc, money);
      FragmentStands(service, pcc, money, SelfFragment(service, ref), ref);
    }
  }

  lemma PccTargetStands(service: Json, pcc: Json, money: Json, ref: string)
    requires Bundleable(service, pcc, money) && PccRef(service, pcc, money, ref)
    ensures TargetsRelated(StandsFor(service, pcc, money), Across(service, pcc, money, Pcc, ref), ref,
                           Within(SelfContainedOutputSchema(service, pcc, money), RewrittenRef(ref)), RewrittenRef(ref))
  {
    if "#/" <= ref {
      var p := ref[2..];
      FragmentsStayLocal(service, pcc, money, ref);
      FragmentsStayLocal(service, pcc, money, PCC_ROOT + "/" + p);
      PccPointerInBundle(service, pcc, money, p);
      AllRefsInside(pcc, PccRefs(service, pcc, money), Tokens(p));
    } else if NamesDocument(service, ref) {
      NamedTargetStands(service, pcc, money, Pcc, ref);
    } else {
      BundleKeepsId(service, pcc, money);
    }
  }

  lemma MoneyTargetStands(service: Json, pcc: Json, money: Json, ref: string)
    requires Bundleable(service, pcc, money) && MoneyRef(service, pcc, money, ref)
    ensures TargetsRelated(StandsFor(service, pcc, money), Across(service, pcc, money, Money, ref), ref,
                           Within(SelfContainedOutputSchema(service, pcc, money), ref), ref)
  {
    if NamesDocument(service, ref) {
      NamedTargetStands(service, pcc, money, Money, ref);
    } else {
      BundleKeepsId(service, pcc, money);
    }
  }

  lemma ServiceTargetStands(service: Json, pcc: Json, money: Json, ref: string)
    requires Bundleable(service, pcc, money) && ServiceRef(service, pcc, money, ref)
    ensures TargetsRelated(StandsFor(service, pcc, money), Across(service, pcc, money, Service, ref), ref,
                           Within(SelfContainedOutputSchema(service, pcc, money), BundledRef(ref)), BundledRef(ref))
  {
    if ref == PCC_SCHEMA_ID || ref == MONEY_SCHEMA_ID {
      EmbeddedRoots(service, pcc, money);
      FragmentsStayLocal(service, pcc, money, BundledRef(ref));
      WithoutIdsRefs(pcc, PccRefs(service, pcc, money));
      WithoutIdsRefs(money, MoneyRefs(service, pcc, money));
      ProperIds();
      OneDocumentIsNamed(PCC_SCHEMA_ID, MONEY_SCHEMA_ID, PCC_SCHEMA_ID);
      OneDocumentIsNamed(MONEY_SCHEMA_ID, PCC_SCHEMA_ID, MONEY_SCHEMA_ID);
    } else if NamesDocument(service, ref) {
      NamedTargetStands(service, pcc, money, Service, ref);
    } else {
      BundleKeepsId(service, pcc, money);
      FragmentStands(service, pcc, money, ref, ref);
    }
  }

  lemma MoneyStep(service: Json, pcc: Json, money: Json, v: Json)
    requires Bundleable(service, pcc, money) && AllRefs(v, MoneyRefs(service, pcc, money))
    ensures StepRelated(AcrossDocuments(service, pcc, money), InBundle(service, pcc, money),
                        StandsFor(service, pcc, money), Money, v, Service, v)
  {
    if IsRef(v) {
      MoneyTargetStands(service, pcc, money, RefOf(v));
    }
  }

  lemma PccStep(service: Json, pcc: Json, money: Json, v: Json)
    requires Bundleable(service, pcc, money) && AllRefs(v, PccRefs(service, pcc, money))
    ensures StepRelated(AcrossDocuments(service, pcc, money), InBundle(service, pcc, money),
                        StandsFor(service, pcc, money), Pcc, v, Service, RewritePccInternalRefs(v))
  {
    if v.Obj? {
      RewriteKeepsRefs(v.fields);
      assert RewritePccInternalRefs(v) == Obj(RewriteMembers(v.fields));
      if IsRef(v) {
        PccTargetStands(service, pcc, money, RefOf(v));
        PccMembersStand(service, pcc, money, v.fields - {"$ref"});
      } else {
        PccMembersStand(service, pcc, money, v.fields);
      }
    }
  }

  lemma ServiceStep(service: Json, pcc: Json, money: Json, v: Json)
    requires Bundleable(service, pcc, money) && AllRefs(v, ServiceRefs(service, pcc, money))
    ensures StepRelated(AcrossDocuments(service, pcc, money), InBundle(service, pcc, money),
                        StandsFor(service, pcc, money), Service, v, Service, BundlePccReference(v))
  {
    if v.Obj? {
      BundleKeepsRefs(v.fields);
      assert BundlePccReference(v) == Obj(BundleMembers(v.fields));
      if IsRef(v) {
        ServiceTargetStands(service, pcc, money, RefOf(v));
        ServiceMembersStand(service, pcc, money, v.fields - {"$ref"});
      } else {
        ServiceMembersStand(service, pcc, money, v.fields);
      }
    }
  }

  lemma BundleBisimulates(service: Json, pcc: Json, money: Json)
    requires Bundleable(service, pcc, money)
    ensures Bisimulation(AcrossDocuments(service, pcc, money), InBundle(service, pcc, money),
                         StandsFor(service, pcc, money))
  {
    var f, f' := AcrossDocuments(service, pcc, money), InBundle(service, pcc, money);
    var r := StandsFor(service, pcc, money);
    forall doc: Doc, v: Json, doc': Doc, v': Json | r(doc, v, doc', v')
      ensures StepRelated(f, f', r, doc, v, doc', v')
    {
      match doc
      case Money => MoneyStep(service, pcc, money, v);
      case Pcc => PccStep(service, pcc, money, v);
      case Service => ServiceStep(service, pcc, money, v);
    }
  }

  lemma NodePreserved(service: Json, pcc: Json, money: Json, doc: Doc, node: Json, node': Json, depth: nat)
    requires Bundleable(service, pcc, money) && StandsFor(service, pcc, money)(doc, node, Service, node')
    ensures Unfold(InBundle(service, pcc, money), Service, node', depth)
         == Unfold(AcrossDocuments(service, pcc, money), doc, node, depth)
  {
    BundleBisimulates(service, pcc, money);
    BisimilarUnfoldAlike(AcrossDocuments(service, pcc, money), InBundle(service, pcc, money),
                         StandsFor(service, pcc, money), doc, node, Service, node', depth);
  }

  /** From any node of the service below its root and outside `$defs`, the bundle holds a node
      at the same place, and following references from the two gives the same tree at every
      depth. (Only the texts of the replaced references are not the same.) */
  lemma BundlingPreservesMeaning(service: Json, pcc: Json, money: Json, tokens: seq<string>, depth: nat)
    requires Bundleable(service, pcc, money) && tokens != [] && tokens[0] != "$defs"
    requires Resolve(service, tokens).Some? && !BundledPlace(tokens, Resolve(service, tokens).value)
    ensures var node := Resolve(SelfContainedOutputSchema(service, pcc, money), tokens);
            && node.Some?
            && Unfold(InBundle(service, pcc, money), Service, node.value, depth)
            == Unfold(AcrossDocuments(service, pcc, money), Service, Resolve(service, tokens).value, depth)
  {
    ServicePointerInBundle(service, pcc, money, tokens);
    RefsOutsideDefs(service, pcc, money, tokens);
    var node := Resolve(service, tokens).value;
    NodePreserved(service, pcc, money, Service, node, BundlePccReference(node), depth);
  }

  /** The same for the nodes of PCC, which the bundle holds below `#/$defs/pcc`. */
  lemma EmbeddedPccPreservesMeaning(service: Json, pcc: Json, money: Json, p: string, depth: nat)
    requires Bundleable(service, pcc, money) && Resolve(pcc, Tokens(p)).Some?
    requires Tokens(p)[0] !in {"$id", "$schema"} && !RewrittenPlace(Tokens(p), Resolve(pcc, Tokens(p)).value)
    ensures var node := ResolveFragment(SelfContainedOutputSchema(service, pcc, money), PCC_ROOT + "/" + p);
            && node.Some?
            && Unfold(InBundle(service, pcc, money), Service, node.value, depth)
            == Unfold(AcrossDocuments(service, pcc, money), Pcc, Resolve(pcc, Tokens(p)).value, depth)
  {
    PccPointerInBundle(service, pcc, money, p);
    AllRefsInside(pcc, PccRefs(service, pcc, money), Tokens(p));
    var node := Resolve(pcc, Tokens(p)).value;
    NodePreserved(service, pcc, money, Pcc, node, RewritePccInternalRefs(node), depth);
  }

  /** The whole bundle means what the whole service schema meant, the `$defs` of each set aside. */
  lemma BundleRootPreservesMeaning(service: Json, pcc: Json, money: Json, depth: nat)
    requires Bundleable(service, pcc, money)
    ensures Unfold(InBundle(service, pcc, money), Service,
            OutsideDefs(SelfContainedOutputSchema(service, pcc, money)), depth)
         == Unfold(AcrossDocuments(service, pcc, money), Service, OutsideDefs(service), depth)
  {
    var bundle := SelfContainedOutputSchema(service, pcc, money);
    assert OutsideDefs(bundle) == BundlePccReference(OutsideDefs(service));
    NodePreserved(service, pcc, money, Service, OutsideDefs(service), OutsideDefs(bundle), depth);
  }

  // ---- Which references keep their meaning ----

  ghost predicate SameTrees(f: Follow<Doc>, doc: Doc, v: Json, f': Follow<Doc>, v': Json) {
    forall depth: nat :: Unfold(f, doc, v, depth) == Unfold(f', Service, v', depth)
  }

  /** The two references visibly lead to different things. */
  predicate Apart(a: Option<(Doc, Json)>, ref: string, b: Option<(Doc, Json)>, ref': string) {
    match (a, b)
    case (None, None) => ref != ref'
    case (Some(s), Some(t)) =>
      || (s.1.Str? && t.1.Str? && s.1 != t.1)
      || (s.1.Obj? && t.1.Obj? && s.1.fields.Keys != t.1.fields.Keys)
    case _ => true
  }

  lemma RefToAllowed(ref: string, allowed: string -> bool)
    requires allowed(ref)
    ensures AllRefs(RefTo(ref), allowed)
  {
    assert AllRefs(Str(ref), allowed);
  }

  lemma BundleOfRef(ref: string)
    ensures BundlePccReference(RefTo(ref)) == RefTo(BundledRef(ref))
    ensures RewritePccInternalRefs(RefTo(ref)) == RefTo(RewrittenRef(ref))
  {
    assert BundlePccReference(RefTo(ref)) == Obj(BundleMembers(RefTo(ref).fields));
    assert RewritePccInternalRefs(RefTo(ref)) == Obj(RewriteMembers(RefTo(ref).fields));
    assert BundlePccReference(Str(ref)) == Str(ref) && RewritePccInternalRefs(Str(ref)) == Str(ref);
  }

  lemma UnfoldRef(f: Follow<Doc>, doc: Doc, ref: string, depth: nat)
    requires depth > 0
    ensures Unfold(f, doc, RefTo(ref), depth)
         == match f(doc, ref)
            case None => Dangling(ref, map[])
            case Some((d, target)) => Followed(Unfold(f, d, target, depth - 1), map[])
  {
    assert UnfoldMembers(f, doc, RefTo(ref).fields - {"$ref"}, depth - 1) == map[];
  }

  function KeysOf(t: Tree): set<string> {
    match t
    case Members(members) => members.Keys
    case Dangling(_, siblings) => siblings.Keys + {"$ref"}
    case Followed(_, siblings) => siblings.Keys + {"$ref"}
    case _ => {}
  }

  lemma KeysShow(f: Follow<Doc>, doc: Doc, v: Json)
    requires v.Obj?
    ensures KeysOf(Unfold(f, doc, v, 1)) == v.fields.Keys
  {
    assert UnfoldMembers(f, doc, v.fields, 0).Keys == v.fields.Keys;
    assert UnfoldMembers(f, doc, v.fields - {"$ref"}, 0).Keys == v.fields.Keys - {"$ref"};
  }

  lemma ApartMeansOtherTrees(f: Follow<Doc>, doc: Doc, ref: string, f': Follow<Doc>, ref': string)
    requires Apart(f(doc, ref), ref, f'(Service, ref'), ref')
    ensures !SameTrees(f, doc, RefTo(ref), f', RefTo(ref'))
  {
    UnfoldRef(f, doc, ref, 2);
    UnfoldRef(f', Service, ref', 2);
    var a, b := f(doc, ref), f'(Service, ref');
    if a.Some? && b.Some? && a.value.1.Obj? && b.value.1.Obj? {
      KeysShow(f, a.value.0, a.value.1);
      KeysShow(f', b.value.0, b.value.1);
    }
    assert Unfold(f, doc, RefTo(ref), 2) != Unfold(f', Service, RefTo(ref'), 2);
  }

  /** A fragment does not lead into definitions that the service and the bundle both have. */
  predicate NotInBothDefs(service: Json, pcc: Json, money: Json, fragment: string)
    requires pcc.Obj? && money.Obj?
  {
    "#/" <= fragment && Tokens(fragment[2..])[0] == "$defs" ==>
      || ResolveFragment(service, fragment).None?
      || Resolve(Definitions(pcc, money), Tokens(fragment[2..])[1..]).None?
  }

  lemma FragmentApart(service: Json, pcc: Json, money: Json, fragment: string, ref: string)
    requires service.Obj? && pcc.Obj? && money.Obj?
    requires NotInBothDefs(service, pcc, money, fragment) && !FragmentKept(service, pcc, money, fragment)
    ensures Apart(InDocument(service, Service, fragment), ref,
                  InDocument(SelfContainedOutputSchema(service, pcc, money), Service, fragment), ref)
  {
    var tokens := Tokens(fragment[2..]);
    ServicePointerInBundle(service, pcc, money, tokens);
    if tokens[0] != "$defs" {
      assert BundleMember("$ref", Resolve(service, tokens).value) in {Str(PCC_ROOT), Str(MONEY_ROOT)};
      assert PCC_ROOT[0] == '#' && MONEY_ROOT[0] == '#' && PCC_SCHEMA_ID[0] == 'h' && MONEY_SCHEMA_ID[0] == 'h';
    }
  }

  /** The reference can be told: it does not lead into definitions that both have. */
  predicate Clear(service: Json, pcc: Json, money: Json, ref: string)
    requires pcc.Obj? && money.Obj?
  {
    NotInBothDefs(service, pcc, money, if NamesSelf(service, ref) then SelfFragment(service, ref) else ref)
  }

  lemma NamedTargetApart(service: Json, pcc: Json, money: Json, doc: Doc, ref: string)
    requires service.Obj? && pcc.Obj? && money.Obj? && ProperService(service) && Clear(service, pcc, money, ref)
    requires NamesDocument(service, ref) && !NamedRefKept(service, pcc, money, ref)
    ensures Apart(Across(service, pcc, money, doc, ref), ref,
                  Within(SelfContainedOutputSchema(service, pcc, money), ref), ref)
  {
    if Names(PCC_SCHEMA_ID, ref) {
      NameLeadsNowhere(service, pcc, money, PCC_SCHEMA_ID, ref);
    } else if Names(MONEY_SCHEMA_ID, ref) {
      NameLeadsNowhere(service, pcc, money, MONEY_SCHEMA_ID, ref);
    } else {
      BundleKeepsId(service, pcc, money);
      FragmentApart(service, pcc, money, SelfFragment(service, ref), ref);
    }
  }

  lemma ServiceTargetApart(service: Json, pcc: Json, money: Json, ref: string)
    requires service.Obj? && pcc.Obj? && money.Obj? && ProperService(service) && Clear(service, pcc, money, ref)
    requires !ServiceRef(service, pcc, money, ref)
    ensures Apart(Across(service, pcc, money, Service, ref), ref,
                  Within(SelfContainedOutputSchema(service, pcc, money), ref), ref)
  {
    if NamesDocument(service, ref) {
      NamedTargetApart(service, pcc, money, Service, ref);
    } else {
      BundleKeepsId(service, pcc, money);
      FragmentApart(service, pcc, money, ref, ref);
    }
  }

  lemma PccPointerApart(service: Json, pcc: Json, money: Json, p: string)
    requires service.Obj? && pcc.Obj? && money.Obj?
    requires var target := Resolve(pcc, Tokens(p));
             target.None? || Tokens(p)[0] in {"$id", "$schema"} || RewrittenPlace(Tokens(p), target.value)
    ensures Apart(InDocument(pcc, Pcc, "#/" + p), "#/" + p,
                  InDocument(SelfContainedOutputSchema(service, pcc, money), Service, PCC_ROOT + "/" + p),
                  PCC_ROOT + "/" + p)
  {
    PccPointerInBundle(service, pcc, money, p);
    assert ("#/" + p)[2..] == p;
    assert |PCC_ROOT + "/" + p| > |"#/" + p|;
  }

  lemma PccTargetApart(service: Json, pcc: Json, money: Json, ref: string)
    requires service.Obj? && pcc.Obj? && money.Obj? && ProperService(service) && Clear(service, pcc, money, ref)
    requires ref == "#" ==> WithoutIds(pcc).fields.Keys != OutsideDefs(service).fields.Keys
    requires !PccRef(service, pcc, money, ref)
    ensures Apart(Across(service, pcc, money, Pcc, ref), ref,
                  Within(SelfContainedOutputSchema(service, pcc, money), RewrittenRef(ref)), RewrittenRef(ref))
  {
    if "#" <= ref {
      FragmentsStayLocal(service, pcc, money, ref);
      FragmentsStayLocal(service, pcc, money, RewrittenRef(ref));
      if ref == "#" {
        assert OutsideDefs(SelfContainedOutputSchema(service, pcc, money)).fields.Keys
            == OutsideDefs(service).fields.Keys;
      } else {
        PccPointerApart(service, pcc, money, ref[2..]);
      }
    } else {
      NamedTargetApart(service, pcc, money, Pcc, ref);
    }
  }

  lemma MoneyTargetApart(service: Json, pcc: Json, money: Json, ref: string)
    requires service.Obj? && pcc.Obj? && money.Obj? && ProperService(service) && Clear(service, pcc, money, ref)
    requires ref == "#" ==> WithoutIds(money).fields.Keys != OutsideDefs(service).fields.Keys
    requires "#/" <= ref ==>
             || ResolveFragment(money, ref).None?
             || ResolveFragment(SelfContainedOutputSchema(service, pcc, money), ref).None?
    requires !MoneyRef(service, pcc, money, ref)
    ensures Apart(Across(service, pcc, money, Money, ref), ref,
                  Within(SelfContainedOutputSchema(service, pcc, money), ref), ref)
  {
    if NamesDocument(service, ref) {
      NamedTargetApart(service, pcc, money, Money, ref);
    } else {
      BundleKeepsId(service, pcc, money);
      assert OutsideDefs(SelfContainedOutputSchema(service, pcc, money)).fields.Keys
          == OutsideDefs(service).fields.Keys;
    }
  }

  /** A reference of the service keeps its meaning exactly when it is the id of PCC or money; or
      a fragment, of the service or with its own id, that leads outside `$defs` and not to the
      text of such an id, or nowhere; or anything else that leads nowhere. */
  lemma ServiceReferenceKeptExactly(service: Json, pcc: Json, money: Json, ref: string)
    requires Bundleable(service, pcc, money) && Clear(service, pcc, money, ref)
    ensures SameTrees(AcrossDocuments(service, pcc, money), Service, RefTo(ref),
                      InBundle(service, pcc, money), BundlePccReference(RefTo(ref)))
       <==> ServiceRef(service, pcc, money, ref)
  {
    BundleOfRef(ref);
    if ServiceRef(service, pcc, money, ref) {
      RefToAllowed(ref, ServiceRefs(service, pcc, money));
      forall depth: nat {
        NodePreserved(service, pcc, money, Service, RefTo(ref), BundlePccReference(RefTo(ref)), depth);
      }
    } else {
      ServiceTargetApart(service, pcc, money, ref);
      ApartMeansOtherTrees(AcrossDocuments(service, pcc, money), Service, ref, InBundle(service, pcc, money), ref);
    }
  }

  /** A reference of PCC keeps its meaning exactly when it is a pointer that leads to a place of
      PCC other than its names and the texts of its pointers, or leads nowhere under an id or a
      plain name. */
  lemma PccReferenceKeptExactly(service: Json, pcc: Json, money: Json, ref: string)
    requires Bundleable(service, pcc, money) && Clear(service, pcc, money, ref)
    requires ref == "#" ==> WithoutIds(pcc).fields.Keys != OutsideDefs(service).fields.Keys
    ensures SameTrees(AcrossDocuments(service, pcc, money), Pcc, RefTo(ref),
                      InBundle(service, pcc, money), RewritePccInternalRefs(RefTo(ref)))
       <==> PccRef(service, pcc, money, ref)
  {
    BundleOfRef(ref);
    if PccRef(service, pcc, money, ref) {
      RefToAllowed(ref, PccRefs(service, pcc, money));
      forall depth: nat {
        NodePreserved(service, pcc, money, Pcc, RefTo(ref), RewritePccInternalRefs(RefTo(ref)), depth);
      }
    } else {
      PccTargetApart(service, pcc, money, ref);
      ApartMeansOtherTrees(AcrossDocuments(service, pcc, money), Pcc, ref,
                           InBundle(service, pcc, money), RewrittenRef(ref));
    }
  }

  /** A reference of the money schema, which is not rewritten at all, keeps its meaning exactly
      when it leads nowhere on both sides, or by the service's id to a place that is kept. */
  lemma MoneyReferenceKeptExactly(service: Json, pcc: Json, money: Json, ref: string)
    requires Bundleable(service, pcc, money) && Clear(service, pcc, money, ref)
    requires ref == "#" ==> WithoutIds(money).fields.Keys != OutsideDefs(service).fields.Keys
    requires "#/" <= ref ==>
             || ResolveFragment(money, ref).None?
             || ResolveFragment(SelfContainedOutputSchema(service, pcc, money), ref).None?
    ensures SameTrees(AcrossDocuments(service, pcc, money), Money, RefTo(ref),
                      InBundle(service, pcc, money), RefTo(ref))
       <==> MoneyRef(service, pcc, money, ref)
  {
    if MoneyRef(service, pcc, money, ref) {
      RefToAllowed(ref, MoneyRefs(service, pcc, money));
      forall depth: nat {
        NodePreserved(service, pcc, money, Money, RefTo(ref), RefTo(ref), depth);
      }
    } else {
      MoneyTargetApart(service, pcc, money, ref);
      ApartMeansOtherTrees(AcrossDocuments(service, pcc, money), Money, ref, InBundle(service, pcc, money), ref);
    }
  }

  // ---- References that lose their meaning ----

  /** A pointer into PCC by its id, in the service or in PCC itself, is not replaced: it leads
      to PCC across the documents, and nowhere in the bundle. */
  lemma PccIdWithPointerDangles(service: Json, pcc: Json, money: Json, doc: Doc, fragment: string)
    requires service.Obj? && pcc.Obj? && money.Obj? && ProperService(service)
    requires "#" <= fragment && ResolveFragment(pcc, fragment).Some?
    ensures var ref := PCC_SCHEMA_ID + fragment;
            && Unfold(AcrossDocuments(service, pcc, money), doc, RefTo(ref), 1).Followed?
            && Unfold(InBundle(service, pcc, money), Service, BundlePccReference(RefTo(ref)), 1)
            == Dangling(ref, map[])
  {
    var ref := PCC_SCHEMA_ID + fragment;
    ProperIds();
    assert fragment == "#" + fragment[1..];
    assert ref == PCC_SCHEMA_ID + "#" + fragment[1..];
    assert Names(PCC_SCHEMA_ID, ref) && FragmentOf(PCC_SCHEMA_ID, ref) == fragment;
    OneDocumentIsNamed(PCC_SCHEMA_ID, MONEY_SCHEMA_ID, ref);
    NameLeadsNowhere(service, pcc, money, PCC_SCHEMA_ID, ref);
    BundleOfRef(ref);
    UnfoldRef(AcrossDocuments(service, pcc, money), doc, ref, 1);
    UnfoldRef(InBundle(service, pcc, money), Service, ref, 1);
  }

  /** PCC may refer neither to money nor to its own root: the first leads nowhere in the bundle,
      the second to the root of the bundle. */
  lemma PccLosesMoneyAndRoot(service: Json, pcc: Json, money: Json)
    requires service.Obj? && pcc.Obj? && money.Obj? && ProperService(service)
    ensures Unfold(AcrossDocuments(service, pcc, money), Pcc, RefTo(MONEY_SCHEMA_ID), 1).Followed?
    ensures Unfold(InBundle(service, pcc, money), Service, RewritePccInternalRefs(RefTo(MONEY_SCHEMA_ID)), 1).Dangling?
    ensures AcrossDocuments(service, pcc, money)(Pcc, "#") == Some((Pcc, WithoutIds(pcc)))
    ensures RewritePccInternalRefs(RefTo("#")) == RefTo("#")
    ensures InBundle(service, pcc, money)(Service, "#")
         == Some((Service, OutsideDefs(SelfContainedOutputSchema(service, pcc, money))))
  {
    BundleOfRef(MONEY_SCHEMA_ID);
    BundleOfRef("#");
    ProperIds();
    OneDocumentIsNamed(MONEY_SCHEMA_ID, PCC_SCHEMA_ID, MONEY_SCHEMA_ID);
    NameLeadsNowhere(service, pcc, money, MONEY_SCHEMA_ID, MONEY_SCHEMA_ID);
    FragmentsStayLocal(service, pcc, money, "#");
    UnfoldRef(AcrossDocuments(service, pcc, money), Pcc, MONEY_SCHEMA_ID, 1);
    UnfoldRef(InBundle(service, pcc, money), Service, MONEY_SCHEMA_ID, 1);
  }

  /** A pointer to a definition of the service's own, under a name that the bundle does not use. */
  predicate OwnDefinition(tokens: seq<string>) {
    |tokens| >= 2 && tokens[0] == "$defs" && tokens[1] != "pcc" && tokens[1] != "money"
  }

  /** The service's own definitions are overwritten: no pointer to one resolves in the bundle. */
  lemma OwnDefinitionsAreLost(service: Json, pcc: Json, money: Json, tokens: seq<string>)
    requires service.Obj? && pcc.Obj? && money.Obj? && OwnDefinition(tokens)
    ensures Resolve(SelfContainedOutputSchema(service, pcc, money), tokens).None?
  {
    var bundle := SelfContainedOutputSchema(service, pcc, money);
    assert tokens[1..][0] == tokens[1];
    assert Child(bundle, tokens[0]) == Some(bundle.fields["$defs"]);
    assert Child(bundle.fields["$defs"], tokens[1]).None?;
  }

  /** So a reference to one, which led somewhere, leads nowhere in the bundle. */
  lemma OwnDefinitionDangles(service: Json, pcc: Json, money: Json, ref: string)
    requires service.Obj? && pcc.Obj? && money.Obj? && ProperService(service)
    requires "#/" <= ref && ResolveFragment(service, ref).Some? && OwnDefinition(Tokens(ref[2..]))
    ensures Unfold(AcrossDocuments(service, pcc, money), Service, RefTo(ref), 1).Followed?
    ensures Unfold(InBundle(service, pcc, money), Service, BundlePccReference(RefTo(ref)), 1).Dangling?
  {
    FragmentsStayLocal(service, pcc, money, ref);
    OwnDefinitionsAreLost(service, pcc, money, Tokens(ref[2..]));
    BundleOfRef(ref);
    UnfoldRef(AcrossDocuments(service, pcc, money), Service, ref, 1);
    UnfoldRef(InBundle(service, pcc, money), Service, BundledRef(ref), 1);
  }
}
