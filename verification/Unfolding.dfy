/** A schema read with its references followed: the tree it stands for, cut off at
    a finite depth, and the principle by which two schemas are shown to have the
    same trees. */
module Unfolding {
  import opened Outcomes
  import opened JsonTree

  /** Where a reference found in document `D` leads, if anywhere. */
  type Follow<!D> = (D, string) -> Option<(D, Json)>

  /** A followed reference keeps its sibling members beside the target, so equal
      trees mean the same whether a validator ignores those siblings or applies them. */
  datatype Tree =
    | Cut
    | Leaf(value: Json)
    | Dangling(ref: string, siblings: map<string, Tree>)
    | Followed(target: Tree, siblings: map<string, Tree>)
    | Items(items: seq<Tree>)
    | Members(members: map<string, Tree>)

  ghost function Unfold<D>(follow: Follow<D>, doc: D, v: Json, depth: nat): Tree
    decreases depth, 0
  {
    if depth == 0 then Cut
    else if IsRef(v) then
      var siblings := UnfoldMembers(follow, doc, v.fields - {"$ref"}, depth - 1);
      match follow(doc, RefOf(v))
      case None => Dangling(RefOf(v), siblings)
      case Some((d, target)) => Followed(Unfold(follow, d, target, depth - 1), siblings)
    else
      match v
      case Arr(items) => Items(seq(|items|, i requires 0 <= i < |items| => Unfold(follow, doc, items[i], depth - 1)))
      case Obj(fields) => Members(UnfoldMembers(follow, doc, fields, depth - 1))
      case _ => Leaf(v)
  }

  ghost function UnfoldMembers<D>(follow: Follow<D>, doc: D, fields: map<string, Json>, depth: nat): map<string, Tree>
    decreases depth, 1
  {
    map k | k in fields :: Unfold(follow, doc, fields[k], depth)
  }

  type Relation<!D> = (D, Json, D, Json) -> bool

  ghost predicate MembersRelated<D>(r: Relation<D>, doc: D, fields: map<string, Json>, doc': D, fields': map<string,
                                    Json>) {
    fields.Keys == fields'.Keys && forall k | k in fields :: r(doc, fields[k], doc', fields'[k])
  }

  ghost predicate TargetsRelated<D>(r: Relation<D>, a: Option<(D, Json)>, ref: string, b: Option<(D, Json)>,
                                    ref': string) {
    match (a, b)
    case (None, None) => ref == ref'
    case (Some(s), Some(t)) => r(s.0, s.1, t.0, t.1)
    case _ => false
  }

  /** The two nodes look alike for one step. */
  ghost predicate StepRelated<D>(f: Follow<D>, f': Follow<D>, r: Relation<D>, doc: D, v: Json, doc': D, v': Json) {
    && (IsRef(v) <==> IsRef(v'))
    && if IsRef(v) then
         && TargetsRelated(r, f(doc, RefOf(v)), RefOf(v), f'(doc', RefOf(v')), RefOf(v'))
         && MembersRelated(r, doc, v.fields - {"$ref"}, doc', v'.fields - {"$ref"})
       else
         match (v, v')
         case (Arr(a), Arr(b)) => |a| == |b| && forall i | 0 <= i < |a| :: r(doc, a[i], doc', b[i])
         case (Obj(a), Obj(b)) => MembersRelated(r, doc, a, doc', b)
         case _ => v == v' && !v.Arr? && !v.Obj?
  }

  ghost predicate Bisimulation<D(!new)>(f: Follow<D>, f': Follow<D>, r: Relation<D>) {
    forall doc: D, v: Json, doc': D, v': Json {:trigger StepRelated(f, f', r, doc, v, doc', v')} |
      r(doc, v, doc', v') :: StepRelated(f, f', r, doc, v, doc', v')
  }

  /** Nodes related by a bisimulation unfold to the same tree at every depth. */
  lemma {:induction false} BisimilarUnfoldAlike<D(!new)>(f: Follow<D>, f': Follow<D>, r: Relation<D>, doc: D, v: Json,
                                                         doc': D, v': Json, depth: nat)
    requires Bisimulation(f, f', r) && r(doc, v, doc', v')
    ensures Unfold(f, doc, v, depth) == Unfold(f', doc', v', depth)
    decreases depth, 0
  {
    if depth > 0 {
      assert StepRelated(f, f', r, doc, v, doc', v');
      if IsRef(v) {
        MembersUnfoldAlike(f, f', r, doc, v.fields - {"$ref"}, doc', v'.fields - {"$ref"}, depth - 1);
        if f(doc, RefOf(v)).Some? {
          var s, t := f(doc, RefOf(v)).value, f'(doc', RefOf(v')).value;
          BisimilarUnfoldAlike(f, f', r, s.0, s.1, t.0, t.1, depth - 1);
        }
      } else if v.Arr? {
        forall i | 0 <= i < |v.items| {
          BisimilarUnfoldAlike(f, f', r, doc, v.items[i], doc', v'.items[i], depth - 1);
        }
      } else if v.Obj? {
        MembersUnfoldAlike(f, f', r, doc, v.fields, doc', v'.fields, depth - 1);
      }
    }
  }

  lemma {:induction false} MembersUnfoldAlike<D(!new)>(f: Follow<D>, f': Follow<D>, r: Relation<D>, doc: D,
                                                       fields: map<string, Json>,
                                                       doc': D, fields': map<string, Json>, depth: nat)
    requires Bisimulation(f, f', r) && MembersRelated(r, doc, fields, doc', fields')
    ensures UnfoldMembers(f, doc, fields, depth) == UnfoldMembers(f', doc', fields', depth)
    decreases depth, 1
  {
    forall k | k in fields {
      BisimilarUnfoldAlike(f, f', r, doc, fields[k], doc', fields'[k], depth);
    }
  }
}
