/** JSON values, and JSON Pointer (RFC 6901, sections 3 to 5) over them. */
module JsonTree {
  import opened Outcomes
  import Decimal

  datatype Json =
    | Null
    | Bool(b: bool)
    | Num(n: real)
    | Str(s: string)
    | Arr(items: seq<Json>)
    | Obj(fields: map<string, Json>)

  predicate Container(v: Json) { v.Arr? || v.Obj? }

  // ---- Pointers ----

  function Split(s: string): (parts: seq<string>)
    ensures parts != []
  {
    if s == "" then [""]
    else
      var rest := Split(s[1..]);
      if s[0] == '/' then [""] + rest else [[s[0]] + rest[0]] + rest[1..]
  }

  lemma {:induction false} SplitFirst(a: string, b: string)
    requires '/' !in a
    ensures Split(a + "/" + b) == [a] + Split(b)
  {
    if a == "" {
      assert (a + "/" + b)[1..] == b;
    } else {
      SplitFirst(a[1..], b);
      assert (a + "/" + b)[1..] == a[1..] + "/" + b;
      assert a == [a[0]] + a[1..];
    }
  }

  lemma {:induction false} SplitWhole(a: string)
    requires '/' !in a
    ensures Split(a) == [a]
  {
    if a != "" {
      SplitWhole(a[1..]);
      assert a == [a[0]] + a[1..];
    }
  }

  /** `~1` stands for `/` and `~0` for `~`. */
  function Unescape(token: string): string {
    if token == "" then ""
    else if |token| >= 2 && token[0] == '~' && token[1] == '1' then "/" + Unescape(token[2..])
    else if |token| >= 2 && token[0] == '~' && token[1] == '0' then "~" + Unescape(token[2..])
    else [token[0]] + Unescape(token[1..])
  }

  lemma {:induction false} UnescapePlain(token: string)
    requires '~' !in token
    ensures Unescape(token) == token
  {
    if token != "" {
      UnescapePlain(token[1..]);
    }
  }

  /** The reference tokens of the pointer `"/" + p`. */
  function Tokens(p: string): (tokens: seq<string>)
    ensures |tokens| == |Split(p)|
  {
    seq(|Split(p)|, i requires 0 <= i < |Split(p)| => Unescape(Split(p)[i]))
  }

  lemma TokensFirst(a: string, b: string)
    requires '/' !in a && '~' !in a
    ensures Tokens(a + "/" + b) == [a] + Tokens(b)
  {
    SplitFirst(a, b);
    UnescapePlain(a);
  }

  lemma TokensWhole(a: string)
    requires '/' !in a && '~' !in a
    ensures Tokens(a) == [a]
  {
    SplitWhole(a);
    UnescapePlain(a);
  }

  /** How a token is written in a pointer. */
  function Escape(token: string): (r: string)
    ensures '/' !in r
  {
    if token == "" then ""
    else (if token[0] == '~' then "~0" else if token[0] == '/' then "~1" else [token[0]]) + Escape(token[1..])
  }

  lemma {:induction false} UnescapeEscape(token: string)
    ensures Unescape(Escape(token)) == token
  {
    if token != "" {
      UnescapeEscape(token[1..]);
      var rest := Escape(token[1..]);
      assert token == [token[0]] + token[1..];
      assert ("~0" + rest)[2..] == rest && ("~1" + rest)[2..] == rest && ([token[0]] + rest)[1..] == rest;
    }
  }

  /** The pointer with these tokens, without its first slash. */
  function Written(tokens: seq<string>): string
    requires tokens != []
  {
    if |tokens| == 1 then Escape(tokens[0]) else Escape(tokens[0]) + "/" + Written(tokens[1..])
  }

  /** Tokens are read back from a pointer as they were written. */
  lemma {:induction false} TokensOfWritten(tokens: seq<string>)
    requires tokens != []
    ensures Tokens(Written(tokens)) == tokens
  {
    UnescapeEscape(tokens[0]);
    if |tokens| == 1 {
      SplitWhole(Escape(tokens[0]));
    } else {
      SplitFirst(Escape(tokens[0]), Written(tokens[1..]));
      TokensOfWritten(tokens[1..]);
      assert tokens == [tokens[0]] + tokens[1..];
    }
  }

  /** One step: a member name, or an array index without leading zeros. */
  function Child(v: Json, token: string): Option<Json> {
    match v
    case Obj(fields) => if token in fields then Some(fields[token]) else None
    case Arr(items) =>
      if Decimal.Canonical(token) && Decimal.Value(token) < |items| then Some(items[Decimal.Value(token)]) else None
    case _ => None
  }

  /** The items of an array are found under the printed index, and under nothing else. */
  lemma ItemsByIndex(items: seq<Json>, token: string)
    ensures Child(Arr(items), token).Some? <==> exists i: nat :: i < |items| && Decimal.Print(i) == token
    ensures forall i: nat | i < |items| :: Child(Arr(items), Decimal.Print(i)) == Some(items[i])
  {
    forall i: nat | i < |items| { Decimal.ValueOfPrint(i); }
    if Child(Arr(items), token).Some? { Decimal.PrintOfValue(token); }
  }

  function Resolve(v: Json, tokens: seq<string>): Option<Json> {
    if tokens == [] then Some(v)
    else
      match Child(v, tokens[0])
      case None => None
      case Some(c) => Resolve(c, tokens[1..])
  }

  /** A same-document reference: `#` or `#/...`; plain-name fragments are not resolved. */
  function ResolveFragment(root: Json, ref: string): Option<Json> {
    if ref == "#" then Some(root)
    else if "#/" <= ref then Resolve(root, Tokens(ref[2..]))
    else None
  }

  // ---- References ----

  /** An object whose `$ref` member is a string. */
  predicate IsRef(v: Json) {
    v.Obj? && "$ref" in v.fields && v.fields["$ref"].Str?
  }

  function RefOf(v: Json): string
    requires IsRef(v)
  {
    v.fields["$ref"].s
  }

  /** Every reference anywhere in `v` is one of the allowed ones. */
  ghost predicate AllRefs(v: Json, allowed: string -> bool) {
    && (IsRef(v) ==> allowed(RefOf(v)))
    && match v
       case Arr(items) => forall i | 0 <= i < |items| :: AllRefs(items[i], allowed)
       case Obj(fields) => forall k | k in fields :: AllRefs(fields[k], allowed)
       case _ => true
  }

  lemma {:induction false} AllRefsInside(v: Json, allowed: string -> bool, tokens: seq<string>)
    requires AllRefs(v, allowed) && Resolve(v, tokens).Some?
    ensures AllRefs(Resolve(v, tokens).value, allowed)
  {
    if tokens != [] {
      AllRefsInside(Child(v, tokens[0]).value, allowed, tokens[1..]);
    }
  }
}
