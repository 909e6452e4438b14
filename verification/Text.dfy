/** Strings as the original compares them: case-insensitively, or in the lexicographic
    order of `Array.prototype.sort`, which fixes how a list of strings is sorted. */
module Text {

  predicate LexLeq(a: string, b: string) {
    a == "" || (b != "" && (a[0] < b[0] || (a[0] == b[0] && LexLeq(a[1..], b[1..]))))
  }

  lemma {:induction false} LexTotal(a: string, b: string)
    ensures LexLeq(a, b) || LexLeq(b, a)
  {
    if a != "" && b != "" && a[0] == b[0] {
      LexTotal(a[1..], b[1..]);
    }
  }

  lemma {:induction false} LexAntisymmetric(a: string, b: string)
    requires LexLeq(a, b) && LexLeq(b, a)
    ensures a == b
  {
    if a != "" && b != "" {
      LexAntisymmetric(a[1..], b[1..]);
      assert a == [a[0]] + a[1..] && b == [b[0]] + b[1..];
    }
  }

  lemma {:induction false} LexTransitive(a: string, b: string, c: string)
    requires LexLeq(a, b) && LexLeq(b, c)
    ensures LexLeq(a, c)
  {
    if a != "" && a[0] == b[0] == c[0] {
      LexTransitive(a[1..], b[1..], c[1..]);
    }
  }

  /** The strings differ first at position `k`, where `a` has the smaller character. */
  ghost predicate SmallerAt(a: string, b: string, k: nat) {
    k < |a| && k < |b| && a[k] < b[k] && forall j: nat | j < k :: a[j] == b[j]
  }

  /** A start of a string comes before it; otherwise the first difference decides. */
  ghost predicate ComesFirst(a: string, b: string) {
    a <= b || exists k: nat :: SmallerAt(a, b, k)
  }

  lemma {:induction false} LexLeqExactly(a: string, b: string)
    ensures LexLeq(a, b) <==> ComesFirst(a, b)
  {
    if a != "" && b != "" {
      if a[0] == b[0] {
        LexLeqExactly(a[1..], b[1..]);
        SameHead(a, b);
      } else {
        assert !(a <= b);
        assert SmallerAt(a, b, 0) <==> a[0] < b[0];
      }
    }
  }

  lemma SameHead(a: string, b: string)
    requires a != "" && b != "" && a[0] == b[0]
    ensures ComesFirst(a, b) <==> ComesFirst(a[1..], b[1..])
  {
    assert a <= b <==> a[1..] <= b[1..] by {
      assert |a| <= |b| ==> (a == b[..|a|] <==> a[1..] == b[1..][..|a| - 1]);
    }
    if k: nat :| SmallerAt(a, b, k) {
      assert SmallerAt(a[1..], b[1..], k - 1);
    }
    if k: nat :| SmallerAt(a[1..], b[1..], k) {
      assert forall j: nat | 0 < j < k + 1 :: a[1..][j - 1] == a[j] && b[1..][j - 1] == b[j];
      assert SmallerAt(a, b, k + 1);
    }
  }

  predicate Sorted(s: seq<string>) {
    forall i, j | 0 <= i < j < |s| :: LexLeq(s[i], s[j])
  }

  /** No string occurs twice. */
  ghost predicate Distinct(s: seq<string>) {
    forall x | x in s :: multiset(s)[x] == 1
  }

  function Insert(x: string, s: seq<string>): (r: seq<string>)
    requires Sorted(s)
    ensures Sorted(r)
    ensures multiset(r) == multiset(s) + multiset{x}
  {
    if s == [] then [x]
    else if LexLeq(x, s[0]) then
      InsertFirst(x, s);
      [x] + s
    else
      var rest := Insert(x, s[1..]);
      InsertLater(x, s, rest);
      [s[0]] + rest
  }

  lemma InsertFirst(x: string, s: seq<string>)
    requires s != [] && Sorted(s) && LexLeq(x, s[0])
    ensures Sorted([x] + s)
  {
    forall i | 0 <= i < |s| ensures LexLeq(x, s[i]) {
      LexTotal(s[0], s[0]);
      if i > 0 { LexTransitive(x, s[0], s[i]); }
    }
  }

  lemma InsertLater(x: string, s: seq<string>, rest: seq<string>)
    requires s != [] && Sorted(s) && !LexLeq(x, s[0])
    requires Sorted(rest) && multiset(rest) == multiset(s[1..]) + multiset{x}
    ensures Sorted([s[0]] + rest)
    ensures multiset([s[0]] + rest) == multiset(s) + multiset{x}
  {
    assert s == [s[0]] + s[1..];
    forall y | y in rest ensures LexLeq(s[0], y) {
      assert y in multiset(rest);
      LexTotal(x, s[0]);
      if y != x {
        assert y in multiset(s[1..]);
        assert y in s[1..];
      }
    }
  }

  /** The list in ascending order, as `.sort()` leaves it. */
  function Sort(s: seq<string>): (r: seq<string>)
    ensures Sorted(r)
    ensures multiset(r) == multiset(s)
    ensures |r| == |s|
    ensures forall x :: x in r <==> x in s
  {
    if s == [] then []
    else
      assert s == [s[0]] + s[1..];
      var r := Insert(s[0], Sort(s[1..]));
      SameMultiset(r, s);
      r
  }

  lemma SameMultiset(a: seq<string>, b: seq<string>)
    requires multiset(a) == multiset(b)
    ensures |a| == |b|
    ensures forall x :: x in a <==> x in b
    ensures Distinct(a) <==> Distinct(b)
  {
    assert |multiset(a)| == |a| && |multiset(b)| == |b|;
    assert forall x :: x in a <==> x in multiset(a);
    assert forall x :: x in b <==> x in multiset(b);
  }

  lemma NoMembersMeansEmpty(s: seq<string>)
    requires forall x :: x !in s
    ensures s == []
  {
    forall x ensures multiset(s)[x] == 0 {
      assert x in multiset(s) <==> x in s;
    }
    assert multiset(s) == multiset{};
    assert |multiset(s)| == |s|;
  }

  lemma FirstIsLeast(s: seq<string>, x: string)
    requires Sorted(s) && x in s
    ensures LexLeq(s[0], x)
  {
    LexTotal(x, x);
  }

  lemma SameFirst(a: seq<string>, b: seq<string>)
    requires Sorted(a) && Sorted(b) && a != []
    requires multiset(a) == multiset(b)
    ensures |b| == |a| && a[0] == b[0]
  {
    SameMultiset(a, b);
    FirstIsLeast(a, b[0]);
    FirstIsLeast(b, a[0]);
    LexAntisymmetric(a[0], b[0]);
  }

  lemma SortedTail(s: seq<string>) returns (t: seq<string>)
    requires Sorted(s) && s != []
    ensures s == [s[0]] + t && |t| < |s|
    ensures Sorted(t)
    ensures multiset(t) == multiset(s) - multiset{s[0]}
  {
    t := s[1..];
  }

  /** A sorted list is determined by what it contains, so the order in which
      the elements were supplied cannot be seen in it. */
  lemma {:induction false} SortedUnique(a: seq<string>, b: seq<string>)
    requires Sorted(a) && Sorted(b)
    requires multiset(a) == multiset(b)
    ensures a == b
    decreases |a|
  {
    SameMultiset(a, b);
    if a != [] {
      SameFirst(a, b);
      var a' := SortedTail(a);
      var b' := SortedTail(b);
      SortedUnique(a', b');
    }
  }

  lemma SortIgnoresOrder(a: seq<string>, b: seq<string>)
    requires multiset(a) == multiset(b)
    ensures Sort(a) == Sort(b)
  {
    SortedUnique(Sort(a), Sort(b));
  }

  /** Two sorted lists without repetition and with the same members are equal. */
  lemma SortedDistinctUnique(a: seq<string>, b: seq<string>)
    requires Sorted(a) && Distinct(a) && Sorted(b) && Distinct(b)
    requires forall x :: x in a <==> x in b
    ensures a == b
  {
    forall x ensures multiset(a)[x] == multiset(b)[x] {
      assert x in multiset(a) <==> x in a;
      assert x in multiset(b) <==> x in b;
    }
    assert multiset(a) == multiset(b);
    SortedUnique(a, b);
  }

  // ---- Case-insensitive comparison ----

  function LowerChar(c: char): char {
    if 'A' <= c <= 'Z' then (c as int + 32) as char else c
  }

  function ToLower(s: string): (r: string)
    ensures |r| == |s|
  {
    seq(|s|, i requires 0 <= i < |s| => LowerChar(s[i]))
  }

  /** The same character, or the same letter once as a capital and once small. */
  predicate SameLetter(c: char, d: char) {
    || c == d
    || ('A' <= c <= 'Z' && d as int - 'a' as int == c as int - 'A' as int)
    || ('A' <= d <= 'Z' && c as int - 'a' as int == d as int - 'A' as int)
  }

  predicate SameUpToCase(a: string, b: string) {
    |a| == |b| && forall i | 0 <= i < |a| :: SameLetter(a[i], b[i])
  }

  lemma LowerExactly(a: string, b: string)
    ensures ToLower(a) == ToLower(b) <==> SameUpToCase(a, b)
  {
    if ToLower(a) == ToLower(b) {
      forall i | 0 <= i < |a| ensures SameLetter(a[i], b[i]) {
        assert ToLower(a)[i] == ToLower(b)[i];
      }
    }
  }

  lemma LowerKeepsSmall(s: string)
    requires forall i | 0 <= i < |s| :: !('A' <= s[i] <= 'Z')
    ensures ToLower(s) == s
  {
  }
}
