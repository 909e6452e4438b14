/** Chains of references: where following `next` over and over ends, if it ends, and how
    two related chains end alike although one of them takes more steps. */
module Chains {
  import opened Outcomes

  type Step<!P> = P -> Option<P>

  /** The chain that starts at `o` ends at `end` after `k` steps. */
  ghost predicate EndsAt<P>(next: Step<P>, o: P, k: nat, end: P)
    decreases k
  {
    if k == 0 then next(o).None? && end == o else next(o).Some? && EndsAt(next, next(o).value, k - 1, end)
  }

  lemma {:induction false} EndIsUnique<P>(next: Step<P>, o: P, j: nat, a: P, k: nat, b: P)
    requires EndsAt(next, o, j, a) && EndsAt(next, o, k, b)
    ensures a == b && j == k
    decreases j
  {
    if j > 0 && k > 0 { EndIsUnique(next, next(o).value, j - 1, a, k - 1, b); }
  }

  lemma {:induction false} EndIsSettled<P>(next: Step<P>, o: P, k: nat, end: P)
    requires EndsAt(next, o, k, end)
    ensures next(end).None?
    decreases k
  {
    if k > 0 { EndIsSettled(next, next(o).value, k - 1, end); }
  }

  ghost function End<P(!new)>(next: Step<P>, o: P): Option<P> {
    if k: nat, end :| EndsAt(next, o, k, end) then Some(end) else None
  }

  lemma EndSettled<P(!new)>(next: Step<P>, o: P)
    requires End(next, o).Some?
    ensures next(End(next, o).value).None?
  {
    var k: nat, end :| EndsAt(next, o, k, end) && End(next, o) == Some(end);
    EndIsSettled(next, o, k, end);
  }

  lemma EndIs<P(!new)>(next: Step<P>, o: P, k: nat, end: P)
    requires EndsAt(next, o, k, end)
    ensures End(next, o) == Some(end)
  {
    var j: nat, e :| EndsAt(next, o, j, e) && End(next, o) == Some(e);
    EndIsUnique(next, o, j, e, k, end);
  }

  lemma EndOfStep<P(!new)>(next: Step<P>, o: P)
    requires next(o).Some?
    ensures End(next, next(o).value) == End(next, o)
  {
    if k: nat, end :| EndsAt(next, next(o).value, k, end) {
      EndIs(next, next(o).value, k, end);
      EndIs(next, o, k + 1, end);
    } else {
      assert forall k: nat, end :: !EndsAt(next, o, k, end);
    }
  }

  lemma EndOfEnded<P(!new)>(next: Step<P>, o: P)
    requires next(o).None?
    ensures End(next, o) == Some(o)
  {
    assert EndsAt(next, o, 0, o);
    EndIs(next, o, 0, o);
  }

  // ---- Two chains that keep related ----

  /** How often the second place may still wait, and the two places. */
  type Relation<!P> = (nat, P, P) -> bool

  ghost predicate Related<P>(rel: Relation<P>, o: P, o': P) {
    exists m: nat :: rel(m, o, o')
  }

  /** Related places go on to one place, or the second waits, or both step, or both have ended. */
  ghost predicate GoesOn<P>(next: Step<P>, rel: Relation<P>, m: nat, o: P, o': P) {
    var n, n' := next(o), next(o');
    || (n.Some? && n' == n)
    || (n.Some? && exists l: nat :: l < m && rel(l, n.value, o'))
    || (n.Some? && n'.Some? && Related(rel, n.value, n'.value))
    || (n.None? && n'.None?)
  }

  ghost predicate Simulation<P(!new)>(next: Step<P>, rel: Relation<P>) {
    forall m: nat, o: P, o': P {:trigger GoesOn(next, rel, m, o, o')} | rel(m, o, o') :: GoesOn(next, rel, m, o, o')
  }

  ghost predicate Alike<P>(rel: Relation<P>, o: P, o': P) {
    o == o' || Related(rel, o, o')
  }

  lemma {:induction false} EndCarries<P(!new)>(next: Step<P>, rel: Relation<P>, m: nat, o: P, o': P, k: nat, end: P)
    returns (k': nat, end': P)
    requires Simulation(next, rel) && rel(m, o, o') && EndsAt(next, o, k, end)
    ensures EndsAt(next, o', k', end') && Alike(rel, end, end')
    decreases k
  {
    assert GoesOn(next, rel, m, o, o');
    if k == 0 {
      k', end' := 0, o';
    } else if next(o') == next(o) {
      k', end' := k, end;
    } else if l: nat :| l < m && rel(l, next(o).value, o') {
      k', end' := EndCarries(next, rel, l, next(o).value, o', k - 1, end);
    } else {
      var l: nat :| rel(l, next(o).value, next(o').value);
      k', end' := EndCarries(next, rel, l, next(o).value, next(o').value, k - 1, end);
      k' := k' + 1;
    }
  }

  lemma {:induction false} EndCarriesBack<P(!new)>(next: Step<P>, rel: Relation<P>, m: nat, o: P, o': P, k': nat,
                                                   end': P)
    returns (k: nat, end: P)
    requires Simulation(next, rel) && rel(m, o, o') && EndsAt(next, o', k', end')
    ensures EndsAt(next, o, k, end) && Alike(rel, end, end')
    decreases k', m
  {
    assert GoesOn(next, rel, m, o, o');
    if next(o).None? {
      k, end := 0, o;
    } else if next(o') == next(o) {
      k, end := k', end';
    } else if l: nat :| l < m && rel(l, next(o).value, o') {
      k, end := EndCarriesBack(next, rel, l, next(o).value, o', k', end');
      k := k + 1;
    } else {
      var l: nat :| rel(l, next(o).value, next(o').value);
      k, end := EndCarriesBack(next, rel, l, next(o).value, next(o').value, k' - 1, end');
      k := k + 1;
    }
  }

  /** Related chains both end, at places that are alike, or neither ends. */
  lemma EndsAlike<P(!new)>(next: Step<P>, rel: Relation<P>, o: P, o': P)
    requires Simulation(next, rel) && Alike(rel, o, o')
    ensures End(next, o).Some? <==> End(next, o').Some?
    ensures End(next, o).Some? ==> Alike(rel, End(next, o).value, End(next, o').value)
  {
    if o != o' {
      var m: nat :| rel(m, o, o');
      if k: nat, end :| EndsAt(next, o, k, end) {
        EndIs(next, o, k, end);
        var k', end' := EndCarries(next, rel, m, o, o', k, end);
        EndIs(next, o', k', end');
      } else if k': nat, end' :| EndsAt(next, o', k', end') {
        var k, end := EndCarriesBack(next, rel, m, o, o', k', end');
      }
    }
  }
}
