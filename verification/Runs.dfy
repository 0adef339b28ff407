/** Systems in which two independent parties take turns in any order. If their moves do
    not disturb each other, all runs end as soon as one does: after the same number of
    moves, and in the same state. */
module Runs {
  import opened Bytes

  /** The next state by a move of the one or the other party, if it can move. */
  datatype Moves<!P> = Moves(first: P -> Option<P>, second: P -> Option<P>)

  predicate Stuck<P>(m: Moves<P>, p: P) {
    m.first(p).None? && m.second(p).None?
  }

  predicate OneMove<P(==)>(m: Moves<P>, p: P, q: P) {
    m.first(p) == Some(q) || m.second(p) == Some(q)
  }

  predicate CommuteAt<P(==)>(m: Moves<P>, p: P) {
    m.first(p).Some? && m.second(p).Some? ==>
      var q, r := m.first(p).value, m.second(p).value;
      m.second(q).Some? && m.second(q) == m.first(r)
  }

  /** The moves of the two parties do not disturb each other. */
  ghost predicate Commute<P(!new)>(m: Moves<P>) {
    forall p :: CommuteAt(m, p)
  }

  /** Some schedule leads from `p` to `f` in `n` moves. */
  ghost predicate Reaches<P>(m: Moves<P>, n: nat, p: P, f: P) {
    if n == 0 then p == f
    else
      || (m.first(p).Some? && Reaches(m, n - 1, m.first(p).value, f))
      || (m.second(p).Some? && Reaches(m, n - 1, m.second(p).value, f))
  }

  /** A move of either party, whichever it is, is a move towards the end. */
  lemma {:induction false} Closer<P(!new)>(m: Moves<P>, n: nat, p: P, f: P, q: P)
    requires Commute(m) && Reaches(m, n, p, f) && Stuck(m, f) && OneMove(m, p, q)
    ensures n > 0 && Reaches(m, n - 1, q, f)
  {
    assert CommuteAt(m, p);
    if m.first(p).Some? && m.second(p).Some? {
      var r := m.second(m.first(p).value).value;
      if Reaches(m, n - 1, m.first(p).value, f) {
        Closer(m, n - 1, m.first(p).value, f, r);
      } else {
        Closer(m, n - 1, m.second(p).value, f, r);
      }
    }
  }

  /** A run: every next state is one move later. */
  ghost predicate Trace<P>(m: Moves<P>, run: seq<P>) {
    run != [] && forall i :: 0 < i < |run| ==> OneMove(m, run[i - 1], run[i])
  }

  lemma RunOn<P>(m: Moves<P>, run: seq<P>, q: P)
    requires Trace(m, run) && OneMove(m, run[|run| - 1], q)
    ensures Trace(m, run + [q])
  {
    var longer := run + [q];
    forall i | 0 < i < |longer|
      ensures OneMove(m, longer[i - 1], longer[i])
    {
      if i < |run| {
        assert OneMove(m, run[i - 1], run[i]);
      }
    }
  }

  /** Every run from `p`, whatever its schedule, has at most `n` moves; it can go on until
      it has made all of them, and then it has come to `f`. */
  ghost predicate AlwaysEnds<P(!new)>(m: Moves<P>, p: P, f: P, n: nat) {
    forall run :: Trace(m, run) && run[0] == p ==> EndsAs(m, run, f, n)
  }

  ghost predicate EndsAs<P>(m: Moves<P>, run: seq<P>, f: P, n: nat)
    requires run != []
  {
    var last := run[|run| - 1];
    && |run| <= n + 1
    && (Stuck(m, last) <==> last == f)
    && (last == f <==> |run| == n + 1)
  }

  lemma {:induction false} RunCloser<P(!new)>(m: Moves<P>, n: nat, f: P, run: seq<P>)
    requires Commute(m) && Trace(m, run) && Reaches(m, n, run[0], f) && Stuck(m, f)
    ensures |run| <= n + 1 && Reaches(m, n + 1 - |run|, run[|run| - 1], f)
    decreases |run|
  {
    var k := |run| - 1;
    if k > 0 {
      RunCloser(m, n, f, run[..k]);
      assert OneMove(m, run[k - 1], run[k]);
      Closer(m, n + 1 - k, run[k - 1], f, run[k]);
    }
  }

  /** One schedule that ends is enough: then all of them do, and in the same way. */
  lemma OneScheduleIsEnough<P(!new)>(m: Moves<P>, n: nat, p: P, f: P)
    requires Commute(m) && Reaches(m, n, p, f) && Stuck(m, f)
    ensures AlwaysEnds(m, p, f, n)
  {
    forall run | Trace(m, run) && run[0] == p
      ensures EndsAs(m, run, f, n)
    {
      RunCloser(m, n, f, run);
      var last := run[|run| - 1];
      if n + 1 - |run| > 0 {
        if m.first(last).Some? {
          Closer(m, n + 1 - |run|, last, f, m.first(last).value);
        }
        assert !Stuck(m, last);
      }
    }
  }

  lemma {:induction false} Then<P>(m: Moves<P>, i: nat, j: nat, p: P, q: P, r: P)
    requires Reaches(m, i, p, q) && Reaches(m, j, q, r)
    ensures Reaches(m, i + j, p, r)
    decreases i
  {
    if i > 0 {
      if m.first(p).Some? && Reaches(m, i - 1, m.first(p).value, q) {
        Then(m, i - 1, j, m.first(p).value, q, r);
      } else {
        Then(m, i - 1, j, m.second(p).value, q, r);
      }
    }
  }

  // ---------------------------------------------------------------------
  // Without counting
  // ---------------------------------------------------------------------

  /** Some schedule leads from `p` to `q`. */
  ghost predicate Leads<P>(m: Moves<P>, p: P, q: P) {
    exists n: nat :: Reaches(m, n, p, q)
  }

  /** All runs from `p` end, and all of them in `f`: no schedule blocks before. */
  ghost predicate Inevitable<P(!new)>(m: Moves<P>, p: P, f: P) {
    Stuck(m, f) && exists n: nat :: AlwaysEnds(m, p, f, n)
  }

  lemma LeadsOn<P>(m: Moves<P>, p: P, q: P, r: P)
    requires Leads(m, p, q) && Leads(m, q, r)
    ensures Leads(m, p, r)
  {
    var i: nat :| Reaches(m, i, p, q);
    var j: nat :| Reaches(m, j, q, r);
    Then(m, i, j, p, q, r);
  }

  lemma LeadsNowhere<P>(m: Moves<P>, p: P)
    ensures Leads(m, p, p)
  {
    assert Reaches(m, 0, p, p);
  }

  lemma LeadsByOne<P>(m: Moves<P>, p: P, q: P)
    requires OneMove(m, p, q)
    ensures Leads(m, p, q)
  {
    assert Reaches(m, 0, q, q);
    assert Reaches(m, 1, p, q);
  }

  lemma LeadsToTheEnd<P(!new)>(m: Moves<P>, p: P, f: P)
    requires Commute(m) && Leads(m, p, f) && Stuck(m, f)
    ensures Inevitable(m, p, f)
  {
    var n: nat :| Reaches(m, n, p, f);
    OneScheduleIsEnough(m, n, p, f);
  }
}
