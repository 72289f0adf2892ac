/**
 * Pareto dominance between objective pairs (NSGAII.java `dominates`), both objectives
 * minimised, and the existence of non-dominated members in every non-empty pool.
 */
module Pareto {

  /** An individual of a pool, identified by its position: equal weight vectors stay distinct. */
  type Id = nat

  /** The two objective values the problem assigns to a weight vector: (-return, variance). */
  datatype Objectives = Objectives(f0: real, f1: real)

  /** `a` dominates `b`: no worse in either objective and strictly better in at least one. */
  predicate Dominates(a: Objectives, b: Objectives)
  {
    a.f0 <= b.f0 && a.f1 <= b.f1 && (a.f0 < b.f0 || a.f1 < b.f1)
  }

  /** Some member of `s` dominates `x` (the inner loop over `other` with its early `break`). */
  predicate DominatedIn(fit: Id -> Objectives, s: seq<Id>, x: Id)
  {
    exists y :: y in s && Dominates(fit(y), fit(x))
  }

  lemma DominatesIrreflexive(a: Objectives)
    ensures !Dominates(a, a)
  {
  }

  lemma DominatesAsymmetric(a: Objectives, b: Objectives)
    ensures !(Dominates(a, b) && Dominates(b, a))
  {
  }

  lemma DominatesTransitive(a: Objectives, b: Objectives, c: Objectives)
    requires Dominates(a, b) && Dominates(b, c)
    ensures Dominates(a, c)
  {
  }

  /** Equal objective pairs never dominate one another, so ties end up in the same front. */
  lemma EqualObjectivesNeverDominate(a: Objectives, b: Objectives)
    requires a == b
    ensures !Dominates(a, b) && !Dominates(b, a)
  {
  }

  /**
   * Every non-empty pool has a member that nothing in the pool dominates.
   * This is what makes each peeling round of the non-dominated sort produce a non-empty front.
   */
  lemma {:induction false} NonDominatedExists(fit: Id -> Objectives, s: seq<Id>)
    requires |s| > 0
    ensures exists m :: m in s && !DominatedIn(fit, s, m)
  {
    var a := s[0];
    var t := s[1..];
    assert s == [a] + t;
    if |t| == 0 {
      assert !DominatedIn(fit, s, a) by {
        forall y | y in s
          ensures !Dominates(fit(y), fit(a))
        {
          assert y == a;
        }
      }
    } else {
      NonDominatedExists(fit, t);
      var m :| m in t && !DominatedIn(fit, t, m);
      if Dominates(fit(a), fit(m)) {
        // Anything dominating `a` would dominate `m` as well, and `m` is undominated in `t`.
        assert !DominatedIn(fit, s, a) by {
          forall y | y in s
            ensures !Dominates(fit(y), fit(a))
          {
            if y != a && Dominates(fit(y), fit(a)) {
              assert y in t;
              DominatesTransitive(fit(y), fit(a), fit(m));
            }
          }
        }
      } else {
        assert !DominatedIn(fit, s, m) by {
          forall y | y in s
            ensures !Dominates(fit(y), fit(m))
          {
            if y != a {
              assert y in t;
            }
          }
        }
      }
    }
  }

  /** The members of `s` that dominate `y`, in order. */
  function Dominators(fit: Id -> Objectives, s: seq<Id>, y: Id): (d: seq<Id>)
    ensures forall z :: z in d <==> z in s && Dominates(fit(z), fit(y))
  {
    if |s| == 0 then []
    else (if Dominates(fit(s[0]), fit(y)) then [s[0]] else []) + Dominators(fit, s[1..], y)
  }

  /**
   * A member that is dominated within `s` is dominated by some member of `s` that is
   * itself undominated within `s`.
   */
  lemma {:induction false} UndominatedDominatorExists(fit: Id -> Objectives, s: seq<Id>, y: Id)
    requires DominatedIn(fit, s, y)
    ensures exists m :: m in s && !DominatedIn(fit, s, m) && Dominates(fit(m), fit(y))
  {
    var d := Dominators(fit, s, y);
    var z :| z in s && Dominates(fit(z), fit(y));
    assert z in d;
    NonDominatedExists(fit, d);
    var m :| m in d && !DominatedIn(fit, d, m);
    assert !DominatedIn(fit, s, m) by {
      forall w | w in s
        ensures !Dominates(fit(w), fit(m))
      {
        if Dominates(fit(w), fit(m)) {
          DominatesTransitive(fit(w), fit(m), fit(y));
          assert false;
        }
      }
    }
  }

  /** Whether `x` is dominated depends only on which members the pool holds, not on their order. */
  lemma DominatedInSameMembers(fit: Id -> Objectives, s: seq<Id>, t: seq<Id>, x: Id)
    requires forall y :: y in s <==> y in t
    ensures DominatedIn(fit, s, x) <==> DominatedIn(fit, t, x)
  {
  }
}
