// What elimination of a pivot leaves, exactly: the clauses without the pivot, and the resolvents of
// the pairs of clauses that are resolved.
module Spanning {
  import opened Cnf
  import opened Resolving
  import opened Eliminating
  import RE = Reconstruction
  import PE = PivotElimination

  // As long as the pivot is unassigned, everything without it follows from what was there without it
  // and from 'r'.
  ghost predicate Spans(s: State, s': State, l: Lit, r: Formula) {
    forall u {:trigger Look(u)} :: Look(u) ==>
      (l !in s'.vals && -l !in s'.vals ==> EntailsAll(Base(s, l) + r, Base(s', l)))
  }

  lemma SpansSame(s: State, l: Lit, r: Formula)
    ensures Spans(s, s, l, r)
  {
    forall c | c in Base(s, l) ensures Entails(Base(s, l) + r, c) {
    }
  }

  lemma SpansTransitive(s: State, s1: State, s2: State, l: Lit, r: Formula)
    requires Spans(s, s1, l, r) && Spans(s1, s2, l, r) && s1.vals <= s2.vals
    ensures Spans(s, s2, l, r)
  {
    assert Look(0);
    if l !in s2.vals && -l !in s2.vals {
      var f := Base(s, l) + r;
      forall c | c in Base(s1, l) + r ensures Entails(f, c) {
      }
      forall c | c in Base(s2, l) ensures Entails(f, c) {
        EntailsTransitive(f, Base(s1, l) + r, c);
      }
    }
  }

  lemma SpansMore(s: State, s': State, l: Lit, r: Formula, more: Formula)
    requires Spans(s, s', l, r) && r <= more
    ensures Spans(s, s', l, more)
  {
    assert Look(0);
    if l !in s'.vals && -l !in s'.vals {
      forall c | c in Base(s', l) ensures Entails(Base(s, l) + more, c) {
        EntailsMonotone(Base(s, l) + r, Base(s, l) + more, c);
      }
    }
  }

  lemma SpansFlip(s: State, s': State, l: Lit, r: Formula)
    requires Spans(s, s', l, r)
    ensures Spans(s, s', -l, r)
  {
    assert Look(0);
    assert -(-l) == l;
    BaseFlip(s, l);
    BaseFlip(s', l);
  }

  // Fewer clauses are live.
  lemma SpansFewer(s: State, s': State, l: Lit, r: Formula)
    requires |s'.db| == |s.db| && s'.vals == s.vals && s'.unsat == s.unsat
    requires forall k {:trigger s'.db[k]} :: 0 <= k < |s.db| ==> s'.db[k].lits == s.db[k].lits && (s.db[k].garbage ==> s'.db[k].garbage)
    ensures Spans(s, s', l, r)
  {
    forall c | c in Base(s', l) ensures c in Base(s, l) {
      if c !in Units(s.vals, s.unsat) {
        var k: nat :| LiveFree(s'.db, l, k) && c == LitsOf(s'.db[k].lits);
        assert LiveFree(s.db, l, k);
      }
    }
    forall c | c in Base(s', l) ensures Entails(Base(s, l) + r, c) {
    }
  }

  lemma SpansRemoved(s: State, k: nat, l: Lit, r: Formula)
    requires k < |s.db|
    ensures Spans(s, Removed(s, k), l, r)
  {
    SpansFewer(s, Removed(s, k), l, r);
  }

  lemma SpansUnit(s: State, u: Lit, l: Lit, r: Formula)
    requires u == l || u == -l || Entails(Base(s, l) + r, {u})
    ensures Spans(s, s.(vals := s.vals + {u}), l, r)
  {
    var s' := s.(vals := s.vals + {u});
    if l !in s'.vals && -l !in s'.vals {
      forall c | c in Base(s', l) ensures Entails(Base(s, l) + r, c) {
        if c != {u} {
          assert c in Base(s, l);
        }
      }
    }
  }

  lemma SpansUnsat(s: State, l: Lit, r: Formula)
    requires l in s.vals || -l in s.vals || Entails(Base(s, l) + r, {})
    ensures Spans(s, s.(unsat := true), l, r)
  {
    var s' := s.(unsat := true);
    if l !in s'.vals && -l !in s'.vals {
      forall c | c in Base(s', l) ensures Entails(Base(s, l) + r, c) {
        if c != {} {
          assert c in Base(s, l);
        }
      }
    }
  }

  lemma SpansAdd(s: State, lits: seq<Lit>, id: nat, l: Lit, r: Formula)
    requires Entails(Base(s, l) + r, LitsOf(lits))
    ensures Spans(s, s.(db := s.db + [EClause(lits, false, false, id)]), l, r)
  {
    var s' := s.(db := s.db + [EClause(lits, false, false, id)]);
    forall c | c in Base(s', l) ensures Entails(Base(s, l) + r, c) {
      if c !in Units(s.vals, s.unsat) {
        var k: nat :| LiveFree(s'.db, l, k) && c == LitsOf(s'.db[k].lits);
        if k < |s.db| {
          assert LiveFree(s.db, l, k);
          assert c in Base(s, l);
        }
      } else {
        assert c in Base(s, l);
      }
    }
  }

  // Both relations between states before and after.
  ghost predicate Moved(s: State, s': State, l: Lit, r: Formula) {
    Kept(s, s', l) && Spans(s, s', l, r)
  }

  lemma MovedSame(s: State, l: Lit, r: Formula)
    ensures Moved(s, s, l, r)
  {
    KeptSame(s, l);
    SpansSame(s, l, r);
  }

  lemma MovedTransitive(s: State, s1: State, s2: State, l: Lit, r: Formula)
    requires Moved(s, s1, l, r) && Moved(s1, s2, l, r)
    ensures Moved(s, s2, l, r)
  {
    KeptTransitive(s, s1, s2, l);
    KeptParts(s1, s2, l);
    SpansTransitive(s, s1, s2, l, r);
  }

  lemma MovedMore(s: State, s': State, l: Lit, r: Formula)
    requires Moved(s, s', l, iset{})
    ensures Moved(s, s', l, r)
  {
    SpansMore(s, s', l, iset{}, r);
  }

  lemma MovedFlip(s: State, s': State, l: Lit, r: Formula)
    requires Moved(s, s', l, r)
    ensures Moved(s, s', -l, r)
  {
    KeptFlip(s, s', l);
    SpansFlip(s, s', l, r);
  }

  // A unit or a conflict in a clause does not need the clauses of an unassigned pivot.
  lemma UnitSpanned(s: State, l: Lit, k: nat, u: Clause, r: Formula)
    requires Live(s.db, k) && 0 !in s.db[k].lits && l !in s.vals && -l !in s.vals
    requires forall x :: x in s.db[k].lits ==> -x in s.vals || x in u
    ensures Entails(Base(s, l) + r, u) || l in u || -l in u
  {
    var f := Base(s, l) + r;
    assert -(-l) == l;
    if Free(s.db[k].lits, l) {
      LiveIn(s, l, k);
      forall m: Model | Models(m, f) ensures Sat(m, u) {
        assert Sat(m, LitsOf(s.db[k].lits));
        var x :| x in LitsOf(s.db[k].lits) && Holds(m, x);
        if -x in s.vals {
          assert {-x} in f;
          FalseIn(f, m, x);
        }
      }
    }
  }

  // ----- All pairs.

  ghost predicate PairAt(s: State, l: Lit, substitute: bool, c: nat, d: nat) {
    && Live(s.db, c) && Live(s.db, d) && l in s.db[c].lits && -l in s.db[d].lits
    && (substitute ==> s.db[c].gate != s.db[d].gate)
  }

  // The resolvents; with gates only those of a gate clause with another clause.
  ghost function Pairs(s: State, l: Lit, substitute: bool): Formula {
    iset c: nat, d: nat | PairAt(s, l, substitute, c, d) :: RE.Resolvent(LitsOf(s.db[c].lits), l, LitsOf(s.db[d].lits))
  }

  ghost function ResolventOf(s: State, l: Lit, c: nat, d: nat): Formula
    requires c < |s.db| && d < |s.db|
  {
    iset{RE.Resolvent(LitsOf(s.db[c].lits), l, LitsOf(s.db[d].lits))}
  }

  // Clauses of the pivot never change, so only pairs that were there at the start are resolved.
  lemma PairSpans(s0: State, s1: State, s2: State, l: Lit, substitute: bool, c: nat, d: nat)
    requires Moved(s0, s1, l, Pairs(s0, l, substitute))
    requires c < |s1.db| && d < |s1.db| && (s1.db[c].garbage || s1.db[d].garbage ==> s2 == s1)
    requires Live(s1.db, c) && Live(s1.db, d) ==> PairAt(s1, l, substitute, c, d)
    requires Moved(s1, s2, l, ResolventOf(s1, l, c, d))
    ensures Moved(s0, s2, l, Pairs(s0, l, substitute))
  {
    if s2 == s1 { return; }
    PairBefore(s0, s1, l, substitute, c, d);
    SpansMore(s1, s2, l, ResolventOf(s1, l, c, d), Pairs(s0, l, substitute));
    MovedTransitive(s0, s1, s2, l, Pairs(s0, l, substitute));
  }

  // Rows of pairs, one after the other.
  lemma RowSpans(s0: State, s1: State, s2: State, l: Lit, substitute: bool)
    requires Moved(s0, s1, l, Pairs(s0, l, substitute)) && Moved(s1, s2, l, Pairs(s1, l, substitute))
    ensures Moved(s0, s2, l, Pairs(s0, l, substitute))
  {
    forall r | r in Pairs(s1, l, substitute) ensures r in Pairs(s0, l, substitute) {
      var c: nat, d: nat :| PairAt(s1, l, substitute, c, d) && r == RE.Resolvent(LitsOf(s1.db[c].lits), l, LitsOf(s1.db[d].lits));
      PairBefore(s0, s1, l, substitute, c, d);
      assert r in ResolventOf(s1, l, c, d);
    }
    SpansMore(s1, s2, l, Pairs(s1, l, substitute), Pairs(s0, l, substitute));
    MovedTransitive(s0, s1, s2, l, Pairs(s0, l, substitute));
  }

  lemma ResolventFlipped(s: State, l: Lit, c: nat, d: nat)
    requires c < |s.db| && d < |s.db|
    ensures ResolventOf(s, -l, d, c) == ResolventOf(s, l, c, d)
  {
    assert -(-l) == l;
    var a, b := LitsOf(s.db[c].lits), LitsOf(s.db[d].lits);
    assert RE.Resolvent(b, -l, a) == RE.Resolvent(a, l, b);
  }

  // Nothing is claimed once the pivot is assigned.
  lemma SpansAssigned(s: State, s': State, l: Lit, r: Formula)
    requires l in s'.vals || -l in s'.vals
    ensures Spans(s, s', l, r)
  {
  }

  lemma PairBefore(s0: State, s1: State, l: Lit, substitute: bool, c: nat, d: nat)
    requires Kept(s0, s1, l) && PairAt(s1, l, substitute, c, d)
    ensures PairAt(s0, l, substitute, c, d) && ResolventOf(s1, l, c, d) <= Pairs(s0, l, substitute)
  {
    ClauseBefore(s0, s1, l, c);
    ClauseBefore(s0, s1, l, d);
    assert PairAt(s0, l, substitute, c, d);
  }

  lemma ClauseBefore(s0: State, s1: State, l: Lit, c: nat)
    requires Kept(s0, s1, l) && Live(s1.db, c) && !Free(s1.db[c].lits, l)
    ensures Live(s0.db, c) && s1.db[c] == s0.db[c]
  {
    KeptParts(s0, s1, l);
    if c >= |s0.db| {
      KeptNew(s0, s1, l, c);
    } else {
      KeptClause(s0, s1, l, c);
    }
  }

  // ----- After all pairs are resolved.

  // Without the pivot a clause follows only if it follows without its literal of the pivot.
  lemma PivotDropped(g: Formula, c: Clause, l: Lit, x: Lit)
    requires PE.PivotFree(g, l) && Entails(g, c) && l != 0 && (x == l || x == -l) && -x !in c && 0 !in c
    ensures Entails(g, c - {x})
  {
    forall m: Model | Models(m, g) ensures Sat(m, c - {x}) {
      PivotFreeModel(m, g, l, -x);
      var m' := Assign(m, -x);
      assert Sat(m', c);
      var y :| y in c && Holds(m', y);
      assert y != -x && y != x;
      assert Var(y) != Var(x) && Holds(m, y) && y in c - {x};
    }
  }

  // A pair that was resolved at the end: the resolvent follows.
  lemma PairFollows(s0: State, s: State, l: Lit, substitute: bool, c: nat, d: nat)
    requires Kept(s0, s, l) && PairAt(s0, l, substitute, c, d) && !s.unsat && l != 0 && l !in s.vals && -l !in s.vals
    requires c < |s.db| && d < |s.db|
    requires Live(s.db, c) && Live(s.db, d) ==> PairDone(s, c, l, d, substitute)
    requires 0 !in s0.db[c].lits && 0 !in s0.db[d].lits && -l !in s0.db[c].lits && l !in s0.db[d].lits
    ensures Entails(Base(s, l), RE.Resolvent(LitsOf(s0.db[c].lits), l, LitsOf(s0.db[d].lits)))
  {
    var a, b := LitsOf(s0.db[c].lits), LitsOf(s0.db[d].lits);
    KeptClause(s0, s, l, c);
    KeptClause(s0, s, l, d);
    BasePivotFree(s, l);
    if s.db[c].garbage {
      PivotDropped(Base(s, l), a, l, l);
      SubsetEntailed(Base(s, l), a - {l}, RE.Resolvent(a, l, b));
    } else if s.db[d].garbage {
      assert -(-l) == l;
      PivotDropped(Base(s, l), b, l, -l);
      SubsetEntailed(Base(s, l), b - {-l}, RE.Resolvent(a, l, b));
    }
  }

  // What is left has the same models as the clauses without the pivot and the resolvents.
  ghost predicate Exact(s0: State, l: Lit, substitute: bool, g: Formula) {
    var f := Base(s0, l) + Pairs(s0, l, substitute);
    EntailsAll(f, g) && EntailsAll(g, f)
  }

  lemma ExactResult(s0: State, s: State, l: Lit, substitute: bool, ps: seq<nat>, ns: seq<nat>)
    requires Moved(s0, s, l, Pairs(s0, l, substitute)) && !s.unsat && l != 0 && l !in s.vals && -l !in s.vals
    requires AllDone(s, ps, l, ns, |ps|, substitute) && Sides(s.db, ps, ns, l)
    requires forall k {:trigger s.db[k]} :: 0 <= k < |s.db| ==> 0 !in s.db[k].lits && !(l in s.db[k].lits && -l in s.db[k].lits)
    ensures Exact(s0, l, substitute, Base(s, l))
  {
    assert Look(0);
    KeptParts(s0, s, l);
    var f := Base(s0, l) + Pairs(s0, l, substitute);
    forall c | c in f ensures Entails(Base(s, l), c) {
      if c in Base(s0, l) {
        MemberEntailed(Base(s0, l), c);
        KeptBase(s0, s, l, c);
      } else {
        var i: nat, j: nat :| PairAt(s0, l, substitute, i, j) && c == RE.Resolvent(LitsOf(s0.db[i].lits), l, LitsOf(s0.db[j].lits));
        KeptClause(s0, s, l, i);
        KeptClause(s0, s, l, j);
        if Live(s.db, i) && Live(s.db, j) {
          DonePair(s, ps, l, ns, substitute, i, j);
        }
        PairFollows(s0, s, l, substitute, i, j);
      }
    }
  }
}
