// Variable elimination, with and without gates: why pushing the clauses of the pivot (or only
// its gate clauses) is enough to reconstruct every eliminated clause.
module PivotElimination {
  import opened Cnf
  import opened Extension
  import opened Reconstruction

  datatype Stored = Stored(lits: seq<Lit>, id: nat)

  ghost function FormulaOf(cs: seq<Stored>): Formula {
    iset i | 0 <= i < |cs| :: LitsOf(cs[i].lits)
  }

  function Push(cs: seq<Stored>, pivot: Lit): (es: seq<Entry>)
    ensures |es| == |cs|
    ensures forall i :: 0 <= i < |cs| ==> es[i] == Entry([pivot], cs[i].lits, cs[i].id)
  {
    seq(|cs|, i requires 0 <= i < |cs| => Entry([pivot], cs[i].lits, cs[i].id))
  }

  ghost predicate Occurs(cs: seq<Stored>, l: Lit) {
    forall c :: c in cs ==> l in c.lits && -l !in c.lits && 0 !in c.lits
  }

  ghost predicate AllResolventsEntailed(g: Formula, ps: seq<Stored>, ns: Formula, l: Lit) {
    forall c, d :: c in ps && d in ns && -l in d ==> Entails(g, Resolvent(LitsOf(c.lits), l, d))
  }

  // Remove the clauses with 'l' one after the other.
  lemma {:induction false} RemoveOccurrences(g: Formula, ps: seq<Stored>, l: Lit)
    requires l != 0 && Occurs(ps, l)
    requires AllResolventsEntailed(g, ps, g, l)
    ensures Reconstructs(g, Push(ps, l), g + FormulaOf(ps))
    decreases |ps|
  {
    if ps == [] {
      assert g + FormulaOf(ps) == g;
      assert Push(ps, l) == [];
      ReconstructsNothing(g, g);
    } else {
      var c, rest := ps[0], ps[1..];
      assert forall d :: d in rest ==> d in ps;
      RemoveOccurrences(g, rest, l);
      var h := g + FormulaOf(rest);
      RemoveOne(g, c, rest, l);
      assert h + iset{LitsOf(c.lits)} == g + FormulaOf(ps) by {
        FormulaCons(ps);
      }
      assert Push(ps, l) == [Entry([l], c.lits, c.id)] + Push(rest, l);
      ReconstructsTransitive(g + FormulaOf(ps), [Entry([l], c.lits, c.id)], h, Push(rest, l), g);
    }
  }

  lemma FormulaCons(ps: seq<Stored>)
    requires |ps| > 0
    ensures FormulaOf(ps) == FormulaOf(ps[1..]) + iset{LitsOf(ps[0].lits)}
  {
    forall c | c in FormulaOf(ps) ensures c in FormulaOf(ps[1..]) + iset{LitsOf(ps[0].lits)} {
      var i :| 0 <= i < |ps| && c == LitsOf(ps[i].lits);
      if i > 0 {
        assert ps[1..][i-1] == ps[i];
      }
    }
    forall c | c in FormulaOf(ps[1..]) ensures c in FormulaOf(ps) {
      var i :| 0 <= i < |ps[1..]| && c == LitsOf(ps[1..][i].lits);
      assert ps[i+1] == ps[1..][i];
    }
  }

  lemma OccursOneSide(cs: seq<Stored>, l: Lit)
    requires Occurs(cs, l)
    ensures forall d :: d in FormulaOf(cs) ==> l in d && -l !in d && 0 !in d
  {
    forall d | d in FormulaOf(cs) ensures l in d && -l !in d && 0 !in d {
      var i :| 0 <= i < |cs| && d == LitsOf(cs[i].lits);
      assert cs[i] in cs;
    }
  }

  lemma RemoveOne(g: Formula, c: Stored, rest: seq<Stored>, l: Lit)
    requires l != 0 && Occurs([c] + rest, l)
    requires AllResolventsEntailed(g, [c] + rest, g, l)
    ensures var h := g + FormulaOf(rest);
            Reconstructs(h, [Entry([l], c.lits, c.id)], h + iset{LitsOf(c.lits)})
  {
    var h := g + FormulaOf(rest);
    assert c in [c] + rest && forall r :: r in rest ==> r in [c] + rest;
    OccursOneSide(rest, l);
    forall d: Clause | d in h && -l in d ensures Entails(h, Resolvent(LitsOf(c.lits), l, d)) {
      EntailsMonotone(g, h, Resolvent(LitsOf(c.lits), l, d));
    }
    PivotStep(h, c.lits, l, c.id);
  }

  ghost predicate PivotFree(g: Formula, l: Lit) {
    forall d :: d in g ==> l !in d && -l !in d
  }

  // Bounded variable elimination: the positive clauses are pushed first, then the negative ones.
  lemma EliminationReconstructs(g: Formula, ps: seq<Stored>, ns: seq<Stored>, l: Lit)
    requires l != 0 && Occurs(ps, l) && Occurs(ns, -l) && PivotFree(g, l)
    requires AllResolventsEntailed(g, ps, FormulaOf(ns), l)
    ensures Reconstructs(g, Push(ps, l) + Push(ns, -l), g + FormulaOf(ns) + FormulaOf(ps))
  {
    RemoveOccurrences(g, ns, -l);
    var h := g + FormulaOf(ns);
    forall c, d | c in ps && d in h && -l in d ensures Entails(h, Resolvent(LitsOf(c.lits), l, d)) {
      EntailsMonotone(g, h, Resolvent(LitsOf(c.lits), l, d));
    }
    RemoveOccurrences(h, ps, l);
    ReconstructsTransitive(h + FormulaOf(ps), Push(ps, l), h, Push(ns, -l), g);
  }

  // Elimination adds nothing that did not follow: resolvents are entailed by their antecedents.
  lemma ResolventSound(c: Clause, l: Lit, d: Clause, m: Model)
    requires l != 0 && Sat(m, c) && Sat(m, d)
    ensures Sat(m, Resolvent(c, l, d))
  {
    var k :| k in c && Holds(m, k);
    var q :| q in d && Holds(m, q);
    if k != l {
      assert k in Resolvent(c, l, d);
    } else {
      assert q in Resolvent(c, l, d);
    }
  }

  // ----- Gates.

  // Under 'g' the gate clauses fix the value of 'l': exactly one of its values satisfies them.
  ghost predicate Defines(g: Formula, gates: Formula, l: Lit) {
    forall m: Model :: Models(m, g) ==>
      (Models(Assign(m, l), gates) <==> !Models(Assign(m, -l), gates))
  }

  lemma AssignTwice(m: Model, l: Lit)
    requires l != 0 && Holds(m, l)
    ensures Assign(m, l) == m
  {
  }

  // A clause that is not part of the gate follows from the gate and its resolvents with it.
  lemma NonGateEntailed(g: Formula, gates: Formula, l: Lit, c: Clause)
    requires l != 0 && l in c && Defines(g, gates, l)
    requires forall d :: d in gates && -l in d ==> Entails(g, Resolvent(c, l, d))
    ensures Entails(g + gates, c)
  {
    forall m: Model | Models(m, g + gates) ensures Sat(m, c) {
      assert Models(m, g) && Models(m, gates);
      if !Sat(m, c) {
        assert !Holds(m, l) && Holds(m, -l);
        AssignTwice(m, -l);
        forall d | d in gates ensures Sat(Assign(m, l), d) {
          GateClauseKept(g, c, l, d, m);
        }
        assert Models(Assign(m, l), gates);
        assert false;
      }
    }
  }

  lemma GateClauseKept(g: Formula, c: Clause, l: Lit, d: Clause, m: Model)
    requires l != 0 && l in c && Models(m, g) && !Sat(m, c) && Sat(m, d)
    requires -l in d ==> Entails(g, Resolvent(c, l, d))
    ensures Sat(Assign(m, l), d)
  {
    if -l in d {
      var k :| k in Resolvent(c, l, d) && Holds(m, k);
      FlipKeeps(m, l, d, k);
    } else {
      var k :| k in d && Holds(m, k);
      FlipKeeps(m, l, d, k);
    }
  }

  // Resolving two gate clauses gives nothing: the gate has a value in every case.
  lemma GateResolventValid(g: Formula, gates: Formula, l: Lit, c: Clause, d: Clause)
    requires l != 0 && Defines(g, gates, l) && c in gates && d in gates
    requires -l !in c && l !in d
    ensures Entails(g, Resolvent(c, l, d))
  {
    forall m: Model | Models(m, g) ensures Sat(m, Resolvent(c, l, d)) {
      if Models(Assign(m, l), gates) {
        GateSide(m, l, d);
      } else {
        GateSide(m, -l, c);
      }
    }
  }

  lemma GateSide(m: Model, l: Lit, d: Clause)
    requires l != 0 && Sat(Assign(m, l), d) && l !in d
    ensures Sat(m, d - {-l})
  {
    var k :| k in d && Holds(Assign(m, l), k);
    assert k != -l && Var(k) != Var(l);
    assert k in d - {-l};
  }

  // Elimination of a defined pivot.  Only the gate clauses are pushed, and only resolvents of a
  // gate clause with a clause outside the gate need to follow from what remains.
  lemma GateEliminationReconstructs(
    g: Formula, pg: seq<Stored>, ng: seq<Stored>, po: seq<Stored>, no: seq<Stored>, l: Lit)
    requires l != 0 && PivotFree(g, l)
    requires Occurs(pg, l) && Occurs(ng, -l) && Occurs(po, l) && Occurs(no, -l)
    requires Defines(g, FormulaOf(pg) + FormulaOf(ng), l)
    requires AllResolventsEntailed(g, po, FormulaOf(ng), l)
    requires AllResolventsEntailed(g, pg, FormulaOf(no), l)
    ensures Reconstructs(g, Push(pg, l) + Push(ng, -l),
                         g + FormulaOf(pg) + FormulaOf(ng) + FormulaOf(po) + FormulaOf(no))
  {
    var gates := FormulaOf(pg) + FormulaOf(ng);
    OccursOneSide(pg, l);
    OccursOneSide(ng, -l);
    GateClausesResolve(g, pg, ng, l);
    EliminationReconstructs(g, pg, ng, l);
    assert g + FormulaOf(ng) + FormulaOf(pg) == g + gates;
    var all := g + FormulaOf(pg) + FormulaOf(ng) + FormulaOf(po) + FormulaOf(no);
    OthersEntailed(g, pg, ng, po, no, l);
    ReconstructsNothing(g + gates, all);
    ReconstructsTransitive(all, [], g + gates, Push(pg, l) + Push(ng, -l), g);
    assert [] + (Push(pg, l) + Push(ng, -l)) == Push(pg, l) + Push(ng, -l);
  }

  lemma GateClausesResolve(g: Formula, pg: seq<Stored>, ng: seq<Stored>, l: Lit)
    requires l != 0 && Occurs(pg, l) && Occurs(ng, -l)
    requires Defines(g, FormulaOf(pg) + FormulaOf(ng), l)
    ensures AllResolventsEntailed(g, pg, FormulaOf(ng), l)
  {
    OccursOneSide(ng, -l);
    forall c, d | c in pg && d in FormulaOf(ng) && -l in d ensures Entails(g, Resolvent(LitsOf(c.lits), l, d)) {
      assert LitsOf(c.lits) in FormulaOf(pg);
      GateResolventValid(g, FormulaOf(pg) + FormulaOf(ng), l, LitsOf(c.lits), d);
    }
  }

  lemma OthersEntailed(g: Formula, pg: seq<Stored>, ng: seq<Stored>, po: seq<Stored>, no: seq<Stored>, l: Lit)
    requires l != 0 && Occurs(pg, l) && Occurs(ng, -l) && Occurs(po, l) && Occurs(no, -l)
    requires Defines(g, FormulaOf(pg) + FormulaOf(ng), l)
    requires AllResolventsEntailed(g, po, FormulaOf(ng), l)
    requires AllResolventsEntailed(g, pg, FormulaOf(no), l)
    ensures EntailsAll(g + (FormulaOf(pg) + FormulaOf(ng)),
                       g + FormulaOf(pg) + FormulaOf(ng) + FormulaOf(po) + FormulaOf(no))
  {
    var gates := FormulaOf(pg) + FormulaOf(ng);
    OccursOneSide(pg, l);
    OccursOneSide(ng, -l);
    forall c | c in FormulaOf(po) ensures Entails(g + gates, c) {
      var i :| 0 <= i < |po| && c == LitsOf(po[i].lits);
      assert po[i] in po;
      NonGateEntailed(g, gates, l, c);
    }
    forall d | d in FormulaOf(no) ensures Entails(g + gates, d) {
      NegativeOther(g, pg, ng, no, l, d);
    }
    forall c | c in g + gates ensures Entails(g + gates, c) {
    }
  }

  lemma NegativeOther(g: Formula, pg: seq<Stored>, ng: seq<Stored>, no: seq<Stored>, l: Lit, d: Clause)
    requires l != 0 && Occurs(pg, l) && Occurs(ng, -l) && Occurs(no, -l)
    requires Defines(g, FormulaOf(pg) + FormulaOf(ng), l)
    requires AllResolventsEntailed(g, pg, FormulaOf(no), l)
    requires d in FormulaOf(no)
    ensures Entails(g + (FormulaOf(pg) + FormulaOf(ng)), d)
  {
    var gates := FormulaOf(pg) + FormulaOf(ng);
    OccursOneSide(ng, -l);
    OccursOneSide(no, -l);
    assert -(-l) == l;
    assert Defines(g, gates, -l);
    forall c | c in gates && -(-l) in c ensures Entails(g, Resolvent(d, -l, c)) {
      var i :| 0 <= i < |pg| && c == LitsOf(pg[i].lits);
      assert pg[i] in pg;
      assert Resolvent(d, -l, c) == Resolvent(c, l, d);
    }
    NonGateEntailed(g, gates, -l, d);
  }
}
