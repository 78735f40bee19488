// Runs of inprocessing: any mix of the techniques, and the theorem that a single backward pass
// over everything that was pushed leads back to the original clauses.
//
// Irredundant and redundant clauses are kept apart.  Techniques that remove clauses only look at
// the irredundant ones; learned clauses survive such removals, although they may no longer follow
// from what remains, and are used to derive more.
module Runs {
  import opened Cnf
  import opened Extension
  import opened Reconstruction
  import PE = PivotElimination
  import CC = CoveredClauses
  import SU = Substitution

  datatype Clauses = Clauses(irr: Formula, red: Formula) {
    ghost function All(): Formula { irr + red }
  }

  datatype Technique =
    | Learn(c: Clause)                                    // a redundant clause
    | Promote(c: Clause)                                  // a unit, a resolvent, a subsuming clause
    | Forget(c: Clause)                                   // a redundant clause
    | Drop(c: Clause)                                     // an irredundant subsumed or satisfied clause
    | Block(lits: seq<Lit>, lit: Lit, id: nat)            // blocked clause, also by a pure literal
    | Condition(lits: seq<Lit>, wit: seq<Lit>, id: nat)   // globally blocked clause
    | Cover(c: Clause, steps: seq<CC.Step>, final: Clause)
    | Eliminate(ps: seq<PE.Stored>, ns: seq<PE.Stored>, pivot: Lit)
    | EliminateGate(pg: seq<PE.Stored>, ng: seq<PE.Stored>, po: seq<PE.Stored>, no: seq<PE.Stored>, pivot: Lit)
    | Substitute(es: seq<SU.Equivalence>, reprs: map<Lit, Lit>)
    | Round(entries: seq<Entry>)                               // a whole round of one of the procedures

  function Pushed(t: Technique): seq<Entry> {
    match t
    case Block(lits, lit, id) => [Entry([lit], lits, id)]
    case Condition(lits, wit, id) => [Entry(wit, lits, id)]
    case Cover(_, steps, _) => CC.Pushes(steps)
    case Eliminate(ps, ns, pivot) => PE.Push(ps, pivot) + PE.Push(ns, -pivot)
    case EliminateGate(pg, ng, _, _, pivot) => PE.Push(pg, pivot) + PE.Push(ng, -pivot)
    case Substitute(es, _) => SU.PushedAll(es)
    case Round(entries) => entries
    case _ => []
  }

  // What every technique keeps: models of the irredundant clauses can be extended backward, and
  // nothing is added that did not follow from all clauses.
  ghost predicate Step(s: Clauses, es: seq<Entry>, s': Clauses) {
    Reconstructs(s'.irr, es, s.irr) && EntailsAll(s.All(), s'.All())
  }

  // When a technique may lead from the clauses 's' to the clauses 's''.
  ghost predicate Legal(s: Clauses, t: Technique, s': Clauses) {
    match t
    case Learn(c) => Entails(s.All(), c) && s' == Clauses(s.irr, s.red + iset{c})
    case Promote(c) => c in s.red && s' == Clauses(s.irr + iset{c}, s.red - iset{c})
    case Forget(c) => s' == Clauses(s.irr, s.red - iset{c})
    case Substitute(es, reprs) =>
      && SU.Describes(es, reprs)
      && (forall c: Clause :: c in s.irr ==> 0 !in c && Entails(s'.irr, SU.ImageClause(reprs, c)))
      && EntailsAll(s.All(), s'.All())
    case Round(entries) => Step(s, entries, s')
    case _ => s'.red == s.red && Removes(s.irr, t, s'.irr)
  }

  // The techniques that remove irredundant clauses do not look at redundant ones.
  ghost predicate Removes(f: Formula, t: Technique, g: Formula) {
    match t
    case Drop(c) => g == f - iset{c} && Entails(g, c)
    case Block(lits, lit, id) =>
      && g == f - iset{LitsOf(lits)}
      && lit in lits && -lit !in lits && 0 !in lits && Blocked(g, LitsOf(lits), lit)
    case Condition(lits, wit, id) =>
      && g == f - iset{LitsOf(lits)}
      && 0 !in lits && Consistent(LitsOf(wit)) && (exists k :: k in lits && k in wit)
      && ConditionalAutarky(g, LitsOf(lits), LitsOf(wit))
    case Cover(c, steps, final) =>
      && |steps| > 0 && LitsOf(steps[0].lits) <= c && g == f - iset{c}
      && CC.Linked(g, steps) && CC.Ends(g, steps[|steps|-1], final)
    case Eliminate(ps, ns, pivot) =>
      && pivot != 0 && PE.Occurs(ps, pivot) && PE.Occurs(ns, -pivot) && PE.PivotFree(g, pivot)
      && f == g + PE.FormulaOf(ns) + PE.FormulaOf(ps)
      && PE.AllResolventsEntailed(g, ps, PE.FormulaOf(ns), pivot)
    case EliminateGate(pg, ng, po, no, pivot) =>
      && pivot != 0 && PE.PivotFree(g, pivot)
      && PE.Occurs(pg, pivot) && PE.Occurs(ng, -pivot) && PE.Occurs(po, pivot) && PE.Occurs(no, -pivot)
      && PE.Defines(g, PE.FormulaOf(pg) + PE.FormulaOf(ng), pivot)
      && PE.AllResolventsEntailed(g, po, PE.FormulaOf(ng), pivot)
      && PE.AllResolventsEntailed(g, pg, PE.FormulaOf(no), pivot)
      && f == g + PE.FormulaOf(pg) + PE.FormulaOf(ng) + PE.FormulaOf(po) + PE.FormulaOf(no)
    case _ => false
  }

  lemma Weaker(g: Formula, es: seq<Entry>, h: Formula, f: Formula)
    requires Reconstructs(g, es, h) && f <= h
    ensures Reconstructs(g, es, f)
  {
    forall m: Model | Models(m, g) ensures Models(Extend(m, es), f) {
      assert Models(Extend(m, es), h);
    }
  }

  lemma SingleClauseReconstructs(f: Formula, t: Technique, g: Formula)
    requires Removes(f, t, g) && (t.Block? || t.Condition? || t.Cover?)
    ensures Reconstructs(g, Pushed(t), f)
  {
    match t
    case Block(lits, lit, id) =>
      BlockedResolvents(g, LitsOf(lits), lit);
      PivotStep(g, lits, lit, id);
      Weaker(g, Pushed(t), g + iset{LitsOf(lits)}, f);
    case Condition(lits, wit, id) =>
      AutarkyStep(g, lits, wit, id);
      Weaker(g, Pushed(t), g + iset{LitsOf(lits)}, f);
    case Cover(c, steps, final) =>
      CC.CoveredReconstructs(g, steps, final);
      CC.SupersetReconstructs(g, Pushed(t), LitsOf(steps[0].lits), c);
      Weaker(g, Pushed(t), g + iset{c}, f);
  }

  // Every technique pushes what it takes to get back.
  lemma TechniqueReconstructs(f: Formula, t: Technique, g: Formula)
    requires Removes(f, t, g)
    ensures Reconstructs(g, Pushed(t), f)
  {
    match t
    case Drop(c) => ReconstructsNothing(g, f);
    case Block(_, _, _) => SingleClauseReconstructs(f, t, g);
    case Condition(_, _, _) => SingleClauseReconstructs(f, t, g);
    case Cover(_, _, _) => SingleClauseReconstructs(f, t, g);
    case Eliminate(ps, ns, pivot) => PE.EliminationReconstructs(g, ps, ns, pivot);
    case EliminateGate(pg, ng, po, no, pivot) => PE.GateEliminationReconstructs(g, pg, ng, po, no, pivot);
  }

  lemma MembersEntailed(f: Formula, g: Formula)
    requires g <= f
    ensures EntailsAll(f, g)
  {
    forall c | c in g ensures Entails(f, c) {
    }
  }

  // No technique loses a model that way, and none adds what did not follow.
  lemma TechniqueStep(s: Clauses, t: Technique, s': Clauses)
    requires Legal(s, t, s')
    ensures Step(s, Pushed(t), s')
  {
    match t
    case Learn(c) =>
      LessReconstructs(s.irr, s.irr);
      forall d | d in s'.All() ensures Entails(s.All(), d) {
        assert d == c || d in s.All();
      }
    case Promote(c) =>
      LessReconstructs(s'.irr, s.irr);
      MembersEntailed(s.All(), s'.All());
    case Forget(c) =>
      LessReconstructs(s'.irr, s.irr);
      MembersEntailed(s.All(), s'.All());
    case Substitute(es, reprs) => SU.SubstitutionReconstructs(s.irr, s'.irr, es, reprs);
    case Round(_) =>
    case _ =>
      TechniqueReconstructs(s.irr, t, s'.irr);
      MembersEntailed(s.All(), s'.All());
  }

  lemma LessReconstructs(f: Formula, g: Formula)
    requires g <= f
    ensures Reconstructs(f, [], g)
  {
    MembersEntailed(f, g);
    ReconstructsNothing(f, g);
  }

  lemma StepTransitive(s: Clauses, a: seq<Entry>, s': Clauses, b: seq<Entry>, s'': Clauses)
    requires Step(s, a, s') && Step(s', b, s'')
    ensures Step(s, a + b, s'')
  {
    ReconstructsTransitive(s.irr, a, s'.irr, b, s''.irr);
    forall c | c in s''.All() ensures Entails(s.All(), c) {
      EntailsTransitive(s.All(), s'.All(), c);
    }
  }

  ghost predicate LegalRun(ss: seq<Clauses>, ts: seq<Technique>) {
    |ss| == |ts| + 1 && forall i :: 0 <= i < |ts| ==> Legal(ss[i], ts[i], ss[i+1])
  }

  function PushedByRun(ts: seq<Technique>): seq<Entry> {
    if ts == [] then [] else PushedByRun(ts[..|ts|-1]) + Pushed(ts[|ts|-1])
  }

  // After any run, extending a model of the current irredundant clauses gives a model of the
  // original ones, and all current clauses follow from the original ones.
  lemma {:induction false} RunReconstructs(ss: seq<Clauses>, ts: seq<Technique>)
    requires LegalRun(ss, ts)
    ensures Reconstructs(ss[|ts|].irr, PushedByRun(ts), ss[0].irr)
    ensures EntailsAll(ss[0].All(), ss[|ts|].All())
    decreases |ts|
  {
    if ts == [] {
      LessReconstructs(ss[0].irr, ss[0].irr);
      MembersEntailed(ss[0].All(), ss[0].All());
    } else {
      var n := |ts| - 1;
      RunReconstructs(ss[..n+1], ts[..n]);
      TechniqueStep(ss[n], ts[n], ss[n+1]);
      StepTransitive(ss[0], PushedByRun(ts[..n]), ss[n], Pushed(ts[n]), ss[n+1]);
    }
  }

  // Without redundant clauses at the start: the original clauses, the current irredundant ones, and
  // all current clauses are all satisfiable or all unsatisfiable.
  lemma RunEquisatisfiable(ss: seq<Clauses>, ts: seq<Technique>)
    requires LegalRun(ss, ts) && ss[0].red == iset{}
    ensures Unsatisfiable(ss[0].irr) <==> Unsatisfiable(ss[|ts|].irr)
    ensures Unsatisfiable(ss[0].irr) <==> Unsatisfiable(ss[|ts|].All())
  {
    RunReconstructs(ss, ts);
    var s, s' := ss[0], ss[|ts|];
    assert s.All() == s.irr;
    forall m: Model ensures Models(m, s.irr) ==> Models(m, s'.All()) && Models(m, s'.irr) {
      if Models(m, s.irr) {
        forall c | c in s'.All() ensures Sat(m, c) {
          assert Entails(s.All(), c);
        }
      }
    }
    forall m: Model ensures Models(m, s'.irr) ==> Models(Extend(m, PushedByRun(ts)), s.irr) {
    }
    forall m: Model ensures Models(m, s'.All()) ==> Models(m, s'.irr) {
    }
  }

  // ----- Learned clauses outlive what they follow from.

  const Kept: Formula := iset{{-8, -7}, {-7, -1, -2, 9}, {2, 6}}

  const Learned: Clause := {8, -1, 9, 6}

  // The clause is learned, two clauses are blocked, the second one only since the learned clause is
  // ignored; in the end the learned clause does not follow from the irredundant clauses.
  lemma LearnedOutlives()
    ensures var f := Kept + iset{{1, 2}, {7, 8}};
            var ss := [Clauses(f, iset{}), Clauses(f, iset{Learned}), Clauses(f - iset{{7, 8}}, iset{Learned}), Clauses(f - iset{{7, 8}} - iset{{1, 2}}, iset{Learned})];
            && LegalRun(ss, [Learn(Learned), Block([7, 8], 8, 1), Block([1, 2], 1, 2)])
            && !Entails(ss[3].irr, Learned) && !Blocked(ss[3].All(), {1, 2}, 1)
  {
    var f := Kept + iset{{1, 2}, {7, 8}};
    assert f + iset{} == f && iset{} + iset{Learned} == iset{Learned};
    LearnedFollows();
    FirstBlocked();
    SecondBlocked();
    LearnedLost();
  }

  lemma FirstBlocked()
    ensures var f := Kept + iset{{1, 2}, {7, 8}}; Removes(f, Block([7, 8], 8, 1), f - iset{{7, 8}})
  {
    assert LitsOf([7, 8]) == {7, 8};
    assert Clashes({7, 8}, 8, {-8, -7}) by { assert 7 in {7, 8}; }
  }

  lemma SecondBlocked()
    ensures var f := Kept + iset{{1, 2}, {7, 8}} - iset{{7, 8}}; Removes(f, Block([1, 2], 1, 2), f - iset{{1, 2}})
  {
    assert LitsOf([1, 2]) == {1, 2};
    assert Clashes({1, 2}, 1, {-7, -1, -2, 9}) by { assert 2 in {1, 2}; }
  }

  lemma LearnedLost()
    ensures var s := Clauses(Kept + iset{{1, 2}, {7, 8}} - iset{{7, 8}} - iset{{1, 2}}, iset{Learned});
            !Entails(s.irr, Learned) && !Blocked(s.All(), {1, 2}, 1)
  {
    var m: Model := iset{1, 2};
    assert Holds(m, -8) && Holds(m, -7) && Holds(m, 2);
    assert -8 in {-8, -7} && -7 in {-7, -1, -2, 9} && 2 in {2, 6};
    assert Models(m, Kept) && !Sat(m, Learned);
    assert Kept + iset{{1, 2}, {7, 8}} - iset{{7, 8}} - iset{{1, 2}} == Kept;
    assert -1 in Learned && Learned in Kept + iset{Learned};
    assert !Clashes({1, 2}, 1, Learned);
  }

  lemma LearnedFollows()
    ensures Entails(Kept + iset{{1, 2}, {7, 8}}, Learned)
  {
    var f := Kept + iset{{1, 2}, {7, 8}};
    forall m: Model | Models(m, f) ensures Sat(m, Learned) {
      assert {2, 6} in f && {7, 8} in f && {-7, -1, -2, 9} in f;
      assert Sat(m, {2, 6}) && Sat(m, {7, 8}) && Sat(m, {-7, -1, -2, 9});
      assert Holds(m, 8) || Holds(m, -1) || Holds(m, 9) || Holds(m, 6);
      assert 8 in Learned && -1 in Learned && 9 in Learned && 6 in Learned;
    }
  }
}
