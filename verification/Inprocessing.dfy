// The procedures as steps of a run, and what extending an assignment at the end of a run achieves.
module Inprocessing {
  import opened Cnf
  import opened Runs
  import BL = Block
  import CD = Condition
  import CV = Covering
  import CO = Cover
  import EL = Elim
  import EX = Extension
  import GA = Gates
  import RE = Reconstruction
  import RS = Resolving
  import SB = Substituter
  import SU = Substitution
  import WA = Watching

  // Redundant clauses are not touched, and what is new follows from the irredundant ones.
  lemma IrredundantStep(f: Formula, es: seq<EX.Entry>, g: Formula, red: Formula)
    requires RE.Reconstructs(g, es, f) && EntailsAll(f, g)
    ensures Step(Clauses(f, red), es, Clauses(g, red))
  {
    var s, s' := Clauses(f, red), Clauses(g, red);
    forall c | c in s'.All() ensures Entails(s.All(), c) {
      if c in g {
        assert Entails(f, c);
        EntailsMonotone(f, s.All(), c);
      }
    }
  }

  // Blocked clause elimination on one literal.  The fixed literals 'units' have other variables.
  method BlockStep(b: BL.Blocker, lit: Lit, negative: nat, positive: nat, occLimit: nat, ghost units: Formula, ghost red: Formula)
    returns (ghost es: seq<EX.Entry>)
    requires b.Valid() && b.marks == {} && b.candidates == [] && lit != 0 && RE.Free(units, lit)
    requires (negative == 0 <==> !BL.SomeNegative(b.db, lit)) && (negative == 1 ==> BL.OneNegative(b.db, lit))
    requires positive == 0 ==> forall k: nat {:trigger BL.Live(b.db, k)} :: BL.Live(b.db, k) ==> lit !in b.db[k].lits
    modifies b
    ensures b.extension == old(b.extension) + EX.EncodeAll(es)
    ensures Step(Clauses(BL.Irredundant(old(b.db)) + units, red), es, Clauses(BL.Irredundant(b.db) + units, red))
  {
    es := b.BlockLiteral(lit, negative, positive, occLimit);
    RE.FrameReconstructs(BL.Irredundant(b.db), es, BL.Irredundant(old(b.db)), units, lit);
    MembersEntailed(BL.Irredundant(old(b.db)) + units, BL.Irredundant(b.db) + units);
    IrredundantStep(BL.Irredundant(old(b.db)) + units, es, BL.Irredundant(b.db) + units, red);
  }

  // One candidate of covered clause elimination.
  method CoverStep(v: CO.Coveror, c: nat, proof: bool, ghost red: Formula) returns (ghost es: seq<EX.Entry>)
    requires v.Valid() && c < |v.db| && v.db[c].live
    modifies v
    ensures v.extension == old(v.extension) + EX.EncodeAll(es)
    ensures Step(Clauses(CV.Remaining(old(v.db), |old(v.db)|, v.root), red), es, Clauses(CV.Remaining(v.db, |v.db|, v.root), red))
  {
    ghost var db0 := v.db;
    var tautological := v.CoverClause(c, proof);
    es := CoverEntries(db0, v.db, c, v.root, old(v.extension), v.extension);
    IrredundantStep(CV.Remaining(db0, |db0|, v.root), es, CV.Remaining(v.db, |v.db|, v.root), red);
  }

  // What is left when the candidate is removed, and what it takes to get it back.
  lemma CoverEntries(db0: WA.Db, db: WA.Db, c: nat, root: seq<Lit>, extension0: seq<int>, extension: seq<int>) returns (es: seq<EX.Entry>)
    requires c < |db0| == |db| && db0[c].live
    requires forall k :: 0 <= k < |db| ==> LitsOf(db[k].lits) == LitsOf(db0[k].lits) && (k != c ==> db[k].live == db0[k].live)
    requires extension != extension0 ==> !db[c].live && CO.Eliminated(CV.Remaining(db0, c, root), LitsOf(db0[c].lits), extension0, extension)
    requires extension == extension0 ==> db[c].live || exists l :: l in db0[c].lits && l in root
    ensures extension == extension0 + EX.EncodeAll(es)
    ensures var f, g := CV.Remaining(db0, |db0|, root), CV.Remaining(db, |db|, root); RE.Reconstructs(g, es, f) && EntailsAll(f, g)
  {
    var f, g, h := CV.Remaining(db0, |db0|, root), CV.Remaining(db, |db|, root), CV.Remaining(db0, c, root);
    OneLess(db0, db, c, root);
    MembersEntailed(f, g);
    if extension != extension0 {
      es :| es != [] && extension == extension0 + EX.EncodeAll(es) && RE.Reconstructs(h, es, h + iset{LitsOf(db0[c].lits)});
      Weaker(g, es, h + iset{LitsOf(db0[c].lits)}, f);
    } else {
      es := [];
      if !db[c].live {
        SatisfiedFollows(h, LitsOf(db0[c].lits), root);
      }
      forall d | d in f ensures Entails(g, d) {
      }
      RE.ReconstructsNothing(g, f);
    }
  }

  lemma OneLess(db0: WA.Db, db: WA.Db, c: nat, root: seq<Lit>)
    requires c < |db0| == |db| && db0[c].live
    requires forall k :: 0 <= k < |db| ==> LitsOf(db[k].lits) == LitsOf(db0[k].lits) && (k != c ==> db[k].live == db0[k].live)
    ensures var f, g, h := CV.Remaining(db0, |db0|, root), CV.Remaining(db, |db|, root), CV.Remaining(db0, c, root);
            f == h + iset{LitsOf(db0[c].lits)} && g == if db[c].live then f else h
  {
    var f, g, h := CV.Remaining(db0, |db0|, root), CV.Remaining(db, |db|, root), CV.Remaining(db0, c, root);
    assert CV.Remains(db0, |db0|, c);
    forall k: nat ensures CV.Remains(db0, |db0|, k) <==> CV.Remains(db0, c, k) || k == c {
    }
    forall k: nat ensures CV.Remains(db, |db|, k) <==> CV.Remains(db0, c, k) || (k == c && db[c].live) {
    }
    forall d ensures d in f <==> d in h || d == LitsOf(db0[c].lits) {
      if k: nat :| CV.Remains(db0, c, k) && d == LitsOf(db0[k].lits) {
        assert CV.Remains(db0, |db0|, k);
      }
    }
    forall d ensures d in g <==> d in h || (d == LitsOf(db0[c].lits) && db[c].live) {
      if k: nat :| CV.Remains(db0, c, k) && d == LitsOf(db0[k].lits) {
        assert CV.Remains(db, |db|, k) && d == LitsOf(db[k].lits);
      }
      if db[c].live {
        assert CV.Remains(db, |db|, c);
      }
      if k: nat :| CV.Remains(db, |db|, k) && d == LitsOf(db[k].lits) {
        assert k != c ==> CV.Remains(db0, c, k) && d == LitsOf(db0[k].lits);
      }
    }
  }

  lemma SatisfiedFollows(f: Formula, c: Clause, root: seq<Lit>)
    requires (exists l :: l in c && l in root) && forall l :: l in root ==> {l} in f
    ensures Entails(f, c)
  {
    var l :| l in c && l in root;
    forall m: Model | Models(m, f) ensures Sat(m, c) {
      assert {l} in f && Sat(m, {l});
      assert Holds(m, l);
    }
  }

  // A round of globally blocked clause elimination.
  method ConditionStep(d: CD.Conditioner, phase: nat -> bool, limit: nat, reasons: set<nat>, ghost red: Formula)
    returns (ghost es: seq<EX.Entry>)
    requires d.Clear() && CD.Clean(d.db) && d.vals == LitsOf(d.trail) && CD.ConsistentSet(d.vals) && d.root <= d.vals
    requires forall l :: l in d.vals ==> Var(l) <= d.maxVar
    modifies d
    ensures d.extension == old(d.extension) + EX.EncodeAll(es)
    ensures Step(Clauses(CD.All(old(d.db), d.root), red), es, Clauses(CD.All(d.db, d.root), red))
  {
    var blocked;
    ghost var base;
    blocked, es, base := d.ConditionRound(phase, limit, reasons);
    MembersEntailed(CD.All(old(d.db), d.root), CD.All(d.db, d.root));
    IrredundantStep(CD.All(old(d.db), d.root), es, CD.All(d.db, d.root), red);
  }

  // Elimination of one variable.  Clauses that may be taken for gate clauses have to be cleaned before.
  method EliminateStep(f: GA.GateFinder, pivot: Lit, occLimit: nat, elimBound: int, sizeLimit: int, arityLimit: nat, ghost red: Formula)
    returns (success: bool, ghost es: seq<EX.Entry>)
    requires f.Ready() && f.Unmarked() && f.gates == [] && f.e.clause == [] && f.e.marks == {} && !f.e.unsat && pivot != 0
    requires GA.Tidy(f.e.db, f.e.vals, pivot)
    modifies f, f.e
    ensures f.e.extension == old(f.e.extension) + EX.EncodeAll(es)
    ensures Step(Clauses(RS.Meaning(old(f.e.Now())), red), es, Clauses(RS.Meaning(f.e.Now()), red))
  {
    ghost var at, found;
    success, es, at, found := f.TryToEliminateVariable(pivot, occLimit, elimBound, sizeLimit, arityLimit);
    IrredundantStep(RS.Meaning(old(f.e.Now())), es, RS.Meaning(f.e.Now()), red);
  }

  ghost function Split(s: SB.State): Clauses {
    Clauses(SB.Meaning(s, false), SB.Meaning(s, true))
  }

  // Substitution by representatives rewrites all clauses.
  method SubstituteStep(u: SB.Substituter) returns (ghost es: seq<SU.Equivalence>)
    requires !u.unsat && u.marks == {} && u.clause == [] && u.postponed == []
    requires SB.Representatives(u.reprs) && (forall l {:trigger l in u.reprs} :: l in u.reprs ==> 0 < Var(l) <= u.maxVar)
    requires SB.FixedReprs(u.reprs, u.vals) && SU.EquivalencesHold(SB.Meaning(u.Now(), true), u.reprs)
    requires forall k {:trigger u.db[k]} :: 0 <= k < |u.db| && !u.db[k].garbage ==> SB.Covered(u.reprs, u.vals, u.db[k].lits)
    modifies u
    ensures u.extension == old(u.extension) + EX.EncodeAll(SU.PushedAll(es))
    ensures Step(Split(old(u.Now())), SU.PushedAll(es), Split(u.Now()))
  {
    es := u.Substitute();
    SplitAll(old(u.Now()));
    SplitAll(u.Now());
  }

  lemma SplitAll(s: SB.State)
    ensures Split(s).All() == SB.Meaning(s, true)
  {
    forall c | c in SB.Meaning(s, false) ensures c in SB.Meaning(s, true) {
      if k: nat :| SB.Counted(s.db, false, k) && c == LitsOf(s.db[k].lits) {
        assert SB.Counted(s.db, true, k);
      }
    }
  }

  // ----- The end of a run.

  // The literal is true under the internal value of the variable it is mapped to.
  predicate MappedTrue(l: Lit, maxVar: nat, e2i: seq<Lit>, internal: Lit -> int)
    requires |e2i| > maxVar
  {
    0 < Var(l) <= maxVar && e2i[Var(l)] != 0 && if l > 0 then internal(e2i[Var(l)]) > 0 else internal(e2i[Var(l)]) <= 0
  }

  // The internal values satisfy all clauses.
  ghost predicate Solved(f: Formula, maxVar: nat, e2i: seq<Lit>, internal: Lit -> int)
    requires |e2i| > maxVar
  {
    forall c: Clause {:trigger c in f} :: c in f ==> exists l :: l in c && MappedTrue(l, maxVar, e2i, internal)
  }

  lemma SolvedModel(f: Formula, m: Model, maxVar: nat, e2i: seq<Lit>, internal: Lit -> int)
    requires |e2i| > maxVar && Solved(f, maxVar, e2i, internal)
    ensures Models(EX.MappedModel(m, maxVar, e2i, internal), f)
  {
    forall c | c in f ensures Sat(EX.MappedModel(m, maxVar, e2i, internal), c) {
      var l :| l in c && MappedTrue(l, maxVar, e2i, internal);
      assert Holds(EX.MappedModel(m, maxVar, e2i, internal), l);
    }
  }

  // Extending the values that satisfy the current irredundant clauses over the stack of the whole run
  // gives values that satisfy the original clauses.
  method ExtendRun(extension: seq<int>, maxVar: nat, vals: seq<bool>, e2i: seq<Lit>, internal: Lit -> int,
                   ghost ss: seq<Clauses>, ghost ts: seq<Technique>) returns (x: EX.External)
    requires LegalRun(ss, ts) && extension == EX.EncodeAll(PushedByRun(ts))
    requires forall e {:trigger e in PushedByRun(ts)} :: e in PushedByRun(ts) ==>
               EX.Proper(e) && forall l :: l in e.wit || l in e.clause ==> Var(l) <= maxVar
    requires |e2i| > maxVar && Solved(ss[|ts|].irr, maxVar, e2i, internal)
    ensures fresh(x) && Models(EX.ModelOf(x.vals), ss[0].irr)
  {
    x := new EX.External.Resume(maxVar, extension, vals, PushedByRun(ts));
    SolvedModel(ss[|ts|].irr, EX.ModelOf(vals), maxVar, e2i, internal);
    RunReconstructs(ss, ts);
    x.ExtendAssignment(e2i, internal);
  }
}
