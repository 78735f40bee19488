// Why covered clause elimination is allowed.
module CoveredClauses {
  import opened Cnf
  import opened Extension
  import opened Reconstruction

  // In every model of 'f' that falsifies the covered literals all added literals are false.
  ghost predicate Forced(f: Formula, covered: Clause, added: Clause) {
    forall m: Model, a: Lit :: Models(m, f) && !Sat(m, covered) && a in added ==> !Holds(m, a)
  }

  // Another literal of the resolution candidate 'd' is true when the added literals are false.
  ghost predicate DoubleSatisfied(d: Clause, lit: Lit, added: Clause) {
    exists k :: k in d && k != -lit && k != 0 && -k in added
  }

  // A covered literal addition on 'lit': every resolution candidate is satisfied anyhow or has
  // all literals that the step adds.
  ghost predicate Covers(f: Formula, lit: Lit, covered: Clause, added: Clause, next: Clause) {
    && lit in covered && lit != 0 && -lit !in next
    && Forced(f, covered, added)
    && forall d: Clause :: d in f && -lit in d ==> DoubleSatisfied(d, lit, added) || next - covered <= d
  }

  // The extended clause is blocked on 'lit'.
  ghost predicate BlockedUnder(f: Formula, lit: Lit, covered: Clause, added: Clause) {
    && lit in covered && lit != 0
    && Forced(f, covered, added)
    && forall d: Clause :: d in f && -lit in d ==> DoubleSatisfied(d, lit, added)
  }

  lemma FlipCovered(f: Formula, lit: Lit, covered: Clause, added: Clause, m: Model, d: Clause)
    requires Models(m, f) && !Sat(m, covered) && d in f && lit != 0
    requires Forced(f, covered, added)
    requires -lit in d ==> DoubleSatisfied(d, lit, added) || exists k :: k in d && k != -lit && Holds(m, k)
    ensures Sat(Assign(m, lit), d)
  {
    if -lit in d {
      if DoubleSatisfied(d, lit, added) {
        var k :| k in d && k != -lit && k != 0 && -k in added;
        assert !Holds(m, -k);
        FlipKeeps(m, lit, d, k);
      } else {
        var k :| k in d && k != -lit && Holds(m, k);
        FlipKeeps(m, lit, d, k);
      }
    } else {
      var k :| k in d && Holds(m, k);
      FlipKeeps(m, lit, d, k);
    }
  }

  // One entry of the private stack: it turns the next covered clause into the one before.
  lemma CoverStep(f: Formula, lit: Lit, lits: seq<Lit>, id: nat, added: Clause, next: Clause)
    requires Covers(f, lit, LitsOf(lits), added, next)
    ensures Reconstructs(f + iset{next}, [Entry([lit], lits, id)], f + iset{LitsOf(lits)})
  {
    var e, c := Entry([lit], lits, id), LitsOf(lits);
    forall m: Model | Models(m, f + iset{next}) ensures Models(Extend(m, [e]), f + iset{c}) {
      SingleEntry(m, e);
      assert Models(m, f) && Sat(m, next);
      if !Sat(m, c) {
        AssignSingle(m, lit);
        var q :| q in next && Holds(m, q);
        assert q in next - c;
        forall d | d in f ensures Sat(Assign(m, lit), d) {
          FlipCovered(f, lit, c, added, m, d);
        }
      }
    }
  }

  lemma BlockedStep(f: Formula, lit: Lit, lits: seq<Lit>, id: nat, added: Clause)
    requires BlockedUnder(f, lit, LitsOf(lits), added)
    ensures Reconstructs(f, [Entry([lit], lits, id)], f + iset{LitsOf(lits)})
  {
    var e, c := Entry([lit], lits, id), LitsOf(lits);
    forall m: Model | Models(m, f) ensures Models(Extend(m, [e]), f + iset{c}) {
      SingleEntry(m, e);
      if !Sat(m, c) {
        AssignSingle(m, lit);
        forall d | d in f ensures Sat(Assign(m, lit), d) {
          FlipCovered(f, lit, c, added, m, d);
        }
      }
    }
  }

  // ----- A whole covered clause elimination.

  datatype Step = Step(lit: Lit, lits: seq<Lit>, id: nat, added: Clause)

  function Pushes(steps: seq<Step>): (es: seq<Entry>)
    ensures |es| == |steps|
    ensures forall i :: 0 <= i < |steps| ==> es[i] == Entry([steps[i].lit], steps[i].lits, steps[i].id)
  {
    seq(|steps|, i requires 0 <= i < |steps| => Entry([steps[i].lit], steps[i].lits, steps[i].id))
  }

  // Each step covers into the clause of the following one.
  ghost predicate Linked(f: Formula, steps: seq<Step>) {
    forall i :: 0 <= i < |steps| - 1 ==>
      Covers(f, steps[i].lit, LitsOf(steps[i].lits), steps[i].added, LitsOf(steps[i+1].lits))
  }

  // The elimination ends with a subsumed or with a blocked extended clause.
  ghost predicate Ends(f: Formula, last: Step, final: Clause) {
    || BlockedUnder(f, last.lit, LitsOf(last.lits), last.added)
    || (Covers(f, last.lit, LitsOf(last.lits), last.added, final) && Entails(f, final))
  }

  lemma {:induction false} CoveredReconstructs(f: Formula, steps: seq<Step>, final: Clause)
    requires |steps| > 0 && Linked(f, steps) && Ends(f, steps[|steps|-1], final)
    ensures Reconstructs(f, Pushes(steps), f + iset{LitsOf(steps[0].lits)})
    decreases |steps|
  {
    var s, e := steps[0], Entry([steps[0].lit], steps[0].lits, steps[0].id);
    if |steps| == 1 {
      assert Pushes(steps) == [e];
      LastReconstructs(f, s, final);
    } else {
      assert Linked(f, steps[1..]) by {
        assert forall i :: 0 <= i < |steps| - 1 ==> steps[1..][i] == steps[i+1];
      }
      CoveredReconstructs(f, steps[1..], final);
      var next := LitsOf(steps[1].lits);
      CoverStep(f, s.lit, s.lits, s.id, s.added, next);
      ReconstructsTransitive(f + iset{LitsOf(s.lits)}, [e], f + iset{next}, Pushes(steps[1..]), f);
      assert Pushes(steps) == [e] + Pushes(steps[1..]);
    }
  }

  lemma LastReconstructs(f: Formula, s: Step, final: Clause)
    requires Ends(f, s, final)
    ensures Reconstructs(f, [Entry([s.lit], s.lits, s.id)], f + iset{LitsOf(s.lits)})
  {
    if BlockedUnder(f, s.lit, LitsOf(s.lits), s.added) {
      BlockedStep(f, s.lit, s.lits, s.id, s.added);
    } else {
      var e := Entry([s.lit], s.lits, s.id);
      CoverStep(f, s.lit, s.lits, s.id, s.added, final);
      assert EntailsAll(f, f + iset{final});
      ReconstructsNothing(f, f + iset{final});
      ReconstructsTransitive(f + iset{LitsOf(s.lits)}, [e], f + iset{final}, [], f);
      assert [e] + [] == [e];
    }
  }

  // A clause with more literals is satisfied as well.
  lemma SupersetReconstructs(f: Formula, es: seq<Entry>, c: Clause, d: Clause)
    requires Reconstructs(f, es, f + iset{c}) && c <= d
    ensures Reconstructs(f, es, f + iset{d})
  {
    forall m: Model | Models(m, f) ensures Models(Extend(m, es), f + iset{d}) {
      var m' := Extend(m, es);
      assert Models(m', f + iset{c}) && Sat(m', c);
      var k :| k in c && Holds(m', k);
      assert k in d;
    }
  }
}
