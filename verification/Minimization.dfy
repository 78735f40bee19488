// Minimizing a learned clause: which literals may be removed, and the hints that justify it.
module Minimization {
  import opened Cnf
  import opened LratChains
  import opened Analysis
  import LS = LratSpec
  import WA = Watching

  // ----- Removable literals.

  // Fixed, kept in the clause, or already found to be implied by such literals.
  predicate Good(f: Frame, keep: set<nat>, removable: set<nat>, l: Lit) {
    LevelOf(f, l) == 0 || Var(l) in keep || Var(l) in removable
  }

  ghost predicate RemovableAt(f: Frame, keep: set<nat>, removable: set<nat>, q: nat)
    requires q < |f.trail|
  {
    var l := f.trail[q];
    && 0 < LevelOf(f, l) < f.level && Var(l) in f.info && f.info[Var(l)].source.Propagated?
    && f.info[Var(l)].source.clause < |f.db|
    && forall k :: k in f.db[f.info[Var(l)].source.clause].lits && k != l ==> Good(f, keep, removable, k)
  }

  ghost predicate Removables(f: Frame, keep: set<nat>, removable: set<nat>) {
    forall q {:trigger RemovableAt(f, keep, removable, q)} ::
      0 <= q < |f.trail| && Var(f.trail[q]) in removable ==> RemovableAt(f, keep, removable, q)
  }

  lemma RemovableMonotone(f: Frame, keep: set<nat>, removable: set<nat>, keep': set<nat>, removable': set<nat>, q: nat)
    requires q < |f.trail| && RemovableAt(f, keep, removable, q) && keep <= keep' && removable <= removable'
    ensures RemovableAt(f, keep', removable', q)
  {
  }

  lemma RemovablesKeep(f: Frame, keep: set<nat>, removable: set<nat>, v: nat)
    requires Removables(f, keep, removable)
    ensures Removables(f, keep + {v}, removable)
  {
    forall q | 0 <= q < |f.trail| && Var(f.trail[q]) in removable ensures RemovableAt(f, keep + {v}, removable, q) {
      RemovableMonotone(f, keep, removable, keep + {v}, removable, q);
    }
  }

  lemma RemovablesMore(f: Frame, keep: set<nat>, removable: set<nat>, q: nat)
    requires DistinctVars(f.trail) && q < |f.trail|
    requires Removables(f, keep, removable) && RemovableAt(f, keep, removable, q)
    ensures Removables(f, keep, removable + {Var(f.trail[q])})
  {
    var removable' := removable + {Var(f.trail[q])};
    forall r | 0 <= r < |f.trail| && Var(f.trail[r]) in removable' ensures RemovableAt(f, keep, removable', r) {
      assert r == q || Var(f.trail[r]) in removable;
      RemovableMonotone(f, keep, removable, keep, removable', r);
    }
  }

  // ----- Collecting the reasons of a removed literal.

  ghost predicate Assumable(f: Frame, keep: set<nat>, seen: set<nat>, q: nat) {
    q < |f.trail| && (Var(f.trail[q]) in keep || (LevelOf(f, f.trail[q]) == 0 && Var(f.trail[q]) in seen))
  }

  // The falsified literals of the minimized clause, and the fixed literals with a hint.
  ghost function Base(f: Frame, keep: set<nat>, seen: set<nat>): set<Lit> {
    set q | 0 <= q < |f.trail| && Assumable(f, keep, seen, q) :: f.trail[q]
  }

  lemma BaseMonotone(f: Frame, keep: set<nat>, seen: set<nat>, keep': set<nat>, seen': set<nat>)
    requires keep <= keep' && seen <= seen'
    ensures Base(f, keep, seen) <= Base(f, keep', seen')
  {
    forall l | l in Base(f, keep, seen) ensures l in Base(f, keep', seen') {
      var q: nat :| q < |f.trail| && Assumable(f, keep, seen, q) && f.trail[q] == l;
      assert Assumable(f, keep', seen', q);
    }
  }

  ghost predicate DifferentLits(steps: seq<Step>) {
    forall i, j :: 0 <= i < j < |steps| ==> steps[i].lit != steps[j].lit
  }

  // Below position 'p' every added variable has its step.
  ghost predicate Collecting(f: Frame, keep: set<nat>, seen: set<nat>, added: set<nat>, steps: seq<Step>, p: nat) {
    && Forced(f.db, steps, Base(f, keep, seen))
    && (forall s {:trigger ReasonStep(f, s)} :: s in steps ==> ReasonStep(f, s) && LevelOf(f, s.lit) != f.level && Var(s.lit) in added)
    && DifferentLits(steps)
    && forall q {:trigger f.trail[q]} :: 0 <= q < p && q < |f.trail| && Var(f.trail[q]) in added ==>
      f.trail[q] in LitsOfSteps(steps)
  }

  // Nothing happened from position 'p' on.
  ghost predicate Below(f: Frame, p: nat, seen: set<nat>, added: set<nat>, steps: seq<Step>,
                        seen': set<nat>, added': set<nat>, steps': seq<Step>) {
    && seen <= seen' && added <= added' && LitsOfSteps(steps) <= LitsOfSteps(steps')
    && forall q {:trigger f.trail[q]} :: p <= q < |f.trail| ==>
      (Var(f.trail[q]) in added' ==> Var(f.trail[q]) in added)
      && (f.trail[q] in LitsOfSteps(steps') ==> f.trail[q] in LitsOfSteps(steps))
  }

  // Accounted for: assumed or derived.
  ghost predicate Covered(f: Frame, keep: set<nat>, seen: set<nat>, steps: seq<Step>, l: Lit) {
    l in Base(f, keep, seen) || l in LitsOfSteps(steps)
  }

  lemma CoveredMonotone(f: Frame, keep: set<nat>, seen: set<nat>, steps: seq<Step>, keep': set<nat>, seen': set<nat>, steps': seq<Step>, l: Lit)
    requires Covered(f, keep, seen, steps, l) && keep <= keep' && seen <= seen' && LitsOfSteps(steps) <= LitsOfSteps(steps')
    ensures Covered(f, keep', seen', steps', l)
  {
    BaseMonotone(f, keep, seen, keep', seen');
  }

  lemma CollectingSeen(f: Frame, keep: set<nat>, seen: set<nat>, keep': set<nat>, seen': set<nat>, added: set<nat>, steps: seq<Step>, p: nat)
    requires Collecting(f, keep, seen, added, steps, p) && seen <= seen' && keep <= keep'
    ensures Collecting(f, keep', seen', added, steps, p)
  {
    BaseMonotone(f, keep, seen, keep', seen');
    ForcedMonotone(f.db, steps, Base(f, keep, seen), Base(f, keep', seen'));
  }

  // A variable is marked before its reason is visited.
  lemma CollectingMark(f: Frame, keep: set<nat>, seen: set<nat>, added: set<nat>, steps: seq<Step>, q: nat)
    requires Sound(f) && q < |f.trail| && Collecting(f, keep, seen, added, steps, q + 1) && Var(f.trail[q]) !in added
    ensures Collecting(f, keep, seen, added + {Var(f.trail[q])}, steps, q)
    ensures f.trail[q] !in LitsOfSteps(steps)
  {
    forall r | 0 <= r < q && Var(f.trail[r]) in added + {Var(f.trail[q])} ensures f.trail[r] in LitsOfSteps(steps) {
      assert Var(f.trail[r]) != Var(f.trail[q]);
    }
    forall s | s in steps ensures s.lit != f.trail[q] {
      assert ReasonStep(f, s);
    }
  }

  // A larger bound: what is above was collected before.
  lemma CollectingWiden(f: Frame, keep: set<nat>, seen: set<nat>, added: set<nat>, steps: seq<Step>,
                        seen': set<nat>, added': set<nat>, steps': seq<Step>, q: nat, p: nat)
    requires q < p && Collecting(f, keep, seen, added, steps, p) && Collecting(f, keep, seen', added', steps', q + 1)
    requires Below(f, q + 1, seen, added, steps, seen', added', steps')
    ensures Collecting(f, keep, seen', added', steps', p) && Below(f, p, seen, added, steps, seen', added', steps')
  {
    forall r | 0 <= r < p && r < |f.trail| && Var(f.trail[r]) in added' ensures f.trail[r] in LitsOfSteps(steps') {
      if r > q {
        assert Var(f.trail[r]) in added;
      }
    }
  }

  lemma BelowTransitive(f: Frame, p: nat, a: set<nat>, b: set<nat>, c: seq<Step>, a1: set<nat>, b1: set<nat>, c1: seq<Step>,
                        a2: set<nat>, b2: set<nat>, c2: seq<Step>)
    requires Below(f, p, a, b, c, a1, b1, c1) && Below(f, p, a1, b1, c1, a2, b2, c2)
    ensures Below(f, p, a, b, c, a2, b2, c2)
  {
  }

  // The reason of the literal at 'q' was visited: its step can be appended.
  lemma CollectStep(f: Frame, keep: set<nat>, seen: set<nat>, added: set<nat>, steps: seq<Step>, q: nat, k: nat)
    requires Sound(f) && q < |f.trail| && Collecting(f, keep, seen, added, steps, q) && Var(f.trail[q]) in added
    requires ReasonStep(f, Step(k, f.trail[q])) && LevelOf(f, f.trail[q]) != f.level && f.trail[q] !in LitsOfSteps(steps)
    requires forall l :: k < |f.db| && l in f.db[k].lits && l != f.trail[q] ==> Covered(f, keep, seen, steps, -l)
    ensures Collecting(f, keep, seen, added, steps + [Step(k, f.trail[q])], q + 1)
    ensures LitsOfSteps(steps + [Step(k, f.trail[q])]) == LitsOfSteps(steps) + {f.trail[q]}
  {
    var s := Step(k, f.trail[q]);
    ReasonStepUsable(f, s);
    assert Forces(f.db, s, Base(f, keep, seen) + LitsOfSteps(steps));
    ForcedLast(f.db, steps, s, Base(f, keep, seen));
    var all := steps + [s];
    forall x | x in all ensures ReasonStep(f, x) && LevelOf(f, x.lit) != f.level && Var(x.lit) in added {
      assert x in steps || x == s;
    }
    forall i | 0 <= i < |steps| ensures steps[i].lit != s.lit {
      assert steps[i] in steps;
    }
  }

  // ----- The fixed literals.

  ghost predicate RootsListed(f: Frame, seen: set<nat>, units: seq<Lit>, unitChain: seq<LS.Id>) {
    && LitsOf(units) == RootLits(f, seen) && NoRepeats(units)
    && (forall l :: l in units ==> Rooted(f, l)) && unitChain == UnitIds(f, units)
  }

  lemma RootsMore(f: Frame, seen: set<nat>, units: seq<Lit>, unitChain: seq<LS.Id>, q: nat)
    requires Sound(f) && RootsListed(f, seen, units, unitChain) && q < |f.trail| && Var(f.trail[q]) !in seen
    requires LevelOf(f, f.trail[q]) == 0 && f.level > 0
    ensures Rooted(f, -f.trail[q])
    ensures RootsListed(f, seen + {Var(f.trail[q])}, units + [-f.trail[q]], unitChain + [f.db[f.units[f.trail[q]]].id])
  {
    var l := -f.trail[q];
    assert -l == f.trail[q] && Var(l) == Var(-l);
    RootKnown(f, l, q);
    MoreSeen(f, seen, q);
    NotSeen(f, seen, l);
    NoRepeatsMore(units, l);
    UnitIdsMore(f, units, l);
  }

  // ----- The final derivation.

  ghost function UnitSteps(f: Frame, lits: seq<Lit>): (steps: seq<Step>)
    requires forall l :: l in lits ==> Rooted(f, l)
    ensures |steps| == |lits|
    ensures forall i {:trigger steps[i]} :: 0 <= i < |steps| ==>
              steps[i].lit == -lits[|lits|-1-i] && Rooted(f, -steps[i].lit) && steps[i].clause == f.units[steps[i].lit]
  {
    if lits == [] then []
    else
      var n := |lits| - 1;
      assert lits[n] in lits && forall l :: l in lits[..n] ==> l in lits;
      assert Rooted(f, lits[n]);
      [Step(f.units[-lits[n]], -lits[n])] + UnitSteps(f, lits[..n])
  }

  // Identifiers of steps alone.
  ghost function StepIds(db: Db, steps: seq<Step>): seq<LS.Id>
    requires forall s :: s in steps ==> s.clause < |db|
  {
    if steps == [] then [] else [db[steps[0].clause].id] + StepIds(db, steps[1..])
  }

  lemma InDbConcat(db: Db, pre: seq<Step>, steps: seq<Step>)
    requires (forall s :: s in pre ==> s.clause < |db|) && (forall s :: s in steps ==> s.clause < |db|)
    ensures forall s :: s in pre + steps ==> s.clause < |db|
    ensures forall s :: s in pre[|pre|..] + steps ==> s.clause < |db|
    ensures pre != [] ==> forall s :: s in pre[1..] ==> s.clause < |db|
  {
  }

  lemma {:induction false} IdsConcat(db: Db, pre: seq<Step>, steps: seq<Step>, goal: Goal)
    requires goal.Falsify? ==> goal.clause < |db|
    requires (forall s :: s in pre ==> s.clause < |db|) && (forall s :: s in steps ==> s.clause < |db|)
    ensures forall s :: s in pre + steps ==> s.clause < |db|
    ensures Ids(db, pre + steps, goal) == StepIds(db, pre) + Ids(db, steps, goal)
    decreases |pre|
  {
    InDbConcat(db, pre, steps);
    if pre == [] {
      assert pre + steps == steps;
    } else {
      IdsConcat(db, pre[1..], steps, goal);
      IdsHead(db, pre + steps, goal);
      assert (pre + steps)[1..] == pre[1..] + steps;
    }
  }

  lemma IdsHead(db: Db, steps: seq<Step>, goal: Goal)
    requires goal.Falsify? ==> goal.clause < |db|
    requires (forall s :: s in steps ==> s.clause < |db|) && steps != []
    ensures forall s :: s in steps[1..] ==> s.clause < |db|
    ensures Ids(db, steps, goal) == [db[steps[0].clause].id] + Ids(db, steps[1..], goal)
  {
  }

  lemma {:induction false} StepIdsLast(db: Db, steps: seq<Step>, s: Step)
    requires (forall x :: x in steps ==> x.clause < |db|) && s.clause < |db|
    ensures StepIds(db, steps + [s]) == StepIds(db, steps) + [db[s.clause].id]
    decreases |steps|
  {
    if steps == [] {
      assert steps + [s] == [s];
    } else {
      StepIdsLast(db, steps[1..], s);
      assert (steps + [s])[1..] == steps[1..] + [s];
    }
  }

  lemma {:induction false} UnitStepIds(f: Frame, lits: seq<Lit>)
    requires forall l :: l in lits ==> Rooted(f, l)
    ensures forall s :: s in UnitSteps(f, lits) ==> s.clause < |f.db|
    ensures StepIds(f.db, UnitSteps(f, lits)) == Reversed(UnitIds(f, lits))
  {
    if lits != [] {
      var n := |lits| - 1;
      assert lits[n] in lits && forall l :: l in lits[..n] ==> l in lits;
      assert Rooted(f, lits[n]);
      UnitStepIds(f, lits[..n]);
      ReversedLast(UnitIds(f, lits[..n]), f.db[f.units[-lits[n]]].id);
      assert UnitSteps(f, lits)[1..] == UnitSteps(f, lits[..n]);
    }
  }

  lemma {:induction false} SelfForced(db: Db, steps: seq<Step>, known: set<Lit>)
    requires forall s :: s in steps ==> Forces(db, s, {})
    ensures Forced(db, steps, known)
    decreases |steps|
  {
    if steps != [] {
      SelfForced(db, steps[..|steps|-1], known);
      assert steps[|steps|-1] in steps;
    }
  }

  lemma UnitStepsForced(f: Frame, lits: seq<Lit>, known: set<Lit>)
    requires forall l :: l in lits ==> Rooted(f, l)
    ensures Forced(f.db, UnitSteps(f, lits), known)
    ensures LitsOfSteps(UnitSteps(f, lits)) == Negations(lits)
  {
    var us := UnitSteps(f, lits);
    forall s | s in us ensures Forces(f.db, s, {}) && s.lit in Negations(lits) {
      var i :| 0 <= i < |us| && us[i] == s;
      assert lits[|lits|-1-i] in lits && Rooted(f, -s.lit);
    }
    SelfForced(f.db, us, known);
    forall n | n in Negations(lits) ensures n in LitsOfSteps(us) {
      var l :| l in lits && n == -l;
      var j :| 0 <= j < |lits| && lits[j] == l;
      assert us[|lits|-1-j] in us && us[|lits|-1-j].lit == n;
    }
  }

  lemma UnitStepsHinted(f: Frame, lits: seq<Lit>, conflict: nat)
    requires Sound(f) && Conflicting(f, conflict) && NoRepeats(lits)
    requires forall l :: l in lits ==> Rooted(f, l) && -l in f.trail
    ensures Hinted(f.db, UnitSteps(f, lits), Falsify(conflict))
    ensures forall s :: s in UnitSteps(f, lits) ==> s.clause < |f.db| && |f.db[s.clause].lits| == 1
  {
    var us := UnitSteps(f, lits);
    forall s | s in us
      ensures s.clause < |f.db| && Usable(f.db, s.clause) && Falsify(conflict) != Falsify(s.clause) && |f.db[s.clause].lits| == 1
    {
      var i :| 0 <= i < |us| && us[i] == s;
      assert lits[|lits|-1-i] in lits && Rooted(f, -s.lit) && -(-s.lit) == s.lit;
      assert s.lit in f.trail && s.lit in LitsOf(f.trail);
      assert s.lit in f.db[s.clause].lits;
    }
    forall i, j | 0 <= i < j < |us| ensures us[i].clause != us[j].clause {
      assert us[i] in us && us[j] in us;
      assert lits[|lits|-1-i] != lits[|lits|-1-j];
      assert f.db[us[i].clause].lits == [us[i].lit] && f.db[us[j].clause].lits == [us[j].lit];
    }
  }

  lemma HintedConcat(db: Db, a: seq<Step>, b: seq<Step>, goal: Goal)
    requires Hinted(db, a, goal) && Hinted(db, b, goal)
    requires forall s, t :: s in a && t in b ==> s.clause != t.clause
    ensures Hinted(db, a + b, goal)
  {
    var c := a + b;
    forall i, j | 0 <= i < j < |c| ensures c[i].clause != c[j].clause {
      if i < |a| <= j {
        assert c[i] in a && c[j] in b;
      }
    }
  }

  lemma CollectedHinted(f: Frame, steps: seq<Step>, conflict: nat)
    requires Sound(f) && Conflicting(f, conflict) && DifferentLits(steps)
    requires forall s {:trigger ReasonStep(f, s)} :: s in steps ==> ReasonStep(f, s)
    ensures Hinted(f.db, steps, Falsify(conflict))
  {
    forall s | s in steps ensures s.clause < |f.db| && Usable(f.db, s.clause) && s.clause != conflict {
      assert ReasonStep(f, s);
      ReasonStepUsable(f, s);
    }
    forall i, j | 0 <= i < j < |steps| ensures steps[i].clause != steps[j].clause {
      assert ReasonStep(f, steps[i]) && ReasonStep(f, steps[j]);
      if steps[i].clause == steps[j].clause {
        ReasonStepsDiffer(f, steps[i], steps[j]);
      }
    }
  }

  // The clause right after analysis: falsified literals of lower levels and the unique implication
  // point.
  ghost predicate FirstUip(f: Frame, conflict: nat, g: Gathered, i: nat, steps: seq<Step>, lratChain: seq<LS.Id>, clause: seq<Lit>) {
    i < |f.trail| && forall u {:trigger Look(u)} :: Look(u) ==> IsFirstUip(f, conflict, g, i, steps, lratChain, clause)
  }

  ghost predicate IsFirstUip(f: Frame, conflict: nat, g: Gathered, i: nat, steps: seq<Step>, lratChain: seq<LS.Id>, clause: seq<Lit>) {
    && Sound(f) && f.level > 0 && Conflicting(f, conflict) && i < |f.trail|
    && Analyzing(f, conflict, g, i + 1, steps, lratChain) && CountOpen(f, g.seen, i) == 0
    && Var(f.trail[i]) in g.seen && LevelOf(f, f.trail[i]) == f.level
    && clause == g.clause + [-f.trail[i]]
  }

  lemma UipClause(f: Frame, g: Gathered, i: nat, clause: seq<Lit>)
    requires i < |f.trail| && LevelOf(f, f.trail[i]) == f.level > 0 && Sound(f)
    requires LitsOf(g.clause) == LowerLits(f, g.seen) && NoRepeats(g.clause) && clause == g.clause + [-f.trail[i]]
    ensures NoRepeats(clause) && LitsOf(clause) == LowerLits(f, g.seen) + {-f.trail[i]}
    ensures forall l :: l in clause ==> -l in f.trail && 0 < LevelOf(f, l) && (LevelOf(f, l) == f.level <==> l == -f.trail[i])
  {
    var u := -f.trail[i];
    assert Var(u) == Var(-u) && -u == f.trail[i];
    assert u !in LowerLits(f, g.seen);
    NoRepeatsMore(g.clause, u);
    forall l | l in clause && l != u ensures -l in f.trail && 0 < LevelOf(f, l) < f.level {
      assert l in LitsOf(g.clause);
      assert Var(l) == Var(-l) && -(-l) == l;
    }
  }

  lemma InLowerLits(f: Frame, seen: set<nat>, q: nat)
    requires q < |f.trail| && Var(f.trail[q]) in seen && 0 < LevelOf(f, f.trail[q]) < f.level
    ensures -f.trail[q] in LowerLits(f, seen)
  {
  }

  lemma AssumedLevel(f: Frame, seen: set<nat>, i: nat, q: nat)
    requires Sound(f) && i < |f.trail| && CountOpen(f, seen, i) == 0 && Unresolved(f, seen, i + 1, q)
    ensures Var(f.trail[q]) in seen && q < |f.trail|
    ensures LevelOf(f, f.trail[q]) < f.level || q == i
  {
    assert Sourced(f, q);
    if LevelOf(f, f.trail[q]) == f.level && q < i {
      CountOpenZero(f, seen, i, q);
    }
  }

  lemma AssumedLiteral(f: Frame, conflict: nat, g: Gathered, i: nat, steps: seq<Step>, lratChain: seq<LS.Id>, clause: seq<Lit>, q: nat)
    requires FirstUip(f, conflict, g, i, steps, lratChain, clause) && Unresolved(f, g.seen, i + 1, q)
    ensures LevelOf(f, f.trail[q]) == 0 || -f.trail[q] in clause
  {
    assert Look(0);
    AssumedLevel(f, g.seen, i, q);
    if 0 < LevelOf(f, f.trail[q]) < f.level {
      InLowerLits(f, g.seen, q);
      assert -f.trail[q] in LitsOf(g.clause);
    }
  }

  // Everything the analysis assumed is in the minimized clause, derived, or fixed.
  lemma AssumedCovered(f: Frame, conflict: nat, g: Gathered, i: nat, steps: seq<Step>, lratChain: seq<LS.Id>, clause: seq<Lit>,
                       keep: set<nat>, seen: set<nat>, mini: seq<Step>)
    requires FirstUip(f, conflict, g, i, steps, lratChain, clause) && g.seen <= seen
    requires forall l :: l in clause ==> Covered(f, keep, seen, mini, -l)
    ensures Known(f, g.seen, i + 1) <= Base(f, keep, seen) + LitsOfSteps(mini)
  {
    forall t | t in Known(f, g.seen, i + 1) ensures t in Base(f, keep, seen) + LitsOfSteps(mini) {
      var q: nat :| q < |f.trail| && Unresolved(f, g.seen, i + 1, q) && f.trail[q] == t;
      AssumedLiteral(f, conflict, g, i, steps, lratChain, clause, q);
      assert LevelOf(f, t) == 0 ==> Assumable(f, keep, seen, q);
      assert -t in clause ==> Covered(f, keep, seen, mini, -(-t)) && -(-t) == t;
    }
  }

  lemma BaseOfClause(f: Frame, clause: seq<Lit>, keep: set<nat>, seen: set<nat>, units: seq<Lit>)
    requires Sound(f) && LitsOf(units) == RootLits(f, seen)
    requires forall v :: v in keep ==> exists l :: l in clause && Var(l) == v && -l in f.trail
    ensures Base(f, keep, seen) <= Negations(clause) + Negations(units)
  {
    forall t | t in Base(f, keep, seen) ensures t in Negations(clause) + Negations(units) {
      var q: nat :| q < |f.trail| && Assumable(f, keep, seen, q) && f.trail[q] == t;
      if Var(t) in keep {
        var l :| l in clause && Var(l) == Var(t) && -l in f.trail;
        assert t in LitsOf(f.trail) && -l in LitsOf(f.trail);
        assert t == -l;
      } else {
        assert -t in RootLits(f, seen) && -t in LitsOf(units) && -(-t) == t;
      }
    }
  }

  // The minimized clause with its hints.
  ghost predicate Learned(f: Frame, conflict: nat, clause: seq<Lit>, chain: seq<LS.Id>) {
    exists all: seq<Step> {:trigger Hinted(f.db, all, Falsify(conflict))} ::
      Derivation(f.db, all, Falsify(conflict), Negations(clause)) && Hinted(f.db, all, Falsify(conflict)) &&
      chain == Ids(f.db, all, Falsify(conflict))
  }

  lemma FinalDerivation(f: Frame, conflict: nat, steps: seq<Step>, known: set<Lit>, clause: seq<Lit>,
                        keep: set<nat>, seen: set<nat>, mini: seq<Step>, units: seq<Lit>)
    requires Derivation(f.db, steps, Falsify(conflict), known)
    requires known <= Base(f, keep, seen) + LitsOfSteps(mini) && Forced(f.db, mini, Base(f, keep, seen))
    requires Base(f, keep, seen) <= Negations(clause) + Negations(units) && forall l :: l in units ==> Rooted(f, l)
    ensures Derivation(f.db, UnitSteps(f, units) + (mini + steps), Falsify(conflict), Negations(clause))
  {
    var c, u := Negations(clause), Negations(units);
    UnitStepsForced(f, units, c);
    ForcedMonotone(f.db, mini, Base(f, keep, seen), c + u);
    DerivationMonotone(f.db, steps, Falsify(conflict), known, c + u + LitsOfSteps(mini));
    ForcedPrefix(f.db, mini, steps, Falsify(conflict), c + u);
    ForcedPrefix(f.db, UnitSteps(f, units), mini + steps, Falsify(conflict), c);
  }

  lemma FinalHinted(f: Frame, conflict: nat, steps: seq<Step>, mini: seq<Step>, units: seq<Lit>, seen: set<nat>)
    requires Sound(f) && Conflicting(f, conflict) && Hinted(f.db, steps, Falsify(conflict)) && DifferentLits(mini)
    requires forall s {:trigger ReasonStep(f, s)} :: s in steps ==> ReasonStep(f, s) && LevelOf(f, s.lit) == f.level
    requires forall s {:trigger ReasonStep(f, s)} :: s in mini ==> ReasonStep(f, s) && LevelOf(f, s.lit) != f.level
    requires NoRepeats(units) && LitsOf(units) == RootLits(f, seen) && forall l :: l in units ==> Rooted(f, l)
    ensures Hinted(f.db, UnitSteps(f, units) + (mini + steps), Falsify(conflict))
  {
    CollectedHinted(f, mini, conflict);
    forall s, t | s in mini && t in steps ensures s.clause != t.clause {
      assert ReasonStep(f, s) && ReasonStep(f, t);
      if s.clause == t.clause {
        ReasonStepsDiffer(f, s, t);
      }
    }
    HintedConcat(f.db, mini, steps, Falsify(conflict));
    forall l | l in units ensures -l in f.trail {
      assert l in LitsOf(units);
      var q: nat :| q < |f.trail| && l == -f.trail[q];
      assert -l == f.trail[q];
    }
    UnitStepsHinted(f, units, conflict);
    forall s, t | s in UnitSteps(f, units) && t in mini + steps ensures s.clause != t.clause {
      assert ReasonStep(f, t);
      ReasonStepUsable(f, t);
    }
    HintedConcat(f.db, UnitSteps(f, units), mini + steps, Falsify(conflict));
  }

  // The chain is turned around once, at the end.
  lemma FinalChain(f: Frame, conflict: nat, steps: seq<Step>, mini: seq<Step>, units: seq<Lit>,
                   lratChain: seq<LS.Id>, minimizeChain: seq<LS.Id>, unitChain: seq<LS.Id>)
    requires (forall l :: l in units ==> Rooted(f, l)) && unitChain == UnitIds(f, units)
    requires Hinted(f.db, UnitSteps(f, units) + (mini + steps), Falsify(conflict)) && Hinted(f.db, steps, Falsify(conflict))
    requires (forall s :: s in mini ==> s.clause < |f.db|) && minimizeChain == StepIds(f.db, mini)
    requires Reversed(lratChain) == Ids(f.db, steps, Falsify(conflict))
    ensures Reversed(lratChain + Reversed(minimizeChain) + unitChain) ==
            Ids(f.db, UnitSteps(f, units) + (mini + steps), Falsify(conflict))
  {
    var goal := Falsify(conflict);
    UnitStepIds(f, units);
    IdsConcat(f.db, mini, steps, goal);
    IdsConcat(f.db, UnitSteps(f, units), mini + steps, goal);
    ReversedConcat(lratChain + Reversed(minimizeChain), unitChain);
    ReversedConcat(lratChain, Reversed(minimizeChain));
    ReversedTwice(minimizeChain);
  }

  // What the derivation says: the clause is entailed, and the checker accepts the chain.
  lemma LearnedEntailed(f: Frame, conflict: nat, clause: seq<Lit>, chain: seq<LS.Id>, g: Formula)
    requires Learned(f, conflict, clause, chain) && DbHolds(f.db, g) && 0 !in clause
    ensures Entails(g, LitsOf(clause))
  {
    var all: seq<Step> {:trigger Hinted(f.db, all, Falsify(conflict))} :|
      Derivation(f.db, all, Falsify(conflict), Negations(clause)) && Hinted(f.db, all, Falsify(conflict)) &&
      chain == Ids(f.db, all, Falsify(conflict));
    DerivationEntails(f.db, all, Falsify(conflict), clause, g);
  }

  lemma LearnedAccepted(f: Frame, conflict: nat, clause: seq<Lit>, chain: seq<LS.Id>, nonces: LS.Nonces, t: LS.Table)
    requires Learned(f, conflict, clause, chain) && Sound(f) && UniqueIds(f.db) && Mirrored(nonces, t, f.db)
    requires forall l :: l in clause ==> -l in f.trail
    ensures LS.Accepts(nonces, t, clause, chain)
  {
    var all: seq<Step> {:trigger Hinted(f.db, all, Falsify(conflict))} :|
      Derivation(f.db, all, Falsify(conflict), Negations(clause)) && Hinted(f.db, all, Falsify(conflict)) &&
      chain == Ids(f.db, all, Falsify(conflict));
    assert Consistent(Negations(clause)) by {
      forall n | n in Negations(clause) ensures -n !in Negations(clause) {
        assert n in LitsOf(f.trail);
      }
    }
    DerivationFollowed(nonces, t, f.db, all, Falsify(conflict), Negations(clause), {});
  }
}
