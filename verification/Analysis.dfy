// Conflict analysis as reasoning about the trail: what it takes to derive the first unique
// implication point clause, to minimize it, and to write down hints for both.
module Analysis {
  import opened Cnf
  import opened LratChains
  import LS = LratSpec
  import WA = Watching

  // How a variable was assigned.
  datatype Source = Decided | Propagated(clause: nat)

  datatype Info = Info(level: nat, pos: nat, source: Source)

  // The solver at a conflict.  'units' gives the unit clause of a literal fixed on the root level.
  datatype Frame = Frame(db: Db, trail: seq<Lit>, info: map<nat, Info>, units: map<Lit, nat>, level: nat)

  function LevelOf(f: Frame, l: Lit): nat {
    if Var(l) in f.info then f.info[Var(l)].level else 0
  }

  // The literals other than 'l' in its reason were falsified before; decisions are the first
  // literals of their level, although the trail need not be in the order of levels.
  ghost predicate Sourced(f: Frame, p: nat)
    requires p < |f.trail|
  {
    var l := f.trail[p];
    && Var(l) in f.info && f.info[Var(l)].pos == p && f.info[Var(l)].level <= f.level
    && if LevelOf(f, l) == 0 then
         l in f.units && f.units[l] < |f.db| && Usable(f.db, f.units[l]) && f.db[f.units[l]].lits == [l]
       else match f.info[Var(l)].source
         case Propagated(k) => ReasonFor(f.db, k, l, f.trail[..p]) && |f.db[k].lits| >= 2
         case Decided => forall q {:trigger f.trail[q]} :: 0 <= q < p ==> LevelOf(f, f.trail[q]) != LevelOf(f, l)
  }

  ghost predicate Sound(f: Frame) {
    && WA.TrailOk(f.trail, LitsOf(f.trail)) && DistinctVars(f.trail)
    && forall p {:trigger Sourced(f, p)} :: 0 <= p < |f.trail| ==> Sourced(f, p)
  }

  // ----- What is assumed: the trail literals of the seen variables that are not resolved.

  ghost predicate Unresolved(f: Frame, seen: set<nat>, i: nat, q: nat) {
    q < |f.trail| && Var(f.trail[q]) in seen && (LevelOf(f, f.trail[q]) == f.level ==> q < i)
  }

  ghost function Known(f: Frame, seen: set<nat>, i: nat): set<Lit> {
    set q | 0 <= q < |f.trail| && Unresolved(f, seen, i, q) :: f.trail[q]
  }

  // ----- The number of seen literals of the conflict level that were not processed.

  function CountOpen(f: Frame, seen: set<nat>, i: nat): nat
    requires i <= |f.trail|
  {
    if i == 0 then 0
    else CountOpen(f, seen, i - 1) + if Var(f.trail[i-1]) in seen && LevelOf(f, f.trail[i-1]) == f.level then 1 else 0
  }

  lemma {:induction false} CountOpenSame(f: Frame, seen: set<nat>, i: nat, v: nat)
    requires i <= |f.trail| && forall q {:trigger f.trail[q]} :: 0 <= q < i ==> Var(f.trail[q]) != v || LevelOf(f, f.trail[q]) != f.level
    ensures CountOpen(f, seen + {v}, i) == CountOpen(f, seen, i)
  {
    if i > 0 {
      CountOpenSame(f, seen, i - 1, v);
    }
  }

  lemma {:induction false} CountOpenMore(f: Frame, seen: set<nat>, i: nat, q: nat)
    requires DistinctVars(f.trail) && q < i <= |f.trail| && Var(f.trail[q]) !in seen && LevelOf(f, f.trail[q]) == f.level
    ensures CountOpen(f, seen + {Var(f.trail[q])}, i) == CountOpen(f, seen, i) + 1
  {
    if q == i - 1 {
      CountOpenSame(f, seen, i - 1, Var(f.trail[q]));
    } else {
      CountOpenMore(f, seen, i - 1, q);
    }
  }

  lemma {:induction false} CountOpenZero(f: Frame, seen: set<nat>, i: nat, q: nat)
    requires q < i <= |f.trail| && CountOpen(f, seen, i) == 0
    ensures !(Var(f.trail[q]) in seen && LevelOf(f, f.trail[q]) == f.level)
  {
    if q < i - 1 {
      CountOpenZero(f, seen, i - 1, q);
    }
  }

  lemma {:induction false} CountOpenSome(f: Frame, seen: set<nat>, i: nat)
    requires i <= |f.trail| && CountOpen(f, seen, i) > 0
    ensures exists q: nat {:trigger f.trail[q]} :: q < i && Var(f.trail[q]) in seen && LevelOf(f, f.trail[q]) == f.level
  {
    if !(Var(f.trail[i-1]) in seen && LevelOf(f, f.trail[i-1]) == f.level) {
      CountOpenSome(f, seen, i - 1);
    }
  }

  // ----- Steps that write down recorded reasons.

  ghost predicate ReasonStep(f: Frame, s: Step) {
    && s.lit in f.trail && Var(s.lit) in f.info && LevelOf(f, s.lit) > 0 && f.info[Var(s.lit)].source == Propagated(s.clause)
  }

  // Different literals have different reasons.
  lemma ReasonStepsDiffer(f: Frame, s: Step, t: Step)
    requires Sound(f) && ReasonStep(f, s) && ReasonStep(f, t) && s.clause == t.clause
    ensures s.lit == t.lit
  {
    var p: nat :| p < |f.trail| && f.trail[p] == s.lit;
    var q: nat :| q < |f.trail| && f.trail[q] == t.lit;
    assert Sourced(f, p) && Sourced(f, q);
    assert forall x :: x in f.trail[..p] || x in f.trail[..q] ==> x in LitsOf(f.trail);
    assert s.lit in LitsOf(f.trail) && t.lit in LitsOf(f.trail);
  }

  lemma ReasonStepUsable(f: Frame, s: Step)
    requires Sound(f) && ReasonStep(f, s)
    ensures s.clause < |f.db| && Usable(f.db, s.clause) && s.lit in f.db[s.clause].lits && |f.db[s.clause].lits| >= 2
    ensures !LS.AllFalse(LitsOf(f.trail), f.db[s.clause].lits)
  {
    var p: nat :| p < |f.trail| && f.trail[p] == s.lit;
    assert Sourced(f, p);
    assert s.lit in LitsOf(f.trail);
  }

  // ----- Resolving.

  // The conflict under the assumption of all seen literals.
  lemma ConflictDerived(f: Frame, seen: set<nat>, conflict: nat)
    requires Sound(f) && conflict < |f.db| && LS.AllFalse(LitsOf(f.trail), f.db[conflict].lits)
    requires forall l :: l in f.db[conflict].lits ==> Var(l) in seen
    ensures Derivation(f.db, [], Falsify(conflict), Known(f, seen, |f.trail|))
  {
    forall l | l in f.db[conflict].lits ensures -l in Known(f, seen, |f.trail|) {
      assert -l in f.trail;
      var q: nat :| q < |f.trail| && f.trail[q] == -l;
      assert Unresolved(f, seen, |f.trail|, q);
    }
  }

  // Nothing of interest between two positions.
  lemma KnownSkip(f: Frame, seen: set<nat>, i: nat)
    requires i < |f.trail| && !(Var(f.trail[i]) in seen && LevelOf(f, f.trail[i]) == f.level)
    ensures Known(f, seen, i) == Known(f, seen, i + 1)
  {
    forall q | 0 <= q < |f.trail| ensures Unresolved(f, seen, i, q) <==> Unresolved(f, seen, i + 1, q) {
    }
  }

  // Resolving with the reason of the literal at position 'i'.
  lemma Resolved(f: Frame, seen: set<nat>, seen': set<nat>, i: nat, k: nat, steps: seq<Step>, goal: Goal)
    requires Sound(f) && i < |f.trail| && seen <= seen' && Derivation(f.db, steps, goal, Known(f, seen, i + 1))
    requires ReasonStep(f, Step(k, f.trail[i]))
    requires forall l :: k < |f.db| && l in f.db[k].lits && l != f.trail[i] ==> Var(l) in seen'
    ensures Derivation(f.db, [Step(k, f.trail[i])] + steps, goal, Known(f, seen', i))
  {
    var s := Step(k, f.trail[i]);
    var now := Known(f, seen', i);
    assert Sourced(f, i);
    forall l | l in f.db[k].lits && l != s.lit ensures -l in now {
      assert -l in f.trail[..i];
      var q: nat :| q < i && f.trail[q] == -l;
      assert Unresolved(f, seen', i, q);
    }
    KnownGrows(f, seen, seen', i);
    DerivationMonotone(f.db, steps, goal, Known(f, seen, i + 1), now + {s.lit});
    assert ([s] + steps)[1..] == steps;
  }

  lemma KnownGrows(f: Frame, seen: set<nat>, seen': set<nat>, i: nat)
    requires i < |f.trail| && seen <= seen'
    ensures Known(f, seen, i + 1) <= Known(f, seen', i) + {f.trail[i]}
  {
    forall l | l in Known(f, seen, i + 1) ensures l in Known(f, seen', i) + {f.trail[i]} {
      var q: nat :| q < |f.trail| && Unresolved(f, seen, i + 1, q) && f.trail[q] == l;
      assert q != i ==> Unresolved(f, seen', i, q);
    }
  }

  // ----- Sequences of steps.

  function LitsOfSteps(steps: seq<Step>): set<Lit> {
    set s | s in steps :: s.lit
  }

  // Each step forces its literal from 'known' and the literals of the steps before.
  ghost predicate Forced(db: Db, steps: seq<Step>, known: set<Lit>)
    decreases |steps|
  {
    steps == [] || (Forced(db, steps[..|steps|-1], known) &&
                    Forces(db, steps[|steps|-1], known + LitsOfSteps(steps[..|steps|-1])))
  }

  lemma {:induction false} ForcedMonotone(db: Db, steps: seq<Step>, known: set<Lit>, more: set<Lit>)
    requires Forced(db, steps, known) && known <= more
    ensures Forced(db, steps, more)
    decreases |steps|
  {
    if steps != [] {
      ForcedMonotone(db, steps[..|steps|-1], known, more);
    }
  }

  lemma ForcedLast(db: Db, steps: seq<Step>, s: Step, known: set<Lit>)
    requires Forced(db, steps, known) && Forces(db, s, known + LitsOfSteps(steps))
    ensures Forced(db, steps + [s], known)
    ensures LitsOfSteps(steps + [s]) == LitsOfSteps(steps) + {s.lit}
  {
    var all := steps + [s];
    assert all[..|all|-1] == steps;
    assert s in all && forall x :: x in steps ==> x in all;
  }

  // Forced steps may be put in front of a derivation.
  lemma {:induction false} ForcedPrefix(db: Db, pre: seq<Step>, steps: seq<Step>, goal: Goal, known: set<Lit>)
    requires Forced(db, pre, known) && Derivation(db, steps, goal, known + LitsOfSteps(pre))
    ensures Derivation(db, pre + steps, goal, known)
    decreases |pre|
  {
    if pre == [] {
      assert pre + steps == steps && known + LitsOfSteps(pre) == known;
    } else {
      var front, s := pre[..|pre|-1], pre[|pre|-1];
      assert pre == front + [s] && s in pre;
      var known' := known + LitsOfSteps(front);
      assert forall x :: x in pre ==> x in front || x == s;
      assert known + LitsOfSteps(pre) <= known' + {s.lit};
      DerivationMonotone(db, steps, goal, known + LitsOfSteps(pre), known' + {s.lit});
      assert ([s] + steps)[1..] == steps;
      ForcedPrefix(db, front, [s] + steps, goal, known);
      assert pre + steps == front + ([s] + steps);
    }
  }

  // ----- A derivation proves its clause.

  ghost predicate DbHolds(db: Db, f: Formula) {
    forall k {:trigger db[k]} :: 0 <= k < |db| && Usable(db, k) ==> LitsOf(db[k].lits) in f
  }

  lemma {:induction false} DerivationRefutes(db: Db, steps: seq<Step>, goal: Goal, known: set<Lit>, f: Formula, m: Model)
    requires DbHolds(db, f) && Models(m, f) && Hinted(db, steps, goal) && goal.Falsify?
    requires Derivation(db, steps, goal, known)
    ensures exists l :: l in known && !Holds(m, l)
    decreases |steps|
  {
    if steps == [] {
      var lits := db[goal.clause].lits;
      assert Sat(m, LitsOf(lits));
      var l :| l in LitsOf(lits) && Holds(m, l);
      assert -l in known && !Holds(m, -l);
    } else {
      var s := steps[0];
      assert s in steps && forall x :: x in steps[1..] ==> x in steps;
      assert forall i :: 0 <= i < |steps[1..]| ==> steps[1..][i] == steps[i+1];
      DerivationRefutes(db, steps[1..], goal, known + {s.lit}, f, m);
      var l :| l in known + {s.lit} && !Holds(m, l);
      if l !in known {
        assert Sat(m, LitsOf(db[s.clause].lits));
        var k :| k in LitsOf(db[s.clause].lits) && Holds(m, k);
        assert -k in known && !Holds(m, -k);
      }
    }
  }

  lemma DerivationEntails(db: Db, steps: seq<Step>, goal: Goal, clause: seq<Lit>, f: Formula)
    requires DbHolds(db, f) && Hinted(db, steps, goal) && goal.Falsify? && 0 !in clause
    requires Derivation(db, steps, goal, Negations(clause))
    ensures Entails(f, LitsOf(clause))
  {
    forall m: Model | Models(m, f) ensures Sat(m, LitsOf(clause)) {
      DerivationRefutes(db, steps, goal, Negations(clause), f, m);
      var n :| n in Negations(clause) && !Holds(m, n);
      var l :| l in clause && -l == n;
      assert l in LitsOf(clause) && Holds(m, l);
    }
  }

  // ----- What analysis gathers.

  // Literals of the clause under construction: falsified, seen, and of a lower level.
  ghost function LowerLits(f: Frame, seen: set<nat>): set<Lit> {
    set q | 0 <= q < |f.trail| && Var(f.trail[q]) in seen && 0 < LevelOf(f, f.trail[q]) < f.level :: -f.trail[q]
  }

  // Seen literals that are falsified on the root level.
  ghost function RootLits(f: Frame, seen: set<nat>): set<Lit> {
    set q | 0 <= q < |f.trail| && Var(f.trail[q]) in seen && LevelOf(f, f.trail[q]) == 0 :: -f.trail[q]
  }

  // The literal is falsified by a unit clause.
  ghost predicate Rooted(f: Frame, l: Lit) {
    -l in f.units && f.units[-l] < |f.db| && Usable(f.db, f.units[-l]) && f.db[f.units[-l]].lits == [-l]
  }

  ghost function UnitIds(f: Frame, lits: seq<Lit>): seq<LS.Id>
    requires forall l :: l in lits ==> Rooted(f, l)
  {
    if lits == [] then []
    else
      var n := |lits| - 1;
      assert lits[n] in lits && forall l :: l in lits[..n] ==> l in lits;
      assert Rooted(f, lits[n]);
      UnitIds(f, lits[..n]) + [f.db[f.units[-lits[n]]].id]
  }

  predicate NoRepeats(s: seq<Lit>) {
    forall i, j :: 0 <= i < j < |s| ==> s[i] != s[j]
  }

  datatype Gathered = Gathered(seen: set<nat>, clause: seq<Lit>, unitAnalyzed: seq<Lit>, unitChain: seq<LS.Id>,
                               open: nat, resolventSize: nat)

  ghost predicate Gathering(f: Frame, g: Gathered, i: nat) {
    && i <= |f.trail|
    && LitsOf(g.clause) == LowerLits(f, g.seen) && NoRepeats(g.clause)
    && LitsOf(g.unitAnalyzed) == RootLits(f, g.seen) && NoRepeats(g.unitAnalyzed)
    && (forall l :: l in g.unitAnalyzed ==> Rooted(f, l)) && g.unitChain == UnitIds(f, g.unitAnalyzed)
    && g.open == CountOpen(f, g.seen, i)
    && g.resolventSize == g.open + |g.clause|
  }

  lemma MoreSeen(f: Frame, seen: set<nat>, q: nat)
    requires DistinctVars(f.trail) && q < |f.trail|
    ensures LowerLits(f, seen + {Var(f.trail[q])}) ==
            LowerLits(f, seen) + if 0 < LevelOf(f, f.trail[q]) < f.level then {-f.trail[q]} else {}
    ensures RootLits(f, seen + {Var(f.trail[q])}) ==
            RootLits(f, seen) + if LevelOf(f, f.trail[q]) == 0 then {-f.trail[q]} else {}
  {
    var v := Var(f.trail[q]);
    forall r | 0 <= r < |f.trail| && Var(f.trail[r]) == v ensures r == q {
    }
  }

  // A literal that was not seen yet is not in the lists.
  lemma NotSeen(f: Frame, seen: set<nat>, l: Lit)
    requires Var(l) !in seen
    ensures l !in LowerLits(f, seen) && l !in RootLits(f, seen)
  {
  }

  // One literal of a clause is analyzed.
  function Gather(f: Frame, g: Gathered, l: Lit): Gathered
    requires LevelOf(f, l) == 0 ==> -l in f.units && f.units[-l] < |f.db|
  {
    var v := LevelOf(f, l);
    if Var(l) in g.seen then g
    else if v == 0 then
      g.(seen := g.seen + {Var(l)}, unitAnalyzed := g.unitAnalyzed + [l], unitChain := g.unitChain + [f.db[f.units[-l]].id])
    else if v < f.level then
      g.(seen := g.seen + {Var(l)}, clause := g.clause + [l], resolventSize := g.resolventSize + 1)
    else
      g.(seen := g.seen + {Var(l)}, open := g.open + 1, resolventSize := g.resolventSize + 1)
  }

  lemma NoRepeatsMore(s: seq<Lit>, l: Lit)
    requires NoRepeats(s) && l !in LitsOf(s)
    ensures NoRepeats(s + [l]) && LitsOf(s + [l]) == LitsOf(s) + {l}
  {
    LitsOfLast(s, l);
    assert forall i :: 0 <= i < |s| ==> s[i] in LitsOf(s);
  }

  lemma UnitIdsMore(f: Frame, lits: seq<Lit>, l: Lit)
    requires (forall k :: k in lits ==> Rooted(f, k)) && Rooted(f, l)
    ensures forall k :: k in lits + [l] ==> Rooted(f, k)
    ensures UnitIds(f, lits + [l]) == UnitIds(f, lits) + [f.db[f.units[-l]].id]
  {
    assert l in lits + [l] && (lits + [l])[..|lits|] == lits;
  }

  lemma RootKnown(f: Frame, l: Lit, q: nat)
    requires Sound(f) && q < |f.trail| && f.trail[q] == -l && LevelOf(f, l) == 0
    ensures Rooted(f, l)
  {
    assert Sourced(f, q);
    assert Var(-l) == Var(l);
  }

  lemma GatherKeeps(f: Frame, g: Gathered, i: nat, l: Lit, q: nat)
    requires Sound(f) && f.level > 0 && Gathering(f, g, i) && q < i && f.trail[q] == -l
    ensures LevelOf(f, l) == 0 ==> Rooted(f, l)
    ensures Gathering(f, Gather(f, g, l), i) && Var(l) in Gather(f, g, l).seen && g.seen <= Gather(f, g, l).seen
  {
    if LevelOf(f, l) == 0 {
      RootKnown(f, l, q);
    }
    if Var(l) !in g.seen {
      GatherLists(f, g, i, l);
      GatherCounts(f, g, i, l, q);
    }
  }

  lemma GatherLists(f: Frame, g: Gathered, i: nat, l: Lit)
    requires Gathering(f, g, i) && Var(l) !in g.seen
    requires LevelOf(f, l) == 0 ==> Rooted(f, l)
    ensures LevelOf(f, l) == 0 ==>
              var u := g.unitAnalyzed + [l];
              NoRepeats(u) && LitsOf(u) == LitsOf(g.unitAnalyzed) + {l} && (forall k :: k in u ==> Rooted(f, k)) &&
              UnitIds(f, u) == g.unitChain + [f.db[f.units[-l]].id]
    ensures NoRepeats(g.clause + [l]) && LitsOf(g.clause + [l]) == LitsOf(g.clause) + {l}
  {
    NotSeen(f, g.seen, l);
    NoRepeatsMore(g.clause, l);
    NoRepeatsMore(g.unitAnalyzed, l);
    if LevelOf(f, l) == 0 {
      UnitIdsMore(f, g.unitAnalyzed, l);
    }
  }

  lemma GatherCounts(f: Frame, g: Gathered, i: nat, l: Lit, q: nat)
    requires Sound(f) && f.level > 0 && Gathering(f, g, i) && q < i && f.trail[q] == -l && Var(l) !in g.seen
    ensures var seen := g.seen + {Var(l)};
            && CountOpen(f, seen, i) == g.open + (if LevelOf(f, l) == f.level then 1 else 0)
            && LowerLits(f, seen) == LitsOf(g.clause) + (if 0 < LevelOf(f, l) < f.level then {l} else {})
            && RootLits(f, seen) == LitsOf(g.unitAnalyzed) + (if LevelOf(f, l) == 0 then {l} else {})
    ensures LevelOf(f, l) <= f.level
  {
    assert Var(-l) == Var(l) && -(-l) == l;
    assert Sourced(f, q);
    MoreSeen(f, g.seen, q);
    if LevelOf(f, l) == f.level {
      CountOpenMore(f, g.seen, i, q);
    } else {
      forall r | 0 <= r < i ensures Var(f.trail[r]) != Var(l) || LevelOf(f, f.trail[r]) != f.level {
      }
      CountOpenSame(f, g.seen, i, Var(l));
    }
  }

  // ----- The main loop.

  // The reasons of the literals of the conflict level from position 'i' on were resolved.
  ghost predicate Analyzing(f: Frame, conflict: nat, g: Gathered, i: nat, steps: seq<Step>, lratChain: seq<LS.Id>) {
    && Gathering(f, g, i) && Derivation(f.db, steps, Falsify(conflict), Known(f, g.seen, i))
    && Hinted(f.db, steps, Falsify(conflict))
    && (forall s {:trigger ReasonStep(f, s)} :: s in steps ==> ReasonStep(f, s) && LevelOf(f, s.lit) == f.level)
    && (forall s :: s in steps ==> s.lit !in f.trail[..i])
    && Reversed(lratChain) == Ids(f.db, steps, Falsify(conflict))
  }

  ghost predicate Conflicting(f: Frame, conflict: nat) {
    && conflict < |f.db| && Usable(f.db, conflict) && LS.AllFalse(LitsOf(f.trail), f.db[conflict].lits)
    && exists l :: l in f.db[conflict].lits && LevelOf(f, l) == f.level
  }

  function Nothing(): Gathered {
    Gathered({}, [], [], [], 0, 0)
  }

  lemma NothingGathered(f: Frame)
    requires f.level > 0
    ensures Gathering(f, Nothing(), |f.trail|)
  {
    NothingOpen(f, |f.trail|);
  }

  lemma {:induction false} NothingOpen(f: Frame, i: nat)
    requires i <= |f.trail|
    ensures CountOpen(f, {}, i) == 0
  {
    if i > 0 {
      NothingOpen(f, i - 1);
    }
  }

  // All literals of the conflict were gathered.
  lemma AnalysisStarts(f: Frame, conflict: nat, g: Gathered, lratChain: seq<LS.Id>)
    requires Sound(f) && f.level > 0 && Conflicting(f, conflict) && Gathering(f, g, |f.trail|)
    requires forall l :: l in f.db[conflict].lits ==> Var(l) in g.seen
    requires lratChain == [f.db[conflict].id]
    ensures Analyzing(f, conflict, g, |f.trail|, [], lratChain) && g.open > 0
  {
    ConflictDerived(f, g.seen, conflict);
    assert Reversed(lratChain) == [f.db[conflict].id] + Reversed([]) by { assert lratChain[..0] == []; }
    var l :| l in f.db[conflict].lits && LevelOf(f, l) == f.level;
    assert -l in f.trail;
    var q: nat :| q < |f.trail| && f.trail[q] == -l;
    if g.open == 0 {
      CountOpenZero(f, g.seen, |f.trail|, q);
    }
  }

  lemma SkipTrail(f: Frame, conflict: nat, g: Gathered, i: nat, steps: seq<Step>, lratChain: seq<LS.Id>)
    requires i < |f.trail| && Analyzing(f, conflict, g, i + 1, steps, lratChain)
    requires !(Var(f.trail[i]) in g.seen && LevelOf(f, f.trail[i]) == f.level)
    ensures Analyzing(f, conflict, g, i, steps, lratChain)
  {
    KnownSkip(f, g.seen, i);
    assert forall l :: l in f.trail[..i] ==> l in f.trail[..i+1];
  }

  // The literal found is not the decision as long as others are open.
  lemma ReasonExists(f: Frame, g: Gathered, i: nat)
    requires Sound(f) && f.level > 0 && i < |f.trail| && Gathering(f, g, i + 1)
    requires Var(f.trail[i]) in g.seen && LevelOf(f, f.trail[i]) == f.level
    ensures g.open > 0 && g.open - 1 == CountOpen(f, g.seen, i)
    ensures g.open > 1 ==> f.info[Var(f.trail[i])].source.Propagated? &&
                           ReasonStep(f, Step(f.info[Var(f.trail[i])].source.clause, f.trail[i]))
  {
    assert Sourced(f, i);
    if g.open > 1 {
      CountOpenSome(f, g.seen, i);
      var q: nat {:trigger f.trail[q]} :| q < i && Var(f.trail[q]) in g.seen && LevelOf(f, f.trail[q]) == f.level;
    }
  }

  // The reason was analyzed: one more step.
  lemma AnalysisStep(f: Frame, conflict: nat, g: Gathered, g': Gathered, i: nat, k: nat, steps: seq<Step>, lratChain: seq<LS.Id>)
    requires Sound(f) && Conflicting(f, conflict) && i < |f.trail|
    requires Analyzing(f, conflict, g, i + 1, steps, lratChain)
    requires ReasonStep(f, Step(k, f.trail[i])) && LevelOf(f, f.trail[i]) == f.level
    requires Gathering(f, g', i) && g.seen <= g'.seen
    requires forall l :: k < |f.db| && l in f.db[k].lits && l != f.trail[i] ==> Var(l) in g'.seen
    ensures k < |f.db| && Analyzing(f, conflict, g', i, [Step(k, f.trail[i])] + steps, lratChain + [f.db[k].id])
  {
    var s := Step(k, f.trail[i]);
    Resolved(f, g.seen, g'.seen, i, k, steps, Falsify(conflict));
    ReasonStepUsable(f, s);
    StepHinted(f, conflict, s, steps, i);
    assert ([s] + steps)[1..] == steps;
    ReversedLast(lratChain, f.db[k].id);
  }

  lemma StepHinted(f: Frame, conflict: nat, s: Step, steps: seq<Step>, i: nat)
    requires Sound(f) && Conflicting(f, conflict) && i < |f.trail| && s.lit == f.trail[i]
    requires Hinted(f.db, steps, Falsify(conflict)) && ReasonStep(f, s)
    requires forall x {:trigger ReasonStep(f, x)} :: x in steps ==> ReasonStep(f, x)
    requires forall x :: x in steps ==> x.lit !in f.trail[..i+1]
    ensures Hinted(f.db, [s] + steps, Falsify(conflict))
    ensures forall x :: x in [s] + steps ==> x.lit !in f.trail[..i]
  {
    ReasonStepUsable(f, s);
    assert f.trail[..i+1] == f.trail[..i] + [f.trail[i]];
    forall x | x in steps ensures x.clause != s.clause {
      assert ReasonStep(f, x);
      if x.clause == s.clause {
        ReasonStepsDiffer(f, s, x);
      }
    }
    assert s.lit !in f.trail[..i] by {
      forall q | 0 <= q < i ensures f.trail[q] != s.lit {
        assert Var(f.trail[q]) != Var(f.trail[i]);
      }
    }
  }
}
