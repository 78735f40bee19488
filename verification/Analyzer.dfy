// Conflict analysis: resolution along the trail up to the first unique implication point,
// recursive minimization of the learned clause, and the LRAT chain assembled along the way.
module Analyzer {
  import opened Cnf
  import opened LratChains
  import opened Analysis
  import opened Minimization
  import opened Removal
  import LS = LratSpec
  import WA = Watching

  class Analyzer {
    const f: Frame
    const conflict: nat

    // Marks of variables.
    var seen: set<nat>
    var keep: set<nat>
    var removable: set<nat>
    var poison: set<nat>
    var added: set<nat>

    var analyzed: seq<Lit>
    var clause: seq<Lit>
    var unitAnalyzed: seq<Lit>
    var minimized: seq<Lit>
    var levels: seq<nat>
    var seenCount: map<nat, nat>     // seen literals of a level
    var seenTrail: map<nat, nat>     // smallest trail position of them

    // The chain is collected from its end.
    var lratChain: seq<LS.Id>
    var unitChain: seq<LS.Id>
    var minimizeChain: seq<LS.Id>

    // The steps that 'lratChain' and 'minimizeChain' stand for.
    ghost var steps: seq<Step>
    ghost var mini: seq<Step>

    constructor (f: Frame, conflict: nat)
      requires Sound(f) && f.level > 0 && Conflicting(f, conflict)
      ensures this.f == f && this.conflict == conflict && seen == {} && keep == {} && removable == {} && poison == {}
      ensures added == {} && clause == [] && unitAnalyzed == [] && lratChain == [] && unitChain == []
      ensures minimizeChain == [] && steps == [] && mini == []
    {
      this.f, this.conflict := f, conflict;
      seen, keep, removable, poison, added := {}, {}, {}, {}, {};
      analyzed, clause, unitAnalyzed, minimized, levels, seenCount, seenTrail := [], [], [], [], [], map[], map[];
      lratChain, unitChain, minimizeChain, steps, mini := [], [], [], [], [];
    }

    ghost function State(open: nat, resolventSize: nat): Gathered
      reads this
    {
      Gathered(seen, clause, unitAnalyzed, unitChain, open, resolventSize)
    }

    // Keep track of how many literals of a level were seen, and of the first one.
    method SeeLevel(lit: Lit, ghost vars: set<nat>, ghost q: nat)
      requires DistinctVars(f.trail) && q < |f.trail| && f.trail[q] == -lit && Var(lit) in f.info && f.info[Var(lit)].pos == q
      requires Var(lit) !in vars && Levels(f, vars, seenCount, seenTrail)
      modifies `levels, `seenCount, `seenTrail
      ensures Levels(f, vars + {Var(lit)}, seenCount, seenTrail)
    {
      assert Var(f.trail[q]) == Var(lit) && LevelOf(f, f.trail[q]) == f.info[Var(lit)].level;
      ghost var count0, first0 := seenCount, seenTrail;
      var v := f.info[Var(lit)];
      var count := if v.level in seenCount then seenCount[v.level] else 0;
      if count == 0 {
        levels := levels + [v.level];
      }
      seenCount := seenCount[v.level := count + 1];
      if v.level !in seenTrail || v.pos < seenTrail[v.level] {
        seenTrail := seenTrail[v.level := v.pos];
      }
      LevelsNext(f, vars, count0, first0, q, seenCount, seenTrail);
    }

    // A falsified literal of the conflict or of a reason.
    method AnalyzeLiteral(lit: Lit, open0: nat, resolventSize0: nat, ghost i: nat, ghost q: nat)
      returns (open: nat, resolventSize: nat)
      requires Sound(f) && f.level > 0 && q < i && Gathering(f, State(open0, resolventSize0), i) && f.trail[q] == -lit
      requires Levels(f, seen, seenCount, seenTrail)
      modifies `seen, `analyzed, `clause, `unitAnalyzed, `unitChain, `levels, `seenCount, `seenTrail
      ensures Gathering(f, State(open, resolventSize), i) && Var(lit) in seen && old(seen) <= seen
      ensures LevelOf(f, lit) == 0 ==> Rooted(f, lit)
      ensures State(open, resolventSize) == Gather(f, old(State(open0, resolventSize0)), lit)
      ensures Levels(f, seen, seenCount, seenTrail)
    {
      open, resolventSize := open0, resolventSize0;
      GatherKeeps(f, State(open, resolventSize), i, lit, q);
      OnTrail(f, lit, q);
      var v := f.info[Var(lit)];
      if v.level == 0 {
        if Var(lit) in seen { return; }
        FixedSeen(f, seen, seenCount, seenTrail, lit, q);
        seen := seen + {Var(lit)};
        unitAnalyzed := unitAnalyzed + [lit];
        unitChain := unitChain + [f.db[f.units[-lit]].id];
        return;
      }
      if Var(lit) in seen { return; }
      seen := seen + {Var(lit)};
      analyzed := analyzed + [lit];
      if v.level < f.level {
        clause := clause + [lit];
      }
      SeeLevel(lit, old(seen), q);
      resolventSize := resolventSize + 1;
      if v.level == f.level {
        open := open + 1;
      }
    }

    // All literals of a clause but the resolved one, which are false on the trail before 'i'.
    method AnalyzeReason(lit: Lit, reason: nat, open0: nat, resolventSize0: nat, ghost i: nat)
      returns (open: nat, resolventSize: nat)
      requires Sound(f) && f.level > 0 && reason < |f.db| && Gathering(f, State(open0, resolventSize0), i)
      requires forall l :: l in f.db[reason].lits && l != lit ==> -l in f.trail[..i]
      requires Levels(f, seen, seenCount, seenTrail)
      modifies `seen, `analyzed, `clause, `unitAnalyzed, `unitChain, `levels, `seenCount, `seenTrail, `lratChain
      ensures Gathering(f, State(open, resolventSize), i) && old(seen) <= seen
      ensures forall l :: l in f.db[reason].lits && l != lit ==> Var(l) in seen
      ensures lratChain == old(lratChain) + [f.db[reason].id] && Levels(f, seen, seenCount, seenTrail)
    {
      open, resolventSize := open0, resolventSize0;
      lratChain := lratChain + [f.db[reason].id];
      var lits := f.db[reason].lits;
      for j := 0 to |lits|
        invariant Gathering(f, State(open, resolventSize), i) && old(seen) <= seen
        invariant forall n :: 0 <= n < j && lits[n] != lit ==> Var(lits[n]) in seen
        invariant lratChain == old(lratChain) + [f.db[reason].id] && Levels(f, seen, seenCount, seenTrail)
      {
        var other := lits[j];
        if other != lit {
          assert other in f.db[reason].lits;
          ghost var q: nat :| q < i && f.trail[q] == -other;
          open, resolventSize := AnalyzeLiteral(other, open, resolventSize, i, q);
        }
      }
    }

    // The next seen literal of the conflict level down the trail.
    method NextUip(i0: nat, open: nat, resolventSize: nat) returns (i: nat)
      requires i0 <= |f.trail| && open > 0 && Analyzing(f, conflict, State(open, resolventSize), i0, steps, lratChain)
      ensures i < i0 && Analyzing(f, conflict, State(open, resolventSize), i + 1, steps, lratChain)
      ensures Var(f.trail[i]) in seen && LevelOf(f, f.trail[i]) == f.level
    {
      i := i0;
      while true
        invariant i <= i0 && Analyzing(f, conflict, State(open, resolventSize), i, steps, lratChain)
        decreases i
      {
        assert i > 0;
        i := i - 1;
        if Var(f.trail[i]) in seen && LevelOf(f, f.trail[i]) == f.level {
          return;
        }
        SkipTrail(f, conflict, State(open, resolventSize), i, steps, lratChain);
      }
    }

    // All literals of the conflict are seen first.
    method AnalyzeConflict() returns (open: nat, resolventSize: nat)
      requires Sound(f) && f.level > 0 && Conflicting(f, conflict)
      requires State(0, 0) == Nothing() && lratChain == [] && Levels(f, seen, seenCount, seenTrail)
      modifies `seen, `analyzed, `clause, `unitAnalyzed, `unitChain, `levels, `seenCount, `seenTrail, `lratChain
      ensures open > 0 && Analyzing(f, conflict, State(open, resolventSize), |f.trail|, [], lratChain)
      ensures Levels(f, seen, seenCount, seenTrail)
    {
      NothingGathered(f);
      assert f.trail[..|f.trail|] == f.trail && forall l :: l in LitsOf(f.trail) ==> l in f.trail;
      open, resolventSize := AnalyzeReason(0, conflict, 0, 0, |f.trail|);
      AnalysisStarts(f, conflict, State(open, resolventSize), lratChain);
    }

    // Derive the first unique implication point clause.
    method DeriveFirstUip() returns (ghost g: Gathered, ghost at: nat)
      requires Sound(f) && f.level > 0 && Conflicting(f, conflict)
      requires State(0, 0) == Nothing() && lratChain == [] && steps == []
      modifies `seen, `analyzed, `clause, `unitAnalyzed, `unitChain, `levels, `seenCount, `seenTrail, `lratChain, `steps
      ensures FirstUip(f, conflict, g, at, steps, lratChain, clause)
      ensures g.seen == seen && g.unitAnalyzed == unitAnalyzed && g.unitChain == unitChain
      ensures Levels(f, seen, seenCount, seenTrail)
    {
      var open, resolventSize := AnalyzeConflict();
      var i: nat := |f.trail|;
      while true
        invariant i <= |f.trail| && open > 0 && Analyzing(f, conflict, State(open, resolventSize), i, steps, lratChain)
        invariant Levels(f, seen, seenCount, seenTrail)
        decreases i
      {
        i := NextUip(i, open, resolventSize);
        g, at := State(open, resolventSize), i;
        if open == 1 { break; }
        open, resolventSize := ResolveNext(i, g, open, resolventSize);
      }
      clause := clause + [-f.trail[i]];
    }

    // The literal is not the last one of the conflict level, so it has a reason.
    method ResolveNext(i: nat, ghost g: Gathered, open0: nat, resolventSize0: nat) returns (open: nat, resolventSize: nat)
      requires Sound(f) && f.level > 0 && Conflicting(f, conflict) && i < |f.trail| && open0 > 1 && g == State(open0, resolventSize0)
      requires Analyzing(f, conflict, g, i + 1, steps, lratChain)
      requires LevelOf(f, f.trail[i]) == f.level && Var(f.trail[i]) in seen && Levels(f, seen, seenCount, seenTrail)
      modifies `seen, `analyzed, `clause, `unitAnalyzed, `unitChain, `levels, `seenCount, `seenTrail, `lratChain, `steps
      ensures open > 0 && Analyzing(f, conflict, State(open, resolventSize), i, steps, lratChain)
      ensures Levels(f, seen, seenCount, seenTrail)
    {
      ReasonExists(f, g, i);
      var k := f.info[Var(f.trail[i])].source.clause;
      open, resolventSize := ResolveReason(i, k, g, open0 - 1, resolventSize0 - 1);
    }

    // Resolve with the reason of the literal at position 'i'.
    method ResolveReason(i: nat, k: nat, ghost g: Gathered, open0: nat, resolventSize0: nat)
      returns (open: nat, resolventSize: nat)
      requires Sound(f) && f.level > 0 && Conflicting(f, conflict) && i < |f.trail|
      requires Analyzing(f, conflict, g, i + 1, steps, lratChain) && ReasonStep(f, Step(k, f.trail[i]))
      requires LevelOf(f, f.trail[i]) == f.level && open0 == CountOpen(f, seen, i) > 0
      requires g == State(open0 + 1, resolventSize0 + 1) && Levels(f, seen, seenCount, seenTrail)
      modifies `seen, `analyzed, `clause, `unitAnalyzed, `unitChain, `levels, `seenCount, `seenTrail, `lratChain, `steps
      ensures open > 0 && Analyzing(f, conflict, State(open, resolventSize), i, steps, lratChain)
      ensures Levels(f, seen, seenCount, seenTrail)
    {
      ReasonBefore(f, k, i);
      ghost var before := lratChain;
      open, resolventSize := AnalyzeReason(f.trail[i], k, open0, resolventSize0, i);
      AnalysisStep(f, conflict, g, State(open, resolventSize), i, k, steps, before);
      OpenMonotone(f, g.seen, seen, i);
      steps := [Step(k, f.trail[i])] + steps;
    }

    // Is a true literal implied by literals that are kept?  The answer is exact unless the limit on the
    // depth is hit: literals removed are not exposed, and the others are.
    method MinimizeLiteral(lit: Lit, depth: nat, limit: nat, ghost q: nat, ghost path: seq<nat>) returns (res: bool)
      requires Sound(f) && q < |f.trail| && f.trail[q] == lit && Removables(f, keep, removable)
      requires Cached(f, keep, removable, poison, limit) && Levels(f, keep, seenCount, seenTrail)
      requires Descent(f, path) && |path| == depth + 1 && path[depth] == q
      modifies `removable, `poison, `minimized
      ensures Removables(f, keep, removable) && old(removable) <= removable
      ensures Cached(f, keep, removable, poison, limit) && Behind(f, poison - old(poison), q)
      ensures res ==> Good(f, keep, removable, lit)
      ensures res && 0 < LevelOf(f, lit) && Var(lit) !in keep ==> LevelOf(f, lit) < f.level
      ensures res ==> !Exposed(f, keep, q)
      ensures !res && Ordinary(f, limit) ==> Exposed(f, keep, q) || (depth == 0 && Lonely(f, seenCount, q))
      decreases q
    {
      assert Sourced(f, q);
      CachedUse(f, keep, removable, poison, limit, q);
      var v := f.info[Var(lit)];
      if v.level == 0 || Var(lit) in removable || Var(lit) in keep {
        assert Var(lit) in removable ==> RemovableAt(f, keep, removable, q);
        return true;
      }
      if v.source.Decided? || Var(lit) in poison || v.level == f.level { return false; }
      if depth == 0 && !(v.level in seenCount && seenCount[v.level] >= 2) { return false; }
      if v.level in seenTrail && v.pos <= seenTrail[v.level] {
        EarlyAbort(f, keep, seenCount, seenTrail, q);
        return false;
      }
      if depth > limit { return false; }
      res := MinimizeReason(lit, v.source.clause, depth, limit, q, path);
      if res {
        RemovablesMore(f, keep, removable, q);
        CachedRemovable(f, keep, removable, poison, limit, q);
        removable := removable + {Var(lit)};
      } else {
        CachedPoison(f, keep, removable, poison, limit, q);
        poison := poison + {Var(lit)};
      }
      minimized := minimized + [lit];
    }

    // Are all other literals of the reason implied?
    method MinimizeReason(lit: Lit, k: nat, depth: nat, limit: nat, ghost q: nat, ghost path: seq<nat>) returns (res: bool)
      requires Sound(f) && q < |f.trail| && f.trail[q] == lit && Removables(f, keep, removable)
      requires 0 < LevelOf(f, lit) < f.level && f.info[Var(lit)].source == Propagated(k) && Var(lit) !in keep
      requires Sourced(f, q)
      requires Cached(f, keep, removable, poison, limit) && Levels(f, keep, seenCount, seenTrail)
      requires Descent(f, path) && |path| == depth + 1 && path[depth] == q
      modifies `removable, `poison, `minimized
      ensures Removables(f, keep, removable) && old(removable) <= removable
      ensures Cached(f, keep, removable, poison, limit) && Behind(f, poison - old(poison), q)
      ensures res ==> RemovableAt(f, keep, removable, q)
      ensures res ==> !Exposed(f, keep, q)
      ensures !res && Ordinary(f, limit) ==> Exposed(f, keep, q)
      decreases q, 1
    {
      res := true;
      var lits := f.db[k].lits;
      var i: nat := 0;
      while res && i < |lits|
        invariant i <= |lits| && Removables(f, keep, removable) && old(removable) <= removable && keep == old(keep)
        invariant Cached(f, keep, removable, poison, limit) && Behind(f, poison - old(poison), q)
        invariant res ==> forall n :: 0 <= n < i && lits[n] != lit ==> Good(f, keep, removable, lits[n])
        invariant res ==> HiddenUpTo(f, keep, q, lits, i)
        invariant !res && Ordinary(f, limit) ==> Exposed(f, keep, q)
        decreases res, |lits| - i
      {
        var other := lits[i];
        i := i + 1;
        if other != lit {
          assert other in lits;
          ghost var before := poison;
          res := MinimizeOther(lit, other, k, depth, limit, q, path);
          BehindMore(f, old(poison), before, poison, q, q);
          if res {
            HiddenNext(f, keep, q, lits, i);
          }
        } else {
          HiddenSkip(f, keep, q, lits, i);
        }
      }
      if res {
        Hidden(f, keep, q, k);
      }
    }

    // Is one of the other literals implied?
    method MinimizeOther(lit: Lit, other: Lit, k: nat, depth: nat, limit: nat, ghost q: nat, ghost path: seq<nat>) returns (res: bool)
      requires Sound(f) && q < |f.trail| && f.trail[q] == lit && Removables(f, keep, removable)
      requires 0 < LevelOf(f, lit) < f.level && f.info[Var(lit)].source == Propagated(k) && Var(lit) !in keep
      requires Sourced(f, q) && other in f.db[k].lits && other != lit
      requires Cached(f, keep, removable, poison, limit) && Levels(f, keep, seenCount, seenTrail)
      requires Descent(f, path) && |path| == depth + 1 && path[depth] == q
      modifies `removable, `poison, `minimized
      ensures Removables(f, keep, removable) && old(removable) <= removable
      ensures Cached(f, keep, removable, poison, limit) && Behind(f, poison - old(poison), q)
      ensures res ==> Good(f, keep, removable, other) && HiddenAt(f, keep, q, other)
      ensures !res && Ordinary(f, limit) ==> Exposed(f, keep, q)
      decreases q, 0
    {
      assert -other in f.trail[..q];
      ghost var r: nat :| r < q && f.trail[r] == -other;
      assert Antecedent(f, q, r) by { assert -(-other) == other; }
      DescentNext(f, path, r);
      res := MinimizeLiteral(-other, depth + 1, limit, r, path + [r]);
      assert Var(-other) == Var(other);
    }

    // Collect the identifiers of the reasons that imply a literal.
    method CalculateMinimizeChain(lit: Lit, ghost q: nat)
      requires Sound(f) && f.level > 0 && q < |f.trail| && f.trail[q] == lit && Good(f, keep, removable, lit)
      requires Removables(f, keep, removable) && Collecting(f, keep, seen, added, mini, q + 1)
      requires RootsListed(f, seen, unitAnalyzed, unitChain) && InDb(f.db, mini) && minimizeChain == StepIds(f.db, mini)
      modifies `seen, `added, `analyzed, `unitAnalyzed, `unitChain, `minimizeChain, `mini
      ensures Collecting(f, keep, seen, added, mini, q + 1) && Covered(f, keep, seen, mini, lit)
      ensures Below(f, q + 1, old(seen), old(added), old(mini), seen, added, mini)
      ensures RootsListed(f, seen, unitAnalyzed, unitChain) && InDb(f.db, mini) && minimizeChain == StepIds(f.db, mini)
      decreases q
    {
      GoodSource(f, keep, removable, q);
      var v := f.info[Var(lit)];
      if Var(lit) in keep || Var(lit) in added {
        AlreadyCovered(f, keep, seen, added, mini, q);
        return;
      }
      if v.level == 0 {
        if Var(lit) in seen {
          RootCovered(f, keep, seen, mini, q);
          return;
        }
        RootsMore(f, seen, unitAnalyzed, unitChain, q);
        CollectingSeen(f, keep, seen, keep, seen + {Var(lit)}, added, mini, q + 1);
        seen := seen + {Var(lit)};
        analyzed := analyzed + [lit];
        unitAnalyzed := unitAnalyzed + [-lit];
        unitChain := unitChain + [f.db[f.units[lit]].id];
        RootCovered(f, keep, seen, mini, q);
        return;
      }
      CollectReason(lit, v.source.clause, q);
    }

    // The reason of a removable literal.
    method CollectReason(lit: Lit, k: nat, ghost q: nat)
      requires Sound(f) && f.level > 0 && q < |f.trail| && f.trail[q] == lit && Var(lit) in removable && Var(lit) !in added
      requires LevelOf(f, lit) > 0 && f.info[Var(lit)].source == Propagated(k)
      requires Removables(f, keep, removable) && Collecting(f, keep, seen, added, mini, q + 1)
      requires RootsListed(f, seen, unitAnalyzed, unitChain) && InDb(f.db, mini) && minimizeChain == StepIds(f.db, mini)
      modifies `seen, `added, `analyzed, `unitAnalyzed, `unitChain, `minimizeChain, `mini
      ensures Collecting(f, keep, seen, added, mini, q + 1) && Covered(f, keep, seen, mini, lit)
      ensures Below(f, q + 1, old(seen), old(added), old(mini), seen, added, mini)
      ensures RootsListed(f, seen, unitAnalyzed, unitChain) && InDb(f.db, mini) && minimizeChain == StepIds(f.db, mini)
      decreases q, 1
    {
      RemovableReason(f, keep, removable, q, k);
      CollectingMark(f, keep, seen, added, mini, q);
      added := added + {Var(lit)};
      CollectOthers(lit, k, q);
      CollectStep(f, keep, seen, added, mini, q, k);
      StepIdsLast(f.db, mini, Step(k, lit));
      BelowStep(f, q, old(seen), old(added), old(mini), seen, added, mini, k);
      mini := mini + [Step(k, lit)];
      minimizeChain := minimizeChain + [f.db[k].id];
    }

    // All other literals of the reason.
    method CollectOthers(lit: Lit, k: nat, ghost q: nat)
      requires Sound(f) && f.level > 0 && k < |f.db| && q <= |f.trail|
      requires forall l :: l in f.db[k].lits && l != lit ==> Good(f, keep, removable, l) && -l in f.trail[..q]
      requires Removables(f, keep, removable) && Collecting(f, keep, seen, added, mini, q)
      requires RootsListed(f, seen, unitAnalyzed, unitChain) && InDb(f.db, mini) && minimizeChain == StepIds(f.db, mini)
      modifies `seen, `added, `analyzed, `unitAnalyzed, `unitChain, `minimizeChain, `mini
      ensures Collecting(f, keep, seen, added, mini, q) && Below(f, q, old(seen), old(added), old(mini), seen, added, mini)
      ensures forall l :: l in f.db[k].lits && l != lit ==> Covered(f, keep, seen, mini, -l)
      ensures RootsListed(f, seen, unitAnalyzed, unitChain) && InDb(f.db, mini) && minimizeChain == StepIds(f.db, mini)
      decreases q, 0, 1
    {
      var lits := f.db[k].lits;
      for i := 0 to |lits|
        invariant Collecting(f, keep, seen, added, mini, q)
        invariant Below(f, q, old(seen), old(added), old(mini), seen, added, mini)
        invariant AllCovered(f, keep, seen, mini, lits, i, lit)
        invariant RootsListed(f, seen, unitAnalyzed, unitChain) && InDb(f.db, mini) && minimizeChain == StepIds(f.db, mini)
      {
        if lits[i] != lit {
          assert lits[i] in lits;
          ghost var s1, a1, m1 := seen, added, mini;
          CollectOther(lits[i], q);
          BelowTransitive(f, q, old(seen), old(added), old(mini), s1, a1, m1, seen, added, mini);
          CoveredStays(f, keep, s1, m1, seen, mini, lits, i, lit);
        }
      }
    }

    method CollectOther(other: Lit, ghost q: nat)
      requires Sound(f) && f.level > 0 && q <= |f.trail| && Good(f, keep, removable, other) && -other in f.trail[..q]
      requires Removables(f, keep, removable) && Collecting(f, keep, seen, added, mini, q)
      requires RootsListed(f, seen, unitAnalyzed, unitChain) && InDb(f.db, mini) && minimizeChain == StepIds(f.db, mini)
      modifies `seen, `added, `analyzed, `unitAnalyzed, `unitChain, `minimizeChain, `mini
      ensures Collecting(f, keep, seen, added, mini, q) && Below(f, q, old(seen), old(added), old(mini), seen, added, mini)
      ensures Covered(f, keep, seen, mini, -other)
      ensures RootsListed(f, seen, unitAnalyzed, unitChain) && InDb(f.db, mini) && minimizeChain == StepIds(f.db, mini)
      decreases q, 0, 0
    {
      ghost var r: nat :| r < q && f.trail[r] == -other;
      assert Var(-other) == Var(other);
      CollectingLess(f, keep, seen, added, mini, r + 1, q);
      CalculateMinimizeChain(-other, r);
      CollectingWiden(f, keep, old(seen), old(added), old(mini), seen, added, mini, r, q);
    }

    // Drop the literals of the clause that are implied by the remaining ones.
    method MinimizeClause(limit: nat, ghost g: Gathered, ghost at: nat) returns (ghost kept: set<nat>)
      requires FirstUip(f, conflict, g, at, steps, lratChain, clause) && g.seen == seen
      requires g.unitAnalyzed == unitAnalyzed && g.unitChain == unitChain
      requires keep == {} && removable == {} && added == {} && poison == {} && mini == [] && minimizeChain == []
      requires Levels(f, seen, seenCount, seenTrail)
      modifies `clause, `seen, `keep, `removable, `poison, `added, `analyzed, `minimized, `unitAnalyzed, `unitChain, `minimizeChain, `mini, `lratChain
      ensures kept == VarsIn(clause) && g.seen <= seen && LitsOf(clause) <= LitsOf(old(clause)) && NoRepeats(clause)
      ensures -f.trail[at] in clause
      ensures forall l :: l in old(clause) ==> Covered(f, kept, seen, mini, -l)
      ensures Collected(f, kept, seen, mini, unitAnalyzed, unitChain) && lratChain == old(lratChain) + Reversed(StepIds(f.db, mini))
      ensures Minimal(f, limit, old(clause), clause)
    {
      ghost var uip := -f.trail[at];
      UipFacts(f, conflict, g, at, steps, lratChain, clause);
      var sorted := MinimizeSort(uip);
      ClauseLevels(f, conflict, g, at, steps, lratChain, clause, sorted, seenCount, seenTrail);
      SievedStart(f, sorted, limit);
      clause := [];
      MinimizeAll(sorted, limit, uip);
      SiftingDone(f, sorted, clause, keep, removable, seen, added, mini, uip);
      WA.SameMembers(sorted, old(clause));
      kept := keep;
      MinimalIntro(f, sorted, old(clause), clause, keep, removable, poison, limit, uip);
      FinishMinimizing();
    }

    // Reset all marks, and append the reasons collected.
    method FinishMinimizing()
      modifies `keep, `removable, `poison, `added, `minimized, `lratChain, `minimizeChain
      ensures keep == {} && removable == {} && added == {} && poison == {}
      ensures lratChain == old(lratChain) + Reversed(old(minimizeChain)) && minimizeChain == []
    {
      keep, removable, poison, added, minimized := {}, {}, {}, {}, [];
      lratChain := lratChain + Reversed(minimizeChain);
      minimizeChain := [];
    }

    // Learn a clause from the conflict.  'minimize' and 'limit' are options of the solver.
    method Analyze(minimize: bool, limit: nat) returns (ghost uip: Lit, ghost first: seq<Lit>)
      requires Sound(f) && f.level > 0 && Conflicting(f, conflict)
      requires State(0, 0) == Nothing() && lratChain == [] && steps == []
      requires keep == {} && removable == {} && added == {} && poison == {} && mini == [] && minimizeChain == []
      requires Levels(f, seen, seenCount, seenTrail)
      modifies this
      ensures NoRepeats(clause) && uip in clause
      ensures forall l :: l in clause ==> -l in f.trail && LevelOf(f, l) > 0 && (LevelOf(f, l) == f.level <==> l == uip)
      ensures Learned(f, conflict, clause, lratChain)
      ensures FirstClause(f, conflict, first) && LitsOf(clause) <= LitsOf(first)
      ensures if minimize && |first| > 1 then Minimal(f, limit, first, clause) else clause == first
    {
      ghost var g: Gathered;
      ghost var at: nat;
      g, at := DeriveFirstUip();
      uip := -f.trail[at];
      UipFacts(f, conflict, g, at, steps, lratChain, clause);
      first := clause;
      ghost var chain0 := lratChain;
      assert FirstClause(f, conflict, first);
      ghost var kept;
      kept := MinimizeIf(minimize, limit, g, at);
      Finish(f, conflict, g, at, steps, chain0, first, clause, kept, seen, mini, unitAnalyzed, unitChain);
      lratChain := lratChain + unitChain;
      unitChain := [];
      lratChain := Reversed(lratChain);
    }

    method MinimizeIf(minimize: bool, limit: nat, ghost g: Gathered, ghost at: nat) returns (ghost kept: set<nat>)
      requires FirstUip(f, conflict, g, at, steps, lratChain, clause) && g.seen == seen
      requires g.unitAnalyzed == unitAnalyzed && g.unitChain == unitChain
      requires keep == {} && removable == {} && added == {} && poison == {} && mini == [] && minimizeChain == []
      requires Levels(f, seen, seenCount, seenTrail)
      modifies `clause, `seen, `keep, `removable, `poison, `added, `analyzed, `minimized, `unitAnalyzed, `unitChain, `minimizeChain, `mini, `lratChain
      ensures kept == VarsIn(clause) && g.seen <= seen && LitsOf(clause) <= LitsOf(old(clause)) && NoRepeats(clause)
      ensures -f.trail[at] in clause && InDb(f.db, mini)
      ensures forall l :: l in old(clause) ==> Covered(f, kept, seen, mini, -l)
      ensures Collected(f, kept, seen, mini, unitAnalyzed, unitChain) && lratChain == old(lratChain) + Reversed(StepIds(f.db, mini))
      ensures if minimize && |old(clause)| > 1 then Minimal(f, limit, old(clause), clause) else clause == old(clause)
    {
      if |clause| > 1 && minimize {
        kept := MinimizeClause(limit, g, at);
        return;
      }
      kept := VarsIn(clause);
      UipFacts(f, conflict, g, at, steps, lratChain, clause);
      NothingMinimized(f, seen, clause, unitAnalyzed, unitChain);
      assert lratChain == lratChain + Reversed(StepIds(f.db, mini));
    }

    // The literals of the clause in the order of the trail.
    method MinimizeSort(ghost uip: Lit) returns (sorted: seq<Lit>)
      requires NoRepeats(clause) && uip in clause
      requires forall l {:trigger FalseLiteral(f, l, uip)} :: l in clause ==> FalseLiteral(f, l, uip)
      ensures LitsOf(sorted) == LitsOf(clause) && Sifting(f, sorted, 0, [], {}, {}, seen, {}, [], uip) && Ordered(f, sorted)
    {
      sorted := SortBy((a, b) => Position(f, a) < Position(f, b), clause);
      SortOrders(f, (a, b) => Position(f, a) < Position(f, b), clause);
      SortKeeps((a, b) => Position(f, a) < Position(f, b), clause);
      SiftingStarts(f, clause, sorted, seen, uip);
    }

    method MinimizeAll(sorted: seq<Lit>, limit: nat, ghost uip: Lit)
      requires Sound(f) && f.level > 0 && Sifting(f, sorted, 0, clause, keep, removable, seen, added, mini, uip)
      requires RootsListed(f, seen, unitAnalyzed, unitChain) && InDb(f.db, mini) && minimizeChain == StepIds(f.db, mini)
      requires Sieved(f, sorted, 0, keep, removable, poison, limit) && Levels(f, VarsIn(sorted), seenCount, seenTrail)
      modifies `clause, `seen, `keep, `removable, `poison, `added, `analyzed, `minimized, `unitAnalyzed, `unitChain, `minimizeChain, `mini
      ensures Sifting(f, sorted, |sorted|, clause, keep, removable, seen, added, mini, uip) && old(seen) <= seen
      ensures Sieved(f, sorted, |sorted|, keep, removable, poison, limit)
      ensures RootsListed(f, seen, unitAnalyzed, unitChain) && InDb(f.db, mini) && minimizeChain == StepIds(f.db, mini)
    {
      for i := 0 to |sorted|
        invariant Sifting(f, sorted, i, clause, keep, removable, seen, added, mini, uip) && old(seen) <= seen
        invariant RootsListed(f, seen, unitAnalyzed, unitChain)
        invariant InDb(f.db, mini) && minimizeChain == StepIds(f.db, mini)
        invariant Sieved(f, sorted, i, keep, removable, poison, limit)
      {
        MinimizeNext(sorted, i, limit, uip);
      }
    }

    // Is the next literal removed?
    method JudgeNext(sorted: seq<Lit>, i: nat, limit: nat, ghost q: nat, ghost clause: seq<Lit>, ghost uip: Lit) returns (res: bool)
      requires Sound(f) && i < |sorted| && q < |f.trail| && f.trail[q] == -sorted[i]
      requires Sifting(f, sorted, i, clause, keep, removable, seen, added, mini, uip) && Removables(f, keep, removable)
      requires Sieved(f, sorted, i, keep, removable, poison, limit) && Levels(f, VarsIn(sorted), seenCount, seenTrail)
      modifies `removable, `poison, `minimized
      ensures Removables(f, keep, removable) && old(removable) <= removable
      ensures res ==> Good(f, keep, removable, -sorted[i])
      ensures res && 0 < LevelOf(f, -sorted[i]) && Var(-sorted[i]) !in keep ==> LevelOf(f, -sorted[i]) < f.level
      ensures Sieved(f, sorted, i + 1, if res then keep else keep + {Var(sorted[i])}, removable, poison, limit)
    {
      SievedParts(f, sorted, i, keep, removable, poison, limit);
      SiftingVars(f, sorted, i, clause, keep, removable, seen, added, mini, uip);
      LevelsLess(f, VarsIn(sorted), keep, seenCount, seenTrail);
      ghost var r0, p0 := removable, poison;
      res := MinimizeLiteral(-sorted[i], 0, limit, q, [q]);
      if !res && Inherited(f) && Lonely(f, seenCount, q) {
        LonelyExposed(f, VarsIn(sorted), keep, seenCount, seenTrail, q);
      }
      SievedNext(f, sorted, i, keep, r0, p0, removable, poison, limit, q, res);
    }

    // Try to drop the next literal.
    method MinimizeNext(sorted: seq<Lit>, i: nat, limit: nat, ghost uip: Lit)
      requires Sound(f) && f.level > 0 && i < |sorted|
      requires Sifting(f, sorted, i, clause, keep, removable, seen, added, mini, uip)
      requires RootsListed(f, seen, unitAnalyzed, unitChain) && InDb(f.db, mini) && minimizeChain == StepIds(f.db, mini)
      requires Sieved(f, sorted, i, keep, removable, poison, limit) && Levels(f, VarsIn(sorted), seenCount, seenTrail)
      modifies `clause, `seen, `keep, `removable, `poison, `added, `analyzed, `minimized, `unitAnalyzed, `unitChain, `minimizeChain, `mini
      ensures Sifting(f, sorted, i + 1, clause, keep, removable, seen, added, mini, uip) && old(seen) <= seen
      ensures RootsListed(f, seen, unitAnalyzed, unitChain) && InDb(f.db, mini) && minimizeChain == StepIds(f.db, mini)
      ensures Sieved(f, sorted, i + 1, keep, removable, poison, limit)
    {
      var l := sorted[i];
      SiftingNext(f, sorted, i, clause, keep, removable, seen, added, mini, uip);
      ghost var q: nat :| q < |f.trail| && f.trail[q] == -l;
      var res := JudgeNext(sorted, i, limit, q, clause, uip);
      ghost var s1, a1, m1 := seen, added, mini;
      if res {
        CollectingLess(f, keep, s1, a1, m1, q + 1, |f.trail|);
        CalculateMinimizeChain(-l, q);
        CollectingWiden(f, keep, s1, a1, m1, seen, added, mini, q, |f.trail|);
        SiftingDrop(f, sorted, i, clause, keep, old(removable), removable, s1, a1, m1, seen, added, mini, uip);
      } else {
        SiftingKeep(f, sorted, i, clause, keep, old(removable), removable, seen, added, mini, uip);
        clause := clause + [l];
        keep := keep + {Var(l)};
      }
    }
  }

  // The only literal of its level that was seen.
  ghost predicate Lonely(f: Frame, count: map<nat, nat>, q: nat) {
    q < |f.trail| && var v := LevelOf(f, f.trail[q]); v > 0 && (v !in count || count[v] < 2)
  }

  lemma FixedSeen(f: Frame, vars: set<nat>, count: map<nat, nat>, first: map<nat, nat>, lit: Lit, q: nat)
    requires Levels(f, vars, count, first) && Sound(f) && q < |f.trail| && f.trail[q] == -lit && LevelOf(f, lit) == 0
    ensures Levels(f, vars + {Var(lit)}, count, first)
  {
    assert Var(f.trail[q]) == Var(lit);
    LevelsFixed(f, vars, count, first, q);
  }

  lemma EarlyAbort(f: Frame, keep: set<nat>, count: map<nat, nat>, first: map<nat, nat>, q: nat)
    requires Levels(f, keep, count, first) && q < |f.trail| && Var(f.trail[q]) !in keep
    requires var v := LevelOf(f, f.trail[q]); v > 0 && v in first && q <= first[v]
    ensures Inherited(f) ==> Exposed(f, keep, q)
  {
    if Inherited(f) {
      FirstExposed(f, keep, count, first, q);
    }
  }

  // The literal that implies the one at 'q' is not exposed.
  ghost predicate HiddenAt(f: Frame, keep: set<nat>, q: nat, other: Lit) {
    forall r: nat {:trigger Exposed(f, keep, r)} :: r < q && q < |f.trail| && -f.trail[r] == other ==> !Exposed(f, keep, r)
  }

  ghost predicate HiddenUpTo(f: Frame, keep: set<nat>, q: nat, lits: seq<Lit>, i: nat) {
    forall n {:trigger lits[n]} :: 0 <= n < i && n < |lits| ==> HiddenAt(f, keep, q, lits[n])
  }

  lemma HiddenNext(f: Frame, keep: set<nat>, q: nat, lits: seq<Lit>, i: nat)
    requires 0 < i <= |lits| && HiddenUpTo(f, keep, q, lits, i - 1) && HiddenAt(f, keep, q, lits[i-1])
    ensures HiddenUpTo(f, keep, q, lits, i)
  {
  }

  // The literal itself does not occur negated before.
  lemma HiddenSkip(f: Frame, keep: set<nat>, q: nat, lits: seq<Lit>, i: nat)
    requires Sound(f) && q < |f.trail| && 0 < i <= |lits| && lits[i-1] == f.trail[q]
    ensures HiddenUpTo(f, keep, q, lits, i - 1) ==> HiddenUpTo(f, keep, q, lits, i)
  {
    forall r: nat | r < q ensures -f.trail[r] != f.trail[q] {
      assert Var(-f.trail[r]) == Var(f.trail[r]);
    }
  }

  lemma Hidden(f: Frame, keep: set<nat>, q: nat, k: nat)
    requires q < |f.trail| && Var(f.trail[q]) in f.info && f.info[Var(f.trail[q])].source == Propagated(k) && k < |f.db|
    requires LevelOf(f, f.trail[q]) < f.level && HiddenUpTo(f, keep, q, f.db[k].lits, |f.db[k].lits|)
    ensures !Exposed(f, keep, q)
  {
    var lits := f.db[k].lits;
    forall r: nat | r < q && Antecedent(f, q, r) ensures !Exposed(f, keep, r) {
      var n :| 0 <= n < |lits| && lits[n] == -f.trail[r];
      assert HiddenAt(f, keep, q, lits[n]);
    }
  }

  lemma BehindMore(f: Frame, poison: set<nat>, before: set<nat>, after: set<nat>, r: nat, q: nat)
    requires Behind(f, before - poison, q) && Behind(f, after - before, r) && r <= q
    ensures Behind(f, after - poison, q)
  {
    forall p | 0 <= p < |f.trail| && Var(f.trail[p]) in after - poison ensures p <= q {
      assert Var(f.trail[p]) in before - poison || Var(f.trail[p]) in after - before;
    }
  }

  lemma OnTrail(f: Frame, lit: Lit, q: nat)
    requires Sound(f) && q < |f.trail| && f.trail[q] == -lit
    ensures Var(lit) in f.info && f.info[Var(lit)].level == LevelOf(f, lit) <= f.level && f.info[Var(lit)].pos == q
  {
    assert Sourced(f, q);
    assert Var(-lit) == Var(lit);
  }

  lemma ReasonBefore(f: Frame, k: nat, i: nat)
    requires Sound(f) && i < |f.trail| && ReasonStep(f, Step(k, f.trail[i]))
    ensures k < |f.db| && forall l :: l in f.db[k].lits && l != f.trail[i] ==> -l in f.trail[..i]
  {
    assert Sourced(f, i);
  }

  lemma {:induction false} OpenMonotone(f: Frame, seen: set<nat>, seen': set<nat>, i: nat)
    requires i <= |f.trail| && seen <= seen'
    ensures CountOpen(f, seen, i) <= CountOpen(f, seen', i)
  {
    if i > 0 {
      OpenMonotone(f, seen, seen', i - 1);
    }
  }

  ghost predicate InDb(db: Db, steps: seq<Step>) {
    forall s :: s in steps ==> s.clause < |db|
  }

  lemma AlreadyCovered(f: Frame, keep: set<nat>, seen: set<nat>, added: set<nat>, mini: seq<Step>, q: nat)
    requires q < |f.trail| && Collecting(f, keep, seen, added, mini, q + 1)
    requires Var(f.trail[q]) in keep || Var(f.trail[q]) in added
    ensures Covered(f, keep, seen, mini, f.trail[q])
  {
    assert Var(f.trail[q]) in keep ==> Assumable(f, keep, seen, q);
  }

  lemma RootCovered(f: Frame, keep: set<nat>, seen: set<nat>, mini: seq<Step>, q: nat)
    requires q < |f.trail| && LevelOf(f, f.trail[q]) == 0 && Var(f.trail[q]) in seen
    ensures Covered(f, keep, seen, mini, f.trail[q])
  {
    assert Assumable(f, keep, seen, q);
  }

  lemma RemovableReason(f: Frame, keep: set<nat>, removable: set<nat>, q: nat, k: nat)
    requires Sound(f) && Removables(f, keep, removable) && q < |f.trail| && Var(f.trail[q]) in removable
    requires LevelOf(f, f.trail[q]) > 0 && f.info[Var(f.trail[q])].source == Propagated(k)
    ensures ReasonStep(f, Step(k, f.trail[q])) && LevelOf(f, f.trail[q]) != f.level && k < |f.db|
    ensures forall l :: l in f.db[k].lits && l != f.trail[q] ==> Good(f, keep, removable, l) && -l in f.trail[..q]
  {
    assert Sourced(f, q) && RemovableAt(f, keep, removable, q);
  }

  lemma CollectingLess(f: Frame, keep: set<nat>, seen: set<nat>, added: set<nat>, steps: seq<Step>, r: nat, q: nat)
    requires Collecting(f, keep, seen, added, steps, q) && r <= q
    ensures Collecting(f, keep, seen, added, steps, r)
  {
  }

  ghost predicate AllCovered(f: Frame, keep: set<nat>, seen: set<nat>, mini: seq<Step>, lits: seq<Lit>, i: nat, lit: Lit) {
    forall n :: 0 <= n < i && n < |lits| && lits[n] != lit ==> Covered(f, keep, seen, mini, -lits[n])
  }

  lemma GoodSource(f: Frame, keep: set<nat>, removable: set<nat>, q: nat)
    requires Sound(f) && Removables(f, keep, removable) && q < |f.trail| && Good(f, keep, removable, f.trail[q])
    ensures Var(f.trail[q]) in f.info && (LevelOf(f, f.trail[q]) == 0 ==> Rooted(f, -f.trail[q]))
    ensures LevelOf(f, f.trail[q]) > 0 && Var(f.trail[q]) !in keep ==> f.info[Var(f.trail[q])].source.Propagated?
  {
    assert Sourced(f, q);
    if LevelOf(f, f.trail[q]) == 0 {
      assert Var(-f.trail[q]) == Var(f.trail[q]) && -(-f.trail[q]) == f.trail[q];
    } else if Var(f.trail[q]) !in keep {
      assert RemovableAt(f, keep, removable, q);
    }
  }

  lemma CoveredStays(f: Frame, keep: set<nat>, seen: set<nat>, mini: seq<Step>, seen': set<nat>, mini': seq<Step>,
                     lits: seq<Lit>, i: nat, lit: Lit)
    requires i <= |lits| && seen <= seen' && LitsOfSteps(mini) <= LitsOfSteps(mini')
    requires AllCovered(f, keep, seen, mini, lits, i, lit)
    ensures AllCovered(f, keep, seen', mini', lits, i, lit)
  {
    forall n | 0 <= n < i && lits[n] != lit ensures Covered(f, keep, seen', mini', -lits[n]) {
      CoveredMonotone(f, keep, seen, mini, keep, seen', mini', -lits[n]);
    }
  }

  lemma BelowStep(f: Frame, q: nat, seen: set<nat>, added: set<nat>, mini: seq<Step>, seen': set<nat>, added': set<nat>,
                  mini': seq<Step>, k: nat)
    requires Sound(f) && q < |f.trail|
    requires Below(f, q, seen, added + {Var(f.trail[q])}, mini, seen', added', mini')
    ensures Below(f, q + 1, seen, added, mini, seen', added', mini' + [Step(k, f.trail[q])])
    ensures Covered(f, {}, seen', mini' + [Step(k, f.trail[q])], f.trail[q])
  {
    var s := Step(k, f.trail[q]);
    assert s in mini' + [s] && forall x :: x in mini' ==> x in mini' + [s];
    assert forall x :: x in mini' + [s] ==> x in mini' || x == s;
    forall r | q + 1 <= r < |f.trail| ensures Var(f.trail[r]) != Var(f.trail[q]) {
    }
  }

  function Position(f: Frame, l: Lit): nat {
    if Var(l) in f.info then f.info[Var(l)].pos else 0
  }

  // ----- Sorting.

  function InsertBy(less: (Lit, Lit) -> bool, x: Lit, s: seq<Lit>): seq<Lit> {
    if s == [] || less(x, s[0]) then [x] + s else [s[0]] + InsertBy(less, x, s[1..])
  }

  function SortBy(less: (Lit, Lit) -> bool, s: seq<Lit>): seq<Lit> {
    if s == [] then [] else InsertBy(less, s[0], SortBy(less, s[1..]))
  }

  lemma {:induction false} InsertOrders(f: Frame, less: (Lit, Lit) -> bool, x: Lit, s: seq<Lit>)
    requires forall a, b :: less(a, b) <==> Position(f, a) < Position(f, b)
    requires Ordered(f, s)
    ensures Ordered(f, InsertBy(less, x, s))
  {
    var r := InsertBy(less, x, s);
    if !(s == [] || less(x, s[0])) {
      InsertOrders(f, less, x, s[1..]);
      FirstStays(f, less, x, s);
    }
  }

  lemma FirstStays(f: Frame, less: (Lit, Lit) -> bool, x: Lit, s: seq<Lit>)
    requires s != [] && Ordered(f, s) && Position(f, s[0]) <= Position(f, x)
    ensures forall l :: l in InsertBy(less, x, s[1..]) ==> Position(f, s[0]) <= Position(f, l)
  {
    var t := InsertBy(less, x, s[1..]);
    InsertKeeps(less, x, s[1..]);
    forall l | l in t ensures Position(f, s[0]) <= Position(f, l) {
      assert l in multiset(t);
      if l != x {
        var j :| 0 <= j < |s[1..]| && s[1..][j] == l;
        assert s[j+1] == l;
      }
    }
  }

  lemma {:induction false} SortOrders(f: Frame, less: (Lit, Lit) -> bool, s: seq<Lit>)
    requires forall a, b :: less(a, b) <==> Position(f, a) < Position(f, b)
    ensures Ordered(f, SortBy(less, s))
  {
    if s != [] {
      SortOrders(f, less, s[1..]);
      InsertOrders(f, less, s[0], SortBy(less, s[1..]));
    }
  }

  lemma {:induction false} InsertKeeps(less: (Lit, Lit) -> bool, x: Lit, s: seq<Lit>)
    ensures multiset(InsertBy(less, x, s)) == multiset(s) + multiset{x}
  {
    if !(s == [] || less(x, s[0])) {
      InsertKeeps(less, x, s[1..]);
      assert s == [s[0]] + s[1..];
    }
  }

  lemma {:induction false} SortMultiset(less: (Lit, Lit) -> bool, s: seq<Lit>)
    ensures multiset(SortBy(less, s)) == multiset(s)
  {
    if s != [] {
      SortMultiset(less, s[1..]);
      InsertKeeps(less, s[0], SortBy(less, s[1..]));
      assert s == [s[0]] + s[1..];
    }
  }

  lemma {:induction false} SortKeeps(less: (Lit, Lit) -> bool, s: seq<Lit>)
    ensures LitsOf(SortBy(less, s)) == LitsOf(s) && (NoRepeats(s) ==> NoRepeats(SortBy(less, s)))
  {
    var r := SortBy(less, s);
    SortMultiset(less, s);
    forall l ensures l in r <==> l in s {
      assert l in r <==> l in multiset(r);
      assert l in s <==> l in multiset(s);
    }
    if NoRepeats(s) {
      OnceEach(s);
      OnceNoRepeats(r);
    }
  }

  lemma {:induction false} OnceEach(s: seq<Lit>)
    requires NoRepeats(s)
    ensures forall l :: multiset(s)[l] <= 1
  {
    if s != [] {
      assert s == [s[0]] + s[1..];
      OnceEach(s[1..]);
      assert s[0] !in s[1..];
      assert s[0] !in multiset(s[1..]);
    }
  }

  lemma OnceNoRepeats(s: seq<Lit>)
    requires forall l :: multiset(s)[l] <= 1
    ensures NoRepeats(s)
  {
    forall i, j | 0 <= i < j < |s| ensures s[i] != s[j] {
      assert s == s[..j] + s[j..];
      assert s[i] in s[..j] && s[j] in s[j..];
      var a, b := multiset(s[..j]), multiset(s[j..]);
      assert multiset(s) == a + b;
      assert s[j] in b && s[i] in a && multiset(s)[s[i]] == a[s[i]] + b[s[i]];
    }
  }

  // ----- Going over the literals of the clause.

  function VarsIn(lits: seq<Lit>): set<nat> {
    set l | l in lits :: Var(l)
  }

  ghost predicate FalseLiteral(f: Frame, l: Lit, uip: Lit) {
    -l in f.trail && LevelOf(f, l) > 0 && (LevelOf(f, l) == f.level <==> l == uip)
  }

  // The loop invariant is looked into only where 'Look' is mentioned.
  ghost predicate Sifting(
    f: Frame, sorted: seq<Lit>, i: nat, clause: seq<Lit>, keep: set<nat>, removable: set<nat>, seen: set<nat>,
    added: set<nat>, mini: seq<Step>, uip: Lit)
  {
    forall u {:trigger Look(u)} :: Look(u) ==> Sifted(f, sorted, i, clause, keep, removable, seen, added, mini, uip)
  }

  // The first 'i' literals are kept in 'clause' or are covered by collected reasons.
  ghost predicate Sifted(
    f: Frame, sorted: seq<Lit>, i: nat, clause: seq<Lit>, keep: set<nat>, removable: set<nat>, seen: set<nat>,
    added: set<nat>, mini: seq<Step>, uip: Lit)
  {
    && i <= |sorted| && (forall l {:trigger FalseLiteral(f, l, uip)} :: l in sorted ==> FalseLiteral(f, l, uip))
    && NoRepeats(sorted) && uip in sorted
    && NoRepeats(clause) && (forall l :: l in clause ==> l in sorted[..i]) && keep == VarsIn(clause)
    && (uip in sorted[..i] ==> uip in clause)
    && (forall n {:trigger sorted[n]} :: 0 <= n < i ==> Covered(f, keep, seen, mini, -sorted[n]))
    && Removables(f, keep, removable) && Collecting(f, keep, seen, added, mini, |f.trail|)
  }

  lemma SiftingStarts(f: Frame, clause: seq<Lit>, sorted: seq<Lit>, seen: set<nat>, uip: Lit)
    requires NoRepeats(sorted) && LitsOf(sorted) == LitsOf(clause) && uip in clause
    requires forall l :: l in clause ==> FalseLiteral(f, l, uip)
    ensures Sifting(f, sorted, 0, [], {}, {}, seen, {}, [], uip)
  {
    WA.SameMembers(sorted, clause);
  }

  lemma SiftingNext(
    f: Frame, sorted: seq<Lit>, i: nat, clause: seq<Lit>, keep: set<nat>, removable: set<nat>, seen: set<nat>,
    added: set<nat>, mini: seq<Step>, uip: Lit)
    requires Sound(f) && i < |sorted| && Sifting(f, sorted, i, clause, keep, removable, seen, added, mini, uip)
    ensures FalseLiteral(f, sorted[i], uip) && Var(sorted[i]) !in keep && Var(-sorted[i]) == Var(sorted[i])
    ensures Removables(f, keep, removable) && Collecting(f, keep, seen, added, mini, |f.trail|)
  {
    assert Look(0);
    var l := sorted[i];
    assert l in sorted && FalseLiteral(f, l, uip);
    forall k | k in clause ensures Var(k) != Var(l) {
      assert k in sorted[..i] && k in sorted && FalseLiteral(f, k, uip);
      assert -k in LitsOf(f.trail) && -l in LitsOf(f.trail);
    }
  }

  lemma SiftingDrop(
    f: Frame, sorted: seq<Lit>, i: nat, clause: seq<Lit>, keep: set<nat>, removable: set<nat>, removable': set<nat>,
    seen: set<nat>, added: set<nat>, mini: seq<Step>, seen': set<nat>, added': set<nat>, mini': seq<Step>, uip: Lit)
    requires i < |sorted| && Sifting(f, sorted, i, clause, keep, removable, seen, added, mini, uip)
    requires Removables(f, keep, removable') && Collecting(f, keep, seen', added', mini', |f.trail|)
    requires Below(f, |f.trail|, seen, added, mini, seen', added', mini')
    requires Covered(f, keep, seen', mini', -sorted[i]) && sorted[i] != uip
    ensures Sifting(f, sorted, i + 1, clause, keep, removable', seen', added', mini', uip)
  {
    assert Look(0);
    assert sorted[..i+1] == sorted[..i] + [sorted[i]];
    forall n | 0 <= n < i + 1 ensures Covered(f, keep, seen', mini', -sorted[n]) {
      if n < i {
        CoveredMonotone(f, keep, seen, mini, keep, seen', mini', -sorted[n]);
      }
    }
  }

  lemma SiftingKeep(
    f: Frame, sorted: seq<Lit>, i: nat, clause: seq<Lit>, keep: set<nat>, removable: set<nat>, removable': set<nat>,
    seen: set<nat>, added: set<nat>, mini: seq<Step>, uip: Lit)
    requires i < |sorted| && Sifting(f, sorted, i, clause, keep, removable, seen, added, mini, uip)
    requires Removables(f, keep, removable') && -sorted[i] in f.trail && Var(sorted[i]) !in keep
    ensures Sifting(f, sorted, i + 1, clause + [sorted[i]], keep + {Var(sorted[i])}, removable', seen, added, mini, uip)
  {
    assert Look(0);
    var l := sorted[i];
    var keep' := keep + {Var(l)};
    assert sorted[..i+1] == sorted[..i] + [l];
    RemovablesKeep(f, keep, removable', Var(l));
    CollectingSeen(f, keep, seen, keep', seen, added, mini, |f.trail|);
    forall n | 0 <= n < i + 1 ensures Covered(f, keep', seen, mini, -sorted[n]) {
      if n < i {
        CoveredMonotone(f, keep, seen, mini, keep', seen, mini, -sorted[n]);
      } else {
        var q: nat :| q < |f.trail| && f.trail[q] == -l;
        assert Var(-l) == Var(l) && Assumable(f, keep', seen, q);
      }
    }
    KeptMore(clause, l);
  }

  lemma KeptMore(clause: seq<Lit>, l: Lit)
    requires NoRepeats(clause) && Var(l) !in VarsIn(clause)
    ensures NoRepeats(clause + [l]) && VarsIn(clause + [l]) == VarsIn(clause) + {Var(l)}
  {
    assert forall j :: 0 <= j < |clause| ==> clause[j] in clause;
    assert forall k :: k in clause + [l] <==> k in clause || k == l;
    assert forall v :: v in VarsIn(clause + [l]) <==> v in VarsIn(clause) || v == Var(l);
  }

  // The steps collected for removed literals, and the fixed literals they use.
  ghost predicate Collected(f: Frame, kept: set<nat>, seen: set<nat>, mini: seq<Step>, units: seq<Lit>, unitChain: seq<LS.Id>) {
    && Forced(f.db, mini, Base(f, kept, seen)) && DifferentLits(mini) && InDb(f.db, mini)
    && (forall s {:trigger ReasonStep(f, s)} :: s in mini ==> ReasonStep(f, s) && LevelOf(f, s.lit) != f.level)
    && RootsListed(f, seen, units, unitChain)
  }

  lemma SiftingDone(
    f: Frame, sorted: seq<Lit>, clause: seq<Lit>, keep: set<nat>, removable: set<nat>, seen: set<nat>,
    added: set<nat>, mini: seq<Step>, uip: Lit)
    requires Sifting(f, sorted, |sorted|, clause, keep, removable, seen, added, mini, uip)
    ensures LitsOf(clause) <= LitsOf(sorted) && NoRepeats(clause) && uip in clause && keep == VarsIn(clause)
    ensures forall l :: l in sorted ==> Covered(f, keep, seen, mini, -l)
    ensures Forced(f.db, mini, Base(f, keep, seen)) && DifferentLits(mini)
    ensures forall s {:trigger ReasonStep(f, s)} :: s in mini ==> ReasonStep(f, s) && LevelOf(f, s.lit) != f.level
  {
    SiftingCovers(f, sorted, clause, keep, removable, seen, added, mini, uip);
    assert sorted[..|sorted|] == sorted;
    assert Look(0);
  }

  lemma SiftingCovers(
    f: Frame, sorted: seq<Lit>, clause: seq<Lit>, keep: set<nat>, removable: set<nat>, seen: set<nat>,
    added: set<nat>, mini: seq<Step>, uip: Lit)
    requires Sifting(f, sorted, |sorted|, clause, keep, removable, seen, added, mini, uip)
    ensures forall l :: l in sorted ==> Covered(f, keep, seen, mini, -l)
  {
    forall n | 0 <= n < |sorted| ensures Covered(f, keep, seen, mini, -sorted[n]) {
      assert Look(0);
    }
  }

  lemma NothingMinimized(f: Frame, seen: set<nat>, clause: seq<Lit>, units: seq<Lit>, unitChain: seq<LS.Id>)
    requires RootsListed(f, seen, units, unitChain)
    requires forall l :: l in clause ==> -l in f.trail
    ensures Collected(f, VarsIn(clause), seen, [], units, unitChain)
    ensures forall l :: l in clause ==> Covered(f, VarsIn(clause), seen, [], -l)
  {
    forall l | l in clause ensures Covered(f, VarsIn(clause), seen, [], -l) {
      var q: nat :| q < |f.trail| && f.trail[q] == -l;
      assert Var(-l) == Var(l) && Assumable(f, VarsIn(clause), seen, q);
    }
  }

  lemma UipFacts(f: Frame, conflict: nat, g: Gathered, i: nat, steps: seq<Step>, lratChain: seq<LS.Id>, clause: seq<Lit>)
    requires FirstUip(f, conflict, g, i, steps, lratChain, clause)
    ensures Sound(f) && f.level > 0 && i < |f.trail| && NoRepeats(clause) && -f.trail[i] in clause
    ensures forall l {:trigger FalseLiteral(f, l, -f.trail[i])} :: l in clause ==> FalseLiteral(f, l, -f.trail[i])
    ensures forall l :: l in clause ==> -l in f.trail
    ensures RootsListed(f, g.seen, g.unitAnalyzed, g.unitChain)
  {
    assert Look(0);
    UipClause(f, g, i, clause);
  }

  // ----- Exactly the exposed literals are kept.

  ghost predicate FirstClause(f: Frame, conflict: nat, clause: seq<Lit>) {
    exists g, at, steps, chain {:trigger FirstUip(f, conflict, g, at, steps, chain, clause)} ::
      FirstUip(f, conflict, g, at, steps, chain, clause)
  }

  ghost predicate Ordered(f: Frame, lits: seq<Lit>) {
    forall i, j {:trigger lits[i], lits[j]} :: 0 <= i < j < |lits| ==> Position(f, lits[i]) <= Position(f, lits[j])
  }

  // A literal of the first clause is removed if and only if it is not exposed by the other literals of the
  // result.  It may be kept needlessly only when a chain of reasons is longer than the limit.
  ghost predicate Minimal(f: Frame, limit: nat, first: seq<Lit>, clause: seq<Lit>) {
    forall l, q: nat {:trigger f.trail[q], l in first} :: l in first && q < |f.trail| && f.trail[q] == -l ==>
      && (l !in clause ==> !Exposed(f, VarsIn(clause), q))
      && (l in clause && Ordinary(f, limit) ==> Exposed(f, VarsIn(clause) - {Var(l)}, q))
  }

  ghost predicate JudgedLiteral(f: Frame, keep: set<nat>, limit: nat, l: Lit) {
    forall q: nat {:trigger f.trail[q]} :: q < |f.trail| && f.trail[q] == -l ==> Judged(f, keep, limit, q)
  }

  ghost predicate Sieved(f: Frame, sorted: seq<Lit>, i: nat, keep: set<nat>, removable: set<nat>, poison: set<nat>, limit: nat) {
    forall u {:trigger Peek(u)} :: Peek(u) ==>
      && i <= |sorted| && Ordered(f, sorted) && Cached(f, keep, removable, poison, limit)
      && Behind(f, poison, if i == 0 then -1 else Position(f, sorted[i-1]))
      && forall n {:trigger sorted[n]} :: 0 <= n < i ==> JudgedLiteral(f, keep, limit, sorted[n])
  }

  lemma SievedStart(f: Frame, sorted: seq<Lit>, limit: nat)
    requires Ordered(f, sorted)
    ensures Sieved(f, sorted, 0, {}, {}, {}, limit)
  {
  }

  lemma SievedParts(f: Frame, sorted: seq<Lit>, i: nat, keep: set<nat>, removable: set<nat>, poison: set<nat>, limit: nat)
    requires Sieved(f, sorted, i, keep, removable, poison, limit)
    ensures Cached(f, keep, removable, poison, limit)
  {
    assert Peek(0);
  }

  lemma PositionOf(f: Frame, l: Lit, q: nat)
    requires Sound(f) && q < |f.trail| && f.trail[q] == -l
    ensures Position(f, l) == q && Var(f.trail[q]) == Var(l)
  {
    assert Sourced(f, q);
  }

  lemma SievedNext(
    f: Frame, sorted: seq<Lit>, i: nat, keep: set<nat>, removable: set<nat>, poison: set<nat>,
    removable': set<nat>, poison': set<nat>, limit: nat, q: nat, res: bool)
    requires Sound(f) && NoRepeats(sorted) && i < |sorted| && q < |f.trail| && f.trail[q] == -sorted[i]
    requires Sieved(f, sorted, i, keep, removable, poison, limit)
    requires Cached(f, keep, removable', poison', limit) && Behind(f, poison' - poison, q) && Var(sorted[i]) !in keep
    requires if res then !Exposed(f, keep, q) else Ordinary(f, limit) ==> Exposed(f, keep, q)
    ensures Sieved(f, sorted, i + 1, if res then keep else keep + {Var(sorted[i])}, removable', poison', limit)
  {
    assert Peek(0);
    PositionOf(f, sorted[i], q);
    forall r | 0 <= r < |f.trail| && Var(f.trail[r]) in poison' ensures r <= q {
      assert Var(f.trail[r]) in poison || Var(f.trail[r]) in poison' - poison;
      assert i > 0 ==> Position(f, sorted[i-1]) <= Position(f, sorted[i]);
    }
    if res {
      assert JudgedLiteral(f, keep, limit, sorted[i]) by {
        forall p: nat | p < |f.trail| && f.trail[p] == -sorted[i] ensures Judged(f, keep, limit, p) {
          PositionOf(f, sorted[i], p);
        }
      }
    } else {
      CachedKeep(f, keep, removable', poison', limit, q);
      forall n | 0 <= n < i + 1 ensures JudgedLiteral(f, keep + {Var(sorted[i])}, limit, sorted[n]) {
        JudgedAfter(f, sorted, i, keep, limit, q, n);
      }
    }
  }

  lemma JudgedAfter(f: Frame, sorted: seq<Lit>, i: nat, keep: set<nat>, limit: nat, q: nat, n: nat)
    requires Sound(f) && Ordered(f, sorted) && NoRepeats(sorted) && n <= i < |sorted| && q < |f.trail| && f.trail[q] == -sorted[i]
    requires n < i ==> JudgedLiteral(f, keep, limit, sorted[n])
    requires Var(sorted[i]) !in keep && (Ordinary(f, limit) ==> Exposed(f, keep, q))
    ensures JudgedLiteral(f, keep + {Var(sorted[i])}, limit, sorted[n])
  {
    PositionOf(f, sorted[i], q);
    forall p: nat | p < |f.trail| && f.trail[p] == -sorted[n] ensures Judged(f, keep + {Var(sorted[i])}, limit, p) {
      PositionOf(f, sorted[n], p);
      if n < i {
        assert Judged(f, keep, limit, p) && sorted[n] != sorted[i];
        JudgedMore(f, keep, limit, p, q);
      } else {
        JudgedNew(f, keep, limit, q);
      }
    }
  }

  lemma SiftingVars(
    f: Frame, sorted: seq<Lit>, i: nat, clause: seq<Lit>, keep: set<nat>, removable: set<nat>, seen: set<nat>,
    added: set<nat>, mini: seq<Step>, uip: Lit)
    requires Sound(f) && i < |sorted| && Sifting(f, sorted, i, clause, keep, removable, seen, added, mini, uip)
    ensures keep + {Var(sorted[i])} <= VarsIn(sorted) && NoRepeats(sorted) && Var(sorted[i]) !in keep && LevelOf(f, sorted[i]) > 0
  {
    SiftingNext(f, sorted, i, clause, keep, removable, seen, added, mini, uip);
    assert Look(0);
    forall v | v in keep ensures v in VarsIn(sorted) {
      var l :| l in clause && Var(l) == v;
      assert l in sorted[..i] && l in sorted;
    }
    assert sorted[i] in sorted;
  }

  lemma ClauseLevels(f: Frame, conflict: nat, g: Gathered, at: nat, steps: seq<Step>, lratChain: seq<LS.Id>, clause: seq<Lit>,
                     sorted: seq<Lit>, count: map<nat, nat>, first: map<nat, nat>)
    requires FirstUip(f, conflict, g, at, steps, lratChain, clause) && LitsOf(sorted) == LitsOf(clause)
    requires Levels(f, g.seen, count, first)
    ensures Levels(f, VarsIn(sorted), count, first)
  {
    assert Look(0);
    forall v | v in VarsIn(sorted) ensures v in g.seen {
      var l :| l in sorted && Var(l) == v;
      assert l in LitsOf(clause) && Var(-f.trail[at]) == Var(f.trail[at]);
      assert l == -f.trail[at] || l in LitsOf(g.clause);
      if l in LitsOf(g.clause) {
        var q :| 0 <= q < |f.trail| && l == -f.trail[q] && Var(f.trail[q]) in g.seen;
      }
    }
    LevelsLess(f, g.seen, VarsIn(sorted), count, first);
  }

  lemma MinimalIntro(f: Frame, sorted: seq<Lit>, first: seq<Lit>, clause: seq<Lit>, keep: set<nat>, removable: set<nat>, poison: set<nat>,
                     limit: nat, uip: Lit)
    requires Sound(f) && Sieved(f, sorted, |sorted|, keep, removable, poison, limit) && LitsOf(sorted) == LitsOf(first)
    requires keep == VarsIn(clause) && LitsOf(clause) <= LitsOf(sorted)
    requires forall l {:trigger FalseLiteral(f, l, uip)} :: l in first ==> FalseLiteral(f, l, uip)
    ensures Minimal(f, limit, first, clause)
  {
    assert Peek(0);
    forall l, q: nat | l in first && q < |f.trail| && f.trail[q] == -l
      ensures l !in clause ==> !Exposed(f, VarsIn(clause), q)
      ensures l in clause && Ordinary(f, limit) ==> Exposed(f, VarsIn(clause) - {Var(l)}, q)
    {
      PositionOf(f, l, q);
      assert l in LitsOf(sorted);
      var n :| 0 <= n < |sorted| && sorted[n] == l;
      assert JudgedLiteral(f, keep, limit, sorted[n]) && Judged(f, keep, limit, q);
      if Var(l) in keep {
        var k :| k in clause && Var(k) == Var(l);
        assert k in LitsOf(clause) && k in first && FalseLiteral(f, k, uip) && FalseLiteral(f, l, uip);
        SameVariable(f, k, l);
      }
    }
  }

  lemma SameVariable(f: Frame, k: Lit, l: Lit)
    requires Sound(f) && -k in f.trail && -l in f.trail && Var(k) == Var(l)
    ensures k == l
  {
    var p :| 0 <= p < |f.trail| && f.trail[p] == -k;
    var q :| 0 <= q < |f.trail| && f.trail[q] == -l;
    PositionOf(f, k, p);
    PositionOf(f, l, q);
  }

  // Putting it all together.
  lemma Finish(f: Frame, conflict: nat, g: Gathered, at: nat, steps: seq<Step>, lratChain: seq<LS.Id>, first: seq<Lit>,
               clause: seq<Lit>, kept: set<nat>, seen: set<nat>, mini: seq<Step>, units: seq<Lit>, unitChain: seq<LS.Id>)
    requires FirstUip(f, conflict, g, at, steps, lratChain, first) && g.seen <= seen && InDb(f.db, mini)
    requires kept == VarsIn(clause) && LitsOf(clause) <= LitsOf(first)
    requires forall l :: l in first ==> Covered(f, kept, seen, mini, -l)
    requires Collected(f, kept, seen, mini, units, unitChain)
    ensures Learned(f, conflict, clause, Reversed(lratChain + Reversed(StepIds(f.db, mini)) + unitChain))
    ensures forall l :: l in clause ==> FalseLiteral(f, l, -f.trail[at])
  {
    assert Look(0);
    UipClause(f, g, at, first);
    forall l | l in clause ensures FalseLiteral(f, l, -f.trail[at]) {
      assert l in LitsOf(clause);
    }
    AssumedCovered(f, conflict, g, at, steps, lratChain, first, kept, seen, mini);
    forall v | v in kept ensures exists l :: l in clause && Var(l) == v && -l in f.trail {
      var l :| l in clause && Var(l) == v;
      assert FalseLiteral(f, l, -f.trail[at]);
    }
    BaseOfClause(f, clause, kept, seen, units);
    FinalDerivation(f, conflict, steps, Known(f, g.seen, at + 1), clause, kept, seen, mini, units);
    FinalHinted(f, conflict, steps, mini, units, seen);
    FinalChain(f, conflict, steps, mini, units, lratChain, StepIds(f.db, mini), unitChain);
  }
}
