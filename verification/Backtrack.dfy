// Backtracking on a trail whose literals need not be ordered by decision level.
module Backtrack {
  import opened Cnf
  import WA = Watching

  datatype Reason = Decision | Because(clause: nat)

  datatype Info = Info(level: nat, pos: nat, reason: Reason)

  datatype Control = Control(decision: Lit, start: nat)

  type Table = map<nat, Info>

  function LevelOf(vtab: Table, l: Lit): nat {
    if Var(l) in vtab then vtab[Var(l)].level else 0
  }

  // The literals of level at most 'n', in their order.
  function UpTo(trail: seq<Lit>, vtab: Table, n: nat): seq<Lit> {
    if trail == [] then [] else
      var rest := UpTo(trail[..|trail|-1], vtab, n);
      if LevelOf(vtab, trail[|trail|-1]) <= n then rest + [trail[|trail|-1]] else rest
  }

  lemma UpToLast(trail: seq<Lit>, l: Lit, vtab: Table, n: nat)
    ensures UpTo(trail + [l], vtab, n) == if LevelOf(vtab, l) <= n then UpTo(trail, vtab, n) + [l] else UpTo(trail, vtab, n)
  {
    assert (trail + [l])[..|trail|] == trail;
  }

  lemma {:induction false} UpToAll(trail: seq<Lit>, vtab: Table, n: nat)
    requires forall i :: 0 <= i < |trail| ==> LevelOf(vtab, trail[i]) <= n
    ensures UpTo(trail, vtab, n) == trail
    decreases |trail|
  {
    if trail != [] {
      UpToAll(trail[..|trail|-1], vtab, n);
      assert trail == trail[..|trail|-1] + [trail[|trail|-1]];
    }
  }

  lemma {:induction false} UpToMembers(trail: seq<Lit>, vtab: Table, n: nat)
    ensures forall l :: l in UpTo(trail, vtab, n) <==> l in trail && LevelOf(vtab, l) <= n
    ensures |UpTo(trail, vtab, n)| <= |trail|
    decreases |trail|
  {
    if trail != [] {
      UpToMembers(trail[..|trail|-1], vtab, n);
      assert trail == trail[..|trail|-1] + [trail[|trail|-1]];
    }
  }

  // Only levels count.
  lemma {:induction false} UpToSame(trail: seq<Lit>, vtab: Table, vtab': Table, n: nat)
    requires forall l :: l in trail ==> LevelOf(vtab, l) == LevelOf(vtab', l)
    ensures UpTo(trail, vtab, n) == UpTo(trail, vtab', n)
    decreases |trail|
  {
    if trail != [] {
      assert forall l :: l in trail[..|trail|-1] ==> l in trail;
      UpToSame(trail[..|trail|-1], vtab, vtab', n);
    }
  }

  // ----- The invariant of the trail.

  // Every literal knows its position.
  ghost predicate Placed(trail: seq<Lit>, vtab: Table, i: nat)
    requires i < |trail|
  {
    Var(trail[i]) in vtab && vtab[Var(trail[i])].pos == i
  }

  // The other literals of a reason are false, earlier on the trail and not of a higher level.
  ghost predicate Explained(db: seq<seq<Lit>>, trail: seq<Lit>, vtab: Table, i: nat)
    requires i < |trail|
  {
    Var(trail[i]) in vtab && (vtab[Var(trail[i])].reason.Because? ==>
      var k := vtab[Var(trail[i])].reason.clause;
      && k < |db| && trail[i] in db[k]
      && forall l :: l in db[k] && l != trail[i] ==> -l in trail[..i] && LevelOf(vtab, l) <= LevelOf(vtab, trail[i]))
  }

  // Literals before the start of a decision level have lower levels.
  ghost predicate Leveled(trail: seq<Lit>, vtab: Table, control: seq<Control>, l: nat)
    requires l < |control|
  {
    l > 0 ==>
      && control[l].start < |trail| && trail[control[l].start] == control[l].decision && LevelOf(vtab, control[l].decision) == l
      && control[l-1].start <= control[l].start
      && forall i :: 0 <= i < control[l].start ==> LevelOf(vtab, trail[i]) < l
  }

  // Decisions are where the control stack says.
  ghost predicate Deciding(trail: seq<Lit>, vtab: Table, control: seq<Control>, i: nat)
    requires i < |trail|
  {
    var l := LevelOf(vtab, trail[i]);
    Var(trail[i]) in vtab && (vtab[Var(trail[i])].reason.Decision? && l > 0 ==> l < |control| && control[l].start == i)
  }

  ghost predicate Sound(db: seq<seq<Lit>>, trail: seq<Lit>, vtab: Table, control: seq<Control>) {
    forall u {:trigger Look(u)} :: Look(u) ==>
      && DistinctVars(trail) && 0 !in trail && |control| > 0
      && (forall i {:trigger Placed(trail, vtab, i)} :: 0 <= i < |trail| ==> Placed(trail, vtab, i))
      && (forall i {:trigger Explained(db, trail, vtab, i)} :: 0 <= i < |trail| ==> Explained(db, trail, vtab, i))
      && (forall l {:trigger Leveled(trail, vtab, control, l)} :: 0 <= l < |control| ==> Leveled(trail, vtab, control, l))
      && (forall i {:trigger Deciding(trail, vtab, control, i)} :: 0 <= i < |trail| ==> Deciding(trail, vtab, control, i))
      && (forall i :: 0 <= i < |trail| ==> LevelOf(vtab, trail[i]) < |control|)
  }

  // The position a kept literal moves to.
  lemma {:induction false} UpToPosition(trail: seq<Lit>, vtab: Table, n: nat, i: nat)
    requires i < |trail| && LevelOf(vtab, trail[i]) <= n
    ensures |UpTo(trail[..i], vtab, n)| < |UpTo(trail, vtab, n)|
    ensures UpTo(trail, vtab, n)[|UpTo(trail[..i], vtab, n)|] == trail[i]
    decreases |trail|
  {
    var m := |trail| - 1;
    if i < m {
      UpToPosition(trail[..m], vtab, n, i);
      assert trail[..m][..i] == trail[..i];
    }
  }

  // Every kept literal comes from a position before which the same literals were kept.
  lemma {:induction false} UpToOrigin(trail: seq<Lit>, vtab: Table, n: nat, j: nat) returns (i: nat)
    requires j < |UpTo(trail, vtab, n)|
    ensures i < |trail| && LevelOf(vtab, trail[i]) <= n && trail[i] == UpTo(trail, vtab, n)[j]
    ensures UpTo(trail[..i], vtab, n) == UpTo(trail, vtab, n)[..j]
    decreases |trail|
  {
    var m := |trail| - 1;
    if j < |UpTo(trail[..m], vtab, n)| {
      i := UpToOrigin(trail[..m], vtab, n, j);
      assert trail[..m][..i] == trail[..i];
    } else {
      i := m;
    }
  }

  lemma {:induction false} UpToDistinct(trail: seq<Lit>, vtab: Table, n: nat)
    requires DistinctVars(trail)
    ensures DistinctVars(UpTo(trail, vtab, n))
    decreases |trail|
  {
    if trail != [] {
      var m := |trail| - 1;
      UpToDistinct(trail[..m], vtab, n);
      var r := UpTo(trail[..m], vtab, n);
      UpToMembers(trail[..m], vtab, n);
      forall i | 0 <= i < |r| ensures Var(r[i]) != Var(trail[m]) {
        assert r[i] in trail[..m];
        var j :| 0 <= j < m && trail[..m][j] == r[i];
      }
    }
  }

  // The literals before the start of the first level given up are all kept.
  lemma UpToPrefix(trail: seq<Lit>, vtab: Table, n: nat, s: nat)
    requires s <= |trail| && forall i :: 0 <= i < s ==> LevelOf(vtab, trail[i]) <= n
    ensures trail[..s] <= UpTo(trail, vtab, n)
    decreases |trail|
  {
    if s == |trail| {
      UpToAll(trail, vtab, n);
      assert trail[..s] == trail;
    } else {
      UpToPrefix(trail[..|trail|-1], vtab, n, s);
      assert trail[..|trail|-1][..s] == trail[..s];
    }
  }

  // Positions are updated, levels and reasons are not.
  ghost predicate SameLevels(vtab: Table, vtab': Table) {
    vtab.Keys == vtab'.Keys && forall v {:trigger vtab'[v]} :: v in vtab ==> vtab'[v].level == vtab[v].level && vtab'[v].reason == vtab[v].reason
  }

  // The trail after backtracking satisfies the same invariant.
  lemma BacktrackSound(db: seq<seq<Lit>>, trail: seq<Lit>, vtab: Table, control: seq<Control>, n: nat, vtab': Table)
    requires Sound(db, trail, vtab, control) && n + 1 < |control| && SameLevels(vtab, vtab')
    requires var t := UpTo(trail, vtab, n); forall i {:trigger Placed(t, vtab', i)} :: 0 <= i < |t| ==> Placed(t, vtab', i)
    ensures Sound(db, UpTo(trail, vtab, n), vtab', control[..n+1])
  {
    assert Look(0);
    var t, control' := UpTo(trail, vtab, n), control[..n+1];
    UpToDistinct(trail, vtab, n);
    UpToMembers(trail, vtab, n);
    assert forall l {:trigger LevelOf(vtab', l)} :: LevelOf(vtab', l) == LevelOf(vtab, l);
    assert Leveled(trail, vtab, control, n + 1);
    UpToPrefix(trail, vtab, n, control[n+1].start);
    forall j | 0 <= j < |t| ensures Explained(db, t, vtab', j) && LevelOf(vtab', t[j]) <= n {
      assert t[j] in t && Placed(t, vtab', j);
      ExplainedKept(db, trail, vtab, control, n, vtab', j);
    }
    forall j | 0 <= j < |t| ensures Deciding(t, vtab', control', j) {
      DecidingKept(db, trail, vtab, control, n, vtab', j);
    }
    forall l | 0 <= l < |control'| ensures Leveled(t, vtab', control', l) {
      LeveledKept(db, trail, vtab, control, n, vtab', l);
    }
  }

  lemma ExplainedKept(db: seq<seq<Lit>>, trail: seq<Lit>, vtab: Table, control: seq<Control>, n: nat, vtab': Table, j: nat)
    requires Sound(db, trail, vtab, control) && SameLevels(vtab, vtab') && j < |UpTo(trail, vtab, n)|
    ensures Explained(db, UpTo(trail, vtab, n), vtab', j)
  {
    assert Look(0);
    var t := UpTo(trail, vtab, n);
    var i := UpToOrigin(trail, vtab, n, j);
    assert Explained(db, trail, vtab, i);
    if vtab[Var(trail[i])].reason.Because? {
      var k := vtab[Var(trail[i])].reason.clause;
      forall l | l in db[k] && l != trail[i] ensures -l in t[..j] && LevelOf(vtab', l) <= LevelOf(vtab', trail[i]) {
        UpToMembers(trail[..i], vtab, n);
        assert LevelOf(vtab, -l) == LevelOf(vtab, l);
      }
    }
  }

  lemma DecidingKept(db: seq<seq<Lit>>, trail: seq<Lit>, vtab: Table, control: seq<Control>, n: nat, vtab': Table, j: nat)
    requires Sound(db, trail, vtab, control) && n + 1 < |control| && SameLevels(vtab, vtab') && j < |UpTo(trail, vtab, n)|
    requires control[n+1].start <= |trail| && trail[..control[n+1].start] <= UpTo(trail, vtab, n)
    ensures Deciding(UpTo(trail, vtab, n), vtab', control[..n+1], j)
  {
    assert Look(0);
    var t := UpTo(trail, vtab, n);
    var i := UpToOrigin(trail, vtab, n, j);
    assert Deciding(trail, vtab, control, i);
    var l := LevelOf(vtab, trail[i]);
    if vtab[Var(trail[i])].reason.Decision? && l > 0 {
      StartsBefore(trail, vtab, control, l, n + 1);
      assert t[i] == trail[i];
      UpToDistinct(trail, vtab, n);
      assert Var(t[i]) == Var(t[j]);
    }
  }

  lemma LeveledKept(db: seq<seq<Lit>>, trail: seq<Lit>, vtab: Table, control: seq<Control>, n: nat, vtab': Table, l: nat)
    requires Sound(db, trail, vtab, control) && n + 1 < |control| && SameLevels(vtab, vtab') && l <= n
    requires control[n+1].start <= |trail| && trail[..control[n+1].start] <= UpTo(trail, vtab, n)
    ensures Leveled(UpTo(trail, vtab, n), vtab', control[..n+1], l)
  {
    assert Look(0);
    var t := UpTo(trail, vtab, n);
    assert Leveled(trail, vtab, control, l) && Leveled(trail, vtab, control, n + 1);
    if l > 0 {
      StartsBefore(trail, vtab, control, l, n + 1);
      forall i | 0 <= i < control[l].start ensures LevelOf(vtab', t[i]) < l {
        assert t[i] == trail[i];
      }
    }
  }

  // Levels start one after the other.
  lemma {:induction false} StartsBefore(trail: seq<Lit>, vtab: Table, control: seq<Control>, l: nat, k: nat)
    requires 0 < l < k < |control|
    requires forall l {:trigger Leveled(trail, vtab, control, l)} :: 0 <= l < |control| ==> Leveled(trail, vtab, control, l)
    ensures control[l].start < control[k].start
    decreases k
  {
    assert Leveled(trail, vtab, control, l) && Leveled(trail, vtab, control, k);
    if l + 1 < k {
      StartsBefore(trail, vtab, control, l, k - 1);
    }
  }

  function Min(a: nat, b: nat): nat {
    if a < b then a else b
  }

  // Unassigned variables can be found by both decision heuristics.
  ghost predicate Findable(vals: set<Lit>, scores: set<nat>, btab: map<nat, nat>, bumped: nat, vars: set<nat>) {
    forall u {:trigger Look(u)} :: Look(u) ==>
      forall v: nat {:trigger v in vars} :: v in vars ==>
        (exists l :: l in vals && Var(l) == v) || (v in scores && (v in btab ==> btab[v] <= bumped))
  }

  lemma FindableLess(vals: set<Lit>, scores: set<nat>, btab: map<nat, nat>, bumped: nat, vars: set<nat>, lit: Lit)
    requires Findable(vals, scores, btab, bumped, vars) && Var(lit) in btab
    ensures var idx := Var(lit);
            Findable(vals - {lit}, scores + {idx}, btab, if bumped < btab[idx] then btab[idx] else bumped, vars)
  {
    assert Look(0);
    var idx := Var(lit);
    var bumped' := if bumped < btab[idx] then btab[idx] else bumped;
    forall v: nat | v in vars
      ensures (exists l :: l in vals - {lit} && Var(l) == v) || (v in scores + {idx} && (v in btab ==> btab[v] <= bumped')) {
      if l :| l in vals && Var(l) == v && l != lit {
        assert l in vals - {lit};
      }
    }
  }

  // The variables unassigned.
  function Gone(before: set<Lit>, vals: set<Lit>): set<nat> {
    set l | l in before && l !in vals :: Var(l)
  }

  // The search for decisions starts at the variable bumped last among the one before and those unassigned.
  ghost predicate Requeued(btab: map<nat, nat>, gone: set<nat>, unassigned0: nat, bumped0: nat, unassigned: nat, bumped: nat) {
    forall u {:trigger Look(u)} :: Look(u) ==>
      && bumped0 <= bumped
      && ((unassigned == unassigned0 && bumped == bumped0) || (unassigned in gone && unassigned in btab && bumped == btab[unassigned]))
      && forall v {:trigger v in gone} :: v in gone && v in btab ==> btab[v] <= bumped
  }

  lemma RequeuedStart(btab: map<nat, nat>, vals: set<Lit>, u: nat, b: nat)
    ensures Requeued(btab, Gone(vals, vals), u, b, u, b)
  {
    assert Gone(vals, vals) == {};
  }

  lemma RequeuedNext(btab: map<nat, nat>, before: set<Lit>, vals: set<Lit>, lit: Lit, u0: nat, b0: nat, u1: nat, b1: nat, u: nat, b: nat)
    requires Requeued(btab, Gone(before, vals), u0, b0, u1, b1) && Requeued(btab, {Var(lit)}, u1, b1, u, b)
    requires lit in before && lit in vals
    ensures Requeued(btab, Gone(before, vals - {lit}), u0, b0, u, b)
  {
    assert Look(0);
    assert Gone(before, vals - {lit}) == Gone(before, vals) + {Var(lit)};
  }

  class Solver {
    const db: seq<seq<Lit>>                // clauses, of which reasons are positions
    var trail: seq<Lit>
    var vtab: Table
    var vals: set<Lit>
    var numAssigned: nat
    var control: seq<Control>
    var level: nat
    var propagated: nat
    var propagated2: nat
    var propergated: nat
    var noConflictUntil: nat
    var scores: set<nat>                   // variables in the decision heap
    const btab: map<nat, nat>              // when variables were bumped
    var queueUnassigned: nat
    var queueBumped: nat

    ghost predicate Valid()
      reads this
    {
      && Sound(db, trail, vtab, control) && WA.TrailOk(trail, vals) && numAssigned == |trail| && |control| == level + 1
      && propagated <= |trail| && propagated2 <= |trail| && propergated <= |trail| && noConflictUntil <= |trail|
    }

    method Unassign(lit: Lit, ghost vars: set<nat>)
      requires lit in vals && -lit !in vals && lit != 0 && numAssigned > 0 && Var(lit) in btab
      requires Findable(vals, scores, btab, queueBumped, vars)
      modifies `vals, `numAssigned, `scores, `queueUnassigned, `queueBumped
      ensures vals == old(vals) - {lit} && numAssigned == old(numAssigned) - 1
      ensures Findable(vals, scores, btab, queueBumped, vars)
      ensures scores == old(scores) + {Var(lit)}
      ensures Requeued(btab, {Var(lit)}, old(queueUnassigned), old(queueBumped), queueUnassigned, queueBumped)
    {
      var idx := Var(lit);
      FindableLess(vals, scores, btab, queueBumped, vars, lit);
      vals := vals - {lit};
      numAssigned := numAssigned - 1;
      if idx !in scores {
        scores := scores + {idx};
      }
      if queueBumped < btab[idx] {
        queueUnassigned := idx;
        queueBumped := btab[idx];
      }
    }

    // Literals of higher levels are unassigned, the others stay on the trail in their order.
    method Backtrack(newLevel: nat, ghost vars: set<nat>)
      requires Valid() && newLevel <= level && (forall l :: l in trail ==> Var(l) in btab)
      requires Findable(vals, scores, btab, queueBumped, vars)
      modifies this
      ensures Valid() && level == newLevel && trail == UpTo(old(trail), old(vtab), newLevel)
      ensures vals == LitsOf(trail) && SameLevels(old(vtab), vtab) && control == old(control)[..newLevel+1]
      ensures Findable(vals, scores, btab, queueBumped, vars)
      ensures Requeued(btab, Gone(old(vals), vals), old(queueUnassigned), old(queueBumped), queueUnassigned, queueBumped)
      ensures newLevel == old(level) ==> unchanged(this)
      ensures newLevel < old(level) ==>
                var start := old(control)[newLevel+1].start;
                && propagated == Min(old(propagated), start) && propagated2 == Min(old(propagated2), start)
                && noConflictUntil == Min(old(noConflictUntil), start) && propergated == 0
    {
      if newLevel == level {
        AllKept(db, trail, vtab, control, newLevel);
        assert control == control[..newLevel+1];
        RequeuedStart(btab, vals, queueUnassigned, queueBumped);
        return;
      }
      var start := control[newLevel+1].start;
      KeptPrefix(db, trail, vtab, control, newLevel);
      CompactingStart(db, trail, vtab, control, vals, newLevel);
      Filter(newLevel, start, vars);
      BacktrackSound(db, old(trail), old(vtab), control, newLevel, vtab);
      ResetCounters(start);
      control := control[..newLevel+1];
      level := newLevel;
    }

    method ResetCounters(start: nat)
      modifies `propagated, `propagated2, `noConflictUntil, `propergated
      ensures propagated == Min(old(propagated), start) && propagated2 == Min(old(propagated2), start)
      ensures noConflictUntil == Min(old(noConflictUntil), start) && propergated == 0
    {
      if propagated > start {
        propagated := start;
      }
      if propagated2 > start {
        propagated2 := start;
      }
      if noConflictUntil > start {
        noConflictUntil := start;
      }
      propergated := 0;
    }

    // The loop over the trail, in place.
    method Filter(newLevel: nat, start: nat, ghost vars: set<nat>)
      requires Compacting(trail, vtab, newLevel, trail, vtab, vals, numAssigned, start, start) && start <= |trail|
      requires (forall l :: l in trail ==> Var(l) in btab)
      requires Findable(vals, scores, btab, queueBumped, vars)
      modifies `trail, `vtab, `vals, `numAssigned, `scores, `queueUnassigned, `queueBumped
      ensures trail == UpTo(old(trail), old(vtab), newLevel) && SameLevels(old(vtab), vtab) && WA.TrailOk(trail, vals)
      ensures numAssigned == |trail| && forall i {:trigger Placed(trail, vtab, i)} :: 0 <= i < |trail| ==> Placed(trail, vtab, i)
      ensures Findable(vals, scores, btab, queueBumped, vars)
      ensures Requeued(btab, Gone(old(vals), vals), old(queueUnassigned), old(queueBumped), queueUnassigned, queueBumped)
    {
      ghost var trail0, vtab0 := trail, vtab;
      var j := FilterAll(newLevel, start, vars);
      CompactingEnd(trail0, vtab0, newLevel, trail, vtab, vals, numAssigned, j);
      trail := trail[..j];
    }

    method FilterAll(newLevel: nat, start: nat, ghost vars: set<nat>) returns (j: nat)
      requires Compacting(trail, vtab, newLevel, trail, vtab, vals, numAssigned, start, start) && start <= |trail|
      requires (forall l :: l in trail ==> Var(l) in btab)
      requires Findable(vals, scores, btab, queueBumped, vars)
      modifies `trail, `vtab, `vals, `numAssigned, `scores, `queueUnassigned, `queueBumped
      ensures Compacting(old(trail), old(vtab), newLevel, trail, vtab, vals, numAssigned, |trail|, j)
      ensures Findable(vals, scores, btab, queueBumped, vars)
      ensures Requeued(btab, Gone(old(vals), vals), old(queueUnassigned), old(queueBumped), queueUnassigned, queueBumped)
    {
      RequeuedStart(btab, vals, queueUnassigned, queueBumped);
      var i: nat := start;
      j := start;
      while i < |trail|
        invariant i <= |trail| && |trail| == |old(trail)|
        invariant Compacting(old(trail), old(vtab), newLevel, trail, vtab, vals, numAssigned, i, j)
        invariant Findable(vals, scores, btab, queueBumped, vars) && vals <= old(vals)
        invariant Requeued(btab, Gone(old(vals), vals), old(queueUnassigned), old(queueBumped), queueUnassigned, queueBumped)
      {
        j := FilterNext(newLevel, i, j, vars, old(trail), old(vtab), old(vals), old(queueUnassigned), old(queueBumped));
        i := i + 1;
      }
    }

    method FilterNext(newLevel: nat, i: nat, j0: nat, ghost vars: set<nat>, ghost trail0: seq<Lit>, ghost vtab0: Table,
                      ghost vals0: set<Lit>, ghost unassigned0: nat, ghost bumped0: nat) returns (j: nat)
      requires Compacting(trail0, vtab0, newLevel, trail, vtab, vals, numAssigned, i, j0) && i < |trail|
      requires (forall l :: l in trail0 ==> Var(l) in btab) && Findable(vals, scores, btab, queueBumped, vars) && vals <= vals0
      requires Requeued(btab, Gone(vals0, vals), unassigned0, bumped0, queueUnassigned, queueBumped)
      modifies `trail, `vtab, `vals, `numAssigned, `scores, `queueUnassigned, `queueBumped
      ensures Compacting(trail0, vtab0, newLevel, trail, vtab, vals, numAssigned, i + 1, j) && |trail| == |old(trail)|
      ensures Findable(vals, scores, btab, queueBumped, vars) && vals <= vals0
      ensures Requeued(btab, Gone(vals0, vals), unassigned0, bumped0, queueUnassigned, queueBumped)
    {
      j := j0;
      var lit := trail[i];
      CompactingFacts(trail0, vtab0, newLevel, trail, vtab, vals, numAssigned, i, j);
      assert lit in trail0;
      if LevelOf(vtab, lit) > newLevel {
        CompactingDrop(trail0, vtab0, newLevel, trail, vtab, vals, numAssigned, i, j);
        ghost var vals1, u1, b1 := vals, queueUnassigned, queueBumped;
        Unassign(lit, vars);
        RequeuedNext(btab, vals0, vals1, lit, unassigned0, bumped0, u1, b1, queueUnassigned, queueBumped);
      } else {
        CompactingKeep(trail0, vtab0, newLevel, trail, vtab, vals, numAssigned, i, j);
        trail := trail[j := lit];
        vtab := vtab[Var(lit) := vtab[Var(lit)].(pos := j)];
        j := j + 1;
      }
    }
  }

  // While the trail is compacted: the first 'i' literals were looked at, 'j' of them kept.
  ghost predicate Compacting(trail0: seq<Lit>, vtab0: Table, n: nat, trail: seq<Lit>, vtab: Table, vals: set<Lit>, count: nat, i: nat, j: nat) {
    forall u {:trigger Look(u)} :: Look(u) ==>
      && i <= |trail| == |trail0| && j <= i && trail[i..] == trail0[i..] && trail[..j] == UpTo(trail0[..i], vtab0, n)
      && SameLevels(vtab0, vtab) && vals == LitsOf(trail[..j]) + LitsOf(trail0[i..]) && count == j + |trail0| - i
      && (forall k {:trigger Placed(trail, vtab, k)} :: 0 <= k < j ==> Placed(trail, vtab, k))
      && (forall k {:trigger trail0[k]} :: 0 <= k < |trail0| ==> Var(trail0[k]) in vtab0)
      && DistinctVars(trail0) && 0 !in trail0
  }

  lemma KeptPrefix(db: seq<seq<Lit>>, trail: seq<Lit>, vtab: Table, control: seq<Control>, n: nat)
    requires Sound(db, trail, vtab, control) && n + 1 < |control|
    ensures control[n+1].start <= |trail| && trail[..control[n+1].start] <= UpTo(trail, vtab, n)
    ensures UpTo(trail[..control[n+1].start], vtab, n) == trail[..control[n+1].start]
  {
    assert Look(0);
    assert Leveled(trail, vtab, control, n + 1);
    UpToPrefix(trail, vtab, n, control[n+1].start);
    UpToAll(trail[..control[n+1].start], vtab, n);
  }

  lemma AllKept(db: seq<seq<Lit>>, trail: seq<Lit>, vtab: Table, control: seq<Control>, n: nat)
    requires Sound(db, trail, vtab, control) && |control| == n + 1
    ensures UpTo(trail, vtab, n) == trail && SameLevels(vtab, vtab)
  {
    assert Look(0);
    UpToAll(trail, vtab, n);
  }

  lemma CompactingStart(db: seq<seq<Lit>>, trail: seq<Lit>, vtab: Table, control: seq<Control>, vals: set<Lit>, n: nat)
    requires Sound(db, trail, vtab, control) && n + 1 < |control| && WA.TrailOk(trail, vals)
    requires control[n+1].start <= |trail| && UpTo(trail[..control[n+1].start], vtab, n) == trail[..control[n+1].start]
    ensures Compacting(trail, vtab, n, trail, vtab, vals, |trail|, control[n+1].start, control[n+1].start)
  {
    assert Look(0);
    var s := control[n+1].start;
    assert trail == trail[..s] + trail[s..];
    forall k | 0 <= k < |trail| ensures Var(trail[k]) in vtab {
      assert Placed(trail, vtab, k);
    }
    assert vals == LitsOf(trail[..s]) + LitsOf(trail[s..]);
  }

  lemma CompactingFacts(trail0: seq<Lit>, vtab0: Table, n: nat, trail: seq<Lit>, vtab: Table, vals: set<Lit>, count: nat, i: nat, j: nat)
    requires Compacting(trail0, vtab0, n, trail, vtab, vals, count, i, j) && i < |trail|
    ensures |trail0| == |trail| && j <= i && trail[i] == trail0[i] && trail[i] in vals && -trail[i] !in vals && trail[i] != 0 && count > 0
    ensures Var(trail[i]) in vtab && LevelOf(vtab, trail[i]) == LevelOf(vtab0, trail0[i])
  {
    assert Look(0);
    assert trail[i..][0] == trail0[i..][0];
    assert trail0[i] in trail0[i..];
    UpToMembers(trail0[..i], vtab0, n);
    assert Var(trail0[i]) in vtab0;
    forall l | l in trail[..j] || l in trail0[i..] ensures l != -trail[i] {
      if l in trail[..j] {
        assert l in trail0[..i];
        var k :| 0 <= k < i && trail0[..i][k] == l;
      } else {
        var k :| 0 <= k < |trail0| - i && trail0[i..][k] == l;
        assert k > 0 ==> Var(trail0[i]) != Var(trail0[i+k]);
      }
    }
  }

  lemma CompactingDrop(trail0: seq<Lit>, vtab0: Table, n: nat, trail: seq<Lit>, vtab: Table, vals: set<Lit>, count: nat, i: nat, j: nat)
    requires Compacting(trail0, vtab0, n, trail, vtab, vals, count, i, j) && i < |trail| && LevelOf(vtab, trail[i]) > n && count > 0
    ensures Compacting(trail0, vtab0, n, trail, vtab, vals - {trail[i]}, count - 1, i + 1, j)
  {
    assert Look(0);
    assert trail[i..][0] == trail0[i..][0];
    assert trail0[..i+1] == trail0[..i] + [trail0[i]];
    UpToLast(trail0[..i], trail0[i], vtab0, n);
    assert trail[i+1..] == trail[i..][1..] == trail0[i+1..];
    UpToMembers(trail0[..i], vtab0, n);
    DroppedLits(trail[..j], trail0, i);
  }

  lemma DroppedLits(kept: seq<Lit>, trail0: seq<Lit>, i: nat)
    requires DistinctVars(trail0) && i < |trail0| && forall l :: l in kept ==> l in trail0[..i]
    ensures LitsOf(kept) + LitsOf(trail0[i..]) - {trail0[i]} == LitsOf(kept) + LitsOf(trail0[i+1..])
  {
    AwayFrom(trail0, i);
    assert trail0[i..] == [trail0[i]] + trail0[i+1..];
    forall l | l in kept ensures l != trail0[i] {
      assert l in trail0[..i];
    }
  }

  lemma AwayFrom(trail: seq<Lit>, i: nat)
    requires DistinctVars(trail) && i < |trail|
    ensures trail[i] !in trail[..i] && trail[i] !in trail[i+1..]
  {
  }

  lemma CompactingKeep(trail0: seq<Lit>, vtab0: Table, n: nat, trail: seq<Lit>, vtab: Table, vals: set<Lit>, count: nat, i: nat, j: nat)
    requires Compacting(trail0, vtab0, n, trail, vtab, vals, count, i, j) && i < |trail| && LevelOf(vtab, trail[i]) <= n
    requires Var(trail[i]) in vtab && j <= i
    ensures Compacting(trail0, vtab0, n, trail[j := trail[i]], vtab[Var(trail[i]) := vtab[Var(trail[i])].(pos := j)], vals, count, i + 1, j + 1)
  {
    assert Look(0);
    assert trail[i..][0] == trail0[i..][0];
    var lit := trail[i];
    var trail', vtab' := trail[j := lit], vtab[Var(lit) := vtab[Var(lit)].(pos := j)];
    KeptSlices(trail0, vtab0, n, trail, i, j);
    MovedLits(trail, trail0, trail', i, j);
    PlacedKept(trail0, vtab0, n, trail, vtab, i, j);
  }

  lemma KeptSlices(trail0: seq<Lit>, vtab0: Table, n: nat, trail: seq<Lit>, i: nat, j: nat)
    requires j <= i < |trail| == |trail0| && trail[i..] == trail0[i..] && trail[i] == trail0[i]
    requires LevelOf(vtab0, trail0[i]) <= n && trail[..j] == UpTo(trail0[..i], vtab0, n)
    ensures var trail' := trail[j := trail[i]];
            trail'[..j+1] == trail[..j] + [trail[i]] && trail'[..j+1] == UpTo(trail0[..i+1], vtab0, n) && trail'[i+1..] == trail0[i+1..]
  {
    var trail' := trail[j := trail[i]];
    UpToLast(trail0[..i], trail0[i], vtab0, n);
    assert trail0[..i+1] == trail0[..i] + [trail0[i]];
    assert trail'[..j+1] == trail[..j] + [trail[i]];
    assert trail'[i+1..] == trail[i..][1..];
    assert trail0[i..][1..] == trail0[i+1..];
  }

  lemma MovedLits(trail: seq<Lit>, trail0: seq<Lit>, trail': seq<Lit>, i: nat, j: nat)
    requires j <= i < |trail| == |trail0| && trail[i] == trail0[i] && |trail'| == |trail| && trail'[..j+1] == trail[..j] + [trail[i]]
    ensures LitsOf(trail[..j]) + LitsOf(trail0[i..]) == LitsOf(trail'[..j+1]) + LitsOf(trail0[i+1..])
  {
    LitsOfLast(trail[..j], trail[i]);
    assert trail0[i..] == [trail0[i]] + trail0[i+1..];
  }

  lemma PlacedKept(trail0: seq<Lit>, vtab0: Table, n: nat, trail: seq<Lit>, vtab: Table, i: nat, j: nat)
    requires j <= i < |trail| == |trail0| && trail[i] == trail0[i] && DistinctVars(trail0) && Var(trail[i]) in vtab
    requires trail[..j] == UpTo(trail0[..i], vtab0, n)
    requires forall k {:trigger Placed(trail, vtab, k)} :: 0 <= k < j ==> Placed(trail, vtab, k)
    ensures var trail', vtab' := trail[j := trail[i]], vtab[Var(trail[i]) := vtab[Var(trail[i])].(pos := j)];
            forall k {:trigger Placed(trail', vtab', k)} :: 0 <= k < j + 1 ==> Placed(trail', vtab', k)
  {
    var trail', vtab' := trail[j := trail[i]], vtab[Var(trail[i]) := vtab[Var(trail[i])].(pos := j)];
    UpToMembers(trail0[..i], vtab0, n);
    forall k | 0 <= k < j + 1 ensures Placed(trail', vtab', k) {
      if k < j {
        assert Placed(trail, vtab, k);
        assert trail[k] in trail[..j] && trail[k] in trail0[..i];
        var m :| 0 <= m < i && trail0[..i][m] == trail[k];
        assert Var(trail0[m]) != Var(trail0[i]);
      }
    }
  }

  lemma CompactingEnd(trail0: seq<Lit>, vtab0: Table, n: nat, trail: seq<Lit>, vtab: Table, vals: set<Lit>, count: nat, j: nat)
    requires Compacting(trail0, vtab0, n, trail, vtab, vals, count, |trail0|, j)
    ensures j <= |trail| && trail[..j] == UpTo(trail0, vtab0, n) && SameLevels(vtab0, vtab) && WA.TrailOk(trail[..j], vals) && count == j
    ensures forall i {:trigger Placed(trail[..j], vtab, i)} :: 0 <= i < j ==> Placed(trail[..j], vtab, i)
  {
    assert Look(0);
    assert trail0[..|trail0|] == trail0 && trail0[|trail0|..] == [];
    UpToDistinct(trail0, vtab0, n);
    UpToMembers(trail0, vtab0, n);
    forall i | 0 <= i < j ensures Placed(trail[..j], vtab, i) {
      assert Placed(trail, vtab, i);
    }
    var t := trail[..j];
    assert forall i, k :: 0 <= i < k < |t| ==> Var(t[i]) != Var(t[k]);
    forall l | l in vals ensures -l !in vals && l != 0 {
      var i :| 0 <= i < |t| && t[i] == l;
      assert forall k :: 0 <= k < |t| ==> t[k] != -t[i];
    }
  }
}
