// The LRAT builder: unit propagation with recorded reasons, and the construction of hint chains
// from them.
module LratBuilder {
  import opened Cnf
  import opened LratChains
  import opened LratState
  import opened LratClauses
  import opened LratPropagator
  import CK = Checker
  import LS = LratSpec
  import WA = Watching

  class LratBuilder {
    var db: Db                         // all clauses in the order of their addition
    var ws: WA.Watchers
    var trail: seq<Lit>                // for propagation
    var vals: set<Lit>                 // literals assigned to true
    var reasons: map<nat, Reason>      // reason for each assignment
    var unitReasons: map<nat, nat>     // units get preferred
    var unitClauses: seq<nat>          // propagation over watches cannot propagate unit clauses
    var nextToPropagate: nat           // next to propagate on trail
    var inconsistent: bool             // found or added empty clause
    var inconsistentClause: nat
    var inconsistentChain: seq<LS.Id>  // store proof to reuse
    var conflict: nat

    ghost function Now(): State
      reads this
    {
      State(db, ws, trail, vals, reasons)
    }

    method Assign(lit: Lit, reason: Reason)
      modifies `trail, `vals, `reasons
      ensures Now() == Assigned(old(Now()), lit, reason)
    {
      reasons := reasons[Var(lit) := reason];
      vals := vals + {lit};
      trail := trail + [lit];
    }

    // ----- Propagation.

    // Assign the literal of a unit clause, unless it is assigned already.
    method VisitUnit(c: nat, ghost i: nat, ghost base: set<Lit>, ghost done: set<Lit>) returns (res: bool)
      requires Kept(Now(), base, done) && i < |unitClauses| && unitClauses[i] == c
      requires c < |db| && LiveUnit(db[c]) && db[c].lits[0] != 0
      requires UnitList(db, unitClauses) && FirstUnits(db, unitReasons) && Agree(reasons, unitReasons)
      requires UnitsTrueUpTo(db, unitClauses[..i], vals)
      modifies `trail, `vals, `reasons, `conflict
      ensures Kept(Now(), base, done) && old(trail) <= trail && old(vals) <= vals && Agree(reasons, unitReasons)
      ensures MoreReasons(old(reasons), reasons)
      ensures res ==> UnitsTrueUpTo(db, unitClauses[..i+1], vals)
      ensures !res ==> Conflict(db, vals, conflict)
      ensures db[c].lits[0] in old(vals) ==> res && Now() == old(Now())
    {
      var lit := db[c].lits[0];
      res := true;
      if WA.Val(vals, lit) == 0 {
        FreeVariable(vals, lit);
        FirstUnitFree(db, unitClauses, unitReasons, i, vals, Var(lit));
        KeptAssigned(Now(), base, done, lit, Because(c));
        Assign(lit, Because(c));
      } else if WA.Val(vals, lit) < 0 {
        res := false;
        conflict := c;
      }
      if res {
        UnitsTrueStep(db, unitClauses, i, old(vals), vals);
      }
    }

    // Skip garbage clauses; assign the other unit clauses in the order of their addition.
    method UnitPropagate(ghost base: set<Lit>, ghost done: set<Lit>) returns (res: bool)
      requires Kept(Now(), base, done)
      requires UnitList(db, unitClauses) && FirstUnits(db, unitReasons) && Agree(reasons, unitReasons)
      modifies `trail, `vals, `reasons, `unitClauses, `conflict
      ensures Kept(Now(), base, done) && old(trail) <= trail && old(vals) <= vals
      ensures UnitList(db, unitClauses) && Agree(reasons, unitReasons) && MoreReasons(old(reasons), reasons)
      ensures res ==> UnitsTrue(db, vals)
      ensures !res ==> Conflict(db, vals, conflict)
      ensures UnitsTrue(db, old(vals)) ==> res && Now() == old(Now())
    {
      res := true;
      ghost var units := unitClauses;
      var kept: seq<nat> := [];
      var i: nat := 0;
      while res && i < |unitClauses|
        invariant i <= |units| && unitClauses == units && db == old(db) && ws == old(ws)
        invariant Kept(Now(), base, done) && old(trail) <= trail && old(vals) <= vals
        invariant Agree(reasons, unitReasons) && MoreReasons(old(reasons), reasons)
        invariant Swept(db, units[..i], kept)
        invariant res ==> UnitsTrueUpTo(db, units[..i], vals)
        invariant !res ==> Conflict(db, vals, conflict)
        invariant UnitsTrue(db, old(vals)) ==> res && Now() == old(Now())
        decreases res, |units| - i
      {
        var c := unitClauses[i];
        SweptStep(db, units, i, kept);
        if db[c].garbage {
          UnitsTrueStep(db, units, i, vals, vals);
        } else {
          kept := kept + [c];
          res := VisitUnit(c, i, base, done);
        }
        i := i + 1;
      }
      unitClauses := kept + unitClauses[i..];
      SweptList(db, units, i, kept);
      if res {
        assert units[..i] == units;
        AllUnitsTrue(db, units, vals);
      }
    }

    // Position of the first literal after the watched pair that is not false.
    method FindReplacement(lits: seq<Lit>) returns (n: nat)
      requires |lits| > 2
      ensures 2 <= n <= |lits|
      ensures forall j :: 2 <= j < n ==> -lits[j] in vals && lits[j] !in vals
      ensures n < |lits| ==> WA.Val(vals, lits[n]) >= 0
    {
      n := 2;
      while n < |lits|
        invariant 2 <= n <= |lits|
        invariant forall j :: 2 <= j < n ==> -lits[j] in vals && lits[j] !in vals
      {
        if WA.Val(vals, lits[n]) >= 0 { break; }
        n := n + 1;
      }
    }

    // All literals of the visited clause but 'other' are false, and 'other' is not true.
    method VisitLast(fl: Lit, i: nat, k: nat, other: Lit, ghost base: set<Lit>, ghost done: set<Lit>)
      returns (next: nat, res: bool)
      requires Visiting(Now(), base, done, fl, i) && i < |WA.WatchList(ws, fl)|
      requires k == WA.ClauseAt(PropOf(Now()), fl, i) && k < |db| && Usable(db, k) && |db[k].lits| >= 2
      requires other in db[k].lits && WA.OthersFalse(db[k].lits, other, vals) && other !in vals
      modifies `trail, `vals, `reasons, `conflict
      ensures Grows(old(Now()), Now())
      ensures res ==> Visiting(Now(), base, done, fl, next) && next == i + 1
      ensures !res ==> Kept(Now(), base, {}) && Conflict(db, vals, conflict)
    {
      next := i + 1;
      res := true;
      if WA.Val(vals, other) == 0 {
        VisitAssigned(Now(), base, done, fl, i, other);
        Assign(other, Because(k));
      } else {
        GrowsReflexive(Now());
        VisitingKept(Now(), base, done, fl, i);
        res := false;
        conflict := k;
      }
    }

    // The false literal is the second watch and the first watch is not true.
    method VisitPair(fl: Lit, i: nat, k: nat, ghost base: set<Lit>, ghost done: set<Lit>)
      returns (next: nat, res: bool)
      requires Visiting(Now(), base, done, fl, i) && i < |WA.WatchList(ws, fl)|
      requires k == WA.ClauseAt(PropOf(Now()), fl, i) && k < |db| && Usable(db, k) && |db[k].lits| > 2
      requires db[k].lits[1] == fl && -fl in vals && db[k].lits[0] !in vals
      modifies `db, `ws, `trail, `vals, `reasons, `conflict
      ensures Grows(old(Now()), Now())
      ensures res ==> Visiting(Now(), base, done, fl, next)
      ensures res ==> next <= |WA.WatchList(ws, fl)| && |WA.WatchList(ws, fl)| - next < |WA.WatchList(old(ws), fl)| - i
      ensures !res ==> Kept(Now(), base, {}) && Conflict(db, vals, conflict)
    {
      var lits := db[k].lits;
      var n := FindReplacement(lits);
      if n < |lits| {
        ghost var s := Now();
        CK.VisitConsistent(PropOf(s), WA.Any(), {}, base, done, fl, i, lits[n]);
        next, res := i, true;
        ws := ws[fl := WA.Without(ws[fl], i)];
        ws := ws[lits[n] := WA.WatchList(ws, lits[n]) + [WA.Watch(fl, |lits|, k)]];
        db := db[k := db[k].(lits := lits[1 := lits[n]][n := lits[1]])];
        VisitMoved(s, base, done, fl, i, n, Now());
      } else {
        CK.RestFalse(lits, vals, lits[0], fl);
        next, res := VisitLast(fl, i, k, lits[0], base, done);
      }
    }

    // A clause with more than two literals.
    method VisitLong(fl: Lit, i: nat, k: nat, ghost base: set<Lit>, ghost done: set<Lit>)
      returns (next: nat, res: bool)
      requires Visiting(Now(), base, done, fl, i) && i < |WA.WatchList(ws, fl)|
      requires k == WA.ClauseAt(PropOf(Now()), fl, i) && k < |db| && Usable(db, k) && |db[k].lits| > 2
      requires -fl in vals
      modifies `db, `ws, `trail, `vals, `reasons, `conflict
      ensures Grows(old(Now()), Now())
      ensures res ==> Visiting(Now(), base, done, fl, next)
      ensures res ==> next <= |WA.WatchList(ws, fl)| && |WA.WatchList(ws, fl)| - next < |WA.WatchList(old(ws), fl)| - i
      ensures !res ==> Kept(Now(), base, {}) && Conflict(db, vals, conflict)
    {
      VisitClause(Now(), base, done, fl, i);
      var other := if db[k].lits[0] == fl then db[k].lits[1] else db[k].lits[0];
      ghost var s := Now();
      if WA.Val(vals, other) > 0 {
        next, res := i + 1, true;
        ws := ws[fl := ws[fl][i := ws[fl][i].(blit := other)]];
        VisitBlit(s, base, done, fl, i, other, Now());
        return;
      }
      db := db[k := db[k].(lits := db[k].lits[0 := other][1 := fl])];
      VisitOrdered(s, base, done, fl, i, k, other, Now());
      ghost var mid := Now();
      next, res := VisitPair(fl, i, k, base, done);
      GrowsTransitive(s, mid, Now());
    }

    // Visit one watch of the false literal 'fl'.
    method Visit(fl: Lit, i: nat, ghost base: set<Lit>, ghost done: set<Lit>) returns (next: nat, res: bool)
      requires Visiting(Now(), base, done, fl, i) && i < |WA.WatchList(ws, fl)|
      modifies `db, `ws, `trail, `vals, `reasons, `conflict
      ensures Grows(old(Now()), Now())
      ensures res ==> Visiting(Now(), base, done, fl, next)
      ensures res ==> next <= |WA.WatchList(ws, fl)| && |WA.WatchList(ws, fl)| - next < |WA.WatchList(old(ws), fl)| - i
      ensures !res ==> Kept(Now(), base, {}) && Conflict(db, vals, conflict)
    {
      VisitClause(Now(), base, done, fl, i);
      GrowsReflexive(Now());
      var w := ws[fl][i];
      if db[w.clause].garbage {
        ghost var s := Now();
        next, res := i, true;
        ws := ws[fl := WA.Without(ws[fl], i)];
        VisitDropped(s, base, done, fl, i, Now());
      } else if WA.Val(vals, w.blit) > 0 {
        next, res := i + 1, true;
        CK.VisitTrue(PropOf(Now()), WA.Any(), {}, base, done, fl, i, w.blit);
      } else if w.size == 1 || w.size == 2 {
        next, res := VisitLast(fl, i, w.clause, w.blit, base, done);
      } else {
        next, res := VisitLong(fl, i, w.clause, base, done);
      }
    }

    // Visit all watches of a false literal.
    method VisitAll(fl: Lit, ghost base: set<Lit>, ghost done: set<Lit>) returns (res: bool)
      requires Visiting(Now(), base, done, fl, 0)
      modifies `db, `ws, `trail, `vals, `reasons, `conflict
      ensures Grows(old(Now()), Now())
      ensures res ==> Kept(Now(), base, done + {-fl})
      ensures !res ==> Kept(Now(), base, {}) && Conflict(db, vals, conflict)
    {
      GrowsReflexive(Now());
      res := true;
      var i: nat := 0;
      while res && i < |WA.WatchList(ws, fl)|
        invariant Grows(old(Now()), Now())
        invariant res ==> Visiting(Now(), base, done, fl, i)
        invariant !res ==> Kept(Now(), base, {}) && Conflict(db, vals, conflict)
        decreases res, |WA.WatchList(ws, fl)| - i
      {
        ghost var mid := Now();
        i, res := Visit(fl, i, base, done);
        GrowsTransitive(old(Now()), mid, Now());
      }
      if res {
        CK.EndVisiting(PropOf(Now()), WA.Any(), {}, base, done, fl, i);
      }
    }

    // Propagate the next literal of the trail.
    method PropagateNext(ghost base: set<Lit>) returns (res: bool)
      requires nextToPropagate < |trail| && Kept(Now(), base, LitsOf(trail[..nextToPropagate]))
      modifies `db, `ws, `trail, `vals, `reasons, `conflict, `nextToPropagate
      ensures nextToPropagate == old(nextToPropagate) + 1 && Grows(old(Now()), Now())
      ensures res ==> Kept(Now(), base, LitsOf(trail[..nextToPropagate]))
      ensures !res ==> Kept(Now(), base, {}) && Conflict(db, vals, conflict)
    {
      ghost var done := LitsOf(trail[..nextToPropagate]);
      var lit := trail[nextToPropagate];
      nextToPropagate := nextToPropagate + 1;
      StartVisiting(Now(), base, done, lit);
      res := VisitAll(-lit, base, done);
      GrowsDone(old(Now()), Now(), old(nextToPropagate));
    }

    // Propagate all assigned literals over the watch lists.
    method PropagateWatches(ghost base: set<Lit>) returns (res: bool)
      requires nextToPropagate <= |trail| && Kept(Now(), base, LitsOf(trail[..nextToPropagate]))
      modifies `db, `ws, `trail, `vals, `reasons, `conflict, `nextToPropagate
      ensures Grows(old(Now()), Now())
      ensures res ==> nextToPropagate == |trail| && Kept(Now(), base, vals)
      ensures !res ==> Kept(Now(), base, {}) && Conflict(db, vals, conflict)
    {
      res := true;
      GrowsReflexive(Now());
      while res && nextToPropagate < |trail|
        invariant nextToPropagate <= |trail| && Grows(old(Now()), Now())
        invariant res ==> Kept(Now(), base, LitsOf(trail[..nextToPropagate]))
        invariant !res ==> Kept(Now(), base, {}) && Conflict(db, vals, conflict)
        decreases CK.Room(View(db), vals), |trail| - nextToPropagate
      {
        ghost var mid := Now();
        res := PropagateNext(base);
        GrowsRoom(mid, Now());
        GrowsTransitive(old(Now()), mid, Now());
      }
      if res {
        assert trail[..nextToPropagate] == trail;
        CK.KeptDone(PropOf(Now()), WA.Any(), {}, base, LitsOf(trail));
      }
    }

    // Propagate unit clauses first and then over the watch lists.
    method Propagate(ghost base: set<Lit>) returns (res: bool)
      requires nextToPropagate <= |trail| && Kept(Now(), base, LitsOf(trail[..nextToPropagate]))
      requires UnitList(db, unitClauses) && FirstUnits(db, unitReasons) && Agree(reasons, unitReasons)
      modifies `db, `ws, `trail, `vals, `reasons, `conflict, `nextToPropagate, `unitClauses
      ensures SameClauses(old(db), db) && old(trail) <= trail && old(vals) <= vals && MoreReasons(old(reasons), reasons)
      ensures UnitList(db, unitClauses) && FirstUnits(db, unitReasons) && Agree(reasons, unitReasons)
      ensures res ==> nextToPropagate == |trail| && Kept(Now(), base, vals) && UnitsTrue(db, vals)
      ensures !res ==> Kept(Now(), base, {}) && Conflict(db, vals, conflict)
    {
      ghost var done := LitsOf(trail[..nextToPropagate]);
      GrowsReflexive(Now());
      res := UnitPropagate(base, done);
      if !res {
        KeptLess(Now(), base, done);
        return;
      }
      ghost var mid := Now();
      assert trail[..nextToPropagate] == old(trail)[..nextToPropagate];
      res := PropagateWatches(base);
      AgreeGrows(mid, Now(), unitReasons);
      SameUnits(mid.db, db, vals, unitClauses, unitReasons);
    }

    // Undo all assignments after the first 'previously' ones.
    method Backtrack(previously: nat)
      requires previously <= |trail| && WA.TrailOk(trail, vals) && reasons.Keys == VarsOf(trail)
      modifies `trail, `vals, `reasons, `nextToPropagate
      ensures Now() == Undone(old(Now()), previously) && nextToPropagate == previously
    {
      UndoneAll(Now());
      while |trail| > previously
        invariant previously <= |trail| <= |old(trail)| && Now() == Undone(old(Now()), |trail|)
      {
        Unassign(old(Now()));
      }
      nextToPropagate := previously;
    }

    // Drop the last literal of the trail.
    method Unassign(ghost s: State)
      requires WA.TrailOk(s.trail, s.vals) && 0 < |trail| <= |s.trail| && Now() == Undone(s, |trail|)
      modifies `trail, `vals, `reasons
      ensures |trail| == |old(trail)| - 1 && Now() == Undone(s, |trail|)
    {
      UndoneStep(s, |trail| - 1);
      var lit := trail[|trail|-1];
      reasons := reasons - {Var(lit)};
      vals := vals - {lit};
      trail := trail[..|trail|-1];
    }

    // ----- Construction of chains.

    // Remember the variables of a reason that are still to be justified.
    method MarkReason(p: nat, k: nat, todo0: set<nat>, justified: set<nat>, unjustified0: nat)
      returns (todo: set<nat>, unjustified: nat)
      requires Explained(Now()) && p < |trail| && Var(trail[p]) in todo0 && unjustified0 == CountPending(trail, todo0, p)
      requires Var(trail[p]) in reasons && reasons[Var(trail[p])] == Because(k) && k < |db|
      ensures todo0 <= todo && unjustified == CountPending(trail, todo, p)
      ensures forall l :: l in db[k].lits ==> Var(l) in todo || Var(l) in justified
    {
      todo, unjustified := todo0, unjustified0;
      var lits := db[k].lits;
      for i := 0 to |lits|
        invariant todo0 <= todo && unjustified == CountPending(trail, todo, p)
        invariant forall j :: 0 <= j < i ==> Var(lits[j]) in todo || Var(lits[j]) in justified
      {
        var v := Var(lits[i]);
        if v in todo { continue; }
        if v in justified { continue; }
        ReasonMarked(Now(), todo, p, k, lits[i]);
        unjustified := unjustified + 1;
        todo := todo + {v};
      }
    }

    // Go over the trail in reverse order and justify what is needed.
    method ConstructChain(reverse0: seq<LS.Id>, todo0: set<nat>, justified0: set<nat>, unjustified0: nat,
                          ghost known: set<Lit>, ghost goal: Goal)
      returns (chain: seq<LS.Id>)
      requires Explained(Now()) && Building(db, trail, reasons, known, [], goal, todo0, |trail|)
      requires goal.Falsify? ==> FalseClause(db, vals, goal.clause)
      requires Assumptions(trail, reasons, justified0, known) && Agree(reasons, unitReasons)
      requires unjustified0 == CountPending(trail, todo0, |trail|) && reverse0 == GoalIds(db, goal)
      ensures Chained(db, trail, reasons, known, goal, chain)
    {
      var reverse, todo, justified, unjustified := reverse0, todo0, justified0, unjustified0;
      ghost var steps: seq<Step> := [];
      var p: nat := |trail|;
      assert Reversed(reverse) == Ids(db, steps, goal);
      while unjustified > 0 && p > 0
        invariant p <= |trail|
        invariant Constructing(Now(), known, goal, justified0, steps, reverse, todo, justified, unjustified, p)
        decreases p
      {
        p := p - 1;
        var v := Var(trail[p]);
        SkipStep(Now(), known, goal, justified0, steps, reverse, todo, justified, unjustified, p);
        if v !in todo { continue; }
        unjustified := unjustified - 1;
        if v in justified { continue; }
        ReasonKnown(Now(), justified0, known, p);
        var k := if v in unitReasons then unitReasons[v] else reasons[v].clause;
        ghost var before, was := todo, unjustified + 1;
        todo, unjustified := MarkReason(p, k, todo, justified, unjustified);
        JustifyStep(Now(), known, goal, justified0, steps, reverse, before, todo, justified, was, unjustified, p, k);
        reverse := reverse + [db[k].id];
        justified := justified + {v};
        steps := [Step(k, trail[p])] + steps;
      }
      BuildingDone(db, trail, reasons, known, steps, goal, todo, p);
      chain := InReverse(reverse);
    }

    method InReverse(reverse: seq<LS.Id>) returns (chain: seq<LS.Id>)
      ensures chain == Reversed(reverse)
    {
      chain := [];
      var n := |reverse|;
      assert reverse[..n] == reverse;
      while n > 0
        invariant 0 <= n <= |reverse| && chain + Reversed(reverse[..n]) == Reversed(reverse)
      {
        n := n - 1;
        assert reverse[..n+1][..n] == reverse[..n];
        chain := chain + [reverse[n]];
      }
    }

    // All literals of a falsified clause have to be justified.
    method MarkFalsified(k: nat, ghost known: set<Lit>) returns (todo: set<nat>)
      requires Explained(Now()) && FalseClause(db, vals, k)
      ensures CountPending(trail, todo, |trail|) == |db[k].lits|
      ensures Building(db, trail, reasons, known, [], Falsify(k), todo, |trail|)
    {
      var lits := db[k].lits;
      todo := {};
      CountNothing(trail, |trail|);
      for i := 0 to |lits|
        invariant todo == VarsOf(lits[..i]) && CountPending(trail, todo, |trail|) == i
      {
        FalsifiedMarked(Now(), k, i);
        todo := todo + {Var(lits[i])};
      }
      assert lits[..|lits|] == lits;
      FalsifiedBuilding(Now(), known, k, todo);
    }

    // The conflict was found under the assumption that all literals of the clause are false.
    method ProofClause(simplified: seq<Lit>) returns (chain: seq<LS.Id>)
      requires Explained(Now()) && FalseClause(db, vals, conflict) && Agree(reasons, unitReasons)
      requires Assumptions(trail, reasons, VarsOf(simplified), Negations(simplified))
      ensures Chained(db, trail, reasons, Negations(simplified), Falsify(conflict), chain)
    {
      ghost var known := Negations(simplified);
      var todo := MarkFalsified(conflict, known);
      var justified := VarsOf(simplified);
      chain := ConstructChain([db[conflict].id], todo, justified, |db[conflict].lits|, known, Falsify(conflict));
    }

    // For a satisfied clause only the satisfied literal has to be proved.
    method ProofSatisfiedLiteral(lit: Lit) returns (chain: seq<LS.Id>)
      requires Explained(Now()) && lit in vals && Agree(reasons, unitReasons) && Rooted(reasons)
      ensures Chained(db, trail, reasons, {}, Reach(lit), chain)
    {
      SatisfiedBuilding(Now(), lit);
      chain := ConstructChain([], {Var(lit)}, {}, 1, {}, Reach(lit));
    }

    // Anything can be added to an inconsistent state by proving the inconsistent clause.
    method ProofInconsistentClause() returns (chain: seq<LS.Id>)
      requires Explained(Now()) && FalseClause(db, vals, inconsistentClause) && Agree(reasons, unitReasons) && Rooted(reasons)
      requires inconsistentChain != [] ==>
                 Chained(db, trail, reasons, {}, Falsify(inconsistentClause), inconsistentChain)
      modifies `inconsistentChain
      ensures Chained(db, trail, reasons, {}, Falsify(inconsistentClause), chain) && inconsistentChain == chain
    {
      if |inconsistentChain| > 0 {
        return inconsistentChain;
      }
      var todo := MarkFalsified(inconsistentClause, {});
      chain := ConstructChain([db[inconsistentClause].id], todo, {}, |db[inconsistentClause].lits|, {},
                              Falsify(inconsistentClause));
      inconsistentChain := chain;
    }

    // What holds between the calls of the proof producer.
    ghost predicate Valid()
      reads this
    {
      Sane(Snap())
    }

    ghost function Snap(): Fields
      reads this
    {
      Fields(Now(), unitClauses, unitReasons, nextToPropagate, inconsistent, inconsistentClause, inconsistentChain)
    }

    constructor ()
      ensures Valid() && !inconsistent && db == [] && trail == [] && vals == {} && reasons == map[]
    {
      db, ws, trail, vals, reasons, unitReasons, unitClauses := [], map[], [], {}, map[], map[], [];
      nextToPropagate, inconsistent, inconsistentClause, inconsistentChain, conflict := 0, false, 0, [], 0;
      new;
      EmptyKept(Now());
      SteadyIntro(Now(), unitClauses, unitReasons);
    }

    // Assume that all literals of a clause are false, until one is found to be true.
    method AssumeNegations(simplified: seq<Lit>, ghost base: set<Lit>) returns (satisfied: bool, lit: Lit)
      requires Kept(Now(), base, base) && base == vals && WA.Distinct(simplified)
      requires UnitsTrue(db, vals) && FirstUnits(db, unitReasons) && Agree(reasons, unitReasons) && Rooted(reasons)
      modifies `trail, `vals, `reasons
      ensures Kept(Now(), base, base) && Agree(reasons, unitReasons)
      ensures OnlyAssumed(old(Now()), Now(), VarsOf(simplified))
      ensures satisfied ==> lit in simplified && lit in base
      ensures !satisfied ==> vals == base + Negations(simplified)
    {
      satisfied, lit := false, 0;
      assert simplified[..0] == [] && base + Negations([]) == base;
      var n: nat := 0;
      while n < |simplified| && !satisfied
        invariant n <= |simplified| && db == old(db) && ws == old(ws) && Kept(Now(), base, base) && Agree(reasons, unitReasons)
        invariant OnlyAssumed(old(Now()), Now(), VarsOf(simplified))
        invariant satisfied ==> lit in simplified && lit in base
        invariant !satisfied ==> vals == base + Negations(simplified[..n])
      {
        satisfied := AssumeNext(simplified, n, base, old(Now()));
        lit := simplified[n];
        n := n + 1;
      }
      assert simplified[..|simplified|] == simplified;
    }

    method AssumeNext(simplified: seq<Lit>, n: nat, ghost base: set<Lit>, ghost before: State) returns (satisfied: bool)
      requires Kept(Now(), base, base) && WA.Distinct(simplified) && n < |simplified| && vals == base + Negations(simplified[..n])
      requires Agree(reasons, unitReasons) && OnlyAssumed(before, Now(), VarsOf(simplified))
      requires UnitsTrue(db, before.vals) && FirstUnits(db, unitReasons) && Rooted(before.reasons)
      modifies `trail, `vals, `reasons
      ensures Kept(Now(), base, base) && Agree(reasons, unitReasons) && OnlyAssumed(before, Now(), VarsOf(simplified))
      ensures satisfied ==> simplified[n] in base
      ensures !satisfied ==> vals == base + Negations(simplified[..n+1])
    {
      satisfied := false;
      assert simplified[..n+1] == simplified[..n] + [simplified[n]];
      NegationsLast(simplified[..n], simplified[n]);
      if WA.Val(vals, simplified[n]) > 0 {
        NotAssumed(simplified, n, base);
        return true;
      }
      if WA.Val(vals, simplified[n]) == 0 {
        KeptAssigned(Now(), base, base, -simplified[n], Assumption);
        AssumedOnly(before, Now(), simplified, n, unitReasons);
        Assign(-simplified[n], Assumption);
      }
    }

    // Propagate the negations of a clause and prove a conflict, if there is one.
    method Refute(simplified: seq<Lit>, ghost before: State) returns (refuted: bool, chain: seq<LS.Id>)
      requires UniqueIds(db) && UnitList(db, unitClauses) && FirstUnits(db, unitReasons) && Agree(reasons, unitReasons)
      requires Kept(before, before.vals, before.vals) && Kept(Now(), before.vals, before.vals) && Formed(before.db)
      requires OnlyAssumed(before, Now(), VarsOf(simplified)) && vals == before.vals + Negations(simplified)
      requires nextToPropagate == |before.trail| && WA.Distinct(simplified)
      modifies `db, `ws, `trail, `vals, `reasons, `conflict, `nextToPropagate, `unitClauses
      ensures SameClauses(before.db, db) && before.trail <= trail && MoreReasons(old(reasons), reasons)
      ensures UnitList(db, unitClauses) && FirstUnits(db, unitReasons)
      ensures Kept(Now(), before.vals, {})
      ensures refuted ==> Certified(before.db, simplified, chain)
      ensures !refuted <==> Exhausted(before.db, before.vals + Negations(simplified))
    {
      DoneIsBase(before, Now());
      var res := Propagate(before.vals);
      refuted, chain := !res, [];
      if res {
        Refuted(before.db, Now(), before.vals, before.vals + Negations(simplified));
        KeptLess(Now(), before.vals, vals);
      } else {
        KeptFacts(Now(), before.vals, {});
        AssumptionsKnown(Now(), simplified);
        ConflictRefutes(before.db, Now(), simplified, before.vals, conflict);
        chain := ProofClause(simplified);
        SameUnique(before.db, db);
        ChainCertified(Now(), simplified, Negations(simplified), Falsify(conflict), chain);
        CertifiedSame(before.db, db, simplified, chain);
      }
    }

    // Undo all that was assigned for the clause.
    method PropagateNegations(simplified: seq<Lit>, previouslyPropagated: nat, previousTrailSize: nat,
                              ghost before: State)
      returns (ok: bool, chain: seq<LS.Id>)
      requires !inconsistent && inconsistentChain == [] && Steady(before, unitClauses, unitReasons)
      requires Agree(reasons, unitReasons) && Kept(Now(), before.vals, before.vals)
      requires OnlyAssumed(before, Now(), VarsOf(simplified)) && vals == before.vals + Negations(simplified)
      requires nextToPropagate == previouslyPropagated == previousTrailSize == |before.trail| && WA.Distinct(simplified)
      modifies `db, `ws, `trail, `vals, `reasons, `conflict, `nextToPropagate, `unitClauses
      ensures Valid() && SameClauses(before.db, db)
      ensures trail == before.trail && vals == before.vals && reasons == before.reasons
      ensures ok ==> Certified(before.db, simplified, chain)
      ensures !ok <==> Exhausted(before.db, before.vals + Negations(simplified))
    {
      SteadyFacts(before, unitClauses, unitReasons);
      ok, chain := Refute(simplified, before);
      ghost var after := Now();
      RestoreRoot(before, after, before.vals, {});
      Backtrack(previousTrailSize);
      nextToPropagate := previouslyPropagated;
      SteadyAgain(before, after.db, after.ws, old(unitClauses), unitClauses, unitReasons);
    }

    // Build a chain for a clause, if the clause is implied by unit propagation.
    method BuildChainIfPossible(simplified: seq<Lit>, tautological: bool) returns (ok: bool, chain: seq<LS.Id>)
      requires Valid() && (!tautological ==> WA.Distinct(simplified))
      modifies `db, `ws, `trail, `vals, `reasons, `conflict, `nextToPropagate, `unitClauses, `inconsistentChain
      ensures Valid() && SameClauses(old(db), db) && trail == old(trail) && vals == old(vals) && reasons == old(reasons)
      ensures ok && !tautological ==> Certified(old(db), simplified, chain)
      ensures tautological ==> chain == []
      ensures !ok <==> !tautological && !inconsistent && Exhausted(old(db), old(vals) + Negations(simplified))
      ensures !ok ==> (NaiveRup(old(db), old(vals) + Negations(simplified)) <==> HasEmpty(old(db)))
    {
      ok, chain := true, [];
      GrowsReflexive(Now());
      if tautological {
        return;
      }
      if inconsistent {
        BrokenFacts(Now(), unitClauses, unitReasons, inconsistentClause, inconsistentChain);
        chain := ProofInconsistentClause();
        ChainCertified(Now(), simplified, {}, Falsify(inconsistentClause), chain);
        BrokenCached(Now(), unitClauses, unitReasons, inconsistentClause, old(inconsistentChain), chain);
        return;
      }
      ok, chain := BuildByPropagation(simplified);
      if !ok {
        ExhaustedExactly(old(db), old(vals) + Negations(simplified));
      }
    }

    // Assume the negation of the clause and propagate.
    method BuildByPropagation(simplified: seq<Lit>) returns (ok: bool, chain: seq<LS.Id>)
      requires Valid() && !inconsistent && WA.Distinct(simplified)
      modifies `db, `ws, `trail, `vals, `reasons, `conflict, `nextToPropagate, `unitClauses
      ensures Valid() && SameClauses(old(db), db) && trail == old(trail) && vals == old(vals) && reasons == old(reasons)
      ensures ok ==> Certified(old(db), simplified, chain)
      ensures !ok <==> Exhausted(old(db), old(vals) + Negations(simplified))
    {
      SteadyFacts(Now(), unitClauses, unitReasons);
      ghost var before := Now();
      var previouslyPropagated, previousTrailSize := nextToPropagate, |trail|;
      var satisfied, lit := AssumeNegations(simplified, vals);
      assert trail[..previousTrailSize] == before.trail;
      if satisfied {
        RestoreKept(before, Now(), VarsOf(simplified));
        SatisfiedRefutes(before, simplified, lit);
        Backtrack(previousTrailSize);
        GrowsReflexive(Now());
        ok := true;
        chain := ProofSatisfiedLiteral(lit);
        ChainCertified(Now(), simplified, {}, Reach(lit), chain);
        return;
      }
      ok, chain := PropagateNegations(simplified, previouslyPropagated, previousTrailSize, before);
    }

    // ----- Adding clauses.

    // Sort a clause and drop duplicates in place; a tautological clause is left half way.
    method Tautological(c: seq<Lit>) returns (tautological: bool, simplified: seq<Lit>)
      requires 0 !in c
      ensures tautological <==> exists l :: l in c && -l in c
      ensures LitsOf(simplified) == LitsOf(c) && (tautological || WA.Distinct(simplified))
    {
      var sorted := CK.SortLits(c);
      CK.SortSorted(c);
      simplified := [];
      var prev := 0;
      for i := 0 to |sorted|
        invariant CK.Scanned(sorted, i, simplified, prev, {}) && |simplified| <= i
      {
        var lit := sorted[i];
        CK.ScanStep(sorted, i, simplified, prev, {});
        if lit == prev { continue; }
        if lit == -prev {
          CompactedRest(c, sorted, i, simplified, prev);
          return true, simplified + sorted[|simplified|..];
        }
        simplified := simplified + [lit];
        prev := lit;
      }
      CK.ScanEnd(c, sorted, simplified, prev, {});
      tautological := false;
    }

    // The first two literals are used as watches and should not be false.
    method MoveToFront(lits: seq<Lit>) returns (r: seq<Lit>)
      requires |lits| >= 2
      ensures CK.Permuted(lits, r) && FrontNotFalse(vals, r)
    {
      r := lits;
      for i := 0 to 2
        invariant CK.Permuted(lits, r)
        invariant forall n :: 0 <= n < i && n < |r| && -r[n] in vals && r[n] !in vals ==> AllFalseFrom(vals, r, n)
      {
        if WA.Val(vals, r[i]) >= 0 { continue; }
        r := BringToFront(lits, r, i);
      }
    }

    // Exchange the false literal at position 'i' with a later one that is not false.
    method BringToFront(ghost lits: seq<Lit>, r0: seq<Lit>, i: nat) returns (r: seq<Lit>)
      requires CK.Permuted(lits, r0) && i < |r0| && -r0[i] in vals && r0[i] !in vals
      ensures CK.Permuted(lits, r) && r[..i] == r0[..i]
      ensures forall n {:trigger AllFalseFrom(vals, r0, n)} :: 0 <= n < i && AllFalseFrom(vals, r0, n) ==> r == r0
      ensures -r[i] in vals && r[i] !in vals ==> AllFalseFrom(vals, r, i)
    {
      r := r0;
      for j := i + 1 to |r|
        invariant r == r0 && forall n :: i <= n < j ==> -r[n] in vals && r[n] !in vals
      {
        if WA.Val(vals, r[j]) < 0 { continue; }
        r := r[i := r[j]][j := r[i]];
        CK.ExchangePermuted(lits, r0, i, j);
        return;
      }
    }

    method Satisfied(lits: seq<Lit>) returns (r: bool)
      ensures r <==> exists l :: l in lits && l in vals
    {
      for i := 0 to |lits|
        invariant forall k :: 0 <= k < i ==> lits[k] !in vals
      {
        if WA.Val(vals, lits[i]) > 0 {
          return true;
        }
      }
      r := false;
    }

    // Go over the literals of a clause without true literals.
    method CountUnassigned(lits: seq<Lit>) returns (u: CK.Remaining)
      requires forall l :: l in lits ==> l !in vals
      ensures Counted(vals, lits, u)
    {
      u := CK.Nothing;
      ghost var at := 0;
      for i := 0 to |lits|
        invariant !u.Many?
        invariant u.Nothing? ==> forall k :: 0 <= k < i ==> -lits[k] in vals
        invariant u.Single? ==> 0 <= at < i && lits[at] == u.lit && -u.lit !in vals &&
                                forall k :: 0 <= k < i && k != at ==> -lits[k] in vals
      {
        if WA.Val(vals, lits[i]) < 0 { continue; }
        if u.Single? {
          assert WA.Val(vals, lits[at]) == 0 && WA.Val(vals, lits[i]) == 0;
          return CK.Many;
        }
        u := CK.Single(lits[i]);
        at := i;
      }
    }

    // Insert a clause; clauses with at least two literals are watched unless tautological.
    method Insert(simplified: seq<Lit>, tautological: bool, id: LS.Id) returns (c: BClause)
      modifies `db, `ws, `unitClauses
      ensures c.id == id && !c.garbage && CK.Permuted(simplified, c.lits)
      ensures |c.lits| >= 2 ==> FrontNotFalse(vals, c.lits)
      ensures Now() == Inserted(old(Now()), c, |c.lits| >= 2 && !tautological)
      ensures unitClauses == if |c.lits| == 1 then old(unitClauses) + [|old(db)|] else old(unitClauses)
    {
      var lits := simplified;
      if |simplified| == 1 {
        unitClauses := unitClauses + [|db|];
      } else if |simplified| >= 2 {
        lits := MoveToFront(simplified);
      }
      c := BClause(id, lits, false);
      if |lits| >= 2 && !tautological {
        ws := ws[lits[0] := WA.WatchList(ws, lits[0]) + [WA.Watch(lits[1], |lits|, |db|)]];
        ws := ws[lits[1] := WA.WatchList(ws, lits[1]) + [WA.Watch(lits[0], |lits|, |db|)]];
      }
      db := db + [c];
    }

    // Propagate without assumptions.
    method PropagateRoot() returns (res: bool)
      requires Indexed(Now(), unitClauses, unitReasons)
      requires nextToPropagate <= |trail| && Kept(Now(), {}, LitsOf(trail[..nextToPropagate]))
      modifies `db, `ws, `trail, `vals, `reasons, `conflict, `nextToPropagate, `unitClauses
      ensures SameClauses(old(db), db)
      ensures res ==> Steady(Now(), unitClauses, unitReasons) && nextToPropagate == |trail|
      ensures !res ==> Broken(Now(), unitClauses, unitReasons, conflict, []) && Conflict(db, vals, conflict)
      ensures MoreReasons(old(reasons), reasons)
    {
      ghost var before := Now();
      res := Propagate({});
      AssignedIndexed(before, Now(), unitClauses, unitReasons);
      if res {
        KeptRoot(Now());
        SteadyIntro(Now(), unitClauses, unitReasons);
      } else {
        BrokenIntro(Now(), unitClauses, unitReasons, conflict);
      }
    }

    // The new clause forces a literal.
    method AssignNew(c: BClause, unit: Lit, ghost before: State)
      requires UnitFresh(before, unitClauses, unitReasons, c, unit, Now())
      requires !inconsistent && nextToPropagate == |trail| && inconsistentChain == [] && |db| > 0
      modifies `db, `ws, `trail, `vals, `reasons, `conflict, `nextToPropagate, `unitClauses, `inconsistent, `inconsistentClause
      ensures Valid() && SameClauses(old(db), db) && TakenReason(old(reasons), Var(unit), |old(db)| - 1, reasons)
    {
      UnitFreshState(before, unitClauses, unitReasons, c, unit, Now());
      Assign(unit, Because(|db| - 1));
      UnitAssigned(before, unitClauses, unitReasons, c, unit, Now());
      TakenAssigned(before, unitClauses, unitReasons, c, unit, Now());
      assert trail[..nextToPropagate] == old(trail);
      ghost var more := reasons;
      var res := PropagateRoot();
      TakenMore(before.reasons, Var(unit), |before.db|, more, reasons);
      if res {
        SaneSteady(Snap());
      } else {
        inconsistent := true;
        inconsistentClause := conflict;
        SaneBroken(Snap());
      }
    }

    // Satisfied clauses are treated like clauses with many unassigned literals.
    method Classify(lits: seq<Lit>) returns (u: CK.Remaining)
      requires 0 !in lits && (|lits| >= 2 ==> FrontNotFalse(vals, lits))
      ensures Classified(vals, lits, u)
    {
      u := CK.Many;
      var satisfied := Satisfied(lits);
      if !satisfied {
        u := CountUnassigned(lits);
        ClassifiedCounted(vals, lits, u);
      }
    }

    // The new clause is satisfied, falsified, unit, or has two unassigned literals.
    method SettleNew(c: BClause, tautological: bool, ghost before: State, ghost units: seq<nat>)
      requires Steady(before, units, unitReasons) && Fresh(before, units, c, tautological, Now(), unitClauses)
      requires !inconsistent && nextToPropagate == |trail| && inconsistentChain == []
      modifies `db, `ws, `trail, `vals, `reasons, `unitReasons, `conflict, `nextToPropagate, `unitClauses, `inconsistent, `inconsistentClause
      ensures Valid() && SameClauses(old(db), db) && NewReasons(old(reasons), c.lits, before.vals, |before.db|, reasons)
    {
      FreshLits(before, units, c, tautological, Now(), unitClauses);
      var u := Classify(c.lits);
      ClassifiedForced(before, units, c, tautological, Now(), unitClauses, u);
      SettleAs(c, u, tautological, before, units);
    }

    method SettleAs(c: BClause, u: CK.Remaining, tautological: bool, ghost before: State, ghost units: seq<nat>)
      requires Steady(before, units, unitReasons) && Fresh(before, units, c, tautological, Now(), unitClauses)
      requires Now() == Inserted(before, c, |c.lits| >= 2 && !tautological)
      requires Classified(vals, c.lits, u) && OnlyOpen(before.vals, c.lits, u)
      requires !u.Single? ==> NewReasons(before.reasons, c.lits, before.vals, |before.db|, before.reasons)
      requires !inconsistent && nextToPropagate == |trail| && inconsistentChain == []
      modifies `db, `ws, `trail, `vals, `reasons, `unitReasons, `conflict, `nextToPropagate, `unitClauses, `inconsistent, `inconsistentClause
      ensures Valid() && SameClauses(old(db), db) && NewReasons(before.reasons, c.lits, before.vals, |before.db|, reasons)
    {
      ghost var preferred := unitReasons;
      if |c.lits| == 1 && WA.Val(vals, c.lits[0]) == 0 {
        unitReasons := unitReasons[Var(c.lits[0]) := |db| - 1];
      }
      SameReflexive(db);
      if u.Many? {
        SteadyFresh(before, units, preferred, c, tautological, Now(), unitClauses, unitReasons);
        SaneSteady(Snap());
      } else if u.Nothing? {
        inconsistent := true;
        inconsistentClause := |db| - 1;
        BrokenFresh(before, units, preferred, c, tautological, Now(), unitClauses);
        SaneBroken(Snap());
      } else {
        UnitFreshIntro(before, units, preferred, c, tautological, Now(), unitClauses, unitReasons, u.lit);
        SettleUnit(c, u, before);
      }
    }

    method SettleUnit(c: BClause, u: CK.Remaining, ghost before: State)
      requires u.Single? && UnitFresh(before, unitClauses, unitReasons, c, u.lit, Now()) && OnlyOpen(before.vals, c.lits, u)
      requires !inconsistent && nextToPropagate == |trail| && inconsistentChain == [] && |db| == |before.db| + 1
      requires reasons == before.reasons
      modifies `db, `ws, `trail, `vals, `reasons, `conflict, `nextToPropagate, `unitClauses, `inconsistent, `inconsistentClause
      ensures Valid() && SameClauses(old(db), db) && NewReasons(before.reasons, c.lits, before.vals, |before.db|, reasons)
    {
      AssignNew(c, u.lit, before);
      NewReasonTaken(before, c, u, reasons);
    }

    // Add a clause and propagate it if it is unit under the current assignment.
    method AddClause(simplified: seq<Lit>, tautological: bool, id: LS.Id)
      requires Valid() && 0 !in simplified && IdFree(db, id)
      requires if tautological then exists l :: l in simplified && -l in simplified else WA.Distinct(simplified)
      modifies `db, `ws, `trail, `vals, `reasons, `unitReasons, `conflict, `nextToPropagate, `unitClauses, `inconsistent, `inconsistentClause
      ensures Valid() && SameClauses(old(db) + [BClause(id, simplified, false)], db)
      ensures if old(inconsistent) then reasons == old(reasons) else NewReasons(old(reasons), simplified, old(vals), |old(db)|, reasons)
    {
      ghost var before := Now();
      var c := Insert(simplified, tautological, id);
      NewClause(before.db, simplified, tautological, c);
      if inconsistent {
        BrokenInserted(before, old(unitClauses), unitReasons, inconsistentClause, inconsistentChain, c, tautological,
                       Now(), unitClauses);
      } else {
        SettleNew(c, tautological, before, old(unitClauses));
        NewReasonsSame(before.reasons, c.lits, simplified, before.vals, |before.db|, reasons);
        SameTransitive(before.db + [BClause(id, simplified, false)], before.db + [c], db);
      }
    }

    method AddOriginalClause(id: LS.Id, c: seq<Lit>)
      requires Valid() && 0 !in c && IdFree(db, id)
      modifies this
      ensures Valid() && Extended(old(db), id, c, db)
      ensures if old(inconsistent) then reasons == old(reasons) else NewReasons(old(reasons), c, old(vals), |old(db)|, reasons)
    {
      var tautological, simplified := Tautological(c);
      WA.SameMembers(simplified, c);
      AddClause(simplified, tautological, id);
      ExtendedIntro(old(db), id, c, simplified, db);
      if !old(inconsistent) {
        NewReasonsSame(old(reasons), simplified, c, old(vals), |old(db)|, reasons);
      }
    }

    // A derived clause comes with a chain that every checker with the same clauses accepts.
    method AddClauseGetProof(id: LS.Id, c: seq<Lit>) returns (ok: bool, chain: seq<LS.Id>)
      requires Valid() && 0 !in c && IdFree(db, id)
      modifies this
      ensures Valid()
      ensures ok ==> Extended(old(db), id, c, db) && Accepted(old(db), c, chain)
      ensures ok && (exists l :: l in c && -l in c) ==> chain == []
      ensures !ok ==> SameClauses(old(db), db) && !inconsistent && vals == old(vals)
      ensures !ok <==> !old(inconsistent) && (forall l :: l in c ==> -l !in c) && Exhausted(old(db), old(vals) + Negations(c))
      ensures !ok ==> (NaiveRup(old(db), old(vals) + Negations(c)) <==> HasEmpty(old(db)))
    {
      var tautological, simplified := Tautological(c);
      WA.SameMembers(simplified, c);
      CK.SameNegations(simplified, c);
      ok, chain := BuildChainIfPossible(simplified, tautological);
      if ok {
        AcceptedIntro(old(db), simplified, c, tautological, chain);
        IdStaysFree(old(db), db, id);
        ghost var mid := db;
        AddClause(simplified, tautological, id);
        SameAppend(old(db), mid, BClause(id, simplified, false));
        SameTransitive(old(db) + [BClause(id, simplified, false)], mid + [BClause(id, simplified, false)], db);
        ExtendedIntro(old(db), id, c, simplified, db);
      }
    }

    // Find the live clause with the given identifier.
    method Find(id: LS.Id) returns (k: nat)
      ensures k <= |db|
      ensures k < |db| ==> !db[k].garbage && db[k].id == id
      ensures k == |db| ==> IdFree(db, id)
    {
      k := 0;
      while k < |db|
        invariant k <= |db| && forall n {:trigger db[n]} :: 0 <= n < k && !db[n].garbage ==> db[n].id != id
      {
        if !db[k].garbage && db[k].id == id { return; }
        k := k + 1;
      }
    }

    // The literal that is assigned because of the clause, or zero.
    method FindReason(k: nat) returns (unit: Lit)
      requires k < |db| && 0 !in db[k].lits
      ensures unit != 0 ==> unit in db[k].lits && Var(unit) in reasons && reasons[Var(unit)] == Because(k)
      ensures unit == 0 ==> forall l :: l in db[k].lits ==> !(Var(l) in reasons && reasons[Var(l)] == Because(k))
    {
      unit := 0;
      var lits := db[k].lits;
      for i := 0 to |lits|
        invariant unit != 0 ==> unit in lits && Var(unit) in reasons && reasons[Var(unit)] == Because(k)
        invariant unit == 0 ==>
                    forall j :: 0 <= j < i ==> !(Var(lits[j]) in reasons && reasons[Var(lits[j])] == Because(k))
      {
        if Var(lits[i]) in reasons && reasons[Var(lits[i])] == Because(k) {
          unit := lits[i];
        }
      }
    }

    // Unassign literals from the end of the trail up to and including the given one.
    method Unwind(unit: Lit, ghost n: nat)
      requires WA.TrailOk(trail, vals) && reasons.Keys == VarsOf(trail) && n < |trail| && trail[n] == unit
      modifies `trail, `vals, `reasons
      ensures Now() == Undone(old(Now()), n)
    {
      UndoneAll(Now());
      while |trail| > 0
        invariant n < |trail| <= |old(trail)| && Now() == Undone(old(Now()), |trail|)
      {
        if trail[|trail|-1] == unit { break; }
        Unassign(old(Now()));
      }
      assert trail[|trail|-1] == unit;
      Unassign(old(Now()));
    }

    // Propagate everything again, because a reason or the inconsistent clause is gone.
    method Repropagate()
      requires Indexed(Now(), unitClauses, unitReasons) && Kept(Now(), {}, {})
      modifies `db, `ws, `trail, `vals, `reasons, `conflict, `nextToPropagate, `unitClauses, `inconsistent, `inconsistentClause, `inconsistentChain
      ensures Valid() && SameClauses(old(db), db) && Rechecked(Snap())
    {
      inconsistentChain := [];
      nextToPropagate := 0;
      assert LitsOf(trail[..nextToPropagate]) == {};
      var res := PropagateRoot();
      if !res {
        inconsistent := true;
        inconsistentClause := conflict;
        SaneBroken(Snap());
      } else {
        if inconsistent {
          inconsistent := false;
          inconsistentClause := 0;
        }
        SaneSteady(Snap());
      }
    }

    // The clause is no reason.  Only if it is the inconsistent clause more may have to be done.
    method RemoveUnused(k: nat)
      requires Valid() && k < |db| && !db[k].garbage && NoReason(Now(), k)
      modifies this
      ensures Valid() && SameClauses(Removed(old(db), k), db)
      ensures old(inconsistent) && old(inconsistentClause) == k ==> Rechecked(Snap())
    {
      ghost var s, units, preferred := Now(), unitClauses, unitReasons;
      SaneFacts(Snap());
      var c := db[k];
      db := db[k := c.(garbage := true)];
      unitReasons := RemovedReason(c, k, unitReasons);
      SameReflexive(db);
      if inconsistent && db[inconsistentClause].id == c.id {
        RemovedIndexed(s, units, preferred, k);
        RemovedKept(s, {}, {}, k);
        Repropagate();
      } else if inconsistent {
        RemovedBroken(s, units, preferred, inconsistentClause, inconsistentChain, k);
        SaneBroken(Snap());
      } else {
        RemovedSteady(s, units, preferred, k);
        SaneSteady(Snap());
      }
    }

    // The clause is the reason of a literal.
    method RemoveReason(k: nat, unit: Lit)
      requires Valid() && k < |db| && !db[k].garbage
      requires unit in db[k].lits && Var(unit) in reasons && reasons[Var(unit)] == Because(k)
      modifies this
      ensures Valid() && SameClauses(Removed(old(db), k), db) && Rechecked(Snap())
    {
      UnwindReason(k, unit);
      Repropagate();
    }

    // The clause becomes garbage, and its literal and everything assigned later is unassigned.
    method UnwindReason(k: nat, unit: Lit)
      requires Valid() && k < |db| && !db[k].garbage
      requires unit in db[k].lits && Var(unit) in reasons && reasons[Var(unit)] == Because(k)
      modifies `db, `unitReasons, `trail, `vals, `reasons
      ensures db == Removed(old(db), k) && Indexed(Now(), unitClauses, unitReasons) && Kept(Now(), {}, {})
    {
      ghost var s, preferred := Now(), unitReasons;
      ghost var n := ReasonPosition(Snap(), k, unit);
      var c := db[k];
      db := db[k := c.(garbage := true)];
      unitReasons := RemovedReason(c, k, unitReasons);
      Unwind(unit, n);
      UndoneRemoved(s, k, n);
    }

    // Delete a clause.  If it is a reason, the trail is undone up to its literal and everything is
    // propagated again, so that the trail stays in topological order.
    method DeleteClause(id: LS.Id, c: seq<Lit>) returns (ok: bool)
      requires Valid()
      modifies this
      ensures Valid()
      ensures !ok ==> db == old(db) && IdFree(db, id)
      ensures ok ==> exists k: nat :: k < |old(db)| && old(db)[k].id == id && !old(db)[k].garbage && SameClauses(Removed(old(db), k), db)
                                      && (!NoReason(old(Now()), k) || (old(inconsistent) && old(inconsistentClause) == k) ==> Rechecked(Snap()))
    {
      var k := Find(id);
      if k == |db| {
        return false;
      }
      ok := true;
      SaneFacts(Snap());
      var unit := FindReason(k);
      if unit == 0 {
        NoReasonIntro(Now(), k);
        RemoveUnused(k);
      } else {
        RemoveReason(k, unit);
      }
    }
  }

  // ----- An empty clause that is forgotten.

  // A unit clause and an empty clause are added, and the unit clause is deleted again.
  method ForgetEmptyClause() returns (b: LratBuilder)
    ensures fresh(b) && b.Valid() && !b.inconsistent && HasEmpty(b.db)
    ensures IdFree(b.db, 3) && forall k {:trigger b.db[k]} :: 0 <= k < |b.db| && !b.db[k].garbage ==> b.db[k].lits == []
  {
    b := new LratBuilder();
    b.AddOriginalClause(1, [1]);
    UnitTaken({}, map[], 1, 0, b.reasons);
    ghost var reasons, vals := b.reasons, b.vals;
    b.AddOriginalClause(2, []);
    ghost var db := b.db;
    StillTaken(reasons, [], vals, 1, 0, b.reasons);
    assert db[0].id == 1 && LitsOf(db[1].lits) == LitsOf([]) && db[1].id == 2;
    EmptyLits(db[1].lits);
    ReasonTaken(b.Snap(), 1, 0);
    var ok := b.DeleteClause(1, [1]);
    OnlyEmptyLeft(db, b.Snap());
  }

  // Then even the empty clause is refused, although it is there.
  method RefuseEmptyClause() returns (b: LratBuilder, ok: bool, chain: seq<LS.Id>)
    ensures b.Valid() && !b.inconsistent && !ok && HasEmpty(b.db) && NaiveRup(b.db, b.vals)
  {
    b := ForgetEmptyClause();
    ghost var left := b.db;
    NothingToRefute(left, b.vals + Negations([]));
    ok, chain := b.AddClauseGetProof(3, []);
    StillEmpty(left, b.db, b.vals);
  }
}
