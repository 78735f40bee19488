// Adding clauses to and removing clauses from the LRAT builder: what stays true about the state.
module LratClauses {
  import opened Cnf
  import opened LratChains
  import opened LratState
  import CK = Checker
  import LS = LratSpec
  import WA = Watching

  // ----- A new clause.

  // Clauses of size two or more are watched, unless they are tautological.
  function Inserted(s: State, c: BClause, watch: bool): State
    requires watch ==> |c.lits| >= 2
  {
    s.(db := s.db + [c], ws := if watch then WA.AddWatches(s.ws, c.lits, |s.db|) else s.ws)
  }

  ghost predicate Watchable(c: BClause, watch: bool) {
    !c.garbage && (watch <==> |c.lits| >= 2 && WA.Distinct(c.lits))
  }

  lemma DeadKeeps(db: WA.Db, ws: WA.Watchers, c: WA.WClause)
    requires WA.WatchInv(db, ws) && |c.lits| >= 2 && WA.Distinct(c.lits) && !c.live
    ensures WA.WatchInv(db + [c], ws)
  {
    var db' := db + [c];
    forall l ensures WA.ListShape(db', l, WA.WatchList(ws, l)) {
      assert WA.ListShape(db, l, WA.WatchList(ws, l));
      forall w | w in WA.WatchList(ws, l) ensures WA.WatchShape(db', l, w) {
        assert WA.WatchShape(db, l, w);
      }
    }
    forall k | 0 <= k < |db'| && db'[k].live ensures WA.WatchedAt(db', ws, k) {
      assert WA.WatchedAt(db, ws, k);
    }
  }

  lemma ViewAppend(db: Db, c: BClause)
    ensures View(db + [c]) == View(db) + [Watched(c)]
  {
  }

  lemma InsertedWatches(s: State, c: BClause, watch: bool)
    requires WA.WatchInv(View(s.db), s.ws) && Watchable(c, watch)
    ensures WA.WatchInv(View(Inserted(s, c, watch).db), Inserted(s, c, watch).ws)
  {
    ViewAppend(s.db, c);
    if watch {
      WA.AddKeeps(View(s.db), s.ws, c.lits);
    } else {
      DeadKeeps(View(s.db), s.ws, Watched(c));
    }
  }

  lemma SettledAppend(db: WA.Db, c: WA.WClause, done: set<Lit>, vals: set<Lit>)
    requires WA.Shaped(db) && WA.Shaped(db + [c]) && WA.Settled(db, done, vals)
    requires |c.lits| >= 2 && (c.live ==> WA.SettledClause(c, done, vals))
    ensures WA.Settled(db + [c], done, vals)
  {
    forall k | 0 <= k < |db + [c]| && (db + [c])[k].live ensures WA.SettledClause((db + [c])[k], done, vals) {
      if k < |db| {
        assert WA.SettledClause(db[k], done, vals);
      }
    }
  }

  // The propagation invariant, spelled out without its entailment part.
  lemma PropIntro(s: State, base: set<Lit>, done: set<Lit>)
    requires WA.WatchInv(View(s.db), s.ws) && WA.TrailOk(s.trail, s.vals) && base <= s.vals && done <= s.vals
    requires WA.Settled(View(s.db), base, base) && WA.Settled(View(s.db), done, s.vals)
    requires Explained(s) && AllLinked(s.db, s.ws)
    ensures Kept(s, base, done)
  {
    WA.AnyImplies(s.vals);
    forall k | 0 <= k < |s.db| ensures Entails(WA.Any(), LitsOf(View(s.db)[k].lits)) {
      WA.AnyEntails(LitsOf(View(s.db)[k].lits));
    }
  }

  lemma ExplainedInserted(s: State, c: BClause, watch: bool)
    requires Explained(s) && AllLinked(s.db, s.ws) && Watchable(c, watch)
    ensures var t := Inserted(s, c, watch); Explained(t) && AllLinked(t.db, t.ws)
  {
    assert Look(0);
    var t := Inserted(s, c, watch);
    forall p | 0 <= p < |s.trail| ensures Reasoned(t.db, s.trail, s.reasons, p) {
      assert Reasoned(s.db, s.trail, s.reasons, p);
    }
    forall l, w {:trigger w in WA.WatchList(t.ws, l)} | w in WA.WatchList(t.ws, l) ensures Linked(t.db, w) {
      if watch {
        WA.AddWatchList(s.ws, c.lits, |s.db|, l);
      }
      assert w in WA.WatchList(s.ws, l) ==> Linked(s.db, w);
    }
  }

  lemma NoneSettled(db: WA.Db, vals: set<Lit>)
    requires WA.Shaped(db)
    ensures WA.Settled(db, {}, vals)
  {
    forall k | 0 <= k < |db| && db[k].live ensures WA.SettledClause(db[k], {}, vals) {
    }
  }

  lemma InsertedKept(s: State, base: set<Lit>, done: set<Lit>, c: BClause, watch: bool)
    requires Kept(s, base, done) && Watchable(c, watch)
    ensures Kept(Inserted(s, c, watch), {}, {})
  {
    var t := Inserted(s, c, watch);
    ExplainedInserted(s, c, watch);
    assert Look(0);
    InsertedWatches(s, c, watch);
    NoneSettled(View(t.db), {});
    NoneSettled(View(t.db), t.vals);
    PropIntro(t, {}, {});
  }

  // The new clause is settled: it has a true literal or its watches are not false.
  lemma InsertedSettled(s: State, c: BClause, watch: bool)
    requires Kept(s, s.vals, s.vals) && Watchable(c, watch)
    requires watch ==> (exists l :: l in c.lits && l in s.vals) || (-c.lits[0] !in s.vals && -c.lits[1] !in s.vals)
    ensures Kept(Inserted(s, c, watch), s.vals, s.vals)
  {
    var t := Inserted(s, c, watch);
    ExplainedInserted(s, c, watch);
    assert Look(0);
    InsertedWatches(s, c, watch);
    ViewAppend(s.db, c);
    SettledAppend(View(s.db), Watched(c), s.vals, s.vals);
    PropIntro(t, s.vals, s.vals);
  }

  // The new clause is unit and its literal is assigned.
  lemma InsertedUnit(s: State, c: BClause, watch: bool, u: Lit)
    requires Kept(s, s.vals, s.vals) && Watchable(c, watch) && WA.Distinct(c.lits)
    requires u in c.lits && WA.OthersFalse(c.lits, u, s.vals) && u !in s.vals && -u !in s.vals
    ensures Kept(Assigned(Inserted(s, c, watch), u, Because(|s.db|)), {}, s.vals)
    ensures MoreReasons(s.reasons, Assigned(Inserted(s, c, watch), u, Because(|s.db|)).reasons)
  {
    var t := Inserted(s, c, watch);
    var t' := Assigned(t, u, Because(|s.db|));
    ExplainedInserted(s, c, watch);
    ExplainedAssigned(t, u, Because(|s.db|));
    InsertedUnitSettled(s, c, watch, u);
    assert Look(0);
    InsertedWatches(s, c, watch);
    NoneSettled(View(t.db), {});
    PropIntro(t', {}, s.vals);
  }

  lemma InsertedUnitSettled(s: State, c: BClause, watch: bool, u: Lit)
    requires Kept(s, s.vals, s.vals) && Watchable(c, watch) && u in c.lits
    ensures WA.Shaped(View(s.db + [c])) && WA.Settled(View(s.db + [c]), s.vals, s.vals + {u})
  {
    assert Look(0);
    InsertedWatches(s, c, watch);
    ViewAppend(s.db, c);
    WA.MoreTrue(View(s.db), s.vals, s.vals, s.vals + {u});
    SettledAppend(View(s.db), Watched(c), s.vals, s.vals + {u});
  }

  // ----- The bookkeeping of unit clauses.

  lemma UnitsAppend(db: Db, units: seq<nat>, unitReasons: map<nat, nat>, c: BClause)
    requires UnitList(db, units) && FirstUnits(db, unitReasons) && 0 !in c.lits
    ensures UnitList(db + [c], if |c.lits| == 1 then units + [|db|] else units)
    ensures FirstUnits(db + [c], unitReasons)
  {
    UnitListAppend(db, units, c);
    forall v | v in unitReasons ensures FirstUnit(db + [c], v, unitReasons[v]) {
      assert FirstUnit(db, v, unitReasons[v]);
    }
  }

  lemma UnitListAppend(db: Db, units: seq<nat>, c: BClause)
    requires UnitList(db, units) && 0 !in c.lits
    ensures UnitList(db + [c], if |c.lits| == 1 then units + [|db|] else units)
  {
    if |c.lits| == 1 {
      assert c.lits[0] in c.lits;
      UnitListMore(db, units, c);
    } else {
      UnitListSame(db, units, c);
    }
  }

  lemma UnitListMore(db: Db, units: seq<nat>, c: BClause)
    requires UnitList(db, units) && |c.lits| == 1 && c.lits[0] != 0
    ensures UnitList(db + [c], units + [|db|])
  {
    var db', list := db + [c], units + [|db|];
    assert forall i :: 0 <= i < |units| ==> units[i] in units;
    assert forall k: nat {:trigger k in list} :: k in list <==> k in units || k == |db|;
    forall k: nat | k < |db'| && LiveUnit(db'[k]) ensures k in list {
      assert k < |db| ==> db'[k] == db[k];
    }
  }

  lemma UnitListSame(db: Db, units: seq<nat>, c: BClause)
    requires UnitList(db, units) && |c.lits| != 1
    ensures UnitList(db + [c], units)
  {
    var db' := db + [c];
    forall k: nat | k < |db'| && LiveUnit(db'[k]) ensures k in units {
      assert k < |db| && db'[k] == db[k];
    }
  }

  // A unit clause of an unassigned variable becomes its preferred reason.
  lemma FirstUnitAppend(db: Db, vals: set<Lit>, unitReasons: map<nat, nat>, c: BClause)
    requires FirstUnits(db, unitReasons) && UnitsTrue(db, vals) && LiveUnit(c)
    requires c.lits[0] !in vals && -c.lits[0] !in vals
    ensures FirstUnits(db + [c], unitReasons[Var(c.lits[0]) := |db|])
  {
    var db', v := db + [c], Var(c.lits[0]);
    forall j | 0 <= j < |db| && LiveUnit(db'[j]) ensures Var(db'[j].lits[0]) != v {
      assert db[j].lits[0] in vals;
    }
    assert FirstUnit(db', v, |db|);
    forall x | x in unitReasons ensures FirstUnit(db', x, unitReasons[x]) {
      assert FirstUnit(db, x, unitReasons[x]);
    }
  }

  lemma ChainedAppend(db: Db, trail: seq<Lit>, reasons: map<nat, Reason>, known: set<Lit>, goal: Goal, chain: seq<LS.Id>, c: BClause)
    requires Chained(db, trail, reasons, known, goal, chain)
    ensures Chained(db + [c], trail, reasons, known, goal, chain)
  {
    var steps: seq<Step> :| Building(db, trail, reasons, known, steps, goal, {}, 0) && chain == Ids(db, steps, goal);
    DerivationMore(db, db + [c], steps, goal, known + Pending(trail, {}, 0));
    HintedMore(db, db + [c], steps, goal);
    IdsMore(db, db + [c], steps, goal);
  }

  // The clauses of a derivation are still there.
  ghost predicate StillThere(db: Db, db': Db, steps: seq<Step>, goal: Goal) {
    && (forall s :: s in steps && s.clause < |db| ==> s.clause < |db'| && db'[s.clause] == db[s.clause])
    && (goal.Falsify? && goal.clause < |db| ==> goal.clause < |db'| && db'[goal.clause] == db[goal.clause])
  }

  lemma {:induction false} DerivationMore(db: Db, db': Db, steps: seq<Step>, goal: Goal, known: set<Lit>)
    requires Derivation(db, steps, goal, known) && StillThere(db, db', steps, goal)
    ensures Derivation(db', steps, goal, known)
    decreases |steps|
  {
    if steps != [] {
      assert steps[0] in steps && forall s :: s in steps[1..] ==> s in steps;
      DerivationMore(db, db', steps[1..], goal, known + {steps[0].lit});
    }
  }

  lemma HintedMore(db: Db, db': Db, steps: seq<Step>, goal: Goal)
    requires Hinted(db, steps, goal) && StillThere(db, db', steps, goal)
    ensures Hinted(db', steps, goal)
  {
  }

  lemma {:induction false} IdsMore(db: Db, db': Db, steps: seq<Step>, goal: Goal)
    requires Hinted(db, steps, goal) && StillThere(db, db', steps, goal) && Hinted(db', steps, goal)
    ensures Ids(db', steps, goal) == Ids(db, steps, goal)
    decreases |steps|
  {
    if steps != [] {
      assert steps[0] in steps && forall s :: s in steps[1..] ==> s in steps;
      assert forall i :: 0 <= i < |steps[1..]| ==> steps[1..][i] == steps[i+1];
      IdsMore(db, db', steps[1..], goal);
    }
  }

  // ----- The literals of a new clause.

  // A tautological clause is left with a sorted and compacted front.
  lemma CompactedRest(c: seq<Lit>, sorted: seq<Lit>, i: nat, simplified: seq<Lit>, prev: Lit)
    requires i <= |sorted| && CK.Scanned(sorted, i, simplified, prev, {}) && |simplified| <= i
    requires forall l :: l in sorted <==> l in c
    ensures LitsOf(simplified + sorted[|simplified|..]) == LitsOf(c)
  {
    var r := simplified + sorted[|simplified|..];
    assert sorted == sorted[..i] + sorted[i..];
    forall l ensures l in r <==> l in c {
      assert l in simplified <==> l in LitsOf(simplified);
      assert l in sorted[..i] <==> l in LitsOf(sorted[..i]);
      assert l in sorted <==> l in sorted[..i] || l in sorted[i..];
      assert l in sorted[i..] ==> l in sorted[|simplified|..];
    }
  }

  ghost predicate AllFalseFrom(vals: set<Lit>, lits: seq<Lit>, n: nat) {
    forall j :: n <= j < |lits| ==> -lits[j] in vals && lits[j] !in vals
  }

  // A false literal is watched only if there is no better one.
  ghost predicate FrontNotFalse(vals: set<Lit>, lits: seq<Lit>) {
    forall n {:trigger AllFalseFrom(vals, lits, n)} :: 0 <= n < 2 && n < |lits| && -lits[n] in vals && lits[n] !in vals ==>
      AllFalseFrom(vals, lits, n)
  }

  ghost predicate Counted(vals: set<Lit>, lits: seq<Lit>, u: CK.Remaining) {
    match u
    case Nothing => forall l :: l in lits ==> -l in vals
    case Single(lit) => lit in lits && -lit !in vals && WA.OthersFalse(lits, lit, vals)
    case Many => exists i, j :: 0 <= i < j < |lits| && WA.Val(vals, lits[i]) == 0 && WA.Val(vals, lits[j]) == 0
  }

  ghost predicate IdFree(db: Db, id: LS.Id) {
    forall k {:trigger db[k]} :: 0 <= k < |db| && !db[k].garbage ==> db[k].id != id
  }

  // What holds of every new clause.
  lemma NewClause(db: Db, simplified: seq<Lit>, tautological: bool, c: BClause)
    requires CK.Permuted(simplified, c.lits) && !c.garbage && 0 !in simplified
    requires if tautological then exists l :: l in simplified && -l in simplified else WA.Distinct(simplified)
    ensures Watchable(c, |c.lits| >= 2 && !tautological) && 0 !in c.lits
    ensures if tautological then exists l :: l in c.lits && -l in c.lits else WA.Distinct(c.lits)
    ensures SameClauses(db + [BClause(c.id, simplified, false)], db + [c])
  {
    WA.SameMembers(simplified, c.lits);
    if tautological {
      var l :| l in c.lits && -l in c.lits;
      assert !WA.Distinct(c.lits) && !WA.Distinct(simplified);
    }
  }

  ghost predicate HasTrue(vals: set<Lit>, lits: seq<Lit>) {
    exists l :: l in lits && l in vals
  }

  // Nothing: falsified.  Single: unit.  Many: satisfied, or watched by literals that are not false.
  ghost predicate Classified(vals: set<Lit>, lits: seq<Lit>, u: CK.Remaining) {
    match u
    case Nothing => (forall l :: l in lits ==> -l in vals && l !in vals) && forall l :: l in lits ==> -l !in lits
    case Single(lit) =>
      lit in lits && lit !in vals && -lit !in vals && WA.OthersFalse(lits, lit, vals) && forall l :: l in lits ==> -l !in lits
    case Many => HasTrue(vals, lits) || (|lits| >= 2 && -lits[0] !in vals && -lits[1] !in vals)
  }

  // A tautological clause is satisfied or has two unassigned literals.
  lemma ClassifiedCounted(vals: set<Lit>, lits: seq<Lit>, u: CK.Remaining)
    requires 0 !in lits && (|lits| >= 2 ==> FrontNotFalse(vals, lits))
    requires Counted(vals, lits, u) && forall l :: l in lits ==> l !in vals
    ensures Classified(vals, lits, u)
  {
    if u.Many? {
      FrontFree(vals, lits);
    } else {
      forall l | l in lits ensures -l !in lits {
        assert -(-l) == l && l != -l;
      }
    }
  }

  lemma SameReflexive(db: Db)
    ensures SameClauses(db, db)
  {
  }

  lemma InsertedRoot(s: State, c: BClause, watch: bool)
    requires Kept(s, s.vals, s.vals) && UnitsTrue(s.db, s.vals) && Watchable(c, watch)
    requires Classified(s.vals, c.lits, CK.Many)
    ensures Kept(Inserted(s, c, watch), s.vals, s.vals) && UnitsTrue(s.db + [c], s.vals)
  {
    InsertedSettled(s, c, watch);
  }

  lemma FrontFree(vals: set<Lit>, lits: seq<Lit>)
    requires FrontNotFalse(vals, lits) && |lits| >= 2 && forall l :: l in lits ==> l !in vals
    requires exists i, j :: 0 <= i < j < |lits| && WA.Val(vals, lits[i]) == 0 && WA.Val(vals, lits[j]) == 0
    ensures -lits[0] !in vals && -lits[1] !in vals
  {
    var i, j :| 0 <= i < j < |lits| && WA.Val(vals, lits[i]) == 0 && WA.Val(vals, lits[j]) == 0;
    assert lits[0] in lits && lits[1] in lits;
    assert !AllFalseFrom(vals, lits, 0) && !AllFalseFrom(vals, lits, 1);
  }

  // A unit clause of an unassigned variable becomes its preferred reason.
  lemma NewUnitReason(s: State, c: BClause, unitReasons: map<nat, nat>)
    requires Kept(s, s.vals, s.vals) && UnitsTrue(s.db, s.vals) && !c.garbage
    requires FirstUnits(s.db, unitReasons) && Agree(s.reasons, unitReasons) && FirstUnits(s.db + [c], unitReasons)
    ensures var free := |c.lits| == 1 && WA.Val(s.vals, c.lits[0]) == 0;
            && (free ==> FirstUnits(s.db + [c], unitReasons[Var(c.lits[0]) := |s.db|]))
            && (free ==> AgreeBut(s, unitReasons[Var(c.lits[0]) := |s.db|], c))
            && (|c.lits| != 1 ==> AgreeBut(s, unitReasons, c))
  {
    if |c.lits| == 1 && WA.Val(s.vals, c.lits[0]) == 0 {
      FirstUnitAppend(s.db, s.vals, unitReasons, c);
    }
    KeptFacts(s, s.vals, s.vals);
    forall v | v in unitReasons ensures v in s.reasons {
      assert FirstUnit(s.db, v, unitReasons[v]);
      assert s.db[unitReasons[v]].lits[0] in s.trail;
    }
  }

  // The preferred reasons agree with the recorded ones, where a new unit clause is about to be
  // recorded.
  ghost predicate AgreeBut(s: State, unitReasons: map<nat, nat>, c: BClause) {
    forall v {:trigger v in unitReasons} :: v in unitReasons ==>
      if |c.lits| == 1 && v == Var(c.lits[0]) then unitReasons[v] == |s.db|
      else v in s.reasons && s.reasons[v] == Because(unitReasons[v])
  }

  lemma NewAgrees(s: State, c: BClause, unit: Lit, unitReasons: map<nat, nat>)
    requires Explained(s) && unit in c.lits && unit !in s.vals && -unit !in s.vals && AgreeBut(s, unitReasons, c)
    ensures Agree(s.reasons[Var(unit) := Because(|s.db|)], unitReasons)
  {
    assert Look(0);
    ReasonsExtended(s, unit, Because(|s.db|));
  }

  // ----- The invariants between calls.

  ghost predicate Indexed(s: State, units: seq<nat>, unitReasons: map<nat, nat>) {
    && UniqueIds(s.db) && Formed(s.db) && UnitList(s.db, units) && FirstUnits(s.db, unitReasons)
    && Agree(s.reasons, unitReasons) && Rooted(s.reasons)
  }

  // Everything is propagated and no clause is falsified.
  ghost predicate Steady(s: State, units: seq<nat>, unitReasons: map<nat, nat>) {
    forall u {:trigger Look(u)} :: Look(u) ==>
      Indexed(s, units, unitReasons) && Kept(s, s.vals, s.vals) && UnitsTrue(s.db, s.vals)
  }

  // The clause at 'k' is falsified, and a stored chain proves it.
  ghost predicate Broken(s: State, units: seq<nat>, unitReasons: map<nat, nat>, k: nat, chain: seq<LS.Id>) {
    forall u {:trigger Look(u)} :: Look(u) ==>
      && Indexed(s, units, unitReasons) && Kept(s, {}, {}) && FalseClause(s.db, s.vals, k)
      && (chain != [] ==> Chained(s.db, s.trail, s.reasons, {}, Falsify(k), chain))
  }

  lemma SteadyIntro(s: State, units: seq<nat>, unitReasons: map<nat, nat>)
    requires Indexed(s, units, unitReasons) && Kept(s, s.vals, s.vals) && UnitsTrue(s.db, s.vals)
    ensures Steady(s, units, unitReasons)
  {
  }

  lemma SteadyFacts(s: State, units: seq<nat>, unitReasons: map<nat, nat>)
    requires Steady(s, units, unitReasons)
    ensures Indexed(s, units, unitReasons) && Kept(s, s.vals, s.vals) && UnitsTrue(s.db, s.vals)
  {
    assert Look(0);
  }

  lemma BrokenIntro(s: State, units: seq<nat>, unitReasons: map<nat, nat>, k: nat)
    requires Indexed(s, units, unitReasons) && Kept(s, {}, {}) && FalseClause(s.db, s.vals, k)
    ensures Broken(s, units, unitReasons, k, [])
  {
  }

  lemma BrokenFacts(s: State, units: seq<nat>, unitReasons: map<nat, nat>, k: nat, chain: seq<LS.Id>)
    requires Broken(s, units, unitReasons, k, chain)
    ensures Indexed(s, units, unitReasons) && Kept(s, {}, {}) && FalseClause(s.db, s.vals, k)
    ensures chain != [] ==> Chained(s.db, s.trail, s.reasons, {}, Falsify(k), chain)
  {
    assert Look(0);
  }

  lemma BrokenCached(s: State, units: seq<nat>, unitReasons: map<nat, nat>, k: nat, chain: seq<LS.Id>, chain': seq<LS.Id>)
    requires Broken(s, units, unitReasons, k, chain) && Chained(s.db, s.trail, s.reasons, {}, Falsify(k), chain')
    ensures Broken(s, units, unitReasons, k, chain')
  {
    assert Look(0);
  }

  // After a check the assignment is as before, but watches have moved.
  lemma SteadyAgain(s: State, db: Db, ws: WA.Watchers, units: seq<nat>, units': seq<nat>, unitReasons: map<nat, nat>)
    requires Steady(s, units, unitReasons) && SameClauses(s.db, db) && UnitList(db, units')
    requires Kept(s.(db := db, ws := ws), s.vals, s.vals)
    ensures Steady(s.(db := db, ws := ws), units', unitReasons)
  {
    SteadyFacts(s, units, unitReasons);
    SameUnits(s.db, db, s.vals, units, unitReasons);
    SameUnique(s.db, db);
  }

  // The state right after a clause was inserted.
  ghost predicate Fresh(s: State, units: seq<nat>, c: BClause, tautological: bool, t: State, units': seq<nat>) {
    forall u {:trigger Look(u)} :: Look(u) ==> IsFresh(s, units, c, tautological, t, units')
  }

  ghost predicate IsFresh(s: State, units: seq<nat>, c: BClause, tautological: bool, t: State, units': seq<nat>) {
    && t == Inserted(s, c, |c.lits| >= 2 && !tautological) && units' == (if |c.lits| == 1 then units + [|s.db|] else units)
    && Watchable(c, |c.lits| >= 2 && !tautological) && (|c.lits| >= 2 ==> FrontNotFalse(s.vals, c.lits))
    && 0 !in c.lits && IdFree(s.db, c.id)
    && if tautological then exists l :: l in c.lits && -l in c.lits else WA.Distinct(c.lits)
  }

  lemma FreshIndexed(s: State, units: seq<nat>, unitReasons: map<nat, nat>, c: BClause, tautological: bool, t: State, units': seq<nat>)
    requires Indexed(s, units, unitReasons) && Fresh(s, units, c, tautological, t, units')
    ensures Indexed(t, units', unitReasons)
  {
    assert Look(0);
    UnitsAppend(s.db, units, unitReasons, c);
  }

  lemma FreshFacts(s: State, units: seq<nat>, unitReasons: map<nat, nat>, c: BClause, tautological: bool, t: State, units': seq<nat>)
    requires Steady(s, units, unitReasons) && Fresh(s, units, c, tautological, t, units')
    ensures 0 !in c.lits && (|c.lits| >= 2 ==> FrontNotFalse(t.vals, c.lits)) && !c.garbage
    ensures Indexed(t, units', unitReasons) && Kept(s, s.vals, s.vals) && UnitsTrue(s.db, s.vals)
    ensures FirstUnits(s.db, unitReasons) && Agree(s.reasons, unitReasons) && |t.db| == |s.db| + 1
    ensures if tautological then exists l :: l in c.lits && -l in c.lits else WA.Distinct(c.lits)
    ensures t == Inserted(s, c, |c.lits| >= 2 && !tautological) && Watchable(c, |c.lits| >= 2 && !tautological)
  {
    SteadyFacts(s, units, unitReasons);
    FreshIndexed(s, units, unitReasons, c, tautological, t, units');
    assert Look(0);
  }

  lemma FreshLits(s: State, units: seq<nat>, c: BClause, tautological: bool, t: State, units': seq<nat>)
    requires Fresh(s, units, c, tautological, t, units')
    ensures 0 !in c.lits && (|c.lits| >= 2 ==> FrontNotFalse(t.vals, c.lits))
    ensures |t.db| == |s.db| + 1 && t.vals == s.vals && t.reasons == s.reasons && t == Inserted(s, c, |c.lits| >= 2 && !tautological)
  {
    assert Look(0);
  }

  lemma SteadyFresh(s: State, units: seq<nat>, unitReasons: map<nat, nat>, c: BClause, tautological: bool, t: State,
                    units': seq<nat>, unitReasons': map<nat, nat>)
    requires Steady(s, units, unitReasons) && Fresh(s, units, c, tautological, t, units')
    requires Classified(s.vals, c.lits, CK.Many)
    requires unitReasons' == if |c.lits| == 1 && WA.Val(s.vals, c.lits[0]) == 0 then unitReasons[Var(c.lits[0]) := |s.db|]
                             else unitReasons
    ensures Steady(t, units', unitReasons')
  {
    FreshFacts(s, units, unitReasons, c, tautological, t, units');
    InsertedRoot(s, c, |c.lits| >= 2 && !tautological);
    SteadyFacts(s, units, unitReasons);
  }

  lemma BrokenFresh(s: State, units: seq<nat>, unitReasons: map<nat, nat>, c: BClause, tautological: bool, t: State, units': seq<nat>)
    requires Steady(s, units, unitReasons) && Fresh(s, units, c, tautological, t, units')
    requires Classified(s.vals, c.lits, CK.Nothing)
    ensures Broken(t, units', unitReasons, |s.db|, [])
    ensures !(|c.lits| == 1 && WA.Val(s.vals, c.lits[0]) == 0)
  {
    FreshFacts(s, units, unitReasons, c, tautological, t, units');
    InsertedKept(s, s.vals, s.vals, c, |c.lits| >= 2);
    assert |c.lits| == 1 ==> c.lits[0] in c.lits;
  }

  lemma BrokenInserted(s: State, units: seq<nat>, unitReasons: map<nat, nat>, k: nat, chain: seq<LS.Id>,
                       c: BClause, tautological: bool, t: State, units': seq<nat>)
    requires Broken(s, units, unitReasons, k, chain) && Fresh(s, units, c, tautological, t, units')
    ensures Broken(t, units', unitReasons, k, chain)
  {
    assert Look(0);
    FreshIndexed(s, units, unitReasons, c, tautological, t, units');
    InsertedKept(s, {}, {}, c, |c.lits| >= 2 && !tautological);
    if chain != [] {
      ChainedAppend(s.db, s.trail, s.reasons, {}, Falsify(k), chain, c);
    }
  }

  // The state right before the literal of a new unit clause is assigned.
  ghost predicate UnitFresh(s: State, units: seq<nat>, unitReasons: map<nat, nat>, c: BClause, unit: Lit, t: State) {
    forall u {:trigger Look(u)} :: Look(u) ==>
      && Kept(s, s.vals, s.vals) && t == Inserted(s, c, |c.lits| >= 2) && Watchable(c, |c.lits| >= 2)
      && WA.Distinct(c.lits) && unit in c.lits && WA.OthersFalse(c.lits, unit, s.vals) && unit !in s.vals && -unit !in s.vals
      && UniqueIds(t.db) && Formed(t.db) && UnitList(t.db, units) && FirstUnits(t.db, unitReasons) && AgreeBut(s, unitReasons, c)
      && Rooted(s.reasons)
  }

  lemma UnitFreshIntro(s: State, units: seq<nat>, unitReasons: map<nat, nat>, c: BClause, tautological: bool, t: State,
                       units': seq<nat>, unitReasons': map<nat, nat>, unit: Lit)
    requires Steady(s, units, unitReasons) && Fresh(s, units, c, tautological, t, units')
    requires Classified(s.vals, c.lits, CK.Single(unit))
    requires unitReasons' == if |c.lits| == 1 && WA.Val(s.vals, c.lits[0]) == 0 then unitReasons[Var(c.lits[0]) := |s.db|]
                             else unitReasons
    ensures UnitFresh(s, units', unitReasons', c, unit, t)
  {
    FreshFacts(s, units, unitReasons, c, tautological, t, units');
    SteadyFacts(s, units, unitReasons);
    NewUnitReason(s, c, unitReasons);
    assert Look(0);
  }

  lemma UnitFreshState(s: State, units: seq<nat>, unitReasons: map<nat, nat>, c: BClause, unit: Lit, t: State)
    requires UnitFresh(s, units, unitReasons, c, unit, t)
    ensures t == Inserted(s, c, |c.lits| >= 2) && |t.db| == |s.db| + 1
  {
    assert Look(0);
  }

  lemma UnitAssigned(s: State, units: seq<nat>, unitReasons: map<nat, nat>, c: BClause, unit: Lit, t: State)
    requires UnitFresh(s, units, unitReasons, c, unit, Inserted(s, c, |c.lits| >= 2))
    requires t == Assigned(Inserted(s, c, |c.lits| >= 2), unit, Because(|s.db|))
    ensures Kept(t, {}, s.vals) && LitsOf(s.trail) == s.vals && Indexed(t, units, unitReasons)
  {
    assert Look(0);
    InsertedUnit(s, c, |c.lits| >= 2, unit);
    NewAgrees(s, c, unit, unitReasons);
  }

  lemma AssignedIndexed(s: State, t: State, units: seq<nat>, unitReasons: map<nat, nat>)
    requires UniqueIds(s.db) && Formed(s.db) && Rooted(s.reasons) && SameClauses(s.db, t.db) && MoreReasons(s.reasons, t.reasons)
    requires UnitList(t.db, units) && FirstUnits(t.db, unitReasons) && Agree(t.reasons, unitReasons)
    ensures Indexed(t, units, unitReasons)
  {
    SameUnique(s.db, t.db);
  }

  // The builder between two calls: its clauses and assignment, and the remaining fields.
  datatype Fields = Fields(s: State, units: seq<nat>, unitReasons: map<nat, nat>, next: nat,
                           inconsistent: bool, k: nat, chain: seq<LS.Id>)

  ghost predicate Sane(f: Fields) {
    if f.inconsistent then Broken(f.s, f.units, f.unitReasons, f.k, f.chain)
    else Steady(f.s, f.units, f.unitReasons) && f.next == |f.s.trail| && f.chain == []
  }

  lemma SaneSteady(f: Fields)
    requires !f.inconsistent && Steady(f.s, f.units, f.unitReasons) && f.next == |f.s.trail| && f.chain == []
    ensures Sane(f)
  {
  }

  lemma SaneFacts(f: Fields)
    requires Sane(f)
    ensures Indexed(f.s, f.units, f.unitReasons) && Kept(f.s, {}, {})
    ensures f.inconsistent ==> f.k < |f.s.db| && !f.s.db[f.k].garbage
  {
    if f.inconsistent {
      BrokenFacts(f.s, f.units, f.unitReasons, f.k, f.chain);
    } else {
      SteadyFacts(f.s, f.units, f.unitReasons);
      KeptLess(f.s, f.s.vals, f.s.vals);
    }
  }

  lemma SaneBroken(f: Fields)
    requires f.inconsistent && Broken(f.s, f.units, f.unitReasons, f.k, f.chain)
    ensures Sane(f)
  {
  }

  // What the flag of inconsistency means: it is set, or there is an empty clause, exactly if naive unit
  // propagation refutes the clauses.  An empty clause may be left without the flag.
  lemma FlagMeaning(f: Fields)
    requires Sane(f)
    ensures f.inconsistent || HasEmpty(f.s.db) <==> NaiveRup(f.s.db, {})
  {
    if f.inconsistent {
      BrokenFacts(f.s, f.units, f.unitReasons, f.k, f.chain);
      ReasonsRefute(f.s, f.k);
    } else {
      SteadyFacts(f.s, f.units, f.unitReasons);
      SameReflexive(f.s.db);
      Refuted(f.s.db, f.s, f.s.vals, {});
      ExhaustedExactly(f.s.db, {});
    }
  }

  // The conflict found by propagation, where there is one, is a clause with literals.
  ghost predicate Rechecked(f: Fields) {
    f.inconsistent ==> f.k < |f.s.db| && f.s.db[f.k].lits != []
  }

  // Then the flag forgets empty clauses: it is set exactly if a clause with literals is refuted.
  lemma RecheckedMeaning(f: Fields)
    requires Sane(f) && Rechecked(f)
    ensures f.inconsistent <==> !Exhausted(f.s.db, {})
  {
    if f.inconsistent {
      BrokenFacts(f.s, f.units, f.unitReasons, f.k, f.chain);
      ReasonsRefute(f.s, f.k);
    } else {
      SteadyFacts(f.s, f.units, f.unitReasons);
      SameReflexive(f.s.db);
      Refuted(f.s.db, f.s, f.s.vals, {});
    }
  }

  // ----- Removing a clause.

  function Removed(db: Db, k: nat): Db
    requires k < |db|
  {
    db[k := db[k].(garbage := true)]
  }

  // A removed unit clause is no preferred reason any more.
  function RemovedReason(c: BClause, k: nat, unitReasons: map<nat, nat>): map<nat, nat> {
    if |c.lits| == 1 && Var(c.lits[0]) in unitReasons && unitReasons[Var(c.lits[0])] == k then unitReasons - {Var(c.lits[0])}
    else unitReasons
  }

  ghost predicate NoReason(s: State, k: nat) {
    forall q {:trigger s.trail[q]} :: 0 <= q < |s.trail| && Var(s.trail[q]) in s.reasons ==>
      s.reasons[Var(s.trail[q])] != Because(k)
  }

  lemma RemovedIndexed(s: State, units: seq<nat>, unitReasons: map<nat, nat>, k: nat)
    requires Indexed(s, units, unitReasons) && k < |s.db| && !s.db[k].garbage
    ensures Indexed(s.(db := Removed(s.db, k)), units, RemovedReason(s.db[k], k, unitReasons))
  {
    var db', ur' := Removed(s.db, k), RemovedReason(s.db[k], k, unitReasons);
    forall j: nat | j < |db'| && LiveUnit(db'[j]) ensures j in units {
      assert LiveUnit(s.db[j]);
    }
    forall v | v in ur' ensures FirstUnit(db', v, ur'[v]) {
      assert FirstUnit(s.db, v, unitReasons[v]);
    }
  }

  lemma RemovedExplained(s: State, k: nat)
    requires Explained(s) && AllLinked(s.db, s.ws) && k < |s.db| && NoReason(s, k)
    ensures Explained(s.(db := Removed(s.db, k))) && AllLinked(Removed(s.db, k), s.ws)
  {
    assert Look(0);
    var db' := Removed(s.db, k);
    forall p | 0 <= p < |s.trail| ensures Reasoned(db', s.trail, s.reasons, p) {
      assert Reasoned(s.db, s.trail, s.reasons, p);
    }
    forall l, w {:trigger w in WA.WatchList(s.ws, l)} | w in WA.WatchList(s.ws, l) ensures Linked(db', w) {
      assert Linked(s.db, w);
    }
  }

  lemma RemovedView(db: Db, k: nat)
    requires k < |db|
    ensures WA.FewerLive(View(db), View(Removed(db, k)))
  {
  }

  lemma RemovedKept(s: State, base: set<Lit>, done: set<Lit>, k: nat)
    requires Kept(s, base, done) && k < |s.db| && NoReason(s, k)
    ensures Kept(s.(db := Removed(s.db, k)), base, done)
  {
    var t := s.(db := Removed(s.db, k));
    RemovedExplained(s, k);
    RemovedView(s.db, k);
    assert Look(0);
    WA.FewerLiveKeeps(View(s.db), s.ws, View(t.db), base, base);
    WA.FewerLiveKeeps(View(s.db), s.ws, View(t.db), done, s.vals);
    PropIntro(t, base, done);
  }

  // The clause is no reason: everything stays propagated.
  lemma RemovedSteady(s: State, units: seq<nat>, unitReasons: map<nat, nat>, k: nat)
    requires Steady(s, units, unitReasons) && k < |s.db| && !s.db[k].garbage && NoReason(s, k)
    ensures Steady(s.(db := Removed(s.db, k)), units, RemovedReason(s.db[k], k, unitReasons))
  {
    SteadyFacts(s, units, unitReasons);
    RemovedIndexed(s, units, unitReasons, k);
    RemovedKept(s, s.vals, s.vals, k);
    SteadyIntro(s.(db := Removed(s.db, k)), units, RemovedReason(s.db[k], k, unitReasons));
  }

  lemma RemovedBroken(s: State, units: seq<nat>, unitReasons: map<nat, nat>, c: nat, chain: seq<LS.Id>, k: nat)
    requires Broken(s, units, unitReasons, c, chain) && k < |s.db| && !s.db[k].garbage && NoReason(s, k) && k != c
    ensures Broken(s.(db := Removed(s.db, k)), units, RemovedReason(s.db[k], k, unitReasons), c, chain)
  {
    BrokenFacts(s, units, unitReasons, c, chain);
    RemovedIndexed(s, units, unitReasons, k);
    RemovedKept(s, {}, {}, k);
    if chain != [] {
      RemovedChained(s, c, chain, k);
    }
  }

  // The steps of a stored chain are reasons of the trail, so no other clause matters.
  lemma RemovedChained(s: State, c: nat, chain: seq<LS.Id>, k: nat)
    requires Chained(s.db, s.trail, s.reasons, {}, Falsify(c), chain) && k < |s.db| && NoReason(s, k) && k != c
    ensures Chained(Removed(s.db, k), s.trail, s.reasons, {}, Falsify(c), chain)
  {
    var goal := Falsify(c);
    var steps: seq<Step> :| Building(s.db, s.trail, s.reasons, {}, steps, goal, {}, 0) && chain == Ids(s.db, steps, goal);
    var db' := Removed(s.db, k);
    forall x | x in steps ensures x.clause != k {
      assert StepOf(s.trail, s.reasons, 0, x);
    }
    DerivationMore(s.db, db', steps, goal, {} + Pending(s.trail, {}, 0));
    HintedMore(s.db, db', steps, goal);
    IdsMore(s.db, db', steps, goal);
  }

  // The clause is removed after the trail was undone to where the clause is no reason.
  lemma RemovedUndone(s: State, units: seq<nat>, unitReasons: map<nat, nat>, k: nat, n: nat, base: set<Lit>, done: set<Lit>)
    requires Indexed(s, units, unitReasons) && Kept(s, base, done) && n <= |s.trail| && k < |s.db| && !s.db[k].garbage
    requires NoReason(Undone(s, n), k)
    ensures var t := Undone(s, n).(db := Removed(s.db, k));
            Indexed(t, units, RemovedReason(s.db[k], k, unitReasons)) && Kept(t, {}, {})
  {
    UndoneKept(s, base, done, n);
    RemovedKept(Undone(s, n), {}, {}, k);
    RemovedIndexed(Undone(s, n), units, unitReasons, k);
  }

  // The literal whose reason is the clause at 'k', if there is one.
  ghost predicate ReasonAt(s: State, k: nat, n: nat) {
    && n < |s.trail| && Var(s.trail[n]) in s.reasons && s.reasons[Var(s.trail[n])] == Because(k)
  }

  lemma ReasonLiteral(s: State, k: nat, l: Lit)
    requires Explained(s) && k < |s.db| && l in s.db[k].lits && Var(l) in s.reasons && s.reasons[Var(l)] == Because(k)
    ensures exists n: nat :: ReasonAt(s, k, n) && s.trail[n] == l && NoReason(Undone(s, n), k)
  {
    assert Look(0);
    assert Var(l) in VarsOf(s.trail);
    var t :| t in s.trail && Var(t) == Var(l);
    var n: nat :| n < |s.trail| && s.trail[n] == t;
    assert Reasoned(s.db, s.trail, s.reasons, n);
    assert -(-l) == l && (t == l || t == -l);
    assert t in s.db[k].lits;
    var u := Undone(s, n);
    forall q | 0 <= q < n && Var(u.trail[q]) in u.reasons ensures u.reasons[Var(u.trail[q])] != Because(k) {
      assert Reasoned(s.db, s.trail, s.reasons, q);
      if s.reasons[Var(s.trail[q])].Because? {
        ReasonsDiffer(s.db, s.trail, s.vals, s.reasons, q, n);
      }
    }
    assert ReasonAt(s, k, n);
  }

  // The variables of reasons are among those of the clause.
  // Where the literal of a reason is, and what is left when the trail is undone up to there.
  lemma ReasonPosition(f: Fields, k: nat, unit: Lit) returns (n: nat)
    requires Sane(f) && k < |f.s.db| && !f.s.db[k].garbage
    requires unit in f.s.db[k].lits && Var(unit) in f.s.reasons && f.s.reasons[Var(unit)] == Because(k)
    ensures n < |f.s.trail| && f.s.trail[n] == unit && WA.TrailOk(f.s.trail, f.s.vals) && f.s.reasons.Keys == VarsOf(f.s.trail)
    ensures var t := Undone(f.s, n).(db := Removed(f.s.db, k));
            Indexed(t, f.units, RemovedReason(f.s.db[k], k, f.unitReasons)) && Kept(t, {}, {})
  {
    SaneFacts(f);
    ReasonLiteral(f.s, k, unit);
    n :| ReasonAt(f.s, k, n) && f.s.trail[n] == unit && NoReason(Undone(f.s, n), k);
    KeptFacts(f.s, {}, {});
    RemovedUndone(f.s, f.units, f.unitReasons, k, n, {}, {});
  }

  lemma UndoneRemoved(s: State, k: nat, n: nat)
    requires k < |s.db| && n <= |s.trail|
    ensures Undone(s.(db := Removed(s.db, k)), n) == Undone(s, n).(db := Removed(s.db, k))
  {
  }

  lemma NoReasonIntro(s: State, k: nat)
    requires Explained(s) && k < |s.db|
    requires forall l :: l in s.db[k].lits ==> !(Var(l) in s.reasons && s.reasons[Var(l)] == Because(k))
    ensures NoReason(s, k)
  {
    assert Look(0);
    forall q | 0 <= q < |s.trail| && Var(s.trail[q]) in s.reasons ensures s.reasons[Var(s.trail[q])] != Because(k) {
      assert Reasoned(s.db, s.trail, s.reasons, q);
    }
  }

  // ----- What callers see.

  // One clause was added, the others are as before.
  ghost predicate Extended(db: Db, id: LS.Id, c: seq<Lit>, db': Db) {
    && |db'| == |db| + 1 && SameClauses(db, db'[..|db|])
    && db'[|db|].id == id && !db'[|db|].garbage && LitsOf(db'[|db|].lits) == LitsOf(c)
  }

  lemma ExtendedIntro(db: Db, id: LS.Id, c: seq<Lit>, simplified: seq<Lit>, db': Db)
    requires SameClauses(db + [BClause(id, simplified, false)], db') && LitsOf(simplified) == LitsOf(c)
    ensures Extended(db, id, c, db')
  {
    var db1 := db + [BClause(id, simplified, false)];
    forall k | 0 <= k < |db| ensures Reordered(db[k], db'[..|db|][k]) {
      assert Reordered(db1[k], db'[k]);
    }
    assert Reordered(db1[|db|], db'[|db|]);
  }

  lemma SameAppend(db: Db, db': Db, c: BClause)
    requires SameClauses(db, db')
    ensures SameClauses(db + [c], db' + [c])
  {
    forall k | 0 <= k < |db + [c]| ensures Reordered((db + [c])[k], (db' + [c])[k]) {
      if k < |db| {
        assert Reordered(db[k], db'[k]);
      }
    }
  }

  lemma IdStaysFree(db: Db, db': Db, id: LS.Id)
    requires IdFree(db, id) && SameClauses(db, db')
    ensures IdFree(db', id)
  {
    forall k | 0 <= k < |db'| && !db'[k].garbage ensures db'[k].id != id {
      assert Reordered(db[k], db'[k]);
    }
  }

  // Every checker whose table holds the live clauses accepts the chain.
  ghost predicate Accepted(db: Db, clause: seq<Lit>, chain: seq<LS.Id>) {
    forall nonces, t {:trigger Mirrored(nonces, t, db)} :: Mirrored(nonces, t, db) ==> LS.Accepts(nonces, t, clause, chain)
  }

  lemma AcceptedIntro(db: Db, simplified: seq<Lit>, c: seq<Lit>, tautological: bool, chain: seq<LS.Id>)
    requires tautological <==> exists l :: l in c && -l in c
    requires !tautological ==> Certified(db, simplified, chain)
    requires Negations(simplified) == Negations(c)
    ensures Accepted(db, c, chain)
  {
    forall nonces, t | Mirrored(nonces, t, db) ensures LS.Accepts(nonces, t, c, chain) {
    }
  }

  // The only open literal of a clause without true literals.
  ghost predicate Forced(lits: seq<Lit>, vals: set<Lit>, u: Lit) {
    && u in lits && u !in vals && -u !in vals && -u !in lits
    && forall l {:trigger l in lits} :: l in lits ==> l == u || (-l in vals && l !in vals)
  }

  lemma ForcedSame(lits: seq<Lit>, lits': seq<Lit>, vals: set<Lit>, u: Lit)
    requires LitsOf(lits) == LitsOf(lits')
    ensures Forced(lits, vals, u) <==> Forced(lits', vals, u)
  {
    WA.SameMembers(lits, lits');
  }

  // The literal has the clause as its reason, other reasons are kept.
  ghost predicate TakenReason(before: map<nat, Reason>, v: nat, k: nat, after: map<nat, Reason>) {
    forall u {:trigger Look(u)} :: Look(u) ==> MoreReasons(before, after) && v in after && after[v] == Because(k)
  }

  // The new clause at 'k' becomes the reason of the literal it forces, if there is one.
  ghost predicate NewReasons(before: map<nat, Reason>, lits: seq<Lit>, vals: set<Lit>, k: nat, after: map<nat, Reason>) {
    forall u {:trigger Look(u)} :: Look(u) ==>
      && MoreReasons(before, after)
      && forall l {:trigger Forced(lits, vals, l)} :: Forced(lits, vals, l) ==> Var(l) in after && after[Var(l)] == Because(k)
  }

  lemma TakenAssigned(s: State, units: seq<nat>, unitReasons: map<nat, nat>, c: BClause, unit: Lit, t: State)
    requires UnitFresh(s, units, unitReasons, c, unit, Inserted(s, c, |c.lits| >= 2))
    requires t == Assigned(Inserted(s, c, |c.lits| >= 2), unit, Because(|s.db|))
    ensures TakenReason(s.reasons, Var(unit), |s.db|, t.reasons)
  {
    assert Look(0);
    ReasonsExtended(s, unit, Because(|s.db|));
  }

  lemma TakenMore(before: map<nat, Reason>, v: nat, k: nat, after: map<nat, Reason>, more: map<nat, Reason>)
    requires TakenReason(before, v, k, after) && MoreReasons(after, more)
    ensures TakenReason(before, v, k, more)
  {
    assert Look(0);
  }

  ghost predicate OnlyOpen(vals: set<Lit>, lits: seq<Lit>, u: CK.Remaining) {
    forall l {:trigger Forced(lits, vals, l)} :: Forced(lits, vals, l) ==> u == CK.Single(l)
  }

  lemma ClassifiedForced(s: State, units: seq<nat>, c: BClause, tautological: bool, t: State, units': seq<nat>, u: CK.Remaining)
    requires Fresh(s, units, c, tautological, t, units') && Classified(s.vals, c.lits, u)
    ensures OnlyOpen(s.vals, c.lits, u)
    ensures !u.Single? ==> NewReasons(s.reasons, c.lits, s.vals, |s.db|, s.reasons)
  {
    assert Look(0);
    forall l | Forced(c.lits, s.vals, l) ensures u == CK.Single(l) {
      OnlyForced(s.vals, c.lits, l, u);
    }
  }

  lemma OnlyForced(vals: set<Lit>, lits: seq<Lit>, l: Lit, u: CK.Remaining)
    requires Forced(lits, vals, l) && Classified(vals, lits, u)
    requires (exists x :: x in lits && -x in lits) || WA.Distinct(lits)
    ensures u == CK.Single(l)
  {
    if x :| x in lits && -x in lits {
      assert -(-x) == x;
    }
    if |lits| >= 2 {
      assert lits[0] in lits && lits[1] in lits;
    }
    match u
    case Nothing =>
    case Single(x) =>
    case Many =>
  }

  lemma NewReasonTaken(s: State, c: BClause, u: CK.Remaining, after: map<nat, Reason>)
    requires u.Single? && TakenReason(s.reasons, Var(u.lit), |s.db|, after) && OnlyOpen(s.vals, c.lits, u)
    ensures NewReasons(s.reasons, c.lits, s.vals, |s.db|, after)
  {
    assert Look(0);
  }

  lemma NewReasonsSame(before: map<nat, Reason>, lits: seq<Lit>, lits': seq<Lit>, vals: set<Lit>, k: nat, after: map<nat, Reason>)
    requires NewReasons(before, lits, vals, k, after) && LitsOf(lits) == LitsOf(lits')
    ensures NewReasons(before, lits', vals, k, after)
  {
    assert Look(0);
    forall l | Forced(lits', vals, l) ensures Var(l) in after && after[Var(l)] == Because(k) {
      ForcedSame(lits, lits', vals, l);
    }
  }

  lemma UnitTaken(vals: set<Lit>, before: map<nat, Reason>, l: Lit, k: nat, after: map<nat, Reason>)
    requires NewReasons(before, [l], vals, k, after) && l !in vals && -l !in vals && l != 0
    ensures Var(l) in after && after[Var(l)] == Because(k)
  {
    assert Look(0);
    assert Forced([l], vals, l);
  }

  lemma StillTaken(before: map<nat, Reason>, lits: seq<Lit>, vals: set<Lit>, v: nat, k: nat, after: map<nat, Reason>)
    requires after == before || NewReasons(before, lits, vals, k + 1, after)
    requires v in before && before[v] == Because(k)
    ensures v in after && after[v] == Because(k)
  {
    assert Look(0);
  }

  lemma MemberThere(lits: seq<Lit>)
    ensures lits != [] ==> LitsOf(lits) != {}
  {
    if lits != [] {
      assert lits[0] in LitsOf(lits);
    }
  }

  lemma EmptyLits(lits: seq<Lit>)
    requires LitsOf(lits) == LitsOf([])
    ensures lits == []
  {
    MemberThere(lits);
  }

  lemma ReasonTaken(f: Fields, l: Lit, k: nat)
    requires Sane(f) && Var(l) in f.s.reasons && f.s.reasons[Var(l)] == Because(k)
    ensures !NoReason(f.s, k)
  {
    SaneFacts(f);
    KeptFacts(f.s, {}, {});
    assert Var(l) in VarsOf(f.s.trail);
    var t :| t in f.s.trail && Var(t) == Var(l);
    var q :| 0 <= q < |f.s.trail| && f.s.trail[q] == t;
    assert Var(f.s.trail[q]) in f.s.reasons;
  }

  // Without live clauses with literals nothing else is refuted.
  lemma {:induction false} NothingToRefute(db: Db, known: set<Lit>)
    requires forall k {:trigger db[k]} :: 0 <= k < |db| && !db[k].garbage ==> db[k].lits == []
    ensures Exhausted(db, known)
  {
    forall steps: seq<Step>, last: nat | Refutes(db, known, steps, last) ensures EmptyAt(db, last) {
    }
  }

  lemma StillEmpty(db: Db, db': Db, known: set<Lit>)
    requires SameClauses(db, db') && HasEmpty(db)
    ensures HasEmpty(db') && NaiveRup(db', known)
  {
    var k: nat :| EmptyAt(db, k);
    assert Reordered(db[k], db'[k]);
    EmptyLits(db'[k].lits);
    assert EmptyAt(db', k);
    assert Refutes(db', known, [], k);
  }

  // Without clauses with literals there is no conflict.
  lemma OnlyEmptyLeft(db: Db, f: Fields)
    requires Sane(f) && |db| == 2 && !db[1].garbage && db[1].lits == [] && db[1].id == 2 && SameClauses(Removed(db, 0), f.s.db)
    requires Rechecked(f)
    ensures !f.inconsistent && HasEmpty(f.s.db) && IdFree(f.s.db, 3)
    ensures forall k {:trigger f.s.db[k]} :: 0 <= k < |f.s.db| && !f.s.db[k].garbage ==> f.s.db[k].lits == []
  {
    SaneFacts(f);
    assert Reordered(Removed(db, 0)[0], f.s.db[0]) && Reordered(Removed(db, 0)[1], f.s.db[1]);
    assert EmptyAt(f.s.db, 1);
  }
}
