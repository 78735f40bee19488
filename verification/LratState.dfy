// The state of the LRAT builder as a value: clauses, watches, trail and reasons, and what the
// steps of its propagation keep.
module LratState {
  import opened Cnf
  import opened LratChains
  import CK = Checker
  import LS = LratSpec
  import WA = Watching

  datatype State = State(db: Db, ws: WA.Watchers, trail: seq<Lit>, vals: set<Lit>, reasons: map<nat, Reason>)

  // Only clauses with at least two different variables are watched; the other ones show up as
  // a dead clause.
  ghost function Watched(c: BClause): (w: WA.WClause)
    ensures |w.lits| >= 2 && WA.Distinct(w.lits)
    ensures |c.lits| >= 2 && WA.Distinct(c.lits) ==> w == WA.WClause(c.lits, !c.garbage)
  {
    if |c.lits| >= 2 && WA.Distinct(c.lits) then WA.WClause(c.lits, !c.garbage) else WA.WClause([1, 2], false)
  }

  ghost function View(db: Db): (v: WA.Db)
    ensures |v| == |db| && forall k {:trigger v[k]} :: 0 <= k < |db| ==> v[k] == Watched(db[k])
  {
    seq(|db|, k requires 0 <= k < |db| => Watched(db[k]))
  }

  ghost function PropOf(s: State): WA.Prop {
    WA.Prop(View(s.db), s.ws, s.trail, s.vals)
  }

  function VarsOf(trail: seq<Lit>): set<nat> {
    set l | l in trail :: Var(l)
  }

  // Every assigned literal has a recorded reason.
  ghost predicate Explained(s: State) {
    forall u {:trigger Look(u)} :: Look(u) ==>
      WA.TrailOk(s.trail, s.vals) && AllReasoned(s.db, s.trail, s.reasons) && s.reasons.Keys == VarsOf(s.trail)
  }

  // Watches belong to clauses that are really watched.
  ghost predicate Linked(db: Db, w: WA.Watch) {
    w.clause < |db| && |db[w.clause].lits| >= 2 && WA.Distinct(db[w.clause].lits)
  }

  ghost predicate AllLinked(db: Db, ws: WA.Watchers) {
    forall u {:trigger Look(u)} :: Look(u) ==>
      forall l, w {:trigger w in WA.WatchList(ws, l)} :: w in WA.WatchList(ws, l) ==> Linked(db, w)
  }

  ghost predicate Kept(s: State, base: set<Lit>, done: set<Lit>) {
    CK.Kept(PropOf(s), WA.Any(), {}, base, done) && Explained(s) && AllLinked(s.db, s.ws)
  }

  ghost predicate Visiting(s: State, base: set<Lit>, done: set<Lit>, fl: Lit, i: nat) {
    CK.Visiting(PropOf(s), WA.Any(), {}, base, done, fl, i) && Explained(s) && AllLinked(s.db, s.ws)
  }

  // A clause that the current assignment falsifies.
  ghost predicate FalseClause(db: Db, vals: set<Lit>, k: nat) {
    k < |db| && Usable(db, k) && LS.AllFalse(vals, db[k].lits)
  }

  // Propagation only ever runs into clauses with literals.
  ghost predicate Conflict(db: Db, vals: set<Lit>, k: nat) {
    FalseClause(db, vals, k) && db[k].lits != []
  }

  // ----- Clauses keep their literals, but not the order of them.

  ghost predicate Reordered(c: BClause, d: BClause) {
    && d.id == c.id && d.garbage == c.garbage && |d.lits| == |c.lits|
    && LitsOf(d.lits) == LitsOf(c.lits) && (WA.Distinct(d.lits) <==> WA.Distinct(c.lits))
  }

  ghost predicate SameClauses(db: Db, db': Db) {
    |db'| == |db| && forall k {:trigger db'[k]} :: 0 <= k < |db| ==> Reordered(db[k], db'[k])
  }

  lemma SameTransitive(a: Db, b: Db, c: Db)
    requires SameClauses(a, b) && SameClauses(b, c)
    ensures SameClauses(a, c)
  {
    forall k | 0 <= k < |a| ensures Reordered(a[k], c[k]) {
      assert Reordered(a[k], b[k]) && Reordered(b[k], c[k]);
    }
  }

  lemma SameViews(db: Db, db': Db)
    requires SameClauses(db, db')
    ensures CK.SameClauses(View(db), View(db'))
    ensures CK.Universe(View(db)) == CK.Universe(View(db'))
  {
    var v, v' := View(db), View(db');
    forall k | 0 <= k < |v| ensures LitsOf(v'[k].lits) == LitsOf(v[k].lits) && v'[k].live == v[k].live {
      assert Reordered(db[k], db'[k]);
    }
    CK.SameUniverse(v, v');
  }

  lemma LinkedReordered(db: Db, db': Db, ws: WA.Watchers)
    requires AllLinked(db, ws) && SameClauses(db, db')
    ensures AllLinked(db', ws)
  {
    assert Look(0);
    forall l, w | w in WA.WatchList(ws, l) ensures Linked(db', w) {
      assert Linked(db, w) && Reordered(db[w.clause], db'[w.clause]);
    }
  }

  lemma LinkedUpdated(db: Db, ws: WA.Watchers, l: Lit, list: seq<WA.Watch>)
    requires AllLinked(db, ws)
    requires forall w :: w in list ==> Linked(db, w)
    ensures AllLinked(db, ws[l := list])
  {
    assert Look(0);
    var ws' := ws[l := list];
    forall k, w {:trigger w in WA.WatchList(ws', k)} | w in WA.WatchList(ws', k) ensures Linked(db, w) {
      assert k != l ==> WA.WatchList(ws', k) == WA.WatchList(ws, k);
    }
  }

  lemma ListLinked(db: Db, ws: WA.Watchers, l: Lit)
    requires AllLinked(db, ws)
    ensures forall w :: w in WA.WatchList(ws, l) ==> Linked(db, w)
  {
    assert Look(0);
  }

  // Reasons are kept, and all new ones are clauses.
  ghost predicate MoreReasons(before: map<nat, Reason>, after: map<nat, Reason>) {
    && (forall v :: v in before ==> v in after && after[v] == before[v])
    && (forall v :: v in after && v !in before ==> after[v].Because?)
  }

  // What propagation does to clauses and assignment.
  ghost predicate Grows(s: State, t: State) {
    && SameClauses(s.db, t.db)
    && CK.Progress(View(s.db), s.trail, s.vals, t.trail, t.vals)
    && MoreReasons(s.reasons, t.reasons)
  }

  lemma GrowsReflexive(s: State)
    ensures Grows(s, s)
  {
  }

  lemma GrowsTransitive(s: State, t: State, u: State)
    requires Grows(s, t) && Grows(t, u)
    ensures Grows(s, u)
  {
    SameTransitive(s.db, t.db, u.db);
    SameViews(s.db, t.db);
  }

  lemma GrowsRoom(s: State, t: State)
    requires Grows(s, t)
    ensures CK.Room(View(t.db), t.vals) <= CK.Room(View(s.db), s.vals)
    ensures t.trail != s.trail ==> CK.Room(View(t.db), t.vals) < CK.Room(View(s.db), s.vals)
  {
    SameViews(s.db, t.db);
  }

  // ----- Reasons.

  lemma UpdateReordered(db: Db, k: nat, lits: seq<Lit>)
    requires k < |db| && |lits| == |db[k].lits| >= 2 && LitsOf(lits) == LitsOf(db[k].lits)
    requires WA.Distinct(lits) && WA.Distinct(db[k].lits)
    ensures SameClauses(db, db[k := db[k].(lits := lits)])
    ensures View(db[k := db[k].(lits := lits)]) == View(db)[k := View(db)[k].(lits := lits)]
  {
    var db' := db[k := db[k].(lits := lits)];
    forall i | 0 <= i < |db| ensures Reordered(db[i], db'[i]) {
    }
  }

  lemma ReasonReordered(db: Db, db': Db, k: nat, lit: Lit, before: seq<Lit>)
    requires ReasonFor(db, k, lit, before) && SameClauses(db, db')
    ensures ReasonFor(db', k, lit, before)
  {
    assert Reordered(db[k], db'[k]);
    WA.SameMembers(db[k].lits, db'[k].lits);
  }

  lemma ExplainedReordered(s: State, db': Db)
    requires Explained(s) && SameClauses(s.db, db')
    ensures Explained(s.(db := db'))
  {
    assert Look(0);
    forall p | 0 <= p < |s.trail| ensures Reasoned(db', s.trail, s.reasons, p) {
      assert Reasoned(s.db, s.trail, s.reasons, p);
      var r := s.reasons[Var(s.trail[p])];
      if r.Because? {
        ReasonReordered(s.db, db', r.clause, s.trail[p], s.trail[..p]);
      }
    }
  }

  // The state after 'lit' was assigned with the given reason.
  function Assigned(s: State, lit: Lit, r: Reason): State {
    s.(trail := s.trail + [lit], vals := s.vals + {lit}, reasons := s.reasons[Var(lit) := r])
  }

  lemma ReasonsExtended(s: State, lit: Lit, r: Reason)
    requires WA.TrailOk(s.trail, s.vals) && s.reasons.Keys == VarsOf(s.trail)
    requires lit !in s.vals && -lit !in s.vals
    ensures Var(lit) !in s.reasons
    ensures Assigned(s, lit, r).reasons.Keys == VarsOf(s.trail + [lit])
  {
    forall l | l in s.trail ensures Var(l) != Var(lit) {
      assert l in LitsOf(s.trail);
    }
    assert lit in s.trail + [lit];
    assert forall l :: l in s.trail + [lit] ==> l in s.trail || l == lit;
    assert forall l :: l in s.trail ==> l in s.trail + [lit];
    forall v ensures v in VarsOf(s.trail + [lit]) <==> v in VarsOf(s.trail) || v == Var(lit) {
    }
  }

  lemma ExplainedAssigned(s: State, lit: Lit, r: Reason)
    requires Explained(s) && lit !in s.vals && -lit !in s.vals && lit != 0
    requires r.Because? ==> r.clause < |s.db| && Usable(s.db, r.clause) && lit in s.db[r.clause].lits
    requires r.Because? ==> WA.OthersFalse(s.db[r.clause].lits, lit, s.vals)
    ensures Explained(Assigned(s, lit, r))
    ensures r.Because? ==> MoreReasons(s.reasons, Assigned(s, lit, r).reasons)
    ensures Var(lit) !in s.reasons
  {
    assert Look(0);
    var t := Assigned(s, lit, r);
    ReasonsExtended(s, lit, r);
    WA.TrailPush(s.trail, s.vals, lit);
    forall p | 0 <= p < |t.trail| ensures Reasoned(s.db, t.trail, t.reasons, p) {
      assert t.trail[..p] == s.trail[..p];
      if p < |s.trail| {
        assert Reasoned(s.db, s.trail, s.reasons, p);
      } else {
        assert s.trail[..p] == s.trail;
        assert forall l :: l in s.vals ==> l in s.trail;
      }
    }
  }

  // An assignment outside of the watch lists.
  lemma KeptAssigned(s: State, base: set<Lit>, done: set<Lit>, lit: Lit, r: Reason)
    requires Kept(s, base, done) && lit !in s.vals && -lit !in s.vals && lit != 0
    requires r.Because? ==> r.clause < |s.db| && Usable(s.db, r.clause) && lit in s.db[r.clause].lits
    requires r.Because? ==> WA.OthersFalse(s.db[r.clause].lits, lit, s.vals)
    ensures Kept(Assigned(s, lit, r), base, done)
    ensures r.Because? ==> MoreReasons(s.reasons, Assigned(s, lit, r).reasons)
    ensures Var(lit) !in s.reasons
  {
    ExplainedAssigned(s, lit, r);
    assert Look(0);
    WA.AnyEntails(LitsOf([lit]));
    WA.AssignProp(PropOf(s), WA.Any(), {}, base, done, [lit], lit);
  }

  // Facts that are needed one at a time.
  lemma KeptFacts(s: State, base: set<Lit>, done: set<Lit>)
    requires Kept(s, base, done)
    ensures WA.TrailOk(s.trail, s.vals) && s.reasons.Keys == VarsOf(s.trail) && AllReasoned(s.db, s.trail, s.reasons)
  {
    assert Look(0);
  }

  lemma KeptLess(s: State, base: set<Lit>, done: set<Lit>)
    requires Kept(s, base, done)
    ensures Kept(s, base, {}) && Kept(s, {}, {})
  {
    CK.KeptLess(PropOf(s), WA.Any(), {}, base, done);
    assert Look(0);
    forall k | 0 <= k < |s.db| && View(s.db)[k].live ensures WA.SettledClause(View(s.db)[k], {}, {}) {
    }
  }

  lemma KeptRoot(s: State)
    requires Kept(s, {}, s.vals)
    ensures Kept(s, s.vals, s.vals)
  {
    CK.RootKeeps(PropOf(s), WA.Any());
  }

  // ----- Unit clauses.

  ghost predicate LiveUnit(c: BClause) {
    !c.garbage && |c.lits| == 1
  }

  // All live unit clauses are satisfied.
  ghost predicate UnitsTrue(db: Db, vals: set<Lit>) {
    forall k {:trigger db[k]} :: 0 <= k < |db| && LiveUnit(db[k]) ==> db[k].lits[0] in vals
  }

  // The list of unit clauses is in the order of their addition and misses no live one.
  ghost predicate UnitList(db: Db, units: seq<nat>) {
    && (forall i, j :: 0 <= i < j < |units| ==> units[i] < units[j])
    && (forall k :: k in units ==> k < |db| && |db[k].lits| == 1 && db[k].lits[0] != 0)
    && (forall k: nat :: k < |db| && LiveUnit(db[k]) ==> k in units)
  }

  // The preferred unit clause of a variable is its first live one.
  ghost predicate FirstUnit(db: Db, v: nat, k: nat) {
    && k < |db| && LiveUnit(db[k]) && Var(db[k].lits[0]) == v
    && forall j {:trigger db[j]} :: 0 <= j < k && LiveUnit(db[j]) ==> Var(db[j].lits[0]) != v
  }

  ghost predicate FirstUnits(db: Db, unitReasons: map<nat, nat>) {
    forall v :: v in unitReasons ==> FirstUnit(db, v, unitReasons[v])
  }

  // Whenever a variable with a preferred unit clause is assigned, that clause is its reason.
  ghost predicate Agree(reasons: map<nat, Reason>, unitReasons: map<nat, nat>) {
    forall v :: v in unitReasons && v in reasons ==> reasons[v] == Because(unitReasons[v])
  }

  lemma SameUnit(db: Db, db': Db, k: nat)
    requires SameClauses(db, db') && k < |db|
    ensures LiveUnit(db[k]) <==> LiveUnit(db'[k])
    ensures |db[k].lits| == 1 ==> |db'[k].lits| == 1 && db'[k].lits[0] == db[k].lits[0]
  {
    assert Reordered(db[k], db'[k]);
    if |db[k].lits| == 1 {
      assert db[k].lits[0] in LitsOf(db[k].lits);
    }
  }

  lemma SameUnits(db: Db, db': Db, vals: set<Lit>, units: seq<nat>, unitReasons: map<nat, nat>)
    requires SameClauses(db, db')
    ensures UnitsTrue(db, vals) ==> UnitsTrue(db', vals)
    ensures UnitList(db, units) ==> UnitList(db', units)
    ensures FirstUnits(db, unitReasons) ==> FirstUnits(db', unitReasons)
  {
    forall k: nat | k < |db|
      ensures LiveUnit(db[k]) <==> LiveUnit(db'[k])
      ensures |db[k].lits| == 1 ==> |db'[k].lits| == 1 && db'[k].lits[0] == db[k].lits[0]
    {
      SameUnit(db, db', k);
    }
    if FirstUnits(db, unitReasons) {
      forall v | v in unitReasons ensures FirstUnit(db', v, unitReasons[v]) {
        assert FirstUnit(db, v, unitReasons[v]);
      }
    }
  }

  // When all unit clauses are satisfied, propagation cannot disagree with preferred reasons.
  lemma AgreeGrows(s: State, t: State, unitReasons: map<nat, nat>)
    requires Grows(s, t) && FirstUnits(s.db, unitReasons) && UnitsTrue(s.db, s.vals)
    requires Explained(s) && Agree(s.reasons, unitReasons)
    ensures Agree(t.reasons, unitReasons)
  {
    assert Look(0);
    forall v | v in unitReasons ensures v in s.reasons {
      assert FirstUnit(s.db, v, unitReasons[v]);
      var l := s.db[unitReasons[v]].lits[0];
      assert l in s.trail && Var(l) in VarsOf(s.trail);
    }
  }

  // ----- Undoing assignments.

  // Only the first 'n' literals of the trail are assigned.
  function Undone(s: State, n: nat): State
    requires n <= |s.trail|
  {
    s.(trail := s.trail[..n], vals := LitsOf(s.trail[..n]),
       reasons := map v | v in s.reasons && v in VarsOf(s.trail[..n]) :: s.reasons[v])
  }

  lemma UndoneAll(s: State)
    requires WA.TrailOk(s.trail, s.vals) && s.reasons.Keys == VarsOf(s.trail)
    ensures Undone(s, |s.trail|) == s
  {
    assert s.trail[..|s.trail|] == s.trail;
  }

  lemma WithoutLast(trail: seq<Lit>, vals: set<Lit>, n: nat)
    requires WA.TrailOk(trail, vals) && n < |trail|
    ensures LitsOf(trail[..n]) == LitsOf(trail[..n+1]) - {trail[n]}
    ensures VarsOf(trail[..n]) == VarsOf(trail[..n+1]) - {Var(trail[n])}
  {
    var lit := trail[n];
    forall l | l in trail[..n] ensures l != lit && Var(l) != Var(lit) {
      assert l in vals && lit in vals;
    }
    assert forall l :: l in trail[..n+1] <==> l in trail[..n] || l == lit;
    assert forall v :: v in VarsOf(trail[..n+1]) <==> v in VarsOf(trail[..n]) || v == Var(lit);
  }

  lemma UndoneStep(s: State, n: nat)
    requires WA.TrailOk(s.trail, s.vals) && n < |s.trail|
    ensures var t := Undone(s, n + 1);
            Undone(s, n) == t.(trail := t.trail[..n], vals := t.vals - {s.trail[n]}, reasons := t.reasons - {Var(s.trail[n])})
  {
    var t, u := Undone(s, n + 1), Undone(s, n);
    WithoutLast(s.trail, s.vals, n);
    assert t.trail[..n] == u.trail;
    assert u.reasons == t.reasons - {Var(s.trail[n])};
  }

  lemma UndoneReasons(s: State, n: nat)
    requires WA.TrailOk(s.trail, s.vals) && s.reasons.Keys == VarsOf(s.trail) && n <= |s.trail|
    ensures var t := Undone(s, n); WA.TrailOk(t.trail, t.vals) && t.reasons.Keys == VarsOf(t.trail)
  {
    var t := Undone(s, n);
    forall l | l in t.trail ensures l in s.trail && Var(l) in VarsOf(s.trail) {
    }
    forall l | l in t.vals ensures -l !in t.vals {
      assert l in s.vals;
    }
  }

  // Undoing keeps everything but what was propagated.
  lemma UndoneExplained(s: State, n: nat)
    requires Explained(s) && n <= |s.trail|
    ensures Explained(Undone(s, n))
  {
    assert Look(0);
    var t := Undone(s, n);
    UndoneReasons(s, n);
    forall p | 0 <= p < n ensures Reasoned(s.db, t.trail, t.reasons, p) {
      assert t.trail[p] in t.trail && t.trail[..p] == s.trail[..p];
      assert Reasoned(s.db, s.trail, s.reasons, p);
    }
  }

  lemma UndoneKept(s: State, base: set<Lit>, done: set<Lit>, n: nat)
    requires Kept(s, base, done) && n <= |s.trail|
    ensures Kept(Undone(s, n), {}, {})
    ensures base == LitsOf(s.trail[..n]) ==> Kept(Undone(s, n), base, base)
  {
    UndoneExplained(s, n);
    assert Look(0);
    var t := Undone(s, n);
    UndoneReasons(s, n);
    WA.AnyImplies(t.vals);
    forall k | 0 <= k < |s.db| && View(s.db)[k].live
      ensures WA.SettledClause(View(s.db)[k], {}, {}) && WA.SettledClause(View(s.db)[k], {}, t.vals)
    {
    }
  }

  // ----- The construction of chains.

  // 'chain' lists the clauses of a derivation that is made of recorded reasons.
  ghost predicate Chained(
    db: Db, trail: seq<Lit>, reasons: map<nat, Reason>, known: set<Lit>, goal: Goal, chain: seq<LS.Id>)
  {
    exists steps: seq<Step> :: Building(db, trail, reasons, known, steps, goal, {}, 0) && chain == Ids(db, steps, goal)
  }

  // Variables justified from the start have a literal in 'known', and so have all assumptions.
  ghost predicate Assumptions(trail: seq<Lit>, reasons: map<nat, Reason>, justified: set<nat>, known: set<Lit>) {
    forall q {:trigger trail[q]} :: 0 <= q < |trail| ==>
      && (Var(trail[q]) in justified ==> trail[q] in known)
      && (Var(trail[q]) in reasons && reasons[Var(trail[q])].Assumption? ==> Var(trail[q]) in justified)
  }

  // At positions before 'p' nothing was justified since the start.
  ghost predicate JustifiedBefore(trail: seq<Lit>, justified: set<nat>, justified0: set<nat>, p: nat) {
    justified0 <= justified &&
    forall q {:trigger trail[q]} :: 0 <= q < p && q < |trail| && Var(trail[q]) in justified ==> Var(trail[q]) in justified0
  }

  lemma TrailDistinct(trail: seq<Lit>, vals: set<Lit>)
    requires WA.TrailOk(trail, vals)
    ensures DistinctVars(trail)
  {
    forall i, j | 0 <= i < j < |trail| ensures Var(trail[i]) != Var(trail[j]) {
      assert trail[i] in vals && trail[j] in vals && -trail[i] !in vals;
    }
  }

  lemma ReasonMarked(s: State, todo: set<nat>, p: nat, k: nat, l: Lit)
    requires Explained(s) && p < |s.trail| && Var(s.trail[p]) in todo && k < |s.db| && l in s.db[k].lits
    requires Var(s.trail[p]) in s.reasons && s.reasons[Var(s.trail[p])] == Because(k) && Var(l) !in todo
    ensures CountPending(s.trail, todo + {Var(l)}, p) == CountPending(s.trail, todo, p) + 1
  {
    assert Look(0);
    assert Reasoned(s.db, s.trail, s.reasons, p);
    assert -l in s.trail[..p];
    var q :| 0 <= q < p && s.trail[q] == -l;
    TrailDistinct(s.trail, s.vals);
    CountMark(s.trail, todo, p, q);
  }

  // A literal that was neither known nor justified before has a clause as reason.
  lemma ReasonKnown(s: State, justified0: set<nat>, known: set<Lit>, p: nat)
    requires Explained(s) && p < |s.trail| && Assumptions(s.trail, s.reasons, justified0, known)
    requires Var(s.trail[p]) !in justified0
    ensures Var(s.trail[p]) in s.reasons
    ensures var r := s.reasons[Var(s.trail[p])]; r.Because? && r.clause < |s.db| && Reasoned(s.db, s.trail, s.reasons, p)
  {
    assert Look(0);
    assert Reasoned(s.db, s.trail, s.reasons, p);
  }

  lemma JustifyMarked(
    s: State, known: set<Lit>, steps: seq<Step>, goal: Goal, todo: set<nat>, todo': set<nat>,
    justified: set<nat>, justified0: set<nat>, p: nat, k: nat)
    requires Explained(s) && p < |s.trail| && Building(s.db, s.trail, s.reasons, known, steps, goal, todo, p + 1)
    requires Reasoned(s.db, s.trail, s.reasons, p) && s.reasons[Var(s.trail[p])] == Because(k)
    requires goal.Falsify? ==> FalseClause(s.db, s.vals, goal.clause)
    requires Assumptions(s.trail, s.reasons, justified0, known) && JustifiedBefore(s.trail, justified, justified0, p + 1)
    requires todo <= todo' && forall l :: l in s.db[k].lits ==> Var(l) in todo' || Var(l) in justified
    ensures Building(s.db, s.trail, s.reasons, known, [Step(k, s.trail[p])] + steps, goal, todo', p)
    ensures Ids(s.db, [Step(k, s.trail[p])] + steps, goal) == [s.db[k].id] + Ids(s.db, steps, goal)
    ensures JustifiedBefore(s.trail, justified + {Var(s.trail[p])}, justified0, p)
  {
    assert Look(0);
    TrailDistinct(s.trail, s.vals);
    if goal.Falsify? {
      FalsifiedNoReason(s.db, s.trail, s.vals, s.reasons, p, goal.clause);
    }
    forall l | l in s.db[k].lits && l != s.trail[p] ensures -l in known || Var(l) in todo' {
      assert -l in s.trail[..p];
      var q :| 0 <= q < p && s.trail[q] == -l;
    }
    JustifyPosition(s.db, s.trail, s.vals, s.reasons, known, steps, goal, todo, todo', p, k);
    assert ([Step(k, s.trail[p])] + steps)[1..] == steps;
  }

  // Nothing is left to be justified.
  lemma {:induction false} BuildingDone(
    db: Db, trail: seq<Lit>, reasons: map<nat, Reason>, known: set<Lit>, steps: seq<Step>, goal: Goal, todo: set<nat>, p: nat)
    requires p <= |trail| && Building(db, trail, reasons, known, steps, goal, todo, p)
    requires CountPending(trail, todo, p) == 0
    ensures Building(db, trail, reasons, known, steps, goal, {}, 0)
  {
    CountZero(trail, todo, p);
    assert Pending(trail, {}, 0) == {} == Pending(trail, todo, p);
    forall s | s in steps ensures StepOf(trail, reasons, 0, s) {
      assert StepOf(trail, reasons, p, s);
    }
  }

  // The invariant of the downward loop.
  ghost predicate Constructing(
    s: State, known: set<Lit>, goal: Goal, justified0: set<nat>,
    steps: seq<Step>, reverse: seq<LS.Id>, todo: set<nat>, justified: set<nat>, unjustified: nat, p: nat)
    requires p <= |s.trail|
  {
    && Building(s.db, s.trail, s.reasons, known, steps, goal, todo, p)
    && unjustified == CountPending(s.trail, todo, p) && Reversed(reverse) == Ids(s.db, steps, goal)
    && JustifiedBefore(s.trail, justified, justified0, p)
  }

  lemma SkipStep(
    s: State, known: set<Lit>, goal: Goal, justified0: set<nat>,
    steps: seq<Step>, reverse: seq<LS.Id>, todo: set<nat>, justified: set<nat>, unjustified: nat, p: nat)
    requires p < |s.trail| && Assumptions(s.trail, s.reasons, justified0, known)
    requires Constructing(s, known, goal, justified0, steps, reverse, todo, justified, unjustified, p + 1)
    ensures Var(s.trail[p]) !in todo ==>
              Constructing(s, known, goal, justified0, steps, reverse, todo, justified, unjustified, p)
    ensures Var(s.trail[p]) in todo ==> unjustified > 0 && unjustified - 1 == CountPending(s.trail, todo, p)
    ensures Var(s.trail[p]) in todo && Var(s.trail[p]) in justified ==>
              Constructing(s, known, goal, justified0, steps, reverse, todo, justified, unjustified - 1, p)
    ensures Var(s.trail[p]) !in justified ==> Var(s.trail[p]) !in justified0
  {
    if Var(s.trail[p]) !in todo || Var(s.trail[p]) in justified {
      SkipPosition(s.db, s.trail, s.reasons, known, steps, goal, todo, p);
    }
  }

  lemma JustifyStep(
    s: State, known: set<Lit>, goal: Goal, justified0: set<nat>,
    steps: seq<Step>, reverse: seq<LS.Id>, todo: set<nat>, todo': set<nat>, justified: set<nat>,
    was: nat, unjustified: nat, p: nat, k: nat)
    requires Explained(s) && p < |s.trail| && Assumptions(s.trail, s.reasons, justified0, known)
    requires goal.Falsify? ==> FalseClause(s.db, s.vals, goal.clause)
    requires Reasoned(s.db, s.trail, s.reasons, p) && s.reasons[Var(s.trail[p])] == Because(k)
    requires Constructing(s, known, goal, justified0, steps, reverse, todo, justified, was, p + 1)
    requires todo <= todo' && unjustified == CountPending(s.trail, todo', p)
    requires forall l :: l in s.db[k].lits ==> Var(l) in todo' || Var(l) in justified
    ensures Constructing(s, known, goal, justified0, [Step(k, s.trail[p])] + steps, reverse + [s.db[k].id], todo',
                         justified + {Var(s.trail[p])}, unjustified, p)
  {
    JustifyMarked(s, known, steps, goal, todo, todo', justified, justified0, p, k);
    assert (reverse + [s.db[k].id])[..|reverse|] == reverse;
  }

  // ----- How the construction starts.

  // No assumption is left on the trail.
  ghost predicate Rooted(reasons: map<nat, Reason>) {
    forall v :: v in reasons ==> reasons[v].Because?
  }

  lemma {:induction false} CountNothing(trail: seq<Lit>, p: nat)
    requires p <= |trail|
    ensures CountPending(trail, {}, p) == 0
  {
    if p > 0 {
      CountNothing(trail, p - 1);
    }
  }

  lemma FalsifiedMarked(s: State, k: nat, i: nat)
    requires Explained(s) && FalseClause(s.db, s.vals, k) && i < |s.db[k].lits|
    ensures var lits, trail := s.db[k].lits, s.trail;
            && CountPending(trail, VarsOf(lits[..i]) + {Var(lits[i])}, |trail|) == CountPending(trail, VarsOf(lits[..i]), |trail|) + 1
            && VarsOf(lits[..i+1]) == VarsOf(lits[..i]) + {Var(lits[i])}
  {
    assert Look(0);
    var lits := s.db[k].lits;
    var l := lits[i];
    assert l in lits && -l in s.vals;
    var q :| 0 <= q < |s.trail| && s.trail[q] == -l;
    forall x | x in lits[..i] ensures Var(x) != Var(l) {
      assert x in lits && x != l && -x !in lits;
    }
    TrailDistinct(s.trail, s.vals);
    CountMark(s.trail, VarsOf(lits[..i]), |s.trail|, q);
    assert lits[..i+1] == lits[..i] + [l];
    assert forall x :: x in lits[..i+1] <==> x in lits[..i] || x == l;
    assert forall v :: v in VarsOf(lits[..i+1]) <==> v in VarsOf(lits[..i]) || v == Var(l);
  }

  lemma FalsifiedBuilding(s: State, known: set<Lit>, k: nat, todo: set<nat>)
    requires Explained(s) && FalseClause(s.db, s.vals, k) && todo == VarsOf(s.db[k].lits)
    ensures Building(s.db, s.trail, s.reasons, known, [], Falsify(k), todo, |s.trail|)
  {
    assert Look(0);
    forall l | l in s.db[k].lits ensures -l in known + Pending(s.trail, todo, |s.trail|) {
      var q :| 0 <= q < |s.trail| && s.trail[q] == -l;
      assert Var(s.trail[q]) in todo && s.trail[q] in Pending(s.trail, todo, |s.trail|);
    }
  }

  lemma SatisfiedBuilding(s: State, lit: Lit)
    requires Explained(s) && lit in s.vals
    ensures Building(s.db, s.trail, s.reasons, {}, [], Reach(lit), {Var(lit)}, |s.trail|)
    ensures CountPending(s.trail, {Var(lit)}, |s.trail|) == 1
  {
    assert Look(0);
    var q :| 0 <= q < |s.trail| && s.trail[q] == lit;
    assert s.trail[q] in Pending(s.trail, {Var(lit)}, |s.trail|);
    TrailDistinct(s.trail, s.vals);
    CountNothing(s.trail, |s.trail|);
    CountMark(s.trail, {}, |s.trail|, q);
    assert {} + {Var(lit)} == {Var(lit)};
  }

  // ----- Building a chain for a clause.

  // In every table that mirrors the clauses, the chain leads the checker to a falsified clause.
  ghost predicate Certified(db: Db, clause: seq<Lit>, chain: seq<LS.Id>) {
    forall nonces, t {:trigger Mirrored(nonces, t, db)} ::
      Mirrored(nonces, t, db) ==> LS.Follow(nonces, t, Negations(clause), {}, chain)
  }

  lemma ChainCertified(s: State, clause: seq<Lit>, known: set<Lit>, goal: Goal, chain: seq<LS.Id>)
    requires UniqueIds(s.db) && WA.Distinct(clause) && known <= Negations(clause)
    requires Chained(s.db, s.trail, s.reasons, known, goal, chain)
    requires goal.Reach? ==> goal.lit in clause
    ensures Certified(s.db, clause, chain)
  {
    var steps: seq<Step> :| Building(s.db, s.trail, s.reasons, known, steps, goal, {}, 0) && chain == Ids(s.db, steps, goal);
    var checked := Negations(clause);
    DerivationMonotone(s.db, steps, goal, known + Pending(s.trail, {}, 0), checked);
    assert Consistent(checked) by {
      forall l | l in checked ensures -l !in checked {
        assert -l in clause;
      }
    }
    forall nonces, t | Mirrored(nonces, t, s.db) ensures LS.Follow(nonces, t, checked, {}, chain) {
      DerivationFollowed(nonces, t, s.db, steps, goal, checked, {});
    }
  }

  // The second state has assumptions for the given variables in addition.
  ghost predicate OnlyAssumed(s: State, t: State, vars: set<nat>) {
    && t.db == s.db && t.ws == s.ws && s.trail <= t.trail && s.vals <= t.vals
    && (forall v :: v in s.reasons ==> v in t.reasons && t.reasons[v] == s.reasons[v])
    && (forall v :: v in t.reasons && t.reasons[v].Assumption? ==> v in vars)
  }

  lemma NotAssumed(simplified: seq<Lit>, n: nat, base: set<Lit>)
    requires n < |simplified| && WA.Distinct(simplified) && simplified[n] in base + Negations(simplified[..n])
    ensures simplified[n] in base
  {
    var l := simplified[n];
    assert l in simplified && -l !in simplified;
    assert forall k :: k in simplified[..n] ==> k in simplified;
    assert -(-l) == l;
  }

  lemma AssumedOnly(s: State, t: State, simplified: seq<Lit>, n: nat, unitReasons: map<nat, nat>)
    requires Explained(t) && OnlyAssumed(s, t, VarsOf(simplified)) && n < |simplified|
    requires FirstUnits(t.db, unitReasons) && UnitsTrue(t.db, s.vals) && Agree(t.reasons, unitReasons)
    requires simplified[n] !in t.vals && -simplified[n] !in t.vals
    ensures OnlyAssumed(s, Assigned(t, -simplified[n], Assumption), VarsOf(simplified))
    ensures Agree(Assigned(t, -simplified[n], Assumption).reasons, unitReasons)
  {
    assert Look(0);
    ReasonsExtended(t, -simplified[n], Assumption);
    assert Var(-simplified[n]) == Var(simplified[n]) && simplified[n] in simplified;
    UnitsAssigned(t.db, s.vals, unitReasons);
  }

  lemma UnitsAssigned(db: Db, vals: set<Lit>, unitReasons: map<nat, nat>)
    requires FirstUnits(db, unitReasons) && UnitsTrue(db, vals)
    ensures forall v :: v in unitReasons ==> v in (set l | l in vals :: Var(l))
  {
    forall v | v in unitReasons ensures v in set l | l in vals :: Var(l) {
      assert FirstUnit(db, v, unitReasons[v]);
      assert db[unitReasons[v]].lits[0] in vals;
    }
  }

  // Going back to a former trail gives back the former assignment.
  lemma UndoneBack(s: State, t: State)
    requires Explained(s) && s.trail <= t.trail
    requires forall v :: v in s.reasons ==> v in t.reasons && t.reasons[v] == s.reasons[v]
    ensures Undone(t, |s.trail|) == t.(trail := s.trail, vals := s.vals, reasons := s.reasons)
  {
    assert Look(0);
    var u := Undone(t, |s.trail|);
    assert t.trail[..|s.trail|] == s.trail;
    assert u.reasons == s.reasons;
  }

  lemma RestoreKept(s: State, t: State, vars: set<nat>)
    requires Explained(s) && Kept(t, s.vals, s.vals) && OnlyAssumed(s, t, vars)
    ensures WA.TrailOk(t.trail, t.vals) && t.reasons.Keys == VarsOf(t.trail) && Undone(t, |s.trail|) == s
  {
    KeptFacts(t, s.vals, s.vals);
    UndoneBack(s, t);
  }

  lemma RestoreRoot(s: State, t: State, base: set<Lit>, done: set<Lit>)
    requires Explained(s) && base == s.vals && Kept(t, base, done) && s.trail <= t.trail
    requires forall v :: v in s.reasons ==> v in t.reasons && t.reasons[v] == s.reasons[v]
    ensures WA.TrailOk(t.trail, t.vals) && t.reasons.Keys == VarsOf(t.trail)
    ensures Undone(t, |s.trail|) == t.(trail := s.trail, vals := s.vals, reasons := s.reasons)
    ensures Kept(Undone(t, |s.trail|), base, base)
  {
    KeptFacts(t, base, done);
    UndoneBack(s, t);
    assert Look(0);
    assert t.trail[..|s.trail|] == s.trail;
    UndoneKept(t, base, done, |s.trail|);
  }

  lemma DoneIsBase(s: State, t: State)
    requires Explained(s) && s.trail <= t.trail
    ensures LitsOf(t.trail[..|s.trail|]) == s.vals
  {
    assert Look(0);
    assert t.trail[..|s.trail|] == s.trail;
  }

  // ----- Naive unit propagation over all live clauses, also unit, empty and tautological ones.

  ghost predicate Refutes(db: Db, known: set<Lit>, steps: seq<Step>, last: nat)
    decreases |steps|
  {
    if steps == [] then last < |db| && !db[last].garbage && LS.AllFalse(known, db[last].lits)
    else Forces(db, steps[0], known) && !db[steps[0].clause].garbage && Refutes(db, known + {steps[0].lit}, steps[1..], last)
  }

  ghost predicate NaiveRup(db: Db, known: set<Lit>) {
    exists steps, last: nat :: Refutes(db, known, steps, last)
  }

  ghost predicate EmptyAt(db: Db, k: nat) {
    k < |db| && !db[k].garbage && db[k].lits == []
  }

  ghost predicate HasEmpty(db: Db) {
    exists k :: EmptyAt(db, k)
  }

  // Only empty clauses are refuted.
  ghost predicate Exhausted(db: Db, known: set<Lit>) {
    forall steps, last: nat {:trigger Refutes(db, known, steps, last)} :: Refutes(db, known, steps, last) ==> EmptyAt(db, last)
  }

  lemma ExhaustedExactly(db: Db, known: set<Lit>)
    requires Exhausted(db, known)
    ensures NaiveRup(db, known) <==> HasEmpty(db)
  {
    if HasEmpty(db) {
      var k :| EmptyAt(db, k);
      assert Refutes(db, known, [], k);
    }
  }

  // A live clause does not propagate any more.
  lemma NothingForced(t: State, base: set<Lit>, k: nat, u: Lit)
    requires Kept(t, base, t.vals) && UnitsTrue(t.db, t.vals) && Formed(t.db) && k < |t.db| && !t.db[k].garbage
    ensures LS.AllFalse(t.vals, t.db[k].lits) ==> t.db[k].lits == []
    ensures u in t.db[k].lits && WA.OthersFalse(t.db[k].lits, u, t.vals) ==> u in t.vals
  {
    assert Look(0);
    var lits := t.db[k].lits;
    assert FormedClause(t.db[k]);
    assert CK.ConsistentSet(t.vals);
    if |lits| >= 2 && WA.Distinct(lits) {
      CK.SettledNotUnit(View(t.db), t.vals, k, u);
      assert View(t.db)[k] == WA.WClause(lits, true);
    } else if |lits| == 1 {
      assert LiveUnit(t.db[k]) && lits[0] in lits && lits[0] in t.vals && -lits[0] !in t.vals;
    } else if |lits| >= 2 {
      var x :| x in lits && -x in lits;
      assert -(-x) == x;
    }
  }

  lemma {:induction false} Idle(t: State, base: set<Lit>, known: set<Lit>, steps: seq<Step>, last: nat)
    requires Kept(t, base, t.vals) && UnitsTrue(t.db, t.vals) && Formed(t.db) && known <= t.vals
    ensures Refutes(t.db, known, steps, last) ==> EmptyAt(t.db, last)
    decreases |steps|
  {
    if Refutes(t.db, known, steps, last) {
      if steps == [] {
        NothingForced(t, base, last, 0);
      } else {
        NothingForced(t, base, steps[0].clause, steps[0].lit);
        Idle(t, base, known + {steps[0].lit}, steps[1..], last);
      }
    }
  }

  lemma {:induction false} RefutesReordered(db: Db, db': Db, known: set<Lit>, steps: seq<Step>, last: nat)
    requires SameClauses(db, db') && Refutes(db, known, steps, last)
    ensures Refutes(db', known, steps, last)
    decreases |steps|
  {
    var k := if steps == [] then last else steps[0].clause;
    assert Reordered(db[k], db'[k]);
    WA.SameMembers(db[k].lits, db'[k].lits);
    if steps != [] {
      RefutesReordered(db, db', known + {steps[0].lit}, steps[1..], last);
    }
  }

  // Nothing but an empty clause can be refuted where propagation stopped without a conflict.
  lemma Refuted(db: Db, t: State, base: set<Lit>, known: set<Lit>)
    requires SameClauses(db, t.db) && Kept(t, base, t.vals) && UnitsTrue(t.db, t.vals) && Formed(db) && known <= t.vals
    ensures Exhausted(db, known)
  {
    forall k | 0 <= k < |db| ensures FormedClause(t.db[k]) {
      assert Reordered(db[k], t.db[k]) && FormedClause(db[k]);
      WA.SameMembers(db[k].lits, t.db[k].lits);
    }
    forall steps, last: nat | Refutes(db, known, steps, last) ensures EmptyAt(db, last) {
      RefutesReordered(db, t.db, known, steps, last);
      Idle(t, base, known, steps, last);
      assert Reordered(db[last], t.db[last]);
    }
  }

  ghost predicate SomeRefutes(db: Db, known: set<Lit>, k: nat) {
    exists steps :: Refutes(db, known, steps, k)
  }

  // The recorded reasons refute the conflict from the assumptions.
  lemma {:induction false} TrailRefutes(s: State, known: set<Lit>, k: nat, p: nat)
    requires WA.TrailOk(s.trail, s.vals) && AllReasoned(s.db, s.trail, s.reasons)
    requires forall q {:trigger s.trail[q]} :: 0 <= q < |s.trail| && Var(s.trail[q]) in s.reasons && s.reasons[Var(s.trail[q])].Assumption? ==> s.trail[q] in known
    requires FalseClause(s.db, s.vals, k) && p <= |s.trail|
    ensures SomeRefutes(s.db, known + LitsOf(s.trail[..p]), k)
    decreases |s.trail| - p
  {
    var more := known + LitsOf(s.trail[..p]);
    if p == |s.trail| {
      assert s.trail[..p] == s.trail;
      assert Refutes(s.db, more, [], k);
    } else {
      TrailRefutes(s, known, k, p + 1);
      assert s.trail[..p+1] == s.trail[..p] + [s.trail[p]];
      LitsOfLast(s.trail[..p], s.trail[p]);
      assert Reasoned(s.db, s.trail, s.reasons, p);
      var r := s.reasons[Var(s.trail[p])];
      if r.Because? {
        var steps :| Refutes(s.db, known + LitsOf(s.trail[..p+1]), steps, k);
        StepRefutes(s.db, more, Step(r.clause, s.trail[p]), steps, k, known + LitsOf(s.trail[..p+1]));
      } else {
        assert more == known + LitsOf(s.trail[..p+1]);
      }
    }
  }

  lemma StepRefutes(db: Db, known: set<Lit>, step: Step, steps: seq<Step>, k: nat, more: set<Lit>)
    requires Forces(db, step, known) && !db[step.clause].garbage && more == known + {step.lit} && Refutes(db, more, steps, k)
    ensures SomeRefutes(db, known, k)
  {
    var all := [step] + steps;
    assert all[1..] == steps;
    assert Refutes(db, known, all, k);
  }

  lemma ReasonsRefute(s: State, k: nat)
    requires Explained(s) && Rooted(s.reasons) && FalseClause(s.db, s.vals, k)
    ensures SomeRefutes(s.db, {}, k)
  {
    assert Look(0);
    TrailRefutes(s, {}, k, 0);
    assert s.trail[..0] == [] && {} + LitsOf([]) == {};
  }

  // A conflict found from the negated literals is not exhausted.
  lemma ConflictRefutes(db: Db, t: State, simplified: seq<Lit>, base: set<Lit>, k: nat)
    requires Explained(t) && Conflict(t.db, t.vals, k) && SameClauses(db, t.db)
    requires Assumptions(t.trail, t.reasons, VarsOf(simplified), Negations(simplified))
    requires forall v :: v in t.reasons && t.reasons[v].Assumption? ==> v in VarsOf(simplified)
    ensures !Exhausted(db, base + Negations(simplified))
  {
    assert Look(0);
    var known := base + Negations(simplified);
    TrailRefutes(t, known, k, 0);
    assert t.trail[..0] == [] && known + LitsOf([]) == known;
    var steps :| Refutes(t.db, known, steps, k);
    forall n | 0 <= n < |db| ensures Reordered(t.db[n], db[n]) {
      assert Reordered(db[n], t.db[n]);
    }
    RefutesReordered(t.db, db, known, steps, k);
    assert Reordered(db[k], t.db[k]);
  }

  // The reason of a true literal is falsified together with it.
  lemma SatisfiedRefutes(s: State, simplified: seq<Lit>, lit: Lit)
    requires Explained(s) && Rooted(s.reasons) && lit in simplified && lit in s.vals
    ensures !Exhausted(s.db, s.vals + Negations(simplified))
  {
    assert Look(0);
    var q :| 0 <= q < |s.trail| && s.trail[q] == lit;
    assert Reasoned(s.db, s.trail, s.reasons, q);
    var k := s.reasons[Var(lit)].clause;
    assert -lit in Negations(simplified);
    assert Refutes(s.db, s.vals + Negations(simplified), [], k);
  }

  lemma AssumptionsKnown(t: State, simplified: seq<Lit>)
    requires Explained(t) && Negations(simplified) <= t.vals
    requires forall v :: v in t.reasons && t.reasons[v].Assumption? ==> v in VarsOf(simplified)
    ensures Assumptions(t.trail, t.reasons, VarsOf(simplified), Negations(simplified))
  {
    assert Look(0);
    forall q | 0 <= q < |t.trail| && Var(t.trail[q]) in VarsOf(simplified) ensures t.trail[q] in Negations(simplified) {
      var l :| l in simplified && Var(l) == Var(t.trail[q]);
      assert -l in Negations(simplified) && t.trail[q] in t.vals;
      assert -(-l) == l;
    }
  }

  // Clauses have no duplicates unless they are tautological.
  ghost predicate FormedClause(c: BClause) {
    0 !in c.lits && (WA.Distinct(c.lits) || LS.TautologicalSeq(c.lits))
  }

  ghost predicate Formed(db: Db) {
    forall k {:trigger db[k]} :: 0 <= k < |db| ==> FormedClause(db[k])
  }

  lemma SameUnique(db: Db, db': Db)
    requires SameClauses(db, db') && UniqueIds(db)
    ensures UniqueIds(db') && (Formed(db) ==> Formed(db'))
  {
    forall k | 0 <= k < |db'| ensures FormedClause(db[k]) ==> FormedClause(db'[k]) {
      assert Reordered(db[k], db'[k]);
      WA.SameMembers(db[k].lits, db'[k].lits);
    }
    forall i, j | 0 <= i < j < |db'| && !db'[i].garbage && !db'[j].garbage ensures db'[i].id != db'[j].id {
      assert Reordered(db[i], db'[i]) && Reordered(db[j], db'[j]);
    }
  }

  lemma CertifiedSame(db: Db, db': Db, clause: seq<Lit>, chain: seq<LS.Id>)
    requires SameClauses(db, db') && Certified(db', clause, chain)
    ensures Certified(db, clause, chain)
  {
    forall nonces, t | Mirrored(nonces, t, db) ensures LS.Follow(nonces, t, Negations(clause), {}, chain) {
      forall k | 0 <= k < |db'| && !db'[k].garbage ensures MirroredClause(nonces, t, db'[k]) {
        assert Reordered(db[k], db'[k]) && MirroredClause(nonces, t, db[k]);
      }
      assert Mirrored(nonces, t, db');
    }
  }

  lemma EmptyKept(s: State)
    requires s == State([], map[], [], {}, map[])
    ensures Kept(s, {}, {})
  {
    assert forall l :: WA.WatchList(s.ws, l) == [];
    assert WA.ListsShaped(View(s.db), s.ws);
    WA.AnyImplies({});
  }
}
