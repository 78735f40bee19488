// What backtracking keeps is what conflict analysis needs.
module Trails {
  import opened Cnf
  import AN = Analysis
  import BT = Backtrack
  import LC = LratChains

  function ClausesOf(db: LC.Db): (r: seq<seq<Lit>>)
    ensures |r| == |db| && forall k {:trigger r[k]} :: 0 <= k < |db| ==> r[k] == db[k].lits
  {
    seq(|db|, k requires 0 <= k < |db| => db[k].lits)
  }

  function SourceOf(r: BT.Reason): AN.Source {
    if r.Decision? then AN.Decided else AN.Propagated(r.clause)
  }

  // The solver as conflict analysis sees it.
  function FrameOf(db: LC.Db, trail: seq<Lit>, vtab: BT.Table, units: map<Lit, nat>, level: nat): AN.Frame {
    AN.Frame(db, trail, map v | v in vtab :: AN.Info(vtab[v].level, vtab[v].pos, SourceOf(vtab[v].reason)), units, level)
  }

  // Literals of the root level have unit clauses; other reasons are live clauses with several literals.
  ghost predicate Backed(db: LC.Db, vtab: BT.Table, units: map<Lit, nat>, l: Lit) {
    if BT.LevelOf(vtab, l) == 0 then
      l in units && units[l] < |db| && LC.Usable(db, units[l]) && db[units[l]].lits == [l]
    else
      vtab[Var(l)].reason.Because? ==>
        var k := vtab[Var(l)].reason.clause; k < |db| && LC.Usable(db, k) && |db[k].lits| >= 2
  }

  ghost predicate AllBacked(db: LC.Db, trail: seq<Lit>, vtab: BT.Table, units: map<Lit, nat>) {
    forall l {:trigger Backed(db, vtab, units, l)} :: l in trail ==> Backed(db, vtab, units, l)
  }

  lemma AnalysisReady(db: LC.Db, trail: seq<Lit>, vtab: BT.Table, control: seq<BT.Control>, units: map<Lit, nat>)
    requires BT.Sound(ClausesOf(db), trail, vtab, control) && AllBacked(db, trail, vtab, units)
    ensures |control| > 0 && AN.Sound(FrameOf(db, trail, vtab, units, |control| - 1))
  {
    assert Look(0);
    var f := FrameOf(db, trail, vtab, units, |control| - 1);
    assert forall l {:trigger AN.LevelOf(f, l)} :: AN.LevelOf(f, l) == BT.LevelOf(vtab, l);
    forall l | l in LitsOf(trail) ensures -l !in LitsOf(trail) {
      var i :| 0 <= i < |trail| && trail[i] == l;
      assert forall j :: 0 <= j < |trail| && j != i ==> Var(trail[j]) != Var(l);
    }
    forall p | 0 <= p < |trail| ensures AN.Sourced(f, p) {
      SourcedAt(db, trail, vtab, control, units, p);
    }
  }

  lemma SourcedAt(db: LC.Db, trail: seq<Lit>, vtab: BT.Table, control: seq<BT.Control>, units: map<Lit, nat>, p: nat)
    requires BT.Sound(ClausesOf(db), trail, vtab, control) && AllBacked(db, trail, vtab, units) && p < |trail| && |control| > 0
    ensures AN.Sourced(FrameOf(db, trail, vtab, units, |control| - 1), p)
  {
    assert Look(0);
    var f, l := FrameOf(db, trail, vtab, units, |control| - 1), trail[p];
    assert forall x {:trigger AN.LevelOf(f, x)} :: AN.LevelOf(f, x) == BT.LevelOf(vtab, x);
    assert l in trail && Backed(db, vtab, units, l);
    assert BT.Placed(trail, vtab, p) && BT.Deciding(trail, vtab, control, p);
    if BT.LevelOf(vtab, l) > 0 {
      if vtab[Var(l)].reason.Because? {
        assert BT.Explained(ClausesOf(db), trail, vtab, p);
      } else {
        assert BT.Leveled(trail, vtab, control, BT.LevelOf(vtab, l));
      }
    }
  }

  // After backtracking the next conflict can be analyzed.
  method BacktrackForAnalysis(s: BT.Solver, newLevel: nat, db: LC.Db, units: map<Lit, nat>, ghost vars: set<nat>)
    requires s.Valid() && newLevel <= s.level && (forall l :: l in s.trail ==> Var(l) in s.btab) && s.db == ClausesOf(db)
    requires BT.Findable(s.vals, s.scores, s.btab, s.queueBumped, vars) && AllBacked(db, s.trail, s.vtab, units)
    modifies s
    ensures s.Valid() && s.level == newLevel && AllBacked(db, s.trail, s.vtab, units)
    ensures AN.Sound(FrameOf(db, s.trail, s.vtab, units, s.level))
  {
    ghost var trail, vtab := s.trail, s.vtab;
    s.Backtrack(newLevel, vars);
    StillBacked(db, trail, vtab, units, newLevel, s.trail, s.vtab);
    AnalysisReady(db, s.trail, s.vtab, s.control, units);
  }

  lemma StillBacked(db: LC.Db, trail: seq<Lit>, vtab: BT.Table, units: map<Lit, nat>, n: nat, trail': seq<Lit>, vtab': BT.Table)
    requires AllBacked(db, trail, vtab, units) && trail' == BT.UpTo(trail, vtab, n) && BT.SameLevels(vtab, vtab')
    ensures AllBacked(db, trail', vtab', units)
  {
    BT.UpToMembers(trail, vtab, n);
    forall l | l in trail' ensures Backed(db, vtab', units, l) {
      assert Backed(db, vtab, units, l);
      assert BT.LevelOf(vtab', l) == BT.LevelOf(vtab, l);
    }
  }
}
