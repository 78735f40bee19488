// Unit propagation of the LRAT builder: unit clauses first, then the watch lists, with a recorded
// reason for each assigned literal.
module LratPropagator {
  import opened Cnf
  import opened LratChains
  import opened LratState
  import CK = Checker
  import LS = LratSpec
  import WA = Watching

  // The visited clause is unit.
  lemma VisitAssigned(s: State, base: set<Lit>, done: set<Lit>, fl: Lit, i: nat, lit: Lit)
    requires Visiting(s, base, done, fl, i) && i < |WA.WatchList(s.ws, fl)|
    requires WA.ClauseAt(PropOf(s), fl, i) < |s.db|
    requires var k := WA.ClauseAt(PropOf(s), fl, i);
             Usable(s.db, k) && |s.db[k].lits| >= 2 && lit in s.db[k].lits && WA.OthersFalse(s.db[k].lits, lit, s.vals)
    requires lit !in s.vals && -lit !in s.vals
    ensures var t := Assigned(s, lit, Because(WA.ClauseAt(PropOf(s), fl, i)));
            Visiting(t, base, done, fl, i + 1) && Grows(s, t)
  {
    var k := WA.ClauseAt(PropOf(s), fl, i);
    CK.LessRoom(View(s.db), s.vals, lit, k);
    ExplainedAssigned(s, lit, Because(k));
    VisitAssignedProp(PropOf(s), base, done, fl, i, lit);
  }

  lemma VisitAssignedProp(s: WA.Prop, base: set<Lit>, done: set<Lit>, fl: Lit, i: nat, lit: Lit)
    requires CK.Visiting(s, WA.Any(), {}, base, done, fl, i) && i < |WA.WatchList(s.ws, fl)|
    requires WA.ClauseAt(s, fl, i) < |s.db| && lit in s.db[WA.ClauseAt(s, fl, i)].lits
    requires WA.OthersFalse(s.db[WA.ClauseAt(s, fl, i)].lits, lit, s.vals) && lit !in s.vals && -lit !in s.vals
    ensures CK.Visiting(s.(trail := s.trail + [lit], vals := s.vals + {lit}), WA.Any(), {}, base, done, fl, i + 1)
  {
    assert Look(0);
    WA.VisitUnit(s, WA.Any(), {}, base, done, fl, i, lit, s.(trail := s.trail + [lit], vals := s.vals + {lit}));
  }

  lemma VisitDropped(s: State, base: set<Lit>, done: set<Lit>, fl: Lit, i: nat, t: State)
    requires Visiting(s, base, done, fl, i) && i < |WA.WatchList(s.ws, fl)|
    requires WA.ClauseAt(PropOf(s), fl, i) < |s.db| && s.db[WA.ClauseAt(PropOf(s), fl, i)].garbage
    requires t == s.(ws := s.ws[fl := WA.Without(WA.WatchList(s.ws, fl), i)])
    ensures Visiting(t, base, done, fl, i) && Grows(s, t)
  {
    assert Look(0);
    WA.VisitGarbage(PropOf(s), WA.Any(), {}, base, done, fl, i, PropOf(t));
    ListLinked(s.db, s.ws, fl);
    LinkedUpdated(s.db, s.ws, fl, WA.Without(WA.WatchList(s.ws, fl), i));
    ExplainedReordered(s, t.db);
  }

  lemma VisitBlit(s: State, base: set<Lit>, done: set<Lit>, fl: Lit, i: nat, other: Lit, t: State)
    requires Visiting(s, base, done, fl, i) && i < |WA.WatchList(s.ws, fl)|
    requires WA.ClauseAt(PropOf(s), fl, i) < |s.db|
    requires var c := View(s.db)[WA.ClauseAt(PropOf(s), fl, i)]; other in c.lits && other in s.vals && other != fl
    requires t == s.(ws := s.ws[fl := WA.WatchList(s.ws, fl)[i := WA.WatchList(s.ws, fl)[i].(blit := other)]])
    ensures Visiting(t, base, done, fl, i + 1) && Grows(s, t)
  {
    assert Look(0);
    WA.VisitBlit(PropOf(s), WA.Any(), {}, base, done, fl, i, other, PropOf(t));
    ListLinked(s.db, s.ws, fl);
    assert WA.WatchList(s.ws, fl)[i] in WA.WatchList(s.ws, fl);
    LinkedUpdated(s.db, s.ws, fl, t.ws[fl]);
    ExplainedReordered(s, t.db);
  }

  lemma VisitOrdered(s: State, base: set<Lit>, done: set<Lit>, fl: Lit, i: nat, k: nat, other: Lit, t: State)
    requires Visiting(s, base, done, fl, i) && k < |s.db| && |s.db[k].lits| >= 2 && WA.Distinct(s.db[k].lits)
    requires {s.db[k].lits[0], s.db[k].lits[1]} == {other, fl} && other != fl
    requires t == s.(db := s.db[k := s.db[k].(lits := CK.PairFirst(s.db[k].lits, other, fl))])
    ensures Visiting(t, base, done, fl, i) && Grows(s, t) && WA.Distinct(t.db[k].lits)
  {
    var v := View(s.db);
    CK.PairRearranged(v, k, other, fl);
    UpdateReordered(s.db, k, t.db[k].lits);
    assert Look(0);
    WA.VisitSwap(PropOf(s), WA.Any(), {}, base, done, fl, i, k, PropOf(t));
    ExplainedReordered(s, t.db);
    LinkedReordered(s.db, t.db, s.ws);
  }

  lemma VisitMoved(s: State, base: set<Lit>, done: set<Lit>, fl: Lit, i: nat, n: nat, t: State)
    requires Visiting(s, base, done, fl, i) && i < |WA.WatchList(s.ws, fl)|
    requires WA.ClauseAt(PropOf(s), fl, i) < |s.db| && Usable(s.db, WA.ClauseAt(PropOf(s), fl, i))
    requires var lits := s.db[WA.ClauseAt(PropOf(s), fl, i)].lits;
             2 <= n < |lits| && lits[1] == fl && -lits[n] !in s.vals
    requires var k := WA.ClauseAt(PropOf(s), fl, i);
             var lits := s.db[k].lits;
             var ws := s.ws[fl := WA.Without(WA.WatchList(s.ws, fl), i)];
             t == s.(db := s.db[k := s.db[k].(lits := CK.Exchange(lits, n))],
                     ws := ws[lits[n] := WA.WatchList(ws, lits[n]) + [WA.Watch(fl, |lits|, k)]])
    ensures Visiting(t, base, done, fl, i) && Grows(s, t)
    ensures |WA.WatchList(t.ws, fl)| == |WA.WatchList(s.ws, fl)| - 1
  {
    var v, k := View(s.db), WA.ClauseAt(PropOf(s), fl, i);
    var lits := s.db[k].lits;
    var r := lits[n];
    assert lits[0] != r && lits[0] != fl && r != fl;
    CK.ExchangeRearranged(v, k, n);
    UpdateReordered(s.db, k, t.db[k].lits);
    assert WA.Moved(v, s.ws, fl, i, lits[0], r, View(t.db), t.ws);
    assert Look(0);
    WA.VisitMove(PropOf(s), WA.Any(), {}, base, done, fl, i, lits[0], r, PropOf(t));
    ExplainedReordered(s, t.db);
    var ws := s.ws[fl := WA.Without(WA.WatchList(s.ws, fl), i)];
    ListLinked(s.db, s.ws, fl);
    LinkedUpdated(s.db, s.ws, fl, WA.Without(WA.WatchList(s.ws, fl), i));
    ListLinked(s.db, ws, r);
    LinkedUpdated(s.db, ws, r, t.ws[r]);
    LinkedReordered(s.db, t.db, t.ws);
  }

  lemma VisitingKept(s: State, base: set<Lit>, done: set<Lit>, fl: Lit, i: nat)
    requires Visiting(s, base, done, fl, i)
    ensures Kept(s, base, {})
  {
    assert Look(0);
    KeptLess(s, base, done);
  }

  lemma StartVisiting(s: State, base: set<Lit>, done: set<Lit>, lit: Lit)
    requires Kept(s, base, done) && lit in s.trail
    ensures Visiting(s, base, done, -lit, 0)
  {
    CK.StartVisiting(PropOf(s), WA.Any(), {}, base, done, lit);
  }

  // One more literal of the trail counts as propagated.
  lemma GrowsDone(s: State, t: State, n: nat)
    requires Grows(s, t) && n < |s.trail|
    ensures |s.trail| <= |t.trail| && -(-s.trail[n]) == s.trail[n]
    ensures LitsOf(t.trail[..n+1]) == LitsOf(s.trail[..n]) + {s.trail[n]}
  {
    assert s.trail <= t.trail;
    assert t.trail[..n+1] == s.trail[..n] + [s.trail[n]];
    LitsOfLast(s.trail[..n], s.trail[n]);
  }

  lemma VisitClause(s: State, base: set<Lit>, done: set<Lit>, fl: Lit, i: nat)
    requires Visiting(s, base, done, fl, i) && i < |WA.WatchList(s.ws, fl)|
    ensures var w := WA.WatchList(s.ws, fl)[i];
            && w.clause < |s.db|
            && var lits := s.db[w.clause].lits;
               && View(s.db)[w.clause] == WA.WClause(lits, !s.db[w.clause].garbage)
               && w.size == |lits| >= 2 && WA.Distinct(lits) && fl in lits && w.blit in lits && w.blit != fl
               && (!s.db[w.clause].garbage ==> fl == lits[0] || fl == lits[1])
               && (|lits| == 2 ==> WA.OthersFalse(lits, w.blit, s.vals))
    ensures -fl in s.vals && fl !in s.vals && fl != 0
  {
    CK.VisitClause(PropOf(s), WA.Any(), {}, base, done, fl, i);
    ListLinked(s.db, s.ws, fl);
    assert Linked(s.db, WA.WatchList(s.ws, fl)[i]);
  }

  // ----- Going over the list of unit clauses.

  ghost predicate UnitsTrueUpTo(db: Db, seen: seq<nat>, vals: set<Lit>) {
    forall k {:trigger k in seen} :: k in seen && k < |db| && LiveUnit(db[k]) ==> db[k].lits[0] in vals
  }

  // Some of the garbage clauses were removed from the list.
  ghost predicate Swept(db: Db, seen: seq<nat>, kept: seq<nat>) {
    && (forall i, j :: 0 <= i < j < |kept| ==> kept[i] < kept[j])
    && (forall k :: k in kept ==> k in seen)
    && (forall k :: k in seen && k < |db| && !db[k].garbage ==> k in kept)
  }

  lemma SweptStep(db: Db, units: seq<nat>, i: nat, kept: seq<nat>)
    requires UnitList(db, units) && i < |units| && Swept(db, units[..i], kept)
    ensures units[i] < |db| && |db[units[i]].lits| == 1 && db[units[i]].lits[0] != 0
    ensures db[units[i]].garbage ==> Swept(db, units[..i+1], kept)
    ensures Swept(db, units[..i+1], kept + [units[i]])
  {
    var c := units[i];
    assert units[..i+1] == units[..i] + [c];
    assert c in units;
    forall j | 0 <= j < |kept| ensures kept[j] < c {
      assert kept[j] in units[..i];
    }
  }

  lemma SweptList(db: Db, units: seq<nat>, i: nat, kept: seq<nat>)
    requires UnitList(db, units) && i <= |units| && Swept(db, units[..i], kept)
    ensures UnitList(db, kept + units[i..])
  {
    var list := kept + units[i..];
    assert units == units[..i] + units[i..];
    forall a, b | 0 <= a < b < |list| ensures list[a] < list[b] {
      if a < |kept| <= b {
        assert kept[a] in units[..i];
      }
    }
    forall k | k in list ensures k in units {
      assert k in kept || k in units[i..];
    }
    forall k: nat | k < |db| && LiveUnit(db[k]) ensures k in list {
      assert k in units[..i] || k in units[i..];
    }
  }

  lemma AllUnitsTrue(db: Db, units: seq<nat>, vals: set<Lit>)
    requires UnitList(db, units) && UnitsTrueUpTo(db, units, vals)
    ensures UnitsTrue(db, vals)
  {
    forall k | 0 <= k < |db| && LiveUnit(db[k]) ensures db[k].lits[0] in vals {
      var n: nat := k;
      assert n in units;
    }
  }

  lemma UnitsTrueStep(db: Db, units: seq<nat>, i: nat, vals: set<Lit>, vals': set<Lit>)
    requires i < |units| && UnitsTrueUpTo(db, units[..i], vals) && vals <= vals'
    requires units[i] < |db| && LiveUnit(db[units[i]]) ==> db[units[i]].lits[0] in vals'
    ensures UnitsTrueUpTo(db, units[..i+1], vals')
  {
    assert units[..i+1] == units[..i] + [units[i]];
  }

  // If the current unit clause has a variable with a preferred one, and the variable is not
  // assigned, then it is the preferred one.
  lemma FirstUnitFree(db: Db, units: seq<nat>, unitReasons: map<nat, nat>, i: nat, vals: set<Lit>, v: nat)
    requires UnitList(db, units) && i < |units| && units[i] < |db| && FirstUnits(db, unitReasons)
    requires UnitsTrueUpTo(db, units[..i], vals)
    requires LiveUnit(db[units[i]]) && Var(db[units[i]].lits[0]) == v && forall l :: l in vals ==> Var(l) != v
    ensures v in unitReasons ==> unitReasons[v] == units[i]
  {
    if v in unitReasons {
      var k := unitReasons[v];
      assert FirstUnit(db, v, k);
      var n :| 0 <= n < |units| && units[n] == k;
      assert db[units[i]] == db[units[i]] && forall j :: 0 <= j < i ==> units[j] in units[..i];
    }
  }

  lemma FreeVariable(vals: set<Lit>, lit: Lit)
    requires WA.Val(vals, lit) == 0
    ensures forall l :: l in vals ==> Var(l) != Var(lit)
  {
  }
}
