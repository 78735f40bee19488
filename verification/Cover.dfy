// Covered clause elimination: assume that all literals of a clause are false, add asymmetric and
// covered literals, and remove the clause if its extension is subsumed or blocked.
module Cover {
  import opened Cnf
  import opened Covering
  import CC = CoveredClauses
  import CK = Checker
  import EX = Extension
  import RE = Reconstruction
  import WA = Watching

  // ----- One visit of a watch, while the candidate is ignored.

  // The fixed literals 'base' and the literals 'done' were propagated.
  ghost predicate Kept(s: WA.Prop, base: set<Lit>, done: set<Lit>) {
    CK.Kept(s, WA.Any(), {}, base, done)
  }

  ghost predicate Visiting(s: WA.Prop, base: set<Lit>, done: set<Lit>, fl: Lit, i: nat) {
    CK.Visiting(s, WA.Any(), {}, base, done, fl, i)
  }

  // A dead clause does not have to be visited.
  lemma VisitIgnored(s: WA.Prop, base: set<Lit>, done: set<Lit>, fl: Lit, i: nat)
    requires Visiting(s, base, done, fl, i) && i < |WA.WatchList(s.ws, fl)|
    requires WA.ClauseAt(s, fl, i) < |s.db| && !s.db[WA.ClauseAt(s, fl, i)].live
    ensures Visiting(s, base, done, fl, i + 1)
  {
    assert Look(0);
    var list := WA.WatchList(s.ws, fl);
    forall k | 0 <= k < |s.db| && s.db[k].live ensures WA.PendingOn(s.db, list, fl, i + 1, s.vals, k) {
      assert WA.PendingOn(s.db, list, fl, i, s.vals, k);
    }
  }

  lemma VisitUnit(s: WA.Prop, base: set<Lit>, done: set<Lit>, fl: Lit, i: nat, u: Lit)
    requires Visiting(s, base, done, fl, i) && i < |WA.WatchList(s.ws, fl)|
    requires WA.ClauseAt(s, fl, i) < |s.db| && u in s.db[WA.ClauseAt(s, fl, i)].lits
    requires WA.OthersFalse(s.db[WA.ClauseAt(s, fl, i)].lits, u, s.vals) && u !in s.vals && -u !in s.vals
    ensures Visiting(s.(trail := s.trail + [u], vals := s.vals + {u}), base, done, fl, i + 1)
  {
    assert Look(0);
    WA.VisitUnit(s, WA.Any(), {}, base, done, fl, i, u, s.(trail := s.trail + [u], vals := s.vals + {u}));
  }

  lemma VisitDropped(s: WA.Prop, base: set<Lit>, done: set<Lit>, fl: Lit, i: nat)
    requires Visiting(s, base, done, fl, i) && i < |WA.WatchList(s.ws, fl)|
    requires WA.ClauseAt(s, fl, i) < |s.db| && !s.db[WA.ClauseAt(s, fl, i)].live
    ensures Visiting(s.(ws := s.ws[fl := WA.Without(WA.WatchList(s.ws, fl), i)]), base, done, fl, i)
  {
    assert Look(0);
    WA.VisitGarbage(s, WA.Any(), {}, base, done, fl, i, s.(ws := s.ws[fl := WA.Without(WA.WatchList(s.ws, fl), i)]));
  }

  lemma VisitBlit(s: WA.Prop, base: set<Lit>, done: set<Lit>, fl: Lit, i: nat, r: Lit)
    requires Visiting(s, base, done, fl, i) && i < |WA.WatchList(s.ws, fl)|
    requires WA.ClauseAt(s, fl, i) < |s.db| && r in s.db[WA.ClauseAt(s, fl, i)].lits && r in s.vals && r != fl
    ensures Visiting(s.(ws := s.ws[fl := WA.WatchList(s.ws, fl)[i := WA.WatchList(s.ws, fl)[i].(blit := r)]]), base, done, fl, i + 1)
  {
    assert Look(0);
    WA.VisitBlit(s, WA.Any(), {}, base, done, fl, i, r,
                 s.(ws := s.ws[fl := WA.WatchList(s.ws, fl)[i := WA.WatchList(s.ws, fl)[i].(blit := r)]]));
  }

  lemma VisitOrdered(s: WA.Prop, base: set<Lit>, done: set<Lit>, fl: Lit, i: nat, k: nat, other: Lit)
    requires Visiting(s, base, done, fl, i) && k < |s.db| && |s.db[k].lits| >= 2 && WA.Distinct(s.db[k].lits)
    requires {s.db[k].lits[0], s.db[k].lits[1]} == {other, fl} && other != fl
    ensures var db' := s.db[k := s.db[k].(lits := CK.PairFirst(s.db[k].lits, other, fl))];
            Visiting(s.(db := db'), base, done, fl, i) && CK.SameClauses(s.db, db') && WA.Distinct(db'[k].lits)
  {
    CK.PairRearranged(s.db, k, other, fl);
    assert Look(0);
    WA.VisitSwap(s, WA.Any(), {}, base, done, fl, i, k,
                 s.(db := s.db[k := s.db[k].(lits := CK.PairFirst(s.db[k].lits, other, fl))]));
  }

  lemma VisitMoved(s: WA.Prop, base: set<Lit>, done: set<Lit>, fl: Lit, i: nat, n: nat, t: WA.Prop)
    requires Visiting(s, base, done, fl, i) && i < |WA.WatchList(s.ws, fl)|
    requires WA.ClauseAt(s, fl, i) < |s.db| && s.db[WA.ClauseAt(s, fl, i)].live
    requires var lits := s.db[WA.ClauseAt(s, fl, i)].lits;
             2 <= n < |lits| && WA.Distinct(lits) && lits[1] == fl && -lits[n] !in s.vals
    requires var k := WA.ClauseAt(s, fl, i);
             var lits := s.db[k].lits;
             var ws := s.ws[fl := WA.Without(WA.WatchList(s.ws, fl), i)];
             t == s.(db := s.db[k := s.db[k].(lits := CK.Exchange(lits, n))],
                     ws := ws[lits[n] := WA.WatchList(ws, lits[n]) + [WA.Watch(fl, |lits|, k)]])
    ensures Visiting(t, base, done, fl, i) && CK.SameClauses(s.db, t.db)
    ensures |WA.WatchList(t.ws, fl)| == |WA.WatchList(s.ws, fl)| - 1
  {
    var k := WA.ClauseAt(s, fl, i);
    var lits := s.db[k].lits;
    var r := lits[n];
    assert lits[0] != r && lits[0] != fl && r != fl;
    CK.ExchangeRearranged(s.db, k, n);
    CK.SameClausesUpdate(s.db, t.db, k, lits[0], r);
    assert WA.Moved(s.db, s.ws, fl, i, lits[0], r, t.db, t.ws);
    assert Look(0);
    WA.VisitMove(s, WA.Any(), {}, base, done, fl, i, lits[0], r, t);
  }

  // ----- What holds while literals are added.

  function Negated(s: seq<Lit>): seq<Lit> {
    seq(|s|, i requires 0 <= i < |s| => -s[i])
  }

  lemma NegatedMore(s: seq<Lit>, l: Lit)
    ensures Negated(s + [l]) == Negated(s) + [-l]
  {
  }

  // The values are those of the fixed literals and of the added literals, which are false.
  // They are false in every model that falsifies the covered literals.
  ghost predicate Adding(f: Formula, root: seq<Lit>, trail: seq<Lit>, vals: set<Lit>, added: seq<Lit>, covered: seq<Lit>) {
    forall u {:trigger Look(u)} :: Look(u) ==>
      && trail == root + Negated(added) && CC.Forced(f, LitsOf(covered), Falses(vals))
      && forall l :: l in covered ==> l != 0 && -l in vals && -l !in root && l !in root
  }

  lemma AddAsymmetric(f: Formula, root: seq<Lit>, trail: seq<Lit>, vals: set<Lit>, added: seq<Lit>, covered: seq<Lit>,
                      lits: seq<Lit>, u: Lit)
    requires Adding(f, root, trail, vals, added, covered) && LitsOf(lits) in f && 0 !in lits
    requires u in lits && WA.OthersFalse(lits, u, vals)
    ensures Adding(f, root, trail + [u], vals + {u}, added + [-u], covered)
  {
    assert Look(0);
    ForcedAsymmetric(f, LitsOf(covered), vals, lits, u);
    NegatedMore(added, -u);
    assert -(-u) == u && root + (Negated(added) + [u]) == trail + [u];
  }

  lemma AddedSubsumed(f: Formula, root: seq<Lit>, trail: seq<Lit>, vals: set<Lit>, added: seq<Lit>, covered: seq<Lit>, lits: seq<Lit>)
    requires Adding(f, root, trail, vals, added, covered) && LitsOf(lits) in f
    requires forall l :: l in lits ==> -l in vals
    ensures Entails(f, LitsOf(covered))
  {
    assert Look(0);
    ForcedSubsumed(f, LitsOf(covered), vals, lits);
  }

  // Literals of clauses whose variable is not assigned.
  function Free(db: WA.Db, vals: set<Lit>): set<Lit> {
    set l | l in CK.Universe(db) && l !in vals && -l !in vals
  }

  lemma LessFree(db: WA.Db, vals: set<Lit>, k: nat, l: Lit, u: Lit)
    requires k < |db| && l in db[k].lits && l !in vals && -l !in vals && (u == l || u == -l)
    ensures |Free(db, vals + {u})| < |Free(db, vals)|
  {
    assert l in Free(db, vals) && l !in Free(db, vals + {u}) by { assert -(-l) == l; }
    FreeSubset(Free(db, vals + {u}), Free(db, vals), l);
  }

  lemma FreeSubset(a: set<Lit>, b: set<Lit>, l: Lit)
    requires a <= b && l in b && l !in a
    ensures |a| < |b|
  {
    assert a <= b - {l};
    SmallerSet(a, b - {l});
  }

  lemma SmallerSet(a: set<Lit>, b: set<Lit>)
    requires a <= b
    ensures |a| <= |b|
  {
    assert b == a + (b - a) && a * (b - a) == {};
  }

  lemma SameFree(db: WA.Db, db': WA.Db, vals: set<Lit>)
    requires CK.SameClauses(db, db')
    ensures Free(db', vals) == Free(db, vals)
  {
    CK.SameUniverse(db, db');
  }

  // Clauses keep their literals and the saved positions stay in range.
  ghost predicate SavedOk(db: WA.Db, saved: seq<nat>) {
    |saved| == |db| && forall k {:trigger saved[k]} :: 0 <= k < |db| && |db[k].lits| > 2 ==> 2 <= saved[k] <= |db[k].lits|
  }

  lemma IgnoreUpdate(db: WA.Db, c: nat, k: nat, lits: seq<Lit>)
    requires k < |db| && k != c
    ensures Ignore(db[k := db[k].(lits := lits)], c) == Ignore(db, c)[k := Ignore(db, c)[k].(lits := lits)]
    ensures CK.SameClauses(Ignore(db, c), Ignore(db[k := db[k].(lits := lits)], c)) ==>
              CK.SameClauses(db, db[k := db[k].(lits := lits)])
  {
    var db' := db[k := db[k].(lits := lits)];
    if CK.SameClauses(Ignore(db, c), Ignore(db', c)) {
      forall j | 0 <= j < |db| ensures LitsOf(db'[j].lits) == LitsOf(db[j].lits) && db'[j].live == db[j].live {
        assert LitsOf(Ignore(db', c)[j].lits) == LitsOf(Ignore(db, c)[j].lits);
      }
    }
  }

  datatype State = State(db: WA.Db, ws: WA.Watchers, trail: seq<Lit>, vals: set<Lit>, added: seq<Lit>, covered: seq<Lit>,
                         base: set<Lit>, done: set<Lit>)

  function PropOf(s: State, c: nat): WA.Prop {
    WA.Prop(Ignore(s.db, c), s.ws, s.trail, s.vals)
  }

  ghost predicate Additions(s: State, c: nat, root: seq<Lit>, f: Formula) {
    c < |s.db| && Remaining(s.db, c, root) == f && Adding(f, root, s.trail, s.vals, s.added, s.covered)
  }

  ghost predicate Idle(s: State, c: nat, root: seq<Lit>, f: Formula) {
    Kept(PropOf(s, c), s.base, s.done) && Additions(s, c, root, f)
  }

  // While the watches of the false literal 'fl' are visited.
  ghost predicate Busy(s: State, c: nat, root: seq<Lit>, f: Formula, fl: Lit, i: nat) {
    Visiting(PropOf(s, c), s.base, s.done, fl, i) && Additions(s, c, root, f)
  }

  // The watches of a clause stay in the same lists.
  ghost predicate SameLists(ws: WA.Watchers, ws': WA.Watchers, c: nat) {
    forall l {:trigger WA.WatchList(ws', l)} :: WA.Has(WA.WatchList(ws', l), c) <==> WA.Has(WA.WatchList(ws, l), c)
  }

  // What asymmetric propagation does; the candidate itself is not touched.
  ghost predicate Grown(s: State, t: State, c: nat) {
    forall u {:trigger Peek(u)} :: Peek(u) ==> HasGrown(s, t, c)
  }

  predicate Peek(u: int) { true }

  ghost predicate HasGrown(s: State, t: State, c: nat) {
    && CK.SameClauses(s.db, t.db) && s.added <= t.added && t.covered == s.covered
    && (t.added == s.added || |Free(t.db, t.vals)| < |Free(s.db, s.vals)|) && |Free(t.db, t.vals)| <= |Free(s.db, s.vals)|
    && (c < |s.db| ==> t.db[c] == s.db[c]) && SameLists(s.ws, t.ws, c)
  }

  lemma GrownReflexive(s: State, c: nat)
    ensures Grown(s, s, c)
  {
    CK.SameClausesReflexive(s.db);
  }

  lemma SameListsTransitive(a: WA.Watchers, b: WA.Watchers, d: WA.Watchers, c: nat)
    requires SameLists(a, b, c) && SameLists(b, d, c)
    ensures SameLists(a, d, c)
  {
    forall l ensures WA.Has(WA.WatchList(d, l), c) <==> WA.Has(WA.WatchList(a, l), c) {
      assert WA.Has(WA.WatchList(b, l), c) <==> WA.Has(WA.WatchList(a, l), c);
    }
  }

  lemma GrownTransitive(s: State, t: State, u: State, c: nat)
    requires Grown(s, t, c) && Grown(t, u, c)
    ensures Grown(s, u, c)
  {
    assert Peek(0);
    CK.SameClausesTransitive(s.db, t.db, u.db);
    SameListsTransitive(s.ws, t.ws, u.ws, c);
  }

  // Only one list changes.
  lemma SameListsUpdate(ws: WA.Watchers, l: Lit, list: seq<WA.Watch>, c: nat)
    requires WA.Has(list, c) <==> WA.Has(WA.WatchList(ws, l), c)
    ensures SameLists(ws, ws[l := list], c)
  {
  }

  lemma HasWithout(list: seq<WA.Watch>, i: nat, c: nat)
    requires i < |list| && list[i].clause != c
    ensures WA.Has(WA.Without(list, i), c) <==> WA.Has(list, c)
  {
    var r := WA.Without(list, i);
    if j :| 0 <= j < |list| && list[j].clause == c {
      assert r[if j < i then j else j - 1].clause == c;
    }
    if j :| 0 <= j < |r| && r[j].clause == c {
      assert list[if j < i then j else j + 1].clause == c;
    }
  }

  lemma HasBlit(list: seq<WA.Watch>, i: nat, r: Lit, c: nat)
    requires i < |list|
    ensures WA.Has(list[i := list[i].(blit := r)], c) <==> WA.Has(list, c)
  {
    var list' := list[i := list[i].(blit := r)];
    if j :| 0 <= j < |list| && list[j].clause == c {
      assert list'[j].clause == c;
    }
    if j :| 0 <= j < |list'| && list'[j].clause == c {
      assert list[j].clause == c;
    }
  }

  lemma HasMore(list: seq<WA.Watch>, w: WA.Watch, c: nat)
    requires w.clause != c
    ensures WA.Has(list + [w], c) <==> WA.Has(list, c)
  {
    var r := list + [w];
    if j :| 0 <= j < |list| && list[j].clause == c {
      assert r[j].clause == c;
    }
    if j :| 0 <= j < |r| && r[j].clause == c {
      assert list[j].clause == c;
    }
  }

  // The asymmetric literal addition of the negation of 'u'.
  function Added(s: State, u: Lit): State {
    s.(trail := s.trail + [u], vals := s.vals + {u}, added := s.added + [-u])
  }

  lemma BusyUnit(s: State, c: nat, root: seq<Lit>, f: Formula, fl: Lit, i: nat, k: nat, u: Lit)
    requires Busy(s, c, root, f, fl, i) && i < |WA.WatchList(s.ws, fl)| && k == WA.ClauseAt(PropOf(s, c), fl, i)
    requires Remains(s.db, c, k) && WA.Distinct(s.db[k].lits) && u in s.db[k].lits && WA.OthersFalse(s.db[k].lits, u, s.vals)
    requires u !in s.vals && -u !in s.vals
    ensures Busy(Added(s, u), c, root, f, fl, i + 1) && Grown(s, Added(s, u), c)
  {
    InRemaining(s.db, c, root, k);
    LessFree(s.db, s.vals, k, u, u);
    VisitUnit(PropOf(s, c), s.base, s.done, fl, i, u);
    AddAsymmetric(f, root, s.trail, s.vals, s.added, s.covered, s.db[k].lits, u);
    CK.SameClausesReflexive(s.db);
  }

  lemma BusySubsumed(s: State, c: nat, root: seq<Lit>, f: Formula, fl: Lit, i: nat, k: nat)
    requires Busy(s, c, root, f, fl, i) && Remains(s.db, c, k) && forall l :: l in s.db[k].lits ==> -l in s.vals
    ensures Idle(s, c, root, f) && Entails(f, LitsOf(s.covered))
  {
    InRemaining(s.db, c, root, k);
    AddedSubsumed(f, root, s.trail, s.vals, s.added, s.covered, s.db[k].lits);
    assert Look(0);
  }

  lemma BusyClause(s: State, c: nat, root: seq<Lit>, f: Formula, fl: Lit, i: nat)
    requires Busy(s, c, root, f, fl, i) && i < |WA.WatchList(s.ws, fl)|
    ensures var w := WA.WatchList(s.ws, fl)[i];
            && w.clause < |s.db|
            && var lits := s.db[w.clause].lits;
               && w.size == |lits| >= 2 && WA.Distinct(lits) && fl in lits && w.blit in lits && w.blit != fl
               && (s.db[w.clause].live && w.clause != c ==> fl == lits[0] || fl == lits[1])
               && (|lits| == 2 ==> WA.OthersFalse(lits, w.blit, s.vals))
               && Ignore(s.db, c)[w.clause] == WA.WClause(lits, s.db[w.clause].live && w.clause != c)
    ensures -fl in s.vals && fl !in s.vals && fl != 0
  {
    CK.VisitClause(PropOf(s, c), WA.Any(), {}, s.base, s.done, fl, i);
  }

  lemma BusySkip(s: State, c: nat, root: seq<Lit>, f: Formula, fl: Lit, i: nat)
    requires Busy(s, c, root, f, fl, i) && i < |WA.WatchList(s.ws, fl)|
    requires WA.WatchList(s.ws, fl)[i].clause == c
    ensures Busy(s, c, root, f, fl, i + 1)
  {
    VisitIgnored(PropOf(s, c), s.base, s.done, fl, i);
  }

  lemma BusyTrue(s: State, c: nat, root: seq<Lit>, f: Formula, fl: Lit, i: nat, l: Lit)
    requires Busy(s, c, root, f, fl, i) && i < |WA.WatchList(s.ws, fl)|
    requires WA.WatchList(s.ws, fl)[i].clause < |s.db| && l in s.db[WA.WatchList(s.ws, fl)[i].clause].lits && l in s.vals
    ensures Busy(s, c, root, f, fl, i + 1)
  {
    CK.VisitTrue(PropOf(s, c), WA.Any(), {}, s.base, s.done, fl, i, l);
  }

  lemma BusyDropped(s: State, c: nat, root: seq<Lit>, f: Formula, fl: Lit, i: nat)
    requires Busy(s, c, root, f, fl, i) && i < |WA.WatchList(s.ws, fl)|
    requires WA.WatchList(s.ws, fl)[i].clause < |s.db| && !s.db[WA.WatchList(s.ws, fl)[i].clause].live
    requires WA.WatchList(s.ws, fl)[i].clause != c
    ensures var t := s.(ws := s.ws[fl := WA.Without(WA.WatchList(s.ws, fl), i)]);
            Busy(t, c, root, f, fl, i) && Grown(s, t, c)
  {
    VisitDropped(PropOf(s, c), s.base, s.done, fl, i);
    HasWithout(WA.WatchList(s.ws, fl), i, c);
    SameListsUpdate(s.ws, fl, WA.Without(WA.WatchList(s.ws, fl), i), c);
    CK.SameClausesReflexive(s.db);
  }

  lemma BusyBlit(s: State, c: nat, root: seq<Lit>, f: Formula, fl: Lit, i: nat, r: Lit)
    requires Busy(s, c, root, f, fl, i) && i < |WA.WatchList(s.ws, fl)|
    requires var k := WA.WatchList(s.ws, fl)[i].clause; k < |s.db| && r in s.db[k].lits && r in s.vals && r != fl
    ensures var t := s.(ws := s.ws[fl := WA.WatchList(s.ws, fl)[i := WA.WatchList(s.ws, fl)[i].(blit := r)]]);
            Busy(t, c, root, f, fl, i + 1) && Grown(s, t, c)
  {
    VisitBlit(PropOf(s, c), s.base, s.done, fl, i, r);
    HasBlit(WA.WatchList(s.ws, fl), i, r, c);
    SameListsUpdate(s.ws, fl, WA.WatchList(s.ws, fl)[i := WA.WatchList(s.ws, fl)[i].(blit := r)], c);
    CK.SameClausesReflexive(s.db);
  }

  lemma BusyOrdered(s: State, c: nat, root: seq<Lit>, f: Formula, fl: Lit, i: nat, k: nat, other: Lit)
    requires Busy(s, c, root, f, fl, i) && Remains(s.db, c, k) && |s.db[k].lits| >= 2 && WA.Distinct(s.db[k].lits)
    requires {s.db[k].lits[0], s.db[k].lits[1]} == {other, fl} && other != fl
    ensures var t := s.(db := s.db[k := s.db[k].(lits := CK.PairFirst(s.db[k].lits, other, fl))]);
            Busy(t, c, root, f, fl, i) && Grown(s, t, c) && WA.Distinct(t.db[k].lits)
  {
    var t := s.(db := s.db[k := s.db[k].(lits := CK.PairFirst(s.db[k].lits, other, fl))]);
    VisitOrdered(PropOf(s, c), s.base, s.done, fl, i, k, other);
    IgnoreUpdate(s.db, c, k, t.db[k].lits);
    RemainingSame(s.db, t.db, c, root);
    SameFree(s.db, t.db, s.vals);
  }

  lemma BusyMoved(s: State, c: nat, root: seq<Lit>, f: Formula, fl: Lit, i: nat, k: nat, n: nat, t: State)
    requires Busy(s, c, root, f, fl, i) && i < |WA.WatchList(s.ws, fl)| && k == WA.WatchList(s.ws, fl)[i].clause
    requires Remains(s.db, c, k) && WA.Distinct(s.db[k].lits)
    requires var lits := s.db[k].lits; 2 <= n < |lits| && lits[1] == fl && -lits[n] !in s.vals
    requires var lits := s.db[k].lits;
             var ws := s.ws[fl := WA.Without(WA.WatchList(s.ws, fl), i)];
             t == s.(db := s.db[k := s.db[k].(lits := CK.Exchange(lits, n))],
                     ws := ws[lits[n] := WA.WatchList(ws, lits[n]) + [WA.Watch(fl, |lits|, k)]])
    ensures Busy(t, c, root, f, fl, i) && Grown(s, t, c) && |WA.WatchList(t.ws, fl)| == |WA.WatchList(s.ws, fl)| - 1
  {
    MovedLists(s, c, fl, i, k, n, t);
    IgnoreUpdate(s.db, c, k, t.db[k].lits);
    VisitMoved(PropOf(s, c), s.base, s.done, fl, i, n, PropOf(t, c));
    RemainingSame(s.db, t.db, c, root);
    SameFree(s.db, t.db, s.vals);
  }

  lemma MovedLists(s: State, c: nat, fl: Lit, i: nat, k: nat, n: nat, t: State)
    requires i < |WA.WatchList(s.ws, fl)| && k == WA.WatchList(s.ws, fl)[i].clause && k < |s.db| && k != c
    requires var lits := s.db[k].lits;
             n < |lits| &&
             var ws := s.ws[fl := WA.Without(WA.WatchList(s.ws, fl), i)];
             t.ws == ws[lits[n] := WA.WatchList(ws, lits[n]) + [WA.Watch(fl, |lits|, k)]]
    ensures SameLists(s.ws, t.ws, c)
  {
    var lits := s.db[k].lits;
    var ws := s.ws[fl := WA.Without(WA.WatchList(s.ws, fl), i)];
    HasWithout(WA.WatchList(s.ws, fl), i, c);
    SameListsUpdate(s.ws, fl, WA.Without(WA.WatchList(s.ws, fl), i), c);
    HasMore(WA.WatchList(ws, lits[n]), WA.Watch(fl, |lits|, k), c);
    SameListsUpdate(ws, lits[n], t.ws[lits[n]], c);
    SameListsTransitive(s.ws, ws, t.ws, c);
  }

  lemma BusyStart(s: State, c: nat, root: seq<Lit>, f: Formula, l: Lit)
    requires Idle(s, c, root, f) && -l in s.trail
    ensures Busy(s, c, root, f, l, 0)
  {
    CK.StartVisiting(PropOf(s, c), WA.Any(), {}, s.base, s.done, -l);
    assert -(-l) == l;
  }

  lemma BusyEnd(s: State, c: nat, root: seq<Lit>, f: Formula, fl: Lit, i: nat)
    requires Busy(s, c, root, f, fl, i) && |WA.WatchList(s.ws, fl)| <= i
    ensures Idle(s.(done := s.done + {-fl}), c, root, f)
  {
    CK.EndVisiting(PropOf(s, c), WA.Any(), {}, s.base, s.done, fl, i);
  }

  lemma GrownDone(s: State, t: State, c: nat, done: set<Lit>)
    requires Grown(s, t, c)
    ensures Grown(s, t.(done := done), c)
  {
    assert Peek(0);
  }

  class Coveror {
    var db: WA.Db                    // irredundant clauses
    var ws: WA.Watchers
    var occs: map<Lit, seq<nat>>     // full occurrence lists
    var saved: seq<nat>              // saved replacement positions
    var frozen: set<nat>
    const root: seq<Lit>             // fixed literals
    var trail: seq<Lit>
    var vals: set<Lit>

    var added: seq<Lit>              // acts as trail
    var extend: seq<int>             // private extension stack
    var covered: seq<Lit>            // clause literals or added as covered literals
    var nextAdded: nat
    var nextCovered: nat
    ghost var pushes: seq<Push>
    ghost var first: seq<Lit>        // the covered literals at the start
    ghost const propagated: set<Lit> // fixed literals that were propagated over the watches
    ghost var done: set<Lit>         // literals propagated so far

    var extension: seq<int>          // the extension stack of the solver
    var clauseId: nat

    // 'extension' and 'clauseId' belong to the solver and are continued.
    constructor (db: WA.Db, ws: WA.Watchers, occs: map<Lit, seq<nat>>, saved: seq<nat>, frozen: set<nat>, root: seq<Lit>,
                 extension: seq<int>, clauseId: nat, ghost propagated: set<Lit>)
      requires Ready(db, ws, root, propagated) && SavedOk(db, saved) && OccsOk(db, occs, frozen)
      ensures Valid() && this.db == db && this.root == root && this.frozen == frozen && this.extension == extension
      ensures this.propagated == propagated
    {
      this.db, this.ws, this.occs, this.saved, this.frozen, this.root := db, ws, occs, saved, frozen, root;
      this.extension, this.clauseId := extension, clauseId;
      trail, vals, added, extend, covered, nextAdded, nextCovered := root, LitsOf(root), [], [], [], 0, 0;
      pushes, first, done := [], [], propagated;
      this.propagated := propagated;
    }

    ghost function Now(): State
      reads this
    {
      State(db, ws, trail, vals, added, covered, propagated, done)
    }

    method AsymmetricLiteralAddition(lit: Lit)
      modifies `trail, `vals, `added, `nextCovered
      ensures Now() == old(Now()).(trail := old(trail) + [-lit], vals := old(vals) + {-lit}, added := old(added) + [lit])
      ensures nextCovered == 0
    {
      vals := vals + {-lit};
      trail := trail + [-lit];
      added := added + [lit];
      nextCovered := 0;
    }

    // Assign a literal that is implied to be true.
    method AddTrue(other: Lit)
      modifies `trail, `vals, `added, `nextCovered
      ensures Now() == Added(old(Now()), other) && nextCovered == 0
    {
      assert -(-other) == other;
      AsymmetricLiteralAddition(-other);
    }

    // Search for a literal that is not false, from the saved position on and then before it.
    method FindReplacement(lits: seq<Lit>, middle: nat) returns (k: nat)
      requires |lits| > 2 && 2 <= middle <= |lits|
      ensures 2 <= k <= |lits|
      ensures if k < |lits| && WA.Val(vals, lits[k]) >= 0 then true
              else forall j :: 2 <= j < |lits| ==> -lits[j] in vals && lits[j] !in vals
    {
      k := middle;
      while k < |lits| && WA.Val(vals, lits[k]) < 0
        invariant middle <= k <= |lits|
        invariant forall j :: middle <= j < k ==> -lits[j] in vals && lits[j] !in vals
      {
        k := k + 1;
      }
      if k == |lits| {
        k := 2;
        while k < middle && WA.Val(vals, lits[k]) < 0
          invariant 2 <= k <= middle
          invariant forall j :: 2 <= j < k ==> -lits[j] in vals && lits[j] !in vals
        {
          k := k + 1;
        }
      }
    }

    // All literals of the visited clause but 'other' are false, and 'other' is not true.
    method VisitLast(lit: Lit, i: nat, k: nat, other: Lit, c: nat, ghost f: Formula) returns (next: nat, subsumed: bool)
      requires Busy(Now(), c, root, f, lit, i) && i < |WA.WatchList(ws, lit)| && k == WA.WatchList(ws, lit)[i].clause
      requires Remains(db, c, k) && WA.Distinct(db[k].lits)
      requires other in db[k].lits && WA.OthersFalse(db[k].lits, other, vals) && other !in vals
      modifies `trail, `vals, `added, `nextCovered
      ensures old(nextCovered) == 0 ==> nextCovered == 0
      ensures Grown(old(Now()), Now(), c)
      ensures subsumed ==> Idle(Now(), c, root, f) && Entails(f, LitsOf(covered))
      ensures !subsumed ==> Busy(Now(), c, root, f, lit, next) && next == i + 1
    {
      next := i + 1;
      subsumed := WA.Val(vals, other) < 0;
      if subsumed {
        GrownReflexive(Now(), c);
        BusySubsumed(Now(), c, root, f, lit, i, k);
      } else {
        BusyUnit(Now(), c, root, f, lit, i, k, other);
        AddTrue(other);
      }
    }

    // A clause with more than two literals, whose false watch is put second.
    method VisitLong(lit: Lit, i: nat, k: nat, c: nat, ghost f: Formula) returns (next: nat, subsumed: bool)
      requires Busy(Now(), c, root, f, lit, i) && i < |WA.WatchList(ws, lit)| && k == WA.WatchList(ws, lit)[i].clause
      requires Remains(db, c, k) && WA.Distinct(db[k].lits) && |db[k].lits| > 2 && SavedOk(db, saved)
      modifies `db, `ws, `saved, `trail, `vals, `added, `nextCovered
      ensures old(nextCovered) == 0 ==> nextCovered == 0
      ensures Grown(old(Now()), Now(), c) && SavedOk(db, saved)
      ensures subsumed ==> Idle(Now(), c, root, f) && Entails(f, LitsOf(covered))
      ensures !subsumed ==> Busy(Now(), c, root, f, lit, next)
      ensures !subsumed ==> next <= |WA.WatchList(ws, lit)| && |WA.WatchList(ws, lit)| - next < |WA.WatchList(old(ws), lit)| - i
    {
      BusyClause(Now(), c, root, f, lit, i);
      ghost var s := Now();
      var other := if db[k].lits[0] == lit then db[k].lits[1] else db[k].lits[0];
      db := db[k := db[k].(lits := db[k].lits[0 := other][1 := lit])];
      BusyOrdered(s, c, root, f, lit, i, k, other);
      ghost var mid := Now();
      if WA.Val(vals, other) > 0 {
        next, subsumed := i + 1, false;
        assert db[k].lits[0] == other && ws == s.ws;
        BusyBlit(mid, c, root, f, lit, i, other);
        ws := ws[lit := ws[lit][i := ws[lit][i].(blit := other)]];
        return;
      }
      next, subsumed := VisitPair(lit, i, k, c, f);
      GrownTransitive(s, mid, Now(), c);
    }

    // The first watch is not true.
    method VisitPair(lit: Lit, i: nat, k: nat, c: nat, ghost f: Formula) returns (next: nat, subsumed: bool)
      requires Busy(Now(), c, root, f, lit, i) && i < |WA.WatchList(ws, lit)| && k == WA.WatchList(ws, lit)[i].clause
      requires Remains(db, c, k) && WA.Distinct(db[k].lits) && |db[k].lits| > 2 && SavedOk(db, saved)
      requires db[k].lits[1] == lit && db[k].lits[0] !in vals && -lit in vals
      modifies `db, `ws, `saved, `trail, `vals, `added, `nextCovered
      ensures old(nextCovered) == 0 ==> nextCovered == 0
      ensures Grown(old(Now()), Now(), c) && SavedOk(db, saved)
      ensures subsumed ==> Idle(Now(), c, root, f) && Entails(f, LitsOf(covered))
      ensures !subsumed ==> Busy(Now(), c, root, f, lit, next)
      ensures !subsumed ==> next <= |WA.WatchList(ws, lit)| && |WA.WatchList(ws, lit)| - next < |WA.WatchList(old(ws), lit)| - i
    {
      ghost var s := Now();
      var lits := db[k].lits;
      var n := FindReplacement(lits, saved[k]);
      saved := saved[k := n];
      GrownReflexive(s, c);
      if n < |lits| && WA.Val(vals, lits[n]) > 0 {
        next, subsumed := i + 1, false;
        assert lits[n] != lits[1];
        BusyBlit(s, c, root, f, lit, i, lits[n]);
        ws := ws[lit := ws[lit][i := ws[lit][i].(blit := lits[n])]];
      } else if n < |lits| && WA.Val(vals, lits[n]) == 0 {
        next, subsumed := i, false;
        ws := ws[lit := WA.Without(ws[lit], i)];
        ws := ws[lits[n] := WA.WatchList(ws, lits[n]) + [WA.Watch(lit, |lits|, k)]];
        db := db[k := db[k].(lits := lits[1 := lits[n]][n := lit])];
        BusyMoved(s, c, root, f, lit, i, k, n, Now());
      } else {
        CK.RestFalse(lits, vals, lits[0], lit);
        next, subsumed := VisitLast(lit, i, k, lits[0], c, f);
      }
    }

    // Visit one watch of a false literal; the candidate clause is ignored.
    method Visit(lit: Lit, i: nat, c: nat, ghost f: Formula) returns (next: nat, subsumed: bool)
      requires Busy(Now(), c, root, f, lit, i) && i < |WA.WatchList(ws, lit)| && SavedOk(db, saved)
      modifies `db, `ws, `saved, `trail, `vals, `added, `nextCovered
      ensures old(nextCovered) == 0 ==> nextCovered == 0
      ensures Grown(old(Now()), Now(), c) && SavedOk(db, saved)
      ensures subsumed ==> Idle(Now(), c, root, f) && Entails(f, LitsOf(covered))
      ensures !subsumed ==> Busy(Now(), c, root, f, lit, next)
      ensures !subsumed ==> next <= |WA.WatchList(ws, lit)| && |WA.WatchList(ws, lit)| - next < |WA.WatchList(old(ws), lit)| - i
    {
      BusyClause(Now(), c, root, f, lit, i);
      GrownReflexive(Now(), c);
      var w := ws[lit][i];
      next, subsumed := i + 1, false;
      if w.clause == c {
        BusySkip(Now(), c, root, f, lit, i);
      } else if WA.Val(vals, w.blit) > 0 {
        BusyTrue(Now(), c, root, f, lit, i, w.blit);
      } else if !db[w.clause].live {
        next := i;
        BusyDropped(Now(), c, root, f, lit, i);
        ws := ws[lit := WA.Without(ws[lit], i)];
      } else if w.size == 2 {
        next, subsumed := VisitLast(lit, i, w.clause, w.blit, c, f);
      } else {
        next, subsumed := VisitLong(lit, i, w.clause, c, f);
      }
    }

    // Add all literals that are implied to be false by clauses watched by 'lit'.
    method CoverPropagateAsymmetric(lit: Lit, c: nat, ghost f: Formula) returns (subsumed: bool)
      requires Idle(Now(), c, root, f) && -lit in trail && SavedOk(db, saved)
      modifies `db, `ws, `saved, `trail, `vals, `added, `nextCovered, `done
      ensures Idle(Now(), c, root, f) && Grown(old(Now()), Now(), c) && SavedOk(db, saved)
      ensures subsumed ==> Entails(f, LitsOf(covered))
      ensures old(nextCovered) == 0 ==> nextCovered == 0
      ensures !subsumed ==> done == old(done) + {-lit}
    {
      GrownReflexive(Now(), c);
      BusyStart(Now(), c, root, f, lit);
      subsumed := false;
      var i: nat := 0;
      while !subsumed && i < |WA.WatchList(ws, lit)|
        invariant Grown(old(Now()), Now(), c) && SavedOk(db, saved) && done == old(done)
        invariant old(nextCovered) == 0 ==> nextCovered == 0
        invariant subsumed ==> Idle(Now(), c, root, f) && Entails(f, LitsOf(covered))
        invariant !subsumed ==> Busy(Now(), c, root, f, lit, i)
        decreases !subsumed, |WA.WatchList(ws, lit)| - i
      {
        ghost var mid := Now();
        i, subsumed := Visit(lit, i, c, f);
        GrownTransitive(old(Now()), mid, Now(), c);
      }
      if !subsumed {
        BusyEnd(Now(), c, root, f, lit, i);
        GrownDone(old(Now()), Now(), c, done + {-lit});
        done := done + {-lit};
      }
    }

    // Is a literal other than the negated one true?
    method ClauseBlocked(lits: seq<Lit>, lit: Lit) returns (blocked: bool)
      ensures blocked <==> Blocked(lits, lit, vals)
    {
      for i := 0 to |lits|
        invariant forall j :: 0 <= j < i ==> lits[j] == -lit || lits[j] !in vals
      {
        if lits[i] == -lit { continue; }
        if WA.Val(vals, lits[i]) > 0 {
          return true;
        }
      }
      blocked := false;
    }

    // The unassigned literals of the first resolution candidate.
    method FirstCandidate(lits: seq<Lit>, lit: Lit) returns (inter: seq<Lit>)
      requires WA.Distinct(lits)
      ensures WA.Distinct(inter)
      ensures forall l {:trigger l in inter} :: l in inter <==> l in lits && l != -lit && WA.Val(vals, l) == 0
    {
      inter := [];
      for i := 0 to |lits|
        invariant forall l {:trigger l in inter} :: l in inter <==> l in lits[..i] && l != -lit && WA.Val(vals, l) == 0
        invariant forall a, b :: 0 <= a < b < |inter| ==> inter[a] != inter[b]
      {
        assert lits[..i+1] == lits[..i] + [lits[i]] && lits[i] !in lits[..i];
        if lits[i] != -lit && WA.Val(vals, lits[i]) == 0 {
          assert forall a :: 0 <= a < |inter| ==> inter[a] in inter;
          inter := inter + [lits[i]];
        }
      }
      assert lits[..|lits|] == lits;
      SubsetDistinct(inter, lits);
    }

    // Unmark the literals of another candidate, keep what is unmarked and mark it again.
    method IntersectWith(inter: seq<Lit>, lits: seq<Lit>, lit: Lit) returns (r: seq<Lit>)
      requires WA.Distinct(inter) && forall l :: l in inter ==> l != -lit && WA.Val(vals, l) == 0
      ensures WA.Distinct(r) && forall l {:trigger l in r} :: l in r <==> l in inter && l in lits
    {
      var marks := UnmarkLiterals(inter, lits, lit);
      r := [];
      for i := 0 to |inter|
        invariant forall l {:trigger l in r} :: l in r <==> l in inter[..i] && l in lits
        invariant forall a, b :: 0 <= a < b < |r| ==> r[a] != r[b]
        invariant forall l :: l in inter[i..] ==> (l in marks <==> l !in lits)
      {
        var other := inter[i];
        assert inter[..i+1] == inter[..i] + [other] && other !in inter[..i];
        assert other in inter[i..] && forall l :: l in inter[i+1..] ==> l in inter[i..] && l != other;
        if other in marks {
          marks := marks - {other};
        } else {
          assert forall a :: 0 <= a < |r| ==> r[a] in r;
          r := r + [other];
          marks := marks + {other};
        }
      }
      assert inter[..|inter|] == inter;
      SubsetDistinct(r, inter);
    }

    // The literals that the candidate does not have stay marked.
    method UnmarkLiterals(inter: seq<Lit>, lits: seq<Lit>, lit: Lit) returns (marks: set<Lit>)
      requires forall l :: l in inter ==> l != -lit && WA.Val(vals, l) == 0
      ensures forall l :: l in inter ==> (l in marks <==> l !in lits)
    {
      marks := LitsOf(inter);
      for i := 0 to |lits|
        invariant forall l :: l in inter ==> (l in marks <==> l !in lits[..i])
      {
        assert lits[..i+1] == lits[..i] + [lits[i]];
        if lits[i] == -lit || WA.Val(vals, lits[i]) < 0 { continue; }
        if lits[i] in marks {
          marks := marks - {lits[i]};
        }
      }
      assert lits[..|lits|] == lits;
    }

    // Go over the resolution candidates and intersect those that are not blocked.
    method Candidates(lit: Lit, c: nat) returns (first: bool, inter: seq<Lit>)
      requires lit in covered && WA.Shaped(db) && Var(lit) !in frozen && OccsOk(db, occs, frozen)
      modifies `occs
      ensures OccsOk(db, occs, frozen)
      ensures first <==> !SomeCandidate(db, lit, vals)
      ensures first ==> inter == [] && AllBlocked(db, c, lit, vals)
      ensures !first && inter != [] ==> Intersects(db, c, lit, vals, inter)
      ensures Fits(db, lit, vals, inter) && (!first ==> SharedList(db, lit, vals, inter))
    {
      first, inter := true, [];
      var os := if -lit in occs then occs[-lit] else [];
      assert os == Occ(occs, -lit) && OccOk(db, frozen, -lit, Occ(occs, -lit));
      var i: nat := 0;
      while i < |os|
        invariant i <= |os| && occs == old(occs) && (first ==> inter == []) && Fits(db, lit, vals, inter)
        invariant Scanned(db, os, i, lit, vals, first, inter)
        invariant !first ==> SharedKept(db, lit, vals, inter) && SomeCandidate(db, lit, vals)
      {
        var stop;
        assert os[i] in os;
        first, inter, stop := VisitCandidate(os, i, lit, first, inter);
        if stop {
          MovedToFront(db, occs, frozen, -lit, os, i);
          occs := occs[-lit := [os[i]] + os[..i] + os[i+1..]];
          FitsAll(db, lit, vals, inter);
          return;
        }
        i := i + 1;
      }
      ScannedAll(db, occs, frozen, c, lit, vals, first, inter);
      FitsAll(db, lit, vals, inter);
    }

    // Look at one candidate.  It is the last one if nothing is shared any more.
    method VisitCandidate(os: seq<nat>, i: nat, lit: Lit, first0: bool, inter0: seq<Lit>) returns (first: bool, inter: seq<Lit>, stop: bool)
      requires i < |os| && os[i] < |db| && -lit in db[os[i]].lits && WA.Shaped(db) && Fits(db, lit, vals, inter0)
      requires (first0 ==> inter0 == []) && Scanned(db, os, i, lit, vals, first0, inter0)
      requires !first0 ==> SharedKept(db, lit, vals, inter0) && SomeCandidate(db, lit, vals)
      ensures (first ==> inter == []) && Fits(db, lit, vals, inter) && (stop ==> !first && inter == [])
      ensures Scanned(db, os, i + 1, lit, vals, first, inter)
      ensures !first ==> SharedKept(db, lit, vals, inter) && SomeCandidate(db, lit, vals)
    {
      first, inter, stop := first0, inter0, false;
      var k := os[i];
      if !db[k].live { return; }
      var blocked := ClauseBlocked(db[k].lits, lit);
      if blocked { return; }
      FitsAll(db, lit, vals, inter0);
      assert Candidate(db, lit, vals, k);
      inter := NextCandidate(k, lit, first0, inter0);
      ScannedMore(db, os, i, lit, vals, first0, inter0, inter);
      stop := !first0 && inter == [];
      first := false;
    }

    // The literals of the first candidate, or those it shares with the ones before.
    method NextCandidate(k: nat, lit: Lit, first: bool, inter: seq<Lit>) returns (r: seq<Lit>)
      requires k < |db| && db[k].live && -lit in db[k].lits && !Blocked(db[k].lits, lit, vals) && WA.Shaped(db)
      requires WA.Distinct(inter) && (forall l :: l in inter ==> l != -lit && WA.Val(vals, l) == 0 && l in CK.Universe(db))
      requires !first ==> SharedKept(db, lit, vals, inter)
      ensures WA.Distinct(r) && (forall l :: l in r ==> l != -lit && WA.Val(vals, l) == 0 && l in CK.Universe(db))
      ensures SharedKept(db, lit, vals, r) && forall l :: l in r ==> l in db[k].lits && (!first ==> l in inter)
    {
      if first {
        r := FirstCandidate(db[k].lits, lit);
        SharedFirst(db, lit, vals, k, r);
      } else {
        r := IntersectWith(inter, db[k].lits, lit);
        SharedNext(db, lit, vals, k, inter, r);
      }
    }

    // Save the clause made up of the covered literals so far, with a blocking literal.
    method CoverPushExtension(lit: Lit)
      modifies `extend, `pushes
      ensures pushes == old(pushes) + [Push(lit, covered, Falses(vals))]
      ensures old(extend) == FlatAll(old(pushes)) ==> extend == FlatAll(pushes)
    {
      ghost var p := Push(lit, covered, Falses(vals));
      extend := extend + [0];
      extend := extend + [lit];
      assert covered[..0] == [];
      for i := 0 to |covered|
        invariant extend == old(extend) + ([0, lit] + Others(covered[..i], lit)) && pushes == old(pushes)
      {
        assert covered[..i+1][..i] == covered[..i];
        if covered[i] != lit {
          extend := extend + [covered[i]];
        }
      }
      assert covered[..|covered|] == covered;
      FlatMore(pushes, p);
      pushes := pushes + [p];
    }

    // Add the literals that all resolution candidates share.
    method CoveredLiteralAddition(lit: Lit, inter: seq<Lit>, c: nat, ghost f: Formula)
      requires Idle(Now(), c, root, f) && Stacked(f, pushes, extend, covered, first)
      requires lit in covered && inter != [] && Intersects(db, c, lit, vals, inter)
      requires Fits(db, lit, vals, inter) && SharedList(db, lit, vals, inter)
      modifies `extend, `pushes, `covered, `added, `trail, `vals, `nextCovered
      ensures Idle(Now(), c, root, f) && Stacked(f, pushes, extend, covered, first) && pushes != []
      ensures |Free(db, vals)| < |Free(db, old(vals))| && nextCovered == 0
      ensures old(added) <= added && SharedAdded(db, lit, old(vals), old(covered), covered)
    {
      FitsAll(db, lit, vals, inter);
      SharedIntro(db, lit, vals, covered, inter);
      StackedCovers(f, pushes, extend, covered, first, Now(), c, root, lit, inter);
      CoverPushExtension(lit);
      AddCoveredLiterals(inter, c, f);
      nextCovered := 0;
    }

    method AddCoveredLiterals(inter: seq<Lit>, c: nat, ghost f: Formula)
      requires Idle(Now(), c, root, f) && WA.Distinct(inter)
      requires forall l :: l in inter ==> WA.Val(vals, l) == 0 && l in CK.Universe(db)
      modifies `covered, `added, `trail, `vals
      ensures Idle(Now(), c, root, f) && covered == old(covered) + inter && old(added) <= added
      ensures |Free(db, vals)| <= |Free(db, old(vals))| - |inter|
    {
      assert inter[..0] == [] && covered + [] == covered;
      for i := 0 to |inter|
        invariant db == old(db) && ws == old(ws) && Idle(Now(), c, root, f) && old(added) <= added
        invariant covered == old(covered) + inter[..i] && RestFree(inter, i, vals)
        invariant |Free(db, vals)| <= |Free(db, old(vals))| - i
      {
        assert inter[i] in inter;
        AddCoveredNext(inter, i, c, f, old(covered));
      }
      assert inter[..|inter|] == inter;
    }

    method AddCoveredNext(inter: seq<Lit>, i: nat, c: nat, ghost f: Formula, ghost before: seq<Lit>)
      requires Idle(Now(), c, root, f) && WA.Distinct(inter) && i < |inter| && RestFree(inter, i, vals)
      requires inter[i] in CK.Universe(db) && covered == before + inter[..i]
      modifies `covered, `added, `trail, `vals
      ensures Idle(Now(), c, root, f) && covered == before + inter[..i+1] && RestFree(inter, i + 1, vals)
      ensures added == old(added) + [inter[i]] && |Free(db, vals)| < |Free(db, old(vals))|
    {
      RestStillFree(inter, i, vals);
      AddCoveredLiteral(inter[i], c, f);
      assert before + inter[..i] + [inter[i]] == before + inter[..i+1];
    }

    method AddCoveredLiteral(other: Lit, c: nat, ghost f: Formula)
      requires Idle(Now(), c, root, f) && WA.Val(vals, other) == 0 && other != 0 && other in CK.Universe(db)
      modifies `covered, `added, `trail, `vals
      ensures Idle(Now(), c, root, f) && covered == old(covered) + [other] && added == old(added) + [other]
      ensures vals == old(vals) + {-other} && |Free(db, vals)| < |Free(db, old(vals))|
    {
      IdleCovered(Now(), c, root, f, other);
      LessFreeLit(db, vals, other);
      vals := vals + {-other};
      covered := covered + [other];
      added := added + [other];
      trail := trail + [-other];
    }

    // Covered literal addition on one literal; succeeds if the extended clause is blocked on it.
    method CoverPropagateCovered(lit: Lit, c: nat, ghost f: Formula) returns (blocked: bool)
      requires Idle(Now(), c, root, f) && Stacked(f, pushes, extend, covered, first) && lit in covered && OccsOk(db, occs, frozen)
      modifies `occs, `extend, `pushes, `covered, `added, `trail, `vals, `nextCovered
      ensures Idle(Now(), c, root, f) && OccsOk(db, occs, frozen) && old(added) <= added
      ensures blocked ==> covered == old(covered) && Stacked(f, old(pushes), old(extend), covered, first) &&
                          pushes == old(pushes) + [Push(lit, covered, Falses(vals))] && extend == FlatAll(pushes) &&
                          CC.BlockedUnder(f, lit, LitsOf(covered), Falses(vals))
      ensures blocked <==> Var(lit) !in frozen && !SomeCandidate(db, lit, old(vals))
      ensures !blocked ==> Stacked(f, pushes, extend, covered, first)
      ensures !blocked ==> (Now() == old(Now()) && nextCovered == old(nextCovered) && Stuck(db, frozen, vals, lit)) ||
                           (|Free(db, vals)| < |Free(db, old(vals))| && nextCovered == 0 &&
                            SharedAdded(db, lit, old(vals), old(covered), covered))
    {
      if Var(lit) in frozen {
        return false;
      }
      assert WA.Shaped(db) by { IdleFacts(Now(), c, root, f, lit); }
      var first, inter := Candidates(lit, c);
      blocked := false;
      if first {
        PushBlocked(lit, c, f);
        blocked := true;
      } else if inter != [] {
        CoveredLiteralAddition(lit, inter, c, f);
      } else {
        StuckIntro(db, frozen, vals, lit, inter);
      }
    }

    // The extended clause is blocked.
    method PushBlocked(lit: Lit, c: nat, ghost f: Formula)
      requires Idle(Now(), c, root, f) && lit in covered && AllBlocked(db, c, lit, vals) && Stacked(f, pushes, extend, covered, first)
      modifies `extend, `pushes
      ensures pushes == old(pushes) + [Push(lit, covered, Falses(vals))] && extend == FlatAll(pushes)
      ensures CC.BlockedUnder(f, lit, LitsOf(covered), Falses(vals))
    {
      BlockedNow(Now(), c, root, f, lit);
      assert Peek(0);
      CoverPushExtension(lit);
    }

    // Literals of the clause that are not among the covered ones; these are in the same order.
    method MissingLiterals(lits: seq<Lit>) returns (missing: seq<Lit>)
      ensures forall l :: l in missing ==> l in lits
      ensures forall l :: l in lits ==> l in covered || l in missing
    {
      missing := [];
      var j: nat := 0;
      for i := 0 to |lits|
        invariant forall l :: l in missing ==> l in lits
        invariant forall n :: 0 <= n < i ==> lits[n] in covered || lits[n] in missing
      {
        if j >= |covered| || lits[i] != covered[j] {
          missing := missing + [lits[i]];
        } else {
          j := j + 1;
        }
      }
    }

    // Copy the private stack to the extension stack, with the missing literals added to each entry;
    // the last one gets them only if a proof is written.
    method CopyExtension(missing: seq<Lit>, proof: bool) returns (ghost last: seq<Lit>)
      requires extend == FlatAll(pushes) && pushes != [] && Proper(pushes)
      modifies `extension, `clauseId
      ensures last == missing || last == []
      ensures extension == old(extension) + EX.EncodeAll(CC.Pushes(StepsOf(pushes, missing, last, old(clauseId) + 1)))
      ensures clauseId == old(clauseId) + |pushes|
    {
      ghost var base, id := extension, clauseId + 1;
      ghost var cur := CopyEntries(missing, base, id);
      last := FinishCopy(missing, proof, base, id, cur);
    }

    // Copy everything up to the missing literals of the last entry.
    method CopyEntries(missing: seq<Lit>, ghost base: seq<int>, ghost id: nat) returns (ghost cur: seq<Lit>)
      requires extend == FlatAll(pushes) && pushes != [] && Proper(pushes) && base == extension && id == clauseId + 1
      modifies `extension, `clauseId
      ensures Written(pushes, missing, id, base, extension, true, |pushes| - 1, cur) && cur == Listed(pushes[|pushes|-1])
      ensures clauseId == id - 1 + |pushes|
    {
      var prev, alreadyPushed := -1, false;
      ghost var done: nat, rest: seq<Lit> := 0, [];
      cur := [];
      CopyingStart(pushes, missing, id, extension, clauseId);
      assert extend[0..] == extend;
      for p := 0 to |extend|
        invariant Copying(pushes, missing, id, base, extension, clauseId, prev, alreadyPushed, done, cur, rest, extend[p..])
      {
        assert extend[p..][0] == extend[p] && extend[p..][1..] == extend[p+1..];
        prev, alreadyPushed, done, cur, rest :=
          CopyNext(extend[p], missing, prev, alreadyPushed, base, id, done, cur, rest, extend[p..]);
      }
      assert extend[|extend|..] == [];
      CopyingEnd(pushes, missing, id, base, extension, clauseId, prev, alreadyPushed, done, cur, rest);
    }

    method FinishCopy(missing: seq<Lit>, proof: bool, ghost base: seq<int>, ghost id: nat, ghost cur: seq<Lit>)
      returns (ghost last: seq<Lit>)
      requires pushes != [] && Written(pushes, missing, id, base, extension, true, |pushes| - 1, cur)
      requires cur == Listed(pushes[|pushes|-1])
      modifies `extension
      ensures last == if proof then missing else []
      ensures extension == base + EX.EncodeAll(CC.Pushes(StepsOf(pushes, missing, last, id)))
    {
      last := if proof then missing else [];
      WriteEnd(pushes, missing, last, id, base, extension, cur);
      if proof {
        extension := extension + missing;
      } else {
        assert extension + last == extension;
      }
    }

    // Copy one integer; zeros separate clauses.
    method CopyNext(other: int, missing: seq<Lit>, prev: int, alreadyPushed: bool, ghost base: seq<int>, ghost id: nat,
                    ghost done: nat, ghost cur: seq<Lit>, ghost rest: seq<Lit>, ghost flat: seq<int>)
      returns (prev': int, alreadyPushed': bool, ghost done': nat, ghost cur': seq<Lit>, ghost rest': seq<Lit>)
      requires Proper(pushes) && flat != [] && other == flat[0]
      requires Copying(pushes, missing, id, base, extension, clauseId, prev, alreadyPushed, done, cur, rest, flat)
      modifies `extension, `clauseId
      ensures Copying(pushes, missing, id, base, extension, clauseId, prev', alreadyPushed', done', cur', rest', flat[1..])
    {
      assert Look(0);
      prev', alreadyPushed', done', cur', rest' := other, alreadyPushed, done, cur, rest;
      if other == 0 {
        ReadSeparator(pushes, prev, alreadyPushed, done, cur, rest, flat);
      } else if prev == 0 {
        ghost var m: nat := if alreadyPushed then done + 1 else 0;
        CopyStart(pushes, m, flat);
        FinishEntry(missing, alreadyPushed, base, id, done, cur);
        StartEntry(other, missing, base, id, m);
        alreadyPushed' := true;
        done', cur', rest' := m, [other], Others(pushes[m].covered, pushes[m].lit);
      } else {
        ReadLiteral(pushes, prev, alreadyPushed, done, cur, rest, flat);
        WriteLiteral(pushes, missing, id, base, extension, done, cur, other);
        extension := extension + [other];
        cur', rest' := cur + [other], rest[1..];
      }
    }

    // Add the missing literals to the entry that is open, if there is one.
    method FinishEntry(missing: seq<Lit>, alreadyPushed: bool, ghost base: seq<int>, ghost id: nat, ghost done: nat, ghost cur: seq<Lit>)
      requires Written(pushes, missing, id, base, extension, alreadyPushed, done, cur)
      requires alreadyPushed ==> cur == Listed(pushes[done])
      modifies `extension
      ensures extension == base + EX.EncodeAll(EntriesUpTo(pushes, missing, id, if alreadyPushed then done + 1 else 0))
    {
      if alreadyPushed {
        WriteMissing(pushes, missing, id, base, extension, done, cur);
        extension := extension + missing;
      }
    }

    // Start an entry with its witness, the next identifier and its first literal.
    method StartEntry(other: Lit, missing: seq<Lit>, ghost base: seq<int>, ghost id: nat, ghost m: nat)
      requires m < |pushes| && other == pushes[m].lit && clauseId + 1 == id + m
      requires extension == base + EX.EncodeAll(EntriesUpTo(pushes, missing, id, m))
      modifies `extension, `clauseId
      ensures Written(pushes, missing, id, base, extension, true, m, [other]) && clauseId == id + m
    {
      clauseId := clauseId + 1;
      WriteStart(pushes, missing, id, base, extension, m);
      extension := extension + Header(other, clauseId);
      WriteLiteral(pushes, missing, id, base, extension, m, [], other);
      extension := extension + [other];
    }

    // Add asymmetric literals as long as possible, and covered literals in between.
    method AddLiterals(c: nat, ghost f: Formula) returns (tautological: bool)
      requires Idle(Now(), c, root, f) && Stacked(f, pushes, extend, covered, first) && nextAdded == 0 && nextCovered == 0
      requires Lists(db, ws, db, ws, c, saved, occs, frozen) && done == propagated
      modifies `db, `ws, `saved, `occs, `trail, `vals, `added, `covered, `extend, `pushes, `nextAdded, `nextCovered, `done
      ensures Idle(Now(), c, root, f) && Lists(old(db), old(ws), db, ws, c, saved, occs, frozen) && old(added) <= added
      ensures if tautological then Closed(f, pushes, extend, covered, first)
              else Stacked(f, pushes, extend, covered, first) && Progress(Now(), |added|, |covered|, frozen)
    {
      tautological := false;
      var more := true;
      while !tautological && more
        invariant !tautological ==> Progress(Now(), nextAdded, nextCovered, frozen)
        invariant !more ==> nextAdded == |added| && nextCovered == |covered|
        invariant Idle(Now(), c, root, f) && Lists(old(db), old(ws), db, ws, c, saved, occs, frozen) && old(added) <= added
        invariant if tautological then Closed(f, pushes, extend, covered, first) else Stacked(f, pushes, extend, covered, first)
        decreases !tautological, more, |Free(db, vals)|, |added| - nextAdded, |covered| - nextCovered
      {
        more, tautological := AddNext(c, f, old(db), old(ws));
      }
    }

    // Asymmetric literals come first; after a covered literal was added everything starts again.
    method AddNext(c: nat, ghost f: Formula, ghost db0: WA.Db, ghost ws0: WA.Watchers) returns (more: bool, tautological: bool)
      requires Idle(Now(), c, root, f) && Stacked(f, pushes, extend, covered, first) && Lists(db0, ws0, db, ws, c, saved, occs, frozen)
      requires Progress(Now(), nextAdded, nextCovered, frozen)
      modifies `db, `ws, `saved, `occs, `trail, `vals, `added, `covered, `extend, `pushes, `nextAdded, `nextCovered, `done
      ensures !tautological ==> Progress(Now(), nextAdded, nextCovered, frozen)
      ensures !more ==> nextAdded == |added| && nextCovered == |covered|
      ensures Idle(Now(), c, root, f) && Lists(db0, ws0, db, ws, c, saved, occs, frozen) && old(added) <= added
      ensures if tautological then Closed(f, pushes, extend, covered, first) else Stacked(f, pushes, extend, covered, first)
      ensures !tautological && more ==>
                LessToDo(|Free(db, vals)|, |added| - nextAdded, |covered| - nextCovered,
                         |Free(old(db), old(vals))|, old(|added| - nextAdded), old(|covered| - nextCovered))
    {
      more, tautological := true, false;
      ProgressBounds(Now(), nextAdded, nextCovered, frozen);
      if nextAdded < |added| {
        tautological := AddAsymmetric(c, f, db0, ws0);
      } else if nextCovered < |covered| {
        tautological := AddCovered(c, f, db0, ws0);
      } else {
        more := false;
      }
    }

    method AddAsymmetric(c: nat, ghost f: Formula, ghost db0: WA.Db, ghost ws0: WA.Watchers) returns (tautological: bool)
      requires Idle(Now(), c, root, f) && Stacked(f, pushes, extend, covered, first) && Lists(db0, ws0, db, ws, c, saved, occs, frozen)
      requires Progress(Now(), nextAdded, nextCovered, frozen) && nextAdded < |added|
      modifies `db, `ws, `saved, `trail, `vals, `added, `nextAdded, `nextCovered, `done
      ensures Idle(Now(), c, root, f) && Lists(db0, ws0, db, ws, c, saved, occs, frozen) && old(added) <= added
      ensures if tautological then Closed(f, pushes, extend, covered, first) else Progress(Now(), nextAdded, nextCovered, frozen)
      ensures nextAdded == old(nextAdded) + 1
      ensures |Free(db, vals)| < |Free(old(db), old(vals))| ||
              (|Free(db, vals)| == |Free(old(db), old(vals))| && added == old(added))
    {
      ghost var s := Now();
      ProgressBounds(s, nextAdded, nextCovered, frozen);
      tautological := AddAsymmetricLiterals(c, f, db0, ws0);
      if tautological {
        ClosedSubsumed(f, pushes, extend, covered, first);
      } else {
        ProgressAdded(s, Now(), nextAdded, frozen);
      }
    }

    method AddCovered(c: nat, ghost f: Formula, ghost db0: WA.Db, ghost ws0: WA.Watchers) returns (blocked: bool)
      requires Idle(Now(), c, root, f) && Stacked(f, pushes, extend, covered, first) && nextCovered < |covered|
      requires Lists(db0, ws0, db, ws, c, saved, occs, frozen) && Progress(Now(), nextAdded, nextCovered, frozen) && nextAdded == |added|
      modifies `occs, `extend, `pushes, `covered, `added, `trail, `vals, `nextCovered
      ensures Idle(Now(), c, root, f) && Lists(db0, ws0, db, ws, c, saved, occs, frozen) && old(added) <= added
      ensures if blocked then Closed(f, pushes, extend, covered, first) else Stacked(f, pushes, extend, covered, first)
      ensures !blocked ==> Progress(Now(), nextAdded, nextCovered, frozen)
      ensures !blocked ==> |Free(db, vals)| < |Free(db, old(vals))| ||
                           (Now() == old(Now()) && nextCovered == old(nextCovered) + 1)
    {
      ghost var ps, s := pushes, Now();
      var lit := covered[nextCovered];
      nextCovered := nextCovered + 1;
      OccsOf(db0, ws0, db, ws, c, saved, occs, frozen);
      blocked := CoverPropagateCovered(lit, c, f);
      ListsAgain(db0, ws0, db, ws, c, saved, old(occs), occs, frozen);
      if blocked {
        ClosedBlocked(f, ps, pushes, extend, Now(), c, root, first, lit);
      } else {
        ProgressCovered(s, Now(), nextAdded, old(nextCovered), nextCovered, frozen);
      }
    }

    method AddAsymmetricLiterals(c: nat, ghost f: Formula, ghost db0: WA.Db, ghost ws0: WA.Watchers) returns (subsumed: bool)
      requires Idle(Now(), c, root, f) && nextAdded < |added| && Lists(db0, ws0, db, ws, c, saved, occs, frozen)
      modifies `db, `ws, `saved, `trail, `vals, `added, `nextAdded, `nextCovered, `done
      ensures Idle(Now(), c, root, f) && Lists(db0, ws0, db, ws, c, saved, occs, frozen) && old(added) <= added
      ensures nextAdded == old(nextAdded) + 1 && (old(nextCovered) == 0 ==> nextCovered == 0)
      ensures !subsumed ==> done == old(done) + {-added[old(nextAdded)]}
      ensures |Free(db, vals)| < |Free(old(db), old(vals))| ||
              (|Free(db, vals)| == |Free(old(db), old(vals))| && added == old(added))
      ensures subsumed ==> Entails(f, LitsOf(covered))
    {
      var lit := added[nextAdded];
      nextAdded := nextAdded + 1;
      subsumed := PropagateAdded(lit, c, f, db0, ws0);
    }

    method PropagateAdded(lit: Lit, c: nat, ghost f: Formula, ghost db0: WA.Db, ghost ws0: WA.Watchers) returns (subsumed: bool)
      requires Idle(Now(), c, root, f) && lit in added && Lists(db0, ws0, db, ws, c, saved, occs, frozen)
      modifies `db, `ws, `saved, `trail, `vals, `added, `nextCovered, `done
      ensures (old(nextCovered) == 0 ==> nextCovered == 0) && (!subsumed ==> done == old(done) + {-lit})
      ensures Idle(Now(), c, root, f) && Lists(db0, ws0, db, ws, c, saved, occs, frozen) && old(added) <= added
      ensures |Free(db, vals)| < |Free(old(db), old(vals))| ||
              (|Free(db, vals)| == |Free(old(db), old(vals))| && added == old(added))
      ensures subsumed ==> Entails(f, LitsOf(covered))
    {
      ghost var s := Now();
      AddedOnTrail(s, c, root, f, lit);
      SavedOf(db0, ws0, db, ws, c, saved, occs, frozen);
      subsumed := CoverPropagateAsymmetric(lit, c, f);
      GrownLists(db0, ws0, s, Now(), c, old(saved), saved, occs, frozen);
    }

    ghost predicate Valid()
      reads this
    {
      && Ready(db, ws, root, propagated) && trail == root && vals == LitsOf(root) && SavedOk(db, saved) && OccsOk(db, occs, frozen)
      && added == [] && covered == [] && extend == [] && pushes == []
    }

    // Is a literal of the clause true?
    method ClauseSatisfied(lits: seq<Lit>) returns (satisfied: bool)
      ensures satisfied <==> exists l :: l in lits && l in vals
    {
      satisfied := false;
      for i := 0 to |lits|
        invariant satisfied ==> exists l :: l in lits && l in vals
        invariant !satisfied ==> forall j :: 0 <= j < i ==> lits[j] !in vals
      {
        if WA.Val(vals, lits[i]) > 0 {
          satisfied := true;
        }
      }
    }

    // Assume that all literals of the candidate are false.
    method AssumeLiterals(c: nat, ghost f: Formula)
      requires Idle(Now(), c, root, f) && covered == [] && added == []
      requires WA.Distinct(db[c].lits) && forall l :: l in db[c].lits ==> l !in vals
      modifies `trail, `vals, `added, `covered, `nextCovered
      ensures Idle(Now(), c, root, f)
      ensures forall l :: l in db[c].lits ==> -l in vals
      ensures forall l :: l in covered ==> l in db[c].lits
    {
      var lits := db[c].lits;
      for i := 0 to |lits|
        invariant db == old(db) && ws == old(ws) && Idle(Now(), c, root, f)
        invariant forall j :: 0 <= j < i ==> -lits[j] in vals
        invariant forall l :: l in lits ==> l !in vals
        invariant forall l :: l in covered ==> l in lits
      {
        assert lits[i] in lits && -lits[i] !in lits;
        AssumeLiteral(lits[i], c, f);
      }
    }

    method AssumeLiteral(lit: Lit, c: nat, ghost f: Formula)
      requires Idle(Now(), c, root, f) && lit != 0 && lit !in vals
      modifies `trail, `vals, `added, `covered, `nextCovered
      ensures Idle(Now(), c, root, f) && vals == old(vals) + {-lit}
      ensures covered == old(covered) || covered == old(covered) + [lit]
    {
      if WA.Val(vals, lit) != 0 {
        assert vals + {-lit} == vals;
        return;
      }
      IdleCovered(Now(), c, root, f, lit);
      AsymmetricLiteralAddition(lit);
      covered := covered + [lit];
    }

    // Unassign all literals that were added.
    method Backtrack(ghost c: nat, ghost f: Formula)
      requires Idle(Now(), c, root, f)
      modifies `trail, `vals, `added, `covered, `extend, `pushes
      ensures trail == root && vals == LitsOf(root) && added == [] && covered == [] && extend == [] && pushes == []
    {
      IdleTrail(Now(), c, root, f);
      assert added[0..] == added && forall j :: 0 <= j < |added| ==> added[j] in added;
      for i := 0 to |added|
        invariant added == old(added) && vals == LitsOf(root) + Negations(added[i..])
      {
        RemainingNegations(root, added, i);
        vals := vals - {-added[i]};
      }
      assert added[|added|..] == [] && LitsOf(root) + Negations([]) == LitsOf(root);
      trail, covered, extend, added := root, [], [], [];
      pushes := [];
    }

    // Try to remove a clause.  It is removed exactly when it is satisfied, or when its extension is
    // tautological and entries were pushed.  A purely asymmetric success does not remove it.
    method CoverClause(c: nat, proof: bool) returns (tautological: bool)
      requires Valid() && c < |db| && db[c].live
      modifies this
      ensures Valid() && |db| == |old(db)|
      ensures forall k :: 0 <= k < |db| ==> LitsOf(db[k].lits) == LitsOf(old(db)[k].lits) && (k != c ==> db[k].live == old(db)[k].live)
      ensures (exists l :: l in old(db)[c].lits && l in root) ==> !db[c].live && !tautological
      ensures !(exists l :: l in old(db)[c].lits && l in root) ==> (!db[c].live <==> extension != old(extension)) && (!db[c].live ==> tautological)
      ensures !tautological ==> extension == old(extension)
      ensures extension != old(extension) ==>
                Eliminated(Remaining(old(db), c, root), LitsOf(old(db)[c].lits), old(extension), extension)
      ensures tautological && extension == old(extension) ==> Entails(Remaining(old(db), c, root), LitsOf(old(db)[c].lits))
      ensures !tautological && !(exists l :: l in old(db)[c].lits && l in root) ==>
                Exhausted(old(db), c, root, frozen, propagated == LitsOf(root))
    {
      var satisfied := ClauseSatisfied(db[c].lits);
      if satisfied {
        MarkGarbage(c);
        return false;
      }
      var removed;
      tautological, removed := TryClause(c, proof);
      if removed {
        EliminatedPushed(Remaining(old(db), c, root), LitsOf(old(db)[c].lits), old(extension), extension);
        MarkGarbage(c);
      }
    }

    method MarkGarbage(c: nat)
      requires Valid() && c < |db|
      modifies `db
      ensures Valid() && db == old(db)[c := old(db)[c].(live := false)]
    {
      ReadyLess(db, ws, root, propagated, c, occs, frozen, saved);
      db := db[c := db[c].(live := false)];
    }

    // The clause is not satisfied.
    method TryClause(c: nat, proof: bool) returns (tautological: bool, removed: bool)
      requires Valid() && c < |db| && db[c].live && forall l :: l in db[c].lits ==> l !in vals
      modifies this
      ensures Valid() && CK.SameClauses(old(db), db) && db[c] == old(db)[c]
      ensures removed ==> tautological && Eliminated(Remaining(old(db), c, root), LitsOf(old(db)[c].lits), old(extension), extension)
      ensures !removed ==> extension == old(extension)
      ensures tautological && !removed ==> Entails(Remaining(old(db), c, root), LitsOf(old(db)[c].lits))
      ensures !tautological ==> Exhausted(old(db), c, root, frozen, propagated == LitsOf(root))
    {
      ghost var f := Remaining(db, c, root);
      tautological := ExtendClause(c, f);
      removed := FinishClause(c, proof, tautological, f, old(db));
    }

    // Push the entries if there are some, and unassign all literals.
    method FinishClause(c: nat, proof: bool, tautological: bool, ghost f: Formula, ghost db0: WA.Db) returns (removed: bool)
      requires Idle(Now(), c, root, f) && Ready(db, ws, root, propagated) && SavedOk(db, saved) && OccsOk(db, occs, frozen)
      requires CK.SameClauses(db0, db) && db[c] == db0[c] && Assumed(db[c].lits, vals, first)
      requires if tautological then Closed(f, pushes, extend, covered, first)
               else Stacked(f, pushes, extend, covered, first) && Progress(Now(), |added|, |covered|, frozen)
      modifies `extension, `clauseId, `trail, `vals, `added, `covered, `extend, `pushes
      ensures Valid()
      ensures if removed then tautological && Eliminated(f, LitsOf(db[c].lits), old(extension), extension) else extension == old(extension)
      ensures !removed ==> if tautological then Entails(f, LitsOf(db0[c].lits)) else Exhausted(db0, c, root, frozen, propagated == LitsOf(root))
    {
      removed := tautological && |extend| > 0;
      if removed {
        Extend(c, proof, f);
      } else {
        NotRemoved(db0, Now(), c, root, f, pushes, extend, first, frozen, tautological);
      }
      Backtrack(c, f);
    }

    // Assume the literals of the clause to be false, and add literals.
    method ExtendClause(c: nat, ghost f: Formula) returns (tautological: bool)
      requires Valid() && c < |db| && db[c].live && f == Remaining(db, c, root)
      requires forall l :: l in db[c].lits ==> l !in vals
      modifies `db, `ws, `saved, `occs, `trail, `vals, `added, `covered, `extend, `pushes, `nextAdded, `nextCovered, `first, `done
      ensures Idle(Now(), c, root, f) && Ready(db, ws, root, propagated) && SavedOk(db, saved) && OccsOk(db, occs, frozen)
      ensures CK.SameClauses(old(db), db) && db[c] == old(db)[c] && Assumed(db[c].lits, vals, first)
      ensures if tautological then Closed(f, pushes, extend, covered, first)
              else Stacked(f, pushes, extend, covered, first) && Progress(Now(), |added|, |covered|, frozen)
    {
      done := propagated;
      IdleStart(Now(), c, root);
      AssumeLiterals(c, f);
      ghost var assumed := Now();
      first := covered;
      nextAdded, nextCovered := 0, 0;
      StackedStart(Now(), c, root, f);
      ListsStart(db, ws, c, saved, occs, frozen);
      ProgressStart(Now(), frozen);
      tautological := AddLiterals(c, f);
      ListsEnd(old(db), old(ws), db, ws, root, c, saved, occs, frozen, Now(), f);
      StillFalse(assumed, Now(), c, root, f);
    }

    // Copy the private stack, because the clause will be removed.
    method Extend(c: nat, proof: bool, ghost f: Formula)
      requires Idle(Now(), c, root, f) && Closed(f, pushes, extend, covered, first) && extend != []
      requires Assumed(db[c].lits, vals, first)
      modifies `extension, `clauseId
      ensures Eliminated(f, LitsOf(db[c].lits), old(extension), extension)
    {
      var missing := MissingLiterals(db[c].lits);
      ClosedProper(f, pushes, extend, covered, first);
      ghost var id := clauseId + 1;
      ghost var last := CopyExtension(missing, proof);
      ClosedJustifies(Now(), c, root, f, pushes, extend, first, missing, last, id);
      EliminatedIntro(f, StepsOf(pushes, missing, last, id), LitsOf(covered), LitsOf(db[c].lits), old(extension), extension);
    }
  }

  lemma SubsetDistinct(a: seq<Lit>, b: seq<Lit>)
    requires WA.Distinct(b) && (forall l :: l in a ==> l in b)
    requires forall i, j :: 0 <= i < j < |a| ==> a[i] != a[j]
    ensures WA.Distinct(a)
  {
    forall l | l in a ensures -l !in a {
      assert l in b && -l !in b;
    }
  }

  // ----- Full occurrence lists.

  function Occ(occs: map<Lit, seq<nat>>, l: Lit): seq<nat> {
    if l in occs then occs[l] else []
  }

  ghost predicate OccOk(db: WA.Db, frozen: set<nat>, l: Lit, os: seq<nat>) {
    && (forall k {:trigger k in os} :: k in os ==> k < |db| && l in db[k].lits)
    && (Var(l) !in frozen ==> forall k: nat {:trigger db[k]} :: k < |db| && db[k].live && l in db[k].lits ==> k in os)
  }

  ghost predicate OccsOk(db: WA.Db, occs: map<Lit, seq<nat>>, frozen: set<nat>) {
    forall l {:trigger Occ(occs, l)} :: OccOk(db, frozen, l, Occ(occs, l))
  }

  lemma MovedToFront(db: WA.Db, occs: map<Lit, seq<nat>>, frozen: set<nat>, l: Lit, os: seq<nat>, i: nat)
    requires OccsOk(db, occs, frozen) && os == Occ(occs, l) && i < |os|
    ensures OccsOk(db, occs[l := [os[i]] + os[..i] + os[i+1..]], frozen)
    ensures multiset([os[i]] + os[..i] + os[i+1..]) == multiset(os)
  {
    var r := [os[i]] + os[..i] + os[i+1..];
    assert os == os[..i] + [os[i]] + os[i+1..];
    forall k ensures k in r <==> k in os {
      assert k in r <==> k in multiset(r);
      assert k in os <==> k in multiset(os);
    }
    var occs' := occs[l := r];
    forall x ensures OccOk(db, frozen, x, Occ(occs', x)) {
      assert OccOk(db, frozen, x, Occ(occs, x));
    }
  }

  ghost predicate ScannedAt(db: WA.Db, k: nat, lit: Lit, vals: set<Lit>, first: bool, inter: seq<Lit>) {
    k < |db| && db[k].live ==> Blocked(db[k].lits, lit, vals) || (!first && forall l :: l in inter ==> l in db[k].lits)
  }

  // The candidates before position 'i' are blocked or contain the intersection.
  ghost predicate Scanned(db: WA.Db, os: seq<nat>, i: nat, lit: Lit, vals: set<Lit>, first: bool, inter: seq<Lit>) {
    forall j {:trigger os[j]} :: 0 <= j < i && j < |os| ==> ScannedAt(db, os[j], lit, vals, first, inter)
  }

  lemma ScannedAll(db: WA.Db, occs: map<Lit, seq<nat>>, frozen: set<nat>, c: nat, lit: Lit, vals: set<Lit>, first: bool, inter: seq<Lit>)
    requires OccsOk(db, occs, frozen) && Var(lit) !in frozen
    requires Scanned(db, Occ(occs, -lit), |Occ(occs, -lit)|, lit, vals, first, inter)
    ensures first ==> !SomeCandidate(db, lit, vals) && AllBlocked(db, c, lit, vals)
    ensures !first ==> Intersects(db, c, lit, vals, inter) && forall l :: l in inter ==> Shared(db, lit, vals, l)
  {
    var os := Occ(occs, -lit);
    assert OccOk(db, frozen, -lit, os) && Var(-lit) == Var(lit);
    forall k: nat | k < |db| && db[k].live && -lit in db[k].lits ensures ScannedAt(db, k, lit, vals, first, inter) {
      assert k in os;
      var j :| 0 <= j < |os| && os[j] == k;
    }
  }

  // ----- The private stack in step with the covered literals.

  ghost predicate Stacked(f: Formula, ps: seq<Push>, extend: seq<int>, covered: seq<Lit>, first: seq<Lit>) {
    forall u {:trigger Peek(u)} :: Peek(u) ==>
      && extend == FlatAll(ps) && LinkedTo(f, ps, covered) && first == (if ps == [] then covered else ps[0].covered)
      && forall i {:trigger ps[i]} :: 0 <= i < |ps| ==> ps[i].lit in ps[i].covered && ps[i].covered <= covered && 0 !in ps[i].covered
  }

  lemma StackedCovers(f: Formula, ps: seq<Push>, extend: seq<int>, covered: seq<Lit>, first: seq<Lit>, s: State, c: nat, root: seq<Lit>,
                      lit: Lit, inter: seq<Lit>)
    requires Stacked(f, ps, extend, covered, first) && Idle(s, c, root, f) && s.covered == covered && lit in covered
    requires Intersects(s.db, c, lit, s.vals, inter) && -lit !in inter
    ensures var qs := ps + [Push(lit, covered, Falses(s.vals))];
            Stacked(f, qs, FlatAll(qs), covered + inter, first)
    ensures extend == FlatAll(ps)
  {
    assert Peek(0);
    var p := Push(lit, covered, Falses(s.vals));
    IdleFacts(s, c, root, f, lit);
    IdleCovers(s, c, root, f, lit, inter);
    LinkedMore(f, ps, p, covered + inter);
    var qs := ps + [p];
    forall i | 0 <= i < |qs|
      ensures qs[i].lit in qs[i].covered && qs[i].covered <= covered + inter && 0 !in qs[i].covered
    {
      assert i < |ps| ==> qs[i] == ps[i];
    }
  }

  lemma IdleFacts(s: State, c: nat, root: seq<Lit>, f: Formula, lit: Lit)
    requires Idle(s, c, root, f) && lit in s.covered
    ensures WA.Shaped(s.db) && lit != 0 && -lit in s.vals && lit !in s.vals && -lit !in s.covered && 0 !in s.covered
    ensures lit !in root && -lit !in root && CC.Forced(f, LitsOf(s.covered), Falses(s.vals)) && Remaining(s.db, c, root) == f
  {
    assert Look(0);
    forall k | 0 <= k < |s.db| ensures |s.db[k].lits| >= 2 && WA.Distinct(s.db[k].lits) {
      assert Ignore(s.db, c)[k].lits == s.db[k].lits;
    }
    assert -(-lit) == lit;
  }

  lemma IdleCovers(s: State, c: nat, root: seq<Lit>, f: Formula, lit: Lit, inter: seq<Lit>)
    requires Idle(s, c, root, f) && lit in s.covered && Intersects(s.db, c, lit, s.vals, inter) && -lit !in inter
    ensures CC.Covers(f, lit, LitsOf(s.covered), Falses(s.vals), LitsOf(s.covered + inter))
  {
    IdleFacts(s, c, root, f, lit);
    CoveredJustified(s.db, c, root, lit, s.covered, s.vals, inter);
  }

  lemma BlockedNow(s: State, c: nat, root: seq<Lit>, f: Formula, lit: Lit)
    requires Idle(s, c, root, f) && lit in s.covered && AllBlocked(s.db, c, lit, s.vals)
    ensures CC.BlockedUnder(f, lit, LitsOf(s.covered), Falses(s.vals))
  {
    IdleFacts(s, c, root, f, lit);
    BlockedJustified(s.db, c, root, lit, s.covered, s.vals);
  }

  ghost predicate RestFree(inter: seq<Lit>, i: nat, vals: set<Lit>) {
    forall j :: i <= j < |inter| ==> WA.Val(vals, inter[j]) == 0
  }

  lemma RestStillFree(inter: seq<Lit>, i: nat, vals: set<Lit>)
    requires WA.Distinct(inter) && i < |inter| && RestFree(inter, i, vals)
    ensures inter[i] != 0 && WA.Val(vals, inter[i]) == 0 && RestFree(inter, i + 1, vals + {-inter[i]})
  {
    var l := inter[i];
    assert l in inter && -l !in inter;
    forall j | i + 1 <= j < |inter| ensures WA.Val(vals + {-l}, inter[j]) == 0 {
      assert inter[j] in inter && inter[j] != l;
    }
  }

  lemma LessFreeLit(db: WA.Db, vals: set<Lit>, l: Lit)
    requires l in CK.Universe(db) && WA.Val(vals, l) == 0
    ensures |Free(db, vals + {-l})| < |Free(db, vals)|
  {
    var k: nat :| k < |db| && l in db[k].lits;
    LessFree(db, vals, k, l, -l);
  }

  // A covered literal is assumed to be false.
  lemma IdleCovered(s: State, c: nat, root: seq<Lit>, f: Formula, l: Lit)
    requires Idle(s, c, root, f) && WA.Val(s.vals, l) == 0 && l != 0
    ensures Idle(s.(trail := s.trail + [-l], vals := s.vals + {-l}, added := s.added + [l], covered := s.covered + [l]), c, root, f)
  {
    KeptCovered(PropOf(s, c), s.base, s.done, l);
    AddingCovered(f, root, s, l);
  }

  lemma AddingCovered(f: Formula, root: seq<Lit>, s: State, l: Lit)
    requires Adding(f, root, s.trail, s.vals, s.added, s.covered) && l !in s.trail && -l !in s.trail && l != 0
    ensures Adding(f, root, s.trail + [-l], s.vals + {-l}, s.added + [l], s.covered + [l])
  {
    assert Look(0);
    ForcedCovered(f, LitsOf(s.covered), s.vals, l);
    LitsOfLast(s.covered, l);
    NegatedMore(s.added, l);
    assert root + (Negated(s.added) + [-l]) == s.trail + [-l];
    assert forall k :: k in s.covered + [l] ==> k in s.covered || k == l;
    assert forall k :: k in root ==> k in s.trail;
  }

  lemma KeptCovered(s: WA.Prop, base: set<Lit>, done: set<Lit>, l: Lit)
    requires Kept(s, base, done) && WA.Val(s.vals, l) == 0 && l != 0
    ensures Kept(s.(trail := s.trail + [-l], vals := s.vals + {-l}), base, done) && l !in s.trail && -l !in s.trail
  {
    assert Look(0);
    WA.AnyEntails(LitsOf([-l]));
    assert -(-l) == l;
    assert forall k :: k in s.trail ==> k in LitsOf(s.trail);
    WA.AssignProp(s, WA.Any(), {}, base, done, [-l], -l);
  }

  // ----- Reading the private stack.

  ghost predicate Reading(ps: seq<Push>, prev: int, open: bool, done: nat, cur: seq<Lit>, rest: seq<Lit>, flat: seq<int>) {
    if prev == 0 then AtStart(ps, if open then done + 1 else 0, flat) && (open ==> done < |ps| && cur == Listed(ps[done]))
    else if open then Within(ps, done, cur, rest, flat)
    else ps != [] && flat == FlatAll(ps)
  }

  lemma ReadSeparator(ps: seq<Push>, prev: int, open: bool, done: nat, cur: seq<Lit>, rest: seq<Lit>, flat: seq<int>)
    requires Proper(ps) && Reading(ps, prev, open, done, cur, rest, flat) && flat != [] && flat[0] == 0
    ensures Reading(ps, 0, open, done, cur, rest, flat[1..])
  {
    var m: nat := if open then done + 1 else 0;
    if prev == 0 {
      CopyStart(ps, m, flat);
    } else if open {
      CopySeparator(ps, done, cur, rest, flat);
    } else {
      FlatStarts(ps);
    }
  }

  lemma ReadLiteral(ps: seq<Push>, prev: int, open: bool, done: nat, cur: seq<Lit>, rest: seq<Lit>, flat: seq<int>)
    requires Proper(ps) && Reading(ps, prev, open, done, cur, rest, flat) && flat != [] && flat[0] != 0 && prev != 0
    ensures open && rest != [] && Within(ps, done, cur + [flat[0]], rest[1..], flat[1..])
  {
    if open {
      CopyLiteral(ps, done, cur, rest, flat);
    } else {
      FlatStarts(ps);
    }
  }

  // While the private stack is copied.
  ghost predicate Copying(ps: seq<Push>, missing: seq<Lit>, id: nat, base: seq<int>, ext: seq<int>, clauseId: nat, prev: int, open: bool,
                          done: nat, cur: seq<Lit>, rest: seq<Lit>, flat: seq<int>) {
    forall u {:trigger Look(u)} :: Look(u) ==>
      && Written(ps, missing, id, base, ext, open, done, cur) && Reading(ps, prev, open, done, cur, rest, flat)
      && clauseId == if open then id + done else id - 1
  }

  lemma CopyingStart(ps: seq<Push>, missing: seq<Lit>, id: nat, base: seq<int>, clauseId: nat)
    requires ps != [] && id == clauseId + 1
    ensures Copying(ps, missing, id, base, base, clauseId, -1, false, 0, [], [], FlatAll(ps))
  {
    FlatStarts(ps);
    assert EntriesUpTo(ps, missing, id, 0) == [];
    assert base + [] + [] == base;
  }

  lemma CopyingEnd(ps: seq<Push>, missing: seq<Lit>, id: nat, base: seq<int>, ext: seq<int>, clauseId: nat, prev: int, open: bool,
                   done: nat, cur: seq<Lit>, rest: seq<Lit>)
    requires Proper(ps) && ps != [] && Copying(ps, missing, id, base, ext, clauseId, prev, open, done, cur, rest, [])
    ensures Written(ps, missing, id, base, ext, true, |ps| - 1, cur) && cur == Listed(ps[|ps|-1]) && clauseId == id - 1 + |ps|
  {
    assert Look(0);
    ReadEnd(ps, prev, open, done, cur, rest);
  }

  lemma ReadEnd(ps: seq<Push>, prev: int, open: bool, done: nat, cur: seq<Lit>, rest: seq<Lit>)
    requires Proper(ps) && Reading(ps, prev, open, done, cur, rest, [])
    ensures open && done == |ps| - 1 && cur == Listed(ps[done])
  {
    if prev != 0 && open {
      CopyEnd(ps, done, cur, rest);
    } else if prev != 0 {
      FlatStarts(ps);
    }
  }

  // ----- How the additions end.

  // The extended clause is subsumed, or it is blocked on the literal that was pushed last.
  ghost predicate Closed(f: Formula, ps: seq<Push>, extend: seq<int>, covered: seq<Lit>, first: seq<Lit>) {
    && extend == FlatAll(ps)
    && ((Stacked(f, ps, extend, covered, first) && Entails(f, LitsOf(covered))) ||
        (ps != [] && var n := |ps| - 1;
          Stacked(f, ps[..n], FlatAll(ps[..n]), covered, first) && ps[n].covered == covered && ps[n].lit in covered && 0 !in covered &&
          CC.BlockedUnder(f, ps[n].lit, LitsOf(covered), ps[n].added)))
  }

  lemma ClosedSubsumed(f: Formula, ps: seq<Push>, extend: seq<int>, covered: seq<Lit>, first: seq<Lit>)
    requires Stacked(f, ps, extend, covered, first) && Entails(f, LitsOf(covered))
    ensures Closed(f, ps, extend, covered, first)
  {
    assert Peek(0);
  }

  lemma ClosedBlocked(f: Formula, ps: seq<Push>, qs: seq<Push>, extend: seq<int>, s: State, c: nat, root: seq<Lit>, first: seq<Lit>, lit: Lit)
    requires Idle(s, c, root, f) && lit in s.covered
    requires qs == ps + [Push(lit, s.covered, Falses(s.vals))] && extend == FlatAll(qs)
    requires Stacked(f, ps, FlatAll(ps), s.covered, first) && CC.BlockedUnder(f, lit, LitsOf(s.covered), Falses(s.vals))
    ensures Closed(f, qs, extend, s.covered, first)
  {
    IdleFacts(s, c, root, f, lit);
    assert qs[..|qs|-1] == ps;
  }

  lemma AddedOnTrail(s: State, c: nat, root: seq<Lit>, f: Formula, lit: Lit)
    requires Idle(s, c, root, f) && lit in s.added
    ensures -lit in s.trail
  {
    assert Look(0);
    var i :| 0 <= i < |s.added| && s.added[i] == lit;
    assert Negated(s.added)[i] == -lit;
  }

  // Clauses as at the start, saved positions and occurrence lists.
  ghost predicate Lists(db0: WA.Db, ws0: WA.Watchers, db: WA.Db, ws: WA.Watchers, c: nat, saved: seq<nat>, occs: map<Lit, seq<nat>>, frozen: set<nat>) {
    forall u {:trigger Peek(u)} :: Peek(u) ==>
      && CK.SameClauses(db0, db) && SavedOk(db, saved) && OccsOk(db, occs, frozen)
      && SameLists(ws0, ws, c) && c < |db0| && db[c] == db0[c]
  }

  lemma OccsOf(db0: WA.Db, ws0: WA.Watchers, db: WA.Db, ws: WA.Watchers, c: nat, saved: seq<nat>, occs: map<Lit, seq<nat>>, frozen: set<nat>)
    requires Lists(db0, ws0, db, ws, c, saved, occs, frozen)
    ensures OccsOk(db, occs, frozen)
  {
    assert Peek(0);
  }

  lemma ListsAgain(db0: WA.Db, ws0: WA.Watchers, db: WA.Db, ws: WA.Watchers, c: nat, saved: seq<nat>, occs: map<Lit, seq<nat>>, occs': map<Lit, seq<nat>>, frozen: set<nat>)
    requires Lists(db0, ws0, db, ws, c, saved, occs, frozen) && OccsOk(db, occs', frozen)
    ensures Lists(db0, ws0, db, ws, c, saved, occs', frozen)
  {
    assert Peek(0);
  }

  lemma SavedOf(db0: WA.Db, ws0: WA.Watchers, db: WA.Db, ws: WA.Watchers, c: nat, saved: seq<nat>, occs: map<Lit, seq<nat>>, frozen: set<nat>)
    requires Lists(db0, ws0, db, ws, c, saved, occs, frozen)
    ensures SavedOk(db, saved)
  {
    assert Peek(0);
  }

  lemma GrownLists(db0: WA.Db, ws0: WA.Watchers, s: State, t: State, c: nat, saved: seq<nat>, saved': seq<nat>, occs: map<Lit, seq<nat>>, frozen: set<nat>)
    requires Grown(s, t, c) && Lists(db0, ws0, s.db, s.ws, c, saved, occs, frozen) && SavedOk(t.db, saved')
    ensures Lists(db0, ws0, t.db, t.ws, c, saved', occs, frozen)
    ensures s.added <= t.added && t.covered == s.covered
    ensures t.added == s.added || |Free(t.db, t.vals)| < |Free(s.db, s.vals)|
    ensures |Free(t.db, t.vals)| <= |Free(s.db, s.vals)|
  {
    assert Peek(0);
    GrownFacts(s, t, c, occs, frozen);
    CK.SameClausesTransitive(db0, s.db, t.db);
    SameListsTransitive(ws0, s.ws, t.ws, c);
  }

  lemma GrownFacts(s: State, t: State, c: nat, occs: map<Lit, seq<nat>>, frozen: set<nat>)
    requires Grown(s, t, c) && OccsOk(s.db, occs, frozen)
    ensures HasGrown(s, t, c) && OccsOk(t.db, occs, frozen)
  {
    assert Peek(0);
    forall k | 0 <= k < |s.db| ensures forall l :: l in t.db[k].lits <==> l in s.db[k].lits {
      WA.SameMembers(s.db[k].lits, t.db[k].lits);
    }
    forall l ensures OccOk(t.db, frozen, l, Occ(occs, l)) {
      assert OccOk(s.db, frozen, l, Occ(occs, l));
    }
  }

  // Added literals before 'n' were propagated, and with the covered literals before 'm' nothing can be done.
  // The covered literals are only looked at when all added ones were propagated.
  ghost predicate Progress(s: State, n: nat, m: nat, frozen: set<nat>) {
    forall u {:trigger Peek(u)} :: Peek(u) ==>
      && n <= |s.added| && m <= |s.covered| && s.base <= s.done && (n < |s.added| ==> m == 0)
      && (forall i {:trigger s.added[i]} :: 0 <= i < n ==> -s.added[i] in s.done)
      && forall i {:trigger s.covered[i]} :: 0 <= i < m ==> Stuck(s.db, frozen, s.vals, s.covered[i])
  }

  lemma ProgressBounds(s: State, n: nat, m: nat, frozen: set<nat>)
    requires Progress(s, n, m, frozen)
    ensures n <= |s.added| && m <= |s.covered| && (n < |s.added| ==> m == 0)
  {
    assert Peek(0);
  }

  lemma ProgressStart(s: State, frozen: set<nat>)
    requires s.base <= s.done
    ensures Progress(s, 0, 0, frozen)
  {
  }

  lemma ProgressAdded(s: State, t: State, n: nat, frozen: set<nat>)
    requires n > 0 && Progress(s, n - 1, 0, frozen) && n <= |s.added| && s.added <= t.added && t.base == s.base
    requires t.done == s.done + {-t.added[n-1]}
    ensures Progress(t, n, 0, frozen)
  {
    assert Peek(0);
    forall i | 0 <= i < n ensures -t.added[i] in t.done {
      assert t.added[i] == s.added[i];
    }
  }

  lemma ProgressCovered(s: State, t: State, n: nat, m: nat, m': nat, frozen: set<nat>)
    requires Progress(s, n, m, frozen) && s.added <= t.added && t.base == s.base && t.done == s.done && n == |s.added|
    requires m' == 0 || (t == s && m' == m + 1 && m < |s.covered| && Stuck(s.db, frozen, s.vals, s.covered[m]))
    ensures Progress(t, n, m', frozen)
  {
    assert Peek(0);
    forall i | 0 <= i < n ensures -t.added[i] in t.done {
      assert t.added[i] == s.added[i];
    }
  }

  // Lexicographically smaller, with the second and third component bounded where they count.
  predicate LessToDo(a: nat, b: int, c: int, a0: nat, b0: int, c0: int) {
    a < a0 || (a == a0 && ((b < b0 && b0 > 0) || (b == b0 && c < c0 && c0 > 0)))
  }

  // ----- The state between clauses.

  ghost predicate Ready(db: WA.Db, ws: WA.Watchers, root: seq<Lit>, base: set<Lit>) {
    forall u {:trigger Peek(u)} :: Peek(u) ==>
      WA.WatchInv(db, ws) && WA.TrailOk(root, LitsOf(root)) && base <= LitsOf(root) && WA.Settled(db, base, base)
  }

  lemma ReadyLess(db: WA.Db, ws: WA.Watchers, root: seq<Lit>, base: set<Lit>, c: nat, occs: map<Lit, seq<nat>>, frozen: set<nat>,
                  saved: seq<nat>)
    requires Ready(db, ws, root, base) && c < |db| && OccsOk(db, occs, frozen) && SavedOk(db, saved)
    ensures var db' := db[c := db[c].(live := false)];
            Ready(db', ws, root, base) && OccsOk(db', occs, frozen) && SavedOk(db', saved)
  {
    var db' := db[c := db[c].(live := false)];
    forall l ensures OccOk(db', frozen, l, Occ(occs, l)) {
      assert OccOk(db, frozen, l, Occ(occs, l));
    }
    assert Peek(0);
    WA.FewerLiveKeeps(db, ws, db', base, base);
  }

  // The propagation invariant before anything is assumed.
  lemma KeptIntro(s: WA.Prop, base: set<Lit>)
    requires WA.WatchInv(s.db, s.ws) && WA.TrailOk(s.trail, s.vals) && base <= s.vals && WA.Settled(s.db, base, base)
    ensures Kept(s, base, base)
  {
    WA.AnyImplies(s.vals);
    forall k | 0 <= k < |s.db| ensures Entails(WA.Any(), LitsOf(s.db[k].lits)) {
      WA.AnyEntails(LitsOf(s.db[k].lits));
    }
    WA.MoreTrue(s.db, base, base, s.vals);
  }

  lemma IdleStart(s: State, c: nat, root: seq<Lit>)
    requires Ready(s.db, s.ws, root, s.base) && s.trail == root && s.vals == LitsOf(root) && s.added == [] && s.covered == []
    requires c < |s.db| && s.done == s.base
    ensures Idle(s, c, root, Remaining(s.db, c, root)) && WA.Distinct(s.db[c].lits) && |s.db[c].lits| >= 2
  {
    assert Peek(0);
    var f := Remaining(s.db, c, root);
    WA.FewerLiveKeeps(s.db, s.ws, Ignore(s.db, c), s.base, s.base);
    KeptIntro(PropOf(s, c), s.base);
    ForcedStart(f, root);
    assert Negated([]) == [] && root + [] == root && LitsOf([]) == {};
  }

  lemma StackedStart(s: State, c: nat, root: seq<Lit>, f: Formula)
    requires Idle(s, c, root, f)
    ensures Stacked(f, [], [], s.covered, s.covered)
  {
  }

  lemma ListsStart(db: WA.Db, ws: WA.Watchers, c: nat, saved: seq<nat>, occs: map<Lit, seq<nat>>, frozen: set<nat>)
    requires SavedOk(db, saved) && OccsOk(db, occs, frozen) && c < |db|
    ensures Lists(db, ws, db, ws, c, saved, occs, frozen)
  {
    CK.SameClausesReflexive(db);
  }

  // Watches of the candidate did not move, so it can be watched again.
  lemma ListsEnd(db0: WA.Db, ws0: WA.Watchers, db: WA.Db, ws: WA.Watchers, root: seq<Lit>, c: nat, saved: seq<nat>,
                 occs: map<Lit, seq<nat>>, frozen: set<nat>, s: State, f: Formula)
    requires Lists(db0, ws0, db, ws, c, saved, occs, frozen) && Ready(db0, ws0, root, s.base)
    requires Idle(s, c, root, f) && s.db == db && s.ws == ws
    ensures Ready(db, ws, root, s.base) && SavedOk(db, saved) && OccsOk(db, occs, frozen)
    ensures CK.SameClauses(db0, db) && c < |db| && db[c] == db0[c]
  {
    assert Peek(0);
    assert Look(0);
    RestoreWatches(db0, ws0, db, ws, c);
    RestoreSettled(db0, db, c, s.base);
  }

  lemma RestoreSettled(db0: WA.Db, db: WA.Db, c: nat, base: set<Lit>)
    requires WA.Shaped(db0) && WA.Settled(db0, base, base) && WA.Shaped(db)
    requires WA.Shaped(Ignore(db, c)) && WA.Settled(Ignore(db, c), base, base)
    requires |db| == |db0| && c < |db| && db[c] == db0[c]
    ensures WA.Settled(db, base, base)
  {
    var v := Ignore(db, c);
    forall k | 0 <= k < |db| && db[k].live ensures WA.SettledClause(db[k], base, base) {
      if k == c {
        assert WA.SettledClause(db0[c], base, base);
      } else {
        assert WA.SettledClause(v[k], base, base) && v[k] == db[k];
      }
    }
  }

  lemma RestoreWatches(db0: WA.Db, ws0: WA.Watchers, db: WA.Db, ws: WA.Watchers, c: nat)
    requires WA.WatchInv(db0, ws0) && WA.WatchInv(Ignore(db, c), ws) && SameLists(ws0, ws, c)
    requires |db| == |db0| && c < |db| && db[c] == db0[c]
    ensures WA.WatchInv(db, ws)
  {
    var v := Ignore(db, c);
    forall k | 0 <= k < |db| ensures |db[k].lits| >= 2 && WA.Distinct(db[k].lits) {
      assert v[k].lits == db[k].lits;
    }
    forall l ensures WA.ListShape(db, l, WA.WatchList(ws, l)) {
      RestoreShape(db0, ws0, db, ws, c, l);
    }
    forall k | 0 <= k < |db| && db[k].live ensures WA.WatchedAt(db, ws, k) {
      if k == c {
        assert WA.WatchedAt(db0, ws0, c);
      } else {
        assert WA.WatchedAt(v, ws, k);
      }
    }
  }

  lemma RestoreShape(db0: WA.Db, ws0: WA.Watchers, db: WA.Db, ws: WA.Watchers, c: nat, l: Lit)
    requires WA.WatchInv(db0, ws0) && WA.ListShape(Ignore(db, c), l, WA.WatchList(ws, l)) && SameLists(ws0, ws, c)
    requires |db| == |db0| && c < |db| && db[c] == db0[c]
    ensures WA.ListShape(db, l, WA.WatchList(ws, l))
  {
    var v, list := Ignore(db, c), WA.WatchList(ws, l);
    forall w | w in list ensures WA.WatchShape(db, l, w) {
      assert WA.WatchShape(v, l, w);
      if w.clause == c {
        var i :| 0 <= i < |list| && list[i] == w;
        assert WA.Has(list, c);
        var j :| 0 <= j < |WA.WatchList(ws0, l)| && WA.WatchList(ws0, l)[j].clause == c;
        assert WA.ListShape(db0, l, WA.WatchList(ws0, l));
        assert WA.WatchShape(db0, l, WA.WatchList(ws0, l)[j]);
      }
    }
  }

  lemma IdleTrail(s: State, c: nat, root: seq<Lit>, f: Formula)
    requires Idle(s, c, root, f)
    ensures s.vals == LitsOf(root) + Negations(s.added)
    ensures forall i, j :: 0 <= i < j < |s.added| ==> s.added[i] != s.added[j]
    ensures forall l :: l in s.added ==> -l !in root
  {
    assert Look(0);
    var n := Negated(s.added);
    forall l ensures l in s.vals <==> l in LitsOf(root) + Negations(s.added) {
      assert l in s.trail <==> l in root || l in n;
      if l in n {
        var i :| 0 <= i < |n| && n[i] == l;
        assert s.added[i] in s.added;
      }
      if l in Negations(s.added) {
        var k :| k in s.added && l == -k;
        var i :| 0 <= i < |s.added| && s.added[i] == k;
        assert n[i] == l;
      }
    }
    forall i, j | 0 <= i < j < |s.added| ensures s.added[i] != s.added[j] {
      assert s.trail[|root| + i] == n[i] && s.trail[|root| + j] == n[j];
    }
    forall l | l in s.added ensures -l !in root {
      var i :| 0 <= i < |s.added| && s.added[i] == l;
      assert s.trail[|root| + i] == -l;
      assert forall j :: 0 <= j < |root| ==> s.trail[j] == root[j];
    }
  }

  // False literals stay false while literals are added.
  lemma StillFalse(s: State, t: State, c: nat, root: seq<Lit>, f: Formula)
    requires Idle(s, c, root, f) && Idle(t, c, root, f) && s.added <= t.added
    ensures s.vals <= t.vals
  {
    IdleTrail(s, c, root, f);
    IdleTrail(t, c, root, f);
    assert forall l :: l in s.added ==> l in t.added;
  }

  lemma RemainingNegations(root: seq<Lit>, added: seq<Lit>, i: nat)
    requires i < |added| && -added[i] !in root && forall a, b :: 0 <= a < b < |added| ==> added[a] != added[b]
    ensures LitsOf(root) + Negations(added[i..]) - {-added[i]} == LitsOf(root) + Negations(added[i+1..])
  {
    assert added[i..] == [added[i]] + added[i+1..];
    assert added[i] !in added[i+1..];
    assert forall k :: k in added[i..] <==> k == added[i] || k in added[i+1..];
    NegationsSplit(added[i..], added[i], added[i+1..]);
  }

  lemma NegationsSplit(s: seq<Lit>, l: Lit, t: seq<Lit>)
    requires l !in t && forall k :: k in s <==> k == l || k in t
    ensures Negations(s) - {-l} == Negations(t)
  {
    forall n ensures n in Negations(s) && n != -l <==> n in Negations(t) {
      if n in Negations(s) && n != -l {
        var k :| k in s && n == -k;
      }
      if n in Negations(t) {
        var k :| k in t && n == -k;
        assert k in s && k != l;
      }
    }
  }

  // ----- What it means that a clause is not removed.

  // Not all literals are false, and if all but one are then that one is true.
  ghost predicate NotUnit(lits: seq<Lit>, vals: set<Lit>) {
    && (exists l :: l in lits && -l !in vals)
    && forall u :: u in lits && WA.OthersFalse(lits, u, vals) ==> u in vals
  }

  // The clause was extended: its literals and the covered ones are false, all values are implied by the
  // covered literals being false, and the entries 'ps' lead from literals of the clause to the covered ones.
  ghost predicate Extends(db: WA.Db, c: nat, root: seq<Lit>, covered: seq<Lit>, vals: set<Lit>, ps: seq<Push>) {
    && c < |db| && (forall l :: l in root ==> l in vals) && (forall l :: l in vals ==> -l !in vals)
    && (forall l :: l in db[c].lits || l in covered ==> -l in vals)
    && CC.Forced(Remaining(db, c, root), LitsOf(covered), Falses(vals)) && LinkedTo(Remaining(db, c, root), ps, covered)
    && forall l :: l in (if ps == [] then covered else ps[0].covered) ==> l in db[c].lits
  }

  // Nothing more can be added.
  ghost predicate Saturated(db: WA.Db, c: nat, frozen: set<nat>, covered: seq<Lit>, vals: set<Lit>, complete: bool) {
    && (forall l {:trigger Stuck(db, frozen, vals, l)} :: l in covered ==> Stuck(db, frozen, vals, l))
    && (complete ==> forall k: nat {:trigger Remains(db, c, k)} :: Remains(db, c, k) ==> NotUnit(db[k].lits, vals))
  }

  ghost predicate Exhausted(db: WA.Db, c: nat, root: seq<Lit>, frozen: set<nat>, complete: bool) {
    exists covered, vals, ps {:trigger Extends(db, c, root, covered, vals, ps)} ::
      Extends(db, c, root, covered, vals, ps) && Saturated(db, c, frozen, covered, vals, complete)
  }

  lemma StuckSame(db: WA.Db, db': WA.Db, frozen: set<nat>, vals: set<Lit>, lit: Lit)
    requires CK.SameClauses(db, db') && Stuck(db', frozen, vals, lit)
    ensures Stuck(db, frozen, vals, lit)
  {
    forall k | 0 <= k < |db| ensures forall l :: l in db[k].lits <==> l in db'[k].lits {
      WA.SameMembers(db[k].lits, db'[k].lits);
    }
    forall k: nat ensures Candidate(db, lit, vals, k) <==> Candidate(db', lit, vals, k) {
    }
    forall l ensures Shared(db, lit, vals, l) <==> Shared(db', lit, vals, l) {
      SharedSame(db, db', lit, vals, l);
      SharedSame(db', db, lit, vals, l);
    }
  }

  lemma SharedSame(db: WA.Db, db': WA.Db, lit: Lit, vals: set<Lit>, l: Lit)
    requires |db| == |db'|
    requires forall k :: 0 <= k < |db| ==> db[k].live == db'[k].live && forall x :: x in db[k].lits <==> x in db'[k].lits
    ensures Shared(db, lit, vals, l) ==> Shared(db', lit, vals, l)
  {
    if Shared(db, lit, vals, l) {
      forall k: nat | k < |db'| && db'[k].live && -lit in db'[k].lits && !Blocked(db'[k].lits, lit, vals) ensures l in db'[k].lits {
        assert db[k].live;
      }
    }
  }

  // All values were propagated.
  lemma AllDone(s: State, c: nat, root: seq<Lit>, f: Formula, frozen: set<nat>, m: nat)
    requires Idle(s, c, root, f) && Progress(s, |s.added|, m, frozen) && s.base == LitsOf(root)
    ensures s.done == s.vals
  {
    IdleTrail(s, c, root, f);
    IdleDone(s, c, root, f);
    NegationsDone(s, frozen, m);
  }

  lemma IdleDone(s: State, c: nat, root: seq<Lit>, f: Formula)
    requires Idle(s, c, root, f)
    ensures s.done <= s.vals
  {
    assert Look(0);
  }

  lemma NegationsDone(s: State, frozen: set<nat>, m: nat)
    requires Progress(s, |s.added|, m, frozen)
    ensures s.base + Negations(s.added) <= s.done
  {
    assert Peek(0);
    forall l | l in Negations(s.added) ensures l in s.done {
      var k :| k in s.added && l == -k;
      var i :| 0 <= i < |s.added| && s.added[i] == k;
    }
  }

  lemma SettledClauses(s: State, c: nat, root: seq<Lit>, f: Formula, frozen: set<nat>, m: nat, k: nat)
    requires Idle(s, c, root, f) && Progress(s, |s.added|, m, frozen) && s.base == LitsOf(root) && Remains(s.db, c, k)
    ensures NotUnit(s.db[k].lits, s.vals)
  {
    AllDone(s, c, root, f, frozen, m);
    assert Look(0);
    var v := Ignore(s.db, c);
    assert v[k] == s.db[k];
    forall u ensures !CK.FalsifiedUnder(v[k], s.vals) && (u in v[k].lits && WA.OthersFalse(v[k].lits, u, s.vals) ==> u in s.vals) {
      CK.SettledNotUnit(v, s.vals, k, u);
    }
  }

  lemma ExhaustedIntro(db: WA.Db, s: State, c: nat, root: seq<Lit>, f: Formula, ps: seq<Push>, extend: seq<int>, first: seq<Lit>,
                       frozen: set<nat>)
    requires Idle(s, c, root, f) && CK.SameClauses(db, s.db) && Stacked(f, ps, extend, s.covered, first)
    requires Progress(s, |s.added|, |s.covered|, frozen) && s.db[c] == db[c]
    requires (forall l :: l in s.db[c].lits ==> -l in s.vals) && forall l :: l in first ==> l in s.db[c].lits
    ensures Exhausted(db, c, root, frozen, s.base == LitsOf(root))
  {
    RemainingSame(db, s.db, c, root);
    ExtendsIntro(db, s, c, root, f, ps, extend, first);
    forall l | l in s.covered ensures Stuck(db, frozen, s.vals, l) {
      assert Peek(0);
      var i :| 0 <= i < |s.covered| && s.covered[i] == l;
      StuckSame(db, s.db, frozen, s.vals, s.covered[i]);
    }
    if s.base == LitsOf(root) {
      forall k: nat | Remains(db, c, k) ensures NotUnit(db[k].lits, s.vals) {
        SettledClauses(s, c, root, f, frozen, |s.covered|, k);
        WA.SameMembers(db[k].lits, s.db[k].lits);
      }
    }
    assert Saturated(db, c, frozen, s.covered, s.vals, s.base == LitsOf(root));
  }

  lemma ExtendsIntro(db: WA.Db, s: State, c: nat, root: seq<Lit>, f: Formula, ps: seq<Push>, extend: seq<int>, first: seq<Lit>)
    requires Idle(s, c, root, f) && Remaining(db, c, root) == f && c < |db| && s.db[c] == db[c]
    requires Stacked(f, ps, extend, s.covered, first)
    requires (forall l :: l in s.db[c].lits ==> -l in s.vals) && forall l :: l in first ==> l in s.db[c].lits
    ensures Extends(db, c, root, s.covered, s.vals, ps)
  {
    IdleTrail(s, c, root, f);
    assert Peek(0);
    assert Look(0);
    forall l | l in s.vals ensures -l !in s.vals {
      TrailConsistent(s.trail, s.vals, l);
    }
  }

  lemma TrailConsistent(trail: seq<Lit>, vals: set<Lit>, l: Lit)
    requires WA.TrailOk(trail, vals)
    ensures l in vals ==> -l !in vals
  {
  }

  // A purely asymmetric success means that the clause follows from the others.
  lemma AsymmetricEntailed(f: Formula, ps: seq<Push>, extend: seq<int>, covered: seq<Lit>, first: seq<Lit>, lits: seq<Lit>)
    requires Closed(f, ps, extend, covered, first) && extend == [] && forall l :: l in first ==> l in lits
    ensures Entails(f, LitsOf(lits))
  {
    assert Peek(0);
    if ps != [] {
      FlatStarts(ps);
    } else {
      forall m: Model | Models(m, f) ensures Sat(m, LitsOf(lits)) {
        var l :| l in LitsOf(covered) && Holds(m, l);
        assert l in LitsOf(lits);
      }
    }
  }

  // The literals of the clause are assumed to be false.
  ghost predicate Assumed(lits: seq<Lit>, vals: set<Lit>, first: seq<Lit>) {
    (forall l :: l in lits ==> -l in vals) && forall l :: l in first ==> l in lits
  }

  lemma NotRemoved(db: WA.Db, s: State, c: nat, root: seq<Lit>, f: Formula, ps: seq<Push>, extend: seq<int>, first: seq<Lit>,
                   frozen: set<nat>, tautological: bool)
    requires Idle(s, c, root, f) && CK.SameClauses(db, s.db) && s.db[c] == db[c]
    requires if tautological then Closed(f, ps, extend, s.covered, first) && extend == []
             else Stacked(f, ps, extend, s.covered, first) && Progress(s, |s.added|, |s.covered|, frozen)
    requires Assumed(db[c].lits, s.vals, first)
    ensures if tautological then Entails(f, LitsOf(db[c].lits)) else Exhausted(db, c, root, frozen, s.base == LitsOf(root))
  {
    if tautological {
      AsymmetricEntailed(f, ps, extend, s.covered, first, db[c].lits);
    } else {
      ExhaustedIntro(db, s, c, root, f, ps, extend, first, frozen);
    }
  }

  // ----- The removal is justified.

  // The entries pushed reconstruct the clause.
  ghost predicate Eliminated(f: Formula, clause: Clause, extension: seq<int>, extension': seq<int>) {
    exists es: seq<EX.Entry> ::
      es != [] && extension' == extension + EX.EncodeAll(es) && RE.Reconstructs(f, es, f + iset{clause})
  }

  // Unassigned literals that may be shared.
  ghost predicate Fits(db: WA.Db, lit: Lit, vals: set<Lit>, inter: seq<Lit>) {
    forall u {:trigger Look(u)} :: Look(u) ==>
      WA.Distinct(inter) && forall l :: l in inter ==> l != -lit && WA.Val(vals, l) == 0 && l in CK.Universe(db)
  }

  lemma FitsAll(db: WA.Db, lit: Lit, vals: set<Lit>, inter: seq<Lit>)
    requires Fits(db, lit, vals, inter)
    ensures WA.Distinct(inter) && forall l :: l in inter ==> l != -lit && WA.Val(vals, l) == 0 && l in CK.Universe(db)
  {
    assert Look(0);
  }

  // A clause with the negated literal that has no other true literal.
  ghost predicate Candidate(db: WA.Db, lit: Lit, vals: set<Lit>, k: nat) {
    k < |db| && db[k].live && -lit in db[k].lits && !Blocked(db[k].lits, lit, vals)
  }

  ghost predicate SomeCandidate(db: WA.Db, lit: Lit, vals: set<Lit>) {
    exists k: nat {:trigger Candidate(db, lit, vals, k)} :: Candidate(db, lit, vals, k)
  }

  // Nothing can be done with the covered literal: it is frozen, or a resolution candidate is not blocked
  // and there is no unassigned literal that all such candidates share.
  ghost predicate Stuck(db: WA.Db, frozen: set<nat>, vals: set<Lit>, lit: Lit) {
    || Var(lit) in frozen
    || (SomeCandidate(db, lit, vals) &&
        forall l {:trigger Shared(db, lit, vals, l)} :: l != -lit && WA.Val(vals, l) == 0 ==> !Shared(db, lit, vals, l))
  }

  ghost predicate SharedList(db: WA.Db, lit: Lit, vals: set<Lit>, inter: seq<Lit>) {
    forall l {:trigger l in inter} :: l in inter <==> l != -lit && WA.Val(vals, l) == 0 && Shared(db, lit, vals, l)
  }

  lemma StuckIntro(db: WA.Db, frozen: set<nat>, vals: set<Lit>, lit: Lit, inter: seq<Lit>)
    requires SomeCandidate(db, lit, vals) && inter == [] && SharedList(db, lit, vals, inter)
    ensures Stuck(db, frozen, vals, lit)
  {
    assert forall l {:trigger Shared(db, lit, vals, l)} :: l !in inter;
  }

  // Exactly the unassigned literals shared by the candidates are added.
  ghost predicate SharedAdded(db: WA.Db, lit: Lit, vals: set<Lit>, covered: seq<Lit>, covered': seq<Lit>) {
    covered < covered' && forall l {:trigger Shared(db, lit, vals, l)} ::
      l in covered'[|covered|..] <==> l != -lit && WA.Val(vals, l) == 0 && Shared(db, lit, vals, l)
  }

  lemma SharedIntro(db: WA.Db, lit: Lit, vals: set<Lit>, covered: seq<Lit>, inter: seq<Lit>)
    requires inter != [] && SharedList(db, lit, vals, inter)
    ensures SharedAdded(db, lit, vals, covered, covered + inter)
  {
    assert (covered + inter)[|covered|..] == inter;
  }

  // The literal is in all resolution candidates that are not blocked.
  ghost predicate Shared(db: WA.Db, lit: Lit, vals: set<Lit>, l: Lit) {
    forall k: nat {:trigger db[k]} :: k < |db| && db[k].live && -lit in db[k].lits && !Blocked(db[k].lits, lit, vals) ==> l in db[k].lits
  }

  ghost predicate SharedKept(db: WA.Db, lit: Lit, vals: set<Lit>, inter: seq<Lit>) {
    forall l {:trigger l in inter} :: l != -lit && WA.Val(vals, l) == 0 && Shared(db, lit, vals, l) ==> l in inter
  }

  lemma ScannedMore(db: WA.Db, os: seq<nat>, i: nat, lit: Lit, vals: set<Lit>, first: bool, inter: seq<Lit>, r: seq<Lit>)
    requires Scanned(db, os, i, lit, vals, first, inter) && i < |os| && os[i] < |db|
    requires forall l :: l in r ==> l in db[os[i]].lits && (!first ==> l in inter)
    ensures Scanned(db, os, i + 1, lit, vals, false, r)
  {
    forall j | 0 <= j < i + 1 && j < |os| ensures ScannedAt(db, os[j], lit, vals, false, r) {
      if j < i {
        assert ScannedAt(db, os[j], lit, vals, first, inter);
      }
    }
  }

  lemma SharedFirst(db: WA.Db, lit: Lit, vals: set<Lit>, k: nat, inter: seq<Lit>)
    requires k < |db| && db[k].live && -lit in db[k].lits && !Blocked(db[k].lits, lit, vals)
    requires forall l {:trigger l in inter} :: l in inter <==> l in db[k].lits && l != -lit && WA.Val(vals, l) == 0
    ensures SharedKept(db, lit, vals, inter)
  {
  }

  lemma SharedNext(db: WA.Db, lit: Lit, vals: set<Lit>, k: nat, inter: seq<Lit>, r: seq<Lit>)
    requires k < |db| && db[k].live && -lit in db[k].lits && !Blocked(db[k].lits, lit, vals) && SharedKept(db, lit, vals, inter)
    requires forall l {:trigger l in r} :: l in r <==> l in inter && l in db[k].lits
    ensures SharedKept(db, lit, vals, r)
  {
    forall l | l != -lit && WA.Val(vals, l) == 0 && Shared(db, lit, vals, l) ensures l in r {
      assert l in inter;
    }
  }

  lemma EliminatedPushed(f: Formula, clause: Clause, extension: seq<int>, extension': seq<int>)
    requires Eliminated(f, clause, extension, extension')
    ensures extension' != extension
  {
    var es: seq<EX.Entry> :| es != [] && extension' == extension + EX.EncodeAll(es) && RE.Reconstructs(f, es, f + iset{clause});
    EX.EncodeNonEmpty(es);
  }

  lemma EliminatedIntro(f: Formula, steps: seq<CC.Step>, final: Clause, clause: Clause, extension: seq<int>, extension': seq<int>)
    requires |steps| > 0 && CC.Linked(f, steps) && CC.Ends(f, steps[|steps|-1], final) && LitsOf(steps[0].lits) <= clause
    requires extension' == extension + EX.EncodeAll(CC.Pushes(steps))
    ensures Eliminated(f, clause, extension, extension')
  {
    CC.CoveredReconstructs(f, steps, final);
    CC.SupersetReconstructs(f, CC.Pushes(steps), LitsOf(steps[0].lits), clause);
    assert CC.Pushes(steps) != [];
  }

  lemma ClosedProper(f: Formula, ps: seq<Push>, extend: seq<int>, covered: seq<Lit>, first: seq<Lit>)
    requires Closed(f, ps, extend, covered, first) && extend != []
    ensures ps != [] && Proper(ps) && forall i {:trigger ps[i]} :: 0 <= i < |ps| ==> ps[i].lit in ps[i].covered && ps[i].covered <= covered
    ensures ps[0].covered == first
  {
    assert Peek(0);
    assert ps != [];
    var n := |ps| - 1;
    forall i | 0 <= i < |ps| ensures ps[i].lit in ps[i].covered && ps[i].covered <= covered && 0 !in ps[i].covered {
      assert i < n ==> ps[..n][i] == ps[i];
    }
  }

  lemma NothingContradicts(s: State, c: nat, root: seq<Lit>, f: Formula, ps: seq<Push>, missing: seq<Lit>)
    requires Idle(s, c, root, f) && (forall l :: l in missing ==> -l in s.vals)
    requires forall i {:trigger ps[i]} :: 0 <= i < |ps| ==> ps[i].lit in ps[i].covered && ps[i].covered <= s.covered
    ensures !Contradicting(ps, missing)
  {
    forall i | 0 <= i < |ps| ensures -ps[i].lit !in missing {
      assert ps[i].lit in s.covered;
      IdleFacts(s, c, root, f, ps[i].lit);
      assert -(-ps[i].lit) == ps[i].lit;
    }
  }

  lemma FirstStep(ps: seq<Push>, missing: seq<Lit>, last: seq<Lit>, id: nat, lits: seq<Lit>)
    requires ps != [] && ps[0].lit in ps[0].covered && (last == missing || last == [])
    requires (forall l :: l in missing ==> l in lits) && forall l :: l in ps[0].covered ==> l in lits
    ensures LitsOf(StepsOf(ps, missing, last, id)[0].lits) <= LitsOf(lits)
  {
    var m := if |ps| == 1 then last else missing;
    StepLits(ps[0], m, id + 0);
    assert StepsOf(ps, missing, last, id)[0] == StepOf(ps[0], m, id + 0);
    forall l | l in LitsOf(ps[0].covered) + LitsOf(m) ensures l in lits {
    }
  }

  lemma ClosedJustifies(s: State, c: nat, root: seq<Lit>, f: Formula, ps: seq<Push>, extend: seq<int>, first: seq<Lit>,
                        missing: seq<Lit>, last: seq<Lit>, id: nat)
    requires Idle(s, c, root, f) && Closed(f, ps, extend, s.covered, first) && extend != []
    requires (forall l :: l in missing ==> -l in s.vals && l in s.db[c].lits) && (last == missing || last == [])
    requires forall l :: l in first ==> l in s.db[c].lits
    ensures var steps := StepsOf(ps, missing, last, id);
            && |steps| > 0 && CC.Linked(f, steps) && CC.Ends(f, steps[|steps|-1], LitsOf(s.covered))
            && LitsOf(steps[0].lits) <= LitsOf(s.db[c].lits)
  {
    ClosedProper(f, ps, extend, s.covered, first);
    NothingContradicts(s, c, root, f, ps, missing);
    var n := |ps| - 1;
    FirstStep(ps, missing, last, id, s.db[c].lits);
    assert Fitting(ps, missing, last);
    if Stacked(f, ps, extend, s.covered, first) && Entails(f, LitsOf(s.covered)) {
      assert Peek(0);
      SubsumedJustifies(f, ps, s.covered, missing, last, id);
    } else {
      assert Peek(0);
      assert ps == ps[..n] + [ps[n]];
      BlockedJustifies(f, ps[..n], ps[n], missing, last, id, LitsOf(s.covered));
    }
  }
}
