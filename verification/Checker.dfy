// The online DRUP checker: unit propagation over watched clauses, the check of derived clauses
// by reverse unit propagation, and lazy deletion.
module Checker {
  import opened Cnf
  import opened Watching
  import LratSpec

  // ----- Naive unit propagation, as a reference.

  ghost predicate UnitUnder(c: WClause, vals: set<Lit>, u: Lit) {
    c.live && u in c.lits && OthersFalse(c.lits, u, vals)
  }

  ghost predicate FalsifiedUnder(c: WClause, vals: set<Lit>) {
    c.live && forall l :: l in c.lits ==> -l in vals
  }

  // A derivation names the clauses that become unit one after the other, and the literals they
  // force; its last clause is falsified.
  datatype Hint = Hint(clause: nat, lit: Lit)

  ghost predicate Refutes(db: Db, vals: set<Lit>, hints: seq<Hint>, last: nat)
    decreases |hints|
  {
    if hints == [] then last < |db| && FalsifiedUnder(db[last], vals)
    else hints[0].clause < |db| && UnitUnder(db[hints[0].clause], vals, hints[0].lit)
         && Refutes(db, vals + {hints[0].lit}, hints[1..], last)
  }

  ghost predicate NaiveRup(db: Db, vals: set<Lit>) {
    exists hints, last :: Refutes(db, vals, hints, last)
  }

  ghost predicate ConsistentSet(vals: set<Lit>) {
    0 !in vals && forall l {:trigger -l in vals} :: l in vals ==> -l !in vals
  }

  // Where everything is settled no live clause is unit or falsified.
  lemma SettledNotUnit(db: Db, vals: set<Lit>, k: nat, u: Lit)
    requires Shaped(db) && Settled(db, vals, vals) && ConsistentSet(vals) && k < |db| && db[k].live
    ensures !FalsifiedUnder(db[k], vals)
    ensures u in db[k].lits && OthersFalse(db[k].lits, u, vals) ==> u in vals
  {
    var c := db[k];
    assert SettledClause(c, vals, vals);
    assert c.lits[0] in c.lits && c.lits[1] in c.lits && c.lits[0] != c.lits[1];
    if l :| l in c.lits && l in vals {
      assert -l !in vals;
    }
  }

  // Naive propagation never leaves a set in which everything is settled.
  lemma {:induction false} SettledNotRefuted(db: Db, vals: set<Lit>, start: set<Lit>, hints: seq<Hint>, last: nat)
    requires Shaped(db) && Settled(db, vals, vals) && ConsistentSet(vals) && start <= vals
    ensures !Refutes(db, start, hints, last)
    decreases |hints|
  {
    if hints == [] {
      if last < |db| && db[last].live {
        SettledNotUnit(db, vals, last, 0);
        FalsifiedMonotone(db[last], start, vals);
      }
    } else {
      var k, u := hints[0].clause, hints[0].lit;
      if k < |db| && UnitUnder(db[k], start, u) {
        assert OthersFalse(db[k].lits, u, vals);
        SettledNotUnit(db, vals, k, u);
        SettledNotRefuted(db, vals, start + {u}, hints[1..], last);
      }
    }
  }

  lemma FalsifiedMonotone(c: WClause, start: set<Lit>, vals: set<Lit>)
    requires start <= vals
    ensures FalsifiedUnder(c, start) ==> FalsifiedUnder(c, vals)
  {
  }

  // ----- Invariants of the checker, looked into only where 'Look' is mentioned.

  ghost predicate Kept(s: Prop, f: Formula, assumed: set<Lit>, base: set<Lit>, done: set<Lit>) {
    forall u {:trigger Look(u)} :: Look(u) ==> PropInv(s, f, assumed, base, done)
  }

  ghost predicate Visiting(s: Prop, f: Formula, assumed: set<Lit>, base: set<Lit>, done: set<Lit>, fl: Lit, i: nat) {
    forall u {:trigger Look(u)} :: Look(u) ==> VisitInv(s, f, assumed, base, done, fl, i)
  }

  ghost predicate Contradicts(f: Formula, assumed: set<Lit>) {
    forall m: Model {:trigger AllTrue(m, assumed)} :: Models(m, f) ==> !AllTrue(m, assumed)
  }

  // Propagation reorders the literals of clauses but changes no clause.
  ghost predicate SameClauses(db: Db, db': Db) {
    |db'| == |db| && forall k {:trigger db'[k]} :: 0 <= k < |db| ==>
      LitsOf(db'[k].lits) == LitsOf(db[k].lits) && db'[k].live == db[k].live
  }

  // What one visit needs to know about the watched clause.
  lemma VisitClause(s: Prop, f: Formula, assumed: set<Lit>, base: set<Lit>, done: set<Lit>, fl: Lit, i: nat)
    requires Visiting(s, f, assumed, base, done, fl, i) && i < |WatchList(s.ws, fl)|
    ensures var w := WatchList(s.ws, fl)[i];
            && w.clause < |s.db|
            && var lits := s.db[w.clause].lits;
               && w.size == |lits| >= 2 && Distinct(lits) && fl in lits && w.blit in lits && w.blit != fl
               && (s.db[w.clause].live ==> fl == lits[0] || fl == lits[1])
               && (|lits| == 2 ==> OthersFalse(lits, w.blit, s.vals))
    ensures -fl in s.vals && fl !in s.vals && fl != 0
  {
    assert Look(0);
    VisitBasics(s, fl, i);
    var lits := s.db[WatchList(s.ws, fl)[i].clause].lits;
    if |lits| == 2 {
      assert forall l :: l in lits ==> l == lits[0] || l == lits[1];
    }
    assert fl in s.vals ==> -fl !in s.vals;
  }

  lemma VisitConsistent(s: Prop, f: Formula, assumed: set<Lit>, base: set<Lit>, done: set<Lit>, fl: Lit, i: nat, l: Lit)
    requires Visiting(s, f, assumed, base, done, fl, i)
    ensures l in s.vals ==> -l !in s.vals
  {
    assert Look(0);
  }

  lemma VisitTrue(s: Prop, f: Formula, assumed: set<Lit>, base: set<Lit>, done: set<Lit>, fl: Lit, i: nat, l: Lit)
    requires Visiting(s, f, assumed, base, done, fl, i) && i < |WatchList(s.ws, fl)|
    requires ClauseAt(s, fl, i) < |s.db| && l in s.db[ClauseAt(s, fl, i)].lits && l in s.vals
    ensures Visiting(s, f, assumed, base, done, fl, i + 1)
  {
    assert Look(0);
    VisitSatisfied(s, f, assumed, base, done, fl, i);
  }

  lemma VisitFalse(s: Prop, f: Formula, assumed: set<Lit>, base: set<Lit>, done: set<Lit>, fl: Lit, i: nat, k: nat)
    requires Visiting(s, f, assumed, base, done, fl, i) && k < |s.db|
    requires forall l :: l in s.db[k].lits ==> -l in s.vals
    ensures Kept(s, f, assumed, base, done)
    ensures Contradicts(f, assumed)
  {
    assert Look(0);
    VisitConflict(s, f, assumed, base, done, k);
  }

  // The literals of a clause after the watched pair was put in order.
  function PairFirst(lits: seq<Lit>, other: Lit, fl: Lit): seq<Lit>
    requires |lits| >= 2
  {
    lits[0 := other][1 := fl]
  }

  lemma PairRearranged(db: Db, k: nat, other: Lit, fl: Lit)
    requires k < |db| && |db[k].lits| >= 2 && Distinct(db[k].lits)
    requires {db[k].lits[0], db[k].lits[1]} == {other, fl} && other != fl
    ensures Rearranged(db, db[k := db[k].(lits := PairFirst(db[k].lits, other, fl))], k, db[k].lits[0], db[k].lits[1])
  {
    var a, b := db[k].lits, PairFirst(db[k].lits, other, fl);
    assert (a[0] == other && a[1] == fl) || (a[0] == fl && a[1] == other);
    forall l ensures l in a <==> l in b {
      if l in a {
        var j :| 0 <= j < |a| && a[j] == l;
        assert b[if j >= 2 then j else if b[0] == l then 0 else 1] == l;
      }
      if l in b {
        var j :| 0 <= j < |b| && b[j] == l;
        assert a[if j >= 2 then j else if a[0] == l then 0 else 1] == l;
      }
    }
  }

  // Exchange the second watch with the literal at position 'n'.
  function Exchange(lits: seq<Lit>, n: nat): seq<Lit>
    requires 2 <= n < |lits|
  {
    lits[1 := lits[n]][n := lits[1]]
  }

  lemma ExchangeRearranged(db: Db, k: nat, n: nat)
    requires k < |db| && 2 <= n < |db[k].lits| && Distinct(db[k].lits)
    ensures Rearranged(db, db[k := db[k].(lits := Exchange(db[k].lits, n))], k, db[k].lits[0], db[k].lits[n])
  {
    var a, b := db[k].lits, Exchange(db[k].lits, n);
    forall l ensures l in a <==> l in b {
      if l in a {
        var j :| 0 <= j < |a| && a[j] == l;
        assert b[if j == 1 then n else if j == n then 1 else j] == l;
      }
      if l in b {
        var j :| 0 <= j < |b| && b[j] == l;
        assert a[if j == 1 then n else if j == n then 1 else j] == l;
      }
    }
  }

  lemma SameClausesUpdate(db: Db, db': Db, k: nat, x: Lit, y: Lit)
    requires Rearranged(db, db', k, x, y)
    ensures SameClauses(db, db')
  {
  }

  lemma SameClausesTransitive(a: Db, b: Db, c: Db)
    requires SameClauses(a, b) && SameClauses(b, c)
    ensures SameClauses(a, c)
  {
    forall k | 0 <= k < |a| ensures LitsOf(c[k].lits) == LitsOf(a[k].lits) && c[k].live == a[k].live {
      assert LitsOf(b[k].lits) == LitsOf(a[k].lits);
    }
  }

  function Universe(db: Db): set<Lit> {
    set k, l | 0 <= k < |db| && l in db[k].lits :: l
  }

  lemma SameUniverse(a: Db, b: Db)
    requires SameClauses(a, b)
    ensures Universe(a) == Universe(b)
  {
    forall k | 0 <= k < |a| ensures forall l :: l in a[k].lits <==> l in b[k].lits {
      SameMembers(a[k].lits, b[k].lits);
    }
  }

  // Literals that can still be assigned.
  function Room(db: Db, vals: set<Lit>): nat {
    |Universe(db) - vals|
  }

  lemma LessRoom(db: Db, vals: set<Lit>, u: Lit, k: nat)
    requires k < |db| && u in db[k].lits && u !in vals
    ensures Room(db, vals + {u}) < Room(db, vals)
  {
    assert Universe(db) - (vals + {u}) == Universe(db) - vals - {u};
    assert u in Universe(db) - vals;
  }

  // ----- What adding and deleting clauses changes.

  // The clause is the same as the one before, up to the order of its literals, and one is new.
  ghost predicate Extended(db: Db, db': Db, c: Clause) {
    && |db'| == |db| + 1 && SameClauses(db, db'[..|db|])
    && db'[|db|].live && LitsOf(db'[|db|].lits) == c
  }

  ghost predicate OnlyOpen(c: Clause, vals: set<Lit>, u: Lit) {
    u in c && -u !in vals && forall l {:trigger l in c} :: l in c ==> l == u || -l in vals
  }

  ghost predicate Falsified(c: Clause, vals: set<Lit>) {
    forall l {:trigger l in c} :: l in c ==> -l in vals
  }

  // A clause without true literals is added: an empty or falsified one makes the checker
  // inconsistent, the open literal of a unit is assigned and propagated, and all others are stored.
  ghost predicate Recorded(s: Prop, c: Clause, s': Prop, inconsistent: bool) {
    if Falsified(c, s.vals) then
      inconsistent && SameClauses(s.db, s'.db) && s'.vals == s.vals
    else if u :| OnlyOpen(c, s.vals, u) then
      SameClauses(s.db, s'.db) && s.vals <= s'.vals && u in s'.vals
    else
      !inconsistent && s'.vals == s.vals && s'.trail == s.trail && Extended(s.db, s'.db, c)
  }

  // Tautological and satisfied clauses are ignored.
  ghost predicate Ignored(c: seq<Lit>, vals: set<Lit>) {
    exists l :: l in c && (-l in c || l in vals)
  }

  lemma RecordedFalsified(s: Prop, lits: seq<Lit>)
    requires forall l :: l in lits ==> -l in s.vals
    ensures Recorded(s, LitsOf(lits), s, true)
  {
    SameClausesReflexive(s.db);
  }

  lemma RecordedUnit(s: Prop, lits: seq<Lit>, u: Lit, s': Prop, inconsistent: bool)
    requires u in lits && -u !in s.vals && OthersFalse(lits, u, s.vals)
    requires SameClauses(s.db, s'.db) && s.vals + {u} <= s'.vals
    ensures Recorded(s, LitsOf(lits), s', inconsistent)
  {
    var c := LitsOf(lits);
    assert OnlyOpen(c, s.vals, u);
    assert !Falsified(c, s.vals) by { assert u in c; }
    forall x | OnlyOpen(c, s.vals, x) ensures x == u {
    }
  }

  lemma RecordedStored(s: Prop, lits: seq<Lit>, s': Prop)
    requires exists i, j :: 0 <= i < j < |lits| && Val(s.vals, lits[i]) == 0 && Val(s.vals, lits[j]) == 0
    requires Distinct(lits) && s'.vals == s.vals && s'.trail == s.trail
    requires |s'.db| == |s.db| + 1 && s'.db[..|s.db|] == s.db && s'.db[|s.db|].live && LitsOf(s'.db[|s.db|].lits) == LitsOf(lits)
    ensures Recorded(s, LitsOf(lits), s', false)
  {
    var c := LitsOf(lits);
    var i, j :| 0 <= i < j < |lits| && Val(s.vals, lits[i]) == 0 && Val(s.vals, lits[j]) == 0;
    assert lits[i] in c && lits[j] in c && lits[i] != lits[j];
    SameClausesReflexive(s.db);
    assert Extended(s.db, s'.db, c);
  }

  lemma RecordedBefore(s0: Prop, s: Prop, c: Clause, s': Prop, inconsistent: bool)
    requires Recorded(s, c, s', inconsistent) && SameClauses(s0.db, s.db) && s.vals == s0.vals && s.trail == s0.trail
    ensures Recorded(s0, c, s', inconsistent)
  {
    if SameClauses(s.db, s'.db) {
      SameClausesTransitive(s0.db, s.db, s'.db);
    }
    if Extended(s.db, s'.db, c) {
      SameClausesTransitive(s0.db, s.db, s'.db[..|s.db|]);
    }
  }

  // The live clauses with the hash value and the literals.
  ghost predicate Matching(c: WClause, h: nat, hash: nat, lits: Clause) {
    c.live && h == hash && LitsOf(c.lits) == lits
  }

  // Exactly clause 'd' is removed, and all satisfied clauses if garbage is collected.
  ghost predicate Cleared(db: Db, db': Db, d: nat, collect: bool, vals: set<Lit>) {
    |db'| == |db| && forall k {:trigger db'[k]} :: 0 <= k < |db| ==>
      db'[k].lits == db[k].lits && (db'[k].live <==> db[k].live && k != d && !(collect && HasTrue(db[k], vals)))
  }

  ghost predicate Unknown(db: Db, hashes: seq<nat>, hash: nat, lits: Clause) {
    |hashes| == |db| && forall k {:trigger db[k]} :: 0 <= k < |db| ==> !Matching(db[k], hashes[k], hash, lits)
  }

  lemma IgnoredSame(c: seq<Lit>, d: seq<Lit>, vals: set<Lit>)
    requires LitsOf(d) == LitsOf(c)
    ensures Ignored(d, vals) <==> Ignored(c, vals)
  {
    assert forall l :: (l in c <==> l in LitsOf(c)) && (l in d <==> l in LitsOf(d));
  }

  // If only the clause stored last is new then it is the one deleted.
  lemma DeletedLast(
    db0: Db, h0: seq<nat>, db: Db, hashes: seq<nat>, db': Db, d: nat, hash: nat, lits: Clause, vals: set<Lit>)
    requires Extended(db0, db, lits) && |h0| == |db0| && hashes == h0 + [hash]
    requires d < |db| && Matching(db[d], hashes[d], hash, lits) && Cleared(db, db', d, false, vals)
    ensures Unknown(db0, h0, hash, lits) ==> |db'| == |db0| + 1 && SameClauses(db0, db'[..|db0|]) && !db'[|db0|].live
  {
    var n := |db0|;
    if Unknown(db0, h0, hash, lits) {
      forall k | 0 <= k < n ensures LitsOf(db'[..n][k].lits) == LitsOf(db0[k].lits) && db'[..n][k].live == db0[k].live {
        assert db'[..n][k] == db'[k] && db[..n][k] == db[k];
      }
    }
  }

  // A clause stored under another identifier that uses the same nonce stays.
  lemma OthersStay(
    nonces: LratSpec.Nonces, db: Db, hashes: seq<nat>, db': Db, d: nat, id: LratSpec.Id, other: LratSpec.Id,
    lits: Clause, vals: set<Lit>, k: nat)
    requires d < |db| == |hashes| && Matching(db[d], hashes[d], LratSpec.ComputeHash(nonces, id), lits)
    requires Cleared(db, db', d, false, vals)
    requires k < |db| && hashes[k] == LratSpec.ComputeHash(nonces, other) && other != id && other % 4 == id % 4
    ensures db'[k].live == db[k].live
  {
    if k == d {
      LratSpec.HashInjective(nonces, id, other);
    }
  }

  // Clauses without duplicates that have the same length and no more literals are the same.
  lemma SameSize(a: seq<Lit>, b: seq<Lit>)
    requires Distinct(a) && Distinct(b)
    ensures |a| == |b| && LitsOf(a) <= LitsOf(b) <==> LitsOf(a) == LitsOf(b)
  {
    DistinctSize(a);
    DistinctSize(b);
    if |a| == |b| && LitsOf(a) <= LitsOf(b) {
      SubsetSize(LitsOf(a), LitsOf(b));
    }
  }

  lemma {:induction false} DistinctSize(a: seq<Lit>)
    requires forall i, j :: 0 <= i < j < |a| ==> a[i] != a[j]
    ensures |LitsOf(a)| == |a|
    decreases |a|
  {
    if a != [] {
      var n := |a| - 1;
      assert a == a[..n] + [a[n]];
      DistinctSize(a[..n]);
      LitsOfLast(a[..n], a[n]);
      assert a[n] !in a[..n];
    }
  }

  lemma SubsetSize(a: Clause, b: Clause)
    requires a <= b && |a| == |b|
    ensures a == b
  {
    assert b * a == a && |b - a| == 0;
    assert b == a + (b - a);
  }

  lemma OneMore(trail: seq<Lit>, trail': seq<Lit>, n: nat)
    requires n < |trail| && trail <= trail'
    ensures LitsOf(trail'[..n+1]) == LitsOf(trail[..n]) + {-(-trail[n])}
  {
    assert trail'[..n+1] == trail[..n] + [trail[n]];
    assert -(-trail[n]) == trail[n];
    LitsOfLast(trail[..n], trail[n]);
  }

  class Checker {
    var db: Db
    var ws: Watchers
    var sizeVars: nat          // capacity of variable values
    var trail: seq<Lit>        // for propagation
    var vals: set<Lit>         // literals assigned to true
    var nextToPropagate: nat   // next to propagate on trail
    var inconsistent: bool     // found or added empty clause
    const nonces: LratSpec.Nonces
    var hashes: seq<nat>       // hash value of the identifier of each clause

    // All clauses that were ever added as original.
    ghost var added: Formula

    ghost function Snap(): Prop
      reads this
    {
      Prop(db, ws, trail, vals)
    }

    method Assign(lit: Lit)
      modifies `trail, `vals
      ensures trail == old(trail) + [lit] && vals == old(vals) + {lit}
    {
      vals := vals + {lit};
      trail := trail + [lit];
    }

    // The visited clause forces 'lit'; its watch is kept.
    method AssignVisited(fl: Lit, i: nat, lit: Lit, ghost assumed: set<Lit>, ghost base: set<Lit>, ghost done: set<Lit>)
      requires Visiting(Snap(), added, assumed, base, done, fl, i) && i < |WatchList(ws, fl)|
      requires ClauseAt(Snap(), fl, i) < |db| && lit in db[ClauseAt(Snap(), fl, i)].lits
      requires OthersFalse(db[ClauseAt(Snap(), fl, i)].lits, lit, vals) && lit !in vals && -lit !in vals
      modifies `trail, `vals
      ensures trail == old(trail) + [lit] && vals == old(vals) + {lit}
      ensures Visiting(Snap(), added, assumed, base, done, fl, i + 1)
      ensures Room(db, vals) < Room(db, old(vals))
    {
      ghost var s := Snap();
      LessRoom(db, vals, lit, ClauseAt(s, fl, i));
      Assign(lit);
      assert Look(0);
      VisitUnit(s, added, assumed, base, done, fl, i, lit, Snap());
    }

    method DropVisited(fl: Lit, i: nat, ghost assumed: set<Lit>, ghost base: set<Lit>, ghost done: set<Lit>)
      requires Visiting(Snap(), added, assumed, base, done, fl, i) && i < |WatchList(ws, fl)|
      requires ClauseAt(Snap(), fl, i) < |db| && !db[ClauseAt(Snap(), fl, i)].live
      modifies `ws
      ensures WatchList(ws, fl) == Without(WatchList(old(ws), fl), i)
      ensures Visiting(Snap(), added, assumed, base, done, fl, i)
    {
      ghost var s := Snap();
      ws := ws[fl := Without(ws[fl], i)];
      assert Look(0);
      VisitGarbage(s, added, assumed, base, done, fl, i, Snap());
    }

    // Position of the first literal after the watched pair that is not false.
    method FindReplacement(lits: seq<Lit>) returns (n: nat)
      requires |lits| > 2
      ensures 2 <= n <= |lits|
      ensures forall j :: 2 <= j < n ==> -lits[j] in vals && lits[j] !in vals
      ensures n < |lits| ==> Val(vals, lits[n]) >= 0
    {
      n := 2;
      while n < |lits|
        invariant 2 <= n <= |lits|
        invariant forall j :: 2 <= j < n ==> -lits[j] in vals && lits[j] !in vals
      {
        if Val(vals, lits[n]) >= 0 { break; }
        n := n + 1;
      }
    }

    // Let the clause be watched by the literal at position 'n' instead of 'fl'.
    method MoveWatch(fl: Lit, i: nat, n: nat, ghost assumed: set<Lit>, ghost base: set<Lit>, ghost done: set<Lit>)
      requires Visiting(Snap(), added, assumed, base, done, fl, i) && i < |WatchList(ws, fl)|
      requires ClauseAt(Snap(), fl, i) < |db| && db[ClauseAt(Snap(), fl, i)].live
      requires var lits := db[ClauseAt(Snap(), fl, i)].lits;
               2 <= n < |lits| && Distinct(lits) && lits[1] == fl && -lits[n] !in vals
      modifies `db, `ws
      ensures Visiting(Snap(), added, assumed, base, done, fl, i)
      ensures |WatchList(ws, fl)| == |WatchList(old(ws), fl)| - 1
      ensures SameClauses(old(db), db)
    {
      ghost var s := Snap();
      var k := ws[fl][i].clause;
      var lits := db[k].lits;
      var r := lits[n];
      assert lits[0] != r && lits[0] != fl && r != fl;
      ws := ws[fl := Without(ws[fl], i)];
      ws := ws[r := (if r in ws then ws[r] else []) + [Watch(fl, |lits|, k)]];
      db := db[k := db[k].(lits := Exchange(lits, n))];
      ExchangeRearranged(s.db, k, n);
      SameClausesUpdate(s.db, db, k, lits[0], r);
      assert Moved(s.db, s.ws, fl, i, lits[0], r, db, ws);
      assert Look(0);
      VisitMove(s, added, assumed, base, done, fl, i, lits[0], r, Snap());
    }

    // Put the watched pair in order.
    method OrderPair(fl: Lit, i: nat, k: nat, other: Lit, ghost assumed: set<Lit>, ghost base: set<Lit>, ghost done: set<Lit>)
      requires Visiting(Snap(), added, assumed, base, done, fl, i)
      requires k < |db| && |db[k].lits| >= 2 && Distinct(db[k].lits)
      requires {db[k].lits[0], db[k].lits[1]} == {other, fl} && other != fl
      modifies `db
      ensures db == old(db)[k := old(db)[k].(lits := PairFirst(old(db)[k].lits, other, fl))]
      ensures Visiting(Snap(), added, assumed, base, done, fl, i)
      ensures SameClauses(old(db), db) && Distinct(db[k].lits)
    {
      ghost var s := Snap();
      db := db[k := db[k].(lits := db[k].lits[0 := other][1 := fl])];
      PairRearranged(s.db, k, other, fl);
      SameClausesUpdate(s.db, db, k, s.db[k].lits[0], s.db[k].lits[1]);
      assert Look(0);
      VisitSwap(s, added, assumed, base, done, fl, i, k, Snap());
    }

    method BlitVisited(fl: Lit, i: nat, other: Lit, ghost assumed: set<Lit>, ghost base: set<Lit>, ghost done: set<Lit>)
      requires Visiting(Snap(), added, assumed, base, done, fl, i) && i < |WatchList(ws, fl)|
      requires ClauseAt(Snap(), fl, i) < |db| && other in db[ClauseAt(Snap(), fl, i)].lits && other in vals && other != fl
      modifies `ws
      ensures |WatchList(ws, fl)| == |WatchList(old(ws), fl)|
      ensures Visiting(Snap(), added, assumed, base, done, fl, i + 1)
    {
      ghost var s := Snap();
      ws := ws[fl := ws[fl][i := ws[fl][i].(blit := other)]];
      assert Look(0);
      VisitBlit(s, added, assumed, base, done, fl, i, other, Snap());
    }

    // A clause with more than two literals.
    method VisitLong(fl: Lit, i: nat, ghost assumed: set<Lit>, ghost base: set<Lit>, ghost done: set<Lit>)
      returns (next: nat, conflict: bool)
      requires Visiting(Snap(), added, assumed, base, done, fl, i) && i < |WatchList(ws, fl)|
      requires ClauseAt(Snap(), fl, i) < |db| && db[ClauseAt(Snap(), fl, i)].live && |db[ClauseAt(Snap(), fl, i)].lits| > 2
      modifies `db, `ws, `trail, `vals
      ensures SameClauses(old(db), db)
      ensures Progress(old(db), old(trail), old(vals), trail, vals)
      ensures conflict ==> Kept(Snap(), added, assumed, base, done) && Contradicts(added, assumed)
      ensures !conflict ==> Visiting(Snap(), added, assumed, base, done, fl, next)
      ensures !conflict ==> next <= |WatchList(ws, fl)| && |WatchList(ws, fl)| - next < |WatchList(old(ws), fl)| - i
    {
      VisitClause(Snap(), added, assumed, base, done, fl, i);
      var k := ws[fl][i].clause;
      var other := if db[k].lits[0] == fl then db[k].lits[1] else db[k].lits[0];
      conflict := false;
      if Val(vals, other) > 0 {
        next := i + 1;
        BlitVisited(fl, i, other, assumed, base, done);
        return;
      }
      OrderPair(fl, i, k, other, assumed, base, done);
      ghost var mid := db;
      SameUniverse(old(db), db);
      next, conflict := VisitOrdered(fl, i, k, assumed, base, done);
      SameClausesTransitive(old(db), mid, db);
    }

    // The false literal is the second watch and the first watch is not true.
    method VisitOrdered(fl: Lit, i: nat, k: nat, ghost assumed: set<Lit>, ghost base: set<Lit>, ghost done: set<Lit>)
      returns (next: nat, conflict: bool)
      requires Visiting(Snap(), added, assumed, base, done, fl, i) && i < |WatchList(ws, fl)|
      requires k == ClauseAt(Snap(), fl, i) && k < |db| && db[k].live && |db[k].lits| > 2 && Distinct(db[k].lits)
      requires db[k].lits[1] == fl && -fl in vals && db[k].lits[0] !in vals
      modifies `db, `ws, `trail, `vals
      ensures SameClauses(old(db), db)
      ensures Progress(old(db), old(trail), old(vals), trail, vals)
      ensures conflict ==> Kept(Snap(), added, assumed, base, done) && Contradicts(added, assumed)
      ensures !conflict ==> Visiting(Snap(), added, assumed, base, done, fl, next)
      ensures !conflict ==> next <= |WatchList(ws, fl)| && |WatchList(ws, fl)| - next < |WatchList(old(ws), fl)| - i
    {
      conflict := false;
      var other := db[k].lits[0];
      var n := FindReplacement(db[k].lits);
      if n < |db[k].lits| {
        next := i;
        VisitConsistent(Snap(), added, assumed, base, done, fl, i, db[k].lits[n]);
        MoveWatch(fl, i, n, assumed, base, done);
        return;
      }
      RestFalse(db[k].lits, vals, other, fl);
      next, conflict := VisitLast(fl, i, k, other, assumed, base, done);
    }

    // All literals but 'other' are false, and 'other' is not true.
    method VisitLast(fl: Lit, i: nat, k: nat, other: Lit, ghost assumed: set<Lit>, ghost base: set<Lit>, ghost done: set<Lit>)
      returns (next: nat, conflict: bool)
      requires Visiting(Snap(), added, assumed, base, done, fl, i) && i < |WatchList(ws, fl)|
      requires k == ClauseAt(Snap(), fl, i) && k < |db| && other in db[k].lits
      requires OthersFalse(db[k].lits, other, vals) && other !in vals
      modifies `trail, `vals
      ensures Progress(db, old(trail), old(vals), trail, vals)
      ensures conflict ==> Kept(Snap(), added, assumed, base, done) && Contradicts(added, assumed)
      ensures !conflict ==> Visiting(Snap(), added, assumed, base, done, fl, next) && next == i + 1
    {
      conflict := false;
      if Val(vals, other) == 0 {
        next := i + 1;
        AssignVisited(fl, i, other, assumed, base, done);
      } else {
        next := i;
        conflict := true;
        VisitFalse(Snap(), added, assumed, base, done, fl, i, k);
      }
    }

    // Visit one watch of the false literal 'fl'.  The watch is kept and the index advances, or
    // it is removed from the list.
    method Visit(fl: Lit, i: nat, ghost assumed: set<Lit>, ghost base: set<Lit>, ghost done: set<Lit>)
      returns (next: nat, conflict: bool)
      requires Visiting(Snap(), added, assumed, base, done, fl, i) && i < |WatchList(ws, fl)|
      modifies `db, `ws, `trail, `vals
      ensures SameClauses(old(db), db)
      ensures Progress(old(db), old(trail), old(vals), trail, vals)
      ensures conflict ==> Kept(Snap(), added, assumed, base, done) && Contradicts(added, assumed)
      ensures !conflict ==> Visiting(Snap(), added, assumed, base, done, fl, next)
      ensures !conflict ==> next <= |WatchList(ws, fl)| && |WatchList(ws, fl)| - next < |WatchList(old(ws), fl)| - i
    {
      VisitClause(Snap(), added, assumed, base, done, fl, i);
      SameClausesReflexive(db);
      var w := ws[fl][i];
      conflict := false;
      if Val(vals, w.blit) > 0 {
        next := i + 1;
        VisitTrue(Snap(), added, assumed, base, done, fl, i, w.blit);
      } else if w.size == 2 {
        // not precise since the clause might be garbage, but still sound
        next, conflict := VisitLast(fl, i, w.clause, w.blit, assumed, base, done);
      } else if !db[w.clause].live {
        next := i;
        DropVisited(fl, i, assumed, base, done);
      } else {
        next, conflict := VisitLong(fl, i, assumed, base, done);
      }
    }

    // Propagate all assigned literals.
    method Propagate(ghost assumed: set<Lit>, ghost base: set<Lit>) returns (res: bool)
      requires nextToPropagate <= |trail| && Kept(Snap(), added, assumed, base, LitsOf(trail[..nextToPropagate]))
      modifies `db, `ws, `trail, `vals, `nextToPropagate
      ensures old(trail) <= trail && old(vals) <= vals && SameClauses(old(db), db) && nextToPropagate <= |trail|
      ensures res ==> nextToPropagate == |trail| && Kept(Snap(), added, assumed, base, vals)
      ensures !res ==> Kept(Snap(), added, assumed, base, {}) && Contradicts(added, assumed)
    {
      res := true;
      SameClausesReflexive(db);
      while res && nextToPropagate < |trail|
        invariant old(trail) <= trail && old(vals) <= vals && SameClauses(old(db), db) && nextToPropagate <= |trail|
        invariant res ==> Kept(Snap(), added, assumed, base, LitsOf(trail[..nextToPropagate]))
        invariant !res ==> Kept(Snap(), added, assumed, base, {}) && Contradicts(added, assumed)
        decreases Room(db, vals), |trail| - nextToPropagate
      {
        ghost var mid := db;
        res := PropagateNext(assumed, base);
        SameClausesTransitive(old(db), mid, db);
        SameUniverse(mid, db);
      }
      if res {
        assert trail[..nextToPropagate] == trail;
        KeptDone(Snap(), added, assumed, base, LitsOf(trail));
      }
    }

    // Propagate the next literal of the trail.
    method PropagateNext(ghost assumed: set<Lit>, ghost base: set<Lit>) returns (res: bool)
      requires nextToPropagate < |trail| && Kept(Snap(), added, assumed, base, LitsOf(trail[..nextToPropagate]))
      modifies `db, `ws, `trail, `vals, `nextToPropagate
      ensures old(trail) <= trail && SameClauses(old(db), db)
      ensures nextToPropagate == old(nextToPropagate) + 1
      ensures Progress(old(db), old(trail), old(vals), trail, vals)
      ensures res ==> Kept(Snap(), added, assumed, base, LitsOf(trail[..nextToPropagate]))
      ensures !res ==> Kept(Snap(), added, assumed, base, {}) && Contradicts(added, assumed)
    {
      ghost var done := LitsOf(trail[..nextToPropagate]);
      var lit := trail[nextToPropagate];
      nextToPropagate := nextToPropagate + 1;
      StartVisiting(Snap(), added, assumed, base, done, lit);
      res := VisitAll(-lit, assumed, base, done);
      OneMore(old(trail), trail, nextToPropagate - 1);
    }

    // Visit all watches of a false literal.
    method VisitAll(fl: Lit, ghost assumed: set<Lit>, ghost base: set<Lit>, ghost done: set<Lit>) returns (res: bool)
      requires Visiting(Snap(), added, assumed, base, done, fl, 0)
      modifies `db, `ws, `trail, `vals
      ensures SameClauses(old(db), db)
      ensures Progress(old(db), old(trail), old(vals), trail, vals)
      ensures res ==> Kept(Snap(), added, assumed, base, done + {-fl})
      ensures !res ==> Kept(Snap(), added, assumed, base, {}) && Contradicts(added, assumed)
    {
      SameClausesReflexive(db);
      res := true;
      var i: nat := 0;
      while res && i < |WatchList(ws, fl)|
        invariant SameClauses(old(db), db) && Progress(old(db), old(trail), old(vals), trail, vals)
        invariant res ==> Visiting(Snap(), added, assumed, base, done, fl, i)
        invariant !res ==> Kept(Snap(), added, assumed, base, done) && Contradicts(added, assumed)
        decreases res, |WatchList(ws, fl)| - i
      {
        ghost var mid := db;
        var conflict;
        i, conflict := Visit(fl, i, assumed, base, done);
        res := !conflict;
        SameClausesTransitive(old(db), mid, db);
        SameUniverse(old(db), mid);
      }
      if res {
        EndVisiting(Snap(), added, assumed, base, done, fl, i);
      } else {
        KeptLess(Snap(), added, assumed, base, done);
      }
    }

    // Assume a literal for the check of a clause.
    method Assume(lit: Lit, ghost assumed: set<Lit>, ghost base: set<Lit>)
      requires Kept(Snap(), added, assumed, base, base) && lit != 0 && -lit !in vals
      modifies `trail, `vals
      ensures old(trail) <= trail && vals == old(vals) + {lit}
      ensures Kept(Snap(), added, assumed + {lit}, base, base)
    {
      AssumeKeeps(Snap(), added, assumed, base, lit);
      if Val(vals, lit) > 0 {
        assert vals + {lit} == vals;
        return;
      }
      Assign(lit);
    }

    // Undo all assignments after the first 'previously' ones.
    method Backtrack(previously: nat)
      requires previously <= |trail| && vals == LitsOf(trail)
      requires forall i, j :: 0 <= i < j < |trail| ==> trail[i] != trail[j]
      modifies `trail, `vals, `nextToPropagate
      ensures trail == old(trail)[..previously] && vals == LitsOf(trail) && nextToPropagate == previously
    {
      while |trail| > previously
        invariant previously <= |trail| <= |old(trail)| && trail == old(trail)[..|trail|] && vals == LitsOf(trail)
      {
        var lit := trail[|trail|-1];
        assert trail == trail[..|trail|-1] + [lit];
        assert lit !in trail[..|trail|-1];
        vals := vals - {lit};
        trail := trail[..|trail|-1];
      }
      nextToPropagate := previously;
    }

    ghost predicate Valid()
      reads this
    {
      && |hashes| == |db|
      && (if inconsistent then Unsatisfiable(added)
          else nextToPropagate == |trail| && Kept(Snap(), added, {}, vals, vals))
    }

    constructor (nonces: LratSpec.Nonces)
      ensures Valid() && added == iset{} && !inconsistent && db == [] && trail == []
    {
      this.nonces := nonces;
      db, ws, sizeVars, trail, vals, nextToPropagate, inconsistent, hashes := [], map[], 0, [], {}, 0, false, [];
      added := iset{};
      new;
      assert forall l :: WatchList(ws, l) == [];
      assert ListsShaped(db, ws);
    }

    // Check by reverse unit propagation that a clause is implied.
    method Check(simplified: seq<Lit>) returns (ok: bool)
      requires Valid() && 0 !in simplified
      requires !inconsistent ==> forall l :: l in simplified ==> l !in vals && -l !in simplified
      modifies `db, `ws, `trail, `vals, `nextToPropagate
      ensures Valid() && trail == old(trail) && vals == old(vals) && SameClauses(old(db), db)
      ensures ok ==> Entails(added, LitsOf(simplified))
      ensures !ok ==> !inconsistent && !NaiveRup(old(db), old(vals) + Negations(simplified))
    {
      SameClausesReflexive(db);
      if inconsistent {
        return true;
      }
      ghost var base := vals;
      ghost var f, s0 := added, Snap();
      var previously := nextToPropagate;
      assert Negations(simplified[..0]) == {} && base + {} == base;
      for n := 0 to |simplified|
        invariant db == old(db) && ws == old(ws) && nextToPropagate == previously && added == f
        invariant old(trail) <= trail && vals == base + Negations(simplified[..n])
        invariant Kept(Snap(), added, Negations(simplified[..n]), base, base)
      {
        assert simplified[..n+1] == simplified[..n] + [simplified[n]];
        NegationsLast(simplified[..n], simplified[n]);
        AssumeFree(simplified, n, base);
        Assume(-simplified[n], Negations(simplified[..n]), base);
      }
      assert simplified[..|simplified|] == simplified;
      assert trail[..nextToPropagate] == old(trail);
      BaseIsTrail(s0, f, base);
      ghost var assumed := Negations(simplified);
      var res := Propagate(assumed, base);
      if res {
        NotRefuted(Snap(), f, assumed, base, old(db), old(vals) + assumed);
      } else {
        RefutedEntailed(f, simplified);
      }
      TrailFacts(Snap(), f, assumed, base, if res then vals else {});
      BacktrackKeeps(Snap(), f, assumed, base, if res then vals else {}, s0);
      ghost var s1 := Snap();
      Backtrack(previously);
      assert trail == s0.trail && Snap() == s1.(trail := s0.trail, vals := base);
      ok := !res;
    }

    // Make room for the variables of a clause.
    method ImportClause(c: seq<Lit>)
      modifies `sizeVars
      ensures old(sizeVars) <= sizeVars && forall l :: l in c ==> Var(l) < sizeVars
    {
      for i := 0 to |c|
        invariant old(sizeVars) <= sizeVars && forall k :: 0 <= k < i ==> Var(c[k]) < sizeVars
      {
        var idx := Var(c[i]);
        if idx >= sizeVars {
          var newSizeVars := if sizeVars > 0 then 2 * sizeVars else 2;
          while idx >= newSizeVars
            invariant newSizeVars > 0 && newSizeVars >= sizeVars
            decreases idx - newSizeVars
          {
            newSizeVars := 2 * newSizeVars;
          }
          sizeVars := newSizeVars;
        }
      }
    }

    // Sort a clause, drop duplicates, and detect clauses that are tautological or satisfied.
    method Simplify(c: seq<Lit>) returns (tautological: bool, simplified: seq<Lit>)
      requires 0 !in c
      ensures tautological <==> exists l :: l in c && (-l in c || l in vals)
      ensures !tautological ==> Distinct(simplified) && LitsOf(simplified) == LitsOf(c)
    {
      var sorted := SortLits(c);
      SortSorted(c);
      simplified := [];
      var prev := 0;
      for i := 0 to |sorted|
        invariant Scanned(sorted, i, simplified, prev, vals)
      {
        var lit := sorted[i];
        ScanStep(sorted, i, simplified, prev, vals);
        if lit == prev { continue; }
        if lit == -prev {
          return true, simplified;
        }
        if Val(vals, lit) > 0 {
          return true, simplified;
        }
        simplified := simplified + [lit];
        prev := lit;
      }
      ScanEnd(c, sorted, simplified, prev, vals);
      tautological := false;
    }

    // The first two literals become watches and should not be false.
    method MoveUnassignedToFront(lits: seq<Lit>) returns (r: seq<Lit>)
      requires Distinct(lits)
      requires exists i, j :: 0 <= i < j < |lits| && Val(vals, lits[i]) == 0 && Val(vals, lits[j]) == 0
      ensures LitsOf(r) == LitsOf(lits) && |r| == |lits| >= 2 && Distinct(r)
      ensures Val(vals, r[0]) == 0 && Val(vals, r[1]) == 0
    {
      r := lits;
      assert Permuted(lits, r);
      ghost var a, b :| 0 <= a < b < |lits| && Val(vals, lits[a]) == 0 && Val(vals, lits[b]) == 0;
      ghost var x, y := lits[a], lits[b];
      assert x in r && y in r;
      r := BringUnassigned(lits, r, 0, x, y);
      r := BringUnassigned(lits, r, 1, x, y);
    }

    // Bring an unassigned literal to position 'i'.
    method BringUnassigned(lits: seq<Lit>, r0: seq<Lit>, i: nat, ghost x: Lit, ghost y: Lit) returns (r: seq<Lit>)
      requires Permuted(lits, r0) && i < 2 <= |r0|
      requires x != y && x in r0 && y in r0 && Val(vals, x) == 0 && Val(vals, y) == 0
      requires i == 1 ==> Val(vals, r0[0]) == 0
      ensures Permuted(lits, r) && |r| == |r0| && x in r && y in r
      ensures forall n :: 0 <= n <= i ==> Val(vals, r[n]) == 0
    {
      r := r0;
      if Val(vals, r[i]) == 0 { return; }
      ghost var n :| 0 <= n < |r0| && r0[n] == x;
      ghost var m :| 0 <= m < |r0| && r0[m] == y;
      for j := i + 1 to |r|
        invariant r == r0
        invariant forall n :: i <= n < j ==> Val(vals, r0[n]) != 0
      {
        if Val(vals, r[j]) != 0 { continue; }
        r := r[i := r[j]][j := r[i]];
        ExchangePermuted(lits, r0, i, j);
        return;
      }
      assert false;
    }

    // Go over the literals of a clause without true literals.
    method CountUnassigned(lits: seq<Lit>) returns (u: Remaining)
      requires forall l :: l in lits ==> l !in vals
      requires Distinct(lits)
      ensures match u
              case Nothing => forall l :: l in lits ==> -l in vals
              case Single(lit) => lit in lits && -lit !in vals && OthersFalse(lits, lit, vals)
              case Many => exists i, j :: 0 <= i < j < |lits| && Val(vals, lits[i]) == 0 && Val(vals, lits[j]) == 0
    {
      u := Nothing;
      ghost var at := 0;
      for i := 0 to |lits|
        invariant !u.Many?
        invariant u.Nothing? ==> forall k :: 0 <= k < i ==> -lits[k] in vals
        invariant u.Single? ==> 0 <= at < i && lits[at] == u.lit && -u.lit !in vals &&
                                forall k :: 0 <= k < i && k != at ==> -lits[k] in vals
      {
        if Val(vals, lits[i]) < 0 { continue; }
        if u.Single? {
          assert Val(vals, lits[at]) == 0 && Val(vals, lits[i]) == 0;
          return Many;
        }
        u := Single(lits[i]);
        at := i;
      }
    }

    // Insert a clause with at least two unassigned literals and watch it.
    method Insert(lits: seq<Lit>, hash: nat)
      requires Valid() && !inconsistent && Distinct(lits) && Entails(added, LitsOf(lits))
      requires exists i, j :: 0 <= i < j < |lits| && Val(vals, lits[i]) == 0 && Val(vals, lits[j]) == 0
      modifies `db, `ws, `hashes
      ensures Valid()
      ensures |db| == |old(db)| + 1 && db[..|old(db)|] == old(db)
      ensures db[|old(db)|].live && LitsOf(db[|old(db)|].lits) == LitsOf(lits) && hashes == old(hashes) + [hash]
    {
      var r := MoveUnassignedToFront(lits);
      InsertKeeps(Snap(), added, r);
      var k := |db|;
      db := db + [WClause(r, true)];
      ws := ws[r[0] := (if r[0] in ws then ws[r[0]] else []) + [Watch(r[1], |r|, k)]];
      ws := ws[r[1] := (if r[1] in ws then ws[r[1]] else []) + [Watch(r[0], |r|, k)]];
      hashes := hashes + [hash];
    }

    // Add a simplified clause that is implied by the original ones.
    method AddClause(simplified: seq<Lit>, hash: nat)
      requires Valid() && !inconsistent && Distinct(simplified) && Entails(added, LitsOf(simplified))
      requires forall l :: l in simplified ==> l !in vals
      modifies `db, `ws, `trail, `vals, `nextToPropagate, `inconsistent, `hashes
      ensures Valid() && Recorded(old(Snap()), LitsOf(simplified), Snap(), inconsistent)
      ensures hashes == old(hashes) + if |db| > |old(db)| then [hash] else []
    {
      ghost var s0 := Snap();
      var u := CountUnassigned(simplified);
      if u.Nothing? {
        RecordedFalsified(s0, simplified);
        FalsifiedUnsat(Snap(), added, simplified);
        inconsistent := true;
      } else if u.Single? {
        UnitKeeps(Snap(), added, simplified, u.lit);
        assert trail[..nextToPropagate] == trail;
        ghost var base, done := vals + {u.lit}, vals;
        Assign(u.lit);
        var ok := Propagate({}, {});
        if ok {
          RootKeeps(Snap(), added);
        } else {
          RootUnsat(added);
          inconsistent := true;
        }
        SameLength(old(db), db, hashes);
        RecordedUnit(s0, simplified, u.lit, Snap(), inconsistent);
      } else {
        Insert(simplified, hash);
        RecordedStored(s0, simplified, Snap());
      }
    }

    method AddOriginalClause(id: LratSpec.Id, c: seq<Lit>)
      requires Valid() && 0 !in c
      modifies this
      ensures Valid()
      ensures added == if old(inconsistent) then old(added) else old(added) + iset{LitsOf(c)}
      ensures if old(inconsistent) || Ignored(c, old(vals)) then Snap() == old(Snap()) && inconsistent == old(inconsistent)
              else Recorded(old(Snap()), LitsOf(c), Snap(), inconsistent)
      ensures hashes == old(hashes) + if |db| > |old(db)| then [LratSpec.ComputeHash(nonces, id)] else []
    {
      if inconsistent { return; }
      ImportClause(c);
      MoreAdded(Snap(), added, LitsOf(c));
      added := added + iset{LitsOf(c)};
      var tautological, simplified := Simplify(c);
      if !tautological {
        SameMembers(simplified, c);
        AddClause(simplified, LratSpec.ComputeHash(nonces, id));
      }
    }

    // A derived clause is rejected if reverse unit propagation does not confirm it.
    method AddDerivedClause(id: LratSpec.Id, c: seq<Lit>) returns (ok: bool)
      requires Valid() && 0 !in c
      modifies `db, `ws, `sizeVars, `trail, `vals, `nextToPropagate, `inconsistent, `hashes
      ensures Valid()
      ensures ok ==> Entails(added, LitsOf(c))
      ensures !ok ==> !old(inconsistent) && !NaiveRup(old(db), old(vals) + Negations(c))
      ensures if old(inconsistent) || Ignored(c, old(vals)) then ok && Snap() == old(Snap()) && inconsistent == old(inconsistent)
              else if ok then Recorded(old(Snap()), LitsOf(c), Snap(), inconsistent)
              else SameClauses(old(db), db) && vals == old(vals) && trail == old(trail) && !inconsistent
      ensures hashes == old(hashes) + if |db| > |old(db)| then [LratSpec.ComputeHash(nonces, id)] else []
    {
      ghost var s0 := Snap();
      if inconsistent {
        assert forall m: Model :: !Models(m, added);
        return true;
      }
      ImportClause(c);
      var tautological, simplified := Simplify(c);
      if tautological {
        SatisfiedEntailed(Snap(), added, c);
        return true;
      }
      SameMembers(simplified, c);
      SameNegations(simplified, c);
      SimplifiedFree(simplified);
      ok := Check(simplified);
      if ok {
        ghost var s1 := Snap();
        AddClause(simplified, LratSpec.ComputeHash(nonces, id));
        RecordedBefore(s0, s1, LitsOf(c), Snap(), inconsistent);
      }
    }

    // Find a live clause with the given hash and literals.
    method Find(hash: nat, lits: seq<Lit>) returns (k: nat)
      requires |hashes| == |db|
      ensures k <= |db|
      ensures k < |db| ==> db[k].live && hashes[k] == hash && |db[k].lits| == |lits| && LitsOf(db[k].lits) <= LitsOf(lits)
      ensures k == |db| ==> forall n :: 0 <= n < |db| ==>
                !(db[n].live && hashes[n] == hash && |db[n].lits| == |lits| && LitsOf(db[n].lits) <= LitsOf(lits))
    {
      var marks := LitsOf(lits);
      k := 0;
      while k < |db|
        invariant 0 <= k <= |db|
        invariant forall n :: 0 <= n < k ==>
                    !(db[n].live && hashes[n] == hash && |db[n].lits| == |lits| && LitsOf(db[n].lits) <= LitsOf(lits))
      {
        if db[k].live && hashes[k] == hash && |db[k].lits| == |lits| && LitsOf(db[k].lits) <= marks {
          return;
        }
        k := k + 1;
      }
    }

    // Delete a clause: it becomes garbage, and binary watches of it may go on propagating.  A clause
    // that is not there is an error.
    method DeleteClause(id: LratSpec.Id, c: seq<Lit>, collect: bool) returns (ok: bool)
      requires Valid() && 0 !in c
      modifies `db, `ws, `sizeVars
      ensures Valid()
      ensures inconsistent || Ignored(c, vals) ==> ok && db == old(db)
      ensures !inconsistent && !Ignored(c, vals) ==>
                var hash := LratSpec.ComputeHash(nonces, id);
                if ok then exists d :: 0 <= d < |old(db)| && Matching(old(db)[d], hashes[d], hash, LitsOf(c)) && Cleared(old(db), db, d, collect, vals)
                else db == old(db) && forall d {:trigger db[d]} :: 0 <= d < |db| ==> !Matching(db[d], hashes[d], hash, LitsOf(c))
    {
      if inconsistent {
        return true;
      }
      ImportClause(c);
      var tautological, simplified := Simplify(c);
      if tautological {
        return true;
      }
      var k := Find(LratSpec.ComputeHash(nonces, id), simplified);
      MatchingExact(Snap(), added, vals, simplified);
      if k == |db| {
        return false;
      }
      var db' := db[k := db[k].(live := false)];
      GarbageKeeps(Snap(), added, vals, db');
      db := db';
      if collect {
        CollectGarbage();
      }
      assert Matching(old(db)[k], hashes[k], LratSpec.ComputeHash(nonces, id), LitsOf(c)) && Cleared(old(db), db, k, collect, vals);
      ok := true;
    }

    // A clause that was stored is found again under its identifier, whatever the order of its
    // literals.  If there was no such clause before then exactly the new one is removed.
    method AddAndDelete(id: LratSpec.Id, c: seq<Lit>, d: seq<Lit>) returns (stored: bool, ok: bool)
      requires Valid() && 0 !in c && LitsOf(d) == LitsOf(c)
      modifies this
      ensures Valid()
      ensures stored <==> !old(inconsistent) && !Ignored(c, old(vals)) && !Falsified(LitsOf(c), old(vals)) &&
                          !exists u :: OnlyOpen(LitsOf(c), old(vals), u)
      ensures stored ==> ok && vals == old(vals) && trail == old(trail)
      ensures stored && Unknown(old(db), old(hashes), LratSpec.ComputeHash(nonces, id), LitsOf(c)) ==>
                |db| == |old(db)| + 1 && SameClauses(old(db), db[..|old(db)|]) && !db[|old(db)|].live
    {
      ghost var hash, s0, h0 := LratSpec.ComputeHash(nonces, id), Snap(), hashes;
      var n := |db|;
      AddOriginalClause(id, c);
      stored := |db| > n;
      ghost var s1 := Snap();
      assert 0 !in d by { assert 0 in d ==> 0 in LitsOf(d); }
      IgnoredSame(c, d, vals);
      ok := DeleteClause(id, d, false);
      if stored {
        assert Matching(s1.db[n], hashes[n], hash, LitsOf(d));
        ghost var e :| 0 <= e < |s1.db| && Matching(s1.db[e], hashes[e], hash, LitsOf(c)) && Cleared(s1.db, db, e, false, vals);
        DeletedLast(s0.db, h0, s1.db, hashes, db, e, hash, LitsOf(c), vals);
      }
    }

    // Satisfied clauses become garbage too, and all watches of garbage clauses are flushed.
    method CollectGarbage()
      requires Valid() && !inconsistent
      modifies `db, `ws
      ensures Valid() && Cleared(old(db), db, |db|, true, vals)
    {
      ghost var s := Snap();
      for k := 0 to |db|
        invariant ws == old(ws) && FewerLive(s.db, db)
        invariant forall n {:trigger db[n]} :: 0 <= n < |db| ==> (db[n].live <==> s.db[n].live && !(n < k && HasTrue(s.db[n], vals)))
      {
        var satisfied := Satisfied(db[k].lits);
        if satisfied {
          db := db[k := db[k].(live := false)];
        }
      }
      GarbageKeeps(s, added, vals, db);
      ghost var after := db;
      var lit: int := 1 - sizeVars;
      while lit < sizeVars
        invariant db == after && |hashes| == |db| && Kept(Snap(), added, {}, vals, vals)
      {
        if lit != 0 {
          FlushedKeeps(Snap(), added, vals, lit);
          ws := ws[lit := LiveWatches(db, if lit in ws then ws[lit] else [])];
        }
        lit := lit + 1;
      }
    }

    method Satisfied(lits: seq<Lit>) returns (r: bool)
      ensures r <==> exists l :: l in lits && l in vals
    {
      for i := 0 to |lits|
        invariant forall k :: 0 <= k < i ==> lits[k] !in vals
      {
        if Val(vals, lits[i]) > 0 {
          return true;
        }
      }
      r := false;
    }
  }

  datatype Remaining = Nothing | Single(lit: Lit) | Many

  function LitLess(a: Lit, b: Lit): bool {
    Var(a) < Var(b) || (Var(a) == Var(b) && a < b)
  }

  function InsertLit(l: Lit, s: seq<Lit>): seq<Lit> {
    if s == [] || !LitLess(s[0], l) then [l] + s else [s[0]] + InsertLit(l, s[1..])
  }

  // The literals of a clause in the order of their variables.
  function SortLits(s: seq<Lit>): seq<Lit> {
    if s == [] then [] else InsertLit(s[0], SortLits(s[1..]))
  }

  ghost predicate SortedVars(s: seq<Lit>) {
    forall i, j :: 0 <= i < j < |s| ==> Var(s[i]) <= Var(s[j])
  }

  ghost predicate IncreasingVars(s: seq<Lit>) {
    forall i, j :: 0 <= i < j < |s| ==> Var(s[i]) < Var(s[j])
  }

  lemma {:induction false} InsertLitSorted(l: Lit, s: seq<Lit>)
    requires SortedVars(s)
    ensures SortedVars(InsertLit(l, s))
    ensures forall k :: k in InsertLit(l, s) <==> k == l || k in s
  {
    if s != [] && LitLess(s[0], l) {
      InsertLitSorted(l, s[1..]);
      assert s == [s[0]] + s[1..];
      var r := InsertLit(l, s[1..]);
      forall j | 0 <= j < |r| ensures Var(s[0]) <= Var(r[j]) {
        assert r[j] in r;
        if r[j] != l {
          var n :| 0 <= n < |s[1..]| && s[1..][n] == r[j];
        }
      }
    }
  }

  lemma {:induction false} SortSorted(s: seq<Lit>)
    ensures SortedVars(SortLits(s))
    ensures forall k :: k in SortLits(s) <==> k in s
  {
    if s != [] {
      SortSorted(s[1..]);
      InsertLitSorted(s[0], SortLits(s[1..]));
      assert s == [s[0]] + s[1..];
    }
  }

  lemma IncreasingDistinct(s: seq<Lit>)
    requires IncreasingVars(s) && 0 !in s
    ensures Distinct(s)
  {
    forall l | l in s ensures -l !in s {
      var i :| 0 <= i < |s| && s[i] == l;
      forall j | 0 <= j < |s| ensures s[j] != -l {
        assert Var(s[j]) != Var(s[i]) || j == i;
      }
    }
  }

  // The first 'i' sorted literals were merged into 'simplified', whose last literal is 'prev'.
  ghost predicate Scanned(sorted: seq<Lit>, i: nat, simplified: seq<Lit>, prev: Lit, vals: set<Lit>)
    requires i <= |sorted|
  {
    && LitsOf(simplified) == LitsOf(sorted[..i])
    && IncreasingVars(simplified) && 0 !in simplified
    && (if simplified == [] then prev == 0 && i == 0 else prev == simplified[|simplified|-1])
    && (forall l :: l in sorted[..i] ==> l !in vals)
  }

  lemma ScanStep(sorted: seq<Lit>, i: nat, simplified: seq<Lit>, prev: Lit, vals: set<Lit>)
    requires SortedVars(sorted) && i < |sorted| && 0 !in sorted && Scanned(sorted, i, simplified, prev, vals)
    ensures var lit := sorted[i];
            && lit in sorted
            && (lit == prev ==> Scanned(sorted, i + 1, simplified, prev, vals))
            && (lit == -prev ==> prev in sorted)
            && (lit != prev && lit != -prev && lit !in vals ==> Scanned(sorted, i + 1, simplified + [lit], lit, vals))
  {
    var lit := sorted[i];
    assert sorted[..i+1] == sorted[..i] + [lit];
    LitsOfLast(sorted[..i], lit);
    LitsOfLast(simplified, lit);
    if simplified != [] {
      assert prev in LitsOf(simplified) && prev in sorted[..i];
      var n :| 0 <= n < i && sorted[n] == prev;
      assert Var(prev) <= Var(lit);
    }
  }

  lemma ScanEnd(c: seq<Lit>, sorted: seq<Lit>, simplified: seq<Lit>, prev: Lit, vals: set<Lit>)
    requires Scanned(sorted, |sorted|, simplified, prev, vals) && forall l :: l in sorted <==> l in c
    ensures Distinct(simplified) && LitsOf(simplified) == LitsOf(c)
    ensures forall l :: l in c ==> -l !in c && l !in vals
  {
    assert sorted[..|sorted|] == sorted;
    IncreasingDistinct(simplified);
    assert LitsOf(sorted) == LitsOf(c);
    SameMembers(simplified, c);
  }

  ghost predicate Permuted(a: seq<Lit>, b: seq<Lit>) {
    |a| == |b| && LitsOf(a) == LitsOf(b) && (Distinct(a) ==> Distinct(b))
  }

  lemma ExchangePermuted(a: seq<Lit>, b: seq<Lit>, i: nat, j: nat)
    requires Permuted(a, b) && i < j < |b|
    ensures Permuted(a, b[i := b[j]][j := b[i]])
    ensures forall l :: l in b <==> l in b[i := b[j]][j := b[i]]
  {
    var c := b[i := b[j]][j := b[i]];
    forall l ensures l in b <==> l in c {
      if l in b {
        var n :| 0 <= n < |b| && b[n] == l;
        assert c[if n == i then j else if n == j then i else n] == l;
      }
      if l in c {
        var n :| 0 <= n < |c| && c[n] == l;
        assert b[if n == i then j else if n == j then i else n] == l;
      }
    }
  }

  // The trail is extended, if at all, by a literal that could still be assigned.
  ghost predicate Progress(db: Db, trail: seq<Lit>, vals: set<Lit>, trail': seq<Lit>, vals': set<Lit>) {
    (trail' == trail && vals' == vals) || (trail < trail' && vals <= vals' && Room(db, vals') < Room(db, vals))
  }

  lemma RestFalse(lits: seq<Lit>, vals: set<Lit>, other: Lit, fl: Lit)
    requires |lits| >= 2 && lits[0] == other && lits[1] == fl && -fl in vals
    requires forall j :: 2 <= j < |lits| ==> -lits[j] in vals
    ensures OthersFalse(lits, other, vals) && other in lits
  {
  }

  lemma SameClausesReflexive(db: Db)
    ensures SameClauses(db, db)
  {
  }

  lemma StartVisiting(s: Prop, f: Formula, assumed: set<Lit>, base: set<Lit>, done: set<Lit>, lit: Lit)
    requires Kept(s, f, assumed, base, done) && lit in s.trail
    ensures Visiting(s, f, assumed, base, done, -lit, 0)
  {
    assert Look(0);
    assert lit in LitsOf(s.trail);
    assert -(-lit) == lit;
    StartVisits(s, f, assumed, base, done, -lit);
  }

  lemma EndVisiting(s: Prop, f: Formula, assumed: set<Lit>, base: set<Lit>, done: set<Lit>, fl: Lit, i: nat)
    requires Visiting(s, f, assumed, base, done, fl, i) && |WatchList(s.ws, fl)| <= i
    ensures Kept(s, f, assumed, base, done + {-fl})
  {
    assert Look(0);
    EndVisits(s, f, assumed, base, done, fl, i);
  }

  lemma KeptDone(s: Prop, f: Formula, assumed: set<Lit>, base: set<Lit>, done: set<Lit>)
    requires Kept(s, f, assumed, base, done) && done == LitsOf(s.trail)
    ensures Kept(s, f, assumed, base, s.vals)
  {
    assert Look(0);
  }

  lemma KeptLess(s: Prop, f: Formula, assumed: set<Lit>, base: set<Lit>, done: set<Lit>)
    requires Kept(s, f, assumed, base, done)
    ensures Kept(s, f, assumed, base, {})
  {
    assert Look(0);
    forall k | 0 <= k < |s.db| && s.db[k].live ensures SettledClause(s.db[k], {}, s.vals) {
    }
  }

  lemma AssumeKeeps(s: Prop, f: Formula, assumed: set<Lit>, base: set<Lit>, lit: Lit)
    requires Kept(s, f, assumed, base, base) && lit != 0 && -lit !in s.vals
    ensures lit in s.vals ==> Kept(s, f, assumed + {lit}, base, base)
    ensures lit !in s.vals ==>
              Kept(s.(trail := s.trail + [lit], vals := s.vals + {lit}), f, assumed + {lit}, base, base)
  {
    assert Look(0);
    forall m: Model | Models(m, f) && AllTrue(m, assumed + {lit}) ensures AllTrue(m, s.vals + {lit}) {
      assert AllTrue(m, assumed);
    }
    if lit !in s.vals {
      TrailPush(s.trail, s.vals, lit);
      MoreTrue(s.db, base, s.vals, s.vals + {lit});
    } else {
      assert s.vals + {lit} == s.vals;
    }
  }

  lemma AssumeFree(lits: seq<Lit>, n: nat, base: set<Lit>)
    requires n < |lits| && 0 !in lits && forall l :: l in lits ==> l !in base && -l !in lits
    ensures -lits[n] != 0 && -(-lits[n]) !in base + Negations(lits[..n])
  {
    assert lits[n] in lits;
    forall l | l in lits[..n] ensures -l != lits[n] {
      assert l in lits;
    }
  }

  // Without assumptions everything assigned belongs to the part that is kept.
  lemma BaseIsTrail(s: Prop, f: Formula, base: set<Lit>)
    requires Kept(s, f, {}, base, base) && base == s.vals
    ensures LitsOf(s.trail) == base
  {
    assert Look(0);
  }

  lemma NotRefuted(s: Prop, f: Formula, assumed: set<Lit>, base: set<Lit>, db: Db, start: set<Lit>)
    requires Kept(s, f, assumed, base, s.vals) && SameClauses(db, s.db) && start <= s.vals
    ensures !NaiveRup(db, start)
  {
    assert Look(0);
    forall hints, last ensures !Refutes(db, start, hints, last) {
      SettledNotRefuted(s.db, s.vals, start, hints, last);
      RefutesSame(db, s.db, start, hints, last);
    }
  }

  lemma {:induction false} RefutesSame(a: Db, b: Db, vals: set<Lit>, hints: seq<Hint>, last: nat)
    requires SameClauses(a, b)
    ensures Refutes(a, vals, hints, last) ==> Refutes(b, vals, hints, last)
    decreases |hints|
  {
    if hints == [] {
      if last < |a| {
        SameMembers(a[last].lits, b[last].lits);
      }
    } else {
      RefutesSame(a, b, vals + {hints[0].lit}, hints[1..], last);
      if hints[0].clause < |a| {
        SameMembers(a[hints[0].clause].lits, b[hints[0].clause].lits);
      }
    }
  }

  lemma RefutedEntailed(f: Formula, simplified: seq<Lit>)
    requires 0 !in simplified && Contradicts(f, Negations(simplified))
    ensures Entails(f, LitsOf(simplified))
  {
    forall m: Model | Models(m, f) ensures Sat(m, LitsOf(simplified)) {
      assert !AllTrue(m, Negations(simplified));
      var n :| n in Negations(simplified) && !Holds(m, n);
      var l :| l in simplified && -l == n;
      assert l in LitsOf(simplified) && l != 0;
    }
  }

  lemma TrailFacts(s: Prop, f: Formula, assumed: set<Lit>, base: set<Lit>, done: set<Lit>)
    requires Kept(s, f, assumed, base, done)
    ensures s.vals == LitsOf(s.trail)
    ensures forall i, j :: 0 <= i < j < |s.trail| ==> s.trail[i] != s.trail[j]
  {
    assert Look(0);
  }

  // Undoing the assumptions gives back a valid state, although watches have moved.
  lemma BacktrackKeeps(s: Prop, f: Formula, assumed: set<Lit>, base: set<Lit>, done: set<Lit>, s0: Prop)
    requires Kept(s, f, assumed, base, done) && Kept(s0, f, {}, base, base)
    requires base == s0.vals && s0.trail <= s.trail
    ensures Kept(s.(trail := s0.trail, vals := base), f, {}, base, base)
  {
    assert Look(0);
  }

  lemma InsertKeeps(s: Prop, f: Formula, lits: seq<Lit>)
    requires Kept(s, f, {}, s.vals, s.vals)
    requires |lits| >= 2 && Distinct(lits) && Entails(f, LitsOf(lits))
    requires Val(s.vals, lits[0]) == 0 && Val(s.vals, lits[1]) == 0
    ensures Kept(s.(db := s.db + [WClause(lits, true)], ws := AddWatches(s.ws, lits, |s.db|)), f, {}, s.vals, s.vals)
  {
    assert Look(0);
    AddProp(s, f, s.vals, lits);
  }

  lemma FalsifiedUnsat(s: Prop, f: Formula, lits: seq<Lit>)
    requires Kept(s, f, {}, s.vals, s.vals) && Entails(f, LitsOf(lits)) && 0 !in lits
    requires forall l :: l in lits ==> -l in s.vals
    ensures Unsatisfiable(f)
  {
    assert Look(0);
    ConflictImplied(f, {}, s.vals, lits);
    RootUnsat(f);
  }

  lemma RootUnsat(f: Formula)
    requires Contradicts(f, {})
    ensures Unsatisfiable(f)
  {
    forall m: Model ensures !Models(m, f) {
      assert AllTrue(m, {});
    }
  }

  // A unit is assigned before it is propagated.
  lemma UnitKeeps(s: Prop, f: Formula, lits: seq<Lit>, u: Lit)
    requires Kept(s, f, {}, s.vals, s.vals) && Entails(f, LitsOf(lits)) && 0 !in lits
    requires u in lits && OthersFalse(lits, u, s.vals) && u !in s.vals && -u !in s.vals
    ensures Kept(s.(trail := s.trail + [u], vals := s.vals + {u}), f, {}, {}, s.vals)
    ensures LitsOf(s.trail) == s.vals && (s.trail + [u])[..|s.trail|] == s.trail
  {
    assert Look(0);
    forall k | 0 <= k < |s.db| && s.db[k].live ensures SettledClause(s.db[k], {}, {}) {
    }
    AssignProp(s, f, {}, {}, s.vals, lits, u);
  }

  lemma RootKeeps(s: Prop, f: Formula)
    requires Kept(s, f, {}, {}, s.vals)
    ensures Kept(s, f, {}, s.vals, s.vals)
  {
    assert Look(0);
  }

  lemma SameLength(db: Db, db': Db, hashes: seq<nat>)
    requires SameClauses(db, db') && |hashes| == |db|
    ensures |hashes| == |db'|
  {
  }

  lemma MoreAdded(s: Prop, f: Formula, c: Clause)
    requires Kept(s, f, {}, s.vals, s.vals)
    ensures Kept(s, f + iset{c}, {}, s.vals, s.vals) && Entails(f + iset{c}, c)
  {
    assert Look(0);
    var g := f + iset{c};
    assert forall m: Model :: Models(m, g) ==> Models(m, f);
    forall k | 0 <= k < |s.db| ensures Entails(g, LitsOf(s.db[k].lits)) {
      assert Entails(f, LitsOf(s.db[k].lits));
    }
  }

  lemma SatisfiedEntailed(s: Prop, f: Formula, c: seq<Lit>)
    requires Kept(s, f, {}, s.vals, s.vals) && 0 !in c
    requires exists l :: l in c && (-l in c || l in s.vals)
    ensures Entails(f, LitsOf(c))
  {
    assert Look(0);
    var l :| l in c && (-l in c || l in s.vals);
    forall m: Model | Models(m, f) ensures Sat(m, LitsOf(c)) {
      assert AllTrue(m, {});
      assert l in LitsOf(c) && (Holds(m, l) || Holds(m, -l));
      if -l in c {
        assert -l in LitsOf(c);
      }
    }
  }

  lemma SameNegations(a: seq<Lit>, b: seq<Lit>)
    requires LitsOf(a) == LitsOf(b)
    ensures Negations(a) == Negations(b)
  {
    SameMembers(a, b);
  }

  lemma SimplifiedFree(simplified: seq<Lit>)
    requires Distinct(simplified)
    ensures forall l :: l in simplified ==> -l !in simplified
  {
    forall l | l in simplified ensures -l !in simplified {
      assert -l in simplified ==> l !in simplified;
    }
  }

  lemma MatchingExact(s: Prop, f: Formula, vals: set<Lit>, lits: seq<Lit>)
    requires Kept(s, f, {}, vals, vals) && Distinct(lits)
    ensures forall k {:trigger s.db[k]} :: 0 <= k < |s.db| ==>
              (|s.db[k].lits| == |lits| && LitsOf(s.db[k].lits) <= LitsOf(lits) <==> LitsOf(s.db[k].lits) == LitsOf(lits))
  {
    assert Look(0);
    assert Shaped(s.db);
    forall k | 0 <= k < |s.db| ensures |s.db[k].lits| == |lits| && LitsOf(s.db[k].lits) <= LitsOf(lits) <==> LitsOf(s.db[k].lits) == LitsOf(lits) {
      SameSize(s.db[k].lits, lits);
    }
  }

  lemma GarbageKeeps(s: Prop, f: Formula, vals: set<Lit>, db': Db)
    requires Kept(s, f, {}, vals, vals) && vals == s.vals && FewerLive(s.db, db')
    ensures Kept(s.(db := db'), f, {}, vals, vals)
  {
    assert Look(0);
    FewerLiveProp(s, f, vals, db');
  }

  lemma FlushedKeeps(s: Prop, f: Formula, vals: set<Lit>, l: Lit)
    requires Kept(s, f, {}, vals, vals)
    ensures Kept(s.(ws := s.ws[l := LiveWatches(s.db, WatchList(s.ws, l))]), f, {}, vals, vals)
  {
    assert Look(0);
    FlushKeeps(s.db, s.ws, l);
  }
}
