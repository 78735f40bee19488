// Covered clause elimination step by step: what asymmetric and covered literal additions keep.
module Covering {
  import opened Cnf
  import opened Extension
  import CC = CoveredClauses
  import CK = Checker
  import WA = Watching

  // ----- The clauses other than the candidate, and the fixed literals.

  ghost predicate Remains(db: WA.Db, c: nat, k: nat) {
    k < |db| && k != c && db[k].live
  }

  ghost function Remaining(db: WA.Db, c: nat, root: seq<Lit>): Formula {
    (iset k: nat | Remains(db, c, k) :: LitsOf(db[k].lits)) + (iset l: Lit | l in root :: {l})
  }

  lemma RemainingSame(db: WA.Db, db': WA.Db, c: nat, root: seq<Lit>)
    requires CK.SameClauses(db, db')
    ensures Remaining(db', c, root) == Remaining(db, c, root)
  {
    forall k: nat ensures Remains(db', c, k) <==> Remains(db, c, k) {
    }
    forall k: nat | Remains(db, c, k) ensures LitsOf(db'[k].lits) == LitsOf(db[k].lits) {
    }
  }

  lemma InRemaining(db: WA.Db, c: nat, root: seq<Lit>, k: nat)
    requires Remains(db, c, k)
    ensures LitsOf(db[k].lits) in Remaining(db, c, root)
  {
  }

  // The candidate is ignored by propagation.
  function Ignore(db: WA.Db, c: nat): WA.Db {
    if c < |db| then db[c := db[c].(live := false)] else db
  }

  // ----- Literals that are false whenever the covered literals are.

  function Falses(vals: set<Lit>): set<Lit> {
    set l | l in vals :: -l
  }

  lemma FalsesMore(vals: set<Lit>, l: Lit)
    ensures Falses(vals + {-l}) == Falses(vals) + {l}
  {
    assert -(-l) == l;
  }

  lemma InFalses(vals: set<Lit>, l: Lit)
    ensures l in Falses(vals) <==> -l in vals
  {
    assert -(-l) == l;
  }

  // At the start only the fixed literals and the literals of the clause are false.
  lemma ForcedStart(f: Formula, root: seq<Lit>)
    requires (forall l :: l in root ==> {l} in f) && 0 !in root
    ensures CC.Forced(f, {}, Falses(LitsOf(root)))
  {
    forall m: Model, a: Lit | Models(m, f) && a in Falses(LitsOf(root)) ensures !Holds(m, a) {
      InFalses(LitsOf(root), a);
      assert {-a} in f && Sat(m, {-a});
    }
  }

  lemma ForcedCovered(f: Formula, covered: Clause, vals: set<Lit>, l: Lit)
    requires CC.Forced(f, covered, Falses(vals))
    ensures CC.Forced(f, covered + {l}, Falses(vals + {-l}))
  {
    FalsesMore(vals, l);
    forall m: Model, a: Lit | Models(m, f) && !Sat(m, covered + {l}) && a in Falses(vals + {-l}) ensures !Holds(m, a) {
      assert l in covered + {l};
      assert forall k :: k in covered ==> k in covered + {l};
    }
  }

  // Asymmetric literal addition: the last literal of a clause is true when the others are false.
  lemma ForcedAsymmetric(f: Formula, covered: Clause, vals: set<Lit>, lits: seq<Lit>, u: Lit)
    requires CC.Forced(f, covered, Falses(vals)) && LitsOf(lits) in f && 0 !in lits
    requires u in lits && WA.OthersFalse(lits, u, vals)
    ensures CC.Forced(f, covered, Falses(vals + {u}))
  {
    FalsesMore(vals, -u);
    assert -(-u) == u;
    forall m: Model, a: Lit | Models(m, f) && !Sat(m, covered) && a in Falses(vals + {u}) ensures !Holds(m, a) {
      if a == -u {
        assert Sat(m, LitsOf(lits));
        var k :| k in LitsOf(lits) && Holds(m, k);
        if k != u {
          InFalses(vals, k);
        }
      }
    }
  }

  // The extended clause is subsumed.
  lemma ForcedSubsumed(f: Formula, covered: Clause, vals: set<Lit>, lits: seq<Lit>)
    requires CC.Forced(f, covered, Falses(vals)) && LitsOf(lits) in f
    requires forall l :: l in lits ==> -l in vals
    ensures Entails(f, covered)
  {
    forall m: Model | Models(m, f) ensures Sat(m, covered) {
      assert Sat(m, LitsOf(lits));
      var k :| k in LitsOf(lits) && Holds(m, k);
      InFalses(vals, k);
    }
  }

  // ----- The private extension stack.

  // A blocking literal together with the covered literals at that time.
  datatype Push = Push(lit: Lit, covered: seq<Lit>, added: set<Lit>)

  // The covered literals other than the blocking one.
  function Others(covered: seq<Lit>, lit: Lit): seq<Lit> {
    if covered == [] then []
    else
      var n := |covered| - 1;
      Others(covered[..n], lit) + if covered[n] == lit then [] else [covered[n]]
  }

  function Flat(p: Push): seq<int> {
    [0, p.lit] + Others(p.covered, p.lit)
  }

  function FlatAll(ps: seq<Push>): seq<int> {
    if ps == [] then [] else Flat(ps[0]) + FlatAll(ps[1..])
  }

  lemma {:induction false} OthersMembers(covered: seq<Lit>, lit: Lit)
    ensures forall l :: l in Others(covered, lit) <==> l in covered && l != lit
  {
    if covered != [] {
      var n := |covered| - 1;
      OthersMembers(covered[..n], lit);
      assert covered == covered[..n] + [covered[n]];
    }
  }

  // Every step covers into the literals of the next one.
  ghost predicate LinkedPair(f: Formula, ps: seq<Push>, covered: seq<Lit>, i: nat)
    requires i < |ps|
  {
    CC.Covers(f, ps[i].lit, LitsOf(ps[i].covered), ps[i].added, LitsOf(if i + 1 < |ps| then ps[i+1].covered else covered))
  }

  ghost predicate LinkedTo(f: Formula, ps: seq<Push>, covered: seq<Lit>) {
    forall i {:trigger LinkedPair(f, ps, covered, i)} :: 0 <= i < |ps| ==> LinkedPair(f, ps, covered, i)
  }

  lemma LinkedMore(f: Formula, ps: seq<Push>, p: Push, next: seq<Lit>)
    requires LinkedTo(f, ps, p.covered)
    requires CC.Covers(f, p.lit, LitsOf(p.covered), p.added, LitsOf(next))
    ensures LinkedTo(f, ps + [p], next)
  {
    var qs := ps + [p];
    forall i | 0 <= i < |qs| ensures LinkedPair(f, qs, next, i) {
      if i < |ps| {
        assert LinkedPair(f, ps, p.covered, i) && qs[i] == ps[i];
      }
    }
  }

  lemma {:induction false} FlatMore(ps: seq<Push>, p: Push)
    ensures FlatAll(ps + [p]) == FlatAll(ps) + Flat(p)
  {
    if ps == [] {
      assert ps + [p] == [p];
      assert [p][1..] == [];
    } else {
      FlatMore(ps[1..], p);
      assert (ps + [p])[1..] == ps[1..] + [p];
    }
  }

  // The literals that the private stack lists for a push.
  function Listed(p: Push): seq<Lit> {
    [p.lit] + Others(p.covered, p.lit)
  }

  lemma ListedMembers(p: Push)
    requires p.lit in p.covered
    ensures LitsOf(Listed(p)) == LitsOf(p.covered)
  {
    OthersMembers(p.covered, p.lit);
    var o := Others(p.covered, p.lit);
    forall l ensures l in Listed(p) <==> l in p.covered {
      assert l in Listed(p) <==> l == p.lit || l in o;
    }
  }

  // ----- From the private to the actual extension stack.

  // The entry for a push; 'missing' are the literals of the clause that are false anyhow.
  function EntryOf(p: Push, missing: seq<Lit>, id: nat): Entry {
    Entry([p.lit], Listed(p) + missing, id)
  }

  function StepOf(p: Push, missing: seq<Lit>, id: nat): CC.Step {
    CC.Step(p.lit, Listed(p) + missing, id, p.added)
  }

  // All entries, with consecutive identifiers; the last one may lack the missing literals.
  function StepsOf(ps: seq<Push>, missing: seq<Lit>, last: seq<Lit>, id: nat): (steps: seq<CC.Step>)
    ensures |steps| == |ps|
    ensures forall i {:trigger steps[i]} :: 0 <= i < |ps| ==>
              steps[i] == StepOf(ps[i], if i == |ps| - 1 then last else missing, id + i)
  {
    seq(|ps|, i requires 0 <= i < |ps| => StepOf(ps[i], if i == |ps| - 1 then last else missing, id + i))
  }

  ghost predicate Contradicting(ps: seq<Push>, missing: seq<Lit>) {
    exists i {:trigger ps[i]} :: 0 <= i < |ps| && -ps[i].lit in missing
  }

  lemma CoversWith(f: Formula, lit: Lit, covered: Clause, added: Clause, next: Clause, c: Clause, n: Clause, missing: Clause)
    requires CC.Covers(f, lit, covered, added, next) && -lit !in missing
    requires covered <= c <= covered + missing && n <= next + missing && n - c <= next - covered
    ensures CC.Covers(f, lit, c, added, n)
  {
    ForcedWith(f, covered, added, c);
  }

  lemma ForcedWith(f: Formula, covered: Clause, added: Clause, c: Clause)
    requires CC.Forced(f, covered, added) && covered <= c
    ensures CC.Forced(f, c, added)
  {
    forall m: Model, a: Lit | Models(m, f) && !Sat(m, c) && a in added ensures !Holds(m, a) {
      assert forall k :: k in covered ==> k in c;
    }
  }

  lemma StepLits(p: Push, missing: seq<Lit>, id: nat)
    requires p.lit in p.covered
    ensures LitsOf(StepOf(p, missing, id).lits) == LitsOf(p.covered) + LitsOf(missing)
  {
    ListedMembers(p);
    var a := Listed(p);
    assert forall l :: l in a + missing <==> l in a || l in missing;
  }

  lemma PairJustified(f: Formula, p: Push, next: seq<Lit>, lits: seq<Lit>, missing: seq<Lit>, id: nat)
    requires CC.Covers(f, p.lit, LitsOf(p.covered), p.added, LitsOf(next)) && p.lit in p.covered && -p.lit !in missing
    requires LitsOf(lits) <= LitsOf(next) + LitsOf(missing)
    ensures CC.Covers(f, p.lit, LitsOf(StepOf(p, missing, id).lits), p.added, LitsOf(lits))
  {
    StepLits(p, missing, id);
    CoversWith(f, p.lit, LitsOf(p.covered), p.added, LitsOf(next), LitsOf(StepOf(p, missing, id).lits), LitsOf(lits), LitsOf(missing));
  }

  // Every push covers into the literals of the following entry, although literals were added.
  ghost predicate Fitting(ps: seq<Push>, missing: seq<Lit>, last: seq<Lit>) {
    && (last == missing || last == []) && !Contradicting(ps, missing)
    && forall i {:trigger ps[i]} :: 0 <= i < |ps| ==> ps[i].lit in ps[i].covered
  }

  lemma StepsLinked(f: Formula, ps: seq<Push>, covered: seq<Lit>, missing: seq<Lit>, last: seq<Lit>, id: nat)
    requires LinkedTo(f, ps, covered) && Fitting(ps, missing, last)
    ensures CC.Linked(f, StepsOf(ps, missing, last, id))
  {
    var steps := StepsOf(ps, missing, last, id);
    forall i | 0 <= i < |ps| - 1
      ensures CC.Covers(f, steps[i].lit, LitsOf(steps[i].lits), steps[i].added, LitsOf(steps[i+1].lits))
    {
      var p, q := ps[i], ps[i+1];
      assert LinkedPair(f, ps, covered, i);
      StepLits(q, if i + 1 == |ps| - 1 then last else missing, id + (i + 1));
      PairJustified(f, p, q.covered, steps[i+1].lits, missing, id + i);
    }
  }

  lemma LastCovers(f: Formula, p: Push, covered: seq<Lit>, missing: seq<Lit>, last: seq<Lit>, id: nat)
    requires CC.Covers(f, p.lit, LitsOf(p.covered), p.added, LitsOf(covered)) && p.lit in p.covered && -p.lit !in missing
    requires last == missing || last == []
    ensures CC.Covers(f, p.lit, LitsOf(StepOf(p, last, id).lits), p.added, LitsOf(covered))
  {
    StepLits(p, last, id);
    CoversWith(f, p.lit, LitsOf(p.covered), p.added, LitsOf(covered), LitsOf(StepOf(p, last, id).lits), LitsOf(covered),
               LitsOf(missing));
  }

  // The entries justify the removal when the extended clause is subsumed.
  lemma SubsumedJustifies(f: Formula, ps: seq<Push>, covered: seq<Lit>, missing: seq<Lit>, last: seq<Lit>, id: nat)
    requires LinkedTo(f, ps, covered) && |ps| > 0 && Fitting(ps, missing, last) && Entails(f, LitsOf(covered))
    ensures CC.Linked(f, StepsOf(ps, missing, last, id))
    ensures CC.Ends(f, StepsOf(ps, missing, last, id)[|ps|-1], LitsOf(covered))
  {
    StepsLinked(f, ps, covered, missing, last, id);
    var n := |ps| - 1;
    assert LinkedPair(f, ps, covered, n);
    LastCovers(f, ps[n], covered, missing, last, id + n);
  }

  // The same when it is blocked.
  lemma BlockedJustifies(f: Formula, ps: seq<Push>, p: Push, missing: seq<Lit>, last: seq<Lit>, id: nat, final: Clause)
    requires LinkedTo(f, ps, p.covered) && Fitting(ps + [p], missing, last)
    requires CC.BlockedUnder(f, p.lit, LitsOf(p.covered), p.added)
    ensures CC.Linked(f, StepsOf(ps + [p], missing, last, id))
    ensures CC.Ends(f, StepsOf(ps + [p], missing, last, id)[|ps|], final)
  {
    var qs := ps + [p];
    assert qs[|ps|] == p;
    var steps := StepsOf(qs, missing, last, id);
    StepLits(p, last, id + |ps|);
    ForcedWith(f, LitsOf(p.covered), p.added, LitsOf(steps[|ps|].lits));
    forall i | 0 <= i < |qs| - 1
      ensures CC.Covers(f, steps[i].lit, LitsOf(steps[i].lits), steps[i].added, LitsOf(steps[i+1].lits))
    {
      BlockedPair(f, ps, p, i);
      StepLits(qs[i+1], if i + 1 == |qs| - 1 then last else missing, id + (i + 1));
      PairJustified(f, qs[i], qs[i+1].covered, steps[i+1].lits, missing, id + i);
    }
  }

  lemma BlockedPair(f: Formula, ps: seq<Push>, p: Push, i: nat)
    requires LinkedTo(f, ps, p.covered) && i < |ps|
    ensures var qs := ps + [p]; CC.Covers(f, qs[i].lit, LitsOf(qs[i].covered), qs[i].added, LitsOf(qs[i+1].covered))
  {
    var qs := ps + [p];
    assert LinkedPair(f, ps, p.covered, i);
    assert qs[i] == ps[i] && qs[i+1] == if i + 1 < |ps| then ps[i+1] else p;
  }

  // ----- Resolution candidates.

  // Some other literal of the candidate is true.
  ghost predicate Blocked(lits: seq<Lit>, lit: Lit, vals: set<Lit>) {
    exists k :: k in lits && k != -lit && k in vals
  }

  lemma BlockedSatisfied(lits: seq<Lit>, lit: Lit, vals: set<Lit>)
    requires Blocked(lits, lit, vals) && 0 !in lits
    ensures CC.DoubleSatisfied(LitsOf(lits), lit, Falses(vals))
  {
    var k :| k in lits && k != -lit && k in vals;
    InFalses(vals, -k);
    assert -(-k) == k && k in LitsOf(lits);
  }

  // 'inter' is part of every clause with '-lit' that is not satisfied otherwise.
  ghost predicate Intersects(db: WA.Db, c: nat, lit: Lit, vals: set<Lit>, inter: seq<Lit>) {
    forall k: nat {:trigger Remains(db, c, k)} :: Remains(db, c, k) && -lit in db[k].lits ==>
      Blocked(db[k].lits, lit, vals) || forall l :: l in inter ==> l in db[k].lits
  }

  ghost predicate AllBlocked(db: WA.Db, c: nat, lit: Lit, vals: set<Lit>) {
    forall k: nat {:trigger Remains(db, c, k)} :: Remains(db, c, k) && -lit in db[k].lits ==> Blocked(db[k].lits, lit, vals)
  }

  lemma CandidateOf(db: WA.Db, c: nat, root: seq<Lit>, d: Clause, lit: Lit)
    requires d in Remaining(db, c, root) && -lit in d && -lit !in root
    ensures exists k: nat :: Remains(db, c, k) && d == LitsOf(db[k].lits) && -lit in db[k].lits
  {
    forall l: Lit | l in root ensures d != {l} {
      assert -lit in d;
    }
  }

  // A covered literal addition is justified.
  lemma CoveredJustified(db: WA.Db, c: nat, root: seq<Lit>, lit: Lit, covered: seq<Lit>, vals: set<Lit>, inter: seq<Lit>)
    requires WA.Shaped(db) && lit in covered && lit != 0 && -lit !in root && -lit !in covered && -lit !in inter
    requires CC.Forced(Remaining(db, c, root), LitsOf(covered), Falses(vals))
    requires Intersects(db, c, lit, vals, inter)
    ensures CC.Covers(Remaining(db, c, root), lit, LitsOf(covered), Falses(vals), LitsOf(covered + inter))
  {
    var f := Remaining(db, c, root);
    forall d: Clause | d in f && -lit in d
      ensures CC.DoubleSatisfied(d, lit, Falses(vals)) || LitsOf(covered + inter) - LitsOf(covered) <= d
    {
      CandidateOf(db, c, root, d, lit);
      var k: nat :| Remains(db, c, k) && d == LitsOf(db[k].lits) && -lit in db[k].lits;
      if Blocked(db[k].lits, lit, vals) {
        BlockedSatisfied(db[k].lits, lit, vals);
      } else {
        forall l | l in LitsOf(covered + inter) - LitsOf(covered) ensures l in d {
          assert l in covered || l in inter;
        }
      }
    }
  }

  lemma BlockedJustified(db: WA.Db, c: nat, root: seq<Lit>, lit: Lit, covered: seq<Lit>, vals: set<Lit>)
    requires WA.Shaped(db) && lit in covered && lit != 0 && -lit !in root
    requires CC.Forced(Remaining(db, c, root), LitsOf(covered), Falses(vals)) && AllBlocked(db, c, lit, vals)
    ensures CC.BlockedUnder(Remaining(db, c, root), lit, LitsOf(covered), Falses(vals))
  {
    var f := Remaining(db, c, root);
    forall d: Clause | d in f && -lit in d ensures CC.DoubleSatisfied(d, lit, Falses(vals)) {
      CandidateOf(db, c, root, d, lit);
      var k: nat :| Remains(db, c, k) && d == LitsOf(db[k].lits) && -lit in db[k].lits;
      BlockedSatisfied(db[k].lits, lit, vals);
    }
  }

  lemma {:induction false} ForcedInter(f: Formula, covered: seq<Lit>, vals: set<Lit>, inter: seq<Lit>)
    requires CC.Forced(f, LitsOf(covered), Falses(vals))
    ensures CC.Forced(f, LitsOf(covered + inter), Falses(vals + Negations(inter)))
    decreases |inter|
  {
    if inter == [] {
      assert covered + inter == covered && vals + Negations(inter) == vals;
    } else {
      var n := |inter| - 1;
      var front, l := inter[..n], inter[n];
      assert inter == front + [l];
      ForcedInter(f, covered, vals, front);
      ForcedCovered(f, LitsOf(covered + front), vals + Negations(front), l);
      assert covered + inter == (covered + front) + [l];
      LitsOfLast(covered + front, l);
      NegationsLast(front, l);
      assert vals + Negations(inter) == vals + Negations(front) + {-l};
    }
  }

  // ----- Copying the private stack: one integer at a time.

  function EntriesUpTo(ps: seq<Push>, missing: seq<Lit>, id: nat, n: nat): (es: seq<Entry>)
    requires n <= |ps|
    ensures |es| == n && forall i :: 0 <= i < n ==> es[i] == EntryOf(ps[i], missing, id + i)
  {
    seq(n, i requires 0 <= i < n => EntryOf(ps[i], missing, id + i))
  }

  ghost predicate Proper(ps: seq<Push>) {
    forall i {:trigger ps[i]} :: 0 <= i < |ps| ==> ps[i].lit != 0 && 0 !in ps[i].covered
  }

  // What was written: 'done' complete entries and, if 'open', the literals 'cur' of the next one.
  ghost predicate Written(ps: seq<Push>, missing: seq<Lit>, id: nat, base: seq<int>, ext: seq<int>, open: bool, done: nat, cur: seq<Lit>) {
    && done < |ps| && (!open ==> done == 0)
    && ext == base + EncodeAll(EntriesUpTo(ps, missing, id, done)) +
              (if open then Encode(Entry([ps[done].lit], cur, id + done)) else [])
  }

  // Right after the separator of push 'm'.
  ghost predicate AtStart(ps: seq<Push>, m: nat, flat: seq<int>) {
    m < |ps| && flat == Listed(ps[m]) + FlatAll(ps[m+1..])
  }

  // In the literals of push 'n', of which 'cur' were read.
  ghost predicate Within(ps: seq<Push>, n: nat, cur: seq<Lit>, rest: seq<Lit>, flat: seq<int>) {
    n < |ps| && flat == rest + FlatAll(ps[n+1..]) && cur + rest == Listed(ps[n])
  }

  function Header(lit: Lit, id: nat): seq<int> {
    [0, lit, 0, HighWord(id), LowWord(id), 0]
  }

  lemma EncodeMore(e: Entry, more: seq<Lit>)
    ensures Encode(e.(clause := e.clause + more)) == Encode(e) + more
  {
    var front := [0] + e.wit + [0, HighWord(e.id), LowWord(e.id), 0];
    assert Encode(e) == front + e.clause;
    assert Encode(e.(clause := e.clause + more)) == front + (e.clause + more);
  }

  lemma EntriesMore(ps: seq<Push>, missing: seq<Lit>, id: nat, n: nat)
    requires n < |ps|
    ensures EncodeAll(EntriesUpTo(ps, missing, id, n + 1)) ==
            EncodeAll(EntriesUpTo(ps, missing, id, n)) + Encode(EntryOf(ps[n], missing, id + n))
  {
    var es := EntriesUpTo(ps, missing, id, n + 1);
    assert es[..n] == EntriesUpTo(ps, missing, id, n);
  }

  lemma ListedProper(ps: seq<Push>, n: nat)
    requires Proper(ps) && n < |ps|
    ensures 0 !in Listed(ps[n])
  {
    OthersMembers(ps[n].covered, ps[n].lit);
  }

  lemma Cons(a: seq<int>, b: seq<int>)
    requires a != []
    ensures (a + b)[0] == a[0] && (a + b)[1..] == a[1..] + b
  {
  }

  lemma FlatNext(ps: seq<Push>, m: nat)
    requires m <= |ps| && FlatAll(ps[m..]) != []
    ensures m < |ps| && FlatAll(ps[m..])[0] == 0 && AtStart(ps, m, FlatAll(ps[m..])[1..])
  {
    if m < |ps| {
      assert ps[m..][1..] == ps[m+1..];
      assert Flat(ps[m]) == [0] + Listed(ps[m]);
      assert FlatAll(ps[m..]) == [0] + (Listed(ps[m]) + FlatAll(ps[m+1..]));
    }
  }

  lemma FlatStarts(ps: seq<Push>)
    requires ps != []
    ensures FlatAll(ps) != [] && FlatAll(ps)[0] == 0 && AtStart(ps, 0, FlatAll(ps)[1..])
  {
    assert ps[0..] == ps;
    assert |Flat(ps[0])| > 0;
    FlatNext(ps, 0);
  }

  // A zero ends the literals of a push.
  lemma CopySeparator(ps: seq<Push>, n: nat, cur: seq<Lit>, rest: seq<Lit>, flat: seq<int>)
    requires Proper(ps) && Within(ps, n, cur, rest, flat) && flat != [] && flat[0] == 0
    ensures cur == Listed(ps[n]) && AtStart(ps, n + 1, flat[1..])
  {
    var tail := FlatAll(ps[n+1..]);
    if rest != [] {
      Cons(rest, tail);
    }
    assert forall k :: k in rest ==> k in cur + rest;
    ListedProper(ps, n);
    assert rest == [];
    assert flat == FlatAll(ps[n+1..]) && cur + rest == cur;
    FlatNext(ps, n + 1);
  }

  // The blocking literal comes first.
  lemma CopyStart(ps: seq<Push>, m: nat, flat: seq<int>)
    requires Proper(ps) && AtStart(ps, m, flat)
    ensures flat != [] && flat[0] == ps[m].lit != 0
    ensures Within(ps, m, [ps[m].lit], Others(ps[m].covered, ps[m].lit), flat[1..])
  {
    Cons(Listed(ps[m]), FlatAll(ps[m+1..]));
    assert Listed(ps[m])[1..] == Others(ps[m].covered, ps[m].lit);
  }

  lemma CopyLiteral(ps: seq<Push>, n: nat, cur: seq<Lit>, rest: seq<Lit>, flat: seq<int>)
    requires Within(ps, n, cur, rest, flat) && flat != [] && flat[0] != 0
    ensures rest != [] && Within(ps, n, cur + [flat[0]], rest[1..], flat[1..])
  {
    if rest == [] {
      assert flat == FlatAll(ps[n+1..]);
      FlatNext(ps, n + 1);
    } else {
      Cons(rest, FlatAll(ps[n+1..]));
      assert cur + [flat[0]] + rest[1..] == cur + rest;
    }
  }

  // Nothing is left to be read.
  lemma CopyEnd(ps: seq<Push>, n: nat, cur: seq<Lit>, rest: seq<Lit>)
    requires Within(ps, n, cur, rest, [])
    ensures n == |ps| - 1 && cur == Listed(ps[n])
  {
    assert |rest| == 0 && |FlatAll(ps[n+1..])| == 0;
    assert cur + rest == cur;
    if n + 1 < |ps| {
      FlatStarts(ps[n+1..]);
    }
  }

  // ----- What is written for that.

  // The open entry is completed.
  lemma WriteMissing(ps: seq<Push>, missing: seq<Lit>, id: nat, base: seq<int>, ext: seq<int>, done: nat, cur: seq<Lit>)
    requires Written(ps, missing, id, base, ext, true, done, cur) && cur == Listed(ps[done])
    ensures ext + missing == base + EncodeAll(EntriesUpTo(ps, missing, id, done + 1))
  {
    var e := Entry([ps[done].lit], cur, id + done);
    EncodeMore(e, missing);
    EntriesMore(ps, missing, id, done);
    var a := EncodeAll(EntriesUpTo(ps, missing, id, done));
    Regroup(base, a, Encode(e), missing);
    assert Encode(EntryOf(ps[done], missing, id + done)) == Encode(e) + missing;
    assert ext + missing == base + a + Encode(e) + missing;
  }

  lemma Regroup(a: seq<int>, b: seq<int>, c: seq<int>, d: seq<int>)
    ensures a + b + c + d == a + (b + (c + d))
  {
  }

  // A new entry is opened.
  lemma WriteStart(ps: seq<Push>, missing: seq<Lit>, id: nat, base: seq<int>, ext: seq<int>, m: nat)
    requires m < |ps| && ext == base + EncodeAll(EntriesUpTo(ps, missing, id, m))
    ensures Written(ps, missing, id, base, ext + Header(ps[m].lit, id + m), true, m, [])
  {
    assert Encode(Entry([ps[m].lit], [], id + m)) == Header(ps[m].lit, id + m);
  }

  lemma WriteLiteral(ps: seq<Push>, missing: seq<Lit>, id: nat, base: seq<int>, ext: seq<int>, done: nat, cur: seq<Lit>, l: Lit)
    requires Written(ps, missing, id, base, ext, true, done, cur)
    ensures Written(ps, missing, id, base, ext + [l], true, done, cur + [l])
  {
    EncodeMore(Entry([ps[done].lit], cur, id + done), [l]);
  }

  lemma PushesEncoded(ps: seq<Push>, missing: seq<Lit>, last: seq<Lit>, id: nat, n: nat)
    requires |ps| == n + 1
    ensures EncodeAll(CC.Pushes(StepsOf(ps, missing, last, id))) ==
            EncodeAll(EntriesUpTo(ps, missing, id, n)) + Encode(EntryOf(ps[n], last, id + n))
  {
    var es := CC.Pushes(StepsOf(ps, missing, last, id));
    assert es[..n] == EntriesUpTo(ps, missing, id, n);
    assert es[n] == EntryOf(ps[n], last, id + n);
  }

  lemma WriteEnd(ps: seq<Push>, missing: seq<Lit>, last: seq<Lit>, id: nat, base: seq<int>, ext: seq<int>, cur: seq<Lit>)
    requires ps != [] && Written(ps, missing, id, base, ext, true, |ps| - 1, cur) && cur == Listed(ps[|ps|-1])
    ensures ext + last == base + EncodeAll(CC.Pushes(StepsOf(ps, missing, last, id)))
  {
    var n := |ps| - 1;
    var e := Entry([ps[n].lit], cur, id + n);
    EncodeMore(e, last);
    PushesEncoded(ps, missing, last, id, n);
    Regroup(base, EncodeAll(EntriesUpTo(ps, missing, id, n)), Encode(e), last);
  }
}
