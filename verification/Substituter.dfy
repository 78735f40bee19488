// Replacing all literals by their representatives: the equivalences are pushed on the extension
// stack, and all clauses are rewritten in place.
module Substituter {
  import opened Cnf
  import BG = BinaryGraph
  import EX = Extension
  import RE = Reconstruction
  import SU = Substitution
  import WA = Watching

  datatype SClause = SClause(lits: seq<Lit>, garbage: bool, redundant: bool, id: nat)

  type Db = seq<SClause>

  datatype State = State(db: Db, vals: set<Lit>, unsat: bool)

  // The representative, or zero for literals of inactive variables.
  function Repr(reprs: map<Lit, Lit>, l: Lit): Lit {
    if l in reprs then reprs[l] else 0
  }

  ghost function Units(vals: set<Lit>, unsat: bool): Formula {
    (iset x: Lit | x in vals :: {x}) + (if unsat then iset{{}} else iset{})
  }

  ghost predicate Live(db: Db, k: nat) {
    k < |db| && !db[k].garbage
  }

  // Redundant clauses only count if 'r' is true.
  ghost predicate Counted(db: Db, r: bool, k: nat) {
    Live(db, k) && (db[k].redundant ==> r)
  }

  // The irredundant clauses, or all clauses.
  ghost function Meaning(s: State, r: bool): Formula {
    (iset k: nat | Counted(s.db, r, k) :: LitsOf(s.db[k].lits)) + Units(s.vals, s.unsat)
  }

  // The clauses rewritten so far, without those to be removed at the end.
  ghost predicate KeptAt(db: Db, n: nat, postponed: seq<nat>, r: bool, k: nat) {
    k < n && Counted(db, r, k) && k !in postponed
  }

  ghost function Rewritten(s: State, n: nat, postponed: seq<nat>, r: bool): Formula {
    (iset k: nat | KeptAt(s.db, n, postponed, r, k) :: LitsOf(s.db[k].lits)) + Units(s.vals, s.unsat)
  }

  function ImageOf(reprs: map<Lit, Lit>, lits: seq<Lit>): Clause {
    SU.ImageClause(reprs, LitsOf(lits))
  }

  // Fixed literals represent themselves.
  ghost predicate FixedReprs(reprs: map<Lit, Lit>, vals: set<Lit>) {
    forall l {:trigger FixedAt(reprs, vals, l)} :: l in vals ==> FixedAt(reprs, vals, l)
  }

  ghost predicate FixedAt(reprs: map<Lit, Lit>, vals: set<Lit>, l: Lit) {
    l != 0 && -l !in vals && SU.Image(reprs, l) == l && SU.Image(reprs, -l) == -l
  }

  // Literals of live clauses are active or fixed.
  ghost predicate Covered(reprs: map<Lit, Lit>, vals: set<Lit>, lits: seq<Lit>) {
    WA.Distinct(lits) && |lits| >= 2 && forall l {:trigger l in lits} :: l in lits ==> l in reprs || l in vals || -l in vals
  }

  // Before 'n' all clauses are rewritten, from 'n' on they are as before.
  ghost predicate ImageKept(s0: State, s: State, reprs: map<Lit, Lit>, n: nat, postponed: seq<nat>, k: nat)
    requires k < |s0.db|
  {
    Live(s0.db, k) ==> Entails(Rewritten(s, n, postponed, s0.db[k].redundant), ImageOf(reprs, s0.db[k].lits))
  }

  ghost predicate Substituting(s0: State, s: State, reprs: map<Lit, Lit>, n: nat, postponed: seq<nat>) {
    forall u {:trigger Look(u)} :: Look(u) ==>
      && n <= |s0.db| <= |s.db| && s0.vals <= s.vals && !s0.unsat
      && EntailsAll(Meaning(s0, true), Meaning(s, true)) && FixedReprs(reprs, s.vals)
      && (forall k {:trigger ImageKept(s0, s, reprs, n, postponed, k)} :: 0 <= k < n ==> ImageKept(s0, s, reprs, n, postponed, k))
      && (forall k {:trigger s.db[k]} :: n <= k < |s0.db| ==> s.db[k] == s0.db[k])
      && (forall k {:trigger s.db[k]} :: |s0.db| <= k < |s.db| ==> s.db[k].garbage)
      && (forall k {:trigger k in postponed} :: k in postponed ==> k < n)
      && (forall k {:trigger s0.db[k]} :: 0 <= k < |s0.db| && !s0.db[k].garbage ==> Covered(reprs, s0.vals, s0.db[k].lits))
  }

  // Hides what the representatives mean.
  ghost predicate Equivalent(s: State, reprs: map<Lit, Lit>) {
    forall u {:trigger Look(u)} :: Look(u) ==> SU.EquivalencesHold(Meaning(s, true), reprs)
  }

  lemma MemberEntailed(f: Formula, c: Clause)
    requires c in f
    ensures Entails(f, c)
  {
  }

  lemma SubsetEntailed(f: Formula, c: Clause, d: Clause)
    requires Entails(f, c) && c <= d
    ensures Entails(f, d)
  {
    forall m: Model | Models(m, f) ensures Sat(m, d) {
      var x :| x in c && Holds(m, x);
      assert x in d;
    }
  }

  lemma SubstitutingStart(s: State, reprs: map<Lit, Lit>)
    requires !s.unsat && FixedReprs(reprs, s.vals)
    requires forall k {:trigger s.db[k]} :: 0 <= k < |s.db| && !s.db[k].garbage ==> Covered(reprs, s.vals, s.db[k].lits)
    ensures Substituting(s, s, reprs, 0, [])
  {
    forall c | c in Meaning(s, true) ensures Entails(Meaning(s, true), c) {
    }
  }

  // What was rewritten stays implied: more units, more clauses.
  lemma RewrittenMore(s0: State, s: State, s': State, reprs: map<Lit, Lit>, n: nat, postponed: seq<nat>, postponed': seq<nat>)
    requires Substituting(s0, s, reprs, n, postponed) && n < |s0.db| && |s.db| <= |s'.db| && s.vals <= s'.vals && (s.unsat ==> s'.unsat)
    requires n <= |s.db| && forall k {:trigger s'.db[k]} :: 0 <= k < n ==> s'.db[k] == s.db[k]
    requires forall k {:trigger k in postponed'} :: k < n ==> (k in postponed' <==> k in postponed)
    ensures forall k {:trigger ImageKept(s0, s', reprs, n + 1, postponed', k)} :: 0 <= k < n ==> ImageKept(s0, s', reprs, n + 1, postponed', k)
  {
    assert Look(0);
    var m := n + 1;
    forall k | 0 <= k < n ensures ImageKept(s0, s', reprs, m, postponed', k) {
      assert ImageKept(s0, s, reprs, n, postponed, k);
      if Live(s0.db, k) {
        var r := s0.db[k].redundant;
        RewrittenGrows(s, s', n, postponed, postponed', r);
        EntailsMonotone(Rewritten(s, n, postponed, r), Rewritten(s', m, postponed', r), ImageOf(reprs, s0.db[k].lits));
      }
    }
  }

  lemma RewrittenGrows(s: State, s': State, n: nat, postponed: seq<nat>, postponed': seq<nat>, r: bool)
    requires n <= |s.db| <= |s'.db| && s.vals <= s'.vals && (s.unsat ==> s'.unsat)
    requires forall k {:trigger s'.db[k]} :: 0 <= k < n ==> s'.db[k] == s.db[k]
    requires forall k {:trigger k in postponed'} :: k < n ==> (k in postponed' <==> k in postponed)
    ensures Rewritten(s, n, postponed, r) <= Rewritten(s', n + 1, postponed', r)
  {
    forall c | c in Rewritten(s, n, postponed, r) ensures c in Rewritten(s', n + 1, postponed', r) {
      if c !in Units(s.vals, s.unsat) {
        var k: nat :| KeptAt(s.db, n, postponed, r, k) && c == LitsOf(s.db[k].lits);
        assert KeptAt(s'.db, n + 1, postponed', r, k);
      }
    }
  }

  // One clause is dealt with.
  lemma SubstitutingNext(s0: State, s: State, s': State, reprs: map<Lit, Lit>, n: nat, postponed: seq<nat>, postponed': seq<nat>)
    requires Substituting(s0, s, reprs, n, postponed) && n < |s0.db| && |s.db| <= |s'.db| && s.vals <= s'.vals && (s.unsat ==> s'.unsat)
    requires forall k {:trigger s'.db[k]} :: 0 <= k < |s.db| && k != n ==> s'.db[k] == s.db[k]
    requires forall k {:trigger s'.db[k]} :: |s.db| <= k < |s'.db| ==> s'.db[k].garbage
    requires postponed' == postponed || postponed' == postponed + [n]
    requires ImageKept(s0, s', reprs, n + 1, postponed', n)
    requires FixedReprs(reprs, s'.vals) && EntailsAll(Meaning(s0, true), Meaning(s', true))
    ensures Substituting(s0, s', reprs, n + 1, postponed')
  {
    NextKept(s0, s, s', reprs, n, postponed, postponed');
    NextClauses(s0, s, s', reprs, n, postponed, postponed');
    assert Look(0);
  }

  lemma NextKept(s0: State, s: State, s': State, reprs: map<Lit, Lit>, n: nat, postponed: seq<nat>, postponed': seq<nat>)
    requires Substituting(s0, s, reprs, n, postponed) && n < |s0.db| && |s.db| <= |s'.db| && s.vals <= s'.vals && (s.unsat ==> s'.unsat)
    requires forall k {:trigger s'.db[k]} :: 0 <= k < |s.db| && k != n ==> s'.db[k] == s.db[k]
    requires postponed' == postponed || postponed' == postponed + [n]
    requires ImageKept(s0, s', reprs, n + 1, postponed', n)
    ensures forall k {:trigger ImageKept(s0, s', reprs, n + 1, postponed', k)} :: 0 <= k < n + 1 ==> ImageKept(s0, s', reprs, n + 1, postponed', k)
    ensures forall k {:trigger k in postponed'} :: k in postponed' ==> k < n + 1
  {
    assert Look(0);
    assert forall k :: k in postponed' ==> k in postponed || k == n;
    RewrittenMore(s0, s, s', reprs, n, postponed, postponed');
  }

  lemma NextClauses(s0: State, s: State, s': State, reprs: map<Lit, Lit>, n: nat, postponed: seq<nat>, postponed': seq<nat>)
    requires Substituting(s0, s, reprs, n, postponed) && n < |s0.db| && |s.db| <= |s'.db| && s.vals <= s'.vals
    requires forall k {:trigger s'.db[k]} :: 0 <= k < |s.db| && k != n ==> s'.db[k] == s.db[k]
    requires forall k {:trigger s'.db[k]} :: |s.db| <= k < |s'.db| ==> s'.db[k].garbage
    ensures n + 1 <= |s0.db| <= |s'.db| && s0.vals <= s'.vals && !s0.unsat
    ensures forall k {:trigger s'.db[k]} :: n + 1 <= k < |s0.db| ==> s'.db[k] == s0.db[k]
    ensures forall k {:trigger s'.db[k]} :: |s0.db| <= k < |s'.db| ==> s'.db[k].garbage
    ensures forall k {:trigger s0.db[k]} :: 0 <= k < |s0.db| && !s0.db[k].garbage ==> Covered(reprs, s0.vals, s0.db[k].lits)
  {
    assert Look(0);
  }

  // ----- The substituted clause.

  // 'r' are the representatives of the literals, without false literals.
  ghost predicate Substituted(reprs: map<Lit, Lit>, vals: set<Lit>, lits: seq<Lit>, r: seq<Lit>) {
    && WA.Distinct(r) && |r| <= |lits|
    && (forall x {:trigger x in r} :: x in r ==> x !in vals && -x !in vals && x in reprs && reprs[x] == x && x in ImageOf(reprs, lits))
    && (forall l {:trigger l in lits} :: l in lits ==> SU.Image(reprs, l) in r || -SU.Image(reprs, l) in vals)
  }

  // A literal of the image is true, or the image is tautological.
  ghost predicate Satisfied(reprs: map<Lit, Lit>, vals: set<Lit>, lits: seq<Lit>) {
    exists x :: x in ImageOf(reprs, lits) && (x in vals || -x in ImageOf(reprs, lits))
  }

  lemma ImageMember(reprs: map<Lit, Lit>, lits: seq<Lit>, l: Lit)
    requires l in lits
    ensures SU.Image(reprs, l) in ImageOf(reprs, lits)
  {
    assert l in LitsOf(lits);
  }

  // The substituted clause follows from the original ones.
  lemma SubstitutedEntailed(s0: State, s: State, reprs: map<Lit, Lit>, n: nat, postponed: seq<nat>, r: seq<Lit>)
    requires Substituting(s0, s, reprs, n, postponed) && n < |s0.db| && !s0.db[n].garbage && SU.EquivalencesHold(Meaning(s0, true), reprs)
    requires Substituted(reprs, s.vals, s0.db[n].lits, r)
    ensures Entails(Meaning(s0, true), LitsOf(r))
  {
    var c := LitsOf(s0.db[n].lits);
    ImageFollows(s0, s, reprs, n, postponed);
    forall m: Model | Models(m, Meaning(s0, true)) ensures Sat(m, LitsOf(r)) {
      assert Sat(m, SU.ImageClause(reprs, c));
      var x :| x in SU.ImageClause(reprs, c) && Holds(m, x);
      var l :| l in c && x == SU.Image(reprs, l);
      if -x in s.vals {
        FixedSign(s0, s, reprs, n, postponed, -x);
        UnitHolds(s0, s, m, -x);
      }
      assert x in LitsOf(r);
    }
  }

  lemma ImageFollows(s0: State, s: State, reprs: map<Lit, Lit>, n: nat, postponed: seq<nat>)
    requires Substituting(s0, s, reprs, n, postponed) && n < |s0.db| && !s0.db[n].garbage && SU.EquivalencesHold(Meaning(s0, true), reprs)
    ensures Entails(Meaning(s0, true), ImageOf(reprs, s0.db[n].lits)) && EntailsAll(Meaning(s0, true), Meaning(s, true))
  {
    assert Look(0);
    var c := LitsOf(s0.db[n].lits);
    assert Counted(s0.db, true, n) && c in Meaning(s0, true);
    MemberEntailed(Meaning(s0, true), c);
    assert Covered(reprs, s0.vals, s0.db[n].lits);
    SU.ImageEntailed(Meaning(s0, true), reprs, c);
  }

  lemma FixedSign(s0: State, s: State, reprs: map<Lit, Lit>, n: nat, postponed: seq<nat>, x: Lit)
    requires Substituting(s0, s, reprs, n, postponed) && x in s.vals
    ensures x != 0
  {
    assert Look(0);
    assert FixedAt(reprs, s.vals, x);
  }

  lemma UnitHolds(s0: State, s: State, m: Model, x: Lit)
    requires EntailsAll(Meaning(s0, true), Meaning(s, true)) && Models(m, Meaning(s0, true)) && x in s.vals
    ensures Holds(m, x)
  {
    assert {x} in Meaning(s, true);
    assert Entails(Meaning(s0, true), {x});
    assert Sat(m, {x});
  }

  lemma SatisfiedKept(f: Formula, reprs: map<Lit, Lit>, vals: set<Lit>, unsat: bool, lits: seq<Lit>)
    requires Satisfied(reprs, vals, lits) && Units(vals, unsat) <= f && 0 !in ImageOf(reprs, lits)
    ensures Entails(f, ImageOf(reprs, lits))
  {
    var x :| x in ImageOf(reprs, lits) && (x in vals || -x in ImageOf(reprs, lits));
    if x in vals {
      assert {x} in f;
      MemberEntailed(f, {x});
      SubsetEntailed(f, {x}, ImageOf(reprs, lits));
    } else {
      RE.TautologySatisfied(f, ImageOf(reprs, lits), x);
    }
  }

  lemma SubstitutedKept(f: Formula, reprs: map<Lit, Lit>, vals: set<Lit>, lits: seq<Lit>, r: seq<Lit>)
    requires Substituted(reprs, vals, lits, r) && LitsOf(r) in f
    ensures Entails(f, ImageOf(reprs, lits))
  {
    MemberEntailed(f, LitsOf(r));
    forall x | x in LitsOf(r) ensures x in ImageOf(reprs, lits) {
    }
    SubsetEntailed(f, LitsOf(r), ImageOf(reprs, lits));
  }

  // ----- What happens to each clause.

  // 'r' is left of the clause: its only literal becomes a unit, or it replaces the literals of the clause.
  ghost predicate Shortened(reprs: map<Lit, Lit>, v: set<Lit>, c: SClause, c': SClause, vals: set<Lit>, r: seq<Lit>) {
    && Substituted(reprs, v, c.lits, r) && |r| >= 1
    && (if |r| == 1 then c'.garbage && r[0] in vals else c'.lits == r && !c'.garbage && c'.redundant == c.redundant)
  }

  // Clauses in which all literals represent themselves stay.  The others are gone if their image is satisfied
  // or tautological under the values 'v', and shortened to their image without false literals otherwise.
  ghost predicate Dealt(reprs: map<Lit, Lit>, v: set<Lit>, c: SClause, c': SClause, vals: set<Lit>) {
    if c.garbage || AllSelf(reprs, c.lits) then c' == c
    else if Satisfied(reprs, v, c.lits) then c' == c.(garbage := true)
    else exists r {:trigger Shortened(reprs, v, c, c', vals, r)} :: Shortened(reprs, v, c, c', vals, r)
  }

  ghost predicate AllSelf(reprs: map<Lit, Lit>, lits: seq<Lit>) {
    forall l {:trigger l in lits} :: l in lits ==> Repr(reprs, l) == l
  }

  function Final(db: Db, postponed: seq<nat>, k: nat): SClause
    requires k < |db|
  {
    if k in postponed then db[k].(garbage := true) else db[k]
  }

  // The values are those at the time the clause was dealt with.
  ghost predicate DealtAt(s0: State, s: State, reprs: map<Lit, Lit>, postponed: seq<nat>, k: nat)
    requires k < |s0.db| && k < |s.db|
  {
    exists v {:trigger Dealt(reprs, v, s0.db[k], Final(s.db, postponed, k), s.vals)} ::
      s0.vals <= v <= s.vals && Dealt(reprs, v, s0.db[k], Final(s.db, postponed, k), s.vals)
  }

  ghost predicate Dealing(s0: State, s: State, reprs: map<Lit, Lit>, n: nat, postponed: seq<nat>) {
    forall u {:trigger Look(u)} :: Look(u) ==>
      n <= |s0.db| <= |s.db| && forall k {:trigger DealtAt(s0, s, reprs, postponed, k)} :: 0 <= k < n ==> DealtAt(s0, s, reprs, postponed, k)
  }

  lemma DealingNext(s0: State, s: State, s': State, reprs: map<Lit, Lit>, n: nat, postponed: seq<nat>, postponed': seq<nat>)
    requires Dealing(s0, s, reprs, n, postponed) && n < |s0.db| && n < |s'.db| && |s.db| <= |s'.db| && s.vals <= s'.vals
    requires forall k {:trigger s'.db[k]} :: 0 <= k < |s.db| && k != n ==> s'.db[k] == s.db[k]
    requires postponed' == postponed || postponed' == postponed + [n]
    requires DealtAt(s0, s', reprs, postponed', n)
    ensures Dealing(s0, s', reprs, n + 1, postponed')
  {
    assert Look(0);
    forall k | 0 <= k < n ensures DealtAt(s0, s', reprs, postponed', k) {
      assert DealtAt(s0, s, reprs, postponed, k);
      assert k in postponed' <==> k in postponed;
      var v :| s0.vals <= v <= s.vals && Dealt(reprs, v, s0.db[k], Final(s.db, postponed, k), s.vals);
      DealtLater(reprs, v, s0.db[k], Final(s.db, postponed, k), s.vals, s'.vals);
      assert Dealt(reprs, v, s0.db[k], Final(s'.db, postponed', k), s'.vals);
    }
  }

  lemma DealtLater(reprs: map<Lit, Lit>, v: set<Lit>, c: SClause, c': SClause, vals: set<Lit>, vals': set<Lit>)
    requires Dealt(reprs, v, c, c', vals) && vals <= vals'
    ensures Dealt(reprs, v, c, c', vals')
  {
    if r :| Shortened(reprs, v, c, c', vals, r) {
      assert Shortened(reprs, v, c, c', vals', r);
    }
  }

  // What is left of a clause excludes that it is satisfied.
  lemma NotSatisfied(reprs: map<Lit, Lit>, vals: set<Lit>, lits: seq<Lit>, r: seq<Lit>)
    requires Substituted(reprs, vals, lits, r) && FixedReprs(reprs, vals)
    ensures !Satisfied(reprs, vals, lits)
  {
    forall x | x in ImageOf(reprs, lits) ensures x !in vals && -x !in ImageOf(reprs, lits) {
      ImageLeft(reprs, vals, lits, r, x);
      assert -(-x) == x;
      assert -x in vals ==> FixedAt(reprs, vals, -x);
      assert x in vals ==> FixedAt(reprs, vals, x);
      if -x in ImageOf(reprs, lits) {
        ImageLeft(reprs, vals, lits, r, -x);
      }
    }
  }

  lemma ImageLeft(reprs: map<Lit, Lit>, vals: set<Lit>, lits: seq<Lit>, r: seq<Lit>, x: Lit)
    requires Substituted(reprs, vals, lits, r) && x in ImageOf(reprs, lits)
    ensures x in r || -x in vals
    ensures x in r ==> x !in vals && -x !in vals && -x !in r
  {
    var l :| l in LitsOf(lits) && x == SU.Image(reprs, l);
    assert l in lits;
  }

  // Nothing is left of the clause: all literals of its image are false.
  ghost predicate Emptied(reprs: map<Lit, Lit>, vals: set<Lit>, lits: seq<Lit>) {
    forall l {:trigger l in lits} :: l in lits ==> -SU.Image(reprs, l) in vals
  }

  ghost predicate EmptiedAt(s0: State, vals: set<Lit>, reprs: map<Lit, Lit>, k: nat) {
    Live(s0.db, k) && Emptied(reprs, vals, s0.db[k].lits)
  }

  ghost predicate SomeEmptied(s0: State, vals: set<Lit>, reprs: map<Lit, Lit>) {
    exists k: nat {:trigger EmptiedAt(s0, vals, reprs, k)} :: EmptiedAt(s0, vals, reprs, k)
  }

  // The result: old clauses were dealt with, all new ones are garbage, and literals of live clauses represent
  // themselves.
  ghost predicate Result(s0: State, s: State, reprs: map<Lit, Lit>) {
    && |s0.db| <= |s.db|
    && (forall k {:trigger DealtAt(s0, s, reprs, [], k)} :: 0 <= k < |s0.db| ==> DealtAt(s0, s, reprs, [], k))
    && (forall k {:trigger s.db[k]} :: |s0.db| <= k < |s.db| ==> s.db[k].garbage)
    && (forall k {:trigger s.db[k]} :: 0 <= k < |s.db| && !s.db[k].garbage ==> OwnLiterals(reprs, s.db[k].lits))
  }

  ghost predicate OwnLiterals(reprs: map<Lit, Lit>, lits: seq<Lit>) {
    forall l {:trigger l in lits} :: l in lits ==> l in reprs && reprs[l] == l
  }

  lemma ResultIntro(s0: State, s: State, s': State, reprs: map<Lit, Lit>, postponed: seq<nat>)
    requires Substituting(s0, s, reprs, |s0.db|, postponed) && Dealing(s0, s, reprs, |s0.db|, postponed)
    requires |s'.db| == |s.db| && s'.vals == s.vals
    requires forall k {:trigger s'.db[k]} :: 0 <= k < |s.db| ==> s'.db[k] == Final(s.db, postponed, k)
    ensures Result(s0, s', reprs)
  {
    assert Look(0);
    forall k | 0 <= k < |s0.db|
      ensures DealtAt(s0, s', reprs, [], k) && (!s'.db[k].garbage ==> OwnLiterals(reprs, s'.db[k].lits))
    {
      assert DealtAt(s0, s, reprs, postponed, k) && Final(s'.db, [], k) == Final(s.db, postponed, k);
      var v :| s0.vals <= v <= s.vals && Dealt(reprs, v, s0.db[k], Final(s.db, postponed, k), s.vals);
      assert Dealt(reprs, v, s0.db[k], Final(s'.db, [], k), s'.vals);
      if !s'.db[k].garbage {
        assert Covered(reprs, s0.vals, s0.db[k].lits);
        DealtOwn(reprs, v, s0.db[k], s'.db[k], s.vals);
      }
    }
  }

  lemma DealtOwn(reprs: map<Lit, Lit>, v: set<Lit>, c: SClause, c': SClause, vals: set<Lit>)
    requires Dealt(reprs, v, c, c', vals) && !c.garbage && !c'.garbage && 0 !in c.lits
    ensures OwnLiterals(reprs, c'.lits)
  {
    if AllSelf(reprs, c.lits) {
      forall l | l in c.lits ensures l in reprs && reprs[l] == l {
        assert Repr(reprs, l) == l;
      }
    } else {
      var r :| Shortened(reprs, v, c, c', vals, r);
    }
  }

  // What the search for components establishes.
  ghost predicate Representatives(reprs: map<Lit, Lit>) {
    forall l {:trigger RepresentedAt(reprs, l)} :: l in reprs ==> RepresentedAt(reprs, l)
  }

  ghost predicate RepresentedAt(reprs: map<Lit, Lit>, l: Lit)
    requires l in reprs
  {
    l != 0 && reprs[l] != 0 && -l in reprs && reprs[-l] == -reprs[l] && reprs[l] in reprs && reprs[reprs[l]] == reprs[l]
  }

  // The same for some of the literals.
  ghost predicate Copied(reprs: map<Lit, Lit>, vals: set<Lit>, lits: seq<Lit>, n: nat, r: seq<Lit>) {
    && n <= |lits| && |r| <= n && WA.Distinct(r)
    && (forall x {:trigger x in r} :: x in r ==> x !in vals && -x !in vals && x in reprs && reprs[x] == x && x in ImageOf(reprs, lits))
    && (forall j {:trigger lits[j]} :: 0 <= j < n ==> SU.Image(reprs, lits[j]) in r || -SU.Image(reprs, lits[j]) in vals)
  }

  lemma CopiedSkip(reprs: map<Lit, Lit>, vals: set<Lit>, lits: seq<Lit>, n: nat, r: seq<Lit>)
    requires Copied(reprs, vals, lits, n, r) && n < |lits|
    requires SU.Image(reprs, lits[n]) in r || -SU.Image(reprs, lits[n]) in vals
    ensures Copied(reprs, vals, lits, n + 1, r)
  {
  }

  lemma CopiedNext(reprs: map<Lit, Lit>, vals: set<Lit>, lits: seq<Lit>, n: nat, r: seq<Lit>)
    requires Copied(reprs, vals, lits, n, r) && n < |lits| && lits[n] in reprs && RepresentedAt(reprs, lits[n])
    requires var x := reprs[lits[n]]; x !in vals && -x !in vals && x !in r && -x !in r
    ensures Copied(reprs, vals, lits, n + 1, r + [reprs[lits[n]]])
  {
    var x := reprs[lits[n]];
    ImageMember(reprs, lits, lits[n]);
    DistinctMore(r, x);
    assert forall y :: y in r + [x] <==> y in r || y == x;
  }

  lemma DistinctMore(r: seq<Lit>, x: Lit)
    requires WA.Distinct(r) && x !in r && -x !in r && x != 0
    ensures WA.Distinct(r + [x])
  {
    var r' := r + [x];
    assert -(-x) == x;
    forall y | y in r' ensures -y !in r' {
      assert -(-y) == y;
    }
  }

  lemma CopiedAll(reprs: map<Lit, Lit>, vals: set<Lit>, lits: seq<Lit>, r: seq<Lit>)
    requires Copied(reprs, vals, lits, |lits|, r)
    ensures Substituted(reprs, vals, lits, r)
  {
  }

  // Nothing to replace: the clause is its own image.
  lemma OwnImage(reprs: map<Lit, Lit>, lits: seq<Lit>)
    requires forall l :: l in lits ==> Repr(reprs, l) == l && l != 0
    ensures ImageOf(reprs, lits) == LitsOf(lits)
  {
    forall x ensures x in ImageOf(reprs, lits) <==> x in LitsOf(lits) {
      if x in ImageOf(reprs, lits) {
        var l :| l in LitsOf(lits) && x == SU.Image(reprs, l);
      }
      if x in lits {
        ImageMember(reprs, lits, x);
      }
    }
  }

  // Replacing one clause by something that follows.
  lemma StillSound(s0: State, s: State, s': State, n: nat)
    requires EntailsAll(Meaning(s0, true), Meaning(s, true)) && n < |s.db| <= |s'.db|
    requires forall k {:trigger s'.db[k]} :: 0 <= k < |s.db| && k != n ==> s'.db[k] == s.db[k]
    requires forall k {:trigger s'.db[k]} :: |s.db| <= k < |s'.db| ==> s'.db[k].garbage
    requires s'.db[n].garbage || s'.db[n] == s.db[n] || Entails(Meaning(s0, true), LitsOf(s'.db[n].lits))
    requires forall x :: x in s'.vals ==> x in s.vals || Entails(Meaning(s0, true), {x})
    requires s'.unsat ==> s.unsat || Entails(Meaning(s0, true), {})
    ensures EntailsAll(Meaning(s0, true), Meaning(s', true))
  {
    forall c | c in Meaning(s', true) ensures Entails(Meaning(s0, true), c) {
      if c in Units(s'.vals, s'.unsat) {
        if x :| x in s'.vals && c == {x} {
          assert x in s.vals ==> {x} in Meaning(s, true);
        } else {
          assert c == {} && s'.unsat && (s.unsat ==> {} in Meaning(s, true));
        }
      } else {
        var k: nat :| Counted(s'.db, true, k) && c == LitsOf(s'.db[k].lits);
        if k != n || s'.db[n] == s.db[n] {
          assert Counted(s.db, true, k) && c == LitsOf(s.db[k].lits) && c in Meaning(s, true);
        }
      }
    }
  }

  class Substituter {
    const reprs: map<Lit, Lit>
    const maxVar: nat
    var db: Db
    var vals: set<Lit>
    var unsat: bool
    var clause: seq<Lit>
    var marks: set<Lit>
    var postponed: seq<nat>
    var clauseId: nat
    var extension: seq<int>

    ghost function Now(): State
      reads this
    {
      State(db, vals, unsat)
    }

    // Does the clause have a literal with another representative?
    method NeedsSubstitution(lits: seq<Lit>) returns (needed: bool)
      ensures needed <==> !AllSelf(reprs, lits)
    {
      needed := false;
      var j: nat := 0;
      while j < |lits| && !needed
        invariant j <= |lits| && (!needed ==> forall i :: 0 <= i < j ==> Repr(reprs, lits[i]) == lits[i])
        invariant needed ==> !AllSelf(reprs, lits)
      {
        assert lits[j] in lits;
        needed := Repr(reprs, lits[j]) != lits[j];
        j := j + 1;
      }
    }

    // Copy the representative of one literal.  Duplicates and false literals are skipped.
    method CopyLiteral(lits: seq<Lit>, k: nat) returns (satisfied: bool)
      requires marks == LitsOf(clause) && k < |lits| && Copied(reprs, vals, lits, k, clause)
      requires Representatives(reprs) && FixedReprs(reprs, vals) && (lits[k] in reprs || lits[k] in vals || -lits[k] in vals)
      modifies `clause, `marks
      ensures marks == LitsOf(clause)
      ensures if satisfied then Satisfied(reprs, vals, lits) else Copied(reprs, vals, lits, k + 1, clause)
    {
      var lit := lits[k];
      satisfied := false;
      ImageMember(reprs, lits, lit);
      assert -(-lit) == lit;
      assert lit in vals ==> FixedAt(reprs, vals, lit);
      assert -lit in vals ==> FixedAt(reprs, vals, -lit);
      assert lit in reprs ==> RepresentedAt(reprs, lit);
      if lit in vals {
        satisfied := true;
      } else if -lit in vals {
        CopiedSkip(reprs, vals, lits, k, clause);
      } else {
        var other := Repr(reprs, lit);
        if -other in vals {
          CopiedSkip(reprs, vals, lits, k, clause);
        } else if other in vals {
          satisfied := true;
        } else if -other in marks {
          satisfied := true;
        } else if other !in marks {
          CopiedNext(reprs, vals, lits, k, clause);
          LitsOfLast(clause, other);
          marks := marks + {other};
          clause := clause + [other];
        } else {
          CopiedSkip(reprs, vals, lits, k, clause);
        }
      }
    }

    method CopyClause(lits: seq<Lit>) returns (satisfied: bool)
      requires marks == {} && clause == [] && Representatives(reprs) && FixedReprs(reprs, vals)
      requires forall l {:trigger l in lits} :: l in lits ==> l in reprs || l in vals || -l in vals
      modifies `clause, `marks
      ensures marks == LitsOf(clause)
      ensures if satisfied then Satisfied(reprs, vals, lits) else Substituted(reprs, vals, lits, clause)
    {
      satisfied := false;
      var k: nat := 0;
      while !satisfied && k < |lits|
        invariant k <= |lits| && marks == LitsOf(clause)
        invariant if satisfied then Satisfied(reprs, vals, lits) else Copied(reprs, vals, lits, k, clause)
      {
        assert lits[k] in lits;
        satisfied := CopyLiteral(lits, k);
        k := k + 1;
      }
      if !satisfied {
        CopiedAll(reprs, vals, lits, clause);
      }
    }

    method UnmarkAll()
      requires marks == LitsOf(clause)
      modifies `clause, `marks
      ensures clause == [] && marks == {}
    {
      while clause != []
        invariant marks <= LitsOf(clause)
        decreases |clause|
      {
        var n := |clause| - 1;
        LitsOfLast(clause[..n], clause[n]);
        assert clause == clause[..n] + [clause[n]];
        marks := marks - {clause[n]};
        clause := clause[..n];
      }
    }

    ghost predicate Busy(s0: State, n: nat)
      reads this
    {
      && Substituting(s0, Now(), reprs, n, postponed) && marks == {} && clause == [] && Equivalent(s0, reprs)
      && (if unsat then SomeEmptied(s0, vals, reprs) else Dealing(s0, Now(), reprs, n, postponed))
    }

    // Replace the literals of one clause by their representatives.
    method SubstituteClause(n: nat, ghost s0: State)
      requires Busy(s0, n) && n < |s0.db| && !unsat && Representatives(reprs)
      modifies `db, `vals, `unsat, `clause, `marks, `postponed, `clauseId
      ensures Busy(s0, n + 1)
    {
      ghost var s, before := Now(), postponed;
      RewriteClause(n, s0);
      if !unsat {
        DealingNext(s0, s, Now(), reprs, n, before, postponed);
      }
    }

    method RewriteClause(n: nat, ghost s0: State)
      requires Busy(s0, n) && n < |s0.db| && !unsat && Representatives(reprs)
      modifies `db, `vals, `unsat, `clause, `marks, `postponed, `clauseId
      ensures Substituting(s0, Now(), reprs, n + 1, postponed) && marks == {} && clause == []
      ensures n < |db| && |old(db)| <= |db| && old(vals) <= vals
      ensures if unsat then EmptiedAt(s0, vals, reprs, n) else DealtAt(s0, Now(), reprs, postponed, n)
      ensures forall k {:trigger db[k]} :: 0 <= k < |old(db)| && k != n ==> db[k] == old(db)[k]
      ensures postponed == old(postponed) || postponed == old(postponed) + [n]
    {
      Unchanged(s0, Now(), reprs, n, postponed);
      if db[n].garbage {
        DealtSame(s0, Now(), reprs, n, postponed);
        return;
      }
      var needed := NeedsSubstitution(db[n].lits);
      if !needed {
        KeptUnchanged(s0, Now(), reprs, n, postponed);
        DealtSame(s0, Now(), reprs, n, postponed);
        return;
      }
      var satisfied := CopyClause(db[n].lits);
      if satisfied {
        KeptPostponed(s0, Now(), reprs, n, postponed);
        DealtPostponed(s0, Now(), reprs, n, postponed);
        postponed := postponed + [n];
      } else {
        assert Look(0);
        SubstitutedEntailed(s0, Now(), reprs, n, postponed, clause);
        Replace(n, s0);
      }
      UnmarkAll();
    }

    // The substituted clause is in 'clause'.
    method Replace(n: nat, ghost s0: State)
      requires Substituting(s0, Now(), reprs, n, postponed) && n < |s0.db| && n < |db| && Live(db, n) && db[n] == s0.db[n] && |db[n].lits| >= 2
      requires Substituted(reprs, vals, s0.db[n].lits, clause) && Entails(Meaning(s0, true), LitsOf(clause)) && Representatives(reprs)
      requires !AllSelf(reprs, db[n].lits) && !unsat
      modifies `db, `vals, `unsat, `clauseId
      ensures Substituting(s0, Now(), reprs, n + 1, postponed)
      ensures n < |db| && |old(db)| <= |db| && old(vals) <= vals
      ensures if unsat then Emptied(reprs, vals, s0.db[n].lits) else DealtAt(s0, Now(), reprs, postponed, n)
      ensures forall k {:trigger db[k]} :: 0 <= k < |old(db)| && k != n ==> db[k] == old(db)[k]
    {
      ghost var s := Now();
      if clause == [] {
        unsat := true;
        KeptEmpty(s0, s, reprs, n, postponed);
      } else if |clause| == 1 {
        KeptUnit(s0, s, reprs, n, postponed, clause);
        vals := vals + {clause[0]};
        db := db[n := db[n].(garbage := true)];
        DealtShortened(s0, s, Now(), reprs, n, postponed, clause);
      } else {
        WriteClause(n, s0);
        DealtShortened(s0, s, Now(), reprs, n, postponed, clause);
      }
    }

    // A new clause is needed if a watched literal changes.
    method WriteClause(n: nat, ghost s0: State)
      requires Substituting(s0, Now(), reprs, n, postponed) && n < |s0.db| && n < |db| && Live(db, n) && db[n] == s0.db[n] && |db[n].lits| >= 2
      requires Substituted(reprs, vals, s0.db[n].lits, clause) && Entails(Meaning(s0, true), LitsOf(clause)) && |clause| >= 2
      modifies `db, `clauseId
      ensures Substituting(s0, Now(), reprs, n + 1, postponed) && n < |db| && |old(db)| <= |db|
      ensures db[n].lits == clause && !db[n].garbage && db[n].redundant == s0.db[n].redundant
      ensures forall k {:trigger db[k]} :: 0 <= k < |old(db)| && k != n ==> db[k] == old(db)[k]
    {
      ghost var s := Now();
      var c := db[n];
      clauseId := clauseId + 1;
      if c.lits[0] != clause[0] || c.lits[1] != clause[1] {
        KeptReplaced(s0, s, reprs, n, postponed, clause, SClause(clause, false, c.redundant, clauseId), [c.(garbage := true)]);
        db := db[n := SClause(clause, false, c.redundant, clauseId)] + [c.(garbage := true)];
      } else {
        KeptReplaced(s0, s, reprs, n, postponed, clause, c.(lits := clause, id := clauseId), []);
        var lits := Overwrite(c.lits);
        db := db[n := c.(lits := lits, id := clauseId)];
        assert db == s.db[n := c.(lits := clause, id := clauseId)] + [];
      }
    }

    // Shrink the clause in place: the first two literals are the same.
    method Overwrite(lits0: seq<Lit>) returns (lits: seq<Lit>)
      requires |lits0| >= 2 && 2 <= |clause| <= |lits0| && lits0[0] == clause[0] && lits0[1] == clause[1]
      ensures lits == clause
    {
      lits := lits0;
      var l := 2;
      while l < |clause|
        invariant 2 <= l <= |clause| <= |lits| && forall j :: 0 <= j < l ==> lits[j] == clause[j]
      {
        lits := lits[l := clause[l]];
        l := l + 1;
      }
      lits := lits[..l];
    }

    // Push both binary clauses of every substituted variable on the extension stack.
    method PushEquivalences() returns (ghost es: seq<SU.Equivalence>)
      requires Representatives(reprs) && forall l {:trigger l in reprs} :: l in reprs ==> 0 < Var(l) <= maxVar
      modifies `extension, `clauseId
      ensures extension == old(extension) + EX.EncodeAll(SU.PushedAll(es)) && SU.Describes(es, reprs)
    {
      es := [];
      PushedStart(extension);
      for idx := 1 to maxVar + 1
        invariant PushedOn(extension, old(extension), es) && Described(es, reprs, idx)
      {
        var l: Lit := idx;
        DescribedNext(es, reprs, idx, clauseId);
        if l in reprs && reprs[l] != l {
          es := PushEquivalence(l, reprs[l], old(extension), es);
        }
      }
      DescribedAll(es, reprs, maxVar);
      assert Look(0);
    }

    method PushEquivalence(idx: Lit, other: Lit, ghost base: seq<int>, ghost es0: seq<SU.Equivalence>) returns (ghost es: seq<SU.Equivalence>)
      requires PushedOn(extension, base, es0)
      modifies `extension, `clauseId
      ensures es == es0 + [SU.Equivalence(idx, other, old(clauseId) + 1, old(clauseId) + 2)]
      ensures PushedOn(extension, base, es) && clauseId == old(clauseId) + 2
    {
      ghost var e, x := SU.Equivalence(idx, other, clauseId + 1, clauseId + 2), extension;
      es := es0 + [e];
      clauseId := clauseId + 1;
      PushBinaryClause(clauseId, -idx, other);
      ghost var y := extension;
      clauseId := clauseId + 1;
      PushBinaryClause(clauseId, idx, -other);
      PairPushed(base, es0, e, x, y, extension);
    }

    method PushBinaryClause(id: nat, pivot: Lit, other: Lit)
      modifies `extension
      ensures extension == old(extension) + EX.Encode(EX.Entry([pivot], [pivot, other], id))
    {
      extension := extension + [0] + [pivot] + [0] + [EX.HighWord(id), EX.LowWord(id)] + [0] + [pivot, other];
      EX.EncodeShape(old(extension), EX.Entry([pivot], [pivot, other], id));
    }

    // Substitute in all clauses, as long as the empty clause is not derived.
    method SubstituteClauses(ghost s0: State) returns (ghost n: nat)
      requires Busy(s0, 0) && s0 == Now() && !unsat && postponed == [] && Representatives(reprs)
      modifies `db, `vals, `unsat, `clause, `marks, `postponed, `clauseId
      ensures Busy(s0, n) && n <= |s0.db| && (!unsat ==> n == |s0.db|)
    {
      var i: nat := 0;
      var size := |db|;
      while i < size && !unsat
        invariant i <= size == |s0.db| && Busy(s0, i)
      {
        SubstituteClause(i, s0);
        i := i + 1;
      }
      n := i;
    }

    method MarkPostponed(ghost s0: State)
      requires Substituting(s0, Now(), reprs, |s0.db|, postponed) && !unsat
      modifies `db, `postponed
      ensures postponed == [] && forall r :: Meaning(Now(), r) == Rewritten(old(Now()), |s0.db|, old(postponed), r)
      ensures |db| == |old(db)| && forall k {:trigger db[k]} :: 0 <= k < |db| ==> db[k] == Final(old(db), old(postponed), k)
    {
      ghost var s := Now();
      PostponedInside(s0, s, reprs, postponed);
      for i := 0 to |postponed|
        invariant postponed == old(postponed) && |db| == |old(db)|
        invariant forall k {:trigger db[k]} :: 0 <= k < |db| ==> db[k] == if k in postponed[..i] then old(db)[k].(garbage := true) else old(db)[k]
      {
        var k := postponed[i];
        assert postponed[..i+1] == postponed[..i] + [k] && k in postponed;
        db := db[k := db[k].(garbage := true)];
      }
      assert postponed[..|postponed|] == postponed;
      forall r ensures Meaning(Now(), r) == Rewritten(s, |s0.db|, postponed, r) {
        MarkedMeaning(s0, s, Now(), reprs, postponed, r);
      }
      postponed := [];
    }

    // Push the equivalences and rewrite all clauses: no model is lost, and the entries pushed extend
    // every model of the result to the original clauses.
    method Substitute() returns (ghost es: seq<SU.Equivalence>)
      requires !unsat && marks == {} && clause == [] && postponed == []
      requires Representatives(reprs) && (forall l {:trigger l in reprs} :: l in reprs ==> 0 < Var(l) <= maxVar)
      requires FixedReprs(reprs, vals) && SU.EquivalencesHold(Meaning(Now(), true), reprs)
      requires forall k {:trigger db[k]} :: 0 <= k < |db| && !db[k].garbage ==> Covered(reprs, vals, db[k].lits)
      modifies this
      ensures extension == old(extension) + EX.EncodeAll(SU.PushedAll(es)) && marks == {} && clause == []
      ensures EntailsAll(Meaning(old(Now()), true), Meaning(Now(), true))
      ensures forall r :: RE.Reconstructs(Meaning(Now(), r), SU.PushedAll(es), Meaning(old(Now()), r))
      ensures if unsat then SomeEmptied(old(Now()), vals, reprs) else postponed == [] && Result(old(Now()), Now(), reprs)
    {
      ghost var s0 := Now();
      es := PushEquivalences();
      SubstitutingStart(s0, reprs);
      ghost var n := SubstituteClauses(s0);
      if unsat {
        UnsatReconstructs(s0, Now(), reprs, n, postponed, es);
      } else {
        forall r ensures RE.Reconstructs(Rewritten(Now(), |s0.db|, postponed, r), SU.PushedAll(es), Meaning(s0, r)) {
          AllRewritten(s0, Now(), reprs, postponed, es, r);
        }
        AllEntailed(s0, Now(), reprs, postponed);
        ghost var s, before := Now(), postponed;
        MarkPostponed(s0);
        ResultIntro(s0, s, Now(), reprs, before);
      }
    }
  }

  // The entries of the equivalences are on top of the stack 'base'.
  ghost predicate PushedOn(extension: seq<int>, base: seq<int>, es: seq<SU.Equivalence>) {
    forall u {:trigger Look(u)} :: Look(u) ==> extension == base + EX.EncodeAll(SU.PushedAll(es))
  }

  lemma PushedStart(extension: seq<int>)
    ensures PushedOn(extension, extension, [])
  {
    assert extension + [] == extension;
  }

  lemma PairPushed(base: seq<int>, es: seq<SU.Equivalence>, e: SU.Equivalence, x: seq<int>, y: seq<int>, z: seq<int>)
    requires PushedOn(x, base, es)
    requires y == x + EX.Encode(EX.Entry([-e.idx], [-e.idx, e.other], e.id1))
    requires z == y + EX.Encode(EX.Entry([e.idx], [e.idx, -e.other], e.id2))
    ensures PushedOn(z, base, es + [e])
  {
    var all, e1, e2 := SU.PushedAll(es), SU.Pushed(e)[0], SU.Pushed(e)[1];
    assert Look(0);
    PairAdded(es, e);
    OnePushed(base, all, e1, x, y);
    OnePushed(base, all + [e1], e2, y, z);
  }

  lemma PairAdded(es: seq<SU.Equivalence>, e: SU.Equivalence)
    ensures SU.PushedAll(es + [e]) == (SU.PushedAll(es) + [SU.Pushed(e)[0]]) + [SU.Pushed(e)[1]]
  {
    assert (es + [e])[..|es|] == es;
  }

  lemma OnePushed(base: seq<int>, all: seq<EX.Entry>, e: EX.Entry, x: seq<int>, y: seq<int>)
    requires x == base + EX.EncodeAll(all) && y == x + EX.Encode(e)
    ensures y == base + EX.EncodeAll(all + [e])
  {
    EX.EncodePush(all, e);
    Associate(base, EX.EncodeAll(all), EX.Encode(e));
  }

  lemma Associate(a: seq<int>, b: seq<int>, c: seq<int>)
    ensures a + b + c == a + (b + c)
  {
  }

  // The equivalences of variables before 'n'.
  ghost predicate Described(es: seq<SU.Equivalence>, reprs: map<Lit, Lit>, n: nat) {
    && (forall i {:trigger es[i]} :: 0 <= i < |es| ==> 0 < es[i].idx < n && es[i].idx in reprs && reprs[es[i].idx] == es[i].other != es[i].idx)
    && (forall i, j :: 0 <= i < j < |es| ==> es[i].idx < es[j].idx)
    && (forall v: Lit {:trigger SU.Substituted(es, v)} :: 0 < v < n && v in reprs && reprs[v] != v ==> SU.Substituted(es, v))
  }

  lemma DescribedNext(es: seq<SU.Equivalence>, reprs: map<Lit, Lit>, n: nat, id: nat)
    requires Described(es, reprs, n) && n > 0
    ensures var l: Lit := n;
            if l in reprs && reprs[l] != l then Described(es + [SU.Equivalence(l, reprs[l], id + 1, id + 2)], reprs, n + 1)
            else Described(es, reprs, n + 1)
  {
    var l: Lit := n;
    if l in reprs && reprs[l] != l {
      var es' := es + [SU.Equivalence(l, reprs[l], id + 1, id + 2)];
      forall v: Lit | 0 < v < n + 1 && v in reprs && reprs[v] != v ensures SU.Substituted(es', v) {
        if v == n {
          assert es'[|es|].idx == v;
        } else {
          assert SU.Substituted(es, v);
          var i :| 0 <= i < |es| && es[i].idx == v;
          assert es'[i].idx == v;
        }
      }
    }
  }

  lemma DescribedAll(es: seq<SU.Equivalence>, reprs: map<Lit, Lit>, maxVar: nat)
    requires Described(es, reprs, maxVar + 1) && Representatives(reprs)
    requires forall l {:trigger l in reprs} :: l in reprs ==> 0 < Var(l) <= maxVar
    ensures SU.Describes(es, reprs)
  {
    forall l | l in reprs ensures SU.CommutesAt(reprs, l) {
      assert RepresentedAt(reprs, l);
    }
    forall l | l in reprs && !SU.Substituted(es, Var(l)) ensures reprs[l] == l {
      assert RepresentedAt(reprs, l) && -(-l) == l;
      var v: Lit := Var(l);
      assert v == l || v == -l;
    }
    forall i, j | 0 <= i < |es| && 0 <= j < |es| ensures Var(es[i].other) != es[j].idx {
      assert RepresentedAt(reprs, es[i].idx) && RepresentedAt(reprs, es[j].idx);
      var o := es[i].other;
      assert RepresentedAt(reprs, o);
      var e := es[j].idx;
      assert o != e && o != -e;
    }
    forall i | 0 <= i < |es| ensures es[i].idx > 0 && es[i].other != 0 {
      assert RepresentedAt(reprs, es[i].idx);
    }
  }

  lemma PostponedInside(s0: State, s: State, reprs: map<Lit, Lit>, postponed: seq<nat>)
    requires Substituting(s0, s, reprs, |s0.db|, postponed)
    ensures forall k :: k in postponed ==> k < |s.db|
  {
    assert Look(0);
  }

  lemma MarkedMeaning(s0: State, s: State, s': State, reprs: map<Lit, Lit>, postponed: seq<nat>, r: bool)
    requires Substituting(s0, s, reprs, |s0.db|, postponed) && |s'.db| == |s.db| && s'.vals == s.vals && s'.unsat == s.unsat
    requires forall k {:trigger s'.db[k]} :: 0 <= k < |s.db| ==> s'.db[k] == if k in postponed then s.db[k].(garbage := true) else s.db[k]
    ensures Meaning(s', r) == Rewritten(s, |s0.db|, postponed, r)
  {
    assert Look(0);
    var n := |s0.db|;
    forall k: nat ensures Counted(s'.db, r, k) <==> KeptAt(s.db, n, postponed, r, k) {
      if k < |s.db| {
        assert s'.db[k].garbage <==> s.db[k].garbage || k in postponed;
      }
    }
    forall c ensures c in Meaning(s', r) <==> c in Rewritten(s, n, postponed, r) {
      if k: nat :| Counted(s'.db, r, k) && c == LitsOf(s'.db[k].lits) {
        assert KeptAt(s.db, n, postponed, r, k) && c == LitsOf(s.db[k].lits);
      }
      if k: nat :| KeptAt(s.db, n, postponed, r, k) && c == LitsOf(s.db[k].lits) {
        assert Counted(s'.db, r, k) && c == LitsOf(s'.db[k].lits);
      }
    }
  }

  // All original clauses are implied by the rewritten ones, up to the substitution; and the
  // irredundant ones by the rewritten irredundant ones.
  lemma AllRewritten(s0: State, s: State, reprs: map<Lit, Lit>, postponed: seq<nat>, es: seq<SU.Equivalence>, r: bool)
    requires Substituting(s0, s, reprs, |s0.db|, postponed) && SU.Describes(es, reprs)
    ensures RE.Reconstructs(Rewritten(s, |s0.db|, postponed, r), SU.PushedAll(es), Meaning(s0, r))
  {
    var g := Rewritten(s, |s0.db|, postponed, r);
    forall c | c in Meaning(s0, r) ensures 0 !in c && Entails(g, SU.ImageClause(reprs, c)) {
      ClauseRewritten(s0, s, reprs, postponed, c, r);
    }
    SU.SubstitutionReconstructs(Meaning(s0, r), g, es, reprs);
  }

  lemma AllEntailed(s0: State, s: State, reprs: map<Lit, Lit>, postponed: seq<nat>)
    requires Substituting(s0, s, reprs, |s0.db|, postponed)
    ensures EntailsAll(Meaning(s0, true), Rewritten(s, |s0.db|, postponed, true))
  {
    assert Look(0);
    forall c | c in Rewritten(s, |s0.db|, postponed, true) ensures c in Meaning(s, true) {
      if k: nat :| KeptAt(s.db, |s0.db|, postponed, true, k) && c == LitsOf(s.db[k].lits) {
        assert Counted(s.db, true, k);
      }
    }
  }

  lemma ClauseRewritten(s0: State, s: State, reprs: map<Lit, Lit>, postponed: seq<nat>, c: Clause, r: bool)
    requires Substituting(s0, s, reprs, |s0.db|, postponed) && c in Meaning(s0, r)
    ensures 0 !in c && Entails(Rewritten(s, |s0.db|, postponed, r), SU.ImageClause(reprs, c))
  {
    assert Look(0);
    var g := Rewritten(s, |s0.db|, postponed, r);
    if c in Units(s0.vals, s0.unsat) {
      var x :| x in s0.vals && c == {x};
      UnitImage(reprs, s.vals, x);
      assert {x} in g;
      MemberEntailed(g, {x});
    } else {
      var k: nat :| Counted(s0.db, r, k) && c == LitsOf(s0.db[k].lits);
      assert Covered(reprs, s0.vals, s0.db[k].lits);
      assert ImageKept(s0, s, reprs, |s0.db|, postponed, k);
      RewrittenLess(s, |s0.db|, postponed, s0.db[k].redundant, r);
      EntailsMonotone(Rewritten(s, |s0.db|, postponed, s0.db[k].redundant), g, ImageOf(reprs, s0.db[k].lits));
    }
  }

  lemma RewrittenLess(s: State, n: nat, postponed: seq<nat>, q: bool, r: bool)
    requires q ==> r
    ensures Rewritten(s, n, postponed, q) <= Rewritten(s, n, postponed, r)
  {
    forall c | c in Rewritten(s, n, postponed, q) ensures c in Rewritten(s, n, postponed, r) {
      if k: nat :| KeptAt(s.db, n, postponed, q, k) && c == LitsOf(s.db[k].lits) {
        assert KeptAt(s.db, n, postponed, r, k);
      }
    }
  }

  lemma UnitImage(reprs: map<Lit, Lit>, vals: set<Lit>, x: Lit)
    requires FixedReprs(reprs, vals) && x in vals
    ensures SU.ImageClause(reprs, {x}) == {x} && x != 0
  {
    assert FixedAt(reprs, vals, x);
    assert SU.Image(reprs, x) in SU.ImageClause(reprs, {x});
  }

  lemma UnsatReconstructs(s0: State, s: State, reprs: map<Lit, Lit>, n: nat, postponed: seq<nat>, es: seq<SU.Equivalence>)
    requires Substituting(s0, s, reprs, n, postponed) && s.unsat
    ensures forall r :: RE.Reconstructs(Meaning(s, r), SU.PushedAll(es), Meaning(s0, r))
    ensures EntailsAll(Meaning(s0, true), Meaning(s, true))
  {
    assert Look(0);
    forall m: Model, r: bool ensures !Models(m, Meaning(s, r)) {
      assert {} in Meaning(s, r) && !Sat(m, {});
    }
  }

  // The components of the binary implication graph give what substitution needs.
  lemma ComponentsSuffice(g: BG.Graph, frozen: set<nat>, reprs: map<Lit, Lit>, f: Formula)
    requires g.WellFormed() && BG.AllRepresented(g, frozen, reprs) && BG.ReadOff(g, f)
    ensures Representatives(reprs) && SU.EquivalencesHold(f, reprs)
  {
    forall l | l in reprs ensures RepresentedAt(reprs, l) && Entails(f, {-l, reprs[l]}) {
      BG.RepresentativeOfNegation(g, frozen, reprs, l);
      BG.RepresentativeIdempotent(g, frozen, reprs, l);
      BG.RepresentativeInComponent(g, frozen, reprs, l);
      BG.EquivalenceEntailed(g, f, l, reprs[l]);
    }
  }

  lemma DealtSame(s0: State, s: State, reprs: map<Lit, Lit>, n: nat, postponed: seq<nat>)
    requires Substituting(s0, s, reprs, n + 1, postponed) && n < |s0.db| && n < |s.db| && s.db[n] == s0.db[n]
    requires s.db[n].garbage || (AllSelf(reprs, s.db[n].lits) && n !in postponed)
    ensures DealtAt(s0, s, reprs, postponed, n)
  {
    assert Look(0);
    assert Dealt(reprs, s.vals, s0.db[n], Final(s.db, postponed, n), s.vals);
  }

  lemma DealtPostponed(s0: State, s: State, reprs: map<Lit, Lit>, n: nat, postponed: seq<nat>)
    requires Substituting(s0, s, reprs, n, postponed) && n < |s0.db| && n < |s.db| && s.db[n] == s0.db[n] && !s.db[n].garbage
    requires Satisfied(reprs, s.vals, s.db[n].lits) && !AllSelf(reprs, s.db[n].lits)
    ensures DealtAt(s0, s, reprs, postponed + [n], n)
  {
    assert Look(0);
    assert n in postponed + [n];
    assert Dealt(reprs, s.vals, s0.db[n], Final(s.db, postponed + [n], n), s.vals);
  }

  lemma DealtShortened(s0: State, s: State, s': State, reprs: map<Lit, Lit>, n: nat, postponed: seq<nat>, r: seq<Lit>)
    requires Substituting(s0, s, reprs, n, postponed) && n < |s0.db| && n < |s'.db| && s.vals <= s'.vals
    requires !s0.db[n].garbage && !AllSelf(reprs, s0.db[n].lits) && Shortened(reprs, s.vals, s0.db[n], s'.db[n], s'.vals, r)
    ensures DealtAt(s0, s', reprs, postponed, n)
  {
    assert Look(0);
    NotSatisfied(reprs, s.vals, s0.db[n].lits, r);
    assert n !in postponed;
    assert Dealt(reprs, s.vals, s0.db[n], Final(s'.db, postponed, n), s'.vals);
  }

  // What is still to be rewritten is unchanged.
  lemma Unchanged(s0: State, s: State, reprs: map<Lit, Lit>, n: nat, postponed: seq<nat>)
    requires Substituting(s0, s, reprs, n, postponed) && n < |s0.db|
    ensures n < |s.db| && s.db[n] == s0.db[n] && FixedReprs(reprs, s.vals)
    ensures !s.db[n].garbage ==> forall l {:trigger l in s.db[n].lits} :: l in s.db[n].lits ==> l in reprs || l in s.vals || -l in s.vals
    ensures if s.db[n].garbage then Substituting(s0, s, reprs, n + 1, postponed) else |s.db[n].lits| >= 2
  {
    assert Look(0);
    if s.db[n].garbage {
      assert ImageKept(s0, s, reprs, n + 1, postponed, n);
      SubstitutingNext(s0, s, s, reprs, n, postponed, postponed);
    } else {
      assert Covered(reprs, s0.vals, s0.db[n].lits);
    }
  }

  lemma KeptUnchanged(s0: State, s: State, reprs: map<Lit, Lit>, n: nat, postponed: seq<nat>)
    requires Substituting(s0, s, reprs, n, postponed) && n < |s0.db| && n < |s.db| && s.db[n] == s0.db[n] && !s.db[n].garbage
    requires AllSelf(reprs, s.db[n].lits)
    ensures Substituting(s0, s, reprs, n + 1, postponed) && n !in postponed
  {
    assert Look(0);
    assert Covered(reprs, s0.vals, s0.db[n].lits);
    OwnImage(reprs, s.db[n].lits);
    assert KeptAt(s.db, n + 1, postponed, s.db[n].redundant, n);
    MemberEntailed(Rewritten(s, n + 1, postponed, s.db[n].redundant), LitsOf(s.db[n].lits));
    assert ImageKept(s0, s, reprs, n + 1, postponed, n);
    SubstitutingNext(s0, s, s, reprs, n, postponed, postponed);
  }

  lemma KeptPostponed(s0: State, s: State, reprs: map<Lit, Lit>, n: nat, postponed: seq<nat>)
    requires Substituting(s0, s, reprs, n, postponed) && n < |s0.db| && n < |s.db| && s.db[n] == s0.db[n] && !s.db[n].garbage
    requires Satisfied(reprs, s.vals, s.db[n].lits) && Representatives(reprs)
    ensures Substituting(s0, s, reprs, n + 1, postponed + [n])
  {
    assert Look(0);
    NoZero(s0, s, reprs, n, postponed);
    SatisfiedKept(Rewritten(s, n + 1, postponed + [n], s0.db[n].redundant), reprs, s.vals, s.unsat, s.db[n].lits);
    assert ImageKept(s0, s, reprs, n + 1, postponed + [n], n);
    SubstitutingNext(s0, s, s, reprs, n, postponed, postponed + [n]);
  }

  lemma NoZero(s0: State, s: State, reprs: map<Lit, Lit>, n: nat, postponed: seq<nat>)
    requires Substituting(s0, s, reprs, n, postponed) && n < |s0.db| && !s0.db[n].garbage && Representatives(reprs)
    ensures 0 !in ImageOf(reprs, s0.db[n].lits)
  {
    assert Look(0);
    assert Covered(reprs, s0.vals, s0.db[n].lits);
    forall l | l in LitsOf(s0.db[n].lits) ensures SU.Image(reprs, l) != 0 {
      assert l in reprs ==> RepresentedAt(reprs, l);
    }
  }

  lemma KeptEmpty(s0: State, s: State, reprs: map<Lit, Lit>, n: nat, postponed: seq<nat>)
    requires Substituting(s0, s, reprs, n, postponed) && n < |s0.db| && Entails(Meaning(s0, true), {})
    ensures Substituting(s0, s.(unsat := true), reprs, n + 1, postponed)
  {
    assert Look(0);
    var s' := s.(unsat := true);
    var g := Rewritten(s', n + 1, postponed, s0.db[n].redundant);
    assert {} in g;
    MemberEntailed(g, {});
    SubsetEntailed(g, {}, ImageOf(reprs, s0.db[n].lits));
    assert ImageKept(s0, s', reprs, n + 1, postponed, n);
    StillSound(s0, s, s', n);
    SubstitutingNext(s0, s, s', reprs, n, postponed, postponed);
  }

  lemma KeptUnit(s0: State, s: State, reprs: map<Lit, Lit>, n: nat, postponed: seq<nat>, r: seq<Lit>)
    requires Substituting(s0, s, reprs, n, postponed) && n < |s0.db| && n < |s.db| && |r| == 1 && Representatives(reprs)
    requires Substituted(reprs, s.vals, s0.db[n].lits, r) && Entails(Meaning(s0, true), LitsOf(r))
    ensures Substituting(s0, s.(db := s.db[n := s.db[n].(garbage := true)], vals := s.vals + {r[0]}), reprs, n + 1, postponed)
  {
    assert Look(0);
    var s' := s.(db := s.db[n := s.db[n].(garbage := true)], vals := s.vals + {r[0]});
    var u := r[0];
    assert u in r && LitsOf(r) == {u};
    var g := Rewritten(s', n + 1, postponed, s0.db[n].redundant);
    assert {u} in g;
    SubstitutedKept(g, reprs, s.vals, s0.db[n].lits, r);
    assert ImageKept(s0, s', reprs, n + 1, postponed, n);
    UnitFixed(reprs, s.vals, u);
    StillSound(s0, s, s', n);
    SubstitutingNext(s0, s, s', reprs, n, postponed, postponed);
  }

  lemma UnitFixed(reprs: map<Lit, Lit>, vals: set<Lit>, u: Lit)
    requires FixedReprs(reprs, vals) && Representatives(reprs) && u in reprs && reprs[u] == u && -u !in vals
    ensures FixedReprs(reprs, vals + {u})
  {
    assert RepresentedAt(reprs, u) && -(-u) == u;
    forall l | l in vals + {u} ensures FixedAt(reprs, vals + {u}, l) {
      assert l in vals ==> FixedAt(reprs, vals, l);
      assert -(-l) == l;
    }
  }

  lemma KeptReplaced(s0: State, s: State, reprs: map<Lit, Lit>, n: nat, postponed: seq<nat>, r: seq<Lit>, d: SClause, more: Db)
    requires Substituting(s0, s, reprs, n, postponed) && n < |s0.db| && n < |s.db| && d.lits == r && !d.garbage && d.redundant == s0.db[n].redundant
    requires Substituted(reprs, s.vals, s0.db[n].lits, r) && Entails(Meaning(s0, true), LitsOf(r))
    requires forall k :: 0 <= k < |more| ==> more[k].garbage
    ensures Substituting(s0, s.(db := s.db[n := d] + more), reprs, n + 1, postponed)
  {
    assert Look(0);
    var s' := s.(db := s.db[n := d] + more);
    var g := Rewritten(s', n + 1, postponed, d.redundant);
    assert n !in postponed && KeptAt(s'.db, n + 1, postponed, d.redundant, n);
    assert LitsOf(r) in g;
    SubstitutedKept(g, reprs, s.vals, s0.db[n].lits, r);
    assert ImageKept(s0, s', reprs, n + 1, postponed, n);
    StillSound(s0, s, s', n);
    SubstitutingNext(s0, s, s', reprs, n, postponed, postponed);
  }
}
