// The clause database during bounded variable elimination: what strengthening, unit propagation
// and adding resolvents on a pivot keep.
module Resolving {
  import opened Cnf
  import RE = Reconstruction
  import PE = PivotElimination

  datatype EClause = EClause(lits: seq<Lit>, garbage: bool, gate: bool, id: nat)

  type Db = seq<EClause>

  datatype State = State(db: Db, vals: set<Lit>, unsat: bool)

  ghost predicate Live(db: Db, k: nat) {
    k < |db| && !db[k].garbage
  }

  // The clause does not contain the variable of 'l'.
  predicate Free(lits: seq<Lit>, l: Lit) {
    l !in lits && -l !in lits
  }

  ghost predicate HasTrue(lits: seq<Lit>, vals: set<Lit>) {
    exists x :: x in lits && x in vals
  }

  ghost function Units(vals: set<Lit>, unsat: bool): Formula {
    (iset x: Lit | x in vals :: {x}) + (if unsat then iset{{}} else iset{})
  }

  // Everything.
  ghost function Meaning(s: State): Formula {
    (iset k: nat | Live(s.db, k) :: LitsOf(s.db[k].lits)) + Units(s.vals, s.unsat)
  }

  ghost predicate LiveFree(db: Db, l: Lit, k: nat) {
    Live(db, k) && Free(db[k].lits, l)
  }

  // Everything but the clauses with the variable of 'l'.
  ghost function Base(s: State, l: Lit): Formula {
    (iset k: nat | LiveFree(s.db, l, k) :: LitsOf(s.db[k].lits)) + Units(s.vals, s.unsat)
  }

  lemma MemberEntailed(f: Formula, c: Clause)
    requires c in f
    ensures Entails(f, c)
  {
  }

  lemma SubsetEntailed(f: Formula, c: Clause, d: Clause)
    requires Entails(f, c) && c <= d
    ensures Entails(f, d)
  {
    forall m: Model | Models(m, f) ensures Sat(m, d) {
      var x :| x in c && Holds(m, x);
      assert x in d;
    }
  }

  lemma BaseInMeaning(s: State, l: Lit)
    ensures Base(s, l) <= Meaning(s)
  {
    forall c | c in Base(s, l) ensures c in Meaning(s) {
      if k: nat :| LiveFree(s.db, l, k) && c == LitsOf(s.db[k].lits) {
        assert Live(s.db, k);
      }
    }
  }

  lemma LiveIn(s: State, l: Lit, k: nat)
    requires Live(s.db, k)
    ensures LitsOf(s.db[k].lits) in Meaning(s)
    ensures Free(s.db[k].lits, l) ==> LitsOf(s.db[k].lits) in Base(s, l)
  {
    assert Free(s.db[k].lits, l) ==> LiveFree(s.db, l, k);
  }

  // ----- What every step keeps.

  ghost predicate KeptAt(s: State, s': State, l: Lit, k: nat)
    requires k < |s.db|
  {
    && k < |s'.db| && s'.db[k].lits == s.db[k].lits && s'.db[k].id == s.db[k].id && s'.db[k].gate == s.db[k].gate
    && (s.db[k].garbage ==> s'.db[k].garbage)
    && (Live(s.db, k) && (s'.db[k].garbage || Free(s.db[k].lits, l)) ==> Entails(Base(s', l), LitsOf(s.db[k].lits)))
  }

  ghost predicate New(s: State, s': State, l: Lit, k: nat)
    requires k < |s'.db|
  {
    k >= |s.db| ==> Free(s'.db[k].lits, l) && !s'.db[k].gate
  }

  // Everything new follows, and whatever is removed follows without the clauses of the pivot.
  ghost predicate Kept(s: State, s': State, l: Lit) {
    forall u {:trigger Look(u)} :: Look(u) ==>
      && EntailsAll(Meaning(s), Meaning(s')) && |s.db| <= |s'.db| && s.vals <= s'.vals && (s.unsat ==> s'.unsat)
      && (forall k {:trigger KeptAt(s, s', l, k)} :: 0 <= k < |s.db| ==> KeptAt(s, s', l, k))
      && (forall k {:trigger New(s, s', l, k)} :: 0 <= k < |s'.db| ==> New(s, s', l, k))
  }

  lemma KeptSame(s: State, l: Lit)
    ensures Kept(s, s, l)
  {
    forall k | 0 <= k < |s.db| ensures KeptAt(s, s, l, k) {
      if Live(s.db, k) && Free(s.db[k].lits, l) {
        LiveIn(s, l, k);
      }
    }
    forall c | c in Meaning(s) ensures Entails(Meaning(s), c) {
    }
  }

  lemma KeptParts(s: State, s': State, l: Lit)
    requires Kept(s, s', l)
    ensures |s.db| <= |s'.db| && s.vals <= s'.vals && (s.unsat ==> s'.unsat) && EntailsAll(Meaning(s), Meaning(s'))
  {
    assert Look(0);
  }

  lemma KeptClause(s: State, s': State, l: Lit, k: nat)
    requires Kept(s, s', l) && k < |s.db|
    ensures KeptAt(s, s', l, k)
  {
    assert Look(0);
  }

  lemma KeptNew(s: State, s': State, l: Lit, k: nat)
    requires Kept(s, s', l) && |s.db| <= k < |s'.db|
    ensures Free(s'.db[k].lits, l) && !s'.db[k].gate
  {
    assert Look(0);
    assert New(s, s', l, k);
  }

  // What is known without the pivot stays known.
  lemma KeptBase(s: State, s': State, l: Lit, c: Clause)
    requires Kept(s, s', l) && Entails(Base(s, l), c)
    ensures Entails(Base(s', l), c)
  {
    KeptParts(s, s', l);
    forall d | d in Base(s, l) ensures Entails(Base(s', l), d) {
      if d in Units(s.vals, s.unsat) {
        assert d in Base(s', l);
      } else {
        var k: nat :| LiveFree(s.db, l, k) && d == LitsOf(s.db[k].lits);
        KeptClause(s, s', l, k);
      }
    }
    EntailsTransitive(Base(s', l), Base(s, l), c);
  }

  lemma KeptTransitive(s: State, s1: State, s2: State, l: Lit)
    requires Kept(s, s1, l) && Kept(s1, s2, l)
    ensures Kept(s, s2, l)
  {
    KeptParts(s, s1, l);
    KeptParts(s1, s2, l);
    forall c | c in Meaning(s2) ensures Entails(Meaning(s), c) {
      EntailsTransitive(Meaning(s), Meaning(s1), c);
    }
    forall k | 0 <= k < |s.db| ensures KeptAt(s, s2, l, k) {
      KeptClause(s, s1, l, k);
      KeptClause(s1, s2, l, k);
      if Live(s.db, k) && (s1.db[k].garbage || Free(s.db[k].lits, l)) {
        KeptBase(s1, s2, l, LitsOf(s.db[k].lits));
      }
    }
    forall k | 0 <= k < |s2.db| ensures New(s, s2, l, k) {
      if |s.db| <= k < |s1.db| {
        KeptNew(s, s1, l, k);
        KeptClause(s1, s2, l, k);
      } else if |s1.db| <= k {
        KeptNew(s1, s2, l, k);
      }
    }
  }

  // Models are the same before and after.
  lemma KeptBackward(s: State, s': State, l: Lit)
    requires Kept(s, s', l)
    ensures EntailsAll(Meaning(s'), Meaning(s))
  {
    KeptParts(s, s', l);
    BaseInMeaning(s', l);
    forall c | c in Meaning(s) ensures Entails(Meaning(s'), c) {
      if c in Units(s.vals, s.unsat) {
        assert c in Meaning(s');
      } else {
        var k: nat :| Live(s.db, k) && c == LitsOf(s.db[k].lits);
        KeptClause(s, s', l, k);
        if s'.db[k].garbage {
          EntailsMonotone(Base(s', l), Meaning(s'), c);
        } else {
          LiveIn(s', l, k);
        }
      }
    }
  }

  // ----- The single steps.

  lemma KeptAdd(s: State, l: Lit, lits: seq<Lit>, id: nat)
    requires Entails(Meaning(s), LitsOf(lits)) && Free(lits, l)
    ensures var s' := s.(db := s.db + [EClause(lits, false, false, id)]); Kept(s, s', l) && LitsOf(lits) in Base(s', l)
  {
    var s' := s.(db := s.db + [EClause(lits, false, false, id)]);
    LiveIn(s', l, |s.db|);
    forall c | c in Meaning(s') ensures Entails(Meaning(s), c) {
      if c !in Units(s.vals, s.unsat) {
        var k: nat :| Live(s'.db, k) && c == LitsOf(s'.db[k].lits);
        if k < |s.db| {
          LiveIn(s, l, k);
        }
      }
    }
    forall k | 0 <= k < |s.db| ensures KeptAt(s, s', l, k) {
      if Live(s.db, k) && Free(s.db[k].lits, l) {
        LiveIn(s', l, k);
      }
    }
  }

  lemma KeptUnit(s: State, l: Lit, u: Lit)
    requires Entails(Meaning(s), {u})
    ensures Kept(s, s.(vals := s.vals + {u}), l)
  {
    var s' := s.(vals := s.vals + {u});
    forall c | c in Meaning(s') ensures Entails(Meaning(s), c) {
      if c != {u} {
        if c in Units(s'.vals, s.unsat) {
          assert c in Meaning(s);
        } else {
          var k: nat :| Live(s'.db, k) && c == LitsOf(s'.db[k].lits);
          LiveIn(s, l, k);
        }
      }
    }
    forall k | 0 <= k < |s.db| ensures KeptAt(s, s', l, k) {
      if Live(s.db, k) && Free(s.db[k].lits, l) {
        LiveIn(s', l, k);
      }
    }
  }

  lemma KeptUnsat(s: State, l: Lit)
    requires Entails(Meaning(s), {})
    ensures Kept(s, s.(unsat := true), l)
  {
    var s' := s.(unsat := true);
    forall c | c in Meaning(s') ensures Entails(Meaning(s), c) {
      if c != {} {
        if c in Units(s.vals, s'.unsat) {
          assert c in Meaning(s);
        } else {
          var k: nat :| Live(s'.db, k) && c == LitsOf(s'.db[k].lits);
          LiveIn(s, l, k);
        }
      }
    }
    forall k | 0 <= k < |s.db| ensures KeptAt(s, s', l, k) {
      if Live(s.db, k) && Free(s.db[k].lits, l) {
        LiveIn(s', l, k);
      }
    }
  }

  function Removed(s: State, k: nat): State
    requires k < |s.db|
  {
    s.(db := s.db[k := s.db[k].(garbage := true)])
  }

  // A clause may be removed once it follows from the others without the pivot.
  lemma KeptGarbage(s: State, l: Lit, k: nat)
    requires k < |s.db| && Entails(Base(Removed(s, k), l), LitsOf(s.db[k].lits))
    ensures Kept(s, Removed(s, k), l)
  {
    var s' := Removed(s, k);
    forall c | c in Meaning(s') ensures Entails(Meaning(s), c) {
      if c !in Units(s.vals, s.unsat) {
        var n: nat :| Live(s'.db, n) && c == LitsOf(s'.db[n].lits);
        LiveIn(s, l, n);
      }
    }
    forall n | 0 <= n < |s.db| ensures KeptAt(s, s', l, n) {
      if n != k && Live(s.db, n) && Free(s.db[n].lits, l) {
        LiveIn(s', l, n);
      }
    }
  }

  lemma SatisfiedGarbage(s: State, l: Lit, k: nat, x: Lit)
    requires k < |s.db| && x in s.db[k].lits && x in s.vals
    ensures Kept(s, Removed(s, k), l)
  {
    var s' := Removed(s, k);
    assert {x} in Base(s', l);
    MemberEntailed(Base(s', l), {x});
    SubsetEntailed(Base(s', l), {x}, LitsOf(s.db[k].lits));
    KeptGarbage(s, l, k);
  }

  lemma SubsumedGarbage(s: State, l: Lit, k: nat, r: Clause)
    requires k < |s.db| && !Free(s.db[k].lits, l) && r in Base(s, l) && r <= LitsOf(s.db[k].lits)
    ensures Kept(s, Removed(s, k), l) && r in Base(Removed(s, k), l)
  {
    var s' := Removed(s, k);
    if r !in Units(s.vals, s.unsat) {
      var n: nat :| LiveFree(s.db, l, n) && r == LitsOf(s.db[n].lits);
      LiveIn(s', l, n);
    }
    MemberEntailed(Base(s', l), r);
    SubsetEntailed(Base(s', l), r, LitsOf(s.db[k].lits));
    KeptGarbage(s, l, k);
  }

  // ----- Resolution under the fixed literals.

  // The literals of a clause that are not false, without 'pivot'.
  function Open(lits: seq<Lit>, pivot: Lit, vals: set<Lit>): (r: seq<Lit>)
    ensures forall x :: x in r <==> x in lits && x != pivot && -x !in vals
  {
    if lits == [] then [] else
      var n := |lits| - 1;
      var r := Open(lits[..n], pivot, vals);
      assert lits == lits[..n] + [lits[n]];
      if lits[n] == pivot || -lits[n] in vals then r else r + [lits[n]]
  }

  lemma FalseIn(f: Formula, m: Model, x: Lit)
    requires Models(m, f) && {-x} in f && x != 0
    ensures !Holds(m, x)
  {
    assert Sat(m, {-x});
  }

  lemma FalseUnit(s: State, m: Model, x: Lit)
    requires Models(m, Meaning(s)) && -x in s.vals && x != 0
    ensures !Holds(m, x)
  {
    assert {-x} in Meaning(s);
    assert Sat(m, {-x});
  }

  lemma ResolventEntailed(s: State, pivot: Lit, a: seq<Lit>, b: seq<Lit>)
    requires pivot != 0 && 0 !in a && 0 !in b
    requires Entails(Meaning(s), LitsOf(a)) && Entails(Meaning(s), LitsOf(b))
    ensures Entails(Meaning(s), LitsOf(Open(a, pivot, s.vals)) + LitsOf(Open(b, -pivot, s.vals)))
  {
    var r := LitsOf(Open(a, pivot, s.vals)) + LitsOf(Open(b, -pivot, s.vals));
    forall m: Model | Models(m, Meaning(s)) ensures Sat(m, r) {
      PE.ResolventSound(LitsOf(a), pivot, LitsOf(b), m);
      var x :| x in RE.Resolvent(LitsOf(a), pivot, LitsOf(b)) && Holds(m, x);
      if -x in s.vals {
        FalseUnit(s, m, x);
      }
      assert x in r;
    }
  }

  // A clause with at most one literal that is not false gives a unit or a conflict.
  lemma UnitEntailed(s: State, lits: seq<Lit>, u: Clause)
    requires Entails(Meaning(s), LitsOf(lits)) && 0 !in lits
    requires forall x :: x in lits ==> -x in s.vals || x in u
    ensures Entails(Meaning(s), u)
  {
    forall m: Model | Models(m, Meaning(s)) ensures Sat(m, u) {
      var x :| x in LitsOf(lits) && Holds(m, x);
      if -x in s.vals {
        FalseUnit(s, m, x);
      }
    }
  }

  // ----- One resolution.

  // The resolvent needs no further attention.
  ghost predicate Resolved(s: State, c: nat, l: Lit, d: nat)
    requires c < |s.db| && d < |s.db|
  {
    s.unsat || s.db[c].garbage || s.db[d].garbage || Entails(Base(s, l), RE.Resolvent(LitsOf(s.db[c].lits), l, LitsOf(s.db[d].lits)))
  }

  lemma ResolvedKept(s: State, s': State, c: nat, l: Lit, d: nat)
    requires c < |s.db| && d < |s.db| && Resolved(s, c, l, d) && Kept(s, s', l)
    ensures |s.db| <= |s'.db| && Resolved(s', c, l, d)
  {
    KeptParts(s, s', l);
    KeptClause(s, s', l, c);
    KeptClause(s, s', l, d);
    if !s.unsat && !s.db[c].garbage && !s.db[d].garbage {
      KeptBase(s, s', l, RE.Resolvent(LitsOf(s.db[c].lits), l, LitsOf(s.db[d].lits)));
    }
  }

  lemma BaseFlip(s: State, l: Lit)
    ensures Base(s, -l) == Base(s, l)
  {
    assert -(-l) == l;
    assert forall k: nat :: LiveFree(s.db, l, k) <==> LiveFree(s.db, -l, k);
  }

  lemma KeptFlip(s: State, s': State, l: Lit)
    requires Kept(s, s', l)
    ensures Kept(s, s', -l)
  {
    var n := -l;
    assert -n == l;
    BaseFlip(s', l);
    KeptParts(s, s', l);
    forall k | 0 <= k < |s.db| ensures KeptAt(s, s', n, k) {
      KeptClause(s, s', l, k);
    }
    forall k | 0 <= k < |s'.db| ensures New(s, s', n, k) {
      if k >= |s.db| {
        KeptNew(s, s', l, k);
      }
    }
  }

  lemma ResolvedFlip(s: State, c: nat, l: Lit, d: nat)
    requires c < |s.db| && d < |s.db| && Resolved(s, d, -l, c)
    ensures Resolved(s, c, l, d)
  {
    assert -(-l) == l;
    BaseFlip(s, l);
    assert RE.Resolvent(LitsOf(s.db[d].lits), -l, LitsOf(s.db[c].lits)) == RE.Resolvent(LitsOf(s.db[c].lits), l, LitsOf(s.db[d].lits));
  }

  lemma ResolvedTautology(s: State, c: nat, l: Lit, d: nat, x: Lit)
    requires c < |s.db| && d < |s.db| && 0 !in s.db[d].lits
    requires x in s.db[d].lits && x != -l && -x in s.db[c].lits
    ensures Resolved(s, c, l, d)
  {
    var r := RE.Resolvent(LitsOf(s.db[c].lits), l, LitsOf(s.db[d].lits));
    assert x in r && -x in r;
    RE.TautologySatisfied(Base(s, l), r, x);
  }

  lemma ResolvedBy(s: State, c: nat, l: Lit, d: nat, r: Clause)
    requires c < |s.db| && d < |s.db| && Entails(Base(s, l), r)
    requires r <= RE.Resolvent(LitsOf(s.db[c].lits), l, LitsOf(s.db[d].lits))
    ensures Resolved(s, c, l, d)
  {
    SubsetEntailed(Base(s, l), r, RE.Resolvent(LitsOf(s.db[c].lits), l, LitsOf(s.db[d].lits)));
  }

  // The clause follows from the clauses without the pivot and the resolvent of the two clauses.
  ghost predicate Follows(s: State, l: Lit, c: nat, d: nat, r: Clause)
    requires c < |s.db| && d < |s.db|
  {
    Entails(Base(s, l) + iset{RE.Resolvent(LitsOf(s.db[c].lits), l, LitsOf(s.db[d].lits))}, r)
  }

  lemma FollowsOpen(s: State, l: Lit, c: nat, d: nat)
    requires c < |s.db| && d < |s.db| && 0 !in s.db[c].lits && 0 !in s.db[d].lits
    ensures Follows(s, l, c, d, LitsOf(Open(s.db[c].lits, l, s.vals)) + LitsOf(Open(s.db[d].lits, -l, s.vals)))
  {
    var res := RE.Resolvent(LitsOf(s.db[c].lits), l, LitsOf(s.db[d].lits));
    var f := Base(s, l) + iset{res};
    var r := LitsOf(Open(s.db[c].lits, l, s.vals)) + LitsOf(Open(s.db[d].lits, -l, s.vals));
    forall m: Model | Models(m, f) ensures Sat(m, r) {
      assert res in f && Sat(m, res);
      var x :| x in res && Holds(m, x);
      if -x in s.vals {
        assert {-x} in f;
        FalseIn(f, m, x);
      }
      assert x in r;
    }
  }

  // The literals of 'o' that are not in 'a'.
  function Extra(o: seq<Lit>, a: seq<Lit>): (r: seq<Lit>)
    ensures forall x :: x in r <==> x in o && x !in a
  {
    if o == [] then [] else
      var n := |o| - 1;
      assert o == o[..n] + [o[n]];
      if o[n] in a then Extra(o[..n], a) else Extra(o[..n], a) + [o[n]]
  }

  ghost predicate NoDup(s: seq<Lit>) {
    forall i, j :: 0 <= i < j < |s| ==> s[i] != s[j]
  }

  lemma {:induction false} NoDupSize(s: seq<Lit>)
    requires NoDup(s)
    ensures |LitsOf(s)| == |s|
    decreases |s|
  {
    if s != [] {
      var n := |s| - 1;
      assert s == s[..n] + [s[n]];
      NoDupSize(s[..n]);
      LitsOfLast(s[..n], s[n]);
      assert s[n] !in s[..n];
    }
  }

  lemma {:induction false} ExtraNoDup(o: seq<Lit>, a: seq<Lit>)
    requires NoDup(o)
    ensures NoDup(Extra(o, a))
    decreases |o|
  {
    if o != [] {
      var n := |o| - 1;
      assert o == o[..n] + [o[n]];
      ExtraNoDup(o[..n], a);
      assert o[n] !in o[..n];
    }
  }

  lemma {:induction false} OpenNoDup(lits: seq<Lit>, l: Lit, vals: set<Lit>)
    requires NoDup(lits)
    ensures NoDup(Open(lits, l, vals))
    decreases |lits|
  {
    if lits != [] {
      var n := |lits| - 1;
      assert lits == lits[..n] + [lits[n]];
      OpenNoDup(lits[..n], l, vals);
      assert lits[n] !in lits[..n];
    }
  }

  // Comparing sizes tells whether one antecedent is subsumed by the resolvent.
  lemma Sizes(a: seq<Lit>, b: seq<Lit>)
    requires NoDup(a) && NoDup(b)
    ensures LitsOf(a + Extra(b, a)) == LitsOf(a) + LitsOf(b) && NoDup(a + Extra(b, a))
    ensures |a| >= |a + Extra(b, a)| ==> LitsOf(a + Extra(b, a)) == LitsOf(a)
    ensures |b| >= |a + Extra(b, a)| ==> LitsOf(a + Extra(b, a)) == LitsOf(b)
  {
    var r := a + Extra(b, a);
    ExtraNoDup(b, a);
    assert forall i :: 0 <= i < |Extra(b, a)| ==> Extra(b, a)[i] in Extra(b, a);
    assert forall x :: x in r <==> x in a || x in b;
    assert LitsOf(r) == LitsOf(a) + LitsOf(b);
    NoDupSize(a);
    NoDupSize(b);
    NoDupSize(r);
    if |a| >= |r| {
      SupersetSize(LitsOf(a), LitsOf(r));
    }
    if |b| >= |r| {
      SupersetSize(LitsOf(b), LitsOf(r));
    }
  }

  lemma SupersetSize(a: Clause, b: Clause)
    requires a <= b && |b| <= |a|
    ensures a == b
  {
    assert b == a + (b - a);
  }

  // The resolvent without false literals.
  lemma OpenResolvent(s: State, l: Lit, c: nat, d: nat)
    requires Live(s.db, c) && Live(s.db, d) && l != 0
    requires l in s.db[c].lits && -l in s.db[d].lits
    requires NoDup(s.db[c].lits) && NoDup(s.db[d].lits) && 0 !in s.db[c].lits && 0 !in s.db[d].lits
    requires -l !in s.db[c].lits && l !in s.db[d].lits
    ensures var a, b := Open(s.db[c].lits, l, s.vals), Open(s.db[d].lits, -l, s.vals);
            var r := a + Extra(b, a);
            && NoDup(a) && NoDup(b) && NoDup(r) && LitsOf(r) == LitsOf(a) + LitsOf(b) && Free(r, l) && 0 !in r
            && Entails(Meaning(s), LitsOf(r)) && LitsOf(r) <= RE.Resolvent(LitsOf(s.db[c].lits), l, LitsOf(s.db[d].lits))
            && Follows(s, l, c, d, LitsOf(r))
  {
    var a, b := Open(s.db[c].lits, l, s.vals), Open(s.db[d].lits, -l, s.vals);
    OpenNoDup(s.db[c].lits, l, s.vals);
    OpenNoDup(s.db[d].lits, -l, s.vals);
    Sizes(a, b);
    LiveIn(s, l, c);
    LiveIn(s, l, d);
    ResolventEntailed(s, l, s.db[c].lits, s.db[d].lits);
    FollowsOpen(s, l, c, d);
  }

  lemma OpenLast(lits: seq<Lit>, x: Lit, l: Lit, vals: set<Lit>)
    ensures Open(lits + [x], l, vals) == if x == l || -x in vals then Open(lits, l, vals) else Open(lits, l, vals) + [x]
  {
    assert (lits + [x])[..|lits|] == lits;
  }

  lemma ExtraLast(o: seq<Lit>, x: Lit, a: seq<Lit>)
    ensures Extra(o + [x], a) == if x in a then Extra(o, a) else Extra(o, a) + [x]
  {
    assert (o + [x])[..|o|] == o;
  }

  // Whether the resolvent subsumes an antecedent shows in the sizes.
  lemma SubsumedAntecedent(s: State, l: Lit, c: nat, d: nat)
    requires Live(s.db, c) && Live(s.db, d) && l != 0
    requires l in s.db[c].lits && -l in s.db[d].lits
    requires NoDup(s.db[c].lits) && NoDup(s.db[d].lits) && 0 !in s.db[c].lits && 0 !in s.db[d].lits
    requires -l !in s.db[c].lits && l !in s.db[d].lits
    ensures var a, b := Open(s.db[c].lits, l, s.vals), Open(s.db[d].lits, -l, s.vals);
            var size := |a + Extra(b, a)|;
            && (|a| + 1 > size ==> Entails(Meaning(s), LitsOf(a)) && Follows(s, l, c, d, LitsOf(a)))
            && (|b| + 1 > size ==> Entails(Meaning(s), LitsOf(b)) && Follows(s, l, c, d, LitsOf(b)))
            && (|a| + 1 > size && |b| + 1 > size ==> LitsOf(a) == LitsOf(b) <= LitsOf(s.db[d].lits))
  {
    OpenResolvent(s, l, c, d);
    Sizes(Open(s.db[c].lits, l, s.vals), Open(s.db[d].lits, -l, s.vals));
  }
}
