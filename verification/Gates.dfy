// Looking for gate clauses that define the pivot, before it is eliminated.
module Gates {
  import opened Cnf
  import opened Resolving
  import opened Eliminating
  import opened Gating
  import opened XorGates
  import opened Spanning
  import opened Elim
  import RE = Reconstruction
  import PE = PivotElimination
  import EX = Extension
  import WA = Watching

  // ----- Flags.

  ghost predicate GateFlags(db: Db, gates: seq<nat>) {
    && (forall k {:trigger db[k]} :: 0 <= k < |db| ==> (db[k].gate <==> k in gates))
    && (forall k :: k in gates ==> k < |db|)
  }

  lemma FlagKeeps(db: Db, occs: Occs, inactive: set<nat>, k: nat, flag: bool)
    requires Clean(db) && Connected(db, occs, inactive) && k < |db|
    ensures var db' := db[k := db[k].(gate := flag)]; Clean(db') && Connected(db', occs, inactive)
  {
    assert Look(0);
    var db' := db[k := db[k].(gate := flag)];
    forall l ensures FullList(db', Occ(occs, l), l, inactive) {
      assert FullList(db, Occ(occs, l), l, inactive);
      assert forall n: nat :: Live(db', n) <==> Live(db, n);
    }
  }

  function WithFlag(s: State, k: nat, flag: bool): State
    requires k < |s.db|
  {
    s.(db := s.db[k := s.db[k].(gate := flag)])
  }

  lemma FlagMeaning(s: State, k: nat, flag: bool)
    requires k < |s.db|
    ensures Meaning(WithFlag(s, k, flag)) == Meaning(s)
  {
    var s' := WithFlag(s, k, flag);
    forall d ensures d in Meaning(s') <==> d in Meaning(s) {
      if n: nat :| Live(s.db, n) && d == LitsOf(s.db[n].lits) {
        assert Live(s'.db, n) && d == LitsOf(s'.db[n].lits);
      }
      if n: nat :| Live(s'.db, n) && d == LitsOf(s'.db[n].lits) {
        assert Live(s.db, n) && d == LitsOf(s.db[n].lits);
      }
    }
  }

  // A live clause was live before, and none of its literals became true.
  ghost predicate TidierAt(s: State, s': State, k: nat) {
    k < |s.db| && k < |s'.db| && s'.db[k].lits == s.db[k].lits &&
    (Live(s'.db, k) ==> Live(s.db, k) && NoneNew(s'.db[k].lits, s.vals, s'.vals))
  }

  predicate NoneNew(lits: seq<Lit>, vals: set<Lit>, vals': set<Lit>) {
    forall x {:trigger x in lits} :: x in lits && x in vals' ==> x in vals
  }

  ghost predicate Tidier(s: State, s': State) {
    forall u {:trigger Look(u)} :: Look(u) ==>
      && (s.unsat ==> s'.unsat) && |s'.db| == |s.db|
      && (s'.unsat || forall k {:trigger TidierAt(s, s', k)} :: 0 <= k < |s.db| ==> TidierAt(s, s', k))
  }

  lemma TidierTransitive(s: State, s1: State, s2: State)
    requires Tidier(s, s1) && Tidier(s1, s2)
    ensures Tidier(s, s2)
  {
    assert Look(0);
    if !s2.unsat {
      forall k | 0 <= k < |s.db| ensures TidierAt(s, s2, k) {
        assert TidierAt(s, s1, k) && TidierAt(s1, s2, k);
      }
    }
  }

  // Clauses became garbage or were flagged.
  lemma TidierFewer(s: State, s': State)
    requires Fewer(s.db, s'.db) && s'.vals == s.vals && s'.unsat == s.unsat
    ensures Tidier(s, s')
  {
  }

  // A unit was propagated.
  lemma TidierPropagated(s: State, s1: State, s2: State, u: Lit)
    requires s1 == s.(vals := s.vals + {u}) && u !in s.vals && OnlySatisfied(s1.db, s2.db, s2.vals)
    requires !s.unsat && (s2.unsat || Cleared(s2.db, s2.vals, s1.vals - {u}))
    ensures Tidier(s, s2)
  {
    assert Look(0);
    assert s1.vals - {u} == s.vals;
    if !s2.unsat {
      forall k: nat | k < |s.db| ensures TidierAt(s, s2, k) {
        assert s2.db[k].lits == s.db[k].lits;
        if Live(s2.db, k) {
          forall x | x in s2.db[k].lits && x in s2.vals ensures x in s.vals {
            assert x !in s.vals ==> Gone(s2.db, x);
          }
        }
      }
    }
  }

  // No live clause with the variable contains a true literal.
  ghost predicate Tidy(db: Db, vals: set<Lit>, l: Lit) {
    forall k: nat {:trigger Live(db, k)} :: Live(db, k) && !Free(db[k].lits, l) ==> !HasTrue(db[k].lits, vals)
  }

  lemma TidyKept(s: State, s': State, l: Lit)
    requires Tidy(s.db, s.vals, l) && Tidier(s, s') && !s'.unsat
    ensures Tidy(s'.db, s'.vals, l)
  {
    assert Look(0);
    forall k: nat | Live(s'.db, k) && !Free(s'.db[k].lits, l) ensures !HasTrue(s'.db[k].lits, s'.vals) {
      assert TidierAt(s, s', k);
      assert Live(s.db, k) && !HasTrue(s.db[k].lits, s.vals);
    }
  }

  ghost predicate Tidied(s: State, s': State) {
    Kept(s, s', 0) && Tidier(s, s')
  }

  lemma TidiedSame(s: State)
    ensures Tidied(s, s)
  {
    KeptSame(s, 0);
  }

  lemma TidiedTransitive(s: State, s1: State, s2: State)
    requires Tidied(s, s1) && Tidied(s1, s2)
    ensures Tidied(s, s2)
  {
    KeptTransitive(s, s1, s2, 0);
    TidierTransitive(s, s1, s2);
  }

  lemma TidiedRemoved(s: State, k: nat)
    requires k < |s.db| && Kept(s, Removed(s, k), 0)
    ensures Tidied(s, Removed(s, k))
  {
    TidierFewer(s, Removed(s, k));
  }

  // The same models before and after.
  ghost predicate Same(s: State, s': State) {
    EntailsAll(Meaning(s), Meaning(s')) && EntailsAll(Meaning(s'), Meaning(s)) && Tidier(s, s')
  }

  lemma SameKept(s0: State, s: State, s': State)
    requires Same(s0, s) && Tidied(s, s')
    ensures Same(s0, s')
  {
    TidierTransitive(s0, s, s');
    KeptParts(s, s', 0);
    KeptBackward(s, s', 0);
    forall c | c in Meaning(s') ensures Entails(Meaning(s0), c) {
      EntailsTransitive(Meaning(s0), Meaning(s), c);
    }
    forall c | c in Meaning(s0) ensures Entails(Meaning(s'), c) {
      EntailsTransitive(Meaning(s'), Meaning(s), c);
    }
  }

  lemma SameRefl(s: State)
    ensures Same(s, s)
  {
  }

  // ----- Binary clauses.

  // What is known about the other literals of a clause after 'n' of them.
  datatype Other = Unknown | One(lit: Lit) | Several | True(lit: Lit)

  function Scan(lits: seq<Lit>, vals: set<Lit>, first: Lit, n: nat): Other
    requires n <= |lits|
  {
    if n == 0 then Unknown else
      var r, x := Scan(lits, vals, first, n - 1), lits[n-1];
      if r.Several? || r.True? || x == first || -x in vals then r
      else if x in vals then True(x)
      else if r.One? then Several
      else One(x)
  }

  // Two unassigned literals come before any true literal.
  ghost predicate Wide(lits: seq<Lit>, vals: set<Lit>, first: Lit) {
    Scan(lits, vals, first, |lits|).Several?
  }

  // All live clauses with the literal are wide.
  ghost predicate AllWide(db: Db, vals: set<Lit>, l: Lit) {
    forall k: nat {:trigger Live(db, k)} :: Live(db, k) && l in db[k].lits ==> Wide(db[k].lits, vals, l)
  }

  lemma {:induction false} ScanStable(lits: seq<Lit>, vals: set<Lit>, first: Lit, n: nat)
    requires n <= |lits|
    ensures var r := Scan(lits, vals, first, n); r.Several? || r.True? ==> Scan(lits, vals, first, |lits|) == r
    decreases |lits| - n
  {
    if n < |lits| {
      ScanStable(lits, vals, first, n + 1);
    }
  }

  ghost predicate ScanMeans(lits: seq<Lit>, vals: set<Lit>, first: Lit, n: nat, r: Other)
    requires n <= |lits|
  {
    match r
    case Unknown => forall j :: 0 <= j < n ==> lits[j] == first || -lits[j] in vals
    case One(x) => x in lits && x != first && x !in vals && -x !in vals && forall j :: 0 <= j < n ==> lits[j] == first || lits[j] == x || -lits[j] in vals
    case Several => exists x, y :: x in lits && y in lits && x != y && x != first && y != first && -x !in vals && -y !in vals
    case True(x) => x in lits && x in vals && x != first && -x !in vals
  }

  lemma {:induction false} ScanMeaning(lits: seq<Lit>, vals: set<Lit>, first: Lit, n: nat)
    requires n <= |lits| && forall i, j :: 0 <= i < j < |lits| ==> lits[i] != lits[j]
    ensures ScanMeans(lits, vals, first, n, Scan(lits, vals, first, n))
    decreases n
  {
    if n > 0 {
      ScanMeaning(lits, vals, first, n - 1);
      var r, x := Scan(lits, vals, first, n - 1), lits[n-1];
      assert x in lits;
      if r.One? {
        OneBefore(lits, vals, first, n - 1, r.lit);
      }
    }
  }

  lemma {:induction false} OneBefore(lits: seq<Lit>, vals: set<Lit>, first: Lit, n: nat, x: Lit)
    requires n <= |lits| && Scan(lits, vals, first, n) == One(x)
    ensures exists j :: 0 <= j < n && lits[j] == x
    decreases n
  {
    if n > 0 && Scan(lits, vals, first, n - 1) == One(x) {
      OneBefore(lits, vals, first, n - 1, x);
    } else {
      assert lits[n-1] == x;
    }
  }

  lemma ScanBinary(lits: seq<Lit>, vals: set<Lit>, first: Lit)
    requires WA.Distinct(lits) && first in lits && first !in vals && -first !in vals
    ensures var r := Scan(lits, vals, first, |lits|);
            && (r.True? ==> r.lit in lits && r.lit in vals)
            && (r.One? ==> r.lit != 0 && Binary(lits, vals, first, r.lit))
            && forall m :: Binary(lits, vals, first, m) ==> r == One(m)
  {
    ScanMeaning(lits, vals, first, |lits|);
    var r := Scan(lits, vals, first, |lits|);
    forall m | Binary(lits, vals, first, m) ensures r == One(m) {
      ScanOnly(lits, vals, first, m, r);
    }
  }

  lemma ScanOnly(lits: seq<Lit>, vals: set<Lit>, first: Lit, m: Lit, r: Other)
    requires Binary(lits, vals, first, m) && ScanMeans(lits, vals, first, |lits|, r)
    ensures r == One(m)
  {
    assert m in lits && first in lits;
    match r
    case Unknown =>
    case One(x) => assert x == first || x == m || -x in vals;
    case Several =>
    case True(x) =>
  }

  // Without false literals the clause has just the two literals.
  ghost predicate Binary(lits: seq<Lit>, vals: set<Lit>, first: Lit, m: Lit) {
    && first in lits && m in lits && m != first && m !in vals && -m !in vals && first !in vals && -first !in vals
    && forall x {:trigger x in lits} :: x in lits ==> x == first || x == m || -x in vals
  }

  lemma BinaryResidue(lits: seq<Lit>, vals: set<Lit>, first: Lit, m: Lit)
    requires Binary(lits, vals, first, m) && forall x {:trigger x in vals} :: x in vals ==> -x !in vals
    ensures Residue(lits, vals) == {first, m} && !HasTrue(lits, vals)
  {
    assert forall x: Lit {:trigger -x} :: -(-x) == x;
  }

  lemma BinaryEntailed(s: State, k: nat, first: Lit, m: Lit)
    requires Live(s.db, k) && Binary(s.db[k].lits, s.vals, first, m) && 0 !in s.db[k].lits
    ensures Entails(Meaning(s), {first, m})
  {
    LiveIn(s, 0, k);
    MemberEntailed(Meaning(s), LitsOf(s.db[k].lits));
    UnitEntailed(s, s.db[k].lits, {first, m});
  }

  // Two binary clauses give a unit.
  lemma HyperUnary(f: Formula, u: Lit, x: Lit)
    requires Entails(f, {u, x}) && Entails(f, {u, -x}) && x != 0
    ensures Entails(f, {u})
  {
    forall m: Model | Models(m, f) ensures Sat(m, {u}) {
      assert Sat(m, {u, x}) && Sat(m, {u, -x});
      assert Holds(m, u);
      assert u in {u};
    }
  }

  // Clause 'k' of the list is binary with the pivot and 'm', or it became satisfied since.
  ghost predicate WitnessAt(db: Db, vals: set<Lit>, list: seq<nat>, first: Lit, m: Lit, j: nat) {
    && j < |list| && list[j] < |db| && first in db[list[j]].lits && m in db[list[j]].lits && m != first
    && (forall x {:trigger x in db[list[j]].lits} :: x in db[list[j]].lits ==> x == first || x == m || -x in vals)
    && (Live(db, list[j]) || m in vals || -m in vals || first in vals || -first in vals)
  }

  ghost predicate Witness(db: Db, vals: set<Lit>, list: seq<nat>, first: Lit, m: Lit, n: nat) {
    exists j :: 0 <= j < n && WitnessAt(db, vals, list, first, m, j)
  }

  // All marked literals stem from binary clauses before position 'n'.
  ghost predicate Marked(db: Db, vals: set<Lit>, list: seq<nat>, first: Lit, marks: set<Lit>, n: nat) {
    forall u {:trigger Look(u)} :: Look(u) ==>
      && (forall m {:trigger Witness(db, vals, list, first, m, n)} :: m in marks ==> Witness(db, vals, list, first, m, n))
      && (forall m {:trigger -m in marks} :: m in marks ==> m != 0 && -m !in marks)
  }

  // Other literals of binary clauses before position 'n' are marked.
  ghost predicate FullyMarked(db: Db, vals: set<Lit>, list: seq<nat>, first: Lit, marks: set<Lit>, n: nat) {
    forall u {:trigger Look(u)} :: Look(u) ==>
      forall j, m {:trigger Binary(db[list[j]].lits, vals, first, m)} ::
        0 <= j < n && j < |list| && Live(db, list[j]) && Binary(db[list[j]].lits, vals, first, m) ==> m in marks
  }

  lemma FullyMarkedStart(db: Db, vals: set<Lit>, list: seq<nat>, first: Lit)
    ensures FullyMarked(db, vals, list, first, {}, 0)
  {
  }

  lemma FullyMarkedNext(db: Db, vals: set<Lit>, list: seq<nat>, first: Lit, marks: set<Lit>, n: nat, db': Db, marks': set<Lit>)
    requires FullyMarked(db, vals, list, first, marks, n) && Fewer(db, db') && marks <= marks' && n < |list|
    requires forall m :: Live(db', list[n]) && Binary(db'[list[n]].lits, vals, first, m) ==> m in marks'
    ensures FullyMarked(db', vals, list, first, marks', n + 1)
  {
    assert Look(0);
    forall j, m | 0 <= j < n + 1 && j < |list| && Live(db', list[j]) && Binary(db'[list[j]].lits, vals, first, m) ensures m in marks' {
      if j < n {
        assert db'[list[j]].lits == db[list[j]].lits && Live(db, list[j]);
      }
    }
  }

  lemma FullyMarkedFewer(db: Db, vals: set<Lit>, list: seq<nat>, first: Lit, marks: set<Lit>, n: nat, db': Db)
    requires FullyMarked(db, vals, list, first, marks, n) && Fewer(db, db')
    ensures FullyMarked(db', vals, list, first, marks, n)
  {
    assert Look(0);
    forall j, m | 0 <= j < n && j < |list| && Live(db', list[j]) && Binary(db'[list[j]].lits, vals, first, m) ensures m in marks {
      assert db'[list[j]].lits == db[list[j]].lits && Live(db, list[j]);
    }
  }

  // ----- When no gate is found.

  ghost predicate NoEquivalence(db: Db, vals: set<Lit>, l: Lit) {
    forall k: nat, n: nat, x {:trigger Binary(db[k].lits, vals, l, x), Binary(db[n].lits, vals, -l, -x)} ::
      Live(db, k) && Live(db, n) ==> !(Binary(db[k].lits, vals, l, x) && Binary(db[n].lits, vals, -l, -x))
  }

  // The clause with '-l' is not binary, or its other literal is not marked in any sign.
  ghost predicate NoPartnerAt(db: Db, vals: set<Lit>, l: Lit, marks: set<Lit>, c: nat) {
    Live(db, c) ==> forall x {:trigger Binary(db[c].lits, vals, -l, x)} :: Binary(db[c].lits, vals, -l, x) ==> x !in marks && -x !in marks
  }

  ghost predicate SearchedEquivalence(db: Db, vals: set<Lit>, ps: seq<nat>, ns: seq<nat>, l: Lit, marks: set<Lit>, i: nat) {
    forall u {:trigger Look(u)} :: Look(u) ==>
      && FullyMarked(db, vals, ps, l, marks, |ps|) && i <= |ns|
      && forall j {:trigger ns[j]} :: 0 <= j < i ==> NoPartnerAt(db, vals, l, marks, ns[j])
  }

  // While the clauses with the negated pivot are searched for an equivalence.
  ghost predicate SearchingEquivalence(s0: State, s: State, ps: seq<nat>, ns: seq<nat>, l: Lit, marks: set<Lit>, i: nat) {
    forall u {:trigger Look(u)} :: Look(u) ==>
      && s0.vals <= s.vals
      && (!s.unsat && l !in s.vals && -l !in s.vals ==> Marked(s.db, s.vals, ps, l, marks, |ps|))
      && (!s.unsat && l !in s.vals && -l !in s.vals && s.vals == s0.vals ==> SearchedEquivalence(s.db, s.vals, ps, ns, l, marks, i))
  }

  lemma SearchingStart(s0: State, s: State, ps: seq<nat>, ns: seq<nat>, l: Lit, marks: set<Lit>)
    requires s0.vals <= s.vals
    requires !s.unsat && l !in s.vals && -l !in s.vals ==> Marked(s.db, s.vals, ps, l, marks, |ps|)
    requires !s.unsat && l !in s.vals && -l !in s.vals && s.vals == s0.vals ==> FullyMarked(s.db, s.vals, ps, l, marks, |ps|)
    ensures SearchingEquivalence(s0, s, ps, ns, l, marks, 0)
  {
    NoPartnerStart(s.db, s.vals, ns, l, marks);
  }

  lemma SearchingNext(s0: State, s: State, s': State, ps: seq<nat>, ns: seq<nat>, l: Lit, marks: set<Lit>, i: nat)
    requires SearchingEquivalence(s0, s, ps, ns, l, marks, i) && i < |ns| && Same(s, s') && s.vals <= s'.vals
    requires !s.unsat && l !in s.vals && -l !in s.vals && Marked(s'.db, s'.vals, ps, l, marks, |ps|)
    requires s'.vals == s.vals ==> NoPartnerAt(s'.db, s'.vals, l, marks, ns[i])
    ensures SearchingEquivalence(s0, s', ps, ns, l, marks, i + 1)
  {
    assert Look(0);
    if !s'.unsat && s'.vals == s0.vals {
      assert s.vals == s0.vals;
      SameFewer(s, s');
      SearchedNext(s.db, s.vals, ps, ns, l, marks, i, s'.db);
    }
  }

  lemma SearchingMarked(s0: State, s: State, ps: seq<nat>, ns: seq<nat>, l: Lit, marks: set<Lit>, i: nat)
    requires SearchingEquivalence(s0, s, ps, ns, l, marks, i)
    ensures s0.vals <= s.vals
    ensures !s.unsat && l !in s.vals && -l !in s.vals ==> Marked(s.db, s.vals, ps, l, marks, |ps|)
    ensures !s.unsat && l !in s.vals && -l !in s.vals && s.vals == s0.vals ==> SearchedEquivalence(s.db, s.vals, ps, ns, l, marks, i)
  {
    assert Look(0);
  }

  lemma NoPartnerStart(db: Db, vals: set<Lit>, ns: seq<nat>, l: Lit, marks: set<Lit>)
    ensures forall ps {:trigger FullyMarked(db, vals, ps, l, marks, |ps|)} ::
              FullyMarked(db, vals, ps, l, marks, |ps|) ==> SearchedEquivalence(db, vals, ps, ns, l, marks, 0)
  {
  }

  lemma SearchedNext(db: Db, vals: set<Lit>, ps: seq<nat>, ns: seq<nat>, l: Lit, marks: set<Lit>, i: nat, db': Db)
    requires SearchedEquivalence(db, vals, ps, ns, l, marks, i) && Fewer(db, db') && i < |ns| && NoPartnerAt(db', vals, l, marks, ns[i])
    ensures SearchedEquivalence(db', vals, ps, ns, l, marks, i + 1)
  {
    assert Look(0);
    FullyMarkedFewer(db, vals, ps, l, marks, |ps|, db');
    forall j | 0 <= j < i + 1 ensures NoPartnerAt(db', vals, l, marks, ns[j]) {
      if j < i {
        assert NoPartnerAt(db, vals, l, marks, ns[j]);
      }
    }
  }

  lemma NoEquivalenceIntro(s: State, occs: Occs, inactive: set<nat>, eliminated: set<nat>, l: Lit, marks: set<Lit>)
    requires !s.unsat && l !in s.vals && -l !in s.vals
    requires SearchedEquivalence(s.db, s.vals, Occ(occs, l), Occ(occs, -l), l, marks, |Occ(occs, -l)|)
    requires Connected(s.db, occs, inactive) && Valued(s.vals, inactive, eliminated) && Present(s.db, eliminated, false)
    ensures NoEquivalence(s.db, s.vals, l)
  {
    forall k: nat, n: nat, x | Live(s.db, k) && Live(s.db, n)
      ensures !(Binary(s.db[k].lits, s.vals, l, x) && Binary(s.db[n].lits, s.vals, -l, -x))
    {
      if Binary(s.db[k].lits, s.vals, l, x) {
        MarkedOf(s, occs, inactive, eliminated, l, marks, k, x);
        if -l in s.db[n].lits {
          assert -(-l) == l && -(-x) == x;
          ActiveComplete(s.db, occs, s.vals, inactive, eliminated, n, -l);
          assert Look(0);
          var j :| 0 <= j < |Occ(occs, -l)| && Occ(occs, -l)[j] == n;
          assert NoPartnerAt(s.db, s.vals, l, marks, n);
        }
      }
    }
  }

  lemma MarkedOf(s: State, occs: Occs, inactive: set<nat>, eliminated: set<nat>, l: Lit, marks: set<Lit>, k: nat, x: Lit)
    requires !s.unsat && l !in s.vals && -l !in s.vals && Live(s.db, k) && Binary(s.db[k].lits, s.vals, l, x)
    requires SearchedEquivalence(s.db, s.vals, Occ(occs, l), Occ(occs, -l), l, marks, |Occ(occs, -l)|) ||
             SearchedAnd(s.db, s.vals, Occ(occs, l), Occ(occs, -l), l, marks, |Occ(occs, -l)|)
    requires Connected(s.db, occs, inactive) && Valued(s.vals, inactive, eliminated) && Present(s.db, eliminated, false)
    ensures x in marks
  {
    ActiveComplete(s.db, occs, s.vals, inactive, eliminated, k, l);
    assert Look(0);
    var j :| 0 <= j < |Occ(occs, l)| && Occ(occs, l)[j] == k;
    assert Binary(s.db[Occ(occs, l)[j]].lits, s.vals, l, x);
  }

  // There is a live binary clause with the pivot and the literal.
  ghost predicate SideAt(db: Db, vals: set<Lit>, l: Lit, x: Lit, k: nat) {
    Live(db, k) && Binary(db[k].lits, vals, l, x)
  }

  ghost predicate Sided(db: Db, vals: set<Lit>, l: Lit, x: Lit) {
    exists k: nat {:trigger SideAt(db, vals, l, x, k)} :: SideAt(db, vals, l, x, k)
  }

  // All other literals of the base clause are false or unassigned inputs.
  ghost predicate AndBase(db: Db, vals: set<Lit>, l: Lit, c: nat) {
    && Live(db, c) && |db[c].lits| >= 3 && -l in db[c].lits
    && forall x {:trigger x in db[c].lits} :: x in db[c].lits ==> x == -l || -x in vals || (x !in vals && Sided(db, vals, l, -x))
  }

  ghost predicate NoAnd(db: Db, vals: set<Lit>, l: Lit) {
    forall c: nat {:trigger Live(db, c)} :: !AndBase(db, vals, l, c)
  }

  ghost predicate AndCandidate(db: Db, vals: set<Lit>, l: Lit, marks: set<Lit>, c: nat) {
    Live(db, c) && |db[c].lits| >= 3 && AllInputs(db[c].lits, vals, -l, marks)
  }

  ghost predicate SearchedAnd(db: Db, vals: set<Lit>, ps: seq<nat>, ns: seq<nat>, l: Lit, marks: set<Lit>, i: nat) {
    forall u {:trigger Look(u)} :: Look(u) ==>
      && FullyMarked(db, vals, ps, l, marks, |ps|) && i <= |ns|
      && forall j {:trigger ns[j]} :: 0 <= j < i ==> !AndCandidate(db, vals, l, marks, ns[j])
  }

  ghost predicate SearchingAnd(s0: State, s: State, ps: seq<nat>, ns: seq<nat>, l: Lit, marks: set<Lit>, i: nat) {
    forall u {:trigger Look(u)} :: Look(u) ==>
      && s0.vals <= s.vals && Marked(s.db, s.vals, ps, l, marks, |ps|)
      && (s.vals == s0.vals ==> SearchedAnd(s.db, s.vals, ps, ns, l, marks, i))
  }

  lemma SearchingAndStart(s0: State, s: State, ps: seq<nat>, ns: seq<nat>, l: Lit, marks: set<Lit>)
    requires s0.vals <= s.vals && Marked(s.db, s.vals, ps, l, marks, |ps|)
    requires s.vals == s0.vals ==> FullyMarked(s.db, s.vals, ps, l, marks, |ps|)
    ensures SearchingAnd(s0, s, ps, ns, l, marks, 0)
  {
    SearchedAndStart(s.db, s.vals, ps, ns, l, marks);
  }

  lemma SearchingAndNext(s0: State, s: State, s': State, ps: seq<nat>, ns: seq<nat>, l: Lit, marks: set<Lit>, i: nat)
    requires SearchingAnd(s0, s, ps, ns, l, marks, i) && i < |ns| && Fewer(s.db, s'.db) && s'.vals == s.vals
    requires Marked(s'.db, s'.vals, ps, l, marks, |ps|) && !AndCandidate(s'.db, s'.vals, l, marks, ns[i])
    ensures SearchingAnd(s0, s', ps, ns, l, marks, i + 1)
  {
    assert Look(0);
    if s'.vals == s0.vals {
      SearchedAndNext(s.db, s.vals, ps, ns, l, marks, i, s'.db);
    }
  }

  lemma SearchingAndMarked(s0: State, s: State, ps: seq<nat>, ns: seq<nat>, l: Lit, marks: set<Lit>, i: nat)
    requires SearchingAnd(s0, s, ps, ns, l, marks, i)
    ensures s0.vals <= s.vals && Marked(s.db, s.vals, ps, l, marks, |ps|)
    ensures s.vals == s0.vals ==> SearchedAnd(s.db, s.vals, ps, ns, l, marks, i)
  {
    assert Look(0);
  }

  lemma SearchedAndStart(db: Db, vals: set<Lit>, ps: seq<nat>, ns: seq<nat>, l: Lit, marks: set<Lit>)
    ensures FullyMarked(db, vals, ps, l, marks, |ps|) ==> SearchedAnd(db, vals, ps, ns, l, marks, 0)
  {
  }

  lemma SearchedAndNext(db: Db, vals: set<Lit>, ps: seq<nat>, ns: seq<nat>, l: Lit, marks: set<Lit>, i: nat, db': Db)
    requires SearchedAnd(db, vals, ps, ns, l, marks, i) && Fewer(db, db') && i < |ns| && !AndCandidate(db', vals, l, marks, ns[i])
    ensures SearchedAnd(db', vals, ps, ns, l, marks, i + 1)
  {
    assert Look(0);
    FullyMarkedFewer(db, vals, ps, l, marks, |ps|, db');
    forall j | 0 <= j < i + 1 ensures !AndCandidate(db', vals, l, marks, ns[j]) {
      if j < i && ns[j] < |db| {
        assert !AndCandidate(db, vals, l, marks, ns[j]) && db'[ns[j]].lits == db[ns[j]].lits;
      }
    }
  }

  lemma NoAndIntro(s: State, occs: Occs, inactive: set<nat>, eliminated: set<nat>, l: Lit, marks: set<Lit>)
    requires !s.unsat && l !in s.vals && -l !in s.vals
    requires SearchedAnd(s.db, s.vals, Occ(occs, l), Occ(occs, -l), l, marks, |Occ(occs, -l)|)
    requires Connected(s.db, occs, inactive) && Valued(s.vals, inactive, eliminated) && Present(s.db, eliminated, false)
    ensures NoAnd(s.db, s.vals, l)
  {
    forall c: nat ensures !AndBase(s.db, s.vals, l, c) {
      if Live(s.db, c) && -l in s.db[c].lits {
        NotCandidate(s, occs, inactive, eliminated, l, marks, c);
        forall x | x in s.db[c].lits && Sided(s.db, s.vals, l, -x) ensures -x in marks {
          var k: nat :| SideAt(s.db, s.vals, l, -x, k);
          MarkedOf(s, occs, inactive, eliminated, l, marks, k, -x);
        }
      }
    }
  }

  lemma NotCandidate(s: State, occs: Occs, inactive: set<nat>, eliminated: set<nat>, l: Lit, marks: set<Lit>, c: nat)
    requires !s.unsat && l !in s.vals && -l !in s.vals && Live(s.db, c) && -l in s.db[c].lits
    requires SearchedAnd(s.db, s.vals, Occ(occs, l), Occ(occs, -l), l, marks, |Occ(occs, -l)|)
    requires Connected(s.db, occs, inactive) && Valued(s.vals, inactive, eliminated) && Present(s.db, eliminated, false)
    ensures !AndCandidate(s.db, s.vals, l, marks, c)
  {
    assert -(-l) == l;
    ActiveComplete(s.db, occs, s.vals, inactive, eliminated, c, -l);
    assert Look(0);
    var j :| 0 <= j < |Occ(occs, -l)| && Occ(occs, -l)[j] == c;
  }

  ghost predicate NoBinaryGate(db: Db, vals: set<Lit>, l: Lit) {
    NoEquivalence(db, vals, l) && NoAnd(db, vals, l) && NoAnd(db, vals, -l)
  }

  // No gate of any kind is there.
  ghost predicate NoGate(s: State, l: Lit, os: seq<nat>, arityLimit: nat) {
    NoBinaryGate(s.db, s.vals, l) && NoIte(s, l, os, |os|) && NoXor(s, l, arityLimit)
  }

  lemma NoEquivalenceFewer(db: Db, db': Db, vals: set<Lit>, l: Lit)
    requires NoEquivalence(db, vals, l) && Fewer(db, db')
    ensures NoEquivalence(db', vals, l)
  {
    forall k: nat, n: nat, x | Live(db', k) && Live(db', n) ensures !(Binary(db'[k].lits, vals, l, x) && Binary(db'[n].lits, vals, -l, -x)) {
      assert db'[k].lits == db[k].lits && db'[n].lits == db[n].lits;
    }
  }

  lemma NoAndFewer(db: Db, db': Db, vals: set<Lit>, l: Lit)
    requires NoAnd(db, vals, l) && Fewer(db, db')
    ensures NoAnd(db', vals, l)
  {
    forall c: nat ensures !AndBase(db', vals, l, c) {
      if AndBase(db', vals, l, c) {
        assert db'[c].lits == db[c].lits && Live(db, c);
        forall x | Sided(db', vals, l, x) ensures Sided(db, vals, l, x) {
          var k: nat :| SideAt(db', vals, l, x, k);
          assert db'[k].lits == db[k].lits && SideAt(db, vals, l, x, k);
        }
      }
    }
  }

  // Later clauses were only removed.
  lemma NoBinaryGateKept(s: State, s1: State, s2: State, l: Lit)
    requires Same(s, s1) && Same(s1, s2) && !s2.unsat && s1.vals == s.vals && s2.vals == s.vals
    requires !s.unsat ==> NoEquivalence(s.db, s.vals, l)
    requires !s1.unsat ==> NoAnd(s1.db, s.vals, l)
    requires NoAnd(s2.db, s.vals, -l)
    ensures NoBinaryGate(s2.db, s2.vals, l)
  {
    assert Look(0);
    SameFewer(s, s1);
    SameFewer(s1, s2);
    NoEquivalenceFewer(s.db, s1.db, s.vals, l);
    NoEquivalenceFewer(s1.db, s2.db, s.vals, l);
    NoAndFewer(s1.db, s2.db, s.vals, l);
  }

  lemma SameFewer(s: State, s': State)
    requires Same(s, s') && !s'.unsat
    ensures Fewer(s.db, s'.db)
  {
    assert Look(0);
    forall k | 0 <= k < |s.db| ensures s'.db[k].lits == s.db[k].lits && (s.db[k].garbage ==> s'.db[k].garbage) {
      assert TidierAt(s, s', k);
    }
  }

  // Without new units only clauses were removed.
  lemma TidiedFewer(s: State, s': State)
    requires Tidied(s, s') && !s'.unsat
    ensures Fewer(s.db, s'.db) && s.vals <= s'.vals
  {
    KeptParts(s, s', 0);
    assert Look(0);
    forall k | 0 <= k < |s.db| ensures s'.db[k].lits == s.db[k].lits && (s.db[k].garbage ==> s'.db[k].garbage) {
      assert TidierAt(s, s', k);
    }
  }

  lemma MarkedStart(db: Db, vals: set<Lit>, list: seq<nat>, first: Lit)
    ensures Marked(db, vals, list, first, {}, 0)
  {
  }

  lemma MarkedSkip(db: Db, vals: set<Lit>, list: seq<nat>, first: Lit, marks: set<Lit>, n: nat, n': nat)
    requires Marked(db, vals, list, first, marks, n) && n <= n'
    ensures Marked(db, vals, list, first, marks, n')
  {
    assert Look(0);
    forall m | m in marks ensures Witness(db, vals, list, first, m, n') {
      assert Witness(db, vals, list, first, m, n);
      var j :| 0 <= j < n && WitnessAt(db, vals, list, first, m, j);
    }
  }

  lemma MarkedNew(db: Db, vals: set<Lit>, list: seq<nat>, first: Lit, marks: set<Lit>, n: nat, x: Lit)
    requires Marked(db, vals, list, first, marks, n) && n < |list| && Live(db, list[n])
    requires Binary(db[list[n]].lits, vals, first, x) && x != 0 && -x !in marks
    ensures Marked(db, vals, list, first, marks + {x}, n + 1)
  {
    assert Look(0);
    MarkedSkip(db, vals, list, first, marks, n, n + 1);
    assert WitnessAt(db, vals, list, first, x, n);
    assert forall m: Lit {:trigger -m} :: -(-m) == m;
  }

  // Clauses that became satisfied, or garbage away from the witnesses, do not matter.
  lemma MarkedSatisfied(db: Db, vals: set<Lit>, list: seq<nat>, first: Lit, marks: set<Lit>, n: nat, db': Db, vals': set<Lit>)
    requires Marked(db, vals, list, first, marks, n) && OnlySatisfied(db, db', vals') && vals <= vals'
    requires forall x {:trigger x in vals'} :: x in vals' ==> -x !in vals'
    ensures Marked(db', vals', list, first, marks, n)
  {
    assert Look(0);
    assert forall x: Lit {:trigger -x} :: -(-x) == x;
    forall m | m in marks ensures Witness(db', vals', list, first, m, n) {
      assert Witness(db, vals, list, first, m, n);
      var j :| 0 <= j < n && WitnessAt(db, vals, list, first, m, j);
      var k := list[j];
      assert db'[k].lits == db[k].lits;
      if !db[k].garbage && db'[k].garbage {
        var x :| x in db[k].lits && x in vals';
        assert x == first || x == m;
      }
      assert WitnessAt(db', vals', list, first, m, j);
    }
  }

  lemma MarkedGarbage(db: Db, vals: set<Lit>, list: seq<nat>, first: Lit, marks: set<Lit>, n: nat)
    requires Marked(db, vals, list, first, marks, n) && n < |list| && list[n] < |db| && Unique(list)
    ensures Marked(db[list[n] := db[list[n]].(garbage := true)], vals, list, first, marks, n)
  {
    assert Look(0);
    var db' := db[list[n] := db[list[n]].(garbage := true)];
    forall m | m in marks ensures Witness(db', vals, list, first, m, n) {
      assert Witness(db, vals, list, first, m, n);
      var j :| 0 <= j < n && WitnessAt(db, vals, list, first, m, j);
      assert WitnessAt(db', vals, list, first, m, j);
    }
  }

  // An unassigned marked literal has its binary clause.
  lemma MarkedBinary(db: Db, vals: set<Lit>, list: seq<nat>, first: Lit, marks: set<Lit>, n: nat, m: Lit) returns (j: nat)
    requires Marked(db, vals, list, first, marks, n) && m in marks
    requires m !in vals && -m !in vals && first !in vals && -first !in vals
    ensures j < n && j < |list| && Live(db, list[j]) && Binary(db[list[j]].lits, vals, first, m)
  {
    assert Look(0);
    assert Witness(db, vals, list, first, m, n);
    j :| 0 <= j < n && WitnessAt(db, vals, list, first, m, j);
  }

  lemma DuplicateGarbage(s: State, k: nat, other: nat, first: Lit, m: Lit)
    requires k < |s.db| && Live(s.db, other) && k != other && 0 !in s.db[other].lits
    requires Binary(s.db[other].lits, s.vals, first, m) && first in s.db[k].lits && m in s.db[k].lits
    ensures Kept(s, Removed(s, k), 0)
  {
    var s' := Removed(s, k);
    LiveIn(s', 0, other);
    assert -0 == 0 && Free(s.db[other].lits, 0);
    MemberEntailed(Base(s', 0), LitsOf(s.db[other].lits));
    forall mo: Model | Models(mo, Base(s', 0)) ensures Sat(mo, LitsOf(s.db[k].lits)) {
      assert Sat(mo, LitsOf(s.db[other].lits));
      var x :| x in LitsOf(s.db[other].lits) && Holds(mo, x);
      if -x in s.vals {
        assert {-x} in Base(s', 0);
        FalseIn(Base(s', 0), mo, x);
      }
      assert x in LitsOf(s.db[k].lits);
    }
    KeptGarbage(s, 0, k);
  }

  class GateFinder {
    const e: Eliminator
    var gates: seq<nat>
    var marked: seq<Lit>
    var marks: set<Lit>
    var doubled: set<Lit>       // literals marked a second time

    constructor (e: Eliminator)
      ensures this.e == e && gates == [] && marked == [] && marks == {} && doubled == {}
    {
      this.e := e;
      gates, marked, marks, doubled := [], [], {}, {};
    }

    ghost predicate Unmarked()
      reads this
    {
      marked == [] && marks == {} && doubled == {}
    }

    ghost predicate Ready()
      reads this, e
    {
      e.Valid() && GateFlags(e.db, gates)
    }

    // The gate clauses are flagged, and they define the pivot if none of them is satisfied.
    ghost predicate Found(pivot: Lit)
      reads this, e
    {
      && !e.unsat && GateDb(e.Now(), pivot, gates) && (forall k :: k in gates ==> k < |e.db|)
      && (Gated(e.Now(), pivot) <==> NoneSatisfied(e.Now(), gates))
    }

    ghost predicate Defining(pivot: Lit)
      reads this, e
    {
      Found(pivot) && Gated(e.Now(), pivot)
    }

    method SetGate(k: nat)
      requires Ready() && k < |e.db|
      modifies `gates, e`db
      ensures Ready() && gates == old(gates) + [k] && e.db == old(e.db)[k := old(e.db)[k].(gate := true)]
      ensures Meaning(e.Now()) == Meaning(old(e.Now())) && Same(old(e.Now()), e.Now())
    {
      FlagKeeps(e.db, e.occs, e.inactive, k, true);
      FlagMeaning(e.Now(), k, true);
      SameRefl(e.Now());
      SameMeaning(e.Now(), e.Now(), WithFlag(e.Now(), k, true));
      PresentKept(e.db, e.eliminated, e.unsat, WithFlag(e.Now(), k, true).db, e.unsat);
      e.db := e.db[k := e.db[k].(gate := true)];
      gates := gates + [k];
    }

    // The other literal of a clause that is binary without its false literals, or zero.
    method SecondLiteral(c: nat, first: Lit) returns (second: Lit)
      requires Ready() && Live(e.db, c) && first in e.db[c].lits && e.Unassigned(first)
      modifies e`db
      ensures Ready() && Tidied(old(e.Now()), e.Now()) && OnlySatisfied(old(e.db), e.db, e.vals)
      ensures second != 0 ==> e.db == old(e.db) && Binary(e.db[c].lits, e.vals, first, second)
      ensures e.db == old(e.db) || e.db == old(e.db)[c := old(e.db)[c].(garbage := true)]
      ensures forall m :: Binary(old(e.db)[c].lits, e.vals, first, m) ==> second == m
      ensures Wide(old(e.db)[c].lits, e.vals, first) ==> second == 0 && e.db == old(e.db)
    {
      ClauseDistinct(e.db, c);
      TidiedSame(e.Now());
      SatisfiedSame(e.db, e.vals);
      ScanBinary(e.db[c].lits, e.vals, first);
      var r := ScanLiterals(e.db[c].lits, first);
      second := 0;
      if r.True? {
        SatisfiedNext(e.db, e.db, e.vals, c, r.lit);
        SatisfiedGarbage(e.Now(), 0, c, r.lit);
        TidiedRemoved(e.Now(), c);
        e.MarkSatisfied(c, r.lit, 0);
      } else if r.One? {
        second := r.lit;
      }
    }

    method ScanLiterals(lits: seq<Lit>, first: Lit) returns (r: Other)
      ensures r == Scan(lits, e.vals, first, |lits|)
    {
      r := Unknown;
      for i := 0 to |lits|
        invariant r == Scan(lits, e.vals, first, i) && !r.True? && !r.Several?
      {
        ScanStable(lits, e.vals, first, i + 1);
        var lit := lits[i];
        if lit == first || -lit in e.vals { continue; }
        if lit in e.vals { return True(lit); }
        if r.One? { return Several; }
        r := One(lit);
      }
    }

    // ----- Marking the other literals of binary clauses.

    method MarkBinaryNext(first: Lit, list: seq<nat>, i: nat)
      requires Ready() && !e.unsat && e.Unassigned(first) && list == Occ(e.occs, first) && i < |list| && first != 0
      requires Marked(e.db, e.vals, list, first, marks, i) && marks == LitsOf(marked)
      modifies `marks, `marked, e`db, e`vals, e`unsat, e`inactive
      ensures Ready() && Tidied(old(e.Now()), e.Now()) && marks == LitsOf(marked)
      ensures !e.unsat && e.Unassigned(first) ==> Marked(e.db, e.vals, list, first, marks, i + 1)
      ensures !e.unsat && e.Unassigned(first) && e.vals == old(e.vals) && FullyMarked(old(e.db), e.vals, list, first, old(marks), i) ==>
                FullyMarked(e.db, e.vals, list, first, marks, i + 1)
      ensures AllWide(old(e.db), old(e.vals), first) ==> e.Now() == old(e.Now()) && marks == old(marks) && marked == old(marked)
    {
      ghost var s0, marks0 := e.Now(), marks;
      MarkBinaryOne(first, list, i);
      if !e.unsat && e.vals == s0.vals && FullyMarked(s0.db, e.vals, list, first, marks0, i) {
        TidiedFewer(s0, e.Now());
        if e.Unassigned(first) {
          FullyMarkedNext(s0.db, e.vals, list, first, marks0, i, e.db, marks);
        }
      }
    }

    method MarkBinaryOne(first: Lit, list: seq<nat>, i: nat)
      requires Ready() && !e.unsat && e.Unassigned(first) && list == Occ(e.occs, first) && i < |list| && first != 0
      requires Marked(e.db, e.vals, list, first, marks, i) && marks == LitsOf(marked)
      modifies `marks, `marked, e`db, e`vals, e`unsat, e`inactive
      ensures Ready() && Tidied(old(e.Now()), e.Now()) && marks == LitsOf(marked) && old(marks) <= marks
      ensures !e.unsat && e.Unassigned(first) ==> Marked(e.db, e.vals, list, first, marks, i + 1)
      ensures !e.unsat && e.Unassigned(first) ==>
                forall m :: Live(e.db, list[i]) && Binary(e.db[list[i]].lits, old(e.vals), first, m) ==> m in marks
      ensures AllWide(old(e.db), old(e.vals), first) ==> e.Now() == old(e.Now()) && marks == old(marks) && marked == old(marked)
    {
      var c := list[i];
      ghost var s0 := e.Now();
      Listed(e.db, e.occs, e.inactive, first, c);
      ClauseDistinct(e.db, c);
      TidiedSame(s0);
      MarkedSkip(e.db, e.vals, list, first, marks, i, i + 1);
      if e.db[c].garbage { return; }
      assert Live(s0.db, c) && (AllWide(s0.db, s0.vals, first) ==> Wide(s0.db[c].lits, s0.vals, first));
      var second := SecondLiteral(c, first);
      MarkedSatisfied(s0.db, s0.vals, list, first, marks, i + 1, e.db, e.vals);
      if second == 0 { return; }
      ClauseDistinct(e.db, c);
      if -second in marks {
        LearnFirst(first, list, i, second);
      } else if second in marks {
        RemoveDuplicate(first, list, i, second);
      } else {
        MarkedNew(e.db, e.vals, list, first, marks, i, second);
        LitsOfLast(marked, second);
        marked := marked + [second];
        marks := marks + {second};
      }
    }

    // Two binary clauses with clashing second literals.
    method LearnFirst(first: Lit, list: seq<nat>, i: nat, second: Lit)
      requires Ready() && !e.unsat && e.Unassigned(first) && list == Occ(e.occs, first) && i < |list| && first != 0
      requires Marked(e.db, e.vals, list, first, marks, i) && Live(e.db, list[i]) && -second in marks
      requires Binary(e.db[list[i]].lits, e.vals, first, second)
      modifies e`db, e`vals, e`unsat, e`inactive
      ensures Ready() && Tidied(old(e.Now()), e.Now()) && !(!e.unsat && e.Unassigned(first))
    {
      ghost var s0 := e.Now();
      var c := list[i];
      ClauseDistinct(e.db, c);
      ghost var j := MarkedBinary(e.db, e.vals, list, first, marks, i, -second);
      ClauseDistinct(e.db, list[j]);
      BinaryEntailed(s0, c, first, second);
      BinaryEntailed(s0, list[j], first, -second);
      HyperUnary(Meaning(s0), first, second);
      ActiveComplete(e.db, e.occs, e.vals, e.inactive, e.eliminated, c, first);
      e.AssignUnit(first, 0);
      ghost var s1 := e.Now();
      e.ElimPropagate(first, 0);
      KeptTransitive(s0, s1, e.Now(), 0);
      TidierPropagated(s0, s1, e.Now(), first);
      KeptParts(s1, e.Now(), 0);
    }

    method RemoveDuplicate(first: Lit, list: seq<nat>, i: nat, second: Lit)
      requires Ready() && e.Unassigned(first) && list == Occ(e.occs, first) && i < |list|
      requires Marked(e.db, e.vals, list, first, marks, i) && Live(e.db, list[i]) && second in marks
      requires Binary(e.db[list[i]].lits, e.vals, first, second)
      modifies e`db
      ensures Ready() && Tidied(old(e.Now()), e.Now()) && Marked(e.db, e.vals, list, first, marks, i + 1) && !Live(e.db, list[i])
    {
      var c := list[i];
      Listed(e.db, e.occs, e.inactive, first, c);
      ghost var j := MarkedBinary(e.db, e.vals, list, first, marks, i, second);
      ClauseDistinct(e.db, list[j]);
      DuplicateGarbage(e.Now(), c, list[j], first, second);
      MarkedGarbage(e.db, e.vals, list, first, marks, i);
      TidiedRemoved(e.Now(), c);
      e.MarkGarbage(c);
      MarkedSkip(e.db, e.vals, list, first, marks, i, i + 1);
    }

    method MarkBinaryLiterals(first: Lit)
      requires Ready() && Unmarked() && first != 0
      modifies `marks, `marked, e`db, e`vals, e`unsat, e`inactive
      ensures Ready() && Tidied(old(e.Now()), e.Now()) && marks == LitsOf(marked)
      ensures !e.unsat && e.Unassigned(first) && gates == [] ==>
                Marked(e.db, e.vals, Occ(e.occs, first), first, marks, |Occ(e.occs, first)|)
      ensures !e.unsat && e.Unassigned(first) && gates == [] && e.vals == old(e.vals) ==>
                FullyMarked(e.db, e.vals, Occ(e.occs, first), first, marks, |Occ(e.occs, first)|)
      ensures AllWide(old(e.db), old(e.vals), first) ==> e.Now() == old(e.Now()) && marks == {} && marked == []
    {
      ghost var s0 := e.Now();
      TidiedSame(s0);
      if e.unsat || first in e.vals || -first in e.vals || gates != [] { return; }
      var list := Occ(e.occs, first);
      MarkedStart(e.db, e.vals, list, first);
      FullyMarkedStart(e.db, e.vals, list, first);
      var i: nat := 0;
      while i < |list| && !e.unsat && first !in e.vals && -first !in e.vals
        invariant i <= |list| && Ready() && Tidied(s0, e.Now()) && marks == LitsOf(marked)
        invariant !e.unsat && e.Unassigned(first) ==> Marked(e.db, e.vals, list, first, marks, i)
        invariant !e.unsat && e.Unassigned(first) && e.vals == s0.vals ==> FullyMarked(e.db, e.vals, list, first, marks, i)
        invariant AllWide(s0.db, s0.vals, first) ==> e.Now() == s0 && marks == {} && marked == []
        decreases |list| - i
      {
        ghost var s1 := e.Now();
        MarkBinaryNext(first, list, i);
        KeptParts(s0, s1, 0);
        KeptParts(s1, e.Now(), 0);
        TidiedTransitive(s0, s1, e.Now());
        i := i + 1;
      }
    }

    method UnmarkBinaryLiterals()
      requires marks == LitsOf(marked) && doubled <= marks
      modifies `marks, `marked, `doubled
      ensures Unmarked()
    {
      for i := 0 to |marked|
        invariant marked == old(marked) && doubled <= marks && marks <= LitsOf(marked[i..])
      {
        assert marked[i..] == [marked[i]] + marked[i+1..];
        marks := marks - {marked[i]};
        doubled := doubled - {marked[i]};
      }
      marked := [];
    }

    // ----- Equivalences.

    // Both binary clauses are there: a unit.
    method LearnSecond(pivot: Lit, c: nat, second: Lit)
      requires Ready() && !e.unsat && e.Unassigned(pivot) && Live(e.db, c) && second in marks
      requires Binary(e.db[c].lits, e.vals, -pivot, second)
      requires var ps := Occ(e.occs, pivot); Marked(e.db, e.vals, ps, pivot, marks, |ps|)
      modifies e`db, e`vals, e`unsat, e`inactive
      ensures Ready() && Tidied(old(e.Now()), e.Now()) && second in e.vals
      ensures var ps := Occ(e.occs, pivot); Marked(e.db, e.vals, ps, pivot, marks, |ps|)
    {
      ghost var s0, ps := e.Now(), Occ(e.occs, pivot);
      ClauseDistinct(e.db, c);
      ghost var j := MarkedBinary(e.db, e.vals, ps, pivot, marks, |ps|, second);
      ClauseDistinct(e.db, ps[j]);
      BinaryEntailed(s0, c, -pivot, second);
      BinaryEntailed(s0, ps[j], pivot, second);
      assert {-pivot, second} == {second, -pivot} && {pivot, second} == {second, pivot};
      assert pivot in e.db[ps[j]].lits;
      HyperUnary(Meaning(s0), second, pivot);
      ActiveComplete(e.db, e.occs, e.vals, e.inactive, e.eliminated, c, second);
      e.AssignUnit(second, 0);
      ghost var s1 := e.Now();
      SatisfiedSame(s0.db, e.vals);
      MarkedSatisfied(s0.db, s0.vals, ps, pivot, marks, |ps|, e.db, e.vals);
      e.ElimPropagate(second, 0);
      KeptTransitive(s0, s1, e.Now(), 0);
      TidierPropagated(s0, s1, e.Now(), second);
      KeptParts(s1, e.Now(), 0);
      MarkedSatisfied(s1.db, s1.vals, ps, pivot, marks, |ps|, e.db, e.vals);
    }

    // The clause with the pivot and the given literal.
    method FindSide(pivot: Lit, other: Lit, ghost w: nat) returns (d: nat)
      requires Ready() && e.Unassigned(pivot) && !e.unsat && other != 0
      requires var ps := Occ(e.occs, pivot); w < |ps| && Live(e.db, ps[w]) && Binary(e.db[ps[w]].lits, e.vals, pivot, other)
      modifies e`db
      ensures Ready() && Tidied(old(e.Now()), e.Now()) && OnlyListed(old(e.db), e.db, pivot)
      ensures d in Occ(e.occs, pivot) && Live(e.db, d) && Binary(e.db[d].lits, e.vals, pivot, other)
    {
      var ps := Occ(e.occs, pivot);
      ghost var s0 := e.Now();
      TidiedSame(s0);
      var i: nat := 0;
      while true
        invariant i <= w && Ready() && Tidied(s0, e.Now()) && OnlyListed(s0.db, e.db, pivot)
        invariant Live(e.db, ps[w]) && Binary(e.db[ps[w]].lits, e.vals, pivot, other)
        decreases w - i
      {
        d := ps[i];
        Listed(e.db, e.occs, e.inactive, pivot, d);
        if !e.db[d].garbage {
          ghost var s1 := e.Now();
          var second := SecondLiteral(d, pivot);
          TidiedTransitive(s0, s1, e.Now());
          if second == other { return; }
        }
        i := i + 1;
      }
    }

    // Flag the two clauses of an equivalence.
    method FlagEquivalence(pivot: Lit, c: nat, second: Lit)
      requires Ready() && !e.unsat && e.Unassigned(pivot) && Live(e.db, c) && -second in marks && gates == []
      requires Binary(e.db[c].lits, e.vals, -pivot, second)
      requires var ps := Occ(e.occs, pivot); Marked(e.db, e.vals, ps, pivot, marks, |ps|)
      modifies `gates, e`db
      ensures Ready() && Same(old(e.Now()), e.Now()) && gates != [] && Defining(pivot)
    {
      ghost var s0, ps := e.Now(), Occ(e.occs, pivot);
      ClauseDistinct(e.db, c);
      ghost var w := MarkedBinary(e.db, e.vals, ps, pivot, marks, |ps|, -second);
      SetGate(c);
      ghost var s1 := e.Now();
      var d := FindSide(pivot, -second, w);
      SameKept(s0, s1, e.Now());
      FlagSecond(pivot, c, d, second, s0);
    }

    method FlagSecond(pivot: Lit, c: nat, d: nat, ghost second: Lit, ghost s0: State)
      requires Ready() && !e.unsat && e.Unassigned(pivot) && pivot != 0 && gates == [c] && c != d && Same(s0, e.Now())
      requires Live(e.db, c) && Live(e.db, d)
      requires Binary(e.db[c].lits, e.vals, -pivot, second) && Binary(e.db[d].lits, e.vals, pivot, -second)
      modifies `gates, e`db
      ensures Ready() && Same(s0, e.Now()) && gates != [] && Defining(pivot)
    {
      ghost var s1 := e.Now();
      ClauseDistinct(e.db, c);
      ClauseDistinct(e.db, d);
      SetGate(d);
      SameTransitive(s0, s1, e.Now());
      EquivalenceFound(e.Now(), pivot, c, d, second);
    }

    method FindEquivalence(pivot: Lit)
      requires Ready() && Unmarked() && pivot != 0
      modifies this, e`db, e`vals, e`unsat, e`inactive
      ensures Ready() && Unmarked() && Same(old(e.Now()), e.Now())
      ensures if old(gates) != [] then gates == old(gates) && e.Now() == old(e.Now()) else gates != [] ==> Defining(pivot)
      ensures AllWide(old(e.db), old(e.vals), pivot) && AllWide(old(e.db), old(e.vals), -pivot) && old(gates) == [] ==>
                e.Now() == old(e.Now()) && gates == []
      ensures old(e.vals) <= e.vals
      ensures gates == [] && !e.unsat && e.Unassigned(pivot) && e.vals == old(e.vals) ==> NoEquivalence(e.db, e.vals, pivot)
    {
      ghost var s0 := e.Now();
      SameRefl(s0);
      if e.unsat || pivot in e.vals || -pivot in e.vals || gates != [] { return; }
      MarkBinaryLiterals(pivot);
      SameKept(s0, s0, e.Now());
      KeptParts(s0, e.Now(), 0);
      SearchPartners(pivot, s0);
      UnmarkBinaryLiterals();
    }

    // Look for binary clauses with the negated pivot.
    method SearchPartners(pivot: Lit, ghost s0: State)
      requires Ready() && pivot != 0 && gates == [] && Same(s0, e.Now()) && s0.vals <= e.vals
      requires var ps := Occ(e.occs, pivot);
               && (!e.unsat && e.Unassigned(pivot) ==> Marked(e.db, e.vals, ps, pivot, marks, |ps|))
               && (!e.unsat && e.Unassigned(pivot) && e.vals == s0.vals ==> FullyMarked(e.db, e.vals, ps, pivot, marks, |ps|))
      modifies `gates, e`db, e`vals, e`unsat, e`inactive
      ensures Ready() && Same(s0, e.Now()) && s0.vals <= e.vals && (gates != [] ==> Defining(pivot))
      ensures AllWide(old(e.db), old(e.vals), -pivot) ==> e.Now() == old(e.Now()) && gates == []
      ensures gates == [] && !e.unsat && e.Unassigned(pivot) && e.vals == s0.vals ==> NoEquivalence(e.db, e.vals, pivot)
    {
      var ns := Occ(e.occs, -pivot);
      SearchingStart(s0, e.Now(), Occ(e.occs, pivot), ns, pivot, marks);
      var i: nat := 0;
      while i < |ns| && !e.unsat && pivot !in e.vals && -pivot !in e.vals && gates == []
        invariant i <= |ns| && Ready() && Same(s0, e.Now()) && gates == [] && ns == Occ(e.occs, -pivot)
        invariant AllWide(old(e.db), old(e.vals), -pivot) ==> e.Now() == old(e.Now())
        invariant SearchingEquivalence(s0, e.Now(), Occ(e.occs, pivot), ns, pivot, marks, i)
        decreases |ns| - i
      {
        EquivalenceNext(pivot, ns[i], ns, i, s0);
        i := i + 1;
        if gates != [] { return; }
      }
      SearchingMarked(s0, e.Now(), Occ(e.occs, pivot), ns, pivot, marks, i);
      if !e.unsat && e.Unassigned(pivot) && e.vals == s0.vals {
        NoEquivalenceIntro(e.Now(), e.occs, e.inactive, e.eliminated, pivot, marks);
      }
    }

    method EquivalenceNext(pivot: Lit, c: nat, ghost ns: seq<nat>, ghost i: nat, ghost s0: State)
      requires Ready() && !e.unsat && e.Unassigned(pivot) && gates == [] && Same(s0, e.Now())
      requires ns == Occ(e.occs, -pivot) && i < |ns| && ns[i] == c
      requires SearchingEquivalence(s0, e.Now(), Occ(e.occs, pivot), ns, pivot, marks, i)
      modifies `gates, e`db, e`vals, e`unsat, e`inactive
      ensures Ready() && Same(s0, e.Now()) && s0.vals <= e.vals
      ensures AllWide(old(e.db), old(e.vals), -pivot) ==> e.Now() == old(e.Now()) && gates == []
      ensures if gates == [] then SearchingEquivalence(s0, e.Now(), Occ(e.occs, pivot), ns, pivot, marks, i + 1) else Defining(pivot)
    {
      ghost var s1, ps := e.Now(), Occ(e.occs, pivot);
      SearchingMarked(s0, s1, ps, ns, pivot, marks, i);
      SameRefl(s1);
      EquivalenceOne(pivot, c, s1);
      if gates == [] {
        SearchingNext(s0, s1, e.Now(), ps, ns, pivot, marks, i);
      }
      SameTransitive(s0, s1, e.Now());
    }

    method EquivalenceOne(pivot: Lit, c: nat, ghost s0: State)
      requires Ready() && !e.unsat && e.Unassigned(pivot) && gates == [] && c in Occ(e.occs, -pivot) && Same(s0, e.Now())
      requires var ps := Occ(e.occs, pivot); Marked(e.db, e.vals, ps, pivot, marks, |ps|)
      modifies `gates, e`db, e`vals, e`unsat, e`inactive
      ensures Ready() && Same(s0, e.Now()) && old(e.vals) <= e.vals
      ensures AllWide(old(e.db), old(e.vals), -pivot) ==> e.Now() == old(e.Now()) && gates == []
      ensures if gates == [] then var ps := Occ(e.occs, pivot); Marked(e.db, e.vals, ps, pivot, marks, |ps|) else Defining(pivot)
      ensures gates == [] && e.vals == old(e.vals) ==> NoPartnerAt(e.db, e.vals, pivot, marks, c)
    {
      ghost var s1, ps := e.Now(), Occ(e.occs, pivot);
      Listed(e.db, e.occs, e.inactive, -pivot, c);
      ClauseDistinct(e.db, c);
      if e.db[c].garbage { return; }
      assert Live(s1.db, c) && (AllWide(s1.db, s1.vals, -pivot) ==> Wide(s1.db[c].lits, s1.vals, -pivot));
      var second := SecondLiteral(c, -pivot);
      SameKept(s0, s1, e.Now());
      MarkedSatisfied(s1.db, s1.vals, ps, pivot, marks, |ps|, e.db, e.vals);
      if second == 0 { return; }
      ghost var s2 := e.Now();
      if second in marks {
        LearnSecond(pivot, c, second);
        KeptParts(s2, e.Now(), 0);
        SameKept(s0, s2, e.Now());
      } else if -second in marks {
        FlagEquivalence(pivot, c, second);
        SameTransitive(s0, s2, e.Now());
      }
    }

    // ----- AND gates.

    // Whether the negations of all literals but the first are marked.
    method AllMarked(lits: seq<Lit>, first: Lit) returns (all: bool, satisfied: Lit)
      requires 0 !in lits
      ensures satisfied != 0 ==> satisfied in lits && satisfied in e.vals
      ensures if all then satisfied == 0 ==> AllInputs(lits, e.vals, first, marks) else !AllInputs(lits, e.vals, first, marks)
      ensures Wide(lits, e.vals, first) && marks == {} ==> !all
    {
      all, satisfied := true, 0;
      var i: nat := 0;
      while i < |lits| && all && satisfied == 0
        invariant i <= |lits| && (satisfied != 0 ==> satisfied in lits && satisfied in e.vals)
        invariant all && satisfied == 0 ==> AllInputs(lits[..i], e.vals, first, marks)
        invariant !all ==> !AllInputs(lits, e.vals, first, marks)
        invariant marks == {} && all ==> if satisfied == 0 then Scan(lits, e.vals, first, i).Unknown? else Scan(lits, e.vals, first, i).True?
      {
        var lit := lits[i];
        assert lit in lits && lits[..i+1] == lits[..i] + [lit];
        i := i + 1;
        ScanStable(lits, e.vals, first, i);
        if lit == first || -lit in e.vals { continue; }
        if lit in e.vals {
          satisfied := lit;
        } else if -lit !in marks {
          all := false;
        }
      }
      assert lits[..|lits|] == lits;
      ScanStable(lits, e.vals, first, i);
    }

    // Mark the negated inputs once more.
    method MarkInputs(lits: seq<Lit>, first: Lit)
      requires AllInputs(lits, e.vals, first, marks) && doubled == {}
      modifies `doubled
      ensures doubled <= marks
      ensures forall x {:trigger x in doubled} :: x in doubled <==> -x in lits && -x != first && x !in e.vals
    {
      for i := 0 to |lits|
        invariant doubled <= marks
        invariant forall x {:trigger x in doubled} :: x in doubled <==> -x in lits[..i] && -x != first && x !in e.vals
      {
        var lit := lits[i];
        assert lit in lits && lits[..i+1] == lits[..i] + [lit];
        assert forall x: Lit {:trigger -x} :: -x == lit <==> x == -lit;
        if lit != first && -lit !in e.vals {
          doubled := doubled + {-lit};
        }
      }
      assert lits[..|lits|] == lits;
    }

    // Flag the binary clauses of the inputs.
    method FlagSides(pivot: Lit, c: nat)
      requires Ready() && !e.unsat && e.Unassigned(pivot) && gates == [c] && Live(e.db, c) && pivot !in e.db[c].lits
      modifies `gates, e`db
      ensures Ready() && Same(old(e.Now()), e.Now()) && gates != [] && c in gates && OnlySides(old(e.db), e.db, e.vals, pivot)
      ensures SidesFlagged(e.db, e.vals, Occ(e.occs, pivot), pivot, doubled, gates, c, |Occ(e.occs, pivot)|)
    {
      var ps := Occ(e.occs, pivot);
      ghost var s0 := e.Now();
      SameRefl(s0);
      SidesStart(e.db, e.vals, ps, pivot, doubled, c);
      for i := 0 to |ps|
        invariant Ready() && Same(s0, e.Now()) && c in gates && OnlySides(s0.db, e.db, e.vals, pivot)
        invariant SidesFlagged(e.db, e.vals, ps, pivot, doubled, gates, c, i)
      {
        FlagSide(pivot, c, i, s0);
      }
    }

    method FlagSide(pivot: Lit, c: nat, i: nat, ghost s0: State)
      requires Ready() && e.Unassigned(pivot) && c in gates && Same(s0, e.Now()) && OnlySides(s0.db, e.db, e.vals, pivot) && i < |Occ(e.occs, pivot)|
      requires SidesFlagged(e.db, e.vals, Occ(e.occs, pivot), pivot, doubled, gates, c, i)
      modifies `gates, e`db
      ensures Ready() && Same(s0, e.Now()) && c in gates && OnlySides(s0.db, e.db, e.vals, pivot)
      ensures SidesFlagged(e.db, e.vals, Occ(e.occs, pivot), pivot, doubled, gates, c, i + 1)
    {
      var ps := Occ(e.occs, pivot);
      var d := ps[i];
      Listed(e.db, e.occs, e.inactive, pivot, d);
      if e.db[d].garbage {
        SidesGarbage(e.db, e.vals, ps, pivot, doubled, gates, c, i);
        return;
      }
      ghost var s1 := e.Now();
      ClauseDistinct(e.db, d);
      var other := SecondLiteral(d, pivot);
      SameKept(s0, s1, e.Now());
      if other == 0 || other !in doubled {
        assert forall o {:trigger o in doubled} :: o in doubled && Binary(s1.db[d].lits, e.vals, pivot, o) ==> o == other && o != 0;
        SidesSkip(s1.db, e.vals, ps, pivot, doubled, gates, c, i, e.db);
        return;
      }
      SidesNew(e.db, e.vals, ps, pivot, doubled, gates, c, i, other);
      ghost var s2 := e.Now();
      SetGate(d);
      SameMeaning(s0, s2, e.Now());
    }

    // An AND gate with the given base clause.
    method FlagAnd(pivot: Lit, c: nat)
      requires Ready() && !e.unsat && e.Unassigned(pivot) && pivot != 0 && Live(e.db, c) && c in Occ(e.occs, -pivot) && gates == []
      requires AllInputs(e.db[c].lits, e.vals, -pivot, marks) && doubled == {}
      requires var ps := Occ(e.occs, pivot); Marked(e.db, e.vals, ps, pivot, marks, |ps|)
      modifies `gates, `doubled, e`db
      ensures Ready() && Same(old(e.Now()), e.Now()) && gates != [] && Defining(pivot) && doubled <= marks
    {
      ghost var s0, ps := e.Now(), Occ(e.occs, pivot);
      Listed(e.db, e.occs, e.inactive, -pivot, c);
      ClauseDistinct(e.db, c);
      assert -(-pivot) == pivot;
      MarkInputs(e.db[c].lits, -pivot);
      SetGate(c);
      SameMeaning(s0, s0, e.Now());
      ghost var s1 := e.Now();
      FlagSides(pivot, c);
      SameTransitive(s0, s1, e.Now());
      assert SameLits(s0.db, e.db, e.vals) by {
        assert forall k :: 0 <= k < |s0.db| ==> s1.db[k].lits == s0.db[k].lits && s1.db[k].garbage == s0.db[k].garbage;
      }
      AndFound(s0, e.Now(), ps, pivot, c, marks, doubled, gates);
    }

    method FindAndGate(pivot: Lit)
      requires Ready() && Unmarked() && pivot != 0
      modifies this, e`db, e`vals, e`unsat, e`inactive
      ensures Ready() && Unmarked() && Same(old(e.Now()), e.Now())
      ensures if old(gates) != [] then gates == old(gates) && e.Now() == old(e.Now()) else gates != [] ==> Defining(pivot)
      ensures AllWide(old(e.db), old(e.vals), pivot) && AllWide(old(e.db), old(e.vals), -pivot) && old(gates) == [] ==>
                e.Now() == old(e.Now()) && gates == []
      ensures old(e.vals) <= e.vals
      ensures gates == [] && !e.unsat && e.Unassigned(pivot) && e.vals == old(e.vals) ==> NoAnd(e.db, e.vals, pivot)
    {
      ghost var s0 := e.Now();
      SameRefl(s0);
      if e.unsat || pivot in e.vals || -pivot in e.vals || gates != [] { return; }
      MarkBinaryLiterals(pivot);
      SameKept(s0, s0, e.Now());
      KeptParts(s0, e.Now(), 0);
      if !e.unsat && pivot !in e.vals && -pivot !in e.vals {
        SearchBases(pivot, s0);
      }
      UnmarkBinaryLiterals();
    }

    // Try the clauses with the negated pivot as base clauses.
    method SearchBases(pivot: Lit, ghost s0: State)
      requires Ready() && !e.unsat && e.Unassigned(pivot) && pivot != 0 && gates == [] && Same(s0, e.Now()) && doubled == {} && marks == LitsOf(marked)
      requires var ps := Occ(e.occs, pivot);
               && s0.vals <= e.vals && Marked(e.db, e.vals, ps, pivot, marks, |ps|)
               && (e.vals == s0.vals ==> FullyMarked(e.db, e.vals, ps, pivot, marks, |ps|))
      modifies `gates, `doubled, e`db
      ensures Ready() && Same(s0, e.Now()) && doubled <= marks && (gates != [] ==> Defining(pivot))
      ensures AllWide(old(e.db), e.vals, -pivot) && marks == {} ==> e.Now() == old(e.Now()) && gates == []
      ensures gates == [] && e.vals == s0.vals ==> NoAnd(e.db, e.vals, pivot)
    {
      var ns := Occ(e.occs, -pivot);
      SearchingAndStart(s0, e.Now(), Occ(e.occs, pivot), ns, pivot, marks);
      var i: nat := 0;
      while i < |ns| && gates == []
        invariant i <= |ns| && Ready() && Same(s0, e.Now()) && doubled <= marks
        invariant if gates != [] then Defining(pivot)
                  else doubled == {} && SearchingAnd(s0, e.Now(), Occ(e.occs, pivot), ns, pivot, marks, i)
        invariant AllWide(old(e.db), e.vals, -pivot) && marks == {} ==> e.Now() == old(e.Now()) && gates == []
        decreases |ns| - i
      {
        ghost var s1 := e.Now();
        SearchingAndMarked(s0, s1, Occ(e.occs, pivot), ns, pivot, marks, i);
        AndNext(pivot, ns[i], s0);
        if gates == [] {
          SearchingAndNext(s0, s1, e.Now(), Occ(e.occs, pivot), ns, pivot, marks, i);
        }
        i := i + 1;
      }
      if gates == [] && e.vals == s0.vals {
        SearchingAndMarked(s0, e.Now(), Occ(e.occs, pivot), ns, pivot, marks, i);
        NoAndIntro(e.Now(), e.occs, e.inactive, e.eliminated, pivot, marks);
      }
    }

    method AndNext(pivot: Lit, c: nat, ghost s0: State)
      requires Ready() && !e.unsat && e.Unassigned(pivot) && pivot != 0 && c in Occ(e.occs, -pivot) && gates == [] && Same(s0, e.Now())
      requires doubled == {}
      requires var ps := Occ(e.occs, pivot); Marked(e.db, e.vals, ps, pivot, marks, |ps|)
      modifies `gates, `doubled, e`db
      ensures Ready() && Same(s0, e.Now()) && doubled <= marks
      ensures AllWide(old(e.db), old(e.vals), -pivot) && marks == {} ==> e.Now() == old(e.Now()) && gates == []
      ensures if gates != [] then Defining(pivot)
              else doubled == {} && Marked(e.db, e.vals, Occ(e.occs, pivot), pivot, marks, |Occ(e.occs, pivot)|)
      ensures gates == [] ==> Fewer(old(e.db), e.db) && !AndCandidate(e.db, e.vals, pivot, marks, c)
    {
      ghost var s1, ps := e.Now(), Occ(e.occs, pivot);
      Listed(e.db, e.occs, e.inactive, -pivot, c);
      if e.db[c].garbage || |e.db[c].lits| < 3 { return; }
      ClauseDistinct(e.db, c);
      assert Live(s1.db, c) && (AllWide(s1.db, s1.vals, -pivot) ==> Wide(s1.db[c].lits, s1.vals, -pivot));
      var all, satisfied := AllMarked(e.db[c].lits, -pivot);
      if !all { return; }
      if satisfied != 0 {
        SatisfiedSame(e.db, e.vals);
        SatisfiedNext(e.db, e.db, e.vals, c, satisfied);
        e.MarkSatisfied(c, satisfied, 0);
        TidiedRemoved(s1, c);
        SameKept(s0, s1, e.Now());
        MarkedSatisfied(s1.db, s1.vals, ps, pivot, marks, |ps|, e.db, e.vals);
        return;
      }
      FlagAnd(pivot, c);
      SameTransitive(s0, s1, e.Now());
    }

    // ----- If-then-else gates.

    predicate IsUnassigned(x: Lit)
      reads e
    {
      x !in e.vals && -x !in e.vals
    }

    // The three unassigned literals of a clause.  Satisfied clauses are not ruled out.
    method GetTernaryClause(d: nat) returns (ok: bool, a: Lit, b: Lit, c: Lit)
      requires Ready() && d < |e.db|
      ensures ok <==> Ternary(e.Now(), d)
      ensures ok ==> Open3(e.db[d].lits, e.vals) == [a, b, c]
    {
      ok, a, b, c := false, 0, 0, 0;
      if e.db[d].garbage { return; }
      ShortClause(e.db[d].lits, e.vals);
      if |e.db[d].lits| < 3 { return; }
      ok, a, b, c := ReadThree(e.db[d].lits);
    }

    method ReadThree(lits: seq<Lit>) returns (ok: bool, a: Lit, b: Lit, c: Lit)
      ensures ok <==> |Open3(lits, e.vals)| == 3
      ensures ok ==> Open3(lits, e.vals) == [a, b, c]
    {
      ok, a, b, c := false, 0, 0, 0;
      var found := 0;
      for i := 0 to |lits|
        invariant 0 <= found <= 3 && ReadSome(lits, i, e.vals, a, b, c, found)
      {
        ReadStep(lits, i, e.vals, a, b, c, found);
        if !IsUnassigned(lits[i]) { continue; }
        found := found + 1;
        if found == 1 {
          a := lits[i];
        } else if found == 2 {
          b := lits[i];
        } else if found == 3 {
          c := lits[i];
        } else {
          return;
        }
      }
      ReadEnd(lits, e.vals, a, b, c, found);
      ok := found == 3;
    }

    method MatchTernaryClause(d: nat, a: Lit, b: Lit, c: Lit, ghost three: Clause) returns (ok: bool)
      requires Ready() && d < |e.db| && three == {a, b, c}
      ensures ok <==> HasResidue(e.Now(), d, three)
    {
      if e.db[d].garbage { return false; }
      ClauseDistinct(e.db, d);
      ok := MatchThree(e.db[d].lits, a, b, c);
    }

    method MatchThree(lits: seq<Lit>, a: Lit, b: Lit, c: Lit) returns (ok: bool)
      requires NoDup(lits)
      ensures ok <==> Residue(lits, e.vals) == {a, b, c} && |Residue(lits, e.vals)| == 3
    {
      var found := 0;
      ghost var three := {a, b, c};
      CountStart(lits, e.vals, three);
      for i := 0 to |lits|
        invariant 0 <= found && CountedSome(lits, i, e.vals, three, found)
      {
        CountStep(lits, i, e.vals, three, found);
        if !IsUnassigned(lits[i]) { continue; }
        if a != lits[i] && b != lits[i] && c != lits[i] { return false; }
        found := found + 1;
      }
      CountEnd(lits, e.vals, three, found);
      AtMostThree(a, b, c);
      ok := found == 3;
    }

    // A clause is found exactly if there is one.
    method FindTernaryClause(a0: Lit, b0: Lit, c0: Lit) returns (found: bool, d: nat)
      requires Ready() && !e.unsat
      ensures if found then HasResidue(e.Now(), d, {a0, b0, c0})
              else forall d: nat {:trigger HasResidue(e.Now(), d, {a0, b0, c0})} :: !HasResidue(e.Now(), d, {a0, b0, c0})
    {
      var a, b, c := OrderThree(a0, b0, c0);
      found, d := FindInList(a, b, c, {a0, b0, c0});
    }

    // The literal with the shortest list comes first, more or less.
    method OrderThree(a0: Lit, b0: Lit, c0: Lit) returns (a: Lit, b: Lit, c: Lit)
      ensures {a, b, c} == {a0, b0, c0}
    {
      a, b, c := a0, b0, c0;
      if |Occ(e.occs, b)| > |Occ(e.occs, c)| {
        b, c := c, b;
      }
      if |Occ(e.occs, a)| > |Occ(e.occs, b)| {
        a, b := b, a;
      }
    }

    method FindInList(a: Lit, b: Lit, c: Lit, ghost three: Clause) returns (found: bool, d: nat)
      requires Ready() && !e.unsat && {a, b, c} == three
      ensures if found then HasResidue(e.Now(), d, three)
              else forall d: nat {:trigger HasResidue(e.Now(), d, three)} :: !HasResidue(e.Now(), d, three)
    {
      var os := Occ(e.occs, a);
      for i := 0 to |os|
        invariant forall j :: 0 <= j < i ==> !HasResidue(e.Now(), os[j], three)
      {
        Listed(e.db, e.occs, e.inactive, a, os[i]);
        var ok := MatchTernaryClause(os[i], a, b, c, three);
        if ok { return true, os[i]; }
      }
      found, d := false, 0;
      NotListed(e.Now(), e.occs, e.inactive, e.eliminated, three, a);
    }

    // A gate is found exactly if two ternary clauses with the pivot, the condition first, can be
    // completed.
    method FindIfThenElse(pivot: Lit)
      requires Ready() && pivot != 0
      modifies `gates, e`db
      ensures Ready() && Same(old(e.Now()), e.Now())
      ensures if old(gates) != [] then gates == old(gates) && e.Now() == old(e.Now()) else gates != [] ==> Found(pivot)
      ensures old(gates) == [] && !e.unsat && e.Unassigned(pivot) ==>
                if gates == [] then e.Now() == old(e.Now()) && NoIte(e.Now(), pivot, Occ(e.occs, pivot), |Occ(e.occs, pivot)|)
                else FlaggedIte(old(e.Now()), pivot, gates, e.Now())
    {
      SameRefl(e.Now());
      if e.unsat || pivot in e.vals || -pivot in e.vals || gates != [] { return; }
      var os := Occ(e.occs, pivot);
      var i: nat := 0;
      while i < |os|
        invariant i <= |os| && gates == [] && e.Now() == old(e.Now())
        invariant NoIte(e.Now(), pivot, os, i)
        decreases |os| - i
      {
        var found := IteRow(pivot, os, i);
        if found { return; }
        NoIteNext(e.Now(), pivot, os, i);
        i := i + 1;
      }
    }

    method IteRow(pivot: Lit, os: seq<nat>, i: nat) returns (found: bool)
      requires Ready() && !e.unsat && e.Unassigned(pivot) && pivot != 0 && gates == [] && os == Occ(e.occs, pivot) && i < |os|
      modifies `gates, e`db
      ensures Ready() && Same(old(e.Now()), e.Now())
      ensures if found then gates != [] && Found(pivot) && FlaggedIte(old(e.Now()), pivot, gates, e.Now())
              else gates == [] && e.Now() == old(e.Now()) && NoIteRow(e.Now(), pivot, os, i, |os|)
    {
      SameRefl(e.Now());
      found := false;
      Listed(e.db, e.occs, e.inactive, pivot, os[i]);
      var ok, bi, ci := PivotTernary(os[i], pivot);
      if !ok { return; }
      var j := i + 1;
      while j < |os|
        invariant i < j <= |os| && gates == [] && e.Now() == old(e.Now())
        invariant NoIteRow(e.Now(), pivot, os, i, j)
      {
        Listed(e.db, e.occs, e.inactive, pivot, os[j]);
        found := IteNext(pivot, os[i], bi, ci, os[j]);
        if found { return; }
        NoIteLast(e.Now(), pivot, os, i, j);
        j := j + 1;
      }
    }

    // Try to complete two clauses with the pivot to a gate.
    method IteNext(pivot: Lit, di: nat, bi: Lit, ci: Lit, dj: nat) returns (found: bool)
      requires Ready() && !e.unsat && e.Unassigned(pivot) && pivot != 0 && gates == [] && dj < |e.db| && pivot in e.db[dj].lits
      requires Ternary(e.Now(), di) && pivot in e.db[di].lits && (bi, ci) == PairOf(Open3(e.db[di].lits, e.vals), pivot)
      modifies `gates, e`db
      ensures Ready() && Same(old(e.Now()), e.Now())
      ensures if found then gates != [] && Found(pivot) && FlaggedIte(old(e.Now()), pivot, gates, e.Now())
              else gates == [] && e.Now() == old(e.Now()) && NoIteOf(e.Now(), pivot, di, dj)
    {
      SameRefl(e.Now());
      found := false;
      var ok, bj, cj := PivotTernary(dj, pivot);
      if !ok { return; }
      if Var(bi) == Var(cj) {
        bj, cj := cj, bj;
      }
      if Var(ci) == Var(cj) || bi != -bj { return; }
      assert Matched(e.Now(), pivot, di, dj, bi, ci, cj);
      MatchedResidues(e.Now(), pivot, di, dj, bi, ci, cj);
      found := CompleteIte(pivot, di, bi, ci, dj, cj);
      if !found {
        MatchedOnly(e.Now(), pivot, di, dj, bi, ci, cj);
      }
    }

    // The two other literals of a ternary clause with the pivot.
    method PivotTernary(d: nat, pivot: Lit) returns (ok: bool, b: Lit, c: Lit)
      requires Ready() && d < |e.db| && pivot in e.db[d].lits && e.Unassigned(pivot)
      ensures ok <==> Ternary(e.Now(), d)
      ensures ok ==> (b, c) == PairOf(Open3(e.db[d].lits, e.vals), pivot)
    {
      var a;
      ok, a, b, c := GetTernaryClause(d);
      if ok {
        Open3Members(e.db[d].lits, e.vals);
        if b == pivot {
          a, b := b, a;
        }
        if c == pivot {
          a, c := c, a;
        }
      }
    }

    method CompleteIte(pivot: Lit, di: nat, bi: Lit, ci: Lit, dj: nat, cj: Lit) returns (found: bool)
      requires Ready() && !e.unsat && e.Unassigned(pivot) && pivot != 0 && gates == []
      requires Live(e.db, di) && Residue(e.db[di].lits, e.vals) == {pivot, bi, ci} && bi != pivot && ci != pivot
      requires Live(e.db, dj) && Residue(e.db[dj].lits, e.vals) == {pivot, -bi, cj} && -bi != pivot && cj != pivot
      requires Matched(e.Now(), pivot, di, dj, bi, ci, cj) && InPair(e.Now(), pivot, di, dj)
      modifies `gates, e`db
      ensures Ready() && Same(old(e.Now()), e.Now())
      ensures if found then gates != [] && Found(pivot) && FlaggedIte(old(e.Now()), pivot, gates, e.Now())
              else gates == [] && e.Now() == old(e.Now()) && Incomplete(e.Now(), pivot, bi, ci, cj)
    {
      SameRefl(e.Now());
      var ok1, d1 := FindTernaryClause(-pivot, bi, -ci);
      if !ok1 { return false; }
      var ok2, d2 := FindTernaryClause(-pivot, -bi, -cj);
      if !ok2 { return false; }
      IteCompleted(e.Now(), pivot, di, dj, d1, d2, bi, ci, cj);
      FlagIte(pivot, di, dj, d1, d2, bi, ci, cj);
      found := true;
    }

    method FlagIte(pivot: Lit, di: nat, dj: nat, d1: nat, d2: nat, ghost bi: Lit, ghost ci: Lit, ghost cj: Lit)
      requires Ready() && !e.unsat && e.Unassigned(pivot) && pivot != 0 && gates == []
      requires IteGate(e.Now(), pivot, di, dj, d1, d2, bi, ci, cj) && Live(e.db, di) && Live(e.db, dj) && Live(e.db, d1) && Live(e.db, d2)
      modifies `gates, e`db
      ensures Ready() && Same(old(e.Now()), e.Now()) && gates == [di, dj, d1, d2] && Found(pivot)
      ensures SameButFlags(old(e.db), e.db) && e.vals == old(e.vals) && e.unsat == old(e.unsat)
    {
      ghost var s0 := e.Now();
      FlagPair(di, dj);
      ghost var s1 := e.Now();
      FlagPair(d1, d2);
      SameTransitive(s0, s1, e.Now());
      assert gates == [di, dj, d1, d2];
      IteFlagged(s0, e.Now(), pivot, di, dj, d1, d2, bi, ci, cj);
    }

    method FlagPair(d0: nat, d1: nat)
      requires Ready() && d0 < |e.db| && d1 < |e.db|
      modifies `gates, e`db
      ensures Ready() && gates == old(gates) + [d0, d1] && Same(old(e.Now()), e.Now())
      ensures SameButFlags(old(e.db), e.db)
    {
      ghost var s0 := e.Now();
      SetGate(d0);
      ghost var s1 := e.Now();
      SetGate(d1);
      SameTransitive(s0, s1, e.Now());
    }

    // ----- XOR gates.

    // The unassigned literals of a clause.  Satisfied clauses are not ruled out.
    method GetClause(c: nat) returns (ok: bool, lits: seq<Lit>)
      requires Ready() && c < |e.db|
      ensures ok <==> Live(e.db, c)
      ensures ok ==> NoDup(lits) && LitsOf(lits) == Residue(e.db[c].lits, e.vals) && lits == Open3(e.db[c].lits, e.vals)
    {
      ok, lits := false, [];
      if e.db[c].garbage { return; }
      ClauseDistinct(e.db, c);
      lits := CopyUnassigned(e.db[c].lits);
      ok := true;
    }

    method CopyUnassigned(all: seq<Lit>) returns (lits: seq<Lit>)
      requires NoDup(all)
      ensures NoDup(lits) && LitsOf(lits) == Residue(all, e.vals) && lits == Open3(all, e.vals)
    {
      lits := [];
      for i := 0 to |all|
        invariant lits == Open3(all[..i], e.vals)
      {
        Open3Last(all[..i], all[i], e.vals);
        assert all[..i+1] == all[..i] + [all[i]];
        if IsUnassigned(all[i]) {
          lits := lits + [all[i]];
        }
      }
      assert all[..|all|] == all;
      Open3Unique(all, e.vals);
    }

    // Whether the unassigned literals of the clause are the given ones.
    method IsClause(c: nat, lits: seq<Lit>) returns (ok: bool)
      requires Ready() && c < |e.db| && NoDup(lits)
      ensures ok <==> HasOpen(e.Now(), c, LitsOf(lits))
    {
      NoDupSize(lits);
      ResidueSmall(e.db[c].lits, e.vals);
      if e.db[c].garbage || |e.db[c].lits| < |lits| { return false; }
      ClauseDistinct(e.db, c);
      ok := MatchAll(e.db[c].lits, lits);
    }

    method MatchAll(all: seq<Lit>, lits: seq<Lit>) returns (ok: bool)
      requires NoDup(all) && NoDup(lits)
      ensures ok <==> Residue(all, e.vals) == LitsOf(lits)
    {
      var found := 0;
      ghost var members := LitsOf(lits);
      NoDupSize(lits);
      CountStart(all, e.vals, members);
      for i := 0 to |all|
        invariant 0 <= found && CountedSome(all, i, e.vals, members, found)
      {
        CountStep(all, i, e.vals, members, found);
        if !IsUnassigned(all[i]) { continue; }
        if all[i] !in lits { return false; }
        found := found + 1;
        CountLess(all, i + 1, e.vals, members, found);
        if found > |lits| { return false; }
      }
      CountEnd(all, e.vals, members, found);
      ok := found == |lits|;
    }

    // Look for a clause in the shortest occurrence list of its literals.
    method FindClause(lits: seq<Lit>) returns (found: bool, c: nat)
      requires Ready() && !e.unsat && NoDup(lits) && 0 !in lits && lits != []
      ensures if found then HasOpen(e.Now(), c, LitsOf(lits)) else Missing(e.Now(), LitsOf(lits))
    {
      var best := LeastOccurring(lits);
      var os := Occ(e.occs, best);
      for i := 0 to |os|
        invariant forall j :: 0 <= j < i ==> !HasOpen(e.Now(), os[j], LitsOf(lits))
      {
        Listed(e.db, e.occs, e.inactive, best, os[i]);
        var ok := IsClause(os[i], lits);
        if ok { return true, os[i]; }
      }
      found, c := false, 0;
      NoneOpen(e.Now(), e.occs, e.inactive, e.eliminated, LitsOf(lits), best);
    }

    // A literal with the shortest list.
    method LeastOccurring(lits: seq<Lit>) returns (best: Lit)
      requires lits != [] && 0 !in lits
      ensures best in lits && forall l :: l in lits ==> |Occ(e.occs, best)| <= |Occ(e.occs, l)|
    {
      var len := 0;
      best := 0;
      for i := 0 to |lits|
        invariant if i == 0 then best == 0 else best in lits && len == |Occ(e.occs, best)|
        invariant forall j :: 0 <= j < i ==> len <= |Occ(e.occs, lits[j])|
      {
        assert lits[i] in lits;
        var l := |Occ(e.occs, lits[i])|;
        if best != 0 && l >= len { continue; }
        len, best := l, lits[i];
      }
    }

    // Negate the literals whose sign bit changed.
    method FlipSigns(lits0: seq<Lit>, prev: nat, signs: nat, ghost orig: seq<Lit>) returns (lits: seq<Lit>)
      requires |lits0| == |orig| && lits0 == Flip(orig, Bits(prev, |orig|))
      ensures lits == Flip(orig, Bits(signs, |orig|))
    {
      lits := lits0;
      ghost var a, b := Bits(prev, |orig|), Bits(signs, |orig|);
      for j := 0 to |lits0|
        invariant |lits| == |orig|
        invariant forall i :: 0 <= i < j ==> lits[i] == Flip(orig, b)[i]
        invariant forall i :: j <= i < |orig| ==> lits[i] == Flip(orig, a)[i]
      {
        BitAt(prev, |orig|, j);
        BitAt(signs, |orig|, j);
        if (prev / Pow2(j)) % 2 != (signs / Pow2(j)) % 2 {
          assert a[j] != b[j] && -(-orig[j]) == orig[j];
          lits := lits[j := -lits[j]];
        } else {
          assert a[j] == b[j];
        }
      }
    }

    // Look for all other sign patterns with an even number of negations, each exactly once.
    method FindPatterns(d: nat, lits0: seq<Lit>) returns (ok: bool, found: seq<nat>)
      requires Ready() && Live(e.db, d) && |lits0| >= 2 && LitsOf(lits0) == Residue(e.db[d].lits, e.vals)
      requires DistinctVars(lits0) && 0 !in lits0 && !e.unsat
      ensures ok ==> Patterns(e.Now(), [d] + found, lits0)
      ensures if ok then |found| + 1 == Pow2(|lits0| - 1) else PatternMissing(e.Now(), lits0)
    {
      var size := |lits0|;
      var lits, signs, needed := lits0, 0, Pow2(size - 1) - 1;
      found := [];
      FirstPattern(e.Now(), d, lits0);
      assert [d] + found == [d];
      assert Pow2(size - 1) == 2 * Pow2(size - 2);
      ok := false;
      while true
        invariant needed >= 1 && needed + |found| + 1 == Pow2(size - 1)
        invariant signs == NthEven(|found|) && lits == Flip(lits0, Bits(signs, size))
        invariant Patterns(e.Now(), [d] + found, lits0)
        decreases needed
      {
        var exists', c;
        exists', c, lits, signs := PatternNext(lits, signs, lits0, [d] + found);
        if !exists' {
          assert MissingAt(e.Now(), lits0, |found| + 1);
          return;
        }
        assert ([d] + found) + [c] == [d] + (found + [c]);
        found := found + [c];
        needed := needed - 1;
        if needed == 0 { break; }
      }
      ok := true;
    }

    // Go to the next pattern, and look for a clause with that pattern.
    method PatternNext(lits0: seq<Lit>, prev: nat, ghost orig: seq<Lit>, ghost g: seq<nat>)
      returns (found: bool, c: nat, lits: seq<Lit>, signs: nat)
      requires Ready() && !e.unsat && |g| > 0 && prev == NthEven(|g| - 1) && DistinctVars(orig) && 0 !in orig && orig != []
      requires |lits0| == |orig| && lits0 == Flip(orig, Bits(prev, |orig|)) && Patterns(e.Now(), g, orig)
      ensures signs == NthEven(|g|) && lits == Flip(orig, Bits(signs, |orig|))
      ensures if found then Patterns(e.Now(), g + [c], orig) else MissingAt(e.Now(), orig, |g|)
    {
      signs := NextSigns(prev, |g| - 1);
      lits := FlipSigns(lits0, prev, signs, orig);
      FlipNoDup(orig, Bits(signs, |orig|));
      assert 0 !in lits by {
        assert forall i :: 0 <= i < |orig| ==> orig[i] in orig;
      }
      found, c := FindClause(lits);
      if found {
        NextPattern(e.Now(), g, orig, c);
      }
    }

    // The next number of even parity.
    method NextSigns(signs0: nat, ghost t: nat) returns (signs: nat)
      requires signs0 == NthEven(t)
      ensures signs == NthEven(t + 1)
    {
      signs := signs0 + 1;
      NextEven(t, signs);
      while Parity(signs)
        invariant NthEven(t) < signs <= NthEven(t + 1)
        invariant !Parity(signs) <==> signs == NthEven(t + 1)
        decreases NthEven(t + 1) - signs
      {
        signs := signs + 1;
        NextEven(t, signs);
      }
    }

    method FindXorGate(pivot: Lit, arityLimit: nat)
      requires Ready() && pivot != 0
      modifies `gates, e`db
      ensures Ready() && Same(old(e.Now()), e.Now())
      ensures if old(gates) != [] then gates == old(gates) && e.Now() == old(e.Now()) else gates != [] ==> Found(pivot)
      ensures old(gates) == [] && gates == [] ==> e.Now() == old(e.Now())
      ensures gates == [] && !e.unsat && e.Unassigned(pivot) ==> NoXor(e.Now(), pivot, arityLimit)
    {
      SameRefl(e.Now());
      if e.unsat || pivot in e.vals || -pivot in e.vals || gates != [] { return; }
      var os := Occ(e.occs, pivot);
      var i: nat := 0;
      while i < |os|
        invariant i <= |os| && gates == [] && e.Now() == old(e.Now())
        invariant forall j {:trigger os[j]} :: 0 <= j < i ==> NoXorAt(e.Now(), os[j], arityLimit)
        decreases |os| - i
      {
        var found := XorNext(pivot, os[i], arityLimit);
        if found { return; }
        i := i + 1;
      }
      NoXorIntro(e.Now(), e.occs, e.inactive, e.eliminated, pivot, arityLimit);
    }

    // Try to complete the sign patterns of one clause.
    method XorNext(pivot: Lit, d: nat, arityLimit: nat) returns (complete: bool)
      requires Ready() && !e.unsat && e.Unassigned(pivot) && pivot != 0 && gates == [] && d in Occ(e.occs, pivot)
      modifies `gates, e`db
      ensures Ready() && Same(old(e.Now()), e.Now())
      ensures if complete then gates != [] && Found(pivot)
              else gates == [] && e.Now() == old(e.Now()) && NoXorAt(e.Now(), d, arityLimit)
    {
      SameRefl(e.Now());
      complete := false;
      Listed(e.db, e.occs, e.inactive, pivot, d);
      var ok, lits := GetClause(d);
      if !ok || |lits| < 3 || |lits| - 1 > arityLimit { return; }
      ClauseDistinct(e.db, d);
      XorVariables(e.db[d].lits, e.vals, lits);
      var found;
      complete, found := FindPatterns(d, lits);
      if complete {
        FlagXor(pivot, d, lits, found);
      }
    }

    method FlagXor(pivot: Lit, d: nat, lits: seq<Lit>, found: seq<nat>)
      requires Ready() && !e.unsat && e.Unassigned(pivot) && pivot != 0 && gates == [] && d < |e.db| && pivot in e.db[d].lits
      requires |lits| > 0 && LitsOf(lits) == Residue(e.db[d].lits, e.vals) && DistinctVars(lits) && 0 !in lits
      requires |found| + 1 == Pow2(|lits| - 1)
      requires Patterns(e.Now(), [d] + found, lits)
      modifies `gates, e`db
      ensures Ready() && Same(old(e.Now()), e.Now()) && gates != [] && Found(pivot)
    {
      ghost var s0 := e.Now();
      ghost var g := [d] + found;
      SameRefl(s0);
      AllLive(s0, g, lits);
      assert forall k :: k in g <==> k in found + [d];
      FlagAll(found + [d]);
      assert d in gates;
      SameMeaning(s0, s0, e.Now());
      assert pivot in LitsOf(lits);
      ghost var p :| 0 <= p < |lits| && lits[p] == pivot;
      XorFound(s0, e.Now(), pivot, g, gates, lits, p);
    }

    // Flag the clauses, each of them once.
    method FlagAll(list: seq<nat>)
      requires Ready() && gates == [] && forall k :: k in list ==> k < |e.db|
      modifies `gates, e`db
      ensures Ready() && (forall k :: k in gates <==> k in list) && SameButFlags(old(e.db), e.db)
      ensures Meaning(e.Now()) == Meaning(old(e.Now()))
    {
      for i := 0 to |list|
        invariant Ready() && (forall k :: k in gates <==> k in list[..i]) && SameButFlags(old(e.db), e.db)
        invariant Meaning(e.Now()) == Meaning(old(e.Now())) && e.vals == old(e.vals) && e.unsat == old(e.unsat) && e.occs == old(e.occs)
      {
        assert list[..i+1] == list[..i] + [list[i]] && list[i] in list;
        if !e.db[list[i]].gate {
          SetGate(list[i]);
        }
      }
      assert list[..|list|] == list;
    }

    // Equivalences and AND gates always define the pivot.  The other gates are only looked for if
    // there are none.
    method FindGateClauses(pivot: Lit, arityLimit: nat)
      requires Ready() && Unmarked() && pivot != 0 && gates == []
      modifies this, e`db, e`vals, e`unsat, e`inactive
      ensures Ready() && Unmarked() && Same(old(e.Now()), e.Now())
      ensures gates != [] ==> Found(pivot)
      ensures !old(e.unsat) && old(e.Unassigned(pivot)) && AllWide(old(e.db), old(e.vals), pivot) && AllWide(old(e.db), old(e.vals), -pivot) ==>
                FlaggedIte(old(e.Now()), pivot, gates, e.Now()) || NoIte(old(e.Now()), pivot, Occ(e.occs, pivot), |Occ(e.occs, pivot)|)
      ensures gates == [] && !e.unsat && e.Unassigned(pivot) && e.vals == old(e.vals) ==> NoGate(e.Now(), pivot, Occ(e.occs, pivot), arityLimit)
    {
      ghost var s0 := e.Now();
      FindBinaryGates(pivot);
      ghost var s1 := e.Now();
      FindIfThenElse(pivot);
      SameTransitive(s0, s1, e.Now());
      ghost var s2 := e.Now();
      FindXorGate(pivot, arityLimit);
      SameTransitive(s0, s2, e.Now());
    }

    method FindNegatedAndGate(pivot: Lit)
      requires Ready() && Unmarked() && pivot != 0
      modifies this, e`db, e`vals, e`unsat, e`inactive
      ensures Ready() && Unmarked() && Same(old(e.Now()), e.Now())
      ensures if old(gates) != [] then gates == old(gates) && e.Now() == old(e.Now()) else gates != [] ==> Defining(pivot)
      ensures AllWide(old(e.db), old(e.vals), pivot) && AllWide(old(e.db), old(e.vals), -pivot) && old(gates) == [] ==>
                e.Now() == old(e.Now()) && gates == []
      ensures old(e.vals) <= e.vals
      ensures gates == [] && !e.unsat && e.Unassigned(pivot) && e.vals == old(e.vals) ==> NoAnd(e.db, e.vals, -pivot)
    {
      assert -(-pivot) == pivot;
      FindAndGate(-pivot);
      if old(gates) == [] && gates != [] {
        FoundFlip(e.Now(), pivot, gates);
      }
    }

    method FindBinaryGates(pivot: Lit)
      requires Ready() && Unmarked() && pivot != 0 && gates == []
      modifies this, e`db, e`vals, e`unsat, e`inactive
      ensures Ready() && Unmarked() && Same(old(e.Now()), e.Now())
      ensures gates != [] ==> Defining(pivot)
      ensures AllWide(old(e.db), old(e.vals), pivot) && AllWide(old(e.db), old(e.vals), -pivot) ==> e.Now() == old(e.Now()) && gates == []
      ensures old(e.vals) <= e.vals
      ensures gates == [] && !e.unsat && e.Unassigned(pivot) && e.vals == old(e.vals) ==> NoBinaryGate(e.db, e.vals, pivot)
    {
      ghost var s0 := e.Now();
      assert -(-pivot) == pivot;
      FindEquivalence(pivot);
      ghost var s1 := e.Now();
      FindAndGate(pivot);
      SameTransitive(s0, s1, e.Now());
      ghost var s2 := e.Now();
      FindNegatedAndGate(pivot);
      SameTransitive(s0, s2, e.Now());
      if gates == [] && !e.unsat && e.Unassigned(pivot) && e.vals == s0.vals {
        NoBinaryGateKept(s1, s2, e.Now(), pivot);
      }
    }

    method UnmarkGateClauses()
      requires e.Valid() && FlagsInside(e.db, gates)
      modifies `gates, e`db
      ensures Ready() && gates == [] && Meaning(e.Now()) == Meaning(old(e.Now())) && SameButFlags(old(e.db), e.db)
    {
      for i := 0 to |gates|
        invariant e.Valid() && gates == old(gates) && FlagsInside(e.db, gates[i..]) && SameButFlags(old(e.db), e.db)
        invariant Meaning(e.Now()) == Meaning(old(e.Now()))
      {
        var k := gates[i];
        assert gates[i..] == [k] + gates[i+1..] && gates[i..][0] == k;
        InsideTail(e.db, k, gates[i+1..]);
        FlagKeeps(e.db, e.occs, e.inactive, k, false);
        FlagMeaning(e.Now(), k, false);
        e.db := e.db[k := e.db[k].(gate := false)];
      }
      gates := [];
    }

    // Try to eliminate a variable.  Every model of the result extends to one of the original clauses
    // if no live clause with the pivot contains a literal fixed to true.  More generally, where 'at' is
    // the state after looking for gates, it suffices that no gate clause 'found' contains one.
    method TryToEliminateVariable(pivot0: Lit, occLimit: nat, elimBound: int, sizeLimit: int, arityLimit: nat)
      returns (success: bool, ghost es: seq<EX.Entry>, ghost at: State, ghost found: seq<nat>)
      requires Ready() && Unmarked() && gates == [] && e.clause == [] && e.marks == {} && !e.unsat && pivot0 != 0
      modifies this, e
      ensures Ready() && Unmarked() && gates == [] && e.clause == [] && e.marks == {}
      ensures e.extension == old(e.extension) + EX.EncodeAll(es)
      ensures EntailsAll(Meaning(old(e.Now())), Meaning(e.Now()))
      ensures forall k :: k in found ==> k < |at.db|
      ensures NoneSatisfied(at, found) ==> RE.Reconstructs(Meaning(e.Now()), es, Meaning(old(e.Now())))
      ensures Tidy(old(e.db), old(e.vals), pivot0) ==> RE.Reconstructs(Meaning(e.Now()), es, Meaning(old(e.Now())))
      ensures success ==> Var(pivot0) in e.inactive && Absent(e.db, pivot0)
      ensures success ==> Exact(at, pivot0, found != [], Meaning(e.Now())) || Exact(at, -pivot0, found != [], Meaning(e.Now()))
      ensures success ==> Var(pivot0) !in old(e.inactive) && !TooMany(old(e.db), pivot0, occLimit)
      ensures success ==> WithinBounds(old(e.db), at, pivot0, found != [], elimBound, sizeLimit) ||
                          WithinBounds(old(e.db), at, -pivot0, found != [], elimBound, sizeLimit)
      ensures !success ==> Var(pivot0) in old(e.inactive) || TooMany(old(e.db), pivot0, occLimit) ||
                           e.unsat || !e.Unassigned(pivot0) || TooCostly(old(e.db), pivot0, elimBound, sizeLimit)
    {
      var pivot, ok := PreparePivot(pivot0, occLimit, arityLimit);
      at, found := e.Now(), gates;
      success, es := TryPivot(pivot0, pivot, ok, elimBound, sizeLimit, old(e.Now()));
    }

    // Eliminate the pivot unless the variable is not in use, occurs too often, or was found to have a value.
    method TryPivot(pivot0: Lit, pivot: Lit, ok: bool, elimBound: int, sizeLimit: int, ghost s0: State)
      returns (success: bool, ghost es: seq<EX.Entry>)
      requires Ready() && e.clause == [] && e.marks == {} && pivot0 != 0 && (pivot == pivot0 || pivot == -pivot0)
      requires Same(s0, e.Now()) && FlagsInside(e.db, gates) && (gates != [] ==> Found(pivot))
      requires ok ==> Var(pivot) !in e.eliminated && Counted(s0.db, Occ(e.occs, pivot), pivot) && Counted(s0.db, Occ(e.occs, -pivot), -pivot)
      requires Tidy(s0.db, s0.vals, pivot0) && !e.unsat ==> Tidy(e.db, e.vals, pivot)
      modifies `gates, e
      ensures Ready() && gates == [] && e.clause == [] && e.marks == {}
      ensures e.extension == old(e.extension) + EX.EncodeAll(es)
      ensures EntailsAll(Meaning(s0), Meaning(e.Now())) && forall k :: k in old(gates) ==> k < |old(e.db)|
      ensures NoneSatisfied(old(e.Now()), old(gates)) || Tidy(s0.db, s0.vals, pivot0) ==> RE.Reconstructs(Meaning(e.Now()), es, Meaning(s0))
      ensures success ==> ok && Var(pivot) in e.inactive && Absent(e.db, pivot) && Absent(e.db, -pivot)
      ensures success ==> Exact(old(e.Now()), pivot, old(gates) != [], Meaning(e.Now()))
      ensures success ==> WithinBounds(s0.db, old(e.Now()), pivot, old(gates) != [], elimBound, sizeLimit)
      ensures !success && ok ==> e.unsat || !e.Unassigned(pivot0) || TooCostly(s0.db, pivot0, elimBound, sizeLimit)
    {
      ghost var at, ps, ns := e.Now(), Occ(e.occs, pivot), Occ(e.occs, -pivot);
      success, es := FinishPivot(pivot, elimBound, sizeLimit, ok && !e.unsat && pivot !in e.vals && -pivot !in e.vals, s0);
      if success {
        WithinBoundsIntro(s0.db, at, ps, ns, pivot, old(gates) != [], elimBound, sizeLimit);
      } else if ok && !e.unsat && e.Unassigned(pivot) {
        NotEliminated(s0, at, ps, ns, pivot0, pivot, elimBound, sizeLimit);
      }
    }

    method FinishPivot(pivot: Lit, elimBound: int, sizeLimit: int, possible: bool, ghost s0: State)
      returns (success: bool, ghost es: seq<EX.Entry>)
      requires Ready() && e.clause == [] && e.marks == {} && pivot != 0 && Same(s0, e.Now()) && FlagsInside(e.db, gates)
      requires possible ==> !e.unsat && e.Unassigned(pivot) && (gates != [] ==> Found(pivot)) && Var(pivot) !in e.eliminated
      modifies `gates, e
      ensures Ready() && gates == [] && e.clause == [] && e.marks == {}
      ensures e.extension == old(e.extension) + EX.EncodeAll(es)
      ensures EntailsAll(Meaning(s0), Meaning(e.Now())) && forall k :: k in old(gates) ==> k < |old(e.db)|
      ensures NoneSatisfied(old(e.Now()), old(gates)) || (!old(e.unsat) ==> Tidy(old(e.db), old(e.vals), pivot)) ==>
                RE.Reconstructs(Meaning(e.Now()), es, Meaning(s0))
      ensures success ==> Var(pivot) in e.inactive && Absent(e.db, pivot) && Absent(e.db, -pivot)
      ensures success ==> Exact(old(e.Now()), pivot, old(gates) != [], Meaning(e.Now())) && RE.FlipsOnly(es, pivot)
      ensures success ==> possible && Affordable(old(e.Now()), Occ(old(e.occs), pivot), pivot, Occ(old(e.occs), -pivot), old(gates) != [], elimBound, sizeLimit)
      ensures !possible ==> e.vals == old(e.vals) && e.unsat == old(e.unsat)
      ensures possible && !success ==>
                e.unsat || !e.Unassigned(pivot) || Crowded(old(e.db), Occ(old(e.occs), pivot), Occ(old(e.occs), -pivot), elimBound, sizeLimit)
    {
      success, es := false, [];
      SameReconstructs(s0, e.Now());
      if possible {
        TidyGates(e.Now(), pivot, gates);
        success, es := EliminatePivot(pivot, elimBound, sizeLimit, s0);
      }
      ghost var db1 := e.db;
      UnmarkGateClauses();
      AbsentSame(db1, e.db, pivot);
      FreeFlip(pivot);
    }

    // Flush and sort the occurrence lists, choose the sign with fewer clauses, and look for gates.
    method PreparePivot(pivot0: Lit, occLimit: nat, arityLimit: nat) returns (pivot: Lit, ok: bool)
      requires Ready() && Unmarked() && gates == [] && pivot0 != 0
      modifies this, e`db, e`vals, e`unsat, e`inactive, e`occs
      ensures Ready() && Unmarked() && Same(old(e.Now()), e.Now()) && FlagsInside(e.db, gates)
      ensures (pivot == pivot0 || pivot == -pivot0) && (gates != [] ==> Found(pivot))
      ensures ok <==> Var(pivot0) !in old(e.inactive) && !TooMany(old(e.db), pivot0, occLimit)
      ensures ok ==> Counted(old(e.db), Occ(e.occs, pivot), pivot) && Counted(old(e.db), Occ(e.occs, -pivot), -pivot)
      ensures Tidy(old(e.db), old(e.vals), pivot0) && !e.unsat ==> Tidy(e.db, e.vals, pivot)
    {
      var pos;
      pivot, pos, ok := FlushPivot(pivot0, occLimit);
      SameRefl(e.Now());
      assert FlagsInside(e.db, gates);
      if ok && pos > 0 {
        FindGateClauses(pivot, arityLimit);
        assert forall j :: 0 <= j < |gates| ==> gates[j] in gates;
      }
      TidySearched(old(e.Now()), e.Now(), pivot0, pivot);
    }

    // Unless the variable is not in use or occurs too often, all live clauses with it are listed.
    method FlushPivot(pivot0: Lit, occLimit: nat) returns (pivot: Lit, pos: nat, ok: bool)
      requires Ready() && pivot0 != 0
      modifies e`occs
      ensures Ready() && (pivot == pivot0 || pivot == -pivot0)
      ensures ok <==> Var(pivot0) !in e.inactive && !TooMany(e.db, pivot0, occLimit)
      ensures ok ==> Counted(e.db, Occ(e.occs, pivot), pivot) && Counted(e.db, Occ(e.occs, -pivot), -pivot)
    {
      pivot, pos, ok := pivot0, 0, false;
      if Var(pivot0) in e.inactive { return; }
      var neg;
      pivot, pos, neg := ChooseSign(pivot0);
      TooManyListed(e.db, Occ(e.occs, pivot), Occ(e.occs, -pivot), pivot0, pivot, occLimit);
      if pos > 0 && neg > occLimit { return; }
      SortBoth(pivot);
      ok := true;
    }

    method SortBoth(pivot: Lit)
      requires Ready() && pivot != 0 && Counted(e.db, Occ(e.occs, pivot), pivot) && Counted(e.db, Occ(e.occs, -pivot), -pivot)
      modifies e`occs
      ensures Ready() && Counted(e.db, Occ(e.occs, pivot), pivot) && Counted(e.db, Occ(e.occs, -pivot), -pivot)
    {
      e.SortOccs(pivot);
      e.SortOccs(-pivot);
    }

    // Flush the lists, and choose the sign with fewer occurrences.
    method ChooseSign(pivot0: Lit) returns (pivot: Lit, pos: nat, neg: nat)
      requires Ready()
      modifies e`occs
      ensures Ready() && (pivot == pivot0 || pivot == -pivot0) && pos <= neg
      ensures Var(pivot0) !in e.inactive ==>
                && Counted(e.db, Occ(e.occs, pivot), pivot) && Counted(e.db, Occ(e.occs, -pivot), -pivot)
                && pos == |Occ(e.occs, pivot)| && neg == |Occ(e.occs, -pivot)|
    {
      pivot := pivot0;
      pos := e.FlushOccs(pivot);
      neg := e.FlushOccs(-pivot);
      if pos > neg {
        pivot := -pivot;
        pos, neg := neg, pos;
      }
    }

    method EliminatePivot(pivot: Lit, elimBound: int, sizeLimit: int, ghost s0: State) returns (success: bool, ghost es: seq<EX.Entry>)
      requires Ready() && e.clause == [] && e.marks == {} && !e.unsat && pivot != 0 && e.Unassigned(pivot)
      requires Same(s0, e.Now()) && (gates != [] ==> Found(pivot)) && Var(pivot) !in e.eliminated
      modifies e
      ensures e.Valid() && FlagsInside(e.db, gates) && e.clause == [] && e.marks == {}
      ensures e.extension == old(e.extension) + EX.EncodeAll(es)
      ensures EntailsAll(Meaning(s0), Meaning(e.Now())) && forall k :: k in gates ==> k < |old(e.db)|
      ensures NoneSatisfied(old(e.Now()), gates) ==> RE.Reconstructs(Meaning(e.Now()), es, Meaning(s0))
      ensures success ==> Var(pivot) in e.inactive && Absent(e.db, pivot)
      ensures success ==> Exact(old(e.Now()), pivot, gates != [], Meaning(e.Now())) && RE.FlipsOnly(es, pivot)
      ensures success ==> Affordable(old(e.Now()), Occ(old(e.occs), pivot), pivot, Occ(old(e.occs), -pivot), gates != [], elimBound, sizeLimit)
      ensures !success ==>
                e.unsat || !e.Unassigned(pivot) || Crowded(old(e.db), Occ(old(e.occs), pivot), Occ(old(e.occs), -pivot), elimBound, sizeLimit)
    {
      ghost var s1 := e.Now();
      assert forall j :: 0 <= j < |gates| ==> gates[j] in gates;
      success, es := e.Eliminate(pivot, elimBound, sizeLimit, gates != []);
      forall c | c in Meaning(e.Now()) ensures Entails(Meaning(s0), c) {
        EntailsTransitive(Meaning(s0), Meaning(s1), c);
      }
      if NoneSatisfied(s1, gates) {
        SameReconstructs(s0, s1);
        RE.ReconstructsTransitive(Meaning(s0), [], Meaning(s1), es, Meaning(e.Now()));
        assert [] + es == es;
      }
    }
  }

  lemma TooManyListed(db: Db, ps: seq<nat>, ns: seq<nat>, pivot0: Lit, pivot: Lit, limit: nat)
    requires (pivot == pivot0 || pivot == -pivot0) && |ps| <= |ns|
    ensures Counted(db, ps, pivot) && Counted(db, ns, -pivot) ==> (TooMany(db, pivot0, limit) <==> |ps| > 0 && |ns| > limit)
  {
    assert -(-pivot0) == pivot0;
  }

  // With the clauses listed that were there before looking for gates.
  ghost predicate WithinBounds(db: Db, at: State, l: Lit, substitute: bool, elimBound: int, sizeLimit: int) {
    exists ps, ns {:trigger Counted(db, ps, l), Counted(db, ns, -l)} ::
      Counted(db, ps, l) && Counted(db, ns, -l) && Affordable(at, ps, l, ns, substitute, elimBound, sizeLimit)
  }

  lemma NotEliminated(s: State, at: State, ps: seq<nat>, ns: seq<nat>, pivot0: Lit, pivot: Lit, elimBound: int, sizeLimit: int)
    requires Tidier(s, at) && !at.unsat && (pivot == pivot0 || pivot == -pivot0)
    requires Counted(s.db, ps, pivot) && Counted(s.db, ns, -pivot) && Crowded(at.db, ps, ns, elimBound, sizeLimit)
    ensures TooCostly(s.db, pivot0, elimBound, sizeLimit)
  {
    assert Look(0);
    forall k | 0 <= k < |s.db| ensures at.db[k].lits == s.db[k].lits {
      assert TidierAt(s, at, k);
    }
    CrowdedBefore(s.db, at.db, ps, ns, pivot, elimBound, sizeLimit);
    if pivot != pivot0 {
      TooCostlyFlip(s.db, pivot0, elimBound, sizeLimit);
    }
  }

  lemma WithinBoundsIntro(db: Db, at: State, ps: seq<nat>, ns: seq<nat>, l: Lit, substitute: bool, elimBound: int, sizeLimit: int)
    requires Counted(db, ps, l) && Counted(db, ns, -l) && Affordable(at, ps, l, ns, substitute, elimBound, sizeLimit)
    ensures WithinBounds(db, at, l, substitute, elimBound, sizeLimit)
  {
  }

  // What was tidy before looking for gates still is, unless there was a conflict.
  lemma TidySearched(s: State, s': State, pivot0: Lit, pivot: Lit)
    requires Same(s, s') && (pivot == pivot0 || pivot == -pivot0)
    ensures Tidy(s.db, s.vals, pivot0) && !s'.unsat ==> Tidy(s'.db, s'.vals, pivot)
  {
    assert -(-pivot0) == pivot0;
    if Tidy(s.db, s.vals, pivot0) && !s'.unsat {
      TidyKept(s, s', pivot0);
      forall k: nat | Live(s'.db, k) && !Free(s'.db[k].lits, pivot) ensures !HasTrue(s'.db[k].lits, s'.vals) {
        assert !Free(s'.db[k].lits, pivot0);
      }
    }
  }

  lemma TidyGates(s: State, pivot: Lit, gates: seq<nat>)
    requires (forall k :: k in gates ==> k < |s.db|) && (gates != [] ==> GateDb(s, pivot, gates))
    ensures Tidy(s.db, s.vals, pivot) ==> NoneSatisfied(s, gates)
  {
    if Tidy(s.db, s.vals, pivot) {
      forall k | k in gates ensures !HasTrue(s.db[k].lits, s.vals) {
        assert GateClause(s.db, k) && Live(s.db, k);
      }
    }
  }

  // Gate flags are only set for the given clauses.
  ghost predicate FlagsInside(db: Db, gates: seq<nat>) {
    Inside(db, gates) && forall k {:trigger db[k]} :: 0 <= k < |db| && db[k].gate ==> k in gates
  }

  lemma InsideTail(db: Db, k: nat, list: seq<nat>)
    requires Inside(db, [k] + list)
    ensures Inside(db, list)
  {
    forall i | 0 <= i < |list| ensures list[i] < |db| {
      assert ([k] + list)[i+1] == list[i];
    }
  }

  lemma FreeFlip(l: Lit)
    ensures forall db {:trigger Absent(db, l)} {:trigger Absent(db, -l)} :: Absent(db, l) <==> Absent(db, -l)
  {
    var n := -l;
    assert -n == l;
    assert forall lits: seq<Lit> {:trigger Free(lits, l)} {:trigger Free(lits, n)} :: Free(lits, l) <==> Free(lits, n);
  }

  lemma AbsentSame(db: Db, db': Db, l: Lit)
    requires SameButFlags(db, db')
    ensures Absent(db, l) <==> Absent(db', l)
  {
    if Absent(db', l) {
      forall k | 0 <= k < |db| && !db[k].garbage ensures Free(db[k].lits, l) {
        assert db'[k].lits == db[k].lits;
      }
    }
  }

  lemma SameReconstructs(s: State, s': State)
    requires Same(s, s')
    ensures RE.Reconstructs(Meaning(s'), [], Meaning(s))
  {
    RE.ReconstructsNothing(Meaning(s'), Meaning(s));
  }

  lemma SameTransitive(s: State, s1: State, s2: State)
    requires Same(s, s1) && Same(s1, s2)
    ensures Same(s, s2)
  {
    TidierTransitive(s, s1, s2);
    forall c | c in Meaning(s2) ensures Entails(Meaning(s), c) {
      EntailsTransitive(Meaning(s), Meaning(s1), c);
    }
    forall c | c in Meaning(s) ensures Entails(Meaning(s2), c) {
      EntailsTransitive(Meaning(s2), Meaning(s1), c);
    }
  }

  // Only clauses with the literal became garbage.
  ghost predicate OnlyListed(db: Db, db': Db, l: Lit) {
    |db'| == |db| && forall k {:trigger db'[k]} :: 0 <= k < |db| ==>
      (db'[k] == db[k] || (db'[k] == db[k].(garbage := true) && l in db[k].lits))
  }

  lemma EquivalenceFound(s: State, l: Lit, c: nat, d: nat, x: Lit)
    requires Live(s.db, c) && Live(s.db, d) && GateFlags(s.db, [c, d]) && l != 0
    requires Binary(s.db[c].lits, s.vals, -l, x) && Binary(s.db[d].lits, s.vals, l, -x)
    requires WA.Distinct(s.db[c].lits) && WA.Distinct(s.db[d].lits)
    requires forall y {:trigger y in s.vals} :: y in s.vals ==> y != 0 && -y !in s.vals
    ensures GateDb(s, l, [c, d]) && (forall k :: k in [c, d] ==> k < |s.db|)
    ensures NoneSatisfied(s, [c, d]) && Gated(s, l)
  {
    var gates := [c, d];
    assert c in gates && d in gates && -(-l) == l && -(-x) == x;
    assert forall k: nat :: GateClause(s.db, k) <==> k in gates;
    BinaryResidue(s.db[c].lits, s.vals, -l, x);
    BinaryResidue(s.db[d].lits, s.vals, l, -x);
    EquivalenceGated(s, l, c, d, x);
  }

  lemma SameMeaning(s: State, s1: State, s2: State)
    requires Same(s, s1) && Meaning(s1) == Meaning(s2)
    requires Fewer(s1.db, s2.db) && s2.vals == s1.vals && s2.unsat == s1.unsat
    ensures Same(s, s2)
  {
    TidierFewer(s1, s2);
    TidierTransitive(s, s1, s2);
  }

  // ----- AND gates.

  // All literals but the first are false, or unassigned with their negation marked.
  ghost predicate AllInputs(lits: seq<Lit>, vals: set<Lit>, first: Lit, marks: set<Lit>) {
    forall x {:trigger x in lits} :: x in lits ==> x == first || -x in vals || (x !in vals && -x in marks)
  }

  // Clauses keep their literals, and only satisfied ones became garbage.
  ghost predicate SameLits(db: Db, db': Db, vals: set<Lit>) {
    |db'| == |db| && forall k {:trigger db'[k]} :: 0 <= k < |db| ==>
      db'[k].lits == db[k].lits && (db'[k].garbage && !db[k].garbage ==> HasTrue(db[k].lits, vals))
  }

  // Moreover only clauses with the pivot changed.
  ghost predicate OnlySides(db: Db, db': Db, vals: set<Lit>, l: Lit) {
    SameLits(db, db', vals) && forall k {:trigger db'[k]} :: 0 <= k < |db| ==> (l !in db[k].lits ==> db'[k] == db[k])
  }

  // A live binary clause with the pivot and a literal of 'ds'.
  ghost predicate SideClause(db: Db, vals: set<Lit>, l: Lit, ds: set<Lit>, d: nat, o: Lit) {
    Live(db, d) && Binary(db[d].lits, vals, l, o) && o in ds
  }

  ghost predicate SomeSide(db: Db, vals: set<Lit>, l: Lit, ds: set<Lit>, d: nat) {
    exists o :: SideClause(db, vals, l, ds, d, o)
  }

  // Exactly these clauses among the first 'n' are gate clauses besides the base clause.
  ghost predicate SidesFlagged(db: Db, vals: set<Lit>, list: seq<nat>, l: Lit, ds: set<Lit>, gates: seq<nat>, c: nat, n: nat) {
    forall u {:trigger Look(u)} :: Look(u) ==>
      && n <= |list|
      && (forall j {:trigger list[j]} :: 0 <= j < n && SomeSide(db, vals, l, ds, list[j]) ==> list[j] in gates)
      && (forall d {:trigger SomeSide(db, vals, l, ds, d)} :: d in gates && d != c ==> SomeSide(db, vals, l, ds, d))
      && (forall d :: d in gates && d != c ==> exists j :: 0 <= j < n && list[j] == d)
  }

  lemma SidesStart(db: Db, vals: set<Lit>, list: seq<nat>, l: Lit, ds: set<Lit>, c: nat)
    ensures SidesFlagged(db, vals, list, l, ds, [c], c, 0)
  {
  }

  lemma SidesGarbage(db: Db, vals: set<Lit>, list: seq<nat>, l: Lit, ds: set<Lit>, gates: seq<nat>, c: nat, n: nat)
    requires SidesFlagged(db, vals, list, l, ds, gates, c, n) && n < |list| && !Live(db, list[n])
    ensures SidesFlagged(db, vals, list, l, ds, gates, c, n + 1)
  {
    assert Look(0);
    forall d | d in gates && d != c ensures exists j :: 0 <= j < n + 1 && list[j] == d {
      var j :| 0 <= j < n && list[j] == d;
    }
  }

  lemma SidesSkip(db: Db, vals: set<Lit>, list: seq<nat>, l: Lit, ds: set<Lit>, gates: seq<nat>, c: nat, n: nat, db': Db)
    requires SidesFlagged(db, vals, list, l, ds, gates, c, n) && n < |list| && list[n] < |db| && Unique(list)
    requires db' == db || db' == db[list[n] := db[list[n]].(garbage := true)]
    requires forall o :: o in ds ==> !Binary(db[list[n]].lits, vals, l, o)
    ensures SidesFlagged(db', vals, list, l, ds, gates, c, n + 1)
  {
    assert Look(0);
    forall d | d != list[n] ensures SomeSide(db', vals, l, ds, d) <==> SomeSide(db, vals, l, ds, d) {
      if o :| SideClause(db, vals, l, ds, d, o) {
        assert SideClause(db', vals, l, ds, d, o);
      }
      if o :| SideClause(db', vals, l, ds, d, o) {
        assert SideClause(db, vals, l, ds, d, o);
      }
    }
    forall d | d in gates && d != c ensures SomeSide(db', vals, l, ds, d) && exists j :: 0 <= j < n + 1 && list[j] == d {
      var j :| 0 <= j < n && list[j] == d;
      assert SomeSide(db, vals, l, ds, d);
    }
    assert !SomeSide(db', vals, l, ds, list[n]);
  }

  lemma SidesNew(db: Db, vals: set<Lit>, list: seq<nat>, l: Lit, ds: set<Lit>, gates: seq<nat>, c: nat, n: nat, o: Lit)
    requires SidesFlagged(db, vals, list, l, ds, gates, c, n) && n < |list| && SideClause(db, vals, l, ds, list[n], o)
    ensures var db' := db[list[n] := db[list[n]].(gate := true)];
            SidesFlagged(db', vals, list, l, ds, gates + [list[n]], c, n + 1)
  {
    assert Look(0);
    var db' := db[list[n] := db[list[n]].(gate := true)];
    forall d ensures SomeSide(db', vals, l, ds, d) <==> SomeSide(db, vals, l, ds, d) {
      if o :| SideClause(db, vals, l, ds, d, o) {
        assert SideClause(db', vals, l, ds, d, o);
      }
      if o :| SideClause(db', vals, l, ds, d, o) {
        assert SideClause(db, vals, l, ds, d, o);
      }
    }
    assert SomeSide(db, vals, l, ds, list[n]);
    forall d | d in gates + [list[n]] && d != c
      ensures SomeSide(db', vals, l, ds, d) && exists j :: 0 <= j < n + 1 && list[j] == d {
      if d != list[n] {
        var j :| 0 <= j < n && list[j] == d;
        assert SomeSide(db, vals, l, ds, d);
      }
    }
  }

  // The base clause and its sides, after they were flagged.
  ghost predicate Flagged(s0: State, s: State, list: seq<nat>, l: Lit, c: nat, marks: set<Lit>, ds: set<Lit>, gates: seq<nat>) {
    && GateFlags(s.db, gates) && l != 0 && c in gates && Live(s.db, c) && -l in s.db[c].lits && l !in s.db[c].lits
    && l !in s.vals && -l !in s.vals && s0.vals == s.vals && SameLits(s0.db, s.db, s.vals)
    && (forall y {:trigger y in s.vals} :: y in s.vals ==> y != 0 && -y !in s.vals)
    && AllInputs(s.db[c].lits, s.vals, -l, marks)
    && (forall x {:trigger x in ds} :: x in ds <==> -x in s.db[c].lits && -x != -l && x !in s.vals)
    && Marked(s0.db, s.vals, list, l, marks, |list|) && SidesFlagged(s.db, s.vals, list, l, ds, gates, c, |list|)
  }

  lemma AndGateDb(s0: State, s: State, list: seq<nat>, l: Lit, c: nat, marks: set<Lit>, ds: set<Lit>, gates: seq<nat>)
    requires Flagged(s0, s, list, l, c, marks, ds, gates) && Clean(s.db)
    ensures GateDb(s, l, gates) && (forall k :: k in gates ==> k < |s.db|) && NoneSatisfied(s, gates)
  {
    assert Look(0);
    assert forall x: Lit {:trigger -x} :: -(-x) == x;
    forall d | d in gates ensures Live(s.db, d) && !Free(s.db[d].lits, l) && 0 !in s.db[d].lits && !HasTrue(s.db[d].lits, s.vals) {
      ClauseDistinct(s.db, d);
      if d != c {
        assert SomeSide(s.db, s.vals, l, ds, d);
        var o :| SideClause(s.db, s.vals, l, ds, d, o);
        BinaryResidue(s.db[d].lits, s.vals, l, o);
      }
    }
    assert forall k: nat :: GateClause(s.db, k) <==> k in gates;
  }

  lemma InputHasSide(s0: State, s: State, list: seq<nat>, l: Lit, c: nat, marks: set<Lit>, ds: set<Lit>, gates: seq<nat>, a: Lit)
    requires Flagged(s0, s, list, l, c, marks, ds, gates) && Input(s, l, c, a)
    ensures HasSide(s, gates, l, a)
  {
    assert Look(0);
    assert -(-a) == a && a in s.db[c].lits && -a in marks && -a in ds;
    var j := MarkedBinary(s0.db, s.vals, list, l, marks, |list|, -a);
    var d := list[j];
    BinaryResidue(s0.db[d].lits, s.vals, l, -a);
    assert s.db[d].lits == s0.db[d].lits && Live(s.db, d);
    assert SideClause(s.db, s.vals, l, ds, d, -a);
    assert SomeSide(s.db, s.vals, l, ds, d);
    assert list[j] in gates;
    assert Side(s, gates, l, a, d);
  }

  lemma SideHasInput(s0: State, s: State, list: seq<nat>, l: Lit, c: nat, marks: set<Lit>, ds: set<Lit>, gates: seq<nat>, d: nat)
    requires Flagged(s0, s, list, l, c, marks, ds, gates) && d in gates && d != c
    ensures IsSide(s, gates, l, c, d)
  {
    assert Look(0);
    assert SomeSide(s.db, s.vals, l, ds, d);
    var o :| SideClause(s.db, s.vals, l, ds, d, o);
    BinaryResidue(s.db[d].lits, s.vals, l, o);
    assert -(-o) == o && -o in s.db[c].lits;
    assert Input(s, l, c, -o) && Side(s, gates, l, -o, d);
  }

  // The base clause and its sides are an AND gate.
  lemma AndFound(s0: State, s: State, list: seq<nat>, l: Lit, c: nat, marks: set<Lit>, ds: set<Lit>, gates: seq<nat>)
    requires Flagged(s0, s, list, l, c, marks, ds, gates) && Clean(s.db)
    ensures GateDb(s, l, gates) && (forall k :: k in gates ==> k < |s.db|) && NoneSatisfied(s, gates) && Gated(s, l)
  {
    AndGateDb(s0, s, list, l, c, marks, ds, gates);
    forall a | Input(s, l, c, a) ensures HasSide(s, gates, l, a) {
      InputHasSide(s0, s, list, l, c, marks, ds, gates, a);
    }
    forall d | d in gates && d != c ensures IsSide(s, gates, l, c, d) {
      SideHasInput(s0, s, list, l, c, marks, ds, gates, d);
    }
    AndGated(s, l, gates, c);
  }

  // ----- If-then-else gates.

  ghost predicate SameButFlags(db: Db, db': Db) {
    |db'| == |db| && forall k {:trigger db'[k]} :: 0 <= k < |db| ==> db'[k].lits == db[k].lits && db'[k].garbage == db[k].garbage
  }

  lemma ResidueLast(lits: seq<Lit>, x: Lit, vals: set<Lit>)
    ensures Residue(lits + [x], vals) == Residue(lits, vals) + (if x !in vals && -x !in vals then {x} else {})
  {
    assert forall y :: y in lits + [x] <==> y in lits || y == x;
  }

  lemma AtMostThree(a: Lit, b: Lit, c: Lit)
    ensures |{a, b, c}| <= 3
  {
  }

  lemma IteFlagged(s0: State, s: State, l: Lit, d0: nat, d1: nat, d2: nat, d3: nat, b: Lit, c: Lit, e: Lit)
    requires IteGate(s0, l, d0, d1, d2, d3, b, c, e) && Live(s0.db, d0) && Live(s0.db, d1) && Live(s0.db, d2) && Live(s0.db, d3)
    requires SameButFlags(s0.db, s.db) && s.vals == s0.vals && GateFlags(s.db, [d0, d1, d2, d3]) && Clean(s.db)
    requires l != 0 && l !in s.vals && -l !in s.vals && forall y {:trigger y in s.vals} :: y in s.vals ==> y != 0 && -y !in s.vals
    ensures var gates := [d0, d1, d2, d3];
            GateDb(s, l, gates) && (forall k :: k in gates ==> k < |s.db|) && (Gated(s, l) <==> NoneSatisfied(s, gates))
  {
    IteFound(s, l, d0, d1, d2, d3, b, c, e);
  }

  // ----- If-then-else gates in terms of clauses.

  // The unassigned literals, in their order.
  function Open3(lits: seq<Lit>, vals: set<Lit>): seq<Lit> {
    if lits == [] then [] else
      var n := |lits| - 1;
      Open3(lits[..n], vals) + (if lits[n] !in vals && -lits[n] !in vals then [lits[n]] else [])
  }

  lemma {:induction false} Open3Unique(lits: seq<Lit>, vals: set<Lit>)
    requires NoDup(lits)
    ensures NoDup(Open3(lits, vals)) && LitsOf(Open3(lits, vals)) == Residue(lits, vals)
    decreases |lits|
  {
    if lits != [] {
      var n := |lits| - 1;
      var before := Open3(lits[..n], vals);
      Open3Unique(lits[..n], vals);
      assert lits == lits[..n] + [lits[n]] && lits[n] !in lits[..n];
      ResidueLast(lits[..n], lits[n], vals);
      LitsOfLast(before, lits[n]);
      assert lits[n] !in LitsOf(before);
    }
  }

  lemma Open3Last(lits: seq<Lit>, x: Lit, vals: set<Lit>)
    ensures Open3(lits + [x], vals) == Open3(lits, vals) + (if x !in vals && -x !in vals then [x] else [])
  {
    assert (lits + [x])[..|lits|] == lits;
  }

  lemma {:induction false} Open3Size(lits: seq<Lit>, vals: set<Lit>, i: nat)
    requires i <= |lits|
    ensures |Open3(lits[..i], vals)| <= |Open3(lits, vals)| && |Open3(lits[..i], vals)| <= i
    decreases |lits|
  {
    if i == |lits| {
      assert lits[..i] == lits;
      if i > 0 {
        Open3Size(lits[..i-1], vals, i - 1);
        assert lits[..i-1][..i-1] == lits[..i-1];
      }
    } else {
      var n := |lits| - 1;
      Open3Size(lits[..n], vals, i);
      assert lits[..n][..i] == lits[..i];
    }
  }

  lemma {:induction false} Open3Members(lits: seq<Lit>, vals: set<Lit>)
    ensures LitsOf(Open3(lits, vals)) == Residue(lits, vals)
    ensures NoDup(lits) ==> NoDup(Open3(lits, vals))
    decreases |lits|
  {
    if lits != [] {
      var n := |lits| - 1;
      Open3Members(lits[..n], vals);
      assert lits == lits[..n] + [lits[n]];
      ResidueLast(lits[..n], lits[n], vals);
      LitsOfLast(Open3(lits[..n], vals), lits[n]);
      if NoDup(lits) {
        assert lits[n] !in lits[..n] && lits[n] !in Residue(lits[..n], vals);
        assert forall y :: y in Open3(lits[..n], vals) ==> y in LitsOf(Open3(lits[..n], vals));
      }
    }
  }

  ghost predicate Ternary(s: State, d: nat) {
    Live(s.db, d) && |Open3(s.db[d].lits, s.vals)| == 3
  }

  // The two literals next to the pivot, in the order in which they are looked at.
  function PairOf(u: seq<Lit>, pivot: Lit): (Lit, Lit)
    requires |u| == 3
  {
    if u[1] == pivot then (u[0], u[2]) else if u[2] == pivot then (u[1], u[0]) else (u[1], u[2])
  }

  ghost predicate HasResidue(s: State, d: nat, r: Clause) {
    Live(s.db, d) && Residue(s.db[d].lits, s.vals) == r && |Residue(s.db[d].lits, s.vals)| == 3
  }

  // The first clause has the literals 'bi' and 'ci' in that order, the second one '-bi' and 'cj'.
  ghost predicate Matched(s: State, l: Lit, di: nat, dj: nat, bi: Lit, ci: Lit, cj: Lit) {
    && Ternary(s, di) && Ternary(s, dj) && (bi, ci) == PairOf(Open3(s.db[di].lits, s.vals), l)
    && (var p := PairOf(Open3(s.db[dj].lits, s.vals), l); (if Var(bi) == Var(p.1) then (p.1, p.0) else p) == (-bi, cj))
    && Var(ci) != Var(cj)
  }

  // Four clauses found as a gate.
  ghost predicate IteFrom(s: State, l: Lit, di: nat, dj: nat, d1: nat, d2: nat) {
    InPair(s, l, di, dj) && exists bi, ci, cj {:trigger Matched(s, l, di, dj, bi, ci, cj)} ::
      Matched(s, l, di, dj, bi, ci, cj) && HasResidue(s, d1, {-l, bi, -ci}) && HasResidue(s, d2, {-l, -bi, -cj})
  }

  lemma IteCompleted(s: State, l: Lit, di: nat, dj: nat, d1: nat, d2: nat, bi: Lit, ci: Lit, cj: Lit)
    requires Clean(s.db) && Matched(s, l, di, dj, bi, ci, cj)
    requires Live(s.db, di) && Residue(s.db[di].lits, s.vals) == {l, bi, ci} && bi != l && ci != l
    requires Live(s.db, dj) && Residue(s.db[dj].lits, s.vals) == {l, -bi, cj} && -bi != l && cj != l
    requires HasResidue(s, d1, {-l, bi, -ci}) && HasResidue(s, d2, {-l, -bi, -cj})
    ensures IteGate(s, l, di, dj, d1, d2, bi, ci, cj) && IteFrom(s, l, di, dj, d1, d2)
    ensures bi != 0 && ci != 0 && cj != 0 && Var(bi) != Var(l) && Var(ci) != Var(l) && Var(cj) != Var(l)
  {
    IteOther(s.db, s.vals, l, di, bi, ci);
    IteOther(s.db, s.vals, l, dj, -bi, cj);
  }

  ghost predicate InPair(s: State, l: Lit, di: nat, dj: nat) {
    di < |s.db| && dj < |s.db| && l in s.db[di].lits && l in s.db[dj].lits
  }

  ghost predicate NoIteOf(s: State, l: Lit, di: nat, dj: nat) {
    forall d1, d2 {:trigger IteFrom(s, l, di, dj, d1, d2)} :: !IteFrom(s, l, di, dj, d1, d2)
  }

  ghost predicate NoIteRow(s: State, l: Lit, os: seq<nat>, i: nat, n: nat)
    requires i < |os|
  {
    forall u {:trigger Look(u)} :: Look(u) ==> forall j {:trigger os[j]} :: i < j < n && j < |os| ==> NoIteOf(s, l, os[i], os[j])
  }

  ghost predicate NoIte(s: State, l: Lit, os: seq<nat>, n: nat) {
    forall u {:trigger Look(u)} :: Look(u) ==> forall i {:trigger os[i]} :: 0 <= i < n && i < |os| ==> NoIteRow(s, l, os, i, |os|)
  }

  lemma NoIteLast(s: State, l: Lit, os: seq<nat>, i: nat, j: nat)
    requires i < j < |os| && NoIteRow(s, l, os, i, j) && NoIteOf(s, l, os[i], os[j])
    ensures NoIteRow(s, l, os, i, j + 1)
  {
    assert Look(0);
  }

  lemma NoIteNext(s: State, l: Lit, os: seq<nat>, i: nat)
    requires i < |os| && NoIte(s, l, os, i) && NoIteRow(s, l, os, i, |os|)
    ensures NoIte(s, l, os, i + 1)
  {
    assert Look(0);
    var n := i + 1;
    forall k: nat | k < n && k < |os| ensures NoIteRow(s, l, os, k, |os|) {
    }
  }

  lemma NoItePair(s: State, l: Lit, os: seq<nat>, i: nat, j: nat)
    requires i < j < |os| && NoIte(s, l, os, |os|)
    ensures NoIteOf(s, l, os[i], os[j])
  {
    assert Look(0);
    assert NoIteRow(s, l, os, i, |os|);
  }

  // One of the other two clauses is missing.
  ghost predicate Incomplete(s: State, l: Lit, bi: Lit, ci: Lit, cj: Lit) {
    || (forall d: nat {:trigger HasResidue(s, d, {-l, bi, -ci})} :: !HasResidue(s, d, {-l, bi, -ci}))
    || (forall d: nat {:trigger HasResidue(s, d, {-l, -bi, -cj})} :: !HasResidue(s, d, {-l, -bi, -cj}))
  }

  lemma MatchedOnly(s: State, l: Lit, di: nat, dj: nat, bi: Lit, ci: Lit, cj: Lit)
    requires Matched(s, l, di, dj, bi, ci, cj) && Incomplete(s, l, bi, ci, cj)
    ensures NoIteOf(s, l, di, dj)
  {
  }

  lemma MatchedResidues(s: State, l: Lit, di: nat, dj: nat, bi: Lit, ci: Lit, cj: Lit)
    requires Matched(s, l, di, dj, bi, ci, cj) && Clean(s.db) && l in s.db[di].lits && l in s.db[dj].lits && l !in s.vals && -l !in s.vals
    ensures Residue(s.db[di].lits, s.vals) == {l, bi, ci} && bi != l && ci != l
    ensures Residue(s.db[dj].lits, s.vals) == {l, -bi, cj} && -bi != l && cj != l
  {
    ClauseDistinct(s.db, di);
    ClauseDistinct(s.db, dj);
    PairResidue(s.db[di].lits, s.vals, l);
    PairResidue(s.db[dj].lits, s.vals, l);
  }

  lemma PairResidue(lits: seq<Lit>, vals: set<Lit>, l: Lit)
    requires |Open3(lits, vals)| == 3 && NoDup(lits) && l in lits && l !in vals && -l !in vals
    ensures var p := PairOf(Open3(lits, vals), l); Residue(lits, vals) == {l, p.0, p.1} && p.0 != l && p.1 != l
  {
    Open3Members(lits, vals);
    var u := Open3(lits, vals);
    assert l in LitsOf(u);
    ThreeLits(u, l);
  }

  lemma ThreeLits(u: seq<Lit>, l: Lit)
    requires |u| == 3 && u[0] != u[1] && u[0] != u[2] && u[1] != u[2] && l in u
    ensures var p := PairOf(u, l); LitsOf(u) == {l, p.0, p.1} && p.0 != l && p.1 != l
  {
    assert u == [u[0], u[1], u[2]];
    assert forall x {:trigger x in u} :: x in u <==> x == u[0] || x == u[1] || x == u[2];
  }

  // The clauses found are flagged, and nothing else changes.
  ghost predicate FlaggedIte(s: State, l: Lit, gates: seq<nat>, s': State) {
    && |gates| == 4 && IteFrom(s, l, gates[0], gates[1], gates[2], gates[3])
    && SameButFlags(s.db, s'.db) && s'.vals == s.vals && s'.unsat == s.unsat
  }

  // The unassigned literals of the clause are those of 'r'.
  ghost predicate HasOpen(s: State, d: nat, r: Clause) {
    Live(s.db, d) && Residue(s.db[d].lits, s.vals) == r
  }

  ghost predicate Missing(s: State, r: Clause) {
    forall d: nat {:trigger HasOpen(s, d, r)} :: !HasOpen(s, d, r)
  }

  lemma NoneOpen(s: State, occs: Occs, inactive: set<nat>, eliminated: set<nat>, r: Clause, a: Lit)
    requires a in r && !s.unsat && forall j :: 0 <= j < |Occ(occs, a)| ==> !HasOpen(s, Occ(occs, a)[j], r)
    requires Connected(s.db, occs, inactive) && Valued(s.vals, inactive, eliminated) && Present(s.db, eliminated, false)
    ensures Missing(s, r)
  {
    forall k: nat ensures !HasOpen(s, k, r) {
      if HasOpen(s, k, r) {
        assert a in Residue(s.db[k].lits, s.vals);
        ActiveComplete(s.db, occs, s.vals, inactive, eliminated, k, a);
      }
    }
  }

  lemma ResidueSmall(lits: seq<Lit>, vals: set<Lit>)
    ensures |Residue(lits, vals)| <= |lits|
  {
    LitsSize(lits);
    SubsetSize(Residue(lits, vals), LitsOf(lits));
  }

  // There is no clause for the 't'-th even sign pattern.
  ghost predicate MissingAt(s: State, lits: seq<Lit>, t: nat) {
    Missing(s, LitsOf(Flip(lits, Bits(NthEven(t), |lits|))))
  }

  ghost predicate PatternMissing(s: State, lits: seq<Lit>)
    requires lits != []
  {
    exists t: nat {:trigger MissingAt(s, lits, t)} :: t < Pow2(|lits| - 1) && MissingAt(s, lits, t)
  }

  // The clause is garbage, too short or too long, or a pattern of its unassigned literals is missing.
  ghost predicate NoXorAt(s: State, d: nat, arityLimit: nat) {
    Live(s.db, d) ==>
      var lits := Open3(s.db[d].lits, s.vals);
      |lits| < 3 || |lits| - 1 > arityLimit || PatternMissing(s, lits)
  }

  ghost predicate NoXor(s: State, l: Lit, arityLimit: nat) {
    forall d: nat {:trigger Live(s.db, d)} :: Live(s.db, d) && l in s.db[d].lits ==> NoXorAt(s, d, arityLimit)
  }

  lemma NoXorIntro(s: State, occs: Occs, inactive: set<nat>, eliminated: set<nat>, l: Lit, arityLimit: nat)
    requires !s.unsat && l !in s.vals && -l !in s.vals
    requires forall j {:trigger Occ(occs, l)[j]} :: 0 <= j < |Occ(occs, l)| ==> NoXorAt(s, Occ(occs, l)[j], arityLimit)
    requires Connected(s.db, occs, inactive) && Valued(s.vals, inactive, eliminated) && Present(s.db, eliminated, false)
    ensures NoXor(s, l, arityLimit)
  {
    forall d: nat | Live(s.db, d) && l in s.db[d].lits ensures NoXorAt(s, d, arityLimit) {
      ActiveComplete(s.db, occs, s.vals, inactive, eliminated, d, l);
      var j :| 0 <= j < |Occ(occs, l)| && Occ(occs, l)[j] == d;
    }
  }

  lemma ResidueListed(s: State, occs: Occs, inactive: set<nat>, eliminated: set<nat>, k: nat, r: Clause, a: Lit)
    requires HasResidue(s, k, r) && a in r && !s.unsat
    requires Connected(s.db, occs, inactive) && Valued(s.vals, inactive, eliminated) && Present(s.db, eliminated, false)
    ensures k in Occ(occs, a)
  {
    assert a in Residue(s.db[k].lits, s.vals);
    ActiveComplete(s.db, occs, s.vals, inactive, eliminated, k, a);
  }

  lemma NotListed(s: State, occs: Occs, inactive: set<nat>, eliminated: set<nat>, r: Clause, a: Lit)
    requires a in r && !s.unsat && forall j :: 0 <= j < |Occ(occs, a)| ==> !HasResidue(s, Occ(occs, a)[j], r)
    requires Connected(s.db, occs, inactive) && Valued(s.vals, inactive, eliminated) && Present(s.db, eliminated, false)
    ensures forall k: nat {:trigger HasResidue(s, k, r)} :: !HasResidue(s, k, r)
  {
    forall k: nat ensures !HasResidue(s, k, r) {
      if HasResidue(s, k, r) {
        ResidueListed(s, occs, inactive, eliminated, k, r, a);
      }
    }
  }

  lemma ShortClause(lits: seq<Lit>, vals: set<Lit>)
    ensures |Open3(lits, vals)| <= |lits|
  {
    assert lits[..|lits|] == lits;
    Open3Size(lits, vals, |lits|);
  }

  ghost predicate ReadSome(lits: seq<Lit>, i: nat, vals: set<Lit>, a: Lit, b: Lit, c: Lit, n: nat) {
    forall u {:trigger Look(u)} :: Look(u) ==> i <= |lits| && IsPrefix(Open3(lits[..i], vals), a, b, c, n)
  }

  lemma ReadStep(lits: seq<Lit>, i: nat, vals: set<Lit>, a: Lit, b: Lit, c: Lit, n: nat)
    requires i < |lits| && n <= 3 && ReadSome(lits, i, vals, a, b, c, n)
    ensures var x := lits[i];
            if x in vals || -x in vals then ReadSome(lits, i + 1, vals, a, b, c, n)
            else if n == 3 then |Open3(lits, vals)| > 3
            else ReadSome(lits, i + 1, vals, if n == 0 then x else a, if n == 1 then x else b, if n == 2 then x else c, n + 1)
  {
    assert Look(0);
    assert lits[..i+1] == lits[..i] + [lits[i]];
    Open3Last(lits[..i], lits[i], vals);
    Open3Size(lits, vals, i + 1);
  }

  lemma ReadEnd(lits: seq<Lit>, vals: set<Lit>, a: Lit, b: Lit, c: Lit, n: nat)
    requires n <= 3 && ReadSome(lits, |lits|, vals, a, b, c, n)
    ensures |Open3(lits, vals)| == n && (n == 3 ==> Open3(lits, vals) == [a, b, c])
  {
    assert Look(0);
    assert lits[..|lits|] == lits;
  }

  predicate IsPrefix(u: seq<Lit>, a: Lit, b: Lit, c: Lit, n: nat) {
    |u| == n <= 3 && (n >= 1 ==> u[0] == a) && (n >= 2 ==> u[1] == b) && (n == 3 ==> u[2] == c)
  }

  // ----- Counting unassigned literals.

  ghost predicate CountedSome(lits: seq<Lit>, i: nat, vals: set<Lit>, all: Clause, found: nat) {
    forall u {:trigger Look(u)} :: Look(u) ==>
      i <= |lits| && Residue(lits[..i], vals) <= all && found == |Residue(lits[..i], vals)|
  }

  lemma CountStart(lits: seq<Lit>, vals: set<Lit>, all: Clause)
    ensures CountedSome(lits, 0, vals, all, 0)
  {
    assert Residue([], vals) == {};
  }

  lemma CountStep(lits: seq<Lit>, i: nat, vals: set<Lit>, all: Clause, found: nat)
    requires NoDup(lits) && i < |lits| && CountedSome(lits, i, vals, all, found)
    ensures if lits[i] in vals || -lits[i] in vals then CountedSome(lits, i + 1, vals, all, found)
            else if lits[i] in all then CountedSome(lits, i + 1, vals, all, found + 1)
            else !(Residue(lits, vals) <= all)
  {
    assert Look(0);
    assert lits[..i+1] == lits[..i] + [lits[i]] && lits[i] !in lits[..i] && lits[i] in lits;
    ResidueLast(lits[..i], lits[i], vals);
    assert lits[i] !in vals && -lits[i] !in vals ==> lits[i] in Residue(lits, vals);
  }

  lemma CountEnd(lits: seq<Lit>, vals: set<Lit>, all: Clause, found: nat)
    requires CountedSome(lits, |lits|, vals, all, found)
    ensures found == |Residue(lits, vals)| && (|all| <= found ==> Residue(lits, vals) == all)
  {
    assert Look(0);
    assert lits[..|lits|] == lits;
    if |all| <= found {
      SupersetSize(Residue(lits, vals), all);
    }
  }

  lemma CountLess(lits: seq<Lit>, i: nat, vals: set<Lit>, all: Clause, found: nat)
    requires i <= |lits| && CountedSome(lits, i, vals, all, found)
    ensures found <= |Residue(lits, vals)|
  {
    assert Look(0);
    SubsetSize(Residue(lits[..i], vals), Residue(lits, vals));
  }

  // The other literals of a ternary clause with the pivot have other variables.
  lemma IteOther(db: Db, vals: set<Lit>, l: Lit, d: nat, b: Lit, c: Lit)
    requires Clean(db) && d < |db| && Residue(db[d].lits, vals) == {l, b, c} && b != l && c != l
    ensures b != 0 && c != 0 && Var(b) != Var(l) && Var(c) != Var(l)
  {
    ClauseDistinct(db, d);
    var lits := db[d].lits;
    assert l in Residue(lits, vals) && b in Residue(lits, vals) && c in Residue(lits, vals);
    assert l in lits && b in lits && c in lits;
    assert -l !in lits;
  }

  lemma IteFound(s: State, l: Lit, d0: nat, d1: nat, d2: nat, d3: nat, b: Lit, c: Lit, e: Lit)
    requires GateFlags(s.db, [d0, d1, d2, d3]) && IteGate(s, l, d0, d1, d2, d3, b, c, e) && Clean(s.db)
    requires Live(s.db, d0) && Live(s.db, d1) && Live(s.db, d2) && Live(s.db, d3) && l != 0 && l !in s.vals && -l !in s.vals
    requires forall y {:trigger y in s.vals} :: y in s.vals ==> y != 0 && -y !in s.vals
    ensures var gates := [d0, d1, d2, d3];
            GateDb(s, l, gates) && (forall k :: k in gates ==> k < |s.db|) && (Gated(s, l) <==> NoneSatisfied(s, gates))
  {
    var gates := [d0, d1, d2, d3];
    ClauseDistinct(s.db, d0);
    ClauseDistinct(s.db, d1);
    ClauseDistinct(s.db, d2);
    ClauseDistinct(s.db, d3);
    assert forall k :: k in gates <==> k == d0 || k == d1 || k == d2 || k == d3;
    assert forall k: nat :: GateClause(s.db, k) <==> k in gates;
    assert l in Residue(s.db[d0].lits, s.vals) && l in Residue(s.db[d1].lits, s.vals);
    assert -l in Residue(s.db[d2].lits, s.vals) && -l in Residue(s.db[d3].lits, s.vals);
    IteGated(s, l, d0, d1, d2, d3, b, c, e);
  }

  // ----- XOR gates.

  // Live clauses with the first patterns of even parity.
  ghost predicate Patterns(s: State, g: seq<nat>, orig: seq<Lit>) {
    forall t {:trigger PatternAt(s, g, orig, t)} :: 0 <= t < |g| ==> PatternAt(s, g, orig, t) && Live(s.db, g[t])
  }

  lemma FirstPattern(s: State, d: nat, lits: seq<Lit>)
    requires Live(s.db, d) && LitsOf(lits) == Residue(s.db[d].lits, s.vals)
    ensures Patterns(s, [d], lits) && lits == Flip(lits, Bits(0, |lits|))
  {
    ZeroBits(|lits|);
    assert Flip(lits, Bits(0, |lits|)) == lits;
  }

  lemma {:induction false} ZeroBits(size: nat)
    ensures forall j :: 0 <= j < size ==> !Bits(0, size)[j]
    decreases size
  {
    if size > 0 {
      ZeroBits(size - 1);
    }
  }

  lemma NextPattern(s: State, g: seq<nat>, lits: seq<Lit>, c: nat)
    requires Live(s.db, c) && Residue(s.db[c].lits, s.vals) == LitsOf(Flip(lits, Bits(NthEven(|g|), |lits|)))
    requires Patterns(s, g, lits)
    ensures Patterns(s, g + [c], lits)
  {
    forall t | 0 <= t < |g| + 1 ensures PatternAt(s, g + [c], lits, t) && Live(s.db, (g + [c])[t]) {
      if t < |g| {
        assert PatternAt(s, g, lits, t) && (g + [c])[t] == g[t];
      }
    }
  }

  lemma FlipNoDup(orig: seq<Lit>, bs: seq<bool>)
    requires |bs| == |orig| && DistinctVars(orig)
    ensures NoDup(Flip(orig, bs))
  {
  }

  lemma XorVariables(all: seq<Lit>, vals: set<Lit>, lits: seq<Lit>)
    requires WA.Distinct(all) && NoDup(lits) && LitsOf(lits) == Residue(all, vals)
    ensures DistinctVars(lits) && 0 !in lits
  {
    assert forall j :: 0 <= j < |lits| ==> lits[j] in LitsOf(lits);
    forall i, j | 0 <= i < j < |lits| ensures Var(lits[i]) != Var(lits[j]) {
      assert lits[i] in all && lits[j] in all && lits[i] != lits[j];
      assert -lits[i] !in all;
    }
  }

  lemma AllLive(s: State, g: seq<nat>, lits: seq<Lit>)
    requires Patterns(s, g, lits)
    ensures forall k :: k in g ==> Live(s.db, k)
  {
    forall k | k in g ensures Live(s.db, k) {
      var t :| 0 <= t < |g| && g[t] == k;
      assert PatternAt(s, g, lits, t);
    }
  }

  lemma XorFound(s0: State, s: State, l: Lit, g: seq<nat>, gates: seq<nat>, lits: seq<Lit>, p: nat)
    requires GateFlags(s.db, gates) && SameButFlags(s0.db, s.db) && s.vals == s0.vals && Clean(s.db)
    requires l != 0 && l !in s.vals && -l !in s.vals && forall y {:trigger y in s.vals} :: y in s.vals ==> y != 0 && -y !in s.vals
    requires p < |lits| && lits[p] == l && |g| == Pow2(|lits| - 1) && DistinctVars(lits) && 0 !in lits
    requires Patterns(s0, g, lits) && (forall k :: k in g ==> Live(s0.db, k)) && (forall k :: k in gates <==> k in g)
    ensures GateDb(s, l, gates) && (forall k :: k in gates ==> k < |s.db|) && (Gated(s, l) <==> NoneSatisfied(s, gates))
  {
    forall t | 0 <= t < |g| ensures PatternAt(s, g, lits, t) {
      assert PatternAt(s0, g, lits, t);
    }
    assert XorGate(s, g, lits, p);
    forall k | k in g ensures Live(s.db, k) && !Free(s.db[k].lits, l) && WA.Distinct(s.db[k].lits) {
      ClauseDistinct(s.db, k);
      var t := XorIndex(s, g, lits, p, k);
      assert Flip(lits, Bits(NthEven(t), |lits|))[p] in LitsOf(Flip(lits, Bits(NthEven(t), |lits|)));
    }
    assert forall k: nat :: GateClause(s.db, k) <==> k in gates;
    assert GateDb(s, l, g) && GateDb(s, l, gates);
    XorGated(s, l, g, lits, p);
  }

  // A gate for the negated pivot is a gate for the pivot.
  lemma FoundFlip(s: State, l: Lit, gates: seq<nat>)
    requires GateDb(s, -l, gates) && (forall k :: k in gates ==> k < |s.db|)
    requires Gated(s, -l) <==> NoneSatisfied(s, gates)
    ensures GateDb(s, l, gates) && (Gated(s, l) <==> NoneSatisfied(s, gates))
  {
    assert -(-l) == l;
    var n := -l;
    assert -n == l;
    assert Gated(s, l) <==> Gated(s, n);
  }
}
