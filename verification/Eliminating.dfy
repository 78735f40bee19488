// Why the clauses of a pivot can be removed once all resolvents are there.
module Eliminating {
  import opened Cnf
  import opened Resolving
  import EX = Extension
  import RE = Reconstruction
  import PE = PivotElimination

  // ----- All pairs of clauses are resolved.

  ghost predicate PairDone(s: State, c: nat, l: Lit, d: nat, substitute: bool) {
    c < |s.db| && d < |s.db| && ((substitute && s.db[c].gate == s.db[d].gate) || Resolved(s, c, l, d))
  }

  ghost predicate RowDone(s: State, c: nat, l: Lit, ds: seq<nat>, n: nat, substitute: bool) {
    forall u {:trigger Look(u)} :: Look(u) ==>
      n <= |ds| && forall j {:trigger ds[j]} :: 0 <= j < n ==> PairDone(s, c, l, ds[j], substitute)
  }

  ghost predicate AllDone(s: State, cs: seq<nat>, l: Lit, ds: seq<nat>, n: nat, substitute: bool) {
    forall u {:trigger Look(u)} :: Look(u) ==>
      n <= |cs| && forall i {:trigger cs[i]} :: 0 <= i < n ==> RowDone(s, cs[i], l, ds, |ds|, substitute)
  }

  lemma PairKept(s: State, s': State, c: nat, l: Lit, d: nat, substitute: bool)
    requires PairDone(s, c, l, d, substitute) && Kept(s, s', l)
    ensures PairDone(s', c, l, d, substitute)
  {
    KeptClause(s, s', l, c);
    KeptClause(s, s', l, d);
    if Resolved(s, c, l, d) {
      ResolvedKept(s, s', c, l, d);
    }
  }

  lemma RowKept(s: State, s': State, c: nat, l: Lit, ds: seq<nat>, n: nat, substitute: bool)
    requires RowDone(s, c, l, ds, n, substitute) && Kept(s, s', l)
    ensures RowDone(s', c, l, ds, n, substitute)
  {
    assert Look(0);
    forall j | 0 <= j < n ensures PairDone(s', c, l, ds[j], substitute) {
      PairKept(s, s', c, l, ds[j], substitute);
    }
  }

  lemma RowStart(s: State, c: nat, l: Lit, ds: seq<nat>, substitute: bool)
    ensures RowDone(s, c, l, ds, 0, substitute)
  {
  }

  lemma RowNext(s: State, c: nat, l: Lit, ds: seq<nat>, n: nat, substitute: bool)
    requires RowDone(s, c, l, ds, n, substitute) && n < |ds| && PairDone(s, c, l, ds[n], substitute)
    ensures RowDone(s, c, l, ds, n + 1, substitute)
  {
    assert Look(0);
  }

  lemma RowGarbage(s: State, c: nat, l: Lit, ds: seq<nat>, substitute: bool)
    requires c < |s.db| && s.db[c].garbage && forall d :: d in ds ==> d < |s.db|
    ensures RowDone(s, c, l, ds, |ds|, substitute)
  {
    forall j | 0 <= j < |ds| ensures PairDone(s, c, l, ds[j], substitute) {
      assert ds[j] in ds;
    }
  }

  lemma AllKept(s: State, s': State, cs: seq<nat>, l: Lit, ds: seq<nat>, n: nat, substitute: bool)
    requires AllDone(s, cs, l, ds, n, substitute) && Kept(s, s', l)
    ensures AllDone(s', cs, l, ds, n, substitute)
  {
    assert Look(0);
    forall i | 0 <= i < n ensures RowDone(s', cs[i], l, ds, |ds|, substitute) {
      RowKept(s, s', cs[i], l, ds, |ds|, substitute);
    }
  }

  lemma AllStart(s: State, cs: seq<nat>, l: Lit, ds: seq<nat>, substitute: bool)
    ensures AllDone(s, cs, l, ds, 0, substitute)
  {
  }

  lemma AllNext(s: State, cs: seq<nat>, l: Lit, ds: seq<nat>, n: nat, substitute: bool)
    requires AllDone(s, cs, l, ds, n, substitute) && n < |cs| && RowDone(s, cs[n], l, ds, |ds|, substitute)
    ensures AllDone(s, cs, l, ds, n + 1, substitute)
  {
    assert Look(0);
  }

  lemma DonePair(s: State, cs: seq<nat>, l: Lit, ds: seq<nat>, substitute: bool, c: nat, d: nat)
    requires AllDone(s, cs, l, ds, |cs|, substitute) && c in cs && d in ds
    ensures PairDone(s, c, l, d, substitute)
  {
    assert Look(0);
    var i :| 0 <= i < |cs| && cs[i] == c;
    assert RowDone(s, cs[i], l, ds, |ds|, substitute);
    var j :| 0 <= j < |ds| && ds[j] == d;
    assert PairDone(s, c, l, ds[j], substitute);
  }

  // ----- All but some pairs are resolved.

  type Pending = set<(nat, nat)>

  ghost predicate PairLeft(s: State, c: nat, l: Lit, d: nat, substitute: bool, pending: Pending) {
    (c, d) in pending || PairDone(s, c, l, d, substitute)
  }

  ghost predicate RowLeft(s: State, c: nat, l: Lit, ds: seq<nat>, n: nat, substitute: bool, pending: Pending) {
    forall u {:trigger Look(u)} :: Look(u) ==>
      n <= |ds| && forall j {:trigger ds[j]} :: 0 <= j < n ==> PairLeft(s, c, l, ds[j], substitute, pending)
  }

  ghost predicate AllLeft(s: State, cs: seq<nat>, l: Lit, ds: seq<nat>, n: nat, substitute: bool, pending: Pending) {
    forall u {:trigger Look(u)} :: Look(u) ==>
      n <= |cs| && forall i {:trigger cs[i]} :: 0 <= i < n ==> RowLeft(s, cs[i], l, ds, |ds|, substitute, pending)
  }

  lemma RowLeftKept(s: State, s': State, c: nat, l: Lit, ds: seq<nat>, n: nat, substitute: bool, pending: Pending, pending': Pending)
    requires RowLeft(s, c, l, ds, n, substitute, pending) && Kept(s, s', l) && pending <= pending'
    ensures RowLeft(s', c, l, ds, n, substitute, pending')
  {
    assert Look(0);
    forall j | 0 <= j < n ensures PairLeft(s', c, l, ds[j], substitute, pending') {
      if (c, ds[j]) !in pending {
        PairKept(s, s', c, l, ds[j], substitute);
      }
    }
  }

  lemma RowLeftNext(s: State, c: nat, l: Lit, ds: seq<nat>, n: nat, substitute: bool, pending: Pending)
    requires RowLeft(s, c, l, ds, n, substitute, pending) && n < |ds| && PairLeft(s, c, l, ds[n], substitute, pending)
    ensures RowLeft(s, c, l, ds, n + 1, substitute, pending)
  {
    assert Look(0);
  }

  lemma RowLeftDone(s: State, c: nat, l: Lit, ds: seq<nat>, n: nat, substitute: bool, pending: Pending)
    requires RowDone(s, c, l, ds, n, substitute)
    ensures RowLeft(s, c, l, ds, n, substitute, pending)
  {
    assert Look(0);
  }

  lemma AllLeftKept(s: State, s': State, cs: seq<nat>, l: Lit, ds: seq<nat>, n: nat, substitute: bool, pending: Pending, pending': Pending)
    requires AllLeft(s, cs, l, ds, n, substitute, pending) && Kept(s, s', l) && pending <= pending'
    ensures AllLeft(s', cs, l, ds, n, substitute, pending')
  {
    assert Look(0);
    forall i | 0 <= i < n ensures RowLeft(s', cs[i], l, ds, |ds|, substitute, pending') {
      RowLeftKept(s, s', cs[i], l, ds, |ds|, substitute, pending, pending');
    }
  }

  lemma AllLeftNext(s: State, cs: seq<nat>, l: Lit, ds: seq<nat>, n: nat, substitute: bool, pending: Pending)
    requires AllLeft(s, cs, l, ds, n, substitute, pending) && n < |cs| && RowLeft(s, cs[n], l, ds, |ds|, substitute, pending)
    ensures AllLeft(s, cs, l, ds, n + 1, substitute, pending)
  {
    assert Look(0);
  }

  lemma NothingLeft(s: State, cs: seq<nat>, l: Lit, ds: seq<nat>, substitute: bool)
    ensures AllLeft(s, cs, l, ds, 0, substitute, {}) && (cs == [] || ds == [] ==> AllLeft(s, cs, l, ds, |cs|, substitute, {}))
  {
    if ds == [] {
      forall i | 0 <= i < |cs| ensures RowLeft(s, cs[i], l, ds, |ds|, substitute, {}) {
      }
    }
  }

  lemma PendingMore(pending: Pending, c: nat, d: nat)
    ensures |pending + {(c, d)}| <= |pending| + 1 && pending <= pending + {(c, d)}
  {
  }

  // ----- The clauses pushed.

  datatype Which = Every | Gates | Others

  predicate Chosen(c: EClause, w: Which) {
    !c.garbage && match w { case Every => true case Gates => c.gate case Others => !c.gate }
  }

  predicate Inside(db: Db, list: seq<nat>) {
    forall i :: 0 <= i < |list| ==> list[i] < |db|
  }

  function Select(db: Db, list: seq<nat>, w: Which): seq<PE.Stored>
    requires Inside(db, list)
  {
    if list == [] then [] else
      var n := |list| - 1;
      var c := db[list[n]];
      if Chosen(c, w) then Select(db, list[..n], w) + [PE.Stored(c.lits, c.id)] else Select(db, list[..n], w)
  }

  ghost predicate From(db: Db, list: seq<nat>, w: Which, c: PE.Stored, k: nat) {
    k in list && k < |db| && Chosen(db[k], w) && c == PE.Stored(db[k].lits, db[k].id)
  }

  lemma {:induction false} SelectFrom(db: Db, list: seq<nat>, w: Which, c: PE.Stored) returns (k: nat)
    requires Inside(db, list) && c in Select(db, list, w)
    ensures From(db, list, w, c, k)
    decreases |list|
  {
    var n := |list| - 1;
    if c in Select(db, list[..n], w) {
      k := SelectFrom(db, list[..n], w, c);
    } else {
      k := list[n];
    }
  }

  lemma {:induction false} SelectAll(db: Db, list: seq<nat>, w: Which, k: nat)
    requires Inside(db, list) && k in list && Chosen(db[k], w)
    ensures PE.Stored(db[k].lits, db[k].id) in Select(db, list, w)
    ensures LitsOf(db[k].lits) in PE.FormulaOf(Select(db, list, w))
    decreases |list|
  {
    var n := |list| - 1;
    assert list == list[..n] + [list[n]];
    if k in list[..n] {
      SelectAll(db, list[..n], w, k);
    }
    var cs := Select(db, list, w);
    assert PE.Stored(db[k].lits, db[k].id) in cs;
    var i :| 0 <= i < |cs| && cs[i] == PE.Stored(db[k].lits, db[k].id);
    assert LitsOf(cs[i].lits) in PE.FormulaOf(cs);
  }

  lemma FormulaFrom(db: Db, list: seq<nat>, w: Which, d: Clause) returns (k: nat)
    requires Inside(db, list) && d in PE.FormulaOf(Select(db, list, w))
    ensures k in list && k < |db| && Chosen(db[k], w) && d == LitsOf(db[k].lits)
  {
    var cs := Select(db, list, w);
    var i :| 0 <= i < |cs| && d == LitsOf(cs[i].lits);
    k := SelectFrom(db, list, w, cs[i]);
  }

  // The list has exactly the live clauses with the literal.
  ghost predicate Lists(db: Db, list: seq<nat>, l: Lit) {
    && Inside(db, list)
    && (forall k :: k in list ==> k < |db| && l in db[k].lits)
    && (forall k: nat {:trigger k in list} :: Live(db, k) && l in db[k].lits ==> k in list)
  }

  ghost predicate Sides(db: Db, ps: seq<nat>, ns: seq<nat>, l: Lit) {
    && l != 0 && Lists(db, ps, l) && Lists(db, ns, -l)
    && (forall k :: k in ps || k in ns ==> 0 !in db[k].lits && !(l in db[k].lits && -l in db[k].lits))
  }

  lemma SelectOccurs(db: Db, ps: seq<nat>, ns: seq<nat>, l: Lit, w: Which)
    requires Sides(db, ps, ns, l)
    ensures PE.Occurs(Select(db, ps, w), l) && PE.Occurs(Select(db, ns, w), -l)
  {
    assert -(-l) == l;
    forall c | c in Select(db, ps, w) ensures l in c.lits && -l !in c.lits && 0 !in c.lits {
      var k := SelectFrom(db, ps, w, c);
    }
    forall c | c in Select(db, ns, w) ensures -l in c.lits && -(-l) !in c.lits && 0 !in c.lits {
      var k := SelectFrom(db, ns, w, c);
    }
  }

  lemma BasePivotFree(s: State, l: Lit)
    requires l !in s.vals && -l !in s.vals
    ensures PE.PivotFree(Base(s, l), l)
  {
  }

  // What is left is the part without the pivot.
  lemma MeaningSplit(s: State, ps: seq<nat>, ns: seq<nat>, l: Lit)
    requires Sides(s.db, ps, ns, l)
    ensures Meaning(s) == Base(s, l) + PE.FormulaOf(Select(s.db, ns, Every)) + PE.FormulaOf(Select(s.db, ps, Every))
  {
    var f := Base(s, l) + PE.FormulaOf(Select(s.db, ns, Every)) + PE.FormulaOf(Select(s.db, ps, Every));
    BaseInMeaning(s, l);
    forall d | d in Meaning(s) ensures d in f {
      if k: nat :| Live(s.db, k) && d == LitsOf(s.db[k].lits) {
        if l in s.db[k].lits {
          SelectAll(s.db, ps, Every, k);
        } else if -l in s.db[k].lits {
          SelectAll(s.db, ns, Every, k);
        } else {
          LiveIn(s, l, k);
        }
      }
    }
    forall d | d in f ensures d in Meaning(s) {
      if d !in Base(s, l) {
        var k;
        if d in PE.FormulaOf(Select(s.db, ns, Every)) {
          k := FormulaFrom(s.db, ns, Every, d);
        } else {
          k := FormulaFrom(s.db, ps, Every, d);
        }
        LiveIn(s, l, k);
      }
    }
  }

  lemma GatesSplit(db: Db, list: seq<nat>)
    requires Inside(db, list)
    ensures PE.FormulaOf(Select(db, list, Every)) == PE.FormulaOf(Select(db, list, Gates)) + PE.FormulaOf(Select(db, list, Others))
  {
    forall d ensures d in PE.FormulaOf(Select(db, list, Every)) ==>
                     d in PE.FormulaOf(Select(db, list, Gates)) + PE.FormulaOf(Select(db, list, Others)) {
      if d in PE.FormulaOf(Select(db, list, Every)) {
        var k := FormulaFrom(db, list, Every, d);
        SelectAll(db, list, if db[k].gate then Gates else Others, k);
      }
    }
    forall d ensures d in PE.FormulaOf(Select(db, list, Gates)) + PE.FormulaOf(Select(db, list, Others)) ==>
                     d in PE.FormulaOf(Select(db, list, Every)) {
      if d in PE.FormulaOf(Select(db, list, Gates)) {
        var k := FormulaFrom(db, list, Gates, d);
        SelectAll(db, list, Every, k);
      } else if d in PE.FormulaOf(Select(db, list, Others)) {
        var k := FormulaFrom(db, list, Others, d);
        SelectAll(db, list, Every, k);
      }
    }
  }

  lemma SelectResolved(s: State, ps: seq<nat>, ns: seq<nat>, l: Lit, substitute: bool, w: Which, v: Which)
    requires Sides(s.db, ps, ns, l) && AllDone(s, ps, l, ns, |ps|, substitute) && !s.unsat
    requires substitute ==> (w == Gates && v == Others) || (w == Others && v == Gates)
    ensures PE.AllResolventsEntailed(Base(s, l), Select(s.db, ps, w), PE.FormulaOf(Select(s.db, ns, v)), l)
  {
    forall c, d | c in Select(s.db, ps, w) && d in PE.FormulaOf(Select(s.db, ns, v)) && -l in d
      ensures Entails(Base(s, l), RE.Resolvent(LitsOf(c.lits), l, d))
    {
      var i := SelectFrom(s.db, ps, w, c);
      var j := FormulaFrom(s.db, ns, v, d);
      DonePair(s, ps, l, ns, substitute, i, j);
    }
  }

  // Elimination by resolution.
  lemma ResolutionReconstructs(s: State, ps: seq<nat>, ns: seq<nat>, l: Lit)
    requires Sides(s.db, ps, ns, l) && AllDone(s, ps, l, ns, |ps|, false) && !s.unsat && l !in s.vals && -l !in s.vals
    ensures RE.Reconstructs(Base(s, l), PE.Push(Select(s.db, ps, Every), l) + PE.Push(Select(s.db, ns, Every), -l), Meaning(s))
  {
    BasePivotFree(s, l);
    SelectOccurs(s.db, ps, ns, l, Every);
    SelectResolved(s, ps, ns, l, false, Every, Every);
    MeaningSplit(s, ps, ns, l);
    PE.EliminationReconstructs(Base(s, l), Select(s.db, ps, Every), Select(s.db, ns, Every), l);
  }

  // ----- Gates.

  ghost predicate GateClause(db: Db, k: nat) {
    Live(db, k) && db[k].gate
  }

  ghost function GateFormula(db: Db): Formula {
    iset k: nat | GateClause(db, k) :: LitsOf(db[k].lits)
  }

  // Under the fixed literals the gate clauses define the pivot.
  ghost predicate Gated(s: State, l: Lit) {
    && PE.Defines(Units(s.vals, false), GateFormula(s.db), l)
    && forall k: nat {:trigger GateClause(s.db, k)} :: GateClause(s.db, k) ==> !Free(s.db[k].lits, l)
  }

  lemma PivotFreeModel(m: Model, g: Formula, l: Lit, x: Lit)
    requires Models(m, g) && PE.PivotFree(g, l) && (x == l || x == -l)
    ensures Models(Assign(m, x), g)
  {
    forall d | d in g ensures Sat(Assign(m, x), d) {
      assert Sat(m, d);
      var y :| y in d && Holds(m, y);
      assert y != l && y != -l && Var(y) != Var(x);
    }
  }

  // Gate clauses removed meanwhile do not matter.
  lemma GatesKept(s: State, s': State, l: Lit, m: Model, x: Lit)
    requires Kept(s, s', l) && Models(m, Base(s', l)) && l !in s'.vals && -l !in s'.vals && (x == l || x == -l)
    requires forall k: nat {:trigger GateClause(s.db, k)} :: GateClause(s.db, k) ==> !Free(s.db[k].lits, l)
    ensures Models(Assign(m, x), GateFormula(s.db)) <==> Models(Assign(m, x), GateFormula(s'.db))
  {
    KeptParts(s, s', l);
    BasePivotFree(s', l);
    PivotFreeModel(m, Base(s', l), l, x);
    forall d | d in GateFormula(s'.db) ensures d in GateFormula(s.db) {
      var k: nat :| GateClause(s'.db, k) && d == LitsOf(s'.db[k].lits);
      if k >= |s.db| {
        KeptNew(s, s', l, k);
      } else {
        KeptClause(s, s', l, k);
        assert GateClause(s.db, k);
      }
    }
    forall d | d in GateFormula(s.db) ensures d in GateFormula(s'.db) || Sat(Assign(m, x), d) {
      var k: nat :| GateClause(s.db, k) && d == LitsOf(s.db[k].lits);
      KeptClause(s, s', l, k);
      if s'.db[k].garbage {
        assert Entails(Base(s', l), d);
      } else {
        assert GateClause(s'.db, k);
      }
    }
  }

  lemma GatedKept(s: State, s': State, l: Lit)
    requires Kept(s, s', l) && Gated(s, l) && l !in s'.vals && -l !in s'.vals
    ensures PE.Defines(Base(s', l), GateFormula(s'.db), l)
  {
    KeptParts(s, s', l);
    forall m: Model | Models(m, Base(s', l))
      ensures Models(Assign(m, l), GateFormula(s'.db)) <==> !Models(Assign(m, -l), GateFormula(s'.db)) {
      assert Units(s.vals, false) <= Base(s', l);
      assert Models(m, Units(s.vals, false));
      GatesKept(s, s', l, m, l);
      GatesKept(s, s', l, m, -l);
    }
  }

  lemma GateFormulaSides(s: State, ps: seq<nat>, ns: seq<nat>, l: Lit)
    requires Sides(s.db, ps, ns, l)
    requires forall k: nat {:trigger GateClause(s.db, k)} :: GateClause(s.db, k) ==> !Free(s.db[k].lits, l)
    ensures GateFormula(s.db) == PE.FormulaOf(Select(s.db, ps, Gates)) + PE.FormulaOf(Select(s.db, ns, Gates))
  {
    var f := PE.FormulaOf(Select(s.db, ps, Gates)) + PE.FormulaOf(Select(s.db, ns, Gates));
    forall d | d in GateFormula(s.db) ensures d in f {
      var k: nat :| GateClause(s.db, k) && d == LitsOf(s.db[k].lits);
      if l in s.db[k].lits {
        SelectAll(s.db, ps, Gates, k);
      } else {
        SelectAll(s.db, ns, Gates, k);
      }
    }
    forall d | d in f ensures d in GateFormula(s.db) {
      var k;
      if d in PE.FormulaOf(Select(s.db, ps, Gates)) {
        k := FormulaFrom(s.db, ps, Gates, d);
      } else {
        k := FormulaFrom(s.db, ns, Gates, d);
      }
      assert GateClause(s.db, k);
    }
  }

  // Elimination of a defined pivot: only the gate clauses are pushed.
  lemma GateReconstructs(s: State, ps: seq<nat>, ns: seq<nat>, l: Lit)
    requires Sides(s.db, ps, ns, l) && AllDone(s, ps, l, ns, |ps|, true) && !s.unsat && l !in s.vals && -l !in s.vals
    requires PE.Defines(Base(s, l), GateFormula(s.db), l)
    requires forall k: nat {:trigger GateClause(s.db, k)} :: GateClause(s.db, k) ==> !Free(s.db[k].lits, l)
    ensures RE.Reconstructs(Base(s, l), PE.Push(Select(s.db, ps, Gates), l) + PE.Push(Select(s.db, ns, Gates), -l), Meaning(s))
  {
    var g := Base(s, l);
    var pg, ng, po, no := Select(s.db, ps, Gates), Select(s.db, ns, Gates), Select(s.db, ps, Others), Select(s.db, ns, Others);
    BasePivotFree(s, l);
    SelectOccurs(s.db, ps, ns, l, Gates);
    SelectOccurs(s.db, ps, ns, l, Others);
    SelectResolved(s, ps, ns, l, true, Gates, Others);
    SelectResolved(s, ps, ns, l, true, Others, Gates);
    GateFormulaSides(s, ps, ns, l);
    PE.GateEliminationReconstructs(g, pg, ng, po, no, l);
    MeaningSplit(s, ps, ns, l);
    GatesSplit(s.db, ps);
    GatesSplit(s.db, ns);
    assert Meaning(s) == g + PE.FormulaOf(pg) + PE.FormulaOf(ng) + PE.FormulaOf(po) + PE.FormulaOf(no);
  }
}
