// When a set of clauses defines the value of a variable: equivalences, AND gates, if-then-else
// gates and XOR gates, under the fixed literals.
module Gating {
  import opened Cnf
  import opened Resolving
  import opened Eliminating
  import PE = PivotElimination

  // The unassigned literals of a clause.
  function Residue(lits: seq<Lit>, vals: set<Lit>): Clause {
    set x | x in lits && x !in vals && -x !in vals
  }

  ghost predicate Consistent(vals: set<Lit>) {
    0 !in vals && forall x {:trigger -x in vals} :: x in vals ==> -x !in vals
  }

  // The gate clauses are those listed, all with the pivot.
  ghost predicate GateDb(s: State, l: Lit, gates: seq<nat>) {
    && l != 0 && Consistent(s.vals) && l !in s.vals && -l !in s.vals
    && (forall k: nat {:trigger GateClause(s.db, k)} {:trigger k in gates} :: GateClause(s.db, k) <==> k in gates)
    && (forall k :: k in gates ==> !Free(s.db[k].lits, l) && 0 !in s.db[k].lits)
  }

  ghost predicate SatAll(s: State, gates: seq<nat>, m: Model)
    requires forall k :: k in gates ==> k < |s.db|
  {
    forall k :: k in gates ==> Sat(m, LitsOf(s.db[k].lits))
  }

  // No gate clause contains a literal that is fixed to true.
  ghost predicate NoneSatisfied(s: State, gates: seq<nat>)
    requires forall k :: k in gates ==> k < |s.db|
  {
    forall k :: k in gates ==> !HasTrue(s.db[k].lits, s.vals)
  }

  lemma GatesInside(s: State, l: Lit, gates: seq<nat>)
    requires GateDb(s, l, gates)
    ensures forall k :: k in gates ==> k < |s.db|
  {
    forall k | k in gates ensures k < |s.db| {
      assert GateClause(s.db, k);
    }
  }

  lemma GateModels(s: State, l: Lit, gates: seq<nat>, m: Model)
    requires GateDb(s, l, gates) && forall k :: k in gates ==> k < |s.db|
    ensures Models(m, GateFormula(s.db)) <==> SatAll(s, gates, m)
  {
    if SatAll(s, gates, m) {
      forall d | d in GateFormula(s.db) ensures Sat(m, d) {
        var k: nat :| GateClause(s.db, k) && d == LitsOf(s.db[k].lits);
      }
    }
    if Models(m, GateFormula(s.db)) {
      forall k | k in gates ensures Sat(m, LitsOf(s.db[k].lits)) {
        assert GateClause(s.db, k);
      }
    }
  }

  // Fixed literals stay true when the pivot is flipped.
  lemma FixedTrue(s: State, l: Lit, m: Model, x: Lit, y: Lit)
    requires Models(m, Units(s.vals, false)) && l !in s.vals && -l !in s.vals && (x == l || x == -l) && y in s.vals
    ensures Holds(Assign(m, x), y)
  {
    assert {y} in Units(s.vals, false);
    assert Sat(m, {y});
    assert Var(y) != Var(x);
  }

  // A clause without true literals means what its unassigned literals mean.
  lemma SatResidue(s: State, l: Lit, m: Model, x: Lit, lits: seq<Lit>)
    requires Models(m, Units(s.vals, false)) && l !in s.vals && -l !in s.vals && (x == l || x == -l) && 0 !in lits
    ensures !HasTrue(lits, s.vals) ==> (Sat(Assign(m, x), LitsOf(lits)) <==> Sat(Assign(m, x), Residue(lits, s.vals)))
    ensures HasTrue(lits, s.vals) ==> Sat(Assign(m, x), LitsOf(lits))
  {
    var m' := Assign(m, x);
    assert forall y :: y in Residue(lits, s.vals) ==> y in LitsOf(lits);
    if HasTrue(lits, s.vals) {
      var y :| y in lits && y in s.vals;
      FixedTrue(s, l, m, x, y);
      assert y in LitsOf(lits);
    } else if Sat(m', LitsOf(lits)) {
      var y :| y in LitsOf(lits) && Holds(m', y);
      if -y in s.vals {
        FixedTrue(s, l, m, x, -y);
      }
      assert y in Residue(lits, s.vals);
    }
  }

  // Exactly one value of the pivot satisfies all gate clauses.
  ghost predicate OneValue(s: State, l: Lit, gates: seq<nat>, m: Model)
    requires forall k :: k in gates ==> k < |s.db|
  {
    SatAll(s, gates, Assign(m, l)) <==> !SatAll(s, gates, Assign(m, -l))
  }

  lemma GatedByModels(s: State, l: Lit, gates: seq<nat>)
    requires GateDb(s, l, gates) && forall k :: k in gates ==> k < |s.db|
    ensures Gated(s, l) <==> forall m: Model {:trigger Models(m, Units(s.vals, false))} :: Models(m, Units(s.vals, false)) ==> OneValue(s, l, gates, m)
  {
    forall m: Model ensures Models(Assign(m, l), GateFormula(s.db)) <==> SatAll(s, gates, Assign(m, l)) {
      GateModels(s, l, gates, Assign(m, l));
    }
    var n := -l;
    forall m: Model ensures Models(Assign(m, n), GateFormula(s.db)) <==> SatAll(s, gates, Assign(m, n)) {
      GateModels(s, l, gates, Assign(m, n));
    }
    if !Gated(s, l) {
      assert !PE.Defines(Units(s.vals, false), GateFormula(s.db), l);
      var m: Model :| Models(m, Units(s.vals, false)) &&
        !(Models(Assign(m, l), GateFormula(s.db)) <==> !Models(Assign(m, -l), GateFormula(s.db)));
      assert !OneValue(s, l, gates, m);
    }
  }

  // ----- Clauses that clash on another variable.

  ghost predicate ClashOn(a: Clause, b: Clause, l: Lit, y: Lit) {
    y in a && -y in b && y != l && y != -l
  }

  ghost predicate Clash(a: Clause, b: Clause, l: Lit) {
    exists y :: ClashOn(a, b, l, y)
  }

  ghost predicate Clashing(s: State, l: Lit, gates: seq<nat>)
    requires forall k :: k in gates ==> k < |s.db|
  {
    forall j, k :: j in gates && k in gates && j != k ==>
      Clash(Residue(s.db[j].lits, s.vals), Residue(s.db[k].lits, s.vals), l)
  }

  // A model that makes a consistent set of literals true.
  lemma ModelOfSet(v: set<Lit>) returns (m: Model)
    requires Consistent(v)
    ensures forall x :: x in v ==> Holds(m, x)
  {
    m := iset x: int | x in v;
    forall x | x in v ensures Holds(m, x) {
      assert -(-x) == x;
    }
  }

  // If all gate clauses clash and one of them is satisfied anyhow, then the pivot is not defined:
  // falsifying the others literals of that clause allows both values.
  lemma SatisfiedNotGated(s: State, l: Lit, gates: seq<nat>, k: nat)
    requires GateDb(s, l, gates) && (forall k :: k in gates ==> k < |s.db|) && Clashing(s, l, gates)
    requires k in gates && HasTrue(s.db[k].lits, s.vals)
    requires forall x {:trigger -x in s.db[k].lits} :: x in s.db[k].lits ==> -x !in s.db[k].lits
    ensures !Gated(s, l)
  {
    var r := Residue(s.db[k].lits, s.vals);
    var f := set x | x in r && x != l && x != -l :: -x;
    assert Consistent(s.vals + f) by {
      assert forall x :: x in f ==> -x in r && -x != l && -x != -l;
      assert forall x: Lit {:trigger -x} :: -(-x) == x;
      assert forall x :: x in r ==> -x !in r;
    }
    var m := ModelOfSet(s.vals + f);
    forall c | c in Units(s.vals, false) ensures Sat(m, c) {
      var x :| x in s.vals && c == {x};
      assert Holds(m, x);
    }
    BothValues(s, l, gates, k, m, l);
    BothValues(s, l, gates, k, m, -l);
    assert !OneValue(s, l, gates, m);
    GatedByModels(s, l, gates);
  }

  lemma BothValues(s: State, l: Lit, gates: seq<nat>, k: nat, m: Model, x: Lit)
    requires GateDb(s, l, gates) && (forall k :: k in gates ==> k < |s.db|) && Clashing(s, l, gates)
    requires k in gates && HasTrue(s.db[k].lits, s.vals) && (x == l || x == -l)
    requires Models(m, Units(s.vals, false))
    requires forall y :: y in Residue(s.db[k].lits, s.vals) && y != l && y != -l ==> Holds(m, -y)
    ensures SatAll(s, gates, Assign(m, x))
  {
    forall j | j in gates ensures Sat(Assign(m, x), LitsOf(s.db[j].lits)) {
      SatResidue(s, l, m, x, s.db[j].lits);
      if j != k {
        var a, b := Residue(s.db[j].lits, s.vals), Residue(s.db[k].lits, s.vals);
        assert Clash(a, b, l);
        var y :| ClashOn(a, b, l, y);
        assert -y in b && -(-y) == y && -y != l && -y != -l;
        assert Holds(m, -(-y));
        assert Var(y) != Var(x);
        assert Sat(Assign(m, x), a);
      }
    }
  }

  // ----- Equivalences.

  lemma EquivalenceGated(s: State, l: Lit, c: nat, d: nat, x: Lit)
    requires GateDb(s, l, [c, d]) && c < |s.db| && d < |s.db| && Var(x) != Var(l) && x != 0
    requires Residue(s.db[c].lits, s.vals) == {-l, x} && Residue(s.db[d].lits, s.vals) == {l, -x}
    requires !HasTrue(s.db[c].lits, s.vals) && !HasTrue(s.db[d].lits, s.vals)
    ensures Gated(s, l)
  {
    var gates := [c, d];
    forall m: Model | Models(m, Units(s.vals, false)) ensures OneValue(s, l, gates, m) {
      TwoClauses(s, l, c, d, x, m, l);
      TwoClauses(s, l, c, d, x, m, -l);
    }
    GatedByModels(s, l, gates);
  }

  lemma TwoClauses(s: State, l: Lit, c: nat, d: nat, x: Lit, m: Model, y: Lit)
    requires GateDb(s, l, [c, d]) && c < |s.db| && d < |s.db| && Var(x) != Var(l) && x != 0 && (y == l || y == -l)
    requires Residue(s.db[c].lits, s.vals) == {-l, x} && Residue(s.db[d].lits, s.vals) == {l, -x}
    requires !HasTrue(s.db[c].lits, s.vals) && !HasTrue(s.db[d].lits, s.vals)
    requires Models(m, Units(s.vals, false))
    ensures SatAll(s, [c, d], Assign(m, y)) <==> ((y == l) <==> Holds(m, x))
  {
    assert c in [c, d] && d in [c, d];
    SatResidue(s, l, m, y, s.db[c].lits);
    SatResidue(s, l, m, y, s.db[d].lits);
    var m' := Assign(m, y);
    assert Sat(m', {-l, x}) <==> Holds(m', -l) || Holds(m', x);
    assert Sat(m', {l, -x}) <==> Holds(m', l) || Holds(m', -x);
  }

  // ----- AND gates.

  // The base clause has the negated pivot and the inputs; there is a binary clause for every input.
  ghost predicate Side(s: State, gates: seq<nat>, l: Lit, a: Lit, d: nat) {
    d in gates && d < |s.db| && Residue(s.db[d].lits, s.vals) == {l, -a}
  }

  ghost predicate HasSide(s: State, gates: seq<nat>, l: Lit, a: Lit) {
    exists d :: Side(s, gates, l, a, d)
  }

  ghost predicate Input(s: State, l: Lit, c: nat, a: Lit)
    requires c < |s.db|
  {
    a in Residue(s.db[c].lits, s.vals) && a != -l
  }

  ghost predicate IsSide(s: State, gates: seq<nat>, l: Lit, c: nat, d: nat)
    requires c < |s.db|
  {
    exists a :: Input(s, l, c, a) && Side(s, gates, l, a, d)
  }

  ghost predicate AndGate(s: State, l: Lit, gates: seq<nat>, c: nat) {
    && c in gates && c < |s.db| && -l in Residue(s.db[c].lits, s.vals) && l !in Residue(s.db[c].lits, s.vals)
    && (forall a {:trigger HasSide(s, gates, l, a)} {:trigger Input(s, l, c, a)} :: Input(s, l, c, a) ==> HasSide(s, gates, l, a))
    && (forall d {:trigger IsSide(s, gates, l, c, d)} :: d in gates && d != c ==> IsSide(s, gates, l, c, d))
  }

  lemma AndGated(s: State, l: Lit, gates: seq<nat>, c: nat)
    requires GateDb(s, l, gates) && (forall k :: k in gates ==> k < |s.db|)
    requires AndGate(s, l, gates, c) && NoneSatisfied(s, gates)
    ensures Gated(s, l)
  {
    forall m: Model | Models(m, Units(s.vals, false)) ensures OneValue(s, l, gates, m) {
      if InputTrue(s, l, c, m) {
        AllSides(s, l, gates, c, m);
        SideFails(s, l, gates, c, m);
      } else {
        BaseFails(s, l, c, m);
        AllFalse(s, l, gates, c, m);
        assert c in gates;
      }
    }
    GatedByModels(s, l, gates);
  }

  // The pivot is true exactly if an input of the base clause is.
  ghost predicate InputTrue(s: State, l: Lit, c: nat, m: Model)
    requires c < |s.db|
  {
    exists a :: Input(s, l, c, a) && Holds(m, a)
  }

  // Every clause but the base has the pivot.
  lemma AllSides(s: State, l: Lit, gates: seq<nat>, c: nat, m: Model)
    requires GateDb(s, l, gates) && (forall k :: k in gates ==> k < |s.db|)
    requires AndGate(s, l, gates, c) && NoneSatisfied(s, gates)
    requires Models(m, Units(s.vals, false)) && InputTrue(s, l, c, m)
    ensures SatAll(s, gates, Assign(m, l))
  {
    var m' := Assign(m, l);
    forall d | d in gates ensures Sat(m', LitsOf(s.db[d].lits)) {
      SatResidue(s, l, m, l, s.db[d].lits);
      if d == c {
        var a :| Input(s, l, c, a) && Holds(m, a);
        assert Var(a) != Var(l);
        assert Sat(m', Residue(s.db[c].lits, s.vals));
      } else {
        assert IsSide(s, gates, l, c, d);
        var a :| Input(s, l, c, a) && Side(s, gates, l, a, d);
        assert l in Residue(s.db[d].lits, s.vals) && Holds(m', l);
      }
    }
  }

  lemma SideFails(s: State, l: Lit, gates: seq<nat>, c: nat, m: Model)
    requires GateDb(s, l, gates) && (forall k :: k in gates ==> k < |s.db|)
    requires AndGate(s, l, gates, c) && NoneSatisfied(s, gates)
    requires Models(m, Units(s.vals, false)) && InputTrue(s, l, c, m)
    ensures !SatAll(s, gates, Assign(m, -l))
  {
    var a :| Input(s, l, c, a) && Holds(m, a);
    assert HasSide(s, gates, l, a);
    var d: nat :| Side(s, gates, l, a, d);
    SatResidue(s, l, m, -l, s.db[d].lits);
    assert Var(a) != Var(l) && a != 0;
    assert forall y :: y in Residue(s.db[d].lits, s.vals) ==> !Holds(Assign(m, -l), y);
  }

  lemma BaseFails(s: State, l: Lit, c: nat, m: Model)
    requires c < |s.db| && l != 0 && l !in s.vals && -l !in s.vals && 0 !in s.db[c].lits
    requires !HasTrue(s.db[c].lits, s.vals) && l !in Residue(s.db[c].lits, s.vals)
    requires Models(m, Units(s.vals, false)) && !InputTrue(s, l, c, m)
    ensures !Sat(Assign(m, l), LitsOf(s.db[c].lits))
  {
    SatResidue(s, l, m, l, s.db[c].lits);
    forall y | y in Residue(s.db[c].lits, s.vals) ensures !Holds(Assign(m, l), y) {
      if y != -l {
        assert Input(s, l, c, y) && Var(y) != Var(l);
      }
    }
  }

  lemma AllFalse(s: State, l: Lit, gates: seq<nat>, c: nat, m: Model)
    requires GateDb(s, l, gates) && (forall k :: k in gates ==> k < |s.db|)
    requires AndGate(s, l, gates, c) && NoneSatisfied(s, gates)
    requires Models(m, Units(s.vals, false)) && !InputTrue(s, l, c, m)
    ensures SatAll(s, gates, Assign(m, -l))
  {
    var m' := Assign(m, -l);
    forall d | d in gates ensures Sat(m', LitsOf(s.db[d].lits)) {
      SatResidue(s, l, m, -l, s.db[d].lits);
      if d == c {
        assert -l in Residue(s.db[c].lits, s.vals) && Holds(m', -l);
      } else {
        assert IsSide(s, gates, l, c, d);
        var a :| Input(s, l, c, a) && Side(s, gates, l, a, d);
        assert a != 0 && Var(a) != Var(l) && Holds(m', -a) && -a in Residue(s.db[d].lits, s.vals);
      }
    }
  }

  // ----- If-then-else gates.

  ghost predicate IteGate(s: State, l: Lit, d0: nat, d1: nat, d2: nat, d3: nat, b: Lit, c: Lit, e: Lit) {
    && d0 < |s.db| && d1 < |s.db| && d2 < |s.db| && d3 < |s.db|
    && b != 0 && c != 0 && e != 0 && Var(b) != Var(l) && Var(c) != Var(l) && Var(e) != Var(l)
    && Residue(s.db[d0].lits, s.vals) == {l, b, c}
    && Residue(s.db[d1].lits, s.vals) == {l, -b, e}
    && Residue(s.db[d2].lits, s.vals) == {-l, b, -c}
    && Residue(s.db[d3].lits, s.vals) == {-l, -b, -e}
  }

  // The pivot is defined exactly if none of the four clauses is satisfied by a fixed literal.
  lemma IteGated(s: State, l: Lit, d0: nat, d1: nat, d2: nat, d3: nat, b: Lit, c: Lit, e: Lit)
    requires GateDb(s, l, [d0, d1, d2, d3]) && IteGate(s, l, d0, d1, d2, d3, b, c, e)
    requires forall k, x {:trigger -x in s.db[k].lits} :: k in [d0, d1, d2, d3] && x in s.db[k].lits ==> -x !in s.db[k].lits
    ensures (forall k :: k in [d0, d1, d2, d3] ==> k < |s.db|) && (Gated(s, l) <==> NoneSatisfied(s, [d0, d1, d2, d3]))
  {
    var gates := [d0, d1, d2, d3];
    assert forall k :: k in gates <==> k == d0 || k == d1 || k == d2 || k == d3;
    if NoneSatisfied(s, gates) {
      forall m: Model | Models(m, Units(s.vals, false)) ensures OneValue(s, l, gates, m) {
        IteValue(s, l, d0, d1, d2, d3, b, c, e, m, l);
        IteValue(s, l, d0, d1, d2, d3, b, c, e, m, -l);
      }
      GatedByModels(s, l, gates);
    } else {
      IteClashing(s, l, d0, d1, d2, d3, b, c, e);
      var k :| k in gates && HasTrue(s.db[k].lits, s.vals);
      SatisfiedNotGated(s, l, gates, k);
    }
  }

  lemma IteValue(s: State, l: Lit, d0: nat, d1: nat, d2: nat, d3: nat, b: Lit, c: Lit, e: Lit, m: Model, y: Lit)
    requires GateDb(s, l, [d0, d1, d2, d3]) && IteGate(s, l, d0, d1, d2, d3, b, c, e)
    requires forall k :: k in [d0, d1, d2, d3] <==> k == d0 || k == d1 || k == d2 || k == d3
    requires NoneSatisfied(s, [d0, d1, d2, d3]) && Models(m, Units(s.vals, false)) && (y == l || y == -l)
    ensures SatAll(s, [d0, d1, d2, d3], Assign(m, y)) <==> ((y == l) <==> !Holds(m, if Holds(m, b) then e else c))
  {
    var m' := Assign(m, y);
    SidesOfIte(s, d0, l, b, c, l, m, y);
    SidesOfIte(s, d1, l, -b, e, l, m, y);
    SidesOfIte(s, d2, -l, b, -c, l, m, y);
    SidesOfIte(s, d3, -l, -b, -e, l, m, y);
    assert Holds(m', l) <==> y == l;
    assert Holds(m', -l) <==> y == -l;
    IteCases(m', l, b, c, e);
  }

  lemma IteCases(m: Model, l: Lit, b: Lit, c: Lit, e: Lit)
    requires l != 0 && b != 0 && c != 0 && e != 0
    ensures (Holds(m, l) || Holds(m, b) || Holds(m, c)) && (Holds(m, l) || Holds(m, -b) || Holds(m, e)) &&
            (Holds(m, -l) || Holds(m, b) || Holds(m, -c)) && (Holds(m, -l) || Holds(m, -b) || Holds(m, -e)) <==>
            (Holds(m, l) <==> !Holds(m, if Holds(m, b) then e else c))
  {
  }

  lemma SidesOfIte(s: State, d: nat, p: Lit, b: Lit, c: Lit, l: Lit, m: Model, y: Lit)
    requires d < |s.db| && Residue(s.db[d].lits, s.vals) == {p, b, c} && !HasTrue(s.db[d].lits, s.vals) && 0 !in s.db[d].lits
    requires l !in s.vals && -l !in s.vals && Var(b) != Var(l) && Var(c) != Var(l) && (y == l || y == -l)
    requires Models(m, Units(s.vals, false))
    ensures Sat(Assign(m, y), LitsOf(s.db[d].lits)) <==> Holds(Assign(m, y), p) || Holds(Assign(m, y), b) || Holds(Assign(m, y), c)
    ensures (Holds(Assign(m, y), b) <==> Holds(m, b)) && (Holds(Assign(m, y), c) <==> Holds(m, c))
  {
    SatResidue(s, l, m, y, s.db[d].lits);
    SatThree(Assign(m, y), p, b, c);
  }

  lemma SatThree(m: Model, x: Lit, y: Lit, z: Lit)
    ensures Sat(m, {x, y, z}) <==> Holds(m, x) || Holds(m, y) || Holds(m, z)
  {
    assert x in {x, y, z} && y in {x, y, z} && z in {x, y, z};
  }

  lemma IteClashing(s: State, l: Lit, d0: nat, d1: nat, d2: nat, d3: nat, b: Lit, c: Lit, e: Lit)
    requires IteGate(s, l, d0, d1, d2, d3, b, c, e)
    requires forall k :: k in [d0, d1, d2, d3] <==> k == d0 || k == d1 || k == d2 || k == d3
    ensures Clashing(s, l, [d0, d1, d2, d3])
  {
    var r0, r1, r2, r3 := {l, b, c}, {l, -b, e}, {-l, b, -c}, {-l, -b, -e};
    assert -(-b) == b && -(-c) == c && -(-e) == e;
    assert ClashOn(r0, r1, l, b) && ClashOn(r0, r2, l, c) && ClashOn(r0, r3, l, b);
    assert ClashOn(r1, r0, l, -b) && ClashOn(r1, r2, l, -b) && ClashOn(r1, r3, l, e);
    assert ClashOn(r2, r0, l, -c) && ClashOn(r2, r1, l, b) && ClashOn(r2, r3, l, b);
    assert ClashOn(r3, r0, l, -b) && ClashOn(r3, r1, l, -e) && ClashOn(r3, r2, l, -b);
  }
}
