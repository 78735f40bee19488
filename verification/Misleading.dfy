// A clause that is satisfied, but not yet garbage, is taken for a gate clause; the clauses found do not
// define the pivot, and eliminating it by substitution loses a clause that would be needed.
module Misleading {
  import opened Cnf
  import opened Resolving
  import opened Eliminating
  import opened Spanning
  import opened Gating
  import opened Elim
  import opened Gates
  import EX = Extension
  import RE = Reconstruction
  import WA = Watching

  function Plain(lits: seq<Lit>): EClause {
    EClause(lits, false, false, 1)
  }

  // Literal 5 is fixed to true.  Without it the fourth clause would complete an if-then-else gate for 1.
  const Db0: Db := [Plain([1, 2, 3]), Plain([1, -2, 4]), Plain([-1, 2, -3]), Plain([-1, -2, -4, 5]), Plain([1, 6, 8]), Plain([-1, 7, 9])]

  const Vals: set<Lit> := {5}

  function Start(): State {
    State(Db0, Vals, false)
  }

  // ----- Occurrence lists.

  function Holding(db: Db, l: Lit, n: nat): seq<nat>
    requires n <= |db|
  {
    if n == 0 then [] else Holding(db, l, n - 1) + (if l in db[n-1].lits then [n-1] else [])
  }

  lemma {:induction false} HoldingMembers(db: Db, l: Lit, n: nat)
    requires n <= |db|
    ensures forall k: nat {:trigger k in Holding(db, l, n)} :: k in Holding(db, l, n) <==> k < n && l in db[k].lits
    ensures Unique(Holding(db, l, n))
    decreases n
  {
    if n > 0 {
      HoldingMembers(db, l, n - 1);
      var h := Holding(db, l, n - 1);
      assert forall i :: 0 <= i < |h| ==> h[i] in h;
    }
  }

  const Univ: set<Lit> := {1, -1, 2, -2, 3, -3, 4, -4, 5, 6, 7, 8, 9}

  lemma AllInside(k: nat, l: Lit)
    requires k < |Db0| && l in Db0[k].lits
    ensures l in Univ
  {
  }

  method FullOccs() returns (occs: Occs)
    ensures forall l {:trigger Occ(occs, l)} :: Occ(occs, l) == Holding(Db0, l, |Db0|)
  {
    occs := map l | l in Univ :: Holding(Db0, l, |Db0|);
    forall l ensures Occ(occs, l) == Holding(Db0, l, |Db0|) {
      if l !in Univ {
        HoldingMembers(Db0, l, |Db0|);
        forall k: nat ensures k !in Holding(Db0, l, |Db0|) {
          if k < |Db0| && l in Db0[k].lits {
            AllInside(k, l);
          }
        }
        NothingHeld(Holding(Db0, l, |Db0|));
      }
    }
  }

  lemma NothingHeld(h: seq<nat>)
    requires forall k: nat :: k !in h
    ensures h == []
  {
    HeldMember(h);
  }

  lemma HeldMember(h: seq<nat>)
    ensures h != [] ==> exists k: nat :: k in h
  {
    if h != [] {
      assert h[0] in h;
    }
  }

  lemma Held()
    ensures Holding(Db0, 1, 6) == [0, 1, 4] && Holding(Db0, -1, 6) == [2, 3, 5]
  {
    assert Holding(Db0, 1, 3) == [0, 1] && Holding(Db0, -1, 3) == [2];
  }

  // ----- The initial state.

  lemma StartValid(occs: Occs)
    requires forall l {:trigger Occ(occs, l)} :: Occ(occs, l) == Holding(Db0, l, |Db0|)
    ensures Clean(Db0) && Connected(Db0, occs, {5}) && Valued(Vals, {5}, {}) && Present(Db0, {}, false)
  {
    StartClauses();
    StartLists(Db0, occs, {5});
    assert forall l: Lit {:trigger Var(l)} :: Var(l) == 5 ==> l == 5 || -l == 5;
  }

  lemma StartClauses()
    ensures Clean(Db0) && Present(Db0, {}, false)
  {
    forall k | 0 <= k < |Db0| ensures WA.Distinct(Db0[k].lits) {
      StartDistinct(k);
    }
  }

  lemma StartDistinct(k: nat)
    requires k < |Db0|
    ensures WA.Distinct(Db0[k].lits)
  {
    VarsDistinct(Db0[k].lits);
  }

  lemma VarsDistinct(lits: seq<Lit>)
    requires 3 <= |lits| <= 4 && Var(lits[0]) != Var(lits[1]) && Var(lits[0]) != Var(lits[2]) && Var(lits[1]) != Var(lits[2])
    requires |lits| == 4 ==> Var(lits[3]) != Var(lits[0]) && Var(lits[3]) != Var(lits[1]) && Var(lits[3]) != Var(lits[2])
    requires lits[0] != 0 && lits[1] != 0 && lits[2] != 0 && (|lits| == 4 ==> lits[3] != 0)
    ensures WA.Distinct(lits)
  {
  }

  lemma StartLists(db: Db, occs: Occs, inactive: set<nat>)
    requires forall l {:trigger Occ(occs, l)} :: Occ(occs, l) == Holding(db, l, |db|)
    ensures Connected(db, occs, inactive)
  {
    forall l ensures FullList(db, Occ(occs, l), l, inactive) {
      HoldingMembers(db, l, |db|);
    }
  }

  lemma StartUnflagged()
    ensures GateFlags(Db0, [])
  {
  }

  method Setup() returns (f: GateFinder)
    ensures fresh(f) && fresh(f.e) && f.Ready() && f.Unmarked() && f.gates == [] && f.e.clause == [] && f.e.marks == {}
    ensures f.e.Now() == Start() && f.e.eliminated == {} && f.e.extension == []
    ensures Occ(f.e.occs, 1) == [0, 1, 4] && Occ(f.e.occs, -1) == [2, 3, 5]
  {
    var occs := FullOccs();
    Held();
    StartValid(occs);
    StartUnflagged();
    f := Finder(Db0, occs, Vals, {5});
  }

  method Finder(db: Db, occs: Occs, vals: set<Lit>, inactive: set<nat>) returns (f: GateFinder)
    requires Clean(db) && Connected(db, occs, inactive) && Valued(vals, inactive, {}) && Present(db, {}, false) && GateFlags(db, [])
    ensures fresh(f) && fresh(f.e) && f.Ready() && f.Unmarked() && f.gates == [] && f.e.clause == [] && f.e.marks == {}
    ensures f.e.Now() == State(db, vals, false) && f.e.occs == occs && f.e.eliminated == {} && f.e.extension == []
  {
    var e := new Eliminator(db, occs, vals, inactive, {}, []);
    f := new GateFinder(e);
  }

  // ----- Searching binary gates changes nothing.

  lemma WideThere()
    ensures AllWide(Start().db, Start().vals, 1) && AllWide(Start().db, Start().vals, -1)
  {
    forall k: nat | Live(Db0, k) && 1 in Db0[k].lits ensures Wide(Db0[k].lits, Vals, 1) {
      WideClause(Db0[k].lits, 1);
    }
    forall k: nat | Live(Db0, k) && -1 in Db0[k].lits ensures Wide(Db0[k].lits, Vals, -1) {
      WideClause(Db0[k].lits, -1);
    }
  }

  lemma WideClause(lits: seq<Lit>, l: Lit)
    requires |lits| >= 3 && lits[0] == l && lits[1] !in Vals && -lits[1] !in Vals && lits[2] !in Vals && -lits[2] !in Vals
    requires lits[1] != l && lits[2] != l && l !in Vals
    ensures Wide(lits, Vals, l)
  {
    assert Scan(lits, Vals, l, 1).Unknown?;
    assert Scan(lits, Vals, l, 2) == One(lits[1]);
    assert Scan(lits, Vals, l, 3).Several?;
    ScanStable(lits, Vals, l, 3);
  }

  // ----- The gate found.

  lemma Opens()
    ensures Open3([1, 2, 3], Vals) == [1, 2, 3] && Open3([1, -2, 4], Vals) == [1, -2, 4] && Open3([1, 6, 8], Vals) == [1, 6, 8]
  {
    OpenThree(1, 2, 3);
    OpenThree(1, -2, 4);
    OpenThree(1, 6, 8);
  }

  lemma OpenThree(a: Lit, b: Lit, c: Lit)
    requires a !in Vals && -a !in Vals && b !in Vals && -b !in Vals && c !in Vals && -c !in Vals
    ensures Open3([a, b, c], Vals) == [a, b, c]
  {
    Open3Last([], a, Vals);
    Open3Last([a], b, Vals);
    Open3Last([a, b], c, Vals);
    assert [] + [a] == [a] && [a] + [b] == [a, b] && [a, b] + [c] == [a, b, c];
  }

  lemma Sides()
    ensures HasResidue(Start(), 2, {-1, 2, -3}) && HasResidue(Start(), 3, {-1, -2, -4})
  {
    assert Residue([-1, 2, -3], Vals) == {-1, 2, -3};
    assert Residue([-1, -2, -4, 5], Vals) == {-1, -2, -4};
    assert |{-1, 2, -3}| == 3 && |{-1, -2, -4}| == 3;
  }

  // In whatever order the clauses are listed, the gate is there.
  lemma GateThere()
    ensures IteFrom(Start(), 1, 0, 1, 2, 3) && IteFrom(Start(), 1, 1, 0, 3, 2)
  {
    var s := Start();
    Opens();
    Sides();
    assert Matched(s, 1, 0, 1, 2, 3, 4);
    assert Matched(s, 1, 1, 0, -2, 4, 3);
    assert -(-2) == 2;
  }

  // There is no other one.
  lemma GateOnly(a: nat, b: nat, c: nat, d: nat)
    requires IteFrom(Start(), 1, a, b, c, d)
    ensures (a, b, c, d) == (0, 1, 2, 3) || (a, b, c, d) == (1, 0, 3, 2)
  {
    var s := Start();
    var bi, ci, cj :| Matched(s, 1, a, b, bi, ci, cj) && HasResidue(s, c, {-1, bi, -ci}) && HasResidue(s, d, {-1, -bi, -cj});
    MatchedPair(a, b, bi, ci, cj);
    OnlyResidue(c);
    OnlyResidue(d);
  }

  function Next(k: nat): (Lit, Lit) {
    if k == 0 then (2, 3) else if k == 1 then (-2, 4) else (6, 8)
  }

  lemma NextOf(k: nat)
    requires k < |Start().db| && 1 in Start().db[k].lits
    ensures (k == 0 || k == 1 || k == 4) && |Open3(Start().db[k].lits, Vals)| == 3
    ensures PairOf(Open3(Start().db[k].lits, Vals), 1) == Next(k)
  {
    var lits := Start().db[k].lits;
    assert (k == 0 && lits == [1, 2, 3]) || (k == 1 && lits == [1, -2, 4]) || (k == 4 && lits == [1, 6, 8]);
    NextOpen(lits, k);
  }

  lemma NextOpen(lits: seq<Lit>, k: nat)
    requires (k == 0 && lits == [1, 2, 3]) || (k == 1 && lits == [1, -2, 4]) || (k == 4 && lits == [1, 6, 8])
    ensures Open3(lits, Vals) == lits && PairOf(lits, 1) == Next(k)
  {
    Opens();
  }

  lemma MatchedPair(a: nat, b: nat, bi: Lit, ci: Lit, cj: Lit)
    requires InPair(Start(), 1, a, b) && Matched(Start(), 1, a, b, bi, ci, cj)
    ensures (a == 0 && b == 1 && bi == 2 && ci == 3 && cj == 4) || (a == 1 && b == 0 && bi == -2 && ci == 4 && cj == 3)
  {
    NextOf(a);
    NextOf(b);
    MatchedCases(a, b, bi, ci, cj);
  }

  lemma MatchedCases(a: nat, b: nat, bi: Lit, ci: Lit, cj: Lit)
    requires (a == 0 || a == 1 || a == 4) && (b == 0 || b == 1 || b == 4) && (bi, ci) == Next(a) && Var(ci) != Var(cj)
    requires var p := Next(b); (if Var(bi) == Var(p.1) then (p.1, p.0) else p) == (-bi, cj)
    ensures (a == 0 && b == 1 && bi == 2 && ci == 3 && cj == 4) || (a == 1 && b == 0 && bi == -2 && ci == 4 && cj == 3)
  {
  }

  lemma OnlyResidue(k: nat)
    requires k < |Db0|
    ensures var r := Residue(Db0[k].lits, Vals); (r == {-1, 2, -3} ==> k == 2) && (r == {-1, -2, -4} ==> k == 3)
  {
    var r := Residue(Db0[k].lits, Vals);
    assert k == 0 || k == 1 || k == 4 ==> 1 in r;
    assert k == 5 ==> 7 in r;
    assert k == 2 ==> 2 in r;
    assert k == 3 ==> -2 in r;
  }

  // ----- What happens.

  // Models of all clauses, with both values of the pivot.
  lemma BothValues()
    ensures Models(iset{1, 2, 4, 5, 6, 7}, Meaning(Start())) && Models(iset{2, 4, 5, 6, 7}, Meaning(Start()))
  {
    var m: Model := iset{1, 2, 4, 5, 6, 7};
    var n: Model := iset{2, 4, 5, 6, 7};
    forall c | c in Meaning(Start()) ensures Sat(m, c) && Sat(n, c) {
      assert 2 in c || 4 in c || 5 in c || 6 in c || 7 in c;
    }
  }

  // So neither a conflict nor a value of the pivot is derived.
  lemma StillOpen(s: State)
    requires EntailsAll(Meaning(Start()), Meaning(s))
    ensures !s.unsat && 1 !in s.vals && -1 !in s.vals
  {
    BothValues();
    ValueOpen(Meaning(Start()), s, iset{1, 2, 4, 5, 6, 7}, iset{2, 4, 5, 6, 7}, 1);
  }

  lemma ValueOpen(f: Formula, s: State, m: Model, n: Model, l: Lit)
    requires EntailsAll(f, Meaning(s)) && Models(m, f) && Models(n, f) && l > 0 && l in m && l !in n
    ensures !s.unsat && l !in s.vals && -l !in s.vals
  {
    ModelsEntailed(f, Meaning(s), m);
    ModelsEntailed(f, Meaning(s), n);
    assert s.unsat ==> {} in Meaning(s);
    assert l in s.vals ==> {l} in Meaning(s);
    assert -l in s.vals ==> {-l} in Meaning(s);
    assert !Sat(m, {}) && !Sat(n, {l}) && !Sat(m, {-l});
  }

  lemma ModelsEntailed(f: Formula, g: Formula, m: Model)
    requires EntailsAll(f, g) && Models(m, f)
    ensures Models(m, g)
  {
    forall c | c in g ensures Sat(m, c) {
      assert Entails(f, c);
    }
  }

  // The first four clauses are flagged.
  ghost predicate FourFlagged(s: State) {
    forall u {:trigger Look(u)} :: Look(u) ==>
      && SameButFlags(Db0, s.db) && s.vals == Vals && !s.unsat
      && forall k {:trigger s.db[k]} :: 0 <= k < |s.db| ==> (s.db[k].gate <==> k < 4)
  }

  lemma GateFlagged(s: State, gates: seq<nat>, os: seq<nat>)
    requires FlaggedIte(Start(), 1, gates, s) || NoIte(Start(), 1, os, |os|)
    requires os == [0, 1, 4] && GateFlags(s.db, gates)
    ensures FourFlagged(s) && gates != []
  {
    GateThere();
    if NoIte(Start(), 1, os, |os|) {
      NoItePair(Start(), 1, os, 0, 1);
    }
    FourGates(gates);
    StartFields(s);
  }

  lemma StartFields(s: State)
    requires SameButFlags(Start().db, s.db) && s.vals == Start().vals && s.unsat == Start().unsat
    requires forall k {:trigger s.db[k]} :: 0 <= k < |s.db| ==> (s.db[k].gate <==> 0 <= k < 4)
    ensures FourFlagged(s)
  {
  }

  lemma FourGates(gates: seq<nat>)
    requires |gates| == 4 && IteFrom(Start(), 1, gates[0], gates[1], gates[2], gates[3])
    ensures forall k: int {:trigger k in gates} :: k in gates <==> 0 <= k < 4
  {
    GateOnly(gates[0], gates[1], gates[2], gates[3]);
    MemberOfFour(gates);
  }

  lemma MemberOfFour(gates: seq<nat>)
    requires |gates| == 4
    ensures forall k: int {:trigger k in gates} :: k in gates <==> k == gates[0] || k == gates[1] || k == gates[2] || k == gates[3]
  {
    assert gates == [gates[0], gates[1], gates[2], gates[3]];
  }

  lemma FewPairs(s: State)
    requires FourFlagged(s)
    ensures !Crowded(s.db, [0, 1, 4], [2, 3, 5], 16, 100)
  {
    assert Look(0);
    assert forall k {:trigger s.db[k]} :: 0 <= k < |s.db| ==> |s.db[k].lits| <= 4;
  }

  // A model of what is left.
  lemma RestModel(s: State)
    requires FourFlagged(s)
    ensures Models(iset{2, 4, 5}, Base(s, 1) + Pairs(s, 1, true))
  {
    assert Look(0);
    var m: Model := iset{2, 4, 5};
    forall k: nat ensures !LiveFree(s.db, 1, k) {
      PivotIn(s, k);
    }
    forall c | c in Base(s, 1) ensures Sat(m, c) {
      assert 5 in c;
    }
    forall c | c in Pairs(s, 1, true) ensures Sat(m, c) {
      var i: nat, j: nat :| PairAt(s, 1, true, i, j) && c == RE.Resolvent(LitsOf(s.db[i].lits), 1, LitsOf(s.db[j].lits));
      assert s.db[i].lits == Db0[i].lits && s.db[j].lits == Db0[j].lits;
      PairTrue(i, j);
    }
  }

  lemma PivotIn(s: State, k: nat)
    requires FourFlagged(s)
    ensures !LiveFree(s.db, 1, k)
  {
    assert Look(0);
    if k < |s.db| {
      assert s.db[k].lits == Db0[k].lits;
      var x := Db0[k].lits[0];
      assert x in Db0[k].lits && (x == 1 || x == -1);
    }
  }

  // Only one of the two clauses is a gate clause.
  lemma PairTrue(i: nat, j: nat)
    requires i < 6 && j < 6 && 1 in Db0[i].lits && -1 in Db0[j].lits && (i < 4 <==> j >= 4)
    ensures var c := RE.Resolvent(LitsOf(Db0[i].lits), 1, LitsOf(Db0[j].lits)); 2 in c || 4 in c || 5 in c
  {
    assert (i == 0 && j == 5) || (i == 1 && j == 5) || (i == 4 && j == 2) || (i == 4 && j == 3);
  }

  ghost predicate RestSatisfied(s: State) {
    exists m: Model :: Models(m, Base(s, 1) + Pairs(s, 1, true)) && 6 !in m && 7 !in m && 8 !in m && 9 !in m
  }

  lemma RestThere(s: State)
    requires FourFlagged(s)
    ensures RestSatisfied(s)
  {
    RestModel(s);
  }

  // With no value of the pivot that model satisfies the clauses outside the gate.
  lemma ModelLost(s: State, g: Formula, es: seq<EX.Entry>)
    requires RestSatisfied(s) && Exact(s, 1, true, g) && RE.FlipsOnly(es, 1)
    ensures !RE.Reconstructs(g, es, Meaning(Start()))
  {
    var m: Model :| Models(m, Base(s, 1) + Pairs(s, 1, true)) && 6 !in m && 7 !in m && 8 !in m && 9 !in m;
    NoRepair(m, es);
    LostBy(s, g, Meaning(Start()), m, es);
  }

  lemma LostBy(s: State, g: Formula, h: Formula, m: Model, es: seq<EX.Entry>)
    requires Exact(s, 1, true, g) && Models(m, Base(s, 1) + Pairs(s, 1, true)) && !Models(EX.Extend(m, es), h)
    ensures !RE.Reconstructs(g, es, h)
  {
    ModelsEntailed(Base(s, 1) + Pairs(s, 1, true), g, m);
  }

  lemma NoRepair(m: Model, es: seq<EX.Entry>)
    requires RE.FlipsOnly(es, 1) && 6 !in m && 7 !in m && 8 !in m && 9 !in m
    ensures !Models(EX.Extend(m, es), Meaning(Start()))
  {
    OthersStay(m, es);
    BothNeeded(EX.Extend(m, es));
  }

  lemma OthersStay(m: Model, es: seq<EX.Entry>)
    requires RE.FlipsOnly(es, 1) && 6 !in m && 7 !in m && 8 !in m && 9 !in m
    ensures var m' := EX.Extend(m, es); 6 !in m' && 7 !in m' && 8 !in m' && 9 !in m'
  {
    RE.UntouchedKept(m, es, 1, 6);
    RE.UntouchedKept(m, es, 1, 7);
    RE.UntouchedKept(m, es, 1, 8);
    RE.UntouchedKept(m, es, 1, 9);
  }

  lemma BothNeeded(m: Model)
    requires 6 !in m && 7 !in m && 8 !in m && 9 !in m
    ensures !Models(m, Meaning(Start()))
  {
    LiveIn(Start(), 1, 4);
    LiveIn(Start(), 1, 5);
    assert LitsOf([1, 6, 8]) in Meaning(Start()) && LitsOf([-1, 7, 9]) in Meaning(Start());
    assert !Sat(m, LitsOf([1, 6, 8])) || !Sat(m, LitsOf([-1, 7, 9]));
  }

  // The gate is found, the variable is eliminated, and then a model of the result cannot be extended to the
  // clauses at the start.
  method Run() returns (f: GateFinder, success: bool, ghost es: seq<EX.Entry>)
    ensures success && f.e.Valid() && f.e.extension == EX.EncodeAll(es)
    ensures !RE.Reconstructs(Meaning(f.e.Now()), es, Meaning(Start()))
    ensures EntailsAll(Meaning(Start()), Meaning(f.e.Now()))
  {
    f := Setup();
    WideThere();
    Search(f);
    success, es := Finish(f, Start());
  }

  method Search(f: GateFinder)
    requires f.Ready() && f.Unmarked() && f.gates == [] && f.e.Now() == Start()
    requires Occ(f.e.occs, 1) == [0, 1, 4] && AllWide(f.e.db, f.e.vals, 1) && AllWide(f.e.db, f.e.vals, -1)
    modifies f, f.e`db, f.e`vals, f.e`unsat, f.e`inactive
    ensures f.Ready() && f.Unmarked() && f.gates != [] && f.Found(1) && FlagsInside(f.e.db, f.gates)
    ensures Same(Start(), f.e.Now()) && FourFlagged(f.e.Now())
  {
    f.FindGateClauses(1, 5);
    GateFlagged(f.e.Now(), f.gates, [0, 1, 4]);
    assert forall j :: 0 <= j < |f.gates| ==> f.gates[j] in f.gates;
  }

  method Finish(f: GateFinder, ghost s0: State) returns (success: bool, ghost es: seq<EX.Entry>)
    requires f.Ready() && f.gates != [] && f.Found(1) && FlagsInside(f.e.db, f.gates) && f.e.clause == [] && f.e.marks == {}
    requires Same(s0, f.e.Now()) && s0 == Start() && FourFlagged(f.e.Now()) && f.e.eliminated == {} && f.e.extension == []
    requires Occ(f.e.occs, 1) == [0, 1, 4] && Occ(f.e.occs, -1) == [2, 3, 5]
    modifies f, f.e
    ensures success && f.e.Valid() && f.e.extension == EX.EncodeAll(es)
    ensures !RE.Reconstructs(Meaning(f.e.Now()), es, Meaning(s0))
    ensures EntailsAll(Meaning(s0), Meaning(f.e.Now()))
  {
    ghost var s := f.e.Now();
    success, es := f.FinishPivot(1, 16, 100, true, s0);
    StillOpen(f.e.Now());
    FewPairs(s);
    RestThere(s);
    ModelLost(s, Meaning(f.e.Now()), es);
    assert [] + EX.EncodeAll(es) == EX.EncodeAll(es);
  }
}
