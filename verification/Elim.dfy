// Bounded variable elimination: resolving all clauses with the pivot against all clauses with its
// negation, and moving the clauses of the pivot to the extension stack.
module Elim {
  import opened Cnf
  import opened Resolving
  import opened Eliminating
  import opened Spanning
  import EX = Extension
  import RE = Reconstruction
  import PE = PivotElimination
  import WA = Watching

  type Occs = map<Lit, seq<nat>>

  function Occ(occs: Occs, l: Lit): seq<nat> {
    if l in occs then occs[l] else []
  }

  ghost predicate Clean(db: Db) {
    forall u {:trigger Look(u)} :: Look(u) ==> forall k {:trigger db[k]} :: 0 <= k < |db| ==> WA.Distinct(db[k].lits)
  }

  ghost predicate Unique(list: seq<nat>) {
    forall i, j :: 0 <= i < j < |list| ==> list[i] != list[j]
  }

  // The occurrence list of a literal, which is full if its variable is still in use.
  ghost predicate FullList(db: Db, list: seq<nat>, l: Lit, inactive: set<nat>) {
    && Unique(list)
    && (forall k :: k in list ==> k < |db| && l in db[k].lits)
    && (Var(l) !in inactive ==> forall k: nat {:trigger k in list} {:trigger Live(db, k)} :: Live(db, k) && l in db[k].lits ==> k in list)
  }

  ghost predicate Connected(db: Db, occs: Occs, inactive: set<nat>) {
    forall u {:trigger Look(u)} :: Look(u) ==>
      forall l {:trigger FullList(db, Occ(occs, l), l, inactive)} :: FullList(db, Occ(occs, l), l, inactive)
  }

  // No live clause contains the variable.
  ghost predicate Absent(db: Db, l: Lit) {
    forall k {:trigger db[k]} :: 0 <= k < |db| && !db[k].garbage ==> Free(db[k].lits, l)
  }

  // Fixed variables are not in use any more, and other variables only if they are eliminated.
  ghost predicate Valued(vals: set<Lit>, inactive: set<nat>, eliminated: set<nat>) {
    && eliminated <= inactive
    && (forall l {:trigger l in vals} :: l in vals ==> l != 0 && -l !in vals && Var(l) in inactive)
    && (forall l: Lit {:trigger Var(l)} :: Var(l) in inactive ==> Var(l) in eliminated || l in vals || -l in vals)
  }

  predicate Remaining(lits: seq<Lit>, eliminated: set<nat>) {
    forall x {:trigger x in lits} :: x in lits ==> Var(x) !in eliminated
  }

  // No live clause contains an eliminated variable.
  ghost predicate Present(db: Db, eliminated: set<nat>, unsat: bool) {
    forall u {:trigger Look(u)} :: Look(u) ==>
      unsat || forall k {:trigger db[k]} :: 0 <= k < |db| && !db[k].garbage ==> Remaining(db[k].lits, eliminated)
  }

  lemma PresentClause(db: Db, eliminated: set<nat>, k: nat)
    requires Present(db, eliminated, false) && Live(db, k)
    ensures Remaining(db[k].lits, eliminated)
  {
    assert Look(0);
  }

  // Some clauses are gone or flagged, and some may be added.
  lemma PresentKept(db: Db, eliminated: set<nat>, unsat: bool, db': Db, unsat': bool)
    requires Present(db, eliminated, unsat) && |db| <= |db'| && (unsat ==> unsat')
    requires forall k {:trigger db'[k]} :: 0 <= k < |db| ==> db'[k].lits == db[k].lits && (db[k].garbage ==> db'[k].garbage)
    requires forall k {:trigger db'[k]} :: |db| <= k < |db'| ==> Remaining(db'[k].lits, eliminated)
    ensures Present(db', eliminated, unsat')
  {
    assert Look(0);
  }

  lemma PresentEliminated(db: Db, eliminated: set<nat>, unsat: bool, l: Lit)
    requires Present(db, eliminated, unsat) && (unsat || Absent(db, l))
    ensures Present(db, eliminated + {Var(l)}, unsat)
  {
    assert Look(0);
    if !unsat {
      forall k | 0 <= k < |db| && !db[k].garbage ensures Remaining(db[k].lits, eliminated + {Var(l)}) {
        assert Remaining(db[k].lits, eliminated) && Free(db[k].lits, l);
        assert forall x: Lit {:trigger Var(x)} :: Var(x) == Var(l) ==> x == l || x == -l;
      }
    }
  }

  // ----- Full occurrence lists during propagation.

  // The list of the literal has all live clauses with it.
  ghost predicate Complete(db: Db, occs: Occs, l: Lit) {
    forall k: nat {:trigger Live(db, k)} :: Live(db, k) && l in db[k].lits ==> k in Occ(occs, l)
  }

  ghost predicate AllComplete(db: Db, occs: Occs, work: seq<Lit>) {
    forall x {:trigger Complete(db, occs, x)} :: x in work ==> Complete(db, occs, x)
  }

  ghost predicate Gone(db: Db, l: Lit) {
    forall k: nat {:trigger Live(db, k)} :: Live(db, k) ==> l !in db[k].lits
  }

  // True literals that were not true before are queued, or no live clause has them.
  ghost predicate Handled(db: Db, vals: set<Lit>, vals0: set<Lit>, queue: seq<Lit>) {
    forall x {:trigger Gone(db, x)} :: x in vals && x !in vals0 ==> x in queue || Gone(db, x)
  }

  // No live clause has a literal that became true.
  ghost predicate Cleared(db: Db, vals: set<Lit>, vals0: set<Lit>) {
    forall u {:trigger Look(u)} :: Look(u) ==> forall x {:trigger Gone(db, x)} :: x in vals && x !in vals0 ==> Gone(db, x)
  }

  // An unassigned literal of a live clause has a full list.
  lemma ActiveComplete(db: Db, occs: Occs, vals: set<Lit>, inactive: set<nat>, eliminated: set<nat>, k: nat, l: Lit)
    requires Connected(db, occs, inactive) && Valued(vals, inactive, eliminated) && Present(db, eliminated, false)
    requires Live(db, k) && l in db[k].lits && l !in vals && -l !in vals
    ensures Complete(db, occs, l)
  {
    PresentClause(db, eliminated, k);
    assert Var(l) !in inactive;
    assert Look(0);
    assert FullList(db, Occ(occs, l), l, inactive);
  }

  // Queued literals are true, and their lists are full.
  ghost predicate Queued(db: Db, occs: Occs, vals: set<Lit>, work: seq<Lit>) {
    forall u {:trigger Look(u)} :: Look(u) ==> AllComplete(db, occs, work) && forall x {:trigger x in work} :: x in work ==> x in vals
  }

  lemma QueuedAt(db: Db, occs: Occs, vals: set<Lit>, work: seq<Lit>, i: nat)
    requires Queued(db, occs, vals, work) && i < |work|
    ensures work[i] in vals && Complete(db, occs, work[i])
  {
    assert Look(0);
    var x := work[i];
    assert x in work;
  }

  lemma QueuedFewer(db: Db, db': Db, occs: Occs, vals: set<Lit>, vals': set<Lit>, work: seq<Lit>)
    requires Queued(db, occs, vals, work) && Fewer(db, db') && vals <= vals'
    ensures Queued(db', occs, vals', work)
  {
    assert Look(0);
    FewerComplete(db, db', occs, work);
  }

  lemma QueuedMore(db: Db, occs: Occs, vals: set<Lit>, work: seq<Lit>, u: Lit)
    requires Queued(db, occs, vals, work) && u in vals && Complete(db, occs, u)
    ensures Queued(db, occs, vals, work + [u])
  {
    assert Look(0);
    assert forall x {:trigger x in work} :: x in work + [u] <==> x in work || x == u;
    forall x | x in work + [u] ensures Complete(db, occs, x) {
      assert x == u || x in work;
    }
  }

  lemma QueueLits(work: seq<Lit>, n: nat, u: Lit)
    requires n <= |work|
    ensures (work + [u])[n..] == work[n..] + [u] && LitsOf((work + [u])[n..]) == LitsOf(work[n..]) + {u}
  {
    assert (work + [u])[n..] == work[n..] + [u];
    LitsOfLast(work[n..], u);
  }

  lemma GoneNow(db: Db, occs: Occs, l: Lit, db': Db, vals: set<Lit>)
    requires Complete(db, occs, l) && OnlySatisfied(db, db', vals)
    requires forall j :: 0 <= j < |Occ(occs, l)| ==> Occ(occs, l)[j] < |db'| && db'[Occ(occs, l)[j]].garbage
    ensures Gone(db', l)
  {
    forall k: nat | Live(db', k) ensures l !in db'[k].lits {
      assert db'[k] == db[k] && Live(db, k);
      assert l in db[k].lits ==> k in Occ(occs, l);
    }
  }

  lemma HandledLater(db: Db, vals: set<Lit>, vals0: set<Lit>, work: seq<Lit>, i: nat, db': Db, vals': set<Lit>, work': seq<Lit>)
    requires i <= |work| && Handled(db, vals, vals0, work[i..]) && work <= work' && OnlySatisfied(db, db', vals')
    requires vals' == vals + LitsOf(work'[|work|..])
    ensures Handled(db', vals', vals0, work'[i..])
  {
    SatisfiedFewer(db, db', vals');
    FewerHandled(db, db', vals, vals0, work[i..]);
    assert work'[i..] == work[i..] + work'[|work|..];
    forall x | x in vals' && x !in vals0 ensures x in work'[i..] || Gone(db', x) {
      if x in vals && x !in work[i..] {
        assert Gone(db', x);
      }
    }
  }

  lemma HandledNext(db: Db, vals: set<Lit>, vals0: set<Lit>, work: seq<Lit>, i: nat, db': Db)
    requires i < |work| && Handled(db, vals, vals0, work[i..]) && Fewer(db, db') && Gone(db', work[i])
    ensures Handled(db', vals, vals0, work[i+1..])
  {
    FewerHandled(db, db', vals, vals0, work[i..]);
    assert work[i..] == [work[i]] + work[i+1..];
  }

  lemma ClearedNow(db: Db, vals: set<Lit>, vals0: set<Lit>, queue: seq<Lit>)
    requires Handled(db, vals, vals0, queue) && queue == []
    ensures Cleared(db, vals, vals0)
  {
  }

  // What a visited clause gives: a unit or a conflict.
  lemma VisitSpans(s: State, l: Lit, k: nat, u: Clause)
    requires Live(s.db, k) && 0 !in s.db[k].lits && forall x :: x in s.db[k].lits ==> -x in s.vals || x in u
    ensures forall x :: u == {x} ==> Spans(s, s.(vals := s.vals + {x}), l, iset{})
    ensures u == {} ==> Spans(s, s.(unsat := true), l, iset{})
  {
    if l !in s.vals && -l !in s.vals {
      UnitSpanned(s, l, k, u, iset{});
    }
    forall x | u == {x} ensures Spans(s, s.(vals := s.vals + {x}), l, iset{}) {
      if l in s.vals || -l in s.vals {
        SpansAssigned(s, s.(vals := s.vals + {x}), l, iset{});
      } else {
        assert l in u ==> x == l;
        SpansUnit(s, x, l, iset{});
      }
    }
    if u == {} {
      SpansUnsat(s, l, iset{});
    }
  }

  // Fewer clauses are live.
  ghost predicate Fewer(db: Db, db': Db) {
    |db'| == |db| && forall k {:trigger db'[k]} :: 0 <= k < |db| ==> db'[k].lits == db[k].lits && (db[k].garbage ==> db'[k].garbage)
  }

  lemma SatisfiedFewer(db: Db, db': Db, vals: set<Lit>)
    requires OnlySatisfied(db, db', vals)
    ensures Fewer(db, db')
  {
  }

  lemma FewerComplete(db: Db, db': Db, occs: Occs, work: seq<Lit>)
    requires Fewer(db, db') && AllComplete(db, occs, work)
    ensures AllComplete(db', occs, work)
  {
    forall x | x in work ensures Complete(db', occs, x) {
      assert Complete(db, occs, x);
      forall k: nat | Live(db', k) && x in db'[k].lits ensures k in Occ(occs, x) {
        assert Live(db, k);
      }
    }
  }

  lemma FewerHandled(db: Db, db': Db, vals: set<Lit>, vals0: set<Lit>, queue: seq<Lit>)
    requires Fewer(db, db') && Handled(db, vals, vals0, queue)
    ensures Handled(db', vals, vals0, queue)
  {
    forall x | x in vals && x !in vals0 ensures x in queue || Gone(db', x) {
      if x !in queue {
        assert Gone(db, x);
        forall k: nat | Live(db', k) ensures x !in db'[k].lits {
          assert Live(db, k);
        }
      }
    }
  }

  lemma ClauseDistinct(db: Db, k: nat)
    requires Clean(db) && k < |db|
    ensures WA.Distinct(db[k].lits)
  {
    assert Look(0);
  }

  lemma Listed(db: Db, occs: Occs, inactive: set<nat>, l: Lit, k: nat)
    requires Connected(db, occs, inactive)
    ensures k in Occ(occs, l) ==> k < |db| && l in db[k].lits
    ensures Live(db, k) && l in db[k].lits && Var(l) !in inactive ==> k in Occ(occs, l)
    ensures Unique(Occ(occs, l))
  {
    assert Look(0);
    assert FullList(db, Occ(occs, l), l, inactive);
  }

  lemma GarbageKeeps(db: Db, occs: Occs, inactive: set<nat>, k: nat)
    requires Clean(db) && Connected(db, occs, inactive) && k < |db|
    ensures var db' := db[k := db[k].(garbage := true)]; Clean(db') && Connected(db', occs, inactive)
  {
    assert Look(0);
    var db' := db[k := db[k].(garbage := true)];
    forall l ensures FullList(db', Occ(occs, l), l, inactive) {
      assert FullList(db, Occ(occs, l), l, inactive);
      assert forall n: nat :: Live(db', n) ==> Live(db, n);
    }
  }

  lemma InactiveKeeps(db: Db, occs: Occs, inactive: set<nat>, v: nat)
    requires Connected(db, occs, inactive)
    ensures Connected(db, occs, inactive + {v})
  {
    assert Look(0);
    forall l ensures FullList(db, Occ(occs, l), l, inactive + {v}) {
      assert FullList(db, Occ(occs, l), l, inactive);
    }
  }

  lemma ListAdded(db: Db, list: seq<nat>, l: Lit, inactive: set<nat>, lits: seq<Lit>, id: nat)
    requires FullList(db, list, l, inactive)
    ensures var db', n := db + [EClause(lits, false, false, id)], |db|;
            FullList(db', if l in lits && Var(l) !in inactive then list + [n] else list, l, inactive)
  {
    var db', n := db + [EClause(lits, false, false, id)], |db|;
    assert forall i :: 0 <= i < |list| ==> list[i] in list;
    assert forall k :: k in list + [n] <==> k in list || k == n;
    forall k: nat | Live(db', k) && k != n ensures Live(db, k) && db'[k] == db[k] {
    }
  }

  lemma AddedKeeps(db: Db, occs: Occs, inactive: set<nat>, lits: seq<Lit>, id: nat, occs': Occs)
    requires Clean(db) && Connected(db, occs, inactive) && WA.Distinct(lits)
    requires forall l {:trigger Occ(occs', l)} ::
               Occ(occs', l) == if l in lits && Var(l) !in inactive then Occ(occs, l) + [|db|] else Occ(occs, l)
    ensures var db' := db + [EClause(lits, false, false, id)]; Clean(db') && Connected(db', occs', inactive)
  {
    assert Look(0);
    var db' := db + [EClause(lits, false, false, id)];
    forall l ensures FullList(db', Occ(occs', l), l, inactive) {
      assert FullList(db, Occ(occs, l), l, inactive);
      ListAdded(db, Occ(occs, l), l, inactive, lits, id);
    }
  }

  // A finite set with all literals, for termination.
  ghost predicate Within(db: Db, univ: set<Lit>) {
    forall u {:trigger Look(u)} :: Look(u) ==> forall k {:trigger db[k]} :: 0 <= k < |db| ==> LitsOf(db[k].lits) <= univ
  }

  ghost function AllLits(db: Db): (univ: set<Lit>)
    ensures Within(db, univ)
  {
    if db == [] then {} else
      var n := |db| - 1;
      var rest := AllLits(db[..n]);
      assert Look(0);
      assert forall k :: 0 <= k < n ==> db[..n][k] == db[k];
      rest + LitsOf(db[n].lits)
  }

  class Eliminator {
    var db: Db
    var occs: Occs
    var vals: set<Lit>              // fixed literals
    var unsat: bool
    var inactive: set<nat>          // fixed or eliminated variables
    var eliminated: set<nat>
    var clause: seq<Lit>            // the resolvent
    var marks: set<Lit>
    var clauseId: nat
    var extension: seq<int>
    var backward: seq<nat>          // clauses to try for backward subsumption

    // Takes over the clauses of the solver with full occurrence lists.
    constructor (db: Db, occs: Occs, vals: set<Lit>, inactive: set<nat>, eliminated: set<nat>, extension: seq<int>)
      requires Clean(db) && Connected(db, occs, inactive) && Valued(vals, inactive, eliminated) && Present(db, eliminated, false)
      ensures Valid() && Now() == State(db, vals, false) && this.occs == occs && this.inactive == inactive
      ensures this.eliminated == eliminated && this.extension == extension && clause == [] && marks == {}
    {
      this.db, this.occs, this.vals, this.inactive, this.eliminated, this.extension := db, occs, vals, inactive, eliminated, extension;
      unsat, clause, marks, clauseId, backward := false, [], {}, 0, [];
    }

    ghost function Now(): State
      reads this
    {
      State(db, vals, unsat)
    }

    ghost predicate Valid()
      reads this
    {
      && Clean(db) && Connected(db, occs, inactive) && Valued(vals, inactive, eliminated)
      && Present(db, eliminated, unsat)
    }

    // ----- Single changes.

    method MarkGarbage(k: nat)
      requires Valid() && k < |db|
      modifies `db
      ensures Valid() && Now() == Removed(old(Now()), k)
    {
      GarbageKeeps(db, occs, inactive, k);
      PresentKept(db, eliminated, unsat, db[k := db[k].(garbage := true)], unsat);
      db := db[k := db[k].(garbage := true)];
    }

    method MarkSatisfied(k: nat, x: Lit, ghost l: Lit)
      requires Valid() && k < |db| && x in db[k].lits && x in vals
      modifies `db
      ensures Valid() && Kept(old(Now()), Now(), l) && Now() == Removed(old(Now()), k)
    {
      SatisfiedGarbage(Now(), l, k, x);
      MarkGarbage(k);
    }

    method AssignUnit(u: Lit, ghost l: Lit)
      requires Valid() && u != 0 && u !in vals && -u !in vals && Entails(Meaning(Now()), {u})
      modifies `vals, `inactive
      ensures Valid() && Kept(old(Now()), Now(), l) && Now() == old(Now()).(vals := old(vals) + {u})
      ensures inactive == old(inactive) + {Var(u)}
    {
      KeptUnit(Now(), l, u);
      InactiveKeeps(db, occs, inactive, Var(u));
      assert forall x: Lit :: Var(x) == Var(u) ==> x == u || -x == u;
      vals := vals + {u};
      inactive := inactive + {Var(u)};
    }

    method LearnEmptyClause(ghost l: Lit)
      requires Valid() && Entails(Meaning(Now()), {})
      modifies `unsat
      ensures Valid() && Kept(old(Now()), Now(), l) && Now() == old(Now()).(unsat := true)
    {
      KeptUnsat(Now(), l);
      PresentKept(db, eliminated, unsat, db, true);
      unsat := true;
    }

    // Connect the temporary clause.
    method Connect(r: nat)
      requires WA.Distinct(clause)
      modifies `occs
      ensures forall x {:trigger Occ(occs, x)} ::
                Occ(occs, x) == if x in clause && Var(x) !in inactive then Occ(old(occs), x) + [r] else Occ(old(occs), x)
    {
      for i := 0 to |clause|
        invariant forall x {:trigger Occ(occs, x)} ::
                    Occ(occs, x) == if x in clause[..i] && Var(x) !in inactive then Occ(old(occs), x) + [r] else Occ(old(occs), x)
      {
        var lit := clause[i];
        assert clause[..i+1] == clause[..i] + [lit];
        assert lit !in clause[..i] && forall x :: x in clause[..i+1] <==> x in clause[..i] || x == lit;
        ghost var before := occs;
        if Var(lit) !in inactive {
          occs := occs[lit := Occ(occs, lit) + [r]];
        }
        assert forall x {:trigger Occ(occs, x)} ::
          Occ(occs, x) == if x == lit && Var(x) !in inactive then Occ(before, x) + [r] else Occ(before, x);
      }
      assert clause[..|clause|] == clause;
    }

    // Add the temporary clause.
    method NewClause(ghost l: Lit) returns (r: nat)
      requires Valid() && WA.Distinct(clause) && Free(clause, l) && Entails(Meaning(Now()), LitsOf(clause))
      requires Remaining(clause, eliminated)
      modifies `db, `occs, `clauseId
      ensures Valid() && Kept(old(Now()), Now(), l) && LitsOf(clause) in Base(Now(), l)
      ensures r == |old(db)| && db == old(db) + [EClause(clause, false, false, clauseId)]
      ensures Occ(occs, l) == old(Occ(occs, l)) && Occ(occs, -l) == old(Occ(occs, -l))
    {
      r := |db|;
      clauseId := clauseId + 1;
      KeptAdd(Now(), l, clause, clauseId);
      Connect(r);
      AddedKeeps(db, old(occs), inactive, clause, clauseId, occs);
      PresentKept(db, eliminated, unsat, db + [EClause(clause, false, false, clauseId)], unsat);
      db := db + [EClause(clause, false, false, clauseId)];
    }

    // ----- Propagation over full occurrence lists.

    // A true literal, or the only literal that is not false.
    method Inspect(lits: seq<Lit>) returns (satisfied: Lit, unit: Lit, many: bool)
      requires 0 !in lits
      ensures satisfied != 0 ==> satisfied in lits && satisfied in vals
      ensures many ==> unit != 0
      ensures unit != 0 && satisfied == 0 ==> unit in lits && unit !in vals && -unit !in vals
      ensures satisfied == 0 && !many ==> forall x :: x in lits ==> -x in vals || x == unit
    {
      satisfied, unit, many := 0, 0, false;
      var i: nat := 0;
      while satisfied == 0 && i < |lits|
        invariant i <= |lits| && (satisfied != 0 ==> satisfied in lits && satisfied in vals)
        invariant (unit != 0 ==> unit in lits && unit !in vals && -unit !in vals) && (many ==> unit != 0)
        invariant satisfied == 0 && !many ==> forall j :: 0 <= j < i ==> -lits[j] in vals || (lits[j] == unit && unit != 0)
      {
        var other := lits[i];
        assert other in lits;
        if -other !in vals {
          if other in vals {
            satisfied := other;
          } else if unit != 0 {
            many := true;
          } else {
            unit := other;
          }
        }
        i := i + 1;
      }
    }

    // Visit a clause with a false literal.  A new unit is returned.
    method VisitFalse(k: nat, ghost l: Lit, ghost univ: set<Lit>) returns (unit: Lit)
      requires Valid() && k < |db| && !unsat && Within(db, univ)
      modifies `db, `vals, `unsat, `inactive
      ensures Valid() && Moved(old(Now()), Now(), l, iset{}) && Within(db, univ) && OnlySatisfied(old(db), db, vals)
      ensures if unit != 0 then vals == old(vals) + {unit} && unit !in old(vals) && unit in univ && Complete(db, occs, unit)
              else vals == old(vals)
    {
      unit := 0;
      MovedSame(Now(), l, iset{});
      SatisfiedSame(db, vals);
      if db[k].garbage { return; }
      ClauseDistinct(db, k);
      LiveIn(Now(), l, k);
      MemberEntailed(Meaning(Now()), LitsOf(db[k].lits));
      var satisfied, u, many := Inspect(db[k].lits);
      if satisfied != 0 {
        WithinGarbage(db, univ, k);
        SatisfiedNext(db, db, vals, k, satisfied);
        SpansRemoved(Now(), k, l, iset{});
        MarkSatisfied(k, satisfied, l);
      } else if u == 0 {
        UnitEntailed(Now(), db[k].lits, {});
        VisitSpans(Now(), l, k, {});
        LearnEmptyClause(l);
      } else if !many {
        UnitEntailed(Now(), db[k].lits, {u});
        VisitSpans(Now(), l, k, {u});
        InUniverse(db, univ, k, u);
        ActiveComplete(db, occs, vals, inactive, eliminated, k, u);
        AssignUnit(u, l);
        unit := u;
      }
    }

    // Visit all clauses with the negation of a true literal; new units are queued.
    method VisitAllFalse(lit: Lit, work: seq<Lit>, ghost l: Lit, ghost univ: set<Lit>) returns (work': seq<Lit>)
      requires Valid() && !unsat && Within(db, univ) && Queued(db, occs, vals, work)
      modifies `db, `vals, `unsat, `inactive
      ensures Valid() && Moved(old(Now()), Now(), l, iset{}) && Within(db, univ) && OnlySatisfied(old(db), db, vals)
      ensures work <= work' && Queued(db, occs, vals, work') && vals == old(vals) + LitsOf(work'[|work|..])
      ensures if |work'| == |work| then vals == old(vals) else |univ - vals| < |univ - old(vals)|
    {
      work' := work;
      ghost var s0 := Now();
      MovedSame(s0, l, iset{});
      SatisfiedSame(db, vals);
      assert vals + LitsOf([]) == vals;
      var list := Occ(occs, -lit);
      var i: nat := 0;
      while i < |list| && !unsat
        invariant i <= |list| && Valid() && Moved(s0, Now(), l, iset{}) && Within(db, univ) && OnlySatisfied(s0.db, db, vals)
        invariant work <= work' && Queued(db, occs, vals, work') && vals == s0.vals + LitsOf(work'[|work|..])
        invariant if |work'| == |work| then vals == s0.vals else |univ - vals| < |univ - s0.vals|
        decreases |list| - i
      {
        work' := VisitNext(list[i], -lit, work', s0, |work|, l, univ);
        i := i + 1;
      }
    }

    method VisitNext(k: nat, fl: Lit, work: seq<Lit>, ghost s0: State, ghost n: nat, ghost l: Lit, ghost univ: set<Lit>)
      returns (work': seq<Lit>)
      requires Valid() && !unsat && k in Occ(occs, fl) && n <= |work|
      requires Moved(s0, Now(), l, iset{}) && Within(db, univ) && OnlySatisfied(s0.db, db, vals)
      requires Queued(db, occs, vals, work) && vals == s0.vals + LitsOf(work[n..])
      requires if |work| == n then vals == s0.vals else |univ - vals| < |univ - s0.vals|
      modifies `db, `vals, `unsat, `inactive
      ensures Valid() && Moved(s0, Now(), l, iset{}) && Within(db, univ) && OnlySatisfied(s0.db, db, vals)
      ensures work <= work' && Queued(db, occs, vals, work') && vals == s0.vals + LitsOf(work'[n..])
      ensures if |work'| == n then vals == s0.vals else |univ - vals| < |univ - s0.vals|
    {
      ghost var s1 := Now();
      Listed(db, occs, inactive, fl, k);
      var unit := VisitFalse(k, l, univ);
      MovedTransitive(s0, s1, Now(), l, iset{});
      KeptParts(s1, Now(), l);
      SatisfiedTransitive(s0.db, s1.db, s1.vals, db, vals);
      SatisfiedFewer(s1.db, db, vals);
      QueuedFewer(s1.db, db, occs, s1.vals, vals, work);
      work' := work;
      if unit != 0 {
        Smaller(univ, s1.vals, vals, unit);
        QueuedMore(db, occs, vals, work, unit);
        QueueLits(work, n, unit);
        work' := work + [unit];
      }
    }

    // All clauses with a true literal become garbage.
    method VisitTrue(lit: Lit, ghost l: Lit, ghost univ: set<Lit>)
      requires Valid() && lit in vals && Within(db, univ) && Complete(db, occs, lit)
      modifies `db
      ensures Valid() && Moved(old(Now()), Now(), l, iset{}) && Within(db, univ) && OnlySatisfied(old(db), db, vals)
      ensures Gone(db, lit)
    {
      ghost var s0 := Now();
      MovedSame(s0, l, iset{});
      SatisfiedSame(db, vals);
      var list := Occ(occs, lit);
      for i := 0 to |list|
        invariant Valid() && Moved(s0, Now(), l, iset{}) && Within(db, univ) && OnlySatisfied(s0.db, db, vals)
        invariant forall j :: 0 <= j < i ==> list[j] < |db| && db[list[j]].garbage
      {
        ghost var s1 := Now();
        var k := list[i];
        Listed(db, occs, inactive, lit, k);
        if !db[k].garbage {
          WithinGarbage(db, univ, k);
          SatisfiedNext(s0.db, db, vals, k, lit);
          SpansRemoved(Now(), k, l, iset{});
          MarkSatisfied(k, lit, l);
          MovedTransitive(s0, s1, Now(), l, iset{});
        }
      }
      GoneNow(s0.db, occs, lit, db, vals);
    }

    // Propagate a true literal.  Unless there is a conflict, no live clause is left with a literal that
    // became true.
    method ElimPropagate(root: Lit, ghost l: Lit)
      requires Valid() && root in vals && !unsat && Complete(db, occs, root)
      modifies `db, `vals, `unsat, `inactive
      ensures Valid() && Moved(old(Now()), Now(), l, iset{}) && OnlySatisfied(old(db), db, vals)
      ensures unsat || Cleared(db, vals, old(vals) - {root})
    {
      ghost var s0, univ := Now(), AllLits(db);
      MovedSame(s0, l, iset{});
      SatisfiedSame(db, vals);
      var work := [root];
      var i: nat := 0;
      while i < |work| && !unsat
        invariant i <= |work| && Valid() && Moved(s0, Now(), l, iset{}) && Within(db, univ) && OnlySatisfied(s0.db, db, vals)
        invariant Queued(db, occs, vals, work)
        invariant unsat || Handled(db, vals, s0.vals - {root}, work[i..])
        decreases |univ - vals|, |work| - i
      {
        work := PropagateNext(work, i, s0, s0.vals - {root}, l, univ);
        i := i + 1;
      }
      if !unsat {
        ClearedNow(db, vals, s0.vals - {root}, work[i..]);
      }
    }

    method PropagateNext(work: seq<Lit>, i: nat, ghost s0: State, ghost vals0: set<Lit>, ghost l: Lit, ghost univ: set<Lit>)
      returns (work': seq<Lit>)
      requires Valid() && !unsat && i < |work| && Moved(s0, Now(), l, iset{}) && Within(db, univ) && OnlySatisfied(s0.db, db, vals)
      requires Queued(db, occs, vals, work) && Handled(db, vals, vals0, work[i..])
      modifies `db, `vals, `unsat, `inactive
      ensures Valid() && Moved(s0, Now(), l, iset{}) && Within(db, univ) && OnlySatisfied(s0.db, db, vals)
      ensures work <= work' && Queued(db, occs, vals, work') && (unsat || Handled(db, vals, vals0, work'[i+1..]))
      ensures if |work'| == |work| then vals == old(vals) else |univ - vals| < |univ - old(vals)|
    {
      var lit := work[i];
      ghost var s1 := Now();
      work' := VisitAllFalse(lit, work, l, univ);
      MovedTransitive(s0, s1, Now(), l, iset{});
      KeptParts(s1, Now(), l);
      SatisfiedTransitive(s0.db, s1.db, s1.vals, db, vals);
      if unsat { return; }
      ghost var s2 := Now();
      HandledLater(s1.db, s1.vals, vals0, work, i, db, vals, work');
      QueuedAt(db, occs, vals, work', i);
      VisitTrue(lit, l, univ);
      MovedTransitive(s0, s2, Now(), l, iset{});
      SatisfiedTransitive(s0.db, s2.db, s2.vals, db, vals);
      SatisfiedFewer(s2.db, db, vals);
      QueuedFewer(s2.db, db, occs, vals, vals, work');
      HandledNext(s2.db, vals, vals0, work', i, db);
    }

    // ----- Resolution of two clauses.

    // The literals of the first antecedent become the resolvent and are marked.
    method FirstAntecedent(lits: seq<Lit>, pivot: Lit) returns (satisfied: Lit, size: nat)
      requires clause == [] && marks == {} && WA.Distinct(lits) && pivot in lits
      modifies `clause, `marks
      ensures marks <= LitsOf(lits)
      ensures satisfied != 0 ==> satisfied in lits && satisfied in vals
      ensures satisfied == 0 ==> clause == Open(lits, pivot, vals) && marks == LitsOf(clause) && size == |clause| + 1
      ensures satisfied == 0 ==> forall x :: x in clause ==> x !in vals
    {
      satisfied, size := 0, 0;
      FirstStart(lits, pivot, vals);
      var i: nat := 0;
      while satisfied == 0 && i < |lits|
        invariant i <= |lits| && (satisfied != 0 ==> satisfied in lits && satisfied in vals)
        invariant FirstSome(lits, if satisfied == 0 then i else i - 1, pivot, vals, clause, marks, size)
      {
        var lit := lits[i];
        FirstStep(lits, i, pivot, vals, clause, marks, size);
        i := i + 1;
        if lit == pivot {
          size := size + 1;
        } else if lit in vals {
          satisfied := lit;
        } else if -lit !in vals {
          marks := marks + {lit};
          clause := clause + [lit];
          size := size + 1;
        }
      }
      FirstEnd(lits, if satisfied == 0 then i else i - 1, pivot, vals, clause, marks, size);
    }

    // Look at a literal of the second antecedent.
    method SecondLiteral(lit: Lit, pivot: Lit, size0: nat, ghost a: seq<Lit>, ghost seen: seq<Lit>)
      returns (satisfied: Lit, tautological: Lit, size: nat)
      requires marks == LitsOf(a) && Collected(seen, pivot, vals, a, clause, size0) && lit !in seen && lit != 0
      modifies `clause
      ensures satisfied != 0 ==> satisfied == lit && lit in vals
      ensures tautological != 0 ==> tautological == lit && lit != pivot && -lit in a
      ensures satisfied == 0 && tautological == 0 ==> Collected(seen + [lit], pivot, vals, a, clause, size)
    {
      satisfied, tautological, size := 0, 0, size0;
      if lit == pivot {
        CollectedSame(seen, lit, pivot, vals, a, clause, size);
        size := size + 1;
      } else if lit in vals {
        satisfied := lit;
      } else if -lit in vals {
        CollectedSame(seen, lit, pivot, vals, a, clause, size);
      } else if -lit in marks {
        tautological := lit;
      } else if lit in marks {
        CollectedSame(seen, lit, pivot, vals, a, clause, size);
        size := size + 1;
      } else {
        CollectedMore(seen, lit, pivot, vals, a, clause, size);
        clause := clause + [lit];
        size := size + 1;
      }
    }

    // Add the literals of the second antecedent, looking for a clashing literal.
    method SecondAntecedent(lits: seq<Lit>, pivot: Lit) returns (satisfied: Lit, tautological: Lit, size: nat)
      requires marks == LitsOf(clause) && WA.Distinct(lits) && pivot in lits
      modifies `clause
      ensures satisfied != 0 ==> satisfied in lits && satisfied in vals
      ensures tautological != 0 ==> tautological in lits && tautological != pivot && -tautological in marks
      ensures satisfied == 0 && tautological == 0 ==>
                clause == old(clause) + Extra(Open(lits, pivot, vals), old(clause)) && size == |Open(lits, pivot, vals)| + 1
      ensures satisfied == 0 && tautological == 0 ==> NoClash(clause, old(clause), vals)
    {
      satisfied, tautological, size := 0, 0, 0;
      ghost var a := clause;
      var i: nat := 0;
      CollectedStart(pivot, vals, a);
      assert lits[..0] == [];
      while satisfied == 0 && tautological == 0 && i < |lits|
        invariant i <= |lits|
        invariant satisfied != 0 ==> satisfied in lits && satisfied in vals
        invariant tautological != 0 ==> tautological in lits && tautological != pivot && -tautological in a
        invariant satisfied == 0 && tautological == 0 ==> Collected(lits[..i], pivot, vals, a, clause, size)
      {
        var lit := lits[i];
        assert lits[..i+1] == lits[..i] + [lit] && lit in lits && lit !in lits[..i];
        satisfied, tautological, size := SecondLiteral(lit, pivot, size, a, lits[..i]);
        i := i + 1;
      }
      assert lits[..|lits|] == lits && Look(0);
    }

    method Unmark(lits: seq<Lit>)
      requires marks <= LitsOf(lits)
      modifies `marks
      ensures marks == {}
    {
      for i := 0 to |lits|
        invariant marks <= LitsOf(lits[i..])
      {
        assert lits[i..] == [lits[i]] + lits[i+1..];
        marks := marks - {lits[i]};
      }
    }

    // On-the-fly self-subsumption: the clause is replaced by a copy without the pivot.
    method SelfSubsume(c: nat, pivot: Lit, ghost r: Formula)
      requires Valid() && Live(db, c) && clause == [] && pivot in db[c].lits && !unsat
      requires Entails(Meaning(Now()), LitsOf(Open(db[c].lits, pivot, vals)))
      requires Entails(Base(Now(), pivot) + r, LitsOf(Open(db[c].lits, pivot, vals)))
      modifies `db, `occs, `clauseId, `clause
      ensures Valid() && Moved(old(Now()), Now(), pivot, r) && clause == []
      ensures |db| > c && db[c].garbage && LitsOf(Open(old(db)[c].lits, pivot, vals)) in Base(Now(), pivot)
      ensures Occ(occs, pivot) == old(Occ(occs, pivot)) && Occ(occs, -pivot) == old(Occ(occs, -pivot))
    {
      ghost var s0 := Now();
      ClauseDistinct(db, c);
      CopyOpen(db[c].lits, pivot);
      OpenDistinct(db[c].lits, pivot, vals);
      PresentClause(db, eliminated, c);
      var k := NewClause(pivot);
      SpansAdd(s0, clause, clauseId, pivot, r);
      ghost var s1 := Now();
      SubsumedGarbage(s1, pivot, c, LitsOf(clause));
      SpansRemoved(s1, c, pivot, r);
      MarkGarbage(c);
      MovedTransitive(s0, s1, Now(), pivot, r);
      clause := [];
    }

    method CopyOpen(lits: seq<Lit>, pivot: Lit)
      requires clause == []
      modifies `clause
      ensures clause == Open(lits, pivot, vals)
    {
      for i := 0 to |lits|
        invariant clause == Open(lits[..i], pivot, vals)
      {
        assert lits[..i+1] == lits[..i] + [lits[i]];
        OpenLast(lits[..i], lits[i], pivot, vals);
        if lits[i] != pivot && -lits[i] !in vals {
          clause := clause + [lits[i]];
        }
      }
      assert lits[..|lits|] == lits;
    }

    // Compute the resolvent.  It is kept unless one of the antecedents is satisfied or the
    // resolvent is tautological.
    method ComputeResolvent(c: nat, pivot: Lit, d: nat) returns (s: nat, t: nat, done: bool)
      requires Valid() && Live(db, c) && Live(db, d) && clause == [] && marks == {} && pivot != 0
      requires pivot in db[c].lits && -pivot in db[d].lits
      modifies `db, `clause, `marks
      ensures Valid() && marks == {}
      ensures done ==> clause == [] && Moved(old(Now()), Now(), pivot, ResolventOf(old(Now()), pivot, c, d))
      ensures done ==> |db| == |old(db)| && Resolved(Now(), c, pivot, d)
      ensures !done ==> db == old(db) && s == |Open(db[c].lits, pivot, vals)| + 1 && t == |Open(db[d].lits, -pivot, vals)| + 1
      ensures !done ==> var a := Open(db[c].lits, pivot, vals); clause == a + Extra(Open(db[d].lits, -pivot, vals), a)
      ensures !done ==> WA.Distinct(clause) && forall x :: x in clause ==> x !in vals && -x !in vals
    {
      ClauseDistinct(db, c);
      ClauseDistinct(db, d);
      var satisfied, tautological;
      t, done := 0, true;
      SpansRemoved(Now(), c, pivot, ResolventOf(Now(), pivot, c, d));
      SpansRemoved(Now(), d, pivot, ResolventOf(Now(), pivot, c, d));
      satisfied, s := FirstAntecedent(db[c].lits, pivot);
      if satisfied != 0 {
        MarkSatisfied(c, satisfied, pivot);
        clause := [];
        Unmark(db[c].lits);
        return;
      }
      ghost var a := clause;
      satisfied, tautological, t := SecondAntecedent(db[d].lits, -pivot);
      Unmark(db[c].lits);
      if satisfied != 0 {
        MarkSatisfied(d, satisfied, pivot);
        clause := [];
        return;
      }
      if tautological != 0 {
        MovedSame(Now(), pivot, ResolventOf(Now(), pivot, c, d));
        ResolvedTautology(Now(), c, pivot, d, tautological);
        clause := [];
        return;
      }
      ResolventDistinct(db[c].lits, pivot, db[d].lits, vals);
      done := false;
    }

    // An empty or unit resolvent is learned.
    method LearnResolvent(c: nat, pivot: Lit, d: nat, eager: bool)
      requires Valid() && |clause| <= 1 && !unsat && Unassigned(pivot)
      requires c < |db| && d < |db| && ResolventReady(Now(), clause, c, pivot, d)
      modifies `db, `vals, `unsat, `inactive, `clause
      ensures Valid() && Moved(old(Now()), Now(), pivot, ResolventOf(old(Now()), pivot, c, d)) && clause == [] && |db| == |old(db)| && Resolved(Now(), c, pivot, d)
      ensures !eager ==> Unassigned(pivot)
    {
      ghost var s0, r := Now(), ResolventOf(Now(), pivot, c, d);
      assert Look(0);
      if clause == [] {
        SpansUnsat(s0, pivot, r);
        LearnEmptyClause(pivot);
        return;
      }
      var unit := clause[0];
      assert LitsOf(clause) == {unit};
      clause := [];
      assert unit in LitsOf([unit]);
      SpansUnit(s0, unit, pivot, r);
      UnitComplete(Now(), occs, inactive, eliminated, c, pivot, d, unit);
      AssignUnit(unit, pivot);
      ghost var s1 := Now();
      assert {unit} in Base(s1, pivot);
      ResolvedBy(s1, c, pivot, d, {unit});
      if eager {
        ElimPropagate(unit, pivot);
        MovedMore(s1, Now(), pivot, r);
        MovedTransitive(s0, s1, Now(), pivot, r);
        ResolvedKept(s1, Now(), c, pivot, d);
      }
    }

    // Replace an antecedent by the resolvent if that is possible.
    method Strengthen(c: nat, pivot: Lit, d: nat, s: nat, t: nat) returns (done: bool)
      requires Valid() && !unsat && Live(db, c) && Live(db, d) && pivot != 0 && pivot in db[c].lits && -pivot in db[d].lits
      requires s == |Open(db[c].lits, pivot, vals)| + 1 && t == |Open(db[d].lits, -pivot, vals)| + 1
      requires var a := Open(db[c].lits, pivot, vals); clause == a + Extra(Open(db[d].lits, -pivot, vals), a)
      modifies `db, `occs, `clauseId, `clause
      ensures Valid() && |db| >= |old(db)|
      ensures Occ(occs, pivot) == old(Occ(occs, pivot)) && Occ(occs, -pivot) == old(Occ(occs, -pivot))
      ensures if done then clause == [] && Moved(old(Now()), Now(), pivot, ResolventOf(old(Now()), pivot, c, d)) && Resolved(Now(), c, pivot, d)
              else clause == old(clause) && Now() == old(Now())
    {
      ClauseDistinct(db, c);
      ClauseDistinct(db, d);
      SubsumedAntecedent(Now(), pivot, c, d);
      var size := |clause|;
      done := true;
      if s > size && t > size {
        StrengthenBoth(c, pivot, d);
      } else if s > size {
        StrengthenFirst(c, pivot, d);
      } else if t > size {
        StrengthenSecond(c, pivot, d);
      } else {
        done := false;
      }
    }

    method StrengthenFirst(c: nat, pivot: Lit, d: nat)
      requires Valid() && !unsat && Live(db, c) && Live(db, d) && pivot in db[c].lits
      requires Entails(Meaning(Now()), LitsOf(Open(db[c].lits, pivot, vals))) && Follows(Now(), pivot, c, d, LitsOf(Open(db[c].lits, pivot, vals)))
      modifies `db, `occs, `clauseId, `clause
      ensures Valid() && clause == [] && Moved(old(Now()), Now(), pivot, ResolventOf(old(Now()), pivot, c, d))
      ensures c < |db| && d < |db| && |db| >= |old(db)| && Resolved(Now(), c, pivot, d)
      ensures Occ(occs, pivot) == old(Occ(occs, pivot)) && Occ(occs, -pivot) == old(Occ(occs, -pivot))
    {
      ghost var r := ResolventOf(Now(), pivot, c, d);
      clause := [];
      SelfSubsume(c, pivot, r);
      StillFree(old(Now()), Now(), pivot, d);
    }

    method StrengthenSecond(c: nat, pivot: Lit, d: nat)
      requires Valid() && !unsat && Live(db, c) && Live(db, d) && -pivot in db[d].lits
      requires Entails(Meaning(Now()), LitsOf(Open(db[d].lits, -pivot, vals))) && Follows(Now(), pivot, c, d, LitsOf(Open(db[d].lits, -pivot, vals)))
      modifies `db, `occs, `clauseId, `clause
      ensures Valid() && clause == [] && Moved(old(Now()), Now(), pivot, ResolventOf(old(Now()), pivot, c, d))
      ensures c < |db| && d < |db| && |db| >= |old(db)| && Resolved(Now(), c, pivot, d)
      ensures Occ(occs, pivot) == old(Occ(occs, pivot)) && Occ(occs, -pivot) == old(Occ(occs, -pivot))
    {
      ghost var r := ResolventOf(Now(), pivot, c, d);
      clause := [];
      var negated := -pivot;
      assert -negated == pivot;
      BaseFlip(Now(), pivot);
      SelfSubsume(d, negated, r);
      SecondDone(old(Now()), Now(), pivot, c, d);
    }

    // The resolvent subsumes both antecedents.
    method StrengthenBoth(c: nat, pivot: Lit, d: nat)
      requires Valid() && !unsat && Live(db, c) && Live(db, d) && pivot in db[c].lits && -pivot in db[d].lits
      requires Entails(Meaning(Now()), LitsOf(Open(db[c].lits, pivot, vals))) && Follows(Now(), pivot, c, d, LitsOf(Open(db[c].lits, pivot, vals)))
      requires LitsOf(Open(db[c].lits, pivot, vals)) <= LitsOf(db[d].lits)
      modifies `db, `occs, `clauseId, `clause
      ensures Valid() && clause == [] && Moved(old(Now()), Now(), pivot, ResolventOf(old(Now()), pivot, c, d))
      ensures c < |db| && d < |db| && |db| >= |old(db)| && Resolved(Now(), c, pivot, d)
      ensures Occ(occs, pivot) == old(Occ(occs, pivot)) && Occ(occs, -pivot) == old(Occ(occs, -pivot))
    {
      ghost var s0 := Now();
      ghost var r := ResolventOf(Now(), pivot, c, d);
      clause := [];
      SelfSubsume(c, pivot, r);
      ghost var s1 := Now();
      StillFree(s0, s1, pivot, d);
      SubsumedGarbage(s1, pivot, d, LitsOf(Open(s0.db[c].lits, pivot, vals)));
      SpansRemoved(s1, d, pivot, r);
      MarkGarbage(d);
      MovedTransitive(s0, s1, Now(), pivot, r);
    }

    ghost predicate Unassigned(l: Lit)
      reads this
    {
      l !in vals && -l !in vals
    }

    method ResolveOrdered(c: nat, pivot: Lit, d: nat, eager: bool) returns (added: bool)
      requires Valid() && Live(db, c) && Live(db, d) && clause == [] && marks == {} && !unsat && Unassigned(pivot)
      requires pivot != 0 && pivot in db[c].lits && -pivot in db[d].lits
      modifies `db, `occs, `vals, `unsat, `inactive, `clause, `marks, `clauseId
      ensures Valid() && marks == {} && |db| >= |old(db)|
      ensures Occ(occs, pivot) == old(Occ(occs, pivot)) && Occ(occs, -pivot) == old(Occ(occs, -pivot))
      ensures !eager ==> Unassigned(pivot)
      ensures if added then Now() == old(Now()) && NewResolvent(Now(), clause, c, pivot, d)
              else clause == [] && Moved(old(Now()), Now(), pivot, ResolventOf(old(Now()), pivot, c, d)) && Resolved(Now(), c, pivot, d)
    {
      ClauseDistinct(db, c);
      ClauseDistinct(db, d);
      OpenResolvent(Now(), pivot, c, d);
      OpenPairLits(Now(), c, pivot, d);
      var s, t, done := ComputeResolvent(c, pivot, d);
      if done { return false; }
      added := UseResolvent(c, pivot, d, s, t, eager);
    }

    // The resolvent is learned, replaces an antecedent, or is left to be added.
    method UseResolvent(c: nat, pivot: Lit, d: nat, s: nat, t: nat, eager: bool) returns (added: bool)
      requires Valid() && Live(db, c) && Live(db, d) && !unsat && Unassigned(pivot)
      requires pivot != 0 && pivot in db[c].lits && -pivot in db[d].lits
      requires s == |Open(db[c].lits, pivot, vals)| + 1 && t == |Open(db[d].lits, -pivot, vals)| + 1
      requires var a := Open(db[c].lits, pivot, vals); clause == a + Extra(Open(db[d].lits, -pivot, vals), a)
      requires ResolventReady(Now(), clause, c, pivot, d)
      modifies `db, `occs, `vals, `unsat, `inactive, `clause, `clauseId
      ensures Valid() && |db| >= |old(db)|
      ensures Occ(occs, pivot) == old(Occ(occs, pivot)) && Occ(occs, -pivot) == old(Occ(occs, -pivot))
      ensures !eager ==> Unassigned(pivot)
      ensures if added then Now() == old(Now()) && NewResolvent(Now(), clause, c, pivot, d)
              else clause == [] && Moved(old(Now()), Now(), pivot, ResolventOf(old(Now()), pivot, c, d)) && Resolved(Now(), c, pivot, d)
    {
      if |clause| <= 1 {
        LearnResolvent(c, pivot, d, eager);
        return false;
      }
      ReadyNew(Now(), clause, c, pivot, d);
      var done := Strengthen(c, pivot, d, s, t);
      added := !done;
    }

    // Resolve two clauses.  A resolvent to be added is left in 'clause', all other cases are
    // handled right away.
    method ResolveClauses(c: nat, pivot: Lit, d: nat, eager: bool) returns (added: bool)
      requires Valid() && c < |db| && d < |db| && clause == [] && marks == {} && !unsat && Unassigned(pivot)
      requires pivot != 0 && pivot in db[c].lits && -pivot in db[d].lits
      modifies `db, `occs, `vals, `unsat, `inactive, `clause, `marks, `clauseId
      ensures Valid() && marks == {} && |db| >= |old(db)|
      ensures Occ(occs, pivot) == old(Occ(occs, pivot)) && Occ(occs, -pivot) == old(Occ(occs, -pivot))
      ensures !eager ==> Unassigned(pivot)
      ensures old(db)[c].garbage || old(db)[d].garbage ==> !added && Now() == old(Now())
      ensures if added then Now() == old(Now()) && NewResolvent(Now(), clause, c, pivot, d)
              else clause == [] && Moved(old(Now()), Now(), pivot, ResolventOf(old(Now()), pivot, c, d)) && Resolved(Now(), c, pivot, d)
    {
      MovedSame(Now(), pivot, ResolventOf(Now(), pivot, c, d));
      if db[c].garbage || db[d].garbage { return false; }
      if |db[c].lits| > |db[d].lits| {
        var negated := -pivot;
        assert -negated == pivot;
        added := ResolveOrdered(d, negated, c, eager);
        if added {
          ResolventFlip(Now(), clause, c, pivot, d);
        } else {
          ResolventFlipped(old(Now()), pivot, c, d);
          MovedFlip(old(Now()), Now(), negated, ResolventOf(old(Now()), negated, d, c));
          ResolvedFlip(Now(), c, pivot, d);
        }
      } else {
        added := ResolveOrdered(c, pivot, d, eager);
      }
    }

    // ----- Is the number of resolvents bounded?

    // Count the resolvents of one clause.  Those counted are 'pending', all others need no attention.
    method BoundedRow(c: nat, pivot: Lit, ns: seq<nat>, resolvents0: nat, bound: int, sizeLimit: int, substitute: bool, ghost pending0: Pending)
      returns (ok: bool, resolvents: nat, ghost pending: Pending)
      requires Valid() && c < |db| && clause == [] && marks == {} && !unsat && Unassigned(pivot) && pivot != 0
      requires pivot in db[c].lits && ns == Occ(occs, -pivot) && |pending0| <= resolvents0 <= NotNegative(bound)
      requires Small(Now(), pivot, pending0, sizeLimit)
      modifies `db, `occs, `vals, `unsat, `inactive, `clause, `marks, `clauseId
      ensures Valid() && clause == [] && marks == {} && Moved(old(Now()), Now(), pivot, Pairs(old(Now()), pivot, substitute))
      ensures Occ(occs, pivot) == old(Occ(occs, pivot)) && Occ(occs, -pivot) == old(Occ(occs, -pivot))
      ensures ok ==> !unsat && Unassigned(pivot) && RowLeft(Now(), c, pivot, ns, |ns|, substitute, pending) && resolvents <= NotNegative(bound)
      ensures ok ==> Small(Now(), pivot, pending, sizeLimit)
      ensures resolvents <= resolvents0 + |ns| && pending0 <= pending && |pending| <= resolvents
      ensures !ok ==> unsat || !Unassigned(pivot) || resolvents0 + |ns| > bound || LongPair(old(db), c, ns, sizeLimit)
    {
      ok, resolvents, pending := true, resolvents0, pending0;
      ghost var s0 := Now();
      ListInside(db, occs, inactive, -pivot);
      MovedSame(s0, pivot, Pairs(s0, pivot, substitute));
      RowStart(s0, c, pivot, ns, substitute);
      RowLeftDone(s0, c, pivot, ns, 0, substitute, pending);
      var i: nat := 0;
      while ok && i < |ns|
        invariant i <= |ns| && Valid() && clause == [] && marks == {} && Moved(s0, Now(), pivot, Pairs(s0, pivot, substitute))
        invariant Occ(occs, pivot) == old(Occ(occs, pivot)) && Occ(occs, -pivot) == ns && resolvents <= resolvents0 + i
        invariant pending0 <= pending && |pending| <= resolvents
        invariant ok ==> !unsat && Unassigned(pivot) && RowLeft(Now(), c, pivot, ns, i, substitute, pending) && resolvents <= NotNegative(bound)
        invariant ok ==> Small(Now(), pivot, pending, sizeLimit)
        invariant !ok ==> unsat || !Unassigned(pivot) || resolvents > bound || LongPair(s0.db, c, ns, sizeLimit)
        decreases |ns| - i
      {
        ghost var s1, before := Now(), pending;
        ok, resolvents, pending := BoundedPair(c, pivot, ns, i, resolvents, bound, sizeLimit, substitute, s0, pending);
        if ok {
          RowLeftKept(s1, Now(), c, pivot, ns, i, substitute, before, pending);
          RowLeftNext(Now(), c, pivot, ns, i, substitute, pending);
        }
        i := i + 1;
      }
    }

    // Resolve one pair, only to see whether a resolvent has to be counted.
    method BoundedPair(c: nat, pivot: Lit, ns: seq<nat>, i: nat, resolvents0: nat, bound: int, sizeLimit: int, substitute: bool,
                       ghost s0: State, ghost pending0: Pending)
      returns (ok: bool, resolvents: nat, ghost pending: Pending)
      requires Valid() && c < |s0.db| && clause == [] && marks == {} && !unsat && Unassigned(pivot) && pivot != 0
      requires pivot in s0.db[c].lits && ns == Occ(occs, -pivot) && i < |ns| && |pending0| <= resolvents0 <= NotNegative(bound)
      requires Moved(s0, Now(), pivot, Pairs(s0, pivot, substitute)) && forall d :: d in ns ==> d < |s0.db|
      requires Small(Now(), pivot, pending0, sizeLimit)
      modifies `db, `occs, `vals, `unsat, `inactive, `clause, `marks, `clauseId
      ensures Valid() && clause == [] && marks == {} && Moved(s0, Now(), pivot, Pairs(s0, pivot, substitute)) && Kept(old(Now()), Now(), pivot)
      ensures Occ(occs, pivot) == old(Occ(occs, pivot)) && Occ(occs, -pivot) == old(Occ(occs, -pivot))
      ensures resolvents <= resolvents0 + 1 && pending0 <= pending && |pending| <= resolvents
      ensures ok ==> !unsat && Unassigned(pivot) && PairLeft(Now(), c, pivot, ns[i], substitute, pending) && resolvents <= NotNegative(bound)
      ensures ok ==> Small(Now(), pivot, pending, sizeLimit)
      ensures !ok ==> unsat || !Unassigned(pivot) || resolvents > bound || LongPair(s0.db, c, ns, sizeLimit)
    {
      ok, resolvents, pending := true, resolvents0, pending0;
      var d := ns[i];
      Listed(db, occs, inactive, -pivot, d);
      StillThere(s0, Now(), pivot, c);
      KeptSame(Now(), pivot);
      if db[d].garbage || (substitute && db[c].gate == db[d].gate) { return; }
      ghost var s1 := Now();
      var added := ResolveClauses(c, pivot, d, true);
      if added {
        resolvents := resolvents + 1;
        PendingMore(pending, c, d);
        ResolventSize(s0, Now(), clause, c, pivot, d, ns, sizeLimit);
        var size := |clause|;
        if size <= sizeLimit {
          SmallNext(Now(), clause, c, pivot, d, pending, sizeLimit);
        }
        pending := pending + {(c, d)};
        clause := [];
        ok := !(size > sizeLimit || resolvents > bound);
      } else {
        PairSpans(s0, s1, Now(), pivot, substitute, c, d);
        SmallKept(s1, Now(), pivot, pending, sizeLimit);
        ok := !(unsat || pivot in vals || -pivot in vals);
      }
    }

    // A positive answer means that at most the allowed number of pairs have to be resolved.  Otherwise there
    // was a conflict, the pivot was assigned, or there are too many or too long pairs.
    method ResolventsBounded(pivot: Lit, elimBound: int, sizeLimit: int, substitute: bool) returns (ok: bool)
      requires Valid() && clause == [] && marks == {} && !unsat && Unassigned(pivot) && pivot != 0
      modifies `db, `occs, `vals, `unsat, `inactive, `clause, `marks, `clauseId
      ensures Valid() && clause == [] && marks == {} && Moved(old(Now()), Now(), pivot, Pairs(old(Now()), pivot, substitute))
      ensures Occ(occs, pivot) == old(Occ(occs, pivot)) && Occ(occs, -pivot) == old(Occ(occs, -pivot))
      ensures ok ==> !unsat && Unassigned(pivot) && (Occ(occs, pivot) == [] || Occ(occs, -pivot) == [] ==> elimBound >= 0)
      ensures ok ==> FewLeft(Now(), Occ(occs, pivot), pivot, Occ(occs, -pivot), substitute,
                            NotNegative(|Occ(occs, pivot)| + |Occ(occs, -pivot)| + elimBound), sizeLimit)
      ensures !ok ==> unsat || !Unassigned(pivot) || Crowded(old(db), Occ(occs, pivot), Occ(occs, -pivot), elimBound, sizeLimit)
    {
      ghost var s0 := Now();
      MovedSame(s0, pivot, Pairs(s0, pivot, substitute));
      var ps, ns := Occ(occs, pivot), Occ(occs, -pivot);
      NothingLeft(s0, ps, pivot, ns, substitute);
      var bound := |ps| + |ns| + elimBound;
      if ps == [] || ns == [] { return elimBound >= 0; }
      ListInside(db, occs, inactive, pivot);
      ListInside(db, occs, inactive, -pivot);
      var resolvents: nat := 0;
      ghost var pending: Pending := {};
      ok := true;
      var i: nat := 0;
      while i < |ps| && ok
        invariant i <= |ps| && Valid() && clause == [] && marks == {} && Moved(s0, Now(), pivot, Pairs(s0, pivot, substitute))
        invariant Occ(occs, pivot) == ps && Occ(occs, -pivot) == ns && resolvents <= i * |ns| && |pending| <= resolvents
        invariant ok ==> !unsat && Unassigned(pivot) && AllLeft(Now(), ps, pivot, ns, i, substitute, pending) && resolvents <= NotNegative(bound)
        invariant ok ==> Small(Now(), pivot, pending, sizeLimit)
        invariant !ok ==> unsat || !Unassigned(pivot) || Crowded(s0.db, ps, ns, elimBound, sizeLimit)
        decreases |ps| - i
      {
        RowCount(i + 1, |ps|, |ns|);
        assert ps[i] in ps;
        ok, resolvents, pending := BoundedNext(pivot, ps, ns, i, resolvents, bound, sizeLimit, substitute, s0, pending);
        i := i + 1;
      }
    }

    method BoundedNext(pivot: Lit, ps: seq<nat>, ns: seq<nat>, i: nat, resolvents0: nat, bound: int, sizeLimit: int, substitute: bool,
                       ghost s0: State, ghost pending0: Pending)
      returns (ok: bool, resolvents: nat, ghost pending: Pending)
      requires Valid() && clause == [] && marks == {} && !unsat && Unassigned(pivot) && pivot != 0
      requires ps == Occ(occs, pivot) && ns == Occ(occs, -pivot) && i < |ps| && |pending0| <= resolvents0 <= NotNegative(bound)
      requires Moved(s0, Now(), pivot, Pairs(s0, pivot, substitute)) && AllLeft(Now(), ps, pivot, ns, i, substitute, pending0)
      requires Small(Now(), pivot, pending0, sizeLimit)
      requires (forall k :: k in ps ==> k < |s0.db|) && forall k :: k in ns ==> k < |s0.db|
      modifies `db, `occs, `vals, `unsat, `inactive, `clause, `marks, `clauseId
      ensures Valid() && clause == [] && marks == {} && Moved(s0, Now(), pivot, Pairs(s0, pivot, substitute))
      ensures Occ(occs, pivot) == ps && Occ(occs, -pivot) == ns
      ensures resolvents <= resolvents0 + |ns| && |pending| <= resolvents
      ensures ok ==> !unsat && Unassigned(pivot) && AllLeft(Now(), ps, pivot, ns, i + 1, substitute, pending) && resolvents <= NotNegative(bound)
      ensures ok ==> Small(Now(), pivot, pending, sizeLimit)
      ensures !ok ==> unsat || !Unassigned(pivot) || resolvents0 + |ns| > bound || LongPair(s0.db, ps[i], ns, sizeLimit)
    {
      ok, resolvents, pending := true, resolvents0, pending0;
      ghost var s1 := Now();
      var c := ps[i];
      Listed(db, occs, inactive, pivot, c);
      if db[c].garbage {
        ListInside(db, occs, inactive, -pivot);
        RowGarbage(s1, c, pivot, ns, substitute);
        RowLeftDone(s1, c, pivot, ns, |ns|, substitute, pending);
        AllLeftNext(s1, ps, pivot, ns, i, substitute, pending);
        return;
      }
      ok, resolvents, pending := BoundedRow(c, pivot, ns, resolvents, bound, sizeLimit, substitute, pending0);
      LongBefore(s0, s1, pivot, c, ns, sizeLimit);
      RowSpans(s0, s1, Now(), pivot, substitute);
      if ok {
        AllLeftKept(s1, Now(), ps, pivot, ns, i, substitute, pending0, pending);
        AllLeftNext(Now(), ps, pivot, ns, i, substitute, pending);
      }
    }

    // ----- Add all resolvents.

    // Resolve one pair, and add the resolvent if there is one.
    method AddPair(c: nat, pivot: Lit, d: nat)
      requires Valid() && c < |db| && d < |db| && clause == [] && marks == {} && !unsat && Unassigned(pivot)
      requires pivot != 0 && pivot in db[c].lits && -pivot in db[d].lits
      modifies `db, `occs, `vals, `unsat, `inactive, `clause, `marks, `clauseId, `backward
      ensures Valid() && clause == [] && marks == {} && Unassigned(pivot)
      ensures Moved(old(Now()), Now(), pivot, ResolventOf(old(Now()), pivot, c, d)) && |db| >= |old(db)| && Resolved(Now(), c, pivot, d)
      ensures Occ(occs, pivot) == old(Occ(occs, pivot)) && Occ(occs, -pivot) == old(Occ(occs, -pivot))
      ensures old(db)[c].garbage || old(db)[d].garbage ==> Now() == old(Now())
    {
      var added := ResolveClauses(c, pivot, d, false);
      if added {
        KeepResolvent(c, pivot, d);
      }
    }

    method KeepResolvent(c: nat, pivot: Lit, d: nat)
      requires Valid() && !unsat && Unassigned(pivot) && NewResolvent(Now(), clause, c, pivot, d)
      modifies `db, `occs, `clause, `clauseId, `backward
      ensures Valid() && clause == []
      ensures Moved(old(Now()), Now(), pivot, ResolventOf(old(Now()), pivot, c, d)) && |db| >= |old(db)| && Resolved(Now(), c, pivot, d)
      ensures Occ(occs, pivot) == old(Occ(occs, pivot)) && Occ(occs, -pivot) == old(Occ(occs, -pivot))
    {
      ResolventRemaining(Now(), clause, c, pivot, d, eliminated);
      SpansAdd(Now(), clause, clauseId + 1, pivot, ResolventOf(Now(), pivot, c, d));
      var r := NewClause(pivot);
      MemberEntailed(Base(Now(), pivot), LitsOf(clause));
      ResolvedBy(Now(), c, pivot, d, LitsOf(clause));
      backward := backward + [r];
      clause := [];
    }

    method AddRow(c: nat, pivot: Lit, ns: seq<nat>, substitute: bool)
      requires Valid() && c < |db| && clause == [] && marks == {} && !unsat && Unassigned(pivot) && pivot != 0
      requires pivot in db[c].lits && ns == Occ(occs, -pivot)
      modifies `db, `occs, `vals, `unsat, `inactive, `clause, `marks, `clauseId, `backward
      ensures Valid() && clause == [] && marks == {} && Moved(old(Now()), Now(), pivot, Pairs(old(Now()), pivot, substitute)) && Unassigned(pivot)
      ensures Occ(occs, pivot) == old(Occ(occs, pivot)) && Occ(occs, -pivot) == old(Occ(occs, -pivot))
      ensures unsat || RowDone(Now(), c, pivot, ns, |ns|, substitute)
    {
      ghost var s0 := Now();
      MovedSame(s0, pivot, Pairs(s0, pivot, substitute));
      RowStart(s0, c, pivot, ns, substitute);
      var i: nat := 0;
      while i < |ns| && !unsat
        invariant i <= |ns| && Valid() && clause == [] && marks == {} && Moved(s0, Now(), pivot, Pairs(s0, pivot, substitute)) && Unassigned(pivot)
        invariant Occ(occs, pivot) == old(Occ(occs, pivot)) && Occ(occs, -pivot) == ns
        invariant RowDone(Now(), c, pivot, ns, i, substitute)
        decreases |ns| - i
      {
        var d := ns[i];
        Listed(db, occs, inactive, -pivot, d);
        StillThere(s0, Now(), pivot, c);
        ghost var s1 := Now();
        if !db[d].garbage && !(substitute && db[c].gate == db[d].gate) {
          AddPair(c, pivot, d);
          PairSpans(s0, s1, Now(), pivot, substitute, c, d);
          RowKept(s1, Now(), c, pivot, ns, i, substitute);
        }
        RowNext(Now(), c, pivot, ns, i, substitute);
        i := i + 1;
      }
    }

    method AddResolvents(pivot: Lit, substitute: bool)
      requires Valid() && clause == [] && marks == {} && !unsat && Unassigned(pivot) && pivot != 0
      modifies `db, `occs, `vals, `unsat, `inactive, `clause, `marks, `clauseId, `backward
      ensures Valid() && clause == [] && marks == {} && Moved(old(Now()), Now(), pivot, Pairs(old(Now()), pivot, substitute)) && Unassigned(pivot)
      ensures Occ(occs, pivot) == old(Occ(occs, pivot)) && Occ(occs, -pivot) == old(Occ(occs, -pivot))
      ensures unsat || AllDone(Now(), Occ(occs, pivot), pivot, Occ(occs, -pivot), |Occ(occs, pivot)|, substitute)
    {
      ghost var s0 := Now();
      MovedSame(s0, pivot, Pairs(s0, pivot, substitute));
      var ps, ns := Occ(occs, pivot), Occ(occs, -pivot);
      AllStart(s0, ps, pivot, ns, substitute);
      var i: nat := 0;
      while i < |ps| && !unsat
        invariant i <= |ps| && Valid() && clause == [] && marks == {} && Moved(s0, Now(), pivot, Pairs(s0, pivot, substitute)) && Unassigned(pivot)
        invariant Occ(occs, pivot) == ps && Occ(occs, -pivot) == ns
        invariant unsat || AllDone(Now(), ps, pivot, ns, i, substitute)
        decreases |ps| - i
      {
        var c := ps[i];
        Listed(db, occs, inactive, pivot, c);
        ghost var s1 := Now();
        if db[c].garbage {
          ListInside(db, occs, inactive, -pivot);
          RowGarbage(s1, c, pivot, ns, substitute);
        } else {
          AddRow(c, pivot, ns, substitute);
          RowSpans(s0, s1, Now(), pivot, substitute);
          AllKept(s1, Now(), ps, pivot, ns, i, substitute);
        }
        if !unsat {
          AllNext(Now(), ps, pivot, ns, i, substitute);
        }
        i := i + 1;
      }
    }

    // ----- Move the clauses of the pivot to the extension stack.

    // 'es0' are the entries pushed since the extension stack was 'base'.
    method MarkNext(k: nat, l: Lit, substitute: bool, ghost db0: Db, ghost list: seq<nat>, ghost base: seq<int>, ghost es0: seq<EX.Entry>)
      requires Valid() && MarkedAll(db0, list, db) && Inside(db0, list) && k < |db| && k !in list
      requires Written(extension, base, es0 + Entries(db0, list, l, substitute))
      modifies `db, `extension
      ensures Valid() && MarkedAll(db0, list + [k], db) && Inside(db0, list + [k])
      ensures Written(extension, base, es0 + Entries(db0, list + [k], l, substitute))
    {
      EntriesLast(db0, list, k, l, substitute, es0);
      MarkedNext(db0, list, k, db);
      if db[k].garbage { return; }
      if !substitute || db[k].gate {
        PushEncoded(extension, base, es0 + Entries(db0, list, l, substitute), EX.Entry([l], db[k].lits, db[k].id));
        extension := extension + [0] + [l] + [0] + [EX.HighWord(db[k].id), EX.LowWord(db[k].id)] + [0] + db[k].lits;
      }
      MarkGarbage(k);
    }

    method MarkOccs(l: Lit, substitute: bool, ghost base: seq<int>, ghost es0: seq<EX.Entry>)
      requires Valid() && Written(extension, base, es0)
      modifies `db, `extension, `occs
      ensures Valid() && InsideList(old(db), old(occs), l) && MarkedAll(old(db), Occ(old(occs), l), db)
      ensures Occ(occs, l) == [] && forall x :: x != l ==> Occ(occs, x) == Occ(old(occs), x)
      ensures Written(extension, base, es0 + Entries(old(db), Occ(old(occs), l), l, substitute))
    {
      var list := Occ(occs, l);
      ListInside(db, occs, inactive, l);
      Listed(db, occs, inactive, l, 0);
      MarkList(list, l, substitute, base, es0);
      EraseKeeps(db, occs, inactive, l, list);
      occs := occs[l := []];
    }

    method MarkList(list: seq<nat>, l: Lit, substitute: bool, ghost base: seq<int>, ghost es0: seq<EX.Entry>)
      requires Valid() && Written(extension, base, es0) && Unique(list) && Inside(db, list)
      modifies `db, `extension
      ensures Valid() && Inside(old(db), list) && MarkedAll(old(db), list, db)
      ensures Written(extension, base, es0 + Entries(old(db), list, l, substitute))
    {
      assert list[..0] == [] && es0 + Entries(db, [], l, substitute) == es0;
      for i := 0 to |list|
        invariant Valid() && MarkedAll(old(db), list[..i], db) && Inside(old(db), list[..i]) && |db| == |old(db)|
        invariant Written(extension, base, es0 + Entries(old(db), list[..i], l, substitute))
      {
        NextOfList(list, i);
        MarkNext(list[i], l, substitute, old(db), list[..i], base, es0);
      }
      assert list[..|list|] == list;
    }

    method MarkEliminatedClauses(pivot: Lit, substitute: bool) returns (ghost es: seq<EX.Entry>)
      requires Valid() && !unsat && Unassigned(pivot) && pivot != 0 && Var(pivot) !in eliminated
      requires AllDone(Now(), Occ(occs, pivot), pivot, Occ(occs, -pivot), |Occ(occs, pivot)|, substitute)
      modifies `db, `extension, `occs
      ensures Valid() && Meaning(Now()) == Base(old(Now()), pivot) && FewerFlags(old(db), db)
      ensures extension == old(extension) + EX.EncodeAll(es)
      ensures !substitute || Defined(old(Now()), pivot) ==> RE.Reconstructs(Meaning(Now()), es, Meaning(old(Now())))
      ensures Absent(db, pivot) && RE.FlipsOnly(es, pivot)
    {
      ghost var s, ps, ns := Now(), Occ(occs, pivot), Occ(occs, -pivot);
      ActiveSides(db, occs, inactive, pivot);
      if !substitute {
        ResolutionReconstructs(s, ps, ns, pivot);
      } else if Defined(s, pivot) {
        GateReconstructs(s, ps, ns, pivot);
      }
      es := MarkBothSides(pivot, substitute);
      WrittenEncoded(extension, old(extension), es);
    }

    method MarkBothSides(pivot: Lit, substitute: bool) returns (ghost es: seq<EX.Entry>)
      requires Valid() && Sides(db, Occ(occs, pivot), Occ(occs, -pivot), pivot)
      requires forall k :: k in Occ(occs, -pivot) ==> k !in Occ(occs, pivot)
      modifies `db, `extension, `occs
      ensures Valid() && Meaning(Now()) == Base(old(Now()), pivot) && FewerFlags(old(db), db)
      ensures Absent(db, pivot) && RE.FlipsOnly(es, pivot)
      ensures es == Entries(old(db), Occ(old(occs), pivot), pivot, substitute) + Entries(old(db), Occ(old(occs), -pivot), -pivot, substitute)
      ensures Written(extension, old(extension), es)
    {
      ghost var first := Entries(db, Occ(occs, pivot), pivot, substitute);
      WrittenStart(extension);
      MarkOccs(pivot, substitute, extension, []);
      assert [] + first == first;
      ghost var db1 := db;
      MarkOccs(-pivot, substitute, old(extension), first);
      es := BothMarked(old(Now()), Occ(old(occs), pivot), db1, Occ(old(occs), -pivot), Now(), pivot, substitute);
    }

    // Eliminate the pivot if the number of resolvents is bounded.  With 'substitute' only resolvents
    // with the clauses flagged as gate clauses are added.  If these define the pivot, or without
    // gates, every model of the result can be extended.
    method Eliminate(pivot: Lit, elimBound: int, sizeLimit: int, substitute: bool)
      returns (success: bool, ghost es: seq<EX.Entry>)
      requires Valid() && clause == [] && marks == {} && !unsat && Unassigned(pivot) && pivot != 0 && Var(pivot) !in eliminated
      modifies this
      ensures Valid() && clause == [] && marks == {} && extension == old(extension) + EX.EncodeAll(es) && FewerFlags(old(db), db)
      ensures !substitute || Gated(old(Now()), pivot) ==> RE.Reconstructs(Meaning(Now()), es, Meaning(old(Now())))
      ensures EntailsAll(Meaning(old(Now())), Meaning(Now()))
      ensures success ==> Var(pivot) in inactive && Absent(db, pivot)
      ensures success ==> Exact(old(Now()), pivot, substitute, Meaning(Now())) && RE.FlipsOnly(es, pivot)
      ensures success ==> Affordable(old(Now()), Occ(old(occs), pivot), pivot, Occ(old(occs), -pivot), substitute, elimBound, sizeLimit)
      ensures !success ==> unsat || !Unassigned(pivot) ||
                           Crowded(old(db), Occ(old(occs), pivot), Occ(old(occs), -pivot), elimBound, sizeLimit)
    {
      ghost var s0 := Now();
      success, es := false, [];
      var bounded := ResolventsBounded(pivot, elimBound, sizeLimit, substitute);
      KeptReconstructs(s0, Now(), pivot);
      if !bounded { return; }
      success, es := EliminateBounded(pivot, substitute, s0);
    }

    // The number of resolvents is small enough.
    method EliminateBounded(pivot: Lit, substitute: bool, ghost s0: State) returns (success: bool, ghost es: seq<EX.Entry>)
      requires Valid() && clause == [] && marks == {} && !unsat && Unassigned(pivot) && pivot != 0 && Var(pivot) !in eliminated
      requires Moved(s0, Now(), pivot, Pairs(s0, pivot, substitute))
      modifies this
      ensures Valid() && clause == [] && marks == {} && extension == old(extension) + EX.EncodeAll(es) && FewerFlags(s0.db, db)
      ensures !substitute || Gated(s0, pivot) ==> RE.Reconstructs(Meaning(Now()), es, Meaning(s0))
      ensures EntailsAll(Meaning(s0), Meaning(Now()))
      ensures if success then Var(pivot) in inactive && Absent(db, pivot) && Exact(s0, pivot, substitute, Meaning(Now())) && RE.FlipsOnly(es, pivot)
              else unsat
    {
      success, es := false, [];
      ghost var s1 := Now();
      AddResolvents(pivot, substitute);
      RowSpans(s0, s1, Now(), pivot, substitute);
      KeptReconstructs(s0, Now(), pivot);
      if !unsat {
        es := RemovePivot(pivot, substitute, s0);
        success := true;
      }
      MarkEliminated(pivot);
    }

    method MarkEliminated(pivot: Lit)
      requires Valid() && (unsat || Absent(db, pivot))
      modifies `inactive, `eliminated
      ensures Valid() && Var(pivot) in inactive
    {
      InactiveKeeps(db, occs, inactive, Var(pivot));
      PresentEliminated(db, eliminated, unsat, pivot);
      inactive := inactive + {Var(pivot)};
      eliminated := eliminated + {Var(pivot)};
    }

    // All resolvents are there.
    method RemovePivot(pivot: Lit, substitute: bool, ghost s0: State) returns (ghost es: seq<EX.Entry>)
      requires Valid() && !unsat && Unassigned(pivot) && pivot != 0 && Var(pivot) !in eliminated
      requires Moved(s0, Now(), pivot, Pairs(s0, pivot, substitute))
      requires AllDone(Now(), Occ(occs, pivot), pivot, Occ(occs, -pivot), |Occ(occs, pivot)|, substitute)
      modifies `db, `extension, `occs
      ensures Valid() && extension == old(extension) + EX.EncodeAll(es) && FewerFlags(s0.db, db)
      ensures !substitute || Gated(s0, pivot) ==> RE.Reconstructs(Meaning(Now()), es, Meaning(s0))
      ensures EntailsAll(Meaning(s0), Meaning(Now()))
      ensures Absent(db, pivot) && Exact(s0, pivot, substitute, Meaning(Now())) && RE.FlipsOnly(es, pivot)
    {
      ghost var s2 := Now();
      ExactAll(s0, s2, pivot, substitute, occs, inactive);
      KeptFlags(s0, s2, pivot);
      es := MarkEliminatedClauses(pivot, substitute);
      BaseSound(s0, s2, Now(), pivot);
      if substitute && Gated(s0, pivot) {
        DefinedKept(s0, s2, pivot);
      }
      if !substitute || Gated(s0, pivot) {
        EliminatedReconstructs(s0, s2, Now(), es, pivot);
      }
    }

    // ----- Preparing the occurrence lists of the pivot.

    // Flush garbage clauses.
    method FlushOccs(l: Lit) returns (size: nat)
      requires Valid()
      modifies `occs
      ensures Valid() && size == |Occ(occs, l)| && forall x :: x != l ==> Occ(occs, x) == Occ(old(occs), x)
      ensures Var(l) !in inactive ==> Counted(db, Occ(occs, l), l)
    {
      var list := Occ(occs, l);
      var kept: seq<nat> := [];
      ListInside(db, occs, inactive, l);
      for i := 0 to |list|
        invariant occs == old(occs) && Unique(kept)
        invariant forall k: nat {:trigger k in kept} :: k in kept <==> k in list[..i] && Live(db, k)
      {
        assert list[..i+1] == list[..i] + [list[i]];
        Listed(db, occs, inactive, l, list[i]);
        if !db[list[i]].garbage {
          assert list[i] !in list[..i] && list[i] !in kept;
          assert forall j :: 0 <= j < |kept| ==> kept[j] in kept;
          kept := kept + [list[i]];
        }
      }
      assert list[..|list|] == list;
      ListReplaced(db, occs, inactive, l, kept);
      FlushedCounted(db, occs, inactive, l, kept);
      occs := occs[l := kept];
      size := |kept|;
    }

    // Smaller clauses first.
    method SortOccs(l: Lit)
      requires Valid()
      modifies `occs
      ensures Valid() && BySize(db, Occ(occs, l)) && forall x :: x != l ==> Occ(occs, x) == Occ(old(occs), x)
      ensures Counted(db, Occ(old(occs), l), l) ==> Counted(db, Occ(occs, l), l)
    {
      var list := Occ(occs, l);
      var sorted: seq<nat> := [];
      ListInside(db, occs, inactive, l);
      for i := 0 to |list|
        invariant occs == old(occs) && Unique(sorted) && BySize(db, sorted)
        invariant forall k: nat {:trigger k in sorted} :: k in sorted <==> k in list[..i]
      {
        assert list[..i+1] == list[..i] + [list[i]];
        Listed(db, occs, inactive, l, list[i]);
        assert list[i] !in list[..i] && list[i] !in sorted;
        sorted := InsertBySize(sorted, list[i]);
      }
      assert list[..|list|] == list;
      ListReplaced(db, occs, inactive, l, sorted);
      Listed(db, occs, inactive, l, 0);
      SortedCounted(db, list, sorted, l);
      occs := occs[l := sorted];
    }

    method InsertBySize(list: seq<nat>, k: nat) returns (r: seq<nat>)
      requires k < |db| && BySize(db, list) && Unique(list) && k !in list
      ensures BySize(db, r) && Unique(r) && forall n: nat {:trigger n in r} :: n in r <==> n in list || n == k
    {
      var p: nat := |list|;
      while p > 0 && |db[list[p-1]].lits| > |db[k].lits|
        invariant p <= |list| && forall i :: p <= i < |list| ==> |db[list[i]].lits| > |db[k].lits|
      {
        p := p - 1;
      }
      InsertedUnique(list, p, k);
      InsertedMembers(list, p, k);
      InsertedBySize(db, list, p, k);
      r := Inserted(list, p, k);
    }
  }

  lemma ExactAll(s0: State, s: State, l: Lit, substitute: bool, occs: Occs, inactive: set<nat>)
    requires Moved(s0, s, l, Pairs(s0, l, substitute)) && !s.unsat && l != 0 && l !in s.vals && -l !in s.vals
    requires Clean(s.db) && Connected(s.db, occs, inactive) && Var(l) !in inactive
    requires AllDone(s, Occ(occs, l), l, Occ(occs, -l), |Occ(occs, l)|, substitute)
    ensures Exact(s0, l, substitute, Base(s, l))
  {
    ActiveSides(s.db, occs, inactive, l);
    forall k | 0 <= k < |s.db| ensures 0 !in s.db[k].lits && !(l in s.db[k].lits && -l in s.db[k].lits) {
      ClauseDistinct(s.db, k);
    }
    ExactResult(s0, s, l, substitute, Occ(occs, l), Occ(occs, -l));
  }

  function NotNegative(x: int): nat {
    if x < 0 then 0 else x
  }

  // The literals of the resolvent that are not false.
  ghost function OpenPair(s: State, c: nat, l: Lit, d: nat): Clause {
    if c < |s.db| && d < |s.db| then
      set x | x in LitsOf(s.db[c].lits) + LitsOf(s.db[d].lits) &&
              ((x in s.db[c].lits && x != l) || (x in s.db[d].lits && x != -l)) && -x !in s.vals
    else {}
  }

  lemma OpenPairLits(s: State, c: nat, l: Lit, d: nat)
    requires c < |s.db| && d < |s.db|
    ensures LitsOf(Open(s.db[c].lits, l, s.vals)) + LitsOf(Open(s.db[d].lits, -l, s.vals)) == OpenPair(s, c, l, d)
  {
  }

  // None of the pending resolvents is too long.
  ghost predicate Small(s: State, l: Lit, pending: Pending, limit: int) {
    forall c, d {:trigger (c, d) in pending} :: (c, d) in pending ==> c < |s.db| && d < |s.db| && |OpenPair(s, c, l, d)| <= limit
  }

  lemma SmallKept(s: State, s': State, l: Lit, pending: Pending, limit: int)
    requires Small(s, l, pending, limit) && Kept(s, s', l)
    ensures Small(s', l, pending, limit)
  {
    KeptParts(s, s', l);
    forall c, d | (c, d) in pending ensures c < |s'.db| && d < |s'.db| && |OpenPair(s', c, l, d)| <= limit {
      KeptClause(s, s', l, c);
      KeptClause(s, s', l, d);
      SubsetSize(OpenPair(s', c, l, d), OpenPair(s, c, l, d));
    }
  }

  lemma SmallNext(s: State, r: seq<Lit>, c: nat, l: Lit, d: nat, pending: Pending, limit: int)
    requires NewResolvent(s, r, c, l, d) && Small(s, l, pending, limit) && |r| <= limit
    ensures Small(s, l, pending + {(c, d)}, limit)
  {
    NoDupSize(r);
  }

  // At most 'n' pairs are left to be resolved, and their resolvents are not too long.
  ghost predicate FewLeft(s: State, ps: seq<nat>, l: Lit, ns: seq<nat>, substitute: bool, n: nat, limit: int) {
    exists pending: Pending :: |pending| <= n && AllLeft(s, ps, l, ns, |ps|, substitute, pending) && Small(s, l, pending, limit)
  }

  // After simplifications that keep the models, as many pairs as allowed are left.
  ghost predicate Affordable(s0: State, ps: seq<nat>, l: Lit, ns: seq<nat>, substitute: bool, elimBound: int, limit: int) {
    && (ps == [] || ns == [] ==> elimBound >= 0)
    && exists s {:trigger Moved(s0, s, l, Pairs(s0, l, substitute))} ::
         Moved(s0, s, l, Pairs(s0, l, substitute)) && FewLeft(s, ps, l, ns, substitute, NotNegative(|ps| + |ns| + elimBound), limit)
  }

  // ----- When there are too many resolvents.

  ghost predicate LongPair(db: Db, c: nat, ns: seq<nat>, limit: int) {
    exists d {:trigger d in ns} :: d in ns && c < |db| && d < |db| && |db[c].lits| + |db[d].lits| > limit
  }

  ghost predicate Crowded(db: Db, ps: seq<nat>, ns: seq<nat>, elimBound: int, limit: int) {
    || elimBound < 0 || |ps| * |ns| > |ps| + |ns| + elimBound
    || exists c {:trigger c in ps} :: c in ps && LongPair(db, c, ns, limit)
  }

  // The live clauses with the literal.
  ghost function Occurrences(db: Db, l: Lit): set<nat> {
    set k: nat | k < |db| && !db[k].garbage && l in db[k].lits
  }

  ghost predicate Counted(db: Db, list: seq<nat>, l: Lit) {
    |list| == |Occurrences(db, l)| && forall k: nat {:trigger k in list} :: k in list <==> k in Occurrences(db, l)
  }

  lemma {:induction false} UniqueSize(list: seq<nat>, members: set<nat>)
    requires Unique(list) && forall k: nat :: k in list <==> k in members
    ensures |members| == |list|
    decreases |list|
  {
    if list != [] {
      var n := |list| - 1;
      assert list == list[..n] + [list[n]] && list[n] !in list[..n];
      UniqueSize(list[..n], members - {list[n]});
    } else {
      assert forall k :: k !in members;
      assert members == {};
    }
  }

  lemma FlushedCounted(db: Db, occs: Occs, inactive: set<nat>, l: Lit, kept: seq<nat>)
    requires Connected(db, occs, inactive) && Unique(kept)
    requires forall k: nat {:trigger k in kept} :: k in kept <==> k in Occ(occs, l) && Live(db, k)
    ensures Var(l) !in inactive ==> Counted(db, kept, l)
  {
    if Var(l) !in inactive {
      forall k: nat ensures k in kept <==> k in Occurrences(db, l) {
        Listed(db, occs, inactive, l, k);
      }
      UniqueSize(kept, Occurrences(db, l));
    }
  }

  lemma SortedCounted(db: Db, list: seq<nat>, sorted: seq<nat>, l: Lit)
    requires Unique(list) && Unique(sorted) && forall k: nat {:trigger k in sorted} :: k in sorted <==> k in list
    ensures Counted(db, list, l) ==> Counted(db, sorted, l)
  {
    if Counted(db, list, l) {
      UniqueSize(sorted, Occurrences(db, l));
    }
  }

  // The variable occurs in both signs, and in one of them more often than the limit.
  ghost predicate TooMany(db: Db, l: Lit, limit: nat) {
    var p, n := |Occurrences(db, l)|, |Occurrences(db, -l)|;
    p > 0 && n > 0 && (p > limit || n > limit)
  }

  ghost predicate LongResolvent(db: Db, l: Lit, c: nat, d: nat, limit: int) {
    c in Occurrences(db, l) && d in Occurrences(db, -l) && |db[c].lits| + |db[d].lits| > limit
  }

  // There are more pairs of clauses than allowed, or two clauses that are too long.
  ghost predicate TooCostly(db: Db, l: Lit, elimBound: int, limit: int) {
    var p, n := |Occurrences(db, l)|, |Occurrences(db, -l)|;
    || elimBound < 0 || p * n > p + n + elimBound
    || exists c: nat, d: nat {:trigger LongResolvent(db, l, c, d, limit)} :: LongResolvent(db, l, c, d, limit)
  }

  lemma TooCostlyFlip(db: Db, l: Lit, elimBound: int, limit: int)
    requires TooCostly(db, -l, elimBound, limit)
    ensures TooCostly(db, l, elimBound, limit)
  {
    var n := -l;
    assert -n == l;
    if c: nat, d: nat :| LongResolvent(db, n, c, d, limit) {
      assert LongResolvent(db, l, d, c, limit);
    }
  }

  // The lists were flushed before the clauses became garbage or were flagged.
  lemma CrowdedBefore(db: Db, db': Db, ps: seq<nat>, ns: seq<nat>, l: Lit, elimBound: int, limit: int)
    requires Counted(db, ps, l) && Counted(db, ns, -l) && Crowded(db', ps, ns, elimBound, limit)
    requires |db'| == |db| && forall k {:trigger db'[k]} :: 0 <= k < |db| ==> db'[k].lits == db[k].lits
    ensures TooCostly(db, l, elimBound, limit)
  {
    if c :| c in ps && LongPair(db', c, ns, limit) {
      var d :| d in ns && c < |db'| && d < |db'| && |db'[c].lits| + |db'[d].lits| > limit;
      assert LongResolvent(db, l, c, d, limit);
    }
  }

  lemma RowCount(i: nat, n: nat, m: nat)
    requires 0 < i <= n
    ensures (i - 1) * m + m == i * m <= n * m
  {
  }

  lemma LongBefore(s0: State, s: State, l: Lit, c: nat, ns: seq<nat>, limit: int)
    requires Kept(s0, s, l) && c < |s0.db| && forall d :: d in ns ==> d < |s0.db|
    ensures LongPair(s.db, c, ns, limit) ==> LongPair(s0.db, c, ns, limit)
  {
    if LongPair(s.db, c, ns, limit) {
      var d :| d in ns && c < |s.db| && d < |s.db| && |s.db[c].lits| + |s.db[d].lits| > limit;
      KeptClause(s0, s, l, c);
      KeptClause(s0, s, l, d);
    }
  }

  lemma {:induction false} LitsSize(lits: seq<Lit>)
    ensures |LitsOf(lits)| <= |lits|
    decreases |lits|
  {
    if lits != [] {
      var n := |lits| - 1;
      LitsSize(lits[..n]);
      assert lits == lits[..n] + [lits[n]];
      LitsOfLast(lits[..n], lits[n]);
    }
  }

  lemma SubsetSize(a: Clause, b: Clause)
    requires a <= b
    ensures |a| <= |b|
  {
    assert a + (b - a) == b;
  }

  lemma ResolventSize(s0: State, s: State, r: seq<Lit>, c: nat, l: Lit, d: nat, ns: seq<nat>, limit: int)
    requires Kept(s0, s, l) && NewResolvent(s, r, c, l, d) && d in ns && c < |s0.db| && d < |s0.db|
    ensures |r| > limit ==> LongPair(s0.db, c, ns, limit)
  {
    KeptClause(s0, s, l, c);
    KeptClause(s0, s, l, d);
    NoDupSize(r);
    var a, b := LitsOf(s.db[c].lits), LitsOf(s.db[d].lits);
    SubsetSize(LitsOf(r), (a - {l}) + (b - {-l}));
    SubsetSize(a - {l}, a);
    SubsetSize(b - {-l}, b);
    LitsSize(s.db[c].lits);
    LitsSize(s.db[d].lits);
  }

  ghost predicate BySize(db: Db, list: seq<nat>) {
    (forall i :: 0 <= i < |list| ==> list[i] < |db|) && forall i, j :: 0 <= i < j < |list| ==> |db[list[i]].lits| <= |db[list[j]].lits|
  }

  function Inserted(list: seq<nat>, p: nat, k: nat): (r: seq<nat>)
    requires p <= |list|
    ensures |r| == |list| + 1
    ensures forall i {:trigger r[i]} :: 0 <= i < |r| ==> r[i] == if i < p then list[i] else if i == p then k else list[i-1]
  {
    list[..p] + [k] + list[p..]
  }

  lemma InsertedUnique(list: seq<nat>, p: nat, k: nat)
    requires p <= |list| && Unique(list) && k !in list
    ensures Unique(Inserted(list, p, k))
  {
    assert forall i {:trigger list[i]} :: 0 <= i < |list| ==> list[i] in list;
  }

  lemma InsertedMembers(list: seq<nat>, p: nat, k: nat)
    requires p <= |list|
    ensures forall n: nat {:trigger n in Inserted(list, p, k)} :: n in Inserted(list, p, k) <==> n in list || n == k
  {
    var r := Inserted(list, p, k);
    assert r == list[..p] + [k] + list[p..] && list == list[..p] + list[p..];
    assert forall n: nat {:trigger n in r} :: n in r <==> n in list[..p] || n == k || n in list[p..];
  }

  lemma InsertedBySize(db: Db, list: seq<nat>, p: nat, k: nat)
    requires p <= |list| && BySize(db, list) && k < |db|
    requires p > 0 ==> |db[list[p-1]].lits| <= |db[k].lits|
    requires forall i :: p <= i < |list| ==> |db[list[i]].lits| > |db[k].lits|
    ensures BySize(db, Inserted(list, p, k))
  {
    assert forall i {:trigger list[i]} :: 0 <= i < p ==> |db[list[i]].lits| <= |db[k].lits|;
  }

  // The list of a literal may be replaced by one with the same live clauses.
  lemma ListReplaced(db: Db, occs: Occs, inactive: set<nat>, l: Lit, list: seq<nat>)
    requires Connected(db, occs, inactive) && Unique(list)
    requires forall k: nat {:trigger k in list} :: k in list ==> k in Occ(occs, l)
    requires forall k: nat {:trigger k in list} :: k in Occ(occs, l) && Live(db, k) ==> k in list
    ensures Connected(db, occs[l := list], inactive)
  {
    assert Look(0);
    var occs' := occs[l := list];
    forall x ensures FullList(db, Occ(occs', x), x, inactive) {
      assert FullList(db, Occ(occs, x), x, inactive);
      assert x == l && Var(l) !in inactive ==> forall k: nat :: Live(db, k) && l in db[k].lits ==> k in Occ(occs, l);
    }
  }

  lemma NextOfList(list: seq<nat>, i: nat)
    requires Unique(list) && i < |list|
    ensures list[..i+1] == list[..i] + [list[i]] && list[i] !in list[..i]
  {
  }

  // No clause became a gate clause.
  ghost predicate FewerFlags(db: Db, db': Db) {
    |db| <= |db'| && forall k {:trigger db'[k]} :: 0 <= k < |db'| && db'[k].gate ==> k < |db| && db[k].gate
  }

  lemma KeptFlags(s: State, s': State, l: Lit)
    requires Kept(s, s', l)
    ensures FewerFlags(s.db, s'.db)
  {
    KeptParts(s, s', l);
    forall k | 0 <= k < |s'.db| && s'.db[k].gate ensures k < |s.db| && s.db[k].gate {
      if k < |s.db| {
        KeptClause(s, s', l, k);
      } else {
        KeptNew(s, s', l, k);
      }
    }
  }

  lemma BaseSound(s: State, s1: State, s2: State, l: Lit)
    requires Kept(s, s1, l) && Meaning(s2) == Base(s1, l)
    ensures EntailsAll(Meaning(s), Meaning(s2))
  {
    KeptParts(s, s1, l);
    BaseInMeaning(s1, l);
  }

  // Defined by gate clauses that all contain the pivot.
  ghost predicate Defined(s: State, l: Lit) {
    && PE.Defines(Base(s, l), GateFormula(s.db), l)
    && forall k: nat {:trigger GateClause(s.db, k)} :: GateClause(s.db, k) ==> !Free(s.db[k].lits, l)
  }

  lemma DefinedKept(s: State, s': State, l: Lit)
    requires Kept(s, s', l) && Gated(s, l) && l !in s'.vals && -l !in s'.vals
    ensures Defined(s', l)
  {
    GatedKept(s, s', l);
    forall k: nat | GateClause(s'.db, k) ensures !Free(s'.db[k].lits, l) {
      if k < |s.db| {
        KeptClause(s, s', l, k);
        assert GateClause(s.db, k);
      } else {
        KeptNew(s, s', l, k);
      }
    }
  }

  lemma KeptReconstructs(s: State, s': State, l: Lit)
    requires Kept(s, s', l)
    ensures RE.Reconstructs(Meaning(s'), [], Meaning(s)) && EntailsAll(Meaning(s), Meaning(s')) && FewerFlags(s.db, s'.db)
  {
    KeptFlags(s, s', l);
    KeptBackward(s, s', l);
    KeptParts(s, s', l);
    RE.ReconstructsNothing(Meaning(s'), Meaning(s));
  }

  lemma EliminatedReconstructs(s: State, s1: State, s2: State, es: seq<EX.Entry>, l: Lit)
    requires Kept(s, s1, l) && RE.Reconstructs(Meaning(s2), es, Meaning(s1)) && Meaning(s2) == Base(s1, l)
    ensures RE.Reconstructs(Meaning(s2), es, Meaning(s)) && EntailsAll(Meaning(s), Meaning(s2))
  {
    KeptReconstructs(s, s1, l);
    RE.ReconstructsTransitive(Meaning(s), [], Meaning(s1), es, Meaning(s2));
    assert [] + es == es;
    BaseInMeaning(s1, l);
  }

  ghost predicate InsideList(db: Db, occs: Occs, l: Lit) {
    Inside(db, Occ(occs, l))
  }

  // All clauses of the list are garbage now, the others are as before.
  ghost predicate MarkedAll(db: Db, list: seq<nat>, db': Db) {
    |db'| == |db| && forall k {:trigger db'[k]} :: 0 <= k < |db| ==> db'[k] == if k in list then db[k].(garbage := true) else db[k]
  }

  lemma MarkedNext(db: Db, list: seq<nat>, k: nat, db': Db)
    requires MarkedAll(db, list, db') && k < |db|
    ensures MarkedAll(db, list + [k], db'[k := db'[k].(garbage := true)])
    ensures db'[k].garbage ==> MarkedAll(db, list + [k], db')
  {
    assert forall n :: n in list + [k] <==> n in list || n == k;
  }

  ghost function Entries(db: Db, list: seq<nat>, l: Lit, substitute: bool): seq<EX.Entry>
    requires Inside(db, list)
  {
    PE.Push(Select(db, list, if substitute then Gates else Every), l)
  }

  lemma EntriesLast(db: Db, list: seq<nat>, k: nat, l: Lit, substitute: bool, es0: seq<EX.Entry>)
    requires Inside(db, list) && k < |db|
    ensures Inside(db, list + [k])
    ensures var more := if Chosen(db[k], if substitute then Gates else Every) then [EX.Entry([l], db[k].lits, db[k].id)] else [];
            es0 + Entries(db, list + [k], l, substitute) == es0 + Entries(db, list, l, substitute) + more
  {
    assert (list + [k])[..|list|] == list;
    var w := if substitute then Gates else Every;
    assert PE.Push(Select(db, list + [k], w), l) ==
      PE.Push(Select(db, list, w), l) + (if Chosen(db[k], w) then [EX.Entry([l], db[k].lits, db[k].id)] else []);
  }

  // The entries are on top of the extension stack 'base'.
  ghost predicate Written(extension: seq<int>, base: seq<int>, es: seq<EX.Entry>) {
    forall u {:trigger Look(u)} :: Look(u) ==> extension == base + EX.EncodeAll(es)
  }

  lemma WrittenStart(extension: seq<int>)
    ensures Written(extension, extension, [])
  {
  }

  lemma WrittenEncoded(extension: seq<int>, base: seq<int>, es: seq<EX.Entry>)
    requires Written(extension, base, es)
    ensures extension == base + EX.EncodeAll(es)
  {
    assert Look(0);
  }

  lemma PushEncoded(extension: seq<int>, base: seq<int>, es: seq<EX.Entry>, e: EX.Entry)
    requires Written(extension, base, es)
    ensures Written(extension + [0] + e.wit + [0] + [EX.HighWord(e.id), EX.LowWord(e.id)] + [0] + e.clause, base, es + [e])
  {
    assert Look(0);
    EX.EncodePush(es, e);
    EX.EncodeShape(extension, e);
  }

  lemma EraseKeeps(db: Db, occs: Occs, inactive: set<nat>, l: Lit, list: seq<nat>)
    requires Connected(db, occs, inactive) && list == Occ(occs, l) && forall k :: k in list ==> k < |db| && db[k].garbage
    ensures Connected(db, occs[l := []], inactive)
  {
    assert Look(0);
    var occs' := occs[l := []];
    forall x ensures FullList(db, Occ(occs', x), x, inactive) {
      assert FullList(db, Occ(occs, x), x, inactive);
    }
  }

  lemma ActiveList(db: Db, occs: Occs, inactive: set<nat>, l: Lit)
    requires Connected(db, occs, inactive) && Var(l) !in inactive
    ensures Lists(db, Occ(occs, l), l)
  {
    assert Look(0);
    assert FullList(db, Occ(occs, l), l, inactive);
    ListInside(db, occs, inactive, l);
  }

  lemma ActiveSides(db: Db, occs: Occs, inactive: set<nat>, l: Lit)
    requires Connected(db, occs, inactive) && Clean(db) && l != 0 && Var(l) !in inactive
    ensures Sides(db, Occ(occs, l), Occ(occs, -l), l)
    ensures forall k :: k in Occ(occs, -l) ==> k !in Occ(occs, l)
  {
    ActiveList(db, occs, inactive, l);
    ActiveList(db, occs, inactive, -l);
    OneSide(db, Occ(occs, l), Occ(occs, -l), l);
  }

  lemma OneSide(db: Db, ps: seq<nat>, ns: seq<nat>, l: Lit)
    requires Lists(db, ps, l) && Lists(db, ns, -l) && Clean(db) && l != 0
    ensures Sides(db, ps, ns, l) && forall k :: k in ns ==> k !in ps
  {
    assert Look(0);
    forall k | k in ps || k in ns ensures 0 !in db[k].lits && !(l in db[k].lits && -l in db[k].lits) {
      assert WA.Distinct(db[k].lits);
    }
  }

  // Marking the clauses of one side does not change what is selected on the other side.
  lemma {:induction false} SelectMarked(db: Db, ps: seq<nat>, db1: Db, ns: seq<nat>, w: Which, l: Lit)
    requires MarkedAll(db, ps, db1) && Inside(db, ns) && forall k :: k in ns ==> k !in ps
    ensures Inside(db1, ns) && Select(db1, ns, w) == Select(db, ns, w)
    decreases |ns|
  {
    if ns != [] {
      assert ns[|ns|-1] in ns;
      SelectMarked(db, ps, db1, ns[..|ns|-1], w, l);
    }
  }

  lemma BothMarked(s: State, ps: seq<nat>, db1: Db, ns: seq<nat>, s': State, l: Lit, substitute: bool) returns (es: seq<EX.Entry>)
    requires Sides(s.db, ps, ns, l) && MarkedAll(s.db, ps, db1) && MarkedAll(db1, ns, s'.db) && Inside(db1, ns)
    requires s'.vals == s.vals && s'.unsat == s.unsat && forall k :: k in ns ==> k !in ps
    ensures es == Entries(s.db, ps, l, substitute) + Entries(s.db, ns, -l, substitute)
    ensures es == Entries(s.db, ps, l, substitute) + Entries(db1, ns, -l, substitute)
    ensures Meaning(s') == Base(s, l) && FewerFlags(s.db, s'.db)
    ensures Absent(s'.db, l) && RE.FlipsOnly(es, l)
  {
    assert forall k :: 0 <= k < |s.db| ==> db1[k].gate == s.db[k].gate;
    SelectMarked(s.db, ps, db1, ns, if substitute then Gates else Every, l);
    MarkedMeaning(s, ps, db1, ns, s', l);
    es := Entries(s.db, ps, l, substitute) + Entries(s.db, ns, -l, substitute);
    EntriesFlip(s.db, ps, l, substitute);
    EntriesFlip(s.db, ns, -l, substitute);
    assert forall e {:trigger e in es} :: e in es ==> e in Entries(s.db, ps, l, substitute) || e in Entries(s.db, ns, -l, substitute);
  }

  lemma EntriesFlip(db: Db, list: seq<nat>, l: Lit, substitute: bool)
    requires Inside(db, list)
    ensures forall e {:trigger e in Entries(db, list, l, substitute)} :: e in Entries(db, list, l, substitute) ==> e.wit == [l]
  {
  }

  lemma MarkedMeaning(s: State, ps: seq<nat>, db1: Db, ns: seq<nat>, s': State, l: Lit)
    requires Sides(s.db, ps, ns, l) && MarkedAll(s.db, ps, db1) && MarkedAll(db1, ns, s'.db)
    requires s'.vals == s.vals && s'.unsat == s.unsat
    ensures Meaning(s') == Base(s, l)
    ensures Absent(s'.db, l)
  {
    forall k: nat ensures Live(s'.db, k) <==> LiveFree(s.db, l, k) {
      if k < |s.db| {
        assert s'.db[k].lits == s.db[k].lits && db1[k].lits == s.db[k].lits;
        if Live(s.db, k) && l in s.db[k].lits {
          assert k in ps;
        }
        if Live(s.db, k) && -l in s.db[k].lits {
          assert k in ns;
        }
      }
    }
    assert forall k: nat :: Live(s'.db, k) ==> s'.db[k].lits == s.db[k].lits;
    forall d ensures d in Meaning(s') <==> d in Base(s, l) {
      if k: nat :| Live(s'.db, k) && d == LitsOf(s'.db[k].lits) {
        assert LiveFree(s.db, l, k);
      }
      if k: nat :| LiveFree(s.db, l, k) && d == LitsOf(s.db[k].lits) {
        assert Live(s'.db, k);
      }
    }
  }

  // The resolvent 'r' of two clauses, ready to be added.
  ghost predicate NewResolvent(s: State, r: seq<Lit>, c: nat, l: Lit, d: nat) {
    && Live(s.db, c) && Live(s.db, d) && |r| >= 2 && WA.Distinct(r) && Free(r, l) && Entails(Meaning(s), LitsOf(r))
    && LitsOf(r) <= RE.Resolvent(LitsOf(s.db[c].lits), l, LitsOf(s.db[d].lits)) && Follows(s, l, c, d, LitsOf(r))
    && LitsOf(r) == OpenPair(s, c, l, d)
  }

  lemma UnitComplete(s: State, occs: Occs, inactive: set<nat>, eliminated: set<nat>, c: nat, l: Lit, d: nat, u: Lit)
    requires Live(s.db, c) && Live(s.db, d) && {u} <= RE.Resolvent(LitsOf(s.db[c].lits), l, LitsOf(s.db[d].lits))
    requires Connected(s.db, occs, inactive) && Valued(s.vals, inactive, eliminated) && Present(s.db, eliminated, false)
    requires u !in s.vals && -u !in s.vals
    ensures Complete(s.db, occs, u)
  {
    assert u in {u};
    if u in s.db[c].lits {
      ActiveComplete(s.db, occs, s.vals, inactive, eliminated, c, u);
    } else {
      ActiveComplete(s.db, occs, s.vals, inactive, eliminated, d, u);
    }
  }

  // The resolvent 'r' of two clauses, with unassigned literals only.
  ghost predicate ResolventReady(s: State, r: seq<Lit>, c: nat, l: Lit, d: nat) {
    forall u {:trigger Look(u)} :: Look(u) ==>
      && Live(s.db, c) && Live(s.db, d) && WA.Distinct(r) && Free(r, l) && (forall x :: x in r ==> x !in s.vals && -x !in s.vals)
      && Entails(Meaning(s), LitsOf(r)) && Follows(s, l, c, d, LitsOf(r))
      && LitsOf(r) <= RE.Resolvent(LitsOf(s.db[c].lits), l, LitsOf(s.db[d].lits)) && LitsOf(r) == OpenPair(s, c, l, d)
  }

  lemma ReadyNew(s: State, r: seq<Lit>, c: nat, l: Lit, d: nat)
    requires ResolventReady(s, r, c, l, d) && |r| >= 2
    ensures NewResolvent(s, r, c, l, d)
  {
    assert Look(0);
  }

  lemma ResolventRemaining(s: State, r: seq<Lit>, c: nat, l: Lit, d: nat, eliminated: set<nat>)
    requires NewResolvent(s, r, c, l, d) && Present(s.db, eliminated, false)
    ensures Remaining(r, eliminated)
  {
    PresentClause(s.db, eliminated, c);
    PresentClause(s.db, eliminated, d);
    forall x | x in r ensures Var(x) !in eliminated {
      assert x in LitsOf(r);
      assert x in s.db[c].lits || x in s.db[d].lits;
    }
  }

  lemma ResolventFlip(s: State, r: seq<Lit>, c: nat, l: Lit, d: nat)
    requires NewResolvent(s, r, d, -l, c)
    ensures NewResolvent(s, r, c, l, d)
  {
    assert -(-l) == l;
    BaseFlip(s, l);
    ResolventFlipped(s, l, c, d);
    assert OpenPair(s, c, l, d) == OpenPair(s, d, -l, c);
  }

  // Literals added to 'a' are unassigned and do not clash with it.
  ghost predicate NoClash(r: seq<Lit>, a: seq<Lit>, vals: set<Lit>) {
    forall x {:trigger x in r} :: x in r ==> x in a || (x !in vals && -x !in a)
  }

  // The resolvent, and the number of literals, after some literals of the second antecedent.
  ghost predicate Collected(seen: seq<Lit>, pivot: Lit, vals: set<Lit>, a: seq<Lit>, r: seq<Lit>, size: nat) {
    forall u {:trigger Look(u)} :: Look(u) ==>
      && r == a + Extra(Open(seen, pivot, vals), a) && NoClash(r, a, vals)
      && size == |Open(seen, pivot, vals)| + (if pivot in seen then 1 else 0)
  }

  lemma CollectedStart(pivot: Lit, vals: set<Lit>, a: seq<Lit>)
    ensures Collected([], pivot, vals, a, a, 0)
  {
    assert a + [] == a;
  }

  lemma CollectedSame(seen: seq<Lit>, lit: Lit, pivot: Lit, vals: set<Lit>, a: seq<Lit>, r: seq<Lit>, size: nat)
    requires Collected(seen, pivot, vals, a, r, size) && lit !in seen && (lit == pivot || -lit in vals || lit in a)
    ensures Collected(seen + [lit], pivot, vals, a, r, if lit != pivot && -lit in vals then size else size + 1)
  {
    assert Look(0);
    OpenLast(seen, lit, pivot, vals);
    ExtraLast(Open(seen, pivot, vals), lit, a);
    assert pivot in seen + [lit] <==> pivot in seen || pivot == lit;
  }

  lemma CollectedMore(seen: seq<Lit>, lit: Lit, pivot: Lit, vals: set<Lit>, a: seq<Lit>, r: seq<Lit>, size: nat)
    requires Collected(seen, pivot, vals, a, r, size) && lit !in seen
    requires lit != pivot && lit !in vals && -lit !in vals && lit !in a && -lit !in a
    ensures Collected(seen + [lit], pivot, vals, a, r + [lit], size + 1)
  {
    assert Look(0);
    OpenLast(seen, lit, pivot, vals);
    var o := Open(seen, pivot, vals);
    ExtraLast(o, lit, a);
    NoClashMore(r, a, vals, lit);
    assert pivot in seen + [lit] <==> pivot in seen || pivot == lit;
    AppendMore(r, a, Extra(o, a), lit);
  }

  lemma AppendMore(r: seq<Lit>, a: seq<Lit>, b: seq<Lit>, x: Lit)
    requires r == a + b
    ensures r + [x] == a + (b + [x])
  {
  }

  lemma NoClashMore(r: seq<Lit>, a: seq<Lit>, vals: set<Lit>, lit: Lit)
    requires NoClash(r, a, vals) && lit !in vals && -lit !in a
    ensures NoClash(r + [lit], a, vals)
  {
    assert forall x {:trigger x in r} :: x in r + [lit] <==> x in r || x == lit;
  }

  lemma ResolventDistinct(lits: seq<Lit>, l: Lit, other: seq<Lit>, vals: set<Lit>)
    requires WA.Distinct(lits) && WA.Distinct(other)
    requires var a := Open(lits, l, vals); NoClash(a + Extra(Open(other, -l, vals), a), a, vals)
    ensures var a := Open(lits, l, vals); WA.Distinct(a + Extra(Open(other, -l, vals), a))
  {
    var a := Open(lits, l, vals);
    var b := Open(other, -l, vals);
    OpenNoDup(lits, l, vals);
    OpenNoDup(other, -l, vals);
    Sizes(a, b);
    var r := a + Extra(b, a);
    forall x | x in r ensures -x !in r {
      assert -(-x) == x;
      assert x in a || x in Extra(b, a);
    }
  }

  lemma StillThere(s: State, s': State, l: Lit, k: nat)
    requires Kept(s, s', l) && k < |s.db|
    ensures k < |s'.db| && s'.db[k].lits == s.db[k].lits
  {
    StillFree(s, s', l, k);
  }

  lemma ListInside(db: Db, occs: Occs, inactive: set<nat>, l: Lit)
    requires Connected(db, occs, inactive)
    ensures Inside(db, Occ(occs, l)) && forall k :: k in Occ(occs, l) ==> k < |db|
  {
    var list := Occ(occs, l);
    forall i | 0 <= i < |list| ensures list[i] < |db| {
      Listed(db, occs, inactive, l, list[i]);
    }
  }

  lemma StillFree(s: State, s': State, l: Lit, k: nat)
    requires k < |s.db| && Kept(s, s', l)
    ensures k < |s'.db| && s'.db[k].lits == s.db[k].lits && |s'.db| >= |s.db| && s'.vals >= s.vals
  {
    KeptParts(s, s', l);
    KeptClause(s, s', l, k);
  }

  lemma SecondDone(s: State, s': State, l: Lit, c: nat, d: nat)
    requires c < |s.db| && d < |s.db| && Moved(s, s', -l, ResolventOf(s, l, c, d)) && d < |s'.db| && s'.db[d].garbage
    ensures Moved(s, s', l, ResolventOf(s, l, c, d)) && c < |s'.db| && |s'.db| >= |s.db| && Resolved(s', c, l, d)
  {
    assert -(-l) == l;
    MovedFlip(s, s', -l, ResolventOf(s, l, c, d));
    StillFree(s, s', l, c);
  }

  // The literals collected from a prefix of the first antecedent.
  ghost predicate FirstSome(lits: seq<Lit>, i: int, pivot: Lit, vals: set<Lit>, r: seq<Lit>, marks: set<Lit>, size: nat) {
    forall u {:trigger Look(u)} :: Look(u) ==>
      && 0 <= i <= |lits| && r == Open(lits[..i], pivot, vals) && marks == LitsOf(r)
      && size == |r| + (if pivot in lits[..i] then 1 else 0) && forall x :: x in r ==> x !in vals
  }

  lemma FirstStart(lits: seq<Lit>, pivot: Lit, vals: set<Lit>)
    ensures FirstSome(lits, 0, pivot, vals, [], {}, 0)
  {
    assert lits[..0] == [];
  }

  lemma FirstStep(lits: seq<Lit>, i: nat, pivot: Lit, vals: set<Lit>, r: seq<Lit>, marks: set<Lit>, size: nat)
    requires i < |lits| && WA.Distinct(lits) && FirstSome(lits, i, pivot, vals, r, marks, size)
    ensures var x := lits[i];
            && x in lits && x != 0
            && (x == pivot ==> FirstSome(lits, i + 1, pivot, vals, r, marks, size + 1))
            && (x != pivot && -x in vals ==> FirstSome(lits, i + 1, pivot, vals, r, marks, size))
            && (x != pivot && x !in vals && -x !in vals ==> FirstSome(lits, i + 1, pivot, vals, r + [x], marks + {x}, size + 1))
  {
    assert Look(0);
    var x := lits[i];
    assert lits[..i+1] == lits[..i] + [x] && x !in lits[..i] && x in lits;
    OpenLast(lits[..i], x, pivot, vals);
    LitsOfLast(r, x);
    assert pivot in lits[..i+1] <==> pivot in lits[..i] || pivot == x;
    assert forall y :: y in r + [x] <==> y in r || y == x;
  }

  lemma FirstEnd(lits: seq<Lit>, i: int, pivot: Lit, vals: set<Lit>, r: seq<Lit>, marks: set<Lit>, size: nat)
    requires FirstSome(lits, i, pivot, vals, r, marks, size) && pivot in lits
    ensures marks <= LitsOf(lits)
    ensures i == |lits| ==> r == Open(lits, pivot, vals) && marks == LitsOf(r) && size == |r| + 1 && forall x :: x in r ==> x !in vals
  {
    assert Look(0);
    assert i == |lits| ==> lits[..i] == lits;
    assert forall y :: y in lits[..i] ==> y in lits;
  }

  lemma OpenDistinct(lits: seq<Lit>, l: Lit, vals: set<Lit>)
    requires WA.Distinct(lits) && l in lits
    ensures WA.Distinct(Open(lits, l, vals)) && Free(Open(lits, l, vals), l)
  {
    OpenNoDup(lits, l, vals);
  }

  // Only satisfied clauses became garbage, and nothing else changed.
  ghost predicate OnlySatisfied(db: Db, db': Db, vals': set<Lit>) {
    |db'| == |db| && forall k {:trigger db'[k]} :: 0 <= k < |db| ==>
      (db'[k] == db[k] || (db'[k] == db[k].(garbage := true) && HasTrue(db[k].lits, vals')))
  }

  lemma SatisfiedSame(db: Db, vals: set<Lit>)
    ensures OnlySatisfied(db, db, vals) && forall vals' :: vals <= vals' ==> OnlySatisfied(db, db, vals')
  {
  }

  lemma SatisfiedNext(db: Db, db': Db, vals: set<Lit>, k: nat, x: Lit)
    requires OnlySatisfied(db, db', vals) && k < |db| && x in db'[k].lits && x in vals
    ensures OnlySatisfied(db, db'[k := db'[k].(garbage := true)], vals)
  {
  }

  lemma SatisfiedTransitive(db: Db, db1: Db, vals1: set<Lit>, db2: Db, vals2: set<Lit>)
    requires OnlySatisfied(db, db1, vals1) && OnlySatisfied(db1, db2, vals2) && vals1 <= vals2
    ensures OnlySatisfied(db, db2, vals2)
  {
    forall k | 0 <= k < |db|
      ensures db2[k] == db[k] || (db2[k] == db[k].(garbage := true) && HasTrue(db[k].lits, vals2)) {
      assert db1[k].lits == db[k].lits;
      if HasTrue(db[k].lits, vals1) {
        var x :| x in db[k].lits && x in vals1;
        assert x in vals2;
      }
    }
  }

  lemma WithinGarbage(db: Db, univ: set<Lit>, k: nat)
    requires Within(db, univ) && k < |db|
    ensures Within(db[k := db[k].(garbage := true)], univ)
  {
    assert Look(0);
  }

  lemma InUniverse(db: Db, univ: set<Lit>, k: nat, x: Lit)
    requires Within(db, univ) && k < |db| && x in db[k].lits
    ensures x in univ
  {
    assert Look(0);
    assert x in LitsOf(db[k].lits);
  }

  lemma Smaller(univ: set<Lit>, vals: set<Lit>, vals': set<Lit>, x: Lit)
    requires vals <= vals' && x in univ && x in vals' && x !in vals
    ensures |univ - vals'| < |univ - vals|
  {
    Cardinality(univ - vals', univ - vals, x);
  }

  lemma Cardinality(a: set<Lit>, b: set<Lit>, x: Lit)
    requires a <= b && x in b && x !in a
    ensures |a| < |b|
  {
    assert b == a + (b - a) && x in b - a;
  }
}
