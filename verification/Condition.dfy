// Globally blocked clauses: the current assignment is refined for each candidate clause into a
// conditional part, whose negations occur in the candidate, and an autarky part.
module Condition {
  import opened Cnf
  import EX = Extension
  import RE = Reconstruction
  import WA = Watching

  datatype CClause = CClause(lits: seq<Lit>, garbage: bool, id: nat)

  type Db = seq<CClause>

  type Occs = map<Lit, seq<nat>>

  function Occ(occs: Occs, l: Lit): seq<nat> {
    if l in occs then occs[l] else []
  }

  // ----- The partition of the assignment.

  predicate Conditional(vals: set<Lit>, bits: set<nat>, l: Lit) {
    l in vals && Var(l) in bits
  }

  predicate Autarky(vals: set<Lit>, bits: set<nat>, l: Lit) {
    l in vals && Var(l) !in bits
  }

  // The clause contains the negation of an autarky literal.
  ghost predicate Touched(lits: seq<Lit>, vals: set<Lit>, bits: set<nat>) {
    exists l :: l in lits && Autarky(vals, bits, -l)
  }

  lemma TouchedLess(lits: seq<Lit>, vals: set<Lit>, bits: set<nat>, vals': set<Lit>, bits': set<nat>)
    requires Touched(lits, vals', bits') && forall l :: Autarky(vals', bits', l) ==> Autarky(vals, bits, l)
    ensures Touched(lits, vals, bits)
  {
    var l :| l in lits && Autarky(vals', bits', -l);
    assert Autarky(vals, bits, -l);
  }

  // ----- Watched occurrences.

  // While the watches of 'u' from position 'i' on are still to be visited.
  datatype Visit = Idle | At(u: Lit, i: nat)

  ghost predicate From(list: seq<nat>, i: nat, k: nat) {
    exists j :: i <= j < |list| && list[j] == k
  }

  // Not processed yet: true, unassigned and waiting, or in the list being visited.
  ghost predicate Fine(occs: Occs, vals: set<Lit>, waiting: seq<Lit>, v: Visit, k: nat, w: Lit) {
    w in vals || w in waiting || (v.At? && w == v.u && From(Occ(occs, w), v.i, k))
  }

  // The clause is watched by an initially true literal, which is fine as long as the clause is
  // touched by the autarky.
  ghost predicate WatchedBy(db: Db, occs: Occs, base: set<Lit>, k: nat, w: Lit) {
    k < |db| && w in db[k].lits && w in base && k in Occ(occs, w)
  }

  ghost predicate Guarded(db: Db, occs: Occs, base: set<Lit>, k: nat) {
    exists w :: WatchedBy(db, occs, base, k, w)
  }

  ghost predicate FineAt(db: Db, occs: Occs, base: set<Lit>, vals: set<Lit>, bits: set<nat>, waiting: seq<Lit>, v: Visit, k: nat)
    requires k < |db|
  {
    Touched(db[k].lits, vals, bits) ==> exists w :: WatchedBy(db, occs, base, k, w) && Fine(occs, vals, waiting, v, k, w)
  }

  // What all candidates share: the initial true literals and the initial conditional bits.
  ghost predicate Based(db: Db, occs: Occs, base: set<Lit>, bits0: set<nat>) {
    forall u {:trigger Look(u)} :: Look(u) ==>
      (forall k {:trigger Guarded(db, occs, base, k)} :: 0 <= k < |db| && !db[k].garbage && Touched(db[k].lits, base, bits0) ==>
        Guarded(db, occs, base, k))
      && (forall l, k {:trigger k in Occ(occs, l)} :: k in Occ(occs, l) ==> k < |db|)
  }

  ghost predicate Waiting(db: Db, occs: Occs, base: set<Lit>, vals: set<Lit>, bits: set<nat>, waiting: seq<Lit>, v: Visit) {
    forall u {:trigger Look(u)} :: Look(u) ==>
      forall k {:trigger FineAt(db, occs, base, vals, bits, waiting, v, k)} :: 0 <= k < |db| && !db[k].garbage ==>
        FineAt(db, occs, base, vals, bits, waiting, v, k)
  }

  // At the start everything true is fine.
  lemma WaitingStart(db: Db, occs: Occs, base: set<Lit>, bits0: set<nat>)
    requires Based(db, occs, base, bits0)
    ensures Waiting(db, occs, base, base, bits0, [], Idle)
  {
    assert Look(0);
    forall k | 0 <= k < |db| && !db[k].garbage ensures FineAt(db, occs, base, base, bits0, [], Idle, k) {
      if Touched(db[k].lits, base, bits0) {
        assert Guarded(db, occs, base, k);
        var w :| WatchedBy(db, occs, base, k, w);
        assert Fine(occs, base, [], Idle, k, w);
      }
    }
  }

  // A conditional literal is unassigned; its watches wait to be visited.
  lemma WaitingUnassign(db: Db, occs: Occs, base: set<Lit>, vals: set<Lit>, bits: set<nat>, waiting: seq<Lit>, x: Lit)
    requires Waiting(db, occs, base, vals, bits, waiting, Idle) && Var(x) in bits
    ensures Waiting(db, occs, base, vals - {x}, bits, waiting + [x], Idle)
  {
    assert Look(0);
    forall k | 0 <= k < |db| && !db[k].garbage ensures FineAt(db, occs, base, vals - {x}, bits, waiting + [x], Idle, k) {
      if Touched(db[k].lits, vals - {x}, bits) {
        TouchedLess(db[k].lits, vals, bits, vals - {x}, bits);
        assert FineAt(db, occs, base, vals, bits, waiting, Idle, k);
        var w :| WatchedBy(db, occs, base, k, w) && Fine(occs, vals, waiting, Idle, k, w);
        assert Fine(occs, vals - {x}, waiting + [x], Idle, k, w);
      }
    }
  }

  // The next waiting literal is visited.
  lemma WaitingVisit(db: Db, occs: Occs, base: set<Lit>, vals: set<Lit>, bits: set<nat>, waiting: seq<Lit>)
    requires waiting != [] && Waiting(db, occs, base, vals, bits, waiting, Idle)
    ensures Waiting(db, occs, base, vals, bits, waiting[1..], At(waiting[0], 0))
  {
    assert Look(0);
    var v := At(waiting[0], 0);
    assert waiting == [waiting[0]] + waiting[1..];
    forall k | 0 <= k < |db| && !db[k].garbage ensures FineAt(db, occs, base, vals, bits, waiting[1..], v, k) {
      assert FineAt(db, occs, base, vals, bits, waiting, Idle, k);
      if Touched(db[k].lits, vals, bits) {
        var w :| WatchedBy(db, occs, base, k, w) && Fine(occs, vals, waiting, Idle, k, w);
        assert Fine(occs, vals, waiting[1..], v, k, w);
      }
    }
  }

  // All watches were visited.
  lemma WaitingVisited(db: Db, occs: Occs, base: set<Lit>, vals: set<Lit>, bits: set<nat>, waiting: seq<Lit>, u: Lit, i: nat)
    requires Waiting(db, occs, base, vals, bits, waiting, At(u, i)) && |Occ(occs, u)| <= i
    ensures Waiting(db, occs, base, vals, bits, waiting, Idle)
  {
    assert Look(0);
    forall k | 0 <= k < |db| && !db[k].garbage ensures FineAt(db, occs, base, vals, bits, waiting, Idle, k) {
      assert FineAt(db, occs, base, vals, bits, waiting, At(u, i), k);
      if Touched(db[k].lits, vals, bits) {
        var w :| WatchedBy(db, occs, base, k, w) && Fine(occs, vals, waiting, At(u, i), k, w);
        assert Fine(occs, vals, waiting, Idle, k, w);
      }
    }
  }

  // The visited clause is not touched any more.
  lemma WaitingSkip(db: Db, occs: Occs, base: set<Lit>, vals: set<Lit>, bits: set<nat>, waiting: seq<Lit>, u: Lit, i: nat)
    requires Waiting(db, occs, base, vals, bits, waiting, At(u, i)) && i < |Occ(occs, u)| && Occ(occs, u)[i] < |db|
    requires !Touched(db[Occ(occs, u)[i]].lits, vals, bits)
    ensures Waiting(db, occs, base, vals, bits, waiting, At(u, i + 1))
  {
    assert Look(0);
    var v, v' := At(u, i), At(u, i + 1);
    forall k | 0 <= k < |db| && !db[k].garbage ensures FineAt(db, occs, base, vals, bits, waiting, v', k) {
      assert FineAt(db, occs, base, vals, bits, waiting, v, k);
      if Touched(db[k].lits, vals, bits) {
        var w :| WatchedBy(db, occs, base, k, w) && Fine(occs, vals, waiting, v, k, w);
        assert Fine(occs, vals, waiting, v', k, w);
      }
    }
  }

  // Autarky literals become conditional.
  lemma WaitingMark(db: Db, occs: Occs, base: set<Lit>, vals: set<Lit>, bits: set<nat>, waiting: seq<Lit>, v: Visit, x: nat)
    requires Waiting(db, occs, base, vals, bits, waiting, v)
    ensures Waiting(db, occs, base, vals, bits + {x}, waiting, v)
  {
    assert Look(0);
    forall k | 0 <= k < |db| && !db[k].garbage ensures FineAt(db, occs, base, vals, bits + {x}, waiting, v, k) {
      if Touched(db[k].lits, vals, bits + {x}) {
        TouchedLess(db[k].lits, vals, bits, vals, bits + {x});
        assert FineAt(db, occs, base, vals, bits, waiting, v, k);
      }
    }
  }

  function Without(list: seq<nat>, i: nat): seq<nat>
    requires i < |list|
  {
    list[..i] + list[i+1..]
  }

  // The watch moves from the visited literal to a true literal.
  function Moved(occs: Occs, u: Lit, i: nat, r: Lit): Occs
    requires i < |Occ(occs, u)|
  {
    var occs' := occs[u := Without(Occ(occs, u), i)];
    occs'[r := Occ(occs', r) + [Occ(occs, u)[i]]]
  }

  lemma MovedWatch(db: Db, occs: Occs, base: set<Lit>, u: Lit, i: nat, r: Lit, k: nat, w: Lit)
    requires i < |Occ(occs, u)| && r != u && WatchedBy(db, occs, base, k, w) && (w != u || k != Occ(occs, u)[i])
    ensures WatchedBy(db, Moved(occs, u, i, r), base, k, w)
    ensures From(Occ(occs, u), i, k) && k != Occ(occs, u)[i] ==> From(Occ(Moved(occs, u, i, r), u), i, k)
  {
    var list := Occ(occs, u);
    var occs' := Moved(occs, u, i, r);
    assert list == list[..i] + [list[i]] + list[i+1..];
    if j :| i <= j < |list| && list[j] == k && k != list[i] {
      assert Without(list, i)[j-1] == k;
    }
    assert w == r ==> k in Occ(occs', r);
  }

  lemma MovedNew(db: Db, occs: Occs, base: set<Lit>, u: Lit, i: nat, r: Lit)
    requires i < |Occ(occs, u)| && r != u && Occ(occs, u)[i] < |db| && r in db[Occ(occs, u)[i]].lits && r in base
    ensures WatchedBy(db, Moved(occs, u, i, r), base, Occ(occs, u)[i], r)
  {
    var k := Occ(occs, u)[i];
    var occs' := Moved(occs, u, i, r);
    assert occs'[r][|occs'[r]|-1] == k;
  }

  lemma WaitingMoved(db: Db, occs: Occs, base: set<Lit>, vals: set<Lit>, bits: set<nat>, waiting: seq<Lit>, u: Lit, i: nat, r: Lit)
    requires Waiting(db, occs, base, vals, bits, waiting, At(u, i)) && i < |Occ(occs, u)| && Occ(occs, u)[i] < |db|
    requires r in db[Occ(occs, u)[i]].lits && r in vals && u !in vals && vals <= base
    ensures Waiting(db, Moved(occs, u, i, r), base, vals, bits, waiting, At(u, i))
  {
    assert Look(0);
    var v, occs', n := At(u, i), Moved(occs, u, i, r), Occ(occs, u)[i];
    MovedNew(db, occs, base, u, i, r);
    forall k | 0 <= k < |db| && !db[k].garbage ensures FineAt(db, occs', base, vals, bits, waiting, v, k) {
      assert FineAt(db, occs, base, vals, bits, waiting, v, k);
      if Touched(db[k].lits, vals, bits) {
        if k == n {
          assert Fine(occs', vals, waiting, v, k, r);
        } else {
          var w :| WatchedBy(db, occs, base, k, w) && Fine(occs, vals, waiting, v, k, w);
          MovedWatch(db, occs, base, u, i, r, k, w);
          assert Fine(occs', vals, waiting, v, k, w);
        }
      }
    }
  }

  lemma BasedMoved(db: Db, occs: Occs, base: set<Lit>, bits0: set<nat>, u: Lit, i: nat, r: Lit)
    requires Based(db, occs, base, bits0) && i < |Occ(occs, u)| && Occ(occs, u)[i] < |db|
    requires r in db[Occ(occs, u)[i]].lits && r in base && r != u
    ensures Based(db, Moved(occs, u, i, r), base, bits0)
  {
    assert Look(0);
    var occs', n := Moved(occs, u, i, r), Occ(occs, u)[i];
    MovedNew(db, occs, base, u, i, r);
    forall k | 0 <= k < |db| && !db[k].garbage && Touched(db[k].lits, base, bits0) ensures Guarded(db, occs', base, k) {
      assert Guarded(db, occs, base, k);
      if k != n {
        var w :| WatchedBy(db, occs, base, k, w);
        MovedWatch(db, occs, base, u, i, r, k, w);
      }
    }
    forall l, k {:trigger k in Occ(occs', l)} | k in Occ(occs', l) ensures k < |db| {
      assert k == n || k in Occ(occs, l);
    }
  }

  // ----- The stacks.

  function VarsIn(s: seq<Lit>): set<nat> {
    set l | l in s :: Var(l)
  }

  ghost predicate ConsistentSet(vals: set<Lit>) {
    0 !in vals && forall l {:trigger -l in vals} :: l in vals ==> -l !in vals
  }

  // 'base' is the initial assignment, 'cond0' are the initial conditional literals.  The stack of
  // conditional literals has grown, and some of them are unassigned for now.
  ghost predicate Stacks(base: set<Lit>, cond0: seq<Lit>, vals: set<Lit>, bits: set<nat>, conditional: seq<Lit>, unassigned: seq<Lit>) {
    forall u {:trigger Look(u)} :: Look(u) ==>
      && ConsistentSet(base) && vals <= base && base == vals + LitsOf(unassigned)
      && cond0 <= conditional && DistinctVars(conditional) && bits == VarsIn(conditional)
      && (forall l :: l in conditional ==> l in base)
      && (forall l :: l in unassigned ==> l !in vals && l in conditional)
      && (forall i, j :: 0 <= i < j < |unassigned| ==> unassigned[i] != unassigned[j])
  }

  // Conditional literals before 'n' are negated in the candidate or unassigned, the others true.
  ghost predicate Processed(marks: set<Lit>, vals: set<Lit>, conditional: seq<Lit>, n: nat) {
    && n <= |conditional|
    && (forall j {:trigger conditional[j]} :: 0 <= j < n ==> -conditional[j] in marks || conditional[j] !in vals)
    && (forall j {:trigger conditional[j]} :: n <= j < |conditional| ==> conditional[j] in vals)
  }

  lemma StacksStart(vals: set<Lit>, bits: set<nat>, conditional: seq<Lit>)
    requires ConsistentSet(vals) && DistinctVars(conditional) && bits == VarsIn(conditional)
    requires forall l :: l in conditional ==> l in vals
    ensures Stacks(vals, conditional, vals, bits, conditional, [])
  {
  }

  lemma StacksUnassign(base: set<Lit>, cond0: seq<Lit>, vals: set<Lit>, bits: set<nat>, conditional: seq<Lit>, unassigned: seq<Lit>,
                       marks: set<Lit>, n: nat)
    requires Stacks(base, cond0, vals, bits, conditional, unassigned) && Processed(marks, vals, conditional, n) && n < |conditional|
    ensures Var(conditional[n]) in bits && conditional[n] in vals
    ensures Stacks(base, cond0, vals - {conditional[n]}, bits, conditional, unassigned + [conditional[n]])
    ensures Processed(marks, vals - {conditional[n]}, conditional, n + 1)
  {
    assert Look(0);
    var x := conditional[n];
    assert x in conditional && Var(x) in VarsIn(conditional);
    LitsOfLast(unassigned, x);
    assert forall l :: l in unassigned + [x] <==> l in unassigned || l == x;
    assert forall i :: 0 <= i < |unassigned| ==> unassigned[i] in unassigned;
  }

  lemma StacksMark(base: set<Lit>, cond0: seq<Lit>, vals: set<Lit>, bits: set<nat>, conditional: seq<Lit>, unassigned: seq<Lit>,
                   marks: set<Lit>, n: nat, x: Lit)
    requires Stacks(base, cond0, vals, bits, conditional, unassigned) && Processed(marks, vals, conditional, n)
    requires Autarky(vals, bits, x)
    ensures Stacks(base, cond0, vals, bits + {Var(x)}, conditional + [x], unassigned)
    ensures Processed(marks, vals, conditional + [x], n)
  {
    assert Look(0);
    assert forall l :: l in conditional + [x] <==> l in conditional || l == x;
    assert forall v :: v in VarsIn(conditional + [x]) <==> v in VarsIn(conditional) || v == Var(x);
    forall i | 0 <= i < |conditional| ensures Var(conditional[i]) != Var(x) {
      assert conditional[i] in conditional && Var(conditional[i]) in VarsIn(conditional);
    }
  }

  // ----- Success: the remaining autarky literals are a conditional autarky.

  // The other clauses and the fixed literals.
  ghost predicate Other(db: Db, c: nat, k: nat) {
    k < |db| && k != c && !db[k].garbage
  }

  ghost function Rest(db: Db, c: nat, root: set<Lit>): Formula {
    (iset k: nat | Other(db, c, k) :: LitsOf(db[k].lits)) + (iset l: Lit | l in root :: {l})
  }

  ghost function AutarkyPart(vals: set<Lit>, bits: set<nat>): Clause {
    set l | l in vals && Var(l) !in bits
  }

  lemma ConditionalNegated(base: set<Lit>, cond0: seq<Lit>, vals: set<Lit>, bits: set<nat>, conditional: seq<Lit>,
                           unassigned: seq<Lit>, marks: set<Lit>, l: Lit)
    requires Stacks(base, cond0, vals, bits, conditional, unassigned) && Processed(marks, vals, conditional, |conditional|)
    requires Conditional(vals, bits, l)
    ensures -l in marks
  {
    assert Look(0);
    var x :| x in conditional && Var(x) == Var(l);
    var j :| 0 <= j < |conditional| && conditional[j] == x;
    assert x in base && l in base;
    assert x == l || x == -l;
  }

  lemma FixpointAutarky(db: Db, occs: Occs, base: set<Lit>, cond0: seq<Lit>, vals: set<Lit>, bits: set<nat>,
                        conditional: seq<Lit>, unassigned: seq<Lit>, c: nat, root: set<Lit>)
    requires Waiting(db, occs, base, vals, bits, [], Idle) && c < |db|
    requires Stacks(base, cond0, vals, bits, conditional, unassigned)
    requires Processed(LitsOf(db[c].lits), vals, conditional, |conditional|)
    requires forall l, r :: l in base && r in root ==> Var(l) != Var(r)
    ensures RE.ConditionalAutarky(Rest(db, c, root), LitsOf(db[c].lits), AutarkyPart(vals, bits))
    ensures RE.Consistent(AutarkyPart(vals, bits))
  {
    assert Look(0);
    var w := AutarkyPart(vals, bits);
    forall d: Clause | d in Rest(db, c, root) && exists a :: a in w && -a in d
      ensures exists l :: l in d && (l in w || (-l in LitsOf(db[c].lits) && -l !in w))
    {
      var a :| a in w && -a in d;
      assert Var(-a) == Var(a);
      assert forall r: Lit :: r in root ==> d != {r};
      var k: nat :| Other(db, c, k) && d == LitsOf(db[k].lits);
      assert -(-a) == a && Autarky(vals, bits, -(-a));
      assert Touched(db[k].lits, vals, bits);
      assert FineAt(db, occs, base, vals, bits, [], Idle, k);
      var l :| WatchedBy(db, occs, base, k, l) && Fine(occs, vals, [], Idle, k, l);
      assert l in d && l in vals && -l !in vals;
      if l !in w {
        ConditionalNegated(base, cond0, vals, bits, conditional, unassigned, LitsOf(db[c].lits), l);
      }
    }
  }

  // ----- Failure: there is no conditional autarky.

  // Part of the assignment that satisfies all clauses in 'scope' it touches, under the condition that the
  // literals in 'marks' are false.
  ghost predicate Autarkic(db: Db, scope: set<nat>, base: set<Lit>, marks: set<Lit>, part: set<Lit>) {
    && part <= base
    && forall k {:trigger k in scope} :: k in scope && k < |db| && (exists x :: x in part && -x in db[k].lits) ==>
         exists l :: l in db[k].lits && (l in part || (l in base && -l in marks))
  }

  // A literal that is negated in a clause without true literals is in no such part.
  lemma NotAutarkic(db: Db, scope: set<nat>, base: set<Lit>, marks: set<Lit>, part: set<Lit>, vals: set<Lit>, k: nat, x: Lit)
    requires Autarkic(db, scope, base, marks, part) && part <= vals && (forall l :: l in base && -l in marks ==> l in vals)
    requires k in scope && k < |db| && -x in db[k].lits && forall l :: l in db[k].lits ==> l !in vals
    ensures x !in part
  {
  }

  // All such parts are left in the autarky part.
  ghost predicate Maximal(db: Db, scope: set<nat>, base: set<Lit>, marks: set<Lit>, vals: set<Lit>, bits: set<nat>) {
    forall u {:trigger Look(u)} :: Look(u) ==>
      && (forall l :: l in base && -l in marks ==> l in vals)
      && forall part {:trigger Autarkic(db, scope, base, marks, part)} :: Autarkic(db, scope, base, marks, part) ==>
           forall x {:trigger x in part} :: x in part ==> Autarky(vals, bits, x)
  }

  // Initial conditional literals are negated in clauses without true literals.
  ghost predicate InitialAt(db: Db, scope: set<nat>, vals: set<Lit>, x: Lit, k: nat) {
    k in scope && k < |db| && -x in db[k].lits && forall l {:trigger l in db[k].lits} :: l in db[k].lits ==> l !in vals
  }

  ghost predicate Initial(db: Db, scope: set<nat>, vals: set<Lit>, conditional: seq<Lit>) {
    forall u {:trigger Look(u)} :: Look(u) ==>
      forall x {:trigger x in conditional} :: x in conditional ==> exists k :: InitialAt(db, scope, vals, x, k)
  }

  ghost predicate Scoped(occs: Occs, scope: set<nat>) {
    forall u {:trigger Look(u)} :: Look(u) ==> forall l, k {:trigger k in Occ(occs, l)} :: k in Occ(occs, l) ==> k in scope
  }

  lemma SameVar(vals: set<Lit>, x: Lit, y: Lit)
    requires x in vals && y in vals && -y !in vals && Var(x) == Var(y)
    ensures x == y
  {
    assert x == y || x == -y;
  }

  lemma MaximalStart(db: Db, scope: set<nat>, base: set<Lit>, marks: set<Lit>, bits: set<nat>, cond0: seq<Lit>)
    requires Initial(db, scope, base, cond0) && Stacks(base, cond0, base, bits, cond0, [])
    ensures Maximal(db, scope, base, marks, base, bits)
  {
    assert Look(0);
    forall part, x | Autarkic(db, scope, base, marks, part) && x in part ensures Autarky(base, bits, x) {
      if y :| y in cond0 && Var(y) == Var(x) {
        var k :| InitialAt(db, scope, base, y, k);
        SameVar(base, x, y);
        NotAutarkic(db, scope, base, marks, part, base, k, y);
      }
    }
  }

  lemma MaximalUnassign(db: Db, scope: set<nat>, base: set<Lit>, marks: set<Lit>, vals: set<Lit>, bits: set<nat>, x: Lit)
    requires Maximal(db, scope, base, marks, vals, bits) && Var(x) in bits && -x !in marks
    ensures Maximal(db, scope, base, marks, vals - {x}, bits)
  {
    assert Look(0);
    forall part, y | Autarkic(db, scope, base, marks, part) && y in part ensures Autarky(vals - {x}, bits, y) {
      assert Autarky(vals, bits, y);
    }
  }

  lemma MaximalMark(db: Db, scope: set<nat>, base: set<Lit>, marks: set<Lit>, vals: set<Lit>, bits: set<nat>, k: nat, x: Lit)
    requires Maximal(db, scope, base, marks, vals, bits) && k in scope && k < |db| && -x in db[k].lits
    requires (forall l :: l in db[k].lits ==> l !in vals) && x in vals && -x !in vals
    ensures Maximal(db, scope, base, marks, vals, bits + {Var(x)})
  {
    assert Look(0);
    forall part, y | Autarkic(db, scope, base, marks, part) && y in part ensures Autarky(vals, bits + {Var(x)}, y) {
      assert Autarky(vals, bits, y);
      forall z | z in part ensures z in vals {
        assert Autarky(vals, bits, z);
      }
      if Var(y) == Var(x) {
        SameVar(vals, y, x);
        NotAutarkic(db, scope, base, marks, part, vals, k, x);
      }
    }
  }

  // Removing clauses does not matter.
  lemma InitialGarbage(db: Db, scope: set<nat>, vals: set<Lit>, conditional: seq<Lit>, c: nat)
    requires Initial(db, scope, vals, conditional) && c < |db|
    ensures Initial(db[c := db[c].(garbage := true)], scope, vals, conditional)
  {
    assert Look(0);
    var db' := db[c := db[c].(garbage := true)];
    forall x | x in conditional ensures exists k :: InitialAt(db', scope, vals, x, k) {
      var k :| InitialAt(db, scope, vals, x, k);
      assert InitialAt(db', scope, vals, x, k);
    }
  }

  lemma ScopedMoved(occs: Occs, scope: set<nat>, u: Lit, i: nat, r: Lit)
    requires Scoped(occs, scope) && i < |Occ(occs, u)|
    ensures Scoped(Moved(occs, u, i, r), scope) && Occ(occs, u)[i] in scope
  {
    assert Look(0);
    var occs', n := Moved(occs, u, i, r), Occ(occs, u)[i];
    assert n in Occ(occs, u);
    forall l, k {:trigger k in Occ(occs', l)} | k in Occ(occs', l) ensures k in scope {
      assert k == n || k in Occ(occs, l);
    }
  }

  // No conditional autarky under the negated clause contains one of its literals.
  ghost predicate Hopeless(db: Db, scope: set<nat>, base: set<Lit>, c: nat) {
    c < |db| ==>
      forall part {:trigger Autarkic(db, scope, base, LitsOf(db[c].lits), part)} ::
        Autarkic(db, scope, base, LitsOf(db[c].lits), part) ==> forall l {:trigger l in part} :: l in db[c].lits ==> l !in part
  }

  lemma HopelessIntro(db: Db, scope: set<nat>, base: set<Lit>, vals: set<Lit>, bits: set<nat>, c: nat)
    requires c < |db| && Maximal(db, scope, base, LitsOf(db[c].lits), vals, bits)
    requires forall l :: l in db[c].lits ==> !Autarky(vals, bits, l)
    ensures Hopeless(db, scope, base, c)
  {
    assert Look(0);
  }

  predicate HasValue(vals: set<Lit>, v: nat) {
    var l: Lit := v;
    l in vals || -l in vals
  }

  class Conditioner {
    var db: Db                        // irredundant clauses
    var occs: Occs                    // watched occurrences
    var trail: seq<Lit>               // all assigned literals
    const root: set<Lit>              // the fixed ones
    const active: set<nat>            // variables still in use
    const frozen: set<nat>            // variables that have to be kept
    const maxVar: nat
    var vals: set<Lit>
    var bits: set<nat>                // conditional bits of variables
    var conditional: seq<Lit>
    var unassigned: seq<Lit>
    var marks: set<Lit>               // literals of the candidate clause
    var conditioned: set<nat>         // clauses tried before
    var props: nat
    var extension: seq<int>           // the extension stack
    ghost var scope: set<nat>         // clauses looked at in this round

    constructor (db: Db, trail: seq<Lit>, root: set<Lit>, active: set<nat>, frozen: set<nat>, maxVar: nat, extension: seq<int>)
      ensures this.db == db && this.trail == trail && this.root == root && this.extension == extension
      ensures vals == LitsOf(trail) && Clear()
    {
      this.db, this.trail, this.root, this.extension := db, trail, root, extension;
      this.active, this.frozen, this.maxVar := active, frozen, maxVar;
      occs, vals, bits, conditional, unassigned, marks := map[], LitsOf(trail), {}, [], [], {};
      conditioned, props := {}, 0;
    }

    // Nothing is left of a round.
    ghost predicate Clear()
      reads this
    {
      bits == {} && conditional == [] && unassigned == [] && marks == {}
    }

    // What is known between two candidates.
    ghost predicate Valid()
      reads this
    {
      && Based(db, occs, vals, bits) && Stacks(vals, conditional, vals, bits, conditional, [])
      && Clean(db) && unassigned == [] && marks == {} && Apart(vals, root) && vals <= LitsOf(trail)
      && Scoped(occs, scope) && Initial(db, scope, vals, conditional)
    }

    predicate IsAutarky(l: Lit)
      reads this
    {
      Autarky(vals, bits, l)
    }

    // An autarky literal of the candidate, or zero.
    method FindAutarky(lits: seq<Lit>) returns (l: Lit)
      ensures l != 0 ==> l in lits && IsAutarky(l)
      ensures l == 0 && 0 !in lits ==> forall k :: k in lits ==> !IsAutarky(k)
    {
      l := 0;
      var i: nat := 0;
      while l == 0 && i < |lits|
        invariant i <= |lits| && (l != 0 ==> l in lits && IsAutarky(l))
        invariant l == 0 && 0 !in lits ==> forall j :: 0 <= j < i ==> !IsAutarky(lits[j])
      {
        if IsAutarky(lits[i]) {
          l := lits[i];
        }
        i := i + 1;
      }
    }

    // A true literal of the clause, or zero, and the number of its false autarky literals.
    method Inspect(lits: seq<Lit>) returns (replacement: Lit, negative: nat)
      requires 0 !in lits
      ensures replacement != 0 ==> replacement in lits && replacement in vals
      ensures replacement == 0 ==> forall l :: l in lits ==> l !in vals
      ensures negative == 0 ==> !Touched(lits, vals, bits)
    {
      replacement, negative := 0, 0;
      for i := 0 to |lits|
        invariant replacement != 0 ==> replacement in lits && replacement in vals
        invariant replacement == 0 ==> forall j :: 0 <= j < i ==> lits[j] !in vals
        invariant negative == 0 ==> forall j :: 0 <= j < i ==> !IsAutarky(-lits[j])
      {
        assert lits[i] in lits;
        if lits[i] in vals {
          replacement := lits[i];
        }
        if -lits[i] in vals && IsAutarky(-lits[i]) {
          negative := negative + 1;
        }
      }
    }

    // What is known while the candidate 'c' is refined.
    ghost predicate Refining(base: set<Lit>, bits0: set<nat>, cond0: seq<Lit>, n: nat)
      reads this
    {
      && Based(db, occs, base, bits0) && Stacks(base, cond0, vals, bits, conditional, unassigned)
      && Processed(marks, vals, conditional, n) && Clean(db)
      && Scoped(occs, scope) && Maximal(db, scope, base, marks, vals, bits)
    }

    // Turn all false autarky literals of a clause into conditional ones.  The watched autarky
    // literal of the candidate may have to be replaced.
    method MarkClause(d: seq<Lit>, c: nat, watched0: Lit, ghost base: set<Lit>, ghost bits0: set<nat>, ghost cond0: seq<Lit>,
                      ghost n: nat, ghost waiting: seq<Lit>, ghost v: Visit, ghost k: nat)
      returns (watched: Lit)
      requires k in scope && k < |db| && d == db[k].lits && forall l :: l in d ==> l !in vals
      requires Refining(base, bits0, cond0, n) && c < |db| && watched0 != 0 && watched0 in db[c].lits && IsAutarky(watched0)
      requires Waiting(db, occs, base, vals, bits, waiting, v)
      modifies `bits, `conditional
      ensures Refining(base, bits0, cond0, n) && Waiting(db, occs, base, vals, bits, waiting, v)
      ensures if watched != 0 then watched in db[c].lits && IsAutarky(watched) && !Touched(d, vals, bits)
              else forall l :: l in db[c].lits ==> !IsAutarky(l)
    {
      CleanAt(db, c);
      watched := watched0;
      var i: nat := 0;
      while watched != 0 && i < |d|
        invariant i <= |d| && Refining(base, bits0, cond0, n) && Waiting(db, occs, base, vals, bits, waiting, v)
        invariant if watched != 0 then watched in db[c].lits && IsAutarky(watched) else forall l :: l in db[c].lits ==> !IsAutarky(l)
        invariant watched != 0 ==> forall j :: 0 <= j < i ==> !IsAutarky(-d[j])
        decreases |d| - i
      {
        var x := -d[i];
        i := i + 1;
        if !IsAutarky(x) { continue; }
        assert d[i-1] in db[k].lits && -x == d[i-1];
        NotNegated(base, cond0, vals, bits, conditional, unassigned, x);
        MaximalMark(db, scope, base, marks, vals, bits, k, x);
        StacksMark(base, cond0, vals, bits, conditional, unassigned, marks, n, x);
        WaitingMark(db, occs, base, vals, bits, waiting, v, Var(x));
        bits := bits + {Var(x)};
        conditional := conditional + [x];
        if x == watched {
          watched := FindAutarky(db[c].lits);
        } else {
          SameVariable(base, cond0, vals, bits, conditional, unassigned, x, watched);
        }
      }
    }

    // Visit the watched clauses of an unassigned literal: find replacement watches, or turn false
    // autarky literals into conditional ones.
    method VisitWatches(u: Lit, c: nat, watched0: Lit, ghost base: set<Lit>, ghost bits0: set<nat>, ghost cond0: seq<Lit>,
                        ghost n: nat, ghost waiting: seq<Lit>)
      returns (watched: Lit)
      requires Refining(base, bits0, cond0, n) && c < |db| && watched0 != 0 && watched0 in db[c].lits && IsAutarky(watched0)
      requires Waiting(db, occs, base, vals, bits, waiting, At(u, 0)) && u !in vals
      modifies `occs, `bits, `conditional
      ensures Refining(base, bits0, cond0, n)
      ensures if watched != 0 then watched in db[c].lits && IsAutarky(watched) && Waiting(db, occs, base, vals, bits, waiting, Idle)
              else forall l :: l in db[c].lits ==> !IsAutarky(l)
    {
      watched := watched0;
      var i: nat := 0;
      while watched != 0 && i < |Occ(occs, u)|
        invariant Refining(base, bits0, cond0, n)
        invariant if watched != 0 then watched in db[c].lits && IsAutarky(watched) && Waiting(db, occs, base, vals, bits, waiting, At(u, i))
                  else forall l :: l in db[c].lits ==> !IsAutarky(l)
        decreases |Occ(occs, u)| - i
      {
        i, watched := VisitWatch(u, i, c, watched, base, bits0, cond0, n, waiting);
      }
      if watched != 0 {
        WaitingVisited(db, occs, base, vals, bits, waiting, u, i);
      }
    }

    method VisitWatch(u: Lit, i: nat, c: nat, watched0: Lit, ghost base: set<Lit>, ghost bits0: set<nat>, ghost cond0: seq<Lit>,
                      ghost n: nat, ghost waiting: seq<Lit>)
      returns (next: nat, watched: Lit)
      requires Refining(base, bits0, cond0, n) && c < |db| && watched0 != 0 && watched0 in db[c].lits && IsAutarky(watched0)
      requires Waiting(db, occs, base, vals, bits, waiting, At(u, i)) && u !in vals && i < |Occ(occs, u)|
      modifies `occs, `bits, `conditional
      ensures Refining(base, bits0, cond0, n) && |Occ(occs, u)| - next < |Occ(old(occs), u)| - i
      ensures if watched != 0 then watched in db[c].lits && IsAutarky(watched) && Waiting(db, occs, base, vals, bits, waiting, At(u, next))
              else forall l :: l in db[c].lits ==> !IsAutarky(l)
    {
      InDb(db, occs, base, bits0, u, i);
      var d := occs[u][i];
      watched := watched0;
      var replacement, negative := Inspect(db[d].lits);
      if replacement != 0 {
        TrueInBase(base, cond0, vals, bits, conditional, unassigned, replacement);
        BasedMoved(db, occs, base, bits0, u, i, replacement);
        ScopedMoved(occs, scope, u, i, replacement);
        WaitingMoved(db, occs, base, vals, bits, waiting, u, i, replacement);
        next := i;
        occs := occs[u := occs[u][..i] + occs[u][i+1..]];
        occs := occs[replacement := Occ(occs, replacement) + [d]];
        return;
      }
      next := i + 1;
      if negative > 0 {
        ScopedMoved(occs, scope, u, i, 0);
        watched := MarkClause(db[d].lits, c, watched, base, bits0, cond0, n, waiting, At(u, i), d);
      }
      if watched != 0 {
        WaitingSkip(db, occs, base, vals, bits, waiting, u, i);
      }
    }

    // Process all literals that were unassigned, up to the propagation limit.
    method PropagateUnassigned(next0: nat, c: nat, watched0: Lit, limit: nat, ghost base: set<Lit>, ghost bits0: set<nat>,
                               ghost cond0: seq<Lit>, ghost n: nat)
      returns (next: nat, watched: Lit)
      requires Refining(base, bits0, cond0, n) && c < |db| && watched0 != 0 && watched0 in db[c].lits && IsAutarky(watched0)
      requires next0 <= |unassigned| && Waiting(db, occs, base, vals, bits, unassigned[next0..], Idle)
      modifies `occs, `bits, `conditional, `props
      ensures Refining(base, bits0, cond0, n) && next <= |unassigned|
      ensures if watched != 0 then watched in db[c].lits && IsAutarky(watched) else forall l :: l in db[c].lits ==> !IsAutarky(l)
      ensures watched != 0 && props < limit ==> next == |unassigned| && Waiting(db, occs, base, vals, bits, [], Idle)
      ensures props >= old(props)
    {
      next, watched := next0, watched0;
      while watched != 0 && props < limit && next < |unassigned|
        invariant next <= |unassigned| && Refining(base, bits0, cond0, n) && props >= old(props)
        invariant if watched != 0 then watched in db[c].lits && IsAutarky(watched) &&
                                       Waiting(db, occs, base, vals, bits, unassigned[next..], Idle)
                  else forall l :: l in db[c].lits ==> !IsAutarky(l)
        decreases |unassigned| - next
      {
        var u := unassigned[next];
        assert unassigned[next..][0] == u && unassigned[next..][1..] == unassigned[next+1..];
        UnassignedFalse(base, cond0, vals, bits, conditional, unassigned, u);
        WaitingVisit(db, occs, base, vals, bits, unassigned[next..]);
        next := next + 1;
        props := props + 1;
        watched := VisitWatches(u, c, watched, base, bits0, cond0, n, unassigned[next..]);
      }
      assert unassigned[|unassigned|..] == [];
    }

    // Unassign the next conditional literal.
    method Unassign(n: nat, x: Lit, watched: Lit, ghost base: set<Lit>, ghost bits0: set<nat>, ghost cond0: seq<Lit>)
      requires Refining(base, bits0, cond0, n) && n < |conditional| && x == conditional[n] && IsAutarky(watched) && -x !in marks
      requires Waiting(db, occs, base, vals, bits, [], Idle)
      modifies `vals, `unassigned
      ensures Refining(base, bits0, cond0, n + 1) && unassigned == old(unassigned) + [x] && IsAutarky(watched)
      ensures Waiting(db, occs, base, vals, bits, [x], Idle)
    {
      StacksUnassign(base, cond0, vals, bits, conditional, unassigned, marks, n);
      WaitingUnassign(db, occs, base, vals, bits, [], x);
      MaximalUnassign(db, scope, base, marks, vals, bits, x);
      assert [] + [x] == [x];
      vals := vals - {x};
      unassigned := unassigned + [x];
    }

    // Process one conditional literal: unassign it unless it is negated in the candidate.
    method RefineNext(next0: nat, n: nat, c: nat, watched0: Lit, limit: nat, ghost base: set<Lit>, ghost bits0: set<nat>,
                      ghost cond0: seq<Lit>)
      returns (next: nat, watched: Lit)
      requires Refining(base, bits0, cond0, n) && n < |conditional| && c < |db|
      requires watched0 != 0 && watched0 in db[c].lits && IsAutarky(watched0)
      requires next0 == |unassigned| && Waiting(db, occs, base, vals, bits, [], Idle)
      modifies `occs, `vals, `bits, `conditional, `unassigned, `props
      ensures Refining(base, bits0, cond0, n + 1) && next <= |unassigned|
      ensures if watched != 0 then watched in db[c].lits && IsAutarky(watched) else forall l :: l in db[c].lits ==> !IsAutarky(l)
      ensures watched != 0 && props < limit ==> next == |unassigned| && Waiting(db, occs, base, vals, bits, [], Idle)
      ensures props >= old(props)
    {
      next, watched := next0, watched0;
      var x := conditional[n];
      if -x in marks { return; }
      Unassign(n, x, watched, base, bits0, cond0);
      assert unassigned[next..] == [x];
      next, watched := PropagateUnassigned(next, c, watched, limit, base, bits0, cond0, n + 1);
    }

    // Unassign conditional literals until nothing changes any more, no autarky literal of the
    // candidate is left, or the limit is hit.
    method Refine(c: nat, watched0: Lit, limit: nat, ghost base: set<Lit>, ghost bits0: set<nat>, ghost cond0: seq<Lit>)
      returns (watched: Lit, ghost n: nat)
      requires Refining(base, bits0, cond0, 0) && c < |db|
      requires watched0 != 0 && watched0 in db[c].lits && IsAutarky(watched0)
      requires unassigned == [] && Waiting(db, occs, base, vals, bits, [], Idle)
      modifies `occs, `vals, `bits, `conditional, `unassigned, `props
      ensures Refining(base, bits0, cond0, n)
      ensures props >= old(props) && (watched == 0 ==> forall l :: l in db[c].lits ==> !IsAutarky(l))
      ensures watched != 0 && props < limit ==>
                n == |conditional| && watched in db[c].lits && IsAutarky(watched) && Waiting(db, occs, base, vals, bits, [], Idle)
    {
      Bounded(base, cond0, vals, bits, conditional, unassigned);
      watched := watched0;
      var nextConditional, nextUnassigned: nat := 0, 0;
      while watched != 0 && props < limit && nextConditional < |conditional|
        invariant Refining(base, bits0, cond0, nextConditional) && nextUnassigned <= |unassigned|
        invariant nextConditional <= |conditional| <= |base| && props >= old(props)
        invariant if watched != 0 then watched in db[c].lits && IsAutarky(watched) else forall l :: l in db[c].lits ==> !IsAutarky(l)
        invariant watched != 0 && props < limit ==>
                    nextUnassigned == |unassigned| && Waiting(db, occs, base, vals, bits, [], Idle)
        decreases |base| - nextConditional
      {
        nextUnassigned, watched := RefineNext(nextUnassigned, nextConditional, c, watched, limit, base, bits0, cond0);
        Bounded(base, cond0, vals, bits, conditional, unassigned);
        nextConditional := nextConditional + 1;
      }
      n := nextConditional;
    }

    // ----- One candidate clause.

    // Assign the temporarily unassigned literals again.
    method Reassign(ghost base: set<Lit>)
      requires base == vals + LitsOf(unassigned)
      modifies `vals, `unassigned
      ensures vals == base && unassigned == []
    {
      while unassigned != []
        invariant base == vals + LitsOf(unassigned)
        decreases |unassigned|
      {
        var n := |unassigned| - 1;
        assert unassigned == unassigned[..n] + [unassigned[n]];
        LitsOfLast(unassigned[..n], unassigned[n]);
        vals := vals + {unassigned[n]};
        unassigned := unassigned[..n];
      }
    }

    // Flush the literals that became conditional for this candidate.
    method FlushConditional(initial: nat)
      requires initial <= |conditional| && DistinctVars(conditional) && bits == VarsIn(conditional)
      modifies `conditional, `bits
      ensures conditional == old(conditional)[..initial] && bits == VarsIn(conditional)
    {
      while initial < |conditional|
        invariant initial <= |conditional| && conditional <= old(conditional)
        invariant DistinctVars(conditional) && bits == VarsIn(conditional)
        decreases |conditional|
      {
        var n := |conditional| - 1;
        VarsInLast(conditional);
        bits := bits - {Var(conditional[n])};
        conditional := conditional[..n];
      }
    }

    method Mark(lits: seq<Lit>) returns (watched: Lit)
      requires 0 !in lits
      modifies `marks
      ensures marks == old(marks) + LitsOf(lits)
      ensures watched != 0 ==> watched in lits && IsAutarky(watched)
      ensures watched == 0 ==> forall l :: l in lits ==> !IsAutarky(l)
    {
      watched := 0;
      assert lits[..0] == [];
      for i := 0 to |lits|
        invariant marks == old(marks) + LitsOf(lits[..i])
        invariant watched != 0 ==> watched in lits && IsAutarky(watched)
        invariant watched == 0 ==> forall j :: 0 <= j < i ==> !IsAutarky(lits[j])
      {
        assert lits[..i+1] == lits[..i] + [lits[i]];
        LitsOfLast(lits[..i], lits[i]);
        marks := marks + {lits[i]};
        if watched == 0 && IsAutarky(lits[i]) {
          watched := lits[i];
        }
      }
      assert lits[..|lits|] == lits;
    }

    method Unmark(lits: seq<Lit>)
      modifies `marks
      ensures marks == old(marks) - LitsOf(lits)
    {
      assert lits[..0] == [];
      for i := 0 to |lits|
        invariant marks == old(marks) - LitsOf(lits[..i])
      {
        assert lits[..i+1] == lits[..i] + [lits[i]];
        LitsOfLast(lits[..i], lits[i]);
        marks := marks - {lits[i]};
      }
      assert lits[..|lits|] == lits;
    }

    // Push the autarky literals of the trail and the clause on the extension stack.
    method PushAutarky(lits: seq<Lit>, id: nat) returns (ghost wit: seq<Lit>)
      requires vals <= LitsOf(trail)
      modifies `extension
      ensures LitsOf(wit) == AutarkyPart(vals, bits)
      ensures extension == old(extension) + EX.Encode(EX.Entry(wit, lits, id))
    {
      wit := [];
      extension := extension + [0];
      for i := 0 to |trail|
        invariant extension == old(extension) + [0] + wit
        invariant forall l :: l in wit <==> l in trail[..i] && IsAutarky(l)
      {
        assert trail[..i+1] == trail[..i] + [trail[i]];
        if IsAutarky(trail[i]) {
          assert forall l :: l in wit + [trail[i]] <==> l in wit || l == trail[i];
          assert old(extension) + [0] + (wit + [trail[i]]) == old(extension) + [0] + wit + [trail[i]];
          extension := extension + [trail[i]];
          wit := wit + [trail[i]];
        }
      }
      assert trail[..|trail|] == trail;
      extension := extension + [0] + [EX.HighWord(id), EX.LowWord(id)] + [0] + lits;
      EX.EncodeShape(old(extension), EX.Entry(wit, lits, id));
      forall l ensures l in LitsOf(wit) <==> l in AutarkyPart(vals, bits) {
        assert l in vals ==> l in LitsOf(trail);
      }
    }

    // Refine the assignment for a candidate.  On success the clause is removed and the remaining
    // autarky pushed with it.
    method ConditionCandidate(c: nat, watched0: Lit, limit: nat) returns (blocked: bool, ghost wit: seq<Lit>)
      requires c < |db| && Based(db, occs, vals, bits) && Stacks(vals, conditional, vals, bits, conditional, [])
      requires Clean(db) && unassigned == [] && Apart(vals, root) && vals <= LitsOf(trail)
      requires marks == LitsOf(db[c].lits) && watched0 != 0 && watched0 in db[c].lits && IsAutarky(watched0)
      requires Scoped(occs, scope) && Initial(db, scope, vals, conditional)
      modifies `occs, `vals, `bits, `conditional, `unassigned, `props, `extension
      ensures Stacks(old(vals), old(conditional), vals, bits, conditional, unassigned)
      ensures Based(db, occs, old(vals), old(bits))
      ensures blocked ==> extension == old(extension) + EX.Encode(EX.Entry(wit, db[c].lits, db[c].id))
      ensures blocked ==> GloballyBlocked(Rest(db, c, root), db[c].lits, wit)
      ensures !blocked ==> extension == old(extension) && (props >= limit || Hopeless(db, scope, old(vals), c))
      ensures Scoped(occs, scope) && props >= old(props)
    {
      ghost var base, bits0, cond0 := vals, bits, conditional;
      MaximalStart(db, scope, base, marks, bits0, cond0);
      wit, blocked := [], false;
      ProcessedStart(marks, base, bits0, cond0);
      WaitingStart(db, occs, base, bits0);
      ghost var n;
      var watched;
      watched, n := Refine(c, watched0, limit, base, bits0, cond0);
      if watched != 0 && props < limit {
        StillTrue(base, cond0, vals, bits, conditional, unassigned, trail);
        FixpointAutarky(db, occs, base, cond0, vals, bits, conditional, unassigned, c, root);
        wit := PushAutarky(db[c].lits, db[c].id);
        BlockedIntro(db, c, root, wit, vals, bits, watched);
        blocked := true;
      } else if watched == 0 {
        HopelessIntro(db, scope, base, vals, bits, c);
      }
    }

    // Back to the state before the candidate.
    method Restore(c: nat, initial: nat, ghost base: set<Lit>, ghost bits0: set<nat>, ghost cond0: seq<Lit>)
      requires c < |db| && Stacks(base, cond0, vals, bits, conditional, unassigned) && initial == |cond0|
      requires bits0 == VarsIn(cond0) && marks == LitsOf(db[c].lits)
      modifies `vals, `bits, `conditional, `unassigned, `marks
      ensures vals == base && bits == bits0 && conditional == cond0 && unassigned == [] && marks == {}
    {
      Opened(base, cond0, vals, bits, conditional, unassigned);
      Reassign(base);
      FlushConditional(initial);
      Unmark(db[c].lits);
    }

    method ConditionClause(c: nat, limit: nat) returns (blocked: bool, ghost wit: seq<Lit>)
      requires Valid() && c < |db|
      modifies this
      ensures Valid() && vals == old(vals) && bits == old(bits) && conditional == old(conditional) && trail == old(trail)
      ensures db == if blocked then old(db)[c := old(db)[c].(garbage := true)] else old(db)
      ensures blocked ==> extension == old(extension) + EX.Encode(EX.Entry(wit, db[c].lits, db[c].id))
      ensures blocked ==> GloballyBlocked(Rest(db, c, root), db[c].lits, wit)
      ensures !blocked ==> extension == old(extension) && (props >= limit || Hopeless(db, scope, vals, c))
      ensures scope == old(scope) && props >= old(props)
    {
      wit, blocked := [], false;
      conditioned := conditioned + {c};
      CleanAt(db, c);
      var watched := Mark(db[c].lits);
      assert marks == LitsOf(db[c].lits);
      if watched == 0 {
        MaximalStart(db, scope, vals, marks, bits, conditional);
        HopelessIntro(db, scope, vals, vals, bits, c);
        Unmark(db[c].lits);
        return;
      }
      blocked, wit := ConditionAndRestore(c, watched, limit);
      if blocked {
        Remove(c);
      }
    }

    method ConditionAndRestore(c: nat, watched: Lit, limit: nat) returns (blocked: bool, ghost wit: seq<Lit>)
      requires Based(db, occs, vals, bits) && Stacks(vals, conditional, vals, bits, conditional, []) && Clean(db)
      requires unassigned == [] && Apart(vals, root) && vals <= LitsOf(trail) && Scoped(occs, scope) && Initial(db, scope, vals, conditional)
      requires c < |db| && marks == LitsOf(db[c].lits) && watched != 0 && watched in db[c].lits && IsAutarky(watched)
      modifies `occs, `vals, `bits, `conditional, `unassigned, `props, `extension, `marks
      ensures Valid() && vals == old(vals) && bits == old(bits) && conditional == old(conditional)
      ensures blocked ==> extension == old(extension) + EX.Encode(EX.Entry(wit, db[c].lits, db[c].id))
      ensures blocked ==> GloballyBlocked(Rest(db, c, root), db[c].lits, wit)
      ensures !blocked ==> extension == old(extension) && (props >= limit || Hopeless(db, scope, vals, c))
      ensures props >= old(props)
    {
      var initial := |conditional|;
      ghost var base, bits0, cond0 := vals, bits, conditional;
      Opened(base, cond0, vals, bits, conditional, []);
      blocked, wit := ConditionCandidate(c, watched, limit);
      Restore(c, initial, base, bits0, cond0);
    }

    method Remove(c: nat)
      requires Valid() && c < |db|
      modifies `db
      ensures Valid() && db == old(db)[c := old(db)[c].(garbage := true)]
      ensures Rest(db, c, root) == Rest(old(db), c, root)
    {
      GarbageKeeps(db, occs, vals, bits, c);
      InitialGarbage(db, scope, vals, conditional, c);
      RestGarbage(db, c, root);
      db := db[c := db[c].(garbage := true)];
    }

    // ----- The round.

    ghost predicate Usable(idx: nat)
      reads this
    {
      idx in active && idx !in frozen
    }

    // Ignore the values of inactive and of frozen variables, and assign all other ones.
    method PrepareAssignment(phase: nat -> bool)
      requires vals == LitsOf(trail) && ConsistentSet(vals) && forall l :: l in vals ==> Var(l) <= maxVar
      requires root <= vals
      modifies `vals, `trail
      ensures root <= vals <= LitsOf(trail) && ConsistentSet(vals) && old(trail) <= trail
      ensures forall l :: l in vals ==> l in root || Usable(Var(l))
      ensures forall v {:trigger HasValue(vals, v)} :: 1 <= v <= maxVar && Usable(v) ==> HasValue(vals, v)
      ensures forall l :: l in old(vals) && (l in root || Usable(Var(l))) ==> l in vals
    {
      var idx: nat := 1;
      while idx <= maxVar
        invariant 1 <= idx <= maxVar + 1
        invariant root <= vals <= LitsOf(trail) && ConsistentSet(vals) && old(trail) <= trail
        invariant forall l :: l in vals ==> l in root || Usable(Var(l)) || idx <= Var(l) <= maxVar
        invariant forall v {:trigger HasValue(vals, v)} :: 1 <= v < idx && Usable(v) ==> HasValue(vals, v)
        invariant forall l :: l in old(vals) && (l in root || Usable(Var(l))) ==> l in vals
      {
        PrepareVariable(idx, phase);
        idx := idx + 1;
      }
    }

    method PrepareVariable(idx: nat, phase: nat -> bool)
      requires 1 <= idx <= maxVar && root <= vals <= LitsOf(trail) && ConsistentSet(vals)
      requires forall l :: l in vals ==> l in root || Usable(Var(l)) || idx <= Var(l) <= maxVar
      modifies `vals, `trail
      ensures root <= vals <= LitsOf(trail) && ConsistentSet(vals) && old(trail) <= trail
      ensures forall l :: l in vals ==> l in root || Usable(Var(l)) || idx < Var(l) <= maxVar
      ensures Usable(idx) ==> HasValue(vals, idx)
      ensures forall v {:trigger HasValue(vals, v)} :: v != idx && HasValue(old(vals), v) ==> HasValue(vals, v)
      ensures forall l :: l in old(vals) && (l in root || Usable(Var(l))) ==> l in vals
    {
      var pos: Lit := idx;
      if pos in vals || -pos in vals {
        var lit := if pos in vals then pos else -pos;
        if lit !in root && (idx !in active || idx in frozen) {
          vals := vals - {lit};
        }
      } else if idx !in frozen && idx in active {
        var lit := if phase(idx) then pos else -pos;
        LitsOfLast(trail, lit);
        vals := vals + {lit};
        trail := trail + [lit];
      }
    }

    // Unassign what was assigned additionally, and assign again what was unassigned.
    method RestoreAssignment(initial: nat)
      requires initial <= |trail| && vals <= LitsOf(trail)
      modifies `vals, `trail
      ensures trail == old(trail)[..initial] && vals == LitsOf(trail)
    {
      while initial < |trail|
        invariant initial <= |trail| && trail <= old(trail) && vals <= LitsOf(trail)
        decreases |trail|
      {
        var n := |trail| - 1;
        assert trail == trail[..n] + [trail[n]];
        LitsOfLast(trail[..n], trail[n]);
        vals := vals - {trail[n]};
        trail := trail[..n];
      }
      for i := 0 to |trail|
        invariant trail == old(trail)[..initial] && vals <= LitsOf(trail) && LitsOf(trail[..i]) <= vals
      {
        assert trail[..i+1] == trail[..i] + [trail[i]];
        LitsOfLast(trail[..i], trail[i]);
        if trail[i] !in vals {
          vals := vals + {trail[i]};
        }
      }
      assert trail[..|trail|] == trail;
    }

    predicate Fixed(l: Lit)
    {
      l in root || -l in root
    }

    // Whether the clause is satisfied at the root, its true and false literals, and a true literal
    // with the fewest watches.
    method InspectAll(lits: seq<Lit>) returns (satisfied: bool, positive: nat, negative: nat, watch: Lit)
      requires root <= vals && ConsistentSet(vals) && forall l :: |Occ(occs, l)| <= |db|
      ensures satisfied ==> exists l :: l in lits && l in root
      ensures !satisfied && positive > 0 ==> watch in lits && watch in vals - root
      ensures !satisfied && positive == 0 ==> forall l :: l in lits ==> l !in vals - root
      ensures !satisfied && negative == 0 ==> forall l :: l in lits ==> -l !in vals - root
    {
      satisfied, positive, negative, watch := false, 0, 0, 0;
      var minsize := |db| + 1;
      var i: nat := 0;
      while !satisfied && i < |lits|
        invariant i <= |lits| && (satisfied ==> exists l :: l in lits && l in root)
        invariant positive > 0 ==> watch in lits && watch in vals - root
        invariant positive == 0 ==> minsize == |db| + 1
        invariant !satisfied && positive == 0 ==> forall j :: 0 <= j < i ==> lits[j] !in vals - root
        invariant !satisfied && negative == 0 ==> forall j :: 0 <= j < i ==> -lits[j] !in vals - root
      {
        var lit := lits[i];
        assert lit in lits;
        if Fixed(lit) {
          assert -(-lit) == lit;
          satisfied := lit in root;
        } else if -lit in vals {
          assert -(-lit) == lit;
          negative := negative + 1;
        } else if lit in vals {
          if |Occ(occs, lit)| < minsize {
            watch, minsize := lit, |Occ(occs, lit)|;
          }
          positive := positive + 1;
        }
        i := i + 1;
      }
    }

    // The negations of all literals of an unsatisfied clause are conditional from the start.
    method MarkInitial(lits: seq<Lit>, n: nat)
      requires 0 !in lits && root <= vals && ConsistentSet(vals) && Gathered(db, occs, vals - root, bits, n)
      requires Stacks(vals - root, conditional, vals - root, bits, conditional, [])
      requires n < |db| && !db[n].garbage && lits == db[n].lits && (forall l :: l in lits ==> l !in vals - root)
      requires Looked(db, occs, vals - root, conditional, n + 1)
      modifies `bits, `conditional
      ensures Looked(db, occs, vals - root, conditional, n + 1)
      ensures Gathered(db, occs, vals - root, bits, n)
      ensures Stacks(vals - root, conditional, vals - root, bits, conditional, [])
      ensures !Touched(lits, vals - root, bits)
    {
      ghost var base := vals - root;
      for i := 0 to |lits|
        invariant Gathered(db, occs, base, bits, n) && Stacks(base, conditional, base, bits, conditional, [])
        invariant Looked(db, occs, base, conditional, n + 1)
        invariant forall j :: 0 <= j < i ==> !Autarky(base, bits, -lits[j])
      {
        var x := -lits[i];
        if x in vals && x !in root && Var(x) !in bits {
          assert -x == lits[i] && lits[i] in lits;
          InitialNext(db, LiveBefore(db, n + 1), base, conditional, n, x);
          StacksInitial(base, bits, conditional, x);
          GatheredMark(db, occs, base, bits, n, Var(x));
          bits := bits + {Var(x)};
          conditional := conditional + [x];
        }
      }
    }

    // Find out whether a clause is a candidate, watch it, or find initial conditional literals.
    method GatherClause(n: nat) returns (candidate: bool)
      requires n < |db| && root <= vals && ConsistentSet(vals) && Gathered(db, occs, vals - root, bits, n) && Clean(db)
      requires Stacks(vals - root, conditional, vals - root, bits, conditional, []) && Looked(db, occs, vals - root, conditional, n)
      modifies `db, `occs, `bits, `conditional
      ensures Looked(db, occs, vals - root, conditional, n + 1)
      ensures candidate || db[n].garbage || forall l :: l in db[n].lits ==> l !in vals - root
      ensures Gathered(db, occs, vals - root, bits, n + 1) && Clean(db)
      ensures Stacks(vals - root, conditional, vals - root, bits, conditional, [])
      ensures db == old(db) || (db == old(db)[n := old(db)[n].(garbage := true)] && exists l :: l in db[n].lits && l in root)
    {
      candidate := false;
      ghost var base := vals - root;
      LookedNext(db, db, occs, base, conditional, n);
      if db[n].garbage {
        GatheredSkip(db, occs, base, bits, n);
        return;
      }
      FewWatches(db, occs, base, bits, n);
      CleanAt(db, n);
      var satisfied, positive, negative, watch := InspectAll(db[n].lits);
      if satisfied {
        GatheredGarbage(db, occs, base, bits, n);
        LookedNext(db, db[n := db[n].(garbage := true)], occs, base, conditional, n);
        db := db[n := db[n].(garbage := true)];
        return;
      }
      candidate := positive > 0;
      if negative > 0 && positive > 0 {
        GatheredWatch(db, occs, base, bits, n, watch);
        LookedWatch(db, occs, base, conditional, n, watch);
        occs := occs[watch := Occ(occs, watch) + [n]];
        return;
      }
      if negative > 0 {
        MarkInitial(db[n].lits, n);
      }
      GatheredSkip(db, occs, base, bits, n);
    }

    method Gather() returns (candidates: seq<nat>)
      requires root <= vals && ConsistentSet(vals) && Clean(db) && Clear()
      modifies `db, `occs, `bits, `conditional, `scope
      ensures scope == LiveBefore(db, |db|) && Scoped(occs, scope) && Initial(db, scope, vals - root, conditional)
      ensures forall k {:trigger db[k]} :: 0 <= k < |db| ==> k in candidates || db[k].garbage || forall l :: l in db[k].lits ==> l !in vals - root
      ensures Gathered(db, occs, vals - root, bits, |db|) && Clean(db) && |db| == |old(db)|
      ensures Stacks(vals - root, conditional, vals - root, bits, conditional, [])
      ensures Dropped(old(db), db, root) && forall k :: k in candidates ==> k < |db|
    {
      candidates, occs := [], map[];
      ghost var base := vals - root;
      StacksStart(base, bits, conditional);
      GatheredStart(db, base, bits);
      assert forall l :: Occ(occs, l) == [];
      DroppedStart(db, root);
      for n := 0 to |db|
        invariant |db| == |old(db)| && Gathered(db, occs, base, bits, n) && Clean(db) && Looked(db, occs, base, conditional, n)
        invariant forall k {:trigger db[k]} :: 0 <= k < n ==> k in candidates || db[k].garbage || forall l :: l in db[k].lits ==> l !in base
        invariant Stacks(base, conditional, base, bits, conditional, []) && Dropped(old(db), db, root)
        invariant forall k :: k in candidates ==> k < |db|
      {
        ghost var before := db;
        var candidate := GatherClause(n);
        DroppedNext(old(db), before, db, root, n);
        if candidate {
          candidates := candidates + [n];
        }
      }
      scope := LiveBefore(db, |db|);
    }

    // Fixed literals are unassigned while candidates are tried.
    method UnassignFixed()
      requires root <= vals <= LitsOf(trail)
      modifies `vals
      ensures vals == old(vals) - root
    {
      for i := 0 to |trail|
        invariant old(vals) - root <= vals <= old(vals)
        invariant forall l :: l in trail[..i] && l in root ==> l !in vals
      {
        assert trail[..i+1] == trail[..i] + [trail[i]];
        if trail[i] in vals && trail[i] in root {
          vals := vals - {trail[i]};
        }
      }
      assert trail[..|trail|] == trail;
      forall l | l in vals ensures l !in root {
        assert l in LitsOf(trail);
      }
    }

    // Candidates not tried before come first.
    method SortCandidates(candidates: seq<nat>) returns (sorted: seq<nat>)
      modifies `conditioned
      ensures forall k :: k in sorted <==> k in candidates
    {
      var fresh', tried := [], [];
      for i := 0 to |candidates|
        invariant forall k :: k in candidates[..i] <==> k in fresh' || k in tried
      {
        assert candidates[..i+1] == candidates[..i] + [candidates[i]];
        if candidates[i] in conditioned {
          tried := tried + [candidates[i]];
        } else {
          fresh' := fresh' + [candidates[i]];
        }
      }
      assert candidates[..|candidates|] == candidates;
      if fresh' == [] {
        conditioned := conditioned - set k | k in tried;
      }
      sorted := fresh' + tried;
    }

    // Try all candidates.  Everything but the clauses removed is as before.
    method TryCandidates(candidates: seq<nat>, limit: nat, reasons: set<nat>) returns (blocked: nat, ghost es: seq<EX.Entry>)
      requires Valid() && forall k :: k in candidates ==> k < |db|
      modifies this
      ensures Valid() && vals == old(vals) && bits == old(bits) && conditional == old(conditional) && trail == old(trail)
      ensures |db| == |old(db)| && extension == old(extension) + EX.EncodeAll(es)
      ensures RE.Reconstructs(All(db, root), es, All(old(db), root)) && All(db, root) <= All(old(db), root)
      ensures scope == old(scope) && OnlyGarbage(old(db), db)
      ensures props >= limit || forall c :: c in candidates ==> c in reasons || db[c].garbage || Hopeless(db, scope, vals, c)
    {
      blocked, es := 0, [];
      RE.ReconstructsNothing(All(db, root), All(db, root));
      var i: nat := 0;
      while i < |candidates| && |vals| > |conditional| && props < limit
        invariant i <= |candidates| && Valid() && |db| == |old(db)|
        invariant vals == old(vals) && bits == old(bits) && conditional == old(conditional) && trail == old(trail)
        invariant extension == old(extension) + EX.EncodeAll(es)
        invariant RE.Reconstructs(All(db, root), es, All(old(db), root)) && All(db, root) <= All(old(db), root)
        invariant scope == old(scope) && OnlyGarbage(old(db), db) && (props >= limit || Tried(db, scope, vals, candidates, reasons, i))
        decreases |candidates| - i
      {
        var c := candidates[i];
        ghost var before := db;
        i := i + 1;
        if c in reasons {
          TriedNext(db, db, scope, vals, candidates, reasons, i);
          continue;
        }
        assert c in candidates;
        var success;
        success, es := TryCandidate(c, limit, old(extension), es, All(old(db), root));
        if success {
          blocked := blocked + 1;
        }
        if props < limit {
          TriedNext(before, db, scope, vals, candidates, reasons, i);
        }
      }
      if props < limit {
        TriedAll(db, scope, vals, bits, conditional, candidates, reasons, i);
      }
    }

    method TryCandidate(c: nat, limit: nat, ghost base: seq<int>, ghost es0: seq<EX.Entry>, ghost f: Formula)
      returns (success: bool, ghost es: seq<EX.Entry>)
      requires Valid() && c < |db| && extension == base + EX.EncodeAll(es0)
      requires RE.Reconstructs(All(db, root), es0, f) && All(db, root) <= f
      modifies this
      ensures Valid() && vals == old(vals) && bits == old(bits) && conditional == old(conditional) && trail == old(trail)
      ensures |db| == |old(db)| && extension == base + EX.EncodeAll(es)
      ensures RE.Reconstructs(All(db, root), es, f) && All(db, root) <= f
      ensures db == old(db) || db == old(db)[c := old(db)[c].(garbage := true)]
      ensures scope == old(scope) && props >= old(props) && (props >= limit || db[c].garbage || Hopeless(db, scope, vals, c))
    {
      es := es0;
      ghost var before := db;
      ghost var wit;
      success, wit := ConditionClause(c, limit);
      if success {
        EX.EncodePush(es, EX.Entry(wit, db[c].lits, db[c].id));
        BlockedNext(before, c, root, wit, es, f);
        es := es + [EX.Entry(wit, db[c].lits, db[c].id)];
      }
    }

    method UnmarkConditional()
      requires bits == VarsIn(conditional)
      modifies `bits, `conditional
      ensures bits == {} && conditional == []
    {
      for i := 0 to |conditional|
        invariant conditional == old(conditional) && bits <= old(bits)
        invariant forall l :: l in conditional[..i] ==> Var(l) !in bits
      {
        assert conditional[..i+1] == conditional[..i] + [conditional[i]];
        bits := bits - {Var(conditional[i])};
      }
      assert conditional[..|conditional|] == conditional;
      assert forall v :: v in bits ==> v in VarsIn(conditional);
      assert bits == {};
      conditional := [];
    }

    // The assignment of a round: the values of before as far as they are usable, and one for each usable
    // variable that is not fixed.
    ghost predicate Prepared(before: set<Lit>, base: set<Lit>)
      reads this
    {
      && ConsistentSet(base) && (forall l :: l in base ==> Usable(Var(l))) && Apart(base, root)
      && (forall l :: l in before - root && Usable(Var(l)) ==> l in base)
      && forall v {:trigger HasValue(base, v)} :: 1 <= v <= maxVar && Usable(v) ==> HasValue(base, v) || HasValue(root, v)
    }

    method PrepareRound(phase: nat -> bool) returns (candidates: seq<nat>)
      requires Clear() && Clean(db) && vals == LitsOf(trail) && ConsistentSet(vals) && root <= vals
      requires forall l :: l in vals ==> Var(l) <= maxVar
      modifies `vals, `trail, `db, `occs, `bits, `conditional, `scope, `conditioned
      ensures Valid() && Prepared(old(vals), vals) && old(trail) <= trail && Dropped(old(db), db, root)
      ensures scope == LiveBefore(db, |db|) && (forall k :: k in candidates ==> k < |db|) && Promising(db, vals, candidates)
    {
      PrepareAssignment(phase);
      candidates := Gather();
      GatheredBased(db, occs, vals - root, bits);
      ghost var all := vals;
      UnassignFixed();
      RootApart(vals, root);
      forall v {:trigger HasValue(vals, v)} | 1 <= v <= maxVar && Usable(v) ensures HasValue(vals, v) || HasValue(root, v) {
        assert HasValue(all, v);
      }
      candidates := SortCandidates(candidates);
    }

    // A round removes globally blocked clauses, such that every model of what remains extends to
    // a model of everything, and restores the assignment and all marks.  Unless the limit is hit, every clause
    // left is a reason or contains no literal of a conditional autarky within the assignment.
    method ConditionRound(phase: nat -> bool, limit: nat, reasons: set<nat>)
      returns (blocked: nat, ghost es: seq<EX.Entry>, ghost base: set<Lit>)
      requires Clear() && Clean(db) && vals == LitsOf(trail) && ConsistentSet(vals) && root <= vals
      requires forall l :: l in vals ==> Var(l) <= maxVar
      modifies this
      ensures Clear() && vals == old(vals) && trail == old(trail) && Clean(db) && |db| == |old(db)|
      ensures extension == old(extension) + EX.EncodeAll(es)
      ensures RE.Reconstructs(All(db, root), es, All(old(db), root)) && All(db, root) <= All(old(db), root)
      ensures Prepared(old(vals), base) && OnlyGarbage(old(db), db)
      ensures props >= limit || NoneLeft(old(db), db, base, reasons)
    {
      var initial := |trail|;
      var candidates := PrepareRound(phase);
      ghost var gathered := db;
      base := vals;
      blocked, es := TryCandidates(candidates, limit, reasons);
      RoundReconstructs(old(db), gathered, db, root, es);
      RoundOnlyGarbage(old(db), gathered, db, root);
      if props < limit {
        NoneLeftIntro(old(db), gathered, db, root, base, candidates, reasons);
      }
      FinishRound(initial);
    }

    // Nothing but the garbage is left of the round.
    method FinishRound(initial: nat)
      requires Valid() && initial <= |trail|
      modifies `bits, `conditional, `occs, `vals, `trail
      ensures Clear() && trail == old(trail)[..initial] && vals == LitsOf(trail)
    {
      Opened(vals, conditional, vals, bits, conditional, []);
      UnmarkConditional();
      occs := map[];
      RestoreAssignment(initial);
    }
  }

  // ----- The round.

  // Clauses with a true literal are candidates.
  ghost predicate Promising(db: Db, base: set<Lit>, candidates: seq<nat>) {
    forall k {:trigger db[k]} :: 0 <= k < |db| ==> k in candidates || db[k].garbage || forall l :: l in db[k].lits ==> l !in base
  }

  // All clauses left are reasons or hopeless with respect to all clauses.
  ghost predicate NoneLeft(db0: Db, db: Db, base: set<Lit>, reasons: set<nat>) {
    forall c: nat {:trigger Hopeless(db0, LiveBefore(db0, |db0|), base, c)} :: c < |db| ==>
      c in reasons || db[c].garbage || Hopeless(db0, LiveBefore(db0, |db0|), base, c)
  }

  lemma NoneLeftIntro(db0: Db, db1: Db, db: Db, root: set<Lit>, base: set<Lit>, candidates: seq<nat>, reasons: set<nat>)
    requires Dropped(db0, db1, root) && OnlyGarbage(db1, db) && Promising(db1, base, candidates)
    requires forall c :: c in candidates ==> c < |db| && (c in reasons || db[c].garbage || Hopeless(db, LiveBefore(db1, |db1|), base, c))
    ensures NoneLeft(db0, db, base, reasons)
  {
    var s0, s1 := LiveBefore(db0, |db0|), LiveBefore(db1, |db1|);
    forall k | k in s1 ensures k in s0 {
      assert DroppedAt(db0[k], db1[k], root);
    }
    forall k | 0 <= k < |db| ensures db0[k].lits == db[k].lits {
      assert DroppedAt(db0[k], db1[k], root) && db1[k].lits == db[k].lits;
    }
    forall c: nat | c < |db| && c !in reasons && !db[c].garbage ensures Hopeless(db0, s0, base, c) {
      if c !in candidates {
        assert !db1[c].garbage;
        NothingTrue(db0, s0, base, c);
      } else {
        HopelessMore(db, s1, db0, s0, base, c);
      }
    }
  }

  lemma RoundReconstructs(db0: Db, db1: Db, db: Db, root: set<Lit>, es: seq<EX.Entry>)
    requires Dropped(db0, db1, root) && RE.Reconstructs(All(db, root), es, All(db1, root)) && All(db, root) <= All(db1, root)
    ensures RE.Reconstructs(All(db, root), es, All(db0, root)) && All(db, root) <= All(db0, root)
  {
    DroppedReconstructs(db0, db1, root);
    RE.ReconstructsTransitive(All(db0, root), [], All(db1, root), es, All(db, root));
    assert [] + es == es;
  }

  lemma RoundOnlyGarbage(db0: Db, db1: Db, db: Db, root: set<Lit>)
    requires Dropped(db0, db1, root) && OnlyGarbage(db1, db)
    ensures OnlyGarbage(db0, db)
  {
    forall k | 0 <= k < |db| ensures db[k].lits == db0[k].lits && (db0[k].garbage ==> db[k].garbage) {
      assert DroppedAt(db0[k], db1[k], root);
    }
  }

  // ----- Gathering.

  function LiveBefore(db: Db, n: nat): set<nat>
    requires n <= |db|
  {
    set k | 0 <= k < n && !db[k].garbage
  }

  // Watches and initial conditional literals stem from live clauses before 'n'.
  ghost predicate Looked(db: Db, occs: Occs, base: set<Lit>, conditional: seq<Lit>, n: nat) {
    n <= |db| && Scoped(occs, LiveBefore(db, n)) && Initial(db, LiveBefore(db, n), base, conditional)
  }

  lemma InitialMore(db: Db, db': Db, scope: set<nat>, scope': set<nat>, vals: set<Lit>, conditional: seq<Lit>)
    requires Initial(db, scope, vals, conditional) && scope <= scope' && |db'| == |db|
    requires forall k :: 0 <= k < |db| ==> db'[k].lits == db[k].lits
    ensures Initial(db', scope', vals, conditional)
  {
    assert Look(0);
    forall x | x in conditional ensures exists k :: InitialAt(db', scope', vals, x, k) {
      var k :| InitialAt(db, scope, vals, x, k);
      assert InitialAt(db', scope', vals, x, k);
    }
  }

  lemma InitialNext(db: Db, scope: set<nat>, vals: set<Lit>, conditional: seq<Lit>, n: nat, x: Lit)
    requires Initial(db, scope, vals, conditional) && InitialAt(db, scope, vals, x, n)
    ensures Initial(db, scope, vals, conditional + [x])
  {
    assert Look(0);
    assert forall y :: y in conditional + [x] <==> y in conditional || y == x;
  }

  // The next clause may have become garbage.
  lemma LookedNext(db: Db, db': Db, occs: Occs, base: set<Lit>, conditional: seq<Lit>, n: nat)
    requires Looked(db, occs, base, conditional, n) && n < |db|
    requires db' == db || db' == db[n := db[n].(garbage := true)]
    ensures Looked(db', occs, base, conditional, n + 1)
  {
    var s, s' := LiveBefore(db, n), LiveBefore(db', n + 1);
    assert s <= s';
    InitialMore(db, db', s, s', base, conditional);
    assert Look(0);
  }

  lemma LookedWatch(db: Db, occs: Occs, base: set<Lit>, conditional: seq<Lit>, n: nat, w: Lit)
    requires Looked(db, occs, base, conditional, n) && n < |db| && !db[n].garbage
    ensures Looked(db, occs[w := Occ(occs, w) + [n]], base, conditional, n + 1)
  {
    LookedNext(db, db, occs, base, conditional, n);
    assert Look(0);
    var occs' := occs[w := Occ(occs, w) + [n]];
    assert forall l, k {:trigger k in Occ(occs', l)} :: k in Occ(occs', l) <==> k in Occ(occs, l) || (l == w && k == n);
  }

  // A smaller scope and fewer clauses only allow more.
  lemma HopelessMore(db: Db, scope: set<nat>, db': Db, scope': set<nat>, base: set<Lit>, c: nat)
    requires Hopeless(db, scope, base, c) && scope <= scope' && |db'| == |db|
    requires forall k {:trigger db'[k]} :: 0 <= k < |db| ==> db'[k].lits == db[k].lits
    ensures Hopeless(db', scope', base, c)
  {
    if c < |db| {
      var marks := LitsOf(db[c].lits);
      forall part | Autarkic(db', scope', base, marks, part) ensures Autarkic(db, scope, base, marks, part) {
        forall k | k in scope && k < |db| && exists x :: x in part && -x in db[k].lits
          ensures exists l :: l in db[k].lits && (l in part || (l in base && -l in marks))
        {
          assert k in scope' && db'[k].lits == db[k].lits;
        }
      }
    }
  }

  ghost predicate OnlyGarbage(db: Db, db': Db) {
    |db'| == |db| && forall k {:trigger db'[k]} :: 0 <= k < |db| ==> db'[k].lits == db[k].lits && (db[k].garbage ==> db'[k].garbage)
  }

  // Candidates before 'n' are reasons, removed, or hopeless.
  ghost predicate Tried(db: Db, scope: set<nat>, vals: set<Lit>, candidates: seq<nat>, reasons: set<nat>, n: nat) {
    forall u {:trigger Look(u)} :: Look(u) ==>
      n <= |candidates| && forall j {:trigger candidates[j]} :: 0 <= j < n ==> TriedAt(db, scope, vals, reasons, candidates[j])
  }

  ghost predicate TriedAt(db: Db, scope: set<nat>, vals: set<Lit>, reasons: set<nat>, c: nat) {
    c in reasons || (c < |db| && db[c].garbage) || Hopeless(db, scope, vals, c)
  }

  lemma TriedNext(db: Db, db': Db, scope: set<nat>, vals: set<Lit>, candidates: seq<nat>, reasons: set<nat>, n: nat)
    requires 0 < n <= |candidates| && Tried(db, scope, vals, candidates, reasons, n - 1) && OnlyGarbage(db, db')
    requires TriedAt(db', scope, vals, reasons, candidates[n-1])
    ensures Tried(db', scope, vals, candidates, reasons, n)
  {
    assert Look(0);
    forall j | 0 <= j < n ensures TriedAt(db', scope, vals, reasons, candidates[j]) {
      if j < n - 1 {
        assert TriedAt(db, scope, vals, reasons, candidates[j]);
        if Hopeless(db, scope, vals, candidates[j]) {
          HopelessMore(db, scope, db', scope, vals, candidates[j]);
        }
      }
    }
  }

  lemma TriedAll(db: Db, scope: set<nat>, vals: set<Lit>, bits: set<nat>, conditional: seq<Lit>, candidates: seq<nat>, reasons: set<nat>, n: nat)
    requires Tried(db, scope, vals, candidates, reasons, n) && (n == |candidates| || |vals| <= |conditional|)
    requires Initial(db, scope, vals, conditional) && Stacks(vals, conditional, vals, bits, conditional, [])
    requires forall c :: c in candidates ==> c < |db|
    ensures forall c :: c in candidates ==> c in reasons || db[c].garbage || Hopeless(db, scope, vals, c)
  {
    forall c | c in candidates ensures c in reasons || db[c].garbage || Hopeless(db, scope, vals, c) {
      if |vals| <= |conditional| {
        AllConditional(db, scope, vals, bits, conditional, c);
      } else {
        assert Look(0);
        var j :| 0 <= j < |candidates| && candidates[j] == c;
        assert TriedAt(db, scope, vals, reasons, candidates[j]);
      }
    }
  }

  // No literal of the clause is assigned.
  lemma NothingTrue(db: Db, scope: set<nat>, base: set<Lit>, c: nat)
    requires c < |db| && forall l :: l in db[c].lits ==> l !in base
    ensures Hopeless(db, scope, base, c)
  {
  }

  // All literals are conditional already.
  lemma AllConditional(db: Db, scope: set<nat>, vals: set<Lit>, bits: set<nat>, conditional: seq<Lit>, c: nat)
    requires Initial(db, scope, vals, conditional) && Stacks(vals, conditional, vals, bits, conditional, []) && |vals| <= |conditional|
    requires c < |db|
    ensures Hopeless(db, scope, vals, c)
  {
    MaximalStart(db, scope, vals, LitsOf(db[c].lits), bits, conditional);
    assert Look(0);
    CoversAll(conditional, vals);
    forall l | l in db[c].lits ensures !Autarky(vals, bits, l) {
      assert l in vals ==> l in conditional;
    }
    HopelessIntro(db, scope, vals, vals, bits, c);
  }

  lemma {:induction false} CoversAll(s: seq<Lit>, base: set<Lit>)
    requires DistinctVars(s) && (forall l :: l in s ==> l in base) && |base| <= |s|
    ensures forall l :: l in base ==> l in s
    decreases |s|
  {
    if s != [] {
      var n := |s| - 1;
      assert s[n] in s && forall l :: l in s[..n] ==> l in s && l != s[n];
      CoversAll(s[..n], base - {s[n]});
    } else {
      assert base == {};
    }
  }

  // Everything not fixed that is not garbage.
  ghost function All(db: Db, root: set<Lit>): Formula {
    Rest(db, |db|, root)
  }

  // Clauses before 'n' are watched if the autarky touches them.
  ghost predicate Gathered(db: Db, occs: Occs, base: set<Lit>, bits: set<nat>, n: nat) {
    forall u {:trigger Look(u)} :: Look(u) ==>
      && n <= |db|
      && (forall k {:trigger Guarded(db, occs, base, k)} :: 0 <= k < n && !db[k].garbage && Touched(db[k].lits, base, bits) ==>
            Guarded(db, occs, base, k))
      && (forall l, k {:trigger k in Occ(occs, l)} :: k in Occ(occs, l) ==> k < n)
      && (forall l {:trigger Occ(occs, l)} :: |Occ(occs, l)| <= n)
  }

  lemma GatheredStart(db: Db, base: set<Lit>, bits: set<nat>)
    ensures Gathered(db, map[], base, bits, 0)
  {
  }

  lemma FewWatches(db: Db, occs: Occs, base: set<Lit>, bits: set<nat>, n: nat)
    requires Gathered(db, occs, base, bits, n)
    ensures forall l :: |Occ(occs, l)| <= |db|
  {
    assert Look(0);
  }

  lemma GatheredSkip(db: Db, occs: Occs, base: set<Lit>, bits: set<nat>, n: nat)
    requires n < |db| && Gathered(db, occs, base, bits, n)
    requires db[n].garbage || !Touched(db[n].lits, base, bits)
    ensures Gathered(db, occs, base, bits, n + 1)
  {
    assert Look(0);
    assert forall l :: |Occ(occs, l)| <= n + 1;
  }

  lemma GatheredMark(db: Db, occs: Occs, base: set<Lit>, bits: set<nat>, n: nat, x: nat)
    requires Gathered(db, occs, base, bits, n)
    ensures Gathered(db, occs, base, bits + {x}, n)
  {
    assert Look(0);
    forall k | 0 <= k < n && !db[k].garbage && Touched(db[k].lits, base, bits + {x}) ensures Guarded(db, occs, base, k) {
      TouchedLess(db[k].lits, base, bits, base, bits + {x});
    }
  }

  lemma GatheredWatch(db: Db, occs: Occs, base: set<Lit>, bits: set<nat>, n: nat, w: Lit)
    requires n < |db| && Gathered(db, occs, base, bits, n) && w in db[n].lits && w in base
    ensures Gathered(db, occs[w := Occ(occs, w) + [n]], base, bits, n + 1)
  {
    assert Look(0);
    var occs' := occs[w := Occ(occs, w) + [n]];
    assert forall l, k {:trigger k in Occ(occs', l)} :: k in Occ(occs', l) <==> k in Occ(occs, l) || (l == w && k == n);
    assert forall l :: |Occ(occs', l)| <= |Occ(occs, l)| + 1;
    assert WatchedBy(db, occs', base, n, w);
    forall k | 0 <= k < n && !db[k].garbage && Touched(db[k].lits, base, bits) ensures Guarded(db, occs', base, k) {
      assert Guarded(db, occs, base, k);
      var l :| WatchedBy(db, occs, base, k, l);
      assert WatchedBy(db, occs', base, k, l);
    }
  }

  lemma GatheredGarbage(db: Db, occs: Occs, base: set<Lit>, bits: set<nat>, n: nat)
    requires n < |db| && Gathered(db, occs, base, bits, n) && Clean(db)
    ensures Gathered(db[n := db[n].(garbage := true)], occs, base, bits, n + 1) && Clean(db[n := db[n].(garbage := true)])
  {
    assert Look(0);
    var db' := db[n := db[n].(garbage := true)];
    assert forall l :: |Occ(occs, l)| <= n + 1;
    forall k | 0 <= k < n && !db'[k].garbage && Touched(db'[k].lits, base, bits) ensures Guarded(db', occs, base, k) {
      assert Guarded(db, occs, base, k);
      var l :| WatchedBy(db, occs, base, k, l);
      assert WatchedBy(db', occs, base, k, l);
    }
  }

  lemma GatheredBased(db: Db, occs: Occs, base: set<Lit>, bits: set<nat>)
    requires Gathered(db, occs, base, bits, |db|)
    ensures Based(db, occs, base, bits)
  {
    assert Look(0);
  }

  lemma StacksInitial(base: set<Lit>, bits: set<nat>, conditional: seq<Lit>, x: Lit)
    requires Stacks(base, conditional, base, bits, conditional, []) && Autarky(base, bits, x)
    ensures Stacks(base, conditional + [x], base, bits + {Var(x)}, conditional + [x], [])
  {
    assert Look(0);
    StacksMark(base, conditional, base, bits, conditional, [], {}, 0, x);
    assert DistinctVars(conditional + [x]);
  }

  // Clauses are only dropped if they contain a fixed literal.
  ghost predicate DroppedAt(a: CClause, b: CClause, root: set<Lit>) {
    a.lits == b.lits && (a.garbage ==> b.garbage) && (b.garbage && !a.garbage ==> exists l :: l in a.lits && l in root)
  }

  ghost predicate Dropped(db: Db, db': Db, root: set<Lit>) {
    |db| == |db'| && forall k {:trigger db'[k]} :: 0 <= k < |db| ==> DroppedAt(db[k], db'[k], root)
  }

  lemma DroppedStart(db: Db, root: set<Lit>)
    ensures Dropped(db, db, root)
  {
  }

  lemma DroppedNext(db0: Db, db: Db, db': Db, root: set<Lit>, n: nat)
    requires Dropped(db0, db, root) && n < |db|
    requires db' == db || (db' == db[n := db[n].(garbage := true)] && exists l :: l in db'[n].lits && l in root)
    ensures Dropped(db0, db', root)
  {
    forall k | 0 <= k < |db'| ensures DroppedAt(db0[k], db'[k], root) {
      assert DroppedAt(db0[k], db[k], root);
    }
  }

  lemma DroppedReconstructs(db: Db, db': Db, root: set<Lit>)
    requires Dropped(db, db', root)
    ensures RE.Reconstructs(All(db', root), [], All(db, root)) && All(db', root) <= All(db, root)
  {
    forall d | d in All(db', root) ensures d in All(db, root) {
      if k: nat :| Other(db', |db'|, k) && d == LitsOf(db'[k].lits) {
        assert DroppedAt(db[k], db'[k], root);
        assert Other(db, |db|, k) && d == LitsOf(db[k].lits);
      }
    }
    forall d | d in All(db, root) ensures Entails(All(db', root), d) {
      DroppedEntailed(db, db', root, d);
    }
    RE.ReconstructsNothing(All(db', root), All(db, root));
  }

  lemma DroppedEntailed(db: Db, db': Db, root: set<Lit>, d: Clause)
    requires Dropped(db, db', root) && d in All(db, root)
    ensures Entails(All(db', root), d)
  {
    if d !in All(db', root) {
      var k: nat :| Other(db, |db|, k) && d == LitsOf(db[k].lits);
      assert DroppedAt(db[k], db'[k], root);
      assert !Other(db', |db'|, k);
      var l :| l in db[k].lits && l in root;
      forall m: Model | Models(m, All(db', root)) ensures Sat(m, d) {
        assert {l} in All(db', root);
        assert Sat(m, {l}) && l in d;
      }
    }
  }

  lemma RootApart(vals: set<Lit>, root: set<Lit>)
    requires ConsistentSet(vals + root) && vals !! root
    ensures Apart(vals, root)
  {
    forall l, r | l in vals && r in root ensures Var(l) != Var(r) {
      assert l in vals + root && r in vals + root && (l == -r ==> -l == r);
    }
  }

  lemma BlockedNext(db: Db, c: nat, root: set<Lit>, wit: seq<Lit>, es: seq<EX.Entry>, f: Formula)
    requires c < |db| && RE.Reconstructs(All(db, root), es, f) && All(db, root) <= f
    requires var db' := db[c := db[c].(garbage := true)]; GloballyBlocked(Rest(db', c, root), db[c].lits, wit)
    ensures var db' := db[c := db[c].(garbage := true)];
            RE.Reconstructs(All(db', root), es + [EX.Entry(wit, db[c].lits, db[c].id)], f) && All(db', root) <= f
  {
    var db' := db[c := db[c].(garbage := true)];
    var g, e := Rest(db', c, root), EX.Entry(wit, db[c].lits, db[c].id);
    RestGarbage(db, c, root);
    AllBut(db, c, root);
    RE.AutarkyStep(g, db[c].lits, wit, db[c].id);
    assert RE.Reconstructs(g, [e], All(db, root)) by {
      forall m: Model | Models(m, g) ensures Models(EX.Extend(m, [e]), All(db, root)) {
        assert Models(EX.Extend(m, [e]), g + iset{LitsOf(db[c].lits)});
      }
    }
    RE.ReconstructsTransitive(f, es, All(db, root), [e], g);
  }

  lemma AllBut(db: Db, c: nat, root: set<Lit>)
    requires c < |db|
    ensures All(db, root) <= Rest(db, c, root) + iset{LitsOf(db[c].lits)}
    ensures var db' := db[c := db[c].(garbage := true)]; All(db', root) == Rest(db', c, root) && Rest(db', c, root) <= All(db, root)
  {
    var db' := db[c := db[c].(garbage := true)];
    forall d | d in All(db, root) ensures d in Rest(db, c, root) + iset{LitsOf(db[c].lits)} {
      if k: nat :| Other(db, |db|, k) && d == LitsOf(db[k].lits) {
        assert k == c || Other(db, c, k);
      }
    }
    forall d ensures d in All(db', root) <==> d in Rest(db', c, root) {
      if k: nat :| Other(db', |db'|, k) && d == LitsOf(db'[k].lits) {
        assert Other(db', c, k);
      }
      if k: nat :| Other(db', c, k) && d == LitsOf(db'[k].lits) {
        assert Other(db', |db'|, k);
      }
    }
    forall d | d in Rest(db', c, root) ensures d in All(db, root) {
      if k: nat :| Other(db', c, k) && d == LitsOf(db'[k].lits) {
        assert Other(db, |db|, k) && d == LitsOf(db[k].lits);
      }
    }
  }

  ghost predicate Apart(vals: set<Lit>, root: set<Lit>) {
    forall l, r :: l in vals && r in root ==> Var(l) != Var(r)
  }

  // The candidate can be removed: its witness is a conditional autarky of the other clauses.
  ghost predicate GloballyBlocked(f: Formula, lits: seq<Lit>, wit: seq<Lit>) {
    && 0 !in lits && RE.Consistent(LitsOf(wit)) && (exists k :: k in lits && k in wit)
    && RE.ConditionalAutarky(f, LitsOf(lits), LitsOf(wit))
  }

  lemma BlockedIntro(db: Db, c: nat, root: set<Lit>, wit: seq<Lit>, vals: set<Lit>, bits: set<nat>, k: Lit)
    requires c < |db| && Clean(db) && LitsOf(wit) == AutarkyPart(vals, bits)
    requires RE.ConditionalAutarky(Rest(db, c, root), LitsOf(db[c].lits), AutarkyPart(vals, bits))
    requires RE.Consistent(AutarkyPart(vals, bits)) && k in db[c].lits && Autarky(vals, bits, k)
    ensures GloballyBlocked(Rest(db, c, root), db[c].lits, wit)
  {
    assert Look(0);
    assert k in LitsOf(wit);
  }

  lemma StillTrue(base: set<Lit>, cond0: seq<Lit>, vals: set<Lit>, bits: set<nat>, conditional: seq<Lit>, unassigned: seq<Lit>,
                  trail: seq<Lit>)
    requires Stacks(base, cond0, vals, bits, conditional, unassigned) && base <= LitsOf(trail)
    ensures vals <= LitsOf(trail)
  {
    assert Look(0);
  }

  lemma Opened(base: set<Lit>, cond0: seq<Lit>, vals: set<Lit>, bits: set<nat>, conditional: seq<Lit>, unassigned: seq<Lit>)
    requires Stacks(base, cond0, vals, bits, conditional, unassigned)
    ensures base == vals + LitsOf(unassigned) && cond0 <= conditional && DistinctVars(conditional) && bits == VarsIn(conditional)
  {
    assert Look(0);
  }

  lemma ProcessedStart(marks: set<Lit>, base: set<Lit>, bits0: set<nat>, cond0: seq<Lit>)
    requires Stacks(base, cond0, base, bits0, cond0, [])
    ensures Processed(marks, base, cond0, 0)
  {
    assert Look(0);
  }

  lemma VarsInLast(s: seq<Lit>)
    requires s != [] && DistinctVars(s)
    ensures VarsIn(s[..|s|-1]) == VarsIn(s) - {Var(s[|s|-1])}
  {
    var n := |s| - 1;
    assert forall l :: l in s <==> l in s[..n] || l == s[n];
    forall l | l in s[..n] ensures Var(l) != Var(s[n]) {
      var j :| 0 <= j < n && s[..n][j] == l;
    }
  }

  lemma CleanAt(db: Db, c: nat)
    requires Clean(db) && c < |db|
    ensures 0 !in db[c].lits
  {
    assert Look(0);
  }

  lemma GarbageKeeps(db: Db, occs: Occs, base: set<Lit>, bits0: set<nat>, c: nat)
    requires Based(db, occs, base, bits0) && Clean(db) && c < |db|
    ensures Based(db[c := db[c].(garbage := true)], occs, base, bits0) && Clean(db[c := db[c].(garbage := true)])
  {
    assert Look(0);
    var db' := db[c := db[c].(garbage := true)];
    forall k | 0 <= k < |db'| && !db'[k].garbage && Touched(db'[k].lits, base, bits0) ensures Guarded(db', occs, base, k) {
      assert Guarded(db, occs, base, k);
      var w :| WatchedBy(db, occs, base, k, w);
      assert WatchedBy(db', occs, base, k, w);
    }
  }

  lemma RestGarbage(db: Db, c: nat, root: set<Lit>)
    requires c < |db|
    ensures Rest(db[c := db[c].(garbage := true)], c, root) == Rest(db, c, root)
  {
    var db' := db[c := db[c].(garbage := true)];
    forall d ensures d in Rest(db', c, root) <==> d in Rest(db, c, root) {
      if k: nat :| Other(db', c, k) && d == LitsOf(db'[k].lits) {
        assert Other(db, c, k) && d == LitsOf(db[k].lits);
      }
      if k: nat :| Other(db, c, k) && d == LitsOf(db[k].lits) {
        assert Other(db', c, k) && d == LitsOf(db'[k].lits);
      }
    }
  }

  // Clauses have no zero and no clashing literals.
  ghost predicate Clean(db: Db) {
    forall u {:trigger Look(u)} :: Look(u) ==> forall k {:trigger db[k]} :: 0 <= k < |db| ==> WA.Distinct(db[k].lits)
  }

  // Two true literals of the same variable are the same.
  lemma SameVariable(base: set<Lit>, cond0: seq<Lit>, vals: set<Lit>, bits: set<nat>, conditional: seq<Lit>, unassigned: seq<Lit>,
                     x: Lit, y: Lit)
    requires Stacks(base, cond0, vals, bits, conditional, unassigned) && x in vals && y in vals && x != y
    ensures Var(x) != Var(y)
  {
    assert Look(0);
    assert x in base && y in base;
  }

  lemma InDb(db: Db, occs: Occs, base: set<Lit>, bits0: set<nat>, u: Lit, i: nat)
    requires Based(db, occs, base, bits0) && Clean(db) && i < |Occ(occs, u)|
    ensures Occ(occs, u)[i] < |db| && WA.Distinct(db[Occ(occs, u)[i]].lits) && u in occs
  {
    assert Look(0);
    assert Occ(occs, u)[i] in Occ(occs, u);
  }

  lemma TrueInBase(base: set<Lit>, cond0: seq<Lit>, vals: set<Lit>, bits: set<nat>, conditional: seq<Lit>, unassigned: seq<Lit>, l: Lit)
    requires Stacks(base, cond0, vals, bits, conditional, unassigned) && l in vals
    ensures l in base && vals <= base
  {
    assert Look(0);
  }

  lemma NotNegated(base: set<Lit>, cond0: seq<Lit>, vals: set<Lit>, bits: set<nat>, conditional: seq<Lit>, unassigned: seq<Lit>, l: Lit)
    requires Stacks(base, cond0, vals, bits, conditional, unassigned) && l in vals
    ensures -l !in vals
  {
    assert Look(0);
    assert l in base && -l !in base;
  }

  lemma UnassignedFalse(base: set<Lit>, cond0: seq<Lit>, vals: set<Lit>, bits: set<nat>, conditional: seq<Lit>, unassigned: seq<Lit>, l: Lit)
    requires Stacks(base, cond0, vals, bits, conditional, unassigned) && l in unassigned
    ensures l !in vals
  {
    assert Look(0);
  }

  lemma Bounded(base: set<Lit>, cond0: seq<Lit>, vals: set<Lit>, bits: set<nat>, conditional: seq<Lit>, unassigned: seq<Lit>)
    requires Stacks(base, cond0, vals, bits, conditional, unassigned)
    ensures |conditional| <= |base|
  {
    assert Look(0);
    DistinctBound(conditional, base);
  }

  lemma {:induction false} DistinctBound(s: seq<Lit>, base: set<Lit>)
    requires DistinctVars(s) && forall l :: l in s ==> l in base
    ensures |s| <= |base|
    decreases |s|
  {
    if s != [] {
      var n := |s| - 1;
      assert s[n] in s && forall l :: l in s[..n] ==> l in s && l != s[n];
      DistinctBound(s[..n], base - {s[n]});
    }
  }
}
