// Literals, clauses and their meaning.
//
// A literal is a non-zero integer, its variable is the absolute value.  The solver stores
// clauses as arrays of literals whose order changes all the time (watches, move-to-front), so
// the meaning of a clause is given on its set of literals.
module Cnf {

  // Zero is never a literal; the flat encodings use it as a separator.
  type Lit = int

  type Clause = set<Lit>

  type Formula = iset<Clause>

  // A total assignment: the set of variables assigned to true.
  type Model = iset<int>

  function Var(l: Lit): (v: nat)
  {
    if l < 0 then -l else l
  }

  function LitsOf(s: seq<Lit>): Clause {
    set l: Lit | l in s
  }

  lemma LitsOfLast(s: seq<Lit>, x: Lit)
    ensures LitsOf(s + [x]) == LitsOf(s) + {x}
  {
    assert x in s + [x] && forall l :: l in s ==> l in s + [x];
  }

  function Negations(s: seq<Lit>): set<Lit> {
    set l | l in s :: -l
  }

  lemma NegationsLast(s: seq<Lit>, x: Lit)
    ensures Negations(s + [x]) == Negations(s) + {-x}
    ensures x in Negations(s) <==> -x in s
  {
    assert x in s + [x] && forall l :: l in s ==> l in s + [x];
    assert -(-x) == x;
  }

  ghost predicate DistinctVars(s: seq<Lit>) {
    forall i, j :: 0 <= i < j < |s| ==> Var(s[i]) != Var(s[j])
  }

  // Invariants are hidden behind this predicate: they are only looked into where it is mentioned.
  predicate Look(u: int) { true }

  ghost predicate Holds(m: Model, l: Lit) {
    if l > 0 then l in m else -l !in m
  }

  ghost predicate Sat(m: Model, c: Clause) {
    exists l: Lit :: l in c && Holds(m, l)
  }

  ghost predicate Models(m: Model, f: Formula) {
    forall c: Clause :: c in f ==> Sat(m, c)
  }

  ghost predicate Entails(f: Formula, c: Clause) {
    forall m: Model :: Models(m, f) ==> Sat(m, c)
  }

  ghost predicate EntailsAll(f: Formula, g: Formula) {
    forall c: Clause :: c in g ==> Entails(f, c)
  }

  ghost predicate Unsatisfiable(f: Formula) {
    forall m: Model :: !Models(m, f)
  }

  ghost predicate Tautological(c: Clause) {
    exists l: Lit :: l in c && -l in c
  }

  // The assignment that makes the literal 'l' true and agrees with 'm' elsewhere.
  ghost function Assign(m: Model, l: Lit): (m': Model)
    ensures Holds(m', l)
    ensures forall k: Lit :: Var(k) != Var(l) ==> (Holds(m', k) <==> Holds(m, k))
  {
    if l > 0 then m + iset{l} else m - iset{-l}
  }

  lemma EntailsTransitive(f: Formula, g: Formula, c: Clause)
    requires EntailsAll(f, g)
    requires Entails(g, c)
    ensures Entails(f, c)
  {
    forall m: Model | Models(m, f) ensures Sat(m, c) {
      forall d: Clause | d in g ensures Sat(m, d) {
        assert Entails(f, d);
      }
    }
  }

  lemma EntailsMonotone(f: Formula, g: Formula, c: Clause)
    requires f <= g
    requires Entails(f, c)
    ensures Entails(g, c)
  {
    forall m: Model | Models(m, g) ensures Sat(m, c) {
      assert Models(m, f);
    }
  }
}
