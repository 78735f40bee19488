// Why removing clauses is allowed: the redundancy arguments behind the entries of the extension
// stack, and the theorem that one backward pass over the stack undoes a whole run.
module Reconstruction {
  import opened Cnf
  import opened Extension

  // One backward pass over 'es' turns every model of 'after' into a model of 'before'.
  ghost predicate Reconstructs(after: Formula, es: seq<Entry>, before: Formula) {
    forall m: Model :: Models(m, after) ==> Models(Extend(m, es), before)
  }

  lemma {:induction false} ExtendConcat(m: Model, a: seq<Entry>, b: seq<Entry>)
    ensures Extend(m, a + b) == Extend(Extend(m, b), a)
    decreases |b|
  {
    if b == [] {
      assert a + b == a;
    } else {
      var n := |b| - 1;
      assert (a + b)[|a+b|-1] == b[n] && (a + b)[..|a+b|-1] == a + b[..n];
      ExtendConcat(Repair(m, b[n]), a, b[..n]);
    }
  }

  lemma ReconstructsTransitive(f: Formula, a: seq<Entry>, g: Formula, b: seq<Entry>, h: Formula)
    requires Reconstructs(h, b, g) && Reconstructs(g, a, f)
    ensures Reconstructs(h, a + b, f)
  {
    forall m: Model | Models(m, h) ensures Models(Extend(m, a + b), f) {
      ExtendConcat(m, a, b);
      assert Models(Extend(m, b), g);
    }
  }

  lemma ReconstructsNothing(f: Formula, g: Formula)
    requires EntailsAll(f, g)
    ensures Reconstructs(f, [], g)
  {
    forall m: Model | Models(m, f) ensures Models(Extend(m, []), g) {
      forall c | c in g ensures Sat(m, c) {
        assert Entails(f, c);
      }
    }
  }

  lemma SingleEntry(m: Model, e: Entry)
    ensures Extend(m, [e]) == Repair(m, e)
  {
    assert [e][..0] == [];
    assert Extend(Repair(m, e), []) == Repair(m, e);
  }

  lemma AssignSingle(m: Model, l: Lit)
    ensures AssignAll(m, [l]) == Assign(m, l)
  {
    assert [l][..0] == [];
    assert AssignAll(Assign(m, l), []) == Assign(m, l);
  }

  // ----- Clauses an entry does not touch.

  // All entries only flip one variable.
  ghost predicate FlipsOnly(es: seq<Entry>, l: Lit) {
    forall e {:trigger e in es} :: e in es ==> e.wit == [l] || e.wit == [-l]
  }

  ghost predicate Free(u: Formula, l: Lit) {
    forall c: Clause :: c in u ==> l !in c && -l !in c
  }

  lemma {:induction false} UntouchedKept(m: Model, es: seq<Entry>, l: Lit, k: Lit)
    requires FlipsOnly(es, l) && Var(k) != Var(l)
    ensures Holds(Extend(m, es), k) <==> Holds(m, k)
    decreases |es|
  {
    if es != [] {
      var n := |es| - 1;
      assert es[n] in es;
      AssignSingle(m, l);
      AssignSingle(m, -l);
      assert forall e :: e in es[..n] ==> e in es;
      UntouchedKept(Repair(m, es[n]), es[..n], l, k);
    }
  }

  // Clauses without the witness stay satisfied.
  lemma FrameReconstructs(g: Formula, es: seq<Entry>, f: Formula, u: Formula, l: Lit)
    requires Reconstructs(g, es, f) && FlipsOnly(es, l) && Free(u, l)
    ensures Reconstructs(g + u, es, f + u)
  {
    forall m: Model | Models(m, g + u) ensures Models(Extend(m, es), f + u) {
      assert Models(m, g);
      forall c | c in u ensures Sat(Extend(m, es), c) {
        var k :| k in c && Holds(m, k);
        UntouchedKept(m, es, l, k);
      }
    }
  }

  // ----- Redundancy on one literal.

  function Resolvent(c: Clause, l: Lit, d: Clause): Clause {
    (c - {l}) + (d - {-l})
  }

  // Every resolvent of 'c' on 'l' with a clause of 'f' follows from 'f'.
  ghost predicate ResolventsEntailed(f: Formula, c: Clause, l: Lit) {
    forall d: Clause :: d in f && -l in d ==> Entails(f, Resolvent(c, l, d))
  }

  // Making the false literal 'l' true keeps a clause that does not rely on '-l'.
  lemma FlipKeeps(m: Model, l: Lit, d: Clause, k: Lit)
    requires l != 0 && k in d && Holds(m, k) && k != -l
    ensures Sat(Assign(m, l), d)
  {
    assert k == l || Var(k) != Var(l);
    assert Holds(Assign(m, l), k);
  }

  lemma PivotStep(f: Formula, c: seq<Lit>, l: Lit, id: nat)
    requires l in c && l != 0 && 0 !in c
    requires ResolventsEntailed(f, LitsOf(c), l)
    ensures Reconstructs(f, [Entry([l], c, id)], f + iset{LitsOf(c)})
  {
    var e := Entry([l], c, id);
    forall m: Model | Models(m, f) ensures Models(Extend(m, [e]), f + iset{LitsOf(c)}) {
      SingleEntry(m, e);
      if !Sat(m, LitsOf(c)) {
        AssignSingle(m, l);
        PivotFlip(f, LitsOf(c), l, m);
      }
    }
  }

  lemma PivotFlip(f: Formula, c: Clause, l: Lit, m: Model)
    requires l in c && l != 0
    requires ResolventsEntailed(f, c, l) && Models(m, f) && !Sat(m, c)
    ensures Models(Assign(m, l), f + iset{c})
  {
    forall d: Clause | d in f + iset{c} ensures Sat(Assign(m, l), d) {
      if d == c {
        assert Holds(Assign(m, l), l);
      } else if -l in d {
        assert Entails(f, Resolvent(c, l, d));
        var k :| k in Resolvent(c, l, d) && Holds(m, k);
        assert k in d && k != -l;
        FlipKeeps(m, l, d, k);
      } else {
        var k :| k in d && Holds(m, k);
        FlipKeeps(m, l, d, k);
      }
    }
  }

  lemma TautologySatisfied(f: Formula, c: Clause, k: Lit)
    requires k in c && -k in c && k != 0
    ensures Entails(f, c)
  {
    forall m: Model ensures Sat(m, c) {
      assert Holds(m, k) || Holds(m, -k);
    }
  }

  // ----- Blocked clauses.

  ghost predicate Clashes(c: Clause, l: Lit, d: Clause) {
    exists k :: k in c && k != l && k != 0 && -k in d
  }

  // All resolvents of 'c' on 'l' are tautological.
  ghost predicate Blocked(f: Formula, c: Clause, l: Lit) {
    forall d: Clause :: d in f && -l in d ==> Clashes(c, l, d)
  }

  lemma BlockedResolvents(f: Formula, c: Clause, l: Lit)
    requires Blocked(f, c, l) && -l !in c
    ensures ResolventsEntailed(f, c, l)
  {
    forall d: Clause | d in f && -l in d ensures Entails(f, Resolvent(c, l, d)) {
      assert Clashes(c, l, d);
      var k :| k in c && k != l && k != 0 && -k in d;
      assert k in Resolvent(c, l, d);
      assert -k in Resolvent(c, l, d);
      TautologySatisfied(f, Resolvent(c, l, d), k);
    }
  }

  // ----- Conditional autarkies (globally blocked clauses).

  // Falsifying 'c' makes the negations of its literals true.  Under that condition the witness
  // 'w' satisfies every clause it touches.
  ghost predicate ConditionalAutarky(f: Formula, c: Clause, w: Clause) {
    forall d: Clause :: d in f && (exists k :: k in w && -k in d) ==>
      (exists k :: k in d && (k in w || (-k in c && -k !in w)))
  }

  ghost predicate Consistent(w: Clause) {
    0 !in w && forall k :: k in w ==> -k !in w
  }

  lemma {:induction false} AssignAllHolds(m: Model, w: seq<Lit>, k: Lit)
    requires Consistent(LitsOf(w))
    ensures k in w ==> Holds(AssignAll(m, w), k)
    ensures k !in w && -k !in w ==> (Holds(AssignAll(m, w), k) <==> Holds(m, k))
    decreases |w|
  {
    if w != [] {
      var n := |w| - 1;
      assert w == w[..n] + [w[n]];
      assert forall x :: x in LitsOf(w[..n]) ==> x in LitsOf(w);
      assert w[n] in LitsOf(w);
      if k in w[..n] || -k in w[..n] {
        if -k in w[..n] {
          assert -k in LitsOf(w) && -(-k) == k;
        }
        AssignAllHolds(Assign(m, w[n]), w[..n], k);
      } else {
        AssignAllHolds(Assign(m, w[n]), w[..n], k);
        assert k != w[n] && k != -w[n] ==> Var(k) != Var(w[n]);
      }
    }
  }

  lemma AutarkyStep(f: Formula, c: seq<Lit>, w: seq<Lit>, id: nat)
    requires 0 !in c && Consistent(LitsOf(w))
    requires ConditionalAutarky(f, LitsOf(c), LitsOf(w))
    requires exists k :: k in c && k in w
    ensures Reconstructs(f, [Entry(w, c, id)], f + iset{LitsOf(c)})
  {
    var e := Entry(w, c, id);
    forall m: Model | Models(m, f) ensures Models(Extend(m, [e]), f + iset{LitsOf(c)}) {
      SingleEntry(m, e);
      if !Sat(m, LitsOf(c)) {
        var k :| k in c && k in w;
        AssignAllHolds(m, w, k);
        assert k in LitsOf(c);
        forall d: Clause | d in f ensures Sat(AssignAll(m, w), d) {
          AutarkyKeeps(f, LitsOf(c), w, m, d);
        }
      }
    }
  }

  lemma AutarkyKeeps(f: Formula, c: Clause, w: seq<Lit>, m: Model, d: Clause)
    requires 0 !in c && Consistent(LitsOf(w)) && ConditionalAutarky(f, c, LitsOf(w))
    requires Models(m, f) && !Sat(m, c) && d in f
    ensures Sat(AssignAll(m, w), d)
  {
    assert Sat(m, d);
    var q :| q in d && Holds(m, q);
    if -q in LitsOf(w) {
      assert -(-q) == q;
      var k :| k in d && (k in LitsOf(w) || (-k in c && -k !in LitsOf(w)));
      assert -k in c ==> !Holds(m, -k) && k != 0;
      AssignAllHolds(m, w, k);
    } else {
      AssignAllHolds(m, w, q);
    }
  }
}
