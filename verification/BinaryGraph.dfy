// The binary implication graph: a watch of a binary clause {-a, b} in the watch list of '-a'
// is the edge from 'a' to 'b'.
module BinaryGraph {
  import opened Cnf

  datatype Watch = Watch(blit: Lit, size: nat) {
    predicate Binary() { size == 2 }
  }

  datatype Graph = Graph(active: set<Lit>, watches: map<Lit, seq<Watch>>) {

    // What connecting the watches establishes: active literals come in pairs, have a watch
    // list each, and a binary clause is watched by both of its literals.
    ghost predicate WellFormed() {
      && 0 !in active
      && (forall l: Lit :: l in active ==> -l in active && l in watches)
      && (forall a: Lit, b: Lit {:trigger Watched(a, b)} :: a in active && b in active && Watched(a, b) ==> Watched(b, a))
    }

    ghost predicate Watched(a: Lit, b: Lit) {
      a in watches && exists w :: w in watches[a] && w.Binary() && w.blit == b
    }

    ghost predicate Edge(a: Lit, b: Lit) {
      a in active && b in active && Watched(-a, b)
    }
  }

  ghost predicate Path(g: Graph, p: seq<Lit>) {
    && |p| > 0
    && p[0] in g.active
    && forall i :: 0 < i < |p| ==> g.Edge(p[i-1], p[i])
  }

  ghost predicate PathBetween(g: Graph, p: seq<Lit>, a: Lit, b: Lit) {
    Path(g, p) && p[0] == a && p[|p|-1] == b
  }

  // The literal 'a' implies the literal 'b' through binary clauses.
  ghost predicate Reach(g: Graph, a: Lit, b: Lit) {
    exists p :: PathBetween(g, p, a, b)
  }

  // Members of the same strongly connected component.
  ghost predicate Mutual(g: Graph, a: Lit, b: Lit) {
    Reach(g, a, b) && Reach(g, b, a)
  }

  ghost predicate Closed(g: Graph, s: set<Lit>) {
    forall a: Lit, b: Lit :: a in s && g.Edge(a, b) ==> b in s
  }

  lemma ReachRefl(g: Graph, a: Lit)
    requires a in g.active
    ensures Reach(g, a, a)
  {
    assert PathBetween(g, [a], a, a);
  }

  lemma ReachEdge(g: Graph, a: Lit, b: Lit)
    requires g.Edge(a, b)
    ensures Reach(g, a, b)
  {
    assert PathBetween(g, [a, b], a, b);
  }

  lemma ReachTrans(g: Graph, a: Lit, b: Lit, c: Lit)
    requires Reach(g, a, b) && Reach(g, b, c)
    ensures Reach(g, a, c)
  {
    var p :| PathBetween(g, p, a, b);
    var q :| PathBetween(g, q, b, c);
    assert PathBetween(g, p + q[1..], a, c) by {
      var r := p + q[1..];
      forall i | 0 < i < |r| ensures g.Edge(r[i-1], r[i]) {
        if i >= |p| {
          assert g.Edge(q[i-|p|], q[i-|p|+1]);
          assert r[i-1] == q[i-|p|];
        }
      }
    }
  }

  lemma {:induction false} PathStaysInClosed(g: Graph, s: set<Lit>, p: seq<Lit>)
    requires Closed(g, s) && Path(g, p) && p[0] in s
    ensures forall i :: 0 <= i < |p| ==> p[i] in s
  {
    if |p| > 1 {
      var q := p[..|p|-1];
      PathStaysInClosed(g, s, q);
      assert p[|p|-2] == q[|p|-2];
      assert g.Edge(p[|p|-2], p[|p|-1]);
    }
  }

  lemma ReachStaysInClosed(g: Graph, s: set<Lit>, a: Lit, b: Lit)
    requires Closed(g, s) && a in s && Reach(g, a, b)
    ensures b in s
  {
    var p :| PathBetween(g, p, a, b);
    PathStaysInClosed(g, s, p);
  }

  lemma ReachActive(g: Graph, a: Lit, b: Lit)
    requires Reach(g, a, b)
    ensures a in g.active && b in g.active
  {
    var p :| PathBetween(g, p, a, b);
    if |p| > 1 {
      assert g.Edge(p[|p|-2], p[|p|-1]);
    }
  }

  lemma EdgeSkew(g: Graph, a: Lit, b: Lit)
    requires g.WellFormed() && g.Edge(a, b)
    ensures g.Edge(-b, -a)
  {
    assert g.Watched(-a, b);
    assert g.Watched(b, -a);
    assert -(-b) == b;
  }

  lemma {:induction false} PathSkew(g: Graph, p: seq<Lit>) returns (q: seq<Lit>)
    requires g.WellFormed() && Path(g, p)
    ensures PathBetween(g, q, -p[|p|-1], -p[0])
  {
    if |p| == 1 {
      q := [-p[0]];
    } else {
      var r := PathSkew(g, p[1..]);
      assert g.Edge(p[0], p[1]);
      EdgeSkew(g, p[0], p[1]);
      q := r + [-p[0]];
    }
  }

  // Skew symmetry of the graph: the contrapositive of an implication is an implication.
  lemma ReachSkew(g: Graph, a: Lit, b: Lit)
    requires g.WellFormed() && Reach(g, a, b)
    ensures Reach(g, -b, -a)
  {
    var p :| PathBetween(g, p, a, b);
    var q := PathSkew(g, p);
  }

  // Two literals in one component clash only if every literal of that component clashes.
  // This is why testing the entry literal of a component is enough.
  lemma ClashSpreads(g: Graph, a: Lit, b: Lit)
    requires g.WellFormed() && Mutual(g, a, b) && Mutual(g, b, -b)
    ensures Mutual(g, a, -a)
  {
    ReachSkew(g, a, b);
    ReachSkew(g, b, a);
    ReachTrans(g, a, b, -b);
    ReachTrans(g, a, -b, -a);
    ReachTrans(g, -a, -b, b);
    ReachTrans(g, -a, b, a);
  }

  // The graph is read off binary clauses of the formula.
  ghost predicate ReadOff(g: Graph, f: Formula) {
    forall a: Lit, b: Lit :: g.Watched(a, b) ==> {a, b} in f
  }

  lemma {:induction false} PathImplies(g: Graph, f: Formula, m: Model, p: seq<Lit>)
    requires g.WellFormed() && ReadOff(g, f) && Models(m, f) && Path(g, p)
    requires Holds(m, p[0])
    ensures Holds(m, p[|p|-1])
  {
    if |p| > 1 {
      PathImplies(g, f, m, p[..|p|-1]);
      var a, b := p[|p|-2], p[|p|-1];
      assert g.Edge(a, b);
      assert {-a, b} in f;
      assert Sat(m, {-a, b});
    }
  }

  lemma ReachImplies(g: Graph, f: Formula, a: Lit, b: Lit)
    requires g.WellFormed() && ReadOff(g, f) && Reach(g, a, b)
    ensures Entails(f, {-a, b})
  {
    var p :| PathBetween(g, p, a, b);
    forall m: Model | Models(m, f) ensures Sat(m, {-a, b}) {
      if Holds(m, a) {
        PathImplies(g, f, m, p);
        assert b in {-a, b};
      } else {
        assert -a in {-a, b};
      }
    }
  }

  lemma ClashUnsatisfiable(g: Graph, f: Formula, a: Lit)
    requires g.WellFormed() && ReadOff(g, f) && Mutual(g, a, -a)
    ensures Unsatisfiable(f)
  {
    ReachImplies(g, f, a, -a);
    ReachImplies(g, f, -a, a);
    ReachActive(g, a, -a);
    forall m: Model ensures !Models(m, f) {
      assert Models(m, f) ==> Sat(m, {-a, -a}) && Sat(m, {-(-a), a});
    }
  }

  // ----- Representatives of components.

  ghost predicate Smallest(g: Graph, l: Lit, r: Lit) {
    Mutual(g, l, r) && forall k {:trigger Mutual(g, l, k)} :: Mutual(g, l, k) ==> Var(r) <= Var(k)
  }

  // The component of 'l' has no clash, and 'l' is represented by the smallest member of its
  // component, or by itself if its variable is frozen.
  ghost predicate Represented(g: Graph, frozen: set<nat>, l: Lit, repr: Lit) {
    && !Mutual(g, l, -l)
    && (if Var(l) in frozen then repr == l else Smallest(g, l, repr))
  }

  ghost predicate AllRepresented(g: Graph, frozen: set<nat>, reprs: map<Lit, Lit>) {
    && reprs.Keys == g.active
    && forall l {:trigger Represented(g, frozen, l, reprs[l])} :: l in g.active ==> Represented(g, frozen, l, reprs[l])
  }

  lemma MutualTrans(g: Graph, a: Lit, b: Lit, c: Lit)
    requires Mutual(g, a, b) && Mutual(g, b, c)
    ensures Mutual(g, a, c)
  {
    ReachTrans(g, a, b, c);
    ReachTrans(g, c, b, a);
  }

  // Without a clash a component has at most one smallest member.
  lemma SmallestUnique(g: Graph, a: Lit, b: Lit, r: Lit, q: Lit)
    requires g.WellFormed() && Mutual(g, a, b) && !Mutual(g, a, -a)
    requires Smallest(g, a, r) && Smallest(g, b, q)
    ensures r == q
  {
    MutualTrans(g, a, b, q);
    MutualTrans(g, b, a, r);
    assert Var(r) == Var(q);
    if r == -q {
      MutualTrans(g, q, a, r);
      ClashSpreads(g, a, q);
    }
  }

  lemma RepresentativeInComponent(g: Graph, frozen: set<nat>, reprs: map<Lit, Lit>, l: Lit)
    requires AllRepresented(g, frozen, reprs) && l in g.active
    ensures Mutual(g, l, reprs[l]) && reprs[l] in g.active
  {
    assert Represented(g, frozen, l, reprs[l]);
    if Var(l) in frozen {
      ReachRefl(g, l);
    }
    ReachActive(g, l, reprs[l]);
  }

  // Literals that are not frozen share a representative exactly when they imply each other.
  lemma SameRepresentative(g: Graph, frozen: set<nat>, reprs: map<Lit, Lit>, l: Lit, k: Lit)
    requires g.WellFormed() && AllRepresented(g, frozen, reprs)
    requires l in g.active && k in g.active && Var(l) !in frozen && Var(k) !in frozen
    ensures reprs[l] == reprs[k] <==> Mutual(g, l, k)
  {
    assert Represented(g, frozen, l, reprs[l]) && Represented(g, frozen, k, reprs[k]);
    if Mutual(g, l, k) {
      SmallestUnique(g, l, k, reprs[l], reprs[k]);
    }
    if reprs[l] == reprs[k] {
      MutualTrans(g, l, reprs[l], k);
    }
  }

  lemma RepresentativeIdempotent(g: Graph, frozen: set<nat>, reprs: map<Lit, Lit>, l: Lit)
    requires g.WellFormed() && AllRepresented(g, frozen, reprs) && l in g.active
    ensures reprs[l] in g.active && reprs[reprs[l]] == reprs[l]
  {
    RepresentativeInComponent(g, frozen, reprs, l);
    var r := reprs[l];
    assert Represented(g, frozen, l, r) && Represented(g, frozen, r, reprs[r]);
    if Var(l) !in frozen && Var(r) !in frozen {
      SmallestUnique(g, l, r, r, reprs[r]);
    }
  }

  lemma SmallestSkew(g: Graph, l: Lit, r: Lit)
    requires g.WellFormed() && Smallest(g, l, r)
    ensures Smallest(g, -l, -r)
  {
    ReachSkew(g, l, r);
    ReachSkew(g, r, l);
    forall k | Mutual(g, -l, k) ensures Var(-r) <= Var(k) {
      ReachSkew(g, -l, k);
      ReachSkew(g, k, -l);
      assert Mutual(g, l, -k);
    }
  }

  lemma SmallestOfNegation(g: Graph, l: Lit, r: Lit, q: Lit)
    requires g.WellFormed() && !Mutual(g, -l, l)
    requires Smallest(g, l, r) && Smallest(g, -l, q)
    ensures q == -r
  {
    SmallestSkew(g, l, r);
    ReachActive(g, -l, q);
    ReachRefl(g, -l);
    SmallestUnique(g, -l, -l, -r, q);
  }

  lemma RepresentativeOfNegation(g: Graph, frozen: set<nat>, reprs: map<Lit, Lit>, l: Lit)
    requires g.WellFormed() && AllRepresented(g, frozen, reprs) && l in g.active
    ensures -l in g.active && reprs[-l] == -reprs[l]
  {
    var r, q := reprs[l], reprs[-l];
    assert Represented(g, frozen, l, r) && Represented(g, frozen, -l, q);
    if Var(l) !in frozen {
      SmallestOfNegation(g, l, r, q);
    }
  }

  // The two clauses that define a substituted literal follow from the formula.
  lemma EquivalenceEntailed(g: Graph, f: Formula, l: Lit, r: Lit)
    requires g.WellFormed() && ReadOff(g, f) && Mutual(g, l, r)
    ensures Entails(f, {-l, r}) && Entails(f, {l, -r})
  {
    ReachImplies(g, f, l, r);
    ReachImplies(g, f, r, l);
    assert {-r, l} == {l, -r};
  }
}
