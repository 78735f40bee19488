// The state of the search for strongly connected components and what every step of the
// explicit-stack search keeps.
module Tarjan {
  import opened Cnf
  import opened BinaryGraph

  // Marks completely traversed literals; larger than every search index.
  const TRAVERSED: nat := 0xFFFF_FFFF

  datatype Dfs = Dfs(idx: nat, min: nat)

  type Table = map<Lit, Dfs>

  function Idx(dfs: Table, l: Lit): nat {
    if l in dfs then dfs[l].idx else 0
  }

  function Min(dfs: Table, l: Lit): nat {
    if l in dfs then dfs[l].min else 0
  }

  function Unvisited(dfs: Table): set<Lit> {
    set l | l in dfs && dfs[l].idx == 0
  }

  // The graph as the search sees it: its literals, its edges and the reachability they generate.
  datatype View = View(nodes: set<Lit>, edge: iset<(Lit, Lit)>, reach: iset<(Lit, Lit)>) {
    ghost predicate E(a: Lit, b: Lit) { (a, b) in edge }
    ghost predicate R(a: Lit, b: Lit) { (a, b) in reach }

    ghost predicate Generated() {
      && (forall a, b :: E(a, b) ==> a in nodes && b in nodes && R(a, b))
      && (forall a :: a in nodes ==> R(a, a))
      && (forall a, b, c :: R(a, b) && R(b, c) ==> R(a, c))
    }
  }

  // A snapshot of the search.  'work' may hold one literal several times.  An 'open' literal is
  // visited but still waits for its post-fix work, which happens at stack position 'pos'.
  datatype Search = Search(
    dfs: Table, work: seq<Lit>, scc: seq<Lit>, count: nat, open: seq<Lit>, pos: seq<nat>)

  ghost predicate Tables(v: View, dfs: Table, scc: seq<Lit>, count: nat) {
    && dfs.Keys == v.nodes
    && count + |Unvisited(dfs)| == |v.nodes| < TRAVERSED
    && forall l :: l in dfs ==>
         && Idx(dfs, l) <= count
         && (Idx(dfs, l) == 0 <==> Min(dfs, l) == 0)
         && (l in scc <==> Idx(dfs, l) != 0 && Min(dfs, l) != TRAVERSED)
  }

  // The component stack is in the order of the first visit.
  ghost predicate Ordered(v: View, dfs: Table, scc: seq<Lit>) {
    && (forall l :: l in scc ==> l in v.nodes)
    && forall i, j :: 0 <= i < j < |scc| ==> Idx(dfs, scc[i]) < Idx(dfs, scc[j])
  }

  // The minimum of a literal is the index of a reachable literal on the component stack.
  ghost predicate Anchored(v: View, dfs: Table, scc: seq<Lit>, l: Lit) {
    && Min(dfs, l) <= Idx(dfs, l)
    && exists y :: y in scc && Idx(dfs, y) == Min(dfs, l) && v.R(l, y)
  }

  ghost predicate AllAnchored(v: View, dfs: Table, scc: seq<Lit>) {
    forall l {:trigger Anchored(v, dfs, scc, l)} :: l in scc ==> Anchored(v, dfs, scc, l)
  }

  ghost predicate Finished(v: View, dfs: Table) {
    forall a, b {:trigger v.E(a, b)} :: v.E(a, b) && Min(dfs, a) == TRAVERSED ==> Min(dfs, b) == TRAVERSED
  }

  ghost predicate OpenVisited(dfs: Table, scc: seq<Lit>, open: seq<Lit>) {
    && (forall o :: o in open ==> o in scc && Min(dfs, o) == Idx(dfs, o))
    && forall i, j :: 0 <= i < j < |open| ==> Idx(dfs, open[i]) < Idx(dfs, open[j])
  }

  // A visited literal off the open stack: all children were visited, and it is not the entry
  // of its component.
  ghost predicate DoneLiteral(v: View, dfs: Table, scc: seq<Lit>, x: Lit) {
    && Min(dfs, x) < Idx(dfs, x)
    && forall c {:trigger v.E(x, c)} :: v.E(x, c) ==> Idx(dfs, c) != 0 && (c in scc ==> Min(dfs, x) <= Idx(dfs, c))
  }

  ghost predicate Done(v: View, dfs: Table, scc: seq<Lit>, open: seq<Lit>) {
    forall x {:trigger DoneLiteral(v, dfs, scc, x)} :: x in scc && x !in open ==> DoneLiteral(v, dfs, scc, x)
  }

  ghost predicate Tree(v: View, dfs: Table, scc: seq<Lit>, open: seq<Lit>) {
    forall o, x {:trigger v.R(o, x)} :: o in open && x in scc && Idx(dfs, o) <= Idx(dfs, x) ==> v.R(o, x)
  }

  // The minimum of 'k' accounts for every edge that leaves 'x'.
  ghost predicate Bounds(v: View, dfs: Table, scc: seq<Lit>, k: Lit, x: Lit) {
    forall c {:trigger v.E(x, c)} :: v.E(x, c) && c in scc ==> Min(dfs, k) <= Idx(dfs, c)
  }

  // A finished literal 'x' lies below the finished child 'k' of the last open literal visited
  // before it, and the minimum of 'k' bounds the edges that leave 'x'.
  ghost predicate Covers(v: View, dfs: Table, scc: seq<Lit>, open: seq<Lit>, x: Lit, j: nat, k: Lit) {
    && j < |open| && k in scc && k !in open && v.E(open[j], k)
    && Idx(dfs, open[j]) < Idx(dfs, k) <= Idx(dfs, x)
    && (j + 1 < |open| ==> Idx(dfs, x) < Idx(dfs, open[j+1]))
    && Bounds(v, dfs, scc, k, x)
  }

  ghost predicate IsCovered(v: View, dfs: Table, scc: seq<Lit>, open: seq<Lit>, x: Lit) {
    exists j, k :: Covers(v, dfs, scc, open, x, j, k)
  }

  ghost predicate Covered(v: View, dfs: Table, scc: seq<Lit>, open: seq<Lit>) {
    forall x {:trigger IsCovered(v, dfs, scc, open, x)} ::
      x in scc && x !in open ==> IsCovered(v, dfs, scc, open, x)
  }

  ghost predicate OpenOnWork(work: seq<Lit>, open: seq<Lit>, pos: seq<nat>) {
    && |open| == |pos|
    && (|open| == 0 ==> |work| <= 1)
    && (|open| > 0 ==> pos[0] == 0)
    && (forall j :: 0 <= j < |pos| ==> pos[j] < |work| && work[pos[j]] == open[j])
    && (forall i, j :: 0 <= i < j < |pos| ==> pos[i] < pos[j])
  }

  // Everything above an open literal on the work stack differs from it, and up to the next
  // open literal consists of its children.
  ghost predicate WorkStack(v: View, work: seq<Lit>, open: seq<Lit>, pos: seq<nat>) {
    && |open| == |pos|
    && (forall l :: l in work ==> l in v.nodes)
    && (forall i, j :: 0 <= j < |pos| && pos[j] < i < |work| ==> work[i] != open[j])
    && (forall i, j :: 0 <= j < |pos| && pos[j] < i < |work| && (j + 1 < |pos| ==> i <= pos[j+1]) ==>
          v.E(open[j], work[i]))
  }

  ghost predicate Above(work: seq<Lit>, p: nat, c: Lit) {
    exists i :: p < i < |work| && work[i] == c
  }

  // A child of an open literal was visited already or still waits above it.
  ghost predicate Scheduled(v: View, dfs: Table, work: seq<Lit>, open: seq<Lit>, pos: seq<nat>) {
    && |open| == |pos|
    && forall j, c {:trigger Above(work, pos[j], c)} ::
         0 <= j < |open| && v.E(open[j], c) && Idx(dfs, c) == 0 ==> Above(work, pos[j], c)
  }

  ghost predicate DfsInv(v: View, dfs: Table, scc: seq<Lit>, count: nat, open: seq<Lit>) {
    && Tables(v, dfs, scc, count)
    && Ordered(v, dfs, scc)
    && AllAnchored(v, dfs, scc)
    && Finished(v, dfs)
    && OpenVisited(dfs, scc, open)
    && Done(v, dfs, scc, open)
    && Tree(v, dfs, scc, open)
    && Covered(v, dfs, scc, open)
  }

  ghost predicate WorkInv(v: View, dfs: Table, work: seq<Lit>, open: seq<Lit>, pos: seq<nat>) {
    && OpenOnWork(work, open, pos)
    && WorkStack(v, work, open, pos)
    && Scheduled(v, dfs, work, open, pos)
  }

  ghost predicate Inv(v: View, s: Search) {
    DfsInv(v, s.dfs, s.scc, s.count, s.open) && WorkInv(v, s.dfs, s.work, s.open, s.pos)
  }

  function Top(s: Search): Lit
    requires |s.work| > 0
  {
    s.work[|s.work|-1]
  }

  function Front<T>(s: seq<T>): seq<T>
    requires |s| > 0
  {
    s[..|s|-1]
  }

  // ----- The top of the work stack is not open: it was traversed, or done and met again.

  lemma PopNotOpen(v: View, dfs: Table, work: seq<Lit>, open: seq<Lit>, pos: seq<nat>)
    requires WorkInv(v, dfs, work, open, pos) && |work| > 0
    requires work[|work|-1] !in open && Idx(dfs, work[|work|-1]) != 0
    ensures WorkInv(v, dfs, Front(work), open, pos)
  {
    forall j, c | 0 <= j < |open| && v.E(open[j], c) && Idx(dfs, c) == 0
      ensures Above(Front(work), pos[j], c)
    {
      assert Above(work, pos[j], c);
      var i :| pos[j] < i < |work| && work[i] == c;
      assert Front(work)[i] == c;
    }
    assert forall j :: 0 <= j < |open| ==> open[j] in open;
  }

  // ----- The top of the work stack is open: its post-fix work ends it.

  lemma TopIsLastOpen(v: View, dfs: Table, work: seq<Lit>, open: seq<Lit>, pos: seq<nat>)
    requires WorkInv(v, dfs, work, open, pos) && |work| > 0
    requires work[|work|-1] in open
    ensures |open| > 0 && pos[|pos|-1] == |work| - 1 && open[|open|-1] == work[|work|-1]
  {
    var j :| 0 <= j < |open| && open[j] == work[|work|-1];
    assert pos[j] <= pos[|pos|-1] < |work|;
    assert pos[j] == |work| - 1;
  }

  lemma PopOpen(v: View, dfs: Table, work: seq<Lit>, open: seq<Lit>, pos: seq<nat>)
    requires WorkInv(v, dfs, work, open, pos) && |work| > 0
    requires work[|work|-1] in open && Idx(dfs, work[|work|-1]) != 0
    ensures |open| > 0 && |pos| > 0
    ensures WorkInv(v, dfs, Front(work), Front(open), Front(pos))
  {
    TopIsLastOpen(v, dfs, work, open, pos);
    PopOpenWorkStack(v, dfs, work, open, pos);
    var work', open', pos' := Front(work), Front(open), Front(pos);
    forall j, c | 0 <= j < |open'| && v.E(open'[j], c) && Idx(dfs, c) == 0
      ensures Above(work', pos'[j], c)
    {
      assert Above(work, pos[j], c);
      var i :| pos[j] < i < |work| && work[i] == c;
      assert work'[i] == c;
    }
  }

  lemma PopOpenWorkStack(v: View, dfs: Table, work: seq<Lit>, open: seq<Lit>, pos: seq<nat>)
    requires WorkInv(v, dfs, work, open, pos) && |work| > 0 && |open| > 0
    requires pos[|pos|-1] == |work| - 1
    ensures WorkStack(v, Front(work), Front(open), Front(pos))
    ensures OpenOnWork(Front(work), Front(open), Front(pos))
  {
  }

  lemma ChildrenOfTopVisited(v: View, dfs: Table, work: seq<Lit>, open: seq<Lit>, pos: seq<nat>, c: Lit)
    requires WorkInv(v, dfs, work, open, pos) && |work| > 0
    requires work[|work|-1] in open && v.E(work[|work|-1], c)
    ensures Idx(dfs, c) != 0
  {
    TopIsLastOpen(v, dfs, work, open, pos);
    assert !Above(work, pos[|pos|-1], c);
  }

  // ----- Post-fix work: the minimum of 'p' becomes 'm'.

  // What the loop over the children computes.
  ghost predicate NewMin(v: View, dfs: Table, p: Lit, m: nat) {
    && m <= Min(dfs, p)
    && (forall c :: v.E(p, c) ==> m <= Min(dfs, c))
    && (m == Min(dfs, p) || exists c :: v.E(p, c) && m == Min(dfs, c))
  }

  ghost predicate Lowered(dfs: Table, dfs': Table, p: Lit, m: nat) {
    && dfs'.Keys == dfs.Keys
    && p in dfs
    && (forall l :: Idx(dfs', l) == Idx(dfs, l))
    && (forall l :: l != p ==> Min(dfs', l) == Min(dfs, l))
    && Min(dfs', p) == m
  }

  // ----- Post-fix work leaves 'p' on the component stack.

  lemma NewMinInScope(v: View, dfs: Table, scc: seq<Lit>, count: nat, p: Lit, m: nat)
    requires Tables(v, dfs, scc, count) && p in scc && p in v.nodes
    requires Min(dfs, p) <= Idx(dfs, p)
    requires NewMin(v, dfs, p, m)
    requires forall c :: v.E(p, c) ==> Idx(dfs, c) != 0 && c in v.nodes
    ensures 0 < m <= Idx(dfs, p) < TRAVERSED
  {
    assert p in dfs;
    if m != Min(dfs, p) {
      var c :| v.E(p, c) && m == Min(dfs, c);
      assert c in dfs;
    }
  }

  lemma LowerTables(v: View, dfs: Table, scc: seq<Lit>, count: nat, p: Lit, m: nat, dfs': Table)
    requires Tables(v, dfs, scc, count) && Ordered(v, dfs, scc) && p in scc
    requires Lowered(dfs, dfs', p, m) && 0 < m <= Idx(dfs, p)
    ensures Tables(v, dfs', scc, count) && Ordered(v, dfs', scc)
  {
    assert Unvisited(dfs') == Unvisited(dfs) by {
      forall l ensures l in Unvisited(dfs') <==> l in Unvisited(dfs) {
        assert Idx(dfs', l) == Idx(dfs, l);
      }
    }
  }

  lemma LowerAnchored(v: View, dfs: Table, scc: seq<Lit>, p: Lit, m: nat, dfs': Table)
    requires AllAnchored(v, dfs, scc) && v.Generated() && p in scc
    requires Lowered(dfs, dfs', p, m) && NewMin(v, dfs, p, m)
    requires forall c :: v.E(p, c) && Min(dfs, c) == m ==> c in scc
    ensures AllAnchored(v, dfs', scc)
  {
    forall l | l in scc ensures Anchored(v, dfs', scc, l) {
      assert Anchored(v, dfs, scc, l);
      var y :| y in scc && Idx(dfs, y) == Min(dfs, l) && v.R(l, y);
      if l == p {
        y := AnchorOfNewMin(v, dfs, scc, p, m);
      }
      assert Idx(dfs', y) == Min(dfs', l);
    }
  }

  lemma AnchorOfNewMin(v: View, dfs: Table, scc: seq<Lit>, p: Lit, m: nat) returns (y: Lit)
    requires AllAnchored(v, dfs, scc) && v.Generated() && p in scc
    requires NewMin(v, dfs, p, m)
    requires forall c :: v.E(p, c) && Min(dfs, c) == m ==> c in scc
    ensures y in scc && Idx(dfs, y) == m && v.R(p, y)
  {
    var q := p;
    if m != Min(dfs, p) {
      q :| v.E(p, q) && m == Min(dfs, q);
    }
    assert Anchored(v, dfs, scc, q);
    y :| y in scc && Idx(dfs, y) == Min(dfs, q) && v.R(q, y);
  }

  lemma LowerFinished(v: View, dfs: Table, p: Lit, m: nat, dfs': Table)
    requires Finished(v, dfs)
    requires Lowered(dfs, dfs', p, m) && Min(dfs, p) != TRAVERSED && m != TRAVERSED
    ensures Finished(v, dfs')
  {
  }

  // The literals that stay open after the post-fix work of 'p'.
  function StillOpen(open: seq<Lit>, p: Lit): seq<Lit> {
    if p in open then Front(open) else open
  }

  lemma LowerOpen(v: View, dfs: Table, scc: seq<Lit>, open: seq<Lit>, p: Lit, m: nat, dfs': Table)
    requires OpenVisited(dfs, scc, open) && Tree(v, dfs, scc, open)
    requires Lowered(dfs, dfs', p, m)
    requires p in open ==> p == open[|open|-1]
    ensures p !in StillOpen(open, p)
    ensures forall o :: o in open <==> o in StillOpen(open, p) || (o == p && p in open)
    ensures OpenVisited(dfs', scc, StillOpen(open, p))
    ensures Tree(v, dfs', scc, StillOpen(open, p))
  {
    StillOpenMembers(dfs, open, p);
  }

  lemma StillOpenMembers(dfs: Table, open: seq<Lit>, p: Lit)
    requires forall i, j :: 0 <= i < j < |open| ==> Idx(dfs, open[i]) < Idx(dfs, open[j])
    requires p in open ==> p == open[|open|-1]
    ensures p !in StillOpen(open, p)
    ensures forall o :: o in open <==> o in StillOpen(open, p) || (o == p && p in open)
  {
    if p in open {
      assert open == Front(open) + [p];
    }
  }

  lemma LowerDone(v: View, dfs: Table, scc: seq<Lit>, open: seq<Lit>, open': seq<Lit>, p: Lit, m: nat, dfs': Table)
    requires Done(v, dfs, scc, open) && forall o :: o in open ==> o in open' || o == p
    requires Lowered(dfs, dfs', p, m) && m < Idx(dfs, p) && NewMin(v, dfs, p, m)
    requires forall c :: v.E(p, c) ==> Idx(dfs, c) != 0
    requires forall c :: c in scc ==> Min(dfs, c) <= Idx(dfs, c)
    ensures Done(v, dfs', scc, open')
  {
    forall x | x in scc && x !in open' ensures DoneLiteral(v, dfs', scc, x) {
      if x != p {
        assert DoneLiteral(v, dfs, scc, x);
      }
    }
  }

  lemma BoundsLowered(v: View, dfs: Table, scc: seq<Lit>, k: Lit, x: Lit, p: Lit, m: nat, dfs': Table)
    requires Lowered(dfs, dfs', p, m) && m <= Min(dfs, p)
    requires Bounds(v, dfs, scc, k, x)
    ensures Bounds(v, dfs', scc, k, x)
  {
  }

  // 'p' was done before: its minimum can only get smaller.
  lemma LowerCoveredDone(v: View, dfs: Table, scc: seq<Lit>, open: seq<Lit>, p: Lit, m: nat, dfs': Table)
    requires Covered(v, dfs, scc, open)
    requires Lowered(dfs, dfs', p, m) && m <= Min(dfs, p)
    ensures Covered(v, dfs', scc, open)
  {
    forall x | x in scc && x !in open ensures IsCovered(v, dfs', scc, open, x) {
      assert IsCovered(v, dfs, scc, open, x);
      var j: nat, k: Lit :| Covers(v, dfs, scc, open, x, j, k);
      BoundsLowered(v, dfs, scc, k, x, p, m, dfs');
      assert Covers(v, dfs', scc, open, x, j, k);
    }
  }

  // 'p' was the last open literal.  If it is not the entry of its component there is another
  // open literal before it, and that one takes over everything below 'p'.
  lemma HasOuterOpen(v: View, dfs: Table, scc: seq<Lit>, open: seq<Lit>, p: Lit, m: nat, y: Lit)
    requires Covered(v, dfs, scc, open) && OpenVisited(dfs, scc, open)
    requires p in open && p == open[|open|-1]
    requires y in scc && Idx(dfs, y) < Idx(dfs, p)
    ensures |open| > 1
  {
    if y !in open {
      assert IsCovered(v, dfs, scc, open, y);
      var j: nat, k: Lit :| Covers(v, dfs, scc, open, y, j, k);
      assert open[j] != p;
    }
  }

  lemma LowerCoveredInner(
    v: View, dfs: Table, scc: seq<Lit>, open: seq<Lit>, p: Lit, m: nat, dfs': Table, x: Lit, j: nat, k: Lit)
    requires OpenVisited(dfs, scc, open) && |open| > 1 && p == open[|open|-1] && v.E(open[|open|-2], p)
    requires Lowered(dfs, dfs', p, m) && NewMin(v, dfs, p, m)
    requires x in scc && x !in open && Covers(v, dfs, scc, open, x, j, k)
    ensures IsCovered(v, dfs', scc, Front(open), x)
  {
    var n := |open| - 1;
    StillOpenMembers(dfs, open, p);
    assert open[n-1] in open && open[n] in open;
    if j == n {
      BoundsThroughChild(v, dfs, scc, k, x, p, m, dfs');
      assert Covers(v, dfs', scc, Front(open), x, n - 1, p);
    } else {
      BoundsLowered(v, dfs, scc, k, x, p, m, dfs');
      assert Covers(v, dfs', scc, Front(open), x, j, k);
    }
  }

  lemma BoundsThroughChild(v: View, dfs: Table, scc: seq<Lit>, k: Lit, x: Lit, p: Lit, m: nat, dfs': Table)
    requires Lowered(dfs, dfs', p, m) && NewMin(v, dfs, p, m) && v.E(p, k)
    requires Bounds(v, dfs, scc, k, x)
    ensures Bounds(v, dfs', scc, p, x)
  {
  }

  lemma LowerCoveredOpen(v: View, dfs: Table, scc: seq<Lit>, open: seq<Lit>, p: Lit, m: nat, dfs': Table)
    requires Covered(v, dfs, scc, open) && OpenVisited(dfs, scc, open)
    requires p in open && |open| > 1 && p == open[|open|-1] && v.E(open[|open|-2], p)
    requires Lowered(dfs, dfs', p, m) && NewMin(v, dfs, p, m)
    requires forall c :: c in scc ==> Min(dfs, c) <= Idx(dfs, c)
    ensures Covered(v, dfs', scc, Front(open))
  {
    StillOpenMembers(dfs, open, p);
    forall x | x in scc && x !in Front(open) ensures IsCovered(v, dfs', scc, Front(open), x) {
      if x == p {
        assert open[|open|-2] in open;
        assert Covers(v, dfs', scc, Front(open), p, |open| - 2, p);
      } else {
        assert IsCovered(v, dfs, scc, open, x);
        var j: nat, k: Lit :| Covers(v, dfs, scc, open, x, j, k);
        LowerCoveredInner(v, dfs, scc, open, p, m, dfs', x, j, k);
      }
    }
  }

  lemma AnchoredBelow(v: View, dfs: Table, scc: seq<Lit>)
    requires AllAnchored(v, dfs, scc)
    ensures forall c :: c in scc ==> Min(dfs, c) <= Idx(dfs, c)
  {
    forall c | c in scc ensures Min(dfs, c) <= Idx(dfs, c) {
      assert Anchored(v, dfs, scc, c);
    }
  }

  // What holds when the post-fix work of 'p' starts.
  ghost predicate AtPostFix(v: View, s: Search, p: Lit, m: nat) {
    && v.Generated()
    && Inv(v, s)
    && |s.work| > 0 && p == Top(s) && p in s.scc
    && NewMin(v, s.dfs, p, m)
  }

  lemma PostFixFacts(v: View, s: Search, p: Lit, m: nat)
    requires AtPostFix(v, s, p, m)
    ensures p in v.nodes && Min(s.dfs, p) <= Idx(s.dfs, p)
    ensures forall c :: v.E(p, c) ==> Idx(s.dfs, c) != 0
    ensures forall c :: v.E(p, c) && Min(s.dfs, c) == m ==> c in s.scc
    ensures 0 < m <= Idx(s.dfs, p) < TRAVERSED
    ensures p in s.open ==> p == s.open[|s.open|-1]
    ensures m != Idx(s.dfs, p) && p in s.open ==> |s.open| > 1 && v.E(s.open[|s.open|-2], p)
  {
    assert Anchored(v, s.dfs, s.scc, p);
    ChildrenVisited(v, s, p, m);
    NewMinInScope(v, s.dfs, s.scc, s.count, p, m);
    if p in s.open {
      OpenPostFix(v, s, p, m);
    }
  }

  lemma ChildrenVisited(v: View, s: Search, p: Lit, m: nat)
    requires AtPostFix(v, s, p, m)
    ensures forall c :: v.E(p, c) ==> Idx(s.dfs, c) != 0
  {
    forall c | v.E(p, c) ensures Idx(s.dfs, c) != 0 {
      if p in s.open {
        ChildrenOfTopVisited(v, s.dfs, s.work, s.open, s.pos, c);
      } else {
        assert DoneLiteral(v, s.dfs, s.scc, p);
      }
    }
  }

  lemma OpenPostFix(v: View, s: Search, p: Lit, m: nat)
    requires AtPostFix(v, s, p, m) && p in s.open
    ensures p == s.open[|s.open|-1]
    ensures m != Idx(s.dfs, p) ==> |s.open| > 1 && v.E(s.open[|s.open|-2], p)
  {
    ChildrenVisited(v, s, p, m);
    NewMinInScope(v, s.dfs, s.scc, s.count, p, m);
    TopIsLastOpen(v, s.dfs, s.work, s.open, s.pos);
    if m != Idx(s.dfs, p) {
      var y := AnchorOfNewMin(v, s.dfs, s.scc, p, m);
      HasOuterOpen(v, s.dfs, s.scc, s.open, p, m, y);
    }
  }

  function WithMin(dfs: Table, p: Lit, m: nat): Table
    requires p in dfs
  {
    dfs[p := Dfs(dfs[p].idx, m)]
  }

  // The post-fix work of a literal that is not the entry of its component.
  lemma PostFixKeeps(v: View, s: Search, p: Lit, m: nat, s': Search)
    requires AtPostFix(v, s, p, m) && m != Idx(s.dfs, p) && p in s.dfs
    requires s' == s.(dfs := WithMin(s.dfs, p, m), work := Front(s.work), open := StillOpen(s.open, p),
                      pos := if p in s.open && |s.pos| > 0 then Front(s.pos) else s.pos)
    ensures Inv(v, s')
  {
    PostFixFacts(v, s, p, m);
    PostFixDfs(v, s, p, m, s'.dfs);
    if p in s.open {
      PopOpen(v, s.dfs, s.work, s.open, s.pos);
      ScheduledSame(v, s.dfs, s'.dfs, s'.work, s'.open, s'.pos);
    } else {
      PopNotOpen(v, s.dfs, s.work, s.open, s.pos);
      ScheduledSame(v, s.dfs, s'.dfs, s'.work, s'.open, s'.pos);
    }
  }

  lemma ScheduledSame(v: View, dfs: Table, dfs': Table, work: seq<Lit>, open: seq<Lit>, pos: seq<nat>)
    requires WorkInv(v, dfs, work, open, pos)
    requires forall l :: Idx(dfs', l) == 0 ==> Idx(dfs, l) == 0
    ensures WorkInv(v, dfs', work, open, pos)
  {
  }

  lemma PostFixDfs(v: View, s: Search, p: Lit, m: nat, dfs': Table)
    requires AtPostFix(v, s, p, m) && m != Idx(s.dfs, p) && p in s.dfs
    requires dfs' == WithMin(s.dfs, p, m)
    ensures DfsInv(v, dfs', s.scc, s.count, StillOpen(s.open, p))
  {
    PostFixFacts(v, s, p, m);
    assert Lowered(s.dfs, dfs', p, m);
    LowerTables(v, s.dfs, s.scc, s.count, p, m, dfs');
    LowerAnchored(v, s.dfs, s.scc, p, m, dfs');
    LowerFinished(v, s.dfs, p, m, dfs');
    LowerOpen(v, s.dfs, s.scc, s.open, p, m, dfs');
    AnchoredBelow(v, s.dfs, s.scc);
    LowerDone(v, s.dfs, s.scc, s.open, StillOpen(s.open, p), p, m, dfs');
    if p in s.open {
      LowerCoveredOpen(v, s.dfs, s.scc, s.open, p, m, dfs');
    } else {
      LowerCoveredDone(v, s.dfs, s.scc, s.open, p, m, dfs');
    }
  }

  // ----- Post-fix work of the entry of a component.

  // The literals visited from 'p' on are the part of the component stack that is popped.
  lemma SuffixMembers(v: View, dfs: Table, scc: seq<Lit>, p: Lit, i: nat)
    requires Ordered(v, dfs, scc) && i < |scc| && scc[i] == p
    ensures forall x :: x in scc[i..] <==> x in scc && Idx(dfs, p) <= Idx(dfs, x)
    ensures forall x :: x in scc[..i] <==> x in scc && Idx(dfs, x) < Idx(dfs, p)
  {
    assert scc == scc[..i] + scc[i..];
  }

  lemma EntryIsOpen(v: View, s: Search, p: Lit, m: nat)
    requires AtPostFix(v, s, p, m) && m == Idx(s.dfs, p)
    ensures p in s.open && p == s.open[|s.open|-1]
  {
    PostFixFacts(v, s, p, m);
    assert p in s.open || DoneLiteral(v, s.dfs, s.scc, p);
  }

  // Edges out of the popped part stay in it or end in traversed literals.
  lemma ComponentEdges(v: View, s: Search, p: Lit, m: nat, x: Lit, c: Lit)
    requires AtPostFix(v, s, p, m) && m == Idx(s.dfs, p)
    requires x in s.scc && Idx(s.dfs, p) <= Idx(s.dfs, x) && v.E(x, c)
    ensures Min(s.dfs, c) == TRAVERSED || (c in s.scc && Idx(s.dfs, p) <= Idx(s.dfs, c))
  {
    EntryIsOpen(v, s, p, m);
    PostFixFacts(v, s, p, m);
    if x in s.open {
      assert x == p;
      if c in s.scc {
        assert Anchored(v, s.dfs, s.scc, c);
      }
    } else {
      assert DoneLiteral(v, s.dfs, s.scc, x);
      if c in s.scc {
        EdgeBound(v, s.dfs, s.scc, s.open, p, m, x, c);
      }
    }
  }

  lemma EdgeBound(v: View, dfs: Table, scc: seq<Lit>, open: seq<Lit>, p: Lit, m: nat, x: Lit, c: Lit)
    requires Covered(v, dfs, scc, open) && OpenVisited(dfs, scc, open)
    requires p in open && p == open[|open|-1] && NewMin(v, dfs, p, m)
    requires x in scc && x !in open && Idx(dfs, p) <= Idx(dfs, x)
    requires v.E(x, c) && c in scc
    ensures m <= Idx(dfs, c)
  {
    assert IsCovered(v, dfs, scc, open, x);
    var j: nat, k: Lit :| Covers(v, dfs, scc, open, x, j, k);
    assert j == |open| - 1;
  }

  // Popped together with everything traversed, the component is closed.
  function Retired(dfs: Table, scc: seq<Lit>, p: Lit): set<Lit> {
    set x | x in dfs && (Min(dfs, x) == TRAVERSED || (x in scc && Idx(dfs, p) <= Idx(dfs, x)))
  }

  lemma RetiredClosed(v: View, s: Search, p: Lit, m: nat)
    requires AtPostFix(v, s, p, m) && m == Idx(s.dfs, p)
    ensures forall a, b :: a in Retired(s.dfs, s.scc, p) && v.E(a, b) ==> b in Retired(s.dfs, s.scc, p)
  {
    forall a, b | a in Retired(s.dfs, s.scc, p) && v.E(a, b) ensures b in Retired(s.dfs, s.scc, p) {
      if Min(s.dfs, a) != TRAVERSED {
        ComponentEdges(v, s, p, m, a, b);
      }
    }
  }

  lemma {:induction false} ReachesEntry(v: View, s: Search, p: Lit, m: nat, x: Lit)
    requires AtPostFix(v, s, p, m) && m == Idx(s.dfs, p)
    requires forall a, b :: a in Retired(s.dfs, s.scc, p) && v.R(a, b) ==> b in Retired(s.dfs, s.scc, p)
    requires x in s.scc && Idx(s.dfs, p) <= Idx(s.dfs, x)
    ensures v.R(x, p)
    decreases Idx(s.dfs, x)
  {
    EntryIsOpen(v, s, p, m);
    if x in s.open {
      assert x == p;
    } else {
      assert DoneLiteral(v, s.dfs, s.scc, x);
      assert Anchored(v, s.dfs, s.scc, x);
      var y :| y in s.scc && Idx(s.dfs, y) == Min(s.dfs, x) && v.R(x, y);
      assert x in Retired(s.dfs, s.scc, p);
      assert y in Retired(s.dfs, s.scc, p);
      ReachesEntry(v, s, p, m, y);
    }
  }

  // The popped part is exactly the component of its entry.
  lemma ComponentExact(v: View, s: Search, p: Lit, m: nat, x: Lit)
    requires AtPostFix(v, s, p, m) && m == Idx(s.dfs, p)
    requires forall a, b :: a in Retired(s.dfs, s.scc, p) && v.R(a, b) ==> b in Retired(s.dfs, s.scc, p)
    requires forall a, b :: Min(s.dfs, a) == TRAVERSED && v.R(a, b) ==> Min(s.dfs, b) == TRAVERSED
    ensures x in s.scc && Idx(s.dfs, p) <= Idx(s.dfs, x) <==> v.R(p, x) && v.R(x, p)
  {
    EntryIsOpen(v, s, p, m);
    PostFixFacts(v, s, p, m);
    assert p in Retired(s.dfs, s.scc, p);
    if x in s.scc && Idx(s.dfs, p) <= Idx(s.dfs, x) {
      ReachesEntry(v, s, p, m, x);
    }
  }

  // Popping the component.
  ghost predicate Popped(dfs: Table, dfs': Table, scc: seq<Lit>, i: nat) {
    && i < |scc|
    && dfs'.Keys == dfs.Keys
    && (forall l :: Idx(dfs', l) == Idx(dfs, l))
    && (forall l :: Min(dfs', l) == if l in scc[i..] then TRAVERSED else Min(dfs, l))
  }

  lemma PopTables(v: View, dfs: Table, scc: seq<Lit>, count: nat, p: Lit, i: nat, dfs': Table)
    requires Tables(v, dfs, scc, count) && Ordered(v, dfs, scc)
    requires Popped(dfs, dfs', scc, i) && scc[i] == p
    ensures Tables(v, dfs', scc[..i], count) && Ordered(v, dfs', scc[..i])
  {
    SuffixMembers(v, dfs, scc, p, i);
    assert Unvisited(dfs') == Unvisited(dfs) by {
      forall l ensures l in Unvisited(dfs') <==> l in Unvisited(dfs) {
        assert Idx(dfs', l) == Idx(dfs, l);
      }
    }
  }

  lemma PopAnchored(v: View, dfs: Table, scc: seq<Lit>, p: Lit, i: nat, dfs': Table)
    requires AllAnchored(v, dfs, scc) && Ordered(v, dfs, scc)
    requires Popped(dfs, dfs', scc, i) && scc[i] == p
    ensures AllAnchored(v, dfs', scc[..i])
  {
    SuffixMembers(v, dfs, scc, p, i);
    forall l | l in scc[..i] ensures Anchored(v, dfs', scc[..i], l) {
      assert Anchored(v, dfs, scc, l);
      var y :| y in scc && Idx(dfs, y) == Min(dfs, l) && v.R(l, y);
      assert y in scc[..i] && Idx(dfs', y) == Min(dfs', l);
    }
  }

  lemma PopFinished(v: View, s: Search, p: Lit, m: nat, i: nat, dfs': Table)
    requires AtPostFix(v, s, p, m) && m == Idx(s.dfs, p)
    requires Popped(s.dfs, dfs', s.scc, i) && s.scc[i] == p
    ensures Finished(v, dfs')
  {
    SuffixMembers(v, s.dfs, s.scc, p, i);
    RetiredClosed(v, s, p, m);
    forall a, b | v.E(a, b) && Min(dfs', a) == TRAVERSED ensures Min(dfs', b) == TRAVERSED {
      assert a in s.dfs;
      assert a in Retired(s.dfs, s.scc, p);
      assert b in Retired(s.dfs, s.scc, p);
    }
  }

  lemma PopOpenVisited(v: View, dfs: Table, scc: seq<Lit>, open: seq<Lit>, p: Lit, i: nat, dfs': Table)
    requires Ordered(v, dfs, scc) && OpenVisited(dfs, scc, open) && Tree(v, dfs, scc, open)
    requires p in open && p == open[|open|-1]
    requires Popped(dfs, dfs', scc, i) && scc[i] == p
    ensures OpenVisited(dfs', scc[..i], Front(open)) && Tree(v, dfs', scc[..i], Front(open))
  {
    SuffixMembers(v, dfs, scc, p, i);
    StillOpenMembers(dfs, open, p);
    forall o | o in Front(open) ensures Idx(dfs, o) < Idx(dfs, p) {
      var j :| 0 <= j < |open| - 1 && open[j] == o;
    }
  }

  lemma PopDone(v: View, dfs: Table, scc: seq<Lit>, open: seq<Lit>, p: Lit, i: nat, dfs': Table)
    requires Ordered(v, dfs, scc) && OpenVisited(dfs, scc, open) && Done(v, dfs, scc, open)
    requires p in open && p == open[|open|-1]
    requires Popped(dfs, dfs', scc, i) && scc[i] == p
    ensures Done(v, dfs', scc[..i], Front(open))
  {
    SuffixMembers(v, dfs, scc, p, i);
    StillOpenMembers(dfs, open, p);
    forall x | x in scc[..i] && x !in Front(open) ensures DoneLiteral(v, dfs', scc[..i], x) {
      assert DoneLiteral(v, dfs, scc, x);
    }
  }

  lemma PopCovered(v: View, dfs: Table, scc: seq<Lit>, open: seq<Lit>, p: Lit, i: nat, dfs': Table)
    requires Ordered(v, dfs, scc) && OpenVisited(dfs, scc, open) && Covered(v, dfs, scc, open)
    requires p in open && p == open[|open|-1]
    requires Popped(dfs, dfs', scc, i) && scc[i] == p
    ensures Covered(v, dfs', scc[..i], Front(open))
  {
    SuffixMembers(v, dfs, scc, p, i);
    StillOpenMembers(dfs, open, p);
    forall x | x in scc[..i] && x !in Front(open) ensures IsCovered(v, dfs', scc[..i], Front(open), x) {
      assert IsCovered(v, dfs, scc, open, x);
      var j: nat, k: Lit :| Covers(v, dfs, scc, open, x, j, k);
      assert j < |open| - 1;
      PopBounds(v, dfs, scc, k, x, i, dfs');
      assert k in scc[..i] && k !in Front(open);
      assert Covers(v, dfs', scc[..i], Front(open), x, j, k);
    }
  }

  lemma PopBounds(v: View, dfs: Table, scc: seq<Lit>, k: Lit, x: Lit, i: nat, dfs': Table)
    requires Bounds(v, dfs, scc, k, x) && Popped(dfs, dfs', scc, i) && k !in scc[i..]
    ensures Bounds(v, dfs', scc[..i], k, x)
  {
  }

  // The post-fix work of the entry of a component keeps the invariant.
  lemma ComponentKeeps(v: View, s: Search, p: Lit, m: nat, i: nat, s': Search)
    requires AtPostFix(v, s, p, m) && m == Idx(s.dfs, p)
    requires i < |s.scc| && s.scc[i] == p && |s.open| > 0 && |s.pos| > 0
    requires Popped(s.dfs, s'.dfs, s.scc, i)
    requires s' == s.(dfs := s'.dfs, work := Front(s.work), scc := s.scc[..i], open := Front(s.open), pos := Front(s.pos))
    ensures Inv(v, s')
  {
    EntryIsOpen(v, s, p, m);
    PostFixFacts(v, s, p, m);
    PopTables(v, s.dfs, s.scc, s.count, p, i, s'.dfs);
    PopAnchored(v, s.dfs, s.scc, p, i, s'.dfs);
    PopFinished(v, s, p, m, i, s'.dfs);
    PopOpenVisited(v, s.dfs, s.scc, s.open, p, i, s'.dfs);
    PopDone(v, s.dfs, s.scc, s.open, p, i, s'.dfs);
    PopCovered(v, s.dfs, s.scc, s.open, p, i, s'.dfs);
    PopOpen(v, s.dfs, s.work, s.open, s.pos);
    ScheduledSame(v, s.dfs, s'.dfs, s'.work, s'.open, s'.pos);
  }

  // ----- Pre-fix work: the first visit of 'p'.

  function Visit(dfs: Table, p: Lit, n: nat): Table {
    dfs[p := Dfs(n, n)]
  }

  ghost predicate Visited(dfs: Table, dfs': Table, p: Lit, n: nat) {
    && dfs'.Keys == dfs.Keys && p in dfs
    && Idx(dfs, p) == 0
    && (forall l :: l != p ==> Idx(dfs', l) == Idx(dfs, l) && Min(dfs', l) == Min(dfs, l))
    && Idx(dfs', p) == n && Min(dfs', p) == n
  }

  lemma VisitTables(v: View, dfs: Table, scc: seq<Lit>, count: nat, p: Lit, dfs': Table)
    requires Tables(v, dfs, scc, count) && Ordered(v, dfs, scc)
    requires Visited(dfs, dfs', p, count + 1)
    ensures Tables(v, dfs', scc + [p], count + 1) && Ordered(v, dfs', scc + [p])
    ensures |Unvisited(dfs')| < |Unvisited(dfs)|
  {
    assert Unvisited(dfs') == Unvisited(dfs) - {p} by {
      forall l ensures l in Unvisited(dfs') <==> l in Unvisited(dfs) - {p} {
        assert l != p ==> Idx(dfs', l) == Idx(dfs, l);
        assert l == p ==> Idx(dfs', l) == count + 1;
      }
    }
    assert p in Unvisited(dfs);
    assert |Unvisited(dfs')| == |Unvisited(dfs)| - 1;
    assert p !in scc;
  }

  lemma VisitAnchored(v: View, dfs: Table, scc: seq<Lit>, p: Lit, n: nat, dfs': Table)
    requires AllAnchored(v, dfs, scc) && v.Generated() && p in v.nodes && p !in scc
    requires Visited(dfs, dfs', p, n)
    ensures AllAnchored(v, dfs', scc + [p])
  {
    forall l | l in scc + [p] ensures Anchored(v, dfs', scc + [p], l) {
      if l == p {
        assert p in scc + [p] && Idx(dfs', p) == Min(dfs', p) && v.R(p, p);
      } else {
        assert Anchored(v, dfs, scc, l);
        var y :| y in scc && Idx(dfs, y) == Min(dfs, l) && v.R(l, y);
        assert y in scc + [p] && Idx(dfs', y) == Min(dfs', l);
      }
    }
  }

  lemma VisitOpen(v: View, dfs: Table, scc: seq<Lit>, count: nat, open: seq<Lit>, p: Lit, dfs': Table)
    requires Tables(v, dfs, scc, count) && Ordered(v, dfs, scc) && OpenVisited(dfs, scc, open)
    requires Visited(dfs, dfs', p, count + 1)
    ensures OpenVisited(dfs', scc + [p], open + [p])
  {
    assert forall o :: o in open ==> o in scc && o in dfs && o != p;
  }

  lemma VisitTree(v: View, dfs: Table, scc: seq<Lit>, count: nat, open: seq<Lit>, p: Lit, dfs': Table)
    requires Tables(v, dfs, scc, count) && Ordered(v, dfs, scc) && OpenVisited(dfs, scc, open)
    requires Tree(v, dfs, scc, open) && v.Generated() && p in v.nodes
    requires |open| > 0 ==> v.E(open[|open|-1], p)
    requires Visited(dfs, dfs', p, count + 1)
    ensures Tree(v, dfs', scc + [p], open + [p])
  {
    assert forall x :: x in scc ==> x in dfs && x != p;
    forall o, x | o in open + [p] && x in scc + [p] && Idx(dfs', o) <= Idx(dfs', x) ensures v.R(o, x) {
      if o != p && x == p {
        var last := open[|open|-1];
        var j :| 0 <= j < |open| && open[j] == o;
        assert last in open;
        assert Idx(dfs, o) <= Idx(dfs, last);
        assert v.R(o, last);
      }
    }
  }

  lemma VisitDone(v: View, dfs: Table, scc: seq<Lit>, open: seq<Lit>, p: Lit, n: nat, dfs': Table)
    requires Done(v, dfs, scc, open) && p !in scc
    requires Visited(dfs, dfs', p, n) && n > 0
    ensures Done(v, dfs', scc + [p], open + [p])
  {
    forall x | x in scc + [p] && x !in open + [p] ensures DoneLiteral(v, dfs', scc + [p], x) {
      assert DoneLiteral(v, dfs, scc, x);
    }
  }

  lemma VisitCovered(v: View, dfs: Table, scc: seq<Lit>, count: nat, open: seq<Lit>, p: Lit, dfs': Table)
    requires Tables(v, dfs, scc, count) && Ordered(v, dfs, scc) && OpenVisited(dfs, scc, open)
    requires Done(v, dfs, scc, open) && Covered(v, dfs, scc, open)
    requires Visited(dfs, dfs', p, count + 1)
    ensures Covered(v, dfs', scc + [p], open + [p])
  {
    forall x | x in scc + [p] && x !in open + [p] ensures IsCovered(v, dfs', scc + [p], open + [p], x) {
      assert DoneLiteral(v, dfs, scc, x);
      assert IsCovered(v, dfs, scc, open, x);
      var j: nat, k: Lit :| Covers(v, dfs, scc, open, x, j, k);
      assert x in dfs && k in dfs && k != p && open[j] in open && open[j] in dfs;
      assert j + 1 < |open| ==> open[j+1] in open && open[j+1] in dfs;
      VisitBounds(v, dfs, scc, k, x, p, count + 1, dfs');
      assert Covers(v, dfs', scc + [p], open + [p], x, j, k);
    }
  }

  lemma VisitBounds(v: View, dfs: Table, scc: seq<Lit>, k: Lit, x: Lit, p: Lit, n: nat, dfs': Table)
    requires Bounds(v, dfs, scc, k, x) && DoneLiteral(v, dfs, scc, x) && k != p && p !in scc
    requires Visited(dfs, dfs', p, n)
    ensures Bounds(v, dfs', scc + [p], k, x)
  {
  }

  lemma VisitWork(v: View, dfs: Table, work: seq<Lit>, open: seq<Lit>, pos: seq<nat>, p: Lit, pushed: seq<Lit>)
    requires OpenOnWork(work, open, pos) && WorkStack(v, work, open, pos)
    requires |work| > 0 && work[|work|-1] == p
    requires p !in open && forall l :: l in pushed ==> l !in open && l != p && v.E(p, l) && l in v.nodes
    ensures OpenOnWork(work + pushed, open + [p], pos + [|work|-1])
    ensures WorkStack(v, work + pushed, open + [p], pos + [|work|-1])
    ensures |open| > 0 ==> v.E(open[|open|-1], p)
  {
    VisitWorkOrder(work, open, pos, p, pushed);
    var work', open', pos' := work + pushed, open + [p], pos + [|work|-1];
    forall i, j | 0 <= j < |pos'| && pos'[j] < i < |work'| && (j + 1 < |pos'| ==> i <= pos'[j+1])
      ensures v.E(open'[j], work'[i])
    {
      if j < |pos| {
        assert pos'[j] == pos[j] && (j + 1 < |pos| ==> pos'[j+1] == pos[j+1]);
        assert pos[j] < i < |work| && open'[j] == open[j] && work'[i] == work[i];
      } else {
        assert work'[i] in pushed;
      }
    }
    forall i, j | 0 <= j < |pos'| && pos'[j] < i < |work'| ensures work'[i] != open'[j] {
      if i < |work| {
        assert work[i] != open[j];
      } else {
        assert work'[i] in pushed;
        assert j < |open| ==> open[j] in open;
      }
    }
    if |open| > 0 {
      assert pos'[|pos|-1] < pos'[|pos|];
      assert pos[|pos|-1] < |work| - 1;
    }
  }

  lemma VisitWorkOrder(work: seq<Lit>, open: seq<Lit>, pos: seq<nat>, p: Lit, pushed: seq<Lit>)
    requires OpenOnWork(work, open, pos)
    requires |work| > 0 && work[|work|-1] == p && p !in open
    ensures OpenOnWork(work + pushed, open + [p], pos + [|work|-1])
  {
    forall j | 0 <= j < |pos| ensures pos[j] < |work| - 1 {
      assert open[j] in open;
    }
  }

  lemma VisitScheduled(
    v: View, dfs: Table, dfs': Table, work: seq<Lit>, open: seq<Lit>, pos: seq<nat>, p: Lit, n: nat, pushed: seq<Lit>)
    requires Scheduled(v, dfs, work, open, pos) && |work| > 0
    requires Visited(dfs, dfs', p, n) && n > 0
    requires forall c :: v.E(p, c) && Idx(dfs', c) == 0 ==> c in pushed
    ensures Scheduled(v, dfs', work + pushed, open + [p], pos + [|work|-1])
  {
    var work', open', pos' := work + pushed, open + [p], pos + [|work|-1];
    forall j, c | 0 <= j < |open'| && v.E(open'[j], c) && Idx(dfs', c) == 0
      ensures Above(work', pos'[j], c)
    {
      if j == |open| {
        var i :| 0 <= i < |pushed| && pushed[i] == c;
        assert work'[|work| + i] == c;
      } else {
        assert Above(work, pos[j], c);
        var i :| pos[j] < i < |work| && work[i] == c;
        assert work'[i] == c;
      }
    }
  }

  // The first visit of the literal on top of the work stack keeps the invariant.
  lemma PreFixKeeps(v: View, s: Search, p: Lit, pushed: seq<Lit>, s': Search)
    requires v.Generated() && Inv(v, s)
    requires |s.work| > 0 && p == Top(s) && Idx(s.dfs, p) == 0 && p in v.nodes
    requires s' == s.(dfs := Visit(s.dfs, p, s.count + 1), work := s.work + pushed, scc := s.scc + [p],
                      count := s.count + 1, open := s.open + [p], pos := s.pos + [|s.work|-1])
    requires forall l :: l in pushed <==> v.E(p, l) && Idx(s'.dfs, l) == 0
    ensures Inv(v, s')
    ensures |Unvisited(s'.dfs)| < |Unvisited(s.dfs)|
  {
    assert Visited(s.dfs, s'.dfs, p, s.count + 1);
    VisitTables(v, s.dfs, s.scc, s.count, p, s'.dfs);
    VisitAnchored(v, s.dfs, s.scc, p, s.count + 1, s'.dfs);
    VisitOpen(v, s.dfs, s.scc, s.count, s.open, p, s'.dfs);
    OpenNotFresh(v, s, p);
    VisitWork(v, s.dfs, s.work, s.open, s.pos, p, pushed);
    VisitScheduled(v, s.dfs, s'.dfs, s.work, s.open, s.pos, p, s.count + 1, pushed);
    VisitTree(v, s.dfs, s.scc, s.count, s.open, p, s'.dfs);
    VisitDone(v, s.dfs, s.scc, s.open, p, s.count + 1, s'.dfs);
    VisitCovered(v, s.dfs, s.scc, s.count, s.open, p, s'.dfs);
    VisitFinished(v, s.dfs, p, s.count + 1, s'.dfs);
  }

  lemma VisitFinished(v: View, dfs: Table, p: Lit, n: nat, dfs': Table)
    requires Finished(v, dfs) && Visited(dfs, dfs', p, n) && n != TRAVERSED && Min(dfs, p) == 0
    ensures Finished(v, dfs')
  {
  }

  lemma OpenNotFresh(v: View, s: Search, p: Lit)
    requires Inv(v, s)
    ensures forall l :: l in s.open ==> Idx(s.dfs, l) != 0
  {
    forall l | l in s.open ensures Idx(s.dfs, l) != 0 {
      assert l in s.scc;
      assert l in s.dfs;
    }
  }

  // ----- When the work stack is empty everything visited is traversed.

  lemma EmptyWork(v: View, s: Search)
    requires Inv(v, s) && s.work == []
    ensures s.scc == [] && s.open == []
  {
    assert |s.scc| == 0 || IsCovered(v, s.dfs, s.scc, s.open, s.scc[0]);
  }
}
