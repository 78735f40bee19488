// Equivalent literal detection: the explicit-stack search for strongly connected components of
// the binary implication graph and the choice of representatives.
module Decompose {
  import opened Cnf
  import opened BinaryGraph
  import opened Tarjan

  ghost function ViewOf(g: Graph): View {
    View(g.active,
         iset p: (Lit, Lit) | g.Edge(p.0, p.1),
         iset p: (Lit, Lit) | Reach(g, p.0, p.1))
  }

  lemma ViewGenerated(g: Graph)
    ensures ViewOf(g).Generated()
  {
    var v := ViewOf(g);
    forall a, b | v.E(a, b) ensures a in v.nodes && b in v.nodes && v.R(a, b) {
      ReachEdge(g, a, b);
    }
    forall a | a in v.nodes ensures v.R(a, a) {
      ReachRefl(g, a);
    }
    forall a, b, c | v.R(a, b) && v.R(b, c) ensures v.R(a, c) {
      ReachTrans(g, a, b, c);
    }
  }

  lemma ClosedUnderReach(g: Graph, s: set<Lit>)
    requires forall a, b :: a in s && ViewOf(g).E(a, b) ==> b in s
    ensures forall a, b :: a in s && ViewOf(g).R(a, b) ==> b in s
  {
    assert Closed(g, s) by {
      forall a: Lit, b: Lit | a in s && g.Edge(a, b) ensures b in s {
        assert ViewOf(g).E(a, b);
      }
    }
    forall a, b | a in s && ViewOf(g).R(a, b) ensures b in s {
      ReachStaysInClosed(g, s, a, b);
    }
  }

  // The popped part of the component stack is exactly the component of its entry 'p'.
  lemma PoppedIsComponent(g: Graph, s: Search, p: Lit, m: nat, i: nat, x: Lit)
    requires AtPostFix(ViewOf(g), s, p, m) && m == Idx(s.dfs, p)
    requires i < |s.scc| && s.scc[i] == p
    ensures x in s.scc[i..] <==> Mutual(g, p, x)
  {
    var v := ViewOf(g);
    SuffixMembers(v, s.dfs, s.scc, p, i);
    RetiredClosed(v, s, p, m);
    ClosedUnderReach(g, Retired(s.dfs, s.scc, p));
    var t := set a | a in s.dfs && Min(s.dfs, a) == TRAVERSED;
    ClosedUnderReach(g, t);
    ComponentExact(v, s, p, m, x);
    assert v.R(p, x) == Reach(g, p, x) && v.R(x, p) == Reach(g, x, p);
  }

  // Without a clash every member of the component is represented by its smallest member.
  lemma ComponentRepresented(g: Graph, frozen: set<nat>, comp: seq<Lit>, p: Lit, repr: Lit, l: Lit)
    requires g.WellFormed()
    requires forall x :: x in comp <==> Mutual(g, p, x)
    requires -p !in comp && repr in comp && forall x :: x in comp ==> Var(repr) <= Var(x)
    requires l in comp
    ensures Represented(g, frozen, l, if Var(l) in frozen then l else repr)
  {
    if Mutual(g, l, -l) {
      ClashSpreads(g, p, l);
    }
    MutualTrans(g, l, p, repr);
    forall k | Mutual(g, l, k) ensures Var(repr) <= Var(k) {
      MutualTrans(g, p, l, k);
    }
  }

  // The literals that have another representative.
  function Changed(reprs: map<Lit, Lit>, ls: set<Lit>): set<Lit> {
    set l | l in ls && l in reprs && reprs[l] != l
  }

  ghost function Traversed(g: Graph, dfs: Table): set<Lit> {
    set l | l in g.active && Min(dfs, l) == TRAVERSED
  }

  lemma ChangedMore(reprs: map<Lit, Lit>, reprs': map<Lit, Lit>, ls: set<Lit>, more: set<Lit>)
    requires ls !! more && reprs'.Keys == reprs.Keys && forall l :: l in ls && l in reprs ==> reprs'[l] == reprs[l]
    ensures |Changed(reprs', ls + more)| == |Changed(reprs, ls)| + |Changed(reprs', more)|
  {
    assert Changed(reprs', ls + more) == Changed(reprs, ls) + Changed(reprs', more);
    assert Changed(reprs, ls) !! Changed(reprs', more);
  }

  lemma SameTraversed(g: Graph, dfs: Table, dfs': Table)
    requires forall l :: Min(dfs', l) == TRAVERSED <==> Min(dfs, l) == TRAVERSED
    ensures Traversed(g, dfs') == Traversed(g, dfs)
  {
  }

  ghost predicate RepresentsTraversed(
    g: Graph, frozen: set<nat>, dfs: Table, reprs: map<Lit, Lit>, substituted: nat)
  {
    && reprs.Keys == g.active
    && (forall l {:trigger Represented(g, frozen, l, reprs[l])} ::
          l in g.active && Min(dfs, l) == TRAVERSED ==> Represented(g, frozen, l, reprs[l]))
    && substituted == |Changed(reprs, Traversed(g, dfs))|
  }

  ghost predicate Setting(g: Graph) {
    g.WellFormed() && |g.active| < TRAVERSED
  }

  ghost predicate Searching(g: Graph, frozen: set<nat>, s: Search, reprs: map<Lit, Lit>, substituted: nat) {
    Inv(ViewOf(g), s) && RepresentsTraversed(g, frozen, s.dfs, reprs, substituted)
  }

  // The invariant, looked into only where 'Look' is mentioned: the methods below hand it from
  // one lemma to the next without using what it says.
  ghost predicate Kept(g: Graph, frozen: set<nat>, s: Search, reprs: map<Lit, Lit>, substituted: nat) {
    forall u {:trigger Look(u)} :: Look(u) ==> Searching(g, frozen, s, reprs, substituted)
  }

  // Some literal and its negation imply each other.
  ghost predicate Clash(g: Graph) {
    exists l :: l in g.active && Mutual(g, l, -l)
  }

  lemma PreFixStep(g: Graph, frozen: set<nat>, s: Search, reprs: map<Lit, Lit>, substituted: nat,
                   p: Lit, pushed: seq<Lit>, s': Search)
    requires Kept(g, frozen, s, reprs, substituted)
    requires |s.work| > 0 && p == Top(s) && p in g.active && Idx(s.dfs, p) == 0
    requires s' == s.(dfs := Visit(s.dfs, p, s.count + 1), work := s.work + pushed, scc := s.scc + [p],
                      count := s.count + 1, open := s.open + [p], pos := s.pos + [|s.work|-1])
    requires forall l :: l in pushed <==> ViewOf(g).E(p, l) && Idx(s'.dfs, l) == 0
    ensures Kept(g, frozen, s', reprs, substituted)
    ensures |Unvisited(s'.dfs)| < |Unvisited(s.dfs)|
  {
    assert Look(0);
    ViewGenerated(g);
    PreFixKeeps(ViewOf(g), s, p, pushed, s');
    assert forall l :: Min(s'.dfs, l) == TRAVERSED <==> Min(s.dfs, l) == TRAVERSED;
    SameTraversed(g, s.dfs, s'.dfs);
  }

  lemma PostFixStep(g: Graph, frozen: set<nat>, s: Search, reprs: map<Lit, Lit>, substituted: nat,
                    p: Lit, m: nat, s': Search)
    requires Kept(g, frozen, s, reprs, substituted)
    requires |s.work| > 0 && p == Top(s) && p in s.scc && p in s.dfs
    requires NewMin(ViewOf(g), s.dfs, p, m) && m != Idx(s.dfs, p)
    requires s' == s.(dfs := WithMin(s.dfs, p, m), work := Front(s.work), open := StillOpen(s.open, p),
                      pos := if p in s.open && |s.pos| > 0 then Front(s.pos) else s.pos)
    ensures Kept(g, frozen, s', reprs, substituted)
  {
    assert Look(0);
    ViewGenerated(g);
    PostFixKeeps(ViewOf(g), s, p, m, s');
    PostFixFacts(ViewOf(g), s, p, m);
    assert forall l :: Min(s'.dfs, l) == TRAVERSED <==> Min(s.dfs, l) == TRAVERSED;
    SameTraversed(g, s.dfs, s'.dfs);
  }

  lemma SkipStep(g: Graph, frozen: set<nat>, s: Search, reprs: map<Lit, Lit>, substituted: nat, p: Lit, s': Search)
    requires Kept(g, frozen, s, reprs, substituted)
    requires |s.work| > 0 && p == Top(s) && Min(s.dfs, p) == TRAVERSED
    requires s' == s.(work := Front(s.work))
    ensures Kept(g, frozen, s', reprs, substituted)
  {
    assert Look(0);
    assert p in s.dfs;
    assert p !in s.open;
    PopNotOpen(ViewOf(g), s.dfs, s.work, s.open, s.pos);
  }

  // What the two loops over the component of the entry 'p' do to the tables.
  ghost predicate ComponentDone(g: Graph, frozen: set<nat>, s: Search, reprs: map<Lit, Lit>, substituted: nat,
                                i: nat, repr: Lit, s': Search, reprs': map<Lit, Lit>, substituted': nat)
  {
    && i < |s.scc| && |s.open| > 0 && |s.pos| > 0 && |s.work| > 0
    && Popped(s.dfs, s'.dfs, s.scc, i)
    && s' == s.(dfs := s'.dfs, work := Front(s.work), scc := s.scc[..i], open := Front(s.open), pos := Front(s.pos))
    && reprs'.Keys == reprs.Keys
    && (forall l :: l in reprs && l in s.scc[i..] ==> reprs'[l] == if Var(l) in frozen then l else repr)
    && (forall l :: l in reprs && l !in s.scc[i..] ==> reprs'[l] == reprs[l])
    && substituted' == substituted + |Changed(reprs', LitsOf(s.scc[i..]))|
  }

  lemma EntryStep(g: Graph, frozen: set<nat>, s: Search, reprs: map<Lit, Lit>, substituted: nat,
                  p: Lit, m: nat, i: nat)
    requires Setting(g) && Kept(g, frozen, s, reprs, substituted)
    requires |s.work| > 0 && p == Top(s) && p in s.scc
    requires NewMin(ViewOf(g), s.dfs, p, m) && m == Idx(s.dfs, p)
    requires i < |s.scc| && s.scc[i] == p
    ensures |s.open| > 0 && |s.pos| > 0
    ensures forall x :: x in s.scc[i..] <==> Mutual(g, p, x)
  {
    assert Look(0);
    ViewGenerated(g);
    EntryIsOpen(ViewOf(g), s, p, m);
    forall x ensures x in s.scc[i..] <==> Mutual(g, p, x) {
      PoppedIsComponent(g, s, p, m, i, x);
    }
  }

  lemma ComponentStep(g: Graph, frozen: set<nat>, s: Search, reprs: map<Lit, Lit>, substituted: nat,
                      p: Lit, m: nat, i: nat, repr: Lit, s': Search, reprs': map<Lit, Lit>, substituted': nat)
    requires Setting(g) && Kept(g, frozen, s, reprs, substituted)
    requires |s.work| > 0 && p == Top(s) && p in s.scc
    requires NewMin(ViewOf(g), s.dfs, p, m) && m == Idx(s.dfs, p)
    requires i < |s.scc| && s.scc[i] == p
    requires forall x :: x in s.scc[i..] <==> Mutual(g, p, x)
    requires -p !in s.scc[i..] && repr in s.scc[i..] && forall x :: x in s.scc[i..] ==> Var(repr) <= Var(x)
    requires ComponentDone(g, frozen, s, reprs, substituted, i, repr, s', reprs', substituted')
    ensures Kept(g, frozen, s', reprs', substituted')
  {
    assert Look(0);
    ViewGenerated(g);
    ComponentKeeps(ViewOf(g), s, p, m, i, s');
    forall l | l in s.scc[i..] ensures l in g.active && Min(s.dfs, l) != TRAVERSED {
      assert l in s.scc;
    }
    ComponentReprs(g, frozen, s, reprs, substituted, p, i, repr, s', reprs', substituted');
  }

  lemma ComponentReprs(g: Graph, frozen: set<nat>, s: Search, reprs: map<Lit, Lit>, substituted: nat,
                       p: Lit, i: nat, repr: Lit, s': Search, reprs': map<Lit, Lit>, substituted': nat)
    requires g.WellFormed() && RepresentsTraversed(g, frozen, s.dfs, reprs, substituted)
    requires i < |s.scc| && s.scc[i] == p
    requires forall x :: x in s.scc[i..] <==> Mutual(g, p, x)
    requires -p !in s.scc[i..] && repr in s.scc[i..] && forall x :: x in s.scc[i..] ==> Var(repr) <= Var(x)
    requires ComponentDone(g, frozen, s, reprs, substituted, i, repr, s', reprs', substituted')
    requires forall l :: l in s.scc[i..] ==> l in g.active && Min(s.dfs, l) != TRAVERSED
    ensures RepresentsTraversed(g, frozen, s'.dfs, reprs', substituted')
  {
    forall l | l in g.active && Min(s'.dfs, l) == TRAVERSED ensures Represented(g, frozen, l, reprs'[l]) {
      if l in s.scc[i..] {
        ComponentRepresented(g, frozen, s.scc[i..], p, repr, l);
      } else {
        assert Represented(g, frozen, l, reprs[l]);
      }
    }
    var comp := LitsOf(s.scc[i..]);
    TraversedMore(g, s.dfs, s'.dfs, s.scc, i);
    assert forall l :: l in comp <==> l in s.scc[i..];
    ChangedMore(reprs, reprs', Traversed(g, s.dfs), comp);
  }

  lemma TraversedMore(g: Graph, dfs: Table, dfs': Table, scc: seq<Lit>, i: nat)
    requires Popped(dfs, dfs', scc, i) && forall l :: l in scc[i..] ==> l in g.active && Min(dfs, l) != TRAVERSED
    ensures Traversed(g, dfs') == Traversed(g, dfs) + LitsOf(scc[i..]) && Traversed(g, dfs) !! LitsOf(scc[i..])
  {
    forall l ensures l in Traversed(g, dfs') <==> l in Traversed(g, dfs) || l in LitsOf(scc[i..]) {
      assert l in LitsOf(scc[i..]) <==> l in scc[i..];
    }
  }

  lemma SearchEnds(g: Graph, frozen: set<nat>, s: Search, reprs: map<Lit, Lit>, substituted: nat)
    requires Kept(g, frozen, s, reprs, substituted) && s.work == []
    ensures s.scc == [] && s.open == [] && s.pos == []
    ensures forall l :: l in g.active && Idx(s.dfs, l) != 0 ==> Min(s.dfs, l) == TRAVERSED
  {
    assert Look(0);
    EmptyWork(ViewOf(g), s);
  }

  lemma StartStep(g: Graph, frozen: set<nat>, s: Search, reprs: map<Lit, Lit>, substituted: nat, root: Lit, s': Search)
    requires Kept(g, frozen, s, reprs, substituted) && s.work == [] && root in g.active
    requires s' == s.(work := [root])
    ensures Kept(g, frozen, s', reprs, substituted)
  {
    assert Look(0);
    EmptyWork(ViewOf(g), s);
  }

  lemma SearchBasics(g: Graph, frozen: set<nat>, s: Search, reprs: map<Lit, Lit>, substituted: nat)
    requires Kept(g, frozen, s, reprs, substituted)
    ensures s.dfs.Keys == g.active && reprs.Keys == g.active
    ensures forall l :: l in s.work ==> l in g.active
    ensures forall l :: l in s.scc ==> l in g.active
    ensures forall j, k :: 0 <= j < k < |s.scc| ==> s.scc[j] != s.scc[k]
    ensures forall l :: l in g.active ==> (l in s.scc <==> Idx(s.dfs, l) != 0 && Min(s.dfs, l) != TRAVERSED)
    ensures forall l :: l in g.active && Min(s.dfs, l) == TRAVERSED ==> Idx(s.dfs, l) != 0
  {
    assert Look(0);
    forall j, k | 0 <= j < k < |s.scc| ensures s.scc[j] != s.scc[k] {
      assert Idx(s.dfs, s.scc[j]) < Idx(s.dfs, s.scc[k]);
    }
  }

  lemma SameUnvisited(dfs: Table, dfs': Table)
    requires dfs'.Keys == dfs.Keys && forall l :: Idx(dfs', l) == Idx(dfs, l)
    ensures Unvisited(dfs') == Unvisited(dfs)
  {
    forall l ensures l in Unvisited(dfs') <==> l in Unvisited(dfs) {
      assert Idx(dfs', l) == Idx(dfs, l);
    }
  }

  lemma AllTraversed(g: Graph, frozen: set<nat>, dfs: Table, reprs: map<Lit, Lit>, substituted: nat, s: Search)
    requires Kept(g, frozen, s, reprs, substituted) && dfs == s.dfs
    requires forall l :: l in g.active ==> Min(dfs, l) == TRAVERSED
    ensures AllRepresented(g, frozen, reprs) && !Clash(g)
    ensures substituted == |Changed(reprs, g.active)|
  {
    assert Look(0);
    assert Traversed(g, dfs) == g.active;
    forall l | l in g.active ensures !Mutual(g, l, -l) {
      assert Represented(g, frozen, l, reprs[l]);
    }
  }

  // The effect of popping the literals in 'gone'.
  ghost predicate Retirement(
    frozen: set<nat>, dfs: Table, reprs: map<Lit, Lit>, substituted: nat, repr: Lit, gone: set<Lit>,
    dfs': Table, reprs': map<Lit, Lit>, substituted': nat)
  {
    && gone <= dfs.Keys && gone <= reprs.Keys
    && dfs' == (map l | l in dfs :: if l in gone then Dfs(dfs[l].idx, TRAVERSED) else dfs[l])
    && reprs' == (map l | l in reprs :: if l !in gone then reprs[l] else if Var(l) in frozen then l else repr)
    && substituted' == substituted + |Changed(reprs', gone)|
  }

  lemma RetireOne(
    frozen: set<nat>, dfs: Table, reprs: map<Lit, Lit>, substituted: nat, repr: Lit, gone: set<Lit>,
    dfs': Table, reprs': map<Lit, Lit>, substituted': nat, l: Lit)
    requires Retirement(frozen, dfs, reprs, substituted, repr, gone, dfs', reprs', substituted')
    requires l in dfs && l in reprs
    requires l !in gone
    ensures l in dfs' && l in reprs'
    ensures var reprs'' := reprs'[l := if Var(l) in frozen then l else repr];
            Retirement(frozen, dfs, reprs, substituted, repr, gone + {l},
                       dfs'[l := Dfs(dfs'[l].idx, TRAVERSED)], reprs'',
                       substituted' + if reprs''[l] != l then 1 else 0)
  {
    var reprs'' := reprs'[l := if Var(l) in frozen then l else repr];
    ChangedMore(reprs', reprs'', gone, {l});
    assert Changed(reprs'', {l}) == if reprs''[l] != l then {l} else {};
  }

  lemma RetiredComponent(
    g: Graph, frozen: set<nat>, s: Search, reprs: map<Lit, Lit>, substituted: nat, i: nat, repr: Lit,
    dfs': Table, reprs': map<Lit, Lit>, substituted': nat, s': Search)
    requires i < |s.scc| && |s.open| > 0 && |s.pos| > 0 && |s.work| > 0
    requires Retirement(frozen, s.dfs, reprs, substituted, repr, LitsOf(s.scc[i..]), dfs', reprs', substituted')
    requires s' == s.(dfs := dfs', work := Front(s.work), scc := s.scc[..i], open := Front(s.open), pos := Front(s.pos))
    ensures ComponentDone(g, frozen, s, reprs, substituted, i, repr, s', reprs', substituted')
  {
    assert forall l :: l in s.scc[i..] <==> l in LitsOf(s.scc[i..]);
  }

  class Decomposer {
    const graph: Graph
    const maxVar: nat
    const frozen: set<nat>

    var dfs: Table
    var reprs: map<Lit, Lit>
    var work: seq<Lit>      // depth first search working stack
    var scc: seq<Lit>       // collects members of one component
    var dfsIdx: nat
    var substituted: nat
    var unsat: bool

    ghost var open: seq<Lit>
    ghost var pos: seq<nat>

    ghost function Snap(): Search
      reads this
    {
      Search(dfs, work, scc, dfsIdx, open, pos)
    }

    ghost predicate Valid()
      reads this
    {
      Setting(graph) && Kept(graph, frozen, Snap(), reprs, substituted)
    }

    constructor (g: Graph, maxVar: nat, frozen: set<nat>)
      requires Setting(g)
      ensures graph == g && this.maxVar == maxVar && this.frozen == frozen
      ensures Valid() && work == [] && !unsat
    {
      graph, this.maxVar, this.frozen := g, maxVar, frozen;
      dfs := map l | l in g.active :: Dfs(0, 0);
      reprs := map l | l in g.active :: 0;
      work, scc, dfsIdx, substituted, unsat := [], [], 0, 0, false;
      open, pos := [], [];
      new;
      assert Unvisited(dfs) == g.active && Traversed(g, dfs) == {} && Changed(reprs, {}) == {};
    }

    lemma ChildrenOf(parent: Lit)
      requires Setting(graph) && parent in graph.active
      ensures -parent in graph.watches
      ensures forall c :: ViewOf(graph).E(parent, c) <==>
                c in graph.active && exists w :: w in graph.watches[-parent] && w.Binary() && w.blit == c
    {
    }

    // The minimum reachable search index over the children of 'parent'.
    method MinimumOfChildren(parent: Lit) returns (newMin: nat)
      requires Setting(graph) && dfs.Keys == graph.active && parent in graph.active
      ensures NewMin(ViewOf(graph), dfs, parent, newMin)
    {
      ChildrenOf(parent);
      var ws := graph.watches[-parent];
      newMin := dfs[parent].min;
      for i := 0 to |ws|
        invariant newMin <= Min(dfs, parent)
        invariant forall k :: 0 <= k < i && ws[k].Binary() && ws[k].blit in graph.active ==> newMin <= Min(dfs, ws[k].blit)
        invariant newMin == Min(dfs, parent) ||
                  exists c :: ViewOf(graph).E(parent, c) && newMin == Min(dfs, c)
      {
        if !ws[i].Binary() { continue; }
        var child := ws[i].blit;
        if child !in graph.active { continue; }
        if newMin > dfs[child].min {
          newMin := dfs[child].min;
          assert ViewOf(graph).E(parent, child);
        }
      }
    }

    // Push all children of 'parent' that were not visited yet.
    method PushChildren(parent: Lit) returns (ghost pushed: seq<Lit>)
      requires Setting(graph) && dfs.Keys == graph.active && parent in graph.active
      modifies `work
      ensures work == old(work) + pushed
      ensures forall l :: l in pushed <==> ViewOf(graph).E(parent, l) && Idx(dfs, l) == 0
    {
      ChildrenOf(parent);
      var ws := graph.watches[-parent];
      pushed := [];
      for i := 0 to |ws|
        invariant work == old(work) + pushed
        invariant forall l :: l in pushed ==> ViewOf(graph).E(parent, l) && Idx(dfs, l) == 0
        invariant forall k :: 0 <= k < i && ws[k].Binary() && ws[k].blit in graph.active && Idx(dfs, ws[k].blit) == 0 ==>
                    ws[k].blit in pushed
      {
        if !ws[i].Binary() { continue; }
        var child := ws[i].blit;
        if child !in graph.active { continue; }
        if dfs[child].idx != 0 { continue; }
        work := work + [child];
        pushed := pushed + [child];
      }
    }

    // The first visit of 'parent'.
    method PreFix(parent: Lit)
      requires Valid() && |work| > 0 && parent == work[|work|-1]
      requires parent in graph.active && parent in dfs && dfs[parent].idx == 0
      modifies `dfs, `dfsIdx, `work, `scc, `open, `pos
      ensures Valid()
      ensures |Unvisited(dfs)| < |Unvisited(old(dfs))|
      ensures old(work) <= work && Idx(dfs, parent) != 0
      ensures forall l :: Idx(old(dfs), l) != 0 ==> Idx(dfs, l) != 0
    {
      ghost var s := Snap();
      SearchBasics(graph, frozen, s, reprs, substituted);
      dfsIdx := dfsIdx + 1;
      dfs := dfs[parent := Dfs(dfsIdx, dfsIdx)];
      scc := scc + [parent];
      open, pos := open + [parent], pos + [|work|-1];
      ghost var pushed := PushChildren(parent);
      PreFixStep(graph, frozen, s, reprs, substituted, parent, pushed, Snap());
    }

    // Go over the component of 'parent' from the top of the stack: look for the negation of
    // 'parent' and for the literal with the smallest variable.
    method ScanComponent(parent: Lit, ghost i: nat) returns (clash: bool, repr: Lit)
      requires i < |scc| && scc[i] == parent
      requires forall j, k :: 0 <= j < k < |scc| ==> scc[j] != scc[k]
      ensures clash <==> -parent in scc[i..]
      ensures !clash ==> repr in scc[i..] && forall x :: x in scc[i..] ==> Var(repr) <= Var(x)
    {
      var j := |scc|;
      repr := parent;
      clash := false;
      while true
        invariant i < j <= |scc|
        invariant forall k :: j <= k < |scc| ==> scc[k] != -parent && Var(repr) <= Var(scc[k])
        invariant !clash && (repr == parent || repr in scc[j..])
        decreases j
      {
        j := j - 1;
        var other := scc[j];
        if other == -parent {
          clash := true;
          break;
        }
        if Var(other) < Var(repr) {
          repr := other;
        }
        if other == parent { break; }
      }
    }

    // Pop the top of the component stack and record its representative.
    method PopLiteral(repr: Lit) returns (other: Lit)
      requires |scc| > 0 && scc[|scc|-1] in dfs && scc[|scc|-1] in reprs
      modifies `scc, `dfs, `reprs, `substituted
      ensures other == old(scc)[|old(scc)|-1] && scc == old(scc)[..|old(scc)|-1]
      ensures dfs == old(dfs)[other := Dfs(old(dfs)[other].idx, TRAVERSED)]
      ensures reprs == old(reprs)[other := if Var(other) in frozen then other else repr]
      ensures substituted == old(substituted) + if reprs[other] != other then 1 else 0
    {
      other := scc[|scc|-1];
      scc := scc[..|scc|-1];
      dfs := dfs[other := Dfs(dfs[other].idx, TRAVERSED)];
      if Var(other) in frozen {
        reprs := reprs[other := other];
        return;
      }
      reprs := reprs[other := repr];
      if other == repr { return; }
      substituted := substituted + 1;
    }

    // Pop the component of 'parent'.
    method PopComponent(parent: Lit, repr: Lit, ghost i: nat) returns (ghost gone: set<Lit>)
      requires i < |scc| && scc[i] == parent
      requires forall j, k :: 0 <= j < k < |scc| ==> scc[j] != scc[k]
      requires forall l :: l in scc ==> l in dfs && l in reprs
      modifies `scc, `dfs, `reprs, `substituted
      ensures scc == old(scc)[..i] && gone == LitsOf(old(scc)[i..])
      ensures Retirement(frozen, old(dfs), old(reprs), old(substituted), repr, gone, dfs, reprs, substituted)
    {
      ghost var n := |scc|;
      gone := {};
      while true
        invariant i < n <= |old(scc)| && scc == old(scc)[..n] && gone == LitsOf(old(scc)[n..])
        invariant Retirement(frozen, old(dfs), old(reprs), old(substituted), repr, gone, dfs, reprs, substituted)
        decreases n
      {
        assert forall k :: n <= k < |old(scc)| ==> old(scc)[k] != old(scc)[n-1];
        RetireOne(frozen, old(dfs), old(reprs), old(substituted), repr, gone, dfs, reprs, substituted, scc[n-1]);
        assert old(scc)[n-1..] == [scc[n-1]] + old(scc)[n..];
        assert scc[n-1] in old(scc);
        var other := PopLiteral(repr);
        n := n - 1;
        gone := gone + {other};
        if other == parent { break; }
      }
    }

    // All nodes reachable from the children of 'parent' have been visited.
    method PostFix(parent: Lit)
      requires !unsat && Valid() && |work| > 0 && parent == work[|work|-1]
      requires Idx(dfs, parent) != 0 && Min(dfs, parent) != TRAVERSED
      modifies `dfs, `reprs, `work, `scc, `substituted, `unsat, `open, `pos
      ensures work == old(work)[..|old(work)|-1]
      ensures dfs.Keys == old(dfs).Keys && forall l :: Idx(dfs, l) == Idx(old(dfs), l)
      ensures if unsat then Mutual(graph, parent, -parent) else Valid()
    {
      ghost var s := Snap();
      SearchBasics(graph, frozen, s, reprs, substituted);
      var newMin := MinimumOfChildren(parent);
      work := work[..|work|-1];
      if dfs[parent].idx == newMin {
        PostFixEntry(parent, s);
      } else {
        PostFixInner(parent, newMin, s);
      }
    }

    // 'parent' is not the entry of its component: keep it on the component stack.
    method PostFixInner(parent: Lit, newMin: nat, ghost s: Search)
      requires Kept(graph, frozen, s, reprs, substituted)
      requires |s.work| > 0 && parent == Top(s) && Snap() == s.(work := Front(s.work))
      requires parent in s.scc && parent in dfs && NewMin(ViewOf(graph), dfs, parent, newMin) && newMin != Idx(dfs, parent)
      modifies `dfs, `open, `pos
      ensures dfs.Keys == old(dfs).Keys && forall l :: Idx(dfs, l) == Idx(old(dfs), l)
      ensures Kept(graph, frozen, Snap(), reprs, substituted)
    {
      dfs := dfs[parent := Dfs(dfs[parent].idx, newMin)];
      if parent in open && |pos| > 0 {
        pos := Front(pos);
      }
      open := StillOpen(open, parent);
      PostFixStep(graph, frozen, s, reprs, substituted, parent, newMin, Snap());
    }

    // 'parent' is the entry of its component.
    method PostFixEntry(parent: Lit, ghost s: Search)
      requires !unsat && Setting(graph) && Kept(graph, frozen, s, reprs, substituted)
      requires |s.work| > 0 && parent == Top(s) && Snap() == s.(work := Front(s.work))
      requires parent in s.scc && NewMin(ViewOf(graph), dfs, parent, Idx(dfs, parent))
      modifies `dfs, `reprs, `scc, `substituted, `unsat, `open, `pos
      ensures dfs.Keys == old(dfs).Keys && forall l :: Idx(dfs, l) == Idx(old(dfs), l)
      ensures if unsat then Mutual(graph, parent, -parent) else Valid()
    {
      SearchBasics(graph, frozen, s, reprs, substituted);
      ghost var i: nat :| i < |scc| && scc[i] == parent;
      EntryStep(graph, frozen, s, reprs, substituted, parent, Idx(dfs, parent), i);
      var clash, repr := ScanComponent(parent, i);
      if clash {
        unsat := true;
      } else {
        CloseComponent(parent, repr, s, i);
      }
    }

    // The component of 'parent' has no clash: pop it.
    method CloseComponent(parent: Lit, repr: Lit, ghost s: Search, ghost i: nat)
      requires Setting(graph) && Kept(graph, frozen, s, reprs, substituted)
      requires |s.work| > 0 && parent == Top(s) && Snap() == s.(work := Front(s.work))
      requires parent in s.scc && NewMin(ViewOf(graph), dfs, parent, Idx(dfs, parent))
      requires i < |s.scc| && s.scc[i] == parent
      requires forall x :: x in s.scc[i..] <==> Mutual(graph, parent, x)
      requires -parent !in s.scc[i..] && repr in s.scc[i..] && forall x :: x in s.scc[i..] ==> Var(repr) <= Var(x)
      modifies `dfs, `reprs, `scc, `substituted, `open, `pos
      ensures dfs.Keys == old(dfs).Keys && forall l :: Idx(dfs, l) == Idx(old(dfs), l)
      ensures Kept(graph, frozen, Snap(), reprs, substituted)
    {
      ghost var reprs0, substituted0 := reprs, substituted;
      SearchBasics(graph, frozen, s, reprs, substituted);
      EntryStep(graph, frozen, s, reprs, substituted, parent, Idx(dfs, parent), i);
      ghost var gone := PopComponent(parent, repr, i);
      open, pos := Front(open), Front(pos);
      RetiredComponent(graph, frozen, s, reprs0, substituted0, i, repr, dfs, reprs, substituted, Snap());
      ComponentStep(graph, frozen, s, reprs0, substituted0, parent, Idx(s.dfs, parent), i, repr, Snap(), reprs, substituted);
    }

    // One depth first search.
    method SearchFrom(root: Lit)
      requires !unsat && Valid() && work == [] && root in graph.active
      modifies this
      ensures if unsat then Clash(graph) else Valid() && work == [] && Min(dfs, root) == TRAVERSED
      ensures !unsat ==> forall l :: l in graph.active && Min(old(dfs), l) == TRAVERSED ==> Min(dfs, l) == TRAVERSED
    {
      StartStep(graph, frozen, Snap(), reprs, substituted, root, Snap().(work := [root]));
      SearchBasics(graph, frozen, Snap(), reprs, substituted);
      work := [root];
      while !unsat && work != []
        invariant if unsat then Clash(graph) else Valid()
        invariant root in work || Idx(dfs, root) != 0
        invariant forall l :: Idx(old(dfs), l) != 0 ==> Idx(dfs, l) != 0
        decreases |Unvisited(dfs)|, |work|
      {
        label L:
        SearchBasics(graph, frozen, Snap(), reprs, substituted);
        var parent := work[|work|-1];
        assert parent in work && work == work[..|work|-1] + [parent];
        if dfs[parent].min == TRAVERSED {
          SkipStep(graph, frozen, Snap(), reprs, substituted, parent, Snap().(work := Front(work)));
          work := work[..|work|-1];
        } else if dfs[parent].idx != 0 {
          PostFix(parent);
          SameUnvisited(old@L(dfs), dfs);
        } else {
          PreFix(parent);
        }
      }
      if !unsat {
        SearchEnds(graph, frozen, Snap(), reprs, substituted);
      }
    }

    // One round of equivalent literal detection over all active variables.
    method DetectComponents()
      requires !unsat && Valid() && work == []
      requires forall l :: l in graph.active ==> 1 <= Var(l) <= maxVar
      modifies this
      ensures unsat <==> Clash(graph)
      ensures !unsat ==> AllRepresented(graph, frozen, reprs)
      ensures !unsat ==> substituted == |Changed(reprs, graph.active)|
    {
      for rootIdx := 1 to maxVar + 1
        invariant if unsat then Clash(graph) else Valid() && work == []
        invariant !unsat ==> forall l :: l in graph.active && Var(l) < rootIdx ==> Min(dfs, l) == TRAVERSED
      {
        if unsat { break; }
        if rootIdx !in graph.active { continue; }
        SearchVariable(rootIdx);
      }
      if !unsat {
        AllTraversed(graph, frozen, dfs, reprs, substituted, Snap());
      }
    }

    // The negative literal is searched before the positive one.
    method SearchVariable(rootIdx: Lit)
      requires !unsat && Valid() && work == [] && rootIdx in graph.active
      modifies this
      ensures if unsat then Clash(graph) else Valid() && work == []
      ensures !unsat ==> Min(dfs, rootIdx) == TRAVERSED && Min(dfs, -rootIdx) == TRAVERSED
      ensures !unsat ==> forall l :: l in graph.active && Min(old(dfs), l) == TRAVERSED ==> Min(dfs, l) == TRAVERSED
    {
      assert -rootIdx in graph.active;
      SearchBasics(graph, frozen, Snap(), reprs, substituted);
      if dfs[-rootIdx].min != TRAVERSED {
        SearchFrom(-rootIdx);
      }
      if !unsat {
        SearchBasics(graph, frozen, Snap(), reprs, substituted);
        if dfs[rootIdx].min != TRAVERSED {
          SearchFrom(rootIdx);
        }
      }
    }
  }
}
