// Compacting: active variables are renumbered to an interval, all fixed variables collapse to one,
// and all tables are mapped in place.
module Compact {
  import opened Cnf

  // ----- The table from old variables to new ones.

  type Table = seq<nat>

  // Which variables are mapped.
  predicate Mapped(active: set<nat>, firstFixed: nat, v: nat) {
    v in active || (v == firstFixed && firstFixed != 0)
  }

  // The first 'n' variables were numbered.
  ghost predicate Numbered(table: Table, active: set<nat>, firstFixed: nat, n: nat, count: nat) {
    && n <= |table| && n > 0 && table[0] == 0
    && (forall v {:trigger table[v]} :: 0 < v < n ==> (table[v] != 0 <==> Mapped(active, firstFixed, v)) && table[v] <= v && table[v] <= count)
    && (forall v, w {:trigger table[v], table[w]} :: 0 < v < w < n && table[v] != 0 && table[w] != 0 ==> table[v] < table[w])
    && (forall d {:trigger Hit(table, n, d)} :: 0 < d <= count ==> Hit(table, n, d))
    && count < n
  }

  ghost predicate Hit(table: Table, n: nat, d: nat) {
    exists v :: 0 < v < n && v < |table| && table[v] == d
  }

  lemma NumberedSkip(table: Table, active: set<nat>, firstFixed: nat, n: nat, count: nat)
    requires Numbered(table, active, firstFixed, n, count) && n < |table| && table[n] == 0 && !Mapped(active, firstFixed, n)
    ensures Numbered(table, active, firstFixed, n + 1, count)
  {
    var m := n + 1;
    forall d | 0 < d <= count ensures Hit(table, m, d) {
      assert Hit(table, n, d);
      var v :| 0 < v < n && v < |table| && table[v] == d;
    }
  }

  lemma NumberedNext(table: Table, active: set<nat>, firstFixed: nat, n: nat, count: nat)
    requires Numbered(table, active, firstFixed, n, count) && n < |table| && Mapped(active, firstFixed, n)
    ensures Numbered(table[n := count + 1], active, firstFixed, n + 1, count + 1)
  {
    var table' := table[n := count + 1];
    var m := n + 1;
    forall d | 0 < d <= count + 1 ensures Hit(table', m, d) {
      if d == count + 1 {
        assert table'[n] == d;
      } else {
        assert Hit(table, n, d);
        var v :| 0 < v < n && v < |table| && table[v] == d;
        assert table'[v] == d;
      }
    }
  }

  // ----- Mapping vectors in place.

  // Everything before 'n' was moved, everything from 'n' on is still in place.
  ghost predicate Moving<T(!new)>(table: Table, v0: seq<T>, v: seq<T>, n: nat) {
    && |v| == |v0| == |table| && n <= |v|
    && (forall s {:trigger v0[s]} :: 0 <= s < n && (s == 0 || table[s] != 0) ==> table[s] < |v| && v[table[s]] == v0[s])
    && (forall s {:trigger v[s]} :: n <= s < |v| ==> v[s] == v0[s])
  }

  // Exactly the entries of mapped variables are kept, at their new position.
  ghost predicate Compacted<T(!new)>(table: Table, count: nat, v0: seq<T>, v: seq<T>) {
    && |v| == count + 1 && |v0| == |table| > 0 && v[0] == v0[0]
    && (forall s {:trigger v0[s]} :: 0 < s < |v0| && table[s] != 0 ==> table[s] < |v| && v[table[s]] == v0[s])
  }

  // That determines the new vector.
  lemma CompactedUnique<T(!new)>(table: Table, active: set<nat>, firstFixed: nat, count: nat, v0: seq<T>, v: seq<T>, w: seq<T>)
    requires Numbered(table, active, firstFixed, |table|, count) && Compacted(table, count, v0, v) && Compacted(table, count, v0, w)
    ensures v == w
  {
    forall d | 0 <= d < |v| ensures v[d] == w[d] {
      if d > 0 {
        assert Hit(table, |table|, d);
        var s :| 0 < s < |table| && table[s] == d;
        assert v[table[s]] == v0[s] && w[table[s]] == v0[s];
      }
    }
  }

  lemma MovingNext<T(!new)>(table: Table, active: set<nat>, firstFixed: nat, count: nat, v0: seq<T>, v: seq<T>, n: nat)
    requires Numbered(table, active, firstFixed, |table|, count) && Moving(table, v0, v, n) && 0 < n < |table|
    ensures table[n] == 0 ==> Moving(table, v0, v, n + 1)
    ensures table[n] != 0 ==> table[n] <= n && Moving(table, v0, v[table[n] := v[n]], n + 1)
  {
    if table[n] != 0 {
      var v' := v[table[n] := v[n]];
      forall s | 0 <= s < n + 1 && (s == 0 || table[s] != 0) ensures table[s] < |v'| && v'[table[s]] == v0[s] {
        assert s < n ==> table[s] < table[n];
      }
    }
  }

  lemma MovingDone<T(!new)>(table: Table, active: set<nat>, firstFixed: nat, count: nat, v0: seq<T>, v: seq<T>)
    requires Numbered(table, active, firstFixed, |table|, count) && Moving(table, v0, v, |table|)
    ensures count < |v| && Compacted(table, count, v0, v[..count+1])
  {
    assert v[table[0]] == v0[0];
  }

  // ----- Literals.

  function MapVar(table: Table, v: nat): nat {
    if v < |table| then table[v] else 0
  }

  predicate Fixed(vals: set<Lit>, l: Lit) {
    l in vals || -l in vals
  }

  // The literal of variable 'd' with the sign of 'l'.
  function Signed(l: Lit, d: nat): Lit {
    var r: Lit := d;
    if l < 0 then -r else r
  }

  function FirstTrue(vals: set<Lit>, firstFixed: nat): Lit {
    var f: Lit := firstFixed;
    if f in vals then f else -f
  }

  // Fixed literals that are not mapped themselves become the first fixed literal, with the right sign.
  function MapLit(table: Table, vals: set<Lit>, firstFixed: nat, l: Lit): Lit {
    var res := MapVar(table, Var(l));
    if res == 0 then
      if Fixed(vals, l) then
        var first := Signed(FirstTrue(vals, firstFixed), MapVar(table, firstFixed));
        if l in vals then first else -first
      else 0
    else Signed(l, res)
  }

  // The values after mapping.
  function MapVals(table: Table, vals: set<Lit>): set<Lit> {
    set l | l in vals && MapVar(table, Var(l)) != 0 :: Signed(l, MapVar(table, Var(l)))
  }

  // What is known about variables when compacting starts: at the root fixed variables are not active.
  ghost predicate Rooted(table: Table, active: set<nat>, firstFixed: nat, count: nat, vals: set<Lit>) {
    && Numbered(table, active, firstFixed, |table|, count)
    && (forall l {:trigger l in vals} :: l in vals ==> l != 0 && -l !in vals && Var(l) < |table| && Var(l) !in active)
    && (vals != {} ==> 0 < firstFixed < |table|) && (firstFixed != 0 ==> FirstTrue(vals, firstFixed) in vals)
    && (forall l {:trigger l in vals} :: l in vals ==> firstFixed <= Var(l))
    && (forall v {:trigger v in active} :: v in active ==> 0 < v < |table|)
  }

  lemma MapVarInjective(table: Table, active: set<nat>, firstFixed: nat, count: nat, v: nat, w: nat)
    requires Numbered(table, active, firstFixed, |table|, count) && MapVar(table, v) == MapVar(table, w) != 0
    ensures v == w
  {
    assert v > 0 && w > 0;
  }

  lemma MapValsMember(table: Table, active: set<nat>, firstFixed: nat, count: nat, vals: set<Lit>, l: Lit)
    requires Rooted(table, active, firstFixed, count, vals) && MapVar(table, Var(l)) != 0
    ensures Signed(l, MapVar(table, Var(l))) in MapVals(table, vals) <==> l in vals
  {
    var d := Signed(l, MapVar(table, Var(l)));
    if d in MapVals(table, vals) {
      var k :| k in vals && MapVar(table, Var(k)) != 0 && d == Signed(k, MapVar(table, Var(k)));
      assert Var(d) == MapVar(table, Var(k)) == MapVar(table, Var(l)) && (k < 0 <==> l < 0);
      MapVarInjective(table, active, firstFixed, count, Var(k), Var(l));
    }
  }

  lemma MapValsMeaning(table: Table, active: set<nat>, firstFixed: nat, count: nat, vals: set<Lit>, l: Lit)
    requires Rooted(table, active, firstFixed, count, vals) && MapVar(table, Var(l)) != 0 && l != 0
    ensures var d := Signed(l, MapVar(table, Var(l)));
            (d in MapVals(table, vals) <==> l in vals) && (-d in MapVals(table, vals) <==> -l in vals)
  {
    MapValsMember(table, active, firstFixed, count, vals, l);
    MapValsMember(table, active, firstFixed, count, vals, -l);
    assert Var(-l) == Var(l) && Signed(-l, MapVar(table, Var(l))) == -Signed(l, MapVar(table, Var(l)));
  }

  // A literal that is still mapped keeps its value.
  lemma ValueKept(table: Table, active: set<nat>, firstFixed: nat, count: nat, vals: set<Lit>, l: Lit)
    requires Rooted(table, active, firstFixed, count, vals) && MapLit(table, vals, firstFixed, l) != 0 && l != 0
    ensures MapLit(table, vals, firstFixed, l) in MapVals(table, vals) <==> l in vals
    ensures -MapLit(table, vals, firstFixed, l) in MapVals(table, vals) <==> -l in vals
  {
    if MapVar(table, Var(l)) != 0 {
      MapValsMeaning(table, active, firstFixed, count, vals, l);
    } else {
      var f := FirstTrue(vals, firstFixed);
      assert Var(f) == firstFixed && Mapped(active, firstFixed, firstFixed);
      MapValsMeaning(table, active, firstFixed, count, vals, f);
      assert -(-l) == l && -(-Signed(f, MapVar(table, firstFixed))) == Signed(f, MapVar(table, firstFixed));
    }
  }

  // Exactly the literals of variables that are neither mapped nor fixed get lost.
  lemma LostLiterals(table: Table, active: set<nat>, firstFixed: nat, count: nat, vals: set<Lit>, l: Lit)
    requires Rooted(table, active, firstFixed, count, vals) && 0 < Var(l) < |table|
    ensures MapLit(table, vals, firstFixed, l) == 0 <==> Var(l) !in active && !Fixed(vals, l)
  {
    if firstFixed != 0 {
      assert Mapped(active, firstFixed, firstFixed);
      var f := FirstTrue(vals, firstFixed);
      assert f in vals && Var(f) == firstFixed;
    }
    assert Mapped(active, firstFixed, Var(l)) <==> Var(l) in active || Var(l) == firstFixed;
    if Var(l) == firstFixed {
      assert l == FirstTrue(vals, firstFixed) || l == -FirstTrue(vals, firstFixed);
    }
  }

  // All fixed literals become the same variable, true literals the same literal.
  lemma FixedCollapse(table: Table, active: set<nat>, firstFixed: nat, count: nat, vals: set<Lit>, l: Lit, k: Lit)
    requires Rooted(table, active, firstFixed, count, vals) && l in vals && k in vals
    ensures MapLit(table, vals, firstFixed, l) == MapLit(table, vals, firstFixed, k) != 0
  {
    FixedTarget(table, active, firstFixed, count, vals, l);
    FixedTarget(table, active, firstFixed, count, vals, k);
  }

  lemma FixedTarget(table: Table, active: set<nat>, firstFixed: nat, count: nat, vals: set<Lit>, l: Lit)
    requires Rooted(table, active, firstFixed, count, vals) && l in vals
    ensures MapLit(table, vals, firstFixed, l) == Signed(FirstTrue(vals, firstFixed), MapVar(table, firstFixed))
    ensures MapVar(table, firstFixed) != 0
  {
    var f := FirstTrue(vals, firstFixed);
    assert f in vals && Var(f) == firstFixed && Mapped(active, firstFixed, firstFixed);
    if MapVar(table, Var(l)) != 0 {
      assert Mapped(active, firstFixed, Var(l));
      assert Var(l) == Var(f) && (l == f || l == -f);
    }
  }

  // ----- Frozen counters.

  // Where the counter of a variable goes.
  function Target(table: Table, vals: set<Lit>, firstFixed: nat, v: nat): nat {
    Var(MapLit(table, vals, firstFixed, v))
  }

  lemma TargetBelow(table: Table, active: set<nat>, firstFixed: nat, count: nat, vals: set<Lit>, v: nat)
    requires Rooted(table, active, firstFixed, count, vals) && 0 < v < |table|
    ensures Target(table, vals, firstFixed, v) <= v && Target(table, vals, firstFixed, v) <= count
  {
    var l: Lit := v;
    if MapVar(table, v) == 0 && Fixed(vals, l) {
      assert firstFixed <= v;
      assert MapVar(table, firstFixed) <= firstFixed;
    }
  }

  // The sum of the counters of variables before 'n' that go to 'd'.
  function Sum(table: Table, vals: set<Lit>, firstFixed: nat, tab: seq<nat>, n: nat, d: nat): nat
    requires n <= |tab|
  {
    if n <= 1 then 0
    else Sum(table, vals, firstFixed, tab, n - 1, d) + (if Target(table, vals, firstFixed, n - 1) == d then tab[n-1] else 0)
  }

  // Nothing goes to a larger variable.
  lemma {:induction false} SumAbove(table: Table, active: set<nat>, firstFixed: nat, count: nat, vals: set<Lit>, tab: seq<nat>, n: nat, d: nat)
    requires Rooted(table, active, firstFixed, count, vals) && n <= |tab| == |table| && d >= n
    ensures Sum(table, vals, firstFixed, tab, n, d) == 0
    decreases n
  {
    if n > 1 {
      SumAbove(table, active, firstFixed, count, vals, tab, n - 1, d);
      TargetBelow(table, active, firstFixed, count, vals, n - 1);
    }
  }

  ghost predicate SummedAt(table: Table, vals: set<Lit>, firstFixed: nat, tab0: seq<nat>, tab: seq<nat>, n: nat, d: nat)
    requires n <= |tab0| == |tab| && d < |tab|
  {
    tab[d] == Sum(table, vals, firstFixed, tab0, n, d) + (if d >= n || Target(table, vals, firstFixed, d) == 0 then tab0[d] else 0)
  }

  ghost predicate Summed(table: Table, vals: set<Lit>, firstFixed: nat, tab0: seq<nat>, tab: seq<nat>, n: nat) {
    && n <= |tab0| == |tab| == |table|
    && forall d {:trigger SummedAt(table, vals, firstFixed, tab0, tab, n, d)} :: 0 < d < |tab| ==> SummedAt(table, vals, firstFixed, tab0, tab, n, d)
  }

  // The counters left after adding up and cutting the table.
  ghost predicate AddedUp(table: Table, vals: set<Lit>, firstFixed: nat, tab0: seq<nat>, tab: seq<nat>, count: nat) {
    exists all :: Summed(table, vals, firstFixed, tab0, all, |table|) && count < |all| && tab == all[..count+1]
  }

  lemma SummedSkip(table: Table, vals: set<Lit>, firstFixed: nat, tab0: seq<nat>, tab: seq<nat>, n: nat)
    requires Summed(table, vals, firstFixed, tab0, tab, n) && 0 < n < |table|
    requires Target(table, vals, firstFixed, n) == 0 || Target(table, vals, firstFixed, n) == n
    ensures Summed(table, vals, firstFixed, tab0, tab, n + 1)
  {
    var m := n + 1;
    forall d | 0 < d < |tab| ensures SummedAt(table, vals, firstFixed, tab0, tab, m, d) {
      assert SummedAt(table, vals, firstFixed, tab0, tab, n, d);
    }
  }

  lemma SummedMove(table: Table, active: set<nat>, firstFixed: nat, count: nat, vals: set<Lit>, tab0: seq<nat>, tab: seq<nat>, n: nat)
    requires Rooted(table, active, firstFixed, count, vals) && Summed(table, vals, firstFixed, tab0, tab, n) && 0 < n < |table|
    requires Target(table, vals, firstFixed, n) != 0 && Target(table, vals, firstFixed, n) != n
    ensures var d := Target(table, vals, firstFixed, n);
            d < n && Summed(table, vals, firstFixed, tab0, tab[d := tab[d] + tab[n]][n := 0], n + 1)
  {
    var t := Target(table, vals, firstFixed, n);
    TargetBelow(table, active, firstFixed, count, vals, n);
    SumAbove(table, active, firstFixed, count, vals, tab0, n, n);
    assert SummedAt(table, vals, firstFixed, tab0, tab, n, n);
    var m := n + 1;
    var tab' := tab[t := tab[t] + tab[n]][n := 0];
    forall d | 0 < d < |tab'| ensures SummedAt(table, vals, firstFixed, tab0, tab', m, d) {
      assert SummedAt(table, vals, firstFixed, tab0, tab, n, d);
    }
  }

  lemma SummedStart(table: Table, vals: set<Lit>, firstFixed: nat, tab: seq<nat>)
    requires |tab| == |table| > 0
    ensures Summed(table, vals, firstFixed, tab, tab, 1)
  {
    forall d | 0 < d < |tab| ensures SummedAt(table, vals, firstFixed, tab, tab, 1, d) {
    }
  }

  // The counters after mapping are sums of counters before exactly if no unmapped variable is frozen.
  lemma FrozenConserved(table: Table, active: set<nat>, firstFixed: nat, count: nat, vals: set<Lit>, tab0: seq<nat>, tab: seq<nat>)
    requires Rooted(table, active, firstFixed, count, vals) && Summed(table, vals, firstFixed, tab0, tab, |table|)
    ensures (forall d {:trigger tab[d]} :: 0 < d <= count ==> tab[d] == Sum(table, vals, firstFixed, tab0, |table|, d)) <==>
            (forall d {:trigger tab0[d]} :: 0 < d <= count && Target(table, vals, firstFixed, d) == 0 ==> tab0[d] == 0)
  {
    forall d | 0 < d <= count
      ensures tab[d] == Sum(table, vals, firstFixed, tab0, |table|, d) <==> (Target(table, vals, firstFixed, d) == 0 ==> tab0[d] == 0) {
      assert SummedAt(table, vals, firstFixed, tab0, tab, |table|, d);
    }
  }

  // Frozen variables are never eliminated or substituted, and freezing a variable makes it active again
  // unless it is fixed.  Then no counter is lost.
  lemma FrozenKept(table: Table, active: set<nat>, firstFixed: nat, count: nat, vals: set<Lit>, tab0: seq<nat>, tab: seq<nat>)
    requires Rooted(table, active, firstFixed, count, vals) && Summed(table, vals, firstFixed, tab0, tab, |table|) && count < |tab0| == |table|
    requires forall v: Lit {:trigger tab0[v]} :: 0 < v < |tab0| && tab0[v] > 0 ==> v in active || v in vals || -v in vals
    ensures forall d {:trigger tab[d]} :: 0 < d <= count ==> tab[d] == Sum(table, vals, firstFixed, tab0, |table|, d)
  {
    FrozenConserved(table, active, firstFixed, count, vals, tab0, tab);
    forall d: Lit | 0 < d <= count && Target(table, vals, firstFixed, d) == 0 ensures tab0[d] == 0 {
      assert d !in vals && -d !in vals && d !in active by {
        TargetThere(table, active, firstFixed, count, vals, d);
      }
    }
  }

  lemma TargetThere(table: Table, active: set<nat>, firstFixed: nat, count: nat, vals: set<Lit>, d: Lit)
    requires Rooted(table, active, firstFixed, count, vals) && 0 < d < |table|
    ensures d in active || d in vals || -d in vals ==> Target(table, vals, firstFixed, d) != 0
  {
    if d in active {
      ActiveMapped(table, active, firstFixed, count, vals, d);
    }
  }

  // ----- The trail.

  // Map literals and drop those that are not mapped.
  function MapFlush(table: Table, lits: seq<Lit>): seq<Lit> {
    if lits == [] then [] else
      var n := |lits| - 1;
      var rest := MapFlush(table, lits[..n]);
      var d := MapVar(table, Var(lits[n]));
      if d == 0 then rest else rest + [Signed(lits[n], d)]
  }

  lemma MapFlushLast(table: Table, lits: seq<Lit>, l: Lit)
    ensures MapFlush(table, lits + [l]) ==
            MapFlush(table, lits) + (if MapVar(table, Var(l)) == 0 then [] else [Signed(l, MapVar(table, Var(l)))])
  {
    assert (lits + [l])[..|lits|] == lits;
  }

  // Only the first fixed literal stays on the trail, with its value.
  lemma {:induction false} TrailCollapses(table: Table, active: set<nat>, firstFixed: nat, count: nat, vals: set<Lit>, trail: seq<Lit>)
    requires Rooted(table, active, firstFixed, count, vals) && (forall l :: l in trail ==> l in vals)
    requires forall i, j :: 0 <= i < j < |trail| ==> trail[i] != trail[j]
    ensures var f := FirstTrue(vals, firstFixed);
            MapFlush(table, trail) == if f in trail then [Signed(f, MapVar(table, firstFixed))] else []
    decreases |trail|
  {
    if trail != [] {
      var n, f := |trail| - 1, FirstTrue(vals, firstFixed);
      assert trail == trail[..n] + [trail[n]] && trail[n] in trail;
      TrailCollapses(table, active, firstFixed, count, vals, trail[..n]);
      assert Var(f) == firstFixed && Mapped(active, firstFixed, firstFixed) && f in vals;
      if MapVar(table, Var(trail[n])) != 0 {
        assert Mapped(active, firstFixed, Var(trail[n]));
        assert Var(trail[n]) == Var(f) && trail[n] == f;
        assert f !in trail[..n];
      } else {
        assert trail[n] != f;
      }
    }
  }

  // ----- Clauses.

  function MapClause(table: Table, vals: set<Lit>, firstFixed: nat, lits: seq<Lit>): (r: seq<Lit>)
    ensures |r| == |lits| && forall i :: 0 <= i < |r| ==> r[i] == MapLit(table, vals, firstFixed, lits[i])
  {
    seq(|lits|, i requires 0 <= i < |lits| => MapLit(table, vals, firstFixed, lits[i]))
  }

  // The model of the old variables that corresponds to a model of the new ones.
  ghost function Unmap(table: Table, m: Model): Model {
    iset v: int | v > 0 && MapVar(table, v) != 0 && (MapVar(table, v) as int) in m
  }

  // Renaming keeps the meaning of clauses over active variables.
  lemma ClauseRenamed(table: Table, active: set<nat>, firstFixed: nat, count: nat, vals: set<Lit>, lits: seq<Lit>, m: Model)
    requires Rooted(table, active, firstFixed, count, vals) && forall l :: l in lits ==> l != 0 && Var(l) in active
    ensures Sat(m, LitsOf(MapClause(table, vals, firstFixed, lits))) <==> Sat(Unmap(table, m), LitsOf(lits))
  {
    var r := MapClause(table, vals, firstFixed, lits);
    forall i | 0 <= i < |lits| ensures Holds(m, r[i]) <==> Holds(Unmap(table, m), lits[i]) {
      assert lits[i] in lits;
      ActiveRenamed(table, active, firstFixed, count, vals, lits[i], m);
    }
    if Sat(m, LitsOf(r)) {
      var x :| x in r && Holds(m, x);
      var i :| 0 <= i < |r| && r[i] == x;
      assert lits[i] in LitsOf(lits);
    }
    if Sat(Unmap(table, m), LitsOf(lits)) {
      var x :| x in lits && Holds(Unmap(table, m), x);
      var i :| 0 <= i < |lits| && lits[i] == x;
      assert r[i] in LitsOf(r);
    }
  }

  lemma ActiveRenamed(table: Table, active: set<nat>, firstFixed: nat, count: nat, vals: set<Lit>, l: Lit, m: Model)
    requires Rooted(table, active, firstFixed, count, vals) && l != 0 && Var(l) in active
    ensures Holds(m, MapLit(table, vals, firstFixed, l)) <==> Holds(Unmap(table, m), l)
    ensures 0 < Var(MapLit(table, vals, firstFixed, l)) <= count
  {
    assert Mapped(active, firstFixed, Var(l));
    var v: int := Var(l);
    assert v in Unmap(table, m) <==> (MapVar(table, Var(l)) as int) in m;
  }

  // ----- The decision queue.

  datatype Link = Link(prev: nat, next: nat)

  function At(q: seq<nat>, i: int): nat {
    if 0 <= i < |q| then q[i] else 0
  }

  ghost predicate InQueue(links: seq<Link>, q: seq<nat>, i: nat)
    requires i < |q|
  {
    0 < q[i] < |links| && links[q[i]] == Link(At(q, i - 1), At(q, i + 1))
  }

  // The links form a list of the variables in 'q'.
  ghost predicate Linked(links: seq<Link>, first: nat, last: nat, q: seq<nat>) {
    && first == At(q, 0) && last == At(q, |q| - 1)
    && Distinct(q)
    && (forall i {:trigger InQueue(links, q, i)} :: 0 <= i < |q| ==> InQueue(links, q, i))
  }

  // The active variables of a queue.
  function Active(active: set<nat>, q: seq<nat>): (r: seq<nat>)
    ensures forall v :: v in r <==> v in q && v in active
  {
    if q == [] then [] else
      var n := |q| - 1;
      assert q == q[..n] + [q[n]];
      if q[n] in active then Active(active, q[..n]) + [q[n]] else Active(active, q[..n])
  }

  lemma ActiveLast(active: set<nat>, q: seq<nat>, v: nat)
    ensures Active(active, q + [v]) == if v in active then Active(active, q) + [v] else Active(active, q)
  {
    assert (q + [v])[..|q|] == q;
  }

  lemma QueueStep(active: set<nat>, q: seq<nat>, i: nat, a: seq<nat>)
    requires i < |q| && Distinct(q) && a == Active(active, q[..i])
    ensures Active(active, q[..i+1]) == (if q[i] in active then a + [q[i]] else a) && q[i] !in a
  {
    assert q[..i+1] == q[..i] + [q[i]] && q[i] !in q[..i];
    ActiveLast(active, q[..i], q[i]);
    ActiveFrom(active, q[..i]);
  }

  lemma {:induction false} ActiveFrom(active: set<nat>, q: seq<nat>)
    ensures forall v {:trigger v in q} :: v in Active(active, q) ==> v in q
    decreases |q|
  {
    if q != [] {
      var n := |q| - 1;
      ActiveFrom(active, q[..n]);
      assert q == q[..n] + [q[n]];
      ActiveLast(active, q[..n], q[n]);
    }
  }

  ghost predicate Distinct(q: seq<nat>) {
    forall i, j :: 0 <= i < j < |q| ==> q[i] != q[j]
  }

  lemma DistinctLast(q: seq<nat>, v: nat)
    requires Distinct(q) && v !in q
    ensures Distinct(q + [v])
  {
  }

  lemma {:induction false} ActiveDistinct(active: set<nat>, q: seq<nat>)
    requires Distinct(q)
    ensures Distinct(Active(active, q))
    decreases |q|
  {
    if q != [] {
      var n := |q| - 1;
      ActiveDistinct(active, q[..n]);
      assert q == q[..n] + [q[n]] && q[n] !in q[..n];
      if q[n] in active {
        DistinctLast(Active(active, q[..n]), q[n]);
      }
    }
  }

  function Image(table: Table, q: seq<nat>): (r: seq<nat>)
    ensures |r| == |q| && forall i :: 0 <= i < |r| ==> r[i] == MapVar(table, q[i])
  {
    seq(|q|, i requires 0 <= i < |q| => MapVar(table, q[i]))
  }

  lemma LastOf(a: seq<nat>)
    requires 0 !in a
    ensures At(a, |a| - 1) == 0 <==> a == []
  {
    if a != [] {
      assert a[|a|-1] in a;
    }
  }

  ghost predicate LinkedAt(table: Table, links: seq<Link>, a: seq<nat>, i: nat)
    requires i < |a|
  {
    && a[i] < |links| && links[a[i]].prev == MapVar(table, At(a, i - 1))
    && (i + 1 < |a| ==> links[a[i]].next == MapVar(table, a[i+1]))
  }

  // While the queue is relinked: 'a' are the active variables met so far, with mapped links.
  ghost predicate Relinking(table: Table, links0: seq<Link>, links: seq<Link>, a: seq<nat>, first: nat) {
    forall u {:trigger Look(u)} :: Look(u) ==>
      && |links| == |links0| && Distinct(a)
      && (forall i {:trigger LinkedAt(table, links, a, i)} :: 0 <= i < |a| ==> LinkedAt(table, links, a, i))
      && (forall v {:trigger links[v]} :: 0 <= v < |links| && v !in a ==> links[v] == links0[v])
      && (a != [] ==> first == MapVar(table, a[0]))
  }

  lemma RelinkStart(table: Table, links: seq<Link>, first: nat)
    ensures Relinking(table, links, links, [], first)
  {
  }

  lemma RelinkFirst(table: Table, links0: seq<Link>, links: seq<Link>, first: nat, idx: nat)
    requires Relinking(table, links0, links, [], first) && idx < |links| && |table| > 0 && table[0] == 0
    ensures Relinking(table, links0, links[idx := links[idx].(prev := 0)], [idx], MapVar(table, idx))
  {
    assert Look(0);
    var links' := links[idx := links[idx].(prev := 0)];
    assert LinkedAt(table, links', [idx], 0);
    forall v | 0 <= v < |links'| && v !in [idx] ensures links'[v] == links0[v] {
      assert v != idx;
    }
  }

  // The link of the previous active variable and of the new one are set.
  function Appended(table: Table, links: seq<Link>, prev: nat, idx: nat): seq<Link>
    requires prev < |links| && idx < |links|
  {
    var links1 := links[prev := links[prev].(next := MapVar(table, idx))];
    links1[idx := links1[idx].(prev := MapVar(table, prev))]
  }

  lemma RelinkNext(table: Table, links0: seq<Link>, links: seq<Link>, a: seq<nat>, first: nat, idx: nat)
    requires Relinking(table, links0, links, a, first) && idx < |links| && idx !in a && a != []
    ensures a[|a|-1] < |links| && Relinking(table, links0, Appended(table, links, a[|a|-1], idx), a + [idx], first)
  {
    assert Look(0);
    var prev := a[|a|-1];
    assert prev in a && LinkedAt(table, links, a, |a| - 1);
    DistinctLast(a, idx);
    var links' := Appended(table, links, prev, idx);
    var a' := a + [idx];
    forall i | 0 <= i < |a'| ensures LinkedAt(table, links', a', i) {
      if i < |a| {
        assert a'[i] == a[i] && a[i] in a && LinkedAt(table, links, a, i);
      }
    }
    forall v | 0 <= v < |links'| && v !in a' ensures links'[v] == links0[v] {
      assert v !in a && v != idx && v != prev;
    }
  }

  // Mapping the table of links makes the relinked queue the image of its active part.
  lemma RelinkDone(table: Table, active: set<nat>, firstFixed: nat, count: nat, links0: seq<Link>, links: seq<Link>, a: seq<nat>,
                   first: nat, links': seq<Link>)
    requires Numbered(table, active, firstFixed, |table|, count) && |links| == |table|
    requires Relinking(table, links0, links, a, first) && (forall i {:trigger a[i]} :: 0 <= i < |a| ==> 0 < a[i] < |links| && a[i] in active)
    requires a != [] ==> links[a[|a|-1]].next == 0
    requires a == [] ==> first == 0
    requires Compacted(table, count, links, links')
    ensures Linked(links', first, MapVar(table, At(a, |a| - 1)), Image(table, a))
  {
    assert Look(0);
    var q := Image(table, a);
    forall i | 0 <= i < |q| ensures InQueue(links', q, i) {
      assert LinkedAt(table, links, a, i) && Mapped(active, firstFixed, a[i]);
      QueueImage(table, count, links, links', a, i);
    }
    ImageDistinct(table, active, firstFixed, count, a);
  }

  lemma ImageAt(table: Table, a: seq<nat>, i: nat)
    requires i < |a| && |table| > 0 && table[0] == 0
    ensures At(Image(table, a), i - 1) == MapVar(table, At(a, i - 1)) && At(Image(table, a), i + 1) == MapVar(table, At(a, i + 1))
  {
  }

  lemma MappedLink(table: Table, count: nat, links: seq<Link>, links': seq<Link>, v: nat)
    requires Compacted(table, count, links, links') && 0 < v < |table| && table[v] != 0
    ensures table[v] < |links'| && links'[table[v]] == links[v]
  {
    assert links[v] == links[v];
  }

  lemma QueueImage(table: Table, count: nat, links: seq<Link>, links': seq<Link>, a: seq<nat>, i: nat)
    requires Compacted(table, count, links, links') && |table| > 0 && table[0] == 0
    requires i < |a| && LinkedAt(table, links, a, i) && (i + 1 == |a| ==> links[a[i]].next == 0)
    requires 0 < a[i] < |table| && table[a[i]] != 0
    ensures InQueue(links', Image(table, a), i)
  {
    ImageAt(table, a, i);
    MappedLink(table, count, links, links', a[i]);
  }

  lemma ImageDistinct(table: Table, active: set<nat>, firstFixed: nat, count: nat, a: seq<nat>)
    requires Numbered(table, active, firstFixed, |table|, count)
    requires (forall i {:trigger a[i]} :: 0 <= i < |a| ==> 0 < a[i] < |table| && a[i] in active)
    requires Distinct(a)
    ensures Distinct(Image(table, a))
  {
    var q := Image(table, a);
    forall i, j | 0 <= i < j < |q| ensures q[i] != q[j] {
      assert Mapped(active, firstFixed, a[i]);
      if q[i] == q[j] {
        MapVarInjective(table, active, firstFixed, count, a[i], a[j]);
      }
    }
  }

  // External variables are mapped; those that have no internal literal stay so.
  ghost predicate MappedLits(table: Table, vals: set<Lit>, firstFixed: nat, e0: seq<Lit>, e: seq<Lit>) {
    |e| == |e0| && forall i {:trigger e[i]} :: 0 <= i < |e| ==> e[i] == if e0[i] == 0 then 0 else MapLit(table, vals, firstFixed, e0[i])
  }

  ghost predicate MappedClauses(table: Table, vals: set<Lit>, firstFixed: nat, c0: seq<seq<Lit>>, c: seq<seq<Lit>>) {
    |c| == |c0| && forall k {:trigger c[k]} :: 0 <= k < |c| ==> c[k] == MapClause(table, vals, firstFixed, c0[k])
  }

  lemma NumberingActive(table: Table, active: set<nat>, vals: set<Lit>, firstFixed: nat, n: nat, count: nat)
    requires Numbering(table, active, vals, firstFixed, n, count) && n < |table| && n in active
    requires forall l {:trigger l in vals} :: l in vals ==> Var(l) !in active
    ensures Numbering(table[n := count + 1], active, vals, firstFixed, n + 1, count + 1)
  {
    NumberedNext(table, active, firstFixed, n, count);
  }

  lemma NumberingFixed(table: Table, active: set<nat>, vals: set<Lit>, n: nat, count: nat)
    requires Numbering(table, active, vals, 0, n, count) && n < |table| && n !in active && 0 < n
    requires var l: Lit := n; l in vals || -l in vals
    ensures Numbering(table[n := count + 1], active, vals, n, n + 1, count + 1)
  {
    FirstFixedNumbered(table, active, n, count);
    NumberedNext(table, active, n, n, count);
  }

  lemma NumberingSkip(table: Table, active: set<nat>, vals: set<Lit>, firstFixed: nat, n: nat, count: nat)
    requires Numbering(table, active, vals, firstFixed, n, count) && n < |table| && n !in active && 0 < n
    requires var l: Lit := n; (l in vals || -l in vals) ==> firstFixed != 0
    ensures Numbering(table, active, vals, firstFixed, n + 1, count)
  {
    VariableFixed(vals, n);
    NumberedSkip(table, active, firstFixed, n, count);
  }

  class Compacter {
    const maxVar: nat
    const active: set<nat>
    var vals: set<Lit>                // all literals fixed to true
    var table: Table
    var newMaxVar: nat
    var firstFixed: nat
    var e2i: seq<Lit>                 // external variables to internal literals
    var i2e: seq<Lit>
    var clauses: seq<seq<Lit>>
    var trail: seq<Lit>
    var frozentab: seq<nat>
    var links: seq<Link>
    var first: nat
    var last: nat
    var unassigned: nat

    ghost predicate Ready()
      reads this
    {
      |table| == maxVar + 1 && Rooted(table, active, firstFixed, newMaxVar, vals)
    }

    // Number the active variables and the first fixed one.
    method BuildTable()
      requires forall v :: v in active ==> 0 < v <= maxVar
      requires forall l {:trigger l in vals} :: l in vals ==> l != 0 && -l !in vals && Var(l) <= maxVar && Var(l) !in active
      modifies `table, `newMaxVar, `firstFixed
      ensures Ready()
    {
      table := seq(maxVar + 1, _ => 0);
      newMaxVar, firstFixed := 0, 0;
      for src := 1 to maxVar + 1
        invariant |table| == maxVar + 1 && Numbering(table, active, vals, firstFixed, src, newMaxVar)
      {
        Number(src);
      }
    }

    method Number(src: nat)
      requires 0 < src <= maxVar && |table| == maxVar + 1 && Numbering(table, active, vals, firstFixed, src, newMaxVar)
      requires forall l {:trigger l in vals} :: l in vals ==> Var(l) !in active
      modifies `table, `newMaxVar, `firstFixed
      ensures |table| == maxVar + 1 && Numbering(table, active, vals, firstFixed, src + 1, newMaxVar)
    {
      var idx: Lit := src;
      if src in active {
        NumberingActive(table, active, vals, firstFixed, src, newMaxVar);
        newMaxVar := newMaxVar + 1;
        table := table[src := newMaxVar];
      } else if (idx in vals || -idx in vals) && firstFixed == 0 {
        NumberingFixed(table, active, vals, src, newMaxVar);
        firstFixed := src;
        newMaxVar := newMaxVar + 1;
        table := table[src := newMaxVar];
      } else {
        NumberingSkip(table, active, vals, firstFixed, src, newMaxVar);
      }
    }

    // Move the entries of mapped variables to their new position, in place.
    method MapVector<T(!new)>(v0: seq<T>) returns (v: seq<T>)
      requires Ready() && |v0| == |table|
      ensures Compacted(table, newMaxVar, v0, v)
    {
      v := v0;
      for src := 1 to maxVar + 1
        invariant Moving(table, v0, v, src)
      {
        MovingNext(table, active, firstFixed, newMaxVar, v0, v, src);
        var dst := table[src];
        if dst == 0 { continue; }
        v := v[dst := v[src]];
      }
      MovingDone(table, active, firstFixed, newMaxVar, v0, v);
      v := v[..newMaxVar+1];
    }

    // Map the external variables.
    method MapExternal()
      requires Ready()
      modifies `e2i
      ensures MappedLits(table, vals, firstFixed, old(e2i), e2i)
    {
      for e := 0 to |e2i|
        invariant |e2i| == |old(e2i)|
        invariant forall i {:trigger e2i[i]} :: 0 <= i < e ==> e2i[i] == if old(e2i)[i] == 0 then 0 else MapLit(table, vals, firstFixed, old(e2i)[i])
        invariant forall i {:trigger e2i[i]} :: e <= i < |e2i| ==> e2i[i] == old(e2i)[i]
      {
        var src := e2i[e];
        if src == 0 { continue; }
        e2i := e2i[e := MapLit(table, vals, firstFixed, src)];
      }
    }

    // Map the literals of a clause.
    method MapLits(lits0: seq<Lit>) returns (lits: seq<Lit>)
      requires Ready()
      ensures lits == MapClause(table, vals, firstFixed, lits0)
    {
      lits := lits0;
      for i := 0 to |lits|
        invariant |lits| == |lits0|
        invariant forall j {:trigger lits[j]} :: 0 <= j < i ==> lits[j] == MapLit(table, vals, firstFixed, lits0[j])
        invariant forall j {:trigger lits[j]} :: i <= j < |lits| ==> lits[j] == lits0[j]
      {
        lits := lits[i := MapLit(table, vals, firstFixed, lits[i])];
      }
    }

    method MapClauses()
      requires Ready()
      modifies `clauses
      ensures MappedClauses(table, vals, firstFixed, old(clauses), clauses)
    {
      for k := 0 to |clauses|
        invariant |clauses| == |old(clauses)|
        invariant forall i {:trigger clauses[i]} :: 0 <= i < k ==> clauses[i] == MapClause(table, vals, firstFixed, old(clauses)[i])
        invariant forall i {:trigger clauses[i]} :: k <= i < |clauses| ==> clauses[i] == old(clauses)[i]
      {
        var lits := MapLits(clauses[k]);
        clauses := clauses[k := lits];
      }
    }

    // Flush inactive variables from the queue and map its links, before the table of links is mapped.
    method RelinkQueue(ghost q: seq<nat>) returns (ghost a: seq<nat>)
      requires Ready() && |links| == |table| && Linked(links, first, last, q)
      modifies `links, `first, `last, `unassigned
      ensures a == Active(active, q) && |links| == |old(links)| && Relinking(table, old(links), links, a, first)
      ensures (a != [] ==> a[|a|-1] < |links| && links[a[|a|-1]].next == 0) && (a == [] ==> first == 0)
      ensures last == MapVar(table, At(a, |a| - 1)) && unassigned == last
    {
      var prev, mappedPrev := 0, 0;
      var idx := first;
      a := [];
      RelinkStart(table, links, first);
      ghost var i: nat := 0;
      assert q[..0] == [];
      while idx != 0
        invariant i <= |q| && idx == At(q, i) && a == Active(active, q[..i]) && |links| == |old(links)|
        invariant Relinking(table, old(links), links, a, first) && prev == At(a, |a| - 1) && mappedPrev == MapVar(table, prev) && 0 !in a
        decreases |q| - i
      {
        assert InQueue(old(links), q, i);
        NotRelinked(table, active, old(links), links, a, first, q, i);
        var next := links[idx].next;
        prev, mappedPrev, a := RelinkOne(idx, prev, mappedPrev, a, old(links), q, i);
        assert next == At(q, i + 1);
        i := i + 1;
        idx := next;
      }
      assert i < |q| ==> InQueue(old(links), q, i);
      assert q[..|q|] == q;
      LastOf(a);
      if prev != 0 {
        FinishLinks(table, old(links), links, a, first);
        links := links[prev := links[prev].(next := 0)];
      } else {
        first := 0;
      }
      unassigned, last := mappedPrev, mappedPrev;
    }

    // Visit the next variable of the queue.
    method RelinkOne(idx: nat, prev0: nat, mappedPrev0: nat, ghost a0: seq<nat>, ghost links0: seq<Link>, ghost q: seq<nat>, ghost i: nat)
      returns (prev: nat, mappedPrev: nat, ghost a: seq<nat>)
      requires Ready() && |links| == |table| == |links0| && i < |q| && idx == q[i] && 0 < idx < |links| && Distinct(q)
      requires a0 == Active(active, q[..i]) && Relinking(table, links0, links, a0, first)
      requires prev0 == At(a0, |a0| - 1) && mappedPrev0 == MapVar(table, prev0) && 0 !in a0
      modifies `links, `first
      ensures a == Active(active, q[..i+1]) && Relinking(table, links0, links, a, first) && |links| == |links0|
      ensures prev == At(a, |a| - 1) && mappedPrev == MapVar(table, prev) && 0 !in a
    {
      prev, mappedPrev, a := prev0, mappedPrev0, a0;
      QueueStep(active, q, i, a);
      ActiveMapped(table, active, firstFixed, newMaxVar, vals, idx);
      var dst := MapVar(table, idx);
      if idx != firstFixed && dst != 0 {
        LinkIn(idx, dst, prev, mappedPrev, a, links0);
        mappedPrev, prev := dst, idx;
        a := a + [idx];
      }
    }

    method LinkIn(idx: nat, dst: nat, prev: nat, mappedPrev: nat, ghost a: seq<nat>, ghost links0: seq<Link>)
      requires Relinking(table, links0, links, a, first) && |links| == |links0| && idx < |links| && idx !in a && 0 !in a
      requires |table| > 0 && table[0] == 0
      requires prev == At(a, |a| - 1) && mappedPrev == MapVar(table, prev) && dst == MapVar(table, idx)
      modifies `links, `first
      ensures Relinking(table, links0, links, a + [idx], first) && |links| == |links0|
    {
      LastOf(a);
      if prev != 0 {
        RelinkNext(table, links0, links, a, first, idx);
        links := links[prev := links[prev].(next := dst)];
      } else {
        assert a + [idx] == [idx];
        RelinkFirst(table, links0, links, first, idx);
        first := dst;
      }
      links := links[idx := links[idx].(prev := mappedPrev)];
    }

    // Add the frozen counters of variables that become the same variable, in place.
    method MapFrozen()
      requires Ready() && |frozentab| == |table|
      modifies `frozentab
      ensures AddedUp(table, vals, firstFixed, old(frozentab), frozentab, newMaxVar)
    {
      SummedStart(table, vals, firstFixed, frozentab);
      for src := 1 to maxVar + 1
        invariant Summed(table, vals, firstFixed, old(frozentab), frozentab, src)
      {
        var dst := Target(table, vals, firstFixed, src);
        if dst == 0 || dst == src {
          SummedSkip(table, vals, firstFixed, old(frozentab), frozentab, src);
        } else {
          SummedMove(table, active, firstFixed, newMaxVar, vals, old(frozentab), frozentab, src);
          frozentab := frozentab[dst := frozentab[dst] + frozentab[src]];
          frozentab := frozentab[src := 0];
        }
      }
      ghost var tab := frozentab;
      frozentab := frozentab[..newMaxVar+1];
    }

    // Only the first fixed literal stays on the trail.
    method MapTrail()
      requires Ready()
      modifies `trail
      ensures trail == MapFlush(table, old(trail))
    {
      var mapped := [];
      assert trail[..0] == [];
      for i := 0 to |trail|
        invariant trail == old(trail) && mapped == MapFlush(table, trail[..i])
      {
        assert trail[..i+1] == trail[..i] + [trail[i]];
        MapFlushLast(table, trail[..i], trail[i]);
        var dst := MapVar(table, Var(trail[i]));
        if dst == 0 { continue; }
        mapped := mapped + [Signed(trail[i], dst)];
      }
      assert trail[..|trail|] == trail;
      trail := mapped;
    }

    // The values of the new variables.
    method MapValues() returns (newVals: set<Lit>)
      requires Ready()
      ensures newVals == MapVals(table, vals)
    {
      newVals := {};
      for src := 1 to maxVar + 1
        invariant forall d {:trigger d in newVals} :: d in newVals <==> ValueBefore(table, vals, src, d)
      {
        var l: Lit := src;
        ValueNext(table, vals, src, newVals);
        var dst := table[src];
        if dst != 0 && l in vals {
          newVals := newVals + {Signed(l, dst)};
        }
        if dst != 0 && -l in vals {
          newVals := newVals + {Signed(-l, dst)};
        }
      }
      ValuesDone(table, active, firstFixed, newMaxVar, vals, newVals);
    }

    // Renumber everything.
    method CompactAll(ghost q: seq<nat>)
      requires forall v :: v in active ==> 0 < v <= maxVar
      requires forall l {:trigger l in vals} :: l in vals ==> l != 0 && -l !in vals && Var(l) <= maxVar && Var(l) !in active
      requires |links| == |i2e| == |frozentab| == maxVar + 1 && Linked(links, first, last, q)
      requires LitsOf(trail) == vals && forall i, j :: 0 <= i < j < |trail| ==> trail[i] != trail[j]
      modifies this
      ensures Rooted(table, active, firstFixed, newMaxVar, old(vals))
      ensures MappedLits(table, old(vals), firstFixed, old(e2i), e2i) && MappedClauses(table, old(vals), firstFixed, old(clauses), clauses)
      ensures Linked(links, first, last, Image(table, Active(active, q))) && unassigned == last
      ensures vals == MapVals(table, old(vals)) && Compacted(table, newMaxVar, old(i2e), i2e)
      ensures AddedUp(table, old(vals), firstFixed, old(frozentab), frozentab, newMaxVar)
      ensures LitsOf(trail) == vals && |trail| <= 1
    {
      MapLiterals();
      MapQueue(q);
      MapTables();
    }

    // Number the variables, and map external variables and clauses.
    method MapLiterals()
      requires forall v :: v in active ==> 0 < v <= maxVar
      requires forall l {:trigger l in vals} :: l in vals ==> l != 0 && -l !in vals && Var(l) <= maxVar && Var(l) !in active
      modifies `table, `firstFixed, `newMaxVar, `e2i, `clauses
      ensures Ready() && |table| == maxVar + 1
      ensures MappedLits(table, vals, firstFixed, old(e2i), e2i) && MappedClauses(table, vals, firstFixed, old(clauses), clauses)
    {
      BuildTable();
      MapExternal();
      MapClauses();
    }

    // Relink the queue and map the table of links.
    method MapQueue(ghost q: seq<nat>)
      requires Ready() && |links| == |table| && Linked(links, first, last, q)
      modifies `links, `first, `last, `unassigned
      ensures Linked(links, first, last, Image(table, Active(active, q))) && unassigned == last
    {
      ghost var a := RelinkQueue(q);
      ghost var links1 := links;
      links := MapVector(links);
      ActiveQueue(active, q, |table|, links1, old(links), first, last);
      RelinkDone(table, active, firstFixed, newMaxVar, old(links), links1, a, first, links);
    }

    // Map the trail, the counters, the external indices and the values.
    method MapTables()
      requires Ready() && |i2e| == |frozentab| == |table|
      requires LitsOf(trail) == vals && forall i, j :: 0 <= i < j < |trail| ==> trail[i] != trail[j]
      modifies `trail, `frozentab, `i2e, `vals
      ensures vals == MapVals(table, old(vals)) && Compacted(table, newMaxVar, old(i2e), i2e)
      ensures AddedUp(table, old(vals), firstFixed, old(frozentab), frozentab, newMaxVar)
      ensures LitsOf(trail) == vals && |trail| <= 1
    {
      MapTrail();
      TrailValues(table, active, firstFixed, newMaxVar, vals, old(trail));
      MapFrozen();
      var newVals := MapValues();
      i2e := MapVector(i2e);
      vals := newVals;
    }
  }

  // The first 'n' variables are numbered, and the first fixed one is known.
  ghost predicate Numbering(table: Table, active: set<nat>, vals: set<Lit>, firstFixed: nat, n: nat, count: nat) {
    && Numbered(table, active, firstFixed, n, count)
    && (forall v {:trigger table[v]} :: n <= v < |table| ==> table[v] == 0)
    && firstFixed < n && (firstFixed != 0 ==> FirstTrue(vals, firstFixed) in vals)
    && (forall l {:trigger l in vals} :: l in vals && Var(l) < n ==> l == 0 || 0 < firstFixed <= Var(l))
  }

  lemma VariableFixed(vals: set<Lit>, v: nat)
    ensures var l: Lit := v; (forall k {:trigger k in vals} :: k in vals && Var(k) == v ==> k == l || k == -l) && Var(l) == v && Var(-l) == v
  {
  }

  lemma FirstFixedNumbered(table: Table, active: set<nat>, n: nat, count: nat)
    requires Numbered(table, active, 0, n, count)
    ensures Numbered(table, active, n, n, count)
  {
  }

  lemma ActiveMapped(table: Table, active: set<nat>, firstFixed: nat, count: nat, vals: set<Lit>, v: nat)
    requires Rooted(table, active, firstFixed, count, vals) && 0 < v < |table|
    ensures v in active <==> v != firstFixed && MapVar(table, v) != 0
  {
  }

  lemma NotRelinked(table: Table, active: set<nat>, links0: seq<Link>, links: seq<Link>, a: seq<nat>, first: nat, q: seq<nat>, i: nat)
    requires Relinking(table, links0, links, a, first) && i < |q| && Distinct(q) && a == Active(active, q[..i]) && q[i] < |links|
    ensures |links| == |links0| && links[q[i]] == links0[q[i]]
  {
    assert Look(0);
    assert q[i] !in q[..i];
  }

  lemma FinishLinks(table: Table, links0: seq<Link>, links: seq<Link>, a: seq<nat>, first: nat)
    requires Relinking(table, links0, links, a, first) && a != []
    ensures var p := a[|a|-1]; p < |links| && Relinking(table, links0, links[p := links[p].(next := 0)], a, first)
  {
    assert Look(0);
    var p := a[|a|-1];
    assert p in a && LinkedAt(table, links, a, |a| - 1);
    var links' := links[p := links[p].(next := 0)];
    forall i | 0 <= i < |a| ensures LinkedAt(table, links', a, i) {
      assert LinkedAt(table, links, a, i);
    }
  }

  // ----- Values.

  ghost predicate ValueBefore(table: Table, vals: set<Lit>, n: nat, d: Lit) {
    exists l :: l in vals && 0 < Var(l) < n && MapVar(table, Var(l)) != 0 && d == Signed(l, MapVar(table, Var(l)))
  }

  lemma ValueNext(table: Table, vals: set<Lit>, n: nat, newVals: set<Lit>)
    requires 0 < n < |table| && forall d {:trigger d in newVals} :: d in newVals <==> ValueBefore(table, vals, n, d)
    ensures var l: Lit, t := n, table[n];
            var more := (if t != 0 && l in vals then {Signed(l, t)} else {}) + (if t != 0 && -l in vals then {Signed(-l, t)} else {});
            forall d {:trigger ValueBefore(table, vals, n + 1, d)} :: d in newVals + more <==> ValueBefore(table, vals, n + 1, d)
  {
    var l: Lit, t, m := n, table[n], n + 1;
    var more := (if t != 0 && l in vals then {Signed(l, t)} else {}) + (if t != 0 && -l in vals then {Signed(-l, t)} else {});
    forall d ensures d in newVals + more <==> ValueBefore(table, vals, m, d) {
      if ValueBefore(table, vals, m, d) {
        var k :| k in vals && 0 < Var(k) < m && MapVar(table, Var(k)) != 0 && d == Signed(k, MapVar(table, Var(k)));
        if Var(k) == n {
          assert k == l || k == -l;
        } else {
          assert ValueBefore(table, vals, n, d);
        }
      }
      if ValueBefore(table, vals, n, d) {
        var k :| k in vals && 0 < Var(k) < n && MapVar(table, Var(k)) != 0 && d == Signed(k, MapVar(table, Var(k)));
        assert Var(k) < m;
      }
      assert Var(l) == n && Var(-l) == n;
    }
  }

  lemma ValuesDone(table: Table, active: set<nat>, firstFixed: nat, count: nat, vals: set<Lit>, newVals: set<Lit>)
    requires Rooted(table, active, firstFixed, count, vals)
    requires forall d {:trigger d in newVals} :: d in newVals <==> ValueBefore(table, vals, |table|, d)
    ensures newVals == MapVals(table, vals)
  {
    forall d ensures d in newVals <==> d in MapVals(table, vals) {
      if d in MapVals(table, vals) {
        var l :| l in vals && MapVar(table, Var(l)) != 0 && d == Signed(l, MapVar(table, Var(l)));
        assert 0 < Var(l) < |table|;
      }
    }
  }

  // The mapped trail has the mapped values.
  lemma TrailValues(table: Table, active: set<nat>, firstFixed: nat, count: nat, vals: set<Lit>, trail: seq<Lit>)
    requires Rooted(table, active, firstFixed, count, vals) && LitsOf(trail) == vals
    requires forall i, j :: 0 <= i < j < |trail| ==> trail[i] != trail[j]
    ensures LitsOf(MapFlush(table, trail)) == MapVals(table, vals) && |MapFlush(table, trail)| <= 1
  {
    forall l | l in trail ensures l in vals {
      assert l in LitsOf(trail);
    }
    TrailCollapses(table, active, firstFixed, count, vals, trail);
    var f := FirstTrue(vals, firstFixed);
    forall d ensures d in MapVals(table, vals) <==> d in MapFlush(table, trail) {
      if d in MapVals(table, vals) {
        var l :| l in vals && MapVar(table, Var(l)) != 0 && d == Signed(l, MapVar(table, Var(l)));
        assert Mapped(active, firstFixed, Var(l)) && l in LitsOf(trail);
        assert Var(f) == firstFixed && (l == f || l == -f);
      }
      if f in vals {
        assert Var(f) == firstFixed && Mapped(active, firstFixed, firstFixed) && f in LitsOf(trail);
      }
    }
  }

  lemma ActiveQueue(active: set<nat>, q: seq<nat>, n: nat, links: seq<Link>, links0: seq<Link>, first: nat, last: nat)
    requires |links| == n == |links0| && (exists f, l :: Linked(links0, f, l, q))
    ensures var a := Active(active, q); forall i {:trigger a[i]} :: 0 <= i < |a| ==> 0 < a[i] < n && a[i] in active
  {
    var f, l :| Linked(links0, f, l, q);
    var a := Active(active, q);
    forall i | 0 <= i < |a| ensures 0 < a[i] < n && a[i] in active {
      assert a[i] in a;
      var j :| 0 <= j < |q| && q[j] == a[i];
      assert InQueue(links0, q, j);
    }
  }
}
