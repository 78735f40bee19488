// The LRAT checker: a chained hash table of clauses, the check of derived clauses along their
// hint chains, and the bookkeeping for clauses that are weakened and restored.
module LratChecker {
  import opened Cnf
  import opened LratSpec

  lemma ContainsHead(t: Table, h: nat, c: LClause)
    ensures var t' := t.(buckets := t.buckets[h := [c] + Bucket(t, h)]);
            forall x :: Contains(t', x) <==> x == c || Contains(t, x)
  {
    var t' := t.(buckets := t.buckets[h := [c] + Bucket(t, h)]);
    assert Bucket(t', h) == [c] + Bucket(t, h);
    forall x | Contains(t, x) ensures Contains(t', x) {
      var k :| x in Bucket(t, k);
      assert x in Bucket(t', k);
    }
    assert c in Bucket(t', h);
    forall x | Contains(t', x) ensures x == c || Contains(t, x) {
      var k :| x in Bucket(t', k);
      if k != h {
        assert x in Bucket(t, k);
      }
    }
  }

  lemma HashedHead(nonces: Nonces, t: Table, h: nat, c: LClause)
    requires Hashed(nonces, t) && t.size > 0
    requires c.hash == ComputeHash(nonces, c.id) && h == ReduceHash(c.hash, t.size)
    ensures Hashed(nonces, t.(buckets := t.buckets[h := [c] + Bucket(t, h)]))
  {
    var t' := t.(buckets := t.buckets[h := [c] + Bucket(t, h)]);
    forall k: nat, x | x in Bucket(t', k)
      ensures x.hash == ComputeHash(nonces, x.id) && k == ReduceHash(x.hash, t'.size)
    {
      if k != h || x != c {
        assert x in Bucket(t, k);
      }
    }
  }

  function Remove(chain: seq<LClause>, i: nat): seq<LClause>
    requires i < |chain|
  {
    chain[..i] + chain[i+1..]
  }

  lemma ContainsRemoved(nonces: Nonces, t: Table, h: nat, i: nat)
    requires Hashed(nonces, t) && i < |Bucket(t, h)|
    ensures var t' := t.(buckets := t.buckets[h := Remove(Bucket(t, h), i)]);
            && Hashed(nonces, t')
            && (forall x :: Contains(t', x) ==> Contains(t, x))
            && (forall x :: Contains(t, x) && x != Bucket(t, h)[i] ==> Contains(t', x))
  {
    var b := Bucket(t, h);
    var t' := t.(buckets := t.buckets[h := Remove(b, i)]);
    RemoveMembers(b, i);
    forall k: nat ensures Bucket(t', k) == if k == h then Remove(b, i) else Bucket(t, k) {
    }
    assert forall k, x :: x in Bucket(t', k) ==> x in Bucket(t, k);
    assert b[i] in Bucket(t, h);
    forall x | Contains(t', x) ensures Contains(t, x) {
      var k :| x in Bucket(t', k);
      assert x in Bucket(t, k);
    }
    forall x | Contains(t, x) && x != b[i] ensures Contains(t', x) {
      var k :| x in Bucket(t, k);
      assert x in Bucket(t', k);
    }
  }

  lemma RemoveMembers(b: seq<LClause>, i: nat)
    requires i < |b|
    ensures forall x :: x in Remove(b, i) ==> x in b
    ensures forall x :: x in b && x != b[i] ==> x in Remove(b, i)
  {
    assert b == b[..i] + [b[i]] + b[i+1..];
  }

  // ----- Every identifier occurs at most once.

  ghost predicate DistinctIds(chain: seq<LClause>) {
    forall i, j :: 0 <= i < j < |chain| ==> chain[i].id != chain[j].id
  }

  ghost predicate Once(t: Table) {
    forall h {:trigger Bucket(t, h)} :: DistinctIds(Bucket(t, h))
  }

  lemma OnceUnique(nonces: Nonces, t: Table, c: LClause, d: LClause)
    requires Hashed(nonces, t) && Once(t) && Contains(t, c) && Contains(t, d) && c.id == d.id
    ensures c == d
  {
    var h :| c in Bucket(t, h);
    var k :| d in Bucket(t, k);
    assert h == k;
    var i :| 0 <= i < |Bucket(t, h)| && Bucket(t, h)[i] == c;
    var j :| 0 <= j < |Bucket(t, h)| && Bucket(t, h)[j] == d;
    assert DistinctIds(Bucket(t, h));
  }

  // The lookup depends only on the clauses in the table.
  lemma SameLookup(nonces: Nonces, t: Table, t': Table, id: Id)
    requires Hashed(nonces, t) && Hashed(nonces, t') && Once(t)
    requires forall c: LClause {:trigger Contains(t', c)} :: c.id == id ==> (Contains(t', c) <==> Contains(t, c))
    ensures Lookup(nonces, t', id) == Lookup(nonces, t, id)
  {
    LookupExact(nonces, t, id);
    LookupExact(nonces, t', id);
    if Lookup(nonces, t, id).Some? && Lookup(nonces, t', id).Some? {
      OnceUnique(nonces, t, Lookup(nonces, t, id).value, Lookup(nonces, t', id).value);
    }
  }

  lemma OnceHead(t: Table, h: nat, c: LClause)
    requires Once(t) && forall x: LClause {:trigger Contains(t, x)} :: Contains(t, x) ==> x.id != c.id
    ensures Once(t.(buckets := t.buckets[h := [c] + Bucket(t, h)]))
  {
    var t' := t.(buckets := t.buckets[h := [c] + Bucket(t, h)]);
    var b := Bucket(t, h);
    forall i | 0 <= i < |b| ensures b[i].id != c.id {
      assert b[i] in b && Contains(t, b[i]);
    }
    assert DistinctIds(b) && Bucket(t', h) == [c] + b;
    forall k ensures DistinctIds(Bucket(t', k)) {
      assert DistinctIds(Bucket(t, k));
    }
  }

  // 'c' is put into the table, everything else stays.
  ghost predicate Put(nonces: Nonces, t: Table, t': Table, c: LClause) {
    && (forall x {:trigger Contains(t', x)} :: Contains(t', x) <==> x == c || Contains(t, x))
    && (Once(t) && (forall x: LClause {:trigger Contains(t, x)} :: Contains(t, x) ==> x.id != c.id) ==>
          Once(t') && forall id {:trigger Lookup(nonces, t', id)} ::
            Lookup(nonces, t', id) == if id == c.id then Some(c) else Lookup(nonces, t, id))
  }

  lemma PutHead(nonces: Nonces, t: Table, h: nat, c: LClause)
    requires Hashed(nonces, t) && t.size > 0
    requires c.hash == ComputeHash(nonces, c.id) && h == ReduceHash(c.hash, t.size)
    ensures Put(nonces, t, t.(buckets := t.buckets[h := [c] + Bucket(t, h)]), c)
  {
    var t' := t.(buckets := t.buckets[h := [c] + Bucket(t, h)]);
    ContainsHead(t, h, c);
    HashedHead(nonces, t, h, c);
    if Once(t) && forall x: LClause {:trigger Contains(t, x)} :: Contains(t, x) ==> x.id != c.id {
      OnceHead(t, h, c);
      forall id ensures Lookup(nonces, t', id) == if id == c.id then Some(c) else Lookup(nonces, t, id) {
        PutLookup(nonces, t, t', c, id);
      }
    }
  }

  lemma PutLookup(nonces: Nonces, t: Table, t': Table, c: LClause, id: Id)
    requires Hashed(nonces, t) && Hashed(nonces, t') && Once(t) && Once(t')
    requires forall x {:trigger Contains(t', x)} :: Contains(t', x) <==> x == c || Contains(t, x)
    ensures Lookup(nonces, t', id) == if id == c.id then Some(c) else Lookup(nonces, t, id)
  {
    if id == c.id {
      LookupExact(nonces, t', id);
      assert Contains(t', c);
      OnceUnique(nonces, t', Lookup(nonces, t', id).value, c);
    } else {
      SameLookup(nonces, t, t', id);
    }
  }

  // The tables hold the same clauses.
  ghost predicate SameTable(nonces: Nonces, t: Table, t': Table) {
    && (forall x {:trigger Contains(t', x)} :: Contains(t', x) <==> Contains(t, x))
    && (Once(t) ==> Once(t') && forall id {:trigger Lookup(nonces, t', id)} :: Lookup(nonces, t', id) == Lookup(nonces, t, id))
  }

  lemma SameTableIntro(nonces: Nonces, t: Table, t': Table)
    requires Hashed(nonces, t) && Hashed(nonces, t') && (Once(t) ==> Once(t'))
    requires forall x {:trigger Contains(t', x)} :: Contains(t', x) <==> Contains(t, x)
    ensures SameTable(nonces, t, t')
  {
    if Once(t) {
      forall id ensures Lookup(nonces, t', id) == Lookup(nonces, t, id) {
        SameLookup(nonces, t, t', id);
      }
    }
  }

  lemma PutSame(nonces: Nonces, t: Table, t1: Table, t2: Table, c: LClause)
    requires SameTable(nonces, t, t1) && Put(nonces, t1, t2, c)
    ensures Put(nonces, t, t2, c)
  {
    assert forall x {:trigger Contains(t, x)} :: Contains(t, x) ==> Contains(t1, x);
  }

  // 'c' is found under its identifier, and under all others the same clauses as before.
  ghost predicate Again(nonces: Nonces, t: Table, t': Table, c: LClause) {
    Once(t') && forall i {:trigger Lookup(nonces, t', i)} ::
      Lookup(nonces, t', i) == if i == c.id then Some(c) else Lookup(nonces, t, i)
  }

  // The first clause with the identifier is taken out of the table, everything else stays.
  ghost predicate Taken(nonces: Nonces, t: Table, t': Table, id: Id) {
    && (forall x {:trigger Contains(t', x)} :: Contains(t', x) ==> Contains(t, x))
    && (forall x {:trigger Contains(t, x)} :: Contains(t, x) && Some(x) != Lookup(nonces, t, id) ==> Contains(t', x))
    && (Once(t) ==>
          Once(t') && forall i {:trigger Lookup(nonces, t', i)} ::
            Lookup(nonces, t', i) == if i == id then None else Lookup(nonces, t, i))
  }

  lemma OnceRemoved(t: Table, h: nat, i: nat)
    requires Once(t) && i < |Bucket(t, h)|
    ensures var t' := t.(buckets := t.buckets[h := Remove(Bucket(t, h), i)]);
            Once(t') && forall x :: x in Bucket(t', h) ==> x.id != Bucket(t, h)[i].id
  {
    var b := Bucket(t, h);
    var t' := t.(buckets := t.buckets[h := Remove(b, i)]);
    assert DistinctIds(b);
    forall k ensures DistinctIds(Bucket(t', k)) {
      assert DistinctIds(Bucket(t, k));
    }
    forall x | x in Remove(b, i) ensures x.id != b[i].id {
      var j :| 0 <= j < |Remove(b, i)| && Remove(b, i)[j] == x;
      assert x == b[if j < i then j else j + 1];
    }
  }

  lemma TakenRemoved(nonces: Nonces, t: Table, id: Id, h: nat, i: nat)
    requires Hashed(nonces, t) && i < |Bucket(t, h)| && Lookup(nonces, t, id) == Some(Bucket(t, h)[i])
    requires Bucket(t, h)[i].id == id
    ensures Taken(nonces, t, t.(buckets := t.buckets[h := Remove(Bucket(t, h), i)]), id)
  {
    var c := Bucket(t, h)[i];
    var t' := t.(buckets := t.buckets[h := Remove(Bucket(t, h), i)]);
    ContainsRemoved(nonces, t, h, i);
    if Once(t) {
      OnceRemoved(t, h, i);
      assert c in Bucket(t, h);
      forall x | Contains(t', x) ensures x.id != id {
        var k :| x in Bucket(t', k);
        assert k != h ==> x in Bucket(t, k);
      }
      forall j ensures Lookup(nonces, t', j) == if j == id then None else Lookup(nonces, t, j) {
        if j == id {
          LookupExact(nonces, t', j);
        } else {
          SameLookup(nonces, t, t', j);
        }
      }
    }
  }

  // ----- Sorting, to compare a restored clause with the weakened one.

  function InsertSorted(x: int, s: seq<int>): seq<int> {
    if s == [] || x <= s[0] then [x] + s else [s[0]] + InsertSorted(x, s[1..])
  }

  function Sort(s: seq<int>): seq<int> {
    if s == [] then [] else InsertSorted(s[0], Sort(s[1..]))
  }

  lemma {:induction false} InsertMultiset(x: int, s: seq<int>)
    ensures multiset(InsertSorted(x, s)) == multiset(s) + multiset{x}
  {
    if !(s == [] || x <= s[0]) {
      InsertMultiset(x, s[1..]);
      assert s == [s[0]] + s[1..];
    }
  }

  lemma {:induction false} SortMultiset(s: seq<int>)
    ensures multiset(Sort(s)) == multiset(s)
  {
    if s != [] {
      SortMultiset(s[1..]);
      InsertMultiset(s[0], Sort(s[1..]));
      assert s == [s[0]] + s[1..];
    }
  }

  ghost predicate Ascending(s: seq<int>) {
    forall i, j :: 0 <= i < j < |s| ==> s[i] <= s[j]
  }

  lemma {:induction false} InsertAscending(x: int, s: seq<int>)
    requires Ascending(s)
    ensures Ascending(InsertSorted(x, s))
  {
    if !(s == [] || x <= s[0]) {
      InsertAscending(x, s[1..]);
      InsertMultiset(x, s[1..]);
      var r := InsertSorted(x, s[1..]);
      forall j | 0 <= j < |r| ensures s[0] <= r[j] {
        assert r[j] in multiset(r);
        assert r[j] == x || r[j] in s[1..];
      }
    }
  }

  lemma {:induction false} SortAscending(s: seq<int>)
    ensures Ascending(Sort(s))
  {
    if s != [] {
      SortAscending(s[1..]);
      InsertAscending(s[0], Sort(s[1..]));
    }
  }

  // There is only one way to put the elements in ascending order.
  lemma {:induction false} AscendingUnique(a: seq<int>, b: seq<int>)
    requires Ascending(a) && Ascending(b) && multiset(a) == multiset(b)
    ensures a == b
  {
    if a == [] || b == [] {
      assert |multiset(a)| == |a| && |multiset(b)| == |b|;
    } else {
      FirstSmallest(a, b);
      FirstSmallest(b, a);
      TailMultiset(a);
      TailMultiset(b);
      AscendingUnique(a[1..], b[1..]);
      assert a == [a[0]] + a[1..] && b == [b[0]] + b[1..];
    }
  }

  lemma FirstSmallest(a: seq<int>, b: seq<int>)
    requires Ascending(a) && multiset(a) == multiset(b) && a != [] && b != []
    ensures a[0] <= b[0]
  {
    assert b[0] in multiset(a);
    var j :| 0 <= j < |a| && a[j] == b[0];
  }

  lemma TailMultiset(a: seq<int>)
    requires a != []
    ensures multiset(a[1..]) == multiset(a) - multiset{a[0]}
  {
    assert a == [a[0]] + a[1..];
  }

  // Two clauses agree after sorting exactly if one is a permutation of the other.
  lemma SortCanonical(a: seq<int>, b: seq<int>)
    ensures Sort(a) == Sort(b) <==> multiset(a) == multiset(b)
  {
    SortMultiset(a);
    SortMultiset(b);
    if multiset(a) == multiset(b) {
      SortAscending(a);
      SortAscending(b);
      AscendingUnique(Sort(a), Sort(b));
    }
  }

  // What is kept about the saved clauses.
  ghost predicate SavedEntailed(saved: map<Id, seq<Lit>>, f: Formula) {
    forall id {:trigger saved[id]} :: id in saved ==>
      Ascending(saved[id]) && 0 !in saved[id] && Entails(f, LitsOf(saved[id]))
  }

  // A permutation of 'c' is saved under the identifier, everything else stays.
  ghost predicate Saved(saved: map<Id, seq<Lit>>, saved': map<Id, seq<Lit>>, id: Id, c: seq<Lit>) {
    && saved'.Keys == saved.Keys + {id} && multiset(saved'[id]) == multiset(c)
    && forall i {:trigger saved'[i]} :: i in saved && i != id ==> saved'[i] == saved[i]
  }

  lemma SupersetEntailed(f: Formula, c: Clause, d: Clause)
    requires Entails(f, c) && c <= d
    ensures Entails(f, d)
  {
    forall m: Model | Models(m, f) ensures Sat(m, d) {
      var k :| k in c && Holds(m, k);
      assert k in d;
    }
  }

  lemma SaveEntailed(saved: map<Id, seq<Lit>>, f: Formula, id: Id, c: seq<Lit>)
    requires SavedEntailed(saved, f) && Entails(f, LitsOf(c)) && 0 !in c
    ensures SavedEntailed(saved[id := Sort(c)], f)
  {
    SortMultiset(c);
    SortAscending(c);
    forall l ensures l in Sort(c) <==> l in c {
      assert l in c <==> l in multiset(c);
      assert l in Sort(c) <==> l in multiset(Sort(c));
    }
    assert LitsOf(Sort(c)) == LitsOf(c);
  }

  // Adding original clauses keeps what was entailed.
  lemma MoreOriginals(t: Table, saved: map<Id, seq<Lit>>, f: Formula, g: Formula)
    requires TableEntailed(t, f) && SavedEntailed(saved, f) && f <= g
    ensures TableEntailed(t, g) && SavedEntailed(saved, g)
  {
    forall c | Contains(t, c) ensures 0 !in c.lits && Entails(g, LitsOf(c.lits)) {
      EntailsMonotone(f, g, LitsOf(c.lits));
    }
    forall id | id in saved ensures Ascending(saved[id]) && 0 !in saved[id] && Entails(g, LitsOf(saved[id])) {
      EntailsMonotone(f, g, LitsOf(saved[id]));
    }
  }

  // The invariant of every reachable state, looked into only where 'Look' is mentioned.
  ghost predicate Sound(nonces: Nonces, t: Table, saved: map<Id, seq<Lit>>, f: Formula) {
    forall u {:trigger Look(u)} :: Look(u) ==>
      Hashed(nonces, t) && TableEntailed(t, f) && SavedEntailed(saved, f)
  }

  lemma InsertKeeps(nonces: Nonces, t: Table, saved: map<Id, seq<Lit>>, f: Formula, h: nat, c: LClause)
    requires Sound(nonces, t, saved, f) && t.size > 0
    requires c.hash == ComputeHash(nonces, c.id) && h == ReduceHash(c.hash, t.size)
    requires 0 !in c.lits && Entails(f, LitsOf(c.lits))
    ensures Sound(nonces, t.(buckets := t.buckets[h := [c] + Bucket(t, h)]), saved, f)
    ensures Put(nonces, t, t.(buckets := t.buckets[h := [c] + Bucket(t, h)]), c)
  {
    assert Look(0);
    ContainsHead(t, h, c);
    HashedHead(nonces, t, h, c);
    PutHead(nonces, t, h, c);
  }

  lemma SameTableReflexive(nonces: Nonces, t: Table)
    ensures SameTable(nonces, t, t)
  {
  }

  lemma SameContentsKeeps(nonces: Nonces, t: Table, t': Table, saved: map<Id, seq<Lit>>, f: Formula)
    requires Sound(nonces, t, saved, f) && Hashed(nonces, t')
    requires forall c :: Contains(t', c) ==> Contains(t, c)
    ensures Sound(nonces, t', saved, f)
  {
    assert Look(0);
  }

  lemma OriginalKeeps(nonces: Nonces, t: Table, saved: map<Id, seq<Lit>>, f: Formula, c: Clause)
    requires Sound(nonces, t, saved, f)
    ensures Sound(nonces, t, saved, f + iset{c}) && Entails(f + iset{c}, c)
  {
    assert Look(0);
    MoreOriginals(t, saved, f, f + iset{c});
  }

  lemma DerivedEntailed(nonces: Nonces, t: Table, saved: map<Id, seq<Lit>>, f: Formula, clause: seq<Lit>, chain: seq<Id>)
    requires Sound(nonces, t, saved, f) && 0 !in clause && Accepts(nonces, t, clause, chain)
    ensures Entails(f, LitsOf(clause))
  {
    assert Look(0);
    AcceptedEntailed(nonces, t, f, clause, chain);
  }

  lemma FoundEntailed(nonces: Nonces, t: Table, saved: map<Id, seq<Lit>>, f: Formula, id: Id)
    requires Sound(nonces, t, saved, f) && Lookup(nonces, t, id).Some?
    ensures var d := Lookup(nonces, t, id).value; 0 !in d.lits && Entails(f, LitsOf(d.lits))
  {
    assert Look(0);
    LookupExact(nonces, t, id);
    assert Contains(t, Lookup(nonces, t, id).value);
  }

  lemma WeakenKeeps(nonces: Nonces, t: Table, saved: map<Id, seq<Lit>>, f: Formula, id: Id, c: seq<Lit>)
    requires Sound(nonces, t, saved, f) && 0 !in c && Lookup(nonces, t, id).Some?
    requires LitsOf(Lookup(nonces, t, id).value.lits) <= LitsOf(c)
    ensures Sound(nonces, t, saved[id := Sort(c)], f)
  {
    FoundEntailed(nonces, t, saved, f, id);
    SupersetEntailed(f, LitsOf(Lookup(nonces, t, id).value.lits), LitsOf(c));
    assert Look(0);
    SaveEntailed(saved, f, id, c);
  }

  lemma RestoreKeeps(nonces: Nonces, t: Table, saved: map<Id, seq<Lit>>, f: Formula, id: Id, c: seq<Lit>)
    requires Sound(nonces, t, saved, f) && id in saved && multiset(c) == multiset(saved[id])
    ensures Sound(nonces, t, saved - {id}, f)
    ensures 0 !in c && Entails(f, LitsOf(c))
  {
    assert Look(0);
    forall l ensures l in saved[id] <==> l in c {
      assert l in c <==> l in multiset(c);
      assert l in saved[id] <==> l in multiset(saved[id]);
    }
    assert LitsOf(saved[id]) == LitsOf(c);
    assert SavedEntailed(saved - {id}, f) by {
      forall i | i in saved - {id}
        ensures Ascending((saved - {id})[i]) && 0 !in (saved - {id})[i] && Entails(f, LitsOf((saved - {id})[i])) {
        assert saved[i] == (saved - {id})[i];
      }
    }
  }

  // An identifier taken out of the table is free.
  lemma FreeAfter(nonces: Nonces, t': Table, saved: map<Id, seq<Lit>>, f: Formula, id: Id, t: Table)
    requires Sound(nonces, t', saved, f) && Taken(nonces, t, t', id)
    ensures Once(t) ==> forall x: LClause {:trigger Contains(t', x)} :: Contains(t', x) ==> x.id != id
  {
    assert Look(0);
    LookupExact(nonces, t', id);
  }

  // A sorted clause is the one saved exactly if the clause is a permutation of it.
  lemma SavedExact(nonces: Nonces, t: Table, saved: map<Id, seq<Lit>>, f: Formula, id: Id, c: seq<Lit>)
    requires Sound(nonces, t, saved, f) && id in saved
    ensures Sort(c) == saved[id] <==> multiset(c) == multiset(saved[id])
  {
    assert Look(0);
    SortMultiset(c);
    SortAscending(c);
    if multiset(c) == multiset(saved[id]) {
      AscendingUnique(Sort(c), saved[id]);
    }
  }

  // ----- Enlarging the table.

  // The clause is in one of the first 'i' chains.
  ghost predicate Before(t: Table, i: nat, x: LClause) {
    exists h: nat :: h < i && x in Bucket(t, h)
  }

  // The chains before 'i' and the clauses 'seen' of chain 'i' were moved.
  ghost predicate Moving(nonces: Nonces, t: Table, t': Table, i: nat, seen: seq<LClause>) {
    && Hashed(nonces, t')
    && (forall x {:trigger Contains(t', x)} :: Contains(t', x) <==> x in seen || Before(t, i, x))
    && (Once(t) ==> Once(t'))
  }

  // The next clause of the chain has an identifier that was not moved yet.
  lemma MovingFresh(nonces: Nonces, t: Table, i: nat, k: nat, x: LClause)
    requires Hashed(nonces, t) && Once(t) && k < |Bucket(t, i)|
    requires x in Bucket(t, i)[..k] || Before(t, i, x)
    ensures x.id != Bucket(t, i)[k].id
  {
    var b := Bucket(t, i);
    assert b[k] in b && DistinctIds(b);
    if x !in b[..k] {
      var n: nat :| n < i && x in Bucket(t, n);
    }
  }

  lemma MovingStep(nonces: Nonces, t: Table, t': Table, i: nat, k: nat)
    requires Hashed(nonces, t) && t'.size > 0 && k < |Bucket(t, i)| && Moving(nonces, t, t', i, Bucket(t, i)[..k])
    ensures var c := Bucket(t, i)[k];
            var h := ReduceHash(c.hash, t'.size);
            Moving(nonces, t, t'.(buckets := t'.buckets[h := [c] + Bucket(t', h)]), i, Bucket(t, i)[..k+1])
  {
    var b := Bucket(t, i);
    var c := b[k];
    assert c in Bucket(t, i);
    var h := ReduceHash(c.hash, t'.size);
    assert b[..k+1] == b[..k] + [c];
    ContainsHead(t', h, c);
    HashedHead(nonces, t', h, c);
    if Once(t) {
      forall x | Contains(t', x) ensures x.id != c.id {
        MovingFresh(nonces, t, i, k, x);
      }
      OnceHead(t', h, c);
    }
  }

  lemma MovingNext(nonces: Nonces, t: Table, t': Table, i: nat)
    requires Moving(nonces, t, t', i, Bucket(t, i))
    ensures Moving(nonces, t, t', i + 1, [])
  {
    forall x ensures Before(t, i + 1, x) <==> x in Bucket(t, i) || Before(t, i, x) {
      if x in Bucket(t, i) {
        assert i < i + 1;
      }
    }
  }

  lemma ContainedBefore(nonces: Nonces, t: Table, x: LClause)
    requires Hashed(nonces, t) && Contains(t, x)
    ensures Before(t, t.size, x)
  {
    var h: nat :| x in Bucket(t, h);
    assert t.size > 0 && h == ReduceHash(x.hash, t.size);
  }

  lemma MovingDone(nonces: Nonces, t: Table, t': Table)
    requires Hashed(nonces, t) && Moving(nonces, t, t', t.size, [])
    ensures SameTable(nonces, t, t')
  {
    forall x ensures Contains(t', x) <==> Contains(t, x) {
      if Contains(t, x) {
        ContainedBefore(nonces, t, x);
      }
    }
    SameTableIntro(nonces, t, t');
  }

  class LratChecker {
    const nonces: Nonces
    var strict: bool
    var concluded: bool
    var numClauses: Word                    // number of clauses in hash table
    var sizeClauses: nat                    // size of clause hash table
    var clauses: map<nat, seq<LClause>>     // hash table of clauses
    var toReconstruct: map<Id, seq<Lit>>
    var currentId: Id

    // The original clauses: all that were added as original without having been checked.
    ghost var originals: Formula

    ghost function Tab(): Table
      reads this
    {
      Table(sizeClauses, clauses)
    }

    ghost predicate Valid()
      reads this
    {
      Sound(nonces, Tab(), toReconstruct, originals) && (sizeClauses == 0 ==> numClauses == 0)
    }

    constructor (nonces: Nonces, strict: bool)
      ensures Valid() && originals == iset{} && this.nonces == nonces && this.strict == strict
      ensures sizeClauses == 0 && clauses == map[] && currentId == 0 && !concluded && toReconstruct == map[]
    {
      this.nonces, this.strict, concluded := nonces, strict, false;
      numClauses, sizeClauses, clauses, toReconstruct, currentId := 0, 0, map[], map[], 0;
      originals := iset{};
      new;
      assert forall h :: Bucket(Tab(), h) == [];
    }

    // Position of the first clause with the given identifier in its chain.
    method Find(id: Id) returns (h: nat, pos: nat, d: Option<LClause>)
      requires sizeClauses > 0
      ensures h == ReduceHash(ComputeHash(nonces, id), sizeClauses)
      ensures d == Lookup(nonces, Tab(), id)
      ensures d.Some? ==> pos < |Bucket(Tab(), h)| && Bucket(Tab(), h)[pos] == d.value
    {
      var hash := ComputeHash(nonces, id);
      h := ReduceHash(hash, sizeClauses);
      var chain := if h in clauses then clauses[h] else [];
      pos := 0;
      d := None;
      while pos < |chain|
        invariant pos <= |chain|
        invariant FirstWith(chain, hash, id) == FirstWith(chain[pos..], hash, id)
      {
        if chain[pos].hash == hash && chain[pos].id == id {
          d := Some(chain[pos]);
          return;
        }
        pos := pos + 1;
      }
    }

    // Double the table and move every clause to its new chain.
    method EnlargeClauses()
      requires Valid()
      modifies `clauses, `sizeClauses
      ensures Valid() && sizeClauses > 0 && SameTable(nonces, old(Tab()), Tab())
    {
      ghost var t := Tab();
      assert Look(0);
      var newSize: nat := if sizeClauses > 0 then 2 * sizeClauses else 1;
      var newClauses: map<nat, seq<LClause>> := map[];
      var i: nat := 0;
      while i < sizeClauses
        invariant i <= sizeClauses && Tab() == t
        invariant Moving(nonces, t, Table(newSize, newClauses), i, [])
        decreases sizeClauses - i
      {
        var chain := if i in clauses then clauses[i] else [];
        newClauses := MoveChain(newSize, newClauses, chain, t, i);
        MovingNext(nonces, t, Table(newSize, newClauses), i);
        i := i + 1;
      }
      MovingDone(nonces, t, Table(newSize, newClauses));
      clauses := newClauses;
      sizeClauses := newSize;
      SameContentsKeeps(nonces, t, Tab(), toReconstruct, originals);
    }

    method MoveChain(newSize: nat, old_: map<nat, seq<LClause>>, chain: seq<LClause>, ghost t: Table, ghost i: nat)
      returns (newClauses: map<nat, seq<LClause>>)
      requires newSize > 0 && Hashed(nonces, t) && chain == Bucket(t, i)
      requires Moving(nonces, t, Table(newSize, old_), i, [])
      ensures Moving(nonces, t, Table(newSize, newClauses), i, chain)
    {
      newClauses := old_;
      assert chain[..0] == [];
      for k := 0 to |chain|
        invariant Moving(nonces, t, Table(newSize, newClauses), i, chain[..k])
      {
        var c := chain[k];
        var h := ReduceHash(c.hash, newSize);
        MovingStep(nonces, t, Table(newSize, newClauses), i, k);
        newClauses := newClauses[h := [c] + if h in newClauses then newClauses[h] else []];
      }
      assert chain[..|chain|] == chain;
    }

    // Put a new clause at the head of its chain.
    method Insert(id: Id, lits: seq<Lit>)
      requires Valid() && 0 !in lits && Entails(originals, LitsOf(lits))
      modifies `clauses, `sizeClauses, `numClauses
      ensures Valid() && sizeClauses > 0
      ensures Put(nonces, old(Tab()), Tab(), LClause(id, ComputeHash(nonces, id), lits, TautologicalSeq(lits)))
    {
      ghost var t := Tab();
      SameTableReflexive(nonces, t);
      if numClauses == sizeClauses {
        EnlargeClauses();
      }
      ghost var t1 := Tab();
      var hash := ComputeHash(nonces, id);
      var h := ReduceHash(hash, sizeClauses);
      var tautological := IsTautological(lits);
      var c := LClause(id, hash, lits, tautological);
      numClauses := (numClauses + 1) % WORD64;
      InsertKeeps(nonces, Tab(), toReconstruct, originals, h, c);
      clauses := clauses[h := [c] + if h in clauses then clauses[h] else []];
      PutSame(nonces, t, t1, Tab(), c);
    }

    // Assign the negation of every literal; a literal found assigned makes a tautology.
    method IsTautological(lits: seq<Lit>) returns (tautological: bool)
      ensures tautological <==> TautologicalSeq(lits)
    {
      var checkedLits: set<Lit> := {};
      tautological := false;
      for i := 0 to |lits|
        invariant checkedLits == Negations(lits[..i])
        invariant tautological <==> TautologicalSeq(lits[..i])
      {
        assert lits[..i+1] == lits[..i] + [lits[i]];
        TautologyLast(lits[..i], lits[i]);
        checkedLits := checkedLits + {-lits[i]};
        if lits[i] in checkedLits {
          tautological := true;
        }
      }
      assert lits[..|lits|] == lits;
    }

    // The literals of a hint clause under the current assignment.
    method ScanClause(checkedLits: set<Lit>, lits: seq<Lit>) returns (s: Status)
      ensures s == Scan(checkedLits, lits)
    {
      s := Falsified;
      for i := 0 to |lits|
        invariant s == Scan(checkedLits, lits[..i]) && !s.Stuck?
      {
        assert lits[..i+1][..i] == lits[..i];
        var lit := lits[i];
        if -lit in checkedLits { continue; }
        if s.Unit? && s.lit != lit {
          s := Stuck;
          StuckStays(checkedLits, lits, i + 1);
          return;
        }
        s := Unit(lit);
      }
      assert lits[..|lits|] == lits;
    }

    // Check that a clause follows by unit propagation along the hints.
    method Check(lits: seq<Lit>, chain: seq<Id>) returns (ok: bool)
      requires chain != [] ==> sizeClauses > 0
      ensures ok <==> Accepts(nonces, Tab(), lits, chain)
    {
      var tautological := IsTautological(lits);
      if tautological {
        return true;
      }
      var checkedLits := Negations(lits);
      var used: set<Id> := {};
      ok := false;
      for i := 0 to |chain|
        invariant !ok && (Follow(nonces, Tab(), Negations(lits), {}, chain) <==>
                          Follow(nonces, Tab(), checkedLits, used, chain[i..]))
      {
        var id := chain[i];
        var h, pos, d := Find(id);
        if d.None? { return; }
        if d.value.tautological { return; }
        if id in used { return; }
        used := used + {id};
        var s := ScanClause(checkedLits, d.value.lits);
        if s.Stuck? { return; }
        if s.Falsified? { return true; }
        checkedLits := checkedLits + {s.lit};
        assert chain[i..][1..] == chain[i+1..];
      }
    }

    // Are all literals of 'd' among 'lits'?
    method AllMarked(d: seq<Lit>, lits: seq<Lit>) returns (ok: bool)
      ensures ok <==> LitsOf(d) <= LitsOf(lits)
    {
      var marks := LitsOf(lits);
      for i := 0 to |d|
        invariant LitsOf(d[..i]) <= marks
      {
        assert d[..i+1] == d[..i] + [d[i]];
        if d[i] !in marks {
          assert d[i] in LitsOf(d);
          return false;
        }
      }
      assert d[..|d|] == d;
      ok := true;
    }

    // Compare a clause to restore with the one that was saved when it was weakened.
    method RestoreClause(id: Id, c: seq<Lit>) returns (ok: bool)
      requires Valid()
      modifies `toReconstruct
      ensures Valid()
      ensures ok <==> if id in old(toReconstruct) then multiset(c) == multiset(old(toReconstruct)[id]) else !strict
      ensures toReconstruct == if ok then old(toReconstruct) - {id} else old(toReconstruct)
      ensures ok && id in old(toReconstruct) ==> 0 !in c && Entails(originals, LitsOf(c))
    {
      if id !in toReconstruct {
        return !strict;
      }
      var e, d := Sort(c), toReconstruct[id];
      SavedExact(nonces, Tab(), toReconstruct, originals, id, c);
      var eq := |e| == |d|;
      var i := 0;
      while i < |e| && eq
        invariant i <= |e| && (eq ==> |e| == |d| && e[..i] == d[..i])
        invariant !eq ==> e != d
        decreases |e| - i
      {
        eq := e[i] == d[i];
        i := i + 1;
      }
      if !eq {
        return false;
      }
      assert e == d;
      RestoreKeeps(nonces, Tab(), toReconstruct, originals, id, c);
      toReconstruct := toReconstruct - {id};
      return true;
    }

    // An original clause needs no check.  A restored one is not original if it was saved before.
    method AddOriginalClause(id: Id, c: seq<Lit>, restore: bool) returns (ok: bool)
      requires Valid() && id > 0 && 0 !in c
      modifies this
      ensures ok ==> Valid() && sizeClauses > 0
      ensures ok ==> Put(nonces, old(Tab()), Tab(), LClause(id, ComputeHash(nonces, id), c, TautologicalSeq(c)))
      ensures !ok ==> Tab() == old(Tab())
      ensures currentId == if !restore && id == 1 + old(currentId) then id else old(currentId)
      ensures originals == if ok && !(restore && id in old(toReconstruct)) then old(originals) + iset{LitsOf(c)} else old(originals)
      ensures strict == old(strict) && concluded == old(concluded)
      ensures !restore ==> (ok <==> Lookup(nonces, old(Tab()), id).None?)
      ensures restore ==> (ok <==> if id in old(toReconstruct) then multiset(c) == multiset(old(toReconstruct)[id]) else !strict)
      ensures toReconstruct == if restore && ok then old(toReconstruct) - {id} else old(toReconstruct)
    {
      var saved := restore && id in toReconstruct;
      if restore {
        ok := RestoreClause(id, c);
        if !ok { return; }
      }
      if !restore && id == 1 + currentId {
        currentId := id;
      }
      if sizeClauses > 0 && !restore {
        var h, pos, d := Find(id);
        if d.Some? {
          return false;
        }
      }
      if !saved {
        OriginalKeeps(nonces, Tab(), toReconstruct, originals, LitsOf(c));
        originals := originals + iset{LitsOf(c)};
      }
      Insert(id, c);
      ok := true;
    }

    // A derived clause is inserted only if its hint chain is accepted.  The outcome of the
    // additional resolution check is a parameter.
    method AddDerivedClause(id: Id, c: seq<Lit>, chain: seq<Id>, resolution: bool) returns (ok: bool)
      requires Valid() && id > 0 && id == currentId + 1 && 0 !in c
      requires chain != [] ==> sizeClauses > 0
      modifies `clauses, `sizeClauses, `numClauses, `currentId
      ensures Valid()
      ensures ok <==> Accepts(nonces, old(Tab()), c, chain) && resolution &&
                      !(old(sizeClauses) > 0 && Lookup(nonces, old(Tab()), id).Some?)
      ensures ok ==> Entails(originals, LitsOf(c)) && sizeClauses > 0
      ensures ok ==> Put(nonces, old(Tab()), Tab(), LClause(id, ComputeHash(nonces, id), c, TautologicalSeq(c)))
      ensures !ok ==> Tab() == old(Tab())
      ensures currentId == id
    {
      currentId := id;
      if sizeClauses > 0 {
        var h, pos, d := Find(id);
        if d.Some? {
          return false;
        }
      }
      ok := Check(c, chain);
      if !ok || !resolution {
        return false;
      }
      DerivedEntailed(nonces, Tab(), toReconstruct, originals, c, chain);
      Insert(id, c);
    }

    // Remove a clause; the given literals must cover the clause found.
    method DeleteClause(id: Id, c: seq<Lit>) returns (ok: bool)
      requires Valid() && sizeClauses > 0
      modifies `clauses, `numClauses
      ensures Valid()
      ensures ok <==> var d := Lookup(nonces, old(Tab()), id); d.Some? && LitsOf(d.value.lits) <= LitsOf(c)
      ensures if ok then Taken(nonces, old(Tab()), Tab(), id) else Tab() == old(Tab())
    {
      ghost var t := Tab();
      var h, pos, d := Find(id);
      if d.None? {
        return false;
      }
      ok := AllMarked(d.value.lits, c);
      if !ok { return; }
      numClauses := (numClauses + WORD64 - 1) % WORD64;
      clauses := clauses[h := Remove(clauses[h], pos)];
      assert Look(0);
      ContainsRemoved(nonces, t, h, pos);
      LookupExact(nonces, t, id);
      TakenRemoved(nonces, t, id, h, pos);
      SameContentsKeeps(nonces, t, Tab(), toReconstruct, originals);
    }

    // Save a clause so that it can be restored later without being checked again.
    method WeakenMinus(id: Id, c: seq<Lit>) returns (ok: bool)
      requires Valid() && sizeClauses > 0 && id <= currentId && 0 !in c
      modifies `toReconstruct
      ensures Valid()
      ensures ok <==> var d := Lookup(nonces, Tab(), id); d.Some? && LitsOf(d.value.lits) <= LitsOf(c)
      ensures if ok then Saved(old(toReconstruct), toReconstruct, id, c) else toReconstruct == old(toReconstruct)
    {
      var h, pos, d := Find(id);
      if d.None? {
        return false;
      }
      ok := AllMarked(d.value.lits, c);
      if !ok { return; }
      WeakenKeeps(nonces, Tab(), toReconstruct, originals, id, c);
      SortMultiset(c);
      toReconstruct := toReconstruct[id := Sort(c)];
    }

    // A weakened clause is deleted and restored later.  The order of its literals may be another one
    // then, but it has to be the same clause, and it is in the table again as before.
    method WeakenAndRestore(id: Id, c: seq<Lit>, d: seq<Lit>) returns (weakened: bool, restored: bool)
      requires Valid() && sizeClauses > 0 && 0 < id <= currentId && 0 !in c && 0 !in d
      modifies this
      ensures weakened <==> var e := Lookup(nonces, old(Tab()), id); e.Some? && LitsOf(e.value.lits) <= LitsOf(c)
      ensures restored <==> weakened && multiset(d) == multiset(c)
      ensures restored ==> Valid() && toReconstruct == old(toReconstruct) - {id} && originals == old(originals)
      ensures restored && Once(old(Tab())) ==> Again(nonces, old(Tab()), Tab(), LClause(id, ComputeHash(nonces, id), d, TautologicalSeq(d)))
    {
      restored := false;
      ghost var t := Tab();
      weakened := WeakenMinus(id, c);
      if weakened {
        var deleted := DeleteClause(id, c);
        ghost var t1 := Tab();
        FreeAfter(nonces, t1, toReconstruct, originals, id, t);
        restored := AddOriginalClause(id, d, true);
      }
    }

    // Conclude that a conflict was derived: the empty clause must be in the table.
    method ConcludeConflict(id: Id) returns (ok: bool)
      requires Valid() && sizeClauses > 0
      modifies `concluded
      ensures concluded
      ensures ok <==> !old(concluded) && var d := Lookup(nonces, Tab(), id); d.Some? && d.value.lits == []
      ensures ok ==> Unsatisfiable(originals)
    {
      if concluded {
        return false;
      }
      concluded := true;
      var h, pos, d := Find(id);
      ok := d.Some? && |d.value.lits| == 0;
      if ok {
        FoundEntailed(nonces, Tab(), toReconstruct, originals, id);
        assert LitsOf([]) == {};
        assert forall m: Model :: !Sat(m, {});
      }
    }
  }

  lemma TautologyLast(s: seq<Lit>, x: Lit)
    ensures Negations(s + [x]) == Negations(s) + {-x}
    ensures TautologicalSeq(s + [x]) <==> TautologicalSeq(s) || x in Negations(s) + {-x}
  {
    NegationsLast(s, x);
    assert x in s + [x] && forall l :: l in s ==> l in s + [x];
    if TautologicalSeq(s + [x]) && !TautologicalSeq(s) {
      var l :| l in s + [x] && -l in s + [x];
      assert l == x || -l == x;
    }
  }

  lemma {:induction false} StuckStays(checked: set<Lit>, lits: seq<Lit>, i: nat)
    requires i <= |lits| && Scan(checked, lits[..i]).Stuck?
    ensures Scan(checked, lits).Stuck?
    decreases |lits| - i
  {
    if i < |lits| {
      assert lits[..i+1][..i] == lits[..i];
      StuckStays(checked, lits, i + 1);
    } else {
      assert lits[..i] == lits;
    }
  }
}
