// Blocked clause elimination: which clauses are blocked on a literal, found with move-to-front
// searches in occurrence lists and clauses.
module Block {
  import opened Cnf
  import EX = Extension
  import RE = Reconstruction
  import WA = Watching

  datatype BClause = BClause(lits: seq<Lit>, garbage: bool, id: nat)

  type Db = seq<BClause>

  // Positions in the list of clauses; the traversal needs a null pointer.
  const NULL := -1

  type Occs = map<Lit, seq<int>>

  function Occ(occs: Occs, l: Lit): seq<int> {
    if l in occs then occs[l] else []
  }

  // ----- Move to front.

  function MoveToFront(s: seq<int>, i: nat): (r: seq<int>)
    requires i < |s|
    ensures |r| == |s|
    ensures forall j {:trigger r[j]} :: 0 <= j < |r| ==> r[j] == if j == 0 then s[i] else if j <= i then s[j-1] else s[j]
  {
    [s[i]] + s[..i] + s[i+1..]
  }

  ghost predicate IsMoved(s: seq<int>, r: seq<int>, i: int) {
    0 <= i < |s| && r == MoveToFront(s, i)
  }

  // One element was moved to the front.
  ghost predicate Moved(s: seq<int>, r: seq<int>) {
    exists i :: IsMoved(s, r, i)
  }

  // During the traversal everything before position 'l' is shifted by one.
  function Shifted(s: seq<int>, l: nat, gap: int): (r: seq<int>)
    requires l <= |s|
    ensures |r| == |s|
  {
    if l == 0 then s else [gap] + s[..l-1] + s[l..]
  }

  lemma ShiftedNext(s: seq<int>, l: nat, gap: int)
    requires l < |s|
    ensures Shifted(s, l, gap)[l] == s[l]
    ensures Shifted(s, l, gap)[l := if l == 0 then gap else s[l-1]] == Shifted(s, l + 1, gap)
  {
    if l > 0 {
      var a := Shifted(s, l, gap)[l := s[l-1]];
      var b := Shifted(s, l + 1, gap);
      assert forall j :: 0 <= j < |s| ==> a[j] == b[j];
    }
  }

  // Going backwards undoes the shift.
  lemma ShiftedBack(s: seq<int>, l: nat, gap: int)
    requires 0 < l <= |s|
    ensures Shifted(s, l, gap)[l-1] == if l == 1 then gap else s[l-2]
    ensures Shifted(s, l, gap)[l-1 := s[l-1]] == Shifted(s, l - 1, gap)
  {
    var a := Shifted(s, l, gap)[l-1 := s[l-1]];
    var b := Shifted(s, l - 1, gap);
    assert forall j :: 0 <= j < |s| ==> a[j] == b[j];
  }

  lemma ShiftedFront(s: seq<int>, l: nat, gap: int)
    requires l < |s|
    ensures Shifted(s, l + 1, gap)[0 := s[l]] == MoveToFront(s, l)
  {
    assert Shifted(s, l + 1, gap) == [gap] + s[..l] + s[l+1..];
  }

  lemma MovedMultiset(s: seq<int>, i: nat)
    requires i < |s|
    ensures multiset(MoveToFront(s, i)) == multiset(s)
  {
    assert s == s[..i] + [s[i]] + s[i+1..];
  }

  // ----- Clashing literals.

  // A literal other than 'skip' occurs negated in the marked clause.
  ghost predicate ClashesMarked(lits: seq<Lit>, skip: Lit, marks: set<Lit>) {
    exists x :: x in lits && x != skip && -x in marks
  }

  ghost predicate SameClause(a: BClause, b: BClause) {
    multiset(a.lits) == multiset(b.lits) && a.garbage == b.garbage && a.id == b.id
  }

  // Only the order of literals within clauses differs.
  ghost predicate Reordered(db: Db, db': Db) {
    |db| == |db'| && forall k {:trigger db'[k]} :: 0 <= k < |db| ==> SameClause(db[k], db'[k])
  }

  lemma ReorderedLits(a: BClause, b: BClause)
    requires SameClause(a, b)
    ensures LitsOf(a.lits) == LitsOf(b.lits) && |a.lits| == |b.lits| && forall x :: x in a.lits <==> x in b.lits
  {
    assert |multiset(a.lits)| == |multiset(b.lits)|;
    forall x ensures x in a.lits <==> x in b.lits {
      assert x in a.lits <==> x in multiset(a.lits);
      assert x in b.lits <==> x in multiset(b.lits);
    }
  }

  lemma ReorderedStep(db: Db, db1: Db, k: nat, lits: seq<Lit>)
    requires Reordered(db, db1) && k < |db1| && multiset(lits) == multiset(db1[k].lits)
    ensures Reordered(db, db1[k := db1[k].(lits := lits)])
  {
  }

  // ----- The meaning of blocked.

  ghost predicate Live(db: Db, k: nat) {
    k < |db| && !db[k].garbage
  }

  ghost function Irredundant(db: Db): Formula {
    iset k: nat | Live(db, k) :: LitsOf(db[k].lits)
  }

  // All resolvents of the clause on the literal are tautological.
  ghost predicate BlockedOn(db: Db, lits: seq<Lit>, l: Lit) {
    forall k: nat {:trigger Live(db, k)} :: Live(db, k) && -l in db[k].lits ==> ClashesMarked(db[k].lits, -l, LitsOf(lits))
  }

  lemma BlockedMeaning(db: Db, lits: seq<Lit>, l: Lit)
    requires 0 !in lits
    ensures BlockedOn(db, lits, l) <==> RE.Blocked(Irredundant(db), LitsOf(lits), l)
  {
    if BlockedOn(db, lits, l) {
      forall d | d in Irredundant(db) && -l in d ensures RE.Clashes(LitsOf(lits), l, d) {
        var k: nat :| Live(db, k) && d == LitsOf(db[k].lits);
        var x :| x in db[k].lits && x != -l && -x in LitsOf(lits);
        assert -x in LitsOf(lits) && -x != l && -x != 0 && -(-x) in d;
      }
    }
    if RE.Blocked(Irredundant(db), LitsOf(lits), l) {
      forall k: nat | Live(db, k) && -l in db[k].lits ensures ClashesMarked(db[k].lits, -l, LitsOf(lits)) {
        var d := LitsOf(db[k].lits);
        assert d in Irredundant(db) && RE.Clashes(LitsOf(lits), l, d);
        var y :| y in LitsOf(lits) && y != l && y != 0 && -y in d;
        assert -(-y) == y && -y in db[k].lits && -y != -l;
      }
    }
  }

  lemma ReorderedBlocked(db: Db, db': Db, lits: seq<Lit>, l: Lit)
    requires Reordered(db, db')
    ensures BlockedOn(db, lits, l) <==> BlockedOn(db', lits, l)
    ensures Irredundant(db) == Irredundant(db')
  {
    forall k: nat ensures Live(db, k) <==> Live(db', k) {
      if k < |db| {
        assert SameClause(db[k], db'[k]);
      }
    }
    forall k | 0 <= k < |db| ensures LitsOf(db[k].lits) == LitsOf(db'[k].lits) && forall x :: x in db[k].lits <==> x in db'[k].lits {
      assert SameClause(db[k], db'[k]);
      ReorderedLits(db[k], db'[k]);
    }
    forall d ensures d in Irredundant(db) <==> d in Irredundant(db') {
      if k: nat :| Live(db, k) && d == LitsOf(db[k].lits) {
        assert Live(db', k) && d == LitsOf(db'[k].lits);
      }
      if k: nat :| Live(db', k) && d == LitsOf(db'[k].lits) {
        assert Live(db, k) && d == LitsOf(db[k].lits);
      }
    }
    var n := -l;
    forall k: nat, ms: set<Lit> | k < |db| ensures ClashesMarked(db[k].lits, n, ms) <==> ClashesMarked(db'[k].lits, n, ms) {
      assert forall x :: x in db[k].lits <==> x in db'[k].lits;
    }
  }

  // ----- Occurrence lists.

  ghost predicate Clean(db: Db) {
    forall u {:trigger Look(u)} :: Look(u) ==> forall k {:trigger db[k]} :: 0 <= k < |db| ==> WA.Distinct(db[k].lits)
  }

  // The list has all live clauses with the literal, each clause once.
  ghost predicate FullList(db: Db, list: seq<int>, l: Lit) {
    && (forall i, j :: 0 <= i < j < |list| ==> list[i] != list[j])
    && (forall i {:trigger list[i]} :: 0 <= i < |list| ==> 0 <= list[i] < |db| && l in db[list[i]].lits)
    && (forall k: nat {:trigger Live(db, k)} :: Live(db, k) && l in db[k].lits ==> k in list)
  }

  ghost predicate Connected(db: Db, occs: Occs) {
    forall u {:trigger Look(u)} :: Look(u) ==>
      forall l {:trigger FullList(db, Occ(occs, l), l)} :: FullList(db, Occ(occs, l), l)
  }

  ghost predicate AllLive(db: Db, list: seq<int>) {
    forall i {:trigger list[i]} :: 0 <= i < |list| && 0 <= list[i] < |db| ==> !db[list[i]].garbage
  }

  lemma ClauseAt(db: Db, k: nat)
    requires Clean(db) && k < |db|
    ensures WA.Distinct(db[k].lits)
  {
    assert Look(0);
  }

  lemma ListOf(db: Db, occs: Occs, l: Lit)
    requires Connected(db, occs)
    ensures FullList(db, Occ(occs, l), l)
  {
    assert Look(0);
  }

  lemma ListedAt(db: Db, occs: Occs, l: Lit, i: nat)
    requires Connected(db, occs) && i < |Occ(occs, l)|
    ensures 0 <= Occ(occs, l)[i] < |db| && l in db[Occ(occs, l)[i]].lits
  {
    ListOf(db, occs, l);
  }

  ghost predicate ClashBefore(db: Db, list: seq<int>, n: nat, l: Lit, marks: set<Lit>) {
    n <= |list| && forall j {:trigger list[j]} :: 0 <= j < n ==> 0 <= list[j] < |db| && ClashesMarked(db[list[j]].lits, -l, marks)
  }

  ghost predicate NoClashAt(db: Db, list: seq<int>, j: nat, l: Lit, marks: set<Lit>) {
    j < |list| && 0 <= list[j] < |db| && !ClashesMarked(db[list[j]].lits, -l, marks)
  }

  lemma BlockedByList(db: Db, occs: Occs, c: nat, l: Lit)
    requires Connected(db, occs) && c < |db|
    requires ClashBefore(db, Occ(occs, -l), |Occ(occs, -l)|, l, LitsOf(db[c].lits))
    ensures BlockedOn(db, db[c].lits, l)
  {
    ListOf(db, occs, -l);
    var list := Occ(occs, -l);
    forall k: nat | Live(db, k) && -l in db[k].lits ensures ClashesMarked(db[k].lits, -l, LitsOf(db[c].lits)) {
      var j :| 0 <= j < |list| && list[j] == k;
    }
  }

  lemma NotBlocked(db: Db, occs: Occs, c: nat, l: Lit, j: nat)
    requires Connected(db, occs) && c < |db| && AllLive(db, Occ(occs, -l))
    requires NoClashAt(db, Occ(occs, -l), j, l, LitsOf(db[c].lits))
    ensures !BlockedOn(db, db[c].lits, l)
  {
    ListOf(db, occs, -l);
    assert Live(db, Occ(occs, -l)[j]);
  }

  lemma ReorderedSame(db: Db)
    ensures Reordered(db, db)
  {
  }

  lemma CleanReordered(db: Db, d: nat, lits: seq<Lit>)
    requires Clean(db) && d < |db| && multiset(lits) == multiset(db[d].lits)
    ensures Clean(db[d := db[d].(lits := lits)])
  {
    assert Look(0);
    DistinctPermuted(db[d].lits, lits);
  }

  lemma DistinctPermuted(a: seq<Lit>, b: seq<Lit>)
    requires WA.Distinct(a) && multiset(a) == multiset(b)
    ensures WA.Distinct(b)
  {
    forall x ensures x in a <==> x in b {
      assert x in a <==> x in multiset(a);
      assert x in b <==> x in multiset(b);
    }
    forall i, j | 0 <= i < j < |b| ensures b[i] != b[j] {
      if b[i] == b[j] {
        assert b == b[..i] + [b[i]] + b[i+1..j] + [b[j]] + b[j+1..];
        assert multiset(b)[b[i]] >= 2;
        OccursOnce(a, b[i]);
      }
    }
  }

  lemma {:induction false} OccursOnce(s: seq<Lit>, x: Lit)
    requires forall i, j :: 0 <= i < j < |s| ==> s[i] != s[j]
    ensures multiset(s)[x] <= 1
    decreases |s|
  {
    if s != [] {
      var n := |s| - 1;
      assert s == s[..n] + [s[n]];
      OccursOnce(s[..n], x);
      assert s[n] !in s[..n];
      assert s[n] !in multiset(s[..n]);
    }
  }

  lemma ReorderedClash(db: Db, db': Db, d: nat, l: Lit, marks: set<Lit>)
    requires Reordered(db, db') && d < |db|
    ensures ClashesMarked(db'[d].lits, -l, marks) <==> ClashesMarked(db[d].lits, -l, marks)
  {
    assert SameClause(db[d], db'[d]);
    ReorderedLits(db[d], db'[d]);
  }

  // A reordered list with the same members is still complete.
  lemma ConnectedReordered(db: Db, occs: Occs, db': Db, l: Lit, list: seq<int>)
    requires Connected(db, occs) && Reordered(db, db')
    requires list == Occ(occs, -l) || Moved(Occ(occs, -l), list)
    ensures Connected(db', occs[-l := list])
  {
    assert Look(0);
    var occs' := occs[-l := list];
    forall x ensures FullList(db', Occ(occs', x), x) {
      ListReordered(db, occs, db', x);
      if x == -l && list != Occ(occs, -l) {
        var i :| IsMoved(Occ(occs, -l), list, i);
        FullMoved(db', Occ(occs, -l), x, i);
      }
    }
  }

  lemma ListReordered(db: Db, occs: Occs, db': Db, l: Lit)
    requires Connected(db, occs) && Reordered(db, db')
    ensures FullList(db', Occ(occs, l), l)
  {
    ListOf(db, occs, l);
    forall k | 0 <= k < |db| ensures forall x :: x in db[k].lits <==> x in db'[k].lits {
      assert SameClause(db[k], db'[k]);
      ReorderedLits(db[k], db'[k]);
    }
    forall k: nat | Live(db', k) && l in db'[k].lits ensures k in Occ(occs, l) {
      assert SameClause(db[k], db'[k]) && Live(db, k);
    }
  }

  lemma FullMoved(db: Db, list: seq<int>, l: Lit, i: nat)
    requires FullList(db, list, l) && i < |list|
    ensures FullList(db, MoveToFront(list, i), l)
  {
    var r := MoveToFront(list, i);
    forall k: nat | Live(db, k) && l in db[k].lits ensures k in r {
      var j :| 0 <= j < |list| && list[j] == k;
      assert r[if j == i then 0 else if j < i then j + 1 else j] == k;
    }
  }

  // ----- Removing clauses.

  // The entry has the identifier and the literals of the clause.
  ghost predicate EntryOf(l: Lit, c: BClause, e: EX.Entry) {
    e.wit == [l] && e.id == c.id && multiset(e.clause) == multiset(c.lits)
  }

  // Apart from the order of literals, clauses only became garbage.
  ghost predicate SameButGarbage(db0: Db, db: Db) {
    |db| == |db0| && forall k {:trigger db[k]} :: 0 <= k < |db0| ==>
      multiset(db[k].lits) == multiset(db0[k].lits) && db[k].id == db0[k].id && (db0[k].garbage ==> db[k].garbage)
  }

  // The clauses at 'ks' are those removed, and 'es' are their entries.
  ghost predicate ListedAs(l: Lit, db0: Db, db: Db, es: seq<EX.Entry>, ks: seq<nat>) {
    && |ks| == |es| && (forall i, j :: 0 <= i < j < |ks| ==> ks[i] != ks[j])
    && (forall i {:trigger ks[i]} :: 0 <= i < |ks| ==> ks[i] < |db0| && EntryOf(l, db0[ks[i]], es[i]))
    && forall k: nat {:trigger k in ks} {:trigger Live(db, k)} :: k in ks <==> Live(db0, k) && !Live(db, k)
  }

  // Every clause removed has exactly one entry, and there are no other entries.
  ghost predicate OneEntryEach(l: Lit, db0: Db, db: Db, es: seq<EX.Entry>) {
    forall u {:trigger Look(u)} :: Look(u) ==>
      SameButGarbage(db0, db) && exists ks {:trigger ListedAs(l, db0, db, es, ks)} :: ListedAs(l, db0, db, es, ks)
  }

  lemma OneEntryStart(l: Lit, db: Db)
    ensures OneEntryEach(l, db, db, [])
  {
    assert ListedAs(l, db, db, [], []);
  }

  lemma OneEntryReordered(l: Lit, db0: Db, db: Db, es: seq<EX.Entry>, db': Db)
    requires OneEntryEach(l, db0, db, es) && Reordered(db, db')
    ensures OneEntryEach(l, db0, db', es)
  {
    assert Look(0);
    forall k: nat ensures Live(db', k) <==> Live(db, k) {
      assert k < |db| ==> SameClause(db[k], db'[k]);
    }
    var ks :| ListedAs(l, db0, db, es, ks);
    assert ListedAs(l, db0, db', es, ks);
  }

  lemma OneEntryNext(l: Lit, db0: Db, db: Db, es: seq<EX.Entry>, k: nat)
    requires OneEntryEach(l, db0, db, es) && Live(db, k)
    ensures OneEntryEach(l, db0, Removed(db, k), es + [EX.Entry([l], db[k].lits, db[k].id)])
  {
    assert Look(0);
    var db', es' := Removed(db, k), es + [EX.Entry([l], db[k].lits, db[k].id)];
    var ks :| ListedAs(l, db0, db, es, ks);
    var ks' := ks + [k];
    assert k !in ks && EntryOf(l, db0[k], es'[|es|]);
    forall i | 0 <= i < |ks'| ensures ks'[i] < |db0| && EntryOf(l, db0[ks'[i]], es'[i]) && (i < |ks| ==> ks'[i] != k) {
      if i < |ks| {
        assert ks'[i] == ks[i] && es'[i] == es[i] && ks[i] in ks;
      }
    }
    forall n: nat ensures n in ks' <==> Live(db0, n) && !Live(db', n) {
      assert n in ks' <==> n in ks || n == k;
      assert n in ks <==> Live(db0, n) && !Live(db, n);
      assert Live(db', n) <==> Live(db, n) && n != k;
    }
    assert ListedAs(l, db0, db', es', ks');
  }

  // The entries pushed since the extension stack was 'base', all with witness 'l', reconstruct what
  // was removed.
  ghost predicate Pushing(l: Lit, db0: Db, db: Db, base: seq<int>, extension: seq<int>, es: seq<EX.Entry>) {
    && OneEntryEach(l, db0, db, es)
    && extension == base + EX.EncodeAll(es) && RE.FlipsOnly(es, l)
    && RE.Reconstructs(Irredundant(db), es, Irredundant(db0)) && Irredundant(db) <= Irredundant(db0)
  }

  lemma PushingStart(l: Lit, db: Db, extension: seq<int>)
    ensures Pushing(l, db, db, extension, extension, [])
  {
    OneEntryStart(l, db);
    RE.ReconstructsNothing(Irredundant(db), Irredundant(db));
  }

  lemma PushingReordered(l: Lit, db0: Db, db: Db, base: seq<int>, extension: seq<int>, es: seq<EX.Entry>, db': Db)
    requires Pushing(l, db0, db, base, extension, es) && Reordered(db, db')
    ensures Pushing(l, db0, db', base, extension, es)
  {
    OneEntryReordered(l, db0, db, es, db');
    ReorderedBlocked(db, db', [], 0);
  }

  function Removed(db: Db, k: nat): Db
    requires k < |db|
  {
    db[k := db[k].(garbage := true)]
  }

  lemma RemovedFormula(db: Db, k: nat)
    requires k < |db|
    ensures Irredundant(Removed(db, k)) <= Irredundant(db) <= Irredundant(Removed(db, k)) + iset{LitsOf(db[k].lits)}
  {
    forall d | d in Irredundant(Removed(db, k)) ensures d in Irredundant(db) {
      var n: nat :| Live(Removed(db, k), n) && d == LitsOf(Removed(db, k)[n].lits);
      assert Live(db, n) && d == LitsOf(db[n].lits);
    }
    forall d | d in Irredundant(db) ensures d in Irredundant(Removed(db, k)) + iset{LitsOf(db[k].lits)} {
      var n: nat :| Live(db, n) && d == LitsOf(db[n].lits);
      assert n != k ==> Live(Removed(db, k), n) && d == LitsOf(Removed(db, k)[n].lits);
    }
  }

  lemma PushingNext(db0: Db, db: Db, base: seq<int>, extension: seq<int>, es: seq<EX.Entry>, k: nat, l: Lit)
    requires Pushing(l, db0, db, base, extension, es) && Live(db, k) && l in db[k].lits && BlockedOn(db, db[k].lits, l)
    requires WA.Distinct(db[k].lits)
    ensures var e := EX.Entry([l], db[k].lits, db[k].id);
            Pushing(l, db0, Removed(db, k), base,
                    extension + [0] + [l] + [0] + [EX.HighWord(db[k].id), EX.LowWord(db[k].id)] + [0] + db[k].lits, es + [e])
  {
    var e, g := EX.Entry([l], db[k].lits, db[k].id), Irredundant(Removed(db, k));
    OneEntryNext(l, db0, db, es, k);
    RemovedFormula(db, k);
    BlockedMeaning(db, db[k].lits, l);
    RE.BlockedResolvents(g, LitsOf(db[k].lits), l);
    RE.PivotStep(g, db[k].lits, l, db[k].id);
    assert RE.Reconstructs(g, [e], Irredundant(db)) by {
      forall m: Model | Models(m, g) ensures Models(EX.Extend(m, [e]), Irredundant(db)) {
        assert Models(EX.Extend(m, [e]), g + iset{LitsOf(db[k].lits)});
      }
    }
    RE.ReconstructsTransitive(Irredundant(db0), es, Irredundant(db), [e], g);
    EX.EncodePush(es, e);
    EX.EncodeShape(extension, e);
  }

  lemma GarbageKeeps(db: Db, occs: Occs, k: nat)
    requires Clean(db) && Connected(db, occs) && k < |db|
    ensures Clean(Removed(db, k)) && Connected(Removed(db, k), occs)
  {
    assert Look(0);
    var db' := Removed(db, k);
    forall l ensures FullList(db', Occ(occs, l), l) {
      ListOf(db, occs, l);
      assert forall n: nat :: Live(db', n) ==> Live(db, n);
    }
  }

  // No live clause contains the variable.
  ghost predicate Absent(db: Db, l: Lit) {
    forall k: nat {:trigger Live(db, k)} :: Live(db, k) ==> l !in db[k].lits && -l !in db[k].lits
  }

  lemma GarbageMember(db: Db, list: seq<int>, k: nat)
    requires k in list && forall j {:trigger list[j]} :: 0 <= j < |list| ==> 0 <= list[j] < |db| && db[list[j]].garbage
    ensures k < |db| && db[k].garbage
  {
    var j :| 0 <= j < |list| && list[j] == k;
  }

  lemma AbsentErased(db: Db, occs: Occs, l: Lit)
    requires Connected(db, occs) && (forall k: nat {:trigger Live(db, k)} :: Live(db, k) ==> -l !in db[k].lits)
    requires forall j {:trigger Occ(occs, l)[j]} :: 0 <= j < |Occ(occs, l)| ==> 0 <= Occ(occs, l)[j] < |db| && db[Occ(occs, l)[j]].garbage
    ensures Absent(db, l) && Connected(db, occs[l := []][-l := []])
  {
    ListOf(db, occs, l);
    var occs' := occs[l := []][-l := []];
    forall k: nat | Live(db, k) ensures l !in db[k].lits {
      if l in db[k].lits {
        GarbageMember(db, Occ(occs, l), k);
      }
    }
    forall x ensures FullList(db, Occ(occs', x), x) {
      ListOf(db, occs, x);
    }
  }

  // ----- Candidates.

  ghost predicate InList(db: Db, list: seq<int>, y: Lit) {
    exists i :: 0 <= i < |list| && 0 <= list[i] < |db| && y in db[list[i]].lits
  }

  lemma InListLast(db: Db, list: seq<int>, i: nat)
    requires i < |list| && 0 <= list[i] < |db|
    ensures forall y {:trigger InList(db, list[..i+1], y)} {:trigger InList(db, list[..i], y)} ::
              InList(db, list[..i+1], y) <==> InList(db, list[..i], y) || y in db[list[i]].lits
  {
    assert list[..i+1] == list[..i] + [list[i]];
    forall y ensures InList(db, list[..i+1], y) <==> InList(db, list[..i], y) || y in db[list[i]].lits {
      if InList(db, list[..i], y) {
        var j :| 0 <= j < i && 0 <= list[..i][j] < |db| && y in db[list[..i][j]].lits;
        assert list[..i+1][j] == list[..i][j];
      }
      if y in db[list[i]].lits {
        assert list[..i+1][i] == list[i];
      }
    }
  }

  // 'kept' are the live clauses among the first 'n'.
  ghost predicate Kept(db: Db, list: seq<int>, n: nat, kept: seq<int>) {
    && n <= |list|
    && (forall i, j :: 0 <= i < j < |kept| ==> kept[i] != kept[j])
    && (forall j {:trigger kept[j]} :: 0 <= j < |kept| ==> kept[j] in list[..n])
    && (forall i {:trigger list[i]} :: 0 <= i < n ==> 0 <= list[i] < |db| && (!db[list[i]].garbage <==> list[i] in kept))
  }

  lemma KeptNext(db: Db, list: seq<int>, n: nat, kept: seq<int>)
    requires Kept(db, list, n, kept) && n < |list| && 0 <= list[n] < |db|
    requires forall i, j :: 0 <= i < j < |list| ==> list[i] != list[j]
    ensures Kept(db, list, n + 1, if db[list[n]].garbage then kept else kept + [list[n]])
  {
    var kept' := if db[list[n]].garbage then kept else kept + [list[n]];
    assert list[..n+1] == list[..n] + [list[n]] && list[n] !in list[..n];
    assert list[n] !in kept;
    forall j | 0 <= j < |kept'| ensures kept'[j] in list[..n+1] && (j < |kept| ==> kept'[j] != list[n]) {
      if j < |kept| {
        assert kept'[j] == kept[j] && kept[j] in kept;
      }
    }
    forall i | 0 <= i < n + 1 ensures 0 <= list[i] < |db| && (!db[list[i]].garbage <==> list[i] in kept') {
      if i < n {
        assert list[i] != list[n];
      }
    }
  }

  lemma KeptFull(db: Db, occs: Occs, l: Lit, kept: seq<int>)
    requires Connected(db, occs) && Kept(db, Occ(occs, l), |Occ(occs, l)|, kept)
    ensures Connected(db, occs[l := kept]) && FullList(db, kept, l)
  {
    var list, occs' := Occ(occs, l), occs[l := kept];
    ListOf(db, occs, l);
    assert list[..|list|] == list;
    forall j | 0 <= j < |kept| ensures 0 <= kept[j] < |db| && l in db[kept[j]].lits {
      var i :| 0 <= i < |list| && list[i] == kept[j];
    }
    forall k: nat | Live(db, k) && l in db[k].lits ensures k in kept {
      var i :| 0 <= i < |list| && list[i] == k;
    }
    forall x ensures FullList(db, Occ(occs', x), x) {
      ListOf(db, occs, x);
    }
  }

  // The literal 'y' occurs in a live clause with 'l'.
  ghost predicate InSome(db: Db, l: Lit, y: Lit) {
    exists k: nat :: Live(db, k) && l in db[k].lits && y in db[k].lits
  }

  ghost predicate HasPartner(db: Db, lits: seq<Lit>, l: Lit) {
    exists x :: x in lits && x != l && InSome(db, -l, -x)
  }

  lemma MarkedPartners(db: Db, list: seq<int>, l: Lit, marks: set<Lit>)
    requires FullList(db, list, -l) && AllLive(db, list)
    requires forall y {:trigger y in marks} :: y in marks <==> InList(db, list, y)
    ensures forall y {:trigger y in marks} :: y in marks <==> InSome(db, -l, y)
  {
    forall y ensures y in marks <==> InSome(db, -l, y) {
      if InList(db, list, y) {
        var i :| 0 <= i < |list| && 0 <= list[i] < |db| && y in db[list[i]].lits;
        assert Live(db, list[i]);
      }
      if InSome(db, -l, y) {
        var k: nat :| Live(db, k) && -l in db[k].lits && y in db[k].lits;
        var i :| 0 <= i < |list| && list[i] == k;
      }
    }
  }

  ghost predicate Candidate(db: Db, k: int, l: Lit, lo: nat, hi: nat) {
    0 <= k && Live(db, k) && l in db[k].lits && lo <= |db[k].lits| <= hi && HasPartner(db, db[k].lits, l)
  }

  ghost predicate CandidatesExact(db: Db, cs: seq<int>, l: Lit, lo: nat, hi: nat) {
    && (forall i, j :: 0 <= i < j < |cs| ==> cs[i] != cs[j])
    && (forall k {:trigger k in cs} {:trigger Candidate(db, k, l, lo, hi)} :: k in cs <==> Candidate(db, k, l, lo, hi))
  }

  // The same for the first 'n' clauses of the list, with the partners marked.
  ghost predicate FilteredTo(db: Db, list: seq<int>, n: nat, cs: seq<int>, l: Lit, marks: set<Lit>, lo: nat, hi: nat) {
    && n <= |list|
    && (forall i, j :: 0 <= i < j < |cs| ==> cs[i] != cs[j])
    && (forall k {:trigger k in cs} :: k in cs ==> k in list[..n])
    && (forall i {:trigger list[i]} :: 0 <= i < n ==> (list[i] in cs <==> Filtered(db, list[i], l, marks, lo, hi)))
  }

  ghost predicate Filtered(db: Db, k: int, l: Lit, marks: set<Lit>, lo: nat, hi: nat) {
    0 <= k < |db| && lo <= |db[k].lits| <= hi && ClashesMarked(db[k].lits, l, marks)
  }

  lemma FilteredNext(db: Db, list: seq<int>, n: nat, cs: seq<int>, l: Lit, marks: set<Lit>, lo: nat, hi: nat)
    requires FilteredTo(db, list, n, cs, l, marks, lo, hi) && n < |list|
    requires forall i, j :: 0 <= i < j < |list| ==> list[i] != list[j]
    ensures Filtered(db, list[n], l, marks, lo, hi) ==> FilteredTo(db, list, n + 1, cs + [list[n]], l, marks, lo, hi)
    ensures !Filtered(db, list[n], l, marks, lo, hi) ==> FilteredTo(db, list, n + 1, cs, l, marks, lo, hi)
  {
    assert list[..n+1] == list[..n] + [list[n]] && list[n] !in list[..n];
    assert list[n] !in cs && forall i :: 0 <= i < |cs| ==> cs[i] in cs;
    assert forall k :: k in cs + [list[n]] <==> k in cs || k == list[n];
    assert forall i :: 0 <= i < n ==> list[i] != list[n];
  }

  lemma FilteredDone(db: Db, list: seq<int>, cs: seq<int>, l: Lit, marks: set<Lit>, lo: nat, hi: nat)
    requires FilteredTo(db, list, |list|, cs, l, marks, lo, hi) && FullList(db, list, l) && AllLive(db, list)
    requires forall y {:trigger y in marks} :: y in marks <==> InSome(db, -l, y)
    ensures CandidatesExact(db, cs, l, lo, hi)
  {
    forall k ensures k in cs <==> Candidate(db, k, l, lo, hi) {
      if k in cs {
        assert k in list[..|list|];
        var i :| 0 <= i < |list| && list[i] == k;
        var x :| x in db[k].lits && x != l && -x in marks;
        assert Live(db, k) && HasPartner(db, db[k].lits, l);
      }
      if Candidate(db, k, l, lo, hi) {
        var i :| 0 <= i < |list| && list[i] == k;
        var x :| x in db[k].lits && x != l && InSome(db, -l, -x);
        assert ClashesMarked(db[k].lits, l, marks);
      }
    }
  }

  lemma InsideCandidates(db: Db, cs: seq<int>, l: Lit, lo: nat, hi: nat)
    requires CandidatesExact(db, cs, l, lo, hi)
    ensures forall i {:trigger cs[i]} :: 0 <= i < |cs| ==> 0 <= cs[i] < |db|
  {
    forall i | 0 <= i < |cs| ensures 0 <= cs[i] < |db| {
      assert cs[i] in cs;
      assert Candidate(db, cs[i], l, lo, hi);
    }
  }

  // One clause that clashes with no candidate rules out all of them.
  lemma NoneBlocked(db: Db, cs: seq<int>, l: Lit, marks: set<Lit>)
    requires forall y {:trigger y in marks} :: y in marks <==> InList(db, cs, y)
    requires forall i {:trigger cs[i]} :: 0 <= i < |cs| ==> 0 <= cs[i] < |db|
    requires exists d: nat :: Live(db, d) && -l in db[d].lits && !ClashesMarked(db[d].lits, -l, marks)
    ensures forall k :: k in cs ==> 0 <= k < |db| && !BlockedOn(db, db[k].lits, l)
  {
    var d: nat :| Live(db, d) && -l in db[d].lits && !ClashesMarked(db[d].lits, -l, marks);
    forall k | k in cs ensures 0 <= k < |db| && !BlockedOn(db, db[k].lits, l) {
      var i :| 0 <= i < |cs| && cs[i] == k;
      forall x | x in db[d].lits && x != -l ensures -x !in LitsOf(db[k].lits) {
        assert InList(db, cs, -x) <== -x in db[k].lits;
      }
      assert !ClashesMarked(db[d].lits, -l, LitsOf(db[k].lits));
    }
  }

  lemma PureBlocked(db0: Db, db: Db, k: nat, l: Lit)
    requires k < |db| && forall n: nat :: Live(db0, n) ==> -l !in db0[n].lits
    requires forall n: nat {:trigger Live(db, n)} :: Live(db, n) ==> Live(db0, n) && db[n] == db0[n]
    ensures BlockedOn(db, db[k].lits, l)
  {
  }

  // A live clause with the literal has this size.
  ghost predicate SizeFound(db: Db, l: Lit, n: nat) {
    exists k: nat :: Live(db, k) && l in db[k].lits && |db[k].lits| == n
  }

  ghost predicate Sizes(db: Db, list: seq<int>, m: nat) {
    forall j {:trigger list[j]} :: 0 <= j < |list| ==> 0 <= list[j] < |db| && |db[list[j]].lits| <= m
  }

  // The live clauses among the first 'n', and their maximum size.
  ghost predicate FlushedTo(db: Db, list: seq<int>, n: nat, kept: seq<int>, m: nat, l: Lit) {
    forall u {:trigger Look(u)} :: Look(u) ==>
      Kept(db, list, n, kept) && AllLive(db, kept) && Sizes(db, kept, m) && (m > 0 ==> SizeFound(db, l, m))
  }

  lemma FlushedStart(db: Db, list: seq<int>, l: Lit)
    ensures FlushedTo(db, list, 0, [], 0, l)
  {
  }

  lemma SizesLast(db: Db, kept: seq<int>, m: nat, x: nat)
    requires AllLive(db, kept) && Sizes(db, kept, m) && Live(db, x)
    ensures AllLive(db, kept + [x]) && Sizes(db, kept + [x], if |db[x].lits| > m then |db[x].lits| else m)
  {
  }

  lemma FlushedSkip(db: Db, list: seq<int>, n: nat, kept: seq<int>, m: nat, l: Lit)
    requires FlushedTo(db, list, n, kept, m, l) && n < |list| && FullList(db, list, l) && db[list[n]].garbage
    ensures FlushedTo(db, list, n + 1, kept, m, l)
  {
    assert Look(0);
    KeptNext(db, list, n, kept);
  }

  lemma FlushedKeep(db: Db, list: seq<int>, n: nat, kept: seq<int>, m: nat, l: Lit)
    requires FlushedTo(db, list, n, kept, m, l) && n < |list| && FullList(db, list, l) && !db[list[n]].garbage
    ensures FlushedTo(db, list, n + 1, kept + [list[n]], if |db[list[n]].lits| > m then |db[list[n]].lits| else m, l)
  {
    assert Look(0);
    KeptNext(db, list, n, kept);
    SizesLast(db, kept, m, list[n]);
    assert Live(db, list[n]);
  }

  lemma FlushedFacts(db: Db, list: seq<int>, kept: seq<int>, m: nat, l: Lit)
    requires FlushedTo(db, list, |list|, kept, m, l)
    ensures Kept(db, list, |list|, kept) && AllLive(db, kept) && Sizes(db, kept, m) && (m > 0 ==> SizeFound(db, l, m))
  {
    assert Look(0);
  }

  // ----- Exactly the blocked clauses are removed.

  // The first 'n' candidates are removed if they are blocked; otherwise only the order of literals changed.
  ghost predicate TriedAt(db0: Db, db: Db, cs: seq<int>, n: nat, l: Lit, k: nat)
    requires k < |db0| && |db| == |db0| && n <= |cs|
  {
    && multiset(db[k].lits) == multiset(db0[k].lits) && db[k].id == db0[k].id
    && (db[k].garbage <==> db0[k].garbage || (k in cs[..n] && BlockedOn(db0, db0[k].lits, l)))
  }

  ghost predicate Tried(db0: Db, db: Db, cs: seq<int>, n: nat, l: Lit) {
    n <= |cs| && |db| == |db0| && forall k {:trigger TriedAt(db0, db, cs, n, l, k)} :: 0 <= k < |db0| ==> TriedAt(db0, db, cs, n, l, k)
  }

  lemma TriedStart(db: Db, cs: seq<int>, l: Lit)
    ensures Tried(db, db, cs, 0, l)
  {
    forall k | 0 <= k < |db| ensures TriedAt(db, db, cs, 0, l, k) {
      assert k !in cs[..0];
    }
  }

  lemma TriedReordered(db0: Db, db: Db, cs: seq<int>, n: nat, l: Lit, db': Db)
    requires Tried(db0, db, cs, n, l) && Reordered(db, db')
    ensures Tried(db0, db', cs, n, l)
  {
    forall k | 0 <= k < |db0| ensures TriedAt(db0, db', cs, n, l, k) {
      assert TriedAt(db0, db, cs, n, l, k) && SameClause(db[k], db'[k]);
    }
  }

  // The negative clauses are those of before, so that being blocked does not depend on the clauses
  // removed so far.
  lemma TriedSame(db0: Db, db: Db, cs: seq<int>, n: nat, l: Lit, lits: seq<Lit>)
    requires Tried(db0, db, cs, n, l) && Clean(db0) && l != 0
    requires forall j :: 0 <= j < n ==> 0 <= cs[j] < |db0| && l in db0[cs[j]].lits
    ensures BlockedOn(db, lits, l) <==> BlockedOn(db0, lits, l)
  {
    var m := -l;
    forall k: nat, ms: set<Lit> | k < |db0|
      ensures (Live(db, k) && m in db[k].lits <==> Live(db0, k) && m in db0[k].lits)
      ensures ClashesMarked(db[k].lits, m, ms) <==> ClashesMarked(db0[k].lits, m, ms)
    {
      assert TriedAt(db0, db, cs, n, l, k);
      SameMultiset(db[k].lits, db0[k].lits);
      if k in cs[..n] {
        var j :| 0 <= j < n && cs[j] == k;
        ClauseAt(db0, k);
      }
    }
  }

  lemma SameMultiset(a: seq<Lit>, b: seq<Lit>)
    requires multiset(a) == multiset(b)
    ensures |a| == |b| && LitsOf(a) == LitsOf(b) && forall x :: x in a <==> x in b
  {
    ReorderedLits(BClause(a, false, 0), BClause(b, false, 0));
  }

  // The next candidate is still there.
  lemma TriedCandidate(db0: Db, db: Db, cs: seq<int>, i: nat, l: Lit)
    requires Tried(db0, db, cs, i, l) && i < |cs| && 0 <= cs[i] && Live(db0, cs[i]) && l in db0[cs[i]].lits
    requires forall j :: 0 <= j < i ==> cs[j] != cs[i]
    ensures Live(db, cs[i]) && l in db[cs[i]].lits
  {
    var k: nat := cs[i];
    assert TriedAt(db0, db, cs, i, l, k);
    assert k !in cs[..i];
    SameMultiset(db[k].lits, db0[k].lits);
  }

  lemma TriedIndices(cs: seq<int>, i: nat, k: int)
    requires i < |cs|
    ensures k in cs[..i+1] <==> k in cs[..i] || k == cs[i]
  {
    assert cs[..i+1] == cs[..i] + [cs[i]];
  }

  lemma TriedDecision(db0: Db, db: Db, cs: seq<int>, i: nat, l: Lit)
    requires Tried(db0, db, cs, i, l) && i < |cs| && 0 <= cs[i] < |db0| && Clean(db0) && l != 0
    requires forall j :: 0 <= j < i ==> 0 <= cs[j] < |db0| && l in db0[cs[j]].lits
    ensures BlockedOn(db, db[cs[i]].lits, l) <==> BlockedOn(db0, db0[cs[i]].lits, l)
  {
    var k: nat := cs[i];
    assert TriedAt(db0, db, cs, i, l, k);
    SameMultiset(db[k].lits, db0[k].lits);
    TriedSame(db0, db, cs, i, l, db0[k].lits);
  }

  lemma TriedBlocked(db0: Db, db: Db, cs: seq<int>, i: nat, l: Lit)
    requires Tried(db0, db, cs, i, l) && i < |cs| && 0 <= cs[i] < |db0| && BlockedOn(db0, db0[cs[i]].lits, l)
    ensures Tried(db0, Removed(db, cs[i]), cs, i + 1, l)
  {
    var db', n := Removed(db, cs[i]), i + 1;
    forall k | 0 <= k < |db0| ensures TriedAt(db0, db', cs, n, l, k) {
      assert TriedAt(db0, db, cs, i, l, k);
      TriedIndices(cs, i, k);
    }
  }

  lemma TriedNotBlocked(db0: Db, db: Db, cs: seq<int>, i: nat, l: Lit)
    requires Tried(db0, db, cs, i, l) && i < |cs| && 0 <= cs[i] < |db0| && !BlockedOn(db0, db0[cs[i]].lits, l)
    ensures Tried(db0, db, cs, i + 1, l)
  {
    var n := i + 1;
    forall k | 0 <= k < |db0| ensures TriedAt(db0, db, cs, n, l, k) {
      assert TriedAt(db0, db, cs, i, l, k);
      TriedIndices(cs, i, k);
    }
  }

  lemma CandidateIn(db: Db, cs: seq<int>, l: Lit, lo: nat, hi: nat)
    requires CandidatesExact(db, cs, l, lo, hi)
    ensures forall i {:trigger cs[i]} :: 0 <= i < |cs| ==> 0 <= cs[i] && Live(db, cs[i]) && l in db[cs[i]].lits
  {
    forall i | 0 <= i < |cs| ensures 0 <= cs[i] && Live(db, cs[i]) && l in db[cs[i]].lits {
      assert cs[i] in cs;
      assert Candidate(db, cs[i], l, lo, hi);
    }
  }

  lemma AllLiveReordered(db: Db, occs: Occs, db': Db, occs': Occs, l: Lit)
    requires AllLive(db, Occ(occs, -l)) && Reordered(db, db')
    requires Occ(occs', -l) == Occ(occs, -l) || Moved(Occ(occs, -l), Occ(occs', -l))
    ensures AllLive(db', Occ(occs', -l))
  {
    var a, b := Occ(occs, -l), Occ(occs', -l);
    forall i | 0 <= i < |b| && 0 <= b[i] < |db'| ensures !db'[b[i]].garbage {
      var k: nat := b[i];
      assert SameClause(db[k], db'[k]);
      if b != a {
        var p :| IsMoved(a, b, p);
        assert b[i] == if i == 0 then a[p] else if i <= p then a[i-1] else a[i];
      }
    }
  }

  lemma AllLiveRemoved(db: Db, occs: Occs, k: nat, l: Lit)
    requires AllLive(db, Occ(occs, -l)) && Connected(db, occs) && Clean(db) && k < |db| && l in db[k].lits
    ensures AllLive(Removed(db, k), Occ(occs, -l))
  {
    ListOf(db, occs, -l);
    ClauseAt(db, k);
  }

  // ----- Exactness.

  ghost predicate SomeNegative(db: Db, l: Lit) {
    exists k: nat :: Live(db, k) && -l in db[k].lits
  }

  // No live clause with the literal is too large.
  ghost predicate SmallEnough(db: Db, l: Lit, hi: nat) {
    forall k: nat {:trigger Live(db, k)} :: Live(db, k) && l in db[k].lits ==> |db[k].lits| <= hi
  }

  ghost predicate BlockedAt(db0: Db, db: Db, l: Lit, lo: nat, hi: nat, k: nat)
    requires k < |db0| && |db| == |db0|
  {
    && multiset(db[k].lits) == multiset(db0[k].lits) && db[k].id == db0[k].id
    && (db[k].garbage <==> db0[k].garbage || (l in db0[k].lits && lo <= |db0[k].lits| <= hi && BlockedOn(db0, db0[k].lits, l)))
  }

  // Exactly the clauses of admissible size all of whose resolvents are tautological are removed.
  ghost predicate BlockedExactly(db0: Db, db: Db, l: Lit, lo: nat, hi: nat) {
    |db| == |db0| && forall k {:trigger BlockedAt(db0, db, l, lo, hi, k)} :: 0 <= k < |db0| ==> BlockedAt(db0, db, l, lo, hi, k)
  }

  lemma SmallestSize(db: Db, list: seq<int>, m: nat, l: Lit, hi: nat)
    requires FullList(db, list, l) && Sizes(db, list, m) && (m > 0 ==> SizeFound(db, l, m))
    ensures SmallEnough(db, l, hi) <==> m <= hi
  {
    forall k: nat | Live(db, k) && l in db[k].lits ensures |db[k].lits| <= m {
      var j :| 0 <= j < |list| && list[j] == k;
    }
    if m > hi {
      var k: nat :| Live(db, k) && l in db[k].lits && |db[k].lits| == m;
    }
  }

  // A blocked clause has a partner in every negative clause, so it is a candidate.
  lemma CandidatesSuffice(db: Db, cs: seq<int>, l: Lit, lo: nat, hi: nat)
    requires CandidatesExact(db, cs, l, lo, hi) && SomeNegative(db, l)
    ensures forall k: nat {:trigger BlockedOn(db, db[k].lits, l)} ::
              Live(db, k) && l in db[k].lits && lo <= |db[k].lits| <= hi && BlockedOn(db, db[k].lits, l) ==> k in cs
  {
    forall k: nat | Live(db, k) && l in db[k].lits && lo <= |db[k].lits| <= hi && BlockedOn(db, db[k].lits, l) ensures k in cs {
      var d: nat :| Live(db, d) && -l in db[d].lits;
      assert ClashesMarked(db[d].lits, -l, LitsOf(db[k].lits));
      var x :| x in db[d].lits && x != -l && -x in LitsOf(db[k].lits);
      assert -(-x) == x && InSome(db, -l, -(-x));
      assert HasPartner(db, db[k].lits, l);
      assert Candidate(db, k, l, lo, hi);
    }
  }

  lemma NothingBlocked(db: Db, cs: seq<int>, l: Lit, lo: nat, hi: nat)
    requires CandidatesExact(db, cs, l, lo, hi) && SomeNegative(db, l)
    requires forall k :: k in cs ==> 0 <= k < |db| && !BlockedOn(db, db[k].lits, l)
    ensures BlockedExactly(db, db, l, lo, hi)
  {
    CandidatesSuffice(db, cs, l, lo, hi);
    forall k | 0 <= k < |db| ensures BlockedAt(db, db, l, lo, hi, k) {
      assert BlockedOn(db, db[k].lits, l) ==> k !in cs;
    }
  }

  lemma TriedAll(db0: Db, db: Db, cs: seq<int>, l: Lit, lo: nat, hi: nat)
    requires CandidatesExact(db0, cs, l, lo, hi) && SomeNegative(db0, l) && Tried(db0, db, cs, |cs|, l)
    ensures BlockedExactly(db0, db, l, lo, hi)
  {
    CandidatesSuffice(db0, cs, l, lo, hi);
    assert cs[..|cs|] == cs;
    forall k | 0 <= k < |db0| ensures BlockedAt(db0, db, l, lo, hi, k) {
      assert TriedAt(db0, db, cs, |cs|, l, k);
      if k in cs {
        assert Candidate(db0, k, l, lo, hi);
      }
      assert BlockedOn(db0, db0[k].lits, l) ==> true;
    }
  }

  // ----- A single negative clause.

  ghost predicate OneNegative(db: Db, l: Lit) {
    forall j: nat, k: nat {:trigger Live(db, j), Live(db, k)} ::
      Live(db, j) && -l in db[j].lits && Live(db, k) && -l in db[k].lits ==> j == k
  }

  ghost predicate OnlyNegative(db: Db, l: Lit, d: nat) {
    Live(db, d) && -l in db[d].lits && forall k: nat {:trigger Live(db, k)} :: Live(db, k) && -l in db[k].lits ==> k == d
  }

  lemma SingleList(db: Db, occs: Occs, l: Lit, d: nat, hi: nat)
    requires Connected(db, occs) && OneNegative(db, l) && Live(db, d) && -l in db[d].lits
    ensures Connected(db, occs[-l := [d]]) && OnlyNegative(db, l, d)
    ensures SmallEnough(db, -l, hi) <==> |db[d].lits| <= hi
  {
    assert Look(0);
    var occs' := occs[-l := [d]];
    assert OnlyNegative(db, l, d);
    forall x ensures FullList(db, Occ(occs', x), x) {
      ListOf(db, occs, x);
    }
  }

  lemma SingleDecision(db: Db, l: Lit, d: nat, c: nat)
    requires OnlyNegative(db, l, d) && c < |db|
    ensures ClashesMarked(db[c].lits, l, LitsOf(db[d].lits)) <==> BlockedOn(db, db[c].lits, l)
  {
    if ClashesMarked(db[c].lits, l, LitsOf(db[d].lits)) {
      var x :| x in db[c].lits && x != l && -x in LitsOf(db[d].lits);
      assert -(-x) == x && -x in db[d].lits && -x != -l && -(-x) in LitsOf(db[c].lits);
    }
    if BlockedOn(db, db[c].lits, l) {
      assert ClashesMarked(db[d].lits, -l, LitsOf(db[c].lits));
      var y :| y in db[d].lits && y != -l && -y in LitsOf(db[c].lits);
      assert -(-y) == y && -y in db[c].lits && -y != l && -(-y) in LitsOf(db[d].lits);
    }
  }

  lemma SameClash(db0: Db, db: Db, cs: seq<int>, n: nat, l: Lit, c: nat, marks: set<Lit>)
    requires Tried(db0, db, cs, n, l) && c < |db0|
    ensures ClashesMarked(db[c].lits, l, marks) <==> ClashesMarked(db0[c].lits, l, marks)
  {
    assert TriedAt(db0, db, cs, n, l, c);
    SameMultiset(db[c].lits, db0[c].lits);
  }

  lemma TriedGrows(db0: Db, db: Db, cs: seq<int>, c: int, l: Lit)
    requires Tried(db0, db, cs, |cs|, l)
    ensures Tried(db0, db, cs + [c], |cs|, l)
  {
    assert (cs + [c])[..|cs|] == cs == cs[..|cs|];
    var cs', n := cs + [c], |cs|;
    forall k | 0 <= k < |db0| ensures TriedAt(db0, db, cs', n, l, k) {
      assert TriedAt(db0, db, cs, n, l, k);
    }
  }

  lemma ReorderedOccs(db: Db, occs: Occs, db': Db)
    requires Connected(db, occs) && Reordered(db, db')
    ensures Connected(db', occs)
  {
    assert Look(0);
    forall l ensures FullList(db', Occ(occs, l), l) {
      ListReordered(db, occs, db', l);
    }
  }

  // 'cs' are the live clauses of admissible size among the first 'n'.
  ghost predicate Admissible(db: Db, k: int, lo: nat, hi: nat) {
    0 <= k && Live(db, k) && lo <= |db[k].lits| <= hi
  }

  ghost predicate Admitted(db: Db, list: seq<int>, n: nat, cs: seq<int>, l: Lit, lo: nat, hi: nat) {
    && n <= |list|
    && (forall j {:trigger cs[j]} :: 0 <= j < |cs| ==> 0 <= cs[j] < |db| && l in db[cs[j]].lits && cs[j] in list[..n])
    && (forall i {:trigger list[i]} :: 0 <= i < n ==> (list[i] in cs <==> Admissible(db, list[i], lo, hi)))
  }

  lemma AdmittedNext(db: Db, list: seq<int>, n: nat, cs: seq<int>, l: Lit, lo: nat, hi: nat)
    requires Admitted(db, list, n, cs, l, lo, hi) && n < |list| && FullList(db, list, l)
    ensures 0 <= list[n] < |db| && l in db[list[n]].lits && list[n] !in cs
    ensures if Admissible(db, list[n], lo, hi) then Admitted(db, list, n + 1, cs + [list[n]], l, lo, hi)
            else Admitted(db, list, n + 1, cs, l, lo, hi)
  {
    assert list[..n+1] == list[..n] + [list[n]] && list[n] !in list[..n];
    assert list[n] !in cs;
    assert forall k :: k in cs + [list[n]] <==> k in cs || k == list[n];
    assert forall i :: 0 <= i < n ==> list[i] != list[n];
  }

  // Clauses not tried yet are as before.
  lemma StillGarbage(db0: Db, db: Db, list: seq<int>, n: nat, cs: seq<int>, l: Lit, lo: nat, hi: nat)
    requires Tried(db0, db, cs, |cs|, l) && n < |list| && 0 <= list[n] < |db0| && list[n] !in cs
    ensures db[list[n]].garbage == db0[list[n]].garbage && |db[list[n]].lits| == |db0[list[n]].lits|
  {
    var k: nat := list[n];
    assert TriedAt(db0, db, cs, |cs|, l, k) && cs[..|cs|] == cs;
    SameMultiset(db[k].lits, db0[k].lits);
  }

  lemma AdmittedMember(db: Db, list: seq<int>, cs: seq<int>, l: Lit, lo: nat, hi: nat, k: nat)
    requires Admitted(db, list, |list|, cs, l, lo, hi) && k in cs
    ensures Admissible(db, k, lo, hi) && l in db[k].lits
  {
    var j :| 0 <= j < |cs| && cs[j] == k;
    assert cs[j] in list[..|list|];
    var i :| 0 <= i < |list| && list[i] == k;
  }

  lemma AdmittedAll(db0: Db, db: Db, list: seq<int>, cs: seq<int>, l: Lit, lo: nat, hi: nat)
    requires Admitted(db0, list, |list|, cs, l, lo, hi) && FullList(db0, list, l) && Tried(db0, db, cs, |cs|, l)
    ensures BlockedExactly(db0, db, l, lo, hi)
  {
    assert cs[..|cs|] == cs;
    forall k | 0 <= k < |db0| ensures BlockedAt(db0, db, l, lo, hi, k) {
      assert TriedAt(db0, db, cs, |cs|, l, k);
      if k in cs {
        AdmittedMember(db0, list, cs, l, lo, hi, k);
      } else if Live(db0, k) && l in db0[k].lits {
        var i :| 0 <= i < |list| && list[i] == k;
        assert list[i] !in cs;
      }
    }
  }

  lemma NoNegative(db: Db, l: Lit)
    requires !SomeNegative(db, l)
    ensures forall k: nat :: Live(db, k) ==> -l !in db[k].lits
  {
  }

  lemma NothingPositive(db: Db, l: Lit, lo: nat, hi: nat)
    requires forall k: nat {:trigger Live(db, k)} :: Live(db, k) ==> l !in db[k].lits
    ensures BlockedExactly(db, db, l, lo, hi)
  {
    forall k | 0 <= k < |db| ensures BlockedAt(db, db, l, lo, hi, k) {
      assert !db[k].garbage ==> Live(db, k);
    }
  }

  class Blocker {
    var db: Db
    var occs: Occs
    const frozen: set<nat>
    const minSize: nat
    const maxSize: nat
    var marks: set<Lit>
    var candidates: seq<int>
    var reschedule: seq<int>
    var extension: seq<int>

    // ----- Traversals with move to front.

    // Search a literal whose negation is marked.  It is moved to the front.  Otherwise the order of
    // literals is restored.
    method FindClash(lits0: seq<Lit>, skip: Lit) returns (found: bool, lits: seq<Lit>)
      ensures found <==> ClashesMarked(lits0, skip, marks)
      ensures multiset(lits) == multiset(lits0)
      ensures if found then Moved(lits0, lits) && lits[0] != skip && -lits[0] in marks else lits == lits0
    {
      lits, found := lits0, false;
      var prev := 0;
      var l: nat := 0;
      while l < |lits|
        invariant l <= |lits| == |lits0| && lits == Shifted(lits0, l, 0) && prev == if l == 0 then 0 else lits0[l-1]
        invariant forall j :: 0 <= j < l ==> lits0[j] == skip || -lits0[j] !in marks
      {
        ShiftedNext(lits0, l, 0);
        var other := lits[l];
        lits := lits[l := prev];
        prev := other;
        if other != skip && -other in marks {
          ShiftedFront(lits0, l, 0);
          MovedMultiset(lits0, l);
          lits := lits[0 := other];
          found := true;
          assert lits0[l] in lits0 && IsMoved(lits0, lits, l);
          return;
        }
        l := l + 1;
      }
      assert !ClashesMarked(lits0, skip, marks);
      while l > 0
        invariant l <= |lits| == |lits0| && lits == Shifted(lits0, l, 0) && prev == if l == 0 then 0 else lits0[l-1]
      {
        ShiftedBack(lits0, l, 0);
        l := l - 1;
        var other := lits[l];
        lits := lits[l := prev];
        prev := other;
      }
    }

    // ----- Is a clause blocked?

    ghost predicate Valid()
      reads this
    {
      Clean(db) && Connected(db, occs)
    }

    // Search a clause whose resolvent is not tautological.  It is moved to the front of the list.
    // Otherwise the list is restored.
    method IsBlockedClause(c: nat, lit: Lit) returns (res: bool)
      requires Valid() && c < |db| && lit in db[c].lits && marks == {} && AllLive(db, Occ(occs, -lit))
      modifies `db, `occs, `marks
      ensures Valid() && marks == {} && Reordered(old(db), db) && db[c] == old(db)[c]
      ensures res <==> BlockedOn(old(db), old(db)[c].lits, lit)
      ensures forall l :: l != -lit ==> Occ(occs, l) == Occ(old(occs), l)
      ensures if res then Occ(occs, -lit) == Occ(old(occs), -lit)
              else Moved(Occ(old(occs), -lit), Occ(occs, -lit))
    {
      marks := LitsOf(db[c].lits);
      var os;
      res, os := SearchList(c, lit);
      ConnectedReordered(old(db), occs, db, lit, os);
      marks := {};
      occs := occs[-lit := os];
    }

    // Go through the clauses with the negated literal.
    method SearchList(c: nat, lit: Lit) returns (res: bool, os: seq<int>)
      requires Valid() && c < |db| && lit in db[c].lits && marks == LitsOf(db[c].lits) && AllLive(db, Occ(occs, -lit))
      modifies `db
      ensures Clean(db) && Reordered(old(db), db) && db[c] == old(db)[c]
      ensures res <==> BlockedOn(old(db), old(db)[c].lits, lit)
      ensures if res then os == Occ(occs, -lit) else Moved(Occ(occs, -lit), os)
    {
      var os0 := Occ(occs, -lit);
      ReorderedSame(db);
      os := os0;
      var prev := NULL;
      var i: nat := 0;
      res := true;
      ClauseAt(db, c);
      while i < |os| && res
        invariant i <= |os| == |os0| && Reordered(old(db), db) && db[c] == old(db)[c] && Clean(db)
        invariant res ==> os == Shifted(os0, i, NULL) && prev == if i == 0 then NULL else os0[i-1]
        invariant res ==> ClashBefore(old(db), os0, i, lit, marks)
        invariant !res ==> i < |os| && IsMoved(os0, os, i) && NoClashAt(old(db), os0, i, lit, marks)
        decreases if res then 1 else 0, |os| - i
      {
        ShiftedNext(os0, i, NULL);
        var d := os[i];
        os := os[i := prev];
        prev := d;
        ListedAt(old(db), occs, -lit, i);
        var found := ClashesWith(d, lit, c, old(db));
        if !found {
          ShiftedFront(os0, i, NULL);
          res := false;
          os := os[0 := d];
        } else {
          i := i + 1;
        }
      }
      if res {
        os := RestoreOrder(os, prev, os0);
        BlockedByList(old(db), occs, c, lit);
      } else {
        NotBlocked(old(db), occs, c, lit, i);
      }
    }

    // Shift all elements back.
    method RestoreOrder(os1: seq<int>, prev0: int, ghost os0: seq<int>) returns (os: seq<int>)
      requires |os1| == |os0| && os1 == Shifted(os0, |os0|, NULL) && prev0 == if |os0| == 0 then NULL else os0[|os0|-1]
      ensures os == os0
    {
      os := os1;
      var prev, i := prev0, |os|;
      while i > 0
        invariant 0 <= i <= |os| == |os0| && os == Shifted(os0, i, NULL) && prev == if i == 0 then NULL else os0[i-1]
      {
        ShiftedBack(os0, i, NULL);
        i := i - 1;
        var d := os[i];
        os := os[i := prev];
        prev := d;
      }
    }

    // Reorder one clause with the negated literal.
    method ClashesWith(d: nat, lit: Lit, c: nat, ghost db0: Db) returns (found: bool)
      requires Reordered(db0, db) && d < |db| && d != c && c < |db| && db[c] == db0[c] && Clean(db)
      modifies `db
      ensures Reordered(db0, db) && db[c] == db0[c] && Clean(db)
      ensures found <==> ClashesMarked(db0[d].lits, -lit, marks)
    {
      ReorderedClash(db0, db, d, lit, marks);
      var lits;
      found, lits := FindClash(db[d].lits, -lit);
      CleanReordered(db, d, lits);
      ReorderedStep(db0, db, d, lits);
      db := db[d := db[d].(lits := lits)];
    }

    // ----- Removing blocked clauses.

    // Push a blocked clause on the extension stack and remove it.
    method RemoveBlocked(k: nat, lit: Lit, ghost db0: Db, ghost base: seq<int>, ghost es0: seq<EX.Entry>) returns (ghost es: seq<EX.Entry>)
      requires Valid() && Live(db, k) && lit in db[k].lits && BlockedOn(db, db[k].lits, lit)
      requires Pushing(lit, db0, db, base, extension, es0)
      modifies `db, `extension, `reschedule
      ensures Valid() && db == old(db)[k := old(db)[k].(garbage := true)] && Pushing(lit, db0, db, base, extension, es)
      ensures reschedule == old(reschedule) + [k]
    {
      ClauseAt(db, k);
      PushingNext(db0, db, base, extension, es0, k, lit);
      GarbageKeeps(db, occs, k);
      es := es0 + [EX.Entry([lit], db[k].lits, db[k].id)];
      extension := extension + [0] + [lit] + [0] + [EX.HighWord(db[k].id), EX.LowWord(db[k].id)] + [0] + db[k].lits;
      reschedule := reschedule + [k];
      db := db[k := db[k].(garbage := true)];
    }

    // All clauses of a literal without negative occurrences are blocked on it.
    method BlockPureLiteral(lit: Lit) returns (ghost es: seq<EX.Entry>)
      requires Valid() && forall k: nat :: Live(db, k) ==> -lit !in db[k].lits
      modifies `db, `occs, `extension, `reschedule
      ensures Valid() && Pushing(lit, old(db), db, old(extension), extension, es)
      ensures if Var(lit) in frozen then db == old(db) else Absent(db, lit)
    {
      es := [];
      PushingStart(lit, db, extension);
      if Var(lit) in frozen { return; }
      var pos := Occ(occs, lit);
      for i := 0 to |pos|
        invariant Valid() && occs == old(occs) && |db| == |old(db)| && Pushing(lit, old(db), db, old(extension), extension, es)
        invariant forall k: nat {:trigger Live(db, k)} :: Live(db, k) ==> Live(old(db), k) && db[k] == old(db)[k]
        invariant forall j :: 0 <= j < i ==> 0 <= pos[j] < |db| && db[pos[j]].garbage
      {
        ListedAt(db, occs, lit, i);
        if !db[pos[i]].garbage {
          ghost var before := db;
          PureBlocked(old(db), db, pos[i], lit);
          es := RemoveBlocked(pos[i], lit, old(db), old(extension), es);
          assert forall k: nat {:trigger Live(db, k)} :: Live(db, k) ==> Live(before, k) && db[k] == before[k];
        }
      }
      ListOf(db, occs, lit);
      AbsentErased(db, occs, lit);
      occs := occs[lit := []][-lit := []];
    }

    // Is there another literal of the clause whose negation is marked?
    method HasMarkedPartner(lits: seq<Lit>, skip: Lit) returns (found: bool)
      ensures found <==> ClashesMarked(lits, skip, marks)
    {
      found := false;
      for i := 0 to |lits|
        invariant forall j :: 0 <= j < i ==> lits[j] == skip || -lits[j] !in marks
      {
        if lits[i] != skip && -lits[i] in marks {
          assert lits[i] in lits;
          return true;
        }
      }
    }

    method MarkClauses(list: seq<int>)
      requires marks == {} && forall i {:trigger list[i]} :: 0 <= i < |list| ==> 0 <= list[i] < |db|
      modifies `marks
      ensures forall y {:trigger y in marks} :: y in marks <==> InList(db, list, y)
    {
      for i := 0 to |list|
        invariant forall y {:trigger y in marks} :: y in marks <==> InList(db, list[..i], y)
      {
        InListLast(db, list, i);
        marks := marks + LitsOf(db[list[i]].lits);
      }
      assert list[..|list|] == list;
    }

    // Remove garbage clauses from an occurrence list, and find their maximum size.
    method FlushList(l: Lit) returns (maxSizeFound: nat)
      requires Valid()
      modifies `occs
      ensures Valid() && AllLive(db, Occ(occs, l)) && forall x :: x != l ==> Occ(occs, x) == Occ(old(occs), x)
      ensures Sizes(db, Occ(occs, l), maxSizeFound)
      ensures maxSizeFound > 0 ==> SizeFound(db, l, maxSizeFound)
    {
      ListOf(db, occs, l);
      var kept;
      kept, maxSizeFound := Flushed(Occ(occs, l), l);
      FlushedFacts(db, Occ(occs, l), kept, maxSizeFound, l);
      KeptFull(db, occs, l, kept);
      occs := occs[l := kept];
    }

    method Flushed(list: seq<int>, l: Lit) returns (kept: seq<int>, maxSizeFound: nat)
      requires FullList(db, list, l)
      ensures FlushedTo(db, list, |list|, kept, maxSizeFound, l)
    {
      kept, maxSizeFound := [], 0;
      FlushedStart(db, list, l);
      for i := 0 to |list|
        invariant FlushedTo(db, list, i, kept, maxSizeFound, l)
      {
        if db[list[i]].garbage {
          FlushedSkip(db, list, i, kept, maxSizeFound, l);
        } else {
          FlushedKeep(db, list, i, kept, maxSizeFound, l);
          kept := kept + [list[i]];
          if |db[list[i]].lits| > maxSizeFound {
            maxSizeFound := |db[list[i]].lits|;
          }
        }
      }
    }

    // Clauses of admissible size in which some other literal occurs negated in a clause with '-lit'.
    method BlockCandidates(lit: Lit)
      requires Valid() && marks == {} && candidates == [] && AllLive(db, Occ(occs, -lit)) && lit != 0
      modifies `occs, `marks, `candidates
      ensures Valid() && marks == {} && AllLive(db, Occ(occs, lit)) && forall x :: x != lit ==> Occ(occs, x) == Occ(old(occs), x)
      ensures CandidatesExact(db, candidates, lit, minSize, maxSize)
    {
      ListOf(db, occs, -lit);
      MarkClauses(Occ(occs, -lit));
      MarkedPartners(db, Occ(occs, -lit), lit, marks);
      var m := FlushList(lit);
      ListOf(db, occs, lit);
      candidates := Filter(Occ(occs, lit), lit);
      FilteredDone(db, Occ(occs, lit), candidates, lit, marks, minSize, maxSize);
      marks := {};
    }

    method Filter(pos: seq<int>, lit: Lit) returns (cs: seq<int>)
      requires FullList(db, pos, lit)
      ensures FilteredTo(db, pos, |pos|, cs, lit, marks, minSize, maxSize)
    {
      cs := [];
      for i := 0 to |pos|
        invariant FilteredTo(db, pos, i, cs, lit, marks, minSize, maxSize)
      {
        var c := pos[i];
        var partner := HasMarkedPartner(db[c].lits, lit);
        FilteredNext(db, pos, i, cs, lit, marks, minSize, maxSize);
        if minSize <= |db[c].lits| <= maxSize && partner {
          cs := cs + [c];
        }
      }
    }

    // A clause with '-lit' none of whose other literals occurs negated in a candidate.
    method BlockImpossible(lit: Lit) returns (res: bool)
      requires Valid() && marks == {} && AllLive(db, Occ(occs, -lit)) && CandidatesExact(db, candidates, lit, minSize, maxSize)
      modifies `marks, `candidates
      ensures marks == {} && (if res then candidates == [] else candidates == old(candidates))
      ensures res ==> forall k :: k in old(candidates) ==> 0 <= k < |db| && !BlockedOn(db, db[k].lits, lit)
    {
      InsideCandidates(db, candidates, lit, minSize, maxSize);
      MarkClauses(candidates);
      var nos := Occ(occs, -lit);
      res := false;
      for i := 0 to |nos|
        invariant candidates == old(candidates) && forall y {:trigger y in marks} :: y in marks <==> InList(db, candidates, y)
        invariant res ==> exists d: nat :: Live(db, d) && -lit in db[d].lits && !ClashesMarked(db[d].lits, -lit, marks)
      {
        ListedAt(db, occs, -lit, i);
        var partner := HasMarkedPartner(db[nos[i]].lits, -lit);
        if !partner {
          assert Live(db, nos[i]);
          res := true;
        }
      }
      if res {
        NoneBlocked(db, candidates, lit, marks);
        candidates := [];
      }
      marks := {};
    }

    // Try all candidates.
    method TryCandidates(lit: Lit, cs: seq<int>) returns (ghost es: seq<EX.Entry>)
      requires Valid() && marks == {} && lit != 0 && AllLive(db, Occ(occs, -lit)) && CandidatesExact(db, cs, lit, minSize, maxSize)
      modifies `db, `occs, `marks, `extension, `reschedule
      ensures Valid() && marks == {} && Tried(old(db), db, cs, |cs|, lit) && Pushing(lit, old(db), db, old(extension), extension, es)
    {
      es := [];
      PushingStart(lit, db, extension);
      TriedStart(db, cs, lit);
      CandidateIn(db, cs, lit, minSize, maxSize);
      for i := 0 to |cs|
        invariant Valid() && marks == {} && Tried(old(db), db, cs, i, lit) && AllLive(db, Occ(occs, -lit))
        invariant Pushing(lit, old(db), db, old(extension), extension, es)
      {
        es := TryCandidate(lit, cs, i, old(db), old(extension), es);
      }
    }

    method TryCandidate(lit: Lit, cs: seq<int>, i: nat, ghost db0: Db, ghost base: seq<int>, ghost es0: seq<EX.Entry>)
      returns (ghost es: seq<EX.Entry>)
      requires Valid() && marks == {} && lit != 0 && AllLive(db, Occ(occs, -lit)) && i < |cs| && Tried(db0, db, cs, i, lit)
      requires (forall j {:trigger cs[j]} :: 0 <= j <= i ==> 0 <= cs[j] && Live(db0, cs[j]) && lit in db0[cs[j]].lits)
      requires (forall j :: 0 <= j < i ==> cs[j] != cs[i]) && Clean(db0)
      requires Pushing(lit, db0, db, base, extension, es0)
      modifies `db, `occs, `marks, `extension, `reschedule
      ensures Valid() && marks == {} && AllLive(db, Occ(occs, -lit)) && Tried(db0, db, cs, i + 1, lit)
      ensures Pushing(lit, db0, db, base, extension, es)
    {
      es := es0;
      TriedCandidate(db0, db, cs, i, lit);
      ghost var db1, occs1 := db, occs;
      var res := IsBlockedClause(cs[i], lit);
      PushingReordered(lit, db0, db1, base, extension, es0, db);
      TriedReordered(db0, db1, cs, i, lit, db);
      AllLiveReordered(db1, occs1, db, occs, lit);
      ReorderedBlocked(db1, db, db[cs[i]].lits, lit);
      TriedDecision(db0, db, cs, i, lit);
      if res {
        TriedBlocked(db0, db, cs, i, lit);
        AllLiveRemoved(db, occs, cs[i], lit);
        es := RemoveBlocked(cs[i], lit, db0, base, es);
      } else {
        TriedNotBlocked(db0, db, cs, i, lit);
      }
    }

    // At least two clauses contain the negated literal.
    method BlockWithManyNegative(lit: Lit) returns (ghost es: seq<EX.Entry>)
      requires Valid() && marks == {} && candidates == [] && lit != 0 && SomeNegative(db, lit)
      modifies `db, `occs, `marks, `candidates, `extension, `reschedule
      ensures Valid() && marks == {} && candidates == [] && Pushing(lit, old(db), db, old(extension), extension, es)
      ensures SmallEnough(old(db), -lit, maxSize) ==> BlockedExactly(old(db), db, lit, minSize, maxSize)
      ensures !SmallEnough(old(db), -lit, maxSize) ==> db == old(db)
    {
      es := [];
      PushingStart(lit, db, extension);
      var small := FlushNegative(lit);
      if !small { return; }
      BlockCandidates(lit);
      es := BlockFiltered(lit);
    }

    // Are all clauses with the negated literal small enough?
    method FlushNegative(lit: Lit) returns (small: bool)
      requires Valid()
      modifies `occs
      ensures Valid() && AllLive(db, Occ(occs, -lit)) && (small <==> SmallEnough(db, -lit, maxSize))
    {
      var m := FlushList(-lit);
      ListOf(db, occs, -lit);
      SmallestSize(db, Occ(occs, -lit), m, -lit, maxSize);
      small := m <= maxSize;
    }

    // Try the candidates unless one clause rules all of them out.
    method BlockFiltered(lit: Lit) returns (ghost es: seq<EX.Entry>)
      requires Valid() && marks == {} && lit != 0 && SomeNegative(db, lit) && AllLive(db, Occ(occs, -lit))
      requires CandidatesExact(db, candidates, lit, minSize, maxSize)
      modifies `db, `occs, `marks, `candidates, `extension, `reschedule
      ensures Valid() && marks == {} && candidates == [] && Pushing(lit, old(db), db, old(extension), extension, es)
      ensures BlockedExactly(old(db), db, lit, minSize, maxSize)
    {
      ghost var cs := candidates;
      var impossible := false;
      if |candidates| > 1 {
        impossible := BlockImpossible(lit);
      }
      if impossible {
        es := [];
        PushingStart(lit, db, extension);
        NothingBlocked(db, cs, lit, minSize, maxSize);
      } else {
        es := TryCandidates(lit, candidates);
        TriedAll(old(db), db, cs, lit, minSize, maxSize);
        candidates := [];
        var n := FlushList(lit);
      }
    }

    // ----- Only one clause contains the negated literal.

    // The first live clause of the list.
    method FirstLive(list: seq<int>, l: Lit) returns (d: nat)
      requires FullList(db, list, l) && exists k: nat :: Live(db, k) && l in db[k].lits
      ensures Live(db, d) && l in db[d].lits
    {
      ghost var k: nat :| Live(db, k) && l in db[k].lits;
      ghost var w: nat :| w < |list| && list[w] == k;
      var i: nat := 0;
      while db[list[i]].garbage
        invariant i <= w
        decreases w - i
      {
        i := i + 1;
      }
      d := list[i];
    }

    // Mark the only negative clause, and block all clauses that clash with it.
    method BlockWithOneNegative(lit: Lit) returns (ghost es: seq<EX.Entry>)
      requires Valid() && marks == {} && lit != 0 && SomeNegative(db, lit) && OneNegative(db, lit)
      modifies `db, `occs, `marks, `extension, `reschedule
      ensures Valid() && marks == {} && Pushing(lit, old(db), db, old(extension), extension, es)
      ensures SmallEnough(old(db), -lit, maxSize) ==> BlockedExactly(old(db), db, lit, minSize, maxSize)
      ensures !SmallEnough(old(db), -lit, maxSize) ==> db == old(db)
    {
      es := [];
      PushingStart(lit, db, extension);
      ListOf(db, occs, -lit);
      var d := FirstLive(Occ(occs, -lit), -lit);
      SingleList(db, occs, lit, d, maxSize);
      occs := occs[-lit := [d]];
      if |db[d].lits| > maxSize { return; }
      marks := LitsOf(db[d].lits);
      es := BlockAgainst(lit, d);
      marks := {};
      ghost var db1 := db;
      var n := FlushList(lit);
    }

    method BlockAgainst(lit: Lit, d: nat) returns (ghost es: seq<EX.Entry>)
      requires Valid() && lit != 0 && OnlyNegative(db, lit, d) && marks == LitsOf(db[d].lits)
      modifies `db, `extension, `reschedule
      ensures Valid() && Pushing(lit, old(db), db, old(extension), extension, es)
      ensures BlockedExactly(old(db), db, lit, minSize, maxSize)
    {
      es := [];
      PushingStart(lit, db, extension);
      var pos := Occ(occs, lit);
      ListOf(db, occs, lit);
      ghost var cs: seq<int> := [];
      TriedStart(db, cs, lit);
      for i := 0 to |pos|
        invariant Valid() && Pushing(lit, old(db), db, old(extension), extension, es)
        invariant Tried(old(db), db, cs, |cs|, lit) && Admitted(old(db), pos, i, cs, lit, minSize, maxSize)
      {
        AdmittedNext(old(db), pos, i, cs, lit, minSize, maxSize);
        StillGarbage(old(db), db, pos, i, cs, lit, minSize, maxSize);
        var c := pos[i];
        if !db[c].garbage && |db[c].lits| <= maxSize && |db[c].lits| >= minSize {
          es := BlockOne(c, lit, d, cs, old(db), old(extension), es);
          cs := cs + [c];
        }
      }
      AdmittedAll(old(db), db, pos, cs, lit, minSize, maxSize);
    }

    method BlockOne(c: nat, lit: Lit, d: nat, ghost cs: seq<int>, ghost db0: Db, ghost base: seq<int>, ghost es0: seq<EX.Entry>)
      returns (ghost es: seq<EX.Entry>)
      requires Valid() && Clean(db0) && lit != 0 && OnlyNegative(db0, lit, d) && marks == LitsOf(db0[d].lits)
      requires Tried(db0, db, cs, |cs|, lit) && c < |db| && Live(db0, c) && lit in db0[c].lits && c !in cs
      requires forall j {:trigger cs[j]} :: 0 <= j < |cs| ==> 0 <= cs[j] < |db0| && lit in db0[cs[j]].lits
      requires Pushing(lit, db0, db, base, extension, es0)
      modifies `db, `extension, `reschedule
      ensures Valid() && Pushing(lit, db0, db, base, extension, es)
      ensures Tried(db0, db, cs + [c], |cs| + 1, lit)
    {
      es := es0;
      TriedGrows(db0, db, cs, c, lit);
      TriedCandidate(db0, db, cs + [c], |cs|, lit);
      var found := ScanOne(c, lit, d, cs, db0, base, es0);
      if found {
        TriedDecision(db0, db, cs + [c], |cs|, lit);
        TriedCandidate(db0, db, cs + [c], |cs|, lit);
        TriedBlocked(db0, db, cs + [c], |cs|, lit);
        es := RemoveBlocked(c, lit, db0, base, es);
      } else {
        TriedNotBlocked(db0, db, cs + [c], |cs|, lit);
      }
    }

    // Search a clashing literal in a clause, moving it to the front.
    method ScanOne(c: nat, lit: Lit, d: nat, ghost cs: seq<int>, ghost db0: Db, ghost base: seq<int>, ghost es: seq<EX.Entry>)
      returns (found: bool)
      requires Valid() && OnlyNegative(db0, lit, d) && marks == LitsOf(db0[d].lits) && c < |db| && c < |db0|
      requires Tried(db0, db, cs + [c], |cs|, lit) && Pushing(lit, db0, db, base, extension, es)
      modifies `db
      ensures Valid() && Tried(db0, db, cs + [c], |cs|, lit) && Pushing(lit, db0, db, base, extension, es)
      ensures found <==> BlockedOn(db0, db0[c].lits, lit)
    {
      ghost var db1 := db;
      SingleDecision(db0, lit, d, c);
      SameClash(db0, db, cs + [c], |cs|, lit, c, marks);
      var lits;
      found, lits := FindClash(db[c].lits, lit);
      CleanReordered(db, c, lits);
      ReorderedSame(db);
      ReorderedStep(db, db, c, lits);
      db := db[c := db[c].(lits := lits)];
      PushingReordered(lit, db0, db1, base, extension, es, db);
      ReorderedOccs(db1, occs, db);
      TriedReordered(db0, db1, cs + [c], |cs|, lit, db);
    }

    // Try to block clauses on a literal.
    method BlockLiteral(lit: Lit, negative: nat, positive: nat, occLimit: nat) returns (ghost es: seq<EX.Entry>)
      requires Valid() && marks == {} && candidates == [] && lit != 0
      requires (negative == 0 <==> !SomeNegative(db, lit)) && (negative == 1 ==> OneNegative(db, lit))
      requires positive == 0 ==> forall k: nat {:trigger Live(db, k)} :: Live(db, k) ==> lit !in db[k].lits
      modifies `db, `occs, `marks, `candidates, `extension, `reschedule
      ensures Valid() && marks == {} && candidates == [] && Pushing(lit, old(db), db, old(extension), extension, es)
      ensures Var(lit) !in frozen && negative <= occLimit ==>
                if negative == 0 then Absent(db, lit)
                else if SmallEnough(old(db), -lit, maxSize) then BlockedExactly(old(db), db, lit, minSize, maxSize)
                else db == old(db)
      ensures Var(lit) in frozen || negative > occLimit ==> db == old(db) && es == []
    {
      es := [];
      PushingStart(lit, db, extension);
      if Var(lit) in frozen || negative > occLimit { return; }
      if negative == 0 {
        NoNegative(db, lit);
        es := BlockPureLiteral(lit);
      } else if positive == 0 {
        NothingPositive(db, lit, minSize, maxSize);
      } else if negative == 1 {
        es := BlockWithOneNegative(lit);
      } else {
        es := BlockWithManyNegative(lit);
      }
    }
  }
}
