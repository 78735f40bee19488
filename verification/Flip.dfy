// Flipping a literal of a model under two watched literals.
module Flip {
  import opened Cnf
  import CK = Checker
  import WA = Watching

  // Garbage clauses do not count, but binary clauses do as long as they are watched, so 'live' stands
  // for binary or not garbage.

  // One of the watched literals is true.
  ghost predicate Partner(c: WA.WClause, vals: set<Lit>) {
    |c.lits| >= 2 && (c.lits[0] in vals || c.lits[1] in vals)
  }

  ghost predicate Partnered(db: WA.Db, vals: set<Lit>) {
    forall k {:trigger db[k]} :: 0 <= k < |db| && db[k].live ==> Partner(db[k], vals)
  }

  // All literals of clauses are assigned.
  ghost predicate Total(db: WA.Db, vals: set<Lit>) {
    && (forall k, x {:trigger x in db[k].lits} :: 0 <= k < |db| && x in db[k].lits ==> x in vals || -x in vals)
    && (forall x {:trigger -x in vals} :: x in vals ==> -x !in vals)
    && 0 !in vals
  }

  ghost predicate SavedOk(db: WA.Db, saved: seq<nat>) {
    |saved| == |db| && forall k {:trigger saved[k]} :: 0 <= k < |db| ==> 2 <= saved[k] <= |db[k].lits|
  }

  ghost predicate BinariesLive(db: WA.Db) {
    forall k {:trigger db[k]} :: 0 <= k < |db| && |db[k].lits| == 2 ==> db[k].live
  }

  ghost predicate Watched(db: WA.Db, ws: WA.Watchers, saved: seq<nat>, vals: set<Lit>) {
    forall u {:trigger Look(u)} :: Look(u) ==>
      WA.WatchInv(db, ws) && Partnered(db, vals) && Total(db, vals) && SavedOk(db, saved) && BinariesLive(db)
  }

  ghost predicate OtherTrue(lits: seq<Lit>, l: Lit, vals: set<Lit>) {
    exists x :: x in lits && x != l && x in vals
  }

  // The literal is not the only true literal of a clause.
  ghost predicate CanFlip(db: WA.Db, vals: set<Lit>, l: Lit) {
    forall k {:trigger db[k]} :: 0 <= k < |db| && db[k].live && l in db[k].lits ==> OtherTrue(db[k].lits, l, vals)
  }

  lemma SameCanFlip(db: WA.Db, db': WA.Db, vals: set<Lit>, l: Lit)
    requires CK.SameClauses(db, db')
    ensures CanFlip(db, vals, l) <==> CanFlip(db', vals, l)
  {
    forall k | 0 <= k < |db| ensures db[k].live == db'[k].live && (l in db[k].lits <==> l in db'[k].lits)
    ensures OtherTrue(db[k].lits, l, vals) <==> OtherTrue(db'[k].lits, l, vals) {
      WA.SameMembers(db[k].lits, db'[k].lits);
    }
  }

  // The other watched literal of the clause is true.
  ghost predicate OtherWatch(c: WA.WClause, l: Lit, vals: set<Lit>) {
    c.live ==> |c.lits| >= 2 && ((c.lits[0] != l && c.lits[0] in vals) || (c.lits[1] != l && c.lits[1] in vals))
  }

  ghost predicate Settled(db: WA.Db, list: seq<WA.Watch>, n: nat, l: Lit, vals: set<Lit>) {
    n <= |list| && forall j {:trigger list[j]} :: 0 <= j < n ==> list[j].clause < |db| && OtherWatch(db[list[j].clause], l, vals)
  }

  // If all watches of the literal have a true partner it can be flipped.
  lemma AllSettled(db: WA.Db, ws: WA.Watchers, saved: seq<nat>, vals: set<Lit>, l: Lit)
    requires Watched(db, ws, saved, vals) && l in vals
    requires var list := WA.WatchList(ws, l); Settled(db, list, |list|, l, vals)
    ensures CanFlip(db, vals, l) && Watched(db, ws, saved, vals - {l} + {-l})
  {
    assert Look(0);
    var list, vals' := WA.WatchList(ws, l), vals - {l} + {-l};
    forall k | 0 <= k < |db| && db[k].live ensures OtherWatch(db[k], l, vals) {
      assert Partner(db[k], vals);
      if db[k].lits[0] == l || db[k].lits[1] == l {
        assert WA.WatchedAt(db, ws, k);
        var j :| 0 <= j < |list| && list[j].clause == k;
        assert OtherWatch(db[list[j].clause], l, vals);
      }
    }
    forall k | 0 <= k < |db| && db[k].live ensures Partner(db[k], vals') && OtherTrue(db[k].lits, l, vals) {
      assert OtherWatch(db[k], l, vals);
      assert db[k].lits[0] in db[k].lits && db[k].lits[1] in db[k].lits;
    }
    assert -(-l) == l;
    forall x | x in vals' ensures -x !in vals' {
      assert -(-x) == x;
    }
  }

  // A clause whose other literals are all false.
  lemma NotFlippable(db: WA.Db, vals: set<Lit>, l: Lit, k: nat)
    requires k < |db| && db[k].live && l in db[k].lits && forall x :: x in db[k].lits && x != l ==> x !in vals
    ensures !CanFlip(db, vals, l)
  {
    assert !OtherTrue(db[k].lits, l, vals);
  }

  // What is known about a watch.
  lemma WatchFacts(db: WA.Db, ws: WA.Watchers, saved: seq<nat>, vals: set<Lit>, l: Lit, i: nat)
    requires Watched(db, ws, saved, vals) && i < |WA.WatchList(ws, l)|
    ensures var w := WA.WatchList(ws, l)[i];
            && w.clause < |db| && WA.Distinct(db[w.clause].lits) && |db[w.clause].lits| == w.size >= 2 && l in db[w.clause].lits
            && w.blit in db[w.clause].lits && w.blit != l && |saved| == |db| && 2 <= saved[w.clause] <= |db[w.clause].lits|
            && (db[w.clause].live ==> l == db[w.clause].lits[0] || l == db[w.clause].lits[1])
    ensures forall x :: x in db[WA.WatchList(ws, l)[i].clause].lits ==> x in vals || -x in vals
    ensures forall i, j :: 0 <= i < j < |WA.WatchList(ws, l)| ==> WA.WatchList(ws, l)[i].clause != WA.WatchList(ws, l)[j].clause
  {
    assert Look(0);
    var list := WA.WatchList(ws, l);
    assert WA.ListShape(db, l, list);
    assert list[i] in list && WA.WatchShape(db, l, list[i]);
    assert WA.Shaped(db);
  }

  lemma BinarySettled(db: WA.Db, ws: WA.Watchers, saved: seq<nat>, vals: set<Lit>, l: Lit, i: nat)
    requires Watched(db, ws, saved, vals) && i < |WA.WatchList(ws, l)| && WA.WatchList(ws, l)[i].size == 2
    ensures var w := WA.WatchList(ws, l)[i];
            w.clause < |db| && (w.blit in vals ==> OtherWatch(db[w.clause], l, vals))
  {
    WatchFacts(db, ws, saved, vals, l, i);
    var lits := db[WA.WatchList(ws, l)[i].clause].lits;
    var b := WA.WatchList(ws, l)[i].blit;
    var j :| 0 <= j < |lits| && lits[j] == b;
  }

  lemma DroppedWatch(db: WA.Db, ws: WA.Watchers, saved: seq<nat>, vals: set<Lit>, l: Lit, i: nat)
    requires Watched(db, ws, saved, vals) && i < |WA.WatchList(ws, l)| && WA.WatchList(ws, l)[i].clause < |db|
    requires !db[WA.WatchList(ws, l)[i].clause].live && Settled(db, WA.WatchList(ws, l), i, l, vals)
    ensures var ws' := ws[l := WA.Without(WA.WatchList(ws, l), i)];
            Watched(db, ws', saved, vals) && Settled(db, WA.WatchList(ws', l), i, l, vals)
  {
    assert Look(0);
    WA.DropKeeps(db, ws, l, i);
  }

  lemma BlitWatch(db: WA.Db, ws: WA.Watchers, saved: seq<nat>, vals: set<Lit>, l: Lit, i: nat, b: Lit)
    requires Watched(db, ws, saved, vals) && i < |WA.WatchList(ws, l)| && WA.WatchList(ws, l)[i].clause < |db|
    requires b in db[WA.WatchList(ws, l)[i].clause].lits && b != l
    ensures Watched(db, ws[l := WA.WatchList(ws, l)[i := WA.WatchList(ws, l)[i].(blit := b)]], saved, vals)
  {
    assert Look(0);
    WA.BlitKeeps(db, ws, l, i, b);
  }

  // The watch moves to a true literal.
  lemma MovedWatch(db: WA.Db, ws: WA.Watchers, saved: seq<nat>, vals: set<Lit>, l: Lit, i: nat, other: Lit, n: nat)
    requires Watched(db, ws, saved, vals) && i < |WA.WatchList(ws, l)| && Settled(db, WA.WatchList(ws, l), i, l, vals)
    requires var k := WA.WatchList(ws, l)[i].clause;
             k < |db| && k < |saved| && db[k].live && 2 <= n < |db[k].lits| && {db[k].lits[0], db[k].lits[1]} == {other, l} && other != l
             && WA.Distinct(db[k].lits) && db[k].lits[n] in vals
    ensures var k := WA.WatchList(ws, l)[i].clause;
            var r := db[k].lits[n];
            var db' := db[k := db[k].(lits := CK.Exchange(CK.PairFirst(db[k].lits, other, l), n))];
            var ws' := ws[l := WA.Without(WA.WatchList(ws, l), i)][r := WA.WatchList(ws, r) + [WA.Watch(l, |db[k].lits|, k)]];
            && Watched(db', ws', saved[k := n], vals) && CK.SameClauses(db, db') && r != l
            && WA.WatchList(ws', l) == WA.Without(WA.WatchList(ws, l), i) && Settled(db', WA.WatchList(ws', l), i, l, vals)
  {
    assert Look(0);
    var list := WA.WatchList(ws, l);
    var k := list[i].clause;
    var r := db[k].lits[n];
    var db1 := db[k := db[k].(lits := CK.PairFirst(db[k].lits, other, l))];
    var db' := db1[k := db1[k].(lits := CK.Exchange(db1[k].lits, n))];
    WatchFacts(db, ws, saved, vals, l, i);
    CK.PairRearranged(db, k, other, l);
    WA.SwapKeeps(db, ws, k, db1, {}, {});
    CK.SameClausesUpdate(db, db1, k, db[k].lits[0], db[k].lits[1]);
    CK.ExchangeRearranged(db1, k, n);
    CK.SameClausesUpdate(db1, db', k, other, r);
    CK.SameClausesTransitive(db, db1, db');
    var ws' := ws[l := WA.Without(list, i)][r := WA.WatchList(ws, r) + [WA.Watch(l, |db[k].lits|, k)]];
    WA.SameMembers(db[k].lits, db1[k].lits);
    assert WA.Moved(db1, ws, l, i, other, r, db', ws');
    WA.MoveKeeps(db1, ws, l, i, other, r, db', ws');
    assert db' == db[k := db[k].(lits := db'[k].lits)];
    WA.SameMembers(db[k].lits, db'[k].lits);
    assert forall j :: 0 <= j < i ==> list[j].clause != k;
  }

  class Flipper {
    var db: WA.Db
    var ws: WA.Watchers
    var saved: seq<nat>
    var vals: set<Lit>
    var trail: seq<Lit>
    var posOf: map<nat, nat>          // where a variable is on the trail

    ghost predicate Valid()
      reads this
    {
      Watched(db, ws, saved, vals)
    }

    ghost predicate OnTrail()
      reads this
    {
      && vals == LitsOf(trail) && (forall i, j :: 0 <= i < j < |trail| ==> Var(trail[i]) != Var(trail[j]))
      && forall i {:trigger trail[i]} :: 0 <= i < |trail| ==> Var(trail[i]) in posOf && posOf[Var(trail[i])] == i
    }

    // A true literal after the watched ones, searched from the saved position on and then before it.
    method FindTrue(lits: seq<Lit>, middle: nat) returns (k: nat)
      requires 2 <= middle <= |lits|
      ensures 2 <= k <= |lits|
      ensures (exists j :: 2 <= j < |lits| && lits[j] in vals) <==> k < |lits| && lits[k] in vals
    {
      k := middle;
      while k < |lits| && lits[k] !in vals
        invariant middle <= k <= |lits| && forall j :: middle <= j < k ==> lits[j] !in vals
      {
        k := k + 1;
      }
      if k == |lits| {
        k := 2;
        while k < middle && lits[k] !in vals
          invariant 2 <= k <= middle && forall j :: 2 <= j < k ==> lits[j] !in vals
        {
          k := k + 1;
        }
      }
    }

    // Is some binary clause satisfied by the literal only?
    method CheckBinaries(lit: Lit) returns (res: bool)
      requires Valid()
      ensures res ==> BinariesTrue(WA.WatchList(ws, lit), vals)
      ensures !res ==> exists j :: BadBinary(db, ws, lit, vals, j)
    {
      var list := WA.WatchList(ws, lit);
      res := true;
      for j := 0 to |list|
        invariant forall i {:trigger list[i]} :: 0 <= i < j && list[i].size == 2 ==> list[i].blit in vals
      {
        if list[j].size == 2 && list[j].blit !in vals {
          assert BadBinary(db, ws, lit, vals, j);
          return false;
        }
      }
    }

    // Visit one watch of the literal.
    method FlipNext(lit: Lit, i: nat) returns (ok: bool, next: nat)
      requires Valid() && lit in vals && i < |WA.WatchList(ws, lit)| && Settled(db, WA.WatchList(ws, lit), i, lit, vals)
      requires WA.WatchList(ws, lit)[i].size == 2 ==> WA.WatchList(ws, lit)[i].blit in vals
      modifies `db, `ws, `saved
      ensures Valid() && CK.SameClauses(old(db), db)
      ensures ok ==> Settled(db, WA.WatchList(ws, lit), next, lit, vals)
      ensures ok ==> |WA.WatchList(ws, lit)| - next < |WA.WatchList(old(ws), lit)| - i
      ensures ok ==> WA.WatchList(ws, lit) == WA.WatchList(old(ws), lit) || WA.WatchList(ws, lit) == WA.Without(WA.WatchList(old(ws), lit), i)
      ensures !ok ==> !CanFlip(old(db), vals, lit)
    {
      var w := WA.WatchList(ws, lit)[i];
      WatchFacts(db, ws, saved, vals, lit, i);
      ok, next := true, i + 1;
      SameRefl(db);
      if w.size == 2 {
        BinarySettled(db, ws, saved, vals, lit, i);
        return;
      }
      if !db[w.clause].live {
        DroppedWatch(db, ws, saved, vals, lit, i);
        ws := ws[lit := WA.Without(ws[lit], i)];
        next := i;
        return;
      }
      var lits := db[w.clause].lits;
      var other := if lits[0] == lit then lits[1] else lits[0];
      if other in vals { return; }
      ok := MoveWatch(lit, i, other);
      next := i;
    }

    // The other watch is false: search a true literal to watch instead.
    method MoveWatch(lit: Lit, i: nat, other: Lit) returns (ok: bool)
      requires Valid() && i < |WA.WatchList(ws, lit)| && Settled(db, WA.WatchList(ws, lit), i, lit, vals)
      requires var k := WA.WatchList(ws, lit)[i].clause;
               k < |db| && db[k].live && |db[k].lits| >= 2 && {db[k].lits[0], db[k].lits[1]} == {other, lit} && other != lit
      requires other !in vals
      modifies `db, `ws, `saved
      ensures Valid() && CK.SameClauses(old(db), db)
      ensures ok ==> WA.WatchList(ws, lit) == WA.Without(WA.WatchList(old(ws), lit), i) && Settled(db, WA.WatchList(ws, lit), i, lit, vals)
      ensures !ok ==> !CanFlip(old(db), vals, lit)
    {
      var w := WA.WatchList(ws, lit)[i];
      WatchFacts(db, ws, saved, vals, lit, i);
      var lits := db[w.clause].lits;
      SameRefl(db);
      var k := FindTrue(lits, saved[w.clause]);
      ok := k < |lits| && lits[k] in vals;
      if !ok {
        OnlyTrue(lits, lit, other, vals);
        NotFlippable(db, vals, lit, w.clause);
        return;
      }
      MovedWatch(db, ws, saved, vals, lit, i, other, k);
      saved := saved[w.clause := k];
      ws := ws[lit := WA.Without(ws[lit], i)];
      ws := ws[lits[k] := WA.WatchList(ws, lits[k]) + [WA.Watch(lit, |lits|, w.clause)]];
      db := db[w.clause := db[w.clause].(lits := CK.Exchange(CK.PairFirst(lits, other, lit), k))];
    }

    // Try to give all watched clauses of the literal another true watch.
    method Rewatch(lit: Lit) returns (res: bool)
      requires Valid() && lit in vals
      requires BinariesTrue(WA.WatchList(ws, lit), vals)
      modifies `db, `ws, `saved
      ensures Valid() && CK.SameClauses(old(db), db)
      ensures res ==> Settled(db, WA.WatchList(ws, lit), |WA.WatchList(ws, lit)|, lit, vals)
      ensures !res ==> !CanFlip(old(db), vals, lit)
    {
      res := true;
      var i: nat := 0;
      SameRefl(db);
      while i < |WA.WatchList(ws, lit)| && res
        invariant Valid() && CK.SameClauses(old(db), db)
        invariant res ==> Settled(db, WA.WatchList(ws, lit), i, lit, vals) && BinariesTrue(WA.WatchList(ws, lit), vals)
        invariant !res ==> !CanFlip(old(db), vals, lit)
        decreases if res then 1 else 0, |WA.WatchList(ws, lit)| - i
      {
        ghost var db1, list, at := db, WA.WatchList(ws, lit), i;
        BinaryAt(list, vals, i);
        res, i := FlipNext(lit, i);
        CK.SameClausesTransitive(old(db), db1, db);
        SameCanFlip(old(db), db1, vals, lit);
        BinariesLess(list, at, vals);
      }
    }

    // Flip the value of a variable if no clause is satisfied by it only.
    method Flip(lit0: Lit, usable: bool) returns (res: bool)
      requires Valid() && OnTrail() && (usable ==> lit0 in vals || -lit0 in vals)
      modifies this
      ensures Valid() && OnTrail() && CK.SameClauses(old(db), db) && posOf == old(posOf)
      ensures var lit := if lit0 in old(vals) then lit0 else -lit0;
              && (res <==> usable && CanFlip(old(db), old(vals), lit))
              && vals == (if res then old(vals) - {lit} + {-lit} else old(vals))
              && (res ==> lit in old(trail) && trail == old(trail)[old(posOf)[Var(lit)] := -lit])
              && (!res ==> trail == old(trail))
    {
      SameRefl(db);
      if !usable { return false; }
      var lit := if lit0 in vals then lit0 else -lit0;
      res := CheckBinaries(lit);
      if !res {
        ghost var j :| BadBinary(db, ws, lit, vals, j);
        BadBinaryFails(db, ws, saved, vals, lit, j);
        return;
      }
      res := Rewatch(lit);
      if res {
        AllSettled(db, ws, saved, vals, lit);
        SameCanFlip(old(db), db, vals, lit);
        FlippedTrail(trail, posOf, vals, lit);
        vals := vals - {lit} + {-lit};
        trail := trail[posOf[Var(lit)] := -lit];
      }
    }

    // Check one watch, using and updating its blocking literal.
    method FlippableNext(lit: Lit, i: nat) returns (ok: bool)
      requires Valid() && lit in vals && i < |WA.WatchList(ws, lit)| && Passed(db, WA.WatchList(ws, lit), i, lit, vals)
      modifies `ws, `saved
      ensures Valid() && OnlyBlits(old(ws), ws) && |WA.WatchList(ws, lit)| == |WA.WatchList(old(ws), lit)|
      ensures if ok then Passed(db, WA.WatchList(ws, lit), i + 1, lit, vals) else !CanFlip(db, vals, lit)
    {
      var w := WA.WatchList(ws, lit)[i];
      WatchFacts(db, ws, saved, vals, lit, i);
      var lits := db[w.clause].lits;
      ok := true;
      BlitsSame(ws);
      if w.blit in vals { return; }
      if w.size == 2 {
        assert BadBinary(db, ws, lit, vals, i);
        BadBinaryFails(db, ws, saved, vals, lit, i);
        return false;
      }
      if !db[w.clause].live { return; }
      var other := if lits[0] == lit then lits[1] else lits[0];
      if other in vals {
        BlitWatch(db, ws, saved, vals, lit, i, other);
        BlitChanged(ws, lit, i, other);
        ws := ws[lit := ws[lit][i := ws[lit][i].(blit := other)]];
        return;
      }
      var k := FindTrue(lits, saved[w.clause]);
      if k == |lits| || lits[k] !in vals {
        OnlyTrue(lits, lit, other, vals);
        NotFlippable(db, vals, lit, w.clause);
        return false;
      }
      BlitWatch(db, ws, saved, vals, lit, i, lits[k]);
      SavedWatch(db, ws[lit := ws[lit][i := ws[lit][i].(blit := lits[k])]], saved, vals, w.clause, k);
      saved := saved[w.clause := k];
      BlitChanged(ws, lit, i, lits[k]);
      ws := ws[lit := ws[lit][i := ws[lit][i].(blit := lits[k])]];
    }

    // Whether flipping would succeed.  No value and no clause changes, and watches only get other
    // blocking literals.
    method Flippable(lit0: Lit, usable: bool) returns (res: bool)
      requires Valid() && (usable ==> lit0 in vals || -lit0 in vals)
      modifies `ws, `saved
      ensures Valid() && OnlyBlits(old(ws), ws)
      ensures res <==> usable && CanFlip(db, vals, if lit0 in vals then lit0 else -lit0)
    {
      BlitsSame(ws);
      if !usable { return false; }
      var lit := if lit0 in vals then lit0 else -lit0;
      res := true;
      var i: nat := 0;
      while i < |WA.WatchList(ws, lit)| && res
        invariant Valid() && (res ==> Passed(db, WA.WatchList(ws, lit), i, lit, vals)) && (!res ==> !CanFlip(db, vals, lit))
        invariant OnlyBlits(old(ws), ws)
        decreases if res then 1 else 0, |WA.WatchList(ws, lit)| - i
      {
        ghost var before := ws;
        res := FlippableNext(lit, i);
        BlitsTransitive(old(ws), before, ws);
        i := i + 1;
      }
      if res {
        AllPassed(db, ws, saved, vals, lit);
      }
    }
  }

  ghost predicate AllSatisfied(db: WA.Db, vals: set<Lit>) {
    forall k {:trigger db[k]} :: 0 <= k < |db| && db[k].live ==> WA.HasTrue(db[k], vals)
  }

  // The values satisfy every clause that counts.
  lemma WatchedSatisfied(db: WA.Db, ws: WA.Watchers, saved: seq<nat>, vals: set<Lit>)
    requires Watched(db, ws, saved, vals)
    ensures AllSatisfied(db, vals)
  {
    assert Look(0);
    forall k | 0 <= k < |db| && db[k].live ensures WA.HasTrue(db[k], vals) {
      assert Partner(db[k], vals);
      var x := if db[k].lits[0] in vals then db[k].lits[0] else db[k].lits[1];
      assert x in db[k].lits;
    }
  }

  // Asking first and flipping then gives the same answer twice, and the values still satisfy all clauses.
  method AskAndFlip(f: Flipper, lit: Lit, usable: bool) returns (flippable: bool, flipped: bool)
    requires f.Valid() && f.OnTrail() && (usable ==> lit in f.vals || -lit in f.vals)
    modifies f
    ensures f.Valid() && f.OnTrail() && flippable == flipped && AllSatisfied(f.db, f.vals)
    ensures if flipped then -lit in old(f.vals) <==> lit in f.vals else f.vals == old(f.vals)
  {
    ghost var vals := f.vals;
    flippable := f.Flippable(lit, usable);
    FreeOf(f.trail, f.vals);
    flipped := f.Flip(lit, usable);
    WatchedSatisfied(f.db, f.ws, f.saved, f.vals);
  }

  // True literals are never false.
  lemma FreeOf(trail: seq<Lit>, vals: set<Lit>)
    requires vals == LitsOf(trail) && forall i, j :: 0 <= i < j < |trail| ==> Var(trail[i]) != Var(trail[j])
    ensures forall l: Lit {:trigger -l in vals} :: l in vals && l != 0 ==> -l !in vals
  {
    forall l: Lit | l in vals && l != 0 ensures -l !in vals {
      var i :| 0 <= i < |trail| && trail[i] == l;
      assert forall j :: 0 <= j < |trail| && j != i ==> Var(trail[j]) != Var(l);
    }
  }

  // Watches differ at most in their blocking literals.
  ghost predicate OnlyBlits(ws: WA.Watchers, ws': WA.Watchers) {
    forall u {:trigger Look(u)} :: Look(u) ==> forall l {:trigger WA.WatchList(ws', l)} :: SameTargets(WA.WatchList(ws, l), WA.WatchList(ws', l))
  }

  ghost predicate SameTargets(list: seq<WA.Watch>, list': seq<WA.Watch>) {
    |list'| == |list| && forall i {:trigger list'[i]} :: 0 <= i < |list| ==> list'[i].clause == list[i].clause && list'[i].size == list[i].size
  }

  lemma BlitsSame(ws: WA.Watchers)
    ensures OnlyBlits(ws, ws)
  {
  }

  lemma BlitsTransitive(ws: WA.Watchers, ws1: WA.Watchers, ws2: WA.Watchers)
    requires OnlyBlits(ws, ws1) && OnlyBlits(ws1, ws2)
    ensures OnlyBlits(ws, ws2)
  {
    assert Look(0);
    forall l ensures SameTargets(WA.WatchList(ws, l), WA.WatchList(ws2, l)) {
      assert SameTargets(WA.WatchList(ws, l), WA.WatchList(ws1, l)) && SameTargets(WA.WatchList(ws1, l), WA.WatchList(ws2, l));
    }
  }

  lemma BlitChanged(ws: WA.Watchers, l: Lit, i: nat, blit: Lit)
    requires l in ws && i < |ws[l]|
    ensures OnlyBlits(ws, ws[l := ws[l][i := ws[l][i].(blit := blit)]])
  {
  }

  ghost predicate BinariesTrue(list: seq<WA.Watch>, vals: set<Lit>) {
    forall j {:trigger list[j]} :: 0 <= j < |list| && list[j].size == 2 ==> list[j].blit in vals
  }

  lemma BinaryAt(list: seq<WA.Watch>, vals: set<Lit>, i: nat)
    requires BinariesTrue(list, vals) && i < |list|
    ensures list[i].size == 2 ==> list[i].blit in vals
  {
  }

  lemma BinariesLess(list: seq<WA.Watch>, i: nat, vals: set<Lit>)
    requires BinariesTrue(list, vals) && i < |list|
    ensures BinariesTrue(WA.Without(list, i), vals)
  {
    var r := WA.Without(list, i);
    assert forall j :: 0 <= j < |r| ==> r[j] == if j < i then list[j] else list[j+1];
  }

  lemma BadBinaryFails(db: WA.Db, ws: WA.Watchers, saved: seq<nat>, vals: set<Lit>, l: Lit, j: nat)
    requires Watched(db, ws, saved, vals) && BadBinary(db, ws, l, vals, j)
    ensures !CanFlip(db, vals, l)
  {
    assert Look(0);
    WatchFacts(db, ws, saved, vals, l, j);
    var w := WA.WatchList(ws, l)[j];
    var lits := db[w.clause].lits;
    forall x | x in lits && x != l ensures x !in vals {
      assert lits[0] in lits && lits[1] in lits;
    }
    NotFlippable(db, vals, l, w.clause);
  }

  // Each of the first 'n' clauses watched has another true literal.
  ghost predicate Passed(db: WA.Db, list: seq<WA.Watch>, n: nat, l: Lit, vals: set<Lit>) {
    n <= |list| && forall j {:trigger list[j]} :: 0 <= j < n ==>
      list[j].clause < |db| && (db[list[j].clause].live ==> OtherTrue(db[list[j].clause].lits, l, vals))
  }

  lemma AllPassed(db: WA.Db, ws: WA.Watchers, saved: seq<nat>, vals: set<Lit>, l: Lit)
    requires Watched(db, ws, saved, vals)
    requires var list := WA.WatchList(ws, l); Passed(db, list, |list|, l, vals)
    ensures CanFlip(db, vals, l)
  {
    assert Look(0);
    var list := WA.WatchList(ws, l);
    forall k | 0 <= k < |db| && db[k].live && l in db[k].lits ensures OtherTrue(db[k].lits, l, vals) {
      assert Partner(db[k], vals);
      assert db[k].lits[0] in db[k].lits && db[k].lits[1] in db[k].lits;
      if db[k].lits[0] == l || db[k].lits[1] == l {
        assert WA.WatchedAt(db, ws, k);
        var j :| 0 <= j < |list| && list[j].clause == k;
        assert list[j].clause == k;
      }
    }
  }

  lemma SavedWatch(db: WA.Db, ws: WA.Watchers, saved: seq<nat>, vals: set<Lit>, k: nat, n: nat)
    requires Watched(db, ws, saved, vals) && k < |saved| && k < |db| && 2 <= n <= |db[k].lits|
    ensures Watched(db, ws, saved[k := n], vals)
  {
    assert Look(0);
  }

  lemma FlippedTrail(trail: seq<Lit>, posOf: map<nat, nat>, vals: set<Lit>, l: Lit)
    requires vals == LitsOf(trail) && (forall i, j :: 0 <= i < j < |trail| ==> Var(trail[i]) != Var(trail[j]))
    requires forall i {:trigger trail[i]} :: 0 <= i < |trail| ==> Var(trail[i]) in posOf && posOf[Var(trail[i])] == i
    requires l in vals
    ensures Var(l) in posOf && posOf[Var(l)] < |trail| && trail[posOf[Var(l)]] == l && l in trail
    ensures LitsOf(trail[posOf[Var(l)] := -l]) == vals - {l} + {-l}
  {
    var i :| 0 <= i < |trail| && trail[i] == l;
    var r := trail[i := -l];
    assert r[i] == -l;
    forall x ensures x in r <==> x in vals - {l} + {-l} {
      if x in r {
        var j :| 0 <= j < |r| && r[j] == x;
        assert j != i ==> trail[j] in vals && Var(trail[j]) != Var(l);
      }
      if x in vals - {l} {
        var j :| 0 <= j < |trail| && trail[j] == x;
        assert r[j] == x;
      }
    }
  }

  ghost predicate BadBinary(db: WA.Db, ws: WA.Watchers, l: Lit, vals: set<Lit>, j: nat) {
    j < |WA.WatchList(ws, l)| && WA.WatchList(ws, l)[j].size == 2 && WA.WatchList(ws, l)[j].blit !in vals
  }

  lemma SameRefl(db: WA.Db)
    ensures CK.SameClauses(db, db)
  {
  }

  lemma OnlyTrue(lits: seq<Lit>, l: Lit, other: Lit, vals: set<Lit>)
    requires |lits| >= 2 && {lits[0], lits[1]} == {l, other} && other !in vals
    requires !exists j :: 2 <= j < |lits| && lits[j] in vals
    ensures forall x :: x in lits && x != l ==> x !in vals
  {
    forall x | x in lits && x != l ensures x !in vals {
      var j :| 0 <= j < |lits| && lits[j] == x;
      if j < 2 {
        assert x in {lits[0], lits[1]};
      }
    }
  }
}
