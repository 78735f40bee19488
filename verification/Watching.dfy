// Two watched literals: the clauses, the watch lists, and what each step of the propagation
// routine of the proof checkers does to them.
module Watching {
  import opened Cnf

  // A clause keeps its literals after it became garbage, but only live clauses count.
  datatype WClause = WClause(lits: seq<Lit>, live: bool)

  datatype Watch = Watch(blit: Lit, size: nat, clause: nat)

  type Db = seq<WClause>

  type Watchers = map<Lit, seq<Watch>>

  function WatchList(ws: Watchers, l: Lit): seq<Watch> {
    if l in ws then ws[l] else []
  }

  ghost predicate Distinct(lits: seq<Lit>) {
    && (forall i, j :: 0 <= i < j < |lits| ==> lits[i] != lits[j])
    && (forall l {:trigger -l in lits} :: l in lits ==> -l !in lits)
    && 0 !in lits
  }

  ghost predicate Shaped(db: Db) {
    forall k {:trigger db[k]} :: 0 <= k < |db| ==> |db[k].lits| >= 2 && Distinct(db[k].lits)
  }

  ghost predicate WatchShape(db: Db, l: Lit, w: Watch) {
    && w.clause < |db|
    && var c := db[w.clause];
       && w.size == |c.lits| >= 2 && w.blit != l
       && l in c.lits && w.blit in c.lits
       && (c.live ==> l == c.lits[0] || l == c.lits[1])
  }

  ghost predicate ListShape(db: Db, l: Lit, list: seq<Watch>) {
    && (forall w {:trigger WatchShape(db, l, w)} :: w in list ==> WatchShape(db, l, w))
    && (forall i, j :: 0 <= i < j < |list| ==> list[i].clause != list[j].clause)
  }

  ghost predicate ListsShaped(db: Db, ws: Watchers) {
    forall l {:trigger ListShape(db, l, WatchList(ws, l))} :: ListShape(db, l, WatchList(ws, l))
  }

  ghost predicate Has(list: seq<Watch>, k: nat) {
    exists i :: 0 <= i < |list| && list[i].clause == k
  }

  ghost predicate WatchedAt(db: Db, ws: Watchers, k: nat)
    requires k < |db| && |db[k].lits| >= 2
  {
    Has(WatchList(ws, db[k].lits[0]), k) && Has(WatchList(ws, db[k].lits[1]), k)
  }

  ghost predicate FullyWatched(db: Db, ws: Watchers)
    requires Shaped(db)
  {
    forall k {:trigger WatchedAt(db, ws, k)} :: 0 <= k < |db| && db[k].live ==> WatchedAt(db, ws, k)
  }

  ghost predicate WatchInv(db: Db, ws: Watchers) {
    Shaped(db) && ListsShaped(db, ws) && FullyWatched(db, ws)
  }

  // A watched literal that is false because of 'done' is compensated by a literal from 'vals'.
  ghost predicate SettledOn(c: WClause, w: Lit, done: set<Lit>, vals: set<Lit>) {
    -w in done ==> exists l :: l in c.lits && l in vals
  }

  ghost predicate SettledClause(c: WClause, done: set<Lit>, vals: set<Lit>)
    requires |c.lits| >= 2
  {
    SettledOn(c, c.lits[0], done, vals) && SettledOn(c, c.lits[1], done, vals)
  }

  ghost predicate Settled(db: Db, done: set<Lit>, vals: set<Lit>)
    requires Shaped(db)
  {
    forall k {:trigger SettledClause(db[k], done, vals)} ::
      0 <= k < |db| && db[k].live ==> SettledClause(db[k], done, vals)
  }

  // ----- Steps on one clause.

  // The literals of one clause are reordered; the watched pair becomes {x, y}.
  ghost predicate Rearranged(db: Db, db': Db, k: nat, x: Lit, y: Lit) {
    && |db'| == |db| && k < |db|
    && (forall i :: 0 <= i < |db| && i != k ==> db'[i] == db[i])
    && db'[k].live == db[k].live
    && |db'[k].lits| == |db[k].lits| >= 2 && Distinct(db'[k].lits)
    && LitsOf(db'[k].lits) == LitsOf(db[k].lits)
    && ((db'[k].lits[0] == x && db'[k].lits[1] == y) || (db'[k].lits[0] == y && db'[k].lits[1] == x))
  }

  lemma SameMembers(a: seq<Lit>, b: seq<Lit>)
    requires LitsOf(a) == LitsOf(b)
    ensures forall l :: l in a <==> l in b
  {
    forall l ensures l in a <==> l in b {
      assert l in a <==> l in LitsOf(a);
      assert l in b <==> l in LitsOf(b);
    }
  }

  // Reordering without a change of the watched pair.
  lemma SwapKeeps(db: Db, ws: Watchers, k: nat, db': Db, done: set<Lit>, vals: set<Lit>)
    requires WatchInv(db, ws) && k < |db|
    requires Rearranged(db, db', k, db[k].lits[0], db[k].lits[1])
    ensures WatchInv(db', ws)
    ensures Settled(db, done, vals) ==> Settled(db', done, vals)
  {
    SameMembers(db[k].lits, db'[k].lits);
    forall l ensures ListShape(db', l, WatchList(ws, l)) {
      assert ListShape(db, l, WatchList(ws, l));
      forall w | w in WatchList(ws, l) ensures WatchShape(db', l, w) {
        assert WatchShape(db, l, w);
      }
    }
    forall i | 0 <= i < |db'| && db'[i].live ensures WatchedAt(db', ws, i) {
      assert WatchedAt(db, ws, i);
    }
    if Settled(db, done, vals) {
      forall i | 0 <= i < |db'| && db'[i].live ensures SettledClause(db'[i], done, vals) {
        assert SettledClause(db[i], done, vals);
      }
    }
  }

  function Without(list: seq<Watch>, i: nat): seq<Watch>
    requires i < |list|
  {
    list[..i] + list[i+1..]
  }

  lemma WithoutMembers(list: seq<Watch>, i: nat)
    requires i < |list|
    ensures forall w :: w in Without(list, i) ==> w in list
    ensures forall k :: Has(list, k) && k != list[i].clause ==> Has(Without(list, i), k)
  {
    forall k | Has(list, k) && k != list[i].clause ensures Has(Without(list, i), k) {
      var j :| 0 <= j < |list| && list[j].clause == k;
      assert Without(list, i)[if j < i then j else j - 1] == list[j];
    }
  }

  lemma WithoutShape(db: Db, l: Lit, list: seq<Watch>, i: nat)
    requires ListShape(db, l, list) && i < |list|
    ensures ListShape(db, l, Without(list, i))
  {
    WithoutMembers(list, i);
    forall w | w in Without(list, i) ensures WatchShape(db, l, w) {
      assert w in list;
    }
  }

  // A watch of a garbage clause is dropped.
  lemma DropKeeps(db: Db, ws: Watchers, l: Lit, i: nat)
    requires WatchInv(db, ws) && i < |WatchList(ws, l)|
    requires WatchList(ws, l)[i].clause < |db| && !db[WatchList(ws, l)[i].clause].live
    ensures WatchInv(db, ws[l := Without(WatchList(ws, l), i)])
  {
    var ws' := ws[l := Without(WatchList(ws, l), i)];
    assert ListShape(db, l, WatchList(ws, l));
    WithoutShape(db, l, WatchList(ws, l), i);
    WithoutMembers(WatchList(ws, l), i);
    forall x ensures ListShape(db, x, WatchList(ws', x)) {
      assert ListShape(db, x, WatchList(ws, x));
    }
    forall k | 0 <= k < |db| && db[k].live ensures WatchedAt(db, ws', k) {
      assert WatchedAt(db, ws, k);
    }
  }

  // The blocking literal of a watch is replaced by another literal of the clause.
  lemma BlitKeeps(db: Db, ws: Watchers, l: Lit, i: nat, blit: Lit)
    requires WatchInv(db, ws) && i < |WatchList(ws, l)|
    requires WatchList(ws, l)[i].clause < |db| && blit in db[WatchList(ws, l)[i].clause].lits && blit != l
    ensures WatchInv(db, ws[l := WatchList(ws, l)[i := WatchList(ws, l)[i].(blit := blit)]])
  {
    var list := WatchList(ws, l);
    var list' := list[i := list[i].(blit := blit)];
    var ws' := ws[l := list'];
    assert ListShape(db, l, list);
    forall w | w in list' ensures WatchShape(db, l, w) {
      var j :| 0 <= j < |list'| && list'[j] == w;
      assert list[j] in list;
      assert WatchShape(db, l, list[j]);
    }
    forall x ensures ListShape(db, x, WatchList(ws', x)) {
      assert ListShape(db, x, WatchList(ws, x));
    }
    forall k | 0 <= k < |db| && db[k].live ensures WatchedAt(db, ws', k) {
      assert WatchedAt(db, ws, k);
      HasUpdated(list, i, blit, k);
    }
  }

  lemma HasUpdated(list: seq<Watch>, i: nat, blit: Lit, k: nat)
    requires i < |list|
    ensures Has(list, k) ==> Has(list[i := list[i].(blit := blit)], k)
  {
    if j :| 0 <= j < |list| && list[j].clause == k {
      assert list[i := list[i].(blit := blit)][j].clause == k;
    }
  }

  // The watch of 'f' for clause 'k' moves to the literal 'r'.
  ghost predicate Moved(db: Db, ws: Watchers, f: Lit, i: nat, other: Lit, r: Lit, db': Db, ws': Watchers) {
    && i < |WatchList(ws, f)|
    && var k := WatchList(ws, f)[i].clause;
       && k < |db| && db[k].live
       && Rearranged(db, db', k, other, r)
       && f in db[k].lits && r in db[k].lits && f != r && f != other && r != other
       && {db[k].lits[0], db[k].lits[1]} == {f, other}
       && ws' == ws[f := Without(WatchList(ws, f), i)][r := WatchList(ws, r) + [Watch(f, |db[k].lits|, k)]]
  }

  lemma MoveLists(db: Db, ws: Watchers, f: Lit, i: nat, other: Lit, r: Lit, db': Db, ws': Watchers, l: Lit)
    requires WatchInv(db, ws) && Moved(db, ws, f, i, other, r, db', ws')
    ensures ListShape(db', l, WatchList(ws', l))
  {
    var k := WatchList(ws, f)[i].clause;
    var list := WatchList(ws, l);
    assert ListShape(db, l, list);
    SameMembers(db[k].lits, db'[k].lits);
    if l == f {
      WithoutShape(db, f, list, i);
      forall w | w in Without(list, i) ensures WatchShape(db', f, w) {
        assert WatchShape(db, f, w);
        OtherClause(list, i, w);
      }
    } else {
      forall w | w in list ensures WatchShape(db', l, w) {
        assert WatchShape(db, l, w);
      }
      if l == r {
        forall w | w in list ensures w.clause != k {
          assert WatchShape(db, r, w);
        }
        assert WatchShape(db', r, Watch(f, |db[k].lits|, k));
      }
    }
  }

  lemma OtherClause(list: seq<Watch>, i: nat, w: Watch)
    requires i < |list| && w in Without(list, i)
    requires forall i, j :: 0 <= i < j < |list| ==> list[i].clause != list[j].clause
    ensures w.clause != list[i].clause
  {
    var j :| 0 <= j < |Without(list, i)| && Without(list, i)[j] == w;
    assert w == if j < i then list[j] else list[j+1];
  }

  lemma MoveWatched(db: Db, ws: Watchers, f: Lit, i: nat, other: Lit, r: Lit, db': Db, ws': Watchers, n: nat)
    requires WatchInv(db, ws) && Moved(db, ws, f, i, other, r, db', ws')
    requires n < |db'| && |db'[n].lits| >= 2 && db'[n].live
    ensures WatchedAt(db', ws', n)
  {
    var k := WatchList(ws, f)[i].clause;
    assert WatchedAt(db, ws, n);
    if n == k {
      var list' := WatchList(ws', r);
      assert list'[|list'|-1].clause == k;
      assert WatchList(ws', other) == WatchList(ws, other);
    } else {
      forall l | Has(WatchList(ws, l), n) ensures Has(WatchList(ws', l), n) {
        MoveHas(ws, f, i, r, Watch(f, |db[k].lits|, k), n, l);
      }
    }
  }

  lemma MoveHas(ws: Watchers, f: Lit, i: nat, r: Lit, w: Watch, n: nat, l: Lit)
    requires i < |WatchList(ws, f)| && WatchList(ws, f)[i].clause != n && f != r
    requires Has(WatchList(ws, l), n)
    ensures Has(WatchList(ws[f := Without(WatchList(ws, f), i)][r := WatchList(ws, r) + [w]], l), n)
  {
    WithoutMembers(WatchList(ws, f), i);
    if l == r {
      var j :| 0 <= j < |WatchList(ws, r)| && WatchList(ws, r)[j].clause == n;
      assert (WatchList(ws, r) + [w])[j].clause == n;
    }
  }

  lemma MoveKeeps(db: Db, ws: Watchers, f: Lit, i: nat, other: Lit, r: Lit, db': Db, ws': Watchers)
    requires WatchInv(db, ws) && Moved(db, ws, f, i, other, r, db', ws')
    ensures WatchInv(db', ws')
  {
    forall l ensures ListShape(db', l, WatchList(ws', l)) {
      MoveLists(db, ws, f, i, other, r, db', ws', l);
    }
    assert Shaped(db');
    forall n | 0 <= n < |db'| && db'[n].live ensures WatchedAt(db', ws', n) {
      MoveWatched(db, ws, f, i, other, r, db', ws', n);
    }
  }

  // The new watch is not false, so nothing that was settled is lost.
  lemma MoveSettled(db: Db, ws: Watchers, f: Lit, i: nat, other: Lit, r: Lit, db': Db, ws': Watchers,
                    done: set<Lit>, vals: set<Lit>)
    requires WatchInv(db, ws) && Moved(db, ws, f, i, other, r, db', ws')
    requires -r !in done && Settled(db, done, vals)
    ensures Shaped(db') && Settled(db', done, vals)
  {
    var k := WatchList(ws, f)[i].clause;
    SameMembers(db[k].lits, db'[k].lits);
    forall n | 0 <= n < |db'| && db'[n].live ensures SettledClause(db'[n], done, vals) {
      assert SettledClause(db[n], done, vals);
    }
  }

  // More true literals do no harm.
  lemma MoreTrue(db: Db, done: set<Lit>, vals: set<Lit>, vals': set<Lit>)
    requires Shaped(db) && Settled(db, done, vals) && vals <= vals'
    ensures Settled(db, done, vals')
  {
    forall k | 0 <= k < |db| && db[k].live ensures SettledClause(db[k], done, vals') {
      assert SettledClause(db[k], done, vals);
    }
  }

  // ----- The propagation of one false literal.

  datatype Prop = Prop(db: Db, ws: Watchers, trail: seq<Lit>, vals: set<Lit>)

  function Val(vals: set<Lit>, l: Lit): int {
    if l in vals then 1 else if -l in vals then -1 else 0
  }

  ghost predicate TrailOk(trail: seq<Lit>, vals: set<Lit>) {
    && vals == LitsOf(trail)
    && 0 !in trail
    && (forall i, j :: 0 <= i < j < |trail| ==> trail[i] != trail[j])
    && (forall l {:trigger -l in vals} :: l in vals ==> -l !in vals)
  }

  ghost predicate DbEntailed(db: Db, f: Formula) {
    forall k {:trigger db[k]} :: 0 <= k < |db| ==> Entails(f, LitsOf(db[k].lits))
  }

  ghost predicate AllTrue(m: Model, ls: set<Lit>) {
    forall l :: l in ls ==> Holds(m, l)
  }

  // Every model of 'f' that satisfies the assumptions satisfies all assigned literals.
  ghost predicate Implied(f: Formula, assumed: set<Lit>, vals: set<Lit>) {
    forall m: Model {:trigger AllTrue(m, assumed)} :: Models(m, f) && AllTrue(m, assumed) ==> AllTrue(m, vals)
  }

  ghost predicate HasTrue(c: WClause, vals: set<Lit>) {
    exists l :: l in c.lits && l in vals
  }

  ghost predicate HasFrom(list: seq<Watch>, i: nat, k: nat) {
    exists j :: i <= j < |list| && list[j].clause == k
  }

  // Where only the watches matter, the entailment part is instantiated with a formula that
  // entails everything.
  ghost function Any(): Formula { iset{{}} }

  lemma AnyEntails(c: Clause)
    ensures Entails(Any(), c)
  {
    assert {} in Any();
    forall m: Model ensures !Models(m, Any()) {
      assert !Sat(m, {});
    }
  }

  lemma AnyImplies(vals: set<Lit>)
    ensures Implied(Any(), {}, vals)
  {
    assert {} in Any();
    forall m: Model ensures !Models(m, Any()) {
      assert !Sat(m, {});
    }
  }

  // Clauses that watch the false literal 'fl' have a true literal or are still to be visited.
  ghost predicate PendingOn(db: Db, list: seq<Watch>, fl: Lit, i: nat, vals: set<Lit>, k: nat)
    requires k < |db| && |db[k].lits| >= 2
  {
    fl == db[k].lits[0] || fl == db[k].lits[1] ==> HasTrue(db[k], vals) || HasFrom(list, i, k)
  }

  ghost predicate Pending(db: Db, list: seq<Watch>, fl: Lit, i: nat, vals: set<Lit>)
    requires Shaped(db)
  {
    forall k {:trigger PendingOn(db, list, fl, i, vals, k)} ::
      0 <= k < |db| && db[k].live ==> PendingOn(db, list, fl, i, vals, k)
  }

  // The invariant of the inner propagation loop.  'base' is the part of the assignment that is
  // kept when the assumptions are undone, 'done' the part that was propagated.
  ghost predicate PropInv(s: Prop, f: Formula, assumed: set<Lit>, base: set<Lit>, done: set<Lit>) {
    && WatchInv(s.db, s.ws) && TrailOk(s.trail, s.vals)
    && DbEntailed(s.db, f) && Implied(f, assumed, s.vals)
    && base <= s.vals && done <= s.vals
    && Settled(s.db, base, base) && Settled(s.db, done, s.vals)
  }

  ghost predicate VisitInv(s: Prop, f: Formula, assumed: set<Lit>, base: set<Lit>, done: set<Lit>, fl: Lit, i: nat) {
    && PropInv(s, f, assumed, base, done)
    && -fl in s.vals && fl != 0
    && Pending(s.db, WatchList(s.ws, fl), fl, i, s.vals)
  }

  // The clause of the visited watch.
  function ClauseAt(s: Prop, fl: Lit, i: nat): nat
    requires i < |WatchList(s.ws, fl)|
  {
    WatchList(s.ws, fl)[i].clause
  }

  lemma VisitBasics(s: Prop, fl: Lit, i: nat)
    requires WatchInv(s.db, s.ws) && i < |WatchList(s.ws, fl)|
    ensures WatchShape(s.db, fl, WatchList(s.ws, fl)[i]) && Distinct(s.db[ClauseAt(s, fl, i)].lits)
  {
    assert ListShape(s.db, fl, WatchList(s.ws, fl));
    assert WatchList(s.ws, fl)[i] in WatchList(s.ws, fl);
  }

  // The visited clause has a true literal: go on.
  lemma VisitSatisfied(s: Prop, f: Formula, assumed: set<Lit>, base: set<Lit>, done: set<Lit>, fl: Lit, i: nat)
    requires VisitInv(s, f, assumed, base, done, fl, i) && i < |WatchList(s.ws, fl)|
    requires ClauseAt(s, fl, i) < |s.db| && HasTrue(s.db[ClauseAt(s, fl, i)], s.vals)
    ensures VisitInv(s, f, assumed, base, done, fl, i + 1)
  {
    var list := WatchList(s.ws, fl);
    forall k | 0 <= k < |s.db| && s.db[k].live ensures PendingOn(s.db, list, fl, i + 1, s.vals, k) {
      assert PendingOn(s.db, list, fl, i, s.vals, k);
    }
  }

  lemma VisitBlit(s: Prop, f: Formula, assumed: set<Lit>, base: set<Lit>, done: set<Lit>, fl: Lit, i: nat, blit: Lit, s': Prop)
    requires VisitInv(s, f, assumed, base, done, fl, i) && i < |WatchList(s.ws, fl)|
    requires ClauseAt(s, fl, i) < |s.db| && blit in s.db[ClauseAt(s, fl, i)].lits && blit in s.vals && blit != fl
    requires s' == s.(ws := s.ws[fl := WatchList(s.ws, fl)[i := WatchList(s.ws, fl)[i].(blit := blit)]])
    ensures VisitInv(s', f, assumed, base, done, fl, i + 1)
  {
    BlitKeeps(s.db, s.ws, fl, i, blit);
    VisitSatisfied(s, f, assumed, base, done, fl, i);
    var list, list' := WatchList(s.ws, fl), WatchList(s'.ws, fl);
    forall k | 0 <= k < |s.db| && s.db[k].live ensures PendingOn(s.db, list', fl, i + 1, s.vals, k) {
      assert PendingOn(s.db, list, fl, i + 1, s.vals, k);
      if j :| i + 1 <= j < |list| && list[j].clause == k {
        assert list'[j].clause == k;
      }
    }
  }

  lemma WithoutFrom(list: seq<Watch>, i: nat, k: nat)
    requires i < |list| && list[i].clause != k
    ensures HasFrom(list, i, k) ==> HasFrom(Without(list, i), i, k)
  {
    if j :| i <= j < |list| && list[j].clause == k {
      assert Without(list, i)[j-1].clause == k;
    }
  }

  // The watch of a garbage clause is dropped.
  lemma VisitGarbage(s: Prop, f: Formula, assumed: set<Lit>, base: set<Lit>, done: set<Lit>, fl: Lit, i: nat, s': Prop)
    requires VisitInv(s, f, assumed, base, done, fl, i) && i < |WatchList(s.ws, fl)|
    requires ClauseAt(s, fl, i) < |s.db| && !s.db[ClauseAt(s, fl, i)].live
    requires s' == s.(ws := s.ws[fl := Without(WatchList(s.ws, fl), i)])
    ensures VisitInv(s', f, assumed, base, done, fl, i)
  {
    DropKeeps(s.db, s.ws, fl, i);
    var list, list' := WatchList(s.ws, fl), WatchList(s'.ws, fl);
    forall k | 0 <= k < |s.db| && s.db[k].live ensures PendingOn(s.db, list', fl, i, s.vals, k) {
      assert PendingOn(s.db, list, fl, i, s.vals, k);
      WithoutFrom(list, i, k);
    }
  }

  // All literals of a clause but 'u' are false.
  ghost predicate OthersFalse(lits: seq<Lit>, u: Lit, vals: set<Lit>) {
    forall l :: l in lits && l != u ==> -l in vals
  }

  lemma UnitImplied(f: Formula, assumed: set<Lit>, vals: set<Lit>, lits: seq<Lit>, u: Lit)
    requires Implied(f, assumed, vals) && Entails(f, LitsOf(lits)) && 0 !in lits
    requires u in lits && OthersFalse(lits, u, vals)
    ensures Implied(f, assumed, vals + {u})
  {
    forall m: Model | Models(m, f) && AllTrue(m, assumed) ensures AllTrue(m, vals + {u}) {
      assert AllTrue(m, vals);
      var k :| k in LitsOf(lits) && Holds(m, k);
      if k != u {
        assert -k in vals;
      }
    }
  }

  lemma ConflictImplied(f: Formula, assumed: set<Lit>, vals: set<Lit>, lits: seq<Lit>)
    requires Implied(f, assumed, vals) && Entails(f, LitsOf(lits)) && 0 !in lits
    requires forall l :: l in lits ==> -l in vals
    ensures forall m: Model :: Models(m, f) ==> !AllTrue(m, assumed)
  {
    forall m: Model | Models(m, f) ensures !AllTrue(m, assumed) {
      var k :| k in LitsOf(lits) && Holds(m, k);
      assert -k in vals && !Holds(m, -k);
      assert !AllTrue(m, vals);
    }
  }

  lemma TrailPush(trail: seq<Lit>, vals: set<Lit>, u: Lit)
    requires TrailOk(trail, vals) && u !in vals && -u !in vals && u != 0
    ensures TrailOk(trail + [u], vals + {u})
  {
    assert forall l :: l in trail <==> l in LitsOf(trail);
    forall l | l in vals + {u} ensures -l !in vals + {u} {
      assert l in vals ==> l != -u;
    }
  }

  lemma AssignProp(s: Prop, f: Formula, assumed: set<Lit>, base: set<Lit>, done: set<Lit>, lits: seq<Lit>, u: Lit)
    requires PropInv(s, f, assumed, base, done)
    requires Entails(f, LitsOf(lits)) && 0 !in lits && u in lits && OthersFalse(lits, u, s.vals)
    requires u !in s.vals && -u !in s.vals
    ensures PropInv(s.(trail := s.trail + [u], vals := s.vals + {u}), f, assumed, base, done)
  {
    UnitImplied(f, assumed, s.vals, lits, u);
    TrailPush(s.trail, s.vals, u);
    MoreTrue(s.db, done, s.vals, s.vals + {u});
  }

  // The visited clause is unit: its last literal is assigned and the watch is kept.
  lemma VisitUnit(s: Prop, f: Formula, assumed: set<Lit>, base: set<Lit>, done: set<Lit>, fl: Lit, i: nat, u: Lit, s': Prop)
    requires VisitInv(s, f, assumed, base, done, fl, i) && i < |WatchList(s.ws, fl)|
    requires ClauseAt(s, fl, i) < |s.db| && u in s.db[ClauseAt(s, fl, i)].lits
    requires OthersFalse(s.db[ClauseAt(s, fl, i)].lits, u, s.vals) && u !in s.vals && -u !in s.vals
    requires s' == s.(trail := s.trail + [u], vals := s.vals + {u})
    ensures VisitInv(s', f, assumed, base, done, fl, i + 1)
  {
    AssignProp(s, f, assumed, base, done, s.db[ClauseAt(s, fl, i)].lits, u);
    var list := WatchList(s.ws, fl);
    forall k | 0 <= k < |s.db| && s.db[k].live ensures PendingOn(s.db, list, fl, i, s'.vals, k) {
      assert PendingOn(s.db, list, fl, i, s.vals, k);
    }
    VisitSatisfied(s', f, assumed, base, done, fl, i);
  }

  lemma VisitConflict(s: Prop, f: Formula, assumed: set<Lit>, base: set<Lit>, done: set<Lit>, k: nat)
    requires PropInv(s, f, assumed, base, done) && k < |s.db|
    requires forall l :: l in s.db[k].lits ==> -l in s.vals
    ensures forall m: Model :: Models(m, f) ==> !AllTrue(m, assumed)
  {
    ConflictImplied(f, assumed, s.vals, s.db[k].lits);
  }

  // The watched pair is put in order.
  lemma VisitSwap(s: Prop, f: Formula, assumed: set<Lit>, base: set<Lit>, done: set<Lit>, fl: Lit, i: nat, k: nat, s': Prop)
    requires VisitInv(s, f, assumed, base, done, fl, i) && k < |s.db|
    requires s' == s.(db := s'.db) && |s.db[k].lits| >= 2
    requires Rearranged(s.db, s'.db, k, s.db[k].lits[0], s.db[k].lits[1])
    ensures VisitInv(s', f, assumed, base, done, fl, i)
  {
    SwapKeeps(s.db, s.ws, k, s'.db, base, base);
    SwapKeeps(s.db, s.ws, k, s'.db, done, s.vals);
    SameMembers(s.db[k].lits, s'.db[k].lits);
    RearrangedEntailed(s.db, s'.db, k, f);
    var list := WatchList(s.ws, fl);
    forall n | 0 <= n < |s'.db| && s'.db[n].live ensures PendingOn(s'.db, list, fl, i, s.vals, n) {
      assert PendingOn(s.db, list, fl, i, s.vals, n);
    }
  }

  lemma RearrangedEntailed(db: Db, db': Db, k: nat, f: Formula)
    requires DbEntailed(db, f) && |db'| == |db| && k < |db| && LitsOf(db'[k].lits) == LitsOf(db[k].lits)
    requires forall i :: 0 <= i < |db| && i != k ==> db'[i] == db[i]
    ensures DbEntailed(db', f)
  {
    forall i | 0 <= i < |db'| ensures Entails(f, LitsOf(db'[i].lits)) {
      assert Entails(f, LitsOf(db[i].lits));
    }
  }

  // The watch moves to a literal that is not false.
  lemma VisitMove(s: Prop, f: Formula, assumed: set<Lit>, base: set<Lit>, done: set<Lit>, fl: Lit, i: nat,
                  other: Lit, r: Lit, s': Prop)
    requires VisitInv(s, f, assumed, base, done, fl, i)
    requires s' == s.(db := s'.db, ws := s'.ws)
    requires Moved(s.db, s.ws, fl, i, other, r, s'.db, s'.ws)
    requires -r !in s.vals
    ensures VisitInv(s', f, assumed, base, done, fl, i)
  {
    var k := ClauseAt(s, fl, i);
    MoveKeeps(s.db, s.ws, fl, i, other, r, s'.db, s'.ws);
    MoveSettled(s.db, s.ws, fl, i, other, r, s'.db, s'.ws, base, base);
    MoveSettled(s.db, s.ws, fl, i, other, r, s'.db, s'.ws, done, s.vals);
    RearrangedEntailed(s.db, s'.db, k, f);
    var list, list' := WatchList(s.ws, fl), WatchList(s'.ws, fl);
    forall n | 0 <= n < |s'.db| && s'.db[n].live ensures PendingOn(s'.db, list', fl, i, s.vals, n) {
      if n != k {
        assert PendingOn(s.db, list, fl, i, s.vals, n);
        WithoutFrom(list, i, n);
      }
    }
  }

  // Before the first visit every clause that watches the literal is pending.
  lemma StartVisits(s: Prop, f: Formula, assumed: set<Lit>, base: set<Lit>, done: set<Lit>, fl: Lit)
    requires PropInv(s, f, assumed, base, done) && -fl in s.vals && fl != 0
    ensures VisitInv(s, f, assumed, base, done, fl, 0)
  {
    forall k | 0 <= k < |s.db| && s.db[k].live ensures PendingOn(s.db, WatchList(s.ws, fl), fl, 0, s.vals, k) {
      assert WatchedAt(s.db, s.ws, k);
    }
  }

  // After the last visit the literal counts as propagated.
  lemma EndVisits(s: Prop, f: Formula, assumed: set<Lit>, base: set<Lit>, done: set<Lit>, fl: Lit, i: nat)
    requires VisitInv(s, f, assumed, base, done, fl, i) && |WatchList(s.ws, fl)| <= i
    ensures PropInv(s, f, assumed, base, done + {-fl})
  {
    forall k | 0 <= k < |s.db| && s.db[k].live ensures SettledClause(s.db[k], done + {-fl}, s.vals) {
      assert SettledClause(s.db[k], done, s.vals);
      assert PendingOn(s.db, WatchList(s.ws, fl), fl, i, s.vals, k);
    }
  }

  // ----- Adding and removing clauses.

  // A new clause is watched by its first two literals.
  function AddWatches(ws: Watchers, lits: seq<Lit>, k: nat): Watchers
    requires |lits| >= 2
  {
    var ws1 := ws[lits[0] := WatchList(ws, lits[0]) + [Watch(lits[1], |lits|, k)]];
    ws1[lits[1] := WatchList(ws1, lits[1]) + [Watch(lits[0], |lits|, k)]]
  }

  lemma AddWatchList(ws: Watchers, lits: seq<Lit>, k: nat, l: Lit)
    requires |lits| >= 2 && lits[0] != lits[1]
    ensures WatchList(AddWatches(ws, lits, k), l) ==
            WatchList(ws, l) + (if l == lits[0] then [Watch(lits[1], |lits|, k)]
                                else if l == lits[1] then [Watch(lits[0], |lits|, k)] else [])
  {
  }

  lemma AddShape(db: Db, ws: Watchers, lits: seq<Lit>, l: Lit)
    requires ListShape(db, l, WatchList(ws, l)) && |lits| >= 2 && Distinct(lits)
    ensures ListShape(db + [WClause(lits, true)], l, WatchList(AddWatches(ws, lits, |db|), l))
  {
    var db', list := db + [WClause(lits, true)], WatchList(ws, l);
    AddWatchList(ws, lits, |db|, l);
    forall w | w in list ensures WatchShape(db', l, w) && w.clause != |db| {
      assert WatchShape(db, l, w);
    }
    var list' := WatchList(AddWatches(ws, lits, |db|), l);
    forall w | w in list' ensures WatchShape(db', l, w) {
      if w !in list {
        assert lits[0] in lits && lits[1] in lits;
      }
    }
  }

  lemma HasAppended(list: seq<Watch>, more: seq<Watch>, k: nat)
    ensures Has(list, k) || Has(more, k) ==> Has(list + more, k)
  {
    if i :| 0 <= i < |list| && list[i].clause == k {
      assert (list + more)[i].clause == k;
    } else if i :| 0 <= i < |more| && more[i].clause == k {
      assert (list + more)[|list| + i].clause == k;
    }
  }

  lemma AddKeeps(db: Db, ws: Watchers, lits: seq<Lit>)
    requires WatchInv(db, ws) && |lits| >= 2 && Distinct(lits)
    ensures WatchInv(db + [WClause(lits, true)], AddWatches(ws, lits, |db|))
  {
    var db', ws' := db + [WClause(lits, true)], AddWatches(ws, lits, |db|);
    forall l ensures ListShape(db', l, WatchList(ws', l)) {
      assert ListShape(db, l, WatchList(ws, l));
      AddShape(db, ws, lits, l);
    }
    forall k | 0 <= k < |db'| && db'[k].live ensures WatchedAt(db', ws', k) {
      var x, y := db'[k].lits[0], db'[k].lits[1];
      AddWatchList(ws, lits, |db|, x);
      AddWatchList(ws, lits, |db|, y);
      if k < |db| {
        assert WatchedAt(db, ws, k);
        HasAppended(WatchList(ws, x), WatchList(ws', x)[|WatchList(ws, x)|..], k);
        HasAppended(WatchList(ws, y), WatchList(ws', y)[|WatchList(ws, y)|..], k);
      } else {
        assert [Watch(y, |lits|, k)][0].clause == k && [Watch(x, |lits|, k)][0].clause == k;
        HasAppended(WatchList(ws, x), [Watch(y, |lits|, k)], k);
        HasAppended(WatchList(ws, y), [Watch(x, |lits|, k)], k);
      }
    }
  }

  lemma AddProp(s: Prop, f: Formula, vals: set<Lit>, lits: seq<Lit>)
    requires PropInv(s, f, {}, vals, vals) && vals == s.vals
    requires |lits| >= 2 && Distinct(lits) && Entails(f, LitsOf(lits))
    requires -lits[0] !in vals && -lits[1] !in vals
    ensures PropInv(s.(db := s.db + [WClause(lits, true)], ws := AddWatches(s.ws, lits, |s.db|)), f, {}, vals, vals)
  {
    var db' := s.db + [WClause(lits, true)];
    AddKeeps(s.db, s.ws, lits);
    forall k | 0 <= k < |db'| && db'[k].live ensures SettledClause(db'[k], vals, vals) {
      if k < |s.db| {
        assert SettledClause(s.db[k], vals, vals);
      }
    }
    forall k | 0 <= k < |db'| ensures Entails(f, LitsOf(db'[k].lits)) {
      if k < |s.db| {
        assert Entails(f, LitsOf(s.db[k].lits));
      }
    }
  }

  // Clauses become garbage.
  ghost predicate FewerLive(db: Db, db': Db) {
    |db'| == |db| && forall k {:trigger db'[k]} :: 0 <= k < |db| ==>
      db'[k].lits == db[k].lits && (db'[k].live ==> db[k].live)
  }

  lemma FewerLiveKeeps(db: Db, ws: Watchers, db': Db, done: set<Lit>, vals: set<Lit>)
    requires WatchInv(db, ws) && Settled(db, done, vals) && FewerLive(db, db')
    ensures WatchInv(db', ws) && Settled(db', done, vals)
  {
    assert Shaped(db') by {
      forall k | 0 <= k < |db'| ensures |db'[k].lits| >= 2 && Distinct(db'[k].lits) {
        assert Distinct(db[k].lits);
      }
    }
    forall l ensures ListShape(db', l, WatchList(ws, l)) {
      assert ListShape(db, l, WatchList(ws, l));
      forall w | w in WatchList(ws, l) ensures WatchShape(db', l, w) {
        assert WatchShape(db, l, w);
        assert db'[w.clause].lits == db[w.clause].lits;
      }
    }
    forall k | 0 <= k < |db'| && db'[k].live ensures WatchedAt(db', ws, k) && SettledClause(db'[k], done, vals) {
      assert WatchedAt(db, ws, k) && SettledClause(db[k], done, vals);
    }
  }

  lemma FewerLiveProp(s: Prop, f: Formula, vals: set<Lit>, db': Db)
    requires PropInv(s, f, {}, vals, vals) && vals == s.vals && FewerLive(s.db, db')
    ensures PropInv(s.(db := db'), f, {}, vals, vals)
  {
    FewerLiveKeeps(s.db, s.ws, db', vals, vals);
    forall k | 0 <= k < |db'| ensures Entails(f, LitsOf(db'[k].lits)) {
      assert Entails(f, LitsOf(s.db[k].lits));
    }
  }

  // The watches of live clauses.
  function LiveWatches(db: Db, list: seq<Watch>): seq<Watch> {
    if list == [] then []
    else
      var n := |list| - 1;
      LiveWatches(db, list[..n]) + if list[n].clause < |db| && db[list[n].clause].live then [list[n]] else []
  }

  lemma {:induction false} LiveWatchesMembers(db: Db, list: seq<Watch>)
    ensures forall w :: w in LiveWatches(db, list) <==> w in list && w.clause < |db| && db[w.clause].live
  {
    if list != [] {
      LiveWatchesMembers(db, list[..|list|-1]);
      assert list == list[..|list|-1] + [list[|list|-1]];
    }
  }

  lemma HasMember(list: seq<Watch>, k: nat)
    ensures Has(list, k) <==> exists w :: w in list && w.clause == k
  {
    if i :| 0 <= i < |list| && list[i].clause == k {
      assert list[i] in list;
    }
    if w :| w in list && w.clause == k {
      var i :| 0 <= i < |list| && list[i] == w;
    }
  }

  lemma LiveHas(db: Db, list: seq<Watch>, k: nat)
    requires k < |db| && db[k].live && Has(list, k)
    ensures Has(LiveWatches(db, list), k)
  {
    LiveWatchesMembers(db, list);
    HasMember(list, k);
    HasMember(LiveWatches(db, list), k);
  }

  ghost predicate UniqueClauses(list: seq<Watch>) {
    forall i, j :: 0 <= i < j < |list| ==> list[i].clause != list[j].clause
  }

  lemma {:induction false} LiveUnique(db: Db, list: seq<Watch>)
    requires UniqueClauses(list)
    ensures UniqueClauses(LiveWatches(db, list))
  {
    if list != [] {
      var n := |list| - 1;
      LiveUnique(db, list[..n]);
      LiveWatchesMembers(db, list[..n]);
      var r0 := LiveWatches(db, list[..n]);
      forall i | 0 <= i < |r0| ensures r0[i].clause != list[n].clause {
        assert r0[i] in list[..n];
        var m :| 0 <= m < n && list[..n][m] == r0[i];
        assert list[m].clause != list[n].clause;
      }
    }
  }

  lemma FlushKeeps(db: Db, ws: Watchers, l: Lit)
    requires WatchInv(db, ws)
    ensures WatchInv(db, ws[l := LiveWatches(db, WatchList(ws, l))])
  {
    var list := WatchList(ws, l);
    var ws' := ws[l := LiveWatches(db, list)];
    FlushShape(db, ws, l);
    forall x ensures ListShape(db, x, WatchList(ws', x)) {
      assert ListShape(db, x, WatchList(ws, x));
    }
    forall k | 0 <= k < |db| && db[k].live ensures WatchedAt(db, ws', k) {
      assert WatchedAt(db, ws, k);
      if Has(list, k) {
        LiveHas(db, list, k);
      }
    }
  }

  lemma FlushShape(db: Db, ws: Watchers, l: Lit)
    requires ListsShaped(db, ws)
    ensures ListShape(db, l, LiveWatches(db, WatchList(ws, l)))
  {
    var list := WatchList(ws, l);
    assert ListShape(db, l, list);
    LiveWatchesMembers(db, list);
    assert UniqueClauses(list);
    LiveUnique(db, list);
    forall w | w in LiveWatches(db, list) ensures WatchShape(db, l, w) {
      assert w in list;
    }
    assert UniqueClauses(LiveWatches(db, list));
  }
}
