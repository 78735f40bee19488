// From reasons to hint chains: what the chain construction of the LRAT builder produces, and
// why the LRAT checker accepts it.
module LratChains {
  import opened Cnf
  import LS = LratSpec
  import WA = Watching

  datatype BClause = BClause(id: LS.Id, lits: seq<Lit>, garbage: bool)

  type Db = seq<BClause>

  // A step of a derivation: a clause and the literal it forces.
  datatype Step = Step(clause: nat, lit: Lit)

  // A derivation ends with a falsified clause, or with a literal that became true.
  datatype Goal = Falsify(clause: nat) | Reach(lit: Lit)

  ghost predicate Forces(db: Db, step: Step, known: set<Lit>) {
    && step.clause < |db|
    && step.lit in db[step.clause].lits
    && WA.OthersFalse(db[step.clause].lits, step.lit, known)
  }

  ghost predicate Met(db: Db, goal: Goal, known: set<Lit>) {
    match goal
    case Falsify(k) => k < |db| && LS.AllFalse(known, db[k].lits)
    case Reach(l) => l in known
  }

  // The steps force their literals one after the other, and then the goal is met.
  ghost predicate Derivation(db: Db, steps: seq<Step>, goal: Goal, known: set<Lit>)
    decreases |steps|
  {
    if steps == [] then Met(db, goal, known)
    else Forces(db, steps[0], known) && Derivation(db, steps[1..], goal, known + {steps[0].lit})
  }

  lemma {:induction false} DerivationMonotone(db: Db, steps: seq<Step>, goal: Goal, known: set<Lit>, more: set<Lit>)
    requires Derivation(db, steps, goal, known) && known <= more
    ensures Derivation(db, steps, goal, more)
    decreases |steps|
  {
    if steps != [] {
      DerivationMonotone(db, steps[1..], goal, known + {steps[0].lit}, more + {steps[0].lit});
    }
  }

  function GoalIds(db: Db, goal: Goal): seq<LS.Id>
    requires goal.Falsify? ==> goal.clause < |db|
  {
    if goal.Falsify? then [db[goal.clause].id] else []
  }

  function Ids(db: Db, steps: seq<Step>, goal: Goal): seq<LS.Id>
    requires goal.Falsify? ==> goal.clause < |db|
    requires forall s :: s in steps ==> s.clause < |db|
  {
    if steps == [] then GoalIds(db, goal)
    else [db[steps[0].clause].id] + Ids(db, steps[1..], goal)
  }

  // The clauses of a derivation that the checker has to know.
  ghost predicate Hinted(db: Db, steps: seq<Step>, goal: Goal) {
    && (goal.Falsify? ==> goal.clause < |db| && Usable(db, goal.clause))
    && (forall s :: s in steps ==> s.clause < |db| && Usable(db, s.clause) && goal != Falsify(s.clause))
    && (forall i, j :: 0 <= i < j < |steps| ==> steps[i].clause != steps[j].clause)
  }

  ghost predicate Usable(db: Db, k: nat)
    requires k < |db|
  {
    !db[k].garbage && WA.Distinct(db[k].lits)
  }

  // Live clauses have different identifiers.
  ghost predicate UniqueIds(db: Db) {
    forall i, j :: 0 <= i < j < |db| && !db[i].garbage && !db[j].garbage ==> db[i].id != db[j].id
  }

  // The table of the checker holds every live clause under its identifier.
  ghost predicate MirroredClause(nonces: LS.Nonces, t: LS.Table, c: BClause) {
    LS.Lookup(nonces, t, c.id).Some? &&
    var d := LS.Lookup(nonces, t, c.id).value;
    LitsOf(d.lits) == LitsOf(c.lits) && (d.tautological <==> LS.TautologicalSeq(d.lits))
  }

  ghost predicate Mirrored(nonces: LS.Nonces, t: LS.Table, db: Db) {
    forall k {:trigger db[k]} :: 0 <= k < |db| && !db[k].garbage ==> MirroredClause(nonces, t, db[k])
  }

  lemma MirroredScan(nonces: LS.Nonces, t: LS.Table, c: BClause, checked: set<Lit>, u: Lit)
    requires MirroredClause(nonces, t, c) && WA.Distinct(c.lits)
    ensures var d := LS.Lookup(nonces, t, c.id).value;
            && !d.tautological
            && (LS.AllFalse(checked, c.lits) ==> LS.Scan(checked, d.lits).Falsified?)
            && (LS.OnlyUnassigned(checked, c.lits, u) ==> LS.Scan(checked, d.lits) == LS.Unit(u))
  {
    var d := LS.Lookup(nonces, t, c.id).value;
    WA.SameMembers(c.lits, d.lits);
    LS.ScanMeaning(checked, d.lits, u);
    forall l | l in d.lits ensures -l !in d.lits {
      assert -l in c.lits ==> l !in c.lits;
    }
  }

  ghost predicate NotUsed(db: Db, steps: seq<Step>, goal: Goal, used: set<LS.Id>) {
    && (goal.Falsify? && goal.clause < |db| ==> db[goal.clause].id !in used)
    && forall s :: s in steps && s.clause < |db| ==> db[s.clause].id !in used
  }

  lemma DifferentIds(db: Db, i: nat, j: nat)
    requires UniqueIds(db) && i < |db| && j < |db| && i != j && !db[i].garbage && !db[j].garbage
    ensures db[i].id != db[j].id
  {
    if j < i {
      assert db[j].id != db[i].id;
    }
  }

  lemma HintedRest(db: Db, steps: seq<Step>, goal: Goal, used: set<LS.Id>)
    requires Hinted(db, steps, goal) && UniqueIds(db) && steps != [] && NotUsed(db, steps, goal, used)
    ensures Hinted(db, steps[1..], goal)
    ensures NotUsed(db, steps[1..], goal, used + {db[steps[0].clause].id})
  {
    var k := steps[0].clause;
    assert steps[0] in steps;
    forall s | s in steps[1..] ensures s in steps && s.clause != k && db[s.clause].id != db[k].id {
      var i :| 0 <= i < |steps[1..]| && steps[1..][i] == s;
      assert steps[i+1] == s;
      DifferentIds(db, s.clause, k);
    }
    if goal.Falsify? {
      DifferentIds(db, goal.clause, k);
    }
  }

  ghost predicate Consistent(known: set<Lit>) {
    forall l {:trigger -l in known} :: l in known ==> -l !in known
  }

  // The checker follows the identifiers of a derivation to a falsified clause.  A derivation of
  // a literal is enough if its negation was assumed.
  lemma {:induction false} DerivationFollowed(
    nonces: LS.Nonces, t: LS.Table, db: Db, steps: seq<Step>, goal: Goal, checked: set<Lit>, used: set<LS.Id>)
    requires Mirrored(nonces, t, db) && UniqueIds(db) && Consistent(checked)
    requires goal.Reach? ==> -goal.lit in checked
    requires Hinted(db, steps, goal) && Derivation(db, steps, goal, checked) && NotUsed(db, steps, goal, used)
    ensures LS.Follow(nonces, t, checked, used, Ids(db, steps, goal))
    decreases |steps|
  {
    if steps == [] {
      if goal.Falsify? {
        assert MirroredClause(nonces, t, db[goal.clause]);
        MirroredScan(nonces, t, db[goal.clause], checked, 0);
      }
    } else {
      var s := steps[0];
      assert s in steps;
      assert MirroredClause(nonces, t, db[s.clause]);
      MirroredScan(nonces, t, db[s.clause], checked, s.lit);
      HintedRest(db, steps, goal, used);
      if -s.lit in checked {
        assert LS.AllFalse(checked, db[s.clause].lits);
      } else {
        assert LS.OnlyUnassigned(checked, db[s.clause].lits, s.lit);
        assert Consistent(checked + {s.lit}) by {
          assert s.lit != -s.lit;
        }
        DerivationFollowed(nonces, t, db, steps[1..], goal, checked + {s.lit}, used + {db[s.clause].id});
      }
    }
  }

  // ----- The trail with reasons.

  datatype Reason = Assumption | Because(clause: nat)

  // The clause forces 'lit' after the literals in 'before' were assigned.
  ghost predicate ReasonFor(db: Db, k: nat, lit: Lit, before: seq<Lit>) {
    && k < |db| && Usable(db, k) && lit in db[k].lits
    && forall l :: l in db[k].lits && l != lit ==> -l in before
  }

  ghost predicate Reasoned(db: Db, trail: seq<Lit>, reasons: map<nat, Reason>, p: nat)
    requires p < |trail|
  {
    var v := Var(trail[p]);
    v in reasons && (reasons[v].Because? ==> ReasonFor(db, reasons[v].clause, trail[p], trail[..p]))
  }

  ghost predicate AllReasoned(db: Db, trail: seq<Lit>, reasons: map<nat, Reason>) {
    forall p {:trigger Reasoned(db, trail, reasons, p)} :: 0 <= p < |trail| ==> Reasoned(db, trail, reasons, p)
  }

  // Literals that still have to be justified below position 'p'.
  function Pending(trail: seq<Lit>, todo: set<nat>, p: nat): set<Lit>
    requires p <= |trail|
  {
    set q | 0 <= q < p && Var(trail[q]) in todo :: trail[q]
  }

  // The same as a number.
  function CountPending(trail: seq<Lit>, todo: set<nat>, p: nat): nat
    requires p <= |trail|
  {
    if p == 0 then 0 else CountPending(trail, todo, p - 1) + if Var(trail[p-1]) in todo then 1 else 0
  }

  lemma {:induction false} CountMark(trail: seq<Lit>, todo: set<nat>, p: nat, q: nat)
    requires DistinctVars(trail) && q < p <= |trail| && Var(trail[q]) !in todo
    ensures CountPending(trail, todo + {Var(trail[q])}, p) == CountPending(trail, todo, p) + 1
  {
    if q == p - 1 {
      CountSame(trail, todo, p - 1, q);
    } else {
      CountMark(trail, todo, p - 1, q);
    }
  }

  lemma {:induction false} CountSame(trail: seq<Lit>, todo: set<nat>, p: nat, q: nat)
    requires DistinctVars(trail) && p <= q < |trail|
    ensures CountPending(trail, todo + {Var(trail[q])}, p) == CountPending(trail, todo, p)
  {
    if p > 0 {
      CountSame(trail, todo, p - 1, q);
    }
  }

  lemma {:induction false} CountZero(trail: seq<Lit>, todo: set<nat>, p: nat)
    requires p <= |trail|
    ensures CountPending(trail, todo, p) == 0 <==> Pending(trail, todo, p) == {}
  {
    if p > 0 {
      CountZero(trail, todo, p - 1);
      if Var(trail[p-1]) in todo {
        assert trail[p-1] in Pending(trail, todo, p);
      } else {
        assert Pending(trail, todo, p) == Pending(trail, todo, p - 1);
      }
    }
  }

  // ----- What the downward loop over the trail keeps.

  // The step justifies a trail literal at position 'p' or later with its reason.
  ghost predicate StepOf(trail: seq<Lit>, reasons: map<nat, Reason>, p: nat, s: Step) {
    Var(s.lit) in reasons && reasons[Var(s.lit)] == Because(s.clause) && exists q :: p <= q < |trail| && trail[q] == s.lit
  }

  // Under the assumptions 'known' and what is still to be justified the steps reach the goal.
  ghost predicate Building(
    db: Db, trail: seq<Lit>, reasons: map<nat, Reason>, known: set<Lit>, steps: seq<Step>, goal: Goal, todo: set<nat>, p: nat)
    requires p <= |trail|
  {
    && Derivation(db, steps, goal, known + Pending(trail, todo, p))
    && Hinted(db, steps, goal)
    && forall s {:trigger StepOf(trail, reasons, p, s)} :: s in steps ==> StepOf(trail, reasons, p, s)
  }

  lemma SkipPosition(
    db: Db, trail: seq<Lit>, reasons: map<nat, Reason>, known: set<Lit>, steps: seq<Step>, goal: Goal, todo: set<nat>, p: nat)
    requires p < |trail| && Building(db, trail, reasons, known, steps, goal, todo, p + 1)
    requires Var(trail[p]) in todo ==> trail[p] in known
    ensures Building(db, trail, reasons, known, steps, goal, todo, p)
  {
    assert known + Pending(trail, todo, p + 1) == known + Pending(trail, todo, p);
    forall s | s in steps ensures StepOf(trail, reasons, p, s) {
      assert StepOf(trail, reasons, p + 1, s);
    }
  }

  // No clause is the reason of two literals.
  lemma ReasonsDiffer(db: Db, trail: seq<Lit>, vals: set<Lit>, reasons: map<nat, Reason>, p: nat, q: nat)
    requires WA.TrailOk(trail, vals) && AllReasoned(db, trail, reasons) && p < q < |trail|
    requires Var(trail[p]) in reasons && Var(trail[q]) in reasons
    requires reasons[Var(trail[p])].Because? && reasons[Var(trail[q])].Because?
    ensures reasons[Var(trail[p])] != reasons[Var(trail[q])]
  {
    assert Reasoned(db, trail, reasons, p) && Reasoned(db, trail, reasons, q);
    assert trail[p] in vals && -trail[p] !in vals && trail[q] != trail[p];
    assert forall l :: l in trail[..q] ==> l in LitsOf(trail);
  }

  // A falsified clause is no reason.
  lemma FalsifiedNoReason(db: Db, trail: seq<Lit>, vals: set<Lit>, reasons: map<nat, Reason>, p: nat, k: nat)
    requires WA.TrailOk(trail, vals) && AllReasoned(db, trail, reasons) && p < |trail| && k < |db|
    requires LS.AllFalse(vals, db[k].lits) && Var(trail[p]) in reasons
    ensures reasons[Var(trail[p])] != Because(k)
  {
    assert Reasoned(db, trail, reasons, p);
    assert trail[p] in vals && -trail[p] !in vals;
  }

  lemma JustifyPosition(
    db: Db, trail: seq<Lit>, vals: set<Lit>, reasons: map<nat, Reason>, known: set<Lit>,
    steps: seq<Step>, goal: Goal, todo: set<nat>, todo': set<nat>, p: nat, k: nat)
    requires WA.TrailOk(trail, vals) && AllReasoned(db, trail, reasons)
    requires p < |trail| && Building(db, trail, reasons, known, steps, goal, todo, p + 1)
    requires Reasoned(db, trail, reasons, p) && reasons[Var(trail[p])] == Because(k)
    requires todo <= todo' && goal != Falsify(k)
    requires forall l :: l in db[k].lits && l != trail[p] ==> -l in known || Var(l) in todo'
    ensures Building(db, trail, reasons, known, [Step(k, trail[p])] + steps, goal, todo', p)
  {
    var s := Step(k, trail[p]);
    JustifiedForces(db, trail, reasons, known, todo', p, k);
    var now := known + Pending(trail, todo', p);
    assert known + Pending(trail, todo, p + 1) <= now + {s.lit};
    DerivationMonotone(db, steps, goal, known + Pending(trail, todo, p + 1), now + {s.lit});
    assert ([s] + steps)[1..] == steps;
    forall x | x in steps ensures x.clause != k && StepOf(trail, reasons, p, x) {
      assert StepOf(trail, reasons, p + 1, x);
      var q :| p + 1 <= q < |trail| && trail[q] == x.lit;
      ReasonsDiffer(db, trail, vals, reasons, p, q);
    }
    assert StepOf(trail, reasons, p, s);
  }

  lemma JustifiedForces(
    db: Db, trail: seq<Lit>, reasons: map<nat, Reason>, known: set<Lit>, todo: set<nat>, p: nat, k: nat)
    requires p < |trail| && Reasoned(db, trail, reasons, p) && reasons[Var(trail[p])] == Because(k)
    requires forall l :: l in db[k].lits && l != trail[p] ==> -l in known || Var(l) in todo
    ensures Forces(db, Step(k, trail[p]), known + Pending(trail, todo, p))
  {
    forall l | l in db[k].lits && l != trail[p] ensures -l in known + Pending(trail, todo, p) {
      assert -l in trail[..p];
      if -l !in known {
        var q :| 0 <= q < p && trail[q] == -l;
        assert trail[q] in Pending(trail, todo, p);
      }
    }
  }

  // ----- Chains are collected from the end.

  function Reversed(s: seq<LS.Id>): seq<LS.Id> {
    if s == [] then [] else [s[|s|-1]] + Reversed(s[..|s|-1])
  }

  lemma ReversedLast(s: seq<LS.Id>, x: LS.Id)
    ensures Reversed(s + [x]) == [x] + Reversed(s)
  {
    assert (s + [x])[..|s|] == s;
  }

  lemma {:induction false} ReversedConcat(a: seq<LS.Id>, b: seq<LS.Id>)
    ensures Reversed(a + b) == Reversed(b) + Reversed(a)
  {
    if b == [] {
      assert a + b == a;
    } else {
      var n := |b| - 1;
      assert (a + b)[..|a + b| - 1] == a + b[..n];
      ReversedConcat(a, b[..n]);
    }
  }

  lemma {:induction false} ReversedTwice(s: seq<LS.Id>)
    ensures Reversed(Reversed(s)) == s
  {
    if s != [] {
      var n := |s| - 1;
      ReversedTwice(s[..n]);
      ReversedConcat([s[n]], Reversed(s[..n]));
      assert Reversed([s[n]]) == [s[n]];
      assert s == s[..n] + [s[n]];
    }
  }
}
