// Which literals minimization removes: those that are cut off from decisions by kept and fixed literals.
module Removal {
  import opened Cnf
  import opened LratChains
  import opened Analysis
  import opened Minimization

  // As 'Look', for what is only needed for the outcome of minimization.
  predicate Peek(u: int) { true }

  // The literal at 'r' is among those that imply the literal at 'q' by its reason.
  ghost predicate Antecedent(f: Frame, q: nat, r: nat) {
    && r < q < |f.trail| && Var(f.trail[q]) in f.info && f.info[Var(f.trail[q])].source.Propagated?
    && var k := f.info[Var(f.trail[q])].source.clause; k < |f.db| && -f.trail[r] in f.db[k].lits
  }

  // A decision or a literal of the conflict level.
  ghost predicate Source(f: Frame, q: nat) {
    q < |f.trail| && Var(f.trail[q]) in f.info &&
    (f.info[Var(f.trail[q])].source.Decided? || LevelOf(f, f.trail[q]) == f.level)
  }

  // Reasons lead from the literal back to a source without passing a kept or a fixed literal.
  ghost predicate Exposed(f: Frame, keep: set<nat>, q: nat)
    decreases q
  {
    && q < |f.trail| && LevelOf(f, f.trail[q]) > 0 && Var(f.trail[q]) !in keep
    && (Source(f, q) ||
        exists r: nat {:trigger Antecedent(f, q, r)} :: r < q && Antecedent(f, q, r) && Exposed(f, keep, r))
  }

  lemma {:induction false} ExposedMore(f: Frame, keep: set<nat>, keep': set<nat>, q: nat)
    requires Exposed(f, keep, q) && forall r {:trigger f.trail[r]} :: 0 <= r <= q && r < |f.trail| && Var(f.trail[r]) in keep' ==> Var(f.trail[r]) in keep
    ensures Exposed(f, keep', q)
    decreases q
  {
    if !Source(f, q) {
      var r: nat :| r < q && Antecedent(f, q, r) && Exposed(f, keep, r);
      ExposedMore(f, keep, keep', r);
    }
  }

  // ----- Early aborts lose nothing.

  // The level of a propagated literal is that of one of the literals that imply it.
  ghost predicate InheritedAt(f: Frame, q: nat) {
    exists r: nat {:trigger Antecedent(f, q, r)} :: Antecedent(f, q, r) && LevelOf(f, f.trail[r]) == LevelOf(f, f.trail[q])
  }

  ghost predicate Inherited(f: Frame) {
    forall q: nat {:trigger InheritedAt(f, q)} :: q < |f.trail| && LevelOf(f, f.trail[q]) > 0 && !Source(f, q) ==> InheritedAt(f, q)
  }

  lemma {:induction false} NoneKept(f: Frame, keep: set<nat>, q: nat)
    requires Inherited(f) && q < |f.trail| && LevelOf(f, f.trail[q]) > 0
    requires forall r {:trigger f.trail[r]} :: 0 <= r <= q && LevelOf(f, f.trail[r]) == LevelOf(f, f.trail[q]) ==> Var(f.trail[r]) !in keep
    ensures Exposed(f, keep, q)
    decreases q
  {
    if !Source(f, q) {
      assert InheritedAt(f, q);
      var r: nat :| Antecedent(f, q, r) && LevelOf(f, f.trail[r]) == LevelOf(f, f.trail[q]);
      NoneKept(f, keep, r);
    }
  }

  // What is known about the levels of the given variables: how many there are at least, and the first one.
  ghost predicate Levels(f: Frame, vars: set<nat>, count: map<nat, nat>, first: map<nat, nat>) {
    forall u {:trigger Peek(u)} :: Peek(u) ==>
      (forall r {:trigger f.trail[r]} :: 0 <= r < |f.trail| && Var(f.trail[r]) in vars ==> LevelAt(f, count, first, r))
      && (forall r, s {:trigger f.trail[r], f.trail[s]} ::
            0 <= r < s < |f.trail| && Var(f.trail[r]) in vars && Var(f.trail[s]) in vars ==> Apart(f, count, r, s))
  }

  ghost predicate LevelAt(f: Frame, count: map<nat, nat>, first: map<nat, nat>, r: nat)
    requires r < |f.trail|
  {
    var v := LevelOf(f, f.trail[r]);
    v > 0 ==> v in count && count[v] >= 1 && v in first && first[v] <= r
  }

  ghost predicate Apart(f: Frame, count: map<nat, nat>, r: nat, s: nat)
    requires r < |f.trail| && s < |f.trail|
  {
    var v := LevelOf(f, f.trail[r]);
    v > 0 && LevelOf(f, f.trail[s]) == v ==> v in count && count[v] >= 2
  }

  lemma LevelsLess(f: Frame, vars: set<nat>, vars': set<nat>, count: map<nat, nat>, first: map<nat, nat>)
    requires Levels(f, vars, count, first) && vars' <= vars
    ensures Levels(f, vars', count, first)
  {
    assert Peek(0);
  }

  lemma LevelsFixed(f: Frame, vars: set<nat>, count: map<nat, nat>, first: map<nat, nat>, q: nat)
    requires Levels(f, vars, count, first) && DistinctVars(f.trail) && q < |f.trail| && LevelOf(f, f.trail[q]) == 0
    ensures Levels(f, vars + {Var(f.trail[q])}, count, first)
  {
    assert Peek(0);
  }

  lemma LevelsNext(f: Frame, vars: set<nat>, count: map<nat, nat>, first: map<nat, nat>, q: nat,
                   count': map<nat, nat>, first': map<nat, nat>)
    requires Levels(f, vars, count, first) && DistinctVars(f.trail) && q < |f.trail| && Var(f.trail[q]) !in vars
    requires var v := LevelOf(f, f.trail[q]);
             && count' == count[v := (if v in count then count[v] else 0) + 1]
             && first' == if v !in first || q < first[v] then first[v := q] else first
    ensures Levels(f, vars + {Var(f.trail[q])}, count', first')
  {
    assert Peek(0);
    var vars' := vars + {Var(f.trail[q])};
    forall r | 0 <= r < |f.trail| && Var(f.trail[r]) in vars' ensures LevelAt(f, count', first', r) {
      assert r == q || LevelAt(f, count, first, r);
    }
    forall r, s | 0 <= r < s < |f.trail| && Var(f.trail[r]) in vars' && Var(f.trail[s]) in vars' ensures Apart(f, count', r, s) {
      if r == q {
        assert LevelAt(f, count, first, s);
      } else if s == q {
        assert LevelAt(f, count, first, r);
      } else {
        assert Apart(f, count, r, s);
      }
    }
  }

  // A literal before all kept literals of its level is exposed.
  lemma FirstExposed(f: Frame, keep: set<nat>, count: map<nat, nat>, first: map<nat, nat>, q: nat)
    requires Inherited(f) && Levels(f, keep, count, first) && q < |f.trail| && Var(f.trail[q]) !in keep
    requires var v := LevelOf(f, f.trail[q]); v > 0 && v in first && q <= first[v]
    ensures Exposed(f, keep, q)
  {
    assert Peek(0);
    forall r | 0 <= r <= q && LevelOf(f, f.trail[r]) == LevelOf(f, f.trail[q]) ensures Var(f.trail[r]) !in keep {
      assert Var(f.trail[r]) in keep ==> LevelAt(f, count, first, r);
    }
    NoneKept(f, keep, q);
  }

  // A literal of the clause that is the only one of its level is exposed.
  lemma LonelyExposed(f: Frame, vars: set<nat>, keep: set<nat>, count: map<nat, nat>, first: map<nat, nat>, q: nat)
    requires Inherited(f) && Levels(f, vars, count, first) && q < |f.trail| && keep + {Var(f.trail[q])} <= vars
    requires var v := LevelOf(f, f.trail[q]); v > 0 && (v !in count || count[v] < 2)
    requires Var(f.trail[q]) !in keep
    ensures Exposed(f, keep, q)
  {
    assert Peek(0);
    forall r | 0 <= r <= q && LevelOf(f, f.trail[r]) == LevelOf(f, f.trail[q]) ensures Var(f.trail[r]) !in keep {
      assert Var(f.trail[r]) in keep && r != q ==> Apart(f, count, r, q);
    }
    NoneKept(f, keep, q);
  }

  // ----- The recursion limit.

  ghost predicate Descent(f: Frame, path: seq<nat>) {
    forall i {:trigger path[i]} :: 0 <= i < |path| - 1 ==> Antecedent(f, path[i], path[i+1])
  }

  // There is a longer chain of reasons than the limit allows.
  ghost predicate TooDeep(f: Frame, limit: nat) {
    exists path {:trigger Descent(f, path)} :: Descent(f, path) && |path| > limit + 1
  }

  lemma DescentNext(f: Frame, path: seq<nat>, r: nat)
    requires path != [] && Descent(f, path) && Antecedent(f, path[|path|-1], r)
    ensures Descent(f, path + [r])
  {
    var path' := path + [r];
    forall i | 0 <= i < |path'| - 1 ensures Antecedent(f, path'[i], path'[i+1]) {
      assert i < |path| - 1 ==> Antecedent(f, path[i], path[i+1]);
    }
  }

  // Neither the recursion limit nor an odd level can keep minimization from its goal.
  ghost predicate Ordinary(f: Frame, limit: nat) {
    Inherited(f) && !TooDeep(f, limit)
  }

  // ----- Cached results.

  ghost predicate Cached(f: Frame, keep: set<nat>, removable: set<nat>, poison: set<nat>, limit: nat) {
    forall u {:trigger Peek(u)} :: Peek(u) ==> forall q {:trigger CachedAt(f, keep, removable, poison, limit, q)} ::
      0 <= q < |f.trail| ==> CachedAt(f, keep, removable, poison, limit, q)
  }

  ghost predicate CachedAt(f: Frame, keep: set<nat>, removable: set<nat>, poison: set<nat>, limit: nat, q: nat)
    requires q < |f.trail|
  {
    && (Var(f.trail[q]) in removable ==> !Exposed(f, keep, q))
    && (Var(f.trail[q]) in poison && Var(f.trail[q]) !in keep && Ordinary(f, limit) ==> Exposed(f, keep, q))
  }

  lemma CachedUse(f: Frame, keep: set<nat>, removable: set<nat>, poison: set<nat>, limit: nat, q: nat)
    requires Cached(f, keep, removable, poison, limit) && q < |f.trail|
    ensures CachedAt(f, keep, removable, poison, limit, q)
  {
    assert Peek(0);
  }

  lemma CachedRemovable(f: Frame, keep: set<nat>, removable: set<nat>, poison: set<nat>, limit: nat, q: nat)
    requires Cached(f, keep, removable, poison, limit) && DistinctVars(f.trail) && q < |f.trail| && !Exposed(f, keep, q)
    ensures Cached(f, keep, removable + {Var(f.trail[q])}, poison, limit)
  {
    assert Peek(0);
    forall r | 0 <= r < |f.trail| ensures CachedAt(f, keep, removable + {Var(f.trail[q])}, poison, limit, r) {
      assert CachedAt(f, keep, removable, poison, limit, r);
    }
  }

  lemma CachedPoison(f: Frame, keep: set<nat>, removable: set<nat>, poison: set<nat>, limit: nat, q: nat)
    requires Cached(f, keep, removable, poison, limit) && DistinctVars(f.trail) && q < |f.trail|
    requires Ordinary(f, limit) ==> Exposed(f, keep, q)
    ensures Cached(f, keep, removable, poison + {Var(f.trail[q])}, limit)
  {
    assert Peek(0);
    forall r | 0 <= r < |f.trail| ensures CachedAt(f, keep, removable, poison + {Var(f.trail[q])}, limit, r) {
      assert CachedAt(f, keep, removable, poison, limit, r);
    }
  }

  // All literals with a poisoned variable come before 'q' or are there.
  ghost predicate Behind(f: Frame, poison: set<nat>, q: int) {
    forall r {:trigger f.trail[r]} :: 0 <= r < |f.trail| && Var(f.trail[r]) in poison ==> r <= q
  }

  lemma CachedKeep(f: Frame, keep: set<nat>, removable: set<nat>, poison: set<nat>, limit: nat, q: nat)
    requires Cached(f, keep, removable, poison, limit) && DistinctVars(f.trail) && q < |f.trail| && Behind(f, poison, q)
    ensures Cached(f, keep + {Var(f.trail[q])}, removable, poison, limit)
  {
    assert Peek(0);
    var keep' := keep + {Var(f.trail[q])};
    forall r | 0 <= r < |f.trail| ensures CachedAt(f, keep', removable, poison, limit, r) {
      assert CachedAt(f, keep, removable, poison, limit, r);
      if Exposed(f, keep', r) {
        ExposedMore(f, keep', keep, r);
      }
      if Exposed(f, keep, r) && r < q {
        ExposedMore(f, keep, keep', r);
      }
    }
  }

  // ----- The literals of the clause.

  // The literal was removed if and only if it is not exposed; it goes one way only if the limit was hit.
  ghost predicate Judged(f: Frame, keep: set<nat>, limit: nat, q: nat)
    requires q < |f.trail|
  {
    var v := Var(f.trail[q]);
    && (v !in keep ==> !Exposed(f, keep, q))
    && (v in keep && Ordinary(f, limit) ==> Exposed(f, keep - {v}, q))
  }

  lemma JudgedMore(f: Frame, keep: set<nat>, limit: nat, q: nat, p: nat)
    requires DistinctVars(f.trail) && q < p < |f.trail| && Judged(f, keep, limit, q)
    ensures Judged(f, keep + {Var(f.trail[p])}, limit, q)
  {
    var v, keep' := Var(f.trail[q]), keep + {Var(f.trail[p])};
    if Exposed(f, keep', q) {
      ExposedMore(f, keep', keep, q);
    }
    if v in keep && Ordinary(f, limit) {
      ExposedMore(f, keep - {v}, keep' - {v}, q);
    }
  }

  lemma JudgedNew(f: Frame, keep: set<nat>, limit: nat, q: nat)
    requires q < |f.trail| && Var(f.trail[q]) !in keep && (Ordinary(f, limit) ==> Exposed(f, keep, q))
    ensures Judged(f, keep + {Var(f.trail[q])}, limit, q)
  {
    var v := Var(f.trail[q]);
    assert keep + {v} - {v} == keep;
  }
}
