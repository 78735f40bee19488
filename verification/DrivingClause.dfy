// Around conflict analysis: the actual conflict level, the driving clause and where to jump.
module DrivingClause {
  import opened Cnf
  import opened Analysis
  import A = Analyzer

  // Later in the order of levels and, on the same level, later on the trail.
  predicate Later(f: Frame, a: Lit, b: Lit) {
    LevelOf(f, a) > LevelOf(f, b) || (LevelOf(f, a) == LevelOf(f, b) && A.Position(f, a) > A.Position(f, b))
  }

  ghost predicate LatestFirst(f: Frame, s: seq<Lit>) {
    forall i, j :: 0 <= i < j < |s| ==> !Later(f, s[j], s[i])
  }

  lemma {:induction false} InsertLatestFirst(f: Frame, x: Lit, s: seq<Lit>)
    requires LatestFirst(f, s)
    ensures LatestFirst(f, A.InsertBy((a, b) => Later(f, a, b), x, s))
  {
    var less := (a, b) => Later(f, a, b);
    if s != [] && !less(x, s[0]) {
      InsertLatestFirst(f, x, s[1..]);
      InsertedMembers(f, x, s[1..]);
      var r := A.InsertBy(less, x, s[1..]);
      forall j | 0 <= j < |r| ensures !Later(f, r[j], s[0]) {
        assert r[j] == x || r[j] in s[1..];
      }
    }
  }

  lemma InsertedMembers(f: Frame, x: Lit, s: seq<Lit>)
    ensures forall l :: l in A.InsertBy((a, b) => Later(f, a, b), x, s) ==> l == x || l in s
  {
    var less := (a, b) => Later(f, a, b);
    var r := A.InsertBy(less, x, s);
    A.InsertKeeps(less, x, s);
    forall l | l in r ensures l == x || l in s {
      assert l in multiset(r);
    }
  }

  lemma {:induction false} SortLatestFirst(f: Frame, s: seq<Lit>)
    ensures LatestFirst(f, A.SortBy((a, b) => Later(f, a, b), s))
  {
    if s != [] {
      SortLatestFirst(f, s[1..]);
      InsertLatestFirst(f, s[0], A.SortBy((a, b) => Later(f, a, b), s[1..]));
    }
  }

  // The learned clause is sorted so that its two latest literals are watched.  After jumping back
  // all its literals but the first are still false, and the first becomes unassigned.
  method NewDrivingClause(f: Frame, clause: seq<Lit>, ghost uip: Lit) returns (driving: seq<Lit>, jump: nat)
    requires Sound(f) && NoRepeats(clause) && uip in clause
    requires forall l :: l in clause ==> A.FalseLiteral(f, l, uip)
    ensures LitsOf(driving) == LitsOf(clause) && NoRepeats(driving) && driving != [] && driving[0] == uip
    ensures jump < f.level && forall i :: 0 < i < |driving| ==> LevelOf(f, driving[i]) <= jump
    ensures |driving| > 1 ==> LevelOf(f, driving[1]) == jump
    ensures |driving| <= 1 ==> jump == 0
  {
    driving := clause;
    jump := 0;
    LevelBound(f, uip);
    if |clause| > 1 {
      driving := A.SortBy((a, b) => Later(f, a, b), clause);
      A.SortKeeps((a, b) => Later(f, a, b), clause);
      SortLatestFirst(f, clause);
      SortedDriving(f, clause, driving, uip);
      jump := LevelOf(f, driving[1]);
    }
  }

  lemma LevelBound(f: Frame, l: Lit)
    requires Sound(f) && -l in f.trail
    ensures LevelOf(f, l) <= f.level
  {
    var q: nat :| q < |f.trail| && f.trail[q] == -l;
    A.OnTrail(f, l, q);
  }

  lemma SortedDriving(f: Frame, clause: seq<Lit>, driving: seq<Lit>, uip: Lit)
    requires Sound(f) && |clause| > 1 && uip in clause && NoRepeats(clause)
    requires forall l :: l in clause ==> A.FalseLiteral(f, l, uip)
    requires LitsOf(driving) == LitsOf(clause) && NoRepeats(driving) && LatestFirst(f, driving)
    ensures |driving| > 1 && driving[0] == uip && LevelOf(f, driving[1]) < f.level
    ensures forall i :: 0 < i < |driving| ==> LevelOf(f, driving[i]) <= LevelOf(f, driving[1])
  {
    assert clause[0] in LitsOf(driving) && clause[1] in LitsOf(driving) && clause[0] != clause[1];
    assert uip in LitsOf(driving);
    var n :| 0 <= n < |driving| && driving[n] == uip;
    forall i | 0 <= i < |driving| ensures A.FalseLiteral(f, driving[i], uip) && LevelOf(f, driving[i]) <= f.level {
      assert driving[i] in LitsOf(driving);
      LevelBound(f, driving[i]);
    }
    assert forall j :: 0 < j < |driving| ==> !Later(f, driving[j], driving[0]);
  }

  // How many literals of the first 'n' have a level.
  function CountLevel(f: Frame, lits: seq<Lit>, n: nat, level: nat): nat
    requires n <= |lits|
  {
    if n == 0 then 0 else CountLevel(f, lits, n - 1, level) + if LevelOf(f, lits[n-1]) == level then 1 else 0
  }

  lemma {:induction false} CountAbove(f: Frame, lits: seq<Lit>, n: nat, level: nat)
    requires n <= |lits| && forall i :: 0 <= i < n ==> LevelOf(f, lits[i]) < level
    ensures CountLevel(f, lits, n, level) == 0
  {
    if n > 0 {
      CountAbove(f, lits, n - 1, level);
    }
  }

  lemma {:induction false} CountGrows(f: Frame, lits: seq<Lit>, n: nat, m: nat, level: nat)
    requires n <= m <= |lits|
    ensures CountLevel(f, lits, n, level) <= CountLevel(f, lits, m, level)
  {
    if n < m {
      CountGrows(f, lits, n, m - 1, level);
    }
  }

  // The highest level of the conflict, and its literal if there is only one.
  method FindConflictLevel(f: Frame, lits: seq<Lit>) returns (res: nat, forced: Lit, count: nat)
    requires 0 !in lits && lits != [] && forall l :: l in lits ==> LevelOf(f, l) <= f.level
    ensures forall l :: l in lits ==> LevelOf(f, l) <= res
    ensures exists l :: l in lits && LevelOf(f, l) == res
    ensures res > 0 ==> (forced != 0 <==> CountLevel(f, lits, |lits|, res) == 1)
    ensures forced != 0 ==> forced in lits && LevelOf(f, forced) == res
  {
    res, count, forced := 0, 0, 0;
    ghost var at := 0;
    var i: nat := 0;
    while i < |lits|
      invariant i <= |lits| && forall j :: 0 <= j < i ==> LevelOf(f, lits[j]) <= res
      invariant if i == 0 then res == 0 else 0 <= at < i && LevelOf(f, lits[at]) == res
      invariant count == CountLevel(f, lits, i, res)
      invariant forced != 0 ==> forced in lits && LevelOf(f, forced) == res
      invariant res > 0 ==> forced != 0
    {
      var tmp := LevelOf(f, lits[i]);
      if tmp > res {
        CountAbove(f, lits, i, tmp);
        res, forced, count, at := tmp, lits[i], 1, i;
      } else if tmp == res {
        count, at := count + 1, i;
        if res == f.level && count > 1 {
          CountGrows(f, lits, i + 1, |lits|, res);
          forced := 0;
          assert lits[i] in lits;
          return;
        }
      }
      i := i + 1;
    }
    assert lits[at] in lits;
    if count != 1 {
      forced := 0;
    }
  }

  // Move the two literals of the highest levels to the front, where they are watched.
  method MoveHighestToFront(f: Frame, lits: seq<Lit>, res: nat) returns (r: seq<Lit>)
    requires |lits| >= 2 && forall l :: l in lits ==> LevelOf(f, l) <= res
    ensures multiset(r) == multiset(lits)
    ensures forall j :: 0 < j < |r| ==> LevelOf(f, r[j]) <= LevelOf(f, r[0])
    ensures forall j :: 1 < j < |r| ==> LevelOf(f, r[j]) <= LevelOf(f, r[1])
  {
    var one := PutHighest(f, lits, 0, res);
    forall l | l in one ensures LevelOf(f, l) <= res {
      assert l in multiset(one) && l in multiset(lits);
    }
    r := PutHighest(f, one, 1, res);
  }

  method PutHighest(f: Frame, lits: seq<Lit>, i: nat, res: nat) returns (r: seq<Lit>)
    requires i < |lits| && forall l :: l in lits ==> LevelOf(f, l) <= res
    ensures multiset(r) == multiset(lits) && |r| == |lits| && r[..i] == lits[..i]
    ensures forall j :: i <= j < |r| ==> LevelOf(f, r[j]) <= LevelOf(f, r[i])
    ensures forall j :: i <= j < |r| ==> exists n :: i <= n < |lits| && r[j] == lits[n]
  {
    var k := HighestFrom(f, lits, i, res);
    r := lits[k := lits[i]][i := lits[k]];
    Exchanged(lits, i, k);
    forall j | i <= j < |r| ensures LevelOf(f, r[j]) <= LevelOf(f, r[i]) {
      var n := if j == k then i else if j == i then k else j;
      assert r[j] == lits[n] && lits[n] in lits;
    }
  }

  lemma Exchanged(s: seq<Lit>, i: nat, k: nat)
    requires i <= k < |s|
    ensures multiset(s[k := s[i]][i := s[k]]) == multiset(s)
  {
  }

  method HighestFrom(f: Frame, r: seq<Lit>, i: nat, res: nat) returns (k: nat)
    requires i < |r|
    ensures i <= k < |r|
    ensures (forall j :: i <= j < |r| ==> LevelOf(f, r[j]) <= LevelOf(f, r[k])) || LevelOf(f, r[k]) == res
  {
    k := i;
    for j := i + 1 to |r|
      invariant i <= k < |r| && forall n :: i <= n < j ==> LevelOf(f, r[n]) <= LevelOf(f, r[k])
    {
      if LevelOf(f, r[k]) >= LevelOf(f, r[j]) { continue; }
      k := j;
      if LevelOf(f, r[k]) == res { return; }
    }
  }

  // Options that decide how far to jump back.
  datatype Options = Options(chrono: bool, always: bool, levelLimit: nat, reuseTrail: bool, assumptions: nat)

  // A strict order on variables, by score or by bump time.
  ghost predicate Strict(less: (nat, nat) -> bool) {
    (forall a {:trigger less(a, a)} :: !less(a, a)) && forall a, b, c {:trigger less(a, b), less(b, c)} :: less(a, b) && less(b, c) ==> less(a, c)
  }

  // The position of a best variable on the trail from position 'from' on.
  method BestPosition(trail: seq<Lit>, from: nat, less: (nat, nat) -> bool) returns (best: nat)
    requires from < |trail| && Strict(less)
    ensures from <= best < |trail|
    ensures forall i {:trigger trail[i]} :: from <= i < |trail| ==> !less(Var(trail[best]), Var(trail[i]))
  {
    best := from;
    for i := from to |trail|
      invariant from <= best < |trail| && (i > from ==> best < i)
      invariant forall j {:trigger trail[j]} :: from <= j < i ==> !less(Var(trail[best]), Var(trail[j]))
    {
      if i > from && !less(Var(trail[best]), Var(trail[i])) { continue; }
      best := i;
    }
  }

  // Where to jump back to: never below the jump level, and always below the conflict level.  If the trail is
  // reused, the decision level of the best variable is kept.  'starts' are the positions of decisions.
  method DetermineActualBacktrackLevel(o: Options, level: nat, jump: nat, starts: seq<nat>, trail: seq<Lit>, less: (nat, nat) -> bool)
    returns (res: nat, ghost best: nat)
    requires jump < level < |starts| && starts[jump+1] < |trail| && Strict(less)
    ensures jump <= res < level
    ensures if !o.chrono then res == jump
            else if o.always then res == level - 1
            else if jump >= level - 1 || jump < o.assumptions then res == jump
            else if level - jump > o.levelLimit then res == level - 1
            else if !o.reuseTrail then res == jump
            else && starts[jump+1] <= best < |trail|
                 && (forall i {:trigger trail[i]} :: starts[jump+1] <= i < |trail| ==> !less(Var(trail[best]), Var(trail[i])))
                 && (forall n {:trigger starts[n]} :: jump < n <= res ==> starts[n] <= best)
                 && (res < level - 1 ==> starts[res+1] > best)
  {
    best := 0;
    if !o.chrono {
      res := jump;
    } else if o.always {
      res := level - 1;
    } else if jump >= level - 1 {
      res := jump;
    } else if jump < o.assumptions {
      res := jump;
    } else if level - jump > o.levelLimit {
      res := level - 1;
    } else if o.reuseTrail {
      var bestPos := BestPosition(trail, starts[jump+1], less);
      best := bestPos;
      res := jump;
      while res < level - 1 && starts[res+1] <= bestPos
        invariant jump <= res < level && forall n {:trigger starts[n]} :: jump < n <= res ==> starts[n] <= bestPos
      {
        res := res + 1;
      }
    } else {
      res := jump;
    }
  }
}
