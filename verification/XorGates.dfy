// XOR gates: all sign patterns with an even number of negations, how they are enumerated, and why
// the clauses with these patterns define every one of their variables.
module XorGates {
  import opened Cnf
  import opened Resolving
  import opened Eliminating
  import opened Gating

  // ----- Parity.

  function Odd(bs: seq<bool>): bool {
    if bs == [] then false else bs[0] != Odd(bs[1..])
  }

  // The parity of the set bits of a number.
  function Parity(n: nat): bool {
    if n == 0 then false else (n % 2 == 1) != Parity(n / 2)
  }

  function Pow2(n: nat): (r: nat)
    ensures r > 0
  {
    if n == 0 then 1 else 2 * Pow2(n - 1)
  }

  function Bits(n: nat, size: nat): (bs: seq<bool>)
    ensures |bs| == size
  {
    if size == 0 then [] else [n % 2 == 1] + Bits(n / 2, size - 1)
  }

  function Value(bs: seq<bool>): nat {
    if bs == [] then 0 else (if bs[0] then 1 else 0) + 2 * Value(bs[1..])
  }

  // Bit 'j' as it is tested by masking.
  lemma {:induction false} BitAt(n: nat, size: nat, j: nat)
    requires j < size
    ensures Bits(n, size)[j] <==> (n / Pow2(j)) % 2 == 1
    decreases size
  {
    if j > 0 {
      BitAt(n / 2, size - 1, j - 1);
      HalfOf(n, Pow2(j - 1));
    }
  }

  lemma HalfOf(n: nat, d: nat)
    requires d > 0
    ensures (n / 2) / d == n / (2 * d)
  {
    var q, r := n / (2 * d), n % (2 * d);
    assert n == 2 * d * q + r;
    assert n / 2 == d * q + r / 2 by {
      assert n == 2 * (d * q) + r;
    }
    assert r / 2 < d;
    QuotientIs(n / 2, d, q, r / 2);
  }

  lemma QuotientIs(n: nat, d: nat, q: nat, r: nat)
    requires n == d * q + r && r < d
    ensures n / d == q
  {
    UniqueQuotient(d, q, r, n / d, n % d);
  }

  lemma UniqueQuotient(d: nat, q: nat, r: nat, q': nat, r': nat)
    requires d * q + r == d * q' + r' && r < d && r' < d
    ensures q == q'
  {
    if q < q' {
      Scale(d, q, q');
    } else if q' < q {
      Scale(d, q', q);
    }
  }

  lemma {:induction false} Scale(d: nat, a: nat, b: nat)
    requires a < b
    ensures d * a + d <= d * b
    decreases b
  {
    assert d * (b - 1) + d == d * b;
    if a + 1 < b {
      Scale(d, a, b - 1);
    }
  }

  lemma {:induction false} ParityOfBits(n: nat, size: nat)
    requires n < Pow2(size)
    ensures Parity(n) == Odd(Bits(n, size))
    decreases size
  {
    if size > 0 {
      ParityOfBits(n / 2, size - 1);
      assert Bits(n, size)[1..] == Bits(n / 2, size - 1);
    }
  }

  lemma {:induction false} BitsOfValue(bs: seq<bool>)
    ensures Value(bs) < Pow2(|bs|) && Bits(Value(bs), |bs|) == bs
    decreases |bs|
  {
    if bs != [] {
      BitsOfValue(bs[1..]);
      assert bs == [bs[0]] + bs[1..];
    }
  }

  lemma {:induction false} ValueOfBits(n: nat, size: nat)
    requires n < Pow2(size)
    ensures Value(Bits(n, size)) == n
    decreases size
  {
    if size > 0 {
      ValueOfBits(n / 2, size - 1);
      assert Bits(n, size)[1..] == Bits(n / 2, size - 1);
    }
  }

  // ----- The numbers of even parity in ascending order.

  function NthEven(t: nat): nat {
    2 * t + (if Parity(t) then 1 else 0)
  }

  lemma NthEvenParity(t: nat)
    ensures !Parity(NthEven(t))
  {
    assert NthEven(t) / 2 == t;
  }

  // Every number of even parity is met exactly once, at its half.
  lemma EvenPosition(n: nat)
    requires !Parity(n)
    ensures n == NthEven(n / 2)
  {
    assert n == 2 * (n / 2) + n % 2;
  }

  // Skipping numbers of odd parity leads from one number of even parity to the next.
  lemma NextEven(t: nat, n: nat)
    requires NthEven(t) < n <= NthEven(t + 1)
    ensures !Parity(n) <==> n == NthEven(t + 1)
  {
    if !Parity(n) {
      EvenPosition(n);
      assert n / 2 == t || n / 2 == t + 1;
    }
    NthEvenParity(t + 1);
  }

  // ----- Sign patterns.

  function Flip(orig: seq<Lit>, bs: seq<bool>): (r: seq<Lit>)
    requires |bs| == |orig|
    ensures |r| == |orig| && forall j :: 0 <= j < |r| ==> r[j] == if bs[j] then -orig[j] else orig[j]
  {
    seq(|orig|, j requires 0 <= j < |orig| => if bs[j] then -orig[j] else orig[j])
  }

  ghost function Truth(m: Model, orig: seq<Lit>): (bs: seq<bool>)
    ensures |bs| == |orig| && forall j :: 0 <= j < |bs| ==> bs[j] == Holds(m, orig[j])
  {
    seq(|orig|, j requires 0 <= j < |orig| => Holds(m, orig[j]))
  }

  // A sign pattern is falsified by exactly one assignment of its variables.
  lemma FlipSat(m: Model, orig: seq<Lit>, bs: seq<bool>)
    requires |bs| == |orig| && 0 !in orig
    ensures Sat(m, LitsOf(Flip(orig, bs))) <==> bs != Truth(m, orig)
  {
    var r, t := Flip(orig, bs), Truth(m, orig);
    if bs != t {
      var j :| 0 <= j < |bs| && bs[j] != t[j];
      assert r[j] in LitsOf(r) && orig[j] in orig && Holds(m, r[j]);
    } else {
      forall x | x in LitsOf(r) ensures !Holds(m, x) {
        var j :| 0 <= j < |r| && r[j] == x;
        assert orig[j] in orig;
      }
    }
  }

  lemma {:induction false} OddToggle(a: seq<bool>, b: seq<bool>, p: nat)
    requires |a| == |b| && p < |a| && a[p] != b[p] && forall q :: 0 <= q < |a| && q != p ==> a[q] == b[q]
    ensures Odd(a) != Odd(b)
    decreases |a|
  {
    if p == 0 {
      assert a[1..] == b[1..];
    } else {
      OddToggle(a[1..], b[1..], p - 1);
    }
  }

  // Different patterns of the same parity differ away from any given position.
  lemma EvenDiffer(a: seq<bool>, b: seq<bool>, p: nat) returns (q: nat)
    requires |a| == |b| && p < |a| && a != b && Odd(a) == Odd(b)
    ensures q < |a| && q != p && a[q] != b[q]
  {
    if forall q :: 0 <= q < |a| && q != p ==> a[q] == b[q] {
      assert a[p] != b[p];
      OddToggle(a, b, p);
      assert false;
    }
    q :| 0 <= q < |a| && q != p && a[q] != b[q];
  }

  // ----- The gate.

  // Clause 't' has the pattern given by number 't' of even parity.
  ghost predicate PatternAt(s: State, g: seq<nat>, orig: seq<Lit>, t: nat)
    requires t < |g|
  {
    g[t] < |s.db| && Residue(s.db[g[t]].lits, s.vals) == LitsOf(Flip(orig, Bits(NthEven(t), |orig|)))
  }

  ghost predicate XorGate(s: State, g: seq<nat>, orig: seq<Lit>, p: nat) {
    && p < |orig| && |g| == Pow2(|orig| - 1) && 0 !in orig && DistinctVars(orig)
    && forall t {:trigger PatternAt(s, g, orig, t)} :: 0 <= t < |g| ==> PatternAt(s, g, orig, t)
  }

  lemma PatternBound(t: nat, size: nat)
    requires size > 0 && t < Pow2(size - 1)
    ensures NthEven(t) < Pow2(size) && !Odd(Bits(NthEven(t), size))
  {
    NthEvenParity(t);
    ParityOfBits(NthEven(t), size);
  }

  lemma XorIndex(s: State, g: seq<nat>, orig: seq<Lit>, p: nat, k: nat) returns (t: nat)
    requires XorGate(s, g, orig, p) && k in g
    ensures t < |g| && g[t] == k && PatternAt(s, g, orig, t)
  {
    t :| 0 <= t < |g| && g[t] == k;
    assert PatternAt(s, g, orig, t);
  }

  // The clauses hold exactly if an odd number of the literals is true.
  lemma XorValue(s: State, l: Lit, g: seq<nat>, orig: seq<Lit>, p: nat, m: Model, y: Lit)
    requires GateDb(s, l, g) && XorGate(s, g, orig, p) && (forall k :: k in g ==> k < |s.db|) && NoneSatisfied(s, g)
    requires Models(m, Units(s.vals, false)) && (y == l || y == -l)
    ensures SatAll(s, g, Assign(m, y)) <==> Odd(Truth(Assign(m, y), orig))
  {
    var m' := Assign(m, y);
    var truth := Truth(m', orig);
    if Odd(truth) {
      forall k | k in g ensures Sat(m', LitsOf(s.db[k].lits)) {
        var t := XorIndex(s, g, orig, p, k);
        PatternBound(t, |orig|);
        FlipSat(m', orig, Bits(NthEven(t), |orig|));
        SatResidue(s, l, m, y, s.db[k].lits);
      }
    } else {
      var n := Value(truth);
      BitsOfValue(truth);
      ParityOfBits(n, |orig|);
      EvenPosition(n);
      assert Pow2(|orig|) == 2 * Pow2(|orig| - 1);
      assert PatternAt(s, g, orig, n / 2);
      assert g[n / 2] in g;
      FlipSat(m', orig, truth);
      SatResidue(s, l, m, y, s.db[g[n / 2]].lits);
    }
  }

  lemma XorClashing(s: State, l: Lit, g: seq<nat>, orig: seq<Lit>, p: nat)
    requires XorGate(s, g, orig, p) && (forall k :: k in g ==> k < |s.db|) && Var(orig[p]) == Var(l)
    ensures Clashing(s, l, g)
  {
    forall j, k | j in g && k in g && j != k
      ensures Clash(Residue(s.db[j].lits, s.vals), Residue(s.db[k].lits, s.vals), l) {
      var t := XorIndex(s, g, orig, p, j);
      var u := XorIndex(s, g, orig, p, k);
      var a, b := Bits(NthEven(t), |orig|), Bits(NthEven(u), |orig|);
      PatternBound(t, |orig|);
      PatternBound(u, |orig|);
      ValueOfBits(NthEven(t), |orig|);
      ValueOfBits(NthEven(u), |orig|);
      var q := EvenDiffer(a, b, p);
      FlipClash(orig, a, b, p, q, l);
    }
  }

  lemma FlipClash(orig: seq<Lit>, a: seq<bool>, b: seq<bool>, p: nat, q: nat, l: Lit)
    requires |a| == |b| == |orig| && p < |orig| && q < |orig| && p != q && a[q] != b[q]
    requires DistinctVars(orig) && Var(orig[p]) == Var(l)
    ensures Clash(LitsOf(Flip(orig, a)), LitsOf(Flip(orig, b)), l)
  {
    var x, y := Flip(orig, a)[q], Flip(orig, b)[q];
    assert y == -x && x in LitsOf(Flip(orig, a)) && y in LitsOf(Flip(orig, b));
    assert Var(orig[q]) != Var(l);
    assert ClashOn(LitsOf(Flip(orig, a)), LitsOf(Flip(orig, b)), l, x);
  }

  // The pivot is defined exactly if no clause is satisfied by a fixed literal.
  lemma XorGated(s: State, l: Lit, g: seq<nat>, orig: seq<Lit>, p: nat)
    requires GateDb(s, l, g) && XorGate(s, g, orig, p) && orig[p] == l
    requires forall k, x {:trigger -x in s.db[k].lits} :: k in g && k < |s.db| && x in s.db[k].lits ==> -x !in s.db[k].lits
    ensures (forall k :: k in g ==> k < |s.db|) && (Gated(s, l) <==> NoneSatisfied(s, g))
  {
    GatesInside(s, l, g);
    if NoneSatisfied(s, g) {
      forall m: Model | Models(m, Units(s.vals, false)) ensures OneValue(s, l, g, m) {
        XorValue(s, l, g, orig, p, m, l);
        XorValue(s, l, g, orig, p, m, -l);
        TruthToggle(m, l, orig, p);
      }
      GatedByModels(s, l, g);
    } else {
      XorClashing(s, l, g, orig, p);
      var k :| k in g && HasTrue(s.db[k].lits, s.vals);
      SatisfiedNotGated(s, l, g, k);
    }
  }

  lemma TruthToggle(m: Model, l: Lit, orig: seq<Lit>, p: nat)
    requires p < |orig| && orig[p] == l && l != 0 && DistinctVars(orig)
    ensures Odd(Truth(Assign(m, l), orig)) != Odd(Truth(Assign(m, -l), orig))
  {
    var a, b := Truth(Assign(m, l), orig), Truth(Assign(m, -l), orig);
    forall q | 0 <= q < |orig| && q != p ensures a[q] == b[q] {
      assert Var(orig[q]) != Var(l);
    }
    assert Holds(Assign(m, l), l) && Holds(Assign(m, -l), -l);
    OddToggle(a, b, p);
  }
}
