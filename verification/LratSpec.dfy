// What an LRAT hint chain is and why an accepted chain makes a clause follow.
module LratSpec {
  import opened Cnf

  const WORD64: nat := 0x1_0000_0000_0000_0000

  // Unsigned machine words: clause identifiers and hash values.
  type Word = n: nat | n < WORD64
  type Id = Word

  datatype Option<T> = None | Some(value: T)

  datatype LClause = LClause(id: Id, hash: Word, lits: seq<Lit>, tautological: bool)

  // ----- The hash table: chains of clauses indexed by the reduced hash value.

  datatype Table = Table(size: nat, buckets: map<nat, seq<LClause>>)

  // Random odd numbers.
  type Nonces = n: seq<Word> | |n| == 4 && n[0] % 2 == n[1] % 2 == n[2] % 2 == n[3] % 2 == 1 witness [1, 1, 1, 1]

  function ComputeHash(nonces: Nonces, id: Id): Word {
    (nonces[id % 4] * id) % WORD64
  }

  function Pow2(n: nat): (p: nat)
    ensures p > 0
  {
    if n == 0 then 1 else 2 * Pow2(n - 1)
  }

  // An odd factor does not add factors of two.
  lemma {:induction false} OddFactor(n: nat, x: int, q: int, k: nat) returns (r: int)
    requires n % 2 == 1 && n * x == q * Pow2(k)
    ensures x == r * Pow2(k)
    decreases k
  {
    if k == 0 {
      r := x;
    } else {
      var h, p := n / 2, Pow2(k - 1);
      DoubledProducts(h, x, q, p);
      var y := q * p - h * x;
      assert x == 2 * y;
      DoubledProducts(h, y, q, p);
      r := OddFactor(n, y, q, k - 1);
      assert r * (2 * p) == 2 * (r * p);
    }
  }

  lemma DoubledProducts(h: int, x: int, q: int, p: int)
    ensures (2 * h + 1) * x == 2 * (h * x) + x && q * (2 * p) == 2 * (q * p) && h * (2 * x) == 2 * (h * x)
  {
  }

  lemma SameRemainder(x: nat, y: nat)
    requires x % WORD64 == y % WORD64
    ensures x - y == (x / WORD64 - y / WORD64) * WORD64
  {
  }

  // Two identifiers that use the same nonce have different hash values.
  lemma HashInjective(nonces: Nonces, a: Id, b: Id)
    requires a % 4 == b % 4 && ComputeHash(nonces, a) == ComputeHash(nonces, b)
    ensures a == b
  {
    var n := nonces[a % 4];
    assert n % 2 == 1;
    OddHash(n, a, b);
  }

  lemma OddHash(n: nat, a: Word, b: Word)
    requires n % 2 == 1 && (n * a) % WORD64 == (n * b) % WORD64
    ensures a == b
  {
    SameRemainder(n * a, n * b);
    ProductDifference(n, a, b);
    WordPower();
    var r := OddFactor(n, a - b, n * a / WORD64 - n * b / WORD64, 64);
  }

  lemma ProductDifference(n: int, a: int, b: int)
    ensures n * (a - b) == n * a - n * b
  {
  }

  lemma {:induction false} PowerSum(a: nat, b: nat)
    ensures Pow2(a + b) == Pow2(a) * Pow2(b)
  {
    if a > 0 {
      PowerSum(a - 1, b);
    }
  }

  lemma WordPower()
    ensures Pow2(64) == WORD64
  {
    assert Pow2(2) == 4;
    PowerSum(2, 2);
    PowerSum(4, 4);
    PowerSum(8, 8);
    PowerSum(16, 16);
    PowerSum(32, 32);
  }

  function ShiftRight(h: nat, n: nat): nat {
    if n == 0 then h else ShiftRight(h / 2, n - 1)
  }

  function Xor(a: nat, b: nat): nat {
    if a == 0 && b == 0 then 0
    else 2 * Xor(a / 2, b / 2) + if a % 2 == b % 2 then 0 else 1
  }

  function Fold(h: Word, shift: nat, size: nat): Word
    decreases shift
  {
    if shift == 0 || Pow2(shift) <= size then h
    else Fold(Xor(h, ShiftRight(h, shift)) % WORD64, shift / 2, size)
  }

  // The size of the table is a power of two, so masking is taking the remainder.
  function ReduceHash(hash: Word, size: nat): (r: nat)
    requires size > 0
    ensures r < size
  {
    Fold(hash, 32, size) % size
  }

  function Bucket(t: Table, h: nat): seq<LClause> {
    if h in t.buckets then t.buckets[h] else []
  }

  // Every clause sits in the chain its identifier hashes to.
  ghost predicate Hashed(nonces: Nonces, t: Table) {
    forall h, c :: c in Bucket(t, h) ==>
      t.size > 0 && c.hash == ComputeHash(nonces, c.id) && h == ReduceHash(c.hash, t.size)
  }

  ghost predicate Contains(t: Table, c: LClause) {
    exists h :: c in Bucket(t, h)
  }

  function FirstWith(chain: seq<LClause>, hash: nat, id: Id): Option<LClause> {
    if chain == [] then None
    else if chain[0].hash == hash && chain[0].id == id then Some(chain[0])
    else FirstWith(chain[1..], hash, id)
  }

  function Lookup(nonces: Nonces, t: Table, id: Id): Option<LClause> {
    if t.size == 0 then None
    else
      var hash := ComputeHash(nonces, id);
      FirstWith(Bucket(t, ReduceHash(hash, t.size)), hash, id)
  }

  lemma {:induction false} FirstWithFinds(chain: seq<LClause>, hash: nat, id: Id)
    ensures FirstWith(chain, hash, id).Some? ==>
              var c := FirstWith(chain, hash, id).value; c in chain && c.id == id
    ensures FirstWith(chain, hash, id).None? ==> forall c :: c in chain ==> !(c.hash == hash && c.id == id)
  {
    if chain != [] {
      FirstWithFinds(chain[1..], hash, id);
      assert chain == [chain[0]] + chain[1..];
    }
  }

  // Looking at one chain is enough.
  lemma LookupExact(nonces: Nonces, t: Table, id: Id)
    requires Hashed(nonces, t)
    ensures Lookup(nonces, t, id).Some? <==> exists c :: Contains(t, c) && c.id == id
    ensures Lookup(nonces, t, id).Some? ==>
              Contains(t, Lookup(nonces, t, id).value) && Lookup(nonces, t, id).value.id == id
  {
    if t.size > 0 {
      var hash := ComputeHash(nonces, id);
      FirstWithFinds(Bucket(t, ReduceHash(hash, t.size)), hash, id);
    }
    if c :| Contains(t, c) && c.id == id {
      var h :| c in Bucket(t, h);
    }
  }

  // ----- Checking a clause by reverse unit propagation along a hint chain.

  datatype Status = Falsified | Unit(lit: Lit) | Stuck

  // 'checked' are the literals assigned to true.
  function Scan(checked: set<Lit>, lits: seq<Lit>): Status {
    if lits == [] then Falsified
    else
      var l := lits[|lits|-1];
      var s := Scan(checked, lits[..|lits|-1]);
      if -l in checked || s.Stuck? then s
      else if s.Falsified? then Unit(l)
      else if s.lit == l then s
      else Stuck
  }

  ghost predicate AllFalse(checked: set<Lit>, lits: seq<Lit>) {
    forall l :: l in lits ==> -l in checked
  }

  ghost predicate OnlyUnassigned(checked: set<Lit>, lits: seq<Lit>, u: Lit) {
    u in lits && -u !in checked && forall l :: l in lits && l != u ==> -l in checked
  }

  lemma FalseLast(checked: set<Lit>, rest: seq<Lit>, l: Lit)
    ensures AllFalse(checked, rest + [l]) <==> AllFalse(checked, rest) && -l in checked
  {
    var lits := rest + [l];
    assert l in lits;
    forall k | k in lits ensures k in rest || k == l {
    }
    forall k | k in rest ensures k in lits {
    }
  }

  lemma OnlyLast(checked: set<Lit>, rest: seq<Lit>, l: Lit, u: Lit)
    ensures OnlyUnassigned(checked, rest + [l], u) <==>
            if -l in checked then OnlyUnassigned(checked, rest, u)
            else u == l && (AllFalse(checked, rest) || OnlyUnassigned(checked, rest, u))
  {
    var lits := rest + [l];
    assert l in lits;
    forall k | k in lits ensures k in rest || k == l {
    }
    forall k | k in rest ensures k in lits {
    }
  }

  lemma {:induction false} ScanMeaning(checked: set<Lit>, lits: seq<Lit>, u: Lit)
    ensures Scan(checked, lits).Falsified? <==> AllFalse(checked, lits)
    ensures Scan(checked, lits) == Unit(u) <==> OnlyUnassigned(checked, lits, u)
  {
    if lits != [] {
      var rest, l := lits[..|lits|-1], lits[|lits|-1];
      assert lits == rest + [l];
      ScanMeaning(checked, rest, u);
      FalseLast(checked, rest, l);
      OnlyLast(checked, rest, l, u);
      if -l !in checked && Scan(checked, rest).Unit? {
        ScanMeaning(checked, rest, Scan(checked, rest).lit);
      }
    }
  }

  predicate TautologicalSeq(lits: seq<Lit>) {
    exists l :: l in lits && -l in lits
  }

  // Follow the hints until a clause is falsified.
  predicate Follow(nonces: Nonces, t: Table, checked: set<Lit>, used: set<Id>, chain: seq<Id>)
    decreases |chain|
  {
    && chain != []
    && Lookup(nonces, t, chain[0]).Some?
    && var c := Lookup(nonces, t, chain[0]).value;
       && !c.tautological
       && chain[0] !in used
       && match Scan(checked, c.lits)
          case Falsified => true
          case Stuck => false
          case Unit(u) => Follow(nonces, t, checked + {u}, used + {chain[0]}, chain[1..])
  }

  predicate Accepts(nonces: Nonces, t: Table, clause: seq<Lit>, chain: seq<Id>) {
    TautologicalSeq(clause) || Follow(nonces, t, Negations(clause), {}, chain)
  }

  // The hints are found in the table, none is tautological, and none is used twice.
  ghost predicate Usable(nonces: Nonces, t: Table, used: set<Id>, hints: seq<Id>) {
    && (forall i :: 0 <= i < |hints| ==>
          hints[i] !in used && Lookup(nonces, t, hints[i]).Some? && !Lookup(nonces, t, hints[i]).value.tautological)
    && (forall i, j :: 0 <= i < j < |hints| ==> hints[i] != hints[j])
  }

  ghost function HintLits(nonces: Nonces, t: Table, id: Id): seq<Lit> {
    var d := Lookup(nonces, t, id);
    if d.Some? then d.value.lits else []
  }

  // Hint 'i' forces the literal 'units[i]'.
  ghost predicate Forces(nonces: Nonces, t: Table, checked: set<Lit>, hints: seq<Id>, units: seq<Lit>, i: nat)
    requires i < |hints| && i < |units|
  {
    OnlyUnassigned(checked + LitsOf(units[..i]), HintLits(nonces, t, hints[i]), units[i])
  }

  // Each hint forces the next literal of 'units', and the last one is falsified.
  ghost predicate Refutation(nonces: Nonces, t: Table, checked: set<Lit>, hints: seq<Id>, units: seq<Lit>) {
    && |hints| == |units| + 1
    && (forall i {:trigger Forces(nonces, t, checked, hints, units, i)} :: 0 <= i < |units| ==> Forces(nonces, t, checked, hints, units, i))
    && AllFalse(checked + LitsOf(units), HintLits(nonces, t, hints[|units|]))
  }

  ghost predicate Refuting(nonces: Nonces, t: Table, checked: set<Lit>, used: set<Id>, hints: seq<Id>, units: seq<Lit>) {
    Usable(nonces, t, used, hints) && Refutation(nonces, t, checked, hints, units)
  }

  // A chain is followed exactly if one of its prefixes is a refutation by unit propagation with
  // usable hints; what comes after it is not looked at.
  lemma {:induction false} FollowMeaning(nonces: Nonces, t: Table, checked: set<Lit>, used: set<Id>, chain: seq<Id>)
    ensures Follow(nonces, t, checked, used, chain) <==>
            exists n: nat, units {:trigger Refuting(nonces, t, checked, used, chain[..n], units)} ::
              n <= |chain| && Refuting(nonces, t, checked, used, chain[..n], units)
    decreases |chain|
  {
    if Follow(nonces, t, checked, used, chain) {
      var n, units := FollowedPrefix(nonces, t, checked, used, chain);
      assert Refuting(nonces, t, checked, used, chain[..n], units);
    }
    if n: nat, units :| n <= |chain| && Refuting(nonces, t, checked, used, chain[..n], units) {
      RefutationFollowed(nonces, t, checked, used, chain, n, units);
    }
  }

  lemma {:induction false} FollowedPrefix(nonces: Nonces, t: Table, checked: set<Lit>, used: set<Id>, chain: seq<Id>)
    returns (n: nat, units: seq<Lit>)
    requires Follow(nonces, t, checked, used, chain)
    ensures n <= |chain| && Refuting(nonces, t, checked, used, chain[..n], units)
    decreases |chain|
  {
    var c := Lookup(nonces, t, chain[0]).value;
    var s := Scan(checked, c.lits);
    if s.Falsified? {
      n, units := 1, [];
      ScanMeaning(checked, c.lits, 0);
      assert checked + LitsOf([]) == checked;
    } else {
      var u := s.lit;
      ScanMeaning(checked, c.lits, u);
      var m, rest := FollowedPrefix(nonces, t, checked + {u}, used + {chain[0]}, chain[1..]);
      n, units := m + 1, [u] + rest;
      assert chain[..n] == [chain[0]] + chain[1..][..m];
      RefutationHead(nonces, t, checked, used, chain[0], chain[1..][..m], u, rest);
    }
  }

  lemma {:induction false} RefutationFollowed(
    nonces: Nonces, t: Table, checked: set<Lit>, used: set<Id>, chain: seq<Id>, n: nat, units: seq<Lit>)
    requires n <= |chain| && Refuting(nonces, t, checked, used, chain[..n], units)
    ensures Follow(nonces, t, checked, used, chain)
    decreases |chain|
  {
    var hints := chain[..n];
    assert hints[0] == chain[0];
    if units == [] {
      LastHint(nonces, t, checked, used, chain, hints);
    } else {
      var u := units[0];
      var rest := chain[1..][..n-1];
      assert hints == [chain[0]] + rest && units == [u] + units[1..];
      RefutationHead(nonces, t, checked, used, chain[0], rest, u, units[1..]);
      RefutationFollowed(nonces, t, checked + {u}, used + {chain[0]}, chain[1..], n - 1, units[1..]);
      NextHint(nonces, t, checked, used, chain, u);
    }
  }

  lemma LastHint(nonces: Nonces, t: Table, checked: set<Lit>, used: set<Id>, chain: seq<Id>, hints: seq<Id>)
    requires Refuting(nonces, t, checked, used, hints, []) && chain != [] && hints[0] == chain[0]
    ensures Follow(nonces, t, checked, used, chain)
  {
    assert checked + LitsOf([]) == checked;
    ScanMeaning(checked, HintLits(nonces, t, chain[0]), 0);
  }

  lemma NextHint(nonces: Nonces, t: Table, checked: set<Lit>, used: set<Id>, chain: seq<Id>, u: Lit)
    requires chain != [] && chain[0] !in used
    requires Lookup(nonces, t, chain[0]).Some? && !Lookup(nonces, t, chain[0]).value.tautological
    requires OnlyUnassigned(checked, HintLits(nonces, t, chain[0]), u)
    requires Follow(nonces, t, checked + {u}, used + {chain[0]}, chain[1..])
    ensures Follow(nonces, t, checked, used, chain)
  {
    ScanMeaning(checked, HintLits(nonces, t, chain[0]), u);
  }

  lemma RefutationHead(
    nonces: Nonces, t: Table, checked: set<Lit>, used: set<Id>, id: Id, hints: seq<Id>, u: Lit, units: seq<Lit>)
    ensures Refuting(nonces, t, checked, used, [id] + hints, [u] + units) <==>
            && id !in used && Lookup(nonces, t, id).Some? && !Lookup(nonces, t, id).value.tautological
            && OnlyUnassigned(checked, HintLits(nonces, t, id), u)
            && Refuting(nonces, t, checked + {u}, used + {id}, hints, units)
  {
    UsableHead(nonces, t, used, id, hints);
    RefutationSteps(nonces, t, checked, id, hints, u, units);
  }

  lemma UsableHead(nonces: Nonces, t: Table, used: set<Id>, id: Id, hints: seq<Id>)
    ensures Usable(nonces, t, used, [id] + hints) <==>
            && id !in used && Lookup(nonces, t, id).Some? && !Lookup(nonces, t, id).value.tautological
            && Usable(nonces, t, used + {id}, hints)
  {
    var all := [id] + hints;
    assert all[0] == id && forall i :: 0 <= i < |hints| ==> all[i + 1] == hints[i];
  }

  lemma RefutationSteps(nonces: Nonces, t: Table, checked: set<Lit>, id: Id, hints: seq<Id>, u: Lit, units: seq<Lit>)
    ensures Refutation(nonces, t, checked, [id] + hints, [u] + units) <==>
            && OnlyUnassigned(checked, HintLits(nonces, t, id), u)
            && Refutation(nonces, t, checked + {u}, hints, units)
  {
    var all, us := [id] + hints, [u] + units;
    if |hints| == |units| + 1 {
      assert us[..0] == [] && checked + LitsOf([]) == checked;
      assert Forces(nonces, t, checked, all, us, 0) <==> OnlyUnassigned(checked, HintLits(nonces, t, id), u);
      forall i | 0 <= i < |units|
        ensures Forces(nonces, t, checked, all, us, i + 1) <==> Forces(nonces, t, checked + {u}, hints, units, i)
      {
        PrefixLits(checked, u, units, i);
      }
      PrefixLits(checked, u, units, |units|);
      assert us[..|us|] == us && units[..|units|] == units;
      if Refutation(nonces, t, checked, all, us) {
        forall i | 0 <= i < |units| ensures Forces(nonces, t, checked + {u}, hints, units, i) {
          assert Forces(nonces, t, checked, all, us, i + 1);
        }
      }
      if Refutation(nonces, t, checked + {u}, hints, units) && Forces(nonces, t, checked, all, us, 0) {
        forall i | 0 <= i < |us| ensures Forces(nonces, t, checked, all, us, i) {
          if i > 0 {
            assert Forces(nonces, t, checked + {u}, hints, units, i - 1);
          }
        }
      }
    }
  }

  lemma PrefixLits(checked: set<Lit>, u: Lit, units: seq<Lit>, i: nat)
    requires i <= |units|
    ensures checked + LitsOf(([u] + units)[..i+1]) == checked + {u} + LitsOf(units[..i])
  {
    assert ([u] + units)[..i+1] == [u] + units[..i];
  }

  // Every clause of the table follows from 'f'.
  ghost predicate TableEntailed(t: Table, f: Formula) {
    forall c {:trigger Contains(t, c)} :: Contains(t, c) ==> 0 !in c.lits && Entails(f, LitsOf(c.lits))
  }

  ghost predicate AllHold(m: Model, checked: set<Lit>) {
    0 !in checked && forall l :: l in checked ==> Holds(m, l)
  }

  lemma {:induction false} FollowRefutes(
    nonces: Nonces, t: Table, f: Formula, m: Model, checked: set<Lit>, used: set<Id>, chain: seq<Id>)
    requires Hashed(nonces, t) && TableEntailed(t, f) && Models(m, f)
    requires Follow(nonces, t, checked, used, chain)
    ensures !AllHold(m, checked)
    decreases |chain|
  {
    LookupExact(nonces, t, chain[0]);
    var c := Lookup(nonces, t, chain[0]).value;
    assert Contains(t, c);
    assert Sat(m, LitsOf(c.lits));
    var k :| k in LitsOf(c.lits) && Holds(m, k);
    ScanMeaning(checked, c.lits, k);
    if -k in checked {
      assert !Holds(m, -k);
    } else {
      FollowUnit(nonces, t, f, m, checked, used, chain, c, k);
    }
  }

  lemma FollowUnit(
    nonces: Nonces, t: Table, f: Formula, m: Model, checked: set<Lit>, used: set<Id>, chain: seq<Id>, c: LClause, k: Lit)
    requires Hashed(nonces, t) && TableEntailed(t, f) && Models(m, f)
    requires Follow(nonces, t, checked, used, chain) && Lookup(nonces, t, chain[0]) == Some(c)
    requires k in c.lits && k != 0 && Holds(m, k) && -k !in checked
    ensures !AllHold(m, checked)
    decreases |chain|, 0
  {
    ScanMeaning(checked, c.lits, k);
    assert !AllFalse(checked, c.lits);
    var u := Scan(checked, c.lits).lit;
    ScanMeaning(checked, c.lits, u);
    assert u == k;
    FollowRefutes(nonces, t, f, m, checked + {k}, used + {chain[0]}, chain[1..]);
    assert AllHold(m, checked) ==> AllHold(m, checked + {k});
  }

  // The soundness of the check.
  lemma AcceptedEntailed(nonces: Nonces, t: Table, f: Formula, clause: seq<Lit>, chain: seq<Id>)
    requires Hashed(nonces, t) && TableEntailed(t, f) && 0 !in clause
    requires Accepts(nonces, t, clause, chain)
    ensures Entails(f, LitsOf(clause))
  {
    forall m: Model | Models(m, f) ensures Sat(m, LitsOf(clause)) {
      if TautologicalSeq(clause) {
        var l :| l in clause && -l in clause;
        assert l in LitsOf(clause) && -l in LitsOf(clause);
        assert Holds(m, l) || Holds(m, -l);
      } else {
        FollowRefutes(nonces, t, f, m, Negations(clause), {}, chain);
        assert 0 !in Negations(clause);
        var n :| n in Negations(clause) && !Holds(m, n);
        var l :| l in clause && n == -l;
        assert l in LitsOf(clause) && Holds(m, l);
      }
    }
  }
}
