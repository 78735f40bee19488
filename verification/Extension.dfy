// The extension stack: the flat integer encoding of removed clauses with their witnesses, the
// two traversals of the stack, and the backward pass that repairs an assignment.
module Extension {
  import opened Cnf

  // A removed clause, the witness literals that repair it, and its identifier.
  datatype Entry = Entry(wit: seq<Lit>, clause: seq<Lit>, id: nat)

  const WORD: nat := 0x1_0000_0000
  const DWORD: nat := 0x1_0000_0000_0000_0000

  // ----- Clause identifiers as two machine integers.

  // Conversion of an unsigned number to a 32-bit signed integer.
  function Int32(x: nat): (r: int)
    ensures -0x8000_0000 <= r < 0x8000_0000
  {
    var w := x % WORD;
    if w < 0x8000_0000 then w else w - WORD
  }

  // Conversion of a signed integer to 64 unsigned bits.
  function UInt64(x: int): nat {
    x % DWORD
  }

  // The identifier is shifted up, not down, before it is truncated.
  function HighWord(id: nat): int {
    Int32((id * WORD) % DWORD)
  }

  function LowWord(id: nat): int {
    Int32(id % WORD)
  }

  function ReadId(high: int, low: int): nat {
    (UInt64(high) * WORD + UInt64(low)) % DWORD
  }

  lemma HighWordLost(id: nat)
    ensures HighWord(id) == 0
  {
    var x, k := (id * WORD) % DWORD, (id * WORD) / DWORD;
    assert x == WORD * (id - k * WORD);
    assert x % WORD == 0;
  }

  // Exactly which 64-bit identifiers survive the stack: those of 31 bits, and those whose upper
  // 33 bits are all ones, which sign extension happens to restore.
  lemma IdRoundTrip(id: nat)
    requires id < DWORD
    ensures ReadId(HighWord(id), LowWord(id)) == id <==> id < 0x8000_0000 || DWORD - 0x8000_0000 <= id
  {
    HighWordLost(id);
    var w := id % WORD;
    if w < 0x8000_0000 {
      assert ReadId(0, w) == w;
      assert id == w <==> id < WORD;
    } else {
      assert UInt64(w - WORD) == DWORD - WORD + w;
      assert ReadId(0, w - WORD) == DWORD - WORD + w;
      assert id == (id / WORD) * WORD + w;
    }
  }

  // ----- The flat encoding.

  function Encode(e: Entry): seq<int> {
    [0] + e.wit + [0, HighWord(e.id), LowWord(e.id), 0] + e.clause
  }

  function EncodeAll(es: seq<Entry>): seq<int> {
    if es == [] then [] else EncodeAll(es[..|es|-1]) + Encode(es[|es|-1])
  }

  // The entry as the traversals see it.
  function Seen(e: Entry): Entry {
    e.(id := ReadId(HighWord(e.id), LowWord(e.id)))
  }

  function SeenAll(es: seq<Entry>): (r: seq<Entry>)
    ensures |r| == |es| && forall i :: 0 <= i < |es| ==> r[i] == Seen(es[i])
  {
    seq(|es|, i requires 0 <= i < |es| => Seen(es[i]))
  }

  predicate Proper(e: Entry) {
    0 !in e.wit && 0 !in e.clause && e.clause != []
  }

  // Where entry 'n' starts.
  function Offset(es: seq<Entry>, n: nat): nat
    requires n <= |es|
  {
    |EncodeAll(es[..n])|
  }

  lemma EncodeAllStep(es: seq<Entry>, n: nat)
    requires n < |es|
    ensures EncodeAll(es[..n+1]) == EncodeAll(es[..n]) + Encode(es[n])
  {
    assert es[..n+1][..n] == es[..n];
  }

  lemma {:induction false} EncodePrefix(es: seq<Entry>, n: nat)
    requires n <= |es|
    ensures |EncodeAll(es[..n])| <= |EncodeAll(es)|
    ensures EncodeAll(es)[..|EncodeAll(es[..n])|] == EncodeAll(es[..n])
    decreases |es| - n
  {
    if n == |es| {
      assert es[..n] == es;
    } else {
      EncodePrefix(es, n + 1);
      EncodeAllStep(es, n);
    }
  }

  // Where entry 'n' lies on the stack.
  lemma EntryAt(es: seq<Entry>, n: nat)
    requires n < |es|
    ensures var b, s, t := |EncodeAll(es[..n])|, EncodeAll(es), Encode(es[n]);
            b + |t| == |EncodeAll(es[..n+1])| <= |s| && s[b..b+|t|] == t
  {
    EncodePrefix(es, n + 1);
    EncodeAllStep(es, n);
    var b, s, t := |EncodeAll(es[..n])|, EncodeAll(es), Encode(es[n]);
    assert s[..b+|t|] == EncodeAll(es[..n]) + t;
    assert s[b..b+|t|] == s[..b+|t|][b..];
  }

  // The parts of an entry that starts at position 'b'.
  ghost predicate Holding(s: seq<int>, b: nat, e: Entry) {
    HoldingParts(s, b, e.wit, HighWord(e.id), LowWord(e.id), e.clause)
  }

  ghost predicate HoldingParts(s: seq<int>, b: nat, wit: seq<Lit>, high: int, low: int, clause: seq<Lit>) {
    var w, c := |wit|, |clause|;
    && b + w + c + 5 <= |s|
    && s[b] == 0 && s[b+1..b+1+w] == wit
    && s[b+w+1] == 0 && s[b+w+2] == high && s[b+w+3] == low && s[b+w+4] == 0
    && s[b+w+5..b+w+5+c] == clause
  }

  lemma SliceOfSlice(s: seq<int>, a: nat, b: nat, c: nat, d: nat)
    requires a <= b <= |s| && c <= d <= b - a
    ensures s[a..b][c..d] == s[a+c..a+d]
  {
    forall i | 0 <= i < d - c ensures s[a..b][c..d][i] == s[a+c..a+d][i] {
    }
  }

  lemma EntryParts(s: seq<int>, b: nat, t: seq<int>, wit: seq<Lit>, high: int, low: int, clause: seq<Lit>)
    requires t == [0] + wit + [0, high, low, 0] + clause
    requires b + |t| <= |s| && s[b..b+|t|] == t
    ensures HoldingParts(s, b, wit, high, low, clause)
  {
    var w, c := |wit|, |clause|;
    PartsOf(t, wit, high, low, clause);
    SliceOfSlice(s, b, b + |t|, 1, 1 + w);
    SliceOfSlice(s, b, b + |t|, w + 5, w + 5 + c);
    SliceAt(s, b, t, 0);
    SliceAt(s, b, t, w + 1);
    SliceAt(s, b, t, w + 2);
    SliceAt(s, b, t, w + 3);
    SliceAt(s, b, t, w + 4);
  }

  lemma PartsOf(t: seq<int>, wit: seq<Lit>, high: int, low: int, clause: seq<Lit>)
    requires t == [0] + wit + [0, high, low, 0] + clause
    ensures var w, c := |wit|, |clause|;
            |t| == w + c + 5 && t[0] == 0 && t[1..1+w] == wit && t[w+5..w+5+c] == clause &&
            t[w+1] == 0 && t[w+2] == high && t[w+3] == low && t[w+4] == 0
  {
    assert t == ([0] + wit) + [0, high, low, 0] + clause;
  }

  lemma SliceAt(s: seq<int>, b: nat, t: seq<int>, i: nat)
    requires b + |t| <= |s| && s[b..b+|t|] == t && i < |t|
    ensures s[b+i] == t[i]
  {
  }

  lemma EncodedEntry(es: seq<Entry>, n: nat)
    requires n < |es|
    ensures Holding(EncodeAll(es), |EncodeAll(es[..n])|, es[n])
    ensures |EncodeAll(es[..n+1])| == |EncodeAll(es[..n])| + |es[n].wit| + |es[n].clause| + 5
    ensures |EncodeAll(es[..n+1])| <= |EncodeAll(es)|
  {
    EntryAt(es, n);
    var e := es[n];
    EntryParts(EncodeAll(es), |EncodeAll(es[..n])|, Encode(e), e.wit, HighWord(e.id), LowWord(e.id), e.clause);
  }

  lemma EncodeNonEmpty(es: seq<Entry>)
    ensures EncodeAll(es) == [] <==> es == []
  {
    assert es != [] ==> |Encode(es[|es|-1])| >= 5;
  }

  lemma EncodePush(es: seq<Entry>, e: Entry)
    ensures EncodeAll(es + [e]) == EncodeAll(es) + Encode(e)
  {
    assert (es + [e])[..|es|] == es;
  }

  lemma EncodeShape(s: seq<int>, e: Entry)
    ensures s + [0] + e.wit + [0] + [HighWord(e.id), LowWord(e.id)] + [0] + e.clause == s + Encode(e)
  {
  }

  function Reverse<T>(s: seq<T>): (r: seq<T>)
    ensures |r| == |s| && forall i :: 0 <= i < |s| ==> r[i] == s[|s|-1-i]
  {
    seq(|s|, i requires 0 <= i < |s| => s[|s|-1-i])
  }

  // ----- The meaning of the backward pass.

  // Make all witness literals true, the last one first.
  ghost function AssignAll(m: Model, w: seq<Lit>): Model {
    if w == [] then m else AssignAll(Assign(m, w[|w|-1]), w[..|w|-1])
  }

  ghost function Repair(m: Model, e: Entry): Model {
    if Sat(m, LitsOf(e.clause)) then m else AssignAll(m, e.wit)
  }

  ghost function Extend(m: Model, es: seq<Entry>): Model {
    if es == [] then m else Extend(Repair(m, es[|es|-1]), es[..|es|-1])
  }

  // ----- The external view: the stack and the external assignment.

  ghost function ModelOf(vals: seq<bool>): Model {
    iset v: int | 0 < v < |vals| && vals[v]
  }

  ghost predicate Accepted(accept: Entry -> bool, visited: seq<Entry>) {
    forall i :: 0 <= i < |visited| ==> accept(visited[i])
  }

  // The entries shown to a callback: all of them in order, up to the first it does not accept.
  ghost predicate Visits(all: seq<Entry>, accept: Entry -> bool, visited: seq<Entry>, ok: bool) {
    && visited <= all
    && (forall i :: 0 <= i < |visited| - 1 ==> accept(visited[i]))
    && (if ok then visited == all && (|all| > 0 ==> accept(all[|all|-1]))
        else |visited| > 0 && !accept(visited[|visited|-1]))
  }

  class External {
    const maxVar: nat
    var extension: seq<int>
    var vals: seq<bool>
    ghost var entries: seq<Entry>

    ghost predicate Valid()
      reads this
    {
      && extension == EncodeAll(entries)
      && forall i :: 0 <= i < |entries| ==> Proper(entries[i]) && InRange(entries[i])
    }

    ghost predicate InRange(e: Entry) {
      forall l :: l in e.wit || l in e.clause ==> Var(l) <= maxVar
    }

    constructor (maxVar: nat)
      ensures Valid() && entries == [] && vals == [] && this.maxVar == maxVar
    {
      this.maxVar := maxVar;
      extension, vals, entries := [], [], [];
    }

    // The stack as the solver left it.
    constructor Resume(maxVar: nat, extension: seq<int>, vals: seq<bool>, ghost entries: seq<Entry>)
      requires extension == EncodeAll(entries)
      requires forall e {:trigger e in entries} :: e in entries ==> Proper(e) && forall l :: l in e.wit || l in e.clause ==> Var(l) <= maxVar
      ensures Valid() && this.entries == entries && this.vals == vals && this.maxVar == maxVar && this.extension == extension
    {
      this.maxVar, this.extension, this.vals, this.entries := maxVar, extension, vals, entries;
      new;
      assert forall i :: 0 <= i < |entries| ==> entries[i] in entries;
    }

    method PushZero()
      modifies `extension
      ensures extension == old(extension) + [0]
    {
      extension := extension + [0];
    }

    method PushId(id: nat)
      modifies `extension
      ensures extension == old(extension) + [HighWord(id), LowWord(id)]
    {
      extension := extension + [HighWord(id)];
      extension := extension + [LowWord(id)];
    }

    method PushLiterals(lits: seq<Lit>)
      modifies `extension
      ensures extension == old(extension) + lits
    {
      for i := 0 to |lits|
        invariant extension == old(extension) + lits[..i]
      {
        extension := extension + [lits[i]];
      }
    }

    method PushClauseAndWitness(c: seq<Lit>, w: seq<Lit>, id: nat)
      requires Valid() && Proper(Entry(w, c, id)) && InRange(Entry(w, c, id))
      modifies `extension, `entries
      ensures Valid() && entries == old(entries) + [Entry(w, c, id)]
    {
      PushZero();
      PushLiterals(w);
      PushZero();
      PushId(id);
      PushZero();
      PushLiterals(c);
      EncodeShape(old(extension), Entry(w, c, id));
      EncodePush(entries, Entry(w, c, id));
      entries := entries + [Entry(w, c, id)];
    }

    method PushBinaryClause(id: nat, pivot: Lit, other: Lit)
      requires Valid() && pivot != 0 && other != 0 && Var(pivot) <= maxVar && Var(other) <= maxVar
      modifies `extension, `entries
      ensures Valid() && entries == old(entries) + [Entry([pivot], [pivot, other], id)]
    {
      PushClauseAndWitness([pivot, other], [pivot], id);
    }

    // The value of an external literal; variables without a value are false.
    function Ival(lit: Lit): (r: int)
      reads this
      ensures lit != 0 && Var(lit) <= maxVar ==> (r > 0 <==> Holds(ModelOf(vals), lit))
      ensures lit != 0 ==> r != 0
    {
      var idx: int := Var(lit);
      var res := if idx > maxVar || idx >= |vals| then -idx else if vals[idx] then idx else -idx;
      if lit < 0 then -res else res
    }

    method Resize(n: nat)
      modifies `vals
      ensures |vals| >= n && |vals| >= |old(vals)|
      ensures ModelOf(vals) == ModelOf(old(vals))
      ensures forall i :: 0 <= i < |old(vals)| ==> vals[i] == old(vals)[i]
      ensures forall i :: |old(vals)| <= i < |vals| ==> !vals[i]
    {
      if n > |vals| {
        vals := vals + seq(n - |vals|, _ => false);
      }
    }

    // Read backward from position 'i' to the previous zero.
    method ScanBack(i: nat, ghost lo: nat) returns (j: nat, lits: seq<Lit>)
      requires lo < i <= |extension| && extension[lo] == 0 && 0 !in extension[lo+1..i]
      ensures j == lo && lits == Reverse(extension[lo+1..i])
    {
      assert forall k :: lo < k < i ==> extension[k] in extension[lo+1..i];
      j, lits := i - 1, [];
      while extension[j] != 0
        invariant lo <= j < i && lits == Reverse(extension[j+1..i])
        decreases j
      {
        lits := lits + [extension[j]];
        assert extension[j..i] == [extension[j]] + extension[j+1..i];
        j := j - 1;
      }
    }

    // Read one entry backward; 'i' is the position after it.
    method ReadBack(i: nat, ghost b: nat, ghost e: Entry) returns (j: nat, r: Entry)
      requires Holding(extension, b, e) && Proper(e) && i == b + |e.wit| + |e.clause| + 5
      ensures j == b && r == Seen(e)
    {
      assert extension[b+|e.wit|+5..i] == e.clause;
      var k, lits := ScanBack(i, b + |e.wit| + 4);
      k := k - 1;
      var id := ReadId(extension[k-1], extension[k]);
      k := k - 2;
      var wits;
      j, wits := ScanBack(k, b);
      r := Entry(Reverse(wits), Reverse(lits), id);
    }

    method NextBack(i: nat, ghost n: nat) returns (j: nat, r: Entry)
      requires Valid() && n <= |entries| && i == Offset(entries, n) && i != 0
      ensures n > 0 && j == Offset(entries, n - 1) && r == Seen(entries[n-1])
    {
      EncodeNonEmpty(entries[..n]);
      EncodedEntry(entries, n - 1);
      assert Proper(entries[n-1]);
      j, r := ReadBack(i, Offset(entries, n - 1), entries[n-1]);
    }

    // Visit the entries from the newest to the oldest until one of them is not accepted.
    method TraverseBackward(accept: Entry -> bool) returns (visited: seq<Entry>, ok: bool)
      requires Valid()
      ensures Visits(Reverse(SeenAll(entries)), accept, visited, ok)
    {
      ghost var n: nat := |entries|;
      var i := |extension|;
      visited := [];
      assert entries[..n] == entries;
      while i != 0
        invariant n <= |entries| && i == Offset(entries, n)
        invariant visited == Reverse(SeenAll(entries))[..|entries|-n]
        invariant Accepted(accept, visited)
        decreases n
      {
        var e;
        i, e := NextBack(i, n);
        n := n - 1;
        visited := visited + [e];
        if !accept(e) {
          return visited, false;
        }
      }
      EncodeNonEmpty(entries[..n]);
      ok := true;
    }

    // Read forward from position 'i' to the next zero or to the end.
    method ScanForward(i: nat, ghost hi: nat) returns (lits: seq<Lit>)
      requires i <= hi <= |extension| && (hi == |extension| || extension[hi] == 0) && 0 !in extension[i..hi]
      ensures lits == extension[i..hi]
    {
      assert forall k :: i <= k < hi ==> extension[k] in extension[i..hi];
      var j := i;
      lits := [];
      while j < |extension| && extension[j] != 0
        invariant i <= j <= hi && lits == extension[i..j]
        decreases |extension| - j
      {
        lits := lits + [extension[j]];
        j := j + 1;
      }
    }

    // Read one entry forward; 'i' is the position of its first zero.
    method ReadForward(i: nat, ghost e: Entry) returns (j: nat, r: Entry)
      requires Holding(extension, i, e) && Proper(e)
      requires var m := i + |e.wit| + |e.clause| + 5; m == |extension| || extension[m] == 0
      ensures j == i + |e.wit| + |e.clause| + 5 && r == Seen(e)
    {
      var wits := ScanForward(i + 1, i + 1 + |e.wit|);
      var k := i + 1 + |wits| + 1;
      var id := ReadId(extension[k], extension[k+1]);
      k := k + 3;
      var lits := ScanForward(k, k + |e.clause|);
      r := Entry(wits, lits, id);
      j := k + |lits|;
    }

    method NextForward(i: nat, ghost n: nat) returns (j: nat, r: Entry)
      requires Valid() && n <= |entries| && i == Offset(entries, n) && i != |extension|
      ensures n < |entries| && j == Offset(entries, n + 1) <= |extension| && r == Seen(entries[n])
    {
      ForwardStep(entries, n);
      assert Proper(entries[n]);
      j, r := ReadForward(i, entries[n]);
    }

    // Visit the entries from the oldest to the newest until one of them is not accepted.
    method TraverseForward(accept: Entry -> bool) returns (visited: seq<Entry>, ok: bool)
      requires Valid()
      ensures Visits(SeenAll(entries), accept, visited, ok)
    {
      ghost var n: nat := 0;
      var i := 0;
      visited := [];
      assert entries[..|entries|] == entries;
      while i != |extension|
        invariant n <= |entries| && i == Offset(entries, n) <= |extension|
        invariant visited == SeenAll(entries)[..n]
        invariant Accepted(accept, visited)
        decreases |entries| - n
      {
        var e;
        i, e := NextForward(i, n);
        n := n + 1;
        visited := visited + [e];
        assert visited == SeenAll(entries)[..n];
        if !accept(e) {
          return visited, false;
        }
      }
      EncodeStrict(entries, n);
      ok := true;
    }

    // Take over the internal values of all mapped variables.
    method MapInternalValues(e2i: seq<Lit>, internal: Lit -> int)
      requires |e2i| > maxVar
      modifies `vals
      ensures ModelOf(vals) == MappedModel(ModelOf(old(vals)), maxVar, e2i, internal)
    {
      for i := 1 to maxVar + 1
        invariant ModelOf(vals) == MappedModel(ModelOf(old(vals)), i - 1, e2i, internal)
      {
        MappedStep(ModelOf(old(vals)), i, e2i, internal);
        var ilit := e2i[i];
        if ilit == 0 { continue; }
        Resize(i + 1);
        ghost var before := ModelOf(vals);
        vals := vals[i := internal(ilit) > 0];
        assert ModelOf(vals) == if internal(ilit) > 0 then before + iset{i} else before - iset{i};
      }
    }

    // Read a clause backward and note whether one of its literals is true.
    method ScanSatisfied(i: nat, ghost lo: nat, ghost c: seq<Lit>) returns (j: nat, satisfied: bool)
      requires lo < i <= |extension| && extension[lo] == 0 && extension[lo+1..i] == c && 0 !in c
      requires forall l :: l in c ==> Var(l) <= maxVar
      ensures j == lo && (satisfied <==> Sat(ModelOf(vals), LitsOf(c)))
    {
      assert forall k :: lo < k < i ==> extension[k] == c[k-lo-1] && extension[k] in c;
      j, satisfied := i - 1, false;
      while extension[j] != 0
        invariant lo <= j < i
        invariant satisfied <==> exists k :: j < k < i && Holds(ModelOf(vals), extension[k])
        decreases j
      {
        var lit := extension[j];
        j := j - 1;
        if satisfied { continue; }
        if Ival(lit) > 0 {
          satisfied := true;
        }
      }
      SatByPosition(c, ModelOf(vals));
      assert forall k :: 0 <= k < |c| ==> c[k] == extension[lo+1+k];
    }

    method SkipBack(i: nat, ghost lo: nat) returns (j: nat)
      requires lo < i <= |extension| && extension[lo] == 0 && 0 !in extension[lo+1..i]
      ensures j == lo
    {
      var lits;
      j, lits := ScanBack(i, lo);
    }

    method FlipLiteral(lit: Lit)
      requires lit != 0 && Var(lit) <= maxVar
      modifies `vals
      ensures ModelOf(vals) == Assign(ModelOf(old(vals)), lit)
    {
      if Ival(lit) < 0 {
        var idx := Var(lit);
        Resize(idx + 1);
        vals := vals[idx := !vals[idx]];
      }
    }

    // Make the literals of the witness true, from the last to the first.
    method FlipWitness(i: nat, ghost lo: nat, ghost w: seq<Lit>) returns (j: nat)
      requires lo < i <= |extension| && extension[lo] == 0 && extension[lo+1..i] == w && 0 !in w
      requires forall l :: l in w ==> Var(l) <= maxVar
      modifies `vals
      ensures j == lo && ModelOf(vals) == AssignAll(ModelOf(old(vals)), w)
    {
      assert forall k :: lo < k < i ==> extension[k] == w[k-lo-1] && extension[k] in w;
      j := i - 1;
      assert w[..j-lo] == w;
      while extension[j] != 0
        invariant lo <= j < i
        invariant AssignAll(ModelOf(vals), w[..j-lo]) == AssignAll(ModelOf(old(vals)), w)
        decreases j
      {
        var lit := extension[j];
        assert w[..j-lo] == w[..j-lo-1] + [lit];
        FlipLiteral(lit);
        j := j - 1;
      }
    }

    // Process one entry; 'i' is the position after it.
    method RepairEntry(i: nat, ghost b: nat, ghost e: Entry) returns (j: nat)
      requires Holding(extension, b, e) && Proper(e) && InRange(e) && i == b + |e.wit| + |e.clause| + 5
      modifies `vals
      ensures j == b && ModelOf(vals) == Repair(ModelOf(old(vals)), e)
    {
      var k, satisfied := ScanSatisfied(i, b + |e.wit| + 4, e.clause);
      k := k - 3;
      if satisfied {
        j := SkipBack(k, b);
      } else {
        j := FlipWitness(k, b, e.wit);
      }
    }

    method RepairNext(i: nat, ghost n: nat) returns (j: nat)
      requires Valid() && n <= |entries| && i == Offset(entries, n) && i != 0
      modifies `vals
      ensures n > 0 && j == Offset(entries, n - 1) && ModelOf(vals) == Repair(ModelOf(old(vals)), entries[n-1])
    {
      EncodeNonEmpty(entries[..n]);
      EncodedEntry(entries, n - 1);
      assert Proper(entries[n-1]);
      j := RepairEntry(i, Offset(entries, n - 1), entries[n-1]);
    }

    // The extension process.
    method ExtendAssignment(e2i: seq<Lit>, internal: Lit -> int)
      requires Valid() && |e2i| > maxVar
      modifies `vals
      ensures ModelOf(vals) == Extend(MappedModel(ModelOf(old(vals)), maxVar, e2i, internal), entries)
    {
      MapInternalValues(e2i, internal);
      ghost var m := ModelOf(vals);
      ghost var n: nat := |entries|;
      var i := |extension|;
      assert entries[..n] == entries;
      while i != 0
        invariant n <= |entries| && i == Offset(entries, n)
        invariant Extend(ModelOf(vals), entries[..n]) == Extend(m, entries)
        decreases n
      {
        ExtendStep(ModelOf(vals), entries, n);
        i := RepairNext(i, n);
        n := n - 1;
      }
      EncodeNonEmpty(entries[..n]);
    }
  }

  // The internal values of the variables up to 'n', and 'm' for the variables that are unmapped.
  ghost function MappedModel(m: Model, n: nat, e2i: seq<Lit>, internal: Lit -> int): Model
    requires |e2i| > n
  {
    iset v: int | if 1 <= v <= n && e2i[v] != 0 then internal(e2i[v]) > 0 else v in m
  }

  lemma MappedStep(m: Model, n: nat, e2i: seq<Lit>, internal: Lit -> int)
    requires 0 < n < |e2i|
    ensures var before, after := MappedModel(m, n - 1, e2i, internal), MappedModel(m, n, e2i, internal);
            after == if e2i[n] == 0 then before else if internal(e2i[n]) > 0 then before + iset{n as int} else before - iset{n as int}
  {
  }

  lemma SatByPosition(c: seq<Lit>, m: Model)
    ensures Sat(m, LitsOf(c)) <==> exists k :: 0 <= k < |c| && Holds(m, c[k])
  {
    if Sat(m, LitsOf(c)) {
      var l :| l in LitsOf(c) && Holds(m, l);
      var k :| 0 <= k < |c| && c[k] == l;
    }
    if k :| 0 <= k < |c| && Holds(m, c[k]) {
      assert c[k] in LitsOf(c);
    }
  }

  lemma ExtendStep(m: Model, es: seq<Entry>, n: nat)
    requires n <= |es|
    ensures n > 0 ==> Extend(m, es[..n]) == Extend(Repair(m, es[n-1]), es[..n-1])
  {
    assert n > 0 ==> es[..n][..n-1] == es[..n-1];
  }

  // An entry ends where the stack ends or where the next entry starts with a zero.
  lemma EntryBoundary(es: seq<Entry>, n: nat)
    requires n <= |es|
    ensures var m := |EncodeAll(es[..n])|; m <= |EncodeAll(es)| && (m == |EncodeAll(es)| || EncodeAll(es)[m] == 0)
  {
    if n < |es| {
      EncodedEntry(es, n);
    } else {
      assert es[..n] == es;
    }
  }

  lemma ForwardStep(es: seq<Entry>, n: nat)
    requires n <= |es| && |EncodeAll(es[..n])| != |EncodeAll(es)|
    ensures n < |es| && Holding(EncodeAll(es), |EncodeAll(es[..n])|, es[n])
    ensures var m := |EncodeAll(es[..n])| + |es[n].wit| + |es[n].clause| + 5;
            m == |EncodeAll(es[..n+1])| <= |EncodeAll(es)| && (m == |EncodeAll(es)| || EncodeAll(es)[m] == 0)
  {
    assert es[..|es|] == es;
    EncodedEntry(es, n);
    EntryBoundary(es, n + 1);
  }

  lemma EncodeStrict(es: seq<Entry>, n: nat)
    requires n <= |es| && |EncodeAll(es[..n])| == |EncodeAll(es)|
    ensures n == |es|
  {
    if n < |es| {
      EncodedEntry(es, n);
      assert false;
    }
  }

  // Both traversals recover the pushed entries exactly if the identifiers survive the stack.
  lemma TraversalsRecover(es: seq<Entry>)
    requires forall i :: 0 <= i < |es| ==> es[i].id < DWORD
    ensures SeenAll(es) == es <==>
            forall i :: 0 <= i < |es| ==> es[i].id < 0x8000_0000 || DWORD - 0x8000_0000 <= es[i].id
  {
    forall i | 0 <= i < |es|
      ensures SeenAll(es)[i] == es[i] <==> es[i].id < 0x8000_0000 || DWORD - 0x8000_0000 <= es[i].id
    {
      IdRoundTrip(es[i].id);
    }
  }
}
