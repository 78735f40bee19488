// The indexed binary heap behind all schedules: a priority queue whose elements know their
// position, so that they can be moved after their priority changed.
module Heap {
  // The position of elements that are not in the heap.
  const INVALID: nat := 0xFFFF_FFFF

  type Order = (nat, nat) -> bool

  ghost predicate StrictTotal(less: Order) {
    && (forall a {:trigger less(a, a)} :: !less(a, a))
    && (forall a, b {:trigger less(a, b)} :: a != b ==> less(a, b) || less(b, a))
    && (forall a, b, c {:trigger less(a, b), less(b, c)} :: less(a, b) && less(b, c) ==> less(a, c))
  }

  lemma NotLessTransitive(less: Order, a: nat, b: nat, c: nat)
    requires StrictTotal(less) && !less(a, b) && !less(b, c)
    ensures !less(a, c)
  {
    assert less(b, a) || a == b;
    assert less(c, b) || b == c;
  }

  lemma Asymmetric(less: Order, a: nat, b: nat)
    requires StrictTotal(less) && less(a, b)
    ensures !less(b, a)
  {
    assert !less(a, a);
  }

  lemma Above(less: Order, a: nat, b: nat, c: nat)
    requires StrictTotal(less) && less(a, b) && !less(a, c)
    ensures !less(b, c)
  {
  }

  function Parent(i: nat): nat
    requires i > 0
  {
    (i - 1) / 2
  }

  // The element at position 'i' is not larger than its parent.
  ghost predicate Fine(h: seq<nat>, less: Order, i: nat)
    requires i < |h|
  {
    i > 0 ==> !less(h[Parent(i)], h[i])
  }

  ghost predicate Ordered(h: seq<nat>, less: Order) {
    forall i {:trigger Fine(h, less, i)} :: 0 <= i < |h| ==> Fine(h, less, i)
  }

  // The children of position 'p' are not larger than the parent of 'p'.
  ghost predicate Skipping(h: seq<nat>, less: Order, p: nat, c: nat)
    requires c < |h| && p < |h|
  {
    c > 0 && Parent(c) == p && p > 0 ==> !less(h[Parent(p)], h[c])
  }

  // Only the element at position 'p' may be out of place.
  ghost predicate Misplaced(h: seq<nat>, less: Order, p: nat) {
    && p < |h|
    && (forall i {:trigger Fine(h, less, i)} :: 0 <= i < |h| && i != p && (i > 0 ==> Parent(i) != p) ==> Fine(h, less, i))
    && (forall c {:trigger Skipping(h, less, p, c)} :: 0 <= c < |h| ==> Skipping(h, less, p, c))
  }

  // Only the children of position 'p' may be larger than their parent.
  ghost predicate Sinking(h: seq<nat>, less: Order, p: nat) {
    Misplaced(h, less, p) && Fine(h, less, p)
  }

  function Swapped(h: seq<nat>, i: nat, j: nat): (r: seq<nat>)
    requires i < |h| && j < |h|
    ensures |r| == |h| && multiset(r) == multiset(h)
  {
    h[i := h[j]][j := h[i]]
  }

  // Bubbling up by one position.  Afterwards the children of the new position are fine.
  lemma UpStep(h: seq<nat>, less: Order, p: nat)
    requires StrictTotal(less) && Misplaced(h, less, p) && p > 0 && less(h[Parent(p)], h[p])
    ensures var r := Swapped(h, Parent(p), p);
            Misplaced(r, less, Parent(p)) && ChildrenFine(r, less, Parent(p))
  {
    var q := Parent(p);
    var r := Swapped(h, q, p);
    assert q != p && Fine(h, less, q);
    forall i | 0 <= i < |h| && i != q ensures Fine(r, less, i) {
      if i > 0 {
        UpFine(h, less, p, i);
      }
    }
    forall c | 0 <= c < |h| ensures Skipping(r, less, q, c) {
      if c > 0 && Parent(c) == q && q > 0 {
        assert !less(h[Parent(q)], h[q]);
        if c != p {
          assert Fine(h, less, c);
          NotLessTransitive(less, h[Parent(q)], h[q], h[c]);
        }
      }
    }
  }

  ghost predicate ChildrenFine(h: seq<nat>, less: Order, p: nat) {
    forall i {:trigger Fine(h, less, i)} :: 0 < i < |h| && Parent(i) == p ==> Fine(h, less, i)
  }

  lemma UpFine(h: seq<nat>, less: Order, p: nat, i: nat)
    requires StrictTotal(less) && Misplaced(h, less, p) && p > 0 && less(h[Parent(p)], h[p])
    requires 0 < i < |h| && i != Parent(p)
    ensures Fine(Swapped(h, Parent(p), p), less, i)
  {
    var q := Parent(p);
    if i == p {
      Asymmetric(less, h[q], h[p]);
    } else if Parent(i) == p {
      assert Skipping(h, less, p, i);
    } else {
      assert Fine(h, less, i);
      if Parent(i) == q {
        Above(less, h[q], h[p], h[i]);
      }
    }
  }

  // Bubbling down by one position, with the larger child.
  lemma DownStep(h: seq<nat>, less: Order, p: nat, c: nat)
    requires StrictTotal(less) && Sinking(h, less, p) && 0 < c < |h| && Parent(c) == p && less(h[p], h[c])
    requires forall o :: 0 < o < |h| && Parent(o) == p ==> !less(h[c], h[o])
    ensures Sinking(Swapped(h, p, c), less, c)
  {
    var r := Swapped(h, p, c);
    assert c != p;
    assert Skipping(h, less, p, c);
    forall i | 0 <= i < |h| && (i > 0 ==> Parent(i) != c) ensures Fine(r, less, i) {
      if i > 0 {
        DownFine(h, less, p, c, i);
      }
    }
    forall d | 0 <= d < |h| ensures Skipping(r, less, c, d) {
      if d > 0 && Parent(d) == c {
        assert d != p && Fine(h, less, d);
      }
    }
  }

  lemma DownFine(h: seq<nat>, less: Order, p: nat, c: nat, i: nat)
    requires StrictTotal(less) && Sinking(h, less, p) && 0 < c < |h| && Parent(c) == p && less(h[p], h[c])
    requires forall o :: 0 < o < |h| && Parent(o) == p ==> !less(h[c], h[o])
    requires 0 < i < |h| && Parent(i) != c
    ensures Fine(Swapped(h, p, c), less, i)
  {
    if i == c {
      Asymmetric(less, h[p], h[c]);
    } else if i == p {
      assert Skipping(h, less, p, c);
    } else if Parent(i) != p {
      assert Fine(h, less, i);
    }
  }

  // Nothing larger below: the heap is in order.
  lemma Settled(h: seq<nat>, less: Order, p: nat)
    requires Sinking(h, less, p) && ChildrenFine(h, less, p)
    ensures Ordered(h, less)
  {
    forall i | 0 <= i < |h| ensures Fine(h, less, i) {
    }
  }

  lemma LargerChild(h: seq<nat>, less: Order, p: nat, c: nat)
    requires StrictTotal(less) && p < |h| && 0 < c < |h| && Parent(c) == p && !less(h[p], h[c])
    requires forall o :: 0 < o < |h| && Parent(o) == p ==> !less(h[c], h[o])
    ensures ChildrenFine(h, less, p)
  {
    forall i | 0 < i < |h| && Parent(i) == p ensures Fine(h, less, i) {
      NotLessTransitive(less, h[p], h[c], h[i]);
    }
  }

  // The first element is a maximum.
  lemma {:induction false} FrontMaximal(h: seq<nat>, less: Order, i: nat)
    requires StrictTotal(less) && Ordered(h, less) && i < |h|
    ensures !less(h[0], h[i])
    decreases i
  {
    if i > 0 {
      FrontMaximal(h, less, Parent(i));
      assert Fine(h, less, i);
      NotLessTransitive(less, h[0], h[Parent(i)], h[i]);
    }
  }

  // After the order changed for one element only that element is misplaced.
  lemma ChangedOrder(h: seq<nat>, old': Order, less: Order, p: nat)
    requires StrictTotal(old') && Ordered(h, old') && p < |h|
    requires forall i, j :: 0 <= i < j < |h| ==> h[i] != h[j]
    requires forall a, b :: a != h[p] && b != h[p] ==> less(a, b) == old'(a, b)
    ensures Misplaced(h, less, p)
  {
    forall i | 0 <= i < |h| && i != p && (i > 0 ==> Parent(i) != p) ensures Fine(h, less, i) {
      assert Fine(h, old', i);
    }
    forall c | 0 <= c < |h| ensures Skipping(h, less, p, c) {
      if c > 0 && Parent(c) == p && p > 0 {
        assert Fine(h, old', c) && Fine(h, old', p);
        NotLessTransitive(old', h[Parent(p)], h[p], h[c]);
      }
    }
  }

  // The array and the positions are inverse to each other.
  ghost predicate Inverse(tree: seq<nat>, pos: seq<nat>) {
    && |tree| < INVALID
    && (forall i {:trigger tree[i]} :: 0 <= i < |tree| ==> tree[i] < |pos| && pos[tree[i]] == i)
    && (forall e {:trigger pos[e]} :: 0 <= e < |pos| && pos[e] != INVALID ==> pos[e] < |tree| && tree[pos[e]] == e)
  }

  function Members(tree: seq<nat>): set<nat> {
    set e | e in tree
  }

  lemma SameMembers(a: seq<nat>, b: seq<nat>)
    requires multiset(a) == multiset(b)
    ensures Members(a) == Members(b)
  {
    forall e ensures e in a <==> e in b {
      assert e in a <==> e in multiset(a);
      assert e in b <==> e in multiset(b);
    }
  }

  lemma Different(tree: seq<nat>, pos: seq<nat>)
    requires Inverse(tree, pos)
    ensures forall i, j :: 0 <= i < j < |tree| ==> tree[i] != tree[j]
  {
  }

  class Heap {
    var tree: seq<nat>
    var pos: seq<nat>
    var less: Order                 // the order, which depends on changing scores

    ghost predicate Valid()
      reads this
    {
      StrictTotal(less) && Inverse(tree, pos) && Ordered(tree, less)
    }

    ghost function Contents(): set<nat>
      reads this
    {
      Members(tree)
    }

    constructor (less: Order)
      requires StrictTotal(less)
      ensures Valid() && Contents() == {} && this.less == less
    {
      tree, pos, this.less := [], [], less;
    }

    predicate Contains(e: nat)
      reads this
    {
      e < |pos| && pos[e] != INVALID
    }

    lemma ContainsMeaning(e: nat)
      requires Inverse(tree, pos)
      ensures Contains(e) <==> e in Contents()
    {
      if e in tree {
        var i :| 0 <= i < |tree| && tree[i] == e;
      }
    }

    // Enlarge the positions up to the element.
    method Reserve(e: nat)
      requires Inverse(tree, pos)
      modifies `pos
      ensures Inverse(tree, pos) && e < |pos|
      ensures if e < |old(pos)| then pos == old(pos) else pos == old(pos) + seq(e + 1 - |old(pos)|, _ => INVALID)
    {
      if e >= |pos| {
        pos := pos + seq(e + 1 - |pos|, _ => INVALID);
      }
    }

    // Exchange two elements and fix their positions.
    method Exchange(a: nat, b: nat)
      requires Inverse(tree, pos) && a in tree && b in tree
      modifies `tree, `pos
      ensures Inverse(tree, pos) && |pos| == |old(pos)|
      ensures a < |pos| && b < |pos| && tree == Swapped(old(tree), old(pos)[a], old(pos)[b])
      ensures pos[a] == old(pos)[b] && pos[b] == old(pos)[a]
    {
      var i, j := pos[a], pos[b];
      tree := tree[i := tree[j]][j := tree[i]];
      pos := pos[a := j][b := i];
    }

    // Bubble up an element as far as necessary.
    method Up(e: nat)
      requires StrictTotal(less) && Inverse(tree, pos) && e in tree && Misplaced(tree, less, pos[e])
      modifies `tree, `pos
      ensures Inverse(tree, pos) && multiset(tree) == multiset(old(tree)) && |pos| == |old(pos)|
      ensures e in tree && Sinking(tree, less, pos[e])
    {
      assert e < |pos| && tree[pos[e]] == e;
      while pos[e] > 0 && less(tree[Parent(pos[e])], e)
        invariant Inverse(tree, pos) && multiset(tree) == multiset(old(tree)) && |pos| == |old(pos)|
        invariant e < |pos| && pos[e] != INVALID && Misplaced(tree, less, pos[e])
        decreases pos[e]
      {
        UpOnce(e);
      }
    }

    method UpOnce(e: nat)
      requires StrictTotal(less) && Inverse(tree, pos) && e < |pos| && pos[e] != INVALID && Misplaced(tree, less, pos[e])
      requires pos[e] > 0 && less(tree[Parent(pos[e])], e)
      modifies `tree, `pos
      ensures Inverse(tree, pos) && multiset(tree) == multiset(old(tree)) && |pos| == |old(pos)|
      ensures pos[e] == Parent(old(pos)[e]) && pos[e] < |tree| && Misplaced(tree, less, pos[e]) && ChildrenFine(tree, less, pos[e])
    {
      var p := tree[Parent(pos[e])];
      assert tree[pos[e]] == e && pos[p] == Parent(pos[e]);
      UpStep(tree, less, pos[e]);
      Exchange(p, e);
    }

    // Bubble down an element as far as necessary.
    method Down(e: nat)
      requires StrictTotal(less) && Inverse(tree, pos) && e in tree && Sinking(tree, less, pos[e])
      modifies `tree, `pos
      ensures Valid() && multiset(tree) == multiset(old(tree)) && |pos| == |old(pos)|
    {
      assert e < |pos| && tree[pos[e]] == e;
      while 2 * pos[e] + 1 < |tree|
        invariant Inverse(tree, pos) && multiset(tree) == multiset(old(tree)) && |pos| == |old(pos)|
        invariant e < |pos| && pos[e] != INVALID && Sinking(tree, less, pos[e])
        decreases |tree| - pos[e]
      {
        var k := Child(pos[e]);
        var c := tree[k];
        if !less(e, c) {
          LargerChild(tree, less, pos[e], k);
          Settled(tree, less, pos[e]);
          return;
        }
        DownStep(tree, less, pos[e], k);
        Exchange(e, c);
      }
      Settled(tree, less, pos[e]);
    }

    // The position of the larger child.
    method Child(p: nat) returns (k: nat)
      requires StrictTotal(less) && 2 * p + 1 < |tree|
      ensures 0 < k < |tree| && Parent(k) == p
      ensures forall o :: 0 < o < |tree| && Parent(o) == p ==> !less(tree[k], tree[o])
    {
      k := 2 * p + 1;
      if 2 * p + 2 < |tree| && less(tree[k], tree[2 * p + 2]) {
        k := 2 * p + 2;
      }
      forall o | 0 < o < |tree| && Parent(o) == p ensures !less(tree[k], tree[o]) {
        assert o == 2 * p + 1 || o == 2 * p + 2;
        assert !(less(tree[2 * p + 1], tree[o]) && less(tree[o], tree[2 * p + 1])) by {
          assert !less(tree[o], tree[o]);
        }
      }
    }

    // Add a new element.
    method PushBack(e: nat)
      requires Valid() && !Contains(e) && e < INVALID && |tree| + 1 < INVALID
      modifies `tree, `pos
      ensures Valid() && Contents() == old(Contents()) + {e}
    {
      ContainsMeaning(e);
      Reserve(e);
      var i := |tree|;
      AppendedMembers(tree, e);
      AppendedMisplaced(tree, less, e);
      tree := tree + [e];
      pos := pos[e := i];
      ghost var added := tree;
      assert tree[i] == e;
      Up(e);
      Down(e);
      SameMembers(tree, added);
    }

    // A maximal element.
    method Front() returns (e: nat)
      requires Valid() && tree != []
      ensures e == tree[0] && e in Contents() && forall x :: x in Contents() ==> !less(e, x)
    {
      e := tree[0];
      forall x | x in Contents() ensures !less(e, x) {
        var i :| 0 <= i < |tree| && tree[i] == x;
        FrontMaximal(tree, less, i);
      }
    }

    // Remove the maximum.
    method PopFront() returns (res: nat)
      requires Valid() && tree != []
      modifies `tree, `pos
      ensures Valid() && res in old(Contents()) && Contents() == old(Contents()) - {res}
      ensures forall x :: x in old(Contents()) ==> !less(res, x)
    {
      res := Front();
      var last := tree[|tree|-1];
      assert pos[tree[0]] == 0 && pos[last] == |tree| - 1;
      Different(tree, pos);
      assert |tree| == 1 ==> Swapped(tree, 0, 0) == tree;
      if |tree| > 1 {
        Exchange(res, last);
      }
      PoppedMembers(old(tree), tree, res);
      PoppedInverse(tree, pos, res);
      pos := pos[res := INVALID];
      tree := tree[..|tree|-1];
      ghost var popped := tree;
      if |tree| > 1 {
        PoppedSinking(old(tree), tree, less);
        assert tree[0] == last;
        Down(last);
      }
      SameMembers(tree, popped);
    }

    // The order changed for one element.
    method Update(e: nat, ghost before: Order)
      requires StrictTotal(less) && StrictTotal(before) && Inverse(tree, pos) && Ordered(tree, before) && Contains(e)
      requires forall a, b :: a != e && b != e ==> less(a, b) == before(a, b)
      modifies `tree, `pos
      ensures Valid() && Contents() == old(Contents())
    {
      Different(tree, pos);
      ChangedOrder(tree, before, less, pos[e]);
      ghost var added := tree;
      assert tree[pos[e]] == e;
      Up(e);
      Down(e);
      SameMembers(tree, added);
    }
  }

  lemma AppendedMembers(tree: seq<nat>, e: nat)
    ensures Members(tree + [e]) == Members(tree) + {e}
  {
    assert forall x :: x in tree + [e] <==> x in tree || x == e;
  }

  lemma AppendedMisplaced(tree: seq<nat>, less: Order, e: nat)
    requires Ordered(tree, less)
    ensures Misplaced(tree + [e], less, |tree|)
  {
    var h := tree + [e];
    forall i | 0 <= i < |h| && i != |tree| ensures Fine(h, less, i) {
      assert Fine(tree, less, i);
    }
  }

  lemma PoppedMembers(before: seq<nat>, tree: seq<nat>, res: nat)
    requires |before| == |tree| > 0 && before[0] == res && tree == Swapped(before, 0, |before| - 1)
    requires forall i, j :: 0 <= i < j < |before| ==> before[i] != before[j]
    ensures Members(tree[..|tree|-1]) == Members(before) - {res}
  {
    var n := |tree| - 1;
    assert tree[n] == res && tree == tree[..n] + [res];
    SameMembers(tree, before);
    forall x ensures x in tree[..n] <==> x in before && x != res {
      assert x in tree <==> x in Members(tree);
      assert x in before <==> x in Members(before);
      if x in tree[..n] {
        var i :| 0 <= i < n && tree[i] == x;
        assert tree[i] == if i == 0 then before[n] else before[i];
      }
    }
  }

  lemma PoppedInverse(tree: seq<nat>, pos: seq<nat>, res: nat)
    requires Inverse(tree, pos) && tree != [] && tree[|tree|-1] == res
    ensures res < |pos| && Inverse(tree[..|tree|-1], pos[res := INVALID])
  {
    var n := |tree| - 1;
    assert pos[tree[n]] == n;
  }

  lemma PoppedSinking(before: seq<nat>, tree: seq<nat>, less: Order)
    requires Ordered(before, less) && |before| > 2 && tree == Swapped(before, 0, |before| - 1)[..|before|-1]
    ensures Sinking(tree, less, 0)
  {
    forall i | 0 <= i < |tree| && (i > 0 ==> Parent(i) != 0) ensures Fine(tree, less, i) {
      if i > 0 {
        assert Fine(before, less, i);
        assert tree[i] == before[i] && tree[Parent(i)] == before[Parent(i)];
      }
    }
  }
}
