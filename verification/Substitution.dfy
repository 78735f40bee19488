// Replacing literals by the representatives of their equivalence classes, and why the two
// binary clauses pushed for each substituted variable reconstruct its value.
module Substitution {
  import opened Cnf
  import opened Extension
  import opened Reconstruction

  // A substituted variable with its representative and the identifiers of the two clauses.
  datatype Equivalence = Equivalence(idx: Lit, other: Lit, id1: nat, id2: nat)

  function Pushed(e: Equivalence): seq<Entry> {
    [Entry([-e.idx], [-e.idx, e.other], e.id1), Entry([e.idx], [e.idx, -e.other], e.id2)]
  }

  function PushedAll(es: seq<Equivalence>): seq<Entry> {
    if es == [] then [] else PushedAll(es[..|es|-1]) + Pushed(es[|es|-1])
  }

  // Representatives are not substituted themselves, and no variable is substituted twice.
  ghost predicate Flat(es: seq<Equivalence>) {
    && (forall i :: 0 <= i < |es| ==> es[i].idx > 0 && es[i].other != 0)
    && (forall i, j :: 0 <= i < |es| && 0 <= j < |es| ==> Var(es[i].other) != es[j].idx)
    && (forall i, j :: 0 <= i < j < |es| ==> es[i].idx != es[j].idx)
  }

  ghost predicate Agree(m: Model, l: Lit, m': Model, k: Lit) {
    Holds(m', k) <==> Holds(m, l)
  }

  // The backward pass over both clauses gives the variable the value of its representative.
  lemma PairRepairs(m: Model, e: Equivalence, k: Lit)
    requires e.idx > 0 && e.other != 0 && Var(e.other) != e.idx && k != 0
    ensures var m' := Extend(m, Pushed(e));
            && (Holds(m', e.idx) <==> Holds(m, e.other))
            && (Var(k) != e.idx ==> (Holds(m', k) <==> Holds(m, k)))
  {
    var e1, e2 := Pushed(e)[0], Pushed(e)[1];
    assert Pushed(e) == [e1] + [e2];
    ExtendConcat(m, [e1], [e2]);
    SingleEntry(m, e2);
    var m1 := Repair(m, e2);
    SingleEntry(m1, e1);
    PairFirst(m, e);
    PairSecond(m1, e);
  }

  lemma PairFirst(m: Model, e: Equivalence)
    requires e.idx > 0 && e.other != 0 && Var(e.other) != e.idx
    ensures var m1 := Repair(m, Pushed(e)[1]);
            && m1 == if Holds(m, e.other) then Assign(m, e.idx) else m
  {
    var e2 := Pushed(e)[1];
    AssignSingle(m, e.idx);
    assert LitsOf(e2.clause) == {e.idx, -e.other};
    if Holds(m, e.idx) {
      assert e.idx in LitsOf(e2.clause);
      assert Assign(m, e.idx) == m;
    } else if !Holds(m, e.other) {
      assert -e.other in LitsOf(e2.clause);
    }
  }

  lemma PairSecond(m: Model, e: Equivalence)
    requires e.idx > 0 && e.other != 0 && Var(e.other) != e.idx
    ensures var m1 := Repair(m, Pushed(e)[0]);
            && m1 == if Holds(m, e.other) then m else Assign(m, -e.idx)
  {
    var e1 := Pushed(e)[0];
    AssignSingle(m, -e.idx);
    assert LitsOf(e1.clause) == {-e.idx, e.other};
    if Holds(m, e.other) {
      assert e.other in LitsOf(e1.clause);
    } else if Holds(m, -e.idx) {
      assert -e.idx in LitsOf(e1.clause);
      assert Assign(m, -e.idx) == m;
    }
  }

  ghost predicate Substituted(es: seq<Equivalence>, v: int) {
    exists i :: 0 <= i < |es| && es[i].idx == v
  }

  lemma {:induction false} PassRepairs(m: Model, es: seq<Equivalence>, k: Lit)
    requires Flat(es) && k != 0
    ensures var m' := Extend(m, PushedAll(es));
            && (forall i :: 0 <= i < |es| ==> (Holds(m', es[i].idx) <==> Holds(m, es[i].other)))
            && (!Substituted(es, Var(k)) ==> (Holds(m', k) <==> Holds(m, k)))
    decreases |es|
  {
    if es != [] {
      var n := |es| - 1;
      var e, rest := es[n], es[..n];
      var m1 := Extend(m, Pushed(e));
      ExtendConcat(m, PushedAll(rest), Pushed(e));
      var m' := Extend(m1, PushedAll(rest));
      assert m' == Extend(m, PushedAll(es));
      forall i | 0 <= i < |es| ensures Holds(m', es[i].idx) <==> Holds(m, es[i].other) {
        if i < n {
          assert rest[i] == es[i];
          PassRepairs(m1, rest, k);
          PairRepairs(m, e, es[i].other);
        } else {
          assert !Substituted(rest, e.idx);
          PassRepairs(m1, rest, e.idx);
          PairRepairs(m, e, k);
        }
      }
      if !Substituted(es, Var(k)) {
        assert es[n].idx == e.idx;
        assert forall i :: 0 <= i < n ==> rest[i] == es[i];
        PassRepairs(m1, rest, k);
        PairRepairs(m, e, k);
      }
    } else {
      assert PushedAll(es) == [];
    }
  }

  // ----- The literal map.

  ghost predicate CommutesAt(reprs: map<Lit, Lit>, l: Lit) {
    l != 0 && l in reprs && -l in reprs && reprs[-l] == -reprs[l]
  }

  // 'reprs' is a map on literals that commutes with negation, is idempotent, and differs from
  // the identity exactly on the variables in 'es'.
  ghost predicate Describes(es: seq<Equivalence>, reprs: map<Lit, Lit>) {
    && Flat(es)
    && (forall i :: 0 <= i < |es| ==> es[i].idx in reprs && reprs[es[i].idx] == es[i].other)
    && (forall l {:trigger CommutesAt(reprs, l)} :: l in reprs ==> CommutesAt(reprs, l))
    && (forall l :: l in reprs && !Substituted(es, Var(l)) ==> reprs[l] == l)
  }

  function Image(reprs: map<Lit, Lit>, l: Lit): Lit {
    if l in reprs then reprs[l] else l
  }

  function ImageClause(reprs: map<Lit, Lit>, c: Clause): Clause {
    set l | l in c :: Image(reprs, l)
  }

  lemma PassFollowsImage(m: Model, es: seq<Equivalence>, reprs: map<Lit, Lit>, l: Lit)
    requires Describes(es, reprs) && l != 0
    ensures Holds(Extend(m, PushedAll(es)), l) <==> Holds(m, Image(reprs, l))
  {
    PassRepairs(m, es, l);
    ImageValue(m, Extend(m, PushedAll(es)), es, reprs, l);
  }

  lemma ImageValue(m: Model, m': Model, es: seq<Equivalence>, reprs: map<Lit, Lit>, l: Lit)
    requires Describes(es, reprs) && l != 0
    requires forall i :: 0 <= i < |es| ==> (Holds(m', es[i].idx) <==> Holds(m, es[i].other))
    requires !Substituted(es, Var(l)) ==> (Holds(m', l) <==> Holds(m, l))
    ensures Holds(m', l) <==> Holds(m, Image(reprs, l))
  {
    if Substituted(es, Var(l)) {
      var i :| 0 <= i < |es| && es[i].idx == Var(l);
      assert CommutesAt(reprs, es[i].idx);
      assert l == es[i].idx || (l == -es[i].idx && reprs[l] == -es[i].other);
    }
  }

  // A model of the images is turned into a model of the original clauses.
  lemma SubstitutionReconstructs(f: Formula, g: Formula, es: seq<Equivalence>, reprs: map<Lit, Lit>)
    requires Describes(es, reprs)
    requires forall c: Clause :: c in f ==> 0 !in c && Entails(g, ImageClause(reprs, c))
    ensures Reconstructs(g, PushedAll(es), f)
  {
    forall m: Model | Models(m, g) ensures Models(Extend(m, PushedAll(es)), f) {
      forall c: Clause | c in f ensures Sat(Extend(m, PushedAll(es)), c) {
        assert Sat(m, ImageClause(reprs, c));
        var q :| q in ImageClause(reprs, c) && Holds(m, q);
        var l :| l in c && Image(reprs, l) == q;
        PassFollowsImage(m, es, reprs, l);
      }
    }
  }

  // The image of a clause follows from the clause and the equivalences.
  ghost predicate EquivalencesHold(f: Formula, reprs: map<Lit, Lit>) {
    forall l :: l in reprs ==> Entails(f, {-l, reprs[l]})
  }

  lemma ImageEntailed(f: Formula, reprs: map<Lit, Lit>, c: Clause)
    requires EquivalencesHold(f, reprs) && Entails(f, c) && 0 !in c
    ensures Entails(f, ImageClause(reprs, c))
  {
    forall m: Model | Models(m, f) ensures Sat(m, ImageClause(reprs, c)) {
      var l :| l in c && Holds(m, l);
      if l in reprs {
        assert Sat(m, {-l, reprs[l]});
      }
      assert Image(reprs, l) in ImageClause(reprs, c);
    }
  }
}
