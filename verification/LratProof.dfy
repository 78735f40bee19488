// The proof producer with an LRAT builder and an LRAT checker connected to it: every chain that
// the builder finds is accepted by the checker, over all runs of additions and deletions.
module LratProof {
  import opened Cnf
  import opened LratChains
  import B = LratBuilder
  import C = LratChecker
  import LC = LratClauses
  import LS = LratSpec
  import ST = LratState

  // The table of the checker holds exactly the live clauses of the builder.
  ghost predicate InStep(nonces: LS.Nonces, t: LS.Table, db: Db) {
    && Mirrored(nonces, t, db) && C.Once(t)
    && forall id {:trigger LS.Lookup(nonces, t, id)} :: LC.IdFree(db, id) ==> LS.Lookup(nonces, t, id).None?
  }

  lemma FreeInTable(nonces: LS.Nonces, t: LS.Table, db: Db, id: LS.Id)
    requires InStep(nonces, t, db) && LS.Hashed(nonces, t) && LC.IdFree(db, id)
    ensures LS.Lookup(nonces, t, id).None?
    ensures forall x: LS.LClause {:trigger LS.Contains(t, x)} :: LS.Contains(t, x) ==> x.id != id
  {
    LS.LookupExact(nonces, t, id);
  }

  lemma AddedInStep(nonces: LS.Nonces, t: LS.Table, t': LS.Table, db: Db, db': Db, id: LS.Id, c: seq<Lit>)
    requires InStep(nonces, t, db) && LS.Hashed(nonces, t) && LC.IdFree(db, id)
    requires LC.Extended(db, id, c, db')
    requires C.Put(nonces, t, t', LS.LClause(id, LS.ComputeHash(nonces, id), c, LS.TautologicalSeq(c)))
    ensures InStep(nonces, t', db')
  {
    FreeInTable(nonces, t, db, id);
    forall k | 0 <= k < |db'| && !db'[k].garbage ensures MirroredClause(nonces, t', db'[k]) {
      if k < |db| {
        assert ST.Reordered(db[k], db'[..|db|][k]) && MirroredClause(nonces, t, db[k]);
        assert LS.Lookup(nonces, t', db[k].id) == LS.Lookup(nonces, t, db[k].id);
      } else {
        assert LS.Lookup(nonces, t', id).Some?;
      }
    }
    forall i | LC.IdFree(db', i) ensures LS.Lookup(nonces, t', i).None? {
      assert db'[|db|].id != i;
      forall k | 0 <= k < |db| && !db[k].garbage ensures db[k].id != i {
        assert ST.Reordered(db[k], db'[..|db|][k]) && db'[k].id != i;
      }
      assert LC.IdFree(db, i);
    }
  }

  lemma DeletedInStep(nonces: LS.Nonces, t: LS.Table, t': LS.Table, db: Db, db': Db, k: nat)
    requires InStep(nonces, t, db) && UniqueIds(db) && k < |db| && !db[k].garbage
    requires ST.SameClauses(LC.Removed(db, k), db') && C.Taken(nonces, t, t', db[k].id)
    ensures InStep(nonces, t', db')
  {
    forall j | 0 <= j < |db'| && !db'[j].garbage ensures MirroredClause(nonces, t', db'[j]) {
      assert ST.Reordered(LC.Removed(db, k)[j], db'[j]);
      assert j != k && !db[j].garbage;
      DifferentIds(db, j, k);
      assert MirroredClause(nonces, t, db[j]);
      assert LS.Lookup(nonces, t', db[j].id) == LS.Lookup(nonces, t, db[j].id);
    }
    forall i | LC.IdFree(db', i) ensures LS.Lookup(nonces, t', i).None? {
      if i != db[k].id {
        forall j | 0 <= j < |db| && !db[j].garbage ensures db[j].id != i {
          assert ST.Reordered(LC.Removed(db, k)[j], db'[j]);
          assert j != k ==> db'[j].id != i;
        }
        assert LC.IdFree(db, i);
      }
    }
  }

  // An accepted chain is not empty unless the clause is tautological, and then neither is the table.
  lemma AcceptedTable(nonces: LS.Nonces, t: LS.Table, c: seq<Lit>, chain: seq<LS.Id>)
    requires LS.Accepts(nonces, t, c, chain) && !LS.TautologicalSeq(c)
    ensures t.size > 0
  {
  }

  class Proof {
    const builder: B.LratBuilder
    const checker: C.LratChecker

    ghost predicate Valid()
      reads this, builder, checker
    {
      && builder.Valid() && checker.Valid()
      && InStep(checker.nonces, checker.Tab(), builder.db)
    }

    constructor (nonces: LS.Nonces)
      ensures Valid() && fresh(builder) && fresh(checker) && checker.originals == iset{} && checker.currentId == 0
    {
      builder := new B.LratBuilder();
      checker := new C.LratChecker(nonces, true);
      new;
      assert forall h: nat :: LS.Bucket(checker.Tab(), h) == [];
    }

    method AddOriginalClause(id: LS.Id, c: seq<Lit>)
      requires Valid() && id > 0 && 0 !in c && LC.IdFree(builder.db, id)
      modifies builder, checker
      ensures Valid()
      ensures checker.originals == old(checker.originals) + iset{LitsOf(c)}
    {
      ghost var nonces, t, db := checker.nonces, checker.Tab(), builder.db;
      assert Look(0);
      FreeInTable(nonces, t, db, id);
      builder.AddOriginalClause(id, c);
      var ok := checker.AddOriginalClause(id, c, false);
      AddedInStep(nonces, t, checker.Tab(), db, builder.db, id, c);
    }

    // Whenever a chain is found, the checker accepts it, and the clause is entailed.
    method AddDerivedClause(id: LS.Id, c: seq<Lit>) returns (ok: bool, chain: seq<LS.Id>)
      requires Valid() && id > 0 && 0 !in c && LC.IdFree(builder.db, id) && id == checker.currentId + 1
      modifies builder, checker
      ensures ok ==> Valid() && Entails(checker.originals, LitsOf(c)) && checker.currentId == id
      ensures checker.originals == old(checker.originals)
    {
      ghost var nonces, t, db := checker.nonces, checker.Tab(), builder.db;
      assert Look(0);
      FreeInTable(nonces, t, db, id);
      ok, chain := builder.AddClauseGetProof(id, c);
      if ok {
        assert LS.Accepts(nonces, t, c, chain);
        if !LS.TautologicalSeq(c) {
          AcceptedTable(nonces, t, c, chain);
        }
        var accepted := checker.AddDerivedClause(id, c, chain, true);
        assert accepted;
        AddedInStep(nonces, t, checker.Tab(), db, builder.db, id, c);
      }
    }

    // Both delete the clause; the literals have to cover it.
    method DeleteClause(id: LS.Id, c: seq<Lit>) returns (ok: bool)
      requires Valid()
      modifies builder, checker
      ensures ok ==> Valid() && checker.originals == old(checker.originals)
      ensures ok <==> exists k: nat :: k < |old(builder.db)| && Covered(old(builder.db)[k], id, c)
    {
      ghost var nonces, t, db := checker.nonces, checker.Tab(), builder.db;
      BuilderUnique();
      ok := builder.DeleteClause(id, c);
      if !ok {
        assert forall k: nat :: k < |db| ==> !Covered(db[k], id, c);
        return;
      }
      ghost var k: nat :| k < |db| && db[k].id == id && !db[k].garbage && ST.SameClauses(LC.Removed(db, k), builder.db);
      assert MirroredClause(nonces, t, db[k]);
      ok := checker.DeleteClause(id, c);
      if ok {
        DeletedInStep(nonces, t, checker.Tab(), db, builder.db, k);
        assert Covered(db[k], id, c);
      } else {
        CoveredUnique(db, k, id, c);
      }
    }

    lemma BuilderUnique()
      requires Valid()
      ensures UniqueIds(builder.db)
    {
      LC.SaneFacts(builder.Snap());
    }
  }

  // A live clause with the identifier, all of whose literals are given.
  ghost predicate Covered(d: BClause, id: LS.Id, c: seq<Lit>) {
    !d.garbage && d.id == id && LitsOf(d.lits) <= LitsOf(c)
  }

  lemma CoveredUnique(db: Db, k: nat, id: LS.Id, c: seq<Lit>)
    requires UniqueIds(db) && k < |db| && !db[k].garbage && db[k].id == id && !(LitsOf(db[k].lits) <= LitsOf(c))
    ensures forall j: nat :: j < |db| ==> !Covered(db[j], id, c)
  {
    forall j: nat | j < |db| && j != k && !db[j].garbage ensures db[j].id != id {
      DifferentIds(db, j, k);
    }
  }
}
