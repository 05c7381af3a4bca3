/**
  The commit operations that go through the object database: looking a
  commit up by identifier, following the n-th parent, and creating a new
  commit object. The database is a map from identifier to stored object;
  the content hash that names a new object is a parameter.
*/
module Repository {
  import opened Wrappers
  import opened ObjectId
  import opened Signatures
  import opened Commits

  /** Reads and parses the commit stored under `id`; NotFound when there is no commit under that identifier. */
  function Lookup(store: ObjectStore, id: Oid, mode: Mode, maxOffset: OffsetLimit): (r: Result<Commit, Error>)
    ensures r.Success? ==> ExistsAs(store, id, CommitKind)
    ensures r == Failure(NotFound) <==> !ExistsAs(store, id, CommitKind)
  {
    if !ExistsAs(store, id, CommitKind) then Failure(NotFound)
    else ParseCommit(store[id].data, mode, store, maxOffset)
  }

  /**
    The n-th parent, looked up and parsed afresh on every call. It fails
    with NotFound exactly when the index is at or past the parent count,
    or when no commit is stored under that parent's identifier.
  */
  function Parent(c: Commit, n: nat, store: ObjectStore, mode: Mode, maxOffset: OffsetLimit): (r: Result<Commit, Error>)
    ensures n >= ParentCount(c) ==> r == Failure(NotFound)
    ensures r == Failure(NotFound) <==> n >= ParentCount(c) || !ExistsAs(store, c.parents[n], CommitKind)
    ensures r.Success? ==> n < ParentCount(c) && ExistsAs(store, c.parents[n], CommitKind)
  {
    if n >= |c.parents| then Failure(NotFound)
    else Lookup(store, c.parents[n], mode, maxOffset)
  }

  /**
    Writes a new commit: its canonical text is stored as a commit object
    under the identifier `hash` gives for that text, which is returned
    with the new database. No other object changes.
  */
  function CreateCommit(store: ObjectStore, hash: string -> Oid, tree: Oid, parents: seq<Oid>, author: Signature, committer: Signature, message: string): (r: (Oid, ObjectStore))
    ensures var data := SerializeCommit(Commit(tree, parents, author, committer, message));
      r.0 == hash(data) && r.0 in r.1 && r.1[r.0] == RawObject(CommitKind, data)
    ensures r.1.Keys == store.Keys + {r.0}
    ensures forall id | id in store && id != r.0 :: r.1[id] == store[id]
  {
    var data := SerializeCommit(Commit(tree, parents, author, committer, message));
    var id := hash(data);
    (id, store[id := RawObject(CommitKind, data)])
  }

  /**
    Create, then look up what was created: every field comes back as it
    was given, in the default mode, and in strict mode when the tree and
    the parents exist in the database with the right kinds.
  */
  lemma {:induction false} CreateThenLookup(store: ObjectStore, hash: string -> Oid, tree: Oid, parents: seq<Oid>, author: Signature, committer: Signature, message: string, mode: Mode, maxOffset: OffsetLimit)
    requires WellFormed(author, maxOffset) && WellFormed(committer, maxOffset)
    requires var (_, written) := CreateCommit(store, hash, tree, parents, author, committer, message);
      Admits(mode, written, tree, TreeKind) && forall i | 0 <= i < |parents| :: Admits(mode, written, parents[i], CommitKind)
    ensures var (id, written) := CreateCommit(store, hash, tree, parents, author, committer, message);
      Lookup(written, id, mode, maxOffset) == Success(Commit(tree, parents, author, committer, message))
  {
    var c := Commit(tree, parents, author, committer, message);
    var (id, written) := CreateCommit(store, hash, tree, parents, author, committer, message);
    assert written[id].data == SerializeCommit(c);
    CommitRoundTrip(c, mode, written, maxOffset);
  }

  /**
    A parent stored as the canonical text of a commit is read back as that
    commit, in the default mode, and in strict mode when the objects it
    names exist with the right kinds.
  */
  lemma {:induction false} ParentRoundTrip(c: Commit, n: nat, p: Commit, store: ObjectStore, mode: Mode, maxOffset: OffsetLimit)
    requires n < ParentCount(c) && c.parents[n] in store && store[c.parents[n]] == RawObject(CommitKind, SerializeCommit(p))
    requires WellFormed(p.author, maxOffset) && WellFormed(p.committer, maxOffset)
    requires Admits(mode, store, p.tree, TreeKind) && forall i | 0 <= i < |p.parents| :: Admits(mode, store, p.parents[i], CommitKind)
    ensures Parent(c, n, store, mode, maxOffset) == Success(p)
  {
    CommitRoundTrip(p, mode, store, maxOffset);
  }
}
