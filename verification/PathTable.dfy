/** The hash table with the server's own keys: paths, compared by su_string_compare and hashed
    by hu_hash_string. Because a path compares equal to its prefixes, this is where it is settled
    for which sets of paths the table can be trusted. */
module PathTable {
  import opened Words
  import opened Paths
  import opened Chains

  function PathCompare(a: Path, b: Path): int { Compare(a, b) }

  function PathHash(p: Path): nat { Hash(p) }

  // No two different paths of the same bucket are such that one is a prefix of the other.
  ghost predicate PrefixFree(n: nat, S: iset<Path>)
    requires n > 0
  {
    forall p, q | p in S && q in S && Bucket(PathHash, n, p) == Bucket(PathHash, n, q) :: Apart(p, q)
  }

  lemma PrefixFreeIsOrdered(n: nat, S: iset<Path>)
    requires n > 0 && PrefixFree(n, S)
    ensures BucketsOrdered(PathHash, PathCompare, n, S)
  {
    forall b | 0 <= b < n ensures Ordered(PathCompare, Share(PathHash, n, S, b)) {
      var T := Share(PathHash, n, S, b);
      forall p, q | p in T && q in T
        ensures PathCompare(p, q) == 0 <==> p == q
        ensures PathCompare(p, q) < 0 <==> PathCompare(q, p) > 0
      {
        assert Apart(p, q);
        CompareZero(p, q);
        CompareAntisymmetric(p, q);
      }
      forall p, q, r | p in T && q in T && r in T && PathCompare(p, q) <= 0 && PathCompare(q, r) <= 0
        ensures PathCompare(p, r) <= 0
      {
        CompareTransitive(p, q, r);
      }
    }
  }

  // Two related paths that share a bucket are enough to get a wrong answer: store one, ask for the other.
  lemma RelatedPathsConfuse<V(!new)>(n: nat, S: iset<Path>, p: Path, q: Path, v: V)
    requires n > 0 && p in S && q in S && Bucket(PathHash, n, p) == Bucket(PathHash, n, q) && !Apart(p, q)
    ensures OpsIn([Put(p, v)], S) && !Faithful(PathHash, PathCompare, n, [Put(p, v)], S)
  {
    var ops := [Put(p, v)];
    assert ops[..0] == [];
    CompareZero(q, p);
    var t := Replay(PathHash, PathCompare, n, ops);
    var b := Bucket(PathHash, n, p);
    var none: Chain<Path, V> := EmptyTable<Path, V>(n)[b];
    assert Replay(PathHash, PathCompare, n, ops[..0]) == EmptyTable<Path, V>(n);
    assert t[b] == InsertItem(PathCompare, none, p, v) == [Item(p, v)];
    assert Get(PathHash, PathCompare, t, q) == Some(v);
    assert ReplayKey(ops, q) == [];
  }

  /** A set of paths can be used as keys, in every order of insertions and removals, exactly when
      no path of the set is a prefix of another one of its bucket. */
  lemma TableTrustedIffPrefixFree<V(!new)>(n: nat, S: iset<Path>, v: V)
    requires n > 0
    ensures (forall ops: seq<Op<Path, V>> | OpsIn(ops, S) :: Faithful(PathHash, PathCompare, n, ops, S)) <==> PrefixFree(n, S)
  {
    if PrefixFree(n, S) {
      PrefixFreeIsOrdered(n, S);
      forall ops: seq<Op<Path, V>> | OpsIn(ops, S) ensures Faithful(PathHash, PathCompare, n, ops, S) {
        HistoryIsFaithful(PathHash, PathCompare, n, ops, S);
      }
    } else {
      var p, q :| p in S && q in S && Bucket(PathHash, n, p) == Bucket(PathHash, n, q) && !Apart(p, q);
      RelatedPathsConfuse(n, S, p, q, v);
    }
  }
}
