/**
 * The resource-access registry (`Dependencies` in src/dispatch.rs):
 * per-task read sets, write sets and explicit dependency lists, plus the
 * reverse indices from a resource id to the tasks that read it and, apart,
 * to the tasks that write it. It is append-only.
 */
module Registry {
  import opened Indexing

  /** `m` is the reverse index of `rows`: each resource maps to Occurrences(rows, r),
      and a resource is a key only when some row mentions it. */
  ghost predicate IsReverseIndex<R(!new)>(m: map<R, seq<nat>>, rows: seq<seq<R>>)
  {
    && (forall r :: Lookup(m, r) == Occurrences(rows, r))
    && (forall r :: r in m ==> m[r] != [])
  }

  class Dependencies<R(==, !new)> {
    var dependencies: seq<seq<nat>>
    var revReads: map<R, seq<nat>>
    var revWrites: map<R, seq<nat>>
    var readSets: seq<seq<R>>
    var writeSets: seq<seq<R>>

    /** One row per registered task in all three vectors; both reverse indices agree with the rows. */
    ghost predicate Valid()
      reads this
    {
      && |dependencies| == |readSets| == |writeSets|
      && IsReverseIndex(revReads, readSets)
      && IsReverseIndex(revWrites, writeSets)
    }

    /** The derived `Default`: everything empty. */
    constructor ()
      ensures Valid()
      ensures dependencies == [] && readSets == [] && writeSets == []
      ensures revReads == map[] && revWrites == map[]
    {
      dependencies, readSets, writeSets := [], [], [];
      revReads, revWrites := map[], map[];
    }

    /** A registry holding the same rows and indices as `source`, as a separate object. */
    constructor Copy(source: Dependencies<R>)
      ensures dependencies == source.dependencies && readSets == source.readSets && writeSets == source.writeSets
      ensures revReads == source.revReads && revWrites == source.revWrites
      ensures source.Valid() ==> Valid()
    {
      dependencies, readSets, writeSets := source.dependencies, source.readSets, source.writeSets;
      revReads, revWrites := source.revReads, source.revWrites;
    }

    /** One of the two loops of `add`: `entry(r).or_insert(Vec::new()).push(id)` for each r in order. */
    static method PushAll(m: map<R, seq<nat>>, keys: seq<R>, id: nat) returns (m': map<R, seq<nat>>)
      ensures m' == PushedAll(m, keys, id)
      ensures forall r :: Lookup(m', r) == Lookup(m, r) + Repeat(id, multiset(keys)[r])
      ensures forall r :: r in m' <==> r in m || r in keys
    {
      m' := m;
      var k := 0;
      while k < |keys|
        invariant 0 <= k <= |keys|
        invariant m' == PushedAll(m, keys[..k], id)
      {
        var key := keys[k];
        m' := m'[key := Lookup(m', key) + [id]];
        assert keys[..k + 1][..k] == keys[..k];
        k := k + 1;
      }
      assert keys[..k] == keys;
      forall r ensures Lookup(m', r) == Lookup(m, r) + Repeat(id, multiset(keys)[r]) && (r in m' <==> r in m || r in keys) {
        PushedAllLookup(m, keys, id, r);
      }
    }

    /** Registers task `id`: its read set, write set and resolved dependency ids. */
    method Add(id: nat, rs: seq<R>, ws: seq<R>, deps: seq<nat>)
      modifies this
      ensures dependencies == old(dependencies) + [deps]
      ensures readSets == old(readSets) + [rs]
      ensures writeSets == old(writeSets) + [ws]
      ensures revReads == PushedAll(old(revReads), rs, id)
      ensures revWrites == PushedAll(old(revWrites), ws, id)
      ensures old(Valid()) && id == old(|readSets|) ==> Valid()
    {
      ghost var reads0, writes0 := revReads, revWrites;
      revReads := PushAll(revReads, rs, id);
      revWrites := PushAll(revWrites, ws, id);
      readSets := readSets + [rs];
      writeSets := writeSets + [ws];
      dependencies := dependencies + [deps];
      if old(Valid()) && id == old(|readSets|) {
        ReverseIndexStep(reads0, old(readSets), rs, revReads);
        ReverseIndexStep(writes0, old(writeSets), ws, revWrites);
      }
    }
  }

  /** The reverse index after pushing `id` under each key of `keys`, in order. */
  function PushedAll<R>(m: map<R, seq<nat>>, keys: seq<R>, id: nat): map<R, seq<nat>>
  {
    if |keys| == 0 then m
    else
      var n := |keys| - 1;
      var before := PushedAll(m, keys[..n], id);
      before[keys[n] := Lookup(before, keys[n]) + [id]]
  }

  /** Pushing `id` under each key appends one copy of id per occurrence of the key, creates
      a list exactly for keys seen for the first time, and leaves every other list alone. */
  lemma {:induction false} PushedAllLookup<R>(m: map<R, seq<nat>>, keys: seq<R>, id: nat, r: R)
    ensures Lookup(PushedAll(m, keys, id), r) == Lookup(m, r) + Repeat(id, multiset(keys)[r])
    ensures r in PushedAll(m, keys, id) <==> r in m || r in keys
  {
    if |keys| > 0 {
      var n := |keys| - 1;
      var prefix, key := keys[..n], keys[n];
      assert keys == prefix + [key];
      PushedAllLookup(m, prefix, id, r);
      var before := PushedAll(m, prefix, id);
      if r == key {
        assert Lookup(PushedAll(m, keys, id), r) == Lookup(before, key) + [id];
        OneMoreMention(prefix, key, id);
      } else {
        assert Lookup(PushedAll(m, keys, id), r) == Lookup(before, r);
        OtherMention(prefix, key, id, r);
      }
      assert r in keys <==> r in prefix || r == key;
    }
  }

  /** Appending row |rows| with PushAll keeps the reverse-index relation. */
  lemma ReverseIndexStep<R(!new)>(m: map<R, seq<nat>>, rows: seq<seq<R>>, row: seq<R>, m': map<R, seq<nat>>)
    requires IsReverseIndex(m, rows)
    requires forall r :: Lookup(m', r) == Lookup(m, r) + Repeat(|rows|, multiset(row)[r])
    requires forall r :: r in m' <==> r in m || r in row
    ensures IsReverseIndex(m', rows + [row])
  {
    forall r ensures Lookup(m', r) == Occurrences(rows + [row], r) {
      OccurrencesAppend(rows, row, r);
    }
    forall r | r in m' ensures m'[r] != [] {
      if r !in m {
        assert multiset(row)[r] > 0;
        assert |Lookup(m', r)| > 0;
      } else {
        assert |Lookup(m, r)| > 0;
      }
    }
  }

  /** The reverse indices agree with the footprints: i is listed under r iff task i reads (writes) r. */
  lemma ReverseIndexAgrees<R(!new)>(d: Dependencies<R>, r: R, i: int)
    requires d.Valid()
    ensures i in Lookup(d.revReads, r) <==> 0 <= i < |d.readSets| && r in d.readSets[i]
    ensures i in Lookup(d.revWrites, r) <==> 0 <= i < |d.writeSets| && r in d.writeSets[i]
  {
    OccurrencesMember(d.readSets, r, i);
    OccurrencesMember(d.writeSets, r, i);
  }

  /** Each reverse-index list is in registration order and holds only registered ids. */
  lemma ReverseIndexOrdered<R(!new)>(d: Dependencies<R>, r: R)
    requires d.Valid()
    ensures forall j, k :: 0 <= j < k < |Lookup(d.revReads, r)| ==> Lookup(d.revReads, r)[j] <= Lookup(d.revReads, r)[k]
    ensures forall k :: 0 <= k < |Lookup(d.revReads, r)| ==> Lookup(d.revReads, r)[k] < |d.readSets|
    ensures forall j, k :: 0 <= j < k < |Lookup(d.revWrites, r)| ==> Lookup(d.revWrites, r)[j] <= Lookup(d.revWrites, r)[k]
    ensures forall k :: 0 <= k < |Lookup(d.revWrites, r)| ==> Lookup(d.revWrites, r)[k] < |d.writeSets|
  {
    OccurrencesOrdered(d.readSets, r);
    OccurrencesOrdered(d.writeSets, r);
  }
}
