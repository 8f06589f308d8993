/**
 * Anti-entropy reconciliation (gossip.go): what one snapshot lacks relative
 * to another, how a node folds a remote snapshot into its own, and what one
 * exchange between two nodes achieves.
 */
module Reconciliation {
  import opened Snapshots

  /** The entries of `fromInfo` whose key `toInfo` does not hold; values are not compared. */
  function DeltaInfo(fromInfo: Info, toInfo: Info): Info
  {
    map k | k in fromInfo && k !in toInfo :: fromInfo[k]
  }

  /**
   * delta(from, to): an address `to` does not know contributes its whole
   * Info (even an empty one); an address it knows contributes only the keys
   * it lacks, and is dropped when it lacks none.
   */
  function Delta(from: Snapshot, to: Snapshot): Snapshot
  {
    map a | a in from && (a !in to || DeltaInfo(from[a], to[a]) != map[]) ::
      if a in to then DeltaInfo(from[a], to[a]) else from[a]
  }

  /**
   * The write loop of merge: a new address takes the diff's Info as it is,
   * an address already present gets each of the diff's keys written into
   * its Info.
   */
  function Apply(local: Snapshot, diff: Snapshot): Snapshot
  {
    map a | a in local.Keys + diff.Keys ::
      if a !in diff then local[a]
      else if a in local then local[a] + diff[a]
      else diff[a]
  }

  /** Gossip.merge: the local snapshot after folding in `other`. */
  function Merged(local: Snapshot, other: Snapshot): Snapshot
  {
    Apply(local, Delta(other, local))
  }

  /**
   * One exchange: the passive side answers the active side's snapshot with
   * what the active side lacks and then merges what it received; the active
   * side merges the answer. Results are (active, passive).
   */
  function Round(active: Snapshot, passive: Snapshot): (Snapshot, Snapshot)
  {
    (Merged(active, Delta(passive, active)), Merged(passive, active))
  }

  /** A snapshot that agrees with Apply(local, diff) address by address is Apply(local, diff). */
  lemma ApplyPointwise(local: Snapshot, diff: Snapshot, s: Snapshot)
    requires s.Keys == local.Keys + diff.Keys
    requires forall a :: a in s && a in diff ==> s[a] == if a in local then local[a] + diff[a] else diff[a]
    requires forall a :: a in s && a !in diff ==> s[a] == local[a]
    ensures s == Apply(local, diff)
  {
  }

  /** delta computed the way gossip.go does: one address, then one key, at a time. */
  method ComputeDelta(from: Snapshot, to: Snapshot) returns (diff: Snapshot)
    ensures diff == Delta(from, to)
  {
    diff := map[];
    var todo := from.Keys;
    while todo != {}
      invariant todo <= from.Keys
      invariant forall a :: a in diff <==> a in Delta(from, to) && a !in todo
      invariant forall a :: a in diff ==> diff[a] == Delta(from, to)[a]
      decreases todo
    {
      var addr :| addr in todo;
      todo := todo - {addr};
      if addr !in to {
        diff := diff[addr := from[addr]];
        continue;
      }
      var fromMap := from[addr];
      var toMap := to[addr];
      var diffMap: Info := map[];
      var keys := fromMap.Keys;
      while keys != {}
        invariant keys <= fromMap.Keys
        invariant diffMap == DeltaInfo(fromMap - keys, toMap)
        decreases keys
      {
        var key :| key in keys;
        keys := keys - {key};
        if key !in toMap {
          diffMap := diffMap[key := fromMap[key]];
        }
      }
      assert fromMap - keys == fromMap;
      assert diffMap == DeltaInfo(from[addr], to[addr]);
      if |diffMap| != 0 {
        diff := diff[addr := diffMap];
      } else {
        assert diffMap == map[];
      }
    }
  }

  // ---------------------------------------------------------------------
  // Properties of delta

  /** delta never invents an address, a key or a value. */
  lemma DeltaSound(from: Snapshot, to: Snapshot)
    ensures Delta(from, to).Keys <= from.Keys
    ensures forall a, k :: a in Delta(from, to) && k in Delta(from, to)[a] ==>
              k in from[a] && Delta(from, to)[a][k] == from[a][k]
  {
  }

  /** An address `to` does not know is copied whole, even when its Info is empty. */
  lemma DeltaUnknownAddress(from: Snapshot, to: Snapshot, a: Address)
    requires a in from && a !in to
    ensures a in Delta(from, to) && Delta(from, to)[a] == from[a]
  {
  }

  /**
   * For an address `to` knows, delta holds exactly the keys `to` lacks, and
   * holds the address at all only when some key is lacking; a key `to`
   * holds is left out even when its value differs.
   */
  lemma DeltaKnownAddress(from: Snapshot, to: Snapshot, a: Address)
    requires a in from && a in to
    ensures a in Delta(from, to) <==> exists k :: k in from[a] && k !in to[a]
    ensures a in Delta(from, to) ==> Delta(from, to)[a].Keys == from[a].Keys - to[a].Keys
  {
    if a !in Delta(from, to) {
      forall k | k in from[a]
        ensures k in to[a]
      {
        assert k !in DeltaInfo(from[a], to[a]);
      }
    }
  }

  /** The (address, key) pairs of delta are those of `from` missing from `to`. */
  lemma DeltaPairs(from: Snapshot, to: Snapshot)
    ensures Pairs(Delta(from, to)) == Pairs(from) - Pairs(to)
    ensures from.Keys - to.Keys <= Delta(from, to).Keys <= from.Keys
  {
    var d := Delta(from, to);
    forall p | p in Pairs(from) - Pairs(to)
      ensures p in Pairs(d)
    {
      var (a, k) := p;
      assert a in from && k in from[a];
      if a in to {
        assert k in DeltaInfo(from[a], to[a]);
      }
    }
  }

  /** A snapshot lacks nothing relative to itself or to a snapshot it contains. */
  lemma DeltaOfCovered(from: Snapshot, to: Snapshot)
    requires Pairs(from) <= Pairs(to) && from.Keys <= to.Keys
    ensures Delta(from, to) == map[]
  {
    forall a | a in from
      ensures DeltaInfo(from[a], to[a]) == map[]
    {
      forall k | k in from[a]
        ensures k in to[a]
      {
        assert (a, k) in Pairs(from);
      }
    }
  }

  // ---------------------------------------------------------------------
  // Properties of merge

  /** merge keeps every local address and key with its value, and adds every address and key of `other`. */
  lemma MergedCoversBoth(local: Snapshot, other: Snapshot)
    ensures Merged(local, other).Keys == local.Keys + other.Keys
    ensures forall a, k :: a in local && k in local[a] ==>
              k in Merged(local, other)[a] && Merged(local, other)[a][k] == local[a][k]
    ensures forall a, k :: a in other && k in other[a] ==> k in Merged(local, other)[a]
  {
    var d := Delta(other, local);
    DeltaPairs(other, local);
    forall a, k | a in other && k in other[a]
      ensures k in Merged(local, other)[a]
    {
      assert (a, k) in Pairs(other);
      if (a, k) !in Pairs(local) {
        assert (a, k) in Pairs(d);
      }
    }
  }

  /** Every entry after merge came from the local snapshot or, for a pair it lacked, from `other`. */
  lemma MergedNothingInvented(local: Snapshot, other: Snapshot)
    ensures forall a, k :: a in Merged(local, other) && k in Merged(local, other)[a] ==>
              if a in local && k in local[a] then Merged(local, other)[a][k] == local[a][k]
              else a in other && k in other[a] && Merged(local, other)[a][k] == other[a][k]
  {
    DeltaSound(other, local);
  }

  /** The pairs after merge are exactly the union of both sides' pairs. */
  lemma MergedPairs(local: Snapshot, other: Snapshot)
    ensures Pairs(Merged(local, other)) == Pairs(local) + Pairs(other)
  {
    var m := Merged(local, other);
    MergedCoversBoth(local, other);
    MergedNothingInvented(local, other);
    forall p | p in Pairs(local) + Pairs(other)
      ensures p in Pairs(m)
    {
      var (a, k) := p;
      if p in Pairs(local) {
        assert a in local && k in local[a];
      } else {
        assert a in other && k in other[a];
      }
    }
  }

  /** Merging the same snapshot twice is the same as merging it once: the second delta is empty. */
  lemma MergedIdempotent(local: Snapshot, other: Snapshot)
    ensures Delta(other, Merged(local, other)) == map[]
    ensures Merged(Merged(local, other), other) == Merged(local, other)
  {
    var m := Merged(local, other);
    MergedPairs(local, other);
    MergedCoversBoth(local, other);
    DeltaOfCovered(other, m);
    assert Apply(m, map[]) == m;
  }

  /**
   * Merging what a snapshot lacks relative to `other` gives the same result
   * as merging `other` itself.
   */
  lemma MergedDelta(local: Snapshot, other: Snapshot)
    ensures Merged(local, Delta(other, local)) == Merged(local, other)
  {
    var d := Delta(other, local);
    forall a | a in d
      ensures a in Delta(d, local) && Delta(d, local)[a] == d[a]
    {
      if a in local {
        assert DeltaInfo(d[a], local[a]) == d[a];
      }
    }
    assert Delta(d, local) == d;
  }

  /**
   * After one exchange both sides hold the same addresses and the same
   * (address, key) pairs: the union of what either held before.
   */
  lemma RoundConverges(active: Snapshot, passive: Snapshot)
    ensures Round(active, passive).0.Keys == active.Keys + passive.Keys
    ensures Round(active, passive).1.Keys == active.Keys + passive.Keys
    ensures Pairs(Round(active, passive).0) == Pairs(active) + Pairs(passive)
    ensures Pairs(Round(active, passive).1) == Pairs(active) + Pairs(passive)
  {
    MergedDelta(active, passive);
    MergedCoversBoth(active, passive);
    MergedCoversBoth(passive, active);
    MergedPairs(active, passive);
    MergedPairs(passive, active);
  }
}
