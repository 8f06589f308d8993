/**
 * A gossip node (gossip.go, type Gossip): its own address, its snapshot of
 * the cluster, its seed list and its peer list, with the operations that
 * update them in place. Each operation that the source guards with the
 * node's lock is one atomic method here.
 */
module Node {
  import opened Snapshots
  import opened Reconciliation
  import opened PeerList
  import opened AddressFilter

  /** Number of targets drawn per gossip tick. */
  const FAN_OUT: nat := 1

  /** The own-address Info after publishing `key` = `value` (AddLocalState). */
  function Published(snapshot: Snapshot, self: Address, key: string, value: string): (r: Snapshot)
    ensures self in r && key in r[self] && r[self][key] == value
    ensures r.Keys == snapshot.Keys + {self}
    ensures forall a :: a in snapshot && a != self ==> r[a] == snapshot[a]
    ensures r[self].Keys == (if self in snapshot then snapshot[self].Keys else {}) + {key}
    ensures self in snapshot ==> forall k :: k in snapshot[self] && k != key ==> r[self][k] == snapshot[self][k]
  {
    var own := if self in snapshot then snapshot[self] else map[];
    snapshot[self := own[key := value]]
  }

  class Gossip {
    const localAddress: Address
    var snapshot: Snapshot
    var seedNodes: seq<string>
    var peers: seq<Peer>

    /**
     * The seed list never names the node itself, and the peer list holds
     * at most one peer per endpoint, each on the node's own network.
     */
    ghost predicate Valid()
      reads this
    {
      && localAddress.address !in seedNodes
      && Distinct(peers)
      && forall i :: 0 <= i < |peers| ==> peers[i].remote.network == localAddress.network
    }

    /** NewServer: empty snapshot, no peers, the seed list without the node's own endpoint. */
    constructor (network: string, address: string, seeds: seq<string>)
      ensures Valid()
      ensures localAddress == Address(network, address)
      ensures snapshot == map[] && peers == []
      ensures seedNodes == WithoutSelf(seeds, address)
    {
      localAddress := Address(network, address);
      snapshot := map[];
      peers := [];
      seedNodes := [];
      new;
      seedNodes := RemoveSelfAddress(seeds);
      WithoutSelfMembers(seeds, address);
    }

    /** GetSnapshot: a deep copy of the snapshot, equal to it. */
    method GetSnapshot() returns (copy: Snapshot)
      ensures copy == snapshot
    {
      copy := CloneSnapshot(snapshot);
    }

    /** removeSelfAddress: every entry not equal to the node's own endpoint, in order. */
    method RemoveSelfAddress(xs: seq<string>) returns (seeds: seq<string>)
      ensures seeds == WithoutSelf(xs, localAddress.address)
    {
      seeds := [];
      for i := 0 to |xs|
        invariant seeds == WithoutSelf(xs[..i], localAddress.address)
      {
        assert xs[..i + 1][..i] == xs[..i];
        if xs[i] != localAddress.address {
          seeds := seeds + [xs[i]];
        }
      }
      assert xs[..|xs|] == xs;
    }

    /** AddLocalState: creates the own-address Info when missing and sets `key` in it. */
    method AddLocalState(key: string, value: string)
      modifies this`snapshot
      ensures snapshot == Published(old(snapshot), localAddress, key, value)
    {
      if localAddress !in snapshot {
        snapshot := snapshot[localAddress := map[]];
      }
      snapshot := snapshot[localAddress := snapshot[localAddress][key := value]];
    }

    /**
     * merge: folds what `other` has and the snapshot lacks into the
     * snapshot, address by address and key by key.
     */
    method Merge(other: Snapshot)
      modifies this`snapshot
      ensures snapshot == Merged(old(snapshot), other)
    {
      var diff := ComputeDelta(other, snapshot);
      ghost var base := snapshot;
      var todo := diff.Keys;
      while todo != {}
        invariant todo <= diff.Keys
        invariant snapshot.Keys == base.Keys + (diff.Keys - todo)
        invariant forall a :: a in snapshot && a in diff && a !in todo ==>
                    snapshot[a] == if a in base then base[a] + diff[a] else diff[a]
        invariant forall a :: a in snapshot && (a !in diff || a in todo) ==> snapshot[a] == base[a]
        decreases todo
      {
        var addr :| addr in todo;
        todo := todo - {addr};
        var diffValue := diff[addr];
        if addr !in snapshot {
          snapshot := snapshot[addr := diffValue];
        } else {
          WriteKeys(addr, diffValue);
        }
      }
      ApplyPointwise(base, diff, snapshot);
    }

    /** The inner loop of merge: writes every entry of `diffValue` into the Info of `addr`. */
    method WriteKeys(addr: Address, diffValue: Info)
      requires addr in snapshot
      modifies this`snapshot
      ensures snapshot == old(snapshot)[addr := old(snapshot)[addr] + diffValue]
    {
      ghost var before := snapshot;
      var keys := diffValue.Keys;
      assert before[addr] + (diffValue - keys) == before[addr];
      while keys != {}
        invariant keys <= diffValue.Keys
        invariant snapshot == before[addr := before[addr] + (diffValue - keys)]
        decreases keys
      {
        var key :| key in keys;
        assert before[addr] + (diffValue - (keys - {key}))
            == (before[addr] + (diffValue - keys))[key := diffValue[key]];
        keys := keys - {key};
        snapshot := snapshot[addr := snapshot[addr][key := diffValue[key]]];
      }
      assert diffValue - keys == diffValue;
    }

    /**
     * One pass of handleGossipRequest's loop: answer a received snapshot
     * with what the sender lacks, computed before merging, then merge it.
     */
    method HandleGossipRequest(received: Snapshot) returns (reply: Snapshot)
      modifies this`snapshot
      ensures reply == Delta(old(snapshot), received)
      ensures snapshot == Merged(old(snapshot), received)
    {
      var local := GetSnapshot();
      reply := ComputeDelta(local, received);
      Merge(received);
    }

    /**
     * liveNodes: the endpoint of every known address, in the (unspecified)
     * order the snapshot is visited, without the node's own endpoint.
     */
    method LiveNodes() returns (live: seq<string>, ghost order: seq<Address>)
      ensures forall a :: a in order <==> a in snapshot
      ensures forall i, j :: 0 <= i < j < |order| ==> order[i] != order[j]
      ensures live == WithoutSelf(Endpoints(order), localAddress.address)
      ensures forall x :: x in live <==>
                x != localAddress.address && exists a :: a in snapshot && a.address == x
    {
      var liveNodes: seq<string> := [];
      order := [];
      var todo := snapshot.Keys;
      while todo != {}
        invariant todo <= snapshot.Keys
        invariant forall a :: a in order <==> a in snapshot && a !in todo
        invariant forall i, j :: 0 <= i < j < |order| ==> order[i] != order[j]
        invariant liveNodes == Endpoints(order)
        decreases todo
      {
        var key :| key in todo;
        liveNodes := liveNodes + [key.address];
        order := order + [key];
        todo := todo - {key};
      }
      live := RemoveSelfAddress(liveNodes);
      LiveNodesMembers(snapshot, order, localAddress.address);
    }

    /**
     * The pruning loop of sendGossip: removes, in place, every peer whose
     * endpoint is `target`.
     */
    method PrunePeers(target: string)
      modifies this`peers
      ensures peers == Without(old(peers), target)
    {
      var i := 0;
      while i < |peers|
        invariant i <= |peers|
        invariant forall j :: 0 <= j < i ==> peers[j].remote.address != target
        invariant peers[..i] + Without(peers[i..], target) == Without(old(peers), target)
        decreases |peers| - i
      {
        assert peers[i..] == [peers[i]] + peers[i + 1..];
        if peers[i].remote.address == target {
          ghost var was := peers;
          peers := peers[..i] + peers[i + 1..];
          assert peers[..i] == was[..i] && peers[i..] == was[i + 1..];
        } else {
          assert peers[..i + 1] == peers[..i] + [peers[i]];
          i := i + 1;
        }
      }
      WithoutAbsent(peers[..i], target);
      assert peers[..i] == peers;
    }

    /**
     * sendGossipTo on the peer list: reuses the peer for `target`, or dials
     * it (outcome `dialOk`) and appends the new peer; fails only when there
     * was no peer and the dial failed. The snapshot sent to the peer is I/O.
     */
    method SendGossipTo(target: string, dialOk: bool) returns (failed: bool)
      requires Valid()
      modifies this`peers
      ensures Valid()
      ensures (peers, failed) == SendTo(old(peers), localAddress.network, target, dialOk)
    {
      // `peer` is the connection that the (unmodelled) send would use.
      var found, peer := FindPeer(peers, target);
      SendToShape(peers, localAddress.network, target, dialOk);
      if !found {
        if !dialOk {
          return true;
        }
        peers := peers + [Peer(Address(localAddress.network, target))];
      }
      failed := false;
    }

    /**
     * sendGossip: nothing for an empty target list; otherwise `fanOut`
     * rounds, round i drawing target `rolls[i] % |targets|` and dialling
     * with outcome `dials[i]`, pruning the target's peers when a round
     * fails. The old peer list stays a prefix of the new one.
     */
    method SendGossip(targets: seq<string>, fanOut: nat, rolls: seq<nat>, dials: seq<bool>)
      requires Valid()
      requires |rolls| == fanOut && |dials| == fanOut
      modifies this`peers
      ensures Valid()
      ensures |targets| == 0 ==> peers == old(peers)
      ensures |targets| > 0 ==> peers == Rounds(old(peers), localAddress.network, targets, rolls, dials)
      ensures old(peers) <= peers
    {
      if |targets| == 0 {
        return;
      }
      for i := 0 to fanOut
        invariant Valid()
        invariant peers == Rounds(old(peers), localAddress.network, targets, rolls[..i], dials[..i])
      {
        assert rolls[..i + 1][..i] == rolls[..i] && dials[..i + 1][..i] == dials[..i];
        var r := rolls[i] % |targets|;
        ghost var before := peers;
        PruneRemovesNothing(before, localAddress.network, targets[r], dials[i]);
        var failed := SendGossipTo(targets[r], dials[i]);
        if failed {
          PrunePeers(targets[r]);
        }
      }
      assert rolls[..fanOut] == rolls && dials[..fanOut] == dials;
      RoundsGrow(old(peers), localAddress.network, targets, rolls, dials);
    }

    /**
     * One gossip tick (doGossip): the target pool is the live nodes, or the
     * seeds when no other node is known, and `SendGossip` runs over it. The
     * peer list only grows, and never gains a peer for the node itself.
     */
    method DoGossip(rolls: seq<nat>, dials: seq<bool>) returns (ghost pool: seq<string>)
      requires Valid()
      requires |rolls| == FAN_OUT && |dials| == FAN_OUT
      modifies this`peers
      ensures Valid()
      ensures (forall a :: a in snapshot ==> a.address == localAddress.address) ==> pool == seedNodes
      ensures (exists a :: a in snapshot && a.address != localAddress.address) ==>
                forall x :: x in pool <==> x != localAddress.address && exists a :: a in snapshot && a.address == x
      ensures |pool| == 0 ==> peers == old(peers)
      ensures |pool| > 0 ==> peers == Rounds(old(peers), localAddress.network, pool, rolls, dials)
      ensures old(peers) <= peers
      ensures forall i :: |old(peers)| <= i < |peers| ==> peers[i].remote.address != localAddress.address
    {
      ghost var before := peers;
      var knownNodes;
      ghost var order;
      knownNodes, order := LiveNodes();
      if |knownNodes| == 0 {
        assert forall a :: a in snapshot ==> a.address == localAddress.address by {
          forall a | a in snapshot
            ensures a.address == localAddress.address
          {
            assert a.address != localAddress.address ==> a.address in knownNodes;
          }
        }
        pool := seedNodes;
        SendGossip(seedNodes, FAN_OUT, rolls, dials);
      } else {
        assert knownNodes[0] in knownNodes;
        pool := knownNodes;
        SendGossip(knownNodes, FAN_OUT, rolls, dials);
      }
      if |pool| > 0 {
        RoundsGrow(before, localAddress.network, pool, rolls, dials);
      }
    }
  }

  /**
   * One exchange between two nodes: the active node sends a copy of its
   * snapshot, the passive node answers and merges it, and the active node
   * merges the answer. Both then hold the union of their (address, key)
   * pairs.
   */
  method Exchange(active: Gossip, passive: Gossip)
    requires active != passive
    modifies active`snapshot, passive`snapshot
    ensures (active.snapshot, passive.snapshot) == Round(old(active.snapshot), old(passive.snapshot))
    ensures Pairs(active.snapshot) == Pairs(passive.snapshot)
    ensures active.snapshot.Keys == passive.snapshot.Keys
  {
    var sent := active.GetSnapshot();
    var reply := passive.HandleGossipRequest(sent);
    active.Merge(reply);
    RoundConverges(old(active.snapshot), old(passive.snapshot));
  }
}
