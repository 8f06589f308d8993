/**
 * The peer list of a gossip node (gossip.go, sendGossip and sendGossipTo):
 * one outbound connection per remote address, reused when present, dialled
 * and appended when not, and pruned when a send to its address fails.
 */
module PeerList {
  import opened Snapshots

  /** An outbound connection, known by the address it was dialled to. */
  datatype Peer = Peer(remote: Address)

  /** Some peer in the list was dialled to the endpoint `target`. */
  predicate HasPeer(peers: seq<Peer>, target: string)
  {
    exists i :: 0 <= i < |peers| && peers[i].remote.address == target
  }

  /** No two peers share an endpoint. */
  ghost predicate Distinct(peers: seq<Peer>)
  {
    forall i, j :: 0 <= i < j < |peers| ==> peers[i].remote.address != peers[j].remote.address
  }

  /**
   * The search of sendGossipTo: it scans the whole list and keeps the last
   * peer whose endpoint is `target`.
   */
  method FindPeer(peers: seq<Peer>, target: string) returns (found: bool, index: nat)
    ensures found <==> HasPeer(peers, target)
    ensures found ==> index < |peers| && peers[index].remote.address == target
    ensures found ==> forall j :: index < j < |peers| ==> peers[j].remote.address != target
  {
    found, index := false, 0;
    for i := 0 to |peers|
      invariant found <==> exists j :: 0 <= j < i && peers[j].remote.address == target
      invariant found ==> index < i && peers[index].remote.address == target
      invariant found ==> forall j :: index < j < i ==> peers[j].remote.address != target
    {
      if peers[i].remote.address == target {
        found, index := true, i;
      }
    }
  }

  /**
   * sendGossipTo on the peer list: the list afterwards and whether an error
   * is returned. A peer for `target` is reused; otherwise a successful dial
   * appends one, and a failed dial is the only error.
   */
  function SendTo(peers: seq<Peer>, network: string, target: string, dialOk: bool): (seq<Peer>, bool)
  {
    if HasPeer(peers, target) then (peers, false)
    else if dialOk then (peers + [Peer(Address(network, target))], false)
    else (peers, true)
  }

  /** The pruning loop of sendGossip: every peer whose endpoint is `target` removed, the rest in order. */
  function Without(peers: seq<Peer>, target: string): seq<Peer>
  {
    if peers == [] then []
    else (if peers[0].remote.address == target then [] else [peers[0]]) + Without(peers[1..], target)
  }

  /**
   * sendGossip's bookkeeping over its rounds: round i sends to the target
   * drawn by `rolls[i]` (rand.Intn(n) is rolls[i] % n) with dial outcome
   * `dials[i]`, and prunes that target's peers when the send failed.
   */
  function Rounds(peers: seq<Peer>, network: string, targets: seq<string>, rolls: seq<nat>, dials: seq<bool>): seq<Peer>
    requires |targets| > 0 && |rolls| == |dials|
    decreases |rolls|
  {
    if rolls == [] then peers
    else
      var n := |rolls| - 1;
      var before := Rounds(peers, network, targets, rolls[..n], dials[..n]);
      var target := targets[rolls[n] % |targets|];
      var (after, failed) := SendTo(before, network, target, dials[n]);
      if failed then Without(after, target) else after
  }

  /**
   * sendGossipTo either keeps the list, or appends exactly one peer for a
   * target that had none; it fails only when there was no peer and the dial
   * failed, and then leaves the list as it was. Afterwards a successful call
   * leaves a peer for the target, and distinct endpoints stay distinct.
   */
  lemma SendToShape(peers: seq<Peer>, network: string, target: string, dialOk: bool)
    ensures var (after, failed) := SendTo(peers, network, target, dialOk);
      && (after == peers || (!HasPeer(peers, target) && after == peers + [Peer(Address(network, target))]))
      && (failed <==> !HasPeer(peers, target) && !dialOk)
      && (failed ==> after == peers)
      && (!failed ==> HasPeer(after, target))
      && (Distinct(peers) ==> Distinct(after))
  {
    if !HasPeer(peers, target) && dialOk {
      var after := peers + [Peer(Address(network, target))];
      assert after[|peers|].remote.address == target;
    }
  }

  /** Removing an endpoint no peer has changes nothing. */
  lemma {:induction false} WithoutAbsent(peers: seq<Peer>, target: string)
    requires !HasPeer(peers, target)
    ensures Without(peers, target) == peers
  {
    if peers != [] {
      assert !HasPeer(peers[1..], target) by {
        forall i | 0 <= i < |peers[1..]|
          ensures peers[1..][i].remote.address != target
        {
          assert peers[1..][i] == peers[i + 1];
        }
      }
      WithoutAbsent(peers[1..], target);
      assert peers == [peers[0]] + peers[1..];
    }
  }

  /** After pruning, a peer is in the list exactly when it was there and its endpoint is not `target`. */
  lemma {:induction false} WithoutMembers(peers: seq<Peer>, target: string)
    ensures forall p :: p in Without(peers, target) <==> p in peers && p.remote.address != target
  {
    if peers != [] {
      WithoutMembers(peers[1..], target);
      assert peers == [peers[0]] + peers[1..];
    }
  }

  /**
   * The pruning after a failed sendGossipTo removes nothing: the call fails
   * only when no peer has the target's endpoint.
   */
  lemma PruneRemovesNothing(peers: seq<Peer>, network: string, target: string, dialOk: bool)
    ensures var (after, failed) := SendTo(peers, network, target, dialOk);
      failed ==> Without(after, target) == peers
  {
    if !HasPeer(peers, target) {
      WithoutAbsent(peers, target);
    }
  }

  /**
   * Over all rounds of sendGossip nothing is removed from the peer list:
   * the old list is a prefix of the new one, every added peer is on the
   * node's network and dialled to one of the targets, endpoints stay
   * distinct, and every target whose dial succeeded has a peer afterwards.
   */
  lemma {:induction false} RoundsGrow(peers: seq<Peer>, network: string, targets: seq<string>, rolls: seq<nat>, dials: seq<bool>)
    requires |targets| > 0 && |rolls| == |dials|
    ensures peers <= Rounds(peers, network, targets, rolls, dials)
    ensures var r := Rounds(peers, network, targets, rolls, dials);
      forall i :: |peers| <= i < |r| ==> r[i].remote.network == network && r[i].remote.address in targets
    ensures Distinct(peers) ==> Distinct(Rounds(peers, network, targets, rolls, dials))
    ensures forall i :: 0 <= i < |rolls| && dials[i] ==>
              HasPeer(Rounds(peers, network, targets, rolls, dials), targets[rolls[i] % |targets|])
    decreases |rolls|
  {
    if rolls != [] {
      var n := |rolls| - 1;
      var before := Rounds(peers, network, targets, rolls[..n], dials[..n]);
      var target := targets[rolls[n] % |targets|];
      RoundsGrow(peers, network, targets, rolls[..n], dials[..n]);
      SendToShape(before, network, target, dials[n]);
      PruneRemovesNothing(before, network, target, dials[n]);
      var r := Rounds(peers, network, targets, rolls, dials);
      assert r == SendTo(before, network, target, dials[n]).0;
      forall i | 0 <= i < |rolls| && dials[i]
        ensures HasPeer(r, targets[rolls[i] % |targets|])
      {
        if i < n {
          assert rolls[..n][i] == rolls[i] && dials[..n][i] == dials[i];
          var t := targets[rolls[i] % |targets|];
          assert HasPeer(before, t);
          var j :| 0 <= j < |before| && before[j].remote.address == t;
          assert r[j] == before[j];
        }
      }
    }
  }
}
