# Gossip node state, modelled in Dafny

This project models the in-memory core of a gossip node in the unversioned
GossipDemo implementation. Each node holds a `Snapshot`: a map from node
`Address` (network, endpoint) to `Info`, a map from key to value. A node
publishes facts under its own address (`AddLocalState`). It learns other
nodes' facts by exchanging snapshots with peers. The passive side of an
exchange answers with `delta(local, received)`, the entries the sender lacks,
and then merges what it received. The active side merges that answer. The node
also keeps a seed list and a list of outbound peers. A gossip tick draws a
target from the live nodes, or from the seeds when it knows no other node. It
then reuses or dials a peer for that target, and prunes the target's peers when
the send fails.

Modules:

- `Snapshots` (`snapshots.dfy`): the types of snapshot.go and the two deep
  copies, as loops that build a fresh map.
- `Reconciliation` (`reconciliation.dfy`): `Delta`, `Apply` and `Merged` as
  specification functions, `Round` for one exchange, `ComputeDelta` as the
  nested loop of `delta`, and the lemmas about them.
- `PeerList` (`peer_list.dfy`): peers as values, the search of
  `sendGossipTo`, the bookkeeping of `sendGossipTo`/`sendGossip` as functions
  (`SendTo`, `Without`, `Rounds`), and the lemmas about them.
- `AddressFilter` (`address_filter.dfy`): the self-address filter and the
  `liveNodes` membership lemma.
- `Node` (`node.dfy`): class `Gossip` with fields `snapshot`, `seedNodes` and
  `peers`. Its methods update these fields in place and are proved against the
  functions above. `Exchange` runs one round between two nodes.

Values carry no versions: `delta` compares keys only, and `merge` never
overwrites an existing value. The `version` field that gossip.go initialises
is never read or updated.

## Model

| member | source | states |
|---|---|---|
| `Snapshots.CloneInfo` | snapshot.go:10-16 | the clone has exactly the receiver's keys, each with the receiver's value (so an empty Info clones to an empty one) |
| `Snapshots.CloneSnapshot` | snapshot.go:20-26 | the clone has exactly the receiver's addresses, and each address's cloned Info equals the original Info |
| `Reconciliation.ComputeDelta` | gossip.go:179-200 | the address-by-address, key-by-key loop computes exactly `Delta(from, to)` |
| `Reconciliation.DeltaSound` | gossip.go:179-200 | every address of delta is in `from`, and every (address, key, value) of delta is in `from` with the same value; delta invents nothing |
| `Reconciliation.DeltaUnknownAddress` | gossip.go:181-185 | an address absent from `to` appears in delta with the whole Info of `from`, even an empty one |
| `Reconciliation.DeltaKnownAddress` | gossip.go:186-197 | for an address present in `to`, delta holds it iff some key is missing from `to`, and then holds exactly the keys `to` lacks; keys held by both are omitted whatever their values |
| `Reconciliation.DeltaPairs` | gossip.go:179-200 | the (address, key) pairs of delta are those of `from` minus those of `to`; its addresses include every address `to` lacks and lie within `from` |
| `Reconciliation.DeltaOfCovered` | gossip.go:179-200 | when `to` already holds every address and pair of `from`, delta is empty |
| `Reconciliation.MergedCoversBoth` | gossip.go:202-218 | after merge the addresses are the union of both sides; every local key keeps its value (nothing removed or overwritten); every key of `other` is present |
| `Reconciliation.MergedNothingInvented` | gossip.go:208-217 | every entry after merge is the local value if the local snapshot had that pair, and otherwise the value from `other` |
| `Reconciliation.MergedPairs` | gossip.go:202-218 | the (address, key) pairs after merge are exactly the union of both sides' pairs |
| `Reconciliation.MergedIdempotent` | gossip.go:208-217 | a second merge of the same snapshot computes an empty delta and leaves the snapshot unchanged |
| `Reconciliation.MergedDelta` | gossip.go:202-218 | merging the delta `other` minus local gives the same snapshot as merging `other` itself |
| `Reconciliation.RoundConverges` | gossip.go:110-116 | after one exchange the active and passive sides hold the same addresses and the same (address, key) pairs, namely the union of what they held before |
| `PeerList.FindPeer` | gossip.go:157-162 | the search finds a peer iff one has the target endpoint, and returns the last such peer |
| `PeerList.SendToShape` | gossip.go:156-177 | sendGossipTo keeps the list or appends exactly one peer for a target that had none; it errs iff there was no peer and the dial failed, and then the list is unchanged; on success a peer for the target exists; distinct endpoints stay distinct |
| `PeerList.WithoutAbsent` | gossip.go:146-151 | pruning an endpoint that no peer has leaves the list unchanged |
| `PeerList.WithoutMembers` | gossip.go:146-151 | after pruning, a peer is present iff it was present and its endpoint is not the target |
| `PeerList.PruneRemovesNothing` | gossip.go:146-151 | whenever sendGossipTo errs, the pruning that follows removes nothing |
| `PeerList.RoundsGrow` | gossip.go:139-154 | over all rounds of sendGossip the old peer list stays a prefix; added peers are on the node's network and dialled to targets; endpoints stay distinct; every target whose dial succeeded has a peer |
| `AddressFilter.WithoutSelfCounts` | gossip.go:52-60 | the filter keeps every occurrence of every entry other than the local endpoint and drops every occurrence of it |
| `AddressFilter.WithoutSelfMembers` | gossip.go:52-60 | an entry is in the result iff it is in the input and differs from the local endpoint |
| `AddressFilter.WithoutSelfAbsent` | gossip.go:52-60 | a list that does not contain the local endpoint passes through unchanged |
| `AddressFilter.LiveNodesMembers` | gossip.go:129-137 | the live-node list holds exactly the endpoints of known addresses other than the local endpoint, whatever their network |
| `Node.Published` | gossip.go:62-70 | the own address exists afterwards with `key` set to `value`; every other address and every other own key is unchanged |
| `Node.Gossip.constructor` | gossip.go:29-44 | a new node has an empty snapshot and no peers, and its seed list is the given one without its own endpoint |
| `Node.Gossip.GetSnapshot` | gossip.go:46-50 | the returned copy equals the snapshot |
| `Node.Gossip.RemoveSelfAddress` | gossip.go:52-60 | the loop returns the input's entries that differ from the local endpoint, in order |
| `Node.Gossip.AddLocalState` | gossip.go:62-70 | the snapshot becomes `Published(old snapshot, local address, key, value)` |
| `Node.Gossip.Merge` | gossip.go:202-218 | the in-place loop leaves the snapshot equal to `Merged(old snapshot, other)` |
| `Node.Gossip.WriteKeys` | gossip.go:213-215 | writes every diff entry into the existing Info of one address and changes no other address |
| `Node.Gossip.HandleGossipRequest` | gossip.go:100-118 | the reply is the delta of the snapshot before merging against the received one, and the snapshot becomes the merge of the received one |
| `Node.Gossip.LiveNodes` | gossip.go:129-137 | for some visiting order of all known addresses, without repeats, the result is their endpoints with the local endpoint filtered out; an endpoint is in the result iff some known address has it and it is not the local endpoint |
| `Node.Gossip.PrunePeers` | gossip.go:147-151 | the in-place splice loop removes exactly the peers with the target endpoint and keeps the rest in order |
| `Node.Gossip.SendGossipTo` | gossip.go:156-177 | the peer list and error result are those of `SendTo`, and the node invariant (distinct endpoints on the local network) is kept |
| `Node.Gossip.SendGossip` | gossip.go:139-154 | an empty target list changes nothing; otherwise the peer list is that of `Rounds`, the old list stays a prefix, and the invariant is kept |
| `Node.Gossip.DoGossip` | gossip.go:120-127 | the target pool is the seed list when no known address has an endpoint other than the node's own, and otherwise holds exactly the non-self endpoints of known addresses; the peer list becomes `Rounds` over that pool (unchanged for an empty pool), only grows, keeps the invariant, and never gains a peer for the node's own endpoint |
| `Node.Exchange` | client.go:62-72 | one exchange (active sends, passive replies and merges, active merges the reply) leaves both nodes as `Round` says, with equal addresses and (address, key) pairs |

## Left out

- `Start` and `startGossip` (gossip.go:72-98) are not modelled: the listener, accept loop, ticker and goroutines are network I/O and timing. One tick is `DoGossip`.
- `Node.Gossip.HandleGossipRequest`: models one pass of the receive loop. Socket reads and writes, and `log.Fatal` on failure, are I/O and are not modelled.
- `Node.Gossip.SendGossipTo`: the call `peer.send(s.GetSnapshot())` (gossip.go:175) is I/O. The data it carries is modelled by `Node.Exchange`.
- client.go (connection wrapper, `closing`/`shutdown` flags, send lock, `terminate`) and codec/gob.go (serialization) are I/O and concurrency plumbing. Only the merge at client.go:69 appears, inside `Node.Exchange`.
- `Dial` is not modelled: its outcome is a boolean parameter (`dialOk`, `dials[i]`).
- `rand.Intn(len(targets))` (gossip.go:145) is not modelled as randomness. Each draw is an arbitrary natural `rolls[i]`, and the index is `rolls[i] % |targets|`, so every in-range index is reachable.
- Go visits map entries in random order. The loops pick any remaining key, and `LiveNodes` exposes its order only as a ghost output.
- `sync.RWMutex` locking is not modelled: the model is sequential, and each locked method is one atomic method.
- The `version` field (gossip.go:23, 37) is not modelled: it is never read or updated, and no code here compares versions.
- The nil-snapshot guard in merge (gossip.go:205-207) is not modelled, because a Dafny map is never nil.
- Map aliasing is not modelled. At gossip.go:211 merge stores the remote Info without copying, so later writes could reach the received map. Dafny maps are values, which hides this sharing; copy independence in `GetSnapshot` is likewise automatic.
- `Node.Gossip.PrunePeers`: it is modelled as a correct in-place filter. The Go loop splices `s.peers` while ranging over the same slice. With two or more matching peers it would skip elements or index past the end, but that never happens here. Peers have distinct endpoints (`Valid`), and `PruneRemovesNothing` shows that pruning runs only when no peer matches.
- Convergence over many ticks across a cluster, as in gossip_test.go, is not modelled. `RoundConverges` proves the single-exchange step that it rests on.
