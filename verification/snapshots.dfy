/**
 * The state model of a gossip node (snapshot.go): node addresses, the
 * key/value facts one node publishes, a node's view of the whole cluster,
 * and the deep copies of both.
 */
module Snapshots {

  /** Identifies a node: transport kind and endpoint. */
  datatype Address = Address(network: string, address: string)

  /** Everything one node has published, as known locally: key to value. */
  type Info = map<string, string>

  /** A node's belief about the cluster: one Info per known address. */
  type Snapshot = map<Address, Info>

  /** Every (address, key) pair that `s` holds a value for. */
  ghost function Pairs(s: Snapshot): set<(Address, string)>
  {
    set a, k | a in s && k in s[a] :: (a, k)
  }

  /**
   * Info.Clone: a fresh map with exactly the keys and values of `info`,
   * built one entry at a time. Maps are values here, so the original is
   * left untouched by construction.
   */
  method CloneInfo(info: Info) returns (clone: Info)
    ensures clone.Keys == info.Keys
    ensures forall key :: key in clone ==> clone[key] == info[key]
  {
    clone := map[];
    var todo := info.Keys;
    while todo != {}
      invariant todo <= info.Keys
      invariant clone.Keys == info.Keys - todo
      invariant forall key :: key in clone ==> clone[key] == info[key]
      decreases todo
    {
      var key :| key in todo;
      clone := clone[key := info[key]];
      todo := todo - {key};
    }
  }

  /**
   * Snapshot.Clone: a snapshot with the same addresses, each mapped to a
   * clone of the original's Info.
   */
  method CloneSnapshot(snapshot: Snapshot) returns (clone: Snapshot)
    ensures clone.Keys == snapshot.Keys
    ensures forall id :: id in clone ==> clone[id] == snapshot[id]
  {
    clone := map[];
    var todo := snapshot.Keys;
    while todo != {}
      invariant todo <= snapshot.Keys
      invariant clone.Keys == snapshot.Keys - todo
      invariant forall id :: id in clone ==> clone[id] == snapshot[id]
      decreases todo
    {
      var id :| id in todo;
      var m := CloneInfo(snapshot[id]);
      clone := clone[id := m];
      todo := todo - {id};
    }
  }
}
