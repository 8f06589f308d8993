/**
 * The target pools of a gossip node (gossip.go, removeSelfAddress and
 * liveNodes): address lists with the node's own endpoint filtered out.
 */
module AddressFilter {
  import opened Snapshots

  /** removeSelfAddress: the entries of `xs` other than `self`, in their original order. */
  function WithoutSelf(xs: seq<string>, self: string): seq<string>
  {
    if xs == [] then []
    else
      var last := xs[|xs| - 1];
      WithoutSelf(xs[..|xs| - 1], self) + (if last != self then [last] else [])
  }

  /** The endpoints of a sequence of addresses, position by position; the network is dropped. */
  function Endpoints(order: seq<Address>): seq<string>
  {
    seq(|order|, i requires 0 <= i < |order| => order[i].address)
  }

  /**
   * The filter keeps every occurrence of every entry other than `self`
   * and no occurrence of `self`.
   */
  lemma {:induction false} WithoutSelfCounts(xs: seq<string>, self: string)
    ensures multiset(WithoutSelf(xs, self)) == multiset(xs)[self := 0]
    decreases |xs|
  {
    if xs != [] {
      var n := |xs| - 1;
      WithoutSelfCounts(xs[..n], self);
      assert xs == xs[..n] + [xs[n]];
    }
  }

  /** An entry survives the filter exactly when it was in the input and is not `self`. */
  lemma WithoutSelfMembers(xs: seq<string>, self: string)
    ensures forall x :: x in WithoutSelf(xs, self) <==> x in xs && x != self
  {
    WithoutSelfCounts(xs, self);
    forall x
      ensures x in WithoutSelf(xs, self) <==> x in multiset(WithoutSelf(xs, self))
      ensures x in xs <==> x in multiset(xs)
    {
    }
  }

  /** A list without `self` passes the filter unchanged. */
  lemma {:induction false} WithoutSelfAbsent(xs: seq<string>, self: string)
    requires self !in xs
    ensures WithoutSelf(xs, self) == xs
    decreases |xs|
  {
    if xs != [] {
      var n := |xs| - 1;
      assert xs == xs[..n] + [xs[n]];
      assert xs[n] in xs;
      WithoutSelfAbsent(xs[..n], self);
    }
  }

  /**
   * liveNodes: when `order` lists the snapshot's addresses, the filtered
   * endpoints are exactly the endpoints of known addresses other than the
   * node's own, whatever the network.
   */
  lemma LiveNodesMembers(snapshot: Snapshot, order: seq<Address>, self: string)
    requires forall a :: a in order <==> a in snapshot
    ensures forall x :: x in WithoutSelf(Endpoints(order), self) <==>
              x != self && exists a :: a in snapshot && a.address == x
  {
    var e := Endpoints(order);
    WithoutSelfMembers(e, self);
    forall x | x != self && exists a :: a in snapshot && a.address == x
      ensures x in e
    {
      var a :| a in snapshot && a.address == x;
      var i :| 0 <= i < |order| && order[i] == a;
      assert e[i] == x;
    }
  }
}
