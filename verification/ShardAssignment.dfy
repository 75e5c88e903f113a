/**
 The round-robin shard assignment of pkg/cluster/cluster.go, rerun on every change of membership.

 The node list comes from iterating over a map, so its order is any order.
 */
module ShardAssignment {

  import HashRing

  datatype Shard = Shard(primary: string, replicas: seq<string>)

  /** The node that holds copy `r` of a shard; copy 0 is the primary. */
  function Holder(nodes: seq<string>, shard: nat, r: nat): string
    requires nodes != []
  {
    nodes[(shard % |nodes| + r) % |nodes|]
  }

  function Min(a: int, b: int): int { if a <= b then a else b }

  /** What one rebalance makes of a shard. */
  ghost predicate Assigned(s: Shard, nodes: seq<string>, shard: nat, replication: int)
    requires nodes != []
  {
    && s.primary == Holder(nodes, shard, 0)
    && |s.replicas| == Min(replication, |nodes|) - 1
    && forall r :: 0 <= r < |s.replicas| ==> s.replicas[r] == Holder(nodes, shard, r + 1)
  }

  /** The copies are on different members. */
  ghost predicate Spread(s: Shard, members: set<string>) {
    && s.primary in members && s.primary !in s.replicas
    && HashRing.NoRepeats(s.replicas)
    && forall id :: id in s.replicas ==> id in members
  }

  lemma HolderIndex(n: nat, p: nat, r: nat, q: nat)
    requires p < n && r < q < n
    ensures (p + r) % n != (p + q) % n
  {
    HashRing.Wrap(p + r, n);
    HashRing.Wrap(p + q, n);
  }

  lemma HoldersDiffer(nodes: seq<string>, shard: nat, r: nat, q: nat)
    requires nodes != [] && HashRing.NoRepeats(nodes) && r < q < |nodes|
    ensures Holder(nodes, shard, r) != Holder(nodes, shard, q)
  {
    HolderIndex(|nodes|, shard % |nodes|, r, q);
  }

  /** However the nodes are listed, a shard's copies are on different members. */
  lemma AssignedIsSpread(s: Shard, nodes: seq<string>, shard: nat, replication: int)
    requires nodes != [] && HashRing.NoRepeats(nodes) && replication >= 1
    requires Assigned(s, nodes, shard, replication)
    ensures Spread(s, HashRing.Members(nodes))
    ensures |s.replicas| == Min(replication, |HashRing.Members(nodes)|) - 1
  {
    HashRing.NoRepeatsSize(nodes);
    forall r | 0 <= r < |s.replicas| ensures s.primary != s.replicas[r] {
      HoldersDiffer(nodes, shard, 0, r + 1);
    }
    forall r, q | 0 <= r < q < |s.replicas| ensures s.replicas[r] != s.replicas[q] {
      HoldersDiffer(nodes, shard, r + 1, q + 1);
    }
  }

  // ---------- balance ----------

  /** How many of the first `shards` shards have `id` as their primary. */
  function Primaries(nodes: seq<string>, shards: nat, id: string): nat
    requires nodes != []
  {
    if shards == 0 then 0
    else Primaries(nodes, shards - 1, id) + if Holder(nodes, shards - 1, 0) == id then 1 else 0
  }

  /** Shards 0 up to `shards`, dealt to `n` nodes in turn: what node `i` gets. */
  function Share(shards: nat, n: nat, i: nat): nat
    requires n > 0
  {
    shards / n + if i < shards % n then 1 else 0
  }

  lemma NextDivMod(s: nat, n: nat)
    requires n > 0
    ensures if s % n == n - 1 then (s + 1) / n == s / n + 1 && (s + 1) % n == 0
            else (s + 1) / n == s / n && (s + 1) % n == s % n + 1
  {
    var q, r := s / n, s % n;
    assert s == q * n + r;
    if r == n - 1 {
      assert s + 1 == (q + 1) * n;
      DivModUnique(s + 1, n, q + 1, 0);
    } else {
      DivModUnique(s + 1, n, q, r + 1);
    }
  }

  lemma DivModUnique(a: nat, n: nat, q: nat, r: nat)
    requires n > 0 && r < n && a == q * n + r
    ensures a / n == q && a % n == r
  {
    var q', r' := a / n, a % n;
    assert a == q' * n + r';
    if q' < q {
      MulLess(q', q, n);
    } else if q < q' {
      MulLess(q, q', n);
    }
  }

  lemma MulLess(a: int, b: int, n: nat)
    requires a < b
    ensures a * n + n <= b * n
  {
    var k := b - a - 1;
    assert k * n >= 0;
    assert b * n == (a + 1 + k) * n == a * n + n + k * n;
  }

  lemma {:induction false} PrimariesShare(nodes: seq<string>, shards: nat, i: nat)
    requires HashRing.NoRepeats(nodes) && i < |nodes|
    ensures Primaries(nodes, shards, nodes[i]) == Share(shards, |nodes|, i)
  {
    if shards > 0 {
      var s, n := shards - 1, |nodes|;
      PrimariesShare(nodes, s, i);
      NextDivMod(s, n);
      HashRing.Wrap(s % n, n);
      assert Holder(nodes, s, 0) == nodes[s % n];
      assert Holder(nodes, s, 0) == nodes[i] <==> s % n == i;
    }
  }

  /** No node is primary for more than one shard beyond any other. */
  lemma Balanced(nodes: seq<string>, shards: nat, a: string, b: string)
    requires HashRing.NoRepeats(nodes) && a in nodes && b in nodes
    ensures Primaries(nodes, shards, a) <= Primaries(nodes, shards, b) + 1
  {
    var i :| 0 <= i < |nodes| && nodes[i] == a;
    var j :| 0 <= j < |nodes| && nodes[j] == b;
    PrimariesShare(nodes, shards, i);
    PrimariesShare(nodes, shards, j);
  }

  // ---------- the manager ----------

  /** How many shards have `id` as their primary. */
  ghost function PrimaryCount(shards: map<nat, Shard>, count: nat, id: string): nat
    requires forall i :: 0 <= i < count ==> i in shards
  {
    if count == 0 then 0
    else PrimaryCount(shards, count - 1, id) + if shards[count - 1].primary == id then 1 else 0
  }

  lemma {:induction false} CountPrimaries(shards: map<nat, Shard>, count: nat, nodes: seq<string>, replication: int,
        id: string)
    requires nodes != []
    requires forall i :: 0 <= i < count ==> i in shards && Assigned(shards[i], nodes, i, replication)
    ensures PrimaryCount(shards, count, id) == Primaries(nodes, count, id)
  {
    if count > 0 {
      CountPrimaries(shards, count - 1, nodes, replication, id);
    }
  }

  function Unassigned(count: nat): (shards: map<nat, Shard>)
    ensures forall i: nat :: i in shards <==> i < count
  {
    if count == 0 then map[] else Unassigned(count - 1)[count - 1 := Shard("", [])]
  }

  class ShardManager {
    const shardCount: nat
    const replication: int
    const hashRing: HashRing.Consistent
    var shards: map<nat, Shard>

    ghost predicate Valid()
      reads this, hashRing
    {
      && hashRing.Valid()
      && forall i: nat :: i in shards <==> i < shardCount
    }

    /** Every shard has a primary and its replicas on different members, as evenly as possible. */
    ghost predicate Balance()
      requires Valid()
      reads this, hashRing
    {
      var members := hashRing.nodes.Keys;
      && (forall i :: 0 <= i < shardCount ==>
            Spread(shards[i], members) && |shards[i].replicas| == Min(replication, |members|) - 1)
      && (forall a, b :: a in members && b in members ==>
            PrimaryCount(shards, shardCount, a) <= PrimaryCount(shards, shardCount, b) + 1)
    }

    constructor (hash: string -> nat, shardCount: int, replication: int)
      ensures Valid() && fresh(hashRing) && hashRing.nodes == map[]
      ensures this.shardCount == if shardCount < 0 then 16 else shardCount
      ensures this.replication == replication
    {
      var count := if shardCount < 0 then 16 else shardCount;
      this.shardCount := count;
      this.replication := replication;
      hashRing := new HashRing.Consistent(hash, 150);
      shards := Unassigned(count);
    }

    method AddNode(node: HashRing.Node)
      requires Valid() && replication >= 1
      modifies this, hashRing
      ensures Valid() && Balance()
      ensures hashRing.nodes == old(hashRing.nodes)[node.id := node]
    {
      hashRing.AddNode(node);
      assert node.id in hashRing.nodes;
      RebalanceShards();
    }

    method RemoveNode(nodeID: string)
      requires Valid() && replication >= 1
      modifies this, hashRing
      ensures Valid()
      ensures hashRing.nodes == old(hashRing.nodes) - {nodeID}
      ensures hashRing.nodes != map[] ==> Balance()
      ensures hashRing.nodes == map[] ==> shards == old(shards)
    {
      hashRing.RemoveNode(nodeID);
      RebalanceShards();
    }

    method RebalanceShards()
      requires Valid() && replication >= 1
      modifies this
      ensures Valid()
      ensures hashRing.nodes != map[] ==> Balance()
      ensures hashRing.nodes == map[] ==> shards == old(shards)
    {
      var nodes := AllNodes(hashRing.nodes);
      if |nodes| == 0 {
        return;
      }
      for shardID := 0 to shardCount
        invariant Valid()
        invariant forall i :: 0 <= i < shardID ==> Assigned(shards[i], nodes, i, replication)
      {
        var s := Assign(nodes, shardID, replication);
        shards := shards[shardID := s];
      }
      BalanceOf(nodes);
    }

    lemma BalanceOf(nodes: seq<string>)
      requires Valid() && replication >= 1
      requires nodes != [] && HashRing.NoRepeats(nodes) && HashRing.Members(nodes) == hashRing.nodes.Keys
      requires forall i :: 0 <= i < shardCount ==> Assigned(shards[i], nodes, i, replication)
      ensures Balance()
    {
      forall i | 0 <= i < shardCount
        ensures Spread(shards[i], hashRing.nodes.Keys)
        ensures |shards[i].replicas| == Min(replication, |hashRing.nodes.Keys|) - 1
      {
        AssignedIsSpread(shards[i], nodes, i, replication);
      }
      forall a, b | a in hashRing.nodes.Keys && b in hashRing.nodes.Keys
        ensures PrimaryCount(shards, shardCount, a) <= PrimaryCount(shards, shardCount, b) + 1
      {
        CountPrimaries(shards, shardCount, nodes, replication, a);
        CountPrimaries(shards, shardCount, nodes, replication, b);
        Balanced(nodes, shardCount, a, b);
      }
    }
  }

  /** The node IDs in the order the map gives them. */
  method AllNodes(nodes: map<string, HashRing.Node>) returns (ids: seq<string>)
    ensures HashRing.NoRepeats(ids) && HashRing.Members(ids) == nodes.Keys
  {
    ids := [];
    var todo := nodes.Keys;
    while todo != {}
      invariant todo <= nodes.Keys
      invariant HashRing.NoRepeats(ids) && HashRing.Members(ids) == nodes.Keys - todo
      decreases |todo|
    {
      var id :| id in todo;
      assert id !in HashRing.Members(ids);
      assert HashRing.Members(ids + [id]) == HashRing.Members(ids) + {id};
      ids := ids + [id];
      todo := todo - {id};
    }
  }

  method Assign(nodes: seq<string>, shardID: nat, replication: int) returns (s: Shard)
    requires nodes != [] && replication >= 1
    ensures Assigned(s, nodes, shardID, replication)
  {
    var primaryIdx := shardID % |nodes|;
    var replicas := [];
    var r := 1;
    while r < replication && r < |nodes|
      invariant 1 <= r <= Min(replication, |nodes|) && |replicas| == r - 1
      invariant forall q :: 0 <= q < r - 1 ==> replicas[q] == Holder(nodes, shardID, q + 1)
    {
      replicas := replicas + [nodes[(primaryIdx + r) % |nodes|]];
      r := r + 1;
    }
    HashRing.Wrap(primaryIdx, |nodes|);
    s := Shard(nodes[primaryIdx], replicas);
  }
}
