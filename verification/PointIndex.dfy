/**
 Which points an index holds: the bookkeeping half of pkg/index/hnsw/hnsw.go.

 A delete only marks the node, and the ID keeps its place in `idToIndex`.  So an ID can be
 inserted once in the life of an index, and a deleted ID never comes back.  The graph over the
 nodes does not decide which points are held and is not part of this module.
 */
module PointIndex {
  import opened Wrappers

  datatype Error = DimensionMismatch | TooManyNodes | PointExists | PointNotFound | InvalidPoint | NotSerializable | NotActive

  datatype Outcome = Pass | Fail(error: Error)

  /** What one ID is in an index: never inserted, held, or inserted and deleted since. */
  datatype Slot<V> = Absent | Live(value: V) | Dead(value: V)

  datatype Entry<V> = Entry(value: V, deleted: bool)

  /** The held and the deleted IDs of an index. */
  type Index<V> = map<string, Entry<V>>

  function Look<V>(idx: Index<V>, id: string): Slot<V> {
    if id !in idx then Absent
    else if idx[id].deleted then Dead(idx[id].value)
    else Live(idx[id].value)
  }

  function InsertId<V>(idx: Index<V>, id: string, v: V): Index<V> {
    if id in idx then idx else idx[id := Entry(v, false)]
  }

  function DeleteId<V>(idx: Index<V>, id: string): Index<V> {
    if id !in idx then idx else idx[id := idx[id].(deleted := true)]
  }

  /** The points a reader can get. */
  function Contents<V>(idx: Index<V>): map<string, V> {
    map id | id in idx && !idx[id].deleted :: idx[id].value
  }

  /** Two indexes with the same slots are the same index. */
  lemma SameSlots<V>(a: Index<V>, b: Index<V>)
    requires forall id :: Look(a, id) == Look(b, id)
    ensures a == b
  {
    forall id
      ensures id in a <==> id in b
      ensures id in a ==> a[id] == b[id]
    {
      assert Look(a, id) == Look(b, id);
    }
  }

  /** An ID is never held before it is inserted, held with its first value until it is deleted, and never again after. */
  lemma SlotLife<V>(idx: Index<V>, id: string, other: string, v: V)
    ensures Look(InsertId(idx, id, v), id) == if Look(idx, id) == Absent then Live(v) else Look(idx, id)
    ensures Look(DeleteId(idx, id), id) == if Look(idx, id).Live? then Dead(Look(idx, id).value) else Look(idx, id)
    ensures other != id ==> Look(InsertId(idx, id, v), other) == Look(idx, other)
    ensures other != id ==> Look(DeleteId(idx, id), other) == Look(idx, other)
    ensures id in Contents(idx) <==> Look(idx, id).Live?
    ensures id in Contents(idx) ==> Live(Contents(idx)[id]) == Look(idx, id)
  {
  }

  datatype Node<V> = Node(id: string, value: V, deleted: bool)

  /** The number of marked nodes. */
  function Marked<V>(nodes: seq<Node<V>>): (n: nat)
    ensures n <= |nodes|
  {
    if nodes == [] then 0
    else Marked(nodes[..|nodes| - 1]) + if nodes[|nodes| - 1].deleted then 1 else 0
  }

  lemma {:induction false} MarkOne<V>(nodes: seq<Node<V>>, i: nat)
    requires i < |nodes| && !nodes[i].deleted
    ensures Marked(WithMark(nodes, i)) == Marked(nodes) + 1
  {
    var last := |nodes| - 1;
    var marked := WithMark(nodes, i);
    if i < last {
      MarkOne(nodes[..last], i);
      assert marked[..last] == WithMark(nodes[..last], i);
    } else {
      assert marked[..last] == nodes[..last];
    }
  }

  /** The table gives every node's place under its ID. */
  ghost predicate Indexed<V>(nodes: seq<Node<V>>, at: map<string, nat>) {
    && (forall id :: id in at ==> at[id] < |nodes| && nodes[at[id]].id == id)
    && (forall i :: 0 <= i < |nodes| ==> nodes[i].id in at && at[nodes[i].id] == i)
  }

  ghost function ModelOf<V>(nodes: seq<Node<V>>, at: map<string, nat>): Index<V>
    requires Indexed(nodes, at)
  {
    map id | id in at :: Entry(nodes[at[id]].value, nodes[at[id]].deleted)
  }

  lemma IndexedMore<V>(nodes: seq<Node<V>>, at: map<string, nat>, node: Node<V>)
    requires Indexed(nodes, at) && node.id !in at
    ensures Indexed(nodes + [node], at[node.id := |nodes|])
  {
    var more, at' := nodes + [node], at[node.id := |nodes|];
    forall i | 0 <= i < |more| ensures more[i].id in at' && at'[more[i].id] == i {
      if i < |nodes| { assert more[i] == nodes[i]; }
    }
  }

  lemma ModelMore<V>(nodes: seq<Node<V>>, at: map<string, nat>, node: Node<V>)
    requires Indexed(nodes, at) && node.id !in at && Indexed(nodes + [node], at[node.id := |nodes|])
    ensures ModelOf(nodes + [node], at[node.id := |nodes|]) == ModelOf(nodes, at)[node.id := Entry(node.value, node.deleted)]
  {
  }

  function WithMark<V>(nodes: seq<Node<V>>, i: nat): seq<Node<V>>
    requires i < |nodes|
  {
    nodes[i := nodes[i].(deleted := true)]
  }

  lemma IndexedMark<V>(nodes: seq<Node<V>>, at: map<string, nat>, i: nat)
    requires Indexed(nodes, at) && i < |nodes|
    ensures Indexed(WithMark(nodes, i), at)
  {
  }

  lemma ModelMark<V>(nodes: seq<Node<V>>, at: map<string, nat>, id: string)
    requires Indexed(nodes, at) && id in at && Indexed(WithMark(nodes, at[id]), at)
    ensures ModelOf(WithMark(nodes, at[id]), at) == DeleteId(ModelOf(nodes, at), id)
  {
    assert forall other :: other in at && other != id ==> at[other] != at[id];
  }

  lemma IndexedLess<V>(nodes: seq<Node<V>>, at: map<string, nat>)
    requires nodes != [] && Indexed(nodes, at)
    ensures Indexed(nodes[..|nodes| - 1], at - {nodes[|nodes| - 1].id})
  {
    var last := |nodes| - 1;
    assert forall i :: 0 <= i < last ==> nodes[..last][i] == nodes[i];
    assert forall i :: 0 <= i < last ==> at[nodes[i].id] == i;
  }

  const MAX_NODES := 0xffff_ffff

  /** Whether an index takes a point: the right dimension, an ID never used before, and room for one more node. */
  function Admits<V>(fits: V -> bool, idx: Index<V>, id: string, v: V): Outcome {
    if !fits(v) then Fail(DimensionMismatch)
    else if id in idx then Fail(PointExists)
    else if |idx| >= MAX_NODES then Fail(TooManyNodes)
    else Pass
  }

  /** The nodes and the ID table of an HNSW index, with its two counters. */
  class Hnsw<V> {
    /** Whether a value's vector has the dimension of the index. */
    const fits: V -> bool
    var nodes: seq<Node<V>>
    var idToIndex: map<string, nat>
    var nodeCount: nat
    var deletedCount: nat

    ghost predicate Valid()
      reads this
    {
      && Indexed(nodes, idToIndex)
      && nodeCount == |nodes| == |idToIndex|
      && deletedCount == Marked(nodes)
    }

    ghost function Model(): Index<V>
      requires Valid()
      reads this
    {
      ModelOf(nodes, idToIndex)
    }

    constructor (fits: V -> bool)
      ensures Valid() && Model() == map[] && this.fits == fits
    {
      this.fits := fits;
      nodes, idToIndex, nodeCount, deletedCount := [], map[], 0, 0;
    }

    lemma ModelSize()
      requires Valid()
      ensures |Model()| == |nodes| && Model().Keys == idToIndex.Keys
    {
      assert Model().Keys == idToIndex.Keys;
      assert |Model()| == |Model().Keys|;
    }

    method Insert(id: string, v: V) returns (r: Outcome)
      requires Valid()
      modifies this
      ensures Valid()
      ensures Model() == if r.Pass? then InsertId(old(Model()), id, v) else old(Model())
      ensures r == Admits(fits, old(Model()), id, v)
    {
      ModelSize();
      if !fits(v) {
        return Fail(DimensionMismatch);
      }
      if id in idToIndex {
        return Fail(PointExists);
      }
      if |nodes| >= MAX_NODES {
        return Fail(TooManyNodes);
      }
      InsertNode(id, v);
      return Pass;
    }

    method InsertNode(id: string, v: V)
      requires Valid() && id !in idToIndex
      modifies this
      ensures Valid() && Model() == old(Model())[id := Entry(v, false)]
    {
      var node := Node(id, v, false);
      IndexedMore(nodes, idToIndex, node);
      ModelMore(nodes, idToIndex, node);
      idToIndex := idToIndex[id := |nodes|];
      nodes := nodes + [node];
      assert nodes[..|nodes| - 1] == old(nodes);
      nodeCount := nodeCount + 1;
    }

    method Delete(id: string) returns (r: Outcome)
      requires Valid()
      modifies this
      ensures Valid()
      ensures Model() == DeleteId(old(Model()), id)
      ensures r == if id in old(Model()) then Pass else Fail(PointNotFound)
    {
      if id !in idToIndex {
        return Fail(PointNotFound);
      }
      var i := idToIndex[id];
      IndexedMark(nodes, idToIndex, i);
      ModelMark(nodes, idToIndex, id);
      if !nodes[i].deleted {
        MarkOne(nodes, i);
        nodes := WithMark(nodes, i);
        deletedCount := deletedCount + 1;
      } else {
        assert WithMark(nodes, i) == nodes;
      }
      return Pass;
    }

    method Get(id: string) returns (r: Result<V, Error>)
      requires Valid()
      ensures r == if id in Contents(Model()) then Success(Contents(Model())[id]) else Failure(PointNotFound)
    {
      if id !in idToIndex || nodes[idToIndex[id]].deleted {
        return Failure(PointNotFound);
      }
      return Success(nodes[idToIndex[id]].value);
    }

    /** The two counters always give the number of points a reader can get. */
    method Size() returns (n: int)
      requires Valid()
      ensures n == |Contents(Model())|
    {
      ContentsCount(nodes, idToIndex);
      assert Contents(Model()) == ContentsOf(nodes, idToIndex);
      return nodeCount - deletedCount;
    }
  }

  ghost function ContentsOf<V>(nodes: seq<Node<V>>, at: map<string, nat>): map<string, V>
    requires Indexed(nodes, at)
  {
    map id | id in at && !nodes[at[id]].deleted :: nodes[at[id]].value
  }

  lemma ContentsLast<V>(nodes: seq<Node<V>>, at: map<string, nat>)
    requires nodes != [] && Indexed(nodes, at)
    ensures var node, rest := nodes[|nodes| - 1], at - {nodes[|nodes| - 1].id};
            && Indexed(nodes[..|nodes| - 1], rest)
            && node.id !in ContentsOf(nodes[..|nodes| - 1], rest)
            && ContentsOf(nodes, at) == if node.deleted then ContentsOf(nodes[..|nodes| - 1], rest)
                                        else ContentsOf(nodes[..|nodes| - 1], rest)[node.id := node.value]
  {
    IndexedLess(nodes, at);
    assert forall id :: id in at && id != nodes[|nodes| - 1].id ==> at[id] != |nodes| - 1;
  }

  lemma {:induction false} ContentsCount<V>(nodes: seq<Node<V>>, at: map<string, nat>)
    requires Indexed(nodes, at)
    ensures |ContentsOf(nodes, at)| == |nodes| - Marked(nodes)
  {
    if nodes != [] {
      var last := |nodes| - 1;
      ContentsLast(nodes, at);
      ContentsCount(nodes[..last], at - {nodes[last].id});
    } else {
      assert ContentsOf(nodes, at) == map[];
    }
  }
}
