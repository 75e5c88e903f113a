/**
 The consistent-hashing ring of pkg/cluster/cluster.go.

 The hash of a key is a parameter of the ring: nothing here depends on which function it is, and
 two virtual nodes may collide.  `sort.Slice` may leave entries of equal hash in any order, so
 sorting promises a sorted permutation and no more.
 */
module HashRing {
  import opened Wrappers

  datatype Node = Node(id: string, healthy: bool)

  datatype HashEntry = HashEntry(hash: nat, nodeID: string)

  type Ring = seq<HashEntry>

  predicate Sorted(ring: Ring) {
    forall i, j :: 0 <= i < j < |ring| ==> ring[i].hash <= ring[j].hash
  }

  // ---------- walking the ring ----------

  /** Everything before `idx` lies below `h` and everything from `idx` on does not. */
  predicate Splits(ring: Ring, h: nat, idx: nat) {
    && idx <= |ring|
    && (forall i :: 0 <= i < idx ==> ring[i].hash < h)
    && (forall i :: idx <= i < |ring| ==> ring[i].hash >= h)
  }

  function Position(ring: Ring, h: nat): (idx: nat)
    ensures idx <= |ring|
  {
    if ring == [] || ring[0].hash >= h then 0 else 1 + Position(ring[1..], h)
  }

  lemma {:induction false} PositionSplits(ring: Ring, h: nat)
    requires Sorted(ring)
    ensures Splits(ring, h, Position(ring, h))
  {
    if ring != [] && ring[0].hash < h {
      var rest := ring[1..];
      PositionSplits(rest, h);
      var idx := Position(rest, h);
      assert forall i :: 1 <= i < |ring| ==> ring[i] == rest[i - 1];
    }
  }

  lemma SplitUnique(ring: Ring, h: nat, i: nat, j: nat)
    requires Splits(ring, h, i) && Splits(ring, h, j)
    ensures i == j
  {
    assert i < |ring| ==> ring[i].hash >= h;
    assert j < |ring| ==> ring[j].hash >= h;
  }

  /** The entries met going clockwise from `h`, once around. */
  function Walk(ring: Ring, h: nat): Ring {
    ring[Position(ring, h)..] + ring[..Position(ring, h)]
  }

  function Ids(ring: Ring): seq<string> {
    seq(|ring|, i requires 0 <= i < |ring| => ring[i].nodeID)
  }

  /** The different healthy nodes among `ids`, in the order of their first appearance. */
  function Healthy(nodes: map<string, Node>, ids: seq<string>): seq<string> {
    if ids == [] then []
    else
      var init, last := ids[..|ids| - 1], ids[|ids| - 1];
      Healthy(nodes, init) + if last in init || !Up(nodes, last) then [] else [last]
  }

  predicate Up(nodes: map<string, Node>, id: string) {
    id in nodes && nodes[id].healthy
  }

  /** The clockwise list of different healthy nodes for a hash. */
  function Clockwise(nodes: map<string, Node>, ring: Ring, h: nat): seq<string> {
    Healthy(nodes, Ids(Walk(ring, h)))
  }

  predicate NoRepeats(s: seq<string>) {
    forall i, j :: 0 <= i < j < |s| ==> s[i] != s[j]
  }

  lemma {:induction false} HealthyIn(nodes: map<string, Node>, ids: seq<string>, id: string)
    ensures id in Healthy(nodes, ids) <==> id in ids && Up(nodes, id)
  {
    if ids != [] {
      var init, last := ids[..|ids| - 1], ids[|ids| - 1];
      HealthyIn(nodes, init, id);
      assert ids == init + [last];
    }
  }

  lemma {:induction false} HealthyNoRepeats(nodes: map<string, Node>, ids: seq<string>)
    ensures NoRepeats(Healthy(nodes, ids))
  {
    if ids != [] {
      var init, last := ids[..|ids| - 1], ids[|ids| - 1];
      HealthyNoRepeats(nodes, init);
      HealthyIn(nodes, init, last);
    }
  }

  lemma {:induction false} HealthyPrefix(nodes: map<string, Node>, ids: seq<string>, k: nat)
    requires k <= |ids|
    ensures Healthy(nodes, ids[..k]) <= Healthy(nodes, ids)
  {
    if k < |ids| {
      var init := ids[..|ids| - 1];
      HealthyPrefix(nodes, init, k);
      assert init[..k] == ids[..k];
    } else {
      assert ids[..k] == ids;
    }
  }

  // ---------- what clockwise means ----------

  /** Going up from `h` and starting over at the end of the ring, hash `a` is met before hash `b`. */
  predicate Sooner(h: nat, a: nat, b: nat) {
    (a >= h && b < h) || ((a >= h <==> b >= h) && a < b)
  }

  /** The walk meets every entry of the ring, as often as it is there, and none later than one that lies farther on. */
  lemma WalkIsClockwise(ring: Ring, h: nat)
    requires Sorted(ring)
    ensures multiset(Walk(ring, h)) == multiset(ring)
    ensures forall i, j :: 0 <= i < j < |Walk(ring, h)| ==> !Sooner(h, Walk(ring, h)[j].hash, Walk(ring, h)[i].hash)
  {
    var idx := Position(ring, h);
    PositionSplits(ring, h);
    assert ring == ring[..idx] + ring[idx..];
    var w, k := Walk(ring, h), |ring| - idx;
    forall i, j | 0 <= i < j < |w| ensures !Sooner(h, w[j].hash, w[i].hash) {
      assert w[i] == if i < k then ring[idx + i] else ring[i - k];
      assert w[j] == if j < k then ring[idx + j] else ring[j - k];
    }
  }

  /** No entry of the ring is met before `e`. */
  ghost predicate Nearest(ring: Ring, h: nat, e: HashEntry) {
    e in ring && forall f :: f in ring ==> !Sooner(h, f.hash, e.hash)
  }

  lemma FirstIsNearest(ring: Ring, h: nat)
    requires Sorted(ring) && ring != []
    ensures |Walk(ring, h)| == |ring| && Nearest(ring, h, Walk(ring, h)[0])
  {
    WalkIsClockwise(ring, h);
    var w := Walk(ring, h);
    assert w[0] in multiset(w);
    forall f | f in ring ensures !Sooner(h, f.hash, w[0].hash) {
      assert f in multiset(ring) && f in multiset(w);
      var j :| 0 <= j < |w| && w[j] == f;
    }
  }

  /** Nodes are listed in the order of their first appearance. */
  lemma {:induction false} HealthyInOrder(nodes: map<string, Node>, ids: seq<string>, i: nat, j: nat, q: nat) returns (p: nat)
    requires i < j < |Healthy(nodes, ids)| && q < |ids| && ids[q] == Healthy(nodes, ids)[j]
    ensures p < q && ids[p] == Healthy(nodes, ids)[i]
  {
    var init, last := ids[..|ids| - 1], ids[|ids| - 1];
    var h := Healthy(nodes, init);
    HealthyIn(nodes, init, Healthy(nodes, ids)[i]);
    HealthyIn(nodes, init, Healthy(nodes, ids)[j]);
    if j < |h| && q < |init| {
      p := HealthyInOrder(nodes, init, i, j, q);
    } else if j < |h| {
      var k :| 0 <= k < |init| && init[k] == h[j];
      p := HealthyInOrder(nodes, init, i, j, k);
    } else {
      p :| 0 <= p < |init| && init[p] == h[i];
    }
  }

  /**
   A key's nodes are listed by their nearest virtual nodes: whatever virtual node the later one has, the earlier one
   has one that is met no later.
   */
  lemma ClockwiseByNearest(nodes: map<string, Node>, ring: Ring, h: nat, i: nat, j: nat, e: HashEntry)
    returns (f: HashEntry)
    requires Sorted(ring) && i < j < |Clockwise(nodes, ring, h)|
    requires e in ring && e.nodeID == Clockwise(nodes, ring, h)[j]
    ensures f in ring && f.nodeID == Clockwise(nodes, ring, h)[i] && !Sooner(h, e.hash, f.hash)
  {
    var w := Walk(ring, h);
    WalkIsClockwise(ring, h);
    assert e in multiset(ring) && e in multiset(w);
    var q :| 0 <= q < |w| && w[q] == e;
    var p := HealthyInOrder(nodes, Ids(w), i, j, q);
    f := w[p];
    assert f in multiset(w) && f in multiset(ring);
  }

  // ---------- removing a node ----------

  /** The list with `x` deleted. */
  function Others(ids: seq<string>, x: string): (r: seq<string>)
    ensures forall id :: id in r <==> id in ids && id != x
  {
    if ids == [] then []
    else
      var r := Others(ids[..|ids| - 1], x);
      assert ids == ids[..|ids| - 1] + [ids[|ids| - 1]];
      if ids[|ids| - 1] == x then r else r + [ids[|ids| - 1]]
  }

  /** The entries of the ring that satisfy `keep`, in order. */
  function Filter(ring: Ring, keep: HashEntry -> bool): (r: Ring)
    ensures forall e :: e in r <==> e in ring && keep(e)
  {
    if ring == [] then []
    else
      var r := Filter(ring[..|ring| - 1], keep);
      assert ring == ring[..|ring| - 1] + [ring[|ring| - 1]];
      if keep(ring[|ring| - 1]) then r + [ring[|ring| - 1]] else r
  }

  function NotOf(x: string): HashEntry -> bool {
    (e: HashEntry) => e.nodeID != x
  }

  /** The ring without the entries of `x`. */
  function Drop(ring: Ring, x: string): Ring {
    Filter(ring, NotOf(x))
  }

  lemma {:induction false} FilterSorted(ring: Ring, keep: HashEntry -> bool)
    requires Sorted(ring)
    ensures Sorted(Filter(ring, keep))
  {
    if ring != [] {
      var init, last := ring[..|ring| - 1], ring[|ring| - 1];
      FilterSorted(init, keep);
      var r := Filter(init, keep);
      forall i | 0 <= i < |r| ensures r[i].hash <= last.hash {
        assert r[i] in init;
      }
    }
  }

  function Kept(e: HashEntry, keep: HashEntry -> bool): Ring {
    if keep(e) then [e] else []
  }

  lemma FilterLast(a: Ring, e: HashEntry, keep: HashEntry -> bool)
    ensures Filter(a + [e], keep) == Filter(a, keep) + Kept(e, keep)
  {
    assert (a + [e])[..|a|] == a;
  }

  lemma {:induction false} FilterConcat(a: Ring, b: Ring, keep: HashEntry -> bool)
    ensures Filter(a + b, keep) == Filter(a, keep) + Filter(b, keep)
  {
    if b == [] {
      assert a + b == a;
    } else {
      var init, last := b[..|b| - 1], b[|b| - 1];
      FilterConcat(a, init, keep);
      assert b == init + [last];
      Associate(a, init, [last]);
      FilterLast(a + init, last, keep);
      FilterLast(init, last, keep);
      Associate(Filter(a, keep), Filter(init, keep), Kept(last, keep));
    }
  }

  lemma {:induction false} DropIds(ring: Ring, x: string)
    ensures Ids(Drop(ring, x)) == Others(Ids(ring), x)
  {
    if ring != [] {
      var init := ring[..|ring| - 1];
      DropIds(init, x);
      assert Ids(ring)[..|ring| - 1] == Ids(init);
    }
  }

  lemma FilterSplits(ring: Ring, keep: HashEntry -> bool, h: nat, idx: nat)
    requires Splits(ring, h, idx)
    ensures Splits(Filter(ring, keep), h, |Filter(ring[..idx], keep)|)
  {
    var below, above := Filter(ring[..idx], keep), Filter(ring[idx..], keep);
    assert ring == ring[..idx] + ring[idx..];
    FilterConcat(ring[..idx], ring[idx..], keep);
    forall i | 0 <= i < |below| ensures below[i].hash < h {
      assert below[i] in ring[..idx];
    }
    forall i | 0 <= i < |above| ensures above[i].hash >= h {
      assert above[i] in ring[idx..];
    }
  }

  /** Walking part of a ring meets what walking the whole ring meets of it. */
  lemma FilterWalk(ring: Ring, keep: HashEntry -> bool, h: nat)
    requires Sorted(ring)
    ensures Walk(Filter(ring, keep), h) == Filter(Walk(ring, h), keep)
  {
    var idx := Position(ring, h);
    var below, above := ring[..idx], ring[idx..];
    var small := Filter(ring, keep);
    PositionSplits(ring, h);
    FilterSplits(ring, keep, h, idx);
    FilterSorted(ring, keep);
    PositionSplits(small, h);
    SplitUnique(small, h, Position(small, h), |Filter(below, keep)|);
    assert ring == below + above;
    FilterConcat(below, above, keep);
    FilterConcat(above, below, keep);
  }

  lemma {:induction false} HealthyOthers(nodes: map<string, Node>, ids: seq<string>, x: string)
    ensures Healthy(nodes - {x}, Others(ids, x)) == Others(Healthy(nodes, ids), x)
  {
    if ids != [] {
      var init, last := ids[..|ids| - 1], ids[|ids| - 1];
      HealthyOthers(nodes, init, x);
      var h := Healthy(nodes, init);
      assert (h + [last])[..|h|] == h && h + [] == h;
      var r := Others(init, x);
      assert (r + [last])[..|r|] == r;
    }
  }

  /** Removing a node only deletes it from the list of every key. */
  lemma RemoveDisruptsNothingElse(nodes: map<string, Node>, ring: Ring, x: string, h: nat)
    requires Sorted(ring)
    ensures Clockwise(nodes - {x}, Drop(ring, x), h) == Others(Clockwise(nodes, ring, h), x)
  {
    FilterWalk(ring, NotOf(x), h);
    DropIds(Walk(ring, h), x);
    HealthyOthers(nodes, Ids(Walk(ring, h)), x);
  }

  lemma DropFirst(w: Ring, x: string)
    requires w != [] && w[0].nodeID != x
    ensures Drop(w, x) != [] && Drop(w, x)[0] == w[0]
  {
    FilterConcat([w[0]], w[1..], NotOf(x));
    assert [w[0]] + w[1..] == w;
    FilterLast([], w[0], NotOf(x));
    assert [] + [w[0]] == [w[0]];
  }

  /** Removing a node moves only the keys it was responsible for. */
  lemma RemoveMovesOnlyItsKeys(ring: Ring, x: string, h: nat)
    requires Sorted(ring) && ring != [] && Walk(ring, h)[0].nodeID != x
    ensures Drop(ring, x) != [] && Walk(Drop(ring, x), h)[0] == Walk(ring, h)[0]
  {
    FilterWalk(ring, NotOf(x), h);
    DropFirst(Walk(ring, h), x);
  }

  // ---------- adding a node ----------

  /** Different nodes never share a hash. */
  predicate NoCollision(ring: Ring) {
    forall i, j :: 0 <= i < |ring| && 0 <= j < |ring| && ring[i].hash == ring[j].hash ==> ring[i] == ring[j]
  }

  /** `ring'` is a possible ring after entries of `x` were appended and the whole sorted. */
  ghost predicate Extends(ring': Ring, ring: Ring, extra: Ring) {
    Sorted(ring') && multiset(ring') == multiset(ring + extra)
  }

  lemma {:induction false} FilterMultiset(ring: Ring, keep: HashEntry -> bool, e: HashEntry)
    ensures multiset(Filter(ring, keep))[e] == if keep(e) then multiset(ring)[e] else 0
  {
    if ring != [] {
      var init, last := ring[..|ring| - 1], ring[|ring| - 1];
      FilterMultiset(init, keep, e);
      assert ring == init + [last];
      FilterLast(init, last, keep);
    }
  }

  lemma FilterSame(a: Ring, b: Ring, keep: HashEntry -> bool)
    requires multiset(a) == multiset(b)
    ensures multiset(Filter(a, keep)) == multiset(Filter(b, keep))
  {
    forall e ensures multiset(Filter(a, keep))[e] == multiset(Filter(b, keep))[e] {
      FilterMultiset(a, keep, e);
      FilterMultiset(b, keep, e);
    }
  }

  lemma LeastFirst(a: Ring, b: Ring)
    requires Sorted(a) && Sorted(b) && multiset(a) == multiset(b) && NoCollision(b) && a != []
    ensures b != [] && a[0] == b[0]
  {
    assert a[0] in multiset(a) && a[0] in multiset(b);
    var j :| 0 <= j < |b| && b[j] == a[0];
    assert b[0] in multiset(b) && b[0] in multiset(a);
    var i :| 0 <= i < |a| && a[i] == b[0];
  }

  lemma Tail(a: Ring)
    requires a != []
    ensures multiset(a[1..]) == multiset(a) - multiset{a[0]}
  {
    assert a == [a[0]] + a[1..];
  }

  lemma SameTail(a: Ring, b: Ring)
    requires a != [] && b != [] && a[0] == b[0] && multiset(a) == multiset(b)
    ensures multiset(a[1..]) == multiset(b[1..])
  {
    Tail(a);
    Tail(b);
  }

  lemma TailSorted(a: Ring)
    requires a != [] && Sorted(a)
    ensures Sorted(a[1..])
  {
  }

  lemma TailNoCollision(a: Ring)
    requires a != [] && NoCollision(a)
    ensures NoCollision(a[1..])
  {
  }

  /** A sorted arrangement of entries without collisions is the only one. */
  lemma {:induction false} SortedUnique(a: Ring, b: Ring)
    requires Sorted(a) && Sorted(b) && multiset(a) == multiset(b) && NoCollision(b)
    ensures a == b
  {
    if a == [] {
      assert |multiset(b)| == 0;
    } else {
      LeastFirst(a, b);
      TailSorted(a);
      TailSorted(b);
      TailNoCollision(b);
      SameTail(a, b);
      SortedUnique(a[1..], b[1..]);
      assert a == [a[0]] + a[1..] && b == [b[0]] + b[1..];
    }
  }

  predicate Without(ring: Ring, x: string) {
    forall e :: e in ring ==> e.nodeID != x
  }

  predicate AllOf(ring: Ring, x: string) {
    forall e :: e in ring ==> e.nodeID == x
  }

  lemma ExtendsDrop(ring': Ring, ring: Ring, extra: Ring, x: string)
    requires Extends(ring', ring, extra) && Without(ring, x) && AllOf(extra, x)
    ensures multiset(Drop(ring', x)) == multiset(ring)
  {
    forall e ensures multiset(Drop(ring', x))[e] == multiset(ring)[e] {
      FilterMultiset(ring', NotOf(x), e);
      assert multiset(ring + extra)[e] == multiset(ring)[e] + multiset(extra)[e];
      if e.nodeID == x { assert e !in ring; } else { assert e !in extra; }
    }
  }

  // ---------- what the list of a key depends on ----------

  function Serves(nodes: map<string, Node>): HashEntry -> bool {
    (e: HashEntry) => Up(nodes, e.nodeID)
  }

  function UpIds(nodes: map<string, Node>, ids: seq<string>): (r: seq<string>)
    ensures forall id :: id in r <==> id in ids && Up(nodes, id)
  {
    if ids == [] then []
    else
      var r := UpIds(nodes, ids[..|ids| - 1]);
      assert ids == ids[..|ids| - 1] + [ids[|ids| - 1]];
      if Up(nodes, ids[|ids| - 1]) then r + [ids[|ids| - 1]] else r
  }

  lemma {:induction false} ServesIds(nodes: map<string, Node>, ring: Ring)
    ensures Ids(Filter(ring, Serves(nodes))) == UpIds(nodes, Ids(ring))
  {
    if ring != [] {
      var init := ring[..|ring| - 1];
      ServesIds(nodes, init);
      assert Ids(ring)[..|ring| - 1] == Ids(init);
    }
  }

  lemma {:induction false} HealthyOfUp(nodes: map<string, Node>, ids: seq<string>)
    ensures Healthy(nodes, UpIds(nodes, ids)) == Healthy(nodes, ids)
  {
    if ids != [] {
      var init, last := ids[..|ids| - 1], ids[|ids| - 1];
      HealthyOfUp(nodes, init);
      var r := UpIds(nodes, init);
      assert (r + [last])[..|r|] == r;
      assert Healthy(nodes, init) + [] == Healthy(nodes, init);
    }
  }

  /** Entries of nodes that are not healthy never show. */
  lemma ClockwiseOfHealthy(nodes: map<string, Node>, ring: Ring, h: nat)
    requires Sorted(ring)
    ensures Clockwise(nodes, Filter(ring, Serves(nodes)), h) == Clockwise(nodes, ring, h)
  {
    FilterWalk(ring, Serves(nodes), h);
    ServesIds(nodes, Walk(ring, h));
    HealthyOfUp(nodes, Ids(Walk(ring, h)));
  }

  /** Different healthy nodes never share a hash. */
  predicate NoHealthyCollision(nodes: map<string, Node>, ring: Ring) {
    forall i, j ::
      (0 <= i < |ring| && 0 <= j < |ring| && ring[i].hash == ring[j].hash
       && Up(nodes, ring[i].nodeID) && Up(nodes, ring[j].nodeID)) ==> ring[i] == ring[j]
  }

  lemma HealthyPartNoCollision(nodes: map<string, Node>, ring: Ring)
    requires NoHealthyCollision(nodes, ring)
    ensures NoCollision(Filter(ring, Serves(nodes)))
  {
    var r := Filter(ring, Serves(nodes));
    forall i, j | 0 <= i < |r| && 0 <= j < |r| && r[i].hash == r[j].hash ensures r[i] == r[j] {
      assert r[i] in r && r[j] in r;
      var x :| 0 <= x < |ring| && ring[x] == r[i];
      var y :| 0 <= y < |ring| && ring[y] == r[j];
    }
  }

  /** However equal hashes are ordered, the lists are the same when only unhealthy nodes collide. */
  lemma SameLists(nodes: map<string, Node>, ring: Ring, other: Ring, h: nat)
    requires Sorted(ring) && Sorted(other) && multiset(other) == multiset(ring) && NoHealthyCollision(nodes, ring)
    ensures Clockwise(nodes, other, h) == Clockwise(nodes, ring, h)
  {
    var keep := Serves(nodes);
    FilterSorted(ring, keep);
    FilterSorted(other, keep);
    FilterSame(other, ring, keep);
    HealthyPartNoCollision(nodes, ring);
    SortedUnique(Filter(other, keep), Filter(ring, keep));
    ClockwiseOfHealthy(nodes, ring, h);
    ClockwiseOfHealthy(nodes, other, h);
  }

  /** Deleting the new node from the new list leaves the list of the old entries as they are now ordered. */
  lemma WithoutTheNewNode(nodes: map<string, Node>, ring: Ring, ring': Ring, extra: Ring,
        node: Node, h: nat)
    requires Extends(ring', ring, extra) && node.id !in nodes && Without(ring, node.id) && AllOf(extra, node.id)
    ensures Others(Clockwise(nodes[node.id := node], ring', h), node.id) == Clockwise(nodes, Drop(ring', node.id), h)
    ensures Sorted(Drop(ring', node.id)) && multiset(Drop(ring', node.id)) == multiset(ring)
  {
    var nodes' := nodes[node.id := node];
    RemoveDisruptsNothingElse(nodes', ring', node.id, h);
    assert nodes' - {node.id} == nodes;
    FilterSorted(ring', NotOf(node.id));
    ExtendsDrop(ring', ring, extra, node.id);
  }

  /** Adding a new node only inserts it into the list of every key, when no two healthy nodes collide. */
  lemma AddDisruptsNothingElse(nodes: map<string, Node>, ring: Ring, ring': Ring, extra: Ring,
        node: Node, h: nat)
    requires Sorted(ring) && NoHealthyCollision(nodes, ring) && Extends(ring', ring, extra)
    requires node.id !in nodes
    requires Without(ring, node.id) && AllOf(extra, node.id)
    ensures Others(Clockwise(nodes[node.id := node], ring', h), node.id) == Clockwise(nodes, ring, h)
  {
    WithoutTheNewNode(nodes, ring, ring', extra, node, h);
    SameLists(nodes, ring, Drop(ring', node.id), h);
  }

  // ---------- sorting entries in ----------

  function Insert(ring: Ring, e: HashEntry): Ring {
    ring[..Position(ring, e.hash)] + [e] + ring[Position(ring, e.hash)..]
  }

  lemma InsertSorted(ring: Ring, e: HashEntry)
    requires Sorted(ring)
    ensures Sorted(Insert(ring, e))
  {
    PositionSplits(ring, e.hash);
  }

  lemma InsertMultiset(ring: Ring, e: HashEntry)
    ensures multiset(Insert(ring, e)) == multiset(ring) + multiset{e}
  {
    var idx := Position(ring, e.hash);
    assert ring == ring[..idx] + ring[idx..];
  }

  lemma InsertDrop(ring: Ring, e: HashEntry)
    ensures Drop(Insert(ring, e), e.nodeID) == Drop(ring, e.nodeID)
  {
    var x, idx := e.nodeID, Position(ring, e.hash);
    var below, above := ring[..idx], ring[idx..];
    assert ring == below + above;
    FilterConcat(below, above, NotOf(x));
    FilterConcat(below + [e], above, NotOf(x));
    assert (below + [e])[..|below|] == below;
  }

  lemma {:induction false} DropNone(ring: Ring, x: string)
    requires Without(ring, x)
    ensures Drop(ring, x) == ring
  {
    if ring != [] {
      DropNone(ring[..|ring| - 1], x);
      assert ring == ring[..|ring| - 1] + [ring[|ring| - 1]];
    }
  }

  lemma InsertExtends(ring: Ring, extra: Ring, r: Ring, e: HashEntry)
    requires Extends(r, ring, extra)
    ensures Extends(Insert(r, e), ring, extra + [e])
  {
    InsertSorted(r, e);
    InsertMultiset(r, e);
    assert ring + (extra + [e]) == (ring + extra) + [e];
  }

  /** The entries of `extra` sorted in, one by one, without moving the others. */
  function Merged(ring: Ring, extra: Ring): Ring {
    if extra == [] then ring else Insert(Merged(ring, extra[..|extra| - 1]), extra[|extra| - 1])
  }

  lemma {:induction false} MergedExtends(ring: Ring, extra: Ring)
    requires Sorted(ring)
    ensures Extends(Merged(ring, extra), ring, extra)
  {
    if extra == [] {
      assert ring + extra == ring;
    } else {
      var init, last := extra[..|extra| - 1], extra[|extra| - 1];
      MergedExtends(ring, init);
      InsertExtends(ring, init, Merged(ring, init), last);
      assert extra == init + [last];
    }
  }

  lemma {:induction false} MergedDrop(ring: Ring, extra: Ring, x: string)
    requires Without(ring, x) && AllOf(extra, x)
    ensures Drop(Merged(ring, extra), x) == ring
  {
    if extra == [] {
      DropNone(ring, x);
    } else {
      var init, last := extra[..|extra| - 1], extra[|extra| - 1];
      MergedDrop(ring, init, x);
      InsertDrop(Merged(ring, init), last);
      assert last in extra;
    }
  }

  // ---------- when a collision shows in a list ----------

  /** The ring with the entry at `q` moved down to `p`. */
  function Promoted(ring: Ring, p: nat, q: nat): Ring
    requires p <= q < |ring|
  {
    ring[..p] + [ring[q]] + ring[p..q] + ring[q + 1..]
  }

  lemma PromotedSame(ring: Ring, p: nat, q: nat)
    requires p <= q < |ring|
    ensures multiset(Promoted(ring, p, q)) == multiset(ring)
  {
    assert ring == ring[..p] + ring[p..q] + [ring[q]] + ring[q + 1..];
  }

  lemma PromotedHashes(ring: Ring, p: nat, q: nat)
    requires p <= q < |ring| && forall i :: p <= i < q ==> ring[i].hash == ring[q].hash
    ensures var r := Promoted(ring, p, q);
            |r| == |ring| && r[p] == ring[q] && forall i :: 0 <= i < |r| ==> r[i].hash == ring[i].hash
  {
  }

  /** The entry at `q` can stand in front of all entries with its hash. */
  lemma Promote(ring: Ring, q: nat) returns (r: Ring, p: nat)
    requires Sorted(ring) && q < |ring|
    ensures Sorted(r) && multiset(r) == multiset(ring)
    ensures Splits(r, ring[q].hash, p) && p < |r| && r[p] == ring[q]
  {
    var h := ring[q].hash;
    p := Position(ring, h);
    PositionSplits(ring, h);
    assert p <= q;
    r := Promoted(ring, p, q);
    PromotedHashes(ring, p, q);
    PromotedSame(ring, p, q);
  }

  lemma FirstServes(nodes: map<string, Node>, ring: Ring, h: nat, p: nat)
    requires Sorted(ring) && Splits(ring, h, p) && p < |ring| && Up(nodes, ring[p].nodeID)
    ensures Clockwise(nodes, ring, h) != [] && Clockwise(nodes, ring, h)[0] == ring[p].nodeID
  {
    PositionSplits(ring, h);
    SplitUnique(ring, h, p, Position(ring, h));
    var ids := Ids(Walk(ring, h));
    assert ids[0] == ring[p].nodeID;
    HealthyPrefix(nodes, ids, 1);
    assert ids[..1] == [ids[0]] && ids[..1][..0] == [];
    assert Healthy(nodes, ids[..1]) == [ids[0]];
  }

  /** Whatever the sorting and the key, adding the node only inserts it into the list. */
  ghost predicate AddKeepsLists(nodes: map<string, Node>, ring: Ring, extra: Ring, node: Node) {
    forall ring', h :: Extends(ring', ring, extra) ==> KeepsList(nodes, ring, ring', node, h)
  }

  ghost predicate KeepsList(nodes: map<string, Node>, ring: Ring, ring': Ring, node: Node, h: nat) {
    Others(Clockwise(nodes[node.id := node], ring', h), node.id) == Clockwise(nodes, ring, h)
  }

  /** Moving a healthy node ahead of the one that is served changes the list. */
  lemma PromotedShows(nodes: map<string, Node>, ring: Ring, extra: Ring, node: Node, q: nat)
    requires Sorted(ring) && node.id !in nodes && Without(ring, node.id) && AllOf(extra, node.id)
    requires q < |ring| && Up(nodes, ring[q].nodeID)
    requires Clockwise(nodes, ring, ring[q].hash) == [] || Clockwise(nodes, ring, ring[q].hash)[0] != ring[q].nodeID
    ensures !AddKeepsLists(nodes, ring, extra, node)
  {
    var h := ring[q].hash;
    var r, p := Promote(ring, q);
    FirstServes(nodes, r, h, p);
    assert Without(r, node.id) by {
      forall e | e in r ensures e.nodeID != node.id { assert e in multiset(r); }
    }
    var ring' := Merged(r, extra);
    MergedExtends(r, extra);
    MergedDrop(r, extra, node.id);
    assert multiset(r + extra) == multiset(ring + extra);
    assert Extends(ring', ring, extra);
    WithoutTheNewNode(nodes, ring, ring', extra, node, h);
    assert !KeepsList(nodes, ring, ring', node, h);
  }

  /** A new node leaves every list as it was, however it is sorted in, exactly when no two healthy old nodes share a hash. */
  lemma AddKeepsListsExactly(nodes: map<string, Node>, ring: Ring, extra: Ring, node: Node)
    requires Sorted(ring) && node.id !in nodes && Without(ring, node.id) && AllOf(extra, node.id)
    ensures AddKeepsLists(nodes, ring, extra, node) <==> NoHealthyCollision(nodes, ring)
  {
    if NoHealthyCollision(nodes, ring) {
      forall ring', h | Extends(ring', ring, extra) ensures KeepsList(nodes, ring, ring', node, h) {
        AddDisruptsNothingElse(nodes, ring, ring', extra, node, h);
      }
    } else {
      var i, j :| 0 <= i < |ring| && 0 <= j < |ring| && ring[i].hash == ring[j].hash
                  && Up(nodes, ring[i].nodeID) && Up(nodes, ring[j].nodeID) && ring[i] != ring[j];
      var list := Clockwise(nodes, ring, ring[i].hash);
      PromotedShows(nodes, ring, extra, node, if list != [] && list[0] == ring[i].nodeID then j else i);
    }
  }

  // ---------- the ring ----------

  function Decimal(n: nat): string {
    (if n < 10 then "" else Decimal(n / 10)) + ["0123456789"[n % 10]]
  }

  function Value(digits: string): nat {
    if digits == "" then 0
    else
      var c := digits[|digits| - 1];
      Value(digits[..|digits| - 1]) * 10 + if '0' <= c <= '9' then c as int - '0' as int else 0
  }

  /** The number is written out, so different virtual nodes of one node have different labels. */
  lemma {:induction false} DecimalBack(n: nat)
    ensures Value(Decimal(n)) == n
  {
    var digit := "0123456789"[n % 10];
    assert '0' <= digit <= '9' && digit as int - '0' as int == n % 10;
    if n < 10 {
      assert Decimal(n) == [digit] && [digit][..0] == [];
    } else {
      DecimalBack(n / 10);
      assert Decimal(n)[..|Decimal(n)| - 1] == Decimal(n / 10);
    }
  }

  lemma LabelsDiffer(id: string, i: nat, j: nat)
    requires i != j
    ensures id + "-" + Decimal(i) != id + "-" + Decimal(j)
  {
    DecimalBack(i);
    DecimalBack(j);
    assert (id + "-" + Decimal(i))[|id| + 1..] == Decimal(i);
    assert (id + "-" + Decimal(j))[|id| + 1..] == Decimal(j);
  }

  /** The virtual nodes of one node. */
  function Virtual(hash: string -> nat, id: string, count: nat): Ring {
    if count == 0 then [] else Virtual(hash, id, count - 1) + [HashEntry(hash(id + "-" + Decimal(count - 1)), id)]
  }

  lemma {:induction false} VirtualOf(hash: string -> nat, id: string, count: nat)
    ensures |Virtual(hash, id, count)| == count && AllOf(Virtual(hash, id, count), id)
  {
    if count > 0 {
      VirtualOf(hash, id, count - 1);
    }
  }

  /** The ring names exactly the nodes in the map. */
  ghost predicate Names(nodes: map<string, Node>, ring: Ring) {
    && OwnIds(nodes)
    && (forall e :: e in ring ==> e.nodeID in nodes)
    && (forall id :: id in nodes ==> Named(ring, id))
  }

  ghost predicate OwnIds(nodes: map<string, Node>) {
    forall id :: id in nodes ==> nodes[id].id == id
  }

  ghost predicate Named(ring: Ring, id: string) {
    exists e :: e in ring && e.nodeID == id
  }

  lemma ExtendsIn(ring': Ring, ring: Ring, extra: Ring, e: HashEntry)
    requires Extends(ring', ring, extra)
    ensures e in ring' <==> e in ring || e in extra
  {
    assert e in ring' <==> e in multiset(ring');
    assert e in ring + extra <==> e in multiset(ring + extra);
  }

  lemma NamesAdd(nodes: map<string, Node>, ring: Ring, ring': Ring, extra: Ring, node: Node)
    requires Names(nodes, ring) && Extends(ring', ring, extra) && AllOf(extra, node.id) && extra != []
    ensures Names(nodes[node.id := node], ring')
  {
    forall e | e in ring' ensures e.nodeID in nodes[node.id := node] {
      ExtendsIn(ring', ring, extra, e);
    }
    forall id | id in nodes[node.id := node] ensures Named(ring', id) {
      if id == node.id {
        ExtendsIn(ring', ring, extra, extra[0]);
      } else {
        var e :| e in ring && e.nodeID == id;
        ExtendsIn(ring', ring, extra, e);
      }
    }
  }

  lemma NamesRemove(nodes: map<string, Node>, ring: Ring, x: string)
    requires Names(nodes, ring)
    ensures Names(nodes - {x}, Drop(ring, x))
  {
    forall id | id in nodes && id != x ensures Named(Drop(ring, x), id) {
      var e :| e in ring && e.nodeID == id;
      assert e in Drop(ring, x);
    }
  }

  ghost function UpSet(nodes: map<string, Node>): set<string> {
    set id | id in nodes && nodes[id].healthy
  }

  ghost function Members(s: seq<string>): set<string> {
    set id | id in s
  }

  lemma {:induction false} NoRepeatsSize(s: seq<string>)
    requires NoRepeats(s)
    ensures |Members(s)| == |s|
  {
    if s == [] {
      assert Members(s) == {};
    } else {
      var init, last := s[..|s| - 1], s[|s| - 1];
      NoRepeatsSize(init);
      assert s == init + [last];
      assert Members(s) == Members(init) + {last};
    }
  }

  lemma WalkIds(ring: Ring, h: nat, id: string)
    ensures id in Ids(Walk(ring, h)) <==> Named(ring, id)
  {
    var w, idx := Walk(ring, h), Position(ring, h);
    assert ring == ring[..idx] + ring[idx..];
    assert forall e :: e in w <==> e in ring;
    if Named(ring, id) {
      var e :| e in ring && e.nodeID == id;
      var i :| 0 <= i < |w| && w[i] == e;
      assert Ids(w)[i] == id;
    } else {
      assert forall i :: 0 <= i < |w| ==> w[i] in ring && Ids(w)[i] == w[i].nodeID;
    }
  }

  /** The list of any key holds every healthy node once. */
  lemma ClockwiseIsHealthy(nodes: map<string, Node>, ring: Ring, h: nat)
    requires Names(nodes, ring)
    ensures NoRepeats(Clockwise(nodes, ring, h))
    ensures Members(Clockwise(nodes, ring, h)) == UpSet(nodes)
    ensures |Clockwise(nodes, ring, h)| == |UpSet(nodes)|
  {
    var ids := Ids(Walk(ring, h));
    HealthyNoRepeats(nodes, ids);
    forall id ensures id in Clockwise(nodes, ring, h) <==> id in UpSet(nodes) {
      HealthyIn(nodes, ids, id);
      WalkIds(ring, h, id);
    }
    NoRepeatsSize(Clockwise(nodes, ring, h));
  }

  /** `sort.Slice` by hash. */
  method SortByHash(s: Ring) returns (r: Ring)
    ensures Sorted(r) && multiset(r) == multiset(s)
  {
    r := [];
    for i := 0 to |s|
      invariant Sorted(r) && multiset(r) == multiset(s[..i])
    {
      InsertSorted(r, s[i]);
      InsertMultiset(r, s[i]);
      r := Insert(r, s[i]);
      assert s[..i + 1] == s[..i] + [s[i]];
    }
    assert s[..|s|] == s;
  }

  /** `sort.Search` for the first entry at or after `h`. */
  method Search(ring: Ring, h: nat) returns (idx: nat)
    requires Sorted(ring)
    ensures idx == Position(ring, h) && Splits(ring, h, idx)
  {
    var j := |ring|;
    idx := 0;
    while idx < j
      invariant 0 <= idx <= j <= |ring|
      invariant forall i :: 0 <= i < idx ==> ring[i].hash < h
      invariant forall i :: j <= i < |ring| ==> ring[i].hash >= h
    {
      var mid := (idx + j) / 2;
      if ring[mid].hash >= h {
        j := mid;
      } else {
        idx := mid + 1;
      }
    }
    PositionSplits(ring, h);
    SplitUnique(ring, h, idx, Position(ring, h));
  }

  lemma Wrap(a: nat, n: nat)
    requires 0 < n && a < n + n
    ensures a % n == if a < n then a else a - n
  {
    if a >= n {
      assert a == 1 * n + (a - n);
    }
  }

  lemma WalkAt(ring: Ring, h: nat, idx: nat, i: nat)
    requires i < |ring| && idx == if Position(ring, h) >= |ring| then 0 else Position(ring, h)
    ensures |Walk(ring, h)| == |ring| && Walk(ring, h)[i] == ring[(idx + i) % |ring|]
  {
    Wrap(idx + i, |ring|);
  }

  lemma HealthyNext(nodes: map<string, Node>, ids: seq<string>, i: nat)
    requires i < |ids|
    ensures Healthy(nodes, ids[..i + 1])
         == Healthy(nodes, ids[..i]) + if ids[i] in ids[..i] || !Up(nodes, ids[i]) then [] else [ids[i]]
    ensures Members(ids[..i + 1]) == Members(ids[..i]) + {ids[i]}
  {
    assert ids[..i + 1] == ids[..i] + [ids[i]];
    assert ids[..i + 1][..i] == ids[..i];
  }

  lemma MoreIds(r: seq<Node>, node: Node)
    ensures NodeIds(r + [node]) == NodeIds(r) + [node.id]
  {
  }

  /** Nodes of the map that are healthy. */
  ghost predicate Serving(nodes: map<string, Node>, r: seq<Node>) {
    forall i :: 0 <= i < |r| ==> r[i].healthy && r[i].id in nodes && nodes[r[i].id] == r[i]
  }

  /** The walk of `GetNodes` from the entry at `idx`, stopping at `n` nodes. */
  method Collect(nodes: map<string, Node>, ring: Ring, ghost h: nat, idx: nat, n: int) returns (r: seq<Node>)
    requires OwnIds(nodes) && ring != [] && n > 0
    requires idx == if Position(ring, h) >= |ring| then 0 else Position(ring, h)
    ensures Serving(nodes, r) && |r| <= n
    ensures NodeIds(r) <= Clockwise(nodes, ring, h)
    ensures |r| == n || NodeIds(r) == Clockwise(nodes, ring, h)
  {
    ghost var ids := Ids(Walk(ring, h));
    var seen: set<string> := {};
    r := [];
    var i := 0;
    while i < |ring| && |r| < n
      invariant 0 <= i <= |ring| == |ids| && |r| <= n
      invariant seen == Members(ids[..i])
      invariant NodeIds(r) == Healthy(nodes, ids[..i])
      invariant Serving(nodes, r)
    {
      var nodeID := ring[(idx + i) % |ring|].nodeID;
      WalkAt(ring, h, idx, i);
      HealthyNext(nodes, ids, i);
      if nodeID !in seen {
        seen := seen + {nodeID};
        if nodeID in nodes && nodes[nodeID].healthy {
          MoreIds(r, nodes[nodeID]);
          r := r + [nodes[nodeID]];
        }
      }
      i := i + 1;
    }
    HealthyPrefix(nodes, ids, i);
    assert i == |ids| ==> ids[..i] == ids;
  }

  function NodeIds(ns: seq<Node>): seq<string> {
    seq(|ns|, i requires 0 <= i < |ns| => ns[i].id)
  }

  class Consistent {
    const hash: string -> nat
    const virtualNodes: nat
    var nodes: map<string, Node>
    var ring: Ring

    ghost predicate Valid()
      reads this
    {
      virtualNodes >= 1 && Sorted(ring) && Names(nodes, ring)
    }

    constructor (hash: string -> nat, virtualNodes: int)
      ensures Valid() && nodes == map[] && ring == []
      ensures this.hash == hash && this.virtualNodes == if virtualNodes < 1 then 150 else virtualNodes
    {
      this.hash := hash;
      this.virtualNodes := if virtualNodes < 1 then 150 else virtualNodes;
      nodes, ring := map[], [];
    }

    method AddNode(node: Node)
      requires Valid()
      modifies this
      ensures Valid()
      ensures nodes == old(nodes)[node.id := node]
      ensures Extends(ring, old(ring), Virtual(hash, node.id, virtualNodes))
    {
      nodes := nodes[node.id := node];
      var all := ring;
      for i := 0 to virtualNodes
        invariant nodes == old(nodes)[node.id := node] && ring == old(ring)
        invariant all == ring + Virtual(hash, node.id, i)
      {
        all := all + [HashEntry(hash(node.id + "-" + Decimal(i)), node.id)];
      }
      ring := SortByHash(all);
      ghost var extra := Virtual(hash, node.id, virtualNodes);
      VirtualOf(hash, node.id, virtualNodes);
      NamesAdd(old(nodes), old(ring), ring, extra, node);
    }

    method RemoveNode(nodeID: string)
      requires Valid()
      modifies this
      ensures Valid()
      ensures nodes == old(nodes) - {nodeID}
      ensures ring == Drop(old(ring), nodeID)
    {
      nodes := nodes - {nodeID};
      var newRing := [];
      for i := 0 to |ring|
        invariant nodes == old(nodes) - {nodeID} && ring == old(ring)
        invariant newRing == Drop(ring[..i], nodeID)
      {
        assert ring[..i + 1] == ring[..i] + [ring[i]];
        FilterLast(ring[..i], ring[i], NotOf(nodeID));
        if ring[i].nodeID != nodeID {
          newRing := newRing + [ring[i]];
        }
      }
      assert ring[..|ring|] == ring;
      FilterSorted(ring, NotOf(nodeID));
      NamesRemove(old(nodes), ring, nodeID);
      ring := newRing;
    }

    /** The node of the first entry met clockwise, healthy or not. */
    method GetNode(key: string) returns (r: Option<Node>)
      requires Valid()
      ensures r == if ring == [] then None else Some(nodes[Walk(ring, hash(key))[0].nodeID])
      ensures ring != [] ==> exists e :: Nearest(ring, hash(key), e) && r == Some(nodes[e.nodeID])
    {
      if |ring| == 0 {
        return None;
      }
      var idx := Search(ring, hash(key));
      if idx >= |ring| {
        idx := 0;
      }
      WalkAt(ring, hash(key), idx, 0);
      FirstIsNearest(ring, hash(key));
      return Some(nodes[ring[idx].nodeID]);
    }

    method GetNodes(key: string, n: int) returns (r: seq<Node>)
      requires Valid()
      ensures n <= 0 ==> r == []
      ensures n > 0 ==> |r| == if n <= |UpSet(nodes)| then n else |UpSet(nodes)|
      ensures NodeIds(r) <= Clockwise(nodes, ring, hash(key))
      ensures Serving(nodes, r)
      ensures NoRepeats(NodeIds(r))
    {
      ClockwiseIsHealthy(nodes, ring, hash(key));
      if |ring| == 0 || n <= 0 {
        return [];
      }
      var idx := Search(ring, hash(key));
      if idx >= |ring| {
        idx := 0;
      }
      r := Collect(nodes, ring, hash(key), idx, n);
    }
  }
}
