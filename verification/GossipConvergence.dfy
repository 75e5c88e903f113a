/**
 Push-pull exchanges among any number of gossipers of pkg/cluster/gossip.go: what a table holds is the newest of
 what has reached it, so nodes that everything has reached agree.
 */
module GossipConvergence {
  import opened Gossip

  /** Node `i` pushes to node `j` and pulls from it; no other table changes. */
  ghost predicate Meets(ts: seq<Table>, i: nat, j: nat, ts': seq<Table>) {
    && |ts'| == |ts| && i < |ts| && j < |ts| && i != j
    && (exists pushed, pulled :: Exchange(ts[i], ts[j], pushed, pulled, ts'[i], ts'[j]))
    && (forall x :: 0 <= x < |ts| && x != i && x != j ==> ts'[x] == ts[x])
  }

  /** The pairs of nodes that meet, one pair after the other. */
  type Meetings = seq<(nat, nat)>

  predicate Among(n: nat, ms: Meetings) {
    ms == [] || (Among(n, ms[..|ms| - 1]) && ms[|ms| - 1].0 < n && ms[|ms| - 1].1 < n)
  }

  /** `ts` is what the tables `init` can become in these meetings. */
  ghost predicate Becomes(init: seq<Table>, ms: Meetings, ts: seq<Table>) {
    if ms == [] then ts == init
    else
      var last := ms[|ms| - 1];
      exists before :: Becomes(init, ms[..|ms| - 1], before) && Meets(before, last.0, last.1, ts)
  }

  /** The nodes whose first table has reached each node. */
  function Heard(n: nat, ms: Meetings): (h: seq<set<nat>>)
    requires Among(n, ms)
    ensures |h| == n
  {
    if ms == [] then seq(n, i requires 0 <= i => {i})
    else
      var h, last := Heard(n, ms[..|ms| - 1]), ms[|ms| - 1];
      var both := h[last.0] + h[last.1];
      h[last.0 := both][last.1 := both]
  }

  ghost predicate AllKeyed(ts: seq<Table>) {
    forall x :: 0 <= x < |ts| ==> WellKeyed(ts[x])
  }

  // ---------- what a table holds ----------

  /** `e` is the entry of `id` in the first table of some node of `from`. */
  ghost predicate FromOne(init: seq<Table>, from: set<nat>, id: NodeId, e: Entry) {
    exists m :: m in from && m < |init| && id in init[m] && init[m][id] == e
  }

  /** None of the entries of `id` in those tables is newer than `e`. */
  ghost predicate Newest(init: seq<Table>, from: set<nat>, id: NodeId, e: Entry) {
    forall m :: m in from && m < |init| && id in init[m] ==> !Newer(init[m][id], e)
  }

  /** The table holds, for `id`, a newest entry of those tables, and none exactly when they have none. */
  ghost predicate Sums(init: seq<Table>, from: set<nat>, t: Table, id: NodeId) {
    if id in t then FromOne(init, from, id, t[id]) && Newest(init, from, id, t[id])
    else forall m :: m in from && m < |init| ==> id !in init[m]
  }

  ghost predicate KeepsOwn(own: Table, t: Table, id: NodeId) {
    id in own ==> id in t && (t[id] == own[id] || Newer(t[id], own[id]))
  }

  /** After an exchange both tables hold a newest entry of what the two had. */
  lemma ExchangeNewest(a: Table, b: Table, pushed: seq<Entry>, pulled: seq<Entry>, a': Table, b': Table, id: NodeId)
    requires WellKeyed(a) && WellKeyed(b) && Exchange(a, b, pushed, pulled, a', b')
    ensures WellKeyed(a') && WellKeyed(b')
    ensures (id in a' <==> id in a || id in b) && (id in b' <==> id in a')
    ensures id in a' ==> (id in a && a'[id] == a[id]) || (id in b && a'[id] == b[id])
    ensures id in b' ==> (id in a && b'[id] == a[id]) || (id in b && b'[id] == b[id])
    ensures id in a ==> !Newer(a[id], a'[id]) && !Newer(a[id], b'[id])
    ensures id in b ==> !Newer(b[id], a'[id]) && !Newer(b[id], b'[id])
    ensures KeepsOwn(a, a', id) && KeepsOwn(b, b', id)
  {
    ExchangeSees(a, b, pushed, pulled, a', b', id);
    if id in b { MergeKeepsOrRaises(b, pushed, id); }
    if id in a { MergeKeepsOrRaises(a, pulled, id); }
  }

  lemma SumsBoth(init: seq<Table>, h: set<nat>, k: set<nat>, a: Table, b: Table, t: Table, id: NodeId)
    requires Sums(init, h, a, id) && Sums(init, k, b, id)
    requires id in t <==> id in a || id in b
    requires id in t ==> (id in a && t[id] == a[id]) || (id in b && t[id] == b[id])
    requires (id in a ==> !Newer(a[id], t[id])) && (id in b ==> !Newer(b[id], t[id]))
    ensures Sums(init, h + k, t, id)
  {
    if id in t {
      if id in a && t[id] == a[id] {
        var m :| m in h && m < |init| && id in init[m] && init[m][id] == a[id];
        assert m in h + k;
      } else {
        var m :| m in k && m < |init| && id in init[m] && init[m][id] == b[id];
        assert m in h + k;
      }
    }
  }

  /** What node `x` knows of `id`, when the tables of `from` have reached it. */
  ghost predicate KnownAt(init: seq<Table>, x: nat, from: set<nat>, t: Table, id: NodeId) {
    x < |init| && WellKeyed(t) && Sums(init, from, t, id) && KeepsOwn(init[x], t, id)
  }

  ghost predicate Known(init: seq<Table>, h: seq<set<nat>>, ts: seq<Table>, id: NodeId) {
    |h| == |ts| == |init| && forall x :: 0 <= x < |ts| ==> KnownAt(init, x, h[x], ts[x], id)
  }

  lemma KeepsOn(own: Table, t: Table, t': Table, id: NodeId)
    requires KeepsOwn(own, t, id) && KeepsOwn(t, t', id)
    ensures KeepsOwn(own, t', id)
  {
  }

  lemma BothKnow(init: seq<Table>, i: nat, j: nat, h: set<nat>, k: set<nat>,
                 a: Table, b: Table, a': Table, b': Table, id: NodeId)
    requires KnownAt(init, i, h, a, id) && KnownAt(init, j, k, b, id)
    requires exists pushed, pulled :: Exchange(a, b, pushed, pulled, a', b')
    ensures KnownAt(init, i, h + k, a', id) && KnownAt(init, j, h + k, b', id)
  {
    var pushed, pulled :| Exchange(a, b, pushed, pulled, a', b');
    ExchangeNewest(a, b, pushed, pulled, a', b', id);
    SumsBoth(init, h, k, a, b, a', id);
    SumsBoth(init, h, k, a, b, b', id);
    KeepsOn(init[i], a, a', id);
    KeepsOn(init[j], b, b', id);
  }

  lemma MeetKnown(init: seq<Table>, h: seq<set<nat>>, ts: seq<Table>, i: nat, j: nat, ts': seq<Table>, id: NodeId)
    requires Known(init, h, ts, id) && Meets(ts, i, j, ts')
    ensures Known(init, h[i := h[i] + h[j]][j := h[i] + h[j]], ts', id)
  {
    var h' := h[i := h[i] + h[j]][j := h[i] + h[j]];
    assert KnownAt(init, i, h[i], ts[i], id) && KnownAt(init, j, h[j], ts[j], id);
    BothKnow(init, i, j, h[i], h[j], ts[i], ts[j], ts'[i], ts'[j], id);
    forall x | 0 <= x < |ts'| ensures KnownAt(init, x, h'[x], ts'[x], id) {
      if x != i && x != j { assert KnownAt(init, x, h[x], ts[x], id); }
    }
  }

  /** Every table holds a newest entry of what has reached it. */
  lemma {:induction false} RunKnown(init: seq<Table>, ms: Meetings, ts: seq<Table>, id: NodeId)
    requires AllKeyed(init) && Becomes(init, ms, ts) && Among(|init|, ms)
    ensures Known(init, Heard(|init|, ms), ts, id)
  {
    if ms != [] {
      var last := ms[|ms| - 1];
      var before :| Becomes(init, ms[..|ms| - 1], before) && Meets(before, last.0, last.1, ts);
      RunKnown(init, ms[..|ms| - 1], before, id);
      MeetKnown(init, Heard(|init|, ms[..|ms| - 1]), before, last.0, last.1, ts, id);
    }
  }

  // ---------- agreement ----------

  function All(n: nat): (s: set<nat>)
    ensures forall x: nat :: x in s <==> x < n
  {
    if n == 0 then {} else All(n - 1) + {n - 1}
  }

  /** Everything has reached everyone. */
  ghost predicate Connected(n: nat, ms: Meetings) {
    Among(n, ms) && forall x :: 0 <= x < n ==> Heard(n, ms)[x] == All(n)
  }

  /** Two nodes started stuck on `id` with entries than which none is newer. */
  ghost predicate StuckAtTop(init: seq<Table>, id: NodeId) {
    exists a, b :: 0 <= a < |init| && 0 <= b < |init| && Stuck(init[a], init[b], id)
                   && Newest(init, All(|init|), id, init[a][id])
  }

  ghost predicate SameState(ts: seq<Table>, id: NodeId) {
    forall x, y :: 0 <= x < |ts| && 0 <= y < |ts| && id in ts[x] && id in ts[y] ==> ts[x][id].state == ts[y][id].state
  }

  /** Nodes that the same tables have reached agree on incarnation and rank. */
  lemma SameHearing(init: seq<Table>, from: set<nat>, t: Table, u: Table, id: NodeId)
    requires Sums(init, from, t, id) && Sums(init, from, u, id)
    ensures Agree(t, u, id)
  {
    if id in t {
      var m :| m in from && m < |init| && id in init[m] && init[m][id] == t[id];
      if id in u {
        var k :| k in from && k < |init| && id in init[k] && init[k][id] == u[id];
      }
    }
  }

  /** An entry than which none is newer stays with its node. */
  lemma TopStays(init: seq<Table>, t: Table, x: nat, id: NodeId)
    requires x < |init| && id in init[x] && Sums(init, All(|init|), t, id) && KeepsOwn(init[x], t, id)
    requires Newest(init, All(|init|), id, init[x][id])
    ensures id in t && t[id] == init[x][id]
  {
    var m :| m in All(|init|) && m < |init| && id in init[m] && init[m][id] == t[id];
  }

  /** Every table holds, for `id`, a newest entry of all the first tables. */
  ghost predicate AllSum(init: seq<Table>, ts: seq<Table>, id: NodeId) {
    && |ts| == |init|
    && (forall x :: 0 <= x < |ts| ==> Sums(init, All(|init|), ts[x], id))
    && (forall x :: 0 <= x < |ts| ==> KeepsOwn(init[x], ts[x], id))
  }

  lemma ConnectedSums(init: seq<Table>, ms: Meetings, ts: seq<Table>, id: NodeId)
    requires AllKeyed(init) && Becomes(init, ms, ts) && Connected(|init|, ms)
    ensures AllSum(init, ts, id)
  {
    RunKnown(init, ms, ts, id);
    forall x | 0 <= x < |ts| ensures Sums(init, All(|init|), ts[x], id) {
      assert Heard(|init|, ms)[x] == All(|init|);
      assert KnownAt(init, x, Heard(|init|, ms)[x], ts[x], id);
    }
    forall x | 0 <= x < |ts| ensures KeepsOwn(init[x], ts[x], id) {
      assert KnownAt(init, x, Heard(|init|, ms)[x], ts[x], id);
    }
  }

  lemma StuckStays(init: seq<Table>, ts: seq<Table>, id: NodeId)
    requires AllSum(init, ts, id) && StuckAtTop(init, id)
    ensures !SameState(ts, id)
  {
    var a, b :| 0 <= a < |init| && 0 <= b < |init| && Stuck(init[a], init[b], id)
                && Newest(init, All(|init|), id, init[a][id]);
    NewestSame(init, All(|init|), id, init[a][id], init[b][id]);
    TopStays(init, ts[a], a, id);
    TopStays(init, ts[b], b, id);
  }

  lemma NewestSame(init: seq<Table>, from: set<nat>, id: NodeId, e: Entry, f: Entry)
    requires Newest(init, from, id, e) && SameRank(e, f)
    ensures Newest(init, from, id, f)
  {
  }

  lemma DifferentIsStuck(init: seq<Table>, t: Table, u: Table, id: NodeId)
    requires Sums(init, All(|init|), t, id) && Sums(init, All(|init|), u, id)
    requires id in t && id in u && t[id].state != u[id].state
    ensures StuckAtTop(init, id)
  {
    SameHearing(init, All(|init|), t, u, id);
    var m :| m in All(|init|) && m < |init| && id in init[m] && init[m][id] == t[id];
    var k :| k in All(|init|) && k < |init| && id in init[k] && init[k][id] == u[id];
    assert Stuck(init[m], init[k], id);
  }

  /**
   When a series of push-pulls has carried everything to everyone, all tables agree on the incarnation and rank of
   every node, and they agree on its state exactly when no two of them started stuck on it with newest entries.
   */
  lemma ConvergesExactly(init: seq<Table>, ms: Meetings, ts: seq<Table>, id: NodeId)
    requires AllKeyed(init) && Becomes(init, ms, ts) && Connected(|init|, ms)
    ensures |ts| == |init|
    ensures forall x, y :: 0 <= x < |ts| && 0 <= y < |ts| ==> Agree(ts[x], ts[y], id)
    ensures SameState(ts, id) <==> !StuckAtTop(init, id)
  {
    ConnectedSums(init, ms, ts, id);
    AllAgree(init, ts, id);
    SameStateExactly(init, ts, id);
  }

  lemma AllAgree(init: seq<Table>, ts: seq<Table>, id: NodeId)
    requires AllSum(init, ts, id)
    ensures forall x, y :: 0 <= x < |ts| && 0 <= y < |ts| ==> Agree(ts[x], ts[y], id)
  {
    forall x, y | 0 <= x < |ts| && 0 <= y < |ts| ensures Agree(ts[x], ts[y], id) {
      SameHearing(init, All(|init|), ts[x], ts[y], id);
    }
  }

  lemma SameStateExactly(init: seq<Table>, ts: seq<Table>, id: NodeId)
    requires AllSum(init, ts, id)
    ensures SameState(ts, id) <==> !StuckAtTop(init, id)
  {
    if StuckAtTop(init, id) {
      StuckStays(init, ts, id);
    } else {
      forall x, y | 0 <= x < |ts| && 0 <= y < |ts| && id in ts[x] && id in ts[y]
        ensures ts[x][id].state == ts[y][id].state
      {
        if ts[x][id].state != ts[y][id].state { DifferentIsStuck(init, ts[x], ts[y], id); }
      }
    }
  }

  /** Table `m` holds `id` at the highest incarnation of all. */
  ghost predicate Highest(init: seq<Table>, id: NodeId, m: nat) {
    m < |init| && id in init[m] &&
    forall k :: 0 <= k < |init| && id in init[k] ==> init[k][id].incarnation <= init[m][id].incarnation
  }

  lemma SumsGravest(init: seq<Table>, from: set<nat>, t: Table, id: NodeId, m: nat)
    requires Sums(init, from, t, id) && Highest(init, id, m) && m in from
    ensures id in t && t[id].incarnation == init[m][id].incarnation && !After(init[m][id].state, t[id].state)
  {
    var k :| k in from && k < |init| && id in init[k] && init[k][id] == t[id];
    assert !Newer(init[m][id], t[id]);
  }

  lemma AllSumGravest(init: seq<Table>, ts: seq<Table>, id: NodeId, m: nat, x: nat)
    requires AllSum(init, ts, id) && Highest(init, id, m) && x < |ts|
    ensures id in ts[x] && ts[x][id].incarnation == init[m][id].incarnation
    ensures !After(init[m][id].state, ts[x][id].state)
  {
    SumsGravest(init, All(|init|), ts[x], id, m);
  }

  /**
   When everything has reached everyone, no table says less of a node than the gravest of the starting entries at
   the highest incarnation: a node that one table then held as inactive is inactive in all of them.
   */
  lemma GravestSpreads(init: seq<Table>, ms: Meetings, ts: seq<Table>, id: NodeId, m: nat, x: nat)
    requires AllKeyed(init) && Becomes(init, ms, ts) && Connected(|init|, ms) && Highest(init, id, m) && x < |ts|
    ensures id in ts[x] && ts[x][id].incarnation == init[m][id].incarnation
    ensures !After(init[m][id].state, ts[x][id].state)
    ensures init[m][id].state == Inactive ==> ts[x][id].state == Inactive
  {
    ConnectedSums(init, ms, ts, id);
    AllSumGravest(init, ts, id, m, x);
  }

  // ---------- a series that connects ----------

  /** Node 0 meets nodes 1 up to `k`. */
  function Round(k: nat): Meetings {
    if k == 0 then [] else Round(k - 1) + [(0, k)]
  }

  /** Node 0 meets everyone twice. */
  function Twice(n: nat, k: nat): Meetings
    requires n > 0
  {
    if k == 0 then Round(n - 1) else Twice(n, k - 1) + [(0, k)]
  }

  lemma HeardMore(n: nat, ms: Meetings, k: nat)
    requires Among(n, ms) && k < n
    ensures Among(n, ms + [(0, k)])
    ensures var h := Heard(n, ms);
            Heard(n, ms + [(0, k)]) == h[0 := h[0] + h[k]][k := h[0] + h[k]]
  {
    assert (ms + [(0, k)])[..|ms|] == ms;
  }

  /** Node 0 has heard of the first `k` nodes, and those from `k` on only of themselves. */
  predicate Gathered(h: seq<set<nat>>, k: nat) {
    && 0 < k <= |h| && h[0] == All(k)
    && forall x :: k <= x < |h| ==> h[x] == {x}
  }

  lemma GatherNext(h: seq<set<nat>>, k: nat)
    requires Gathered(h, k) && k < |h|
    ensures Gathered(h[0 := h[0] + h[k]][k := h[0] + h[k]], k + 1)
  {
  }

  lemma {:induction false} RoundGathers(n: nat, k: nat)
    requires k < n
    ensures Among(n, Round(k)) && Gathered(Heard(n, Round(k)), k + 1)
  {
    if k == 0 {
      assert All(1) == {0};
    } else {
      RoundGathers(n, k - 1);
      HeardMore(n, Round(k - 1), k);
      GatherNext(Heard(n, Round(k - 1)), k);
    }
  }

  lemma {:induction false} TwiceSpreads(n: nat, k: nat)
    requires k < n
    ensures Among(n, Twice(n, k)) && forall x :: 0 <= x <= k ==> Heard(n, Twice(n, k))[x] == All(n)
  {
    if k == 0 {
      RoundGathers(n, n - 1);
    } else {
      var ms := Twice(n, k - 1);
      TwiceSpreads(n, k - 1);
      HeardMore(n, ms, k);
      HeardIsAll(n, ms);
      assert All(n) + Heard(n, ms)[k] == All(n);
    }
  }

  lemma {:induction false} HeardIsAll(n: nat, ms: Meetings)
    requires Among(n, ms)
    ensures forall x :: 0 <= x < n ==> Heard(n, ms)[x] <= All(n)
  {
    if ms != [] { HeardIsAll(n, ms[..|ms| - 1]); }
  }

  /** Among n nodes, 2(n - 1) meetings connect everyone. */
  lemma TwiceConnects(n: nat)
    requires n > 0
    ensures Connected(n, Twice(n, n - 1))
  {
    TwiceSpreads(n, n - 1);
  }
}
