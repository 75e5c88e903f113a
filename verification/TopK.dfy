/**
 Merging the search results of the shards, from pkg/collection/shard.go: concatenate in order of
 arrival, sort by distance in place, keep the first `k`.
 */
module TopK {
  import opened Wrappers

  datatype Candidate = Candidate(id: string, distance: real)

  datatype ShardResult = Found(candidates: seq<Candidate>) | Failed

  predicate Ascending(s: seq<Candidate>) {
    forall i, j :: 0 <= i < j < |s| ==> s[i].distance <= s[j].distance
  }

  // ---------- sorting in place ----------

  /** No element from `i` on is smaller than one before `i`. */
  predicate Below(s: seq<Candidate>, i: nat) {
    forall x, y :: 0 <= x < i <= y < |s| ==> s[x].distance <= s[y].distance
  }

  method SortCandidates(a: array<Candidate>)
    modifies a
    ensures Ascending(a[..]) && multiset(a[..]) == multiset(old(a[..]))
  {
    var i := 0;
    while i < a.Length - 1
      invariant 0 <= i && (i == 0 || i < a.Length)
      invariant Ascending(a[..i]) && Below(a[..], i)
      invariant multiset(a[..]) == multiset(old(a[..]))
    {
      ghost var s := a[..];
      SelectSmallest(a, i);
      assert a[..][..i] == a[..i] && a[..][i..] == a[i..];
      NextSmallest(s, a[..], i);
      SameHeadSameRest(s, a[..], i);
      i := i + 1;
    }
    AscendingWhole(a[..], i);
  }

  lemma AscendingWhole(s: seq<Candidate>, i: nat)
    requires i <= |s| <= i + 1 && Ascending(s[..i]) && Below(s, i)
    ensures Ascending(s)
  {
    assert forall x :: 0 <= x < i ==> s[..i][x] == s[x];
  }

  lemma NextSmallest(s: seq<Candidate>, t: seq<Candidate>, i: nat)
    requires i < |s| == |t| && Ascending(s[..i]) && Below(s, i) && t[..i] == s[..i]
    requires multiset(t[i..]) == multiset(s[i..])
    requires forall y :: i < y < |t| ==> t[i].distance <= t[y].distance
    ensures Ascending(t[..i + 1]) && Below(t, i + 1)
  {
    forall x, y | 0 <= x < i <= y < |t| ensures t[x].distance <= t[y].distance {
      assert t[i..][y - i] in multiset(s[i..]);
      var z :| 0 <= z < |s[i..]| && s[i..][z] == t[y];
      assert t[..i][x] == s[..i][x];
      assert s[x].distance <= s[i + z].distance;
    }
    assert forall x :: 0 <= x < i ==> t[..i][x] == t[x] == s[..i][x];
  }

  lemma SameHeadSameRest(s: seq<Candidate>, t: seq<Candidate>, i: nat)
    requires i <= |s| == |t| && t[..i] == s[..i] && multiset(t[i..]) == multiset(s[i..])
    ensures multiset(t) == multiset(s)
  {
    assert s == s[..i] + s[i..] && t == t[..i] + t[i..];
  }

  lemma SwapSame(s: seq<Candidate>, i: nat, j: nat)
    requires i <= j < |s|
    ensures multiset(s[i := s[j]][j := s[i]][i..]) == multiset(s[i..])
    ensures s[i := s[j]][j := s[i]][..i] == s[..i]
  {
    var t := s[i..];
    assert s[i := s[j]][j := s[i]][i..] == t[0 := t[j - i]][j - i := t[0]];
  }

  method Swap(a: array<Candidate>, i: nat, j: nat)
    requires i < j < a.Length
    modifies a
    ensures a[i] == old(a[j]) && a[j] == old(a[i])
    ensures forall y :: 0 <= y < a.Length && y != i && y != j ==> a[y] == old(a[y])
    ensures a[..i] == old(a[..i]) && multiset(a[i..]) == multiset(old(a[i..]))
  {
    ghost var s := a[..];
    SwapSame(s, i, j);
    a[i], a[j] := a[j], a[i];
    assert a[..] == s[i := s[j]][j := s[i]];
    assert a[i..] == a[..][i..] && a[..i] == a[..][..i];
    assert s[i..] == old(a[i..]) && s[..i] == old(a[..i]);
  }

  /** One pass of the inner loop: the smallest element from `i` on moves to `i`. */
  method SelectSmallest(a: array<Candidate>, i: nat)
    requires i < a.Length
    modifies a
    ensures a[..i] == old(a[..i]) && multiset(a[i..]) == multiset(old(a[i..]))
    ensures forall y :: i < y < a.Length ==> a[i].distance <= a[y].distance
  {
    var j := i + 1;
    while j < a.Length
      invariant i < j <= a.Length
      invariant a[..i] == old(a[..i]) && multiset(a[i..]) == multiset(old(a[i..]))
      invariant forall y :: i < y < j ==> a[i].distance <= a[y].distance
    {
      if a[j].distance < a[i].distance {
        Swap(a, i, j);
      }
      j := j + 1;
    }
  }

  // ---------- the k smallest ----------

  function Min(a: nat, b: nat): nat { if a <= b then a else b }

  /** `some` holds the `k` smallest of `all`, or all when there are fewer. */
  ghost predicate KSmallest(some: multiset<Candidate>, all: multiset<Candidate>, k: nat) {
    && some <= all && |some| == Min(k, |all|)
    && forall x, y :: x in some && y in all - some ==> x.distance <= y.distance
  }

  lemma HeadNotFarther(head: seq<Candidate>, tail: seq<Candidate>, x: Candidate, y: Candidate)
    requires Ascending(head + tail) && x in head && y in tail
    ensures x.distance <= y.distance
  {
    var i :| 0 <= i < |head| && head[i] == x;
    var j :| 0 <= j < |tail| && tail[j] == y;
    assert (head + tail)[i] == x && (head + tail)[|head| + j] == y;
  }

  lemma PrefixKSmallest(s: seq<Candidate>, k: nat)
    requires Ascending(s)
    ensures KSmallest(multiset(s[..Min(k, |s|)]), multiset(s), k)
  {
    var n := Min(k, |s|);
    var head, tail := s[..n], s[n..];
    assert s == head + tail;
    assert multiset(s) - multiset(head) == multiset(tail);
    forall x: Candidate, y: Candidate | x in multiset(head) && y in multiset(tail)
      ensures x.distance <= y.distance
    {
      HeadNotFarther(head, tail, x, y);
    }
  }

  /** One shard: the candidates it returned and all it holds. */
  datatype Part = Part(found: multiset<Candidate>, held: multiset<Candidate>)

  function AllFound(parts: seq<Part>): multiset<Candidate> {
    if parts == [] then multiset{} else AllFound(parts[..|parts| - 1]) + parts[|parts| - 1].found
  }

  function AllHeld(parts: seq<Part>): multiset<Candidate> {
    if parts == [] then multiset{} else AllHeld(parts[..|parts| - 1]) + parts[|parts| - 1].held
  }

  ghost predicate EachKSmallest(parts: seq<Part>, k: nat) {
    forall i :: 0 <= i < |parts| ==> KSmallest(parts[i].found, parts[i].held, k)
  }

  lemma {:induction false} FoundPart(parts: seq<Part>, i: nat)
    requires i < |parts|
    ensures parts[i].found <= AllFound(parts)
  {
    if i < |parts| - 1 {
      FoundPart(parts[..|parts| - 1], i);
    }
  }

  lemma {:induction false} FoundInHeld(parts: seq<Part>, k: nat)
    requires EachKSmallest(parts, k)
    ensures AllFound(parts) <= AllHeld(parts)
  {
    if parts != [] {
      var n := |parts| - 1;
      FoundInHeld(parts[..n], k);
      assert KSmallest(parts[n].found, parts[n].held, k);
    }
  }

  /** A candidate that got lost was lost in some shard. */
  lemma {:induction false} LostSomewhere(parts: seq<Part>, y: Candidate) returns (i: nat)
    requires AllFound(parts)[y] < AllHeld(parts)[y]
    ensures i < |parts| && parts[i].found[y] < parts[i].held[y]
  {
    var n := |parts| - 1;
    if parts[n].found[y] < parts[n].held[y] {
      i := n;
    } else {
      i := LostSomewhere(parts[..n], y);
    }
  }

  lemma SubSize(a: multiset<Candidate>, b: multiset<Candidate>)
    requires a <= b
    ensures |a| <= |b| && (|a| == |b| ==> a == b)
  {
    assert b == a + (b - a);
    if |a| == |b| { assert |b - a| == 0; }
  }

  /** Taking the `k` smallest of each shard first loses none of the `k` smallest overall. */
  lemma {:induction false} SameMany(parts: seq<Part>, k: nat)
    requires EachKSmallest(parts, k)
    ensures Min(k, |AllFound(parts)|) == Min(k, |AllHeld(parts)|)
  {
    if parts != [] {
      var n := |parts| - 1;
      SameMany(parts[..n], k);
      FoundInHeld(parts[..n], k);
      SubSize(AllFound(parts[..n]), AllHeld(parts[..n]));
      assert KSmallest(parts[n].found, parts[n].held, k);
    }
  }

  /** A shard that left something out returned `k` candidates, none of them farther away. */
  lemma LeftOut(some: multiset<Candidate>, all: multiset<Candidate>, k: nat, y: Candidate)
    requires KSmallest(some, all, k) && some[y] < all[y]
    ensures |some| == k && forall z :: z in some ==> z.distance <= y.distance
  {
    SubSize(some, all);
    assert y in all - some;
  }

  /** `k` candidates near by leave no room for one farther away. */
  lemma NoRoom(near: multiset<Candidate>, top: multiset<Candidate>, from: multiset<Candidate>,
        k: nat, x: Candidate, y: Candidate)
    requires KSmallest(top, from, k) && near <= from && |near| == k
    requires forall z :: z in near ==> z.distance <= y.distance
    requires x in top
    ensures x.distance <= y.distance
  {
    if z :| z in near && top[z] < near[z] {
      assert z in from - top;
    } else {
      NoneExtra(near, top, x);
    }
  }

  lemma NoneExtra(near: multiset<Candidate>, top: multiset<Candidate>, x: Candidate)
    requires (forall z :: z in near ==> near[z] <= top[z]) && x in top && |top| <= |near|
    ensures x in near
  {
    assert near <= top;
    SubSize(near, top);
  }

  lemma MergedOrder(parts: seq<Part>, top: multiset<Candidate>, k: nat, x: Candidate, y: Candidate)
    requires EachKSmallest(parts, k) && KSmallest(top, AllFound(parts), k)
    requires x in top && y in AllHeld(parts) - top
    ensures x.distance <= y.distance
  {
    if y !in AllFound(parts) - top {
      assert AllFound(parts)[y] < AllHeld(parts)[y];
      var i := LostSomewhere(parts, y);
      LeftOut(parts[i].found, parts[i].held, k, y);
      FoundPart(parts, i);
      NoRoom(parts[i].found, top, AllFound(parts), k, x, y);
    }
  }

  /** The `k` smallest of what the shards returned are the `k` smallest of what they hold. */
  lemma MergedKSmallest(parts: seq<Part>, top: multiset<Candidate>, k: nat)
    requires EachKSmallest(parts, k) && KSmallest(top, AllFound(parts), k)
    ensures KSmallest(top, AllHeld(parts), k)
  {
    FoundInHeld(parts, k);
    SameMany(parts, k);
    forall x, y | x in top && y in AllHeld(parts) - top ensures x.distance <= y.distance {
      MergedOrder(parts, top, k, x, y);
    }
  }

  /** Some element of a larger collection is not used up by a smaller one. */
  lemma Spare(m: multiset<Candidate>, n: multiset<Candidate>) returns (z: Candidate)
    requires |n| < |m|
    ensures z in m && n[z] < m[z]
  {
    if forall z :: z in m ==> m[z] <= n[z] {
      assert m <= n;
      SubSize(m, n);
    }
    z :| z in m && n[z] < m[z];
  }

  lemma PrefixBelow(a: seq<Candidate>, i: nat, z: Candidate)
    requires i < |a| && Ascending(a) && z in multiset(a[..i + 1])
    ensures z.distance <= a[i].distance
  {
    var j :| 0 <= j < i + 1 && a[..i + 1][j] == z;
  }

  lemma RestAbove(b: seq<Candidate>, i: nat, z: Candidate)
    requires i < |b| && Ascending(b) && multiset(b[..i])[z] < multiset(b)[z]
    ensures b[i].distance <= z.distance
  {
    assert b == b[..i] + b[i..];
    assert z in multiset(b[i..]);
    var j :| 0 <= j < |b| - i && b[i..][j] == z;
    assert b[i].distance <= b[i + j].distance;
  }

  lemma NotFarther(a: seq<Candidate>, b: seq<Candidate>, all: multiset<Candidate>, k: nat, i: nat)
    requires Ascending(a) && Ascending(b) && i < |a| && i < |b|
    requires KSmallest(multiset(a), all, k) && KSmallest(multiset(b), all, k)
    ensures b[i].distance <= a[i].distance
  {
    var first := multiset(a[..i + 1]);
    assert a == a[..i + 1] + a[i + 1..];
    assert first <= multiset(a);
    var z := Spare(first, multiset(b[..i]));
    PrefixBelow(a, i, z);
    if multiset(b)[z] < first[z] {
      assert z in all - multiset(b) && b[i] in multiset(b);
    } else {
      RestAbove(b, i, z);
    }
  }

  /** The distances of the `k` nearest in ascending order are determined: no two answers differ in them. */
  lemma SameDistances(a: seq<Candidate>, b: seq<Candidate>, all: multiset<Candidate>, k: nat)
    requires Ascending(a) && Ascending(b)
    requires KSmallest(multiset(a), all, k) && KSmallest(multiset(b), all, k)
    ensures |a| == |b| && forall i :: 0 <= i < |a| ==> a[i].distance == b[i].distance
  {
    assert |multiset(a)| == |a| && |multiset(b)| == |b|;
    forall i | 0 <= i < |a| ensures a[i].distance == b[i].distance {
      NotFarther(a, b, all, k, i);
      NotFarther(b, a, all, k, i);
    }
  }

  // ---------- collecting ----------

  function Collected(arrivals: seq<ShardResult>): seq<Candidate> {
    if arrivals == [] then []
    else
      Collected(arrivals[..|arrivals| - 1])
      + match arrivals[|arrivals| - 1] case Found(cs) => cs case Failed => []
  }

  method Collect(arrivals: seq<ShardResult>) returns (all: seq<Candidate>)
    ensures all == Collected(arrivals)
  {
    all := [];
    for i := 0 to |arrivals|
      invariant all == Collected(arrivals[..i])
    {
      assert arrivals[..i + 1][..i] == arrivals[..i];
      if arrivals[i].Found? {
        all := all + arrivals[i].candidates;
      }
    }
    assert arrivals[..|arrivals|] == arrivals;
  }

  method SortAndCut(all: seq<Candidate>, k: nat) returns (r: seq<Candidate>)
    ensures Ascending(r) && KSmallest(multiset(r), multiset(all), k)
  {
    var a := new Candidate[|all|](i requires 0 <= i < |all| => all[i]);
    assert a[..] == all;
    SortCandidates(a);
    r := a[..];
    PrefixKSmallest(r, k);
    if |r| > k {
      r := r[..k];
    } else {
      assert r[..|r|] == r;
    }
  }

  /** The results of the shards, in the order they arrive; failed shards are skipped. */
  method Merge(arrivals: seq<ShardResult>, k: nat) returns (r: seq<Candidate>)
    ensures Serves(r, multiset(Collected(arrivals)), k)
  {
    var all := Collect(arrivals);
    r := SortAndCut(all, k);
  }

  /** The shards that answered: what each found and what it holds. */
  function Answered(arrivals: seq<ShardResult>, held: seq<multiset<Candidate>>): seq<Part>
    requires |arrivals| == |held|
  {
    if arrivals == [] then []
    else
      var n := |arrivals| - 1;
      Answered(arrivals[..n], held[..n])
      + match arrivals[n] case Found(cs) => [Part(multiset(cs), held[n])] case Failed => []
  }

  lemma {:induction false} CollectedIsFound(arrivals: seq<ShardResult>, held: seq<multiset<Candidate>>)
    requires |arrivals| == |held|
    ensures multiset(Collected(arrivals)) == AllFound(Answered(arrivals, held))
  {
    if arrivals != [] {
      var n := |arrivals| - 1;
      CollectedIsFound(arrivals[..n], held[..n]);
      if arrivals[n].Found? {
        var parts, part := Answered(arrivals[..n], held[..n]), Part(multiset(arrivals[n].candidates), held[n]);
        assert (parts + [part])[..|parts|] == parts;
        assert AllFound(parts + [part]) == AllFound(parts) + part.found;
      } else {
        assert Answered(arrivals, held) == Answered(arrivals[..n], held[..n]);
        assert Collected(arrivals) == Collected(arrivals[..n]);
      }
    }
  }

  /**
   When every shard that answers returns its own `k` nearest, the merged list is the `k` nearest of
   those shards together, whatever order the results arrive in and whichever shards fail.
   */
  lemma SearchIsGlobal(arrivals: seq<ShardResult>, held: seq<multiset<Candidate>>,
        r: seq<Candidate>, k: nat)
    requires |arrivals| == |held| && EachKSmallest(Answered(arrivals, held), k)
    requires KSmallest(multiset(r), multiset(Collected(arrivals)), k)
    ensures KSmallest(multiset(r), AllHeld(Answered(arrivals, held)), k)
  {
    CollectedIsFound(arrivals, held);
    MergedKSmallest(Answered(arrivals, held), multiset(r), k);
  }

  // ---------- any order of arrival ----------

  function FoundBy(r: ShardResult): seq<Candidate> {
    match r
    case Found(cs) => cs
    case Failed => []
  }

  lemma CollectedMore(a: seq<ShardResult>, r: ShardResult)
    ensures Collected(a + [r]) == Collected(a) + FoundBy(r)
  {
    assert (a + [r])[..|a|] == a;
  }

  lemma CollectedGrow(a: seq<ShardResult>, init: seq<ShardResult>, r: ShardResult, b: seq<ShardResult>)
    requires Collected(a + init) == Collected(a) + Collected(init) && b == init + [r]
    ensures Collected(a + b) == Collected(a) + Collected(b)
  {
    CollectedMore(a + init, r);
    CollectedMore(init, r);
    Associate(a, init, [r]);
    Associate(Collected(a), Collected(init), FoundBy(r));
  }

  lemma {:induction false} CollectedSplit(a: seq<ShardResult>, b: seq<ShardResult>)
    ensures Collected(a + b) == Collected(a) + Collected(b)
  {
    if b == [] {
      assert a + b == a;
      assert Collected(a) + [] == Collected(a);
    } else {
      CollectedSplit(a, b[..|b| - 1]);
      CollectedGrow(a, b[..|b| - 1], b[|b| - 1], b);
    }
  }

  lemma BagOfThree<T>(x: seq<T>, y: seq<T>, z: seq<T>)
    ensures multiset((x + y) + z) == multiset(x + z) + multiset(y)
  {
  }

  lemma CollectedAround(front: seq<ShardResult>, r: ShardResult, back: seq<ShardResult>, all: seq<ShardResult>)
    requires all == (front + [r]) + back
    ensures Collected(all) == (Collected(front) + FoundBy(r)) + Collected(back)
  {
    CollectedSplit(front + [r], back);
    CollectedMore(front, r);
  }

  lemma CollectedWithout(front: seq<ShardResult>, r: ShardResult, back: seq<ShardResult>, all: seq<ShardResult>,
                         rest: seq<ShardResult>)
    requires all == (front + [r]) + back && rest == front + back
    ensures multiset(Collected(all)) == multiset(Collected(rest)) + multiset(FoundBy(r))
  {
    CollectedAround(front, r, back, all);
    CollectedSplit(front, back);
    BagOfThree(Collected(front), FoundBy(r), Collected(back));
  }

  /** Takes one result out of the list. */
  lemma Without(all: seq<ShardResult>, r: ShardResult) returns (rest: seq<ShardResult>)
    requires r in all
    ensures |rest| == |all| - 1 && multiset(all) == multiset(rest) + multiset{r}
    ensures multiset(Collected(all)) == multiset(Collected(rest)) + multiset(FoundBy(r))
  {
    var i :| 0 <= i < |all| && all[i] == r;
    var front, back := all[..i], all[i + 1..];
    assert all == (front + [r]) + back;
    rest := front + back;
    BagOfThree(front, [r], back);
    CollectedWithout(front, r, back, all, rest);
  }

  lemma {:induction false} CollectedAnyOrder(a: seq<ShardResult>, b: seq<ShardResult>)
    requires multiset(a) == multiset(b)
    ensures multiset(Collected(a)) == multiset(Collected(b))
    decreases |a|
  {
    if a == [] {
      assert |multiset(b)| == 0;
    } else {
      var r := a[0];
      assert r in multiset(b);
      var a' := Without(a, r);
      var b' := Without(b, r);
      assert multiset(a') == multiset(a) - multiset{r} && multiset(b') == multiset(b) - multiset{r};
      CollectedAnyOrder(a', b');
    }
  }

  function Distances(s: seq<Candidate>): seq<real> {
    seq(|s|, i requires 0 <= i < |s| => s[i].distance)
  }

  /** The `k` nearest in ascending order. */
  ghost predicate Serves(r: seq<Candidate>, all: multiset<Candidate>, k: nat) {
    Ascending(r) && KSmallest(multiset(r), all, k)
  }

  lemma ServesSame(a: seq<Candidate>, b: seq<Candidate>, all: multiset<Candidate>, k: nat)
    requires Serves(a, all, k) && Serves(b, all, k)
    ensures Distances(a) == Distances(b)
  {
    SameDistances(a, b, all, k);
  }

  lemma ServesAll(arrivals: seq<ShardResult>, held: seq<multiset<Candidate>>, r: seq<Candidate>, k: nat)
    requires |arrivals| == |held| && EachKSmallest(Answered(arrivals, held), k)
    requires Serves(r, multiset(Collected(arrivals)), k)
    ensures Serves(r, AllHeld(Answered(arrivals, held)), k)
  {
    SearchIsGlobal(arrivals, held, r, k);
  }

  /**
   Two searches that get the same answers of the shards, in whatever orders, serve the same distances in the
   same order, and they are those of the `k` nearest of all that the answering shards hold.
   */
  lemma SearchIsDetermined(arrivals: seq<ShardResult>, held: seq<multiset<Candidate>>, r: seq<Candidate>,
                           arrivals': seq<ShardResult>, r': seq<Candidate>, best: seq<Candidate>, k: nat)
    requires |arrivals| == |held| && EachKSmallest(Answered(arrivals, held), k)
    requires multiset(arrivals') == multiset(arrivals)
    requires Serves(r, multiset(Collected(arrivals)), k) && Serves(r', multiset(Collected(arrivals')), k)
    requires Serves(best, AllHeld(Answered(arrivals, held)), k)
    ensures Distances(r) == Distances(r') == Distances(best)
  {
    CollectedAnyOrder(arrivals', arrivals);
    ServesSame(r, r', multiset(Collected(arrivals)), k);
    ServesAll(arrivals, held, r, k);
    ServesSame(r, best, AllHeld(Answered(arrivals, held)), k);
  }
}
