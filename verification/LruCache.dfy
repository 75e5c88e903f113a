/**
 The query-result cache of pkg/cache/cache.go: a map and a recency list kept in step, with a
 capacity and a time to live.

 The clock is a parameter of the operations.  A capacity below one is not covered: there the
 eviction loop of `Set` never ends.
 */
module LruCache {
  import opened Wrappers

  datatype Entry<V> = Entry(key: string, value: V, expires: int)

  /** The cached entries, most recently used first. */
  type Recency<V> = seq<Entry<V>>

  predicate Has<V>(s: Recency<V>, key: string) {
    exists i :: 0 <= i < |s| && s[i].key == key
  }

  predicate Distinct<V>(s: Recency<V>) {
    forall i, j :: 0 <= i < j < |s| ==> s[i].key != s[j].key
  }

  function Without<V>(s: Recency<V>, key: string): (r: Recency<V>)
    ensures |r| <= |s|
    ensures forall e :: e in r ==> e in s && e.key != key
    ensures forall e :: e in s && e.key != key ==> e in r
  {
    if s == [] then [] else (if s[0].key == key then [] else [s[0]]) + Without(s[1..], key)
  }

  function Find<V>(s: Recency<V>, key: string): (e: Entry<V>)
    requires Has(s, key)
    ensures e in s && e.key == key
  {
    if s[0].key == key then s[0] else Find(s[1..], key)
  }

  function DoGet<V>(s: Recency<V>, key: string, now: int): (Recency<V>, Option<V>) {
    if !Has(s, key) then (s, None)
    else
      var e := Find(s, key);
      if now < e.expires then ([e] + Without(s, key), Some(e.value)) else (Without(s, key), None)
  }

  /** The first `n` entries, or all of them. */
  function Trim<V>(s: Recency<V>, n: nat): Recency<V> {
    if |s| <= n then s else s[..n]
  }

  function DoSet<V>(capacity: nat, s: Recency<V>, e: Entry<V>): Recency<V>
    requires capacity > 0
  {
    [e] + if Has(s, e.key) then Without(s, e.key) else Trim(s, capacity - 1)
  }

  lemma {:induction false} WithoutSize<V>(s: Recency<V>, key: string)
    requires Distinct(s)
    ensures |Without(s, key)| == |s| - if Has(s, key) then 1 else 0
  {
    if s != [] {
      var rest := s[1..];
      WithoutSize(rest, key);
      if s[0].key == key {
        assert !Has(rest, key);
        assert Has(s, key);
      } else if Has(s, key) {
        var i :| 0 <= i < |s| && s[i].key == key;
        assert rest[i - 1].key == key;
      }
    }
  }

  lemma DistinctFront<V>(a: Recency<V>, e: Entry<V>)
    requires Distinct(a) && !Has(a, e.key)
    ensures Distinct([e] + a)
  {
    assert forall i :: 0 <= i < |a| ==> a[i].key != e.key;
  }

  lemma {:induction false} WithoutKeepsDistinct<V>(s: Recency<V>, key: string)
    requires Distinct(s)
    ensures Distinct(Without(s, key))
  {
    if s != [] {
      var rest := Without(s[1..], key);
      WithoutKeepsDistinct(s[1..], key);
      assert !Has(rest, s[0].key) by {
        assert forall i :: 0 <= i < |rest| ==> rest[i] in rest;
        assert forall e :: e in s[1..] ==> e.key != s[0].key;
      }
      DistinctFront(rest, s[0]);
      assert [] + rest == rest;
    }
  }

  lemma WithoutDistinct<V>(s: Recency<V>, key: string)
    requires Distinct(s)
    ensures Distinct(Without(s, key)) && !Has(Without(s, key), key)
    ensures |Without(s, key)| == |s| - if Has(s, key) then 1 else 0
  {
    WithoutSize(s, key);
    WithoutKeepsDistinct(s, key);
    assert forall i :: 0 <= i < |Without(s, key)| ==> Without(s, key)[i] in Without(s, key);
  }

  /** The map holds exactly the entries of the list, by key. */
  ghost predicate InStep<V>(items: map<string, Entry<V>>, order: Recency<V>) {
    && (forall i :: 0 <= i < |order| ==> order[i].key in items && items[order[i].key] == order[i])
    && (forall key :: key in items ==> items[key] in order && items[key].key == key)
  }

  lemma InStepFront<V>(items: map<string, Entry<V>>, order: Recency<V>, e: Entry<V>)
    requires InStep(items, order) && !Has(order, e.key)
    ensures InStep(items[e.key := e], [e] + order)
  {
    var items', order' := items[e.key := e], [e] + order;
    assert forall i :: 0 < i < |order'| ==> order'[i] == order[i - 1] && order[i - 1].key != e.key;
    forall key | key in items'
      ensures items'[key] in order' && items'[key].key == key
    {
      if key != e.key {
        var i :| 0 <= i < |order| && order[i] == items[key];
        assert order'[i + 1] == items'[key];
      } else {
        assert order'[0] == e;
      }
    }
  }

  lemma InStepWithout<V>(items: map<string, Entry<V>>, order: Recency<V>, key: string)
    requires InStep(items, order)
    ensures InStep(items - {key}, Without(order, key))
  {
    var order' := Without(order, key);
    forall i | 0 <= i < |order'|
      ensures order'[i].key in items - {key} && (items - {key})[order'[i].key] == order'[i]
    {
      assert order'[i] in order';
      var j :| 0 <= j < |order| && order[j] == order'[i];
    }
  }

  // ---------- the cache ----------

  class Cache<V> {
    const capacity: int
    const ttl: int
    var items: map<string, Entry<V>>
    var order: Recency<V>
    var hits: nat
    var misses: nat

    /** The map and the list hold the same entries, each key once, and no more than the capacity. */
    ghost predicate Valid()
      reads this
    {
      && |order| <= (if capacity < 0 then 0 else capacity)
      && Distinct(order)
      && InStep(items, order)
    }

    constructor (capacity: int, ttl: int)
      ensures Valid() && order == [] && this.capacity == capacity && this.ttl == ttl
    {
      this.capacity, this.ttl := capacity, ttl;
      items, order, hits, misses := map[], [], 0, 0;
    }

    lemma Lookup(key: string)
      requires Valid()
      ensures key in items <==> Has(order, key)
      ensures key in items ==> items[key] == Find(order, key)
    {
      if key in items {
        var i :| 0 <= i < |order| && order[i] == items[key];
      }
    }

    method RemoveElement(e: Entry<V>)
      requires Valid() && e in order
      modifies this`items, this`order
      ensures Valid() && order == Without(old(order), e.key)
    {
      WithoutDistinct(order, e.key);
      InStepWithout(items, order, e.key);
      order := Without(order, e.key);
      items := items - {e.key};
    }

    method RemoveOldest()
      requires Valid()
      modifies this`items, this`order
      ensures Valid()
      ensures order == if old(order) == [] then [] else old(order)[..|old(order)| - 1]
    {
      if order != [] {
        WithoutLast(order);
        RemoveElement(order[|order| - 1]);
      }
    }

    method Get(key: string, now: int) returns (r: Option<V>)
      requires Valid()
      modifies this
      ensures Valid()
      ensures (order, r) == DoGet(old(order), key, now)
      ensures hits + misses == old(hits + misses) + 1 && hits == old(hits) + if r.Some? then 1 else 0
    {
      Lookup(key);
      if key in items {
        var e := items[key];
        if now < e.expires {
          MoveToFront(e);
          hits := hits + 1;
          return Some(e.value);
        }
        RemoveElement(e);
      }
      misses := misses + 1;
      return None;
    }

    /** Puts `e` in front in place of the entry with its key. */
    method MoveToFront(e: Entry<V>)
      requires Valid() && Has(order, e.key)
      modifies this`items, this`order
      ensures Valid() && order == [e] + Without(old(order), e.key)
    {
      WithoutDistinct(order, e.key);
      InStepWithout(items, order, e.key);
      DistinctFront(Without(order, e.key), e);
      InStepFront(items - {e.key}, Without(order, e.key), e);
      assert (items - {e.key})[e.key := e] == items[e.key := e];
      order := [e] + Without(order, e.key);
      items := items[e.key := e];
    }

    /** With a capacity below one the eviction loop would never end. */
    method Set(key: string, value: V, now: int)
      requires Valid() && capacity > 0
      modifies this`items, this`order
      ensures Valid()
      ensures order == DoSet(capacity, old(order), Entry(key, value, now + ttl))
    {
      Lookup(key);
      var e := Entry(key, value, now + ttl);
      if key in items {
        MoveToFront(e);
        return;
      }
      while |order| >= capacity
        invariant Valid() && order <= old(order)
        invariant |order| == |old(order)| || |order| == capacity - 1
        decreases |order|
      {
        RemoveOldest();
      }
      Lookup(key);
      assert !Has(order, key) by {
        assert forall i :: 0 <= i < |order| ==> order[i] == old(order)[i];
      }
      DistinctFront(order, e);
      InStepFront(items, order, e);
      order := [e] + order;
      items := items[key := e];
    }

    method Delete(key: string)
      requires Valid()
      modifies this`items, this`order
      ensures Valid() && order == Without(old(order), key)
    {
      Lookup(key);
      if key in items {
        RemoveElement(items[key]);
      } else {
        WithoutAbsent(order, key);
      }
    }

    method Clear()
      requires Valid()
      modifies this`items, this`order
      ensures Valid() && order == []
    {
      items, order := map[], [];
    }
  }

  lemma {:induction false} WithoutAbsent<V>(s: Recency<V>, key: string)
    requires !Has(s, key)
    ensures Without(s, key) == s
  {
    if s != [] {
      assert s[0].key != key && !Has(s[1..], key) by {
        assert forall i :: 0 <= i < |s| - 1 ==> s[1..][i] == s[i + 1];
      }
      WithoutAbsent(s[1..], key);
    }
  }

  lemma {:induction false} WithoutLast<V>(s: Recency<V>)
    requires s != [] && Distinct(s)
    ensures Without(s, s[|s| - 1].key) == s[..|s| - 1]
  {
    if |s| > 1 {
      WithoutLast(s[1..]);
      assert s[0].key != s[|s| - 1].key;
      assert [s[0]] + s[1..][..|s| - 2] == s[..|s| - 1];
    } else {
      assert Without(s[1..], s[0].key) == [];
    }
  }

  // ---------- runs ----------

  datatype Op<V> = Get(key: string, now: int) | Set(key: string, value: V, now: int) | Delete(key: string) | Clear

  function Step<V>(capacity: nat, ttl: int, s: Recency<V>, op: Op<V>): Recency<V>
    requires capacity > 0
  {
    match op
    case Get(key, now) => DoGet(s, key, now).0
    case Set(key, value, now) => DoSet(capacity, s, Entry(key, value, now + ttl))
    case Delete(key) => Without(s, key)
    case Clear => []
  }

  function Run<V>(capacity: nat, ttl: int, ops: seq<Op<V>>): Recency<V>
    requires capacity > 0
  {
    if ops == [] then [] else Step(capacity, ttl, Run(capacity, ttl, ops[..|ops| - 1]), ops[|ops| - 1])
  }

  lemma FrontDistinct<V>(s: Recency<V>, e: Entry<V>)
    requires Distinct(s)
    ensures Distinct([e] + Without(s, e.key))
  {
    WithoutDistinct(s, e.key);
    DistinctFront(Without(s, e.key), e);
  }

  /** Each key once, and no more than the capacity. */
  ghost predicate Kept<V>(capacity: nat, s: Recency<V>) {
    Distinct(s) && |s| <= capacity
  }

  lemma SetKept<V>(capacity: nat, s: Recency<V>, e: Entry<V>)
    requires capacity > 0 && Kept(capacity, s)
    ensures Kept(capacity, DoSet(capacity, s, e))
  {
    if Has(s, e.key) {
      FrontDistinct(s, e);
      WithoutSize(s, e.key);
    } else {
      TrimHas(s, capacity - 1, e.key);
      DistinctFront(Trim(s, capacity - 1), e);
    }
  }

  lemma GetKept<V>(capacity: nat, s: Recency<V>, key: string, now: int)
    requires Kept(capacity, s)
    ensures Kept(capacity, DoGet(s, key, now).0)
  {
    WithoutDistinct(s, key);
    if Has(s, key) {
      FrontDistinct(s, Find(s, key));
    }
  }

  lemma DeleteKept<V>(capacity: nat, s: Recency<V>, key: string)
    requires Kept(capacity, s)
    ensures Kept(capacity, Without(s, key))
  {
    WithoutDistinct(s, key);
  }

  lemma StepKept<V>(capacity: nat, ttl: int, s: Recency<V>, op: Op<V>)
    requires capacity > 0 && Kept(capacity, s)
    ensures Kept(capacity, Step(capacity, ttl, s, op))
  {
    match op
    case Get(key, now) => GetKept(capacity, s, key, now);
    case Set(key, value, now) => SetKept(capacity, s, Entry(key, value, now + ttl));
    case Delete(key) => DeleteKept(capacity, s, key);
    case Clear =>
  }

  lemma {:induction false} RunKept<V>(capacity: nat, ttl: int, ops: seq<Op<V>>)
    requires capacity > 0
    ensures Kept(capacity, Run(capacity, ttl, ops))
  {
    if ops != [] {
      RunKept(capacity, ttl, ops[..|ops| - 1]);
      StepKept(capacity, ttl, Run(capacity, ttl, ops[..|ops| - 1]), ops[|ops| - 1]);
    }
  }

  /** The last value set for `key` and not deleted since, with its expiry. */
  function Latest<V>(ttl: int, ops: seq<Op<V>>, key: string): Option<Entry<V>> {
    if ops == [] then None
    else
      match ops[|ops| - 1]
      case Set(k, v, now) => if k == key then Some(Entry(k, v, now + ttl)) else Latest(ttl, ops[..|ops| - 1], key)
      case Delete(k) => if k == key then None else Latest(ttl, ops[..|ops| - 1], key)
      case Clear => None
      case Get(_, _) => Latest(ttl, ops[..|ops| - 1], key)
  }

  /** Whatever a run leaves in the cache is the latest value set for its key. */
  lemma {:induction false} CachedIsLatest<V>(capacity: nat, ttl: int, ops: seq<Op<V>>, e: Entry<V>)
    requires capacity > 0 && e in Run(capacity, ttl, ops)
    ensures Latest(ttl, ops, e.key) == Some(e)
  {
    if ops != [] {
      var before, op := Run(capacity, ttl, ops[..|ops| - 1]), ops[|ops| - 1];
      RunKept(capacity, ttl, ops);
      if op.Set? && e.key == op.key {
        var s := Run(capacity, ttl, ops);
        assert s[0].key == op.key;
        var i :| 0 <= i < |s| && s[i] == e;
      } else {
        assert e in before;
        CachedIsLatest(capacity, ttl, ops[..|ops| - 1], e);
      }
    }
  }

  /** A hit returns the latest value set for the key, and it has not expired. */
  lemma HitIsLatest<V>(capacity: nat, ttl: int, ops: seq<Op<V>>, key: string, now: int)
    requires capacity > 0
    ensures var r := DoGet(Run(capacity, ttl, ops), key, now).1;
            r.Some? ==> exists e :: Latest(ttl, ops, key) == Some(e) && e.value == r.value && now < e.expires
  {
    var s := Run(capacity, ttl, ops);
    if Has(s, key) {
      CachedIsLatest(capacity, ttl, ops, Find(s, key));
    }
  }

  // ---------- exactly when a get hits ----------

  /** The index of the last `Set` of `key`, or -1. */
  function LastSet<V>(ops: seq<Op<V>>, key: string): (i: int)
    ensures -1 <= i < |ops|
  {
    if ops == [] then -1
    else
      var last := ops[|ops| - 1];
      if last.Set? && last.key == key then |ops| - 1 else LastSet(ops[..|ops| - 1], key)
  }

  /**
   A get of `key` at time `now` after `ops` is to hit: the latest value has not expired, and the key has stayed.
   This and the next three speak of the operations alone and not of the list.
   */
  ghost predicate Hits<V>(capacity: nat, ttl: int, ops: seq<Op<V>>, key: string, now: int)
    decreases |ops|, 3
  {
    var e := Latest(ttl, ops, key);
    e.Some? && now < e.value.expires && Stays(capacity, ttl, ops, key)
  }

  /** Since its last set no get found `key` expired, and never as many as `capacity` other keys came ahead of it. */
  ghost predicate Stays<V>(capacity: nat, ttl: int, ops: seq<Op<V>>, key: string)
    decreases |ops|, 2
  {
    var e := Latest(ttl, ops, key);
    e.Some? && forall n :: LastSet(ops, key) + 1 < n <= |ops| ==> Unharmed(capacity, ttl, ops[..n], key, e.value.expires)
  }

  /** The last of `ops` did not get `key` after `expires`, and fewer than `capacity` other keys are ahead of it now. */
  ghost predicate Unharmed<V>(capacity: nat, ttl: int, ops: seq<Op<V>>, key: string, expires: int)
    decreases |ops|, 1
  {
    && ops != [] && var last := ops[|ops| - 1];
    && !(last.Get? && last.key == key && expires <= last.now)
    && |Ahead(capacity, ttl, ops, key)| < capacity
  }

  /** The other keys that were set, or got with a hit, since `key` last was, and are not deleted or expired since. */
  ghost function Ahead<V>(capacity: nat, ttl: int, ops: seq<Op<V>>, key: string): set<string>
    decreases |ops|, 0
  {
    if ops == [] then {}
    else
      var init := ops[..|ops| - 1];
      match ops[|ops| - 1]
      case Set(k, _, _) => if k == key then {} else Ahead(capacity, ttl, init, key) + {k}
      case Get(k, now) =>
        if !Hits(capacity, ttl, init, k, now) then Ahead(capacity, ttl, init, key) - {k}
        else if k == key then {} else Ahead(capacity, ttl, init, key) + {k}
      case Delete(k) => Ahead(capacity, ttl, init, key) - {k}
      case Clear => {}
  }

  lemma LatestWasSet<V>(ttl: int, ops: seq<Op<V>>, op: Op<V>, key: string)
    ensures Latest(ttl, ops + [op], key) ==
            if op.Clear? || (op.Delete? && op.key == key) then None
            else if op.Set? && op.key == key then Some(Entry(op.key, op.value, op.now + ttl))
            else Latest(ttl, ops, key)
    ensures LastSet(ops + [op], key) == if op.Set? && op.key == key then |ops| else LastSet(ops, key)
  {
    assert (ops + [op])[..|ops|] == ops;
  }

  /** What one more operation does to a key that stays. */
  ghost predicate StaysOn<V>(capacity: nat, ttl: int, ops: seq<Op<V>>, op: Op<V>, key: string) {
    && !op.Clear? && !(op.Delete? && op.key == key)
    && ((op.Set? && op.key == key) ||
        (&& Stays(capacity, ttl, ops, key)
         && Unharmed(capacity, ttl, ops + [op], key, Latest(ttl, ops, key).value.expires)))
  }

  lemma StaysMore<V>(capacity: nat, ttl: int, ops: seq<Op<V>>, op: Op<V>, key: string, i: nat, expires: int)
    requires i <= |ops|
    ensures (forall n :: i < n <= |ops + [op]| ==> Unharmed(capacity, ttl, (ops + [op])[..n], key, expires))
       <==> (forall n :: i < n <= |ops| ==> Unharmed(capacity, ttl, ops[..n], key, expires))
            && Unharmed(capacity, ttl, ops + [op], key, expires)
  {
    var longer := ops + [op];
    assert longer[..|longer|] == longer;
    assert forall n :: 0 <= n <= |ops| ==> longer[..n] == ops[..n];
    if forall n :: i < n <= |longer| ==> Unharmed(capacity, ttl, longer[..n], key, expires) {
      assert Unharmed(capacity, ttl, longer[..|longer|], key, expires);
      forall n | i < n <= |ops| ensures Unharmed(capacity, ttl, ops[..n], key, expires) {
        assert Unharmed(capacity, ttl, longer[..n], key, expires);
      }
    }
  }

  lemma StaysNext<V>(capacity: nat, ttl: int, ops: seq<Op<V>>, op: Op<V>, key: string)
    ensures Stays(capacity, ttl, ops + [op], key) <==> StaysOn(capacity, ttl, ops, op, key)
  {
    LatestWasSet(ttl, ops, op, key);
    if Latest(ttl, ops, key).Some? {
      StaysMore(capacity, ttl, ops, op, key, LastSet(ops, key) + 1, Latest(ttl, ops, key).value.expires);
    }
  }

  /** The keys before `key` in the list. */
  function Before<V>(s: Recency<V>, key: string): set<string> {
    if s == [] || s[0].key == key then {} else {s[0].key} + Before(s[1..], key)
  }

  lemma BeforeFront<V>(e: Entry<V>, s: Recency<V>, key: string)
    ensures Before([e] + s, key) == if e.key == key then {} else {e.key} + Before(s, key)
    ensures Has([e] + s, key) <==> e.key == key || Has(s, key)
  {
    assert ([e] + s)[1..] == s;
    if Has(s, key) {
      var i :| 0 <= i < |s| && s[i].key == key;
      assert ([e] + s)[i + 1].key == key;
    }
    if e.key == key { assert ([e] + s)[0].key == key; }
  }

  lemma HasRest<V>(s: Recency<V>, key: string)
    requires s != []
    ensures Has(s, key) <==> s[0].key == key || Has(s[1..], key)
  {
    BeforeFront(s[0], s[1..], key);
    assert s == [s[0]] + s[1..];
  }

  lemma {:induction false} BeforeAreHeld<V>(s: Recency<V>, key: string)
    ensures forall k :: k in Before(s, key) ==> Has(s, k) && k != key
  {
    if s != [] {
      BeforeAreHeld(s[1..], key);
      forall k | k in Before(s, key) ensures Has(s, k) && k != key { HasRest(s, k); }
    }
  }

  lemma {:induction false} BeforeSize<V>(s: Recency<V>, key: string)
    requires Distinct(s) && Has(s, key)
    ensures |Before(s, key)| < |s|
  {
    HasRest(s, key);
    if s[0].key != key {
      BeforeSize(s[1..], key);
    }
  }

  lemma WithoutRest<V>(s: Recency<V>, k: string)
    requires s != []
    ensures Without(s, k) == if s[0].key == k then Without(s[1..], k) else [s[0]] + Without(s[1..], k)
  {
    assert [] + Without(s[1..], k) == Without(s[1..], k);
  }

  /** `w` shows `key` as `s` does, less `k`. */
  ghost predicate Lacks<V>(s: Recency<V>, w: Recency<V>, k: string, key: string) {
    Has(s, key) ==> Has(w, key) && Before(w, key) == Before(s, key) - {k}
  }

  lemma LacksFront<V>(e: Entry<V>, s: Recency<V>, w: Recency<V>, k: string, key: string)
    requires k != key && Lacks(s, w, k, key)
    ensures Lacks([e] + s, if e.key == k then w else [e] + w, k, key)
  {
    BeforeFront(e, s, key);
    BeforeFront(e, w, key);
  }

  lemma {:induction false} AllLack<V>(s: Recency<V>, k: string, key: string)
    requires k != key
    ensures Lacks(s, Without(s, k), k, key)
  {
    if s != [] {
      AllLack(s[1..], k, key);
      WithoutRest(s, k);
      LacksFront(s[0], s[1..], Without(s[1..], k), k, key);
      assert s == [s[0]] + s[1..];
    }
  }

  lemma BeforeWithout<V>(s: Recency<V>, k: string, key: string)
    requires k != key && Has(s, key)
    ensures Has(Without(s, k), key) && Before(Without(s, k), key) == Before(s, key) - {k}
  {
    AllLack(s, k, key);
  }

  lemma HasWithout<V>(s: Recency<V>, k: string, key: string)
    requires k != key && Has(Without(s, k), key)
    ensures Has(s, key)
  {
    var i :| 0 <= i < |Without(s, k)| && Without(s, k)[i].key == key;
    assert Without(s, k)[i] in Without(s, k);
    var j :| 0 <= j < |s| && s[j] == Without(s, k)[i];
  }

  lemma BeforeRest<V>(s: Recency<V>, key: string)
    requires s != [] && Distinct(s) && s[0].key != key
    ensures Before(s, key) == {s[0].key} + Before(s[1..], key) && |Before(s, key)| == |Before(s[1..], key)| + 1
  {
    BeforeAreHeld(s[1..], key);
    assert s[0].key !in Before(s[1..], key);
  }

  /** Cutting the list keeps exactly the keys with fewer than `n` before them, and what is before those. */
  lemma {:induction false} BeforeCut<V>(s: Recency<V>, n: nat, key: string)
    requires Distinct(s) && n <= |s|
    ensures Has(s[..n], key) <==> Has(s, key) && |Before(s, key)| < n
    ensures Has(s[..n], key) ==> Before(s[..n], key) == Before(s, key)
  {
    if n > 0 {
      HasRest(s, key);
      HasRest(s[..n], key);
      if s[0].key != key {
        BeforeCut(s[1..], n - 1, key);
        assert s[..n][1..] == s[1..][..n - 1];
        BeforeRest(s, key);
        BeforeRest(s[..n], key);
      }
    }
  }

  /** The list shows what the operations say: who is held, and who is ahead of whom. */
  ghost predicate Shows<V>(capacity: nat, ttl: int, ops: seq<Op<V>>, s: Recency<V>, key: string) {
    && (Has(s, key) <==> Stays(capacity, ttl, ops, key))
    && (Has(s, key) ==> Before(s, key) == Ahead(capacity, ttl, ops, key))
  }

  lemma AheadNext<V>(capacity: nat, ttl: int, ops: seq<Op<V>>, op: Op<V>, key: string)
    ensures Ahead(capacity, ttl, ops + [op], key) ==
            if op.Clear? then {}
            else if op.Delete? || (op.Get? && !Hits(capacity, ttl, ops, op.key, op.now))
            then Ahead(capacity, ttl, ops, key) - {op.key}
            else if op.key == key then {}
            else Ahead(capacity, ttl, ops, key) + {op.key}
  {
    assert (ops + [op])[..|ops|] == ops;
  }

  /** A list with the used entry in front: nothing but the order ahead of `key` changes. */
  lemma FrontShows<V>(s: Recency<V>, e: Entry<V>, key: string)
    requires e.key != key && Has(s, key)
    ensures Has([e] + Without(s, e.key), key)
    ensures Before([e] + Without(s, e.key), key) == Before(s, key) + {e.key}
  {
    BeforeWithout(s, e.key, key);
    BeforeFront(e, Without(s, e.key), key);
  }

  lemma FrontHas<V>(s: Recency<V>, e: Entry<V>, key: string)
    requires e.key != key && Has([e] + Without(s, e.key), key)
    ensures Has(s, key)
  {
    BeforeFront(e, Without(s, e.key), key);
    HasWithout(s, e.key, key);
  }

  lemma SetOwnShows<V>(capacity: nat, ttl: int, ops: seq<Op<V>>, s: Recency<V>, op: Op<V>)
    requires capacity > 0 && op.Set?
    ensures Shows(capacity, ttl, ops + [op], DoSet(capacity, s, Entry(op.key, op.value, op.now + ttl)), op.key)
  {
    var e := Entry(op.key, op.value, op.now + ttl);
    StaysNext(capacity, ttl, ops, op, op.key);
    AheadNext(capacity, ttl, ops, op, op.key);
    BeforeFront(e, if Has(s, e.key) then Without(s, e.key) else Trim(s, capacity - 1), op.key);
  }

  /** Setting a key that is held. */
  lemma SetHeldShows<V>(capacity: nat, ttl: int, ops: seq<Op<V>>, s: Recency<V>, op: Op<V>, e: Entry<V>, key: string)
    requires capacity > 0 && Kept(capacity, s) && Shows(capacity, ttl, ops, s, key)
    requires op.Set? && op.key == e.key != key && Has(s, e.key)
    ensures Shows(capacity, ttl, ops + [op], [e] + Without(s, e.key), key)
  {
    var s' := [e] + Without(s, e.key);
    StaysNext(capacity, ttl, ops, op, key);
    AheadNext(capacity, ttl, ops, op, key);
    WithoutSize(s, e.key);
    FrontDistinct(s, e);
    if Has(s, key) {
      FrontShows(s, e, key);
      BeforeSize(s', key);
    } else if Has(s', key) {
      FrontHas(s, e, key);
    }
  }

  /** Setting a key that is not held pushes the last one out when the list is full. */
  lemma SetNewShows<V>(capacity: nat, ttl: int, ops: seq<Op<V>>, s: Recency<V>, op: Op<V>, e: Entry<V>, key: string)
    requires capacity > 0 && Kept(capacity, s) && Shows(capacity, ttl, ops, s, key)
    requires op.Set? && op.key == e.key != key && !Has(s, e.key)
    ensures Shows(capacity, ttl, ops + [op], [e] + Trim(s, capacity - 1), key)
  {
    StaysNext(capacity, ttl, ops, op, key);
    AheadNext(capacity, ttl, ops, op, key);
    var n := if |s| <= capacity - 1 then |s| else capacity - 1;
    assert Trim(s, capacity - 1) == s[..n];
    BeforeCut(s, n, key);
    BeforeFront(e, s[..n], key);
    BeforeAreHeld(s, key);
    assert e.key !in Before(s, key);
    if Has(s, key) {
      BeforeSize(s, key);
      assert |Before(s, key) + {e.key}| == |Before(s, key)| + 1;
    }
  }

  lemma SetShows<V>(capacity: nat, ttl: int, ops: seq<Op<V>>, s: Recency<V>, op: Op<V>, key: string)
    requires capacity > 0 && Kept(capacity, s) && Shows(capacity, ttl, ops, s, key) && op.Set?
    ensures Shows(capacity, ttl, ops + [op], DoSet(capacity, s, Entry(op.key, op.value, op.now + ttl)), key)
  {
    var e := Entry(op.key, op.value, op.now + ttl);
    if op.key == key {
      SetOwnShows(capacity, ttl, ops, s, op);
    } else if Has(s, e.key) {
      SetHeldShows(capacity, ttl, ops, s, op, e, key);
    } else {
      SetNewShows(capacity, ttl, ops, s, op, e, key);
    }
  }

  /** Taking one key out. */
  lemma DropShows<V>(capacity: nat, ttl: int, ops: seq<Op<V>>, s: Recency<V>, op: Op<V>, k: string, key: string)
    requires Kept(capacity, s) && Shows(capacity, ttl, ops, s, key) && k != key
    requires op == Delete(k) || (op.Get? && op.key == k && !Hits(capacity, ttl, ops, k, op.now))
    ensures Shows(capacity, ttl, ops + [op], Without(s, k), key)
  {
    StaysNext(capacity, ttl, ops, op, key);
    AheadNext(capacity, ttl, ops, op, key);
    if Has(s, key) {
      BeforeWithout(s, k, key);
      WithoutKeepsDistinct(s, k);
      BeforeSize(Without(s, k), key);
    } else if Has(Without(s, k), key) {
      HasWithout(s, k, key);
    }
  }

  /** What a get finds is what the operations say. */
  lemma GetHits<V>(capacity: nat, ttl: int, ops: seq<Op<V>>, key: string, now: int)
    requires capacity > 0 && Shows(capacity, ttl, ops, Run(capacity, ttl, ops), key)
    ensures var s := Run(capacity, ttl, ops);
            && (Hits(capacity, ttl, ops, key, now) <==> Has(s, key) && now < Find(s, key).expires)
            && (Has(s, key) ==> Latest(ttl, ops, key) == Some(Find(s, key)))
  {
    var s := Run(capacity, ttl, ops);
    if Has(s, key) { CachedIsLatest(capacity, ttl, ops, Find(s, key)); }
  }

  lemma GetOtherShows<V>(capacity: nat, ttl: int, ops: seq<Op<V>>, s: Recency<V>, op: Op<V>, key: string)
    requires capacity > 0 && Kept(capacity, s) && s == Run(capacity, ttl, ops) && op.Get? && op.key != key
    requires Shows(capacity, ttl, ops, s, key) && Shows(capacity, ttl, ops, s, op.key)
    ensures Shows(capacity, ttl, ops + [op], DoGet(s, op.key, op.now).0, key)
  {
    GetHits(capacity, ttl, ops, op.key, op.now);
    if Hits(capacity, ttl, ops, op.key, op.now) {
      var e := Find(s, op.key);
      StaysNext(capacity, ttl, ops, op, key);
      AheadNext(capacity, ttl, ops, op, key);
      WithoutSize(s, e.key);
      FrontDistinct(s, e);
      if Has(s, key) {
        FrontShows(s, e, key);
        BeforeSize([e] + Without(s, e.key), key);
      } else if Has([e] + Without(s, e.key), key) {
        FrontHas(s, e, key);
      }
    } else {
      DropShows(capacity, ttl, ops, s, op, op.key, key);
      if !Has(s, op.key) { WithoutAbsent(s, op.key); }
    }
  }

  lemma GetOwnShows<V>(capacity: nat, ttl: int, ops: seq<Op<V>>, s: Recency<V>, op: Op<V>)
    requires capacity > 0 && Kept(capacity, s) && s == Run(capacity, ttl, ops) && op.Get?
    requires Shows(capacity, ttl, ops, s, op.key)
    ensures Shows(capacity, ttl, ops + [op], DoGet(s, op.key, op.now).0, op.key)
  {
    GetHits(capacity, ttl, ops, op.key, op.now);
    StaysNext(capacity, ttl, ops, op, op.key);
    AheadNext(capacity, ttl, ops, op, op.key);
    if Has(s, op.key) {
      WithoutDistinct(s, op.key);
      BeforeFront(Find(s, op.key), Without(s, op.key), op.key);
    }
  }

  lemma StepShows<V>(capacity: nat, ttl: int, ops: seq<Op<V>>, s: Recency<V>, op: Op<V>, key: string)
    requires capacity > 0 && Kept(capacity, s) && s == Run(capacity, ttl, ops)
    requires Shows(capacity, ttl, ops, s, key) && (op.Get? ==> Shows(capacity, ttl, ops, s, op.key))
    ensures Shows(capacity, ttl, ops + [op], Step(capacity, ttl, s, op), key)
  {
    match op {
      case Set(_, _, _) => SetShows(capacity, ttl, ops, s, op, key);
      case Get(k, _) =>
        if k == key { GetOwnShows(capacity, ttl, ops, s, op); } else { GetOtherShows(capacity, ttl, ops, s, op, key); }
      case Delete(k) =>
        if k == key {
          WithoutDistinct(s, k);
          StaysNext(capacity, ttl, ops, op, key);
        } else {
          DropShows(capacity, ttl, ops, s, op, k, key);
        }
      case Clear =>
        StaysNext(capacity, ttl, ops, op, key);
    }
  }

  lemma {:induction false} RunShows<V>(capacity: nat, ttl: int, ops: seq<Op<V>>, key: string)
    requires capacity > 0
    ensures Shows(capacity, ttl, ops, Run(capacity, ttl, ops), key)
    decreases |ops|
  {
    if ops != [] {
      var init, last := ops[..|ops| - 1], ops[|ops| - 1];
      RunKept(capacity, ttl, init);
      RunShows(capacity, ttl, init, key);
      if last.Get? { RunShows(capacity, ttl, init, last.key); }
      StepShows(capacity, ttl, init, Run(capacity, ttl, init), last, key);
      assert ops == init + [last];
    }
  }

  /**
   After any trace, a get returns a value exactly when the latest value set for the key has not expired, no get has
   found it expired, and at no moment since its last set as many as `capacity` other keys were ahead of it; and then
   it returns that value.
   */
  lemma HitExactly<V>(capacity: nat, ttl: int, ops: seq<Op<V>>, key: string, now: int)
    requires capacity > 0
    ensures var r := DoGet(Run(capacity, ttl, ops), key, now).1;
            && (r.Some? <==> Hits(capacity, ttl, ops, key, now))
            && (r.Some? ==> r.value == Latest(ttl, ops, key).value.value)
  {
    RunShows(capacity, ttl, ops, key);
    GetHits(capacity, ttl, ops, key, now);
  }

  /** The other keys that the operations set or get. */
  function Others<V>(ops: seq<Op<V>>, key: string): set<string> {
    if ops == [] then {}
    else
      var last := ops[|ops| - 1];
      Others(ops[..|ops| - 1], key) + if (last.Set? || last.Get?) && last.key != key then {last.key} else {}
  }

  /** Neither deletes `key`, nor sets it, nor gets it after `expires`. */
  predicate Passes<V>(op: Op<V>, key: string, expires: int) {
    match op
    case Set(k, _, _) => k != key
    case Get(k, now) => k == key ==> now < expires
    case Delete(k) => k != key
    case Clear => false
  }

  predicate LeavesAlone<V>(ops: seq<Op<V>>, key: string, expires: int) {
    forall j :: 0 <= j < |ops| ==> Passes(ops[j], key, expires)
  }

  lemma {:induction false} AheadAreOthers<V>(capacity: nat, ttl: int, ops: seq<Op<V>>, op: Op<V>, more: seq<Op<V>>)
    requires op.Set? && LeavesAlone(more, op.key, op.now + ttl)
    ensures Ahead(capacity, ttl, ops + [op] + more, op.key) <= Others(more, op.key)
    ensures Latest(ttl, ops + [op] + more, op.key) == Some(Entry(op.key, op.value, op.now + ttl))
    ensures LastSet(ops + [op] + more, op.key) == |ops|
    decreases |more|
  {
    if more == [] {
      assert ops + [op] + more == ops + [op];
      AheadNext(capacity, ttl, ops, op, op.key);
      LatestWasSet(ttl, ops, op, op.key);
    } else {
      var init, last := more[..|more| - 1], more[|more| - 1];
      assert ops + [op] + more == (ops + [op] + init) + [last];
      AheadAreOthers(capacity, ttl, ops, op, init);
      AheadNext(capacity, ttl, ops + [op] + init, last, op.key);
      LatestWasSet(ttl, ops + [op] + init, last, op.key);
    }
  }

  lemma {:induction false} OthersGrow<V>(ops: seq<Op<V>>, n: nat, key: string)
    requires n <= |ops|
    ensures Others(ops[..n], key) <= Others(ops, key)
    decreases |ops|
  {
    if n < |ops| {
      OthersGrow(ops[..|ops| - 1], n, key);
      assert ops[..|ops| - 1][..n] == ops[..n];
    } else {
      assert ops[..n] == ops;
    }
  }

  lemma SubsetSize(a: set<string>, b: set<string>)
    requires a <= b
    ensures |a| <= |b|
  {
    assert b == a + (b - a);
  }

  /** A value set is found again, until it expires, as long as fewer than `capacity` other keys were set or got since. */
  lemma RecentHits<V>(capacity: nat, ttl: int, ops: seq<Op<V>>, op: Op<V>, more: seq<Op<V>>, now: int)
    requires capacity > 0 && op.Set? && LeavesAlone(more, op.key, op.now + ttl)
    requires |Others(more, op.key)| < capacity && now < op.now + ttl
    ensures DoGet(Run(capacity, ttl, ops + [op] + more), op.key, now).1 == Some(op.value)
  {
    var all := ops + [op] + more;
    AheadAreOthers(capacity, ttl, ops, op, more);
    forall n | |ops| + 1 < n <= |all| ensures Unharmed(capacity, ttl, all[..n], op.key, op.now + ttl) {
      var m := n - |ops| - 1;
      assert all[..n] == ops + [op] + more[..m] && all[n - 1] == more[m - 1];
      assert Passes(more[m - 1], op.key, op.now + ttl);
      AheadAreOthers(capacity, ttl, ops, op, more[..m]);
      OthersGrow(more, m, op.key);
      SubsetSize(Ahead(capacity, ttl, all[..n], op.key), Others(more, op.key));
    }
    HitExactly(capacity, ttl, all, op.key, now);
  }

  // ---------- a larger cache keeps more ----------

  /** `a` is `b` with some entries left out. */
  predicate Sub<V(==)>(a: Recency<V>, b: Recency<V>) {
    if a == [] then true
    else if b == [] then false
    else (a[0] == b[0] && Sub(a[1..], b[1..])) || Sub(a, b[1..])
  }

  lemma {:induction false} SubIn<V>(a: Recency<V>, b: Recency<V>, e: Entry<V>)
    requires Sub(a, b) && e in a
    ensures e in b
  {
    if a[0] == b[0] && Sub(a[1..], b[1..]) {
      if e != a[0] { SubIn(a[1..], b[1..], e); }
    } else {
      SubIn(a, b[1..], e);
    }
  }

  lemma SubSkip<V>(a: Recency<V>, b: Recency<V>)
    requires b != [] && Sub(a, b[1..])
    ensures Sub(a, b)
  {
  }

  lemma SubPush<V>(a: Recency<V>, b: Recency<V>, e: Entry<V>)
    requires Sub(a, b)
    ensures Sub([e] + a, [e] + b)
  {
    assert ([e] + a)[1..] == a && ([e] + b)[1..] == b;
  }

  lemma {:induction false} SubWithout<V>(a: Recency<V>, b: Recency<V>, key: string)
    requires Sub(a, b)
    ensures Sub(Without(a, key), Without(b, key))
  {
    if a == [] {
      assert Without(a, key) == [];
    } else if a[0] == b[0] && Sub(a[1..], b[1..]) {
      SubWithout(a[1..], b[1..], key);
      if a[0].key != key { SubPush(Without(a[1..], key), Without(b[1..], key), a[0]); }
      else { assert [] + Without(a[1..], key) == Without(a[1..], key) && [] + Without(b[1..], key) == Without(b[1..], key); }
    } else {
      SubWithout(a, b[1..], key);
      if b[0].key != key {
        var w := Without(b, key);
        assert w[1..] == Without(b[1..], key);
        SubSkip(Without(a, key), w);
      } else {
        assert Without(b, key) == Without(b[1..], key);
      }
    }
  }

  /** Dropping the last entry of the shorter list, with or without that of the longer one. */
  lemma {:induction false} SubDropLast<V>(a: Recency<V>, b: Recency<V>)
    requires Sub(a, b) && a != []
    ensures b != [] && Sub(a[..|a| - 1], b) && Sub(a[..|a| - 1], b[..|b| - 1])
  {
    var a', b' := a[..|a| - 1], b[..|b| - 1];
    if a[0] == b[0] && Sub(a[1..], b[1..]) {
      if |a| > 1 {
        SubDropLast(a[1..], b[1..]);
        assert a'[1..] == a[1..][..|a| - 2] && b'[1..] == b[1..][..|b| - 2];
      }
    } else {
      SubDropLast(a, b[1..]);
      if |a| > 1 {
        assert b'[1..] == b[1..][..|b| - 2];
      }
    }
  }

  /** The list of the smaller cache is part of that of the larger one, and it lags by no more than the capacities do. */
  ghost predicate Lags<V>(small: nat, large: nat, a: Recency<V>, b: Recency<V>) {
    && |a| <= small && |b| <= large
    && Sub(a, b)
    && |b| - |a| <= large - small
  }

  ghost predicate Related<V>(small: nat, large: nat, a: Recency<V>, b: Recency<V>) {
    Distinct(a) && Distinct(b) && Lags(small, large, a, b)
  }

  lemma SubHas<V>(a: Recency<V>, b: Recency<V>, key: string)
    requires Sub(a, b) && Distinct(b)
    ensures Has(a, key) ==> Has(b, key) && Find(a, key) == Find(b, key)
  {
    if Has(a, key) {
      var e := Find(a, key);
      SubIn(a, b, e);
      var i :| 0 <= i < |b| && b[i] == e;
      var f := Find(b, key);
      var j :| 0 <= j < |b| && b[j] == f;
    }
  }

  lemma RelatedWithout<V>(small: nat, large: nat, a: Recency<V>, b: Recency<V>, key: string)
    requires Related(small, large, a, b)
    ensures Related(small, large, Without(a, key), Without(b, key))
  {
    WithoutDistinct(a, key);
    WithoutDistinct(b, key);
    SubWithout(a, b, key);
    SubHas(a, b, key);
  }

  lemma RelatedFront<V>(small: nat, large: nat, a: Recency<V>, b: Recency<V>, e: Entry<V>)
    requires Related(small, large, a, b) && !Has(a, e.key) && !Has(b, e.key) && |a| < small && |b| < large
    ensures Related(small, large, [e] + a, [e] + b)
  {
    SubPush(a, b, e);
    DistinctFront(a, e);
    DistinctFront(b, e);
  }

  lemma RelatedGet<V>(small: nat, large: nat, a: Recency<V>, b: Recency<V>, key: string, now: int)
    requires 0 < small <= large && Related(small, large, a, b)
    ensures Related(small, large, DoGet(a, key, now).0, DoGet(b, key, now).0)
  {
    SubHas(a, b, key);
    RelatedWithout(small, large, a, b, key);
    WithoutDistinct(a, key);
    WithoutDistinct(b, key);
    if Has(a, key) {
      if now < Find(a, key).expires {
        RelatedFront(small, large, Without(a, key), Without(b, key), Find(a, key));
      }
    } else if Has(b, key) {
      WithoutAbsent(a, key);
      var e := Find(b, key);
      if now < e.expires {
        var b' := [e] + Without(b, key);
        assert b'[1..] == Without(b, key);
        SubSkip(a, b');
        DistinctFront(Without(b, key), e);
      }
    }
  }

  /** Making room in both caches for a key that neither holds. */
  lemma RelatedTrim<V>(small: nat, large: nat, a: Recency<V>, b: Recency<V>)
    requires 0 < small <= large && Related(small, large, a, b)
    ensures Related(small, large, Trim(a, small - 1), Trim(b, large - 1))
  {
    if |a| == small {
      SubDropLast(a, b);
    }
  }

  lemma TrimHas<V>(s: Recency<V>, n: nat, key: string)
    requires !Has(s, key)
    ensures !Has(Trim(s, n), key)
  {
  }

  lemma RelatedSet<V>(small: nat, large: nat, a: Recency<V>, b: Recency<V>, e: Entry<V>)
    requires 0 < small <= large && Related(small, large, a, b)
    ensures Related(small, large, DoSet(small, a, e), DoSet(large, b, e))
  {
    SubHas(a, b, e.key);
    WithoutDistinct(a, e.key);
    WithoutDistinct(b, e.key);
    RelatedWithout(small, large, a, b, e.key);
    if Has(a, e.key) {
      RelatedFront(small, large, Without(a, e.key), Without(b, e.key), e);
    } else if !Has(b, e.key) {
      RelatedTrim(small, large, a, b);
      TrimHas(a, small - 1, e.key);
      TrimHas(b, large - 1, e.key);
      RelatedFront(small, large, Trim(a, small - 1), Trim(b, large - 1), e);
    } else {
      WithoutAbsent(a, e.key);
      RelatedSetMissing(small, large, a, b, e);
    }
  }

  /** The larger cache still has the key, the smaller one has lost it. */
  lemma RelatedSetMissing<V>(small: nat, large: nat, a: Recency<V>, b: Recency<V>, e: Entry<V>)
    requires 0 < small <= large && Related(small, large, a, b) && !Has(a, e.key) && Has(b, e.key)
    requires Sub(a, Without(b, e.key))
    ensures Related(small, large, DoSet(small, a, e), DoSet(large, b, e))
  {
    var b' := Without(b, e.key);
    WithoutDistinct(b, e.key);
    if |a| == small { SubDropLast(a, b'); }
    var a' := Trim(a, small - 1);
    TrimHas(a, small - 1, e.key);
    SubPush(a', b', e);
    DistinctFront(a', e);
    DistinctFront(b', e);
  }

  lemma RelatedStep<V>(small: nat, large: nat, ttl: int, a: Recency<V>, b: Recency<V>, op: Op<V>,
                       a': Recency<V>, b': Recency<V>)
    requires 0 < small <= large && Related(small, large, a, b)
    requires a' == Step(small, ttl, a, op) && b' == Step(large, ttl, b, op)
    ensures Lags(small, large, a', b')
  {
    match op {
      case Get(key, now) =>
        assert a' == DoGet(a, key, now).0 && b' == DoGet(b, key, now).0;
        RelatedGet(small, large, a, b, key, now);
      case Set(key, v, now) =>
        RelatedSet(small, large, a, b, Entry(key, v, now + ttl));
        assert a' == DoSet(small, a, Entry(key, v, now + ttl)) && b' == DoSet(large, b, Entry(key, v, now + ttl));
      case Delete(key) =>
        RelatedWithout(small, large, a, b, key);
      case Clear =>
    }
  }

  lemma {:induction false} RunsRelated<V>(small: nat, large: nat, ttl: int, ops: seq<Op<V>>)
    requires 0 < small <= large
    ensures Related(small, large, Run(small, ttl, ops), Run(large, ttl, ops))
  {
    RunKept(small, ttl, ops);
    RunKept(large, ttl, ops);
    if ops != [] {
      var init := ops[..|ops| - 1];
      RunsRelated(small, large, ttl, init);
      RelatedStep(small, large, ttl, Run(small, ttl, init), Run(large, ttl, init), ops[|ops| - 1],
                  Run(small, ttl, ops), Run(large, ttl, ops));
    }
  }

  /**
   Over any trace of operations and clock readings, what the smaller cache holds is held by the
   larger one too, with the same value and the same expiry.
   */
  lemma Inclusion<V>(small: nat, large: nat, ttl: int, ops: seq<Op<V>>)
    requires 0 < small <= large
    ensures forall e :: e in Run(small, ttl, ops) ==> e in Run(large, ttl, ops)
  {
    RunsRelated(small, large, ttl, ops);
    var a, b := Run(small, ttl, ops), Run(large, ttl, ops);
    forall e | e in a ensures e in b { SubIn(a, b, e); }
  }
}
