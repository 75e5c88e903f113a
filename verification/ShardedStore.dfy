/**
 The sharded store of pkg/collection/shard.go: every point ID has one home shard, given by a hash.

 The hash is a parameter.  A shard refuses writes while it is not active.
 */
module ShardedStore {

  import opened PointIndex
  import opened Wrappers

  class Shard<V> {
    const index: Hnsw<V>
    var active: bool

    constructor (fits: V -> bool)
      ensures fresh(index) && index.Valid() && index.Model() == map[] && active && index.fits == fits
    {
      index := new Hnsw(fits);
      active := true;
    }

    method Insert(id: string, v: V) returns (r: Outcome)
      requires index.Valid()
      modifies index
      ensures index.Valid()
      ensures index.Model() == if r.Pass? then InsertId(old(index.Model()), id, v) else old(index.Model())
      ensures r == if !active then Fail(NotActive) else Admits(index.fits, old(index.Model()), id, v)
    {
      if !active {
        return Fail(NotActive);
      }
      r := index.Insert(id, v);
    }

    method Delete(id: string) returns (r: Outcome)
      requires index.Valid()
      modifies index
      ensures index.Valid()
      ensures index.Model() == if active then DeleteId(old(index.Model()), id) else old(index.Model())
      ensures r == if !active then Fail(NotActive) else if id in old(index.Model()) then Pass else Fail(PointNotFound)
    {
      if !active {
        return Fail(NotActive);
      }
      r := index.Delete(id);
    }

    method Get(id: string) returns (r: Result<V, Error>)
      requires index.Valid()
      ensures r == if id in Contents(index.Model()) then Success(Contents(index.Model())[id]) else Failure(PointNotFound)
    {
      r := index.Get(id);
    }
  }

  /** The shard that a hash belongs to. */
  function HomeOf(h: nat, n: nat): (i: nat)
    requires n > 0
    ensures i < n
  {
    h % n
  }

  lemma NoMultiple(n: int, k: int, x: int)
    requires 0 < k < n
    ensures n * x != k
  {
  }

  /** Hashes less than `n` apart belong to different shards, so any `n` in a row use every shard once. */
  lemma HomesTakeTurns(h: nat, k: nat, n: nat)
    requires 0 < k < n
    ensures HomeOf(h + k, n) != HomeOf(h, n)
  {
    var p, q := (h + k) / n, h / n;
    assert h + k == n * p + (h + k) % n && h == n * q + h % n;
    assert n * (p - q) == n * p - n * q;
    NoMultiple(n, k, p - q);
  }

  class ShardManager<V> {
    const hash: string -> nat
    const shards: seq<Shard<V>>
    const fits: V -> bool
    /** The one index that the shards together stand for. */
    ghost var whole: Index<V>

    ghost function Indexes(): set<object> {
      set i | 0 <= i < |shards| :: shards[i].index
    }

    ghost predicate Separate() {
      shards != [] && forall i, j :: 0 <= i < j < |shards| ==> shards[i].index != shards[j].index
    }

    /** A shard holds only IDs that live there, and knows of each what the whole knows. */
    ghost predicate Holds(i: nat, model: Index<V>, all: Index<V>)
      requires shards != []
    {
      && (forall id :: id in model ==> Home(id) == i)
      && (forall id :: Home(id) == i ==> Look(model, id) == Look(all, id))
    }

    ghost predicate Valid()
      reads this, Indexes()
    {
      && Separate()
      && forall i :: 0 <= i < |shards| ==>
           shards[i].index.Valid() && shards[i].index.fits == fits && Holds(i, shards[i].index.Model(), whole)
    }

    lemma HoldsInsert(i: nat, model: Index<V>, all: Index<V>, id: string, v: V)
      requires shards != [] && Holds(i, model, all)
      ensures Holds(i, if Home(id) == i then InsertId(model, id, v) else model, InsertId(all, id, v))
    {
      if Home(id) == i { assert Look(model, id) == Look(all, id); }
    }

    lemma HoldsDelete(i: nat, model: Index<V>, all: Index<V>, id: string)
      requires shards != [] && Holds(i, model, all)
      ensures Holds(i, if Home(id) == i then DeleteId(model, id) else model, DeleteId(all, id))
    {
      if Home(id) == i { assert Look(model, id) == Look(all, id); }
    }

    /** All shards are created active and empty. */
    constructor (hash: string -> nat, fits: V -> bool, shardCount: int)
      ensures Valid() && whole == map[] && this.fits == fits
      ensures this.hash == hash && |shards| == if shardCount <= 0 then 1 else shardCount
      ensures forall i :: 0 <= i < |shards| ==> shards[i].active
    {
      var count := if shardCount <= 0 then 1 else shardCount;
      var made: seq<Shard<V>> := [];
      for i := 0 to count
        invariant |made| == i
        invariant forall x :: 0 <= x < i ==> fresh(made[x]) && fresh(made[x].index) && made[x].active
        invariant forall x :: 0 <= x < i ==> made[x].index.Valid() && made[x].index.Model() == map[]
        invariant forall x :: 0 <= x < i ==> made[x].index.fits == fits
        invariant forall x, y :: 0 <= x < y < i ==> made[x].index != made[y].index
      {
        var shard := new Shard<V>(fits);
        made := made + [shard];
      }
      this.hash, this.fits := hash, fits;
      shards := made;
      whole := map[];
    }

    function Home(id: string): (i: nat)
      requires shards != []
      ensures i < |shards|
    {
      HomeOf(hash(id), |shards|)
    }

    /** Whether the home shard of `id` has room for one more node. */
    ghost predicate HomeHasRoom(id: string)
      requires Valid()
      reads this, Indexes()
    {
      |shards[Home(id)].index.Model()| < MAX_NODES
    }

    method Insert(id: string, v: V) returns (r: Outcome)
      requires Valid()
      modifies `whole, Indexes()
      ensures Valid()
      ensures whole == if r.Pass? then InsertId(old(whole), id, v) else old(whole)
      ensures r == if !shards[Home(id)].active then Fail(NotActive)
                   else if !fits(v) then Fail(DimensionMismatch)
                   else if id in old(whole) then Fail(PointExists)
                   else if !old(HomeHasRoom(id)) then Fail(TooManyNodes) else Pass
    {
      var home := Home(id);
      ghost var before := whole;
      assert Holds(home, shards[home].index.Model(), whole);
      assert Look(shards[home].index.Model(), id) == Look(whole, id);
      r := shards[home].Insert(id, v);
      if r.Pass? {
        whole := InsertId(whole, id, v);
        forall i | 0 <= i < |shards| ensures shards[i].index.Valid() && Holds(i, shards[i].index.Model(), whole) {
          HoldsInsert(i, old(shards[i].index.Model()), before, id, v);
        }
      }
    }

    method Delete(id: string) returns (r: Outcome)
      requires Valid()
      modifies `whole, Indexes()
      ensures Valid()
      ensures whole == if shards[Home(id)].active then DeleteId(old(whole), id) else old(whole)
      ensures r == if !shards[Home(id)].active then Fail(NotActive)
                   else if id in old(whole) then Pass else Fail(PointNotFound)
    {
      var home := Home(id);
      ghost var before := whole;
      assert Holds(home, shards[home].index.Model(), whole);
      assert Look(shards[home].index.Model(), id) == Look(whole, id);
      r := shards[home].Delete(id);
      if shards[home].active {
        whole := DeleteId(whole, id);
        forall i | 0 <= i < |shards| ensures shards[i].index.Valid() && Holds(i, shards[i].index.Model(), whole) {
          HoldsDelete(i, old(shards[i].index.Model()), before, id);
        }
      }
    }

    method Get(id: string) returns (r: Result<V, Error>)
      requires Valid()
      ensures r == if id in Contents(whole) then Success(Contents(whole)[id]) else Failure(PointNotFound)
    {
      assert Holds(Home(id), shards[Home(id)].index.Model(), whole);
      r := shards[Home(id)].Get(id);
      assert Look(shards[Home(id)].index.Model(), id) == Look(whole, id);
    }
  }
}
