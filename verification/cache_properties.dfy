/**
 What the cache engine promises its callers: the representation invariant
 holds from `cache_init` on and is kept by get, put and del; and, read
 through the invariant, the table behaves as a map from (mode, key) to
 value in which put writes one key, del erases one key and get reads one.
 */
module CacheProperties {
  import opened Common
  import opened Hash
  import opened BucketChain
  import opened LruQueue
  import opened CacheEngine

  /** The cache stores value `v` under mode `mode` and key `key`, in
      whatever bucket: the map the table represents. */
  ghost predicate Holds(c: Cache, mode: Mode, key: Bytes, v: Bytes)
  {
    exists j :: 0 <= j < |c.buckets| && Entry(mode, key, v) in c.buckets[j]
  }

  /** A fresh cache stores nothing, so every `get` on it misses. */
  lemma InitHoldsNothing(size: nat, nregions: nat, stats: StatsSnapshot, mode: Mode, key: Bytes, v: Bytes)
    requires 0 < size < UINT32 && 0 < nregions < UINT32
    ensures !Holds(Init(size, nregions, stats), mode, key, v)
    ensures Get(Init(size, nregions, stats), mode, key).code == ENOTFOUND
  {
  }

  /** Under the invariant an entry can only be in the slot its key hashes to. */
  lemma HoldsInItsSlot(c: Cache, mode: Mode, key: Bytes, v: Bytes)
    requires Valid(c)
    ensures Holds(c, mode, key, v) <==> Entry(mode, key, v) in c.buckets[Slot(key, c.size)]
  {
    if Holds(c, mode, key, v) {
      var j :| 0 <= j < |c.buckets| && Entry(mode, key, v) in c.buckets[j];
      var i :| 0 <= i < |c.buckets[j]| && c.buckets[j][i] == Entry(mode, key, v);
      assert WellPlaced(c.buckets[j], j, c.size);
    }
  }

  /** A unique chain holds at most one value per mode and key. */
  lemma ChainValueIsUnique(chain: Chain, mode: Mode, key: Bytes, v: Bytes, w: Bytes)
    requires Unique(chain)
    requires Entry(mode, key, v) in chain && Entry(mode, key, w) in chain
    ensures v == w
  {
    var a :| 0 <= a < |chain| && chain[a] == Entry(mode, key, v);
    var b :| 0 <= b < |chain| && chain[b] == Entry(mode, key, w);
    if a < b {
      assert Matches(chain[a], chain[b].mode, chain[b].key);
    } else if b < a {
      assert Matches(chain[b], chain[a].mode, chain[a].key);
    }
  }

  /** `get` reads the map: it returns `v` exactly when `v` is stored under
      the mode and key, and misses exactly when nothing is. */
  lemma GetReadsContents(c: Cache, mode: Mode, key: Bytes, v: Bytes)
    requires Valid(c)
    ensures Get(c, mode, key).val == Some(v) <==> Holds(c, mode, key, v)
    ensures Get(c, mode, key).code == OK <==> Get(c, mode, key).val.Some?
  {
    var idx := Slot(key, c.size);
    var chain := c.buckets[idx];
    HoldsInItsSlot(c, mode, key, v);
    var r := Get(c, mode, key);
    if r.val == Some(v) {
      assert Entry(mode, key, v) in chain;
    }
    if Entry(mode, key, v) in chain {
      var i :| 0 <= i < |chain| && chain[i] == Entry(mode, key, v);
      assert Matches(chain[i], mode, key);
      assert r.code == OK;
      ChainValueIsUnique(chain, mode, key, v, r.val.value);
    }
  }

  lemma GetPreservesValid(c: Cache, mode: Mode, key: Bytes)
    requires Valid(c)
    ensures Valid(Get(c, mode, key).cache)
  {
    var r := Get(c, mode, key);
    if r.code == OK {
      var idx := Slot(key, c.size);
      var n := LruNode(idx, mode, key);
      var i := Search(c.buckets[idx], mode, key).value;
      assert NodeOf(idx, c.buckets[idx][i]) == n;
      assert n in c.queue;
    }
  }

  lemma PutPreservesValid(c: Cache, mode: Mode, key: Bytes, val: Bytes)
    requires Valid(c)
    ensures Valid(Put(c, mode, key, val).cache)
  {
    if InChain(c.buckets[Slot(key, c.size)], mode, key) {
      PutHitPreservesValid(c, mode, key, val);
    } else {
      PutMissPreservesValid(c, mode, key, val);
    }
  }

  lemma PutMissPreservesValid(c: Cache, mode: Mode, key: Bytes, val: Bytes)
    requires Valid(c)
    requires !InChain(c.buckets[Slot(key, c.size)], mode, key)
    ensures Valid(Put(c, mode, key, val).cache)
  {
    var c' := Put(c, mode, key, val).cache;
    var idx := Slot(key, c.size);
    var chain := c.buckets[idx];
    var chain' := c'.buckets[idx];
    var n := LruNode(idx, mode, key);
    assert chain' == chain + [Entry(mode, key, val)];
    assert c'.queue == c.queue + [n];
    assert n !in c.queue;
    assert WellPlaced(chain', idx, c.size);
    assert Unique(chain');
    forall j, i | 0 <= j < |c'.buckets| && 0 <= i < |c'.buckets[j]|
      ensures NodeOf(j, c'.buckets[j][i]) in c'.queue
    {
      if j != idx || i < |chain| {
        assert c'.buckets[j][i] == c.buckets[j][i];
      }
    }
    forall m | m in c'.queue
      ensures m.slot < |c'.buckets| && InChain(c'.buckets[m.slot], m.mode, m.key)
    {
      if m != n && m.slot == idx {
        assert InChain(chain, m.mode, m.key);
      }
    }
  }

  lemma PutHitPreservesValid(c: Cache, mode: Mode, key: Bytes, val: Bytes)
    requires Valid(c)
    requires InChain(c.buckets[Slot(key, c.size)], mode, key)
    ensures Valid(Put(c, mode, key, val).cache)
  {
    var c' := Put(c, mode, key, val).cache;
    var idx := Slot(key, c.size);
    var chain := c.buckets[idx];
    var chain' := c'.buckets[idx];
    var n := LruNode(idx, mode, key);
    var p := Search(chain, mode, key).value;
    assert chain' == Update(chain, p, val);
    assert NodeOf(idx, chain[p]) == n;
    assert n in c.queue;
    assert forall j :: 0 <= j < |chain| ==> Matches(chain'[j], chain[j].mode, chain[j].key);
    assert WellPlaced(chain', idx, c.size);
    assert Unique(chain');
    forall j, i | 0 <= j < |c'.buckets| && 0 <= i < |c'.buckets[j]|
      ensures NodeOf(j, c'.buckets[j][i]) in c'.queue
    {
      assert NodeOf(j, c'.buckets[j][i]) == NodeOf(j, c.buckets[j][i]);
    }
  }

  lemma DelPreservesValid(c: Cache, mode: Mode, key: Bytes)
    requires Valid(c)
    ensures Valid(Del(c, mode, key).cache)
  {
    if InChain(c.buckets[Slot(key, c.size)], mode, key) {
      DelHitPreservesValid(c, mode, key);
    }
  }

  lemma DelHitPreservesValid(c: Cache, mode: Mode, key: Bytes)
    requires Valid(c)
    requires InChain(c.buckets[Slot(key, c.size)], mode, key)
    ensures Valid(Del(c, mode, key).cache)
  {
    var c' := Del(c, mode, key).cache;
    var idx := Slot(key, c.size);
    var chain := c.buckets[idx];
    var p := Search(chain, mode, key).value;
    var n := NodeOf(idx, chain[p]);
    var chain' := RemoveAt(chain, p);
    assert c'.buckets[idx] == chain';
    assert c'.queue == Remove(c.queue, n);
    assert WellPlaced(chain', idx, c.size);
    RemoveAtKeepsUnique(chain, p);
    forall j, i | 0 <= j < |c'.buckets| && 0 <= i < |c'.buckets[j]|
      ensures NodeOf(j, c'.buckets[j][i]) in c'.queue
    {
      if j == idx {
        var e := chain'[i];
        assert e in chain';
        RemoveAtInChain(chain, p, e.mode, e.key);
        assert InChain(chain', e.mode, e.key);
        assert !Matches(chain[p], e.mode, e.key);
        var i0 := if i < p then i else i + 1;
        assert chain[i0] == e;
        assert NodeOf(j, chain[i0]) in c.queue;
      } else {
        assert c'.buckets[j][i] == c.buckets[j][i];
      }
    }
    forall m | m in c'.queue
      ensures m.slot < |c'.buckets| && InChain(c'.buckets[m.slot], m.mode, m.key)
    {
      assert m in c.queue && m != n;
      if m.slot == idx {
        RemoveAtInChain(chain, p, m.mode, m.key);
      }
    }
  }

  /** `put` writes one key of the map and no other. */
  lemma PutContents(c: Cache, mode: Mode, key: Bytes, val: Bytes, m: Mode, k: Bytes, v: Bytes)
    requires Valid(c)
    ensures Holds(Put(c, mode, key, val).cache, m, k, v) <==>
      if m == mode && k == key then v == val else Holds(c, m, k, v)
  {
    var c' := Put(c, mode, key, val).cache;
    PutPreservesValid(c, mode, key, val);
    HoldsInItsSlot(c, m, k, v);
    HoldsInItsSlot(c', m, k, v);
    var idx := Slot(key, c.size);
    if Slot(k, c.size) == idx {
      PutSlotContents(c, mode, key, val, Entry(m, k, v));
    }
  }

  /** The chain `put` writes, entry by entry. */
  lemma PutSlotContents(c: Cache, mode: Mode, key: Bytes, val: Bytes, e: Entry)
    requires Valid(c)
    ensures var idx := Slot(key, c.size);
      e in Put(c, mode, key, val).cache.buckets[idx] <==>
        if Matches(e, mode, key) then e.val == val else e in c.buckets[idx]
  {
    var idx := Slot(key, c.size);
    var chain := c.buckets[idx];
    match Search(chain, mode, key)
    case None =>
      if e in chain {
        assert !Matches(e, mode, key);
      }
    case Some(p) =>
      assert Unique(chain);
      UpdateContents(chain, p, val, e);
  }

  /** `del` erases one key of the map and no other. */
  lemma DelContents(c: Cache, mode: Mode, key: Bytes, m: Mode, k: Bytes, v: Bytes)
    requires Valid(c)
    ensures Holds(Del(c, mode, key).cache, m, k, v) <==>
      !(m == mode && k == key) && Holds(c, m, k, v)
  {
    var c' := Del(c, mode, key).cache;
    DelPreservesValid(c, mode, key);
    HoldsInItsSlot(c, m, k, v);
    HoldsInItsSlot(c', m, k, v);
    var idx := Slot(key, c.size);
    var chain := c.buckets[idx];
    var e := Entry(m, k, v);
    if Slot(k, c.size) == idx {
      match Search(chain, mode, key)
      case None =>
      case Some(p) =>
        RemoveAtContents(chain, p, e);
        if e in chain {
          var i :| 0 <= i < |chain| && chain[i] == e;
          if m == mode && k == key {
            SearchFindsTheOnlyMatch(chain, mode, key, i);
          } else {
            assert i != p;
          }
        }
    }
  }

  /** Round trip: after `put`, `get` of the same mode and key returns the
      value that was put. */
  lemma PutThenGet(c: Cache, mode: Mode, key: Bytes, val: Bytes)
    requires Valid(c)
    ensures Get(Put(c, mode, key, val).cache, mode, key).code == OK
    ensures Get(Put(c, mode, key, val).cache, mode, key).val == Some(val)
  {
    var c' := Put(c, mode, key, val).cache;
    PutPreservesValid(c, mode, key, val);
    PutContents(c, mode, key, val, mode, key, val);
    GetReadsContents(c', mode, key, val);
  }

  /** Isolation: `put` on one mode and key is invisible to `get` on any
      other mode or key, in particular to the same key bytes in the other
      mode. */
  lemma PutIsolation(c: Cache, mode: Mode, key: Bytes, val: Bytes, m: Mode, k: Bytes)
    requires Valid(c)
    requires m != mode || k != key
    ensures Get(Put(c, mode, key, val).cache, m, k).code == Get(c, m, k).code
    ensures Get(Put(c, mode, key, val).cache, m, k).val == Get(c, m, k).val
  {
    var c' := Put(c, mode, key, val).cache;
    PutPreservesValid(c, mode, key, val);
    var before := Get(c, m, k);
    var after := Get(c', m, k);
    GetReadsContents(c, m, k, []);
    GetReadsContents(c', m, k, []);
    if before.val.Some? {
      var v := before.val.value;
      GetReadsContents(c, m, k, v);
      PutContents(c, mode, key, val, m, k, v);
      GetReadsContents(c', m, k, v);
    } else if after.val.Some? {
      var v := after.val.value;
      GetReadsContents(c', m, k, v);
      PutContents(c, mode, key, val, m, k, v);
      GetReadsContents(c, m, k, v);
    }
  }

  /** Isolation for `del`: removing one mode and key is invisible to `get`
      on any other. */
  lemma DelIsolation(c: Cache, mode: Mode, key: Bytes, m: Mode, k: Bytes)
    requires Valid(c)
    requires m != mode || k != key
    ensures Get(Del(c, mode, key).cache, m, k).code == Get(c, m, k).code
    ensures Get(Del(c, mode, key).cache, m, k).val == Get(c, m, k).val
  {
    var c' := Del(c, mode, key).cache;
    DelPreservesValid(c, mode, key);
    var before := Get(c, m, k);
    var after := Get(c', m, k);
    GetReadsContents(c, m, k, []);
    GetReadsContents(c', m, k, []);
    if before.val.Some? {
      var v := before.val.value;
      GetReadsContents(c, m, k, v);
      DelContents(c, mode, key, m, k, v);
      GetReadsContents(c', m, k, v);
    } else if after.val.Some? {
      var v := after.val.value;
      GetReadsContents(c', m, k, v);
      DelContents(c, mode, key, m, k, v);
      GetReadsContents(c, m, k, v);
    }
  }

  /** Deletion: after `del`, `get` of that mode and key misses and the
      queue no longer holds its handle. */
  lemma DelThenGet(c: Cache, mode: Mode, key: Bytes)
    requires Valid(c)
    ensures Get(Del(c, mode, key).cache, mode, key).code == ENOTFOUND
    ensures LruNode(Slot(key, c.size), mode, key) !in Del(c, mode, key).cache.queue
  {
    var c' := Del(c, mode, key).cache;
    DelPreservesValid(c, mode, key);
    var r := Get(c', mode, key);
    if r.code == OK {
      var v := r.val.value;
      GetReadsContents(c', mode, key, v);
      DelContents(c, mode, key, mode, key, v);
      assert false;
    }
  }

  /** Overwrite: a `put` on a stored mode and key adds neither an entry nor
      a handle; a `put` on a new one adds exactly one of each. */
  lemma PutEntryCount(c: Cache, mode: Mode, key: Bytes, val: Bytes)
    requires Valid(c)
    ensures var idx := Slot(key, c.size);
      var c' := Put(c, mode, key, val).cache;
      if InChain(c.buckets[idx], mode, key)
      then |c'.buckets[idx]| == |c.buckets[idx]| && |c'.queue| == |c.queue|
      else |c'.buckets[idx]| == |c.buckets[idx]| + 1 && |c'.queue| == |c.queue| + 1
  {
    var idx := Slot(key, c.size);
    var n := LruNode(idx, mode, key);
    if InChain(c.buckets[idx], mode, key) {
      var i := Search(c.buckets[idx], mode, key).value;
      assert NodeOf(idx, c.buckets[idx][i]) == n;
    }
  }

  /** Recency: after hits on A, B and A again, A is the most recent handle
      and B the next one. */
  lemma GetRecency(c: Cache, ma: Mode, ka: Bytes, mb: Mode, kb: Bytes)
    requires Valid(c)
    requires ma != mb || ka != kb
    requires InChain(c.buckets[Slot(ka, c.size)], ma, ka)
    requires InChain(c.buckets[Slot(kb, c.size)], mb, kb)
    ensures var q := Get(Get(Get(c, ma, ka).cache, mb, kb).cache, ma, ka).cache.queue;
      && |q| >= 2
      && q[|q| - 1] == LruNode(Slot(ka, c.size), ma, ka)
      && q[|q| - 2] == LruNode(Slot(kb, c.size), mb, kb)
  {
    var a := LruNode(Slot(ka, c.size), ma, ka);
    var b := LruNode(Slot(kb, c.size), mb, kb);
    var c1 := Get(c, ma, ka).cache;
    var c2 := Get(c1, mb, kb).cache;
    var q := Get(c2, ma, ka).cache.queue;
    assert c2.queue == Remove(c1.queue, b) + [b];
    assert q == Remove(c2.queue, a) + [a];
    RemoveDistributes(Remove(c1.queue, b), [b], a);
    assert Remove([b], a) == [b];
    assert q == Remove(Remove(c1.queue, b), a) + [b] + [a];
  }
}
