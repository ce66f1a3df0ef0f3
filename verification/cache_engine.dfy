/**
 The cache engine (`cache.c`): a table of `size` bucket chains indexed by the
 key hash, a recency queue with one handle per stored entry, and one
 statistics register per mode. Every operation is modelled as one atomic
 state transition: the region locks that serialise the C operations are
 erased, and so are the memory copies (values are plain byte sequences).
 */
module CacheEngine {
  import opened Common
  import opened Hash
  import opened BucketChain
  import opened LruQueue

  /** 2^32: the width of the `uint32_t` fields `size` and `nregions`. */
  const UINT32: nat := 0x1_0000_0000

  /** A snapshot of one statistics register (`struct Stats`, whose fields
      are not part of this model). */
  datatype StatsSnapshot = StatsSnapshot(counters: seq<int>)

  datatype Cache = Cache(
    size: nat,
    nregions: nat,
    buckets: seq<Chain>,
    queue: Queue,
    textStats: StatsSnapshot,
    binStats: StatsSnapshot)

  /** The state after an operation, its result code, and the value copied
      out by a successful `get`. */
  datatype Reply = Reply(cache: Cache, code: Code, val: Option<Bytes>)

  datatype StatsReply = StatsReply(code: Code, stats: Option<StatsSnapshot>)

  /** The shape every operation needs: non-zero table and region counts that
      fit the `uint32_t` fields, and one chain per slot. */
  predicate WellFormed(c: Cache)
  {
    0 < c.size < UINT32 && 0 < c.nregions < UINT32 && |c.buckets| == c.size
  }

  /** The recency handle bound to entry `e` stored in slot `slot`. */
  function NodeOf(slot: nat, e: Entry): LruNode
  {
    LruNode(slot, e.mode, e.key)
  }

  /** Every entry of the chain hashes to the slot that holds it. */
  predicate WellPlaced(chain: Chain, slot: nat, size: nat)
    requires size > 0
  {
    forall i :: 0 <= i < |chain| ==> Slot(chain[i].key, size) == slot
  }

  /** The representation invariant: entries sit in their hash slot, no
      mode/key pair is stored twice, and stored entries and queue handles
      are in one-to-one correspondence. */
  predicate Valid(c: Cache)
  {
    && WellFormed(c)
    && (forall j :: 0 <= j < |c.buckets| ==> WellPlaced(c.buckets[j], j, c.size) && Unique(c.buckets[j]))
    && NoDup(c.queue)
    && (forall j, i :: 0 <= j < |c.buckets| && 0 <= i < |c.buckets[j]| ==> NodeOf(j, c.buckets[j][i]) in c.queue)
    && (forall n :: n in c.queue ==> n.slot < |c.buckets| && InChain(c.buckets[n.slot], n.mode, n.key))
  }

  /** `cache_init`: `size` empty chains, an empty queue, both statistics
      registers set to the initial snapshot `stats` (`stats_init`). */
  function Init(size: nat, nregions: nat, stats: StatsSnapshot): (c: Cache)
    requires size < UINT32 && nregions < UINT32
    ensures c.size == size && c.nregions == nregions
    ensures |c.buckets| == size && forall j :: 0 <= j < size ==> c.buckets[j] == []
    ensures c.queue == []
    ensures c.textStats == stats && c.binStats == stats
    ensures 0 < size && 0 < nregions ==> Valid(c)
  {
    Cache(size, nregions, seq(size, _ => []), [], stats, stats)
  }

  /** `cache_get`: look the key up in its slot; on a hit copy the value out
      and make the entry the most recent one. */
  function Get(c: Cache, mode: Mode, key: Bytes): (r: Reply)
    requires WellFormed(c)
    ensures r.code == OK || r.code == ENOTFOUND
    ensures r.code == OK <==> InChain(c.buckets[Slot(key, c.size)], mode, key)
    ensures r.code == ENOTFOUND ==> r.cache == c && r.val == None
    ensures r.code == OK ==> r.val.Some? && Entry(mode, key, r.val.value) in c.buckets[Slot(key, c.size)]
    ensures r.cache.(queue := c.queue) == c
    ensures r.code == OK ==> r.cache.queue == Promote(c.queue, LruNode(Slot(key, c.size), mode, key))
  {
    var idx := Slot(key, c.size);
    var chain := c.buckets[idx];
    match Search(chain, mode, key)
    case None => Reply(c, ENOTFOUND, None)
    case Some(p) =>
      assert chain[p] == Entry(mode, key, chain[p].val);
      Reply(c.(queue := Promote(c.queue, NodeOf(idx, chain[p]))), OK, Some(chain[p].val))
  }

  /** `cache_put`: overwrite the value of an existing mode/key entry in
      place, or append a new entry and push a new handle; either way the
      entry ends up the most recent one. */
  function Put(c: Cache, mode: Mode, key: Bytes, val: Bytes): (r: Reply)
    requires WellFormed(c)
    ensures r.code == OK && r.val == None
    ensures r.cache.(buckets := c.buckets, queue := c.queue) == c
    ensures |r.cache.buckets| == |c.buckets|
    ensures forall j :: 0 <= j < |c.buckets| && j != Slot(key, c.size) ==> r.cache.buckets[j] == c.buckets[j]
    ensures Entry(mode, key, val) in r.cache.buckets[Slot(key, c.size)]
    ensures |r.cache.queue| > 0 && r.cache.queue[|r.cache.queue| - 1] == LruNode(Slot(key, c.size), mode, key)
    ensures r.cache.queue ==
      if InChain(c.buckets[Slot(key, c.size)], mode, key)
      then Promote(c.queue, LruNode(Slot(key, c.size), mode, key))
      else Push(c.queue, LruNode(Slot(key, c.size), mode, key))
    ensures InChain(c.buckets[Slot(key, c.size)], mode, key) ==>
      |r.cache.buckets[Slot(key, c.size)]| == |c.buckets[Slot(key, c.size)]|
    ensures !InChain(c.buckets[Slot(key, c.size)], mode, key) ==>
      r.cache.buckets[Slot(key, c.size)] == c.buckets[Slot(key, c.size)] + [Entry(mode, key, val)]
  {
    var idx := Slot(key, c.size);
    var chain := c.buckets[idx];
    match Search(chain, mode, key)
    case None =>
      var chain' := Insert(chain, Entry(mode, key, val));
      assert chain' == chain + [Entry(mode, key, val)];
      Reply(c.(buckets := c.buckets[idx := chain'],
               queue := Push(c.queue, LruNode(idx, mode, key))), OK, None)
    case Some(p) =>
      var chain' := Update(chain, p, val);
      assert chain'[p] == Entry(mode, key, val);
      Reply(c.(buckets := c.buckets[idx := chain'],
               queue := Promote(c.queue, NodeOf(idx, chain[p]))), OK, None)
  }

  /** `cache_del`: unlink the matching entry from its chain and its handle
      from the queue. */
  function Del(c: Cache, mode: Mode, key: Bytes): (r: Reply)
    requires WellFormed(c)
    ensures r.code == OK || r.code == ENOTFOUND
    ensures r.code == OK <==> InChain(c.buckets[Slot(key, c.size)], mode, key)
    ensures r.code == ENOTFOUND ==> r.cache == c
    ensures r.val == None
    ensures r.cache.(buckets := c.buckets, queue := c.queue) == c
    ensures |r.cache.buckets| == |c.buckets|
    ensures forall j :: 0 <= j < |c.buckets| && j != Slot(key, c.size) ==> r.cache.buckets[j] == c.buckets[j]
    ensures r.code == OK ==>
      && |r.cache.buckets[Slot(key, c.size)]| == |c.buckets[Slot(key, c.size)]| - 1
      && r.cache.queue == Remove(c.queue, LruNode(Slot(key, c.size), mode, key))
  {
    var idx := Slot(key, c.size);
    var chain := c.buckets[idx];
    match Search(chain, mode, key)
    case None => Reply(c, ENOTFOUND, None)
    case Some(p) =>
      Reply(c.(buckets := c.buckets[idx := RemoveAt(chain, p)],
               queue := Remove(c.queue, NodeOf(idx, chain[p]))), OK, None)
  }

  /** `cache_stats`: the register of the named mode; any other mode is
      rejected with EUNK. */
  function Stats(c: Cache, mode: Mode): (r: StatsReply)
    ensures r.code == OK <==> mode == TextMode || mode == BinMode
    ensures r.code != OK ==> r.code == EUNK && r.stats == None
    ensures mode == TextMode ==> r.stats == Some(c.textStats)
    ensures mode == BinMode ==> r.stats == Some(c.binStats)
  {
    match mode
    case TextMode => StatsReply(OK, Some(c.textStats))
    case BinMode => StatsReply(OK, Some(c.binStats))
    case OtherMode(_) => StatsReply(EUNK, None)
  }
}
