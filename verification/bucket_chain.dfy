/**
 One bucket of the cache: the collision chain of entries that hashed to one
 slot. The chain operations come from `ll.h`, whose code is not part of this
 model; they are stated here by what the cache relies on: search matches on
 mode and key, insert appends, an update rewrites one entry in place, and
 search-and-remove unlinks the first match.
 */
module BucketChain {
  import opened Common

  /** A stored key/value pair tagged with its mode (the `Data` of a node). */
  datatype Entry = Entry(mode: Mode, key: Bytes, val: Bytes)

  type Chain = seq<Entry>

  predicate Matches(e: Entry, mode: Mode, key: Bytes)
  {
    e.mode == mode && e.key == key
  }

  /** Some entry of the chain carries this mode and key. */
  predicate InChain(chain: Chain, mode: Mode, key: Bytes)
  {
    exists i :: 0 <= i < |chain| && Matches(chain[i], mode, key)
  }

  /** No mode/key pair occurs twice in the chain. */
  predicate Unique(chain: Chain)
  {
    forall a, b :: 0 <= a < b < |chain| ==> !Matches(chain[a], chain[b].mode, chain[b].key)
  }

  /** `list_search`: the position of the first entry matching mode and key. */
  function Search(chain: Chain, mode: Mode, key: Bytes): (r: Option<nat>)
    ensures r.Some? ==> r.value < |chain| && Matches(chain[r.value], mode, key)
    ensures r.Some? ==> forall j :: 0 <= j < r.value ==> !Matches(chain[j], mode, key)
    ensures r.None? <==> !InChain(chain, mode, key)
  {
    if chain == [] then None
    else if Matches(chain[0], mode, key) then Some(0)
    else match Search(chain[1..], mode, key)
      case None =>
        assert forall j :: 1 <= j < |chain| ==> chain[j] == chain[1..][j - 1];
        None
      case Some(i) => Some(i + 1)
  }

  /** In a chain without duplicates the first match is the only one. */
  lemma {:induction false} SearchFindsTheOnlyMatch(chain: Chain, mode: Mode, key: Bytes, i: nat)
    requires Unique(chain)
    requires i < |chain| && Matches(chain[i], mode, key)
    ensures Search(chain, mode, key) == Some(i)
  {
    assert InChain(chain, mode, key);
  }

  /** `list_insert`: append a new entry. */
  function Insert(chain: Chain, e: Entry): (r: Chain)
    ensures |r| == |chain| + 1 && r[|chain|] == e
    ensures forall x :: x in r <==> x in chain || x == e
    ensures forall mode, key :: InChain(r, mode, key) <==> InChain(chain, mode, key) || Matches(e, mode, key)
  {
    var r := chain + [e];
    assert forall j :: 0 <= j < |chain| ==> r[j] == chain[j];
    r
  }

  /** `list_set_data` on the node at position `p`: the entry there gets value
      `v`; its mode and key stay as they were. */
  function Update(chain: Chain, p: nat, v: Bytes): (r: Chain)
    requires p < |chain|
    ensures |r| == |chain|
    ensures r[p] == Entry(chain[p].mode, chain[p].key, v)
    ensures forall j :: 0 <= j < |chain| && j != p ==> r[j] == chain[j]
    ensures forall mode, key :: InChain(r, mode, key) <==> InChain(chain, mode, key)
  {
    var r := chain[p := Entry(chain[p].mode, chain[p].key, v)];
    assert forall j :: 0 <= j < |chain| ==> Matches(r[j], chain[j].mode, chain[j].key);
    r
  }

  /** In a unique chain, an update at `p` changes the value stored under
      that entry's mode and key and nothing else. */
  lemma UpdateContents(chain: Chain, p: nat, v: Bytes, e: Entry)
    requires p < |chain| && Unique(chain)
    ensures e in Update(chain, p, v) <==>
      if Matches(e, chain[p].mode, chain[p].key) then e.val == v else e in chain
  {
    var r := Update(chain, p, v);
    if e in r && !Matches(e, chain[p].mode, chain[p].key) {
      var i :| 0 <= i < |r| && r[i] == e;
      assert chain[i] == e;
    }
    if e in chain && !Matches(e, chain[p].mode, chain[p].key) {
      var i :| 0 <= i < |chain| && chain[i] == e;
      assert r[i] == e;
    }
  }

  /** Unlinking the node at position `p` (the remove half of
      `list_search_and_remove`). */
  function RemoveAt(chain: Chain, p: nat): (r: Chain)
    requires p < |chain|
    ensures |r| == |chain| - 1
    ensures forall j :: 0 <= j < p ==> r[j] == chain[j]
    ensures forall j :: p <= j < |r| ==> r[j] == chain[j + 1]
  {
    chain[..p] + chain[p + 1..]
  }

  /** What stays in the chain after a removal: exactly the entries at the
      other positions. */
  lemma RemoveAtContents(chain: Chain, p: nat, e: Entry)
    requires p < |chain|
    ensures e in RemoveAt(chain, p) <==> exists j :: 0 <= j < |chain| && j != p && chain[j] == e
  {
    var r := RemoveAt(chain, p);
    if e in r {
      var k :| 0 <= k < |r| && r[k] == e;
      if k < p {
        assert chain[k] == e;
      } else {
        assert chain[k + 1] == e;
      }
    }
    if exists j :: 0 <= j < |chain| && j != p && chain[j] == e {
      var j :| 0 <= j < |chain| && j != p && chain[j] == e;
      if j < p {
        assert r[j] == e;
      } else {
        assert r[j - 1] == e;
      }
    }
  }

  lemma RemoveAtKeepsUnique(chain: Chain, p: nat)
    requires p < |chain| && Unique(chain)
    ensures Unique(RemoveAt(chain, p))
  {
    var r := RemoveAt(chain, p);
    forall a, b | 0 <= a < b < |r|
      ensures !Matches(r[a], r[b].mode, r[b].key)
    {
      var a0 := if a < p then a else a + 1;
      var b0 := if b < p then b else b + 1;
      assert r[a] == chain[a0] && r[b] == chain[b0] && a0 < b0;
    }
  }

  /** Removing the entry at `p` from a unique chain removes exactly its mode
      and key. */
  lemma RemoveAtInChain(chain: Chain, p: nat, mode: Mode, key: Bytes)
    requires p < |chain| && Unique(chain)
    ensures InChain(RemoveAt(chain, p), mode, key) <==> InChain(chain, mode, key) && !Matches(chain[p], mode, key)
  {
    var r := RemoveAt(chain, p);
    if InChain(r, mode, key) {
      var i :| 0 <= i < |r| && Matches(r[i], mode, key);
      var i0 := if i < p then i else i + 1;
      assert r[i] == chain[i0];
      if i0 < p {
        assert !Matches(chain[i0], chain[p].mode, chain[p].key);
      } else {
        assert !Matches(chain[p], chain[i0].mode, chain[i0].key);
      }
    }
    if InChain(chain, mode, key) && !Matches(chain[p], mode, key) {
      var i0 :| 0 <= i0 < |chain| && Matches(chain[i0], mode, key);
      var i := if i0 < p then i0 else i0 - 1;
      assert r[i] == chain[i0];
    }
  }
}
