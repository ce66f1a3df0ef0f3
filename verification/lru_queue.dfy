/**
 The recency queue of the cache. Its code (`lru_push`, `reset_lru_status`,
 `lru_remove` in `ll.h`) is not part of this model; the queue is a sequence
 of handles ordered from least to most recently used, so the eviction
 candidate is the first element and the most recent one the last.
 */
module LruQueue {
  import opened Common

  /** A priority handle: the slot of the entry and the entry's identity. */
  datatype LruNode = LruNode(slot: nat, mode: Mode, key: Bytes)

  type Queue = seq<LruNode>

  predicate NoDup(q: Queue)
  {
    forall a, b :: 0 <= a < b < |q| ==> q[a] != q[b]
  }

  lemma NoDupCons(x: LruNode, q: Queue)
    requires NoDup(q) && x !in q
    ensures NoDup([x] + q)
  {
    var r := [x] + q;
    forall a, b | 0 <= a < b < |r|
      ensures r[a] != r[b]
    {
      if a == 0 {
        assert r[b] == q[b - 1];
      } else {
        assert r[a] == q[a - 1] && r[b] == q[b - 1];
      }
    }
  }

  lemma NoDupSnoc(q: Queue, x: LruNode)
    requires NoDup(q) && x !in q
    ensures NoDup(q + [x])
  {
  }

  /** `lru_remove`: unlink a handle. Every other handle keeps its relative
      position, which `RemoveDistributes` states. */
  function Remove(q: Queue, n: LruNode): (r: Queue)
    ensures forall x :: x in r <==> x in q && x != n
    ensures |r| <= |q|
    ensures n !in q ==> r == q
    ensures NoDup(q) ==> NoDup(r)
    ensures NoDup(q) && n in q ==> |r| == |q| - 1
  {
    if q == [] then []
    else
      var tail := Remove(q[1..], n);
      if q[0] == n then tail
      else if NoDup(q) then
        assert q[0] !in q[1..] && NoDup(q[1..]);
        NoDupCons(q[0], tail);
        [q[0]] + tail
      else [q[0]] + tail
  }

  /** Removing from a concatenation removes from each part: the handles
      that stay keep their order. */
  lemma {:induction false} RemoveDistributes(a: Queue, b: Queue, n: LruNode)
    ensures Remove(a + b, n) == Remove(a, n) + Remove(b, n)
  {
    if a == [] {
      assert a + b == b;
    } else {
      assert (a + b)[1..] == a[1..] + b;
      RemoveDistributes(a[1..], b, n);
    }
  }

  /** `lru_push`: a new handle becomes the most recent one. */
  function Push(q: Queue, n: LruNode): (r: Queue)
    ensures |r| == |q| + 1 && r[|q|] == n
    ensures forall x :: x in r <==> x in q || x == n
    ensures NoDup(q) && n !in q ==> NoDup(r)
  {
    if NoDup(q) && n !in q then
      NoDupSnoc(q, n);
      q + [n]
    else q + [n]
  }

  /** `reset_lru_status`: move a handle to the most recent end. */
  function Promote(q: Queue, n: LruNode): (r: Queue)
    ensures |r| > 0 && r[|r| - 1] == n
    ensures forall x :: x in r <==> x in q || x == n
    ensures NoDup(q) ==> NoDup(r)
    ensures NoDup(q) && n in q ==> |r| == |q|
  {
    var rest := Remove(q, n);
    if NoDup(q) then
      NoDupSnoc(rest, n);
      rest + [n]
    else rest + [n]
  }

  /** Promoting a handle that is already the most recent one changes nothing. */
  lemma PromoteLastIsIdentity(q: Queue, n: LruNode)
    requires NoDup(q) && |q| > 0 && q[|q| - 1] == n
    ensures Promote(q, n) == q
  {
    var init := q[..|q| - 1];
    assert q == init + [n];
    assert n !in init;
    RemoveDistributes(init, [n], n);
  }
}
