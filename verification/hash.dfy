/**
 The key hash of the cache (`hash_bytes`) and the two mappings derived from
 it: the bucket slot of a key (`NROW`) and the lock region of a slot
 (`NREGION`). `unsigned long` is 64 bits wide and `char` is signed, as on the
 LP64 x86-64 targets the server is built for.
 */
module Hash {
  import opened Common

  /** 2^64: `unsigned long` arithmetic wraps modulo this. */
  const WORD: nat := 0x1_0000_0000_0000_0000

  /** The value of a signed `char` holding byte `b`. */
  function CharValue(b: byte): (v: int)
    ensures -128 <= v < 128
    ensures v % 256 == b as int
  {
    if b < 128 then b as int else b as int - 256
  }

  /** `hash_bytes`: h := c + 31 * h over the bytes, left to right, in
      unsigned 64-bit arithmetic. Defined on the last byte so that the value
      of a prefix is the loop's intermediate state. */
  function HashBytes(s: Bytes): (h: nat)
    ensures h < WORD
  {
    if s == [] then 0
    else (CharValue(s[|s| - 1]) + 31 * HashBytes(s[..|s| - 1])) % WORD
  }

  /** The same accumulator over unbounded integers (Horner's rule for the
      polynomial sum of c_i * 31^(n-1-i)). */
  function Poly(s: Bytes): int
  {
    if s == [] then 0
    else CharValue(s[|s| - 1]) + 31 * Poly(s[..|s| - 1])
  }

  lemma ModWordAbsorbs(c: int, x: int)
    ensures (c + 31 * (x % WORD)) % WORD == (c + 31 * x) % WORD
  {
    var q := x / WORD;
    assert x == WORD * q + x % WORD;
    assert c + 31 * x == (c + 31 * (x % WORD)) + WORD * (31 * q);
    ShiftByMultiple(c + 31 * (x % WORD), 31 * q);
  }

  lemma ShiftByMultiple(y: int, k: int)
    ensures (y + WORD * k) % WORD == y % WORD
  {
    var r := y % WORD;
    var d := y / WORD;
    assert y == WORD * d + r;
    assert y + WORD * k == WORD * (d + k) + r;
  }

  /** The wrapping hash is the unbounded polynomial reduced once modulo 2^64:
      wrap-around at each step loses nothing. */
  lemma {:induction false} HashIsPolyModWord(s: Bytes)
    ensures HashBytes(s) == Poly(s) % WORD
  {
    if s != [] {
      var init := s[..|s| - 1];
      HashIsPolyModWord(init);
      ModWordAbsorbs(CharValue(s[|s| - 1]), Poly(init));
    }
  }

  /** `hash_bytes` as the C loop computes it. */
  method HashLoop(bytes: Bytes) returns (hashval: nat)
    ensures hashval == HashBytes(bytes)
    ensures hashval == Poly(bytes) % WORD
  {
    hashval := 0;
    var i := 0;
    while i < |bytes|
      invariant 0 <= i <= |bytes|
      invariant hashval == HashBytes(bytes[..i])
    {
      assert bytes[..i + 1][..i] == bytes[..i];
      hashval := (CharValue(bytes[i]) + 31 * hashval) % WORD;
      i := i + 1;
    }
    assert bytes[..i] == bytes;
    HashIsPolyModWord(bytes);
  }

  /** `NROW`: the bucket slot of a key in a table of `size` buckets. */
  function Slot(key: Bytes, size: nat): (idx: nat)
    requires size > 0
    ensures idx < size
  {
    HashBytes(key) % size
  }

  /** `NREGION`: the lock region that covers slot `idx`. */
  function Region(idx: nat, nregions: nat): (reg: nat)
    requires nregions > 0
    ensures reg < nregions
  {
    idx % nregions
  }
}
