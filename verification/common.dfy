/**
 Types shared by the cache engine and the text protocol: bytes, the optional
 value, the storage mode of an entry and the result/operation codes of the
 server (`enum code`).
 */
module Common {

  /** A C `char` as stored in a buffer: one byte, 0..255. */
  newtype byte = x: int | 0 <= x < 256

  type Bytes = seq<byte>

  datatype Option<+T> = None | Some(value: T)

  const NL: byte := 10   // '\n'
  const SP: byte := 32   // ' '
  const TAB: byte := 9   // '\t'

  /** The `char mode` argument of the cache operations. TEXT_MODE and BIN_MODE
      are the two modes the server uses; any other char value is `OtherMode`.
      The chars of TEXT_MODE and BIN_MODE live in a header outside this model,
      so an `OtherMode` tag stands for a char other than those two: each C
      mode has exactly one `Mode` value. */
  datatype Mode = TextMode | BinMode | OtherMode(tag: byte)

  /** The members of `enum code` that the two modelled files mention; the
      request router may return further codes, which are `OtherCode`. */
  datatype Code =
    | OK | ENOTFOUND | EINVALID | EUNK
    | STATS | GET | DEL | PUT
    | OtherCode(tag: nat)

  /** Position of the first occurrence of `b` in `s` (C `memchr`). */
  function IndexOf(s: Bytes, b: byte): (r: Option<nat>)
    ensures r.Some? ==> r.value < |s| && s[r.value] == b && b !in s[..r.value]
    ensures r.None? <==> b !in s
  {
    if s == [] then None
    else if s[0] == b then Some(0)
    else match IndexOf(s[1..], b)
      case None => None
      case Some(i) =>
        assert s[1..][..i] == s[1..i + 1];
        Some(i + 1)
  }

  /** Number of occurrences of `b` in `s`. */
  function Count(s: Bytes, b: byte): (n: nat)
    ensures n <= |s|
    ensures n == 0 <==> b !in s
  {
    if s == [] then 0 else (if s[0] == b then 1 else 0) + Count(s[1..], b)
  }

  lemma {:induction false} CountAppend(a: Bytes, c: Bytes, b: byte)
    ensures Count(a + c, b) == Count(a, b) + Count(c, b)
  {
    if a == [] {
      assert a + c == c;
    } else {
      assert (a + c)[1..] == a[1..] + c;
      CountAppend(a[1..], c, b);
    }
  }

  /** The first occurrence in a prefix is the first occurrence in the whole. */
  lemma {:induction false} IndexOfPrefix(a: Bytes, c: Bytes, b: byte)
    requires IndexOf(a, b).Some?
    ensures IndexOf(a + c, b) == IndexOf(a, b)
  {
    if a[0] != b {
      assert (a + c)[1..] == a[1..] + c;
      IndexOfPrefix(a[1..], c, b);
    }
  }
}
