/**
 Tokenisation of a request line as `text_parser` does it with `strtok_r`
 and the delimiter set " \t": a token is a maximal run of bytes that are
 neither space nor tab.
 */
module TextTokens {
  import opened Common

  predicate IsDelim(b: byte)
  {
    b == SP || b == TAB
  }

  predicate AllDelims(s: Bytes)
  {
    forall i :: 0 <= i < |s| ==> IsDelim(s[i])
  }

  predicate NoDelims(s: Bytes)
  {
    forall i :: 0 <= i < |s| ==> !IsDelim(s[i])
  }

  /** Length of the run of delimiters that starts `s`. */
  function LeadingDelims(s: Bytes): (n: nat)
    ensures n <= |s| && AllDelims(s[..n])
    ensures n < |s| ==> !IsDelim(s[n])
  {
    if s == [] || !IsDelim(s[0]) then 0
    else
      var n := 1 + LeadingDelims(s[1..]);
      assert forall i :: 1 <= i < n ==> s[..n][i] == s[1..][..n - 1][i - 1];
      n
  }

  /** Length of the run of non-delimiters that starts `s`. */
  function WordLength(s: Bytes): (n: nat)
    ensures n <= |s| && NoDelims(s[..n])
    ensures n < |s| ==> IsDelim(s[n])
  {
    if s == [] || IsDelim(s[0]) then 0
    else
      var n := 1 + WordLength(s[1..]);
      assert forall i :: 1 <= i < n ==> s[..n][i] == s[1..][..n - 1][i - 1];
      n
  }

  /** A token and what `strtok_r` leaves in `save_ptr`. */
  datatype Split = Split(token: Bytes, rest: Bytes)

  /** One `strtok_r(…, " \t", &save_ptr)` call: skip delimiters, take the
      longest run of non-delimiters, and step over the one delimiter that
      ends it (overwritten with NUL in C). No token when only delimiters
      remain. */
  function NextToken(s: Bytes): (r: Option<Split>)
    ensures r.None? <==> AllDelims(s)
    ensures r.Some? ==> |r.value.token| > 0 && NoDelims(r.value.token)
    ensures r.Some? ==> |r.value.rest| + |r.value.token| < |s| + 1
  {
    var d := LeadingDelims(s);
    if d == |s| then
      assert s[..d] == s;
      None
    else
      var t := s[d..];
      var w := WordLength(t);
      Some(Split(t[..w], if w < |t| then t[w + 1..] else []))
  }

  /** The whole token sequence of a line: repeated `strtok_r` calls. */
  function Tokens(s: Bytes): (toks: seq<Bytes>)
    ensures forall i :: 0 <= i < |toks| ==> |toks[i]| > 0 && NoDelims(toks[i])
    ensures toks == [] <==> AllDelims(s)
    decreases |s|
  {
    match NextToken(s)
    case None => []
    case Some(sp) => [sp.token] + Tokens(sp.rest)
  }

  /** The line with every space and tab taken out. */
  function Strip(s: Bytes): Bytes
  {
    if s == [] then []
    else (if IsDelim(s[0]) then [] else [s[0]]) + Strip(s[1..])
  }

  function Concat(toks: seq<Bytes>): Bytes
  {
    if toks == [] then [] else toks[0] + Concat(toks[1..])
  }

  lemma {:induction false} StripAppend(a: Bytes, b: Bytes)
    ensures Strip(a + b) == Strip(a) + Strip(b)
  {
    if a == [] {
      assert a + b == b;
    } else {
      assert (a + b)[1..] == a[1..] + b;
      StripAppend(a[1..], b);
    }
  }

  lemma {:induction false} StripAllDelims(s: Bytes)
    requires AllDelims(s)
    ensures Strip(s) == []
  {
    if s != [] {
      StripAllDelims(s[1..]);
    }
  }

  lemma {:induction false} StripNoDelims(s: Bytes)
    requires NoDelims(s)
    ensures Strip(s) == s
  {
    if s != [] {
      StripNoDelims(s[1..]);
    }
  }

  /** How a line falls apart around its first token. */
  lemma NextTokenDecomposes(s: Bytes) returns (d: Bytes, sep: Bytes)
    requires NextToken(s).Some?
    ensures AllDelims(d) && AllDelims(sep) && |sep| <= 1
    ensures |sep| == 0 ==> NextToken(s).value.rest == []
    ensures s == d + NextToken(s).value.token + sep + NextToken(s).value.rest
  {
    var n := LeadingDelims(s);
    var t := s[n..];
    var w := WordLength(t);
    d := s[..n];
    sep := if w < |t| then [t[w]] else [];
    assert s == s[..n] + t[..w] + sep + NextToken(s).value.rest;
  }

  lemma StripWord(d: Bytes, w: Bytes, sep: Bytes, rest: Bytes)
    requires AllDelims(d) && NoDelims(w) && AllDelims(sep)
    ensures Strip(d + w + sep + rest) == w + Strip(rest)
  {
    var x := d + w;
    var y := x + sep;
    StripAllDelims(d);
    StripAllDelims(sep);
    StripNoDelims(w);
    StripAppend(d, w);
    assert Strip(x) == w;
    StripAppend(x, sep);
    assert Strip(y) == w;
    StripAppend(y, rest);
  }

  /** Stripping a line keeps its first token and strips what follows it. */
  lemma StripAroundToken(s: Bytes)
    requires NextToken(s).Some?
    ensures Strip(s) == NextToken(s).value.token + Strip(NextToken(s).value.rest)
  {
    var sp := NextToken(s).value;
    var d, sep := NextTokenDecomposes(s);
    StripWord(d, sp.token, sep, sp.rest);
  }

  /** The tokens hold exactly the non-blank bytes of the line, in order:
      nothing is lost, duplicated or reordered by tokenisation. */
  lemma {:induction false} TokensCoverLine(s: Bytes)
    ensures Concat(Tokens(s)) == Strip(s)
    decreases |s|
  {
    match NextToken(s)
    case None =>
      StripAllDelims(s);
    case Some(sp) =>
      StripAroundToken(s);
      TokensCoverLine(sp.rest);
      var T := Tokens(s);
      assert T == [sp.token] + Tokens(sp.rest);
      assert T[0] == sp.token && T[1..] == Tokens(sp.rest);
  }

  /** Number of words of `s`: positions holding a non-blank byte that is
      the first byte or follows a blank one (`afterBlank` says whether the
      byte before `s` was blank or absent). */
  function WordStarts(s: Bytes, afterBlank: bool): nat
  {
    if s == [] then 0
    else (if afterBlank && !IsDelim(s[0]) then 1 else 0) + WordStarts(s[1..], IsDelim(s[0]))
  }

  lemma {:induction false} WordStartsSkipBlanks(d: Bytes, x: Bytes, afterBlank: bool)
    requires AllDelims(d) && |d| > 0
    ensures WordStarts(d + x, afterBlank) == WordStarts(x, true)
  {
    assert (d + x)[1..] == d[1..] + x;
    if |d| > 1 {
      WordStartsSkipBlanks(d[1..], x, true);
    } else {
      assert d[1..] + x == x;
    }
  }

  lemma {:induction false} WordStartsSkipWord(w: Bytes, x: Bytes, afterBlank: bool)
    requires NoDelims(w) && |w| > 0
    ensures WordStarts(w + x, afterBlank) == (if afterBlank then 1 else 0) + WordStarts(x, false)
  {
    assert (w + x)[1..] == w[1..] + x;
    if |w| > 1 {
      WordStartsSkipWord(w[1..], x, false);
    } else {
      assert w[1..] + x == x;
    }
  }

  /** A run of blanks, one word, then at most one blank before the rest. */
  lemma WordStartsAroundWord(d: Bytes, w: Bytes, sep: Bytes, rest: Bytes)
    requires AllDelims(d) && NoDelims(w) && |w| > 0 && AllDelims(sep) && |sep| <= 1
    requires |sep| == 0 ==> rest == []
    ensures WordStarts(d + w + sep + rest, true) == 1 + WordStarts(rest, true)
  {
    var tail := sep + rest;
    assert d + w + sep + rest == d + (w + tail);
    if |d| > 0 {
      WordStartsSkipBlanks(d, w + tail, true);
    } else {
      assert d + (w + tail) == w + tail;
    }
    WordStartsSkipWord(w, tail, true);
    if |sep| == 1 {
      WordStartsSkipBlanks(sep, rest, false);
    } else {
      assert tail == [];
    }
  }

  /** There is one token per word of the line. */
  lemma {:induction false} TokensCountWords(s: Bytes)
    ensures |Tokens(s)| == WordStarts(s, true)
    decreases |s|
  {
    match NextToken(s)
    case None =>
      BlankLineHasNoWords(s, true);
    case Some(sp) =>
      var d, sep := NextTokenDecomposes(s);
      WordStartsAroundWord(d, sp.token, sep, sp.rest);
      TokensCountWords(sp.rest);
  }

  lemma {:induction false} BlankLineHasNoWords(s: Bytes, afterBlank: bool)
    requires AllDelims(s)
    ensures WordStarts(s, afterBlank) == 0
  {
    if s != [] {
      BlankLineHasNoWords(s[1..], true);
    }
  }
}
