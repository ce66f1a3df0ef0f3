/**
 `text_parser`: split a request line into the operation name and its
 arguments, and classify it by name and token count.
 */
module TextParser {
  import opened Common
  import opened TextTokens
  import opened TextConfig

  /** The classified operation, the argument tokens (`toks`) and their
      lengths (`lens`). */
  datatype Parsed = Parsed(op: Code, toks: seq<Bytes>, lens: seq<nat>)

  function Min(a: nat, b: nat): nat
  {
    if a < b then a else b
  }

  /** The if/else chain that picks the operation from the first token and
      the number of tokens read. */
  function Classify(opStr: Bytes, ntoks: nat, name: Code -> Bytes): Code
  {
    if ntoks == 1 && opStr == name(STATS) then STATS
    else if ntoks == 2 && opStr == name(GET) then GET
    else if ntoks == 2 && opStr == name(DEL) then DEL
    else if ntoks == 3 && opStr == name(PUT) then PUT
    else EUNK
  }

  /** `text_parser` on a line without its terminator. At most
      `maxToks` tokens are read (the name and `maxToks - 1` arguments);
      tokens past the cap are not looked at, and the EINVALID the source
      assigns when one exists is overwritten by the classification. */
  function Parse(cfg: Config, line: Bytes): (p: Parsed)
    ensures p.op in {STATS, GET, DEL, PUT, EUNK}
    ensures var T := Tokens(line); var n := Min(|T|, cfg.maxToks);
      && (p.op == STATS <==> n == 1 && T[0] == cfg.codeName(STATS))
      && (p.op == GET <==> n == 2 && T[0] == cfg.codeName(GET))
      && (p.op == DEL <==> n == 2 && T[0] == cfg.codeName(DEL) && T[0] != cfg.codeName(GET))
      && (p.op == PUT <==> n == 3 && T[0] == cfg.codeName(PUT))
    ensures AllDelims(line) ==> p.op == EUNK
    ensures |p.lens| == |p.toks|
    ensures forall i :: 0 <= i < |p.toks| ==> p.lens[i] == |p.toks[i]|
  {
    var T := Tokens(line);
    var ntoks := Min(|T|, cfg.maxToks);
    var opStr := if |T| == 0 then [] else T[0];
    var toks := if |T| == 0 then [] else T[1..ntoks];
    Parsed(Classify(opStr, ntoks, cfg.codeName), toks, seq(|toks|, i requires 0 <= i < |toks| => |toks[i]|))
  }

  /** The arguments handed on are the tokens after the operation name, up
      to the cap; each is non-empty and free of spaces and tabs. */
  lemma ParseArguments(cfg: Config, line: Bytes)
    ensures var p := Parse(cfg, line); var T := Tokens(line);
      && p.toks == (if |T| == 0 then [] else T[1..Min(|T|, cfg.maxToks)])
      && (AllDelims(line) ==> p.toks == [])
      && forall i :: 0 <= i < |p.toks| ==> |p.toks[i]| > 0 && NoDelims(p.toks[i])
  {
    var T := Tokens(line);
    var p := Parse(cfg, line);
    if |T| > 0 {
      var n := Min(|T|, cfg.maxToks);
      assert p.toks == T[1..n];
      forall i | 0 <= i < |p.toks|
        ensures |p.toks[i]| > 0 && NoDelims(p.toks[i])
      {
        assert p.toks[i] == T[i + 1];
      }
    }
  }

  /** With the three-token cap, a `PUT` line with trailing extra tokens is
      still a PUT: the cap hides them. */
  lemma PutIgnoresExtraTokens(cfg: Config, line: Bytes)
    requires cfg.maxToks == 3
    requires |Tokens(line)| > 3 && Tokens(line)[0] == cfg.codeName(PUT)
    ensures Parse(cfg, line).op == PUT
    ensures Parse(cfg, line).toks == Tokens(line)[1..3]
  {
  }

  /** With the three-token cap, `GET` or `DEL` with an extra token is EUNK,
      not EINVALID. */
  lemma ExtraArgumentIsUnknown(cfg: Config, line: Bytes)
    requires cfg.maxToks == 3
    requires |Tokens(line)| == 3
    requires Tokens(line)[0] != cfg.codeName(PUT)
    ensures Parse(cfg, line).op == EUNK
  {
  }
}
