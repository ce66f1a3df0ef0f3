/**
 `answer_text_client`: the response line written back for one request.
 */
module TextAnswer {
  import opened Common
  import opened TextConfig

  /** The fixed oversize response "EBIG\n". */
  const EBIG_LINE: Bytes := [69, 66, 73, 71, 10]

  /** What the request router hands back: a result code, an optional payload
      buffer and the length `ans_len` used for the size check. */
  datatype RouterReply = RouterReply(code: Code, payload: Option<Bytes>, ansLen: nat)

  /** A payload buffer holds exactly `ans_len` bytes. */
  type RouterResult = r: RouterReply | r.payload.Some? ==> r.ansLen == |r.payload.value|
    witness RouterReply(OK, None, 0)

  /** The response bytes: the code name, a space and the payload when there
      is one, and a newline; or "EBIG\n" alone when the payload length plus
      the code name's length exceeds the frame limit (the separator and the
      newline are not counted). */
  function Answer(cfg: Config, rep: RouterResult): (out: Bytes)
    ensures |out| > 0 && out[|out| - 1] == NL
    ensures rep.ansLen + |cfg.codeName(rep.code)| > cfg.limit ==> out == EBIG_LINE
    ensures rep.ansLen + |cfg.codeName(rep.code)| <= cfg.limit ==>
      && |cfg.codeName(rep.code)| < |out| <= cfg.limit + 2
      && out[..|cfg.codeName(rep.code)|] == cfg.codeName(rep.code)
  {
    var name := cfg.codeName(rep.code);
    if rep.ansLen + |name| > cfg.limit then EBIG_LINE
    else
      var body := match rep.payload
        case None => name
        case Some(data) => name + [SP] + data;
      assert body[..|name|] == name;
      body + [NL]
  }

  /** A response line read back: the code name and the payload, if any. */
  datatype Response = Response(name: Bytes, payload: Option<Bytes>)

  /** Reading a response line: drop the final newline, then split at the
      first space. */
  function ReadResponse(line: Bytes): Response
    requires |line| > 0
  {
    var body := line[..|line| - 1];
    match IndexOf(body, SP)
    case None => Response(body, None)
    case Some(i) => Response(body[..i], Some(body[i + 1..]))
  }

  /** Round trip: when the code name holds no space, the written response
      reads back as the code name and payload the router returned, or as
      "EBIG" with no payload when it was too big. */
  lemma AnswerReadsBack(cfg: Config, rep: RouterResult)
    requires SP !in cfg.codeName(rep.code)
    ensures var name := cfg.codeName(rep.code);
      ReadResponse(Answer(cfg, rep)) ==
        if rep.ansLen + |name| > cfg.limit then Response([69, 66, 73, 71], None)
        else Response(name, rep.payload)
  {
    var name := cfg.codeName(rep.code);
    var out := Answer(cfg, rep);
    if rep.ansLen + |name| > cfg.limit {
      assert out[..|out| - 1] == [69, 66, 73, 71];
      assert SP !in out[..|out| - 1];
    } else {
      match rep.payload
      case None =>
        assert out[..|out| - 1] == name;
      case Some(data) =>
        var body := out[..|out| - 1];
        assert body == name + [SP] + data;
        assert body[..|name|] == name && body[|name|] == SP;
        assert IndexOf(body, SP) == Some(|name|);
        assert body[|name| + 1..] == data;
    }
  }
}
