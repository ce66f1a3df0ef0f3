/**
 `text_handler`: drain every complete line from a connection buffer. Each
 pass finds the first newline, turns the line before it into a request
 (EINVALID without parsing when the line with its newline is longer than
 the frame limit), hands the request to the router, appends the response,
 and shifts the buffer left past the newline. Bytes after the last newline
 stay in the buffer for the next read.

 The router (`make_cache_request` with the cache it closes over) is a
 parameter `route` threading a state of type `S`; `write` becomes the
 returned output bytes.
 */
module TextHandler {
  import opened Common
  import opened TextConfig
  import opened TextParser
  import opened TextAnswer

  /** The arguments of one `make_cache_request` call. */
  datatype Request = Request(op: Code, mode: Mode, toks: seq<Bytes>, lens: seq<nat>)

  /** A complete line (without its newline) and the bytes after it. */
  datatype Frame = Frame(line: Bytes, rest: Bytes)

  /** One framing step: cut the buffer at its first newline. */
  function NextFrame(buf: Bytes): (r: Option<Frame>)
    ensures r.None? <==> NL !in buf
    ensures r.Some? ==> NL !in r.value.line
    ensures r.Some? ==> |r.value.rest| == |buf| - (|r.value.line| + 1)
  {
    match IndexOf(buf, NL)
    case None => None
    case Some(e) => Some(Frame(buf[..e], buf[e + 1..]))
  }

  /** A framing step consumes the line and its newline and keeps the rest
      of the buffer in order. */
  lemma NextFrameSplits(buf: Bytes)
    requires NextFrame(buf).Some?
    ensures buf == NextFrame(buf).value.line + [NL] + NextFrame(buf).value.rest
  {
    var e := IndexOf(buf, NL).value;
    assert buf == buf[..e] + [NL] + buf[e + 1..];
  }

  /** The complete lines of a buffer, in order. */
  function Lines(buf: Bytes): seq<Bytes>
    decreases |buf|
  {
    match NextFrame(buf)
    case None => []
    case Some(f) => [f.line] + Lines(f.rest)
  }

  /** What is left of a buffer once every complete line is consumed. */
  function Residue(buf: Bytes): Bytes
    decreases |buf|
  {
    match NextFrame(buf)
    case None => buf
    case Some(f) => Residue(f.rest)
  }

  function JoinLines(lines: seq<Bytes>): Bytes
  {
    if lines == [] then [] else lines[0] + [NL] + JoinLines(lines[1..])
  }

  /** The buffer is its lines, each with its newline, followed by the
      residue. */
  lemma {:induction false} BufferIsLinesThenResidue(buf: Bytes)
    ensures buf == JoinLines(Lines(buf)) + Residue(buf)
    decreases |buf|
  {
    var fb := NextFrame(buf);
    if fb.Some? {
      var f := fb.value;
      BufferIsLinesThenResidue(f.rest);
      NextFrameSplits(buf);
      var L := Lines(buf);
      assert L == [f.line] + Lines(f.rest);
      assert L[0] == f.line && L[1..] == Lines(f.rest);
      assert JoinLines(L) == f.line + [NL] + JoinLines(Lines(f.rest));
    }
  }

  /** No line and not the residue holds a newline. */
  lemma {:induction false} NoNewlineLeft(buf: Bytes)
    ensures NL !in Residue(buf)
    ensures forall i :: 0 <= i < |Lines(buf)| ==> NL !in Lines(buf)[i]
    decreases |buf|
  {
    var fb := NextFrame(buf);
    if fb.Some? {
      var f := fb.value;
      NoNewlineLeft(f.rest);
      assert Lines(buf) == [f.line] + Lines(f.rest);
    }
  }

  /** One line per newline byte. */
  lemma {:induction false} OneLinePerNewline(buf: Bytes)
    ensures |Lines(buf)| == Count(buf, NL)
    decreases |buf|
  {
    var fb := NextFrame(buf);
    if fb.Some? {
      var f := fb.value;
      OneLinePerNewline(f.rest);
      NextFrameSplits(buf);
      CountAppend(f.line + [NL], f.rest, NL);
      CountAppend(f.line, [NL], NL);
      assert Count([NL], NL) == 1;
    }
  }

  lemma NextFrameOfPrefix(a: Bytes, b: Bytes)
    requires NextFrame(a).Some?
    ensures NextFrame(a + b) == Some(Frame(NextFrame(a).value.line, NextFrame(a).value.rest + b))
  {
    var e := IndexOf(a, NL).value;
    IndexOfPrefix(a, b, NL);
    assert (a + b)[..e] == a[..e];
    assert (a + b)[e + 1..] == a[e + 1..] + b;
  }

  lemma {:induction false} LinesAcrossReads(a: Bytes, b: Bytes)
    ensures Lines(a + b) == Lines(a) + Lines(Residue(a) + b)
    decreases |a|
  {
    var fa := NextFrame(a);
    if fa.Some? {
      NextFrameOfPrefix(a, b);
      LinesAcrossReads(fa.value.rest, b);
    }
  }

  lemma {:induction false} ResidueAcrossReads(a: Bytes, b: Bytes)
    ensures Residue(a + b) == Residue(Residue(a) + b)
    decreases |a|
  {
    var fa := NextFrame(a);
    if fa.Some? {
      NextFrameOfPrefix(a, b);
      ResidueAcrossReads(fa.value.rest, b);
    }
  }

  /** The request built for one complete line:
      a line whose length with its newline exceeds the limit is EINVALID
      and is not parsed. */
  function LineRequest(cfg: Config, line: Bytes): (req: Request)
    ensures req.mode == TextMode
    ensures |line| + 1 > cfg.limit ==> req.op == EINVALID && req.toks == [] && req.lens == []
    ensures |line| + 1 <= cfg.limit ==>
      && req == Request(Parse(cfg, line).op, TextMode, Parse(cfg, line).toks, Parse(cfg, line).lens)
      && req.op != EINVALID
  {
    if |line| + 1 > cfg.limit then Request(EINVALID, TextMode, [], [])
    else
      var p := Parse(cfg, line);
      Request(p.op, TextMode, p.toks, p.lens)
  }

  /** The request built for each line, in order. */
  function Requests(cfg: Config, lines: seq<Bytes>): (reqs: seq<Request>)
    ensures |reqs| == |lines|
  {
    if lines == [] then [] else [LineRequest(cfg, lines[0])] + Requests(cfg, lines[1..])
  }

  /** Every line is dispatched exactly once, in order, as its own request:
      an over-long line does not disturb the lines after it. */
  lemma {:induction false} RequestsAreLineRequests(cfg: Config, lines: seq<Bytes>)
    ensures forall i :: 0 <= i < |lines| ==> Requests(cfg, lines)[i] == LineRequest(cfg, lines[i])
  {
    if lines != [] {
      RequestsAreLineRequests(cfg, lines[1..]);
    }
  }

  lemma {:induction false} RequestsAppend(cfg: Config, l1: seq<Bytes>, l2: seq<Bytes>)
    ensures Requests(cfg, l1 + l2) == Requests(cfg, l1) + Requests(cfg, l2)
  {
    if l1 == [] {
      assert l1 + l2 == l2;
    } else {
      assert (l1 + l2)[0] == l1[0];
      assert (l1 + l2)[1..] == l1[1..] + l2;
      RequestsAppend(cfg, l1[1..], l2);
    }
  }

  /** The router's state, the output written and the requests dispatched. */
  datatype Served<S> = Served(state: S, out: Bytes, reqs: seq<Request>)

  /** Routing a sequence of requests one after the other and answering each. */
  function Dispatch<S>(cfg: Config, route: (S, Request) -> (S, RouterResult), st: S, reqs: seq<Request>): (r: Served<S>)
    ensures r.reqs == reqs
  {
    if reqs == [] then Served(st, [], [])
    else
      var step := route(st, reqs[0]);
      var tail := Dispatch(cfg, route, step.0, reqs[1..]);
      Served(tail.state, Answer(cfg, step.1) + tail.out, [reqs[0]] + tail.reqs)
  }

  /** Serving a sequence of lines one after the other. */
  function Serve<S>(cfg: Config, route: (S, Request) -> (S, RouterResult), st: S, lines: seq<Bytes>): Served<S>
  {
    Dispatch(cfg, route, st, Requests(cfg, lines))
  }

  /** Serving the first part and then the rest, outputs concatenated. */
  function Then<S>(first: Served<S>, second: Served<S>): Served<S>
  {
    Served(second.state, first.out + second.out, first.reqs + second.reqs)
  }

  lemma {:induction false} DispatchAppend<S>(cfg: Config, route: (S, Request) -> (S, RouterResult), st: S, r1: seq<Request>, r2: seq<Request>)
    ensures Dispatch(cfg, route, st, r1 + r2) ==
      Then(Dispatch(cfg, route, st, r1), Dispatch(cfg, route, Dispatch(cfg, route, st, r1).state, r2))
  {
    if r1 == [] {
      assert r1 + r2 == r2;
    } else {
      assert (r1 + r2)[0] == r1[0];
      assert (r1 + r2)[1..] == r1[1..] + r2;
      var step := route(st, r1[0]);
      DispatchAppend(cfg, route, step.0, r1[1..], r2);
      var ans := Answer(cfg, step.1);
      var tail1 := Dispatch(cfg, route, step.0, r1[1..]);
      var whole := Dispatch(cfg, route, step.0, r1[1..] + r2);
      assert ans + whole.out == (ans + tail1.out) + Dispatch(cfg, route, tail1.state, r2).out;
    }
  }

  lemma ServeAppend<S>(cfg: Config, route: (S, Request) -> (S, RouterResult), st: S, l1: seq<Bytes>, l2: seq<Bytes>)
    ensures Serve(cfg, route, st, l1 + l2) ==
      Then(Serve(cfg, route, st, l1), Serve(cfg, route, Serve(cfg, route, st, l1).state, l2))
  {
    RequestsAppend(cfg, l1, l2);
    DispatchAppend(cfg, route, st, Requests(cfg, l1), Requests(cfg, l2));
  }

  /** Delivering `a` and then `b` in two reads gives the same responses and
      requests, in the same order, as delivering `a + b` in one read. */
  lemma SplitReadsAgree<S>(cfg: Config, route: (S, Request) -> (S, RouterResult), st: S, a: Bytes, b: Bytes)
    ensures var first := Serve(cfg, route, st, Lines(a));
      Serve(cfg, route, st, Lines(a + b)) ==
        Then(first, Serve(cfg, route, first.state, Lines(Residue(a) + b)))
    ensures Residue(a + b) == Residue(Residue(a) + b)
  {
    LinesAcrossReads(a, b);
    ResidueAcrossReads(a, b);
    ServeAppend(cfg, route, st, Lines(a), Lines(Residue(a) + b));
  }

  /** Serving a buffer's lines is serving its first line, then the lines
      of what follows it. */
  lemma ServeFirstLine<S>(cfg: Config, route: (S, Request) -> (S, RouterResult), st: S, buf: Bytes)
    requires NextFrame(buf).Some?
    ensures var f := NextFrame(buf).value;
      var req := LineRequest(cfg, f.line);
      var step := route(st, req);
      Serve(cfg, route, st, Lines(buf)) ==
        Then(Served(step.0, Answer(cfg, step.1), [req]), Serve(cfg, route, step.0, Lines(f.rest)))
  {
    var f := NextFrame(buf).value;
    var R := Requests(cfg, Lines(buf));
    assert Lines(buf) == [f.line] + Lines(f.rest);
    assert R == [LineRequest(cfg, f.line)] + Requests(cfg, Lines(f.rest));
    assert R[0] == LineRequest(cfg, f.line) && R[1..] == Requests(cfg, Lines(f.rest));
  }

  lemma ThenAssociates<S>(a: Served<S>, b: Served<S>, c: Served<S>)
    ensures Then(Then(a, b), c) == Then(a, Then(b, c))
  {
    assert (a.out + b.out) + c.out == a.out + (b.out + c.out);
    assert (a.reqs + b.reqs) + c.reqs == a.reqs + (b.reqs + c.reqs);
  }

  /** `text_handler` over the `current_idx` valid bytes `buf0`. Returns the
      router's final state, the bytes written, the buffer's remaining valid
      bytes and the requests dispatched. */
  method Handle<S>(cfg: Config, route: (S, Request) -> (S, RouterResult), st0: S, buf0: Bytes)
    returns (st: S, out: Bytes, rest: Bytes, reqs: seq<Request>)
    ensures Served(st, out, reqs) == Serve(cfg, route, st0, Lines(buf0))
    ensures rest == Residue(buf0) && NL !in rest
    ensures buf0 == JoinLines(Lines(buf0)) + rest
    ensures |reqs| == Count(buf0, NL)
    ensures forall i :: 0 <= i < |reqs| ==> reqs[i] == LineRequest(cfg, Lines(buf0)[i])
  {
    st, out, rest, reqs := st0, [], buf0, [];
    while true
      invariant Residue(rest) == Residue(buf0)
      invariant Serve(cfg, route, st0, Lines(buf0)) == Then(Served(st, out, reqs), Serve(cfg, route, st, Lines(rest)))
      decreases |rest|
    {
      var ebyte := IndexOf(rest, NL);
      if ebyte.None? {
        break;
      }
      var reqLen := ebyte.value + 1;
      var req := LineRequest(cfg, rest[..reqLen - 1]);
      var step := route(st, req);
      ServeFirstLine(cfg, route, st, rest);
      ThenAssociates(Served(st, out, reqs), Served(step.0, Answer(cfg, step.1), [req]), Serve(cfg, route, step.0, Lines(rest[reqLen..])));
      out := out + Answer(cfg, step.1);
      reqs := reqs + [req];
      st := step.0;
      rest := rest[reqLen..];
    }
    assert Lines(rest) == [];
    BufferIsLinesThenResidue(buf0);
    RequestsAreLineRequests(cfg, Lines(buf0));
    NoNewlineLeft(buf0);
    OneLinePerNewline(buf0);
  }
}
