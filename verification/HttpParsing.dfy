/** The HTTP request parser as functions of its state and of the bytes that have arrived. */
module HttpParsing {
  import opened Options
  import opened HttpText

  datatype Status = Init | RequestLine | RequestHeader | RequestBody | Done

  /** `Aborted` stands for a failed assertion. */
  datatype ParseResult = OK | NeedMore | Error | Aborted

  datatype Request = Request(
    requestType: string, path: string, majorVersion: nat, minorVersion: nat,
    headers: map<string, string>, headerLength: nat, bodyLength: nat, body: string)

  datatype ParsingState = ParsingState(status: Status, req: Request, res: Option<nat>)

  /** A result, the state after it, and the bytes not consumed. */
  datatype Parsed = Parsed(result: ParseResult, state: ParsingState, rest: string)

  const BAD_REQUEST: nat := 400
  const CONTENT_LENGTH := "content-length"

  const EMPTY_REQUEST := Request("", "", 0, 0, map[], 0, 0, "")
  const FRESH := ParsingState(Init, EMPTY_REQUEST, None)

  /** The first value of a header wins. */
  function AddHeader(headers: map<string, string>, key: string, val: string): map<string, string> {
    if key in headers then headers else headers[key := val]
  }

  function Rejected(st: ParsingState, buf: string): Parsed {
    Parsed(Error, st.(res := Some(BAD_REQUEST)), buf)
  }

  function StartParsing(st: ParsingState, buf: string): Parsed {
    if buf != [] then Parsed(OK, st.(status := RequestLine), buf) else Parsed(NeedMore, st, buf)
  }

  /** Reads "HTTP/major.minor" into the request; an error keeps what was read so far. */
  function ReadVersion(req: Request, version: string): (bool, Request) {
    match FindFirst(version, "/")
    case None => (false, req)
    case Some(s) =>
      if version[..s] != "HTTP" then (false, req)
      else match FindFirst(version[s + 1..], ".")
        case None => (false, req)
        case Some(e) =>
          match ParseUnsigned(version[s + 1..][..e])
          case None => (false, req)
          case Some(major) =>
            match ParseUnsigned(version[s + 1..][e + 1..])
            case None => (false, req.(majorVersion := major))
            case Some(minor) => (true, req.(majorVersion := major, minorVersion := minor))
  }

  function ReadRequestLine(st: ParsingState, buf: string): Parsed {
    match FindFirst(buf, CRLF)
    case None => Parsed(NeedMore, st, buf)
    case Some(pos) =>
      var parts := Split(buf[..pos], " ");
      if |parts| != 3 then Rejected(st, buf)
      else
        var (ok, req) := ReadVersion(st.req.(requestType := parts[0], path := parts[1]), parts[2]);
        if ok then Parsed(OK, st.(status := RequestHeader, req := req), buf[pos + 2..])
        else Rejected(st.(req := req), buf)
  }

  function ReadRequestHeader(st: ParsingState, buf: string): Parsed {
    match FindFirst(buf, CRLF)
    case None => Parsed(NeedMore, st, buf)
    case Some(pos) =>
      if pos == 0 then
        if CONTENT_LENGTH in st.req.headers then
          match ParseUnsigned(st.req.headers[CONTENT_LENGTH])
          case None => Rejected(st, buf)
          case Some(n) => Parsed(OK, st.(status := RequestBody, req := st.req.(bodyLength := n)), buf[2..])
        else Parsed(OK, st.(status := Done), buf[2..])
      else
        var kv := Split(buf[..pos], ": ");
        if |kv| != 2 then Rejected(st, buf)
        else
          var req := st.req.(headerLength := (st.req.headerLength + pos + 2) % UINT_RANGE,
                             headers := AddHeader(st.req.headers, ToLower(kv[0]), kv[1]));
          Parsed(OK, st.(req := req), buf[pos + 2..])
  }

  function ReadRequestBody(st: ParsingState, buf: string): Parsed {
    var n := st.req.bodyLength;
    if n == 0 then Parsed(Aborted, st, buf)
    else if |buf| < n then Parsed(NeedMore, st, buf)
    else Parsed(OK, st.(status := Done, req := st.req.(body := buf[..n])), buf[n..])
  }

  function Advance(st: ParsingState, buf: string): Parsed
    requires st.status != Done
  {
    match st.status
    case Init => StartParsing(st, buf)
    case RequestLine => ReadRequestLine(st, buf)
    case RequestHeader => ReadRequestHeader(st, buf)
    case RequestBody => ReadRequestBody(st, buf)
  }

  function Rank(status: Status): nat {
    match status
    case Init => 4
    case RequestLine => 3
    case RequestHeader => 2
    case RequestBody => 1
    case Done => 0
  }

  /** Advancing consumes bytes or moves on to a later status. */
  lemma AdvanceProgresses(st: ParsingState, buf: string)
    requires st.status != Done
    ensures var r := Advance(st, buf);
            |r.rest| <= |buf|
            && (r.result == OK ==> Rank(r.state.status) < Rank(st.status) || (r.state.status == st.status && |r.rest| < |buf|))
  {
  }

  /** The driver loop: advances until done, stuck or refused. */
  function Drive(st: ParsingState, buf: string): Parsed
    decreases Rank(st.status), |buf|
  {
    if st.status == Done then Parsed(OK, st, buf)
    else
      AdvanceProgresses(st, buf);
      var r := Advance(st, buf);
      if r.result != OK then r else Drive(r.state, r.rest)
  }

  /** The result and the state agree: done exactly on success, and the parser stops at its
      assertion exactly when a body of no bytes is announced.  An error always has a status. */
  lemma {:induction false} DriveVerdict(st: ParsingState, buf: string)
    ensures var r := Drive(st, buf);
            && (r.result == OK <==> r.state.status == Done)
            && (r.result == Aborted <==> r.state.status == RequestBody && r.state.req.bodyLength == 0)
            && (r.result == Error ==> r.state.res == Some(BAD_REQUEST))
    decreases Rank(st.status), |buf|
  {
    hide FindFirst, Split, ReadVersion, ParseUnsigned;
    if st.status != Done {
      AdvanceProgresses(st, buf);
      var r := Advance(st, buf);
      if r.result == OK {
        DriveVerdict(r.state, r.rest);
      }
    }
  }

  // ---- the outcome does not depend on the chunks ----

  /** A call that needs more has changed nothing; any other call ignores what follows. */
  lemma AdvanceExtends(st: ParsingState, a: string, b: string)
    requires st.status != Done
    ensures var r := Advance(st, a);
            if r.result == NeedMore then r == Parsed(NeedMore, st, a)
            else Advance(st, a + b) == r.(rest := r.rest + b)
  {
    hide FindFirst, Split, ReadVersion, ParseUnsigned, ToLower, AddHeader;
    if FindFirst(a, CRLF).Some? {
      FindFirstExtends(a, b, CRLF);
      var pos := FindFirst(a, CRLF).value;
      assert (a + b)[..pos] == a[..pos] && (a + b)[pos + 2..] == a[pos + 2..] + b;
      assert (a + b)[2..] == a[2..] + b;
    }
    var n := st.req.bodyLength;
    if n <= |a| {
      assert (a + b)[..n] == a[..n] && (a + b)[n..] == a[n..] + b;
    }
  }

  /** If the bytes `a` run out, going on with what is left of them and `b` gives the same as
      parsing `a + b` at once; if they do not, `b` is only added to the rest. */
  lemma {:induction false} DriveExtends(st: ParsingState, a: string, b: string)
    ensures var r := Drive(st, a);
            Drive(st, a + b) == if r.result == NeedMore then Drive(r.state, r.rest + b) else r.(rest := r.rest + b)
    decreases Rank(st.status), |a|
  {
    if st.status != Done {
      AdvanceExtends(st, a, b);
      AdvanceProgresses(st, a);
      var r := Advance(st, a);
      if r.result == OK {
        DriveExtends(r.state, r.rest, b);
      }
    }
  }

  /** What is left when the bytes run out cannot be parsed any further. */
  lemma {:induction false} LeftoverIsStuck(st: ParsingState, a: string)
    requires Drive(st, a).result == NeedMore
    ensures Drive(Drive(st, a).state, Drive(st, a).rest) == Drive(st, a)
    decreases Rank(st.status), |a|
  {
    AdvanceExtends(st, a, []);
    AdvanceProgresses(st, a);
    var r := Advance(st, a);
    if r.result == OK {
      LeftoverIsStuck(r.state, r.rest);
    }
  }

  function Concat(chunks: seq<string>): string {
    if chunks == [] then [] else chunks[0] + Concat(chunks[1..])
  }

  /** One call of the driver per chunk; after a final result the rest just accumulates. */
  function Feed(st: ParsingState, left: string, chunks: seq<string>): Parsed
    decreases |chunks|
  {
    if chunks == [] then Parsed(NeedMore, st, left)
    else
      var r := Drive(st, left + chunks[0]);
      if r.result == NeedMore then Feed(r.state, r.rest, chunks[1..])
      else r.(rest := r.rest + Concat(chunks[1..]))
  }

  lemma {:induction false} FeedIsDrive(st: ParsingState, left: string, chunks: seq<string>)
    requires Drive(st, left) == Parsed(NeedMore, st, left)
    ensures Feed(st, left, chunks) == Drive(st, left + Concat(chunks))
    decreases |chunks|
  {
    if chunks == [] {
      assert left + [] == left;
    } else {
      var a, b := left + chunks[0], Concat(chunks[1..]);
      assert left + Concat(chunks) == a + b;
      DriveExtends(st, a, b);
      var r := Drive(st, a);
      if r.result == NeedMore {
        LeftoverIsStuck(st, a);
        FeedIsDrive(r.state, r.rest, chunks[1..]);
      }
    }
  }

  /** However a stream is cut into chunks, the parser ends with the same result, state and
      unconsumed bytes as if it had arrived at once. */
  lemma ChunkingDoesNotMatter(chunks: seq<string>)
    ensures Feed(FRESH, [], chunks) == Drive(FRESH, Concat(chunks))
  {
    FeedIsDrive(FRESH, [], chunks);
    assert [] + Concat(chunks) == Concat(chunks);
  }
}
