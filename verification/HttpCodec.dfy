/** The HTTP codec: four state functions and a driver over a mutable parsing state and a
    mutable buffer, each proved against the functions of `HttpParsing`. */
module HttpCodecs {
  import opened Options
  import opened FailureTable
  import opened Slices
  import opened Buffers
  import opened HttpText
  import opened HttpParsing
  import opened HttpRoundTrip
  import opened HttpVerdicts

  class HTTPRequest {
    var requestType: string
    var path: string
    var majorVersion: nat
    var minorVersion: nat
    var headers: map<string, string>
    var headerLength: nat
    var bodyLength: nat
    var body: string

    function Value(): Request
      reads this
    {
      Request(requestType, path, majorVersion, minorVersion, headers, headerLength, bodyLength, body)
    }

    constructor ()
      ensures Value() == EMPTY_REQUEST
    {
      requestType, path, majorVersion, minorVersion := "", "", 0, 0;
      headers, headerLength, bodyLength, body := map[], 0, 0, "";
    }

    /** Says whether the header was new; a header that is there already keeps its value. */
    method AddHeader(key: string, val: string) returns (added: bool)
      modifies this`headers
      ensures headers == HttpParsing.AddHeader(old(headers), key, val)
      ensures added <==> key !in old(headers)
    {
      if key in headers {
        return false;
      }
      headers := headers[key := val];
      return true;
    }

    function GetHeader(name: string): (val: Option<string>)
      reads this
      ensures val.Some? <==> name in headers
      ensures val.Some? ==> val.value == headers[name]
    {
      if name in headers then Some(headers[name]) else None
    }
  }

  class HTTPRequestParsingState {
    var status: Status
    const req: HTTPRequest
    var res: Option<nat>

    constructor ()
      ensures Value() == FRESH && fresh(req)
    {
      status, res := Init, None;
      req := new HTTPRequest();
    }

    function Value(): ParsingState
      reads this, req
    {
      ParsingState(status, req.Value(), res)
    }
  }

  /** Which callback the codec calls after a driver run, and with what. */
  datatype Callback = NoCallback | OnError(status: nat) | OnRequest(req: Request)

  /** Splits at every occurrence of the separator. */
  method SplitString(src: string, sep: string) returns (res: seq<string>)
    requires sep != []
    ensures res == Split(src, sep)
  {
    res := [];
    var rest, atEnd := src, false;
    while !atEnd
      invariant if atEnd then res == Split(src, sep) else res + Split(rest, sep) == Split(src, sep)
      decreases !atEnd, |rest|
    {
      match FindFirst(rest, sep) {
        case Some(k) =>
          res := res + [rest[..k]];
          rest := rest[k + |sep|..];
        case None =>
          res := res + [rest];
          atEnd := true;
      }
    }
  }

  /** The first line end of a message, found with the failure-table search. */
  method FindLineEnd(msg: string) returns (pos: Option<nat>)
    ensures pos == FindFirst(msg, CRLF)
  {
    ShortPatternsAreExact(CRLF);
    var r, _ := Find(msg, CRLF);
    LeftmostIsFindFirst(msg, CRLF, r);
    return r;
  }

  class HTTPCodec {
    const hasRequestCallback: bool
    const hasErrorCallback: bool

    constructor (hasRequestCallback: bool, hasErrorCallback: bool)
      ensures this.hasRequestCallback == hasRequestCallback && this.hasErrorCallback == hasErrorCallback
    {
      this.hasRequestCallback, this.hasErrorCallback := hasRequestCallback, hasErrorCallback;
    }

    method StartParsing(state: HTTPRequestParsingState, buf: Buffer) returns (result: ParseResult)
      requires state.status == Init && buf.Valid()
      modifies state
      ensures buf.Valid() && Parsed(result, state.Value(), buf.Contents())
              == HttpParsing.StartParsing(old(state.Value()), old(buf.Contents()))
    {
      if buf.BytesToRead() != 0 {
        state.status := RequestLine;
        return OK;
      }
      return NeedMore;
    }

    method ReadRequestLine(state: HTTPRequestParsingState, buf: Buffer) returns (result: ParseResult)
      requires state.status == RequestLine && buf.Valid()
      modifies state, state.req, buf`readIndex, buf`writeIndex
      ensures buf.Valid() && Parsed(result, state.Value(), buf.Contents())
              == HttpParsing.ReadRequestLine(old(state.Value()), old(buf.Contents()))
    {
      hide FindFirst, Split, ReadVersion;
      var msg := buf.Contents();
      var end := FindLineEnd(msg);
      if end == None {
        return NeedMore;
      }
      var requestLine := Subslice(msg, 0, end.value);
      assert requestLine == msg[..end.value];
      var parts := SplitString(requestLine, " ");
      if |parts| != 3 {
        state.res := Some(BAD_REQUEST);
        return Error;
      }
      state.req.requestType := parts[0];
      state.req.path := parts[1];
      var ok := ReadVersionInto(state.req, parts[2]);
      if !ok {
        state.res := Some(BAD_REQUEST);
        return Error;
      }
      buf.ConsumeBytes(|requestLine| + 2);
      state.status := RequestHeader;
      return OK;
    }

    method ReadVersionInto(req: HTTPRequest, version: string) returns (ok: bool)
      modifies req`majorVersion, req`minorVersion
      ensures (ok, req.Value()) == ReadVersion(old(req.Value()), version)
    {
      var s := FindFirst(version, "/");
      if s == None || version[..s.value] != "HTTP" {
        return false;
      }
      var numbers := version[s.value + 1..];
      var e := FindFirst(numbers, ".");
      if e == None {
        return false;
      }
      var major := ParseUnsigned(numbers[..e.value]);
      if major == None {
        return false;
      }
      req.majorVersion := major.value;
      var minor := ParseUnsigned(numbers[e.value + 1..]);
      if minor == None {
        return false;
      }
      req.minorVersion := minor.value;
      return true;
    }

    method ReadRequestHeader(state: HTTPRequestParsingState, buf: Buffer) returns (result: ParseResult)
      requires state.status == RequestHeader && buf.Valid()
      modifies state, state.req, buf`readIndex, buf`writeIndex
      ensures buf.Valid() && Parsed(result, state.Value(), buf.Contents())
              == HttpParsing.ReadRequestHeader(old(state.Value()), old(buf.Contents()))
    {
      hide FindFirst, Split, ParseUnsigned, ToLower, HttpParsing.AddHeader;
      var msg := buf.Contents();
      var end := FindLineEnd(msg);
      if end == None {
        return NeedMore;
      }
      var pos := end.value;
      if pos == 0 {
        result := EndHeader(state, buf);
        return;
      }
      var line := Subslice(msg, 0, pos);
      assert line == msg[..pos];
      var kv := SplitString(line, ": ");
      if |kv| != 2 {
        state.res := Some(BAD_REQUEST);
        return Error;
      }
      state.req.headerLength := (state.req.headerLength + pos + 2) % UINT_RANGE;
      buf.ConsumeBytes(pos + 2);
      var _ := state.req.AddHeader(ToLower(kv[0]), kv[1]);
      return OK;
    }

    /** The blank line: a body follows if a length was announced. */
    method EndHeader(state: HTTPRequestParsingState, buf: Buffer) returns (result: ParseResult)
      requires state.status == RequestHeader && buf.Valid() && FindFirst(buf.Contents(), CRLF) == Some(0)
      modifies state, state.req, buf`readIndex, buf`writeIndex
      ensures buf.Valid() && Parsed(result, state.Value(), buf.Contents())
              == HttpParsing.ReadRequestHeader(old(state.Value()), old(buf.Contents()))
    {
      hide FindFirst, Split, ParseUnsigned, ToLower;
      var contentLength := state.req.GetHeader(CONTENT_LENGTH);
      if contentLength.Some? {
        var n := ParseUnsigned(contentLength.value);
        if n == None {
          state.res := Some(BAD_REQUEST);
          return Error;
        }
        state.status := RequestBody;
        state.req.bodyLength := n.value;
      } else {
        state.status := Done;
      }
      buf.ConsumeBytes(2);
      return OK;
    }

    method ReadRequestBody(state: HTTPRequestParsingState, buf: Buffer) returns (result: ParseResult)
      requires state.status == RequestBody && buf.Valid()
      modifies state, state.req, buf`readIndex, buf`writeIndex
      ensures buf.Valid() && Parsed(result, state.Value(), buf.Contents())
              == HttpParsing.ReadRequestBody(old(state.Value()), old(buf.Contents()))
    {
      var bodyLength := state.req.bodyLength;
      if bodyLength == 0 {
        return Aborted;
      }
      if buf.BytesToRead() < bodyLength {
        return NeedMore;
      }
      state.req.body := buf.Contents()[..bodyLength];
      buf.ConsumeBytes(bodyLength);
      state.status := Done;
      return OK;
    }

    /** Runs the state functions until one does not succeed or the request is complete, then
        calls back.  A parse error without an error callback goes to the request callback. */
    method OnMessage(state: HTTPRequestParsingState, buf: Buffer) returns (result: ParseResult, callback: Callback)
      requires state.status != Done && buf.Valid()
      modifies state, state.req, buf`readIndex, buf`writeIndex
      ensures buf.Valid() && Parsed(result, state.Value(), buf.Contents()) == Drive(old(state.Value()), old(buf.Contents()))
      ensures callback == CallbackFor(Parsed(result, state.Value(), buf.Contents()), hasRequestCallback, hasErrorCallback)
    {
      hide HttpParsing.StartParsing, HttpParsing.ReadRequestLine, HttpParsing.ReadRequestHeader, HttpParsing.ReadRequestBody;
      result := Error;
      ghost var st, bytes := state.Value(), buf.Contents();
      while state.status != Done
        invariant buf.Valid()
        invariant Drive(state.Value(), buf.Contents()) == Drive(st, bytes)
        invariant state.status == Done ==> result == OK
        decreases Rank(state.status), |buf.Contents()|
      {
        AdvanceProgresses(state.Value(), buf.Contents());
        match state.status {
          case Init => result := StartParsing(state, buf);
          case RequestLine => result := ReadRequestLine(state, buf);
          case RequestHeader => result := ReadRequestHeader(state, buf);
          case RequestBody => result := ReadRequestBody(state, buf);
        }
        if result != OK {
          break;
        }
      }
      DriveVerdict(st, bytes);
      if result == Aborted {
        callback := NoCallback;
      } else if result == Error && hasErrorCallback {
        assert state.res.Some?;
        callback := OnError(state.res.value);
      } else if result == NeedMore {
        callback := NoCallback;
      } else {
        callback := if hasRequestCallback then OnRequest(state.req.Value()) else NoCallback;
      }
    }
  }

  /** What the codec does with a connection on which `chunks` arrive one after the other:
      however the stream is cut, it ends as if all bytes had been there at once.  A printed
      request is called back once, with its meaning; a malformed text once, with status 400;
      an incomplete one not yet. */
  method Receive(codec: HTTPCodec, state: HTTPRequestParsingState, buf: Buffer, chunks: seq<string>)
    returns (result: ParseResult, callbacks: seq<Callback>)
    requires state.Value() == FRESH && buf.Valid() && buf.Contents() == []
    modifies state, state.req, buf, buf.data
    ensures buf.Valid() && Parsed(result, state.Value(), buf.Contents()) == Drive(FRESH, Concat(chunks))
    ensures AnswersText(Concat(chunks), callbacks, codec.hasRequestCallback, codec.hasErrorCallback)
  {
    hide Drive, Feed, Concat, CallbackFor, Once, AnswersText;
    ChunkingDoesNotMatter(chunks);
    TextDecidesCallback(Concat(chunks), codec.hasRequestCallback, codec.hasErrorCallback);
    callbacks := [];
    result := NeedMore;
    var i := 0;
    FeedStarts(chunks);
    while i < |chunks|
      invariant 0 <= i <= |chunks| && buf.Valid() && (buf.data == old(buf.data) || fresh(buf.data))
      invariant result == NeedMore ==> Feed(state.Value(), buf.Contents(), chunks[i..]) == Feed(FRESH, [], chunks)
      invariant result == NeedMore ==> state.status != Done
      invariant result == NeedMore ==> callbacks == []
      invariant result != NeedMore ==> Parsed(result, state.Value(), buf.Contents() + Concat(chunks[i..])) == Feed(FRESH, [], chunks)
      invariant result != NeedMore ==> callbacks == Once(CallbackFor(Feed(FRESH, [], chunks), codec.hasRequestCallback, codec.hasErrorCallback))
    {
      FeedOne(state.Value(), buf.Contents(), chunks, i);
      buf.Append(chunks[i]);
      if result == NeedMore {
        DriveVerdict(state.Value(), buf.Contents());
        var r, callback := codec.OnMessage(state, buf);
        result := r;
        RestIsNotCalledBack(Parsed(r, state.Value(), buf.Contents()), buf.Contents() + Concat(chunks[i + 1..]),
                            codec.hasRequestCallback, codec.hasErrorCallback);
        callbacks := Once(callback);
      }
      i := i + 1;
    }
    FeedEnds(state.Value(), buf.Contents(), chunks);
    RestIsNotCalledBack(Feed(FRESH, [], chunks), [], codec.hasRequestCallback, codec.hasErrorCallback);
  }

  lemma FeedStarts(chunks: seq<string>)
    ensures chunks[0..] == chunks
  {
  }

  lemma FeedOne(st: ParsingState, left: string, chunks: seq<string>, i: nat)
    requires i < |chunks|
    ensures Feed(st, left, chunks[i..])
            == var r := Drive(st, left + chunks[i]);
               if r.result == NeedMore then Feed(r.state, r.rest, chunks[i + 1..]) else r.(rest := r.rest + Concat(chunks[i + 1..]))
    ensures left + Concat(chunks[i..]) == left + chunks[i] + Concat(chunks[i + 1..])
  {
    hide Drive;
    assert chunks[i..][0] == chunks[i] && chunks[i..][1..] == chunks[i + 1..];
  }

  lemma FeedEnds(st: ParsingState, left: string, chunks: seq<string>)
    ensures Feed(st, left, chunks[|chunks|..]) == Parsed(NeedMore, st, left)
    ensures left + Concat(chunks[|chunks|..]) == left
  {
  }

  /** Looking up a header of a printed request that was parsed gives the value of the first
      field with this name, in lower case, and nothing exactly when there is no such field. */
  lemma GetHeaderGivesFirstField(req: HTTPRequest, m: Printable, key: string)
    requires req.Value() == Meaning(m)
    ensures match req.GetHeader(key) {
              case Some(val) => FirstNamed(m.fields, key, val)
              case None => forall f :: f in m.fields ==> ToLower(f.name) != key
            }
  {
    hide ToLower, FirstNamed, HeaderMap;
    HeadersOfMeaning(m, key);
    assert req.headers == Meaning(m).headers;
  }

  function CallbackFor(r: Parsed, hasRequest: bool, hasError: bool): Callback {
    match r.result
    case Aborted => NoCallback
    case NeedMore => NoCallback
    case Error => if hasError then OnError(BAD_REQUEST) else if hasRequest then OnRequest(r.state.req) else NoCallback
    case OK => if hasRequest then OnRequest(r.state.req) else NoCallback
  }

  function Once(callback: Callback): seq<Callback> {
    if callback == NoCallback then [] else [callback]
  }

  lemma RestIsNotCalledBack(r: Parsed, rest: string, hasRequest: bool, hasError: bool)
    ensures CallbackFor(r, hasRequest, hasError) == CallbackFor(r.(rest := rest), hasRequest, hasError)
    ensures r.result == NeedMore ==> Once(CallbackFor(r, hasRequest, hasError)) == []
  {
  }

  /** Which text is answered by which callback: a printed request, whatever follows it, by the
      request callback with its meaning; a malformed text by the error callback with status
      400; an incomplete one by none. */
  ghost predicate AnswersText(buf: string, callbacks: seq<Callback>, hasRequest: bool, hasError: bool) {
    && (forall m, rest :: hasRequest && WellFormed(m) && buf == Render(m) + rest ==> callbacks == [OnRequest(Meaning(m))])
    && (hasError && Malformed(buf) ==> callbacks == [OnError(400)])
    && (Incomplete(buf) ==> callbacks == [])
  }

  lemma TextDecidesCallback(buf: string, hasRequest: bool, hasError: bool)
    ensures AnswersText(buf, Once(CallbackFor(Drive(FRESH, buf), hasRequest, hasError)), hasRequest, hasError)
  {
    hide Drive, Render, WellFormed, Meaning, Malformed, Incomplete;
    forall m, rest | WellFormed(m) && buf == Render(m) + rest
      ensures Drive(FRESH, buf) == Parsed(OK, ParsingState(Done, Meaning(m), None), rest)
    {
      PrintThenParse(m, rest);
    }
    RefusesExactlyMalformed(buf);
  }

  /** With both callbacks set the request callback gets exactly the meanings of printed
      requests, and the error callback runs exactly on malformed texts. */
  lemma CallbacksAreExact(buf: string, req: Request)
    ensures CallbackFor(Drive(FRESH, buf), true, true) == OnRequest(req)
            <==> exists m, rest :: WellFormed(m) && buf == Render(m) + rest && req == Meaning(m)
    ensures CallbackFor(Drive(FRESH, buf), true, true).OnError? <==> Malformed(buf)
  {
    hide Drive, Render, WellFormed, Meaning, Malformed, Incomplete;
    TextDecidesCallback(buf, true, true);
    RefusesExactlyMalformed(buf);
    if Drive(FRESH, buf).result == OK {
      var m := ParseThenPrint(buf);
    }
  }

  /** The request callback is only ever given complete requests exactly when an error
      callback is set. */
  lemma CompleteRequestsNeedErrorCallback(hasError: bool)
    ensures (forall buf :: CallbackFor(Drive(FRESH, buf), true, hasError).OnRequest? ==> Drive(FRESH, buf).state.status == Done)
            <==> hasError
  {
    if hasError {
      forall buf ensures CallbackFor(Drive(FRESH, buf), true, true).OnRequest? ==> Drive(FRESH, buf).state.status == Done {
        DriveVerdict(FRESH, buf);
      }
    } else {
      var buf := CRLF;
      assert FindFirst(buf, CRLF) == Some(0);
      assert buf[..0] == [] && FindFirst([], " ") == None;
      assert |Split([], " ")| == 1;
      var s1 := FRESH.(status := RequestLine);
      assert Advance(s1, buf) == Rejected(s1, buf);
      assert Drive(s1, buf) == Rejected(s1, buf);
      assert Drive(FRESH, buf) == Rejected(s1, buf);
      assert CallbackFor(Drive(FRESH, buf), true, hasError).OnRequest?;
    }
  }
}
