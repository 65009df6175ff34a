/** Which texts the parser refuses, and which it waits on.  Accepted and aborted texts are
    those of `HttpRoundTrip`, so every text has its verdict. */
module HttpVerdicts {
  import opened Options
  import opened HttpText
  import opened HttpParsing
  import opened HttpRoundTrip

  /** A complete line that no request starts with. */
  ghost predicate BadLine(l: string) {
    Lacks(l, CRLF) && !exists m :: LineOk(m) && l == Line(m)
  }

  /** A complete line that is neither blank nor a header field. */
  ghost predicate BadField(l: string) {
    l != [] && Lacks(l, CRLF) && !exists f :: FieldOk(f) && l == FieldLine(f)
  }

  /** A header that announces a length which is no number. */
  predicate BadLength(headers: map<string, string>) {
    CONTENT_LENGTH in headers && ParseUnsigned(headers[CONTENT_LENGTH]) == None
  }

  predicate HeadOk(m: Printable) {
    LineOk(m) && FieldsOk(m.fields)
  }

  /** A printed request line and printed fields, and what follows them. */
  function HeadThen(m: Printable, tail: string): string {
    Line(m) + CRLF + (RenderFields(m.fields) + tail)
  }

  ghost predicate Malformed(buf: string) {
    || (exists l, rest :: BadLine(l) && buf == l + CRLF + rest)
    || (exists m, l, rest :: HeadOk(m) && BadField(l) && buf == HeadThen(m, l + CRLF + rest))
    || exists m, rest :: HeadOk(m) && BadLength(HeaderMap(map[], m.fields)) && buf == HeadThen(m, CRLF + rest)
  }

  /** No line end yet, at the start or behind a printed head; or the body is not yet there. */
  ghost predicate Incomplete(buf: string) {
    || Lacks(buf, CRLF)
    || (exists m, tail :: HeadOk(m) && Lacks(tail, CRLF) && buf == HeadThen(m, tail))
    || exists m, tail :: HeadOk(m) && BodyIsMissing(HeaderMap(map[], m.fields), tail) && buf == HeadThen(m, CRLF + tail)
  }

  predicate BodyIsMissing(headers: map<string, string>, tail: string) {
    CONTENT_LENGTH in headers && ParseUnsigned(headers[CONTENT_LENGTH]).Some? && |tail| < ParseUnsigned(headers[CONTENT_LENGTH]).value
  }

  lemma LineVerdict(st: ParsingState, l: string, rest: string)
    requires Lacks(l, CRLF)
    ensures ReadRequestLine(st, l + CRLF + rest).result == if BadLine(l) then Error else OK
  {
    hide FindFirst, Split, ReadVersion, LineOk, Line;
    var buf := l + CRLF + rest;
    FindFirstBehind(l, rest, CRLF);
    if ReadRequestLine(st, buf).result == OK {
      var m := LineIsPrinted(st, buf);
      SameFirstLine(l, rest, Line(m), ReadRequestLine(st, buf).rest, m);
    }
    forall m | LineOk(m) && l == Line(m) ensures ReadRequestLine(st, buf).result == OK {
      LineRoundTrip(m, st, rest);
    }
  }

  lemma SameFirstLine(l: string, rest: string, l': string, rest': string, m: Printable)
    requires Lacks(l, CRLF) && LineOk(m) && l' == Line(m) && l + CRLF + rest == l' + CRLF + rest'
    ensures l == l'
  {
    hide FindFirst, LineOk, Line;
    LineLacksEnd(m);
    FirstLinesAgree(l, rest, l', rest');
  }

  lemma FirstLinesAgree(l: string, rest: string, l': string, rest': string)
    requires Lacks(l, CRLF) && Lacks(l', CRLF) && l + CRLF + rest == l' + CRLF + rest'
    ensures l == l'
  {
    hide FindFirst;
    FindFirstBehind(l, rest, CRLF);
    FindFirstBehind(l', rest', CRLF);
    assert l == (l + CRLF + rest)[..|l|];
    assert l' == (l' + CRLF + rest')[..|l'|];
  }

  lemma FieldVerdict(st: ParsingState, l: string, rest: string)
    requires Lacks(l, CRLF) && l != []
    ensures ReadRequestHeader(st, l + CRLF + rest).result == if BadField(l) then Error else OK
  {
    hide FindFirst, Split, ToLower, AddHeader, FieldOk, FieldLine;
    var buf := l + CRLF + rest;
    FindFirstBehind(l, rest, CRLF);
    if ReadRequestHeader(st, buf).result == OK {
      var f := FieldIsPrinted(st, buf);
      FieldLacksEnd(f);
      FirstLinesAgree(l, rest, FieldLine(f), ReadRequestHeader(st, buf).rest);
    }
    forall f | FieldOk(f) && l == FieldLine(f) ensures ReadRequestHeader(st, buf).result == OK {
      FieldRoundTrip(f, st, rest);
    }
  }

  /** Where the fields of a text end. */
  ghost predicate FieldsEnd(tail: string) {
    match FindFirst(tail, CRLF)
    case None => true
    case Some(pos) => pos == 0 || BadField(tail[..pos])
  }

  lemma {:induction false} FieldsAreRead(st: ParsingState, buf: string) returns (fields: seq<Field>, tail: string)
    ensures FieldsOk(fields) && buf == RenderFields(fields) + tail && FieldsEnd(tail)
    decreases |buf|
  {
    hide FindFirst, ReadRequestHeader, FieldOk, FieldLine, BadField;
    fields, tail := [], buf;
    assert buf == RenderFields([]) + tail;
    if FindFirst(buf, CRLF).Some? && FindFirst(buf, CRLF) != Some(0) {
      BeforeFirstLacks(buf, CRLF);
      var pos := FindFirst(buf, CRLF).value;
      var l, rest := buf[..pos], buf[pos + 2..];
      if !BadField(l) {
        FieldVerdict(st, l, rest);
        var f := FieldIsPrinted(st, buf);
        FieldRoundTrip(f, st, ReadRequestHeader(st, buf).rest);
        ShorterRest(f, buf, ReadRequestHeader(st, buf).rest);
        var fs;
        fs, tail := FieldsAreRead(st, ReadRequestHeader(st, buf).rest);
        fields := [f] + fs;
        assert fields[1..] == fs;
      }
    }
  }

  lemma ShorterRest(f: Field, buf: string, rest: string)
    requires buf == FieldLine(f) + CRLF + rest
    ensures |rest| < |buf|
  {
  }

  /** Past the fields, where they end, what follows decides. */
  lemma EndVerdict(st: ParsingState, tail: string)
    requires st.status == RequestHeader && FieldsEnd(tail)
    ensures Drive(st, tail).result == Error
            <==> (FindFirst(tail, CRLF).Some? && FindFirst(tail, CRLF) != Some(0)) || (FindFirst(tail, CRLF) == Some(0) && BadLength(st.req.headers))
    ensures Drive(st, tail).result == NeedMore
            <==> FindFirst(tail, CRLF) == None || (FindFirst(tail, CRLF) == Some(0) && BodyIsMissing(st.req.headers, tail[2..]))
  {
    hide FindFirst, ParseUnsigned, ReadRequestHeader, BadField;
    match FindFirst(tail, CRLF)
    case None => NoLineNoStep(st, tail);
    case Some(pos) =>
      BeforeFirstLacks(tail, CRLF);
      if pos == 0 {
        assert tail == CRLF + tail[2..];
        BlankLineVerdict(st, tail[2..]);
      } else {
        FieldVerdict(st, tail[..pos], tail[pos + 2..]);
        assert tail == tail[..pos] + CRLF + tail[pos + 2..];
      }
  }

  lemma NoLineNoStep(st: ParsingState, tail: string)
    requires (st.status == RequestHeader || st.status == RequestLine) && FindFirst(tail, CRLF) == None
    ensures Drive(st, tail).result == NeedMore
  {
    hide FindFirst;
  }

  lemma BlankLineVerdict(st: ParsingState, tail: string)
    requires st.status == RequestHeader
    ensures Drive(st, CRLF + tail).result == Error <==> BadLength(st.req.headers)
    ensures Drive(st, CRLF + tail).result == NeedMore <==> BodyIsMissing(st.req.headers, tail)
  {
    hide FindFirst, ParseUnsigned, ReadRequestHeader;
    BlankLine(st, tail);
    var r := Advance(st, CRLF + tail);
    if r.result == OK {
      assert Drive(st, CRLF + tail) == Drive(r.state, tail);
      BodyVerdict(r.state, tail);
    }
  }

  lemma BodyVerdict(st: ParsingState, tail: string)
    requires st.status == RequestBody || st.status == Done
    ensures Drive(st, tail).result != Error
    ensures Drive(st, tail).result == NeedMore <==> st.status == RequestBody && |tail| < st.req.bodyLength
  {
    if st.status == RequestBody && 0 < st.req.bodyLength <= |tail| {
      DriveOne(st, tail);
    }
  }

  /** Every text is without a line, starts with a bad one, or is a printed head and what is
      left where its fields end. */
  lemma Dissect(buf: string) returns (m: Printable, tail: string)
    requires FindFirst(buf, CRLF).Some? && !BadLine(buf[..FindFirst(buf, CRLF).value])
    ensures HeadOk(m) && buf == HeadThen(m, tail) && FieldsEnd(tail)
  {
    hide FindFirst, LineOk, Line, FieldsOk, FieldsEnd, ReadRequestLine;
    BeforeFirstLacks(buf, CRLF);
    var pos := FindFirst(buf, CRLF).value;
    var l :| LineOk(l) && buf[..pos] == Line(l);
    var fields;
    fields, tail := FieldsAreRead(FRESH, buf[pos + 2..]);
    m := l.(fields := fields, body := []);
    SameLine(l, m);
  }

  lemma DriveStarts(buf: string)
    ensures if buf == [] then Drive(FRESH, buf).result == NeedMore
            else Drive(FRESH, buf) == Drive(FRESH.(status := RequestLine), buf)
  {
    hide ReadRequestLine;
    var s1 := FRESH.(status := RequestLine);
    if buf != [] {
      assert Advance(FRESH, buf) == Parsed(OK, s1, buf);
    }
  }

  /** The parser refuses exactly the texts with a complete line that is malformed, and waits
      exactly on those that are not complete. */
  lemma RefusesExactlyMalformed(buf: string)
    ensures Drive(FRESH, buf).result == Error <==> Malformed(buf)
    ensures Drive(FRESH, buf).result == NeedMore <==> Incomplete(buf)
  {
    hide FindFirst, Malformed, Incomplete, BadLine, Drive;
    RefusedIsMalformed(buf);
    if Malformed(buf) {
      MalformedIsRefused(buf);
    }
    if Incomplete(buf) {
      IncompleteIsWaitedFor(buf);
    }
  }

  lemma RefusedIsMalformed(buf: string)
    ensures Drive(FRESH, buf).result == Error ==> Malformed(buf)
    ensures Drive(FRESH, buf).result == NeedMore ==> Incomplete(buf)
  {
    hide FindFirst, BadLine, Drive, HeadOk, HeadThen, BadField, ReadRequestLine, BadLength, BodyIsMissing, HeaderMap;
    DriveStarts(buf);
    if FindFirst(buf, CRLF) == None {
      if buf != [] {
        NoLineNoStep(FRESH.(status := RequestLine), buf);
      }
    } else {
      BeforeFirstLacks(buf, CRLF);
      var pos := FindFirst(buf, CRLF).value;
      if BadLine(buf[..pos]) {
        BadLineIsRefused(buf[..pos], buf[pos + 2..]);
      } else {
        var m, tail := Dissect(buf);
        HeadIsRead(m, tail);
        EndVerdict(AtFields(m), tail);
        EndOfRefused(m, tail);
      }
    }
  }

  lemma HeadIsRead(m: Printable, tail: string)
    requires HeadOk(m)
    ensures Drive(FRESH, HeadThen(m, tail)) == Drive(AtFields(m), tail)
    ensures AtFields(m).status == RequestHeader && AtFields(m).req.headers == HeaderMap(map[], m.fields)
  {
    hide Drive, LineOk, FieldsOk, RenderFields, Line, NumberOf, HeaderMap, HeaderLength;
    HeadRoundTrip(m, tail);
  }

  lemma EndOfRefused(m: Printable, tail: string)
    requires HeadOk(m) && FieldsEnd(tail)
    ensures FindFirst(tail, CRLF).Some? && FindFirst(tail, CRLF) != Some(0) ==> Malformed(HeadThen(m, tail))
    ensures FindFirst(tail, CRLF) == Some(0) && BadLength(HeaderMap(map[], m.fields)) ==> Malformed(HeadThen(m, tail))
    ensures FindFirst(tail, CRLF) == None ==> Incomplete(HeadThen(m, tail))
    ensures FindFirst(tail, CRLF) == Some(0) && BodyIsMissing(HeaderMap(map[], m.fields), tail[2..]) ==> Incomplete(HeadThen(m, tail))
  {
    hide FindFirst, HeadOk, HeadThen, BadLine, BadField, BadLength, BodyIsMissing, HeaderMap;
    if FindFirst(tail, CRLF).Some? {
      BeforeFirstLacks(tail, CRLF);
      var pos := FindFirst(tail, CRLF).value;
      assert tail == tail[..pos] + CRLF + tail[pos + 2..];
      assert pos == 0 ==> tail == CRLF + tail[2..];
    }
  }

  lemma BadLineIsRefused(l: string, rest: string)
    requires BadLine(l)
    ensures Drive(FRESH, l + CRLF + rest).result == Error
  {
    hide FindFirst, ReadRequestLine, LineOk, Line;
    var buf := l + CRLF + rest;
    DriveStarts(buf);
    LineVerdict(FRESH.(status := RequestLine), l, rest);
  }

  lemma MalformedIsRefused(buf: string)
    requires Malformed(buf)
    ensures Drive(FRESH, buf).result == Error
  {
    hide FindFirst, BadLine, Drive, HeadOk, HeadThen, BadField, BadLength, HeaderMap;
    if l, rest :| BadLine(l) && buf == l + CRLF + rest {
      BadLineIsRefused(l, rest);
    } else if m, l, rest :| HeadOk(m) && BadField(l) && buf == HeadThen(m, l + CRLF + rest) {
      HeadIsRead(m, l + CRLF + rest);
      BadFieldEnds(l, rest);
      EndVerdict(AtFields(m), l + CRLF + rest);
    } else {
      var m, rest :| HeadOk(m) && BadLength(HeaderMap(map[], m.fields)) && buf == HeadThen(m, CRLF + rest);
      HeadIsRead(m, CRLF + rest);
      BlankLineVerdict(AtFields(m), rest);
    }
  }

  lemma BadFieldEnds(l: string, rest: string)
    requires BadField(l)
    ensures FindFirst(l + CRLF + rest, CRLF) == Some(|l|) && FieldsEnd(l + CRLF + rest) && |l| > 0
  {
    hide FindFirst, FieldOk, FieldLine;
    FindFirstBehind(l, rest, CRLF);
    assert (l + CRLF + rest)[..|l|] == l;
  }

  lemma IncompleteIsWaitedFor(buf: string)
    requires Incomplete(buf)
    ensures Drive(FRESH, buf).result == NeedMore
  {
    hide FindFirst, Drive, HeadOk, HeadThen, BodyIsMissing, HeaderMap;
    if FindFirst(buf, CRLF) == None {
      DriveStarts(buf);
      if buf != [] {
        NoLineNoStep(FRESH.(status := RequestLine), buf);
      }
    } else if m, tail :| HeadOk(m) && Lacks(tail, CRLF) && buf == HeadThen(m, tail) {
      HeadIsRead(m, tail);
      NoLineNoStep(AtFields(m), tail);
    } else {
      var m, tail :| HeadOk(m) && BodyIsMissing(HeaderMap(map[], m.fields), tail) && buf == HeadThen(m, CRLF + tail);
      HeadIsRead(m, CRLF + tail);
      BlankLineVerdict(AtFields(m), tail);
    }
  }
}
