/** Printed requests.  The printer follows the message syntax of RFC 7230, sections 3.1.1,
    3.2 and 3.3.2, in the spelling that the parser takes; the parser accepts exactly what it
    prints, and gives it the meaning stated here. */
module HttpRoundTrip {
  import opened Options
  import opened HttpText
  import opened HttpParsing

  datatype Field = Field(name: string, value: string)

  /** A request as text: the version numbers are kept as they are spelled. */
  datatype Printable = Printable(
    requestType: string, path: string, major: string, minor: string, fields: seq<Field>, body: string)

  function Version(m: Printable): string {
    "HTTP" + "/" + (m.major + "." + m.minor)
  }

  function Line(m: Printable): string {
    m.requestType + " " + (m.path + " " + Version(m))
  }

  function FieldLine(f: Field): string {
    f.name + ": " + f.value
  }

  function RenderFields(fields: seq<Field>): string {
    if fields == [] then [] else FieldLine(fields[0]) + CRLF + RenderFields(fields[1..])
  }

  function Render(m: Printable): string {
    Line(m) + CRLF + (RenderFields(m.fields) + (CRLF + m.body))
  }

  predicate Lacks(s: string, sep: string) {
    FindFirst(s, sep) == None
  }

  predicate LineOk(m: Printable) {
    Lacks(m.requestType, " ") && Lacks(m.path, " ") && Lacks(m.requestType, CRLF) && Lacks(m.path, CRLF)
    && ParseUnsigned(m.major).Some? && ParseUnsigned(m.minor).Some?
  }

  predicate FieldOk(f: Field) {
    Lacks(f.name, ": ") && Lacks(f.value, ": ") && Lacks(f.name, CRLF) && Lacks(f.value, CRLF)
  }

  /** The body is as long as the header announces, and not announced when empty. */
  predicate LengthOk(headers: map<string, string>, body: string) {
    if CONTENT_LENGTH in headers then body != [] && ParseUnsigned(headers[CONTENT_LENGTH]) == Some(|body|) else body == []
  }

  predicate FieldsOk(fields: seq<Field>) {
    forall i :: 0 <= i < |fields| ==> FieldOk(fields[i])
  }

  predicate WellFormed(m: Printable) {
    LineOk(m) && FieldsOk(m.fields) && LengthOk(HeaderMap(map[], m.fields), m.body)
  }

  /** Names are compared in lower case; the first of equal names wins. */
  function HeaderMap(headers: map<string, string>, fields: seq<Field>): map<string, string>
    decreases |fields|
  {
    if fields == [] then headers else HeaderMap(AddHeader(headers, ToLower(fields[0].name), fields[0].value), fields[1..])
  }

  function HeaderLength(n: nat, fields: seq<Field>): nat
    decreases |fields|
  {
    if fields == [] then n else HeaderLength((n + |FieldLine(fields[0])| + 2) % UINT_RANGE, fields[1..])
  }

  function NumberOf(s: string): nat {
    match ParseUnsigned(s)
    case Some(n) => n
    case None => 0
  }

  /** The request that a printed one stands for. */
  function Meaning(m: Printable): Request {
    Request(m.requestType, m.path, NumberOf(m.major), NumberOf(m.minor),
            HeaderMap(map[], m.fields), HeaderLength(0, m.fields), |m.body|, m.body)
  }

  // ---- text without line ends ----

  lemma {:induction false} LacksConcat(a: string, b: string)
    requires Lacks(a, CRLF) && Lacks(b, CRLF)
    requires a == [] || b == [] || a[|a| - 1] != '\r' || b[0] != '\n'
    ensures Lacks(a + b, CRLF)
  {
    if a == [] {
      assert a + b == b;
    } else {
      if |a| == 1 {
        assert a + b == [a[0]] + b;
        assert Lacks(a[1..], CRLF);
        assert b != [] ==> (a + b)[..2] == [a[0], b[0]] && CRLF == ['\r', '\n'];
      } else {
        assert (a + b)[..2] == a[..2];
      }
      assert (a + b)[1..] == a[1..] + b;
      LacksConcat(a[1..], b);
    }
  }

  /** Parts of a text without a separator have none either. */
  lemma {:induction false} LacksParts(a: string, b: string, sep: string)
    requires sep != [] && Lacks(a + b, sep)
    ensures Lacks(a, sep) && Lacks(b, sep)
  {
    if a == [] {
      assert a + b == b;
    } else {
      assert (a + b)[1..] == a[1..] + b;
      if |sep| <= |a| {
        assert (a + b)[..|sep|] == a[..|sep|];
      }
      LacksParts(a[1..], b, sep);
    }
  }

  lemma {:induction false} LacksPlain(s: string, sep: string)
    requires |sep| == 2 && forall i :: 0 <= i < |s| ==> s[i] != sep[1]
    ensures Lacks(s, sep)
  {
    if |s| >= 2 {
      assert s[..2][1] == s[1];
      LacksPlain(s[1..], sep);
    }
  }

  lemma VersionIsPlain(m: Printable)
    requires Numeral(m.major) && Numeral(m.minor)
    ensures Lacks(Version(m), " ") && Lacks(Version(m), CRLF)
  {
    var v := Version(m);
    assert forall c :: c in v ==> c in m.major || c in m.minor || c in "HTTP/.";
    assert ' ' !in v && '\n' !in v;
    NotInside(v, " ", ' ');
    NotInside(v, CRLF, '\n');
  }

  lemma JoinTwo(a: string, b: string, sep: string)
    ensures Join([a, b], sep) == a + sep + b
  {
    assert [a, b][1..] == [b];
  }

  lemma JoinThree(a: string, b: string, c: string, sep: string)
    ensures Join([a, b, c], sep) == a + sep + (b + sep + c)
  {
    JoinTwo(b, c, sep);
    assert [a, b, c][1..] == [b, c];
  }

  // ---- each step undoes its part of the printer ----

  lemma NumbersAreNumerals(m: Printable)
    requires LineOk(m)
    ensures Numeral(m.major) && Numeral(m.minor)
  {
    ParsedIsNumeral(m.major);
    ParsedIsNumeral(m.minor);
  }

  lemma VersionRoundTrip(m: Printable, req: Request)
    requires LineOk(m)
    ensures ReadVersion(req, Version(m)) == (true, req.(majorVersion := NumberOf(m.major), minorVersion := NumberOf(m.minor)))
  {
    hide DecimalValue;
    var v, d, e := Version(m), m.major, m.minor;
    NumbersAreNumerals(m);
    NotInside("HTTP", "/", '/');
    FindFirstBehind("HTTP", d + "." + e, "/");
    assert v[..4] == "HTTP" && v[5..] == d + "." + e;
    assert '.' !in d;
    NotInside(d, ".", '.');
    FindFirstBehind(d, e, ".");
    assert v[5..][..|d|] == d && v[5..][|d| + 1..] == e;
  }

  lemma LineRoundTrip(m: Printable, st: ParsingState, rest: string)
    requires LineOk(m)
    ensures ReadRequestLine(st, Line(m) + CRLF + rest)
            == Parsed(OK, st.(status := RequestHeader,
                              req := st.req.(requestType := m.requestType, path := m.path,
                                             majorVersion := NumberOf(m.major), minorVersion := NumberOf(m.minor))), rest)
  {
    hide FindFirst, Split, Join, ParseUnsigned, Version, ReadVersion;
    var v, line := Version(m), Line(m);
    NumbersAreNumerals(m);
    VersionIsPlain(m);
    LineLacksEnd(m);
    FindFirstBehind(line, rest, CRLF);
    var buf := line + CRLF + rest;
    assert buf[..|line|] == line && buf[|line| + 2..] == rest;
    JoinThree(m.requestType, m.path, v, " ");
    SplitOfJoin([m.requestType, m.path, v], " ");
    VersionRoundTrip(m, st.req.(requestType := m.requestType, path := m.path));
  }

  lemma LineLacksEnd(m: Printable)
    requires LineOk(m)
    ensures Lacks(Line(m), CRLF)
  {
    hide FindFirst, Version, ParseUnsigned;
    NumbersAreNumerals(m);
    VersionIsPlain(m);
    var tail := m.path + " " + Version(m);
    LacksPlain(" ", CRLF);
    LacksConcat(m.path, " ");
    LacksConcat(m.path + " ", Version(m));
    LacksConcat(m.requestType, " ");
    LacksConcat(m.requestType + " ", tail);
    assert Line(m) == m.requestType + " " + tail;
  }

  lemma FieldLacksEnd(f: Field)
    requires FieldOk(f)
    ensures Lacks(FieldLine(f), CRLF)
  {
    hide FindFirst;
    LacksPlain(": ", CRLF);
    LacksConcat(f.name, ": ");
    LacksConcat(f.name + ": ", f.value);
  }

  lemma FieldRoundTrip(f: Field, st: ParsingState, rest: string)
    requires FieldOk(f)
    ensures ReadRequestHeader(st, FieldLine(f) + CRLF + rest)
            == Parsed(OK, st.(req := st.req.(headerLength := (st.req.headerLength + |FieldLine(f)| + 2) % UINT_RANGE,
                                             headers := AddHeader(st.req.headers, ToLower(f.name), f.value))), rest)
  {
    hide FindFirst, Split, Join, ToLower;
    var line := FieldLine(f);
    FieldLacksEnd(f);
    FindFirstBehind(line, rest, CRLF);
    var buf := line + CRLF + rest;
    assert buf[..|line|] == line && buf[|line| + 2..] == rest;
    JoinTwo(f.name, f.value, ": ");
    SplitOfJoin([f.name, f.value], ": ");
  }

  lemma {:induction false} FieldsRoundTrip(fields: seq<Field>, st: ParsingState, rest: string)
    requires st.status == RequestHeader && FieldsOk(fields)
    ensures Drive(st, RenderFields(fields) + rest)
            == Drive(st.(req := st.req.(headerLength := HeaderLength(st.req.headerLength, fields),
                                        headers := HeaderMap(st.req.headers, fields))), rest)
    decreases |fields|
  {
    hide FieldOk, FieldLine, ReadRequestHeader, ReadRequestLine, ReadRequestBody, FindFirst, AddHeader, ToLower;
    if fields == [] {
      assert [] + rest == rest;
    } else {
      var f, tail := fields[0], RenderFields(fields[1..]) + rest;
      assert RenderFields(fields) + rest == FieldLine(f) + CRLF + tail;
      FieldRoundTrip(f, st, tail);
      var r := Advance(st, FieldLine(f) + CRLF + tail);
      FieldsRoundTrip(fields[1..], r.state, rest);
    }
  }

  lemma BlankLine(st: ParsingState, tail: string)
    ensures ReadRequestHeader(st, CRLF + tail)
            == if CONTENT_LENGTH in st.req.headers then
                 match ParseUnsigned(st.req.headers[CONTENT_LENGTH]) {
                   case None => Rejected(st, CRLF + tail)
                   case Some(n) => Parsed(OK, st.(status := RequestBody, req := st.req.(bodyLength := n)), tail)
                 }
               else Parsed(OK, st.(status := Done), tail)
  {
    hide ParseUnsigned, Split;
    assert (CRLF + tail)[..2] == CRLF && (CRLF + tail)[2..] == tail;
  }

  lemma DriveOne(st: ParsingState, buf: string)
    requires st.status != Done && Advance(st, buf).result == OK
    ensures Drive(st, buf) == Drive(Advance(st, buf).state, Advance(st, buf).rest)
  {
    hide Advance;
  }

  lemma DriveDone(st: ParsingState, buf: string)
    requires st.status == Done
    ensures Drive(st, buf) == Parsed(OK, st, buf)
  {
  }

  /** The blank line ends the header, and the body of the announced length follows. */
  lemma EndRoundTrip(st: ParsingState, body: string, rest: string)
    requires st.status == RequestHeader && LengthOk(st.req.headers, body)
    requires st.req.bodyLength == 0 && st.req.body == []
    ensures Drive(st, CRLF + (body + rest))
            == Parsed(OK, st.(status := Done, req := st.req.(bodyLength := |body|, body := body)), rest)
  {
    hide ReadRequestHeader, Drive, ParseUnsigned;
    var buf, n := CRLF + (body + rest), |body|;
    BlankLine(st, body + rest);
    if body == [] {
      assert body + rest == rest;
      DriveOne(st, buf);
      DriveDone(st.(status := Done), rest);
    } else {
      var s1 := st.(status := RequestBody, req := st.req.(bodyLength := n));
      assert (body + rest)[..n] == body && (body + rest)[n..] == rest;
      DriveOne(st, buf);
      DriveOne(s1, body + rest);
      DriveDone(s1.(status := Done, req := s1.req.(body := body)), rest);
    }
  }

  /** The parser past the fields of a printed request. */
  function AtFields(m: Printable): ParsingState {
    ParsingState(RequestHeader, Meaning(m).(bodyLength := 0, body := []), None)
  }

  /** A printed line and printed fields bring the parser past the fields. */
  lemma HeadRoundTrip(m: Printable, tail: string)
    requires LineOk(m) && FieldsOk(m.fields)
    ensures Drive(FRESH, Line(m) + CRLF + (RenderFields(m.fields) + tail)) == Drive(AtFields(m), tail)
  {
    hide LineOk, FieldsOk, NumberOf, RenderFields, HeaderMap, HeaderLength, ReadRequestLine, ReadRequestHeader, Line, FindFirst;
    var afterLine := RenderFields(m.fields) + tail;
    var buf := Line(m) + CRLF + afterLine;
    var s1 := FRESH.(status := RequestLine);
    assert Advance(FRESH, buf) == Parsed(OK, s1, buf);
    LineRoundTrip(m, s1, afterLine);
    FieldsRoundTrip(m.fields, Advance(s1, buf).state, tail);
  }

  /** Parsing a printed request, whatever follows it, gives its meaning and leaves exactly
      what follows. */
  lemma PrintThenParse(m: Printable, rest: string)
    requires WellFormed(m)
    ensures Drive(FRESH, Render(m) + rest) == Parsed(OK, ParsingState(Done, Meaning(m), None), rest)
  {
    hide LineOk, FieldsOk, LengthOk, NumberOf, RenderFields, HeaderMap, HeaderLength, Line, Drive;
    assert Render(m) + rest == Line(m) + CRLF + (RenderFields(m.fields) + (CRLF + (m.body + rest)));
    HeadRoundTrip(m, CRLF + (m.body + rest));
    EndRoundTrip(AtFields(m), m.body, rest);
  }

  // ---- and nothing else is accepted ----

  lemma {:induction false} SplitPartsLack(s: string, sep: string)
    requires sep != []
    ensures forall i :: 0 <= i < |Split(s, sep)| ==> Lacks(Split(s, sep)[i], sep)
    decreases |s|
  {
    match FindFirst(s, sep)
    case None =>
    case Some(k) =>
      BeforeFirstLacks(s, sep);
      SplitPartsLack(s[k + |sep|..], sep);
  }

  /** The first place of a separator cuts the text around it; the part before has none. */
  lemma BeforeFirstLacks(s: string, sep: string)
    requires sep != [] && FindFirst(s, sep).Some?
    ensures var k := FindFirst(s, sep).value; Lacks(s[..k], sep) && s == s[..k] + sep + s[k + |sep|..]
  {
    hide FindFirst;
    FindFirstIsLeftmost(s, sep);
    NoneBeforeFirst(s, sep);
  }

  lemma {:induction false} NoneBeforeFirst(s: string, sep: string)
    requires sep != [] && FindFirst(s, sep).Some?
    ensures Lacks(s[..FindFirst(s, sep).value], sep)
  {
    var k := FindFirst(s, sep).value;
    if s[..|sep|] != sep {
      NoneBeforeFirst(s[1..], sep);
      assert s[..k][1..] == s[1..][..k - 1];
      if |sep| <= k {
        assert s[..k][..|sep|] == s[..|sep|];
      }
    }
  }

  /** A version that is read is spelled as the printer spells it. */
  lemma VersionIsPrinted(version: string, req: Request) returns (major: string, minor: string)
    requires ReadVersion(req, version).0
    ensures version == "HTTP" + "/" + (major + "." + minor)
    ensures ParseUnsigned(major).Some? && ParseUnsigned(minor).Some?
    ensures ReadVersion(req, version).1 == req.(majorVersion := NumberOf(major), minorVersion := NumberOf(minor))
  {
    hide FindFirst, ParseUnsigned;
    BeforeFirstLacks(version, "/");
    var s := FindFirst(version, "/").value;
    var numbers := version[s + 1..];
    BeforeFirstLacks(numbers, ".");
    var e := FindFirst(numbers, ".").value;
    major, minor := numbers[..e], numbers[e + 1..];
    assert numbers == major + "." + minor;
  }

  /** A request line that is read is a printed one. */
  lemma LineIsPrinted(st: ParsingState, buf: string) returns (m: Printable)
    requires ReadRequestLine(st, buf).result == OK
    ensures LineOk(m) && m.fields == [] && m.body == []
    ensures buf == Line(m) + CRLF + ReadRequestLine(st, buf).rest
  {
    hide FindFirst, ParseUnsigned, ReadVersion, Split, Join;
    BeforeFirstLacks(buf, CRLF);
    var pos := FindFirst(buf, CRLF).value;
    var line := buf[..pos];
    var parts := Split(line, " ");
    SplitPartsLack(line, " ");
    JoinOfSplit(line, " ");
    JoinThree(parts[0], parts[1], parts[2], " ");
    assert parts == [parts[0], parts[1], parts[2]];
    var major, minor := VersionIsPrinted(parts[2], st.req.(requestType := parts[0], path := parts[1]));
    m := Printable(parts[0], parts[1], major, minor, [], []);
    assert line == m.requestType + (" " + (m.path + " " + parts[2]));
    LacksParts(m.requestType, " " + (m.path + " " + parts[2]), CRLF);
    assert line == (m.requestType + " ") + (m.path + (" " + parts[2]));
    LacksParts(m.requestType + " ", m.path + (" " + parts[2]), CRLF);
    LacksParts(m.path, " " + parts[2], CRLF);
  }

  /** A header line that is read is a printed one. */
  lemma FieldIsPrinted(st: ParsingState, buf: string) returns (f: Field)
    requires ReadRequestHeader(st, buf).result == OK && FindFirst(buf, CRLF) != Some(0)
    ensures FieldOk(f) && buf == FieldLine(f) + CRLF + ReadRequestHeader(st, buf).rest
  {
    hide FindFirst, ParseUnsigned, Split, Join, ToLower, AddHeader;
    BeforeFirstLacks(buf, CRLF);
    var pos := FindFirst(buf, CRLF).value;
    var line := buf[..pos];
    var kv := Split(line, ": ");
    SplitPartsLack(line, ": ");
    JoinOfSplit(line, ": ");
    JoinTwo(kv[0], kv[1], ": ");
    assert kv == [kv[0], kv[1]];
    f := Field(kv[0], kv[1]);
    assert line == f.name + (": " + f.value);
    LacksParts(f.name, ": " + f.value, CRLF);
    LacksParts(": ", f.value, CRLF);
  }

  /** The header is read to its end. */
  predicate PastHeader(r: Parsed) {
    r.result == OK || r.result == Aborted
  }

  /** A text whose header is read to its end has its first step accepted. */
  lemma AcceptedStep(st: ParsingState, buf: string)
    requires st.status != Done && PastHeader(Drive(st, buf)) && (Drive(st, buf).result == Aborted ==> st.status != RequestBody)
    ensures var r := Advance(st, buf); r.result == OK && Drive(st, buf) == Drive(r.state, r.rest)
  {
    hide FindFirst, ParseUnsigned, Split, ReadVersion, ReadRequestBody;
  }

  /** A header that is read to its end is printed fields and a blank line. */
  lemma {:induction false} HeaderIsPrinted(st: ParsingState, buf: string) returns (fields: seq<Field>, tail: string)
    requires st.status == RequestHeader && PastHeader(Drive(st, buf))
    ensures FieldsOk(fields) && buf == RenderFields(fields) + (CRLF + tail)
    decreases |buf|
  {
    hide FindFirst, ReadRequestHeader, FieldOk, FieldLine, AddHeader, Drive, ToLower;
    AcceptedStep(st, buf);
    if FindFirst(buf, CRLF) == Some(0) {
      BeforeFirstLacks(buf, CRLF);
      fields, tail := [], buf[2..];
      assert buf == RenderFields([]) + (CRLF + tail);
    } else {
      var r := ReadRequestHeader(st, buf);
      var f := FieldIsPrinted(st, buf);
      FieldRoundTrip(f, st, r.rest);
      var fs;
      fs, tail := HeaderIsPrinted(r.state, r.rest);
      fields := [f] + fs;
      assert fields[1..] == fs;
    }
  }

  lemma BodyIsRead(st: ParsingState, tail: string)
    requires st.status == RequestBody && Drive(st, tail).result == OK
    ensures 0 < st.req.bodyLength <= |tail| && Drive(st, tail).rest == tail[st.req.bodyLength..]
  {
    hide Drive;
    AcceptedStep(st, tail);
    DriveDone(Advance(st, tail).state, Advance(st, tail).rest);
  }

  /** Behind the blank line, what is accepted is a body of the announced length. */
  lemma EndIsPrinted(st: ParsingState, tail: string) returns (body: string)
    requires st.status == RequestHeader && Drive(st, CRLF + tail).result == OK
    ensures LengthOk(st.req.headers, body) && tail == body + Drive(st, CRLF + tail).rest
  {
    hide FindFirst, ParseUnsigned, Drive, ReadRequestHeader;
    BlankLine(st, tail);
    AcceptedStep(st, CRLF + tail);
    var r := ReadRequestHeader(st, CRLF + tail);
    if CONTENT_LENGTH in st.req.headers {
      BodyIsRead(r.state, tail);
      body := tail[..r.state.req.bodyLength];
    } else {
      DriveDone(r.state, tail);
      body := [];
      assert tail == [] + tail;
    }
  }

  /** A request whose header is read to its end is a printed line, printed fields and a blank
      line; the parser comes to the blank line with the meaning of what it has read. */
  lemma RequestIsPrinted(buf: string) returns (m: Printable, tail: string)
    requires PastHeader(Drive(FRESH, buf))
    ensures LineOk(m) && FieldsOk(m.fields) && m.body == []
    ensures buf == Line(m) + CRLF + (RenderFields(m.fields) + (CRLF + tail))
    ensures Drive(FRESH, buf) == Drive(AtFields(m), CRLF + tail)
  {
    hide FindFirst, ParseUnsigned, Split, LineOk, FieldsOk, ReadRequestLine, ReadRequestHeader, Line, Drive;
    var s1 := FRESH.(status := RequestLine);
    AcceptedStep(FRESH, buf);
    AcceptedStep(s1, buf);
    var r := ReadRequestLine(s1, buf);
    var l := LineIsPrinted(s1, buf);
    var fields;
    LineRoundTrip(l, s1, r.rest);
    fields, tail := HeaderIsPrinted(r.state, r.rest);
    m := l.(fields := fields);
    SameLine(l, m);
    HeadRoundTrip(m, CRLF + tail);
  }

  /** Whatever the parser accepts, it accepts as the meaning of a printed request. */
  lemma ParseThenPrint(buf: string) returns (m: Printable)
    requires Drive(FRESH, buf).result == OK
    ensures WellFormed(m) && buf == Render(m) + Drive(FRESH, buf).rest
    ensures Drive(FRESH, buf).state == ParsingState(Done, Meaning(m), None)
  {
    hide FindFirst, ParseUnsigned, LineOk, FieldsOk, LengthOk, Line, NumberOf, Drive;
    var l, tail := RequestIsPrinted(buf);
    var body := EndIsPrinted(AtFields(l), tail);
    m := l.(body := body);
    SameLine(l, m);
    var rest := Drive(FRESH, buf).rest;
    assert buf == Render(m) + rest;
    PrintThenParse(m, rest);
  }

  lemma SameLine(l: Printable, m: Printable)
    requires m == l.(fields := m.fields, body := m.body)
    ensures Line(l) == Line(m) && LineOk(l) == LineOk(m)
  {
  }

  /** The parser is done on exactly the printed requests, whatever follows them. */
  lemma AcceptsExactlyPrintedRequests(buf: string, st: ParsingState, rest: string)
    ensures Drive(FRESH, buf) == Parsed(OK, st, rest)
            <==> exists m :: WellFormed(m) && buf == Render(m) + rest && st == ParsingState(Done, Meaning(m), None)
  {
    hide WellFormed, Render, Meaning;
    if Drive(FRESH, buf) == Parsed(OK, st, rest) {
      var m := ParseThenPrint(buf);
    }
    forall m | WellFormed(m) && buf == Render(m) + rest && st == ParsingState(Done, Meaning(m), None)
      ensures Drive(FRESH, buf) == Parsed(OK, st, rest)
    {
      PrintThenParse(m, rest);
    }
  }

  /** A printed header that announces a body of no bytes. */
  predicate AnnouncesNothing(m: Printable) {
    LineOk(m) && FieldsOk(m.fields) && m.body == []
    && var headers := HeaderMap(map[], m.fields);
       CONTENT_LENGTH in headers && ParseUnsigned(headers[CONTENT_LENGTH]) == Some(0)
  }

  lemma EmptyBodyAborts(st: ParsingState, tail: string)
    requires st.status == RequestHeader && st.req.bodyLength == 0
    ensures Drive(st, CRLF + tail).result == Aborted
            <==> CONTENT_LENGTH in st.req.headers && ParseUnsigned(st.req.headers[CONTENT_LENGTH]) == Some(0)
    ensures Drive(st, CRLF + tail).result == Aborted ==> Drive(st, CRLF + tail) == Parsed(Aborted, st.(status := RequestBody), tail)
  {
    hide FindFirst, ParseUnsigned, ReadRequestHeader;
    BlankLine(st, tail);
    var r := Advance(st, CRLF + tail);
    if r.result == OK {
      assert Drive(st, CRLF + tail) == Drive(r.state, tail);
      if r.state.status == RequestBody && r.state.req.bodyLength > 0 && |tail| >= r.state.req.bodyLength {
        DriveOne(r.state, tail);
      }
    }
  }

  /** The parser runs into its assertion on exactly the printed headers that announce a body
      of no bytes, whatever follows them. */
  lemma AbortsExactlyOnAnnouncedNothing(buf: string, st: ParsingState, rest: string)
    ensures Drive(FRESH, buf) == Parsed(Aborted, st, rest)
            <==> exists m :: AnnouncesNothing(m) && buf == Render(m) + rest && st == ParsingState(RequestBody, Meaning(m), None)
  {
    hide Render, LineOk, FieldsOk, ParseUnsigned, Drive, FindFirst, NumberOf, HeaderMap;
    if Drive(FRESH, buf) == Parsed(Aborted, st, rest) {
      var m, tail := RequestIsPrinted(buf);
      EmptyBodyAborts(AtFields(m), tail);
      RenderWithoutBody(m, rest);
      assert AnnouncesNothing(m) && buf == Render(m) + rest;
    }
    forall m | AnnouncesNothing(m) && buf == Render(m) + rest && st == ParsingState(RequestBody, Meaning(m), None)
      ensures Drive(FRESH, buf) == Parsed(Aborted, st, rest)
    {
      RenderWithoutBody(m, rest);
      HeadRoundTrip(m, CRLF + rest);
      EmptyBodyAborts(AtFields(m), rest);
    }
  }

  lemma RenderWithoutBody(m: Printable, rest: string)
    requires m.body == []
    ensures Render(m) + rest == Line(m) + CRLF + (RenderFields(m.fields) + (CRLF + rest))
  {
    assert CRLF + [] == CRLF;
  }

  /** An ordinary request on which the parser runs into its assertion. */
  lemma ContentLengthZeroAborts()
    ensures Drive(FRESH, "GET / HTTP/1.1" + CRLF + "Content-Length: 0" + CRLF + CRLF).result == Aborted
  {
    hide LineOk, FieldsOk, HeaderMap, ParseUnsigned, Drive, Line, FieldLine, Meaning, FindFirst;
    var f := Field("Content-Length", "0");
    var m := Printable("GET", "/", "1", "1", [f], []);
    var line, field := Line(m), FieldLine(f);
    ZeroLine(m);
    ZeroField(f, m);
    assert m.fields[1..] == [];
    var buf := line + CRLF + field + CRLF + CRLF;
    var fields := RenderFields(m.fields);
    assert fields == field + CRLF + RenderFields([]) == field + CRLF;
    assert Render(m) == line + CRLF + (fields + (CRLF + []));
    assert buf == Render(m) + [];
    assert AnnouncesNothing(m);
    AbortsExactlyOnAnnouncedNothing(buf, ParsingState(RequestBody, Meaning(m), None), []);
  }

  lemma ZeroLine(m: Printable)
    requires m.requestType == "GET" && m.path == "/" && m.major == "1" && m.minor == "1"
    ensures LineOk(m) && Line(m) == "GET / HTTP/1.1"
  {
    hide FindFirst;
    NotInside("GET", " ", ' ');
    NotInside("GET", CRLF, '\n');
    NotInside("/", " ", ' ');
    NotInside("/", CRLF, '\n');
    OneDigit("1");
  }

  lemma ZeroField(f: Field, m: Printable)
    requires f == Field("Content-Length", "0") && m.fields == [f]
    ensures FieldsOk(m.fields) && FieldLine(f) == "Content-Length: 0"
    ensures var h := HeaderMap(map[], m.fields); CONTENT_LENGTH in h && ParseUnsigned(h[CONTENT_LENGTH]) == Some(0)
  {
    hide FindFirst, ToLower, ParseUnsigned, FieldOk, HeaderMap;
    OneDigit("0");
    assert Decimal(0) == "0";
    LengthFieldIsPlain(0);
    LengthName();
    FirstFieldWins(map[], m.fields, CONTENT_LENGTH);
    assert ToLower(m.fields[0].name) == CONTENT_LENGTH;
  }

  lemma OneDigit(s: string)
    requires |s| == 1 && IsDigit(s[0])
    ensures ParseUnsigned(s) == Some(DigitValue(s[0]))
  {
    assert s[..0] == [];
    assert DecimalValue(s) == DigitValue(s[0]);
  }

  /** With independence from chunking: a printed request that arrives in any pieces is parsed
      to its meaning. */
  lemma PrintThenParseChunks(m: Printable, rest: string, chunks: seq<string>)
    requires WellFormed(m) && Concat(chunks) == Render(m) + rest
    ensures Feed(FRESH, [], chunks) == Parsed(OK, ParsingState(Done, Meaning(m), None), rest)
  {
    ChunkingDoesNotMatter(chunks);
    PrintThenParse(m, rest);
  }

  // ---- headers by name ----

  /** The value under a name is that of the first field with this name, in lower case. */
  ghost predicate FirstNamed(fields: seq<Field>, key: string, val: string) {
    exists i :: 0 <= i < |fields| && ToLower(fields[i].name) == key && fields[i].value == val
                && forall j :: 0 <= j < i ==> ToLower(fields[j].name) != key
  }

  lemma {:induction false} FirstFieldWins(headers: map<string, string>, fields: seq<Field>, key: string)
    ensures key in headers ==> key in HeaderMap(headers, fields) && HeaderMap(headers, fields)[key] == headers[key]
    ensures key !in headers && key in HeaderMap(headers, fields) ==> FirstNamed(fields, key, HeaderMap(headers, fields)[key])
    ensures (exists i :: 0 <= i < |fields| && ToLower(fields[i].name) == key) ==> key in HeaderMap(headers, fields)
    decreases |fields|
  {
    hide ToLower;
    if fields != [] {
      var first := fields[0];
      var next := AddHeader(headers, ToLower(first.name), first.value);
      FirstFieldWins(next, fields[1..], key);
      if key !in headers && key in HeaderMap(headers, fields) {
        if ToLower(first.name) == key {
          assert FirstNamed(fields, key, first.value);
        } else {
          var i :| 0 <= i < |fields[1..]| && ToLower(fields[1..][i].name) == key && fields[1..][i].value == HeaderMap(next, fields[1..])[key]
                   && forall j :: 0 <= j < i ==> ToLower(fields[1..][j].name) != key;
          forall j | 0 <= j < i + 1 ensures ToLower(fields[j].name) != key {
            if j > 0 {
              assert fields[1..][j - 1] == fields[j];
            }
          }
          assert fields[i + 1] == fields[1..][i];
        }
      }
      if exists i :: 0 <= i < |fields| && ToLower(fields[i].name) == key {
        var i :| 0 <= i < |fields| && ToLower(fields[i].name) == key;
        assert i > 0 ==> fields[1..][i - 1] == fields[i];
      }
    }
  }

  /** In a parsed request a header is found exactly if a field has its name, with the value
      of the first such field. */
  lemma HeadersOfMeaning(m: Printable, key: string)
    ensures key in Meaning(m).headers <==> exists i :: 0 <= i < |m.fields| && ToLower(m.fields[i].name) == key
    ensures key in Meaning(m).headers ==> FirstNamed(m.fields, key, Meaning(m).headers[key])
  {
    hide ToLower, HeaderMap;
    FirstFieldWins(map[], m.fields, key);
  }

  lemma {:induction false} HeaderLengthAdds(n: nat, fields: seq<Field>)
    requires n < UINT_RANGE
    ensures HeaderLength(n, fields) == (n + |RenderFields(fields)|) % UINT_RANGE
    decreases |fields|
  {
    hide FieldLine;
    if fields != [] {
      var m := n + |FieldLine(fields[0])| + 2;
      HeaderLengthAdds(m % UINT_RANGE, fields[1..]);
      WrapAdds(m, |RenderFields(fields[1..])|);
      assert |RenderFields(fields)| == |FieldLine(fields[0])| + 2 + |RenderFields(fields[1..])|;
    }
  }

  lemma WrapAdds(a: nat, b: nat)
    ensures (a % UINT_RANGE + b) % UINT_RANGE == (a + b) % UINT_RANGE
  {
    var q := a / UINT_RANGE;
    assert a == q * UINT_RANGE + a % UINT_RANGE;
  }

  /** The header length of a parsed request is the length of the text of its fields. */
  lemma HeaderLengthOfMeaning(m: Printable)
    ensures Meaning(m).headerLength == |RenderFields(m.fields)| % UINT_RANGE
  {
    HeaderLengthAdds(0, m.fields);
  }

  /** The canonical spelling of a request with numbers and a body to announce. */
  function Canonical(requestType: string, path: string, major: nat, minor: nat, fields: seq<Field>, body: string): Printable {
    Printable(requestType, path, Decimal(major), Decimal(minor),
              if body == [] then fields else fields + [Field("Content-Length", Decimal(|body|))], body)
  }

  lemma LengthName()
    ensures ToLower("Content-Length") == CONTENT_LENGTH
  {
  }

  /** Any method, path and fields without separators make a well-formed request; numbers and
      body come back as they were. */
  lemma CanonicalIsWellFormed(requestType: string, path: string, major: nat, minor: nat, fields: seq<Field>, body: string)
    requires Lacks(requestType, " ") && Lacks(path, " ") && Lacks(requestType, CRLF) && Lacks(path, CRLF)
    requires major < UINT_RANGE && minor < UINT_RANGE && |body| < UINT_RANGE && FieldsOk(fields)
    requires forall i :: 0 <= i < |fields| ==> ToLower(fields[i].name) != CONTENT_LENGTH
    ensures var m := Canonical(requestType, path, major, minor, fields, body);
            WellFormed(m) && Meaning(m).requestType == requestType && Meaning(m).path == path
            && Meaning(m).majorVersion == major && Meaning(m).minorVersion == minor && Meaning(m).body == body
  {
    hide ToLower, HeaderMap, Decimal, ParseUnsigned, FindFirst;
    var m := Canonical(requestType, path, major, minor, fields, body);
    DecimalRoundTrip(major);
    DecimalRoundTrip(minor);
    DecimalRoundTrip(|body|);
    LengthName();
    LengthFieldIsPlain(|body|);
    FirstFieldWins(map[], m.fields, CONTENT_LENGTH);
    assert body != [] ==> m.fields[|fields|].value == Decimal(|body|);
    assert forall i :: 0 <= i < |fields| ==> m.fields[i] == fields[i];
  }

  lemma LengthFieldIsPlain(n: nat)
    ensures FieldOk(Field("Content-Length", Decimal(n)))
  {
    hide FindFirst, Decimal, AllDigits;
    DecimalIsDigits(n);
    DigitsArePlain(Decimal(n));
    NameIsPlain();
  }

  lemma DigitsArePlain(d: string)
    requires AllDigits(d)
    ensures Lacks(d, ": ") && Lacks(d, CRLF)
  {
    hide FindFirst;
    assert forall c :: c in d ==> IsDigit(c);
    NotInside(d, ": ", ' ');
    NotInside(d, CRLF, '\n');
  }

  lemma NameIsPlain()
    ensures Lacks("Content-Length", ": ") && Lacks("Content-Length", CRLF)
  {
    hide FindFirst;
    NotInside("Content-Length", ": ", ' ');
    NotInside("Content-Length", CRLF, '\n');
  }
}
