/**
 * The hand-written HTTP/1.1 client of `Core.HTTPFetchAsync`: the request
 * head it writes as text (section 3 of RFC 7230: request line, header
 * fields, empty line, body; "Connection: Close" as in section 6.1), the way
 * it cuts the raw response into header lines and body text, the header
 * lookup `GetHeaderValue`, and the content type `RequestRawAsync` chooses.
 */
module Http {
  import opened Wrappers
  import opened Text
  import opened Chunks

  const CRLF: string := "\r\n"

  // ---------------------------------------------------------------------------
  // Substring search and splitting on a string separator
  // ---------------------------------------------------------------------------

  /** string.IndexOf(string) (ordinal): the first position where p occurs,
      or -1. */
  function IndexOfSub(s: string, p: string): (i: int)
    requires p != []
    ensures i == -1 || 0 <= i <= |s| - |p|
    ensures 0 <= i ==> s[i..i + |p|] == p
  {
    if |s| < |p| then -1
    else if s[..|p|] == p then 0
    else
      var j := IndexOfSub(s[1..], p);
      if j < 0 then -1
      else
        assert s[1..][j..j + |p|] == s[j + 1..j + 1 + |p|];
        j + 1
  }

  /** A character that cannot start the pattern only shifts its position. */
  lemma IndexOfSubSkip(c: char, t: string, p: string)
    requires p != [] && c != p[0]
    ensures IndexOfSub([c] + t, p) == (if IndexOfSub(t, p) < 0 then -1 else IndexOfSub(t, p) + 1)
  {
    assert ([c] + t)[1..] == t;
  }

  /** A prefix free of the pattern's first character is skipped whole. */
  lemma {:induction false} IndexOfSubSkipAll(a: string, t: string, p: string)
    requires p != [] && p[0] !in a
    ensures IndexOfSub(a + t, p) == (if IndexOfSub(t, p) < 0 then -1 else IndexOfSub(t, p) + |a|)
  {
    if a == [] {
      assert a + t == t;
    } else {
      IndexOfSubSkipAll(a[1..], t, p);
      assert a + t == [a[0]] + (a[1..] + t);
      IndexOfSubSkip(a[0], a[1..] + t, p);
    }
  }

  /** string.Split(string[] { sep }, None): every piece between separators. */
  function SplitOn(s: string, sep: string): (parts: seq<string>)
    requires sep != []
    ensures |parts| >= 1
    decreases |s|
  {
    var i := IndexOfSub(s, sep);
    if i < 0 then [s] else [s[..i]] + SplitOn(s[i + |sep|..], sep)
  }

  /** StringSplitOptions.RemoveEmptyEntries. */
  function RemoveEmpty(parts: seq<string>): (r: seq<string>)
    ensures forall k :: 0 <= k < |r| ==> r[k] != []
  {
    if parts == [] then []
    else if parts[0] == [] then RemoveEmpty(parts[1..])
    else [parts[0]] + RemoveEmpty(parts[1..])
  }

  /** A line that can sit in a head: not empty, no carriage return. */
  predicate HeadLine(line: string)
  {
    line != [] && '\r' !in line
  }

  predicate HeadLinesOk(lines: seq<string>)
  {
    forall k :: 0 <= k < |lines| ==> HeadLine(lines[k])
  }

  /** Lines without carriage returns, joined by CRLF, split back. */
  lemma {:induction false} SplitOnJoin(lines: seq<string>)
    requires lines != [] && forall k :: 0 <= k < |lines| ==> '\r' !in lines[k]
    ensures SplitOn(Join(lines, CRLF), CRLF) == lines
  {
    if |lines| > 1 {
      SplitOnCons(lines[0], Join(lines[1..], CRLF));
      SplitOnJoin(lines[1..]);
      assert [lines[0]] + lines[1..] == lines;
    } else {
      IndexOfSubSkipAll(lines[0], [], CRLF);
    }
  }

  /** A first line without carriage returns, then CRLF, splits off first. */
  lemma SplitOnCons(line: string, rest: string)
    requires '\r' !in line
    ensures SplitOn(line + CRLF + rest, CRLF) == [line] + SplitOn(rest, CRLF)
  {
    IndexOfSubSkipAll(line, CRLF + rest, CRLF);
    assert line + CRLF + rest == line + (CRLF + rest);
    assert (CRLF + rest)[..2] == CRLF;
    var s := line + CRLF + rest;
    assert s[..|line|] == line;
    assert s[|line| + 2..] == rest;
  }

  lemma {:induction false} RemoveEmptyNone(parts: seq<string>)
    requires forall k :: 0 <= k < |parts| ==> parts[k] != []
    ensures RemoveEmpty(parts) == parts
  {
    if parts != [] {
      RemoveEmptyNone(parts[1..]);
    }
  }

  // ---------------------------------------------------------------------------
  // Framing: lines each ended by CRLF, then an empty line
  // ---------------------------------------------------------------------------

  /** Each line followed by CRLF. */
  function Lines(lines: seq<string>): string
  {
    if lines == [] then "" else lines[0] + CRLF + Lines(lines[1..])
  }

  lemma {:induction false} LinesAppend(a: seq<string>, b: seq<string>)
    ensures Lines(a + b) == Lines(a) + Lines(b)
  {
    if a == [] {
      assert a + b == b;
    } else {
      assert (a + b)[1..] == a[1..] + b;
      LinesAppend(a[1..], b);
    }
  }

  /** A head: its lines, then the empty line that ends it. */
  function Frame(lines: seq<string>): string
  {
    Lines(lines) + CRLF
  }

  lemma {:induction false} LinesJoin(lines: seq<string>)
    requires lines != []
    ensures Lines(lines) == Join(lines, CRLF) + CRLF
  {
    if |lines| > 1 {
      LinesJoin(lines[1..]);
    } else {
      assert lines[1..] == [];
    }
  }

  // ---------------------------------------------------------------------------
  // The response split
  // ---------------------------------------------------------------------------

  /** Core.HTTPFetchResponse: the header lines and the body text. */
  datatype Response = Response(fields: seq<string>, text: string)

  /** How HTTPFetchAsync reads the raw response: up to the first blank line
      are the non-empty CRLF-separated header lines, after it the body; with
      no blank line there are no fields and the text stays "". */
  function SplitResponse(raw: string): (r: Response)
    ensures forall k :: 0 <= k < |r.fields| ==> r.fields[k] != []
  {
    var bodyPos := IndexOfSub(raw, CRLF + CRLF);
    if bodyPos < 0 then Response([], "")
    else Response(RemoveEmpty(SplitOn(raw[..bodyPos], CRLF)), raw[bodyPos + 4..])
  }

  /** A line break followed by the start of another line is no blank
      line. */
  lemma BreakBeforeLine(rest: string)
    requires rest != [] && rest[0] != '\r'
    ensures var i := IndexOfSub(rest, CRLF + CRLF);
      IndexOfSub(CRLF + rest, CRLF + CRLF) == (if i < 0 then -1 else i + 2)
  {
    var p := CRLF + CRLF;
    var s := CRLF + rest;
    assert s[1..] == ['\n'] + rest;
    if |s| >= 4 {
      assert s[2] == rest[0];
      assert s[..4] != p;
    }
    IndexOfSubSkip('\n', rest, p);
  }

  /** The first blank line of a framed head followed by any body is the one
      that ends the head. */
  lemma {:induction false} FrameEnd(lines: seq<string>, body: string)
    requires lines != [] && HeadLinesOk(lines)
    ensures IndexOfSub(Frame(lines) + body, CRLF + CRLF) == |Frame(lines)| - 4
  {
    var p := CRLF + CRLF;
    var l := lines[0];
    var rest := Frame(lines[1..]) + body;
    assert Frame(lines) + body == l + (CRLF + rest);
    IndexOfSubSkipAll(l, CRLF + rest, p);
    if |lines| == 1 {
      assert lines[1..] == [];
      assert (CRLF + rest)[..4] == p;
    } else {
      FrameEnd(lines[1..], body);
      assert rest[0] == lines[1][0];
      BreakBeforeLine(rest);
    }
  }

  /** Reading a framed head followed by a body gives back the lines and the
      body: the response split inverts the framing. */
  lemma ResponseRoundTrip(lines: seq<string>, body: string)
    requires lines != [] && HeadLinesOk(lines)
    ensures SplitResponse(Frame(lines) + body) == Response(lines, body)
  {
    var raw := Frame(lines) + body;
    FrameEnd(lines, body);
    LinesJoin(lines);
    var j := Join(lines, CRLF);
    assert raw == j + (CRLF + CRLF) + body;
    assert raw[..|j|] == j;
    assert raw[|j| + 4..] == body;
    SplitOnJoin(lines);
    RemoveEmptyNone(lines);
  }

  /** Without a blank line the response has no fields and no text. */
  lemma ResponseWithoutBlankLine(raw: string)
    requires IndexOfSub(raw, CRLF + CRLF) < 0
    ensures SplitResponse(raw) == Response([], "")
  {
  }

  // ---------------------------------------------------------------------------
  // Header lookup (Core.GetHeaderValue)
  // ---------------------------------------------------------------------------

  /** Core.GetHeaderValue(fields, header): for the first line containing
      header, the trimmed text after its first ':' (the whole line when it
      has none); null when no line contains it. */
  function HeaderValue(fields: seq<string>, header: string): (r: Option<string>)
    ensures r.None? <==> forall k :: 0 <= k < |fields| ==> !Contains(fields[k], header)
  {
    if fields == [] then None
    else if Contains(fields[0], header) then
      var item := fields[0];
      var i := IndexOf(item, ':');
      Some(Trim(item[i + 1..]))
    else HeaderValue(fields[1..], header)
  }

  /** A field written "name: value" is read back by name, when no earlier
      field mentions the name, the name has no ':' and the value has no
      surrounding white space. */
  lemma {:induction false} HeaderValueRoundTrip(before: seq<string>, name: string, value: string, after: seq<string>)
    requires forall k :: 0 <= k < |before| ==> !Contains(before[k], name)
    requires ':' !in name
    requires value == [] || (!IsWhiteSpace(value[0]) && !IsWhiteSpace(value[|value| - 1]))
    ensures HeaderValue(before + [name + ": " + value] + after, name) == Some(value)
  {
    var fields := before + [name + ": " + value] + after;
    if before == [] {
      var item := name + ": " + value;
      assert fields[0] == item;
      assert StartsWith(item, name) by {
        assert item[..|name|] == name;
      }
      IndexOfPrefix(name, ':', " " + value);
      assert item == name + [':'] + (" " + value);
      assert item[|name| + 1..] == " " + value;
      TrimPadded(" ", value);
    } else {
      assert fields[1..] == before[1..] + [name + ": " + value] + after;
      HeaderValueRoundTrip(before[1..], name, value, after);
    }
  }
  // ---------------------------------------------------------------------------
  // The request head (HTTPFetchAsync, the reqStr assembly)
  // ---------------------------------------------------------------------------

  lemma LinesSnoc(ls: seq<string>, x: string)
    ensures Lines(ls + [x]) == Lines(ls) + x + CRLF
  {
    LinesAppend(ls, [x]);
    assert Lines([x]) == x + CRLF + Lines([]);
  }

  /** One "name: value" line per value of a caller header. */
  function ValueLines(name: string, values: seq<string>): (ls: seq<string>)
    ensures |ls| == |values|
    ensures forall k :: 0 <= k < |values| ==> ls[k] == name + ": " + values[k]
  {
    seq(|values|, k requires 0 <= k < |values| => name + ": " + values[k])
  }

  /** The lines of the caller's header collection, header by header (a null
      collection is empty). */
  function HeaderLines(headers: seq<(string, seq<string>)>): seq<string>
  {
    if headers == [] then []
    else HeaderLines(headers[..|headers| - 1]) + ValueLines(headers[|headers| - 1].0, headers[|headers| - 1].1)
  }

  /** The Host header: the given host, or the URL's host when it is null or
      empty. */
  function HostFor(host: Option<string>, uriHost: string): string
  {
    if host.None? || host.value == [] then uriHost else host.value
  }

  /** The Accept line, present only when the accepted type is not blank. */
  function AcceptLines(requestAccept: Option<string>): seq<string>
  {
    if requestAccept.Some? && !AllWhiteSpace(requestAccept.value) then ["Accept: " + requestAccept.value] else []
  }

  /** The Content-Type line, present only when a type is given. */
  function ContentTypeLines(contentType: Option<string>): seq<string>
  {
    if contentType.Some? then ["Content-Type: " + contentType.value] else []
  }

  /** The lines of the request head, in the order HTTPFetchAsync writes
      them. */
  function HeadLines(verb: string, url: string, host: string, requestAccept: Option<string>,
                     contentType: Option<string>, headers: seq<(string, seq<string>)>, contentLength: int): seq<string>
  {
    [verb + " " + url + " HTTP/1.1", "Host: " + host, "Connection: Close"]
    + AcceptLines(requestAccept)
    + ContentTypeLines(contentType)
    + HeaderLines(headers)
    + ["Content-Length: " + IntToString(contentLength)]
  }

  lemma HeadStart(a: string, b: string, c: string)
    ensures Lines([a, b, c]) == a + CRLF + b + CRLF + c + CRLF
  {
    LinesSnoc([], a);
    LinesSnoc([a], b);
    LinesSnoc([a, b], c);
    assert [] + [a] == [a];
  }

  /** The caller-header part of the head: for each header, one line per
      value. */
  method WriteHeaders(headers: seq<(string, seq<string>)>) returns (text: string)
    ensures text == Lines(HeaderLines(headers))
  {
    text := "";
    var i := 0;
    while i < |headers|
      invariant 0 <= i <= |headers|
      invariant text == Lines(HeaderLines(headers[..i]))
    {
      var header := headers[i].0;
      var values := headers[i].1;
      assert headers[..i + 1][..i] == headers[..i];
      assert headers[..i + 1][i] == headers[i];
      ghost var prior := HeaderLines(headers[..i]);
      assert prior + ValueLines(header, values[..0]) == prior;
      var j := 0;
      while j < |values|
        invariant 0 <= j <= |values|
        invariant text == Lines(prior + ValueLines(header, values[..j]))
      {
        var x := header + ": " + values[j];
        LinesSnoc(prior + ValueLines(header, values[..j]), x);
        assert ValueLines(header, values[..j + 1]) == ValueLines(header, values[..j]) + [x];
        assert prior + ValueLines(header, values[..j]) + [x] == prior + ValueLines(header, values[..j + 1]);
        text := text + x + CRLF;
        j := j + 1;
      }
      assert values[..j] == values;
      i := i + 1;
    }
    assert headers[..i] == headers;
  }

  /** HTTPFetchAsync's request head: the request line, Host, Connection:
      Close, Accept when it is not blank, Content-Type when given, every
      caller header value, Content-Length, then the blank line. */
  method BuildHead(verb: string, url: string, host: Option<string>, uriHost: string, requestAccept: Option<string>,
                   contentType: Option<string>, headers: seq<(string, seq<string>)>, contentLength: int)
    returns (head: string)
    ensures head == Frame(HeadLines(verb, url, HostFor(host, uriHost), requestAccept, contentType, headers, contentLength))
  {
    var h := if host.None? || host.value == [] then uriHost else host.value;
    ghost var lines := [verb + " " + url + " HTTP/1.1", "Host: " + h, "Connection: Close"];
    var reqStr := verb + " " + url + " HTTP/1.1" + CRLF + "Host: " + h + CRLF + "Connection: Close" + CRLF;
    HeadStart(lines[0], lines[1], lines[2]);
    assert reqStr == Lines(lines);
    var blank := IsNullOrWhiteSpace(requestAccept);
    if !blank {
      var x := "Accept: " + requestAccept.value;
      LinesSnoc(lines, x);
      reqStr := reqStr + x + CRLF;
      lines := lines + [x];
    } else {
      assert lines + AcceptLines(requestAccept) == lines;
    }
    if contentType.Some? {
      var x := "Content-Type: " + contentType.value;
      LinesSnoc(lines, x);
      reqStr := reqStr + x + CRLF;
      lines := lines + [x];
    } else {
      assert lines + ContentTypeLines(contentType) == lines;
    }
    var more := WriteHeaders(headers);
    LinesAppend(lines, HeaderLines(headers));
    reqStr := reqStr + more;
    lines := lines + HeaderLines(headers);
    var cl := "Content-Length: " + IntToString(contentLength);
    LinesSnoc(lines, cl);
    reqStr := reqStr + cl + CRLF;
    lines := lines + [cl];
    reqStr := reqStr + CRLF;
    return reqStr;
  }

  /** Texts that can go into a head line unchanged. */
  predicate NoCR(s: string)
  {
    '\r' !in s
  }

  lemma {:induction false} HeaderLinesOk(headers: seq<(string, seq<string>)>)
    requires forall k :: 0 <= k < |headers| ==>
      NoCR(headers[k].0) && forall m :: 0 <= m < |headers[k].1| ==> NoCR(headers[k].1[m])
    ensures HeadLinesOk(HeaderLines(headers))
  {
    if headers != [] {
      var init := headers[..|headers| - 1];
      assert forall k :: 0 <= k < |init| ==> init[k] == headers[k];
      HeaderLinesOk(init);
      var (name, values) := headers[|headers| - 1];
      forall m | 0 <= m < |values| ensures HeadLine(ValueLines(name, values)[m]) {
        assert ValueLines(name, values)[m] == name + ": " + values[m];
      }
    }
  }

  lemma HeadLinesOkAppend(a: seq<string>, b: seq<string>)
    requires HeadLinesOk(a) && HeadLinesOk(b)
    ensures HeadLinesOk(a + b)
  {
    forall k | 0 <= k < |a + b| ensures HeadLine((a + b)[k]) {
      if k < |a| {
        assert (a + b)[k] == a[k];
      } else {
        assert (a + b)[k] == b[k - |a|];
      }
    }
  }

  lemma {:induction false} NatToStringNoCR(n: nat)
    ensures NoCR(NatToString(n))
  {
    if n >= 10 {
      NatToStringNoCR(n / 10);
    }
  }

  /** The three opening lines of a head hold no carriage return. */
  lemma OpeningOk(verb: string, url: string, host: string)
    requires NoCR(verb) && NoCR(url) && NoCR(host)
    ensures HeadLinesOk([verb + " " + url + " HTTP/1.1", "Host: " + host, "Connection: Close"])
  {
    var opening := [verb + " " + url + " HTTP/1.1", "Host: " + host, "Connection: Close"];
    assert HeadLine(opening[0]) && HeadLine(opening[1]) && HeadLine(opening[2]);
  }

  /** Nor does the Content-Length line. */
  lemma ContentLengthOk(contentLength: int)
    ensures HeadLine("Content-Length: " + IntToString(contentLength))
  {
    NatToStringNoCR(if contentLength < 0 then -contentLength else contentLength);
  }

  /** A head built from texts without carriage returns reads back, through
      the same split that reads responses, as its own lines followed by the
      body. */
  lemma RequestHeadReadsBack(verb: string, url: string, host: string, requestAccept: Option<string>,
                             contentType: Option<string>, headers: seq<(string, seq<string>)>, contentLength: int, body: string)
    requires NoCR(verb) && NoCR(url) && NoCR(host)
    requires requestAccept.Some? ==> NoCR(requestAccept.value)
    requires contentType.Some? ==> NoCR(contentType.value)
    requires forall k :: 0 <= k < |headers| ==>
      NoCR(headers[k].0) && forall m :: 0 <= m < |headers[k].1| ==> NoCR(headers[k].1[m])
    ensures var lines := HeadLines(verb, url, host, requestAccept, contentType, headers, contentLength);
      SplitResponse(Frame(lines) + body) == Response(lines, body)
  {
    var lines := HeadLines(verb, url, host, requestAccept, contentType, headers, contentLength);
    var opening := [verb + " " + url + " HTTP/1.1", "Host: " + host, "Connection: Close"];
    var cl := "Content-Length: " + IntToString(contentLength);
    OpeningOk(verb, url, host);
    HeaderLinesOk(headers);
    ContentLengthOk(contentLength);
    HeadLinesOkAppend(opening, AcceptLines(requestAccept));
    HeadLinesOkAppend(opening + AcceptLines(requestAccept), ContentTypeLines(contentType));
    HeadLinesOkAppend(opening + AcceptLines(requestAccept) + ContentTypeLines(contentType), HeaderLines(headers));
    HeadLinesOkAppend(opening + AcceptLines(requestAccept) + ContentTypeLines(contentType) + HeaderLines(headers), [cl]);
    ResponseRoundTrip(lines, body);
  }
  // ---------------------------------------------------------------------------
  // Request bodies and content types
  // ---------------------------------------------------------------------------

  /** Encoding.UTF8.GetBytes on ASCII text: one byte per character. */
  function Bytes(s: string): (b: seq<byte>)
    ensures |b| == |s|
  {
    seq(|s|, k requires 0 <= k < |s| => (s[k] as int) % 256)
  }

  /** HTTPFetchAsync(string payload): a blank payload sends no body and a
      Content-Length of 0; any other is sent whole. */
  function StringBody(payload: Option<string>): (seq<byte>, int)
  {
    if payload.None? || AllWhiteSpace(payload.value) then ([], 0)
    else (Bytes(payload.value), |Bytes(payload.value)|)
  }

  const FormType: string := "application/x-www-form-urlencoded"
  const JsonType: string := "application/json; charset=utf-8"

  /** Core.RequestRawAsync(string body): JSON or form type, and no
      Content-Type at all for a null or empty body. */
  function ContentTypeForText(jsonBody: bool, body: Option<string>): (r: Option<string>)
    ensures r.None? <==> body.None? || body.value == []
    ensures r.Some? ==> (r.value == JsonType <==> jsonBody) && (r.value == FormType <==> !jsonBody)
  {
    if body.None? || body.value == [] then None
    else if jsonBody then Some(JsonType) else Some(FormType)
  }

  /** Core.RequestRawAsync(Dictionary body): the same choice, with only a
      null dictionary dropping the Content-Type. */
  function ContentTypeForDictionary(jsonBody: bool, bodyIsNull: bool): (r: Option<string>)
    ensures r.None? <==> bodyIsNull
    ensures r.Some? ==> (r.value == JsonType <==> jsonBody) && (r.value == FormType <==> !jsonBody)
  {
    if bodyIsNull then None
    else if jsonBody then Some(JsonType) else Some(FormType)
  }

  /** string.ToUpper on ASCII letters. */
  function Upper(s: string): (r: string)
    ensures |r| == |s|
    ensures forall k :: 0 <= k < |s| ==> r[k] == (if 'a' <= s[k] <= 'z' then (s[k] as int - 32) as char else s[k])
  {
    seq(|s|, k requires 0 <= k < |s| => if 'a' <= s[k] <= 'z' then (s[k] as int - 32) as char else s[k])
  }

  predicate IsAsciiLower(c: char)
  {
    'a' <= c <= 'z'
  }

  /** v spells w letter for letter, each ASCII capital of w possibly
      written in lower case. */
  predicate CaseVariantOf(v: string, w: string)
  {
    |v| == |w| && forall k :: 0 <= k < |v| ==>
      v[k] == w[k] || ('A' <= w[k] <= 'Z' && v[k] as int == w[k] as int + 32)
  }

  /** Upper leaves no ASCII lower-case letter, so a second call changes
      nothing. */
  lemma UpperIdempotent(s: string)
    ensures forall k :: 0 <= k < |Upper(s)| ==> !IsAsciiLower(Upper(s)[k])
    ensures Upper(Upper(s)) == Upper(s)
  {
  }

  /** Upper gives w, a text without ASCII lower-case letters, exactly for
      the ASCII case variants of w. */
  lemma UpperIsCaseVariant(v: string, w: string)
    requires forall k :: 0 <= k < |w| ==> !IsAsciiLower(w[k])
    ensures Upper(v) == w <==> CaseVariantOf(v, w)
  {
    if CaseVariantOf(v, w) {
      forall k | 0 <= k < |v|
        ensures Upper(v)[k] == w[k]
      {
      }
    }
  }

  /** The method test behind routing: a verb becomes "GET" exactly when it
      is "get" in some mix of ASCII cases. */
  lemma UpperIsGet(v: string)
    ensures Upper(v) == "GET" <==> CaseVariantOf(v, "GET")
  {
    UpperIsCaseVariant(v, "GET");
  }

  /** The exceptions a fetch lets escape: the "Halt" exception, and the
      copy of a body shorter than the declared Content-Length. */
  datatype FetchError = Halted | BodyTooShort

  /** The bytes put on the wire: the head, then the first contentLength
      bytes of the body when contentLength is positive. */
  function FinalBytes(head: string, streamBytes: seq<byte>, contentLength: int): Result<seq<byte>, FetchError>
  {
    if contentLength <= 0 then Success(Bytes(head))
    else if |streamBytes| < contentLength then Failure(BodyTooShort)
    else Success(Bytes(head) + streamBytes[..contentLength])
  }

  // ---------------------------------------------------------------------------
  // The sliced write
  // ---------------------------------------------------------------------------

  /** How many slices of `rate` bytes a buffer of n bytes is written in. */
  function SliceCount(n: nat, rate: int): nat
    requires rate > 0
  {
    ChunksCount(n, rate)
  }

  /** Slice j of the buffer: rate bytes from j * rate, fewer at the end. */
  function Slice(buf: seq<byte>, rate: int, j: nat): (r: seq<byte>)
    requires rate > 0 && j < SliceCount(|buf|, rate)
    ensures Payload(buf, j * rate, Some(rate)) == Success(r)
  {
    MulMonotone(j, SliceCount(|buf|, rate) - 1, rate);
    Payload(buf, j * rate, Some(rate)).value
  }

  /** The first k slices, in order. */
  function Slices(buf: seq<byte>, rate: int, k: nat): (r: seq<seq<byte>>)
    requires rate > 0 && k <= SliceCount(|buf|, rate)
    ensures |r| == k
  {
    if k == 0 then [] else Slices(buf, rate, k - 1) + [Slice(buf, rate, k - 1)]
  }

  /** The progress reported after slice j: the final, short slice reports
      (contentLength, contentLength); any other the bytes written so far,
      capped at contentLength. */
  function Report(n: nat, contentLength: int, rate: int, j: nat): (int, int)
  {
    if j * rate + rate > n then (contentLength, contentLength)
    else (Min((j + 1) * rate, contentLength), contentLength)
  }

  /** The first k reports, in order. */
  function Reports(n: nat, contentLength: int, rate: int, k: nat): (r: seq<(int, int)>)
    ensures |r| == k
  {
    if k == 0 then [] else Reports(n, contentLength, rate, k - 1) + [Report(n, contentLength, rate, k - 1)]
  }

  lemma {:induction false} ReportsAt(n: nat, contentLength: int, rate: int, k: nat, j: nat)
    requires j < k
    ensures Reports(n, contentLength, rate, k)[j] == Report(n, contentLength, rate, j)
  {
    if j < k - 1 {
      ReportsAt(n, contentLength, rate, k - 1, j);
    }
  }

  /** The slices written when the halt flag is first seen false at check
      number h (never, for None). */
  function SlicesWritten(n: nat, rate: int, haltAfter: Option<nat>): (k: nat)
    requires rate > 0
    ensures k <= SliceCount(n, rate)
  {
    if haltAfter.Some? && haltAfter.value < SliceCount(n, rate) then haltAfter.value else SliceCount(n, rate)
  }

  lemma CountIs(n: nat, rate: int, c: int)
    requires rate > 0 && (c - 1) * rate < n <= c * rate
    ensures SliceCount(n, rate) == c
  {
    var m := SliceCount(n, rate);
    if m < c {
      MulMonotone(m, c - 1, rate);
    } else if m > c {
      MulMonotone(c, m - 1, rate);
    }
  }

  /** Writing the slices one after the other puts the whole buffer on the
      wire, slice j being rate bytes (fewer only for the last). */
  lemma SlicesRebuildBuffer(buf: seq<byte>, rate: int)
    requires rate > 0
    ensures Concat(Slices(buf, rate, SliceCount(|buf|, rate))) == buf
  {
    SlicesAsChunks(buf, rate, SliceCount(|buf|, rate));
    ChunkPayloadsRebuildFile(buf, rate);
  }

  function Concat(parts: seq<seq<byte>>): seq<byte>
  {
    if parts == [] then [] else Concat(parts[..|parts| - 1]) + parts[|parts| - 1]
  }

  lemma {:induction false} SlicesAsChunks(buf: seq<byte>, rate: int, k: nat)
    requires rate > 0 && k <= SliceCount(|buf|, rate)
    ensures Concat(Slices(buf, rate, k)) == ChunkBytes(buf, rate, k)
  {
    if k > 0 {
      SlicesAsChunks(buf, rate, k - 1);
    }
  }

  /** A halted write has put exactly the first h full slices on the wire. */
  lemma HaltedWritesPrefix(buf: seq<byte>, rate: int, h: nat)
    requires rate > 0 && h < SliceCount(|buf|, rate)
    ensures SlicesWritten(|buf|, rate, Some(h)) == h
    ensures h * rate < |buf|
    ensures Concat(Slices(buf, rate, h)) == buf[..h * rate]
  {
    HaltedBound(|buf|, rate, h);
    SlicesAsChunks(buf, rate, h);
    ChunkBytesPrefix(buf, rate, h);
  }

  lemma HaltedBound(n: nat, rate: int, h: nat)
    requires rate > 0 && h < SliceCount(n, rate)
    ensures h * rate < n
  {
    MulMonotone(h, SliceCount(n, rate) - 1, rate);
  }

  /** The progress reports never go down and never pass contentLength, and
      a full write of a buffer at least contentLength long ends with
      (contentLength, contentLength). */
  lemma ReportsMonotone(n: nat, contentLength: int, rate: int, rs: seq<(int, int)>)
    requires rate > 0 && contentLength >= 0
    requires rs == Reports(n, contentLength, rate, SliceCount(n, rate))
    ensures forall j, m :: 0 <= j <= m < |rs| ==> rs[j].0 <= rs[m].0
    ensures forall j :: 0 <= j < |rs| ==> 0 <= rs[j].0 <= contentLength && rs[j].1 == contentLength
    ensures |rs| > 0 && contentLength <= n ==> rs[|rs| - 1] == (contentLength, contentLength)
  {
    var c := SliceCount(n, rate);
    forall j, m | 0 <= j <= m < |rs|
      ensures rs[j].0 <= rs[m].0
    {
      MulMonotone(j, m, rate);
      ReportsAt(n, contentLength, rate, c, j);
      ReportsAt(n, contentLength, rate, c, m);
      assert (j + 1) * rate == j * rate + rate && (m + 1) * rate == m * rate + rate;
    }
    forall j | 0 <= j < |rs|
      ensures 0 <= rs[j].0 <= contentLength && rs[j].1 == contentLength
    {
      MulMonotone(0, j + 1, rate);
      ReportsAt(n, contentLength, rate, c, j);
    }
    if c > 0 {
      assert (c - 1) * rate + rate == c * rate;
    }
  }

  /** The loop is at slice j, whose first byte is i = j * rate; slices
      remain exactly while i is inside the buffer. */
  ghost predicate AtSlice(n: nat, rate: int, i: nat, j: nat)
  {
    && rate > 0 && i == j * rate && j <= SliceCount(n, rate)
    && (j < SliceCount(n, rate) <==> i < n)
  }

  lemma SliceStart(n: nat, rate: int)
    requires rate > 0
    ensures AtSlice(n, rate, 0, 0)
  {
    if n > 0 {
      HaltedBoundUp(n, rate, 0);
    }
  }

  /** Slice j is the last one exactly when it reaches the end of the
      buffer; otherwise the loop moves on to slice j + 1. */
  lemma SliceCountStep(n: nat, rate: int, i: nat, j: nat)
    requires AtSlice(n, rate, i, j) && i < n
    ensures j < SliceCount(n, rate)
    ensures i + rate > n ==> SliceCount(n, rate) == j + 1
    ensures i + rate <= n ==> AtSlice(n, rate, i + rate, j + 1)
  {
    assert (j + 1) * rate == j * rate + rate;
    if i + rate >= n {
      CountIs(n, rate, j + 1);
    } else {
      HaltedBoundUp(n, rate, j + 1);
    }
  }

  /** Slice j is the rate bytes from i = j * rate, or the rest of the buffer. */
  lemma SliceSnoc(buf: seq<byte>, rate: int, i: nat, j: nat)
    requires AtSlice(|buf|, rate, i, j) && i < |buf|
    ensures Slices(buf, rate, j + 1)
      == Slices(buf, rate, j) + [if i + rate > |buf| then buf[i..|buf|] else buf[i..i + rate]]
  {
    assert Payload(buf, i, Some(rate)) == Success(Slice(buf, rate, j));
  }

  /** The report after slice j, with i = j * rate. */
  lemma ReportSnoc(n: nat, contentLength: int, rate: int, i: nat, j: nat)
    requires AtSlice(n, rate, i, j)
    ensures Reports(n, contentLength, rate, j + 1)
      == Reports(n, contentLength, rate, j)
         + [if i + rate > n then (contentLength, contentLength) else (Min(i + rate, contentLength), contentLength)]
  {
    ReportAt(n, contentLength, rate, i, j);
  }

  lemma ReportAt(n: nat, contentLength: int, rate: int, i: nat, j: nat)
    requires i == j * rate
    ensures Report(n, contentLength, rate, j)
      == if i + rate > n then (contentLength, contentLength) else (Min(i + rate, contentLength), contentLength)
  {
    assert (j + 1) * rate == j * rate + rate;
  }

  /** A write that stops after k slices, either because the halt came at
      check k or because k is the last slice, has written SlicesWritten. */
  lemma WrittenIs(n: nat, rate: int, haltAfter: Option<nat>, k: nat)
    requires rate > 0 && k <= SliceCount(n, rate)
    requires haltAfter.Some? ==> k <= haltAfter.value
    requires k < SliceCount(n, rate) ==> haltAfter == Some(k)
    ensures SlicesWritten(n, rate, haltAfter) == k
  {
  }

  /** A slice boundary inside the buffer leaves at least one slice after it. */
  lemma HaltedBoundUp(n: nat, rate: int, m: nat)
    requires rate > 0 && m * rate < n
    ensures m < SliceCount(n, rate)
  {
    var count := SliceCount(n, rate);
    if m >= count {
      MulMonotone(count, m, rate);
    }
  }

  /** The writes and progress reports after the first k slices, on top of
      what was there before. */
  ghost predicate Wrote(buf: seq<byte>, contentLength: int, rate: int, k: nat,
                        writes0: seq<seq<byte>>, progress0: seq<(int, int)>,
                        writes: seq<seq<byte>>, progress: seq<(int, int)>)
    requires rate > 0 && k <= SliceCount(|buf|, rate)
  {
    && writes == writes0 + Slices(buf, rate, k)
    && progress == progress0 + Reports(|buf|, contentLength, rate, k)
  }

  /** Writing slice j, from i = j * rate, and reporting it extends what
      was written after j slices to what is written after j + 1. */
  lemma WroteStep(buf: seq<byte>, contentLength: int, rate: int, i: nat, j: nat,
                  writes0: seq<seq<byte>>, progress0: seq<(int, int)>,
                  writes: seq<seq<byte>>, progress: seq<(int, int)>)
    requires AtSlice(|buf|, rate, i, j) && i < |buf|
    requires Wrote(buf, contentLength, rate, j, writes0, progress0, writes, progress)
    ensures j + 1 <= SliceCount(|buf|, rate)
    ensures i + rate > |buf| ==>
      Wrote(buf, contentLength, rate, j + 1, writes0, progress0,
            writes + [buf[i..|buf|]], progress + [(contentLength, contentLength)])
    ensures i + rate <= |buf| ==>
      Wrote(buf, contentLength, rate, j + 1, writes0, progress0,
            writes + [buf[i..i + rate]], progress + [(Min(i + rate, contentLength), contentLength)])
  {
    SliceCountStep(|buf|, rate, i, j);
    SliceSnoc(buf, rate, i, j);
    ReportSnoc(|buf|, contentLength, rate, i, j);
  }

  /** Core: the state the fetch shares with its callers. */
  class Connection {
    /** Core._active: set by each fetch, cleared by Halt and when a fetch
        ends. */
    var active: bool
    /** Core.UpstreamCallbackRate, the slice size in bytes. */
    var rate: int
    /** Core.UpstreamCallback is set. */
    var hasCallback: bool
    /** Every write on the stream, in order. */
    var writes: seq<seq<byte>>
    /** Every UpstreamCallback(sent, total) call, in order. */
    var progress: seq<(int, int)>

    constructor()
      ensures !active && rate == 10240 && !hasCallback && writes == [] && progress == []
    {
      active := false;
      rate := 10240;
      hasCallback := false;
      writes := [];
      progress := [];
    }

    /** Core.Halt. */
    method Halt()
      modifies this
      ensures !active
      ensures rate == old(rate) && hasCallback == old(hasCallback)
      ensures writes == old(writes) && progress == old(progress)
    {
      active := false;
    }

    /** Core.UpstreamCallbackRate setter. */
    method SetRate(value: nat)
      modifies this
      ensures rate == value
      ensures active == old(active) && hasCallback == old(hasCallback)
      ensures writes == old(writes) && progress == old(progress)
    {
      rate := value;
    }

    /** The slice loop of HTTPFetchAsync: the flag is read before each slice
        and a cleared flag throws "Halt".  Another thread's Halt() lands just
        before check number h when haltAfter is Some(h); None means no Halt
        arrives during the write. */
    method WriteSliced(buf: seq<byte>, contentLength: int, haltAfter: Option<nat>) returns (r: Result<(), FetchError>)
      requires rate > 0 && active
      modifies this
      ensures rate == old(rate) && hasCallback == old(hasCallback)
      ensures var k := SlicesWritten(|buf|, rate, haltAfter);
        && Wrote(buf, contentLength, rate, k, old(writes), old(progress), writes, progress)
        && (r.Success? <==> k == SliceCount(|buf|, rate))
        && (r.Failure? ==> r.error == Halted)
        && active == r.Success?
    {
      var n := |buf|;
      var step := rate;
      ghost var count := SliceCount(n, step);
      var i := 0;
      var j := 0;
      SliceStart(n, step);
      while i < n
        invariant rate == step && hasCallback == old(hasCallback) && active
        invariant AtSlice(n, step, i, j)
        invariant haltAfter.Some? ==> j <= haltAfter.value
        invariant Wrote(buf, contentLength, step, j, old(writes), old(progress), writes, progress)
        decreases n - i
      {
        if haltAfter.Some? && j == haltAfter.value {
          active := false;
        }
        if !active {
          WrittenIs(n, step, haltAfter, j);
          return Failure(Halted);
        }
        SliceCountStep(n, step, i, j);
        WroteStep(buf, contentLength, step, i, j, old(writes), old(progress), writes, progress);
        if i + step > n {
          writes := writes + [buf[i..n]];
          progress := progress + [(contentLength, contentLength)];
          j := j + 1;
          break;
        }
        writes := writes + [buf[i..i + step]];
        i := i + step;
        progress := progress + [(Min(i, contentLength), contentLength)];
        j := j + 1;
      }
      WrittenIs(n, step, haltAfter, j);
      return Success(());
    }

    /** Core.HTTPFetchAsync(byte[] ...): raises the flag, assembles the head,
        writes head and body (in slices when a progress callback is set and
        the rate is positive, else in one write), splits the reply, and
        clears the flag however it ends.  The server's reply is a parameter,
        as is uri.Host. */
    method Fetch(verb: string, url: string, host: Option<string>, uriHost: string, requestAccept: Option<string>,
                 contentType: Option<string>, headers: seq<(string, seq<string>)>,
                 streamBytes: seq<byte>, contentLength: int, haltAfter: Option<nat>, reply: string)
      returns (r: Result<Response, FetchError>)
      modifies this
      ensures !active && rate == old(rate) && hasCallback == old(hasCallback)
      ensures var head := Frame(HeadLines(verb, url, HostFor(host, uriHost), requestAccept, contentType, headers, contentLength));
        var fb := FinalBytes(head, streamBytes, contentLength);
        if fb.Failure? then
          r == Failure(BodyTooShort) && writes == old(writes) && progress == old(progress)
        else if hasCallback && rate > 0 then
          var k := SlicesWritten(|fb.value|, rate, haltAfter);
          && writes == old(writes) + Slices(fb.value, rate, k)
          && progress == old(progress) + Reports(|fb.value|, contentLength, rate, k)
          && r == (if k == SliceCount(|fb.value|, rate) then Success(SplitResponse(reply)) else Failure(Halted))
        else
          writes == old(writes) + [fb.value] && progress == old(progress) && r == Success(SplitResponse(reply))
    {
      active := true;
      var head := BuildHead(verb, url, host, uriHost, requestAccept, contentType, headers, contentLength);
      var headerBytes := Bytes(head);
      var finalBytes := headerBytes;
      if contentLength > 0 {
        if |streamBytes| < contentLength {
          active := false;
          return Failure(BodyTooShort);
        }
        finalBytes := headerBytes + streamBytes[..contentLength];
      }
      if hasCallback && rate > 0 {
        var w := WriteSliced(finalBytes, contentLength, haltAfter);
        if w.Failure? {
          active := false;
          return Failure(Halted);
        }
      } else {
        writes := writes + [finalBytes];
      }
      active := false;
      return Success(SplitResponse(reply));
    }
  }
}
