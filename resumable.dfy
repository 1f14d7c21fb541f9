/**
 * The resumable-upload protocol as YouTubeHook speaks it: the requests it
 * sends (the upload-session POST, the status probe, the chunk PUT) and how
 * it reads the probe's answer into a VerifyFeedback.
 */
module Resumable {
  import opened Wrappers
  import opened Text
  import opened Chunks
  import opened Http

  /** Core.VerifyFeedback: the byte range the server reports and the size of
      the whole content.  All three start at 0. */
  datatype Feedback = Feedback(firstByte: int, lastByte: int, contentSize: int)

  /** A request as handed to Core.HTTPFetchAsync: method, URL, the caller's
      headers (name and values), the body bytes with the Content-Length, the
      Content-Type (None for null) and the Host override. */
  datatype Request = Request(verb: string, url: string, headers: seq<(string, seq<string>)>,
                             body: seq<byte>, contentLength: int, contentType: Option<string>,
                             host: Option<string>)

  /** The head a request puts on the wire, given the host of its URL. */
  function RequestHead(req: Request, uriHost: string): seq<string>
  {
    HeadLines(req.verb, req.url, HostFor(req.host, uriHost), None, req.contentType, req.headers, req.contentLength)
  }

  function Authorization(token: string): (string, seq<string>)
  {
    ("Authorization", ["Bearer " + token])
  }

  const SessionEndpoint: string := "https://www.googleapis.com/upload/youtube/v3/videos?uploadType=resumable&part=id&key="
  const VideoType: string := "video/*"

  /** GetUploadSessionUrl(FileInfo): a POST with an empty JSON body announcing
      the length and type of the video. */
  function SessionRequest(clientId: string, token: string, fileLength: int): Request
  {
    var (body, cl) := StringBody(Some(""));
    Request("POST", SessionEndpoint + clientId,
            [Authorization(token), ("X-Upload-Content-Length", [IntToString(fileLength)]),
             ("X-Upload-Content-Type", [VideoType])],
            body, cl, Some(JsonType), None)
  }

  /** The Content-Range value of the probe: the unsatisfied-range form
      "bytes", a star, a slash and the length, of section 4.2 of RFC 7233. */
  function ProbeRange(fileLength: int): string
  {
    "bytes */" + IntToString(fileLength)
  }

  /** Verify(url, info): a PUT with no body and no Content-Type. */
  function ProbeRequest(url: string, token: string, fileLength: int): Request
  {
    var (body, cl) := StringBody(Some(""));
    Request("PUT", url, [Authorization(token), ("Content-Range", [ProbeRange(fileLength)])], body, cl, None, None)
  }

  /** The Content-Range value of a chunk: first and last byte (inclusive) and
      the total length. */
  function ChunkRange(startByte: int, count: int, totalLength: int): string
  {
    "bytes " + IntToString(startByte) + "-" + IntToString(startByte + count - 1) + "/" + IntToString(totalLength)
  }

  /** Upload(url, totalLength, startByte, payload): the chunk as a PUT of
      VideoType. */
  function ChunkRequest(url: string, token: string, totalLength: int, startByte: int, payload: seq<byte>): Request
  {
    Request("PUT", url, [Authorization(token), ("Content-Range", [ChunkRange(startByte, |payload|, totalLength)])],
            payload, |payload|, Some(VideoType), None)
  }

  lemma TwoHeaders(name1: string, value1: string, name2: string, value2: string)
    ensures HeaderLines([(name1, [value1]), (name2, [value2])]) == [name1 + ": " + value1, name2 + ": " + value2]
  {
    var h1, h2 := (name1, [value1]), (name2, [value2]);
    var one: seq<(string, seq<string>)> := [h1];
    var both := [h1, h2];
    assert one[..0] == [];
    assert HeaderLines(one) == HeaderLines([]) + ValueLines(name1, [value1]);
    assert ValueLines(name1, [value1]) == [name1 + ": " + value1];
    assert both[..1] == one;
    assert HeaderLines(both) == HeaderLines(one) + ValueLines(name2, [value2]);
    assert ValueLines(name2, [value2]) == [name2 + ": " + value2];
  }

  /** A PUT head with two single-valued headers, line by line. */
  lemma PutHead(url: string, host: string, contentType: Option<string>, name1: string, value1: string,
                name2: string, value2: string, contentLength: int)
    ensures HeadLines("PUT", url, host, None, contentType, [(name1, [value1]), (name2, [value2])], contentLength) ==
      ["PUT " + url + " HTTP/1.1", "Host: " + host, "Connection: Close"] + ContentTypeLines(contentType)
      + [name1 + ": " + value1, name2 + ": " + value2, "Content-Length: " + IntToString(contentLength)]
  {
    TwoHeaders(name1, value1, name2, value2);
    assert "PUT" + " " + url == "PUT " + url;
    assert AcceptLines(None) == [];
  }

  /** The head of the probe, line by line. */
  lemma ProbeHead(url: string, token: string, fileLength: int, uriHost: string)
    ensures RequestHead(ProbeRequest(url, token, fileLength), uriHost) ==
      ["PUT " + url + " HTTP/1.1", "Host: " + uriHost, "Connection: Close",
       "Authorization: Bearer " + token, "Content-Range: bytes */" + IntToString(fileLength),
       "Content-Length: 0"]
  {
    var req := ProbeRequest(url, token, fileLength);
    assert StringBody(Some("")) == ([], 0);
    assert req.contentLength == 0 && req.contentType.None? && req.host.None?;
    PutHead(url, uriHost, None, "Authorization", "Bearer " + token, "Content-Range", ProbeRange(fileLength), 0);
    assert "Authorization" + ": " + ("Bearer " + token) == "Authorization: Bearer " + token;
    assert "Content-Range" + ": " + ProbeRange(fileLength) == "Content-Range: bytes */" + IntToString(fileLength);
    assert IntToString(0) == "0";
    assert ContentTypeLines(None) == [];
    assert "Content-Length: " + IntToString(0) == "Content-Length: 0";
  }

  /** The head of a chunk, line by line: the body follows a Content-Length
      equal to the payload size. */
  lemma ChunkHead(url: string, token: string, totalLength: int, startByte: int, payload: seq<byte>, uriHost: string)
    ensures RequestHead(ChunkRequest(url, token, totalLength, startByte, payload), uriHost) ==
      ["PUT " + url + " HTTP/1.1", "Host: " + uriHost, "Connection: Close", "Content-Type: " + VideoType,
       "Authorization: Bearer " + token,
       "Content-Range: " + ChunkRange(startByte, |payload|, totalLength),
       "Content-Length: " + IntToString(|payload|)]
  {
    var range := ChunkRange(startByte, |payload|, totalLength);
    PutHead(url, uriHost, Some(VideoType), "Authorization", "Bearer " + token, "Content-Range", range, |payload|);
    assert "Authorization" + ": " + ("Bearer " + token) == "Authorization: Bearer " + token;
    assert "Content-Range" + ": " + range == "Content-Range: " + range;
  }

  // ---------------------------------------------------------------------------
  // Reading the probe's answer
  // ---------------------------------------------------------------------------

  /** The probe succeeded: there is a status line and it holds " 20". */
  predicate ProbeOk(fields: seq<string>)
  {
    |fields| > 0 && Contains(fields[0], " 20")
  }

  /** The check RequestRaw and GetUploadSessionUrl make before refreshing:
      no status line, or one holding " 40". */
  predicate Unauthorized(fields: seq<string>)
  {
    |fields| == 0 || Contains(fields[0], " 40")
  }

  /** One "Range:" line, read as Verify reads it: the text between the first
      and second colon, trimmed, then the part after the first '=', cut at
      '-', each end parsed with long.Parse.  None is any exception on the
      way. */
  function ParseRange(item: string): Option<(int, int)>
  {
    var colon := Split(item, ':');
    if |colon| < 2 then None
    else
      var eq := Split(Trim(colon[1]), '=');
      if |eq| < 2 then None
      else
        var rangestr := Split(eq[1], '-');
        var first := ParseLong(rangestr[0]);
        if first.None? || |rangestr| < 2 then None
        else
          var last := ParseLong(rangestr[1]);
          if last.None? then None else Some((first.value, last.value))
  }

  /** The (FirstByte, LastByte) the foreach over the fields leaves behind
      when it starts from (0, 0): each "Range:" line overwrites both; None
      when a "Range:" line throws. */
  function Ranges(fields: seq<string>): Option<(int, int)>
  {
    if fields == [] then Some((0, 0))
    else
      var prior := Ranges(fields[..|fields| - 1]);
      var item := fields[|fields| - 1];
      if prior.None? then None
      else if StartsWith(item, "Range:") then ParseRange(item)
      else prior
  }

  /** Verify's reading of the answer: an OK probe sets LastByte to the
      still-zero ContentSize; otherwise the Range lines decide, and an
      exception while reading them resets both ends to 0. */
  function ProbeFeedback(fields: seq<string>): Feedback
  {
    if ProbeOk(fields) then Feedback(0, 0, 0)
    else
      match Ranges(fields)
      case Some((f, l)) => Feedback(f, l, 0)
      case None => Feedback(0, 0, 0)
  }

  /** The foreach of Verify over the response fields. */
  method ReadFeedback(fields: seq<string>) returns (v: Feedback)
    ensures v == ProbeFeedback(fields)
  {
    var contentSize := 0;
    if |fields| > 0 && Contains(fields[0], " 20") {
      return Feedback(0, contentSize, contentSize);
    }
    var first, last := 0, 0;
    var i := 0;
    while i < |fields|
      invariant 0 <= i <= |fields|
      invariant Ranges(fields[..i]) == Some((first, last))
    {
      assert fields[..i + 1][..i] == fields[..i];
      var item := fields[i];
      if StartsWith(item, "Range:") {
        var r := ParseRange(item);
        if r.None? {
          RangesStaysNone(fields[..i + 1], fields[i + 1..]);
          assert fields[..i + 1] + fields[i + 1..] == fields;
          return Feedback(0, 0, contentSize);
        }
        first, last := r.value.0, r.value.1;
      }
      i := i + 1;
    }
    assert fields[..i] == fields;
    return Feedback(first, last, contentSize);
  }

  /** Ranges of a longer list, one line at a time. */
  lemma RangesSnoc(a: seq<string>, b: seq<string>)
    requires b != []
    ensures var c := a + b; var last := b[|b| - 1];
      Ranges(c) == (if Ranges(a + b[..|b| - 1]).None? then None
                    else if StartsWith(last, "Range:") then ParseRange(last)
                    else Ranges(a + b[..|b| - 1]))
  {
    var c := a + b;
    assert c[..|c| - 1] == a + b[..|b| - 1];
    assert c[|c| - 1] == b[|b| - 1];
  }

  /** Once a Range line has thrown, later lines change nothing. */
  lemma {:induction false} RangesStaysNone(a: seq<string>, b: seq<string>)
    requires Ranges(a).None?
    ensures Ranges(a + b).None?
  {
    if b == [] {
      assert a + b == a;
    } else {
      RangesStaysNone(a, b[..|b| - 1]);
      RangesSnoc(a, b);
    }
  }

  /** Lines that are not Range lines leave the reading as it was. */
  lemma {:induction false} RangesSkip(a: seq<string>, b: seq<string>)
    requires forall k :: 0 <= k < |b| ==> !StartsWith(b[k], "Range:")
    ensures Ranges(a + b) == Ranges(a)
  {
    if b == [] {
      assert a + b == a;
    } else {
      RangesSkip(a, b[..|b| - 1]);
      RangesSnoc(a, b);
    }
  }

  /** The Range line a server sends: "Range: bytes=F-L". */
  function RangeLine(first: nat, last: nat): string
  {
    "Range: bytes=" + NatToString(first) + "-" + NatToString(last)
  }

  lemma DigitsExclude(s: string, c: char)
    requires AllDigits(s) && !IsDigit(c)
    ensures c !in s
  {
    forall k | 0 <= k < |s|
      ensures s[k] != c
    {
      assert IsDigit(s[k]);
    }
  }

  /** Cutting "a c b" at the only c gives a and b. */
  lemma SplitTwo(a: string, c: char, b: string)
    requires c !in a && c !in b
    ensures Split(a + [c] + b, c) == [a, b]
  {
    var s := a + [c] + b;
    IndexOfPrefix(a, c, b);
    assert s[..|a|] == a;
    assert s[|a| + 1..] == b;
  }

  /** ParseRange step by step, from the pieces each Split leaves. */
  lemma ParseRangePieces(item: string, value: string, numbers: string, f: string, l: string)
    requires Split(item, ':') == ["Range", " " + value]
    requires Trim(" " + value) == value
    requires Split(value, '=') == ["bytes", numbers]
    requires Split(numbers, '-') == [f, l]
    requires ParseLong(f).Some? && ParseLong(l).Some?
    ensures ParseRange(item) == Some((ParseLong(f).value, ParseLong(l).value))
  {
  }

  /** A Range line in the server's format reads back as the two numbers it
      carries. */
  lemma RangeLineParses(first: nat, last: nat)
    requires first <= Int64Max && last <= Int64Max
    ensures StartsWith(RangeLine(first, last), "Range:")
    ensures ParseRange(RangeLine(first, last)) == Some((first, last))
  {
    var f, l := NatToString(first), NatToString(last);
    var numbers := f + ['-'] + l;
    var value := "bytes" + ['='] + numbers;
    var item := RangeLine(first, last);
    RangeLineShape(f, l, numbers, value, item, first, last);
    ParseLongOfNat(first);
    ParseLongOfNat(last);
    ParseRangePieces(item, value, numbers, f, l);
  }

  lemma RangeLineShape(f: string, l: string, numbers: string, value: string, item: string, first: nat, last: nat)
    requires f == NatToString(first) && l == NatToString(last)
    requires numbers == f + ['-'] + l && value == "bytes" + ['='] + numbers && item == RangeLine(first, last)
    ensures StartsWith(item, "Range:")
    ensures Split(item, ':') == ["Range", " " + value]
    ensures Trim(" " + value) == value
    ensures Split(value, '=') == ["bytes", numbers]
    ensures Split(numbers, '-') == [f, l]
  {
    NumbersExclude(f, l, numbers);
    SplitTwo(f, '-', l);
    SplitTwo("bytes", '=', numbers);
    ValueExcludes(numbers, value);
    ItemIs(f, l, numbers, value, item, first, last);
    SplitTwo("Range", ':', " " + value);
    ValueTrimmed(f, l, numbers, value);
  }

  lemma ItemIs(f: string, l: string, numbers: string, value: string, item: string, first: nat, last: nat)
    requires f == NatToString(first) && l == NatToString(last)
    requires numbers == f + ['-'] + l && value == "bytes" + ['='] + numbers && item == RangeLine(first, last)
    ensures item == "Range" + [':'] + (" " + value)
    ensures StartsWith(item, "Range:")
  {
    assert "Range: bytes=" == "Range" + [':'] + " bytes" + ['='];
  }

  lemma ValueTrimmed(f: string, l: string, numbers: string, value: string)
    requires |l| >= 1 && AllDigits(l)
    requires numbers == f + ['-'] + l && value == "bytes" + ['='] + numbers
    ensures Trim(" " + value) == value
  {
    assert value[0] == 'b' && value[|value| - 1] == l[|l| - 1];
    assert IsDigit(l[|l| - 1]);
    TrimPadded(" ", value);
  }

  lemma NumbersExclude(f: string, l: string, numbers: string)
    requires AllDigits(f) && AllDigits(l) && numbers == f + ['-'] + l
    ensures '-' !in f && '-' !in l && '=' !in numbers && ':' !in numbers
  {
    DigitsExclude(f, ':');
    DigitsExclude(l, ':');
    DigitsExclude(f, '=');
    DigitsExclude(l, '=');
    DigitsExclude(f, '-');
    DigitsExclude(l, '-');
  }

  lemma ValueExcludes(numbers: string, value: string)
    requires ':' !in numbers && value == "bytes" + ['='] + numbers
    ensures ':' !in " " + value
  {
    assert " " + value == " bytes=" + numbers;
  }

  /** The last Range line wins: whatever came before (as long as it did not
      throw), a well-formed Range line followed by no other Range line sets
      FirstByte and LastByte to its numbers. */
  lemma LastRangeWins(before: seq<string>, first: nat, last: nat, after: seq<string>)
    requires first <= Int64Max && last <= Int64Max
    requires Ranges(before).Some?
    requires forall k :: 0 <= k < |after| ==> !StartsWith(after[k], "Range:")
    ensures Ranges(before + [RangeLine(first, last)] + after) == Some((first, last))
  {
    RangeLineParses(first, last);
    var a := before + [RangeLine(first, last)];
    assert a[..|a| - 1] == before;
    RangesSkip(a, after);
  }

  /** A Range line that fails to parse resets both ends to 0, whatever the
      lines around it say. */
  lemma BadRangeResets(before: seq<string>, item: string, after: seq<string>)
    requires StartsWith(item, "Range:") && ParseRange(item).None?
    requires !ProbeOk(before + [item] + after)
    ensures ProbeFeedback(before + [item] + after) == Feedback(0, 0, 0)
  {
    var a := before + [item];
    assert a[..|a| - 1] == before;
    assert Ranges(a).None?;
    RangesStaysNone(a, after);
  }

  /** Without a Range line (and without a 2xx status) the feedback is all
      zero. */
  lemma NoRangeIsZero(fields: seq<string>)
    requires forall k :: 0 <= k < |fields| ==> !StartsWith(fields[k], "Range:")
    ensures ProbeFeedback(fields) == Feedback(0, 0, 0)
  {
    RangesSkip([], fields);
    assert [] + fields == fields;
  }

  /** The probe answer of an unfinished upload: a status line other than
      2xx (308 in the protocol) and the Range the server holds.  Verify
      reads back that range. */
  lemma ResumeIncompleteReadsRange(status: string, first: nat, last: nat, others: seq<string>)
    requires !Contains(status, " 20") && !StartsWith(status, "Range:")
    requires first <= Int64Max && last <= Int64Max
    requires forall k :: 0 <= k < |others| ==> !StartsWith(others[k], "Range:")
    ensures ProbeFeedback([status] + others + [RangeLine(first, last)]) == Feedback(first, last, 0)
  {
    var before := [status] + others;
    RangesSkip([], before);
    assert [] + before == before;
    LastRangeWins(before, first, last, []);
    assert before + [RangeLine(first, last)] + [] == [status] + others + [RangeLine(first, last)];
  }

  lemma {:induction false} DropLeadingKeeps(s: string, c: char)
    requires c !in s
    ensures c !in DropLeadingNumberWhite(s)
  {
    if s != [] && IsNumberWhite(s[0]) {
      assert c !in s[1..];
      DropLeadingKeeps(s[1..], c);
    }
  }

  lemma {:induction false} DropTrailingKeeps(s: string, c: char)
    requires c !in s
    ensures c !in DropTrailingNumberWhite(s)
  {
    if s != [] && IsNumberWhite(s[|s| - 1]) {
      assert c !in s[..|s| - 1];
      DropTrailingKeeps(s[..|s| - 1], c);
    }
  }

  /** long.Parse of text without a minus sign is never negative. */
  lemma ParseLongUnsigned(s: string)
    requires '-' !in s && ParseLong(s).Some?
    ensures ParseLong(s).value >= 0
  {
    DropLeadingKeeps(s, '-');
    DropTrailingKeeps(DropLeadingNumberWhite(s), '-');
  }

  /** The pieces of a Range value are cut at '-', so neither end can be
      negative: the cursor the upload loop takes from a probe is never
      before the start of the file. */
  lemma {:induction false} RangesNonNegative(fields: seq<string>)
    requires Ranges(fields).Some?
    ensures Ranges(fields).value.0 >= 0 && Ranges(fields).value.1 >= 0
  {
    if fields != [] {
      var item := fields[|fields| - 1];
      RangesNonNegative(fields[..|fields| - 1]);
      if StartsWith(item, "Range:") {
        var colon := Split(item, ':');
        var eq := Split(Trim(colon[1]), '=');
        var rangestr := Split(eq[1], '-');
        SplitPieces(eq[1], '-');
        ParseLongUnsigned(rangestr[0]);
        ParseLongUnsigned(rangestr[1]);
      }
    }
  }

  lemma FeedbackNonNegative(fields: seq<string>)
    ensures ProbeFeedback(fields).firstByte >= 0 && ProbeFeedback(fields).lastByte >= 0
  {
    if !ProbeOk(fields) && Ranges(fields).Some? {
      RangesNonNegative(fields);
    }
  }
}
