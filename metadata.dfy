/**
 * YouTubeMetadata: the snippet and status of a video, rendered as the JSON
 * text the upload session is opened with.  The text is produced the way
 * the class produces it: each field is cleaned, the values are put into a
 * template whose braces are written as the markers "~((~" and "~))~" (so
 * that string.Format leaves them alone), then the markers become braces and
 * every single quote a double quote.
 */
module Metadata {
  import opened Wrappers
  import opened Text

  /** The fields of a YouTubeMetadata, none of them null. */
  datatype YouTubeMetadata = YouTubeMetadata(title: string, description: string, tags: string, categoryId: int,
                                             privacyStatus: string, embeddable: bool, license: string)

  /** The field initialisers. */
  const DefaultMetadata: YouTubeMetadata :=
    YouTubeMetadata("Untitled", "Uploaded with RedCorners", "", 22, "public", true, "youtube")

  // ---------------------------------------------------------------------------
  // Cleaning the fields
  // ---------------------------------------------------------------------------

  /** The title: single quotes become spaces and line feeds the two
      characters backslash and n; a title left blank becomes "Untitled". */
  function CleanTitle(title: string): string
  {
    var t := Replace(ReplaceChar(title, '\'', ' '), "\n", "\\n");
    if AllWhiteSpace(t) then "Untitled" else t
  }

  /** The description: single quotes and line feeds become spaces. */
  function CleanDescription(description: string): string
  {
    ReplaceChar(ReplaceChar(description, '\'', ' '), '\n', ' ')
  }

  /** One tag of the list: its single quotes removed, trimmed, and quoted. */
  function TagEntry(piece: string): string
  {
    "'" + Trim(Replace(piece, "'", "")) + "'"
  }

  /** The entries of the pieces, in order. */
  function TagEntries(pieces: seq<string>): (r: seq<string>)
    ensures |r| == |pieces|
  {
    seq(|pieces|, k requires 0 <= k < |pieces| => TagEntry(pieces[k]))
  }

  /** One more piece gives one more entry at the end. */
  lemma TagEntriesSnoc(pieces: seq<string>, piece: string)
    ensures TagEntries(pieces + [piece]) == TagEntries(pieces) + [TagEntry(piece)]
  {
    var e := TagEntries(pieces + [piece]);
    assert forall k :: 0 <= k < |pieces| ==> e[k] == TagEntry(pieces[k]);
  }

  /** The text between the brackets of the tags array: one entry per
      comma-separated piece of Tags, joined by commas. */
  function TagsText(tags: string): string
  {
    Join(TagEntries(Split(tags, ',')), ",")
  }

  /** The title has no single quote and no line feed, and is never blank;
      a title without any of these is kept as it is. */
  lemma TitleCleaned(title: string)
    ensures var t := CleanTitle(title);
      && '\'' !in t && '\n' !in t && !AllWhiteSpace(t)
      && ('\'' !in title && '\n' !in title && !AllWhiteSpace(title) ==> t == title)
  {
    var q := ReplaceChar(title, '\'', ' ');
    ReplaceChars(q, "\n", "\\n", '\'');
    ReplaceDropsChar(q, '\n', "\\n");
    assert !AllWhiteSpace("Untitled") by {
      assert !IsWhiteSpace("Untitled"[0]);
    }
    if '\'' !in title && '\n' !in title {
      assert q == title;
      ReplaceAbsent(title, "\n", "\\n");
    }
  }

  /** The description keeps its length and every character other than a
      single quote or a line feed, which become spaces. */
  lemma DescriptionCleaned(description: string)
    ensures var d := CleanDescription(description);
      && |d| == |description|
      && forall i :: 0 <= i < |d| ==>
           d[i] == if description[i] == '\'' || description[i] == '\n' then ' ' else description[i]
  {
  }

  /** One entry is quoted once at each end and holds, between the quotes,
      neither a quote nor a comma, and no white space at either end. */
  lemma TagEntryShape(piece: string)
    requires ',' !in piece
    ensures var e := TagEntry(piece); var inner := e[1..|e| - 1];
      && |e| >= 2 && e[0] == '\'' && e[|e| - 1] == '\''
      && '\'' !in inner && ',' !in e
      && inner == Trim(Replace(piece, "'", ""))
      && (inner == [] || (!IsWhiteSpace(inner[0]) && !IsWhiteSpace(inner[|inner| - 1])))
  {
    var e := TagEntry(piece);
    var unquoted := Replace(piece, "'", "");
    ReplaceDropsChar(piece, '\'', "");
    ReplaceChars(piece, "'", "", ',');
    TrimKeepsOut(unquoted, '\'');
    TrimKeepsOut(unquoted, ',');
    assert e[1..|e| - 1] == Trim(unquoted);
  }

  /** The tags text splits back, at its commas, into one entry per piece of
      Tags: as many entries as Tags has commas plus one. */
  lemma TagsRoundTrip(tags: string)
    ensures Split(TagsText(tags), ',') == TagEntries(Split(tags, ','))
    ensures |Split(TagsText(tags), ',')| == Count(tags, ',') + 1
  {
    var pieces := Split(tags, ',');
    var entries := TagEntries(pieces);
    SplitPieces(tags, ',');
    forall k | 0 <= k < |entries|
      ensures ',' !in entries[k]
    {
      TagEntryShape(pieces[k]);
    }
    SplitJoin(entries, ',');
    SplitCount(tags, ',');
  }

  // ---------------------------------------------------------------------------
  // The template
  // ---------------------------------------------------------------------------

  const Open: string := "~((~"
  const Close: string := "~))~"

  /** The template of ToJson cut at its placeholders {0} to {6}. */
  const Head: string := Open + "\n'snippet': " + Open + "\n'title': '"
  const AfterTitle: string := "',\n'description': '"
  const AfterDescription: string := "',\n'tags': ["
  const AfterTags: string := "],\n'categoryId': "
  const AfterCategory: string := "\n" + Close + ",\n'status': " + Open + "\n'privacyStatus': '"
  const AfterPrivacy: string := "',\n'embeddable': "
  const AfterEmbeddable: string := ",\n'license': '"
  const Tail: string := "'\n" + Close + "\n" + Close

  /** string.Format of a template cut into eight pieces at its seven
      placeholders. */
  function Fill(l0: string, v0: string, l1: string, v1: string, l2: string, v2: string, l3: string, v3: string,
                l4: string, v4: string, l5: string, v5: string, l6: string, v6: string, l7: string): string
  {
    l0 + v0 + l1 + v1 + l2 + v2 + l3 + v3 + l4 + v4 + l5 + v5 + l6 + v6 + l7
  }

  function BoolText(b: bool): string
  {
    if b then "true" else "false"
  }

  /** The template filled with the cleaned fields, before any Replace. */
  function Formatted(m: YouTubeMetadata): string
  {
    Fill(Head, CleanTitle(m.title), AfterTitle, CleanDescription(m.description), AfterDescription, TagsText(m.tags),
         AfterTags, IntToString(m.categoryId), AfterCategory, m.privacyStatus, AfterPrivacy, BoolText(m.embeddable),
         AfterEmbeddable, m.license, Tail)
  }

  /** YouTubeMetadata.ToJson(): the markers become braces, then every single
      quote a double quote. */
  function Json(m: YouTubeMetadata): string
  {
    Replace(Braced(Formatted(m)), "'", "\"")
  }

  /** YouTubeMetadata.ToJson.  Split always yields at least one piece, so
      the first entry is always written. */
  method ToJson(m: YouTubeMetadata) returns (json: string)
    ensures json == Json(m)
  {
    var title := Replace(ReplaceChar(m.title, '\'', ' '), "\n", "\\n");
    var blank := IsNullOrWhiteSpace(Some(title));
    if blank {
      title := "Untitled";
    }
    var description := ReplaceChar(ReplaceChar(m.description, '\'', ' '), '\n', ' ');
    var tagsList := Split(m.tags, ',');
    var tags := "'" + Trim(Replace(tagsList[0], "'", "")) + "'";
    var i := 1;
    assert Tagged(tags, tagsList, i);
    while i < |tagsList|
      invariant Tagged(tags, tagsList, i)
      decreases |tagsList| - i
    {
      var piece := Trim(Replace(tagsList[i], "'", ""));
      TagsAdvance(tags, tagsList, i, piece);
      tags := tags + ",'" + piece + "'";
      i := i + 1;
    }
    assert tagsList[..i] == tagsList;
    var categoryId := IntToString(m.categoryId);
    var embeddable := if m.embeddable then "true" else "false";
    var input := Fill(Head, title, AfterTitle, description, AfterDescription, tags, AfterTags, categoryId,
                      AfterCategory, m.privacyStatus, AfterPrivacy, embeddable, AfterEmbeddable, m.license, Tail);
    assert input == Formatted(m);
    json := Replace(Replace(Replace(input, Open, "{"), Close, "}"), "'", "\"");
  }

  /** The loop's step: one more entry after a comma. */
  lemma TagsStep(pieces: seq<string>, i: nat)
    requires 1 <= i < |pieces|
    ensures Join(TagEntries(pieces[..i + 1]), ",") == Join(TagEntries(pieces[..i]), ",") + "," + TagEntry(pieces[i])
  {
    var init := pieces[..i];
    assert pieces[..i + 1] == init + [pieces[i]];
    TagEntriesSnoc(init, pieces[i]);
    var e := TagEntries(init + [pieces[i]]);
    assert e[..|e| - 1] == TagEntries(init);
    JoinSnoc(e, ",");
  }

  /** The loop's invariant: the text holds the entries of the first i
      pieces. */
  ghost predicate Tagged(tags: string, pieces: seq<string>, i: nat)
  {
    1 <= i <= |pieces| && tags == Join(TagEntries(pieces[..i]), ",")
  }

  lemma TagsAdvance(tags: string, pieces: seq<string>, i: nat, piece: string)
    requires Tagged(tags, pieces, i) && i < |pieces|
    requires piece == Trim(Replace(pieces[i], "'", ""))
    ensures Tagged(tags + ",'" + piece + "'", pieces, i + 1)
  {
    TagsStep(pieces, i);
    CommaEntry(tags, piece);
  }

  lemma CommaEntry(s: string, t: string)
    ensures s + "," + ("'" + t + "'") == s + ",'" + t + "'"
  {
  }

  // ---------------------------------------------------------------------------
  // The shape of the JSON text
  // ---------------------------------------------------------------------------

  /** The first two Replace calls of ToJson: the markers become braces. */
  function Braced(s: string): string
  {
    Replace(Replace(s, Open, "{"), Close, "}")
  }

  /** What the three Replace calls do to one value placed in the template. */
  function Escape(v: string): string
  {
    ReplaceChar(Braced(v), '\'', '"')
  }

  /** Text holding neither a tilde nor a single quote is left alone. */
  lemma EscapeAbsent(v: string)
    requires '~' !in v && '\'' !in v
    ensures Escape(v) == v
  {
    ReplaceAbsent(v, Open, "{");
    ReplaceAbsent(v, Close, "}");
  }

  /** A literal piece of the template that can neither complete a marker
      begun before it nor begin one that what follows completes. */
  predicate Separated(l: string, p: string)
    requires p != []
  {
    HeadSafe(l, p) && TailFree(l, p) && |l| >= |p| - 1
  }

  /** One literal piece and one value more. */
  lemma FillStep(s: string, l: string, v: string, p: string, r: string)
    requires p != [] && Separated(l, p)
    ensures Replace(s + l + v, p, r) == Replace(s, p, r) + Replace(l, p, r) + Replace(v, p, r)
  {
    ReplaceSplit(s, l, p, r);
    TailFreeAppend(s, l, p);
    ReplaceSplit(s + l, v, p, r);
  }

  /** Replace works piece by piece on a filled template whose literal pieces
      keep the markers apart from the values. */
  lemma FillReplace(l0: string, v0: string, l1: string, v1: string, l2: string, v2: string, l3: string, v3: string,
                    l4: string, v4: string, l5: string, v5: string, l6: string, v6: string, l7: string,
                    p: string, r: string)
    requires p != []
    requires TailFree(l0, p) && HeadSafe(l7, p)
    requires Separated(l1, p) && Separated(l2, p) && Separated(l3, p)
    requires Separated(l4, p) && Separated(l5, p) && Separated(l6, p)
    ensures Replace(Fill(l0, v0, l1, v1, l2, v2, l3, v3, l4, v4, l5, v5, l6, v6, l7), p, r)
         == Fill(Replace(l0, p, r), Replace(v0, p, r), Replace(l1, p, r), Replace(v1, p, r), Replace(l2, p, r),
                 Replace(v2, p, r), Replace(l3, p, r), Replace(v3, p, r), Replace(l4, p, r), Replace(v4, p, r),
                 Replace(l5, p, r), Replace(v5, p, r), Replace(l6, p, r), Replace(v6, p, r), Replace(l7, p, r))
  {
    ReplaceSplit(l0, v0, p, r);
    var s1 := l0 + v0;
    FillStep(s1, l1, v1, p, r);
    var s2 := s1 + l1 + v1;
    FillStep(s2, l2, v2, p, r);
    var s3 := s2 + l2 + v2;
    FillStep(s3, l3, v3, p, r);
    var s4 := s3 + l3 + v3;
    FillStep(s4, l4, v4, p, r);
    var s5 := s4 + l4 + v4;
    FillStep(s5, l5, v5, p, r);
    var s6 := s5 + l5 + v5;
    FillStep(s6, l6, v6, p, r);
    ReplaceSplit(s6 + l6 + v6, l7, p, r);
  }

  /** ReplaceChar works piece by piece on a filled template. */
  lemma FillReplaceChar(l0: string, v0: string, l1: string, v1: string, l2: string, v2: string, l3: string, v3: string,
                        l4: string, v4: string, l5: string, v5: string, l6: string, v6: string, l7: string,
                        a: char, b: char)
    ensures ReplaceChar(Fill(l0, v0, l1, v1, l2, v2, l3, v3, l4, v4, l5, v5, l6, v6, l7), a, b)
         == Fill(ReplaceChar(l0, a, b), ReplaceChar(v0, a, b), ReplaceChar(l1, a, b), ReplaceChar(v1, a, b),
                 ReplaceChar(l2, a, b), ReplaceChar(v2, a, b), ReplaceChar(l3, a, b), ReplaceChar(v3, a, b),
                 ReplaceChar(l4, a, b), ReplaceChar(v4, a, b), ReplaceChar(l5, a, b), ReplaceChar(v5, a, b),
                 ReplaceChar(l6, a, b), ReplaceChar(v6, a, b), ReplaceChar(l7, a, b))
  {
    var f := Fill(l0, v0, l1, v1, l2, v2, l3, v3, l4, v4, l5, v5, l6, v6, l7);
    var g := Fill(ReplaceChar(l0, a, b), ReplaceChar(v0, a, b), ReplaceChar(l1, a, b), ReplaceChar(v1, a, b),
                  ReplaceChar(l2, a, b), ReplaceChar(v2, a, b), ReplaceChar(l3, a, b), ReplaceChar(v3, a, b),
                  ReplaceChar(l4, a, b), ReplaceChar(v4, a, b), ReplaceChar(l5, a, b), ReplaceChar(v5, a, b),
                  ReplaceChar(l6, a, b), ReplaceChar(v6, a, b), ReplaceChar(l7, a, b));
    assert |ReplaceChar(f, a, b)| == |g|;
    forall i | 0 <= i < |f|
      ensures ReplaceChar(f, a, b)[i] == g[i]
    {
    }
  }

  // The template's literal pieces, one at a time.  Each piece is shown to
  // keep the markers apart from the values on both passes, and its text
  // after the three Replace calls is computed.

  /** A marker at the front becomes its replacement. */
  lemma MarkerFirst(p: string, x: string, r: string)
    requires p != []
    ensures Replace(p + x, p, r) == r + Replace(x, p, r)
  {
    assert (p + x)[..|p|] == p;
    assert (p + x)[|p|..] == x;
  }

  /** A marker alone becomes its replacement. */
  lemma MarkerAlone(p: string, r: string)
    requires p != []
    ensures Replace(p, p, r) == r
  {
    assert p[..|p|] == p;
  }

  /** Text without the marker's first character cannot end in part of it. */
  lemma AbsentTailFree(a: string, p: string)
    requires p != [] && p[0] !in a
    ensures TailFree(a, p)
  {
  }

  /** Two markers, each followed by marker-free text. */
  lemma MarkerMarker(x: string, p: string, y: string, r: string)
    requires p != [] && p[0] !in x && p[0] !in y && HeadSafe(y, p) && |x| >= |p| - 1
    ensures Replace(p + x + p + y, p, r) == r + x + r + y
  {
    ReplaceSplit(p + x + p, y, p, r);
    AbsentTailFree(x, p);
    TailFreeAppend(p, x, p);
    ReplaceSplit(p + x, p, p, r);
    MarkerFirst(p, x, r);
    MarkerAlone(p, r);
    ReplaceAbsent(x, p, r);
    ReplaceAbsent(y, p, r);
  }

  /** The other marker, of the same length, is left alone. */
  lemma OtherMarker(q: string, p: string, r: string)
    requires p != [] && |q| == |p| && q != p
    ensures Replace(q, p, r) == q
  {
    assert q[..|p|] == q;
    assert |q[1..]| < |p|;
  }

  /** A marker at the end becomes its replacement. */
  lemma MarkerLast(x: string, p: string, r: string)
    requires p != [] && p[0] !in x
    ensures Replace(x + p, p, r) == x + r
  {
    AbsentTailFree(x, p);
    ReplaceSplit(x, p, p, r);
    ReplaceAbsent(x, p, r);
    MarkerAlone(p, r);
  }

  /** The other marker at the end is left alone. */
  lemma OtherLast(x: string, q: string, p: string, r: string)
    requires p != [] && p[0] !in x && |q| == |p| && q != p
    ensures Replace(x + q, p, r) == x + q
  {
    AbsentTailFree(x, p);
    ReplaceSplit(x, q, p, r);
    ReplaceAbsent(x, p, r);
    OtherMarker(q, p, r);
  }

  /** Marker-free text after the other marker is left alone, and cannot
      end in part of the marker. */
  lemma OtherThenPlain(n: string, q: string, x: string, p: string, r: string)
    requires p != [] && p[0] !in n && p[0] !in x && |q| == |p| && q != p && HeadSafe(x, p) && |x| >= |p| - 1
    ensures Replace(n + q + x, p, r) == n + q + x
    ensures TailFree(n + q + x, p)
  {
    OtherLast(n, q, p, r);
    ReplaceAbsent(x, p, r);
    ReplaceSplit(n + q, x, p, r);
    AbsentTailFree(x, p);
    TailFreeAppend(n + q, x, p);
  }

  /** A marker between text that is left alone and marker-free text. */
  lemma MarkerAfter(m: string, p: string, y: string, r: string)
    requires p != [] && TailFree(m, p) && Replace(m, p, r) == m && p[0] !in y && HeadSafe(y, p)
    ensures Replace(m + p + y, p, r) == m + r + y
  {
    ReplaceAbsent(y, p, r);
    MarkerAlone(p, r);
    ReplaceSplit(m, p, p, r);
    ReplaceSplit(m + p, y, p, r);
  }

  /** A marker between two marker-free texts. */
  lemma MarkerBetween(n: string, p: string, z: string, r: string)
    requires p != [] && p[0] !in n && p[0] !in z && HeadSafe(z, p)
    ensures Replace(n + p + z, p, r) == n + r + z
  {
    MarkerLast(n, p, r);
    ReplaceAbsent(z, p, r);
    ReplaceSplit(n + p, z, p, r);
  }

  /** The JSON text's literal pieces, as ToJson leaves the template's. */
  const JsonHead: string := "{" + "\n\"snippet\": " + "{" + "\n\"title\": \""
  const JsonAfterTitle: string := "\",\n\"description\": \""
  const JsonAfterDescription: string := "\",\n\"tags\": ["
  const JsonAfterTags: string := "],\n\"categoryId\": "
  const JsonAfterCategory: string := "\n" + "}" + ",\n\"status\": " + "{" + "\n\"privacyStatus\": \""
  const JsonAfterPrivacy: string := "\",\n\"embeddable\": "
  const JsonAfterEmbeddable: string := ",\n\"license\": \""
  const JsonTail: string := "\"\n" + "}" + ("\n" + "}")

  /** What is known of a literal piece without markers. */
  ghost predicate PlainPiece(l: string, j: string)
  {
    Separated(l, Open) && Replace(l, Open, "{") == l && Separated(l, Close) && Escape(l) == j
  }

  lemma Plain(l: string, j: string)
    requires '~' !in l && |l| >= 3 && l[0] != '(' && l[0] != ')' && ReplaceChar(l, '\'', '"') == j
    ensures PlainPiece(l, j)
  {
    ReplaceAbsent(l, Open, "{");
    ReplaceAbsent(l, Close, "}");
    AbsentTailFree(l, Open);
    AbsentTailFree(l, Close);
  }

  lemma AfterTitlePlain()
    ensures PlainPiece(AfterTitle, JsonAfterTitle)
  {
    assert ReplaceChar(AfterTitle, '\'', '"') == JsonAfterTitle;
    Plain(AfterTitle, JsonAfterTitle);
  }

  lemma AfterDescriptionPlain()
    ensures PlainPiece(AfterDescription, JsonAfterDescription)
  {
    assert ReplaceChar(AfterDescription, '\'', '"') == JsonAfterDescription;
    Plain(AfterDescription, JsonAfterDescription);
  }

  lemma AfterTagsPlain()
    ensures PlainPiece(AfterTags, JsonAfterTags)
  {
    assert ReplaceChar(AfterTags, '\'', '"') == JsonAfterTags;
    Plain(AfterTags, JsonAfterTags);
  }

  lemma AfterPrivacyPlain()
    ensures PlainPiece(AfterPrivacy, JsonAfterPrivacy)
  {
    assert ReplaceChar(AfterPrivacy, '\'', '"') == JsonAfterPrivacy;
    Plain(AfterPrivacy, JsonAfterPrivacy);
  }

  lemma AfterEmbeddablePlain()
    ensures PlainPiece(AfterEmbeddable, JsonAfterEmbeddable)
  {
    assert ReplaceChar(AfterEmbeddable, '\'', '"') == JsonAfterEmbeddable;
    Plain(AfterEmbeddable, JsonAfterEmbeddable);
  }

  lemma HeadEscaped()
    ensures Replace(Head, Open, "{") == "{" + "\n'snippet': " + "{" + "\n'title': '"
    ensures Escape(Head) == JsonHead
  {
    var x := "\n'snippet': ";
    var y := "\n'title': '";
    MarkerMarker(x, Open, y, "{");
    ReplaceAbsent("{" + x + "{" + y, Close, "}");
    ReplaceCharAppend("{" + x + "{", y, '\'', '"');
    ReplaceCharAppend("{" + x, "{", '\'', '"');
    ReplaceCharAppend("{", x, '\'', '"');
    QuoteHead();
  }

  lemma HeadSeparates()
    ensures TailFree(Head, Open) && TailFree(Replace(Head, Open, "{"), Close)
  {
    var y := "\n'title': '";
    AbsentTailFree(y, Open);
    TailFreeAppend(Open + "\n'snippet': " + Open, y, Open);
    HeadEscaped();
    AbsentTailFree("{" + "\n'snippet': " + "{" + y, Close);
  }

  lemma CategoryOpened()
    ensures Replace(AfterCategory, Open, "{") == "\n" + Close + ",\n'status': " + "{" + "\n'privacyStatus': '"
  {
    var x := ",\n'status': ";
    var y := "\n'privacyStatus': '";
    OtherThenPlain("\n", Close, x, Open, "{");
    MarkerAfter("\n" + Close + x, Open, y, "{");
  }

  lemma CategoryClosed()
    ensures Braced(AfterCategory) == "\n" + "}" + ",\n'status': " + "{" + "\n'privacyStatus': '"
  {
    var z := ",\n'status': " + "{" + "\n'privacyStatus': '";
    CategoryOpened();
    assert "\n" + Close + ",\n'status': " + "{" + "\n'privacyStatus': '" == "\n" + Close + z;
    MarkerBetween("\n", Close, z, "}");
  }

  lemma CategoryEscaped()
    ensures Escape(AfterCategory) == JsonAfterCategory
  {
    var x := ",\n'status': ";
    var y := "\n'privacyStatus': '";
    CategoryClosed();
    ReplaceCharAppend("\n" + "}" + x + "{", y, '\'', '"');
    ReplaceCharAppend("\n" + "}" + x, "{", '\'', '"');
    ReplaceCharAppend("\n" + "}", x, '\'', '"');
    ReplaceCharAppend("\n", "}", '\'', '"');
    QuoteCategory();
  }

  lemma CategorySeparates()
    ensures Separated(AfterCategory, Open) && Separated(Replace(AfterCategory, Open, "{"), Close)
  {
    var y := "\n'privacyStatus': '";
    AbsentTailFree(y, Open);
    TailFreeAppend("\n" + Close + ",\n'status': " + Open, y, Open);
    CategoryOpened();
    AbsentTailFree(y, Close);
    TailFreeAppend("\n" + Close + ",\n'status': " + "{", y, Close);
  }

  lemma TailEscaped()
    ensures Replace(Tail, Open, "{") == Tail
    ensures Escape(Tail) == JsonTail
  {
    var a := "'\n" + Close;
    var b := "\n" + Close;
    assert Tail == a + b;
    ReplaceSplit(a, b, Open, "{");
    OtherLast("'\n", Close, Open, "{");
    OtherLast("\n", Close, Open, "{");
    ReplaceSplit(a, b, Close, "}");
    MarkerLast("'\n", Close, "}");
    MarkerLast("\n", Close, "}");
    ReplaceCharAppend("'\n" + "}", "\n" + "}", '\'', '"');
    ReplaceCharAppend("'\n", "}", '\'', '"');
    QuoteTail();
  }

  lemma TailSeparates()
    ensures HeadSafe(Tail, Open) && HeadSafe(Replace(Tail, Open, "{"), Close)
  {
    TailEscaped();
  }

  lemma QuoteHead()
    ensures ReplaceChar("{", '\'', '"') == "{"
    ensures ReplaceChar("\n'snippet': ", '\'', '"') == "\n\"snippet\": "
    ensures ReplaceChar("\n'title': '", '\'', '"') == "\n\"title\": \""
  {
  }

  lemma QuoteCategory()
    ensures ReplaceChar("\n", '\'', '"') == "\n"
    ensures ReplaceChar("}", '\'', '"') == "}"
    ensures ReplaceChar("{", '\'', '"') == "{"
    ensures ReplaceChar(",\n'status': ", '\'', '"') == ",\n\"status\": "
    ensures ReplaceChar("\n'privacyStatus': '", '\'', '"') == "\n\"privacyStatus\": \""
  {
  }

  lemma QuoteTail()
    ensures ReplaceChar("'\n", '\'', '"') == "\"\n"
    ensures ReplaceChar("}", '\'', '"') == "}"
    ensures ReplaceChar("\n" + "}", '\'', '"') == "\n" + "}"
  {
  }

  /** A number is written with digits and perhaps a minus sign. */
  lemma NumberEscaped(i: int)
    ensures Escape(IntToString(i)) == IntToString(i)
  {
    var v := IntToString(i);
    assert forall k :: 0 <= k < |v| ==> v[k] == '-' || IsDigit(v[k]);
    EscapeAbsent(v);
  }

  lemma BoolEscaped(b: bool)
    ensures Escape(BoolText(b)) == BoolText(b)
  {
    EscapeAbsent(BoolText(b));
  }

  /** The braces pass, piece by piece. */
  lemma BracedFormatted(m: YouTubeMetadata)
    ensures Braced(Formatted(m))
         == Fill(Braced(Head), Braced(CleanTitle(m.title)), Braced(AfterTitle), Braced(CleanDescription(m.description)),
                 Braced(AfterDescription), Braced(TagsText(m.tags)), Braced(AfterTags), Braced(IntToString(m.categoryId)),
                 Braced(AfterCategory), Braced(m.privacyStatus), Braced(AfterPrivacy), Braced(BoolText(m.embeddable)),
                 Braced(AfterEmbeddable), Braced(m.license), Braced(Tail))
  {
    HeadSeparates();
    AfterTitlePlain();
    AfterDescriptionPlain();
    AfterTagsPlain();
    CategorySeparates();
    AfterPrivacyPlain();
    AfterEmbeddablePlain();
    TailSeparates();
    FillReplace(Head, CleanTitle(m.title), AfterTitle, CleanDescription(m.description), AfterDescription,
                TagsText(m.tags), AfterTags, IntToString(m.categoryId), AfterCategory, m.privacyStatus, AfterPrivacy,
                BoolText(m.embeddable), AfterEmbeddable, m.license, Tail, Open, "{");
    FillReplace(Replace(Head, Open, "{"), Replace(CleanTitle(m.title), Open, "{"), Replace(AfterTitle, Open, "{"),
                Replace(CleanDescription(m.description), Open, "{"), Replace(AfterDescription, Open, "{"),
                Replace(TagsText(m.tags), Open, "{"), Replace(AfterTags, Open, "{"),
                Replace(IntToString(m.categoryId), Open, "{"), Replace(AfterCategory, Open, "{"),
                Replace(m.privacyStatus, Open, "{"), Replace(AfterPrivacy, Open, "{"),
                Replace(BoolText(m.embeddable), Open, "{"), Replace(AfterEmbeddable, Open, "{"),
                Replace(m.license, Open, "{"), Replace(Tail, Open, "{"), Close, "}");
  }

  /** The JSON text ToJson returns: the template with braces and double
      quotes, each text value with its markers turned into braces and its
      single quotes into double quotes, the number and the flag as written. */
  lemma JsonShape(m: YouTubeMetadata)
    ensures Json(m)
         == Fill(JsonHead, Escape(CleanTitle(m.title)), JsonAfterTitle, Escape(CleanDescription(m.description)),
                 JsonAfterDescription, Escape(TagsText(m.tags)), JsonAfterTags, IntToString(m.categoryId),
                 JsonAfterCategory, Escape(m.privacyStatus), JsonAfterPrivacy, BoolText(m.embeddable),
                 JsonAfterEmbeddable, Escape(m.license), JsonTail)
  {
    BracedFormatted(m);
    ReplaceSingle(Braced(Formatted(m)), '\'', '"');
    FillReplaceChar(Braced(Head), Braced(CleanTitle(m.title)), Braced(AfterTitle),
                    Braced(CleanDescription(m.description)), Braced(AfterDescription), Braced(TagsText(m.tags)),
                    Braced(AfterTags), Braced(IntToString(m.categoryId)), Braced(AfterCategory),
                    Braced(m.privacyStatus), Braced(AfterPrivacy), Braced(BoolText(m.embeddable)),
                    Braced(AfterEmbeddable), Braced(m.license), Braced(Tail), '\'', '"');
    HeadEscaped();
    AfterTitlePlain();
    AfterDescriptionPlain();
    AfterTagsPlain();
    CategoryEscaped();
    AfterPrivacyPlain();
    AfterEmbeddablePlain();
    TailEscaped();
    NumberEscaped(m.categoryId);
    BoolEscaped(m.embeddable);
  }

  /** The text is one object: it opens with a brace and closes with one. */
  lemma JsonEnds(m: YouTubeMetadata)
    ensures var json := Json(m); |json| >= 2 && json[0] == '{' && json[|json| - 1] == '}'
  {
    JsonShape(m);
  }

  /** No single quote and no marker is left in the text. */
  lemma JsonClean(m: YouTubeMetadata)
    ensures '\'' !in Json(m) && !Contains(Json(m), Open) && !Contains(Json(m), Close)
  {
    PassesClean(Formatted(m));
  }

  /** Whatever the text, the three passes leave no single quote and no
      marker behind. */
  lemma PassesClean(f: string)
    ensures var j := Replace(Braced(f), "'", "\""); '\'' !in j && !Contains(j, Open) && !Contains(j, Close)
  {
    var a := Replace(f, Open, "{");
    ReplaceClears(f, Open, '{');
    var b := Replace(a, Close, "}");
    ReplaceClears(a, Close, '}');
    ReplaceKeepsClear(a, Close, '}', Open);
    ReplaceSingle(b, '\'', '"');
    ReplaceCharKeepsClear(b, '\'', '"', Open);
    ReplaceCharKeepsClear(b, '\'', '"', Close);
    ReplaceDropsChar(b, '\'', "\"");
  }

  // ---------------------------------------------------------------------------
  // ToJsonWithId
  // ---------------------------------------------------------------------------

  /** The members of the JSON object, without its outer braces. */
  function JsonBody(m: YouTubeMetadata): (body: string)
    ensures Json(m) == "{" + body + "}"
  {
    JsonEnds(m);
    Inside(Json(m))
  }

  /** Text between a first and a last character. */
  function Inside(s: string): (inner: string)
    requires |s| >= 2
    ensures s == [s[0]] + inner + [s[|s| - 1]]
  {
    s[1..|s| - 1]
  }

  /** YouTubeMetadata.ToJsonWithId: the same object with an "id" member
      first; the id's single quotes become double quotes. */
  method ToJsonWithId(m: YouTubeMetadata, id: string) returns (json: string)
    ensures json == "{\"id\": \"" + ReplaceChar(id, '\'', '"') + "\"," + JsonBody(m) + "}"
  {
    json := ToJson(m);
    JsonEnds(m);
    json := json[1..1 + (|json| - 2)];
    assert json == JsonBody(m);
    json := "{" + ("'id': '" + id + "',") + json + "}";
    JsonClean(m);
    WithIdQuotes(id, JsonBody(m));
    json := ReplaceChar(json, '\'', '"');
  }

  lemma WithIdQuotes(id: string, body: string)
    requires '\'' !in body
    ensures ReplaceChar("{" + ("'id': '" + id + "',") + body + "}", '\'', '"')
         == "{\"id\": \"" + ReplaceChar(id, '\'', '"') + "\"," + body + "}"
  {
    ReplaceCharAppend("{" + ("'id': '" + id + "',") + body, "}", '\'', '"');
    ReplaceCharAppend("{" + ("'id': '" + id + "',"), body, '\'', '"');
    ReplaceCharAppend("{", "'id': '" + id + "',", '\'', '"');
    ReplaceCharAppend("'id': '" + id, "',", '\'', '"');
    ReplaceCharAppend("'id': '", id, '\'', '"');
    assert ReplaceChar(body, '\'', '"') == body;
    assert ReplaceChar("'id': '", '\'', '"') == "\"id\": \"";
    assert ReplaceChar("',", '\'', '"') == "\",";
  }

  /** Text fields without a tilde, and a status and licence without single
      quotes, appear in the JSON text as cleaned. */
  lemma JsonPlainFields(m: YouTubeMetadata)
    requires '~' !in m.title && '~' !in m.description && '~' !in m.privacyStatus && '~' !in m.license
    requires '\'' !in m.privacyStatus && '\'' !in m.license
    ensures Json(m)
         == Fill(JsonHead, CleanTitle(m.title), JsonAfterTitle, CleanDescription(m.description),
                 JsonAfterDescription, Escape(TagsText(m.tags)), JsonAfterTags, IntToString(m.categoryId),
                 JsonAfterCategory, m.privacyStatus, JsonAfterPrivacy, BoolText(m.embeddable),
                 JsonAfterEmbeddable, m.license, JsonTail)
  {
    JsonShape(m);
    TitlePlain(m.title);
    DescriptionPlain(m.description);
    EscapeAbsent(m.privacyStatus);
    EscapeAbsent(m.license);
  }

  lemma TitlePlain(title: string)
    requires '~' !in title
    ensures Escape(CleanTitle(title)) == CleanTitle(title)
  {
    TitleCleaned(title);
    ReplaceChars(ReplaceChar(title, '\'', ' '), "\n", "\\n", '~');
    EscapeAbsent(CleanTitle(title));
  }

  lemma DescriptionPlain(description: string)
    requires '~' !in description
    ensures Escape(CleanDescription(description)) == CleanDescription(description)
  {
    EscapeAbsent(CleanDescription(description));
  }
}
