/**
 * The string helpers of `Core` (white-space test, percent-encoding) and the
 * .NET string operations the rest of the core is written with (Trim, Split,
 * Contains, IndexOf, Replace, number formatting and parsing).  Characters are
 * compared ordinally.  A Dafny `char` is a Unicode scalar value; the text is
 * read as characters below U+10000 other than surrogates, where a .NET `char`
 * (a UTF-16 code unit) is the same character.
 */
module Text {
  import opened Wrappers

  // ---------------------------------------------------------------------------
  // White space
  // ---------------------------------------------------------------------------

  /** char.IsWhiteSpace: the Unicode space separators, line and paragraph
      separators, and the controls U+0009..U+000D and U+0085. */
  predicate IsWhiteSpace(c: char)
  {
    || c == ' ' || '\t' <= c <= '\r' || c == '\U{85}' || c == '\U{A0}' || c == '\U{1680}'
    || '\U{2000}' <= c <= '\U{200A}' || c == '\U{2028}' || c == '\U{2029}'
    || c == '\U{202F}' || c == '\U{205F}' || c == '\U{3000}'
  }

  predicate AllWhiteSpace(s: string)
  {
    forall i :: 0 <= i < |s| ==> IsWhiteSpace(s[i])
  }

  /** Core.IsNullOrWhiteSpace: true for null and for strings made only of
      white space (the empty string included). */
  method IsNullOrWhiteSpace(value: Option<string>) returns (b: bool)
    ensures b <==> value.None? || AllWhiteSpace(value.value)
  {
    if value.Some? {
      var s := value.value;
      var i := 0;
      while i < |s|
        invariant 0 <= i <= |s|
        invariant forall k :: 0 <= k < i ==> IsWhiteSpace(s[k])
      {
        if !IsWhiteSpace(s[i]) {
          return false;
        }
        i := i + 1;
      }
    }
    return true;
  }

  /** string.TrimStart(): drops leading white space. */
  function TrimStart(s: string): (r: string)
    ensures |r| <= |s| && r == s[|s| - |r|..]
    ensures AllWhiteSpace(s[..|s| - |r|])
    ensures r == [] || !IsWhiteSpace(r[0])
  {
    if s != [] && IsWhiteSpace(s[0]) then TrimStart(s[1..]) else s
  }

  /** string.TrimEnd(): drops trailing white space. */
  function TrimEnd(s: string): (r: string)
    ensures |r| <= |s| && r == s[..|r|]
    ensures AllWhiteSpace(s[|r|..])
    ensures r == [] || !IsWhiteSpace(r[|r| - 1])
  {
    if s != [] && IsWhiteSpace(s[|s| - 1]) then
      var r := TrimEnd(s[..|s| - 1]);
      assert s[..|s| - 1][..|r|] == s[..|r|];
      assert AllWhiteSpace(s[|r|..]) by {
        forall i | 0 <= i < |s| - |r|
          ensures IsWhiteSpace(s[|r|..][i])
        {
          if i < |s| - 1 - |r| {
            assert s[|r|..][i] == s[..|s| - 1][|r|..][i];
          }
        }
      }
      r
    else s
  }

  /** string.Trim(): the result neither starts nor ends with white space, is
      empty exactly when the input is all white space, and leaves an already
      trimmed string alone. */
  function Trim(s: string): (r: string)
    ensures |r| <= |s|
    ensures r == [] || (!IsWhiteSpace(r[0]) && !IsWhiteSpace(r[|r| - 1]))
    ensures r == [] <==> AllWhiteSpace(s)
    ensures s == [] || (!IsWhiteSpace(s[0]) && !IsWhiteSpace(s[|s| - 1])) ==> r == s
  {
    var t := TrimStart(s);
    var r := TrimEnd(t);
    assert r == [] ==> s == s[..|s| - |t|] + t;
    r
  }

  /** Trim only removes characters: one absent before is absent after. */
  lemma TrimKeepsOut(s: string, c: char)
    requires c !in s
    ensures c !in Trim(s)
  {
    var t := TrimStart(s);
    SliceKeepsOut(s, |s| - |t|, |s|, c);
    SliceKeepsOut(t, 0, |TrimEnd(t)|, c);
  }

  lemma SliceKeepsOut(s: string, a: nat, b: nat, c: char)
    requires a <= b <= |s| && c !in s
    ensures c !in s[a..b]
  {
    forall k | 0 <= k < b - a
      ensures s[a..b][k] != c
    {
      assert s[a..b][k] == s[a + k];
    }
  }

  /** Trimming a trimmed string behind white space gives the string. */
  lemma {:induction false} TrimPadded(w: string, v: string)
    requires AllWhiteSpace(w)
    requires v == [] || (!IsWhiteSpace(v[0]) && !IsWhiteSpace(v[|v| - 1]))
    ensures Trim(w + v) == v
  {
    if w == [] {
      assert w + v == v;
    } else {
      assert (w + v)[1..] == w[1..] + v;
      TrimPadded(w[1..], v);
      assert TrimStart(w + v) == TrimStart(w[1..] + v);
    }
  }

  // ---------------------------------------------------------------------------
  // Searching
  // ---------------------------------------------------------------------------

  /** string.StartsWith (ordinal). */
  predicate StartsWith(s: string, p: string)
  {
    |p| <= |s| && s[..|p|] == p
  }

  /** string.Contains (ordinal): p occurs somewhere in s. */
  predicate Contains(s: string, p: string)
    decreases |s|
  {
    StartsWith(s, p) || (s != [] && Contains(s[1..], p))
  }

  /** string.IndexOf(char): the first position of c, or -1. */
  function IndexOf(s: string, c: char): (i: int)
    ensures -1 <= i < |s|
    ensures i == -1 <==> c !in s
    ensures 0 <= i ==> s[i] == c && c !in s[..i]
  {
    if s == [] then -1
    else if s[0] == c then 0
    else
      var j := IndexOf(s[1..], c);
      if j < 0 then -1
      else
        assert s[..j + 1] == [s[0]] + s[1..][..j];
        j + 1
  }

  /** string.LastIndexOf(char): the last position of c, or -1. */
  function LastIndexOf(s: string, c: char): (i: int)
    ensures -1 <= i < |s|
    ensures i == -1 <==> c !in s
    ensures 0 <= i ==> s[i] == c && c !in s[i + 1..]
  {
    if s == [] then -1
    else if s[|s| - 1] == c then |s| - 1
    else
      var j := LastIndexOf(s[..|s| - 1], c);
      assert s == s[..|s| - 1] + [s[|s| - 1]];
      j
  }

  /** Number of occurrences of c in s. */
  function Count(s: string, c: char): nat
  {
    if s == [] then 0 else (if s[0] == c then 1 else 0) + Count(s[1..], c)
  }

  // ---------------------------------------------------------------------------
  // Split and Join on one character
  // ---------------------------------------------------------------------------

  /** string.Split(char): every piece between separators, empty pieces kept. */
  function Split(s: string, c: char): (parts: seq<string>)
    ensures |parts| >= 1
    decreases |s|
  {
    var i := IndexOf(s, c);
    if i < 0 then [s] else [s[..i]] + Split(s[i + 1..], c)
  }

  /** No piece holds the separator. */
  lemma {:induction false} SplitPieces(s: string, c: char)
    ensures forall k :: 0 <= k < |Split(s, c)| ==> c !in Split(s, c)[k]
    decreases |s|
  {
    var i := IndexOf(s, c);
    if i >= 0 {
      SplitPieces(s[i + 1..], c);
    }
  }

  /** string.Join(sep, parts). */
  function Join(parts: seq<string>, sep: string): string
  {
    if |parts| == 0 then ""
    else if |parts| == 1 then parts[0]
    else parts[0] + sep + Join(parts[1..], sep)
  }

  /** Joining two non-empty lists puts one separator between them. */
  lemma {:induction false} JoinAppend(a: seq<string>, b: seq<string>, sep: string)
    requires a != [] && b != []
    ensures Join(a + b, sep) == Join(a, sep) + sep + Join(b, sep)
  {
    if |a| == 1 {
      assert (a + b)[1..] == b;
    } else {
      assert (a + b)[1..] == a[1..] + b;
      JoinAppend(a[1..], b, sep);
    }
  }

  /** Joining one more part. */
  lemma JoinSnoc(parts: seq<string>, sep: string)
    requires |parts| >= 2
    ensures Join(parts, sep) == Join(parts[..|parts| - 1], sep) + sep + parts[|parts| - 1]
  {
    var init := parts[..|parts| - 1];
    assert init + [parts[|parts| - 1]] == parts;
    JoinAppend(init, [parts[|parts| - 1]], sep);
  }

  lemma LastIndexOfSuffix(a: string, c: char, b: string)
    requires c !in b
    ensures LastIndexOf(a + [c] + b, c) == |a|
  {
    var s := a + [c] + b;
    var i := LastIndexOf(s, c);
    assert s[|a|] == c;
    assert s[|a| + 1..] == b;
  }

  /** A character that occurs is counted. */
  lemma {:induction false} CountPresent(s: string, c: char)
    requires c in s
    ensures Count(s, c) >= 1
  {
    if s[0] != c {
      assert c in s[1..] by {
        var k :| 0 <= k < |s| && s[k] == c;
        assert s[1..][k - 1] == c;
      }
      CountPresent(s[1..], c);
    }
  }

  /** A character in neither the parts nor the separator is not in their
      join. */
  lemma {:induction false} JoinExcludes(parts: seq<string>, sep: string, c: char)
    requires c !in sep && forall k :: 0 <= k < |parts| ==> c !in parts[k]
    ensures c !in Join(parts, sep)
  {
    if |parts| > 1 {
      JoinExcludes(parts[1..], sep, c);
    }
  }

  lemma {:induction false} IndexOfPrefix(a: string, c: char, b: string)
    requires c !in a
    ensures IndexOf(a + [c] + b, c) == |a|
  {
    if a != [] {
      assert (a + [c] + b)[1..] == a[1..] + [c] + b;
      IndexOfPrefix(a[1..], c, b);
    }
  }

  /** Splitting undoes joining, as long as no piece holds the separator. */
  lemma {:induction false} SplitJoin(parts: seq<string>, c: char)
    requires |parts| >= 1
    requires forall k :: 0 <= k < |parts| ==> c !in parts[k]
    ensures Split(Join(parts, [c]), c) == parts
  {
    if |parts| > 1 {
      var rest := Join(parts[1..], [c]);
      var s := parts[0] + [c] + rest;
      IndexOfPrefix(parts[0], c, rest);
      assert s[..|parts[0]|] == parts[0];
      assert s[|parts[0]| + 1..] == rest;
      SplitJoin(parts[1..], c);
    }
  }

  lemma SplitUnfold(s: string, c: char)
    requires IndexOf(s, c) >= 0
    ensures var i := IndexOf(s, c);
      Split(s, c) == [s[..i]] + Split(s[i + 1..], c) && s == s[..i] + [c] + s[i + 1..]
  {
  }

  lemma JoinCons(head: string, rest: seq<string>, sep: string)
    requires |rest| >= 1
    ensures Join([head] + rest, sep) == head + sep + Join(rest, sep)
  {
    assert ([head] + rest)[1..] == rest;
  }

  /** Joining undoes splitting. */
  lemma {:induction false} JoinSplit(s: string, c: char)
    ensures Join(Split(s, c), [c]) == s
    decreases |s|
  {
    var i := IndexOf(s, c);
    if i >= 0 {
      var tail := s[i + 1..];
      JoinSplit(tail, c);
      SplitUnfold(s, c);
      JoinCons(s[..i], Split(tail, c), [c]);
    }
  }

  lemma {:induction false} CountAppend(a: string, b: string, c: char)
    ensures Count(a + b, c) == Count(a, c) + Count(b, c)
  {
    if a != [] {
      assert (a + b)[0] == a[0];
      assert (a + b)[1..] == a[1..] + b;
      CountAppend(a[1..], b, c);
    } else {
      assert a + b == b;
    }
  }

  lemma {:induction false} CountAbsent(a: string, c: char)
    requires c !in a
    ensures Count(a, c) == 0
  {
    if a != [] {
      assert a[0] != c;
      assert c !in a[1..] by {
        forall k | 0 <= k < |a| - 1 ensures a[1..][k] != c {
          assert a[1..][k] == a[k + 1];
        }
      }
      CountAbsent(a[1..], c);
    }
  }

  /** Split(s, c) has one more piece than s has separators. */
  lemma {:induction false} SplitCount(s: string, c: char)
    ensures |Split(s, c)| == Count(s, c) + 1
    decreases |s|
  {
    var i := IndexOf(s, c);
    if i < 0 {
      CountAbsent(s, c);
    } else {
      SplitCount(s[i + 1..], c);
      assert s == s[..i] + ([c] + s[i + 1..]);
      CountAppend(s[..i], [c] + s[i + 1..], c);
      CountAbsent(s[..i], c);
      assert ([c] + s[i + 1..])[1..] == s[i + 1..];
    }
  }

  // ---------------------------------------------------------------------------
  // Replace
  // ---------------------------------------------------------------------------

  /** string.Replace(char, char). */
  function ReplaceChar(s: string, a: char, b: char): (r: string)
    ensures |r| == |s|
    ensures forall i :: 0 <= i < |s| ==> r[i] == if s[i] == a then b else s[i]
  {
    seq(|s|, i requires 0 <= i < |s| => if s[i] == a then b else s[i])
  }

  /** string.Replace(string, string) (ordinal): left-to-right, non-overlapping. */
  function Replace(s: string, p: string, r: string): string
    requires p != []
    decreases |s|
  {
    if |s| < |p| then s
    else if s[..|p|] == p then r + Replace(s[|p|..], p, r)
    else [s[0]] + Replace(s[1..], p, r)
  }

  /** Every character of the result comes from the input or from the
      replacement. */
  lemma {:induction false} ReplaceChars(s: string, p: string, r: string, c: char)
    requires p != [] && c !in s && c !in r
    ensures c !in Replace(s, p, r)
    decreases |s|
  {
    if |s| >= |p| {
      if s[..|p|] == p {
        ReplaceChars(s[|p|..], p, r, c);
      } else {
        ReplaceChars(s[1..], p, r, c);
      }
    }
  }

  /** Replacing a one-character pattern leaves none of that character, when
      the replacement holds none. */
  lemma {:induction false} ReplaceDropsChar(s: string, c: char, r: string)
    requires c !in r
    ensures c !in Replace(s, [c], r)
    decreases |s|
  {
    if s != [] {
      if s[..1] == [c] {
        ReplaceDropsChar(s[1..], c, r);
      } else {
        ReplaceDropsChar(s[1..], c, r);
      }
    }
  }

  /** A one-character pattern with a one-character replacement is
      string.Replace(char, char). */
  lemma {:induction false} ReplaceSingle(s: string, a: char, b: char)
    ensures Replace(s, [a], [b]) == ReplaceChar(s, a, b)
    decreases |s|
  {
    if s != [] {
      ReplaceSingle(s[1..], a, b);
      assert ReplaceChar(s, a, b) == [if s[0] == a then b else s[0]] + ReplaceChar(s[1..], a, b);
    }
  }

  /** string.Replace(char, char) leaves no a behind when b differs from it,
      changes nothing in text without a, and a second pass changes nothing
      more. */
  lemma ReplaceCharClears(s: string, a: char, b: char)
    ensures a != b ==> a !in ReplaceChar(s, a, b)
    ensures a !in s ==> ReplaceChar(s, a, b) == s
    ensures ReplaceChar(ReplaceChar(s, a, b), a, b) == ReplaceChar(s, a, b)
  {
    var r := ReplaceChar(s, a, b);
    if a != b {
      forall k | 0 <= k < |r|
        ensures r[k] != a
      {
      }
    }
  }

  /** Text without the pattern's first character comes back unchanged. */
  lemma {:induction false} ReplaceAbsent(s: string, p: string, r: string)
    requires p != [] && p[0] !in s
    ensures Replace(s, p, r) == s
    decreases |s|
  {
    if |s| >= |p| {
      assert p[0] !in s[1..];
      ReplaceAbsent(s[1..], p, r);
    }
  }

  /** No occurrence of p can start among the last |p| - 1 characters of a. */
  predicate TailFree(a: string, p: string)
    requires p != []
  {
    forall k :: 0 <= k < |a| && |a| - |p| < k ==> a[k] != p[0]
  }

  /** b starts with a character that cannot continue an occurrence of p. */
  predicate HeadSafe(b: string, p: string)
  {
    b != [] && forall j :: 1 <= j < |p| ==> p[j] != b[0]
  }

  /** Replace works on each side of a join that no occurrence of the
      pattern straddles. */
  lemma {:induction false} ReplaceSplit(a: string, b: string, p: string, r: string)
    requires p != [] && (TailFree(a, p) || HeadSafe(b, p))
    ensures Replace(a + b, p, r) == Replace(a, p, r) + Replace(b, p, r)
    decreases |a|
  {
    if a == [] {
      assert a + b == b;
    } else if |a + b| < |p| {
      assert Replace(a + b, p, r) == a + b;
    } else if |a| >= |p| && a[..|p|] == p {
      TailFreeDrop(a, p, |p|);
      ReplaceSplit(a[|p|..], b, p, r);
      JoinMatchStep(a, b, p, r);
    } else {
      TailFreeDrop(a, p, 1);
      ReplaceSplit(a[1..], b, p, r);
      if |a| < |p| {
        assert Replace(a[1..], p, r) == a[1..];
        JoinShortStep(a, b, p, r);
        assert Replace(a, p, r) == a;
      } else {
        JoinLongStep(a, b, p, r);
      }
    }
  }

  /** One step of ReplaceSplit where a starts with the pattern. */
  lemma JoinMatchStep(a: string, b: string, p: string, r: string)
    requires p != [] && |p| <= |a| && a[..|p|] == p
    requires Replace(a[|p|..] + b, p, r) == Replace(a[|p|..], p, r) + Replace(b, p, r)
    ensures Replace(a + b, p, r) == Replace(a, p, r) + Replace(b, p, r)
  {
    ReplaceAt(a, b, p, |p|);
    assert Replace(a + b, p, r) == r + Replace(a[|p|..] + b, p, r);
  }

  /** One step of ReplaceSplit where a is shorter than the pattern. */
  lemma JoinShortStep(a: string, b: string, p: string, r: string)
    requires p != [] && (TailFree(a, p) || HeadSafe(b, p))
    requires 0 < |a| < |p| <= |a + b|
    requires Replace(a[1..] + b, p, r) == a[1..] + Replace(b, p, r)
    ensures Replace(a + b, p, r) == a + Replace(b, p, r)
  {
    NoMatchAtJoin(a, b, p);
    ReplaceAt(a, b, p, 1);
    var ab := a + b;
    assert ab[0] == a[0];
    assert Replace(ab, p, r) == [a[0]] + Replace(a[1..] + b, p, r);
    assert a == [a[0]] + a[1..];
  }

  /** One step of ReplaceSplit where a is long enough but does not start
      with the pattern. */
  lemma JoinLongStep(a: string, b: string, p: string, r: string)
    requires p != [] && |p| <= |a| && a[..|p|] != p
    requires Replace(a[1..] + b, p, r) == Replace(a[1..], p, r) + Replace(b, p, r)
    ensures Replace(a + b, p, r) == Replace(a, p, r) + Replace(b, p, r)
  {
    ReplaceAt(a, b, p, 1);
    var ab := a + b;
    assert ab[..|p|] == a[..|p|] && ab[0] == a[0];
    assert Replace(ab, p, r) == [a[0]] + Replace(a[1..] + b, p, r);
    assert Replace(a, p, r) == [a[0]] + Replace(a[1..], p, r);
  }

  /** Dropping characters from the front keeps a string tail-free. */
  lemma TailFreeDrop(a: string, p: string, k: nat)
    requires p != [] && k <= |a|
    ensures TailFree(a, p) ==> TailFree(a[k..], p)
  {
    if TailFree(a, p) {
      forall j | 0 <= j < |a[k..]| && |a[k..]| - |p| < j
        ensures a[k..][j] != p[0]
      {
        assert a[k..][j] == a[k + j];
      }
    }
  }

  /** A short non-empty a followed by b cannot start with p when no
      occurrence of p straddles the join. */
  lemma NoMatchAtJoin(a: string, b: string, p: string)
    requires p != [] && (TailFree(a, p) || HeadSafe(b, p))
    requires 0 < |a| < |p| <= |a + b|
    ensures (a + b)[..|p|] != p
  {
    if TailFree(a, p) {
      assert (a + b)[..|p|][0] == a[0] != p[0];
    } else {
      assert (a + b)[..|p|][|a|] == b[0] != p[|a|];
    }
  }

  /** Dropping the first k characters of a + b, k inside a. */
  lemma ReplaceAt(a: string, b: string, p: string, k: nat)
    requires k <= |a| && |p| <= |a| + |b|
    ensures (a + b)[k..] == a[k..] + b
    ensures |p| <= |a| ==> (a + b)[..|p|] == a[..|p|]
  {
  }

  lemma TailFreeAppend(x: string, a: string, p: string)
    requires p != [] && TailFree(a, p) && |a| >= |p| - 1
    ensures TailFree(x + a, p)
  {
    forall k | 0 <= k < |x + a| && |x + a| - |p| < k
      ensures (x + a)[k] != p[0]
    {
      assert (x + a)[k] == a[k - |x|];
    }
  }

  /** ReplaceChar works on each side of a join. */
  lemma ReplaceCharAppend(a: string, b: string, x: char, y: char)
    ensures ReplaceChar(a + b, x, y) == ReplaceChar(a, x, y) + ReplaceChar(b, x, y)
  {
  }

  /** The text a replacement starts with, when it holds no character the
      replacement starts with, was there before the replacement. */
  lemma {:induction false} PrefixKept(t: string, w: string, p: string, r: string)
    requires p != [] && r != [] && (forall i :: 0 <= i < |w| ==> w[i] != r[0])
    requires StartsWith(Replace(t, p, r), w)
    ensures StartsWith(t, w)
    decreases |t|
  {
    if |t| >= |p| && w != [] {
      ReplaceHead(t, p, r);
      if t[..|p|] != p {
        var x := Replace(t[1..], p, r);
        assert Replace(t, p, r) == [t[0]] + x;
        assert x[..|w| - 1] == w[1..];
        PrefixKept(t[1..], w[1..], p, r);
        assert t[..|w|] == [t[0]] + t[1..][..|w| - 1];
      }
    }
  }

  /** The first character of a replacement: the replacement's own, or the
      text's. */
  lemma ReplaceHead(t: string, p: string, r: string)
    requires p != [] && r != [] && |t| >= |p|
    ensures Replace(t, p, r) != []
    ensures Replace(t, p, r)[0] == if t[..|p|] == p then r[0] else t[0]
  {
  }

  lemma {:induction false} ContainsShort(s: string, q: string)
    requires |s| < |q|
    ensures !Contains(s, q)
    decreases |s|
  {
    if s != [] {
      ContainsShort(s[1..], q);
    }
  }

  lemma {:induction false} ContainsSuffix(s: string, q: string, k: nat)
    requires k <= |s| && Contains(s[k..], q)
    ensures Contains(s, q)
    decreases k
  {
    if k > 0 {
      assert s[1..][k - 1..] == s[k..];
      ContainsSuffix(s[1..], q, k - 1);
    }
  }

  /** A one-character replacement that the pattern does not hold leaves no
      occurrence of the pattern behind. */
  lemma {:induction false} ReplaceClears(s: string, p: string, c: char)
    requires p != [] && c !in p
    ensures !Contains(Replace(s, p, [c]), p)
    decreases |s|
  {
    if |s| < |p| {
      ContainsShort(s, p);
    } else if s[..|p|] == p {
      var x := Replace(s[|p|..], p, [c]);
      ReplaceClears(s[|p|..], p, c);
      assert Replace(s, p, [c]) == [c] + x;
      assert ([c] + x)[1..] == x;
      assert !StartsWith([c] + x, p) by {
        assert p[0] != c;
      }
    } else {
      var x := Replace(s[1..], p, [c]);
      ReplaceClears(s[1..], p, c);
      assert ([s[0]] + x)[1..] == x;
      assert s[..|p|] == [s[0]] + s[1..][..|p| - 1];
      if StartsWith([s[0]] + x, p) {
        assert x[..|p| - 1] == p[1..];
        PrefixKept(s[1..], p[1..], p, [c]);
      }
    }
  }

  /** Nor does it create an occurrence of a text that does not hold it. */
  lemma {:induction false} ReplaceKeepsClear(s: string, p: string, c: char, q: string)
    requires p != [] && q != [] && c !in q && !Contains(s, q)
    ensures !Contains(Replace(s, p, [c]), q)
    decreases |s|
  {
    if |s| >= |p| {
      if s[..|p|] == p {
        var x := Replace(s[|p|..], p, [c]);
        if Contains(s[|p|..], q) {
          ContainsSuffix(s, q, |p|);
        }
        ReplaceKeepsClear(s[|p|..], p, c, q);
        assert ([c] + x)[1..] == x;
        assert !StartsWith([c] + x, q) by {
          assert q[0] != c;
        }
      } else {
        var x := Replace(s[1..], p, [c]);
        ReplaceKeepsClear(s[1..], p, c, q);
        assert ([s[0]] + x)[1..] == x;
        if StartsWith([s[0]] + x, q) {
          assert x[..|q| - 1] == q[1..];
          PrefixKept(s[1..], q[1..], p, [c]);
        }
      }
    }
  }

  /** Replacing a character by one the text q does not hold creates no
      occurrence of q. */
  lemma {:induction false} ReplaceCharKeepsClear(s: string, a: char, b: char, q: string)
    requires q != [] && b !in q && !Contains(s, q)
    ensures !Contains(ReplaceChar(s, a, b), q)
    decreases |s|
  {
    if s != [] {
      var t := ReplaceChar(s, a, b);
      ReplaceCharKeepsClear(s[1..], a, b, q);
      assert t[1..] == ReplaceChar(s[1..], a, b);
    }
  }

  // ---------------------------------------------------------------------------
  // Decimal numbers
  // ---------------------------------------------------------------------------

  predicate IsDigit(c: char)
  {
    '0' <= c <= '9'
  }

  predicate AllDigits(s: string)
  {
    forall i :: 0 <= i < |s| ==> IsDigit(s[i])
  }

  function DigitChar(d: nat): (c: char)
    requires d < 10
    ensures IsDigit(c)
  {
    ('0' as int + d) as char
  }

  /** The decimal digits of n, most significant first, no leading zeros. */
  function NatToString(n: nat): (s: string)
    ensures |s| >= 1 && AllDigits(s)
  {
    if n < 10 then [DigitChar(n)] else NatToString(n / 10) + [DigitChar(n % 10)]
  }

  /** long.ToString() / int.ToString() with the invariant culture. */
  function IntToString(i: int): string
  {
    if i < 0 then "-" + NatToString(-i) else NatToString(i)
  }

  /** The value of a string of decimal digits. */
  function DigitsValue(s: string): nat
    requires AllDigits(s)
  {
    if s == [] then 0 else DigitsValue(s[..|s| - 1]) * 10 + (s[|s| - 1] as int - '0' as int)
  }

  lemma {:induction false} DigitsValueOfNat(n: nat)
    ensures DigitsValue(NatToString(n)) == n
  {
    if n >= 10 {
      var s := NatToString(n);
      assert s[..|s| - 1] == NatToString(n / 10);
      DigitsValueOfNat(n / 10);
    }
  }

  const Int64Max: int := 0x7FFF_FFFF_FFFF_FFFF

  /** The white space that NumberStyles.Integer allows around a number. */
  predicate IsNumberWhite(c: char)
  {
    c == ' ' || '\t' <= c <= '\r'
  }

  function DropLeadingNumberWhite(s: string): (r: string)
    ensures |r| <= |s|
  {
    if s != [] && IsNumberWhite(s[0]) then DropLeadingNumberWhite(s[1..]) else s
  }

  function DropTrailingNumberWhite(s: string): (r: string)
    ensures |r| <= |s|
  {
    if s != [] && IsNumberWhite(s[|s| - 1]) then DropTrailingNumberWhite(s[..|s| - 1]) else s
  }

  /** long.Parse (NumberStyles.Integer, invariant culture): optional white
      space around an optionally signed run of decimal digits that fits in 64
      bits.  `None` is the exception long.Parse throws otherwise. */
  function ParseLong(s: string): (r: Option<int>)
    ensures r.Some? ==> -Int64Max - 1 <= r.value <= Int64Max
  {
    var t := DropTrailingNumberWhite(DropLeadingNumberWhite(s));
    if t == [] then None
    else
      var digits := if t[0] == '-' || t[0] == '+' then t[1..] else t;
      if digits == [] || !AllDigits(digits) then None
      else
        var v: int := if t[0] == '-' then -(DigitsValue(digits) as int) else DigitsValue(digits);
        if -Int64Max - 1 <= v <= Int64Max then Some(v) else None
  }

  /** long.Parse reads back what long.ToString wrote. */
  lemma ParseLongOfNat(n: nat)
    requires n <= Int64Max
    ensures ParseLong(NatToString(n)) == Some(n)
  {
    var s := NatToString(n);
    assert DropLeadingNumberWhite(s) == s;
    assert DropTrailingNumberWhite(s) == s;
    DigitsValueOfNat(n);
  }

  // ---------------------------------------------------------------------------
  // Percent-encoding (Core.PercentEncode)
  // ---------------------------------------------------------------------------

  /** The unreserved characters of section 2.3 of RFC 3986. */
  predicate Unreserved(c: char)
  {
    || 'a' <= c <= 'z' || 'A' <= c <= 'Z' || '0' <= c <= '9'
    || c == '-' || c == '_' || c == '.' || c == '~'
  }

  predicate IsUpperHex(c: char)
  {
    '0' <= c <= '9' || 'A' <= c <= 'F'
  }

  predicate AllUpperHex(s: string)
  {
    forall i :: 0 <= i < |s| ==> IsUpperHex(s[i])
  }

  /** An upper-case hexadecimal digit. */
  function HexChar(d: nat): (c: char)
    requires d < 16
    ensures IsUpperHex(c) && Unreserved(c) && HexValue(c) == d
  {
    if d < 10 then ('0' as int + d) as char else ('A' as int + d - 10) as char
  }

  /** The value of a hexadecimal digit, -1 for any other character. */
  function HexValue(c: char): int
  {
    if '0' <= c <= '9' then c as int - '0' as int
    else if 'A' <= c <= 'F' then c as int - 'A' as int + 10
    else if 'a' <= c <= 'f' then c as int - 'a' as int + 10
    else -1
  }

  /** Upper-case hexadecimal digits of n, no leading zeros. */
  function Hex(n: nat): (s: string)
    ensures |s| >= 1 && AllUpperHex(s)
    ensures |s| == 1 <==> n < 16
    ensures n < 256 ==> |s| <= 2
  {
    if n < 16 then [HexChar(n)] else Hex(n / 16) + [HexChar(n % 16)]
  }

  /** String.Format("{0:X2}", n): upper-case hexadecimal, at least two digits. */
  function HexX2(n: nat): (s: string)
    ensures |s| >= 2 && AllUpperHex(s)
    ensures n < 256 ==> |s| == 2
  {
    if n < 16 then ['0', HexChar(n)] else Hex(n)
  }

  /** The value of a string of hexadecimal digits. */
  function HexDigitsValue(s: string): nat
    requires AllUpperHex(s)
  {
    if s == [] then 0 else HexDigitsValue(s[..|s| - 1]) * 16 + HexValue(s[|s| - 1])
  }

  lemma {:induction false} HexRoundTrip(n: nat)
    ensures HexDigitsValue(Hex(n)) == n
  {
    if n >= 16 {
      var s := Hex(n);
      assert s[..|s| - 1] == Hex(n / 16);
      HexRoundTrip(n / 16);
    }
  }

  lemma HexX2RoundTrip(n: nat)
    ensures HexDigitsValue(HexX2(n)) == n
  {
    if n < 16 {
      var s := HexX2(n);
      assert s[..1] == "0";
      assert HexDigitsValue(s[..1]) == HexDigitsValue([]) * 16 + HexValue('0');
    } else {
      HexRoundTrip(n);
    }
  }

  /** How PercentEncode writes one character. */
  function EncodeChar(c: char): string
  {
    if Unreserved(c) then [c] else "%" + HexX2(c as int)
  }

  /** The text PercentEncode produces. */
  function Encoded(s: string): string
  {
    if s == [] then "" else EncodeChar(s[0]) + Encoded(s[1..])
  }

  lemma {:induction false} EncodedAppend(a: string, b: string)
    ensures Encoded(a + b) == Encoded(a) + Encoded(b)
  {
    if a != [] {
      assert (a + b)[0] == a[0];
      assert (a + b)[1..] == a[1..] + b;
      EncodedAppend(a[1..], b);
      calc {
        Encoded(a + b);
        EncodeChar(a[0]) + Encoded(a[1..] + b);
        EncodeChar(a[0]) + (Encoded(a[1..]) + Encoded(b));
        (EncodeChar(a[0]) + Encoded(a[1..])) + Encoded(b);
        Encoded(a) + Encoded(b);
      }
    } else {
      assert a + b == b;
    }
  }

  /** Core.PercentEncode: appends each character's encoding to a builder. */
  method PercentEncode(value: string) returns (r: string)
    ensures r == Encoded(value)
  {
    var result := "";
    var i := 0;
    while i < |value|
      invariant 0 <= i <= |value|
      invariant result == Encoded(value[..i])
    {
      EncodedStep(value, i);
      result := result + EncodeChar(value[i]);
      i := i + 1;
    }
    assert value[..i] == value;
    return result;
  }

  /** The encoding of one more character of the input. */
  lemma EncodedStep(value: string, i: nat)
    requires i < |value|
    ensures Encoded(value[..i + 1]) == Encoded(value[..i]) + EncodeChar(value[i])
  {
    EncodedAppend(value[..i], [value[i]]);
    assert value[..i + 1] == value[..i] + [value[i]];
  }

  /** One character: unreserved characters pass through; any other becomes
      '%' followed by at least two upper-case hexadecimal digits whose value
      is the character's code. */
  lemma EncodeCharShape(c: char)
    ensures Unreserved(c) ==> EncodeChar(c) == [c]
    ensures !Unreserved(c) ==> |EncodeChar(c)| >= 3 && EncodeChar(c)[0] == '%'
    ensures !Unreserved(c) ==> AllUpperHex(EncodeChar(c)[1..])
    ensures !Unreserved(c) ==> HexDigitsValue(EncodeChar(c)[1..]) == c as int
  {
    if !Unreserved(c) {
      assert EncodeChar(c)[1..] == HexX2(c as int);
      HexX2RoundTrip(c as int);
    }
  }

  /** The output uses only unreserved characters and '%', and is never
      shorter than the input. */
  lemma {:induction false} EncodedShape(s: string)
    ensures |Encoded(s)| >= |s|
    ensures forall i :: 0 <= i < |Encoded(s)| ==> Unreserved(Encoded(s)[i]) || Encoded(s)[i] == '%'
  {
    if s != [] {
      EncodedShape(s[1..]);
      var e := EncodeChar(s[0]);
      assert forall i :: 0 <= i < |e| ==> Unreserved(e[i]) || e[i] == '%' by {
        if !Unreserved(s[0]) {
          assert e == "%" + HexX2(s[0] as int);
        }
      }
    }
  }

  /** A string of unreserved characters comes back unchanged. */
  lemma {:induction false} EncodedUnreserved(s: string)
    requires forall i :: 0 <= i < |s| ==> Unreserved(s[i])
    ensures Encoded(s) == s
  {
    if s != [] {
      EncodedUnreserved(s[1..]);
    }
  }

  /** Percent-decoding, the inverse direction of section 2.1 of RFC 3986
      (each "%XY" gives the character with code XY). */
  function PercentDecode(s: string): Option<string>
  {
    if s == [] then Some([])
    else if s[0] == '%' then
      if |s| >= 3 && HexValue(s[1]) >= 0 && HexValue(s[2]) >= 0 then
        match PercentDecode(s[3..])
        case Some(rest) => Some([(HexValue(s[1]) * 16 + HexValue(s[2])) as char] + rest)
        case None => None
      else None
    else
      match PercentDecode(s[1..])
      case Some(rest) => Some([s[0]] + rest)
      case None => None
  }

  /** Decoding one encoded character below U+0100 in front of any text. */
  lemma PercentDecodeChar(c: char, t: string, u: string)
    requires c as int < 256
    requires PercentDecode(t) == Some(u)
    ensures PercentDecode(EncodeChar(c) + t) == Some([c] + u)
  {
    var e := EncodeChar(c) + t;
    if !Unreserved(c) {
      var h := HexX2(c as int);
      HexX2RoundTrip(c as int);
      assert HexDigitsValue(h[..1]) == HexDigitsValue([]) * 16 + HexValue(h[0]);
      assert e[0] == '%' && e[1] == h[0] && e[2] == h[1];
      assert e[3..] == t;
    } else {
      assert e[0] == c && e[1..] == t;
    }
  }

  /** For characters below U+0100 the encoding is decoded back exactly. */
  lemma {:induction false} PercentRoundTrip(s: string)
    requires forall i :: 0 <= i < |s| ==> s[i] as int < 256
    ensures PercentDecode(Encoded(s)) == Some(s)
  {
    if s != [] {
      PercentRoundTrip(s[1..]);
      PercentDecodeChar(s[0], Encoded(s[1..]), s[1..]);
      assert [s[0]] + s[1..] == s;
    }
  }

  /** Codes of three or more hex digits make the encoding ambiguous:
      U+0100 and the pair U+0010, '0' are both written "%100". */
  lemma EncodingNotInjective()
    ensures Encoded("\U{100}") == Encoded("\U{10}0") == "%100"
  {
    assert Hex(0x100) == Hex(0x10) + ['0'];
    assert Hex(0x10) == Hex(1) + ['0'];
  }
}
