/**
 * The dictionary helpers of `Core`: form-encoding a payload dictionary
 * (KeyValueToString, FlattenDictionary), expanding dotted keys into nested
 * dictionaries (ExpandDictionary) and reading the query of a URL
 * (QueryParametersFromUrl).
 *
 * A .NET Dictionary is an insertion-ordered list of entries with distinct
 * keys: assigning an existing key overwrites its value in place, assigning
 * a new key appends it.
 */
module Forms {
  import opened Wrappers
  import opened Text

  /** The values a payload dictionary holds: a string, a nested
      Dictionary<string, object> (Dict), a nested Dictionary<string, string>
      (StrDict, whose values the program can only fill with Str or Null),
      null, or any other object. */
  datatype Value =
    | Str(s: string)
    | Dict(entries: seq<(string, Value)>)
    | StrDict(entries: seq<(string, Value)>)
    | Null
    | Other

  /** Either kind of dictionary: form encoding walks both alike. */
  predicate IsDict(v: Value)
  {
    v.Dict? || v.StrDict?
  }

  /** The exceptions these helpers let escape. */
  datatype FormError = IndexOutOfRange | NullReference

  // ---------------------------------------------------------------------------
  // Dictionaries as ordered entry lists
  // ---------------------------------------------------------------------------

  /** The position of key k, or -1. */
  function Find<V>(es: seq<(string, V)>, k: string): (i: int)
    ensures -1 <= i < |es|
    ensures 0 <= i ==> es[i].0 == k
    ensures i < 0 ==> forall j :: 0 <= j < |es| ==> es[j].0 != k
  {
    if es == [] then -1
    else if es[|es| - 1].0 == k then |es| - 1
    else Find(es[..|es| - 1], k)
  }

  /** dictionary[k] = v. */
  function Assign<V>(es: seq<(string, V)>, k: string, v: V): seq<(string, V)>
  {
    var i := Find(es, k);
    if 0 <= i then es[i := (k, v)] else es + [(k, v)]
  }

  predicate DistinctKeys<V>(es: seq<(string, V)>)
  {
    forall i, j :: 0 <= i < j < |es| ==> es[i].0 != es[j].0
  }

  /** Assignment keeps keys distinct, stores v under k and leaves every
      other key's value where it was. */
  lemma AssignSpec<V>(es: seq<(string, V)>, k: string, v: V)
    requires DistinctKeys(es)
    ensures DistinctKeys(Assign(es, k, v))
    ensures var r := Assign(es, k, v); var i := Find(r, k); 0 <= i && r[i].1 == v
    ensures forall j :: 0 <= j < |es| && es[j].0 != k ==> Assign(es, k, v)[j] == es[j]
  {
    var i := Find(es, k);
    var r := Assign(es, k, v);
    if i < 0 {
      assert r[|es|] == (k, v);
    } else {
      assert r[i] == (k, v);
    }
  }

  // ---------------------------------------------------------------------------
  // Form encoding: the reference definition
  // ---------------------------------------------------------------------------

  /** A value can be form-encoded: a string, or a non-empty dictionary of
      such values. */
  predicate WellFormed(v: Value)
    decreases v, Rank(v)
  {
    match v
    case Str(_) => true
    case Dict(es) => es != [] && FirstWellFormed(v, |es|)
    case StrDict(es) => es != [] && FirstWellFormed(v, |es|)
    case _ => false
  }

  /** The first n entries of dictionary d are well formed. */
  predicate FirstWellFormed(d: Value, n: nat)
    requires IsDict(d) && n <= |d.entries|
    decreases d, n
  {
    n == 0 || (FirstWellFormed(d, n - 1) && WellFormed(d.entries[n - 1].1))
  }

  /** Lets the functions over a dictionary's first n entries recurse on the
      dictionary itself. */
  function Rank(v: Value): nat
  {
    if IsDict(v) then |v.entries| + 1 else 0
  }

  /** The string leaves of a value in enumeration order, each with its
      dotted key path. */
  function Leaves(key: string, v: Value): seq<(string, string)>
    decreases v, Rank(v)
  {
    match v
    case Str(s) => [(key, s)]
    case Dict(es) => LeavesOf(key + ".", v, |es|)
    case StrDict(es) => LeavesOf(key + ".", v, |es|)
    case _ => []
  }

  /** The leaves of the first n entries of dictionary d. */
  function LeavesOf(prefix: string, d: Value, n: nat): seq<(string, string)>
    requires IsDict(d) && n <= |d.entries|
    decreases d, n
  {
    if n == 0 then []
    else LeavesOf(prefix, d, n - 1) + Leaves(prefix + d.entries[n - 1].0, d.entries[n - 1].1)
  }

  /** One "key=value" field, both sides percent-encoded. */
  function Field(k: string, s: string): string
  {
    Encoded(k) + "=" + Encoded(s)
  }

  function Fields(ls: seq<(string, string)>): (fs: seq<string>)
    ensures |fs| == |ls|
    ensures forall i :: 0 <= i < |ls| ==> fs[i] == Field(ls[i].0, ls[i].1)
  {
    seq(|ls|, i requires 0 <= i < |ls| => Field(ls[i].0, ls[i].1))
  }

  // ---------------------------------------------------------------------------
  // Form encoding as the source computes it
  // ---------------------------------------------------------------------------

  /** Drops the trailing '&' the loops leave; an empty body is indexed at -1
      and throws. */
  function Finish(body: string): Result<string, FormError>
  {
    if |body| == 0 then Failure(IndexOutOfRange)
    else if body[|body| - 1] == '&' then Success(body[..|body| - 1])
    else Success(body)
  }

  /** Core.FlattenDictionary(key, value). */
  function Flatten(key: string, v: Value): Result<string, FormError>
    decreases v, Rank(v)
  {
    match v
    case Str(s) => Success(Field(key, s))
    case Null => Failure(NullReference)
    case Other => Finish("")
    case Dict(es) =>
      (match Body(key + ".", v, |es|)
       case Failure(e) => Failure(e)
       case Success(b) => Finish(b))
    case StrDict(es) =>
      match Body(key + ".", v, |es|)
      case Failure(e) => Failure(e)
      case Success(b) => Finish(b)
  }

  /** What the loop over dictionary d accumulates after its first n
      entries: each entry flattened under prefix + its key, followed by
      '&'. */
  function Body(prefix: string, d: Value, n: nat): Result<string, FormError>
    requires IsDict(d) && n <= |d.entries|
    decreases d, n
  {
    if n == 0 then Success("")
    else
      match Body(prefix, d, n - 1)
      case Failure(e) => Failure(e)
      case Success(b) =>
        match Flatten(prefix + d.entries[n - 1].0, d.entries[n - 1].1)
        case Failure(e) => Failure(e)
        case Success(p) => Success(b + p + "&")
  }

  /** Core.KeyValueToString(payload). */
  function FormBody(payload: seq<(string, Value)>): Result<string, FormError>
  {
    match Body("", Dict(payload), |payload|)
    case Failure(e) => Failure(e)
    case Success(b) => Finish(b)
  }

  /** A failure after n entries is the failure of the whole loop. */
  lemma {:induction false} BodyFails(prefix: string, d: Value, n: nat)
    requires IsDict(d) && n <= |d.entries| && Body(prefix, d, n).Failure?
    ensures Body(prefix, d, |d.entries|) == Body(prefix, d, n)
    decreases |d.entries| - n
  {
    if n < |d.entries| {
      assert Body(prefix, d, n + 1) == Body(prefix, d, n);
      BodyFails(prefix, d, n + 1);
    }
  }

  /** Core.FlattenDictionary: a string gives one field; a dictionary gives
      its entries flattened under "key." and joined by '&'. */
  method FlattenDictionary(key: string, value: Value) returns (r: Result<string, FormError>)
    ensures r == Flatten(key, value)
    decreases value
  {
    if value.Null? {
      return Failure(NullReference);
    }
    if value.Str? {
      var k := PercentEncode(key);
      var s := PercentEncode(value.s);
      return Success(k + "=" + s);
    }
    var body := "";
    // The loops over a Dictionary<string, object> and over a
    // Dictionary<string, string> are the same loop.
    if IsDict(value) {
      var es := value.entries;
      var i := 0;
      while i < |es|
        invariant 0 <= i <= |es|
        invariant Body(key + ".", value, i) == Success(body)
      {
        var p := FlattenDictionary(key + "." + es[i].0, es[i].1);
        if p.Failure? {
          BodyFails(key + ".", value, i + 1);
          return Failure(p.error);
        }
        body := body + p.value + "&";
        i := i + 1;
      }
    }
    if |body| == 0 {
      return Failure(IndexOutOfRange);
    }
    if body[|body| - 1] == '&' {
      body := body[..|body| - 1];
    }
    return Success(body);
  }

  /** Core.KeyValueToString: every entry flattened under its own key,
      joined by '&'. */
  method KeyValueToString(payload: seq<(string, Value)>) returns (r: Result<string, FormError>)
    ensures r == FormBody(payload)
  {
    var body := "";
    var i := 0;
    while i < |payload|
      invariant 0 <= i <= |payload|
      invariant Body("", Dict(payload), i) == Success(body)
    {
      assert "" + payload[i].0 == payload[i].0;
      var p := FlattenDictionary(payload[i].0, payload[i].1);
      if p.Failure? {
        BodyFails("", Dict(payload), i + 1);
        return Failure(p.error);
      }
      body := body + p.value + "&";
      i := i + 1;
    }
    if |body| == 0 {
      return Failure(IndexOutOfRange);
    }
    if body[|body| - 1] == '&' {
      body := body[..|body| - 1];
    }
    return Success(body);
  }
  // ---------------------------------------------------------------------------
  // What the form body means
  // ---------------------------------------------------------------------------

  lemma FieldsAppend(a: seq<(string, string)>, b: seq<(string, string)>)
    ensures Fields(a + b) == Fields(a) + Fields(b)
  {
  }

  /** Flattening succeeds exactly on well-formed values, and then gives the
      fields of the value's leaves joined by '&'. */
  lemma {:induction false} FlattenLeaves(key: string, v: Value)
    ensures Flatten(key, v).Success? <==> WellFormed(v)
    ensures WellFormed(v) ==>
      Leaves(key, v) != [] && Flatten(key, v).value == Join(Fields(Leaves(key, v)), "&")
    decreases v, Rank(v)
  {
    if IsDict(v) {
      BodyLeaves(key + ".", v, |v.entries|);
      if WellFormed(v) {
        var b := Body(key + ".", v, |v.entries|).value;
        assert b[..|b| - 1] == Join(Fields(Leaves(key, v)), "&");
      }
    }
  }

  /** The loop over the first n entries succeeds exactly when those entries
      are well formed, and then holds their fields, each followed by '&'. */
  lemma {:induction false} BodyLeaves(prefix: string, d: Value, n: nat)
    requires IsDict(d) && n <= |d.entries|
    ensures Body(prefix, d, n).Success? <==> FirstWellFormed(d, n)
    ensures FirstWellFormed(d, n) && n > 0 ==>
      LeavesOf(prefix, d, n) != [] &&
      Body(prefix, d, n).value == Join(Fields(LeavesOf(prefix, d, n)), "&") + "&"
    decreases d, n
  {
    if n > 0 {
      var k := prefix + d.entries[n - 1].0;
      var v := d.entries[n - 1].1;
      BodyLeaves(prefix, d, n - 1);
      FlattenLeaves(k, v);
      if FirstWellFormed(d, n) {
        BodyStep(prefix, d, n, Body(prefix, d, n - 1).value, Flatten(k, v).value);
      }
    }
  }

  /** One iteration of the loop, once the entries before it and the entry
      itself are known to flatten. */
  lemma BodyStep(prefix: string, d: Value, n: nat, b: string, p: string)
    requires IsDict(d) && 0 < n <= |d.entries|
    requires n - 1 > 0 ==>
      (LeavesOf(prefix, d, n - 1) != [] && b == Join(Fields(LeavesOf(prefix, d, n - 1)), "&") + "&")
    requires n - 1 == 0 ==> b == ""
    requires Body(prefix, d, n - 1) == Success(b)
    requires var k := prefix + d.entries[n - 1].0; var v := d.entries[n - 1].1;
      Flatten(k, v) == Success(p) && Leaves(k, v) != [] && p == Join(Fields(Leaves(k, v)), "&")
    ensures LeavesOf(prefix, d, n) != []
    ensures Body(prefix, d, n) == Success(Join(Fields(LeavesOf(prefix, d, n)), "&") + "&")
  {
    var l1 := LeavesOf(prefix, d, n - 1);
    var l2 := Leaves(prefix + d.entries[n - 1].0, d.entries[n - 1].1);
    assert LeavesOf(prefix, d, n) == l1 + l2;
    assert Body(prefix, d, n) == Success(b + p + "&");
    JoinFieldsAppend(l1, l2, b, p);
  }

  /** The '&'-terminated fields of l1 followed by the joined fields of l2
      are the joined fields of l1 + l2. */
  lemma JoinFieldsAppend(l1: seq<(string, string)>, l2: seq<(string, string)>, b: string, p: string)
    requires l2 != [] && p == Join(Fields(l2), "&")
    requires l1 == [] ==> b == ""
    requires l1 != [] ==> b == Join(Fields(l1), "&") + "&"
    ensures b + p == Join(Fields(l1 + l2), "&")
  {
    FieldsAppend(l1, l2);
    if l1 == [] {
      assert l1 + l2 == l2;
    } else {
      JoinAppend(Fields(l1), Fields(l2), "&");
    }
  }

  /** KeyValueToString succeeds exactly on a non-empty payload of
      well-formed values, and then gives the fields of all its leaves joined
      by '&'. */
  lemma FormBodyLeaves(payload: seq<(string, Value)>)
    ensures FormBody(payload).Success? <==> WellFormed(Dict(payload))
    ensures WellFormed(Dict(payload)) ==>
      FormBody(payload).value == Join(Fields(LeavesOf("", Dict(payload), |payload|)), "&")
  {
    var d := Dict(payload);
    BodyLeaves("", d, |payload|);
    if WellFormed(d) {
      var b := Body("", d, |payload|).value;
      assert b[..|b| - 1] == Join(Fields(LeavesOf("", d, |payload|)), "&");
    }
  }

  /** Percent-encoded text never holds a reserved character other than '%'. */
  lemma EncodedExcludes(s: string, c: char)
    requires !Unreserved(c) && c != '%'
    ensures c !in Encoded(s)
  {
    EncodedShape(s);
  }

  /** Splitting the body at '&' gives back one field per leaf. */
  lemma FormFields(payload: seq<(string, Value)>)
    requires WellFormed(Dict(payload))
    ensures FormBody(payload).Success?
    ensures Split(FormBody(payload).value, '&') == Fields(LeavesOf("", Dict(payload), |payload|))
  {
    var ls := LeavesOf("", Dict(payload), |payload|);
    FormBodyLeaves(payload);
    BodyLeaves("", Dict(payload), |payload|);
    var fs := Fields(ls);
    forall i | 0 <= i < |fs| ensures '&' !in fs[i] {
      EncodedExcludes(ls[i].0, '&');
      EncodedExcludes(ls[i].1, '&');
    }
    SplitJoin(fs, '&');
  }

  /** Every character is below U+0100, where percent-encoding is
      invertible. */
  predicate Narrow(s: string)
  {
    forall j :: 0 <= j < |s| ==> s[j] as int < 256
  }

  predicate NarrowLeaves(ls: seq<(string, string)>)
  {
    forall i :: 0 <= i < |ls| ==> Narrow(ls[i].0) && Narrow(ls[i].1)
  }

  /** Reads a form body back: fields separated by '&', each field a key and
      a value separated by '=', both percent-decoded. */
  function ParseForm(body: string): Option<seq<(string, string)>>
  {
    DecodeFields(Split(body, '&'))
  }

  function DecodeFields(fs: seq<string>): Option<seq<(string, string)>>
  {
    if fs == [] then Some([])
    else
      var kv := Split(fs[0], '=');
      if |kv| != 2 then None
      else
        match (PercentDecode(kv[0]), PercentDecode(kv[1]), DecodeFields(fs[1..]))
        case (Some(k), Some(v), Some(rest)) => Some([(k, v)] + rest)
        case _ => None
  }

  lemma FieldRoundTrip(k: string, s: string)
    requires Narrow(k) && Narrow(s)
    ensures Split(Field(k, s), '=') == [Encoded(k), Encoded(s)]
    ensures PercentDecode(Encoded(k)) == Some(k) && PercentDecode(Encoded(s)) == Some(s)
  {
    var parts := [Encoded(k), Encoded(s)];
    EncodedExcludes(k, '=');
    EncodedExcludes(s, '=');
    assert Join(parts, "=") == Field(k, s);
    SplitJoin(parts, '=');
    PercentRoundTrip(k);
    PercentRoundTrip(s);
  }

  lemma {:induction false} DecodeFieldsRoundTrip(ls: seq<(string, string)>)
    requires NarrowLeaves(ls)
    ensures DecodeFields(Fields(ls)) == Some(ls)
  {
    if ls != [] {
      FieldRoundTrip(ls[0].0, ls[0].1);
      assert Fields(ls)[1..] == Fields(ls[1..]);
      DecodeFieldsRoundTrip(ls[1..]);
      assert [ls[0]] + ls[1..] == ls;
    }
  }

  /** Decoding the form body of a payload whose text is below U+0100 gives
      back every leaf, with its dotted key path and its value, in order. */
  lemma FormRoundTrip(payload: seq<(string, Value)>)
    requires WellFormed(Dict(payload))
    requires NarrowLeaves(LeavesOf("", Dict(payload), |payload|))
    ensures FormBody(payload).Success?
    ensures ParseForm(FormBody(payload).value) == Some(LeavesOf("", Dict(payload), |payload|))
  {
    FormFields(payload);
    DecodeFieldsRoundTrip(LeavesOf("", Dict(payload), |payload|));
  }
  // ---------------------------------------------------------------------------
  // Dotted keys to nested dictionaries (Core.ExpandDictionary)
  // ---------------------------------------------------------------------------

  /** No key contains a dot (the loop's `expanded` flag stays true). */
  predicate Undotted(ps: seq<(string, Value)>)
  {
    forall i :: 0 <= i < |ps| ==> '.' !in ps[i].0
  }

  /** The largest number of dots in a key. */
  function MaxDots(ps: seq<(string, Value)>): (m: nat)
    ensures forall i :: 0 <= i < |ps| ==> Count(ps[i].0, '.') <= m
    ensures m == 0 || exists i :: 0 <= i < |ps| && Count(ps[i].0, '.') == m
  {
    if ps == [] then 0
    else
      var m := MaxDots(ps[..|ps| - 1]);
      var c := Count(ps[|ps| - 1].0, '.');
      if c <= m then m else c
  }

  /** One entry placed by the loop: a key without a dot is assigned as it
      is; a dotted key is cut at its last dot and the value stored under the
      last segment in the dictionary held by the rest, which is created when
      missing.  When the rest already holds something that is not a
      dictionary, the cast yields null and the store throws. */
  function Place(o: seq<(string, Value)>, key: string, v: Value): Result<seq<(string, Value)>, FormError>
  {
    var d := LastIndexOf(key, '.');
    if d < 0 then Success(Assign(o, key, v))
    else
      var pre := key[..d];
      var post := key[d + 1..];
      var i := Find(o, pre);
      if i < 0 then Success(o + [(pre, Dict([(post, v)]))])
      else
        match o[i].1
        case Dict(es) => Success(o[i := (pre, Dict(Assign(es, post, v)))])
        case _ => Failure(NullReference)
  }

  /** The dictionary one pass of the loop builds from the first entries. */
  function ExpandPass(ps: seq<(string, Value)>): Result<seq<(string, Value)>, FormError>
  {
    if ps == [] then Success([])
    else
      match ExpandPass(ps[..|ps| - 1])
      case Failure(e) => Failure(e)
      case Success(o) => Place(o, ps[|ps| - 1].0, ps[|ps| - 1].1)
  }

  lemma {:induction false} PassFails(ps: seq<(string, Value)>, n: nat)
    requires n <= |ps| && ExpandPass(ps[..n]).Failure?
    ensures ExpandPass(ps) == ExpandPass(ps[..n])
    decreases |ps| - n
  {
    if n < |ps| {
      assert ps[..n + 1][..n] == ps[..n];
      PassFails(ps, n + 1);
    } else {
      assert ps[..n] == ps;
    }
  }

  /** A dotted key loses exactly one dot when cut at its last dot. */
  lemma CutKey(key: string)
    requires '.' in key
    ensures var d := LastIndexOf(key, '.');
      Count(key[..d], '.') + 1 == Count(key, '.')
  {
    var d := LastIndexOf(key, '.');
    assert key == key[..d] + ([key[d]] + key[d + 1..]);
    CountAppend(key[..d], [key[d]] + key[d + 1..], '.');
    assert ([key[d]] + key[d + 1..])[1..] == key[d + 1..];
    CountAbsent(key[d + 1..], '.');
  }

  /** After a pass, every key has at most b dots when every input key had
      at most b + 1: undotted keys stay, dotted keys lose their last
      segment. */
  lemma {:induction false} PassKeyBound(ps: seq<(string, Value)>, b: nat)
    requires forall i :: 0 <= i < |ps| ==> Count(ps[i].0, '.') <= b + 1
    requires ExpandPass(ps).Success?
    ensures forall j :: 0 <= j < |ExpandPass(ps).value| ==> Count(ExpandPass(ps).value[j].0, '.') <= b
  {
    if ps != [] {
      var init := ps[..|ps| - 1];
      assert forall i :: 0 <= i < |init| ==> init[i] == ps[i];
      PassKeyBound(init, b);
      var key := ps[|ps| - 1].0;
      if '.' in key {
        CutKey(key);
      } else {
        CountAbsent(key, '.');
      }
    }
  }

  /** A pass over keys without dots succeeds and keeps them dot-free. */
  lemma {:induction false} PassUndotted(ps: seq<(string, Value)>)
    requires Undotted(ps)
    ensures ExpandPass(ps).Success? && Undotted(ExpandPass(ps).value)
  {
    if ps != [] {
      var init := ps[..|ps| - 1];
      assert forall i :: 0 <= i < |init| ==> init[i] == ps[i];
      PassUndotted(init);
    }
  }

  /** A pass that met a dot lowers the largest dot count. */
  lemma PassLowersDots(ps: seq<(string, Value)>)
    requires !Undotted(ps) && ExpandPass(ps).Success?
    ensures MaxDots(ExpandPass(ps).value) < MaxDots(ps)
  {
    var i :| 0 <= i < |ps| && '.' in ps[i].0;
    CountPresent(ps[i].0, '.');
    var m := MaxDots(ps);
    PassKeyBound(ps, m - 1);
  }

  /** Core.ExpandDictionary(parameters): passes until no key has a dot. */
  function Expand(ps: seq<(string, Value)>): (r: Result<seq<(string, Value)>, FormError>)
    ensures r.Success? ==> Undotted(r.value)
    decreases MaxDots(ps)
  {
    match ExpandPass(ps)
    case Failure(e) => Failure(e)
    case Success(o) =>
      if Undotted(ps) then
        PassUndotted(ps);
        Success(o)
      else
        PassLowersDots(ps);
        Expand(o)
  }

  /** The pass over one more entry places that entry. */
  lemma PassStep(ps: seq<(string, Value)>, i: nat, o: seq<(string, Value)>)
    requires i < |ps| && ExpandPass(ps[..i]) == Success(o)
    ensures ExpandPass(ps[..i + 1]) == Place(o, ps[i].0, ps[i].1)
    ensures Undotted(ps[..i + 1]) <==> Undotted(ps[..i]) && '.' !in ps[i].0
  {
    assert ps[..i + 1][..i] == ps[..i];
    assert ps[..i + 1][i] == ps[i];
  }

  /** How Place handles a dotted key, case by case. */
  lemma PlaceDotted(o: seq<(string, Value)>, key: string, v: Value)
    requires '.' in key
    ensures var d := LastIndexOf(key, '.'); var pre := key[..d]; var post := key[d + 1..];
      var j := Find(o, pre);
      && (j < 0 ==> Place(o, key, v) == Success(o + [(pre, Dict([(post, v)]))]))
      && (0 <= j && o[j].1.Dict? ==>
            Place(o, key, v) == Success(o[j := (pre, Dict(Assign(o[j].1.entries, post, v)))]))
      && (0 <= j && !o[j].1.Dict? ==> Place(o, key, v) == Failure(NullReference))
  {
  }

  /** Expand after its first pass. */
  lemma ExpandUnfold(ps: seq<(string, Value)>, o: seq<(string, Value)>)
    requires ExpandPass(ps) == Success(o)
    ensures Undotted(ps) ==> Expand(ps) == Success(o)
    ensures !Undotted(ps) ==> MaxDots(o) < MaxDots(ps) && Expand(ps) == Expand(o)
  {
    if !Undotted(ps) {
      PassLowersDots(ps);
    }
  }

  /** Creating the missing dictionary and then storing into it. */
  lemma CreateThenStore(o: seq<(string, Value)>, pre: string, post: string, v: Value)
    ensures (o + [(pre, Dict([]))])[|o| := (pre, Dict(Assign([], post, v)))] == o + [(pre, Dict([(post, v)]))]
  {
    assert Assign([], post, v) == [(post, v)];
  }

  /** The body of ExpandDictionary's loop for one entry: a dotted key is
      split at its last dot and the value stored under the part after it,
      in the dictionary held (or created) under the part before it; an
      undotted key is assigned directly.  A non-dictionary under the part
      before the dot is cast to a dictionary and throws. */
  method PlaceEntry(o: seq<(string, Value)>, key: string, value: Value) returns (r: Result<seq<(string, Value)>, FormError>)
    ensures r == Place(o, key, value)
  {
    if '.' in key {
      PlaceDotted(o, key, value);
      var dotIndex := LastIndexOf(key, '.');
      var pre := key[..dotIndex];
      var post := key[dotIndex + 1..];
      var o' := o;
      var j := Find(o', pre);
      if j < 0 {
        CreateThenStore(o', pre, post, value);
        o' := o' + [(pre, Dict([]))];
        j := |o'| - 1;
      }
      if !o'[j].1.Dict? {
        return Failure(NullReference);
      }
      return Success(o'[j := (pre, Dict(Assign(o'[j].1.entries, post, value)))]);
    }
    return Success(Assign(o, key, value));
  }

  /** Core.ExpandDictionary: one pass of the loop into a fresh dictionary,
      then another call on the result unless no key had a dot. */
  method ExpandDictionary(parameters: seq<(string, Value)>) returns (r: Result<seq<(string, Value)>, FormError>)
    ensures r == Expand(parameters)
    decreases MaxDots(parameters)
  {
    var pass, expanded := ExpandOnce(parameters);
    if pass.Failure? {
      return Failure(pass.error);
    }
    var o := pass.value;
    ExpandUnfold(parameters, o);
    if expanded {
      return Success(o);
    }
    r := ExpandDictionary(o);
  }

  /** The state of ExpandDictionary's loop after the first i entries: the
      dictionary built so far and whether every key so far was dot-free. */
  ghost predicate Passed(ps: seq<(string, Value)>, i: nat, o: seq<(string, Value)>, expanded: bool)
  {
    i <= |ps| && ExpandPass(ps[..i]) == Success(o) && (expanded <==> Undotted(ps[..i]))
  }

  /** The loop state after placing entry i: the next state, or the pass's
      failure. */
  lemma PassAdvance(ps: seq<(string, Value)>, i: nat, o: seq<(string, Value)>, expanded: bool,
                    placed: Result<seq<(string, Value)>, FormError>)
    requires Passed(ps, i, o, expanded) && i < |ps|
    requires placed == Place(o, ps[i].0, ps[i].1)
    ensures placed.Success? ==> Passed(ps, i + 1, placed.value, expanded && '.' !in ps[i].0)
    ensures placed.Failure? ==> ExpandPass(ps) == placed
  {
    PassStep(ps, i, o);
    if placed.Failure? {
      PassFails(ps, i + 1);
    }
  }

  /** The loop state after the last entry is the whole pass. */
  lemma PassDone(ps: seq<(string, Value)>, o: seq<(string, Value)>, expanded: bool)
    requires Passed(ps, |ps|, o, expanded)
    ensures ExpandPass(ps) == Success(o) && (expanded <==> Undotted(ps))
  {
    WholePrefix(ps);
  }

  /** The loop of Core.ExpandDictionary: every entry placed in turn into a
      fresh dictionary, noting whether any key had a dot. */
  method ExpandOnce(parameters: seq<(string, Value)>) returns (r: Result<seq<(string, Value)>, FormError>, expanded: bool)
    ensures r == ExpandPass(parameters)
    ensures r.Success? ==> (expanded <==> Undotted(parameters))
  {
    var o: seq<(string, Value)> := [];
    expanded := true;
    var i := 0;
    while i < |parameters|
      invariant Passed(parameters, i, o, expanded)
      decreases |parameters| - i
    {
      var key := parameters[i].0;
      var value := parameters[i].1;
      var placed := PlaceEntry(o, key, value);
      PassAdvance(parameters, i, o, expanded, placed);
      if '.' in key {
        expanded := false;
      }
      if placed.Failure? {
        return placed, expanded;
      }
      o := placed.value;
      i := i + 1;
    }
    PassDone(parameters, o, expanded);
    return Success(o), expanded;
  }

  /** A dictionary whose keys have no dots and are distinct comes back
      unchanged. */
  lemma {:induction false} PassIdentity(ps: seq<(string, Value)>)
    requires Undotted(ps) && DistinctKeys(ps)
    ensures ExpandPass(ps) == Success(ps)
  {
    if ps != [] {
      var init := ps[..|ps| - 1];
      assert forall i :: 0 <= i < |init| ==> init[i] == ps[i];
      PassIdentity(init);
      assert Find(init, ps[|ps| - 1].0) < 0;
      assert init + [ps[|ps| - 1]] == ps;
    }
  }

  lemma ExpandIdentity(ps: seq<(string, Value)>)
    requires Undotted(ps) && DistinctKeys(ps)
    ensures Expand(ps) == Success(ps)
  {
    PassIdentity(ps);
  }

  /** The value reached through the key segments t, innermost last. */
  function Nest(t: seq<string>, v: Value): Value
  {
    if t == [] then v else Dict([(t[0], Nest(t[1..], v))])
  }

  lemma {:induction false} NestSnoc(t: seq<string>, x: string, v: Value)
    ensures Nest(t + [x], v) == Nest(t, Dict([(x, v)]))
  {
    if t != [] {
      assert (t + [x])[1..] == t[1..] + [x];
      NestSnoc(t[1..], x, v);
    } else {
      assert [x][1..] == [];
    }
  }

  lemma ExpandOneUndotted(key: string, v: Value)
    requires '.' !in key
    ensures Expand([(key, v)]) == Success([(key, v)])
  {
    assert Assign([], key, v) == [(key, v)];
    assert ExpandPass([(key, v)]) == Success([(key, v)]);
  }

  /** A single dotted key: one pass cuts it at its last dot. */
  lemma ExpandOneDotted(key: string, v: Value)
    requires '.' in key
    ensures var d := LastIndexOf(key, '.');
      Expand([(key, v)]) == Expand([(key[..d], Dict([(key[d + 1..], v)]))])
  {
    var d := LastIndexOf(key, '.');
    var o := [(key[..d], Dict([(key[d + 1..], v)]))];
    assert Find<Value>([], key[..d]) == -1;
    assert [] + o == o;
    assert ExpandPass([(key, v)]) == Success(o);
    assert !Undotted([(key, v)]);
  }

  /** Segments joined by dots are cut at the last dot into the joined
      leading segments and the last segment. */
  lemma JoinCut(segs: seq<string>)
    requires |segs| >= 2 && forall i :: 0 <= i < |segs| ==> '.' !in segs[i]
    ensures var key := Join(segs, "."); var d := LastIndexOf(key, '.');
      && '.' in key && d >= 0
      && key[..d] == Join(segs[..|segs| - 1], ".") && key[d + 1..] == segs[|segs| - 1]
  {
    JoinSnoc(segs, ".");
    CutAtLastDot(Join(segs[..|segs| - 1], "."), segs[|segs| - 1]);
  }

  /** The last dot of pre + "." + post, post holding none, is the one
      between them. */
  lemma CutAtLastDot(pre: string, post: string)
    requires '.' !in post
    ensures var key := pre + "." + post; var d := LastIndexOf(key, '.');
      && '.' in key && d == |pre| && key[..d] == pre && key[d + 1..] == post
  {
    var key := pre + "." + post;
    LastIndexOfSuffix(pre, '.', post);
    assert key == pre + ['.'] + post;
    assert key[|pre|] == '.';
    assert key[..|pre|] == pre && key[|pre| + 1..] == post;
  }


  lemma ExpandJoined(segs: seq<string>, v: Value)
    requires |segs| >= 2 && forall i :: 0 <= i < |segs| ==> '.' !in segs[i]
    ensures Expand([(Join(segs, "."), v)]) ==
      Expand([(Join(segs[..|segs| - 1], "."), Dict([(segs[|segs| - 1], v)]))])
  {
    JoinCut(segs);
    ExpandOneDotted(Join(segs, "."), v);
  }

  /** A dotted key "a.b.c" becomes the nested dictionaries a -> b -> c
      holding the value. */
  lemma {:induction false} ExpandNests(segs: seq<string>, v: Value)
    requires segs != [] && forall i :: 0 <= i < |segs| ==> '.' !in segs[i]
    ensures Expand([(Join(segs, "."), v)]) == Success([(segs[0], Nest(segs[1..], v))])
    decreases |segs|
  {
    var n := |segs|;
    if n == 1 {
      ExpandOneUndotted(segs[0], v);
    } else {
      var init := segs[..n - 1];
      var post := segs[n - 1];
      var inner := Dict([(post, v)]);
      ExpandJoined(segs, v);
      ExpandNests(init, inner);
      NestSnoc(init[1..], post, v);
      TailOfInit(segs);
    }
  }

  lemma TailOfInit<T>(s: seq<T>)
    requires |s| >= 2
    ensures s[..|s| - 1][1..] + [s[|s| - 1]] == s[1..] && s[..|s| - 1][0] == s[0]
  {
  }

  lemma WellFormedNest(t: seq<string>, s: string)
    ensures WellFormed(Nest(t, Str(s)))
  {
    if t != [] {
      WellFormedNest(t[1..], s);
      var d := Nest(t, Str(s));
      assert FirstWellFormed(d, 1);
    }
  }

  /** The only leaf of a nest carries the segments joined by dots. */
  lemma {:induction false} LeavesNest(k: string, t: seq<string>, s: string)
    ensures Leaves(k, Nest(t, Str(s))) == [(Join([k] + t, "."), s)]
    decreases |t|
  {
    if t != [] {
      var d := Nest(t, Str(s));
      var k2 := k + "." + t[0];
      LeavesNest(k2, t[1..], s);
      assert Leaves(k, d) == LeavesOf(k + ".", d, 1);
      assert LeavesOf(k + ".", d, 1) == [] + Leaves(k2, Nest(t[1..], Str(s)));
      assert ([k] + t)[1..] == t;
      if |t| == 1 {
        assert [k2] + t[1..] == [k2];
      } else {
        assert ([k2] + t[1..])[1..] == t[1..];
        assert Join([k2] + t[1..], ".") == k2 + "." + Join(t[1..], ".");
        assert Join(t, ".") == t[0] + "." + Join(t[1..], ".");
        assert Join([k] + t, ".") == k + "." + Join(t, ".");
        assert k2 + "." + Join(t[1..], ".") == k + "." + (t[0] + "." + Join(t[1..], "."));
      }
    }
  }

  /** The payload a single nest forms encodes to its one field. */
  lemma FormBodyNest(k: string, t: seq<string>, s: string)
    ensures FormBody([(k, Nest(t, Str(s)))]) == Success(Field(Join([k] + t, "."), s))
  {
    var payload := [(k, Nest(t, Str(s)))];
    var d := Dict(payload);
    WellFormedNest(t, s);
    assert FirstWellFormed(d, 1);
    FormBodyLeaves(payload);
    LeavesNest(k, t, s);
    assert "" + k == k;
    assert LeavesOf("", d, 1) == [] + Leaves(k, Nest(t, Str(s)));
    assert Fields([(Join([k] + t, "."), s)]) == [Field(Join([k] + t, "."), s)];
  }

  /** Form-encoding a dotted key after expanding it gives the dotted key
      back: flattening undoes the expansion. */
  lemma ExpandThenFlatten(segs: seq<string>, s: string)
    requires segs != [] && forall i :: 0 <= i < |segs| ==> '.' !in segs[i]
    ensures Expand([(Join(segs, "."), Str(s))]).Success?
    ensures FormBody(Expand([(Join(segs, "."), Str(s))]).value) == Success(Field(Join(segs, "."), s))
  {
    ExpandNests(segs, Str(s));
    FormBodyNest(segs[0], segs[1..], s);
    assert [segs[0]] + segs[1..] == segs;
  }

  /** The value held under key k, if any. */
  function Lookup(o: seq<(string, Value)>, k: string): Option<Value>
  {
    var i := Find(o, k);
    if 0 <= i then Some(o[i].1) else None
  }

  /** Overwriting an entry with one under the same key moves no key. */
  lemma {:induction false} FindUpdate<V>(es: seq<(string, V)>, i: nat, e: (string, V), q: string)
    requires i < |es| && es[i].0 == e.0
    ensures Find(es[i := e], q) == Find(es, q)
    decreases |es|
  {
    if i < |es| - 1 {
      assert es[i := e][..|es| - 1] == es[..|es| - 1][i := e];
      FindUpdate(es[..|es| - 1], i, e, q);
    } else {
      assert es[i := e][..|es| - 1] == es[..|es| - 1];
    }
  }

  /** Appending an entry under another key moves no key. */
  lemma FindAppend<V>(es: seq<(string, V)>, e: (string, V), q: string)
    requires e.0 != q
    ensures Find(es + [e], q) == Find(es, q)
  {
    assert (es + [e])[..|es|] == es;
  }

  /** The key whose entry Place writes: the key itself, or the part before
      its last dot. */
  function Target(key: string): string
  {
    var d := LastIndexOf(key, '.');
    if d < 0 then key else key[..d]
  }

  /** Every exception the loop lets escape is the failed store. */
  lemma {:induction false} PassErrors(ps: seq<(string, Value)>)
    ensures ExpandPass(ps).Failure? ==> ExpandPass(ps).error == NullReference
  {
    if ps != [] {
      PassErrors(ps[..|ps| - 1]);
    }
  }

  /** Placing an entry whose target is another key leaves what key a holds
      alone. */
  lemma PlaceKeeps(o: seq<(string, Value)>, key: string, v: Value, a: string)
    requires Target(key) != a
    ensures Place(o, key, v).Success? ==> Lookup(Place(o, key, v).value, a) == Lookup(o, a)
  {
    var t := Target(key);
    var j := Find(o, t);
    if '.' in key {
      PlaceDotted(o, key, v);
      var e := (t, Dict(if 0 <= j && o[j].1.Dict? then Assign(o[j].1.entries, key[LastIndexOf(key, '.') + 1..], v)
                        else [(key[LastIndexOf(key, '.') + 1..], v)]));
      if j < 0 {
        FindAppend(o, e, a);
      } else if o[j].1.Dict? {
        FindUpdate(o, j, e, a);
      }
    } else if j < 0 {
      FindAppend(o, (key, v), a);
    } else {
      FindUpdate(o, j, (key, v), a);
    }
  }

  /** An undotted key is assigned directly, and then holds its value. */
  lemma PlaceUndotted(o: seq<(string, Value)>, key: string, v: Value)
    requires '.' !in key
    ensures Place(o, key, v).Success? && Lookup(Place(o, key, v).value, key) == Some(v)
  {
    var j := Find(o, key);
    if 0 <= j {
      FindUpdate(o, j, (key, v), key);
    }
  }

  /** Once an undotted entry holding anything but a Dictionary<string,
      object> is placed, the pass either fails or keeps it under its key:
      no other entry (keys being distinct) writes there. */
  lemma {:induction false} ConflictPersists(ps: seq<(string, Value)>, j: nat, k: nat)
    requires DistinctKeys(ps) && j < k <= |ps|
    requires '.' !in ps[j].0 && !ps[j].1.Dict?
    ensures ExpandPass(ps[..k]).Success? ==> Lookup(ExpandPass(ps[..k]).value, ps[j].0) == Some(ps[j].1)
    decreases k
  {
    var a := ps[j].0;
    assert ps[..k][..k - 1] == ps[..k - 1];
    assert ps[..k][k - 1] == ps[k - 1];
    if ExpandPass(ps[..k - 1]).Success? {
      var o := ExpandPass(ps[..k - 1]).value;
      var key := ps[k - 1].0;
      if k == j + 1 {
        PlaceUndotted(o, key, ps[j].1);
      } else {
        ConflictPersists(ps, j, k - 1);
        if Target(key) == a {
          assert '.' in key;
          PlaceDotted(o, key, ps[k - 1].1);
        } else {
          PlaceKeeps(o, key, ps[k - 1].1, a);
        }
      }
    }
  }

  /** A dotted key whose part before the last dot names an earlier undotted
      entry holding a string, a Dictionary<string, string>, null or any other
      object makes the expansion throw: the cast to Dictionary<string, object>
      yields null and the store through it fails. */
  lemma ExpandConflict(ps: seq<(string, Value)>, j: nat, i: nat)
    requires DistinctKeys(ps) && j < i < |ps|
    requires '.' !in ps[j].0 && !ps[j].1.Dict?
    requires '.' in ps[i].0 && ps[i].0[..LastIndexOf(ps[i].0, '.')] == ps[j].0
    ensures ExpandPass(ps) == Failure(NullReference)
    ensures Expand(ps) == Failure(NullReference)
  {
    PassConflict(ps, j, i);
  }

  /** The pass itself fails at entry i, or earlier. */
  lemma PassConflict(ps: seq<(string, Value)>, j: nat, i: nat)
    requires DistinctKeys(ps) && j < i < |ps|
    requires '.' !in ps[j].0 && !ps[j].1.Dict?
    requires '.' in ps[i].0 && ps[i].0[..LastIndexOf(ps[i].0, '.')] == ps[j].0
    ensures ExpandPass(ps) == Failure(NullReference)
  {
    ConflictPersists(ps, j, i);
    PassErrors(ps[..i]);
    if ExpandPass(ps[..i]).Failure? {
      PassFails(ps, i);
    } else {
      var o := ExpandPass(ps[..i]).value;
      PassStep(ps, i, o);
      PlaceDotted(o, ps[i].0, ps[i].1);
      assert ExpandPass(ps[..i + 1]) == Failure(NullReference);
      PassFails(ps, i + 1);
    }
  }

  /** A Dictionary<string, string> under "a" and then the key "a.b": the
      store into it throws. */
  lemma ExpandIntoStringDictionary()
    ensures Expand([("a", StrDict([("x", Str("1"))])), ("a.b", Str("y"))]) == Failure(NullReference)
  {
    var ps := [("a", StrDict([("x", Str("1"))])), ("a.b", Str("y"))];
    assert LastIndexOf("a.b", '.') == 1;
    assert "a.b"[..1] == "a";
    ExpandConflict(ps, 0, 1);
  }

  // ---------------------------------------------------------------------------
  // The query of a URL (Core.QueryParametersFromUrl)
  // ---------------------------------------------------------------------------

  /** The dictionary the loop builds from "key=value" pieces: each piece is
      split at '=' and its second part stored under its first (a later
      duplicate key wins); a piece without '=' has no second part to read. */
  function ReadPairs(kvs: seq<string>): Result<seq<(string, string)>, FormError>
  {
    if kvs == [] then Success([])
    else
      match ReadPairs(kvs[..|kvs| - 1])
      case Failure(e) => Failure(e)
      case Success(res) =>
        var pair := Split(kvs[|kvs| - 1], '=');
        if |pair| < 2 then Failure(IndexOutOfRange)
        else Success(Assign(res, pair[0], pair[1]))
  }

  /** Core.QueryParametersFromUrl(url): the text between the first and the
      second '?', cut at the first '#', read as '&'-separated pairs; a URL
      without '?' has no second part to read. */
  function QueryParameters(url: string): Result<seq<(string, string)>, FormError>
  {
    var parts := Split(url, '?');
    if |parts| < 2 then Failure(IndexOutOfRange)
    else ReadPairs(Split(Split(parts[1], '#')[0], '&'))
  }

  lemma {:induction false} ReadPairsFails(kvs: seq<string>, n: nat)
    requires n <= |kvs| && ReadPairs(kvs[..n]).Failure?
    ensures ReadPairs(kvs) == ReadPairs(kvs[..n])
    decreases |kvs| - n
  {
    if n < |kvs| {
      assert kvs[..n + 1][..n] == kvs[..n];
      ReadPairsFails(kvs, n + 1);
    } else {
      assert kvs[..n] == kvs;
    }
  }

  method QueryParametersFromUrl(url: string) returns (r: Result<seq<(string, string)>, FormError>)
    ensures r == QueryParameters(url)
  {
    var parts := Split(url, '?');
    if |parts| < 2 {
      return Failure(IndexOutOfRange);
    }
    var parametersStr := Split(parts[1], '#')[0];
    var keyvalueStr := Split(parametersStr, '&');
    var results: seq<(string, string)> := [];
    var i := 0;
    while i < |keyvalueStr|
      invariant 0 <= i <= |keyvalueStr|
      invariant ReadPairs(keyvalueStr[..i]) == Success(results)
    {
      assert keyvalueStr[..i + 1][..i] == keyvalueStr[..i];
      assert keyvalueStr[..i + 1][i] == keyvalueStr[i];
      var pair := Split(keyvalueStr[i], '=');
      if |pair| < 2 {
        ReadPairsFails(keyvalueStr, i + 1);
        return Failure(IndexOutOfRange);
      }
      results := Assign(results, pair[0], pair[1]);
      i := i + 1;
    }
    assert keyvalueStr[..i] == keyvalueStr;
    return Success(results);
  }

  /** "k=v" pieces of a query. */
  function QueryPieces(kvs: seq<(string, string)>): (ps: seq<string>)
    ensures |ps| == |kvs|
    ensures forall i :: 0 <= i < |kvs| ==> ps[i] == kvs[i].0 + "=" + kvs[i].1
  {
    seq(|kvs|, i requires 0 <= i < |kvs| => kvs[i].0 + "=" + kvs[i].1)
  }

  /** The query text "k1=v1&k2=v2&...". */
  function QueryString(kvs: seq<(string, string)>): string
  {
    Join(QueryPieces(kvs), "&")
  }

  /** Keys and values that survive the query syntax unchanged. */
  predicate PlainQueryText(s: string)
  {
    '?' !in s && '#' !in s && '&' !in s && '=' !in s
  }

  /** PlainQueryText, character by character. */
  lemma PlainByIndex(s: string)
    requires forall i :: 0 <= i < |s| ==> s[i] != '?' && s[i] != '#' && s[i] != '&' && s[i] != '='
    ensures PlainQueryText(s)
  {
  }

  predicate PlainQuery(kvs: seq<(string, string)>)
  {
    forall i :: 0 <= i < |kvs| ==> PlainQueryText(kvs[i].0) && PlainQueryText(kvs[i].1)
  }

  lemma PieceSplits(k: string, v: string)
    requires PlainQueryText(k) && PlainQueryText(v)
    ensures Split(k + "=" + v, '=') == [k, v]
  {
    assert Join([k, v], "=") == k + "=" + v;
    SplitJoin([k, v], '=');
  }

  lemma {:induction false} ReadPairsRoundTrip(kvs: seq<(string, string)>)
    requires PlainQuery(kvs) && DistinctKeys(kvs)
    ensures ReadPairs(QueryPieces(kvs)) == Success(kvs)
  {
    if kvs != [] {
      var n := |kvs|;
      var init := kvs[..n - 1];
      var (k, v) := kvs[n - 1];
      var pieces := QueryPieces(kvs);
      QueryPiecesSnoc(kvs);
      LastKeyIsNew(kvs);
      ReadPairsRoundTrip(init);
      PieceSplits(k, v);
      ReadPairsSnoc(pieces, init, k, v);
      InitPlusLast(kvs);
    }
  }

  lemma WholePrefix<T>(s: seq<T>)
    ensures s[..|s|] == s
  {
  }

  lemma InitPlusLast<T>(s: seq<T>)
    requires s != []
    ensures s[..|s| - 1] + [s[|s| - 1]] == s
  {
  }

  lemma QueryPiecesSnoc(kvs: seq<(string, string)>)
    requires kvs != []
    ensures var n := |kvs|; var pieces := QueryPieces(kvs);
      pieces[..n - 1] == QueryPieces(kvs[..n - 1]) && pieces[n - 1] == kvs[n - 1].0 + "=" + kvs[n - 1].1
  {
    var n := |kvs|;
    assert QueryPieces(kvs)[..n - 1] == QueryPieces(kvs[..n - 1]);
  }

  /** With distinct keys, the last key is not among the others, and the
      others are still plain and distinct. */
  lemma LastKeyIsNew(kvs: seq<(string, string)>)
    requires kvs != [] && PlainQuery(kvs) && DistinctKeys(kvs)
    ensures var init := kvs[..|kvs| - 1];
      Find(init, kvs[|kvs| - 1].0) < 0 && PlainQuery(init) && DistinctKeys(init)
  {
  }

  /** One more piece k=v with a new key k appends (k, v) to the pairs. */
  lemma ReadPairsSnoc(pieces: seq<string>, res: seq<(string, string)>, k: string, v: string)
    requires pieces != [] && ReadPairs(pieces[..|pieces| - 1]) == Success(res)
    requires Split(pieces[|pieces| - 1], '=') == [k, v] && Find(res, k) < 0
    ensures ReadPairs(pieces) == Success(res + [(k, v)])
  {
  }

  /** Reading the query of base?k1=v1&...&kn=vn gives back the pairs, in
      order, when the keys are distinct and no key or value holds '?',
      '#', '&' or '='. */
  lemma QueryRoundTrip(base: string, kvs: seq<(string, string)>)
    requires '?' !in base && kvs != []
    requires PlainQuery(kvs) && DistinctKeys(kvs)
    ensures QueryParameters(base + "?" + QueryString(kvs)) == Success(kvs)
  {
    var pieces := QueryPieces(kvs);
    var q := QueryString(kvs);
    forall i | 0 <= i < |pieces|
      ensures '?' !in pieces[i] && '#' !in pieces[i] && '&' !in pieces[i]
    {
    }
    JoinExcludes(pieces, "&", '?');
    JoinExcludes(pieces, "&", '#');
    assert Join([base, q], "?") == base + "?" + q;
    SplitJoin([base, q], '?');
    SplitJoin([q], '#');
    SplitJoin(pieces, '&');
    ReadPairsRoundTrip(kvs);
  }
}
