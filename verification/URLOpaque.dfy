/** URLs whose path is opaque, such as `mailto:someone?subject`. */
module UrlOpaquePaths {
  import opened CommonTypes
  import opened Urls
  import opened UrlParsers
  import opened UrlMeaning

  datatype Opaque = Opaque(scheme: seq<CodePoint>, path: seq<CodePoint>, query: Option<seq<CodePoint>>,
                           fragment: Option<seq<CodePoint>>)

  /** `scheme:path?query#fragment`, without what is absent. */
  function Written(x: Opaque): seq<CodePoint> {
    x.scheme + ([COLON] + (x.path + QueryTail(x.query, x.fragment)))
  }

  predicate OpaqueText(s: seq<CodePoint>) {
    forall i :: 0 <= i < |s| ==> s[i] != QUESTION && s[i] != HASH
  }

  predicate IsOpaque(x: Opaque) {
    && |x.scheme| > 0 && IsAlpha(x.scheme[0]) && AllSchemeParts(x.scheme) && !IsSpecialScheme(LoweredAscii(x.scheme))
    && OpaqueText(x.path) && (|x.path| > 0 ==> x.path[0] != SLASH)
    && (x.query.Some? ==> HASH !in x.query.value)
  }

  /** The percent-encoded text of an opaque path. */
  function C0Encoded(k: Coding, s: seq<CodePoint>): Text {
    if |s| == 0 then [] else k.encodeC0(s[0]) + C0Encoded(k, s[1..])
  }

  /** The URL with this path, and these texts for query and fragment before they are coded. */
  function UrlWith(k: Coding, x: Opaque, query: Option<Text>, fragment: Option<Text>): Url
    requires IsOpaque(x)
  {
    EMPTY_URL.(valid := true, scheme := LoweredAscii(x.scheme), cannotBeABaseUrl := true,
               paths := [k.decode(C0Encoded(k, x.path))],
               query := if query.None? then None else Some(k.encodeQuery(query.value, false)),
               fragment := if fragment.None? then None else Some(k.decode(fragment.value)))
  }

  function EncodedIfAny(s: Option<seq<CodePoint>>): Option<Text> {
    if s.None? then None else Some(Encode(s.value))
  }

  /** The text with what an unclean buffer held before it. */
  function After(held: Text, text: Option<Text>): Option<Text> {
    if text.None? then None else Some(held + text.value)
  }

  /** What is taken for the query: its text behind the path. */
  function QueryTaken(k: Coding, x: Opaque): Option<Text> {
    After(C0Encoded(k, x.path), EncodedIfAny(x.query))
  }

  /** What is taken for the fragment: its text, behind the path if no query has cleared the buffer. */
  function FragmentTaken(k: Coding, x: Opaque): Option<Text> {
    After(if x.query.None? then C0Encoded(k, x.path) else [], EncodedIfAny(x.fragment))
  }

  // ---- Steps ----

  lemma {:induction false} OpaqueScanned(k: Coding, input: seq<CodePoint>, base: Option<Url>, p: Parser, n: nat)
    requires Inv(input, base, p) && p.state == CannotBeABaseUrlPath && p.pos <= n <= |input|
    requires OpaqueText(input[p.pos..n])
    ensures Leads(k, input, base, p, p.(pos := n, buffer := p.buffer + C0Encoded(k, input[p.pos..n])))
    decreases n - p.pos
  {
    hide Run;
    PathIsStillEmpty(input, base, p);
    hide Inv;
    var s := input[p.pos..n];
    if p.pos == n {
      assert p.buffer + C0Encoded(k, s) == p.buffer;
      LeadsNowhere(k, input, base, p);
    } else {
      assert s[0] == input[p.pos] && s[1..] == input[p.pos + 1..n];
      var q := p.(buffer := p.buffer + k.encodeC0(input[p.pos]));
      LeadsByBreak(k, input, base, p, q);
      OpaqueScanned(k, input, base, Advanced(q), n);
      assert p.buffer + (k.encodeC0(s[0]) + C0Encoded(k, s[1..])) == q.buffer + C0Encoded(k, s[1..]);
      LeadsOn(k, input, base, p, Advanced(q), p.(pos := n, buffer := p.buffer + C0Encoded(k, s)));
    }
  }

  lemma PathIsStillEmpty(input: seq<CodePoint>, base: Option<Url>, p: Parser)
    requires Inv(input, base, p) && p.state == CannotBeABaseUrlPath
    ensures PathIsOneEmptySegment(p.url)
  {
  }

  /** Where the scheme leads. */
  lemma OpaqueIsEntered(k: Coding, x: Opaque, base: Option<Url>) returns (p: Parser)
    requires IsOpaque(x)
    ensures Leads(k, Written(x), base, START, p) && Inv(Written(x), base, p) && p.buffer == []
    ensures p.state == CannotBeABaseUrlPath && p.pos == |x.scheme| + 1
    ensures p.url == EMPTY_URL.(scheme := LoweredAscii(x.scheme), cannotBeABaseUrl := true, paths := [[]])
  {
    hide Inv, Run;
    var input := Written(x);
    var n := |x.scheme|;
    var rest := x.path + QueryTail(x.query, x.fragment);
    assert input[0..] == input && input[..n] == x.scheme;
    Parted(input, 0, x.scheme, [COLON] + rest);
    Headed(input, n, COLON, rest);
    assert !RemainingStartsWithSlash(input, n) by {
      assert n + 1 < |input| ==> input[n + 1] == rest[0];
    }
    SchemeIsParsedUpTo(k, input, base, n);
    var q := START.(state := Scheme, pos := n, buffer := LoweredAscii(x.scheme));
    hide IsSpecialScheme, LoweredAscii;
    assert EMPTY_URL.paths + [[]] == [[]];
    assert LoweredAscii(x.scheme) != FILE by { FileIsScheme(); }
    var r := AfterScheme(input, base, q);
    p := Advanced(r);
    LeadsByBreak(k, input, base, q, r);
    LeadsOn(k, input, base, START, q, p);
  }

  /** The end of the path, at which the buffer is not cleared. */
  lemma OpaquePathEnds(k: Coding, input: seq<CodePoint>, base: Option<Url>, p: Parser)
    requires Inv(input, base, p) && p.state == CannotBeABaseUrlPath && p.pos <= |input|
    ensures var u := p.url.(paths := [k.decode(p.buffer)]);
      && (p.pos == |input| ==> Run(k, input, base, p) == Parsed(u.(valid := true)))
      && (p.pos < |input| && input[p.pos] == QUESTION ==>
        var q := p.(url := u.(query := Some([])), state := Query, pos := p.pos + 1);
        Leads(k, input, base, p, q) && Inv(input, base, q))
      && (p.pos < |input| && input[p.pos] == HASH ==>
        var q := p.(url := u.(fragment := Some([])), state := Fragment, pos := p.pos + 1);
        Leads(k, input, base, p, q) && Inv(input, base, q))
  {
    hide Run;
    PathIsStillEmpty(input, base, p);
    hide Inv;
    var u := p.url.(paths := [k.decode(p.buffer)]);
    if p.pos == |input| {
      RunEnds(k, input, base, p);
    } else if input[p.pos] == QUESTION {
      LeadsByBreak(k, input, base, p, p.(url := u.(query := Some([])), state := Query));
    } else if input[p.pos] == HASH {
      LeadsByBreak(k, input, base, p, p.(url := u.(fragment := Some([])), state := Fragment));
    }
  }

  // ---- Queries and fragments behind something that is still buffered ----

  lemma FragmentIsTaken(k: Coding, input: seq<CodePoint>, base: Option<Url>, p: Parser)
    requires Inv(input, base, p) && p.state == Fragment && p.pos <= |input|
    ensures Run(k, input, base, p)
         == Parsed(p.url.(fragment := Some(k.decode(p.buffer + Encode(input[p.pos..]))), valid := true))
  {
    hide Inv, Run, Encode;
    FragmentScanned(k, input, base, p);
    RunEnds(k, input, base, p.(pos := |input|, buffer := p.buffer + Encode(input[p.pos..])));
  }

  lemma QueryIsTaken(k: Coding, input: seq<CodePoint>, base: Option<Url>, p: Parser, query: seq<CodePoint>,
                     fragment: Option<seq<CodePoint>>)
    requires Inv(input, base, p) && p.state == Query && p.pos <= |input|
    requires HASH !in query && input[p.pos..] == query + FragmentTail(fragment)
    ensures var u := p.url.(query := Some(k.encodeQuery(p.buffer + Encode(query), p.url.IsSpecial())), valid := true);
      Run(k, input, base, p)
        == Parsed(if fragment.None? then u else u.(fragment := Some(k.decode(Encode(fragment.value)))))
  {
    hide Inv, Run, Encode, Dispatch, IsSpecialScheme;
    var n := p.pos + |query|;
    Parted(input, p.pos, query, FragmentTail(fragment));
    QueryScanned(k, input, base, p, n);
    var q := p.(pos := n, buffer := p.buffer + Encode(query));
    QueryStart(input, base, q);
    if fragment.None? {
      QueryEnds(k, input, base, q);
    } else {
      Headed(input, n, HASH, fragment.value);
      QueryAtHash(k, input, base, q);
      var u := q.url.(query := Some(k.encodeQuery(q.buffer, q.url.IsSpecial())), fragment := Some([]));
      FragmentIsParsed(k, input, base, q.(url := u, buffer := [], state := Fragment, pos := n + 1));
    }
  }

  // ---- What comes out ----

  /** Whatever the base URL, the path comes out once more at the beginning of the query, or else of the fragment. */
  lemma OpaqueIsParsed(k: Coding, x: Opaque, base: Option<Url>)
    requires IsOpaque(x)
    ensures Inv(Written(x), base, START)
    ensures Run(k, Written(x), base, START) == Parsed(UrlWith(k, x, QueryTaken(k, x), FragmentTaken(k, x)))
  {
    hide Inv, Run, Encode, Dispatch, C0Encoded;
    hide IsSpecialScheme;
    var input := Written(x);
    var p0 := OpaqueIsEntered(k, x, base);
    var n := p0.pos + |x.path|;
    var tail := QueryTail(x.query, x.fragment);
    assert input[p0.pos..] == x.path + tail;
    Parted(input, p0.pos, x.path, tail);
    OpaqueScanned(k, input, base, p0, n);
    var held := C0Encoded(k, x.path);
    assert [] + held == held;
    var p := p0.(pos := n, buffer := held);
    OpaqueTailIsParsed(k, input, base, p, x);
  }

  /** From the end of the path on. */
  lemma OpaqueTailIsParsed(k: Coding, input: seq<CodePoint>, base: Option<Url>, p: Parser, x: Opaque)
    requires IsOpaque(x) && Inv(input, base, p) && p.pos <= |input| && p.state == CannotBeABaseUrlPath
    requires p.url == EMPTY_URL.(scheme := LoweredAscii(x.scheme), cannotBeABaseUrl := true, paths := [[]])
    requires p.buffer == C0Encoded(k, x.path) && input[p.pos..] == QueryTail(x.query, x.fragment)
    ensures Run(k, input, base, p) == Parsed(UrlWith(k, x, QueryTaken(k, x), FragmentTaken(k, x)))
  {
    hide Inv, Run, Encode, Dispatch, C0Encoded;
    assert !p.url.IsSpecial();
    hide IsSpecialScheme;
    OpaquePathEnds(k, input, base, p);
    var n := p.pos;
    var u := p.url.(paths := [k.decode(p.buffer)]);
    if x.query.Some? {
      Headed(input, n, QUESTION, x.query.value + FragmentTail(x.fragment));
      QueryIsTaken(k, input, base, p.(url := u.(query := Some([])), state := Query, pos := n + 1), x.query.value,
                   x.fragment);
      assert x.fragment.Some? ==> [] + Encode(x.fragment.value) == Encode(x.fragment.value);
    } else if x.fragment.Some? {
      Headed(input, n, HASH, x.fragment.value);
      FragmentIsTaken(k, input, base, p.(url := u.(fragment := Some([])), state := Fragment, pos := n + 1));
    }
  }

  /** Query and fragment are taken as they were written exactly if there are none, or the path is empty. */
  lemma TakenAsWrittenExactly(k: Coding, x: Opaque)
    ensures QueryTaken(k, x) == EncodedIfAny(x.query) && FragmentTaken(k, x) == EncodedIfAny(x.fragment)
       <==> (x.query == None && x.fragment == None) || C0Encoded(k, x.path) == []
  {
    hide Encode, C0Encoded;
    var held := C0Encoded(k, x.path);
    if x.query.Some? {
      assert |held + Encode(x.query.value)| == |held| + |Encode(x.query.value)|;
      assert [] + Encode(x.query.value) == Encode(x.query.value);
    }
    if x.fragment.Some? {
      assert |held + Encode(x.fragment.value)| == |held| + |Encode(x.fragment.value)|;
      assert [] + Encode(x.fragment.value) == Encode(x.fragment.value);
    }
  }

  /** Percent-encoding goes byte by byte, and takes no byte away. */
  ghost predicate EncodesByteByByte(k: Coding) {
    && (forall a: Text, b: Text :: k.encodeQuery(a + b, false) == k.encodeQuery(a, false) + k.encodeQuery(b, false))
    && (forall a: Text :: |k.encodeQuery(a, false)| >= |a|)
  }

  /** With such an encoding, the query that comes out is the one that was written exactly if the path is empty. */
  lemma QueryIsIntendedExactly(k: Coding, x: Opaque, base: Option<Url>)
    requires IsOpaque(x) && x.query.Some? && EncodesByteByByte(k)
    ensures Inv(Written(x), base, START)
    ensures Run(k, Written(x), base, START) == Parsed(UrlWith(k, x, EncodedIfAny(x.query), EncodedIfAny(x.fragment)))
       <==> C0Encoded(k, x.path) == []
  {
    hide Inv, Run, Encode, C0Encoded, IsOpaque;
    OpaqueIsParsed(k, x, base);
    TakenAsWrittenExactly(k, x);
    var held, text := C0Encoded(k, x.path), Encode(x.query.value);
    assert k.encodeQuery(held + text, false) == k.encodeQuery(held, false) + k.encodeQuery(text, false);
    assert |k.encodeQuery(held, false)| >= |held|;
    assert held != [] ==> |k.encodeQuery(held + text, false)| > |k.encodeQuery(text, false)|;
  }
}
