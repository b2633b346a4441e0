/** What the parser makes of the parts of a URL, from the scheme to the fragment. */
module UrlMeaning {
  import opened CommonTypes
  import opened Urls
  import opened UrlParsers

  // ---- Getting from one place of the loop to another ----

  /** The loop gets from `p` to `q`. */
  ghost predicate Leads(k: Coding, input: seq<CodePoint>, base: Option<Url>, p: Parser, q: Parser) {
    Inv(input, base, p) && Inv(input, base, q) && Run(k, input, base, p) == Run(k, input, base, q)
  }

  lemma LeadsOn(k: Coding, input: seq<CodePoint>, base: Option<Url>, p: Parser, q: Parser, r: Parser)
    requires Leads(k, input, base, p, q) && Leads(k, input, base, q, r)
    ensures Leads(k, input, base, p, r)
  {
    hide Inv, Run;
  }

  lemma LeadsNowhere(k: Coding, input: seq<CodePoint>, base: Option<Url>, p: Parser)
    requires Inv(input, base, p)
    ensures Leads(k, input, base, p, p)
  {
    hide Inv, Run;
  }

  lemma LeadsByContinue(k: Coding, input: seq<CodePoint>, base: Option<Url>, p: Parser, q: Parser)
    requires Inv(input, base, p) && p.pos <= |input| && Dispatch(k, input, base, p) == Continue(q)
    ensures Leads(k, input, base, p, q)
  {
    hide Inv, Run, Dispatch;
    RunContinues(k, input, base, p, q);
  }

  lemma LeadsByBreak(k: Coding, input: seq<CodePoint>, base: Option<Url>, p: Parser, q: Parser)
    requires Inv(input, base, p) && p.pos <= |input| && Dispatch(k, input, base, p) == Break(q) && q.pos < |input|
    ensures Leads(k, input, base, p, Advanced(q))
  {
    hide Inv, Run, Dispatch;
    RunBreaks(k, input, base, p, q);
  }

  // ---- Scanning ----

  function LoweredAscii(s: seq<CodePoint>): (t: Text)
    requires forall i :: 0 <= i < |s| ==> s[i] < 0x80
  {
    seq(|s|, i requires 0 <= i < |s| => ToLower(s[i]))
  }

  predicate AllSchemeParts(s: seq<CodePoint>) {
    forall i :: 0 <= i < |s| ==> s[i] < 0x80 && IsSchemePart(s[i])
  }

  lemma {:induction false} SchemeScanned(k: Coding, input: seq<CodePoint>, base: Option<Url>, p: Parser, n: nat)
    requires Inv(input, base, p) && p.state == Scheme && p.pos <= n <= |input| && AllSchemeParts(input[p.pos..n])
    ensures Leads(k, input, base, p, p.(pos := n, buffer := p.buffer + LoweredAscii(input[p.pos..n])))
    decreases n - p.pos
  {
    hide Inv, Run, Dispatch;
    var s := input[p.pos..n];
    if p.pos == n {
      assert p.buffer + LoweredAscii(s) == p.buffer;
      LeadsNowhere(k, input, base, p);
    } else {
      assert s[0] == input[p.pos] && s[1..] == input[p.pos + 1..n];
      var q := p.(buffer := p.buffer + [ToLower(input[p.pos])]);
      SchemeTurns(k, input, base, p);
      SchemeScanned(k, input, base, Advanced(q), n);
      assert q.buffer + LoweredAscii(s[1..]) == p.buffer + LoweredAscii(s);
      LeadsOn(k, input, base, p, Advanced(q), p.(pos := n, buffer := p.buffer + LoweredAscii(s)));
    }
  }

  lemma SchemeTurns(k: Coding, input: seq<CodePoint>, base: Option<Url>, p: Parser)
    requires Inv(input, base, p) && p.state == Scheme && p.pos < |input| && IsSchemePart(input[p.pos])
    ensures var q := Advanced(p.(buffer := p.buffer + [ToLower(input[p.pos])]));
      Leads(k, input, base, p, q) && Inv(input, base, q)
  {
    hide Inv, Run;
    LeadsByBreak(k, input, base, p, p.(buffer := p.buffer + [ToLower(input[p.pos])]));
  }

  /** Nothing that ends an authority or a path segment. In special URLs a backslash does. */
  predicate PathText(s: seq<CodePoint>, special: bool) {
    forall i :: 0 <= i < |s| ==> s[i] !in {SLASH, QUESTION, HASH} && (special ==> s[i] != BACKSLASH)
  }

  /** Nothing that an authority treats specially outside its host and port. */
  predicate Plain(s: seq<CodePoint>, special: bool) {
    PathText(s, special) && AT !in s
  }

  lemma BufferGrows(input: seq<CodePoint>, pos: nat, n: nat, buffer: Text)
    requires pos < n <= |input|
    ensures buffer + Encode(input[pos..n]) == buffer + Utf8(input[pos]) + Encode(input[pos + 1..n])
  {
    var s := input[pos..n];
    assert s[0] == input[pos] && s[1..] == input[pos + 1..n];
    EncodeFront(s, 0);
    assert s[0..] == s;
    hide Encode, Utf8;
    assert buffer + (Utf8(input[pos]) + Encode(s[1..])) == buffer + Utf8(input[pos]) + Encode(s[1..]);
  }

  lemma AuthorityTurns(k: Coding, input: seq<CodePoint>, base: Option<Url>, p: Parser)
    requires Inv(input, base, p) && p.state == Authority && p.pos < |input|
    requires Plain([input[p.pos]], p.url.IsSpecial())
    ensures var q := Advanced(Appended(p, input)); Leads(k, input, base, p, q) && Inv(input, base, q)
  {
    hide Inv, Run, IsSpecialScheme, Utf8, AtByteOffset, ByteOffset;
    assert [input[p.pos]][0] == input[p.pos];
    LeadsByBreak(k, input, base, p, Appended(p, input));
  }

  lemma {:induction false} AuthorityScanned(k: Coding, input: seq<CodePoint>, base: Option<Url>, p: Parser, n: nat)
    requires Inv(input, base, p) && p.state == Authority && p.pos <= n <= |input|
    requires Plain(input[p.pos..n], p.url.IsSpecial())
    ensures Leads(k, input, base, p, p.(pos := n, buffer := p.buffer + Encode(input[p.pos..n])))
    decreases n - p.pos
  {
    hide Inv, Run, Dispatch, Utf8;
    if p.pos == n {
      assert p.buffer + Encode(input[p.pos..n]) == p.buffer;
      LeadsNowhere(k, input, base, p);
    } else {
      hide Encode;
      PlainFront(input, p.pos, n, p.url.IsSpecial());
      AuthorityTurns(k, input, base, p);
      var q := Advanced(Appended(p, input));
      AuthorityScanned(k, input, base, q, n);
      BufferGrows(input, p.pos, n, p.buffer);
      LeadsOn(k, input, base, p, q, p.(pos := n, buffer := p.buffer + Encode(input[p.pos..n])));
    }
  }

  lemma PathFront(input: seq<CodePoint>, pos: nat, n: nat, special: bool)
    requires pos < n <= |input| && PathText(input[pos..n], special)
    ensures PathText([input[pos]], special) && PathText(input[pos + 1..n], special)
  {
    assert input[pos] == input[pos..n][0] && input[pos + 1..n] == input[pos..n][1..];
  }

  lemma PlainFront(input: seq<CodePoint>, pos: nat, n: nat, special: bool)
    requires pos < n <= |input| && Plain(input[pos..n], special)
    ensures Plain([input[pos]], special) && Plain(input[pos + 1..n], special)
  {
    PathFront(input, pos, n, special);
    assert input[pos] in input[pos..n] && forall c :: c in input[pos + 1..n] ==> c in input[pos..n];
  }

  /** The percent-encoded text of a path segment. */
  function PathEncoded(k: Coding, s: seq<CodePoint>): Text {
    if |s| == 0 then [] else k.encodePath(s[0]) + PathEncoded(k, s[1..])
  }

  lemma PathTurns(k: Coding, input: seq<CodePoint>, base: Option<Url>, p: Parser)
    requires Inv(input, base, p) && p.state == Path && p.pos < |input|
    requires PathText([input[p.pos]], p.url.IsSpecial())
    ensures var q := Advanced(p.(buffer := p.buffer + k.encodePath(input[p.pos])));
      Leads(k, input, base, p, q) && Inv(input, base, q)
  {
    hide Inv, Run, IsSpecialScheme, SegmentAdded;
    assert [input[p.pos]][0] == input[p.pos];
    LeadsByBreak(k, input, base, p, p.(buffer := p.buffer + k.encodePath(input[p.pos])));
  }

  lemma {:induction false} PathScanned(k: Coding, input: seq<CodePoint>, base: Option<Url>, p: Parser, n: nat)
    requires Inv(input, base, p) && p.state == Path && p.pos <= n <= |input|
    requires PathText(input[p.pos..n], p.url.IsSpecial())
    ensures Leads(k, input, base, p, p.(pos := n, buffer := p.buffer + PathEncoded(k, input[p.pos..n])))
    decreases n - p.pos
  {
    hide Inv, Run, Dispatch;
    var s := input[p.pos..n];
    if p.pos == n {
      assert p.buffer + PathEncoded(k, s) == p.buffer;
      LeadsNowhere(k, input, base, p);
    } else {
      PathFront(input, p.pos, n, p.url.IsSpecial());
      PathTurns(k, input, base, p);
      var q := Advanced(p.(buffer := p.buffer + k.encodePath(input[p.pos])));
      PathScanned(k, input, base, q, n);
      assert s[0] == input[p.pos] && s[1..] == input[p.pos + 1..n];
      assert p.buffer + (k.encodePath(s[0]) + PathEncoded(k, s[1..])) == q.buffer + PathEncoded(k, s[1..]);
      LeadsOn(k, input, base, p, q, p.(pos := n, buffer := p.buffer + PathEncoded(k, s)));
    }
  }

  lemma QueryTurn(k: Coding, input: seq<CodePoint>, base: Option<Url>, p: Parser)
    requires Inv(input, base, p) && p.state == Query && p.pos < |input| && input[p.pos] != HASH
    ensures var q := Advanced(Appended(p, input)); Leads(k, input, base, p, q) && Inv(input, base, q)
  {
    hide Inv, Run, Dispatch, Utf8;
    QueryTurns(k, input, base, p);
  }

  lemma {:induction false} QueryScanned(k: Coding, input: seq<CodePoint>, base: Option<Url>, p: Parser, n: nat)
    requires Inv(input, base, p) && p.state == Query && p.pos <= n <= |input| && HASH !in input[p.pos..n]
    ensures Leads(k, input, base, p, p.(pos := n, buffer := p.buffer + Encode(input[p.pos..n])))
    decreases n - p.pos
  {
    hide Inv, Run, Dispatch, Utf8;
    if p.pos == n {
      assert p.buffer + Encode(input[p.pos..n]) == p.buffer;
      LeadsNowhere(k, input, base, p);
    } else {
      hide Encode;
      assert input[p.pos] == input[p.pos..n][0] && input[p.pos + 1..n] == input[p.pos..n][1..];
      QueryTurn(k, input, base, p);
      var q := Advanced(Appended(p, input));
      QueryScanned(k, input, base, q, n);
      BufferGrows(input, p.pos, n, p.buffer);
      LeadsOn(k, input, base, p, q, p.(pos := n, buffer := p.buffer + Encode(input[p.pos..n])));
    }
  }

  lemma FragmentTurns(k: Coding, input: seq<CodePoint>, base: Option<Url>, p: Parser)
    requires Inv(input, base, p) && p.state == Fragment && p.pos < |input|
    ensures var q := Advanced(Appended(p, input)); Leads(k, input, base, p, q) && Inv(input, base, q)
  {
    hide Inv, Run, Utf8;
    LeadsByBreak(k, input, base, p, Appended(p, input));
  }

  lemma {:induction false} FragmentScanned(k: Coding, input: seq<CodePoint>, base: Option<Url>, p: Parser)
    requires Inv(input, base, p) && p.state == Fragment && p.pos <= |input|
    ensures Leads(k, input, base, p, p.(pos := |input|, buffer := p.buffer + Encode(input[p.pos..])))
    decreases |input| - p.pos
  {
    hide Inv, Run, Dispatch, Utf8;
    if p.pos == |input| {
      assert p.buffer + Encode(input[p.pos..]) == p.buffer;
      LeadsNowhere(k, input, base, p);
    } else {
      hide Encode;
      FragmentTurns(k, input, base, p);
      var q := Advanced(Appended(p, input));
      FragmentScanned(k, input, base, q);
      BufferGrows(input, p.pos, |input|, p.buffer);
      assert input[p.pos..|input|] == input[p.pos..] && input[p.pos + 1..|input|] == input[p.pos + 1..];
      LeadsOn(k, input, base, p, q, p.(pos := |input|, buffer := p.buffer + Encode(input[p.pos..])));
    }
  }

  // ---- Parts of URLs written out ----

  function FragmentTail(fragment: Option<seq<CodePoint>>): seq<CodePoint> {
    if fragment.None? then [] else [HASH] + fragment.value
  }

  function QueryTail(query: Option<seq<CodePoint>>, fragment: Option<seq<CodePoint>>): seq<CodePoint> {
    if query.None? then FragmentTail(fragment) else [QUESTION] + (query.value + FragmentTail(fragment))
  }

  function PathTail(segments: seq<seq<CodePoint>>, query: Option<seq<CodePoint>>,
                    fragment: Option<seq<CodePoint>>): seq<CodePoint> {
    if |segments| == 0 then QueryTail(query, fragment)
    else [SLASH] + (segments[0] + PathTail(segments[1..], query, fragment))
  }

  function WithQuery(k: Coding, u: Url, query: Option<seq<CodePoint>>): Url {
    if query.None? then u else u.(query := Some(k.encodeQuery(Encode(query.value), u.IsSpecial())))
  }

  function WithFragment(k: Coding, u: Url, fragment: Option<seq<CodePoint>>): Url {
    if fragment.None? then u else u.(fragment := Some(k.decode(Encode(fragment.value))))
  }

  /** What `..` leaves: all but the last segment, although never less than the drive letter of a file URL. */
  function Parent(file: bool, paths: seq<Text>): seq<Text> {
    if file && |paths| == 1 && IsNormalizedWindowsDriveLetter(paths[0]) then paths else WithoutLast(paths)
  }

  /** One segment further. A dot segment at the end leaves an empty one. */
  function Stepped(k: Coding, file: bool, paths: seq<Text>, s: seq<CodePoint>, last: bool): seq<Text> {
    var t := PathEncoded(k, s);
    var end := if last then [[]] else [];
    if IsDoubleDotPathSegment(t) then Parent(file, paths) + end
    else if IsSingleDotPathSegment(t) then paths + end
    else paths + [k.decode(if file && |paths| == 0 && IsWindowsDriveLetter(t) then [t[0], COLON] else t)]
  }

  /** Where the segments lead from a path. */
  function Walked(k: Coding, file: bool, paths: seq<Text>, segments: seq<seq<CodePoint>>): seq<Text>
    decreases |segments|
  {
    if |segments| == 0 then paths
    else Walked(k, file, Stepped(k, file, paths, segments[0], |segments| == 1), segments[1..])
  }

  predicate PathSegments(segments: seq<seq<CodePoint>>, special: bool) {
    forall i :: 0 <= i < |segments| ==> PathText(segments[i], special)
  }

  /** A special URL without a path gets an empty segment. */
  function SegmentsOrRoot(special: bool, segments: seq<seq<CodePoint>>): seq<seq<CodePoint>> {
    if special && |segments| == 0 then [[]] else segments
  }

  lemma Parted(input: seq<CodePoint>, pos: nat, a: seq<CodePoint>, b: seq<CodePoint>)
    requires pos <= |input| && input[pos..] == a + b
    ensures pos + |a| <= |input| && input[pos..pos + |a|] == a && input[pos + |a|..] == b
  {
    assert input[pos..pos + |a|] == input[pos..][..|a|];
    assert input[pos + |a|..] == input[pos..][|a|..];
  }

  lemma Headed(input: seq<CodePoint>, pos: nat, c: CodePoint, b: seq<CodePoint>)
    requires pos <= |input| && input[pos..] == [c] + b
    ensures pos < |input| && input[pos] == c && input[pos + 1..] == b
  {
    Parted(input, pos, [c], b);
    assert input[pos] == input[pos..][0];
  }

  // ---- Fragment and query ----

  lemma FragmentIsParsed(k: Coding, input: seq<CodePoint>, base: Option<Url>, p: Parser)
    requires Inv(input, base, p) && p.state == Fragment && p.pos <= |input| && p.buffer == []
    ensures Run(k, input, base, p) == Parsed(WithFragment(k, p.url, Some(input[p.pos..])).(valid := true))
  {
    hide Inv, Run, Encode;
    FragmentScanned(k, input, base, p);
    assert p.buffer + Encode(input[p.pos..]) == Encode(input[p.pos..]);
    RunEnds(k, input, base, p.(pos := |input|, buffer := Encode(input[p.pos..])));
  }

  lemma QueryAtHash(k: Coding, input: seq<CodePoint>, base: Option<Url>, p: Parser)
    requires Inv(input, base, p) && p.state == Query && p.pos < |input| && input[p.pos] == HASH
    requires p.url.query == Some([])
    ensures var u := p.url.(query := Some(k.encodeQuery(p.buffer, p.url.IsSpecial())), fragment := Some([]));
      var q := p.(url := u, buffer := [], state := Fragment, pos := p.pos + 1);
      Leads(k, input, base, p, q) && Inv(input, base, q)
  {
    hide Inv, Run, IsSpecialScheme;
    var u := p.url.(query := Some(k.encodeQuery(p.buffer, p.url.IsSpecial())), fragment := Some([]));
    LeadsByBreak(k, input, base, p, p.(url := u, buffer := [], state := Fragment));
  }

  lemma QueryStart(input: seq<CodePoint>, base: Option<Url>, p: Parser)
    requires Inv(input, base, p) && p.state == Query
    ensures p.url.query == Some([])
  {
  }

  lemma QueryIsParsed(k: Coding, input: seq<CodePoint>, base: Option<Url>, p: Parser, query: seq<CodePoint>,
                      fragment: Option<seq<CodePoint>>)
    requires Inv(input, base, p) && p.state == Query && p.pos <= |input| && p.buffer == []
    requires HASH !in query && input[p.pos..] == query + FragmentTail(fragment)
    ensures Run(k, input, base, p)
      == Parsed(WithFragment(k, WithQuery(k, p.url, Some(query)), fragment).(valid := true))
  {
    hide Inv, Run, Encode, Dispatch, IsSpecialScheme;
    var n := p.pos + |query|;
    Parted(input, p.pos, query, FragmentTail(fragment));
    QueryScanned(k, input, base, p, n);
    assert p.buffer + Encode(query) == Encode(query);
    var q := p.(pos := n, buffer := Encode(query));
    QueryStart(input, base, q);
    if fragment.None? {
      QueryEnds(k, input, base, q);
    } else {
      Headed(input, n, HASH, fragment.value);
      QueryAtHash(k, input, base, q);
      var u := q.url.(query := Some(k.encodeQuery(q.buffer, q.url.IsSpecial())), fragment := Some([]));
      FragmentIsParsed(k, input, base, q.(url := u, buffer := [], state := Fragment, pos := n + 1));
    }
  }

  // ---- The path ----

  /** Which segment a slash ends, and what ends the last one. */
  lemma SegmentIsAdded(k: Coding, u: Url, s: seq<CodePoint>, c: int)
    requires c == SLASH || c == QUESTION || c == HASH || c == END_OF_FILE
    ensures SegmentAdded(k, u, PathEncoded(k, s), c)
         == u.(paths := Stepped(k, u.scheme == FILE, u.paths, s, c != SLASH))
  {
    hide IsSingleDotPathSegment, IsDoubleDotPathSegment, IsSpecialScheme, PathEncoded, IsWindowsDriveLetter;
    hide IsNormalizedWindowsDriveLetter;
    assert u.paths + [] == u.paths && Parent(u.scheme == FILE, u.paths) + [] == Parent(u.scheme == FILE, u.paths);
  }

  function AfterSegment(k: Coding, p: Parser, s: seq<CodePoint>, last: bool): Parser {
    p.(url := p.url.(paths := Stepped(k, p.url.scheme == FILE, p.url.paths, s, last)), buffer := [])
  }

  /** Where the end of a segment leads. */
  lemma SegmentEnds(k: Coding, input: seq<CodePoint>, base: Option<Url>, p: Parser, s: seq<CodePoint>)
    requires Inv(input, base, p) && p.pos <= |input| && p.state == Path && p.buffer == PathEncoded(k, s)
    ensures var q := AfterSegment(k, p, s, true); var r := q.(pos := p.pos + 1);
      && (p.pos == |input| ==> Run(k, input, base, p) == Parsed(q.url.(valid := true)))
      && (p.pos < |input| && input[p.pos] == QUESTION ==>
        var t := r.(url := r.url.(query := Some([])), state := Query);
        Leads(k, input, base, p, t) && Inv(input, base, t))
      && (p.pos < |input| && input[p.pos] == HASH ==>
        var t := r.(url := r.url.(fragment := Some([])), state := Fragment);
        Leads(k, input, base, p, t) && Inv(input, base, t))
    ensures var r := AfterSegment(k, p, s, false).(pos := p.pos + 1);
      p.pos < |input| && input[p.pos] == SLASH ==> Leads(k, input, base, p, r) && Inv(input, base, r)
  {
    hide Inv, Run, IsSpecialScheme, SegmentAdded, Stepped, PathEncoded;
    var c := Current(input, p.pos);
    if p.pos == |input| || c == SLASH || c == QUESTION || c == HASH {
      SegmentIsAdded(k, p.url, s, c);
      var q := AfterSegment(k, p, s, c != SLASH);
      if p.pos == |input| {
        RunEnds(k, input, base, p);
      } else if c == SLASH {
        LeadsByBreak(k, input, base, p, q);
      } else if c == QUESTION {
        LeadsByBreak(k, input, base, p, q.(url := q.url.(query := Some([])), state := Query));
      } else {
        LeadsByBreak(k, input, base, p, q.(url := q.url.(fragment := Some([])), state := Fragment));
      }
    }
  }

  /** What follows the last segment. */
  lemma LastSegmentIsParsed(k: Coding, input: seq<CodePoint>, base: Option<Url>, p: Parser, s: seq<CodePoint>,
                            query: Option<seq<CodePoint>>, fragment: Option<seq<CodePoint>>)
    requires Inv(input, base, p) && p.pos <= |input| && p.state == Path && p.buffer == PathEncoded(k, s)
    requires (query.Some? ==> HASH !in query.value) && input[p.pos..] == QueryTail(query, fragment)
    ensures var u := AfterSegment(k, p, s, true).url;
      Run(k, input, base, p) == Parsed(WithFragment(k, WithQuery(k, u, query), fragment).(valid := true))
  {
    hide Inv, Run, Dispatch, IsSpecialScheme, PathEncoded, Encode, Stepped;
    SegmentEnds(k, input, base, p, s);
    var r := AfterSegment(k, p, s, true).(pos := p.pos + 1);
    if query.Some? {
      Headed(input, p.pos, QUESTION, query.value + FragmentTail(fragment));
      var t := r.(url := r.url.(query := Some([])), state := Query);
      QueryIsParsed(k, input, base, t, query.value, fragment);
    } else if fragment.Some? {
      Headed(input, p.pos, HASH, fragment.value);
      var t := r.(url := r.url.(fragment := Some([])), state := Fragment);
      FragmentIsParsed(k, input, base, t);
    }
  }

  function WithPath(k: Coding, u: Url, segments: seq<seq<CodePoint>>): Url {
    u.(paths := Walked(k, u.scheme == FILE, u.paths, segments))
  }

  lemma LastStep(k: Coding, u: Url, segments: seq<seq<CodePoint>>)
    requires |segments| == 1
    ensures WithPath(k, u, segments) == u.(paths := Stepped(k, u.scheme == FILE, u.paths, segments[0], true))
  {
    hide Stepped;
    var next := Stepped(k, u.scheme == FILE, u.paths, segments[0], true);
    assert Walked(k, u.scheme == FILE, next, segments[1..]) == next;
  }

  /** From after a slash to the end. */
  lemma {:induction false} PathIsParsed(k: Coding, input: seq<CodePoint>, base: Option<Url>, p: Parser,
                                        segments: seq<seq<CodePoint>>, query: Option<seq<CodePoint>>,
                                        fragment: Option<seq<CodePoint>>)
    requires Inv(input, base, p) && p.pos <= |input| && p.state == Path && p.buffer == []
    requires |segments| > 0 && PathSegments(segments, p.url.IsSpecial()) && (query.Some? ==> HASH !in query.value)
    requires input[p.pos..] == segments[0] + PathTail(segments[1..], query, fragment)
    ensures Run(k, input, base, p)
         == Parsed(WithFragment(k, WithQuery(k, WithPath(k, p.url, segments), query), fragment).(valid := true))
    decreases |segments|
  {
    hide Inv, Run, Dispatch, IsSpecialScheme, PathEncoded, Encode, WithQuery, WithFragment, Stepped;
    var s := segments[0];
    assert PathText(s, p.url.IsSpecial());
    hide PathText;
    var n := p.pos + |s|;
    Parted(input, p.pos, s, PathTail(segments[1..], query, fragment));
    PathScanned(k, input, base, p, n);
    assert p.buffer + PathEncoded(k, s) == PathEncoded(k, s);
    var q := p.(pos := n, buffer := PathEncoded(k, s));
    if |segments| == 1 {
      LastSegmentIsParsed(k, input, base, q, s, query, fragment);
      LastStep(k, p.url, segments);
    } else {
      SegmentEnds(k, input, base, q, s);
      Headed(input, n, SLASH, segments[1] + PathTail(segments[2..], query, fragment));
      assert segments[1..][0] == segments[1] && segments[1..][1..] == segments[2..];
      PathIsParsed(k, input, base, AfterSegment(k, q, s, false).(pos := n + 1), segments[1..], query, fragment);
    }
  }

  lemma PathBegins(k: Coding, input: seq<CodePoint>, base: Option<Url>, p: Parser)
    requires Inv(input, base, p) && p.state == PathStart && p.pos < |input| && input[p.pos] == SLASH
    ensures var q := p.(state := Path, pos := p.pos + 1); Leads(k, input, base, p, q) && Inv(input, base, q)
  {
    hide Inv, Run, IsSpecialScheme;
    LeadsByBreak(k, input, base, p, p.(state := Path));
  }

  /** A path that is not there, and what follows it. */
  lemma NoPathIsParsed(k: Coding, input: seq<CodePoint>, base: Option<Url>, p: Parser,
                       query: Option<seq<CodePoint>>, fragment: Option<seq<CodePoint>>)
    requires Inv(input, base, p) && p.pos <= |input| && p.state == PathStart && p.buffer == []
    requires (query.Some? ==> HASH !in query.value) && input[p.pos..] == QueryTail(query, fragment)
    ensures var u := WithPath(k, p.url, SegmentsOrRoot(p.url.IsSpecial(), []));
      Run(k, input, base, p) == Parsed(WithFragment(k, WithQuery(k, u, query), fragment).(valid := true))
  {
    hide Inv, Run, IsSpecialScheme, Encode, Walked, Stepped, WithQuery, WithFragment;
    TailHead(input, p.pos, query, fragment);
    if p.url.IsSpecial() {
      var q := p.(state := Path);
      LeadsByContinue(k, input, base, p, q);
      hide Dispatch;
      LastSegmentIsParsed(k, input, base, q, [], query, fragment);
      LastStep(k, p.url, [[]]);
    } else {
      NothingWalked(k, p.url);
      NoPathOrRootIsParsed(k, input, base, p, query, fragment);
    }
  }

  lemma NothingWalked(k: Coding, u: Url)
    ensures WithPath(k, u, []) == u
  {
  }

  /** How what follows a path begins. */
  lemma TailHead(input: seq<CodePoint>, pos: nat, query: Option<seq<CodePoint>>, fragment: Option<seq<CodePoint>>)
    requires pos <= |input| && input[pos..] == QueryTail(query, fragment)
    ensures var c := Current(input, pos);
      c == if query.Some? then QUESTION else if fragment.Some? then HASH else END_OF_FILE
  {
    assert pos < |input| ==> input[pos] == input[pos..][0];
  }

  /** Where a step leads that is followed by query and fragment, or by nothing. */
  function TailStep(p: Parser, u: Url, query: Option<seq<CodePoint>>, fragment: Option<seq<CodePoint>>): Parser {
    if query.Some? then p.(url := u.(query := Some([])), buffer := [], state := Query)
    else if fragment.Some? then p.(url := u.(fragment := Some([])), buffer := [], state := Fragment)
    else p.(url := u, buffer := [])
  }

  lemma TailIsParsed(k: Coding, input: seq<CodePoint>, base: Option<Url>, p: Parser, u: Url,
                     query: Option<seq<CodePoint>>, fragment: Option<seq<CodePoint>>)
    requires Inv(input, base, p) && p.pos <= |input| && (query.Some? ==> HASH !in query.value)
    requires input[p.pos..] == QueryTail(query, fragment)
    requires Dispatch(k, input, base, p) == Break(TailStep(p, u, query, fragment))
    ensures Run(k, input, base, p) == Parsed(WithFragment(k, WithQuery(k, u, query), fragment).(valid := true))
  {
    hide Inv, Run, Dispatch, IsSpecialScheme, Encode;
    var t := TailStep(p, u, query, fragment);
    if query.Some? {
      Headed(input, p.pos, QUESTION, query.value + FragmentTail(fragment));
      LeadsByBreak(k, input, base, p, t);
      QueryIsParsed(k, input, base, Advanced(t), query.value, fragment);
    } else if fragment.Some? {
      Headed(input, p.pos, HASH, fragment.value);
      LeadsByBreak(k, input, base, p, t);
      FragmentIsParsed(k, input, base, Advanced(t));
    } else {
      RunEnds(k, input, base, p);
    }
  }

  lemma NoPathOrRootIsParsed(k: Coding, input: seq<CodePoint>, base: Option<Url>, p: Parser,
                             query: Option<seq<CodePoint>>, fragment: Option<seq<CodePoint>>)
    requires Inv(input, base, p) && p.pos <= |input| && p.state == PathStart && p.buffer == [] && !p.url.IsSpecial()
    requires (query.Some? ==> HASH !in query.value) && input[p.pos..] == QueryTail(query, fragment)
    ensures Run(k, input, base, p) == Parsed(WithFragment(k, WithQuery(k, p.url, query), fragment).(valid := true))
  {
    hide Inv, Run, IsSpecialScheme, WithQuery, WithFragment;
    TailHead(input, p.pos, query, fragment);
    TailIsParsed(k, input, base, p, p.url, query, fragment);
  }

  /** From where the path begins, if there is one, to the end. */
  lemma PathStartIsParsed(k: Coding, input: seq<CodePoint>, base: Option<Url>, p: Parser,
                          segments: seq<seq<CodePoint>>, query: Option<seq<CodePoint>>,
                          fragment: Option<seq<CodePoint>>)
    requires Inv(input, base, p) && p.pos <= |input| && p.state == PathStart && p.buffer == []
    requires PathSegments(segments, p.url.IsSpecial()) && (query.Some? ==> HASH !in query.value)
    requires input[p.pos..] == PathTail(segments, query, fragment)
    ensures var u := WithPath(k, p.url, SegmentsOrRoot(p.url.IsSpecial(), segments));
      Run(k, input, base, p) == Parsed(WithFragment(k, WithQuery(k, u, query), fragment).(valid := true))
  {
    hide Inv, Run, Dispatch, IsSpecialScheme, Encode, Walked, WithQuery, WithFragment;
    if |segments| == 0 {
      NoPathIsParsed(k, input, base, p, query, fragment);
    } else {
      Headed(input, p.pos, SLASH, segments[0] + PathTail(segments[1..], query, fragment));
      PathBegins(k, input, base, p);
      PathIsParsed(k, input, base, p.(state := Path, pos := p.pos + 1), segments, query, fragment);
    }
  }

  lemma ValidLast(k: Coding, u: Url, search: Option<seq<CodePoint>>, end: Option<seq<CodePoint>>)
    ensures WithFragment(k, WithQuery(k, u, search), end).(valid := true)
         == WithFragment(k, WithQuery(k, u.(valid := true), search), end)
  {
    hide Encode, IsSpecialScheme;
  }

  lemma PathFirst(s: seq<CodePoint>, special: bool)
    requires |s| > 0 && PathText(s, special)
    ensures PathText([s[0]], special)
  {
  }

  /** Whether a character is read as a slash. */
  predicate ActsAsSlash(c: int, special: bool) {
    c == SLASH || (special && c == BACKSLASH)
  }

  /** The first character of a path tail that is no slash, or nothing. */
  lemma TailBegins(segments: seq<seq<CodePoint>>, search: Option<seq<CodePoint>>, end: Option<seq<CodePoint>>,
                   special: bool)
    requires |segments| > 0 && PathText(segments[0], special) && (|segments| > 1 ==> |segments[0]| > 0)
    ensures var rest := segments[0] + PathTail(segments[1..], search, end);
      |rest| > 0 ==> !ActsAsSlash(rest[0], special)
  {
  }

  // ---- The scheme ----

  lemma SchemeBegins(k: Coding, input: seq<CodePoint>, base: Option<Url>)
    requires |input| > 0 && IsAlpha(input[0])
    ensures var q := START.(state := Scheme, pos := 1, buffer := [ToLower(input[0])]);
      Leads(k, input, base, START, q) && Inv(input, base, q)
  {
    StartInvariant(input, base);
    hide Inv, Run;
    assert [] + [ToLower(input[0])] == [ToLower(input[0])];
    LeadsByBreak(k, input, base, START, START.(state := Scheme, buffer := [ToLower(input[0])]));
  }

  /** The longest prefix that could be part of a scheme. */
  function SchemeLength(s: seq<CodePoint>): (n: nat)
    ensures n <= |s|
  {
    if |s| > 0 && IsSchemePart(s[0]) then 1 + SchemeLength(s[1..]) else 0
  }

  predicate HasScheme(s: seq<CodePoint>) {
    |s| > 0 && IsAlpha(s[0]) && SchemeLength(s) < |s| && s[SchemeLength(s)] == COLON
  }

  lemma {:induction false} SchemePrefix(s: seq<CodePoint>)
    ensures AllSchemeParts(s[..SchemeLength(s)])
    ensures SchemeLength(s) < |s| ==> !IsSchemePart(s[SchemeLength(s)])
  {
    if |s| > 0 && IsSchemePart(s[0]) {
      SchemePrefix(s[1..]);
      assert s[..SchemeLength(s)] == [s[0]] + s[1..][..SchemeLength(s[1..])];
    }
  }

  lemma SchemeIsParsedUpTo(k: Coding, input: seq<CodePoint>, base: Option<Url>, n: nat)
    requires 0 < n <= |input| && IsAlpha(input[0]) && AllSchemeParts(input[..n])
    ensures var q := START.(state := Scheme, pos := n, buffer := LoweredAscii(input[..n]));
      Leads(k, input, base, START, q) && Inv(input, base, q)
  {
    hide Inv, Run, Dispatch;
    var s := input[..n];
    assert input[1..n] == s[1..] && input[0] == s[0];
    SchemeBegins(k, input, base);
    var p := START.(state := Scheme, pos := 1, buffer := [ToLower(input[0])]);
    SchemeScanned(k, input, base, p, n);
    assert [ToLower(s[0])] + LoweredAscii(s[1..]) == LoweredAscii(s);
    LeadsOn(k, input, base, START, p, START.(state := Scheme, pos := n, buffer := LoweredAscii(s)));
  }

  /** What is no scheme is read again from its beginning. */
  lemma NoSchemeIsFound(k: Coding, input: seq<CodePoint>, base: Option<Url>)
    requires !HasScheme(input)
    ensures var q := START.(state := NoScheme); Leads(k, input, base, START, q) && Inv(input, base, q)
  {
    StartInvariant(input, base);
    hide Inv, Run;
    if |input| == 0 || !IsAlpha(input[0]) {
      LeadsByContinue(k, input, base, START, START.(state := NoScheme));
    } else {
      var n := SchemeLength(input);
      SchemePrefix(input);
      SchemeIsParsedUpTo(k, input, base, n);
      LeadsByContinue(k, input, base, START.(state := Scheme, pos := n, buffer := LoweredAscii(input[..n])),
                      START.(state := NoScheme));
    }
  }

  lemma SchemeAndSlashes(input: seq<CodePoint>, scheme: seq<CodePoint>, rest: seq<CodePoint>)
    requires input == scheme + ([COLON] + ([SLASH] + ([SLASH] + rest)))
    ensures var n := |scheme|; |input| == n + 3 + |rest|
    ensures var n := |scheme|;
      input[n] == COLON && input[n + 1] == SLASH && input[n + 2] == SLASH && input[n + 3..] == rest
  {
    var n := |scheme|;
    assert input[0..] == input;
    Parted(input, 0, scheme, [COLON] + ([SLASH] + ([SLASH] + rest)));
    Headed(input, n, COLON, [SLASH] + ([SLASH] + rest));
    Headed(input, n + 1, SLASH, [SLASH] + rest);
    Headed(input, n + 2, SLASH, rest);
  }

  // ---- What is stripped ----

  /** A text without tabs and newlines stays as it is. */
  lemma {:induction false} NothingJoined(s: seq<CodePoint>)
    requires '\t' as int !in s && '\n' as int !in s
    ensures Joined(s) == s
  {
    if |s| > 0 {
      assert s[0] in s && forall c :: c in s[1..] ==> c in s;
      NothingJoined(s[1..]);
    }
  }

  /** Each tab and each newline is taken out, wherever it is. */
  lemma {:induction false} BreakIsTakenOut(a: seq<CodePoint>, c: CodePoint, b: seq<CodePoint>)
    requires c == '\t' as int || c == '\n' as int
    ensures Joined(a + ([c] + b)) == Joined(a) + Joined(b)
  {
    var s := a + ([c] + b);
    if |a| == 0 {
      assert s == [c] + b && s[1..] == b;
    } else {
      assert s[1..] == a[1..] + ([c] + b);
      BreakIsTakenOut(a[1..], c, b);
    }
  }

  /** Controls and spaces about a text are stripped. */
  lemma PaddingIsStripped(front: seq<CodePoint>, s: seq<CodePoint>, back: seq<CodePoint>)
    requires forall i :: 0 <= i < |front| ==> front[i] <= ' ' as int
    requires forall i :: 0 <= i < |back| ==> back[i] <= ' ' as int
    requires |s| > 0 && s[0] > ' ' as int && s[|s| - 1] > ' ' as int
    ensures Stripped(front + (s + back)) == s
  {
    var raw := front + (s + back);
    StrippedFront(raw, |front|);
    assert raw[|front|..] == s + back;
    StrippedBack(s + back, |s|);
    assert (s + back)[..|s|] == s;
  }
}
