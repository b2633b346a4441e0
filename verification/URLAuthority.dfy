/** What the parser makes of absolute URLs with an authority, such as `http://user@host:port/path`. */
module UrlAuthorities {
  import opened CommonTypes
  import opened Urls
  import opened UrlParsers
  import opened UrlMeaning

  // ---- What an authority stands for ----

  /** What follows the scheme and its colon. */
  datatype HierPart = HierPart(user: Option<seq<CodePoint>>, authority: seq<CodePoint>, segments: seq<seq<CodePoint>>,
                               query: Option<seq<CodePoint>>, fragment: Option<seq<CodePoint>>)

  /** Whether brackets are open behind a character. */
  predicate OpenAfter(c: CodePoint, open: bool) {
    c == OPEN_BRACKET || (open && c != CLOSE_BRACKET)
  }

  /** Up to the first colon outside brackets, or the end. */
  function HostLength(a: seq<CodePoint>, open: bool): (n: nat)
    ensures n <= |a|
  {
    if |a| == 0 || (a[0] == COLON && !open) then 0 else 1 + HostLength(a[1..], OpenAfter(a[0], open))
  }

  function HostPart(a: seq<CodePoint>): seq<CodePoint> {
    a[..HostLength(a, false)]
  }

  function PortPart(a: seq<CodePoint>): Option<seq<CodePoint>> {
    var n := HostLength(a, false);
    if n == |a| then None else Some(a[n + 1..])
  }

  function Unbracketed(s: seq<CodePoint>): seq<CodePoint> {
    if |s| == 0 then []
    else (if s[0] == OPEN_BRACKET || s[0] == CLOSE_BRACKET then [] else [s[0]]) + Unbracketed(s[1..])
  }

  /** The host that an authority names. Brackets play no part in it but to hide colons. */
  function HostOf(k: Coding, scheme: Text, a: seq<CodePoint>): HostResult {
    var t := Encode(Unbracketed(HostPart(a)));
    if |t| == 0 && (IsSpecialScheme(scheme) || PortPart(a).Some?) then NoHost
    else ParseHost(k, t, !IsSpecialScheme(scheme))
  }

  predicate AllDigits(s: seq<CodePoint>) {
    forall i :: 0 <= i < |s| ==> IsDigit(s[i])
  }

  /** No port, or none behind the colon, or a number of 16 bits. */
  predicate PortIsAccepted(port: Option<seq<CodePoint>>) {
    port.Some? ==>
      && AllDigits(port.value)
      && (|port.value| > 0 ==> ToUint(Encode(port.value)).Some? && ToUint(Encode(port.value)).value <= 65535)
  }

  function PortOf(scheme: Text, port: Option<seq<CodePoint>>): Option<nat> {
    if port.None? || |port.value| == 0 || ToUint(Encode(port.value)) == Some(DefaultPortForScheme(scheme)) then None
    else ToUint(Encode(port.value))
  }

  function AuthorityTail(x: HierPart): seq<CodePoint> {
    x.authority + PathTail(x.segments, x.query, x.fragment)
  }

  function UserTail(x: HierPart): seq<CodePoint> {
    if x.user.None? then AuthorityTail(x) else x.user.value + ([AT] + AuthorityTail(x))
  }

  /** `scheme://user@authority/segment/segment?query#fragment`, without what is absent. */
  function Written(scheme: seq<CodePoint>, x: HierPart): seq<CodePoint> {
    scheme + ([COLON] + ([SLASH] + ([SLASH] + UserTail(x))))
  }

  /**
   * An `@` may be in the user: the last one counts. Only a special URL has to have something between the slashes, and
   * only in a special URL a backslash would end the authority or a segment.
   */
  predicate IsHierPart(special: bool, x: HierPart) {
    && (x.user.Some? ==> PathText(x.user.value, special))
    && Plain(x.authority, special)
    && (special && x.user.None? ==> |x.authority| > 0)
    && PathSegments(x.segments, special)
    && (x.query.Some? ==> HASH !in x.query.value)
  }

  predicate SchemeIsWritten(scheme: seq<CodePoint>) {
    |scheme| > 0 && IsAlpha(scheme[0]) && AllSchemeParts(scheme) && LoweredAscii(scheme) != FILE
  }

  /** The URL with this host and the other parts, but for the user. */
  function UrlOf(k: Coding, scheme: Text, host: Text, x: HierPart): Url {
    var segments := SegmentsOrRoot(IsSpecialScheme(scheme), x.segments);
    var u := EMPTY_URL.(valid := true, scheme := scheme, port := PortOf(scheme, PortPart(x.authority)),
                        host := Some(host), paths := Walked(k, scheme == FILE, [], segments));
    WithFragment(k, WithQuery(k, u, x.query), x.fragment)
  }

  /** A URL, unless nothing follows the `@`, or the host or the port is refused. */
  function Meaning(k: Coding, scheme: Text, x: HierPart): Outcome {
    match HostOf(k, scheme, x.authority)
    case Host(host) =>
      if (x.user.Some? && |x.authority| == 0) || !PortIsAccepted(PortPart(x.authority)) then NotAUrl
      else Parsed(UrlOf(k, scheme, host, x))
    case _ => NotAUrl
  }

  // ---- The host ----

  lemma {:induction false} NothingBracketed(s: seq<CodePoint>)
    requires OPEN_BRACKET !in s && CLOSE_BRACKET !in s
    ensures Unbracketed(s) == s
  {
    if |s| > 0 {
      assert forall c :: c in s[1..] ==> c in s;
      NothingBracketed(s[1..]);
    }
  }

  lemma {:induction false} UnbracketedConcat(a: seq<CodePoint>, b: seq<CodePoint>)
    ensures Unbracketed(a + b) == Unbracketed(a) + Unbracketed(b)
  {
    if |a| == 0 {
      assert a + b == b;
    } else {
      assert (a + b)[1..] == a[1..] + b;
      UnbracketedConcat(a[1..], b);
    }
  }

  lemma {:induction false} EncodedHasNone(s: seq<CodePoint>)
    requires OPEN_BRACKET !in s
    ensures OPEN_BRACKET !in Encode(s)
  {
    if |s| > 0 {
      assert forall c :: c in s[..|s| - 1] ==> c in s;
      EncodedHasNone(s[..|s| - 1]);
    }
  }

  /** The colon behind the host is outside brackets. */
  predicate OpenAtEnd(s: seq<CodePoint>, open: bool)
    decreases |s|
  {
    if |s| == 0 then open else OpenAtEnd(s[1..], OpenAfter(s[0], open))
  }

  lemma {:induction false} HostLengthIs(a: seq<CodePoint>, open: bool)
    ensures var n := HostLength(a, open);
      && HostLength(a[..n], open) == n
      && (n < |a| ==> a[n] == COLON && !OpenAtEnd(a[..n], open))
    decreases |a|
  {
    var n := HostLength(a, open);
    if n > 0 {
      HostLengthIs(a[1..], OpenAfter(a[0], open));
      assert a[..n][1..] == a[1..][..n - 1];
    }
  }

  lemma HostTurns(k: Coding, input: seq<CodePoint>, base: Option<Url>, p: Parser)
    requires Inv(input, base, p) && p.state == HostState && p.pos < |input|
    requires Plain([input[p.pos]], p.url.IsSpecial())
    requires input[p.pos] == COLON ==> p.insideBrackets
    ensures var c := input[p.pos];
      var q := p.(pos := p.pos + 1, buffer := p.buffer + Encode(Unbracketed([c])),
                  insideBrackets := OpenAfter(c, p.insideBrackets));
      Leads(k, input, base, p, q) && Inv(input, base, q)
  {
    hide Inv, Run, IsSpecialScheme, Utf8, ParseHost;
    var c := input[p.pos];
    assert [c][0] == c && [c][1..] == [];
    OneEncoded(c);
    if c == OPEN_BRACKET || c == CLOSE_BRACKET {
      assert p.buffer + [] == p.buffer;
      LeadsByBreak(k, input, base, p, p.(insideBrackets := c == OPEN_BRACKET));
    } else {
      LeadsByBreak(k, input, base, p, Appended(p, input));
    }
  }

  lemma OneEncoded(c: CodePoint)
    ensures Encode([c]) == Utf8(c) && Encode([]) == []
  {
    assert [c][..0] == [];
  }

  lemma BufferTakes(buffer: Text, c: CodePoint, rest: seq<CodePoint>)
    ensures buffer + Encode(Unbracketed([c])) + Encode(Unbracketed(rest)) == buffer + Encode(Unbracketed([c] + rest))
  {
    hide *;
    UnbracketedConcat([c], rest);
    EncodeConcat(Unbracketed([c]), Unbracketed(rest));
    Associative(buffer, Encode(Unbracketed([c])), Encode(Unbracketed(rest)));
  }

  lemma Associative(a: Text, b: Text, c: Text)
    ensures a + b + c == a + (b + c)
  {
  }

  /** Brackets are not taken into the buffer, and colons inside them do not end the host. */
  lemma {:induction false} HostScanned(k: Coding, input: seq<CodePoint>, base: Option<Url>, p: Parser, n: nat)
    requires Inv(input, base, p) && p.state == HostState && p.pos <= n <= |input|
    requires Plain(input[p.pos..n], p.url.IsSpecial())
    requires HostLength(input[p.pos..n], p.insideBrackets) == n - p.pos
    ensures var s := input[p.pos..n];
      var q := p.(pos := n, buffer := p.buffer + Encode(Unbracketed(s)),
                  insideBrackets := OpenAtEnd(s, p.insideBrackets));
      Leads(k, input, base, p, q) && Inv(input, base, q)
    decreases n - p.pos
  {
    hide Inv, Run, Dispatch, Utf8;
    var s := input[p.pos..n];
    var q := p.(pos := n, buffer := p.buffer + Encode(Unbracketed(s)),
                insideBrackets := OpenAtEnd(s, p.insideBrackets));
    if p.pos == n {
      assert p.buffer + Encode(Unbracketed(s)) == p.buffer;
      LeadsNowhere(k, input, base, p);
    } else {
      var c := input[p.pos];
      assert s[0] == c && s[1..] == input[p.pos + 1..n];
      hide Encode, Unbracketed;
      PlainFront(input, p.pos, n, p.url.IsSpecial());
      HostTurns(k, input, base, p);
      var next := p.(pos := p.pos + 1, buffer := p.buffer + Encode(Unbracketed([c])),
                     insideBrackets := OpenAfter(c, p.insideBrackets));
      HostScanned(k, input, base, next, n);
      assert [c] + s[1..] == s;
      BufferTakes(p.buffer, c, s[1..]);
      LeadsOn(k, input, base, p, next, q);
    }
  }

  /** Where a host text ends: at a colon, or at the end of the authority. */
  predicate EndsThere(c: int) {
    c == SLASH || c == QUESTION || c == HASH || c == END_OF_FILE
  }

  /** The host at its end. */
  lemma HostIsJudged(k: Coding, input: seq<CodePoint>, base: Option<Url>, p: Parser, colon: bool)
    requires Inv(input, base, p) && p.state == HostState && p.pos <= |input|
    requires if colon then Current(input, p.pos) == COLON && !p.insideBrackets else EndsThere(Current(input, p.pos))
    ensures var empty := |p.buffer| == 0 && (p.url.IsSpecial() || colon);
      var r := ParseHost(k, p.buffer, !p.url.IsSpecial());
      && (empty || !r.Host? ==> Run(k, input, base, p) == NotAUrl)
      && (!empty && r.Host? ==>
        var q := p.(url := p.url.(host := Some(r.host)), buffer := [], state := Port,
                    pos := if colon then p.pos + 1 else p.pos);
        Leads(k, input, base, p, q) && Inv(input, base, q))
  {
    HostIsFree(input, base, p);
    hide Inv, Run, IsSpecialScheme;
    if |p.buffer| > 0 || !p.url.IsSpecial() {
      HostParses(k, p.buffer, !p.url.IsSpecial());
    }
    hide ParseHost;
    RunEnds(k, input, base, p);
    var r := ParseHost(k, p.buffer, !p.url.IsSpecial());
    if !(|p.buffer| == 0 && (p.url.IsSpecial() || colon)) && r.Host? {
      var q := p.(url := p.url.(host := Some(r.host)), buffer := [], state := Port);
      if colon {
        LeadsByBreak(k, input, base, p, q);
      } else {
        LeadsByContinue(k, input, base, p, q);
      }
    }
  }

  lemma HostIsFree(input: seq<CodePoint>, base: Option<Url>, p: Parser)
    requires Inv(input, base, p) && p.state == HostState
    ensures OPEN_BRACKET !in p.buffer
  {
  }

  // ---- The port ----

  lemma PortTurns(k: Coding, input: seq<CodePoint>, base: Option<Url>, p: Parser)
    requires Inv(input, base, p) && p.state == Port && p.pos < |input| && IsDigit(input[p.pos])
    ensures var q := Advanced(Appended(p, input)); Leads(k, input, base, p, q) && Inv(input, base, q)
  {
    hide Inv, Run, IsSpecialScheme, Utf8, ToUint;
    LeadsByBreak(k, input, base, p, Appended(p, input));
  }

  lemma {:induction false} PortScanned(k: Coding, input: seq<CodePoint>, base: Option<Url>, p: Parser, n: nat)
    requires Inv(input, base, p) && p.state == Port && p.pos <= n <= |input| && AllDigits(input[p.pos..n])
    ensures Leads(k, input, base, p, p.(pos := n, buffer := p.buffer + Encode(input[p.pos..n])))
    decreases n - p.pos
  {
    hide Inv, Run, Dispatch, Utf8;
    if p.pos == n {
      assert p.buffer + Encode(input[p.pos..n]) == p.buffer;
      LeadsNowhere(k, input, base, p);
    } else {
      hide Encode;
      assert input[p.pos] == input[p.pos..n][0] && input[p.pos + 1..n] == input[p.pos..n][1..];
      PortTurns(k, input, base, p);
      var q := Advanced(Appended(p, input));
      PortScanned(k, input, base, q, n);
      BufferGrows(input, p.pos, n, p.buffer);
      LeadsOn(k, input, base, p, q, p.(pos := n, buffer := p.buffer + Encode(input[p.pos..n])));
    }
  }

  /** Anything but digits in the port is refused. */
  lemma {:induction false} NoPortIsRead(k: Coding, input: seq<CodePoint>, base: Option<Url>, p: Parser, n: nat)
    requires Inv(input, base, p) && p.state == Port && p.pos <= n <= |input|
    requires Plain(input[p.pos..n], p.url.IsSpecial()) && !AllDigits(input[p.pos..n])
    ensures Run(k, input, base, p) == NotAUrl
    decreases n - p.pos
  {
    hide Inv, Run, IsSpecialScheme, Utf8, ToUint;
    PlainFront(input, p.pos, n, p.url.IsSpecial());
    assert [input[p.pos]][0] == input[p.pos];
    assert input[p.pos] == input[p.pos..n][0] && input[p.pos + 1..n] == input[p.pos..n][1..];
    if IsDigit(input[p.pos]) {
      PortTurns(k, input, base, p);
      NoPortIsRead(k, input, base, Advanced(Appended(p, input)), n);
    } else {
      RunEnds(k, input, base, p);
    }
  }

  lemma EncodedPort(port: seq<CodePoint>)
    ensures |Encode(port)| == 0 <==> |port| == 0
    ensures |port| == 0 ==> Encode(port) == []
  {
  }

  /** The port, absent or not, at the end of the authority. */
  lemma PortIsJudged(k: Coding, input: seq<CodePoint>, base: Option<Url>, p: Parser, port: Option<seq<CodePoint>>)
    requires Inv(input, base, p) && p.state == Port && p.pos <= |input| && EndsThere(Current(input, p.pos))
    requires p.buffer == Encode(if port.None? then [] else port.value) && p.url.port == None
    requires port.Some? ==> AllDigits(port.value)
    ensures var q := p.(url := p.url.(port := PortOf(p.url.scheme, port)), buffer := [], state := PathStart);
      if PortIsAccepted(port) then Leads(k, input, base, p, q) && Inv(input, base, q)
      else Run(k, input, base, p) == NotAUrl
  {
    hide Inv, Run, IsSpecialScheme, ToUint, DefaultPortForScheme;
    EncodedPort(if port.None? then [] else port.value);
    hide Encode;
    if PortIsAccepted(port) {
      LeadsByContinue(k, input, base, p,
                      p.(url := p.url.(port := PortOf(p.url.scheme, port)), buffer := [], state := PathStart));
    } else {
      RunEnds(k, input, base, p);
    }
  }

  lemma EndOfAuthority(input: seq<CodePoint>, pos: nat, x: HierPart)
    requires pos <= |input| && input[pos..] == PathTail(x.segments, x.query, x.fragment)
    ensures EndsThere(Current(input, pos))
  {
    assert pos < |input| ==> input[pos] == input[pos..][0];
  }

  /** From the port, which may be absent, to the end. */
  lemma PortIsParsed(k: Coding, input: seq<CodePoint>, base: Option<Url>, p: Parser, x: HierPart,
                     port: Option<seq<CodePoint>>)
    requires Inv(input, base, p) && p.pos <= |input| && p.state == Port && p.buffer == [] && p.url.port == None
    requires IsHierPart(p.url.IsSpecial(), x) && (port.Some? ==> Plain(port.value, p.url.IsSpecial()))
    requires input[p.pos..] == (if port.None? then [] else port.value) + PathTail(x.segments, x.query, x.fragment)
    ensures !PortIsAccepted(port) ==> Run(k, input, base, p) == NotAUrl
    ensures PortIsAccepted(port) ==>
      var u := WithPath(k, p.url.(port := PortOf(p.url.scheme, port)),
                        SegmentsOrRoot(p.url.IsSpecial(), x.segments));
      Run(k, input, base, p) == Parsed(WithFragment(k, WithQuery(k, u, x.query), x.fragment).(valid := true))
  {
    hide Inv, Run, Dispatch, IsSpecialScheme, Encode, WithQuery, WithFragment, WithPath, PortOf, PathTail;
    var text := if port.None? then [] else port.value;
    var n := p.pos + |text|;
    Parted(input, p.pos, text, PathTail(x.segments, x.query, x.fragment));
    if AllDigits(text) {
      PortScanned(k, input, base, p, n);
      assert p.buffer + Encode(text) == Encode(text);
      EndOfAuthority(input, n, x);
      var q := p.(pos := n, buffer := Encode(text));
      PortIsJudged(k, input, base, q, port);
      if PortIsAccepted(port) {
        hide PortIsAccepted;
        var r := q.(url := p.url.(port := PortOf(p.url.scheme, port)), buffer := [], state := PathStart);
        PathStartIsParsed(k, input, base, r, x.segments, x.query, x.fragment);
      }
    } else {
      NoPortIsRead(k, input, base, p, n);
    }
  }

  // ---- Host and port ----

  /** An authority falls into host and port. */
  lemma AuthorityParts(a: seq<CodePoint>, special: bool)
    requires Plain(a, special)
    ensures a == HostPart(a) + (if PortPart(a).None? then [] else [COLON] + PortPart(a).value)
    ensures Plain(HostPart(a), special) && (PortPart(a).Some? ==> Plain(PortPart(a).value, special))
    ensures HostLength(HostPart(a), false) == |HostPart(a)|
    ensures PortPart(a).Some? ==> !OpenAtEnd(HostPart(a), false)
  {
    HostLengthIs(a, false);
  }

  /** Where the host ends in the input, and what follows it. */
  lemma HostEnds(input: seq<CodePoint>, pos: nat, x: HierPart, special: bool)
    requires pos <= |input| && Plain(x.authority, special) && input[pos..] == AuthorityTail(x)
    ensures var n := pos + |HostPart(x.authority)|; n <= |input| && input[pos..n] == HostPart(x.authority)
    ensures var n := pos + |HostPart(x.authority)|; var path := PathTail(x.segments, x.query, x.fragment);
      match PortPart(x.authority)
      case None => EndsThere(Current(input, n)) && input[n..] == [] + path
      case Some(port) => n < |input| && Current(input, n) == COLON && input[n + 1..] == port + path
  {
    hide HostPart, PortPart, PathTail, Plain, EndsThere;
    AuthorityParts(x.authority, special);
    var host, port := HostPart(x.authority), PortPart(x.authority);
    var path := PathTail(x.segments, x.query, x.fragment);
    if port.None? {
      assert AuthorityTail(x) == host + path && [] + path == path;
      Parted(input, pos, host, path);
      EndOfAuthority(input, pos + |host|, x);
    } else {
      assert AuthorityTail(x) == host + ([COLON] + (port.value + path));
      Parted(input, pos, host, [COLON] + (port.value + path));
      Headed(input, pos + |host|, COLON, port.value + path);
    }
  }

  /** From the host to the end. */
  lemma HostIsParsed(k: Coding, input: seq<CodePoint>, base: Option<Url>, p: Parser, x: HierPart)
    requires Inv(input, base, p) && p.pos <= |input| && p.state == HostState && p.buffer == [] && !p.insideBrackets
    requires IsHierPart(p.url.IsSpecial(), x) && p.url == EMPTY_URL.(scheme := p.url.scheme)
    requires input[p.pos..] == AuthorityTail(x) && (x.user.Some? ==> |x.authority| > 0)
    ensures Run(k, input, base, p) == Meaning(k, p.url.scheme, x)
  {
    hide Inv, Run, Dispatch, IsSpecialScheme, Encode, Meaning, HostPart, PortPart, PathTail, AuthorityTail;
    HostEnds(input, p.pos, x, p.url.IsSpecial());
    AuthorityParts(x.authority, p.url.IsSpecial());
    var host := HostPart(x.authority);
    var n := p.pos + |host|;
    PlainHost(x, p.url.IsSpecial());
    HostScanned(k, input, base, p, n);
    var t := Encode(Unbracketed(host));
    assert p.buffer + t == t;
    HostEndIsParsed(k, input, base, p.(pos := n, buffer := t, insideBrackets := OpenAtEnd(host, false)), x);
  }

  lemma PlainHost(x: HierPart, special: bool)
    requires Plain(x.authority, special)
    ensures Plain(HostPart(x.authority), special)
  {
  }

  lemma HostEndIsParsed(k: Coding, input: seq<CodePoint>, base: Option<Url>, p: Parser, x: HierPart)
    requires Inv(input, base, p) && p.pos <= |input| && p.state == HostState && IsHierPart(p.url.IsSpecial(), x)
    requires p.url == EMPTY_URL.(scheme := p.url.scheme) && (x.user.Some? ==> |x.authority| > 0)
    requires p.buffer == Encode(Unbracketed(HostPart(x.authority)))
    requires PortPart(x.authority).Some? ==> !p.insideBrackets
    requires var path := PathTail(x.segments, x.query, x.fragment);
      match PortPart(x.authority)
      case None => EndsThere(Current(input, p.pos)) && input[p.pos..] == [] + path
      case Some(port) => p.pos < |input| && Current(input, p.pos) == COLON && input[p.pos + 1..] == port + path
    ensures Run(k, input, base, p) == Meaning(k, p.url.scheme, x)
  {
    hide Inv, Run, Dispatch, IsSpecialScheme, Encode, ParseHost, PortOf, Walked, PathTail, UrlOf, PortIsAccepted;
    hide HostPart, EndsThere, Unbracketed;
    AuthorityParts(x.authority, p.url.IsSpecial());
    var port := PortPart(x.authority);
    hide PortPart;
    HostIsJudged(k, input, base, p, port.Some?);
    if HostOf(k, p.url.scheme, x.authority).Host? {
      var h := HostOf(k, p.url.scheme, x.authority).host;
      var r := p.(url := p.url.(host := Some(h)), buffer := [], state := Port,
                  pos := if port.None? then p.pos else p.pos + 1);
      PortIsParsed(k, input, base, r, x, port);
      PutTogether(k, p.url, h, x);
    }
  }

  lemma PutTogether(k: Coding, u: Url, h: Text, x: HierPart)
    requires u == EMPTY_URL.(scheme := u.scheme)
    ensures var v := WithPath(k, u.(host := Some(h), port := PortOf(u.scheme, PortPart(x.authority))),
                              SegmentsOrRoot(u.IsSpecial(), x.segments));
      WithFragment(k, WithQuery(k, v, x.query), x.fragment).(valid := true) == UrlOf(k, u.scheme, h, x)
  {
    hide IsSpecialScheme, Encode, PortOf, Walked;
  }

  // ---- Authority ----

  /** What ends an authority behind an `@` that nothing follows. */
  lemma AuthorityEnds(k: Coding, input: seq<CodePoint>, base: Option<Url>, p: Parser, start: nat)
    requires Inv(input, base, p) && p.state == Authority && p.pos <= |input| && EndsThere(Current(input, p.pos))
    requires BufferedSince(input, p.pos, p.buffer, start)
    ensures var q := p.(state := HostState, buffer := [], pos := start);
      if p.atSignSeen && |p.buffer| == 0 then Run(k, input, base, p) == NotAUrl
      else Leads(k, input, base, p, q) && Inv(input, base, q)
  {
    hide Inv, Run, IsSpecialScheme, AtByteOffset, ByteOffset, Encode;
    AuthorityRewinds(input, p, start);
    if p.atSignSeen && |p.buffer| == 0 {
      RunEnds(k, input, base, p);
    } else {
      LeadsByBreak(k, input, base, p, p.(state := HostState, buffer := [], pos := start - 1));
    }
  }

  /** The authority is read once to its end, and again for the host. */
  lemma HostAndPortAreParsed(k: Coding, input: seq<CodePoint>, base: Option<Url>, p: Parser, x: HierPart)
    requires Inv(input, base, p) && 1 <= p.pos <= |input| && input[p.pos - 1] < 0x80 && p.state == Authority
    requires p.buffer == [] && !p.insideBrackets && p.atSignSeen == x.user.Some?
    requires IsHierPart(p.url.IsSpecial(), x) && p.url == EMPTY_URL.(scheme := p.url.scheme)
    requires input[p.pos..] == AuthorityTail(x)
    ensures Run(k, input, base, p) == Meaning(k, p.url.scheme, x)
  {
    var a := x.authority;
    EncodedPort(a);
    hide Inv, Run, Dispatch, IsSpecialScheme, Encode, ParseHost, UrlOf, PathTail, HostOf;
    var n := p.pos + |a|;
    Parted(input, p.pos, a, PathTail(x.segments, x.query, x.fragment));
    EndOfAuthority(input, n, x);
    AuthorityScanned(k, input, base, p, n);
    assert p.buffer + Encode(a) == Encode(a);
    AuthorityEnds(k, input, base, p.(pos := n, buffer := Encode(a)), p.pos);
    if x.user.None? || |a| > 0 {
      hide Meaning;
      HostIsParsed(k, input, base, p.(state := HostState), x);
    }
  }

  /** Everything up to the last `@` is passed over. */
  lemma {:induction false} UserIsPassed(k: Coding, input: seq<CodePoint>, base: Option<Url>, p: Parser, n: nat)
    requires Inv(input, base, p) && p.state == Authority && p.pos <= n < |input| && input[n] == AT
    requires PathText(input[p.pos..n], p.url.IsSpecial())
    ensures var q := p.(pos := n + 1, buffer := [], atSignSeen := true);
      Leads(k, input, base, p, q) && Inv(input, base, q)
    decreases n - p.pos
  {
    hide Inv, Run, IsSpecialScheme, Utf8, AtByteOffset, ByteOffset;
    if input[p.pos] == AT {
      var q := p.(buffer := [], atSignSeen := true);
      LeadsByBreak(k, input, base, p, q);
      if p.pos < n {
        UserFront(input, p.pos, n, p.url.IsSpecial());
        UserIsPassed(k, input, base, Advanced(q), n);
        LeadsOn(k, input, base, p, Advanced(q), p.(pos := n + 1, buffer := [], atSignSeen := true));
      }
    } else {
      UserFront(input, p.pos, n, p.url.IsSpecial());
      var q := Appended(p, input);
      LeadsByBreak(k, input, base, p, q);
      UserIsPassed(k, input, base, Advanced(q), n);
      LeadsOn(k, input, base, p, Advanced(q), p.(pos := n + 1, buffer := [], atSignSeen := true));
    }
  }

  lemma UserFront(input: seq<CodePoint>, pos: nat, n: nat, special: bool)
    requires pos < n <= |input| && PathText(input[pos..n], special)
    ensures !ActsAsSlash(input[pos], special) && input[pos] != QUESTION && input[pos] != HASH
    ensures PathText(input[pos + 1..n], special)
  {
    assert input[pos] == input[pos..n][0] && input[pos + 1..n] == input[pos..n][1..];
  }

  /** A user is passed over, and host and port are what follows the last `@`. */
  lemma AuthorityIsParsed(k: Coding, input: seq<CodePoint>, base: Option<Url>, p: Parser, x: HierPart)
    requires Inv(input, base, p) && 1 <= p.pos <= |input| && input[p.pos - 1] < 0x80 && p.state == Authority
    requires p.buffer == [] && !p.insideBrackets && !p.atSignSeen
    requires IsHierPart(p.url.IsSpecial(), x) && p.url == EMPTY_URL.(scheme := p.url.scheme)
    requires input[p.pos..] == UserTail(x)
    ensures Run(k, input, base, p) == Meaning(k, p.url.scheme, x)
  {
    hide Inv, Run, Dispatch, IsSpecialScheme, Meaning, AuthorityTail, PathText;
    if x.user.None? {
      HostAndPortAreParsed(k, input, base, p, x);
    } else {
      var user := x.user.value;
      var n := p.pos + |user|;
      Parted(input, p.pos, user, [AT] + AuthorityTail(x));
      Headed(input, n, AT, AuthorityTail(x));
      UserIsPassed(k, input, base, p, n);
      HostAndPortAreParsed(k, input, base, p.(pos := n + 1, buffer := [], atSignSeen := true), x);
    }
  }

  // ---- Absolute URLs ----

  /** After a scheme, two slashes lead to the authority, whatever the scheme and the base URL. */
  lemma SlashesAreParsed(k: Coding, input: seq<CodePoint>, base: Option<Url>, p: Parser)
    requires Inv(input, base, p) && p.state == Scheme && p.url == EMPTY_URL && p.buffer != FILE && p.pos + 2 < |input|
    requires input[p.pos] == COLON && input[p.pos + 1] == SLASH && input[p.pos + 2] == SLASH
    requires IsSpecialScheme(p.buffer) ==> p.pos + 3 < |input| && !IsSlash(input[p.pos + 3])
    ensures var q := p.(state := Authority, pos := p.pos + 3, buffer := [], url := EMPTY_URL.(scheme := p.buffer));
      Leads(k, input, base, p, q) && Inv(input, base, q)
  {
    hide Inv, Run, IsSpecialScheme;
    var u := EMPTY_URL.(scheme := p.buffer);
    var at := p.(buffer := [], url := u);
    if u.IsSpecial() {
      var s1 :=
        if base.Some? && base.value.scheme == u.scheme then SpecialRelativeOrAuthority else SpecialAuthoritySlashes;
      LeadsByBreak(k, input, base, p, at.(state := s1));
      SecondSlash(k, input, base, at.(state := s1, pos := p.pos + 1));
      LeadsByContinue(k, input, base, at.(state := SpecialAuthorityIgnoreSlashes, pos := p.pos + 3),
                      at.(state := Authority, pos := p.pos + 3));
    } else {
      LeadsByBreak(k, input, base, p, at.(state := PathOrAuthority, pos := p.pos + 1));
      LeadsByBreak(k, input, base, at.(state := PathOrAuthority, pos := p.pos + 2),
                   at.(state := Authority, pos := p.pos + 2));
    }
  }

  lemma SecondSlash(k: Coding, input: seq<CodePoint>, base: Option<Url>, p: Parser)
    requires Inv(input, base, p) && (p.state == SpecialRelativeOrAuthority || p.state == SpecialAuthoritySlashes)
    requires p.pos + 1 < |input| && input[p.pos] == SLASH && input[p.pos + 1] == SLASH
    ensures var q := p.(state := SpecialAuthorityIgnoreSlashes, pos := p.pos + 2);
      Leads(k, input, base, p, q) && Inv(input, base, q)
  {
    hide Inv, Run, IsSpecialScheme;
    LeadsByBreak(k, input, base, p, p.(state := SpecialAuthorityIgnoreSlashes, pos := p.pos + 1));
  }

  lemma FirstOfAuthority(x: HierPart)
    requires IsHierPart(true, x)
    ensures |UserTail(x)| > 0 && !IsSlash(UserTail(x)[0])
  {
    if x.user.Some? && |x.user.value| > 0 {
      assert UserTail(x)[0] == x.user.value[0];
    } else if x.user.Some? {
      assert UserTail(x)[0] == AT;
    } else {
      assert UserTail(x)[0] == x.authority[0];
    }
  }

  /**
   * An absolute URL, written out from its scheme, user, authority, path segments, query and fragment, is parsed into
   * these parts, or refused for its host or port, whatever the base URL; only the user is forgotten.
   */
  lemma WrittenIsParsed(k: Coding, scheme: seq<CodePoint>, x: HierPart, base: Option<Url>)
    requires SchemeIsWritten(scheme) && IsHierPart(IsSpecialScheme(LoweredAscii(scheme)), x)
    ensures var input := Written(scheme, x);
      Inv(input, base, START) && Run(k, input, base, START) == Meaning(k, LoweredAscii(scheme), x)
  {
    var input := Written(scheme, x);
    var n := |scheme|;
    StartInvariant(input, base);
    var rest := UserTail(x);
    if IsSpecialScheme(LoweredAscii(scheme)) {
      FirstOfAuthority(x);
    }
    hide Inv, Run, Dispatch, IsSpecialScheme, Meaning, UserTail, IsHierPart, LoweredAscii;
    AuthorityIsEntered(k, input, base, scheme, rest);
    SchemeAndSlashes(input, scheme, rest);
    hide Written;
    AuthorityIsParsed(k, input, base, START.(state := Authority, pos := n + 3,
                                             url := EMPTY_URL.(scheme := LoweredAscii(scheme))), x);
  }

  lemma AuthorityIsEntered(k: Coding, input: seq<CodePoint>, base: Option<Url>, scheme: seq<CodePoint>,
                           rest: seq<CodePoint>)
    requires SchemeIsWritten(scheme) && input == scheme + ([COLON] + ([SLASH] + ([SLASH] + rest)))
    requires IsSpecialScheme(LoweredAscii(scheme)) ==> |rest| > 0 && !IsSlash(rest[0])
    ensures var q := START.(state := Authority, pos := |scheme| + 3,
                            url := EMPTY_URL.(scheme := LoweredAscii(scheme)));
      Leads(k, input, base, START, q) && Inv(input, base, q)
  {
    hide Inv, Run, Dispatch, IsSpecialScheme;
    var n := |scheme|;
    assert input[..n] == scheme;
    SchemeAndSlashes(input, scheme, rest);
    assert |rest| > 0 ==> input[n + 3] == rest[0];
    SchemeIsParsedUpTo(k, input, base, n);
    var p := START.(state := Scheme, pos := n, buffer := LoweredAscii(scheme));
    hide LoweredAscii;
    SlashesAreParsed(k, input, base, p);
    LeadsOn(k, input, base, START, p,
            p.(state := Authority, pos := n + 3, buffer := [], url := EMPTY_URL.(scheme := p.buffer)));
  }

  /** The same through `parse`, from any input that is the written URL once it is stripped and joined. */
  lemma WrittenParses(k: Coding, raw: seq<CodePoint>, scheme: seq<CodePoint>, x: HierPart, base: Option<Url>)
    requires SchemeIsWritten(scheme) && IsHierPart(IsSpecialScheme(LoweredAscii(scheme)), x)
    requires Joined(Stripped(raw)) == Written(scheme, x) && !(DATA_PREFIX <= raw)
    ensures ParseResult(k, raw, base) == Meaning(k, LoweredAscii(scheme), x)
  {
    hide Inv, Run, Meaning, IsHierPart;
    WrittenIsParsed(k, scheme, x, base);
    assert |Written(scheme, x)| >= 3;
  }

  /** However many slashes there are, they are passed over. */
  lemma {:induction false} SlashesArePassed(k: Coding, input: seq<CodePoint>, base: Option<Url>, p: Parser, n: nat)
    requires Inv(input, base, p) && p.state == SpecialAuthorityIgnoreSlashes && p.pos <= n < |input|
    requires (forall i :: p.pos <= i < n ==> IsSlash(input[i])) && !IsSlash(input[n])
    ensures var q := p.(state := Authority, pos := n); Leads(k, input, base, p, q) && Inv(input, base, q)
    decreases n - p.pos
  {
    hide Inv, Run;
    if p.pos < n {
      LeadsByBreak(k, input, base, p, p);
      SlashesArePassed(k, input, base, Advanced(p), n);
      LeadsOn(k, input, base, p, Advanced(p), p.(state := Authority, pos := n));
    } else {
      LeadsByContinue(k, input, base, p, p.(state := Authority));
    }
  }

  lemma SlashesOrNone(k: Coding, input: seq<CodePoint>, base: Option<Url>, p: Parser, n: nat)
    requires Inv(input, base, p) && p.state == SpecialAuthoritySlashes && p.pos <= n < |input|
    requires (forall i :: p.pos <= i < n ==> IsSlash(input[i])) && !IsSlash(input[n])
    ensures var q := p.(state := Authority, pos := n); Leads(k, input, base, p, q) && Inv(input, base, q)
  {
    hide Inv, Run;
    if Current(input, p.pos) == SLASH && RemainingStartsWithSlash(input, p.pos) {
      var q := p.(state := SpecialAuthorityIgnoreSlashes, pos := p.pos + 1);
      LeadsByBreak(k, input, base, p, q);
      SlashesArePassed(k, input, base, Advanced(q), n);
    } else {
      var q := p.(state := SpecialAuthorityIgnoreSlashes);
      LeadsByContinue(k, input, base, p, q);
      SlashesArePassed(k, input, base, q, n);
    }
  }

  predicate AllSlashes(s: seq<CodePoint>) {
    forall i :: 0 <= i < |s| ==> IsSlash(s[i])
  }

  lemma LooseParts(input: seq<CodePoint>, scheme: seq<CodePoint>, slashes: seq<CodePoint>, rest: seq<CodePoint>)
    requires input == scheme + ([COLON] + (slashes + rest)) && AllSlashes(slashes)
    ensures var n, m := |scheme|, |scheme| + 1 + |slashes|;
      && |input| == m + |rest| && input[..n] == scheme && input[n] == COLON
      && input[m..] == rest && (forall i :: n + 1 <= i < m ==> IsSlash(input[i]))
  {
    var n := |scheme|;
    assert input[0..] == input;
    Parted(input, 0, scheme, [COLON] + (slashes + rest));
    Headed(input, n, COLON, slashes + rest);
    Parted(input, n + 1, slashes, rest);
    forall i | n + 1 <= i < n + 1 + |slashes| ensures IsSlash(input[i]) {
      assert input[i] == input[n + 1..n + 1 + |slashes|][i - (n + 1)];
    }
  }

  /** A special URL may have any slashes, or none, before its authority, unless its base has the same scheme. */
  lemma LooselyWrittenIsParsed(k: Coding, scheme: seq<CodePoint>, slashes: seq<CodePoint>, x: HierPart,
                               base: Option<Url>)
    requires SchemeIsWritten(scheme) && IsSpecialScheme(LoweredAscii(scheme)) && IsHierPart(true, x)
    requires AllSlashes(slashes) && (base.Some? ==> base.value.scheme != LoweredAscii(scheme))
    ensures var input := scheme + ([COLON] + (slashes + UserTail(x)));
      Inv(input, base, START) && Run(k, input, base, START) == Meaning(k, LoweredAscii(scheme), x)
  {
    var input := scheme + ([COLON] + (slashes + UserTail(x)));
    var n, m := |scheme|, |scheme| + 1 + |slashes|;
    FirstOfAuthority(x);
    hide Inv, Run, IsSpecialScheme, Meaning, UserTail, IsHierPart;
    LooseParts(input, scheme, slashes, UserTail(x));
    assert input[m] == input[m..][0];
    SchemeIsParsedUpTo(k, input, base, n);
    var p := START.(state := Scheme, pos := n, buffer := LoweredAscii(scheme));
    var u := EMPTY_URL.(scheme := p.buffer);
    var q := p.(state := SpecialAuthoritySlashes, buffer := [], url := u);
    LeadsByBreak(k, input, base, p, q);
    hide Dispatch;
    SlashesOrNone(k, input, base, Advanced(q), m);
    assert input[m - 1] < 0x80;
    AuthorityIsParsed(k, input, base, q.(state := Authority, pos := m), x);
  }

  /** A URL that is not special may have a path without an authority. */
  lemma RootedIsParsed(k: Coding, scheme: seq<CodePoint>, segments: seq<seq<CodePoint>>, query: Option<seq<CodePoint>>,
                       fragment: Option<seq<CodePoint>>, base: Option<Url>)
    requires SchemeIsWritten(scheme) && !IsSpecialScheme(LoweredAscii(scheme)) && (query.Some? ==> HASH !in query.value)
    requires |segments| > 0 && PathSegments(segments, false) && (|segments| > 1 ==> |segments[0]| > 0)
    ensures var input := scheme + ([COLON] + PathTail(segments, query, fragment));
      var u := EMPTY_URL.(valid := true, scheme := LoweredAscii(scheme), paths := Walked(k, false, [], segments));
      && Inv(input, base, START)
      && Run(k, input, base, START) == Parsed(WithFragment(k, WithQuery(k, u, query), fragment))
  {
    hide Inv, Run, IsSpecialScheme, Encode, Walked, WithQuery, WithFragment, Dispatch, LoweredAscii;
    var input := scheme + ([COLON] + PathTail(segments, query, fragment));
    var n := |scheme|;
    var rest := segments[0] + PathTail(segments[1..], query, fragment);
    TailBegins(segments, query, fragment, false);
    assert input == scheme + ([COLON] + ([SLASH] + rest));
    hide PathTail;
    RootIsEntered(k, input, base, scheme, rest);
    var u := EMPTY_URL.(scheme := LoweredAscii(scheme));
    PathIsParsed(k, input, base, START.(state := Path, pos := n + 2, url := u), segments, query, fragment);
    ValidLast(k, WithPath(k, u, segments), query, fragment);
  }

  lemma RootIsEntered(k: Coding, input: seq<CodePoint>, base: Option<Url>, scheme: seq<CodePoint>, rest: seq<CodePoint>)
    requires SchemeIsWritten(scheme) && !IsSpecialScheme(LoweredAscii(scheme))
    requires input == scheme + ([COLON] + ([SLASH] + rest)) && (|rest| > 0 ==> rest[0] != SLASH)
    ensures |input| == |scheme| + 2 + |rest| && input[|scheme| + 2..] == rest
    ensures var q := START.(state := Path, pos := |scheme| + 2, url := EMPTY_URL.(scheme := LoweredAscii(scheme)));
      Leads(k, input, base, START, q) && Inv(input, base, q)
  {
    hide Inv, Run, IsSpecialScheme;
    var n := |scheme|;
    RootedParts(input, scheme, rest);
    SchemeIsParsedUpTo(k, input, base, n);
    var p := START.(state := Scheme, pos := n, buffer := LoweredAscii(scheme));
    var q := START.(state := PathOrAuthority, pos := n + 1, url := EMPTY_URL.(scheme := p.buffer));
    LeadsByBreak(k, input, base, p, q);
    hide LoweredAscii;
    LeadsByContinue(k, input, base, Advanced(q), Advanced(q).(state := Path));
  }

  lemma RootedParts(input: seq<CodePoint>, scheme: seq<CodePoint>, rest: seq<CodePoint>)
    requires input == scheme + ([COLON] + ([SLASH] + rest))
    ensures var n := |scheme|; |input| == n + 2 + |rest|
    ensures var n := |scheme|;
      && input[..n] == scheme && input[n] == COLON && input[n + 1] == SLASH && input[n + 2..] == rest
      && (|rest| > 0 ==> input[n + 2] == rest[0])
  {
  }

  // ---- Brackets ----

  predicate WithoutBrackets(s: seq<CodePoint>) {
    OPEN_BRACKET !in s && CLOSE_BRACKET !in s
  }

  function InBrackets(h: seq<CodePoint>): seq<CodePoint> {
    [OPEN_BRACKET] + h + [CLOSE_BRACKET]
  }

  /** Inside brackets nothing ends the host. */
  lemma {:induction false} InsideBrackets(h: seq<CodePoint>, rest: seq<CodePoint>)
    requires WithoutBrackets(h)
    ensures HostLength(h + rest, true) == |h| + HostLength(rest, true)
    ensures OpenAtEnd(h + rest, true) == OpenAtEnd(rest, true)
  {
    if |h| == 0 {
      assert h + rest == rest;
    } else {
      assert (h + rest)[1..] == h[1..] + rest && h[0] in h;
      assert forall c :: c in h[1..] ==> c in h;
      InsideBrackets(h[1..], rest);
    }
  }

  lemma BracketedParts(h: seq<CodePoint>, tail: seq<CodePoint>)
    requires WithoutBrackets(h) && (|tail| > 0 ==> tail[0] == COLON)
    ensures var a := InBrackets(h) + tail;
      && HostPart(a) == InBrackets(h) && Unbracketed(InBrackets(h)) == h && !OpenAtEnd(InBrackets(h), false)
      && PortPart(a) == if |tail| == 0 then None else Some(tail[1..])
  {
    var a := InBrackets(h) + tail;
    var rest := [CLOSE_BRACKET] + tail;
    assert a[1..] == h + rest;
    InsideBrackets(h, rest);
    assert rest[1..] == tail;
    assert HostLength(a, false) == |h| + 2;
    assert a[..|h| + 2] == InBrackets(h) && a[|h| + 2..] == tail;
    assert InBrackets(h)[1..] == h + [CLOSE_BRACKET];
    InsideBrackets(h, [CLOSE_BRACKET]);
    UnbracketedConcat(h, [CLOSE_BRACKET]);
    NothingBracketed(h);
    assert [CLOSE_BRACKET][1..] == [] && h + [] == h;
    if |tail| > 0 {
      assert a[|h| + 3..] == tail[1..];
    }
  }

  /** The text in brackets is taken for the host, with its colons and without the brackets. */
  lemma BracketsAreDropped(k: Coding, input: seq<CodePoint>, base: Option<Url>, p: Parser, h: seq<CodePoint>, n: nat)
    requires Inv(input, base, p) && p.state == HostState && !p.insideBrackets && p.buffer == []
    requires p.pos <= n <= |input| && input[p.pos..n] == InBrackets(h)
    requires Plain(h, p.url.IsSpecial()) && WithoutBrackets(h)
    ensures var q := p.(pos := n, buffer := Encode(h)); Leads(k, input, base, p, q) && Inv(input, base, q)
  {
    hide *;
    BracketedText(h, p.url.IsSpecial());
    assert |input[p.pos..n]| == n - p.pos;
    HostScanned(k, input, base, p, n);
    assert [] + Encode(h) == Encode(h);
  }

  lemma BracketedText(h: seq<CodePoint>, special: bool)
    requires Plain(h, special) && WithoutBrackets(h)
    ensures var a := InBrackets(h);
      Plain(a, special) && HostLength(a, false) == |a| == |h| + 2 && Unbracketed(a) == h && !OpenAtEnd(a, false)
  {
    BracketedParts(h, []);
    assert InBrackets(h) + [] == InBrackets(h);
    HostLengthIs(InBrackets(h), false);
    assert InBrackets(h)[1..|h| + 1] == h;
  }

  lemma {:induction false} FirstColon(h: seq<CodePoint>, tail: seq<CodePoint>)
    requires WithoutBrackets(h) && COLON !in h && (|tail| > 0 ==> tail[0] == COLON)
    ensures HostLength(h + tail, false) == |h|
  {
    if |h| == 0 {
      assert h + tail == tail;
    } else {
      assert (h + tail)[1..] == h[1..] + tail && h[0] in h;
      assert forall c :: c in h[1..] ==> c in h;
      FirstColon(h[1..], tail);
    }
  }

  lemma {:induction false} ColonIsEncoded(s: seq<CodePoint>)
    requires COLON in s
    ensures COLON in Encode(s)
  {
    var n := |s| - 1;
    if s[n] != COLON {
      assert COLON in s[..n];
      ColonIsEncoded(s[..n]);
    }
  }

  /** Percent-decoding takes no colon away. */
  ghost predicate KeepsColons(k: Coding) {
    forall t: Text :: COLON in t ==> COLON in k.decode(t)
  }

  lemma ColonsAreRefused(k: Coding, t: Text, isNotSpecial: bool)
    requires KeepsColons(k) && COLON in t && OPEN_BRACKET !in t
    ensures ParseHost(k, t, isNotSpecial) == NoHost
  {
    assert COLON in k.decode(t);
    assert t[0] in t;
  }

  /** Host and port of an authority are fit for a URL. */
  predicate IsAccepted(k: Coding, scheme: Text, a: seq<CodePoint>) {
    HostOf(k, scheme, a).Host? && PortIsAccepted(PortPart(a))
  }

  /** Colons in brackets are never accepted. */
  lemma BracketedColons(k: Coding, scheme: Text, h: seq<CodePoint>, tail: seq<CodePoint>)
    requires WithoutBrackets(h) && (|tail| > 0 ==> tail[0] == COLON) && COLON in h && KeepsColons(k)
    ensures HostOf(k, scheme, InBrackets(h) + tail) == NoHost
  {
    hide IsSpecialScheme, Encode, ParseHost, HostPart, PortPart, Unbracketed, KeepsColons;
    BracketedParts(h, tail);
    ColonIsEncoded(h);
    EncodedHasNone(h);
    ColonsAreRefused(k, Encode(h), !IsSpecialScheme(scheme));
  }

  /** Brackets about a text without colons change nothing. */
  lemma BracketsAlone(k: Coding, scheme: Text, x: HierPart, h: seq<CodePoint>, tail: seq<CodePoint>)
    requires WithoutBrackets(h) && (|tail| > 0 ==> tail[0] == COLON) && COLON !in h && |h| > 0
    ensures Meaning(k, scheme, x.(authority := InBrackets(h) + tail)) == Meaning(k, scheme, x.(authority := h + tail))
  {
    hide IsSpecialScheme, Encode, ParseHost, PortOf, Walked, PortIsAccepted;
    BracketedParts(h, tail);
    FirstColon(h, tail);
    NothingBracketed(h);
    var a := h + tail;
    assert a[..|h|] == h && a[|h|..] == tail;
    assert HostPart(a) == h;
    assert PortPart(a) == if |tail| == 0 then None else Some(tail[1..]) by {
      if |tail| > 0 {
        assert a[|h| + 1..] == tail[1..];
      }
    }
    hide HostPart, PortPart, Unbracketed, InBrackets;
  }

  /**
   * A host in brackets gives the same as without them exactly if there is no colon in it, or what stands there
   * without them is refused as well.
   */
  lemma BracketsMatterExactly(k: Coding, scheme: seq<CodePoint>, x: HierPart, h: seq<CodePoint>, tail: seq<CodePoint>,
                              base: Option<Url>)
    requires SchemeIsWritten(scheme) && KeepsColons(k) && WithoutBrackets(h) && |h| > 0
    requires |tail| > 0 ==> tail[0] == COLON
    requires IsHierPart(IsSpecialScheme(LoweredAscii(scheme)), x.(authority := h + tail))
    ensures var bare := Written(scheme, x.(authority := h + tail));
      var bracketed := Written(scheme, x.(authority := InBrackets(h) + tail));
      && Inv(bare, base, START) && Inv(bracketed, base, START)
      && (Run(k, bracketed, base, START) == Run(k, bare, base, START)
          <==> COLON !in h || !IsAccepted(k, LoweredAscii(scheme), h + tail))
  {
    BracketedIsHierPart(IsSpecialScheme(LoweredAscii(scheme)), x, h, tail);
    hide Inv, Run, IsHierPart, Written, IsSpecialScheme, HostPart, PortPart, PortIsAccepted, InBrackets, KeepsColons;
    WrittenIsParsed(k, scheme, x.(authority := h + tail), base);
    WrittenIsParsed(k, scheme, x.(authority := InBrackets(h) + tail), base);
    if COLON in h {
      BracketedColons(k, LoweredAscii(scheme), h, tail);
      hide HostOf, LoweredAscii;
    } else {
      BracketsAlone(k, LoweredAscii(scheme), x, h, tail);
    }
  }

  lemma BracketedIsHierPart(special: bool, x: HierPart, h: seq<CodePoint>, tail: seq<CodePoint>)
    requires IsHierPart(special, x.(authority := h + tail))
    ensures IsHierPart(special, x.(authority := InBrackets(h) + tail))
  {
    var a, b := h + tail, InBrackets(h) + tail;
    forall i | 0 <= i < |b| ensures b[i] == OPEN_BRACKET || b[i] == CLOSE_BRACKET || b[i] in a {
      assert i == 0 || i == |h| + 1 || b[i] == a[if i <= |h| then i - 1 else i - 2];
    }
    TextOfThese(special, a, b);
  }

  lemma TextOfThese(special: bool, a: seq<CodePoint>, b: seq<CodePoint>)
    requires Plain(a, special)
    requires forall i :: 0 <= i < |b| ==> b[i] == OPEN_BRACKET || b[i] == CLOSE_BRACKET || b[i] in a
    ensures Plain(b, special)
  {
    forall i | 0 <= i < |b| ensures b[i] !in {SLASH, QUESTION, HASH, AT} && (special ==> b[i] != BACKSLASH) {
      if b[i] in a {
        var j :| 0 <= j < |a| && a[j] == b[i];
      }
    }
  }

  const HTTP_SCHEME: seq<CodePoint> := ['h' as int, 't' as int, 't' as int, 'p' as int]

  lemma HttpIsWritten()
    ensures SchemeIsWritten(HTTP_SCHEME) && LoweredAscii(HTTP_SCHEME) == HTTP && IsSpecialScheme(HTTP)
  {
    assert |FILE| == 4 && HTTP[0] != FILE[0];
    assert LoweredAscii(HTTP_SCHEME) == HTTP;
  }

  /** `http://[ab]/` is accepted, as `http://ab/` is, and `http://[::1]/` is not. */
  lemma BracketExamples(k: Coding, base: Option<Url>)
    requires KeepsColons(k)
    ensures var x := HierPart(None, ['a' as int, 'b' as int], [[]], None, None);
      var bare, bracketed := Written(HTTP_SCHEME, x), Written(HTTP_SCHEME, x.(authority := InBrackets(x.authority)));
      && Inv(bare, base, START) && Inv(bracketed, base, START)
      && Run(k, bracketed, base, START) == Run(k, bare, base, START)
    ensures var address: seq<CodePoint> := [COLON, COLON, '1' as int];
      var input := Written(HTTP_SCHEME, HierPart(None, InBrackets(address), [[]], None, None));
      Inv(input, base, START) && Run(k, input, base, START) == NotAUrl
  {
    hide Inv, Run, Written, HostOf, PortPart, PortIsAccepted, UrlOf, KeepsColons;
    HttpIsWritten();
    var x := HierPart(None, ['a' as int, 'b' as int], [[]], None, None);
    assert x.authority + [] == x.authority && InBrackets(x.authority) + [] == InBrackets(x.authority);
    BracketsMatterExactly(k, HTTP_SCHEME, x, x.authority, [], base);
    var address: seq<CodePoint> := [COLON, COLON, '1' as int];
    var y := x.(authority := InBrackets(address));
    assert InBrackets(address) + [] == InBrackets(address) && address[0] == COLON;
    BracketedColons(k, HTTP, address, []);
    WrittenIsParsed(k, HTTP_SCHEME, y, base);
  }
}
