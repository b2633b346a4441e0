/** The state machine of `URLParser::parse`, after section 4.4 of the URL Standard of the WHATWG. */
module UrlParsers {
  import opened CommonTypes
  import opened Urls

  datatype State =
    | SchemeStart
    | Scheme
    | NoScheme
    | SpecialRelativeOrAuthority
    | PathOrAuthority
    | Relative
    | RelativeSlash
    | SpecialAuthoritySlashes
    | SpecialAuthorityIgnoreSlashes
    | Authority
    | HostState
    | Hostname
    | Port
    | File
    | FileSlash
    | FileHost
    | PathStart
    | Path
    | CannotBeABaseUrlPath
    | Query
    | Fragment

  /** The variables of the loop. */
  datatype Parser = Parser(state: State, pos: nat, buffer: Text, atSignSeen: bool, insideBrackets: bool, url: Url)

  /** How the body of the loop ends: by `continue`, by `break` out of the switch, by returning no URL, or not at all. */
  datatype Effect = Continue(p: Parser) | Break(p: Parser) | Invalid | Halts(check: Check)

  function Current(input: seq<CodePoint>, pos: nat): int {
    if pos < |input| then input[pos] else END_OF_FILE
  }

  /** `get_remaining().starts_with("/")` */
  predicate RemainingStartsWithSlash(input: seq<CodePoint>, pos: nat) {
    pos + 1 < |input| && input[pos + 1] == SLASH
  }

  function Appended(p: Parser, input: seq<CodePoint>): Parser
    requires p.pos < |input|
  {
    p.(buffer := p.buffer + Utf8(input[p.pos]))
  }

  function WithoutLast(paths: seq<Text>): seq<Text> {
    if |paths| == 0 then paths else paths[..|paths| - 1]
  }

  /** Whether `..` may not take away the last path segment: a lone drive letter of a file URL stays. */
  predicate KeepsDriveLetter(u: Url) {
    u.scheme == FILE && |u.paths| == 1 && IsNormalizedWindowsDriveLetter(u.paths[0])
  }

  function Shortened(u: Url): Url {
    if |u.paths| == 0 || KeepsDriveLetter(u) then u else u.(paths := WithoutLast(u.paths))
  }

  predicate EndsAuthority(c: int, u: Url) {
    c == END_OF_FILE || c == SLASH || c == QUESTION || c == HASH || (u.IsSpecial() && c == BACKSLASH)
  }

  // ---- One function per state ----

  function OnSchemeStart(p: Parser, c: int): Effect {
    if IsAlpha(c) then Break(p.(buffer := p.buffer + [ToLower(c)], state := Scheme))
    else Continue(p.(state := NoScheme))
  }

  function AfterScheme(input: seq<CodePoint>, base: Option<Url>, p: Parser): Parser {
    var u := p.url.(scheme := p.buffer);
    var q := p.(url := u, buffer := []);
    if u.scheme == FILE then q.(state := File)
    else if u.IsSpecial() then
      q.(state :=
           if base.Some? && base.value.scheme == u.scheme then SpecialRelativeOrAuthority else SpecialAuthoritySlashes)
    else if RemainingStartsWithSlash(input, p.pos) then q.(state := PathOrAuthority, pos := p.pos + 1)
    else q.(state := CannotBeABaseUrlPath, url := u.(cannotBeABaseUrl := true, paths := u.paths + [[]]))
  }

  function OnScheme(input: seq<CodePoint>, base: Option<Url>, p: Parser, c: int): Effect {
    if IsSchemePart(c) then Break(p.(buffer := p.buffer + [ToLower(c)]))
    else if c == COLON then Break(AfterScheme(input, base, p))
    else Continue(p.(buffer := [], state := NoScheme, pos := 0))
  }

  function OnNoScheme(base: Option<Url>, p: Parser, c: int): Effect {
    if base.None? then Invalid
    else
      var b := base.value;
      if b.cannotBeABaseUrl && c != HASH then Invalid
      else if b.cannotBeABaseUrl then
        Break(p.(state := Fragment, url := p.url.(scheme := b.scheme, paths := b.paths, query := b.query,
                                                  fragment := Some([]), cannotBeABaseUrl := true)))
      else Continue(p.(state := if b.scheme != FILE then Relative else File))
  }

  function OnSpecialRelativeOrAuthority(input: seq<CodePoint>, p: Parser, c: int): Effect {
    if c == SLASH && RemainingStartsWithSlash(input, p.pos) then
      Break(p.(state := SpecialAuthorityIgnoreSlashes, pos := p.pos + 1))
    else Continue(p.(state := Relative))
  }

  function OnPathOrAuthority(p: Parser, c: int): Effect {
    if c == SLASH then Break(p.(state := Authority)) else Continue(p.(state := Path))
  }

  function OnRelative(base: Option<Url>, p: Parser, c: int): Effect {
    if base.None? then Halts(NullBase)
    else
      var b := base.value;
      var u := p.url.(scheme := b.scheme);
      if c == SLASH || (u.IsSpecial() && c == BACKSLASH) then Break(p.(url := u, state := RelativeSlash))
      else
        var v := u.(username := b.username, password := b.password, host := b.host, port := b.port, paths := b.paths,
                    query := b.query);
        if c == QUESTION then Break(p.(url := v.(query := Some([])), state := Query))
        else if c == HASH then Break(p.(url := v.(fragment := Some([])), state := Fragment))
        else if c != END_OF_FILE then
          Continue(p.(url := v.(query := None, paths := WithoutLast(v.paths)), state := Path))
        else Break(p.(url := v))
  }

  function OnRelativeSlash(base: Option<Url>, p: Parser, c: int): Effect {
    if p.url.IsSpecial() && IsSlash(c) then Break(p.(state := SpecialAuthorityIgnoreSlashes))
    else if c == SLASH then Break(p.(state := Authority))
    else if base.None? then Halts(NullBase)
    else
      var b := base.value;
      Continue(p.(state := Path,
                  url := p.url.(username := b.username, password := b.password, host := b.host, port := b.port)))
  }

  function OnSpecialAuthoritySlashes(input: seq<CodePoint>, p: Parser, c: int): Effect {
    if c == SLASH && RemainingStartsWithSlash(input, p.pos) then
      Break(p.(state := SpecialAuthorityIgnoreSlashes, pos := p.pos + 1))
    else Continue(p.(state := SpecialAuthorityIgnoreSlashes))
  }

  function OnSpecialAuthorityIgnoreSlashes(p: Parser, c: int): Effect {
    if !IsSlash(c) then Continue(p.(state := Authority)) else Break(p)
  }

  /**
   * At an `@`, the loop that would store user name and password runs over a builder that was only just
   * created and is empty, so that nothing is stored; the buffer is cleared after it.
   */
  function OnAuthority(input: seq<CodePoint>, p: Parser, c: int): Effect
    requires p.pos <= |input| && c == Current(input, p.pos)
  {
    if c == AT then Break(p.(atSignSeen := true, buffer := []))
    else if EndsAuthority(c, p.url) then
      if p.atSignSeen && |p.buffer| == 0 then Invalid
      else
        Break(p.(state := HostState, buffer := [],
                 pos := AtByteOffset(input, ByteOffset(input, p.pos) - |p.buffer| - 1, 0)))
    else Break(Appended(p, input))
  }

  function OnHost(k: Coding, input: seq<CodePoint>, p: Parser, c: int): Effect
    requires p.pos <= |input| && c == Current(input, p.pos)
  {
    if c == COLON && !p.insideBrackets then
      if |p.buffer| == 0 then Invalid
      else
        match ParseHost(k, p.buffer, !p.url.IsSpecial())
        case NoHost => Invalid
        case HostHalts(check) => Halts(check)
        case Host(host) => Break(p.(url := p.url.(host := Some(host)), buffer := [], state := Port))
    else if EndsAuthority(c, p.url) then
      if p.url.IsSpecial() && |p.buffer| == 0 then Invalid
      else
        match ParseHost(k, p.buffer, !p.url.IsSpecial())
        case NoHost => Invalid
        case HostHalts(check) => Halts(check)
        case Host(host) => Continue(p.(url := p.url.(host := Some(host)), buffer := [], state := Port))
    else if c == OPEN_BRACKET then Break(p.(insideBrackets := true))
    else if c == CLOSE_BRACKET then Break(p.(insideBrackets := false))
    else Break(Appended(p, input))
  }

  function OnPort(input: seq<CodePoint>, p: Parser, c: int): Effect
    requires p.pos <= |input| && c == Current(input, p.pos)
  {
    if IsDigit(c) then Break(Appended(p, input))
    else if EndsAuthority(c, p.url) then
      if |p.buffer| == 0 then Continue(p.(state := PathStart))
      else
        match ToUint(p.buffer)
        case None => Invalid
        case Some(port) =>
          if port > 65535 then Invalid
          else
            var stored := if port == DefaultPortForScheme(p.url.scheme) then None else Some(port);
            Continue(p.(url := p.url.(port := stored), buffer := [], state := PathStart))
    else Invalid
  }

  function OnFile(input: seq<CodePoint>, base: Option<Url>, p: Parser, c: int): Effect
    requires p.pos <= |input|
  {
    var u := p.url.(scheme := FILE, host := Some([]));
    if IsSlash(c) then Break(p.(url := u, state := FileSlash))
    else if base.Some? && base.value.scheme == FILE then
      var v := u.(host := base.value.host, paths := base.value.paths, query := base.value.query);
      if c == QUESTION then Break(p.(url := v.(query := Some([])), state := Query))
      else if c == HASH then Break(p.(url := v.(fragment := Some([])), state := Fragment))
      else if c != END_OF_FILE then
        var w := v.(query := None);
        Continue(p.(state := Path,
                    url :=
                      if StartsWithWindowsDriveLetter(Encode(input[p.pos..])) then w.(paths := []) else Shortened(w)))
      else Break(p.(url := v))
    else Break(p.(url := u))
  }

  function OnFileSlash(input: seq<CodePoint>, base: Option<Url>, p: Parser, c: int): Effect
    requires p.pos <= |input|
  {
    if IsSlash(c) then Break(p.(state := FileHost))
    else if base.Some? && base.value.scheme == FILE then
      var u := p.url.(host := base.value.host);
      if StartsWithWindowsDriveLetter(Encode(input[p.pos..])) then Continue(p.(url := u, state := Path))
      else if |base.value.paths| == 0 then Halts(NoFirstPath)
      else
        var first := base.value.paths[0];
        Continue(p.(url := if IsNormalizedWindowsDriveLetter(first) then u.(paths := u.paths + [first]) else u,
                    state := Path))
    else Break(p)
  }

  predicate EndsFileHost(c: int) {
    c == END_OF_FILE || IsSlash(c) || c == QUESTION || c == HASH
  }

  function OnFileHost(k: Coding, input: seq<CodePoint>, p: Parser, c: int): Effect
    requires p.pos <= |input| && c == Current(input, p.pos)
  {
    if EndsFileHost(c) then
      if IsWindowsDriveLetter(p.buffer) then Continue(p.(state := Path))
      else if |p.buffer| == 0 then Continue(p.(url := p.url.(host := Some([])), state := PathStart))
      else
        match ParseHost(k, p.buffer, true)
        case NoHost => Invalid
        case HostHalts(check) => Halts(check)
        case Host(host) =>
          Continue(p.(url := p.url.(host := Some(if host == LOCALHOST then [] else host)), buffer := [],
                      state := PathStart))
    else Break(Appended(p, input))
  }

  function OnPathStart(p: Parser, c: int): Effect {
    if p.url.IsSpecial() then
      var q := p.(state := Path);
      if !IsSlash(c) then Continue(q) else Break(q)
    else if c == QUESTION then Break(p.(url := p.url.(query := Some([])), state := Query))
    else if c == HASH then Break(p.(url := p.url.(fragment := Some([])), state := Fragment))
    else if c != END_OF_FILE then
      var q := p.(state := Path);
      if c != SLASH then Continue(q) else Break(q)
    else Break(p)
  }

  /** The path with the segment in the buffer taken into account. */
  function SegmentAdded(k: Coding, u: Url, buffer: Text, c: int): Url {
    var atSlash := c == SLASH || (u.IsSpecial() && c == BACKSLASH);
    if IsDoubleDotPathSegment(buffer) then
      var v := Shortened(u);
      if !atSlash then v.(paths := v.paths + [[]]) else v
    else if IsSingleDotPathSegment(buffer) then
      if !atSlash then u.(paths := u.paths + [[]]) else u
    else
      var segment := if u.scheme == FILE && |u.paths| == 0 && IsWindowsDriveLetter(buffer) then [buffer[0], COLON]
        else buffer;
      u.(paths := u.paths + [k.decode(segment)])
  }

  function OnPath(k: Coding, input: seq<CodePoint>, p: Parser, c: int): Effect
    requires p.pos <= |input| && c == Current(input, p.pos)
  {
    if EndsAuthority(c, p.url) then
      var q := p.(url := SegmentAdded(k, p.url, p.buffer, c), buffer := []);
      if c == QUESTION then Break(q.(url := q.url.(query := Some([])), state := Query))
      else if c == HASH then Break(q.(url := q.url.(fragment := Some([])), state := Fragment))
      else Break(q)
    else Break(p.(buffer := p.buffer + k.encodePath(input[p.pos])))
  }

  predicate PathIsOneEmptySegment(u: Url) {
    |u.paths| == 1 && |u.paths[0]| == 0
  }

  /** The buffer is not cleared when the path ends: it goes on into the query or the fragment. */
  function OnCannotBeABaseUrlPath(k: Coding, input: seq<CodePoint>, p: Parser, c: int): Effect
    requires p.pos <= |input| && c == Current(input, p.pos)
  {
    if !PathIsOneEmptySegment(p.url) then Halts(OpaquePathTaken)
    else
      var ended := p.url.(paths := [k.decode(p.buffer)]);
      if c == QUESTION then Break(p.(url := ended.(query := Some([])), state := Query))
      else if c == HASH then Break(p.(url := ended.(fragment := Some([])), state := Fragment))
      else if c != END_OF_FILE then Break(p.(buffer := p.buffer + k.encodeC0(input[p.pos])))
      else Break(p.(url := ended))
  }

  function OnQuery(k: Coding, input: seq<CodePoint>, p: Parser, c: int): Effect
    requires p.pos <= |input| && c == Current(input, p.pos)
  {
    if c == END_OF_FILE || c == HASH then
      if p.url.query != Some([]) then Halts(QueryNotEmpty)
      else
        var q := p.(url := p.url.(query := Some(k.encodeQuery(p.buffer, p.url.IsSpecial()))), buffer := []);
        if c == HASH then Break(q.(url := q.url.(fragment := Some([])), state := Fragment)) else Break(q)
    else Break(Appended(p, input))
  }

  function OnFragment(k: Coding, input: seq<CodePoint>, p: Parser): Effect {
    if p.pos < |input| then Break(Appended(p, input))
    else Break(p.(url := p.url.(fragment := Some(k.decode(p.buffer))), buffer := []))
  }

  /** The switch. */
  function Dispatch(k: Coding, input: seq<CodePoint>, base: Option<Url>, p: Parser): Effect
    requires p.pos <= |input|
  {
    var c := Current(input, p.pos);
    match p.state
    case SchemeStart => OnSchemeStart(p, c)
    case Scheme => OnScheme(input, base, p, c)
    case NoScheme => OnNoScheme(base, p, c)
    case SpecialRelativeOrAuthority => OnSpecialRelativeOrAuthority(input, p, c)
    case PathOrAuthority => OnPathOrAuthority(p, c)
    case Relative => OnRelative(base, p, c)
    case RelativeSlash => OnRelativeSlash(base, p, c)
    case SpecialAuthoritySlashes => OnSpecialAuthoritySlashes(input, p, c)
    case SpecialAuthorityIgnoreSlashes => OnSpecialAuthorityIgnoreSlashes(p, c)
    case Authority => OnAuthority(input, p, c)
    case HostState => OnHost(k, input, p, c)
    case Hostname => OnHost(k, input, p, c)
    case Port => OnPort(input, p, c)
    case File => OnFile(input, base, p, c)
    case FileSlash => OnFileSlash(input, base, p, c)
    case FileHost => OnFileHost(k, input, p, c)
    case PathStart => OnPathStart(p, c)
    case Path => OnPath(k, input, p, c)
    case CannotBeABaseUrlPath => OnCannotBeABaseUrlPath(k, input, p, c)
    case Query => OnQuery(k, input, p, c)
    case Fragment => OnFragment(k, input, p)
  }

  // ---- Where the loop stands ----

  /** The code point before the current one is a single byte, and nothing is buffered. */
  predicate AfterAscii(input: seq<CodePoint>, p: Parser) {
    1 <= p.pos <= |input| && input[p.pos - 1] < 0x80 && p.buffer == []
  }

  /** The buffer holds the code points since `start`, and the one before them is a single byte. */
  predicate BufferedSince(input: seq<CodePoint>, pos: nat, buffer: Text, start: nat) {
    1 <= start <= pos <= |input| && input[start - 1] < 0x80 && buffer == Encode(input[start..pos])
  }

  ghost predicate AuthorityBuffered(input: seq<CodePoint>, pos: nat, buffer: Text) {
    exists start :: BufferedSince(input, pos, buffer, start)
  }

  /** What every iteration keeps, whatever the base URL. */
  ghost predicate Inv(input: seq<CodePoint>, base: Option<Url>, p: Parser) {
    p.pos <= |input| &&
    match p.state
    case SchemeStart => p.pos == 0 && p.buffer == [] && p.url == EMPTY_URL
    case Scheme => p.pos >= 1 && p.url == EMPTY_URL
    case NoScheme => p.buffer == []
    case SpecialRelativeOrAuthority => p.buffer == [] && base.Some?
    case PathOrAuthority => p.buffer == []
    case Relative => p.buffer == [] && base.Some?
    case RelativeSlash => p.buffer == [] && base.Some?
    case SpecialAuthoritySlashes => AfterAscii(input, p)
    case SpecialAuthorityIgnoreSlashes => AfterAscii(input, p)
    case Authority => AuthorityBuffered(input, p.pos, p.buffer)
    case HostState => OPEN_BRACKET !in p.buffer
    case Hostname => OPEN_BRACKET !in p.buffer
    case Port => true
    case File => p.buffer == []
    case FileSlash => p.buffer == []
    case FileHost => true
    case PathStart => true
    case Path => true
    case CannotBeABaseUrlPath => PathIsOneEmptySegment(p.url)
    case Query => p.url.query == Some([])
    case Fragment => true
  }

  /** Each of the two places that go back in the input also goes on to the next phase. */
  function Phase(s: State): nat {
    match s
    case SchemeStart | Scheme => 0
    case NoScheme | SpecialRelativeOrAuthority | PathOrAuthority | Relative | RelativeSlash => 1
    case SpecialAuthoritySlashes | SpecialAuthorityIgnoreSlashes | Authority => 1
    case _ => 2
  }

  /** The order of the states in their enumeration; no transition goes back in it. */
  function Rank(s: State): (r: nat)
    ensures r <= 20
  {
    match s
    case SchemeStart => 0
    case Scheme => 1
    case NoScheme => 2
    case SpecialRelativeOrAuthority => 3
    case PathOrAuthority => 4
    case Relative => 5
    case RelativeSlash => 6
    case SpecialAuthoritySlashes => 7
    case SpecialAuthorityIgnoreSlashes => 8
    case Authority => 9
    case HostState => 10
    case Hostname => 11
    case Port => 12
    case File => 13
    case FileSlash => 14
    case FileHost => 15
    case PathStart => 16
    case Path => 17
    case CannotBeABaseUrlPath => 18
    case Query => 19
    case Fragment => 20
  }

  function Passes(s: State, n: nat): nat {
    match Phase(s)
    case 0 => 2 * (n + 1)
    case 1 => n + 1
    case _ => 0
  }

  /** Bounds the iterations still to come. */
  function Measure(n: nat, p: Parser): nat
    requires p.pos <= n
  {
    Passes(p.state, n) + (n - p.pos) + (20 - Rank(p.state))
  }

  // ---- The loop ----

  /** `++iterator` */
  function Advanced(p: Parser): Parser {
    p.(pos := p.pos + 1)
  }

  /** A file URL's host in brackets, or a file base URL without any path segment. */
  predicate HaltsHere(input: seq<CodePoint>, base: Option<Url>, p: Parser)
    requires p.pos <= |input|
  {
    var c := Current(input, p.pos);
    || (p.state == FileHost && EndsFileHost(c) && IsBracketed(p.buffer) && !IsWindowsDriveLetter(p.buffer))
    || (p.state == FileSlash && !IsSlash(c) && base.Some? && base.value.scheme == FILE && base.value.paths == []
        && !StartsWithWindowsDriveLetter(Encode(input[p.pos..])))
  }

  /** The next iteration, if there is one, finds the invariant and a smaller measure. */
  ghost predicate Keeps(input: seq<CodePoint>, base: Option<Url>, p: Parser, e: Effect)
    requires p.pos <= |input|
  {
    match e
    case Continue(q) => Inv(input, base, q) && Measure(|input|, q) < Measure(|input|, p)
    case Break(q) =>
      && q.pos <= |input|
      && (q.pos < |input| ==> Inv(input, base, Advanced(q)) && Measure(|input|, Advanced(q)) < Measure(|input|, p))
    case Invalid => true
    case Halts(check) => HaltsHere(input, base, p) && check == if p.state == FileHost then Ipv6Host else NoFirstPath
  }

  lemma AuthorityEntered(input: seq<CodePoint>, pos: nat)
    requires 1 <= pos <= |input| && input[pos - 1] < 0x80
    ensures AuthorityBuffered(input, pos, [])
  {
    assert BufferedSince(input, pos, [], pos);
  }

  lemma AuthorityGrows(input: seq<CodePoint>, p: Parser, start: nat)
    requires BufferedSince(input, p.pos, p.buffer, start) && p.pos < |input|
    ensures BufferedSince(input, p.pos + 1, Appended(p, input).buffer, start)
  {
    assert input[start..p.pos + 1][..p.pos - start] == input[start..p.pos];
  }

  /** Going back by the bytes in the buffer and one more lands on the code point before the buffered ones. */
  lemma AuthorityRewinds(input: seq<CodePoint>, p: Parser, start: nat)
    requires BufferedSince(input, p.pos, p.buffer, start)
    ensures AtByteOffset(input, ByteOffset(input, p.pos) - |p.buffer| - 1, 0) == start - 1
  {
    hide Encode, ByteOffset, AtByteOffset;
    RewindOffset(input, p.pos, start);
    AtBoundary(input, start - 1, 0);
  }

  lemma RewindOffset(input: seq<CodePoint>, pos: nat, start: nat)
    requires 1 <= start <= pos <= |input| && input[start - 1] < 0x80
    ensures ByteOffset(input, pos) - |Encode(input[start..pos])| - 1 == ByteOffset(input, start - 1)
  {
    hide ByteOffset;
    AsciiOffset(input, start - 1);
    if start < pos {
      hide Encode;
      OffsetsGrow(input, start, pos);
    } else {
      assert |Encode(input[start..pos])| == 0;
    }
  }

  lemma AsciiOffset(input: seq<CodePoint>, pos: nat)
    requires pos < |input| && input[pos] < 0x80
    ensures ByteOffset(input, pos + 1) == ByteOffset(input, pos) + 1
  {
    assert input[..pos + 1][..pos] == input[..pos];
  }

  lemma AuthorityKeeps(k: Coding, input: seq<CodePoint>, base: Option<Url>, p: Parser)
    requires Inv(input, base, p) && p.state == Authority
    ensures Keeps(input, base, p, OnAuthority(input, p, Current(input, p.pos)))
  {
    hide IsSpecialScheme, AtByteOffset, Encode, ByteOffset;
    var c := Current(input, p.pos);
    var start :| BufferedSince(input, p.pos, p.buffer, start);
    AuthorityRewinds(input, p, start);
    if c == AT {
      AuthorityEntered(input, p.pos + 1);
    } else if c != END_OF_FILE {
      AuthorityGrows(input, p, start);
    }
  }

  lemma SchemeStartKeeps(k: Coding, input: seq<CodePoint>, base: Option<Url>, p: Parser)
    requires Inv(input, base, p) && p.state == SchemeStart
    ensures Keeps(input, base, p, OnSchemeStart(p, Current(input, p.pos)))
  {
    hide IsSpecialScheme, AuthorityBuffered, AfterAscii, HaltsHere;
  }

  lemma SchemeKeeps(k: Coding, input: seq<CodePoint>, base: Option<Url>, p: Parser)
    requires Inv(input, base, p) && p.state == Scheme
    ensures Keeps(input, base, p, OnScheme(input, base, p, Current(input, p.pos)))
  {
    hide IsSpecialScheme, AuthorityBuffered, HaltsHere;
  }

  lemma NoSchemeKeeps(k: Coding, input: seq<CodePoint>, base: Option<Url>, p: Parser)
    requires Inv(input, base, p) && p.state == NoScheme
    ensures Keeps(input, base, p, OnNoScheme(base, p, Current(input, p.pos)))
  {
    hide IsSpecialScheme, AuthorityBuffered, AfterAscii, HaltsHere;
  }

  lemma SpecialRelativeOrAuthorityKeeps(k: Coding, input: seq<CodePoint>, base: Option<Url>, p: Parser)
    requires Inv(input, base, p) && p.state == SpecialRelativeOrAuthority
    ensures Keeps(input, base, p, OnSpecialRelativeOrAuthority(input, p, Current(input, p.pos)))
  {
    hide IsSpecialScheme;
  }

  lemma PathOrAuthorityKeeps(k: Coding, input: seq<CodePoint>, base: Option<Url>, p: Parser)
    requires Inv(input, base, p) && p.state == PathOrAuthority
    ensures Keeps(input, base, p, OnPathOrAuthority(p, Current(input, p.pos)))
  {
    hide IsSpecialScheme;
    var c := Current(input, p.pos);
    if c == SLASH {
      AuthorityEntered(input, p.pos + 1);
    }
  }

  lemma RelativeKeeps(k: Coding, input: seq<CodePoint>, base: Option<Url>, p: Parser)
    requires Inv(input, base, p) && p.state == Relative
    ensures Keeps(input, base, p, OnRelative(base, p, Current(input, p.pos)))
  {
    hide IsSpecialScheme, AuthorityBuffered, AfterAscii, HaltsHere;
  }

  lemma RelativeSlashKeeps(k: Coding, input: seq<CodePoint>, base: Option<Url>, p: Parser)
    requires Inv(input, base, p) && p.state == RelativeSlash
    ensures Keeps(input, base, p, OnRelativeSlash(base, p, Current(input, p.pos)))
  {
    hide IsSpecialScheme, AuthorityBuffered, HaltsHere;
    var c := Current(input, p.pos);
    if c == SLASH {
      AuthorityEntered(input, p.pos + 1);
    }
  }

  lemma SpecialAuthoritySlashesKeeps(k: Coding, input: seq<CodePoint>, base: Option<Url>, p: Parser)
    requires Inv(input, base, p) && p.state == SpecialAuthoritySlashes
    ensures Keeps(input, base, p, OnSpecialAuthoritySlashes(input, p, Current(input, p.pos)))
  {
    hide IsSpecialScheme;
  }

  lemma SpecialAuthorityIgnoreSlashesKeeps(k: Coding, input: seq<CodePoint>, base: Option<Url>, p: Parser)
    requires Inv(input, base, p) && p.state == SpecialAuthorityIgnoreSlashes
    ensures Keeps(input, base, p, OnSpecialAuthorityIgnoreSlashes(p, Current(input, p.pos)))
  {
    hide IsSpecialScheme;
    AuthorityEntered(input, p.pos);
  }

  lemma HostParses(k: Coding, t: Text, isNotSpecial: bool)
    requires OPEN_BRACKET !in t && (isNotSpecial || |t| > 0)
    ensures !ParseHost(k, t, isNotSpecial).HostHalts?
  {
  }

  lemma NoBracketAppended(input: seq<CodePoint>, p: Parser)
    requires p.pos < |input| && OPEN_BRACKET !in p.buffer && input[p.pos] != OPEN_BRACKET
    ensures OPEN_BRACKET !in Appended(p, input).buffer
    ensures Appended(p, input) == p.(buffer := Appended(p, input).buffer)
  {
    hide Utf8;
  }

  lemma HostKeeps(k: Coding, input: seq<CodePoint>, base: Option<Url>, p: Parser)
    requires Inv(input, base, p) && (p.state == HostState || p.state == Hostname)
    ensures Keeps(input, base, p, OnHost(k, input, p, Current(input, p.pos)))
  {
    hide IsSpecialScheme, ParseHost, Appended, AuthorityBuffered, AfterAscii, HaltsHere;
    if |p.buffer| > 0 || !p.url.IsSpecial() {
      HostParses(k, p.buffer, !p.url.IsSpecial());
    }
    if p.pos < |input| && input[p.pos] != OPEN_BRACKET {
      NoBracketAppended(input, p);
    }
  }

  lemma PortKeeps(k: Coding, input: seq<CodePoint>, base: Option<Url>, p: Parser)
    requires Inv(input, base, p) && p.state == Port
    ensures Keeps(input, base, p, OnPort(input, p, Current(input, p.pos)))
  {
    hide IsSpecialScheme, ToUint, DefaultPortForScheme, AuthorityBuffered, AfterAscii, HaltsHere;
  }

  lemma FileKeeps(k: Coding, input: seq<CodePoint>, base: Option<Url>, p: Parser)
    requires Inv(input, base, p) && p.state == File
    ensures Keeps(input, base, p, OnFile(input, base, p, Current(input, p.pos)))
  {
    hide IsSpecialScheme, StartsWithWindowsDriveLetter, IsNormalizedWindowsDriveLetter, Encode;
  }

  lemma FileSlashKeeps(k: Coding, input: seq<CodePoint>, base: Option<Url>, p: Parser)
    requires Inv(input, base, p) && p.state == FileSlash
    ensures Keeps(input, base, p, OnFileSlash(input, base, p, Current(input, p.pos)))
  {
    hide IsSpecialScheme, StartsWithWindowsDriveLetter, IsNormalizedWindowsDriveLetter, Encode;
  }

  lemma FileHostKeeps(k: Coding, input: seq<CodePoint>, base: Option<Url>, p: Parser)
    requires Inv(input, base, p) && p.state == FileHost
    ensures Keeps(input, base, p, OnFileHost(k, input, p, Current(input, p.pos)))
  {
    hide IsWindowsDriveLetter, FreeOf;
  }

  lemma PathStartKeeps(k: Coding, input: seq<CodePoint>, base: Option<Url>, p: Parser)
    requires Inv(input, base, p) && p.state == PathStart
    ensures Keeps(input, base, p, OnPathStart(p, Current(input, p.pos)))
  {
    hide IsSpecialScheme, AuthorityBuffered, AfterAscii, HaltsHere;
  }

  lemma PathKeeps(k: Coding, input: seq<CodePoint>, base: Option<Url>, p: Parser)
    requires Inv(input, base, p) && p.state == Path
    ensures Keeps(input, base, p, OnPath(k, input, p, Current(input, p.pos)))
  {
    hide IsSpecialScheme, SegmentAdded, AuthorityBuffered, AfterAscii, HaltsHere;
  }

  lemma CannotBeABaseUrlPathKeeps(k: Coding, input: seq<CodePoint>, base: Option<Url>, p: Parser)
    requires Inv(input, base, p) && p.state == CannotBeABaseUrlPath
    ensures Keeps(input, base, p, OnCannotBeABaseUrlPath(k, input, p, Current(input, p.pos)))
  {
    hide IsSpecialScheme, AuthorityBuffered, AfterAscii, HaltsHere;
  }

  lemma QueryKeeps(k: Coding, input: seq<CodePoint>, base: Option<Url>, p: Parser)
    requires Inv(input, base, p) && p.state == Query
    ensures Keeps(input, base, p, OnQuery(k, input, p, Current(input, p.pos)))
  {
    hide IsSpecialScheme, AuthorityBuffered, AfterAscii, HaltsHere;
  }

  lemma FragmentKeeps(k: Coding, input: seq<CodePoint>, base: Option<Url>, p: Parser)
    requires Inv(input, base, p) && p.state == Fragment
    ensures Keeps(input, base, p, OnFragment(k, input, p))
  {
    hide IsSpecialScheme, AuthorityBuffered, AfterAscii, HaltsHere;
  }

  /** Every iteration keeps the invariant and comes closer to the end. */
  lemma DispatchKeeps(k: Coding, input: seq<CodePoint>, base: Option<Url>, p: Parser)
    requires Inv(input, base, p)
    ensures Keeps(input, base, p, Dispatch(k, input, base, p))
  {
    hide Keeps, Inv;
    match p.state
    case SchemeStart => SchemeStartKeeps(k, input, base, p);
    case Scheme => SchemeKeeps(k, input, base, p);
    case NoScheme => NoSchemeKeeps(k, input, base, p);
    case SpecialRelativeOrAuthority => SpecialRelativeOrAuthorityKeeps(k, input, base, p);
    case PathOrAuthority => PathOrAuthorityKeeps(k, input, base, p);
    case Relative => RelativeKeeps(k, input, base, p);
    case RelativeSlash => RelativeSlashKeeps(k, input, base, p);
    case SpecialAuthoritySlashes => SpecialAuthoritySlashesKeeps(k, input, base, p);
    case SpecialAuthorityIgnoreSlashes => SpecialAuthorityIgnoreSlashesKeeps(k, input, base, p);
    case Authority => AuthorityKeeps(k, input, base, p);
    case HostState => HostKeeps(k, input, base, p);
    case Hostname => HostKeeps(k, input, base, p);
    case Port => PortKeeps(k, input, base, p);
    case File => FileKeeps(k, input, base, p);
    case FileSlash => FileSlashKeeps(k, input, base, p);
    case FileHost => FileHostKeeps(k, input, base, p);
    case PathStart => PathStartKeeps(k, input, base, p);
    case Path => PathKeeps(k, input, base, p);
    case CannotBeABaseUrlPath => CannotBeABaseUrlPathKeeps(k, input, base, p);
    case Query => QueryKeeps(k, input, base, p);
    case Fragment => FragmentKeeps(k, input, base, p);
  }

  // ---- Runs ----

  datatype Outcome = Parsed(url: Url) | NotAUrl | Halted(check: Check) | DataUrl

  const START: Parser := Parser(SchemeStart, 0, [], false, false, EMPTY_URL)

  lemma StartInvariant(input: seq<CodePoint>, base: Option<Url>)
    ensures Inv(input, base, START) && Measure(|input|, START) == 3 * |input| + 22
  {
  }

  /** The loop from some state on. */
  function Run(k: Coding, input: seq<CodePoint>, base: Option<Url>, p: Parser): Outcome
    requires Inv(input, base, p)
    decreases Measure(|input|, p)
  {
    DispatchKeeps(k, input, base, p);
    match Dispatch(k, input, base, p)
    case Continue(q) => Run(k, input, base, q)
    case Break(q) => if q.pos >= |input| then Parsed(q.url.(valid := true)) else Run(k, input, base, Advanced(q))
    case Invalid => NotAUrl
    case Halts(check) => Halted(check)
  }

  /** The loop: it ends within a linear number of iterations, although it goes back in the input twice. */
  method Loop(k: Coding, input: seq<CodePoint>, base: Option<Url>) returns (r: Outcome, ghost iterations: nat)
    ensures Inv(input, base, START) && r == Run(k, input, base, START)
    ensures iterations <= 3 * |input| + 23
    ensures r != Halted(NullBase) && r != Halted(EmptySpecialHost)
    ensures r != Halted(OpaquePathTaken) && r != Halted(QueryNotEmpty)
  {
    hide Inv, Dispatch, Measure;
    StartInvariant(input, base);
    var p := START;
    iterations := 0;
    while true
      invariant Inv(input, base, p) && p.pos <= |input|
      invariant Run(k, input, base, p) == Run(k, input, base, START)
      invariant iterations + Measure(|input|, p) <= 3 * |input| + 22
      decreases Measure(|input|, p)
    {
      DispatchKeeps(k, input, base, p);
      PosInRange(input, base, p);
      iterations := iterations + 1;
      match Dispatch(k, input, base, p)
      case Continue(q) =>
        PosInRange(input, base, q);
        p := q;
      case Break(q) =>
        if q.pos >= |input| {
          return Parsed(q.url.(valid := true)), iterations;
        }
        p := Advanced(q);
      case Invalid =>
        return NotAUrl, iterations;
      case Halts(check) =>
        return Halted(check), iterations;
    }
  }

  lemma PosInRange(input: seq<CodePoint>, base: Option<Url>, p: Parser)
    requires Inv(input, base, p)
    ensures p.pos <= |input|
  {
  }

  // ---- Steps of a run ----

  /** Where an iteration runs into unfinished code or an assertion. */
  lemma DispatchHalts(k: Coding, input: seq<CodePoint>, base: Option<Url>, p: Parser)
    requires Inv(input, base, p)
    ensures Dispatch(k, input, base, p).Halts? <==> HaltsHere(input, base, p)
  {
    hide StartsWithWindowsDriveLetter, Encode, IsSpecialScheme, IsWindowsDriveLetter, Inv;
    DispatchKeeps(k, input, base, p);
  }

  lemma RunContinues(k: Coding, input: seq<CodePoint>, base: Option<Url>, p: Parser, q: Parser)
    requires Inv(input, base, p) && Dispatch(k, input, base, p) == Continue(q)
    ensures Inv(input, base, q) && Run(k, input, base, p) == Run(k, input, base, q)
  {
    DispatchKeeps(k, input, base, p);
  }

  lemma RunBreaks(k: Coding, input: seq<CodePoint>, base: Option<Url>, p: Parser, q: Parser)
    requires Inv(input, base, p) && Dispatch(k, input, base, p) == Break(q) && q.pos < |input|
    ensures Inv(input, base, Advanced(q)) && Run(k, input, base, p) == Run(k, input, base, Advanced(q))
  {
    DispatchKeeps(k, input, base, p);
  }

  lemma RunEnds(k: Coding, input: seq<CodePoint>, base: Option<Url>, p: Parser)
    requires Inv(input, base, p)
    ensures var e := Dispatch(k, input, base, p);
      && (e.Halts? ==> Run(k, input, base, p) == Halted(e.check))
      && (e.Invalid? ==> Run(k, input, base, p) == NotAUrl)
      && (e.Break? && e.p.pos >= |input| ==> Run(k, input, base, p) == Parsed(e.p.url.(valid := true)))
  {
  }

  lemma EncodeFront(input: seq<CodePoint>, pos: nat)
    requires pos < |input|
    ensures Encode(input[pos..]) == Utf8(input[pos]) + Encode(input[pos + 1..])
  {
    assert input[pos..] == [input[pos]] + input[pos + 1..];
    EncodeConcat([input[pos]], input[pos + 1..]);
    assert [input[pos]][..0] == [] && Encode([]) == [];
  }

  lemma QueryTurns(k: Coding, input: seq<CodePoint>, base: Option<Url>, p: Parser)
    requires Inv(input, base, p) && p.state == Query && p.pos < |input| && input[p.pos] != HASH
    ensures var q := Advanced(Appended(p, input));
      Inv(input, base, q) && Run(k, input, base, p) == Run(k, input, base, q)
  {
    hide IsSpecialScheme, Run, Utf8, Inv;
    RunBreaks(k, input, base, p, Appended(p, input));
  }

  lemma QueryEnds(k: Coding, input: seq<CodePoint>, base: Option<Url>, p: Parser)
    requires Inv(input, base, p) && p.state == Query && p.pos == |input|
    ensures Run(k, input, base, p)
      == Parsed(p.url.(valid := true, query := Some(k.encodeQuery(p.buffer, p.url.IsSpecial()))))
  {
    hide IsSpecialScheme, Run;
    RunEnds(k, input, base, p);
  }

  // ---- What comes out ----

  /** What every parsed URL satisfies. */
  predicate GoodUrl(u: Url) {
    && IsScheme(u.scheme)
    && (u.port.Some? ==> u.port.value <= 65535 && u.port.value != DefaultPortForScheme(u.scheme))
    && (u.cannotBeABaseUrl ==> |u.paths| == 1 && !u.IsSpecial())
    && (u.IsSpecial() && u.scheme != FILE ==> u.host.Some? && FreeOf(u.host.value, FORBIDDEN))
    && (u.scheme == FILE ==> u.host.Some?)
  }

  /** User name and password are absent, or those of the base URL. */
  predicate CredentialsFrom(base: Option<Url>, u: Url) {
    || (u.username == None && u.password == None)
    || (base.Some? && u.username == base.value.username && u.password == base.value.password)
  }

  /** Nothing but a scheme has been found. */
  predicate OnlyScheme(u: Url) {
    u == EMPTY_URL.(scheme := u.scheme)
  }

  predicate NetworkScheme(u: Url) {
    OnlyScheme(u) && IsScheme(u.scheme) && u.scheme != FILE
  }

  /** What the URL looks like in each state, for a base URL that is good itself. */
  predicate Shape(base: Option<Url>, p: Parser) {
    var u := p.url;
    match p.state
    case SchemeStart => u == EMPTY_URL && p.buffer == []
    case Scheme => u == EMPTY_URL && IsScheme(p.buffer)
    case NoScheme => u == EMPTY_URL
    case SpecialRelativeOrAuthority => NetworkScheme(u) && base.Some? && base.value.scheme == u.scheme && u.IsSpecial()
    case PathOrAuthority => NetworkScheme(u) && !u.IsSpecial()
    case Relative => OnlyScheme(u) && base.Some? && base.value.scheme != FILE && !base.value.cannotBeABaseUrl
    case RelativeSlash =>
      NetworkScheme(u) && base.Some? && base.value.scheme == u.scheme && !base.value.cannotBeABaseUrl
    case SpecialAuthoritySlashes => NetworkScheme(u)
    case SpecialAuthorityIgnoreSlashes => NetworkScheme(u)
    case Authority => NetworkScheme(u)
    case HostState => NetworkScheme(u)
    case Hostname => NetworkScheme(u)
    case Port => GoodUrl(u) && !u.cannotBeABaseUrl && u.username == None && u.password == None
    case File => OnlyScheme(u) || u == EMPTY_URL.(scheme := FILE, host := Some([]))
    case FileSlash => u == EMPTY_URL.(scheme := FILE, host := Some([]))
    case FileHost => u == EMPTY_URL.(scheme := FILE, host := Some([]))
    case PathStart => GoodUrl(u) && !u.cannotBeABaseUrl && CredentialsFrom(base, u)
    case Path => GoodUrl(u) && !u.cannotBeABaseUrl && CredentialsFrom(base, u)
    case CannotBeABaseUrlPath => GoodUrl(u) && CredentialsFrom(base, u)
    case Query => GoodUrl(u) && CredentialsFrom(base, u)
    case Fragment => GoodUrl(u) && CredentialsFrom(base, u)
  }

  ghost predicate ShapeKept(input: seq<CodePoint>, base: Option<Url>, e: Effect) {
    match e
    case Continue(q) => Shape(base, q)
    case Break(q) =>
      if q.pos < |input| then Shape(base, Advanced(q)) else GoodUrl(q.url) && CredentialsFrom(base, q.url)
    case Invalid => true
    case Halts(_) => true
  }

  lemma SchemeGrows(t: Text, c: int)
    requires 0 <= c < 0x80 && IsSchemePart(c) && (if |t| == 0 then IsAlpha(c) else IsScheme(t))
    ensures IsScheme(t + [ToLower(c)])
  {
  }

  lemma OnlyPathsChange(k: Coding, u: Url, buffer: Text, c: int)
    ensures SegmentAdded(k, u, buffer, c) == u.(paths := SegmentAdded(k, u, buffer, c).paths)
  {
    hide IsSpecialScheme, IsDoubleDotPathSegment, IsSingleDotPathSegment, IsWindowsDriveLetter,
      IsNormalizedWindowsDriveLetter;
  }

  lemma GoodWithOtherPath(base: Option<Url>, u: Url, v: Url)
    requires GoodUrl(u) && !u.cannotBeABaseUrl && CredentialsFrom(base, u)
    requires v == u.(paths := v.paths, query := v.query, fragment := v.fragment)
    ensures GoodUrl(v) && !v.cannotBeABaseUrl && CredentialsFrom(base, v)
  {
    hide IsSpecialScheme, IsScheme, FreeOf, DefaultPortForScheme;
  }

  lemma ShortenedPaths(u: Url)
    ensures Shortened(u) == u.(paths := Shortened(u).paths)
  {
  }

  lemma FileUrlIsGood(base: Option<Url>, u: Url)
    requires u.scheme == FILE && u.host.Some? && u.port == None && !u.cannotBeABaseUrl && u.username == None
    requires u.password == None
    ensures GoodUrl(u) && CredentialsFrom(base, u)
  {
    hide IsSpecialScheme, IsScheme, FreeOf, DefaultPortForScheme;
    FileIsScheme();
  }

  lemma FileUrlHasHost(u: Url)
    requires GoodUrl(u) && u.scheme == FILE
    ensures u.host.Some?
  {
  }

  lemma OpaquePathMayChange(base: Option<Url>, u: Url, v: Url)
    requires GoodUrl(u) && CredentialsFrom(base, u) && |u.paths| == |v.paths|
    requires v == u.(paths := v.paths, query := v.query, fragment := v.fragment)
    ensures GoodUrl(v) && CredentialsFrom(base, v)
  {
    hide IsSpecialScheme, IsScheme, FreeOf, DefaultPortForScheme;
  }

  lemma SchemeIsNotEmpty(t: Text)
    requires IsScheme(t)
    ensures |t| > 0
  {
  }

  lemma FileIsScheme()
    ensures IsScheme(FILE) && IsSpecialScheme(FILE)
  {
  }

  lemma SchemeStartShape(k: Coding, input: seq<CodePoint>, base: Option<Url>, p: Parser)
    requires Inv(input, base, p) && p.state == SchemeStart && Shape(base, p) && (base.Some? ==> GoodUrl(base.value))
    ensures ShapeKept(input, base, OnSchemeStart(p, Current(input, p.pos)))
  {
    hide IsSpecialScheme, StartsWithWindowsDriveLetter, IsWindowsDriveLetter, IsNormalizedWindowsDriveLetter;
    hide Encode, Utf8, AuthorityBuffered, AfterAscii, IsScheme, FreeOf, DefaultPortForScheme;
    var c := Current(input, p.pos);
    if IsAlpha(c) {
      SchemeGrows(p.buffer, c);
    }
    FileIsScheme();
  }

  lemma OpaqueIsGood(base: Option<Url>, scheme: Text)
    requires IsScheme(scheme) && scheme != FILE && !IsSpecialScheme(scheme)
    ensures var u := EMPTY_URL.(scheme := scheme, cannotBeABaseUrl := true, paths := EMPTY_URL.paths + [[]]);
      GoodUrl(u) && CredentialsFrom(base, u)
  {
  }

  lemma SchemeShape(k: Coding, input: seq<CodePoint>, base: Option<Url>, p: Parser)
    requires Inv(input, base, p) && p.state == Scheme && Shape(base, p) && (base.Some? ==> GoodUrl(base.value))
    ensures ShapeKept(input, base, OnScheme(input, base, p, Current(input, p.pos)))
  {
    hide IsSpecialScheme, GoodUrl, CredentialsFrom, IsScheme, AuthorityBuffered, AfterAscii;
    var c := Current(input, p.pos);
    if IsSchemePart(c) {
      SchemeIsNotEmpty(p.buffer);
      SchemeGrows(p.buffer, c);
    } else if p.buffer != FILE && !IsSpecialScheme(p.buffer) {
      OpaqueIsGood(base, p.buffer);
    }
  }

  lemma NoSchemeShape(k: Coding, input: seq<CodePoint>, base: Option<Url>, p: Parser)
    requires Inv(input, base, p) && p.state == NoScheme && Shape(base, p) && (base.Some? ==> GoodUrl(base.value))
    ensures ShapeKept(input, base, OnNoScheme(base, p, Current(input, p.pos)))
  {
    hide IsSpecialScheme, StartsWithWindowsDriveLetter, IsWindowsDriveLetter, IsNormalizedWindowsDriveLetter;
    hide Encode, Utf8, AuthorityBuffered, AfterAscii, IsScheme, FreeOf, DefaultPortForScheme;
    FileIsScheme();
  }

  lemma SpecialRelativeOrAuthorityShape(k: Coding, input: seq<CodePoint>, base: Option<Url>, p: Parser)
    requires Inv(input, base, p) && p.state == SpecialRelativeOrAuthority && Shape(base, p)
    requires base.Some? ==> GoodUrl(base.value)
    ensures ShapeKept(input, base, OnSpecialRelativeOrAuthority(input, p, Current(input, p.pos)))
  {
    hide IsSpecialScheme, StartsWithWindowsDriveLetter, IsWindowsDriveLetter, IsNormalizedWindowsDriveLetter;
    hide Encode, Utf8, AuthorityBuffered, AfterAscii, IsScheme, FreeOf, DefaultPortForScheme;
    FileIsScheme();
  }

  lemma PathOrAuthorityShape(k: Coding, input: seq<CodePoint>, base: Option<Url>, p: Parser)
    requires Inv(input, base, p) && p.state == PathOrAuthority && Shape(base, p) && (base.Some? ==> GoodUrl(base.value))
    ensures ShapeKept(input, base, OnPathOrAuthority(p, Current(input, p.pos)))
  {
    hide IsSpecialScheme, StartsWithWindowsDriveLetter, IsWindowsDriveLetter, IsNormalizedWindowsDriveLetter;
    hide Encode, Utf8, AuthorityBuffered, AfterAscii, IsScheme, FreeOf, DefaultPortForScheme;
    FileIsScheme();
  }

  lemma RelativeShape(k: Coding, input: seq<CodePoint>, base: Option<Url>, p: Parser)
    requires Inv(input, base, p) && p.state == Relative && Shape(base, p) && (base.Some? ==> GoodUrl(base.value))
    ensures ShapeKept(input, base, OnRelative(base, p, Current(input, p.pos)))
  {
    hide IsSpecialScheme, StartsWithWindowsDriveLetter, IsWindowsDriveLetter, IsNormalizedWindowsDriveLetter;
    hide Encode, Utf8, AuthorityBuffered, AfterAscii, IsScheme, FreeOf, DefaultPortForScheme;
    FileIsScheme();
  }

  lemma RelativeSlashShape(k: Coding, input: seq<CodePoint>, base: Option<Url>, p: Parser)
    requires Inv(input, base, p) && p.state == RelativeSlash && Shape(base, p) && (base.Some? ==> GoodUrl(base.value))
    ensures ShapeKept(input, base, OnRelativeSlash(base, p, Current(input, p.pos)))
  {
    hide IsSpecialScheme, StartsWithWindowsDriveLetter, IsWindowsDriveLetter, IsNormalizedWindowsDriveLetter;
    hide Encode, Utf8, AuthorityBuffered, AfterAscii, IsScheme, FreeOf, DefaultPortForScheme;
    FileIsScheme();
  }

  lemma SpecialAuthoritySlashesShape(k: Coding, input: seq<CodePoint>, base: Option<Url>, p: Parser)
    requires Inv(input, base, p) && p.state == SpecialAuthoritySlashes && Shape(base, p)
    requires base.Some? ==> GoodUrl(base.value)
    ensures ShapeKept(input, base, OnSpecialAuthoritySlashes(input, p, Current(input, p.pos)))
  {
    hide IsSpecialScheme, StartsWithWindowsDriveLetter, IsWindowsDriveLetter, IsNormalizedWindowsDriveLetter;
    hide Encode, Utf8, AuthorityBuffered, AfterAscii, IsScheme, FreeOf, DefaultPortForScheme;
    FileIsScheme();
  }

  lemma SpecialAuthorityIgnoreSlashesShape(k: Coding, input: seq<CodePoint>, base: Option<Url>, p: Parser)
    requires Inv(input, base, p) && p.state == SpecialAuthorityIgnoreSlashes && Shape(base, p)
    requires base.Some? ==> GoodUrl(base.value)
    ensures ShapeKept(input, base, OnSpecialAuthorityIgnoreSlashes(p, Current(input, p.pos)))
  {
    hide IsSpecialScheme, StartsWithWindowsDriveLetter, IsWindowsDriveLetter, IsNormalizedWindowsDriveLetter;
    hide Encode, Utf8, AuthorityBuffered, AfterAscii, IsScheme, FreeOf, DefaultPortForScheme;
    FileIsScheme();
  }

  lemma AuthorityShape(k: Coding, input: seq<CodePoint>, base: Option<Url>, p: Parser)
    requires Inv(input, base, p) && p.state == Authority && Shape(base, p) && (base.Some? ==> GoodUrl(base.value))
    ensures ShapeKept(input, base, OnAuthority(input, p, Current(input, p.pos)))
  {
    hide IsSpecialScheme, StartsWithWindowsDriveLetter, IsWindowsDriveLetter, IsNormalizedWindowsDriveLetter;
    hide Encode, Utf8, AtByteOffset, AfterAscii, IsScheme, FreeOf, DefaultPortForScheme;
    var start :| BufferedSince(input, p.pos, p.buffer, start);
    AuthorityRewinds(input, p, start);
  }

  lemma HostShape(k: Coding, input: seq<CodePoint>, base: Option<Url>, p: Parser)
    requires Inv(input, base, p) && (p.state == HostState || p.state == Hostname) && Shape(base, p)
    requires base.Some? ==> GoodUrl(base.value)
    ensures ShapeKept(input, base, OnHost(k, input, p, Current(input, p.pos)))
  {
    hide IsSpecialScheme, StartsWithWindowsDriveLetter, IsWindowsDriveLetter, IsNormalizedWindowsDriveLetter;
    hide Encode, Utf8, AuthorityBuffered, AfterAscii, IsScheme, FreeOf, DefaultPortForScheme;
    FileIsScheme();
  }

  lemma PortShape(k: Coding, input: seq<CodePoint>, base: Option<Url>, p: Parser)
    requires Inv(input, base, p) && p.state == Port && Shape(base, p) && (base.Some? ==> GoodUrl(base.value))
    ensures ShapeKept(input, base, OnPort(input, p, Current(input, p.pos)))
  {
    hide IsSpecialScheme, StartsWithWindowsDriveLetter, IsWindowsDriveLetter, IsNormalizedWindowsDriveLetter;
    hide Encode, Utf8, AuthorityBuffered, AfterAscii, IsScheme, FreeOf, DefaultPortForScheme;
    FileIsScheme();
  }

  /** What the File state makes of a URL with a file base. */
  lemma FileCopyIsGood(base: Option<Url>, u: Url)
    requires u == EMPTY_URL.(scheme := FILE, host := Some([])) && base.Some? && base.value.scheme == FILE
    requires GoodUrl(base.value)
    ensures var v := u.(host := base.value.host, paths := base.value.paths, query := base.value.query);
      var w := v.(query := None);
      && GoodUrl(v) && CredentialsFrom(base, v)
      && GoodUrl(v.(query := Some([]))) && CredentialsFrom(base, v.(query := Some([])))
      && GoodUrl(v.(fragment := Some([]))) && CredentialsFrom(base, v.(fragment := Some([])))
      && GoodUrl(w.(paths := [])) && CredentialsFrom(base, w.(paths := []))
      && GoodUrl(Shortened(w)) && CredentialsFrom(base, Shortened(w)) && !Shortened(w).cannotBeABaseUrl
  {
    hide GoodUrl, CredentialsFrom, Shortened;
    FileUrlHasHost(base.value);
    var v := u.(host := base.value.host, paths := base.value.paths, query := base.value.query);
    var w := v.(query := None);
    FileUrlIsGood(base, v);
    FileUrlIsGood(base, v.(query := Some([])));
    FileUrlIsGood(base, v.(fragment := Some([])));
    ShortenedPaths(w);
    FileUrlIsGood(base, w.(paths := []));
    FileUrlIsGood(base, Shortened(w));
  }

  lemma FileShape(k: Coding, input: seq<CodePoint>, base: Option<Url>, p: Parser)
    requires Inv(input, base, p) && p.state == File && Shape(base, p) && (base.Some? ==> GoodUrl(base.value))
    ensures ShapeKept(input, base, OnFile(input, base, p, Current(input, p.pos)))
  {
    hide IsSpecialScheme, StartsWithWindowsDriveLetter, GoodUrl, CredentialsFrom, Shortened, Encode;
    var u := p.url.(scheme := FILE, host := Some([]));
    FileUrlIsGood(base, u);
    if base.Some? && base.value.scheme == FILE {
      FileCopyIsGood(base, u);
    }
  }

  lemma FileSlashShape(k: Coding, input: seq<CodePoint>, base: Option<Url>, p: Parser)
    requires Inv(input, base, p) && p.state == FileSlash && Shape(base, p) && (base.Some? ==> GoodUrl(base.value))
    ensures ShapeKept(input, base, OnFileSlash(input, base, p, Current(input, p.pos)))
  {
    hide IsSpecialScheme, StartsWithWindowsDriveLetter, IsWindowsDriveLetter, IsNormalizedWindowsDriveLetter;
    hide Encode, Utf8, AuthorityBuffered, AfterAscii, IsScheme, FreeOf, DefaultPortForScheme;
    FileIsScheme();
  }

  lemma FileHostShape(k: Coding, input: seq<CodePoint>, base: Option<Url>, p: Parser)
    requires Inv(input, base, p) && p.state == FileHost && Shape(base, p) && (base.Some? ==> GoodUrl(base.value))
    ensures ShapeKept(input, base, OnFileHost(k, input, p, Current(input, p.pos)))
  {
    hide IsSpecialScheme, StartsWithWindowsDriveLetter, IsWindowsDriveLetter, IsNormalizedWindowsDriveLetter;
    hide Encode, Utf8, AuthorityBuffered, AfterAscii, IsScheme, FreeOf, DefaultPortForScheme;
    FileIsScheme();
  }

  lemma PathStartShape(k: Coding, input: seq<CodePoint>, base: Option<Url>, p: Parser)
    requires Inv(input, base, p) && p.state == PathStart && Shape(base, p) && (base.Some? ==> GoodUrl(base.value))
    ensures ShapeKept(input, base, OnPathStart(p, Current(input, p.pos)))
  {
    hide IsSpecialScheme, GoodUrl, CredentialsFrom;
    GoodWithOtherPath(base, p.url, p.url.(query := Some([])));
    GoodWithOtherPath(base, p.url, p.url.(fragment := Some([])));
  }

  lemma PathShape(k: Coding, input: seq<CodePoint>, base: Option<Url>, p: Parser)
    requires Inv(input, base, p) && p.state == Path && Shape(base, p) && (base.Some? ==> GoodUrl(base.value))
    ensures ShapeKept(input, base, OnPath(k, input, p, Current(input, p.pos)))
  {
    hide IsSpecialScheme, GoodUrl, CredentialsFrom, SegmentAdded;
    var c := Current(input, p.pos);
    var u := SegmentAdded(k, p.url, p.buffer, c);
    OnlyPathsChange(k, p.url, p.buffer, c);
    GoodWithOtherPath(base, p.url, u);
    GoodWithOtherPath(base, p.url, u.(query := Some([])));
    GoodWithOtherPath(base, p.url, u.(fragment := Some([])));
  }

  lemma CannotBeABaseUrlPathShape(k: Coding, input: seq<CodePoint>, base: Option<Url>, p: Parser)
    requires Inv(input, base, p) && p.state == CannotBeABaseUrlPath && Shape(base, p)
    requires base.Some? ==> GoodUrl(base.value)
    ensures ShapeKept(input, base, OnCannotBeABaseUrlPath(k, input, p, Current(input, p.pos)))
  {
    hide IsSpecialScheme, GoodUrl, CredentialsFrom;
    var u := p.url.(paths := [k.decode(p.buffer)]);
    OpaquePathMayChange(base, p.url, u);
    OpaquePathMayChange(base, p.url, u.(query := Some([])));
    OpaquePathMayChange(base, p.url, u.(fragment := Some([])));
  }

  lemma QueryShape(k: Coding, input: seq<CodePoint>, base: Option<Url>, p: Parser)
    requires Inv(input, base, p) && p.state == Query && Shape(base, p) && (base.Some? ==> GoodUrl(base.value))
    ensures ShapeKept(input, base, OnQuery(k, input, p, Current(input, p.pos)))
  {
    hide IsSpecialScheme, GoodUrl, CredentialsFrom;
    var u := p.url.(query := Some(k.encodeQuery(p.buffer, p.url.IsSpecial())));
    OpaquePathMayChange(base, p.url, u);
    OpaquePathMayChange(base, p.url, u.(fragment := Some([])));
  }

  lemma FragmentShape(k: Coding, input: seq<CodePoint>, base: Option<Url>, p: Parser)
    requires Inv(input, base, p) && p.state == Fragment && Shape(base, p) && (base.Some? ==> GoodUrl(base.value))
    ensures ShapeKept(input, base, OnFragment(k, input, p))
  {
    hide IsSpecialScheme, GoodUrl, CredentialsFrom;
    OpaquePathMayChange(base, p.url, p.url.(fragment := Some(k.decode(p.buffer))));
  }

  lemma DispatchShape(k: Coding, input: seq<CodePoint>, base: Option<Url>, p: Parser)
    requires Inv(input, base, p) && Shape(base, p) && (base.Some? ==> GoodUrl(base.value))
    ensures ShapeKept(input, base, Dispatch(k, input, base, p))
  {
    hide Shape, ShapeKept, Inv, GoodUrl;
    match p.state
    case SchemeStart => SchemeStartShape(k, input, base, p);
    case Scheme => SchemeShape(k, input, base, p);
    case NoScheme => NoSchemeShape(k, input, base, p);
    case SpecialRelativeOrAuthority => SpecialRelativeOrAuthorityShape(k, input, base, p);
    case PathOrAuthority => PathOrAuthorityShape(k, input, base, p);
    case Relative => RelativeShape(k, input, base, p);
    case RelativeSlash => RelativeSlashShape(k, input, base, p);
    case SpecialAuthoritySlashes => SpecialAuthoritySlashesShape(k, input, base, p);
    case SpecialAuthorityIgnoreSlashes => SpecialAuthorityIgnoreSlashesShape(k, input, base, p);
    case Authority => AuthorityShape(k, input, base, p);
    case HostState => HostShape(k, input, base, p);
    case Hostname => HostShape(k, input, base, p);
    case Port => PortShape(k, input, base, p);
    case File => FileShape(k, input, base, p);
    case FileSlash => FileSlashShape(k, input, base, p);
    case FileHost => FileHostShape(k, input, base, p);
    case PathStart => PathStartShape(k, input, base, p);
    case Path => PathShape(k, input, base, p);
    case CannotBeABaseUrlPath => CannotBeABaseUrlPathShape(k, input, base, p);
    case Query => QueryShape(k, input, base, p);
    case Fragment => FragmentShape(k, input, base, p);
  }

  /** Whatever the run, a URL that comes out is valid and good. */
  lemma {:induction false} RunIsGood(k: Coding, input: seq<CodePoint>, base: Option<Url>, p: Parser)
    requires Inv(input, base, p) && Shape(base, p) && (base.Some? ==> GoodUrl(base.value))
    ensures var r := Run(k, input, base, p);
      r.Parsed? ==> r.url.valid && GoodUrl(r.url) && CredentialsFrom(base, r.url)
    decreases Measure(|input|, p)
  {
    hide Dispatch, Measure, Inv, Shape, GoodUrl, CredentialsFrom;
    DispatchKeeps(k, input, base, p);
    DispatchShape(k, input, base, p);
    PosInRange(input, base, p);
    match Dispatch(k, input, base, p)
    case Continue(q) =>
      PosInRange(input, base, q);
      RunIsGood(k, input, base, q);
    case Break(q) =>
      if q.pos < |input| {
        RunIsGood(k, input, base, Advanced(q));
      } else {
        ValidIsGood(base, q.url);
      }
    case _ =>
  }

  lemma ValidIsGood(base: Option<Url>, u: Url)
    ensures GoodUrl(u) && CredentialsFrom(base, u) ==>
      GoodUrl(u.(valid := true)) && CredentialsFrom(base, u.(valid := true))
  {
    hide IsSpecialScheme, IsScheme, FreeOf, DefaultPortForScheme;
  }

  // ---- The whole of `parse` ----

  predicate IsC0OrSpace(c: CodePoint) {
    c <= 0x20
  }

  /** Leading and trailing controls and spaces taken off. */
  function Stripped(s: seq<CodePoint>): seq<CodePoint> {
    if |s| > 0 && IsC0OrSpace(s[0]) then Stripped(s[1..])
    else if |s| > 0 && IsC0OrSpace(s[|s| - 1]) then Stripped(s[..|s| - 1])
    else s
  }

  predicate IsTabOrNewline(c: CodePoint) {
    c == 9 || c == 10
  }

  /** Tabs and newlines taken out. */
  function Joined(s: seq<CodePoint>): seq<CodePoint> {
    if |s| == 0 then []
    else (if IsTabOrNewline(s[0]) then [] else [s[0]]) + Joined(s[1..])
  }

  /** `parse` with a base URL, without a URL to modify and without a state override. */
  function ParseResult(k: Coding, raw: seq<CodePoint>, base: Option<Url>): Outcome {
    if |raw| == 0 then NotAUrl
    else if DATA_PREFIX <= raw then DataUrl
    else
      var s := Stripped(raw);
      if |s| == 0 then NotAUrl
      else
        StartInvariant(Joined(s), base);
        Run(k, Joined(s), base, START)
  }

  lemma {:induction false} StrippedFront(s: seq<CodePoint>, n: nat)
    requires n <= |s| && forall i :: 0 <= i < n ==> IsC0OrSpace(s[i])
    ensures Stripped(s) == Stripped(s[n..])
    decreases n
  {
    if n == 0 {
      assert s[0..] == s;
    } else {
      assert s[1..][n - 1..] == s[n..];
      StrippedFront(s[1..], n - 1);
    }
  }

  lemma {:induction false} StrippedBack(s: seq<CodePoint>, n: nat)
    requires 0 < n <= |s| && !IsC0OrSpace(s[0]) && forall i :: n <= i < |s| ==> IsC0OrSpace(s[i])
    ensures Stripped(s) == Stripped(s[..n])
    decreases |s|
  {
    if n < |s| {
      assert s[..|s| - 1][..n] == s[..n];
      StrippedBack(s[..|s| - 1], n);
    } else {
      assert s[..n] == s;
    }
  }

  /** The inputs that do not come to the loop. */
  lemma ShortInputs(k: Coding, raw: seq<CodePoint>, base: Option<Url>)
    ensures |raw| == 0 || (!(DATA_PREFIX <= raw) && |Stripped(raw)| == 0) ==> ParseResult(k, raw, base) == NotAUrl
    ensures DATA_PREFIX <= raw ==> ParseResult(k, raw, base) == DataUrl
  {
    hide Run, Inv;
  }

  /** `URLParser::parse` */
  method Parse(k: Coding, raw: seq<CodePoint>, base: Option<Url>) returns (r: Outcome, ghost iterations: nat)
    ensures r == ParseResult(k, raw, base)
    ensures iterations <= 3 * |raw| + 23
  {
    ShortInputs(k, raw, base);
    hide ParseResult, Stripped, Joined, Run, Inv;
    iterations := 0;
    if |raw| == 0 {
      return NotAUrl, iterations;
    }
    if DATA_PREFIX <= raw {
      return DataUrl, iterations;
    }
    var startIndex: nat, endIndex: nat := 0, |raw|;
    while startIndex < |raw| && IsC0OrSpace(raw[startIndex])
      invariant startIndex <= |raw| && forall i :: 0 <= i < startIndex ==> IsC0OrSpace(raw[i])
    {
      startIndex := startIndex + 1;
    }
    while endIndex > 0 && IsC0OrSpace(raw[endIndex - 1])
      invariant endIndex <= |raw| && forall i :: endIndex <= i < |raw| ==> IsC0OrSpace(raw[i])
    {
      endIndex := endIndex - 1;
    }
    StrippedFront(raw, startIndex);
    if startIndex >= endIndex {
      NothingLeft(raw, startIndex, endIndex);
      return NotAUrl, iterations;
    }
    StrippedBack(raw[startIndex..], endIndex - startIndex);
    var s := raw[startIndex..endIndex];
    assert raw[startIndex..][..endIndex - startIndex] == s;
    JoinedIsShorter(s);
    r, iterations := Loop(k, Joined(s), base);
    ParsesStripped(k, raw, base, s);
  }

  lemma {:induction false} JoinedIsShorter(s: seq<CodePoint>)
    ensures |Joined(s)| <= |s|
  {
    if |s| > 0 {
      JoinedIsShorter(s[1..]);
    }
  }

  lemma NothingLeft(raw: seq<CodePoint>, startIndex: nat, endIndex: nat)
    requires endIndex <= startIndex <= |raw| && forall i :: endIndex <= i < |raw| ==> IsC0OrSpace(raw[i])
    requires startIndex < |raw| ==> !IsC0OrSpace(raw[startIndex])
    ensures Stripped(raw[startIndex..]) == []
  {
  }

  lemma ParsesStripped(k: Coding, raw: seq<CodePoint>, base: Option<Url>, s: seq<CodePoint>)
    requires |raw| > 0 && !(DATA_PREFIX <= raw) && |s| > 0 && Stripped(raw) == Stripped(s)
    requires !IsC0OrSpace(s[0]) && !IsC0OrSpace(s[|s| - 1])
    ensures Inv(Joined(s), base, START) && ParseResult(k, raw, base) == Run(k, Joined(s), base, START)
  {
    StartInvariant(Joined(s), base);
  }

  /** A URL that `parse` makes is good if its base is, and has a user name or password only if its base has. */
  lemma ParsedIsGood(k: Coding, raw: seq<CodePoint>, base: Option<Url>)
    requires base.Some? ==> GoodUrl(base.value)
    ensures var r := ParseResult(k, raw, base);
      r.Parsed? ==> r.url.valid && GoodUrl(r.url) && CredentialsFrom(base, r.url)
  {
    hide GoodUrl, CredentialsFrom, Run, Inv;
    if |raw| > 0 && !(DATA_PREFIX <= raw) && |Stripped(raw)| > 0 {
      var input := Joined(Stripped(raw));
      StartInvariant(input, base);
      RunIsGood(k, input, base, START);
    }
  }

  /** A chain of references, each parsed against the URL before it; what fails is skipped. */
  function Resolved(k: Coding, references: seq<seq<CodePoint>>): Option<Url> {
    if |references| == 0 then None
    else
      var base := Resolved(k, references[..|references| - 1]);
      var r := ParseResult(k, references[|references| - 1], base);
      if r.Parsed? then Some(r.url) else base
  }

  /** However a URL is put together from references, it is good and carries no credentials. */
  lemma {:induction false} ResolvedIsGood(k: Coding, references: seq<seq<CodePoint>>)
    ensures var u := Resolved(k, references);
      u.Some? ==> GoodUrl(u.value) && u.value.username == None && u.value.password == None
  {
    hide ParseResult, GoodUrl;
    if |references| > 0 {
      var before := references[..|references| - 1];
      ResolvedIsGood(k, before);
      ParsedIsGood(k, references[|references| - 1], Resolved(k, before));
    }
  }
}
