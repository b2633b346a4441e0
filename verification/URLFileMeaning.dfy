/** What the parser makes of file URLs, and of references to them. */
module UrlFileMeaning {
  import opened CommonTypes
  import opened Urls
  import opened UrlParsers
  import opened UrlMeaning
  import opened UrlReferences
  import opened UrlFiles

  // ---- File URLs written out ----

  datatype FileParts = FileParts(host: seq<CodePoint>, segments: seq<seq<CodePoint>>, query: Option<seq<CodePoint>>,
                                 fragment: Option<seq<CodePoint>>)

  function HostTail(x: FileParts): seq<CodePoint> {
    x.host + PathTail(x.segments, x.query, x.fragment)
  }

  /** `file://host/segment/segment?query#fragment`, where the host may be empty. */
  function WrittenFile(scheme: seq<CodePoint>, x: FileParts): seq<CodePoint> {
    scheme + ([COLON] + ([SLASH] + ([SLASH] + HostTail(x))))
  }

  predicate IsWrittenFile(x: FileParts) {
    && (forall i :: 0 <= i < |x.host| ==> !EndsFileHost(x.host[i]))
    && PathSegments(x.segments, true) && (x.query.Some? ==> HASH !in x.query.value)
  }

  /** A drive letter in place of the host begins the path; any other host text is judged. */
  function FileMeaning(k: Coding, x: FileParts): Outcome {
    var t := Encode(x.host);
    if IsWindowsDriveLetter(t) then
      Parsed(FileUrlOf(k, [], Walked(k, true, [k.decode([t[0], COLON])], x.segments), x))
    else
      match FileHostOf(k, x.host)
      case Host(host) => Parsed(FileUrlOf(k, host, Walked(k, true, [], SegmentsOrRoot(true, x.segments)), x))
      case NoHost => NotAUrl
      case HostHalts(check) => Halted(check)
  }

  function FileUrlOf(k: Coding, host: Text, paths: seq<Text>, x: FileParts): Url {
    var u := FILE_URL.(valid := true, host := Some(host), paths := paths);
    WithFragment(k, WithQuery(k, u, x.query), x.fragment)
  }

  lemma {:induction false} HostEndsThere(input: seq<CodePoint>, from: nat, n: nat, host: seq<CodePoint>)
    requires from <= n <= |input| && EndsFileHost(Current(input, n)) && host == input[from..n]
    requires forall i :: 0 <= i < |host| ==> !EndsFileHost(host[i])
    ensures HostEnd(input, from) == n
    decreases n - from
  {
    hide EndsFileHost;
    if from < n {
      assert host[0] == input[from];
      HostEndsThere(input, from + 1, n, host[1..]);
    }
  }

  /** How the path, or what there is in its place, begins. */
  lemma PathHead(input: seq<CodePoint>, n: nat, x: FileParts)
    requires n <= |input| && input[n..] == PathTail(x.segments, x.query, x.fragment)
    ensures var c := Current(input, n);
      (c == SLASH || c == QUESTION || c == HASH || c == END_OF_FILE) && EndsFileHost(c)
    ensures Current(input, n) == SLASH <==> |x.segments| > 0
  {
    assert n < |input| ==> input[n] == input[n..][0];
  }

  lemma FileHostGoesOn(k: Coding, input: seq<CodePoint>, base: Option<Url>, p: Parser, host: seq<CodePoint>)
    requires Inv(input, base, p) && p.state == FileHost && p.pos <= |input| && EndsFileHost(Current(input, p.pos))
    requires p.buffer == Encode(host) && p.url == FILE_URL && !IsWindowsDriveLetter(Encode(host))
    ensures var r := FileHostOf(k, host);
      && (r.NoHost? ==> Run(k, input, base, p) == NotAUrl)
      && (r.HostHalts? ==> Run(k, input, base, p) == Halted(r.check))
      && (r.Host? ==>
        var q := p.(buffer := [], url := FILE_URL.(host := Some(r.host)), state := PathStart);
        Leads(k, input, base, p, q) && Inv(input, base, q))
  {
    hide Inv, Run, IsWindowsDriveLetter, ParseHost, EndsFileHost;
    assert |Encode(host)| == 0 <==> |host| == 0;
    hide Encode;
    RunEnds(k, input, base, p);
    var r := FileHostOf(k, host);
    if r.Host? {
      LeadsByContinue(k, input, base, p, p.(buffer := [], url := FILE_URL.(host := Some(r.host)), state := PathStart));
    }
  }

  lemma FilePathIsParsed(k: Coding, input: seq<CodePoint>, base: Option<Url>, x: FileParts, n: nat, host: Text)
    requires IsWrittenFile(x) && n <= |input| && input[n..] == PathTail(x.segments, x.query, x.fragment)
    requires Inv(input, base, Fresh(PathStart, n, FILE_URL.(host := Some(host))))
    ensures Run(k, input, base, Fresh(PathStart, n, FILE_URL.(host := Some(host))))
         == Parsed(FileUrlOf(k, host, Walked(k, true, [], SegmentsOrRoot(true, x.segments)), x))
  {
    hide Inv, Run, Encode, Dispatch, FileHostOf, Walked, PathTail;
    var u := FILE_URL.(host := Some(host));
    FileIsScheme();
    hide IsSpecialScheme;
    PathStartIsParsed(k, input, base, Fresh(PathStart, n, u), x.segments, x.query, x.fragment);
    ValidLast(k, WithPath(k, u, SegmentsOrRoot(true, x.segments)), x.query, x.fragment);
  }

  // ---- A drive letter in place of the host ----

  lemma DriveIsAdded(k: Coding, t: Text, c: int)
    requires IsWindowsDriveLetter(t)
    ensures SegmentAdded(k, FILE_URL, t, c) == FILE_URL.(paths := [k.decode([t[0], COLON])])
  {
    assert t != DOT && |Lowercased(t)| == 2 && t != DOT + DOT;
    hide Lowercased, IsSpecialScheme;
    assert FILE_URL.paths + [k.decode([t[0], COLON])] == [k.decode([t[0], COLON])];
  }

  lemma DriveIsParsed(k: Coding, input: seq<CodePoint>, base: Option<Url>, p: Parser, x: FileParts)
    requires Inv(input, base, p) && p.pos <= |input| && p == Fresh(FileHost, p.pos, FILE_URL).(buffer := Encode(x.host))
    requires IsWrittenFile(x) && IsWindowsDriveLetter(Encode(x.host))
    requires input[p.pos..] == PathTail(x.segments, x.query, x.fragment)
    ensures Run(k, input, base, p) == FileMeaning(k, x)
  {
    hide Inv, Run, Encode, Walked, SegmentAdded, EndsFileHost;
    PathHead(input, p.pos, x);
    var q := p.(state := Path);
    LeadsByContinue(k, input, base, p, q);
    DriveIsAdded(k, p.buffer, Current(input, p.pos));
    var u := FILE_URL.(paths := [k.decode([p.buffer[0], COLON])]);
    ValidLast(k, WithPath(k, u, x.segments), x.query, x.fragment);
    if |x.segments| > 0 {
      Headed(input, p.pos, SLASH, x.segments[0] + PathTail(x.segments[1..], x.query, x.fragment));
      LeadsByBreak(k, input, base, q, Fresh(Path, p.pos, u));
      hide Dispatch, PathTail;
      PathIsParsed(k, input, base, Fresh(Path, p.pos + 1, u), x.segments, x.query, x.fragment);
    } else {
      NothingWalked(k, u);
      DriveAlone(k, input, base, q, x, u);
    }
  }

  lemma DriveAlone(k: Coding, input: seq<CodePoint>, base: Option<Url>, q: Parser, x: FileParts, u: Url)
    requires Inv(input, base, q) && q.pos <= |input| && q == Fresh(Path, q.pos, FILE_URL).(buffer := q.buffer)
    requires SegmentAdded(k, FILE_URL, q.buffer, Current(input, q.pos)) == u
    requires input[q.pos..] == QueryTail(x.query, x.fragment) && (x.query.Some? ==> HASH !in x.query.value)
    ensures Run(k, input, base, q) == Parsed(WithFragment(k, WithQuery(k, u, x.query), x.fragment).(valid := true))
  {
    hide Inv, Run, SegmentAdded, IsSpecialScheme, WithQuery, WithFragment;
    TailHead(input, q.pos, x.query, x.fragment);
    TailIsParsed(k, input, base, q, u, x.query, x.fragment);
  }

  // ---- The whole ----

  /** From a file URL's host to the end. */
  lemma FileHostIsParsed(k: Coding, input: seq<CodePoint>, base: Option<Url>, p: Parser, x: FileParts)
    requires IsWrittenFile(x) && Inv(input, base, p) && p.pos <= |input| && p == Fresh(FileHost, p.pos, FILE_URL)
    requires input[p.pos..] == HostTail(x)
    ensures Run(k, input, base, p) == FileMeaning(k, x)
  {
    hide Inv, Run, Encode, Dispatch, FileHostOf, Walked, PathTail, EndsFileHost, IsWindowsDriveLetter;
    var n := p.pos + |x.host|;
    Parted(input, p.pos, x.host, PathTail(x.segments, x.query, x.fragment));
    PathHead(input, n, x);
    HostEndsThere(input, p.pos, n, x.host);
    FileHostIsRead(k, input, base, p);
    var q := p.(pos := n, buffer := Encode(x.host));
    if IsWindowsDriveLetter(Encode(x.host)) {
      DriveIsParsed(k, input, base, q, x);
    } else {
      FileHostGoesOn(k, input, base, q, x.host);
      if FileHostOf(k, x.host).Host? {
        FilePathIsParsed(k, input, base, x, n, FileHostOf(k, x.host).host);
      }
    }
  }

  lemma LowerOfLetter(c: int)
    requires IsAlpha(ToLower(c))
    ensures IsAlpha(c)
  {
  }

  lemma {:induction false} SchemeLengthOf(s: seq<CodePoint>, rest: seq<CodePoint>)
    requires AllSchemeParts(s)
    ensures SchemeLength(s + ([COLON] + rest)) == |s|
  {
    var input := s + ([COLON] + rest);
    if |s| > 0 {
      assert input[1..] == s[1..] + ([COLON] + rest);
      SchemeLengthOf(s[1..], rest);
    } else {
      assert input[0] == COLON;
    }
  }

  /** Any spelling of `file:` is its scheme. */
  lemma FileSchemeIsFound(scheme: seq<CodePoint>, rest: seq<CodePoint>)
    requires AllSchemeParts(scheme) && LoweredAscii(scheme) == FILE
    ensures var input := scheme + ([COLON] + rest);
      HasScheme(input) && SchemeLength(input) == |scheme| && SchemeOf(input) == FILE && input[|scheme| + 1..] == rest
  {
    var input := scheme + ([COLON] + rest);
    SchemeLengthOf(scheme, rest);
    assert LoweredAscii(scheme)[0] == ToLower(scheme[0]) == FILE[0];
    LowerOfLetter(scheme[0]);
    assert input[..|scheme|] == scheme && input[0] == scheme[0];
  }

  lemma TwoSlashesStartHost(input: seq<CodePoint>, base: Option<Url>, f: nat)
    requires FileStart(input, base) == Some(f) && SlashAt(input, f) && SlashAt(input, f + 1)
    ensures FileHostStart(input, base) == Some(f + 2)
  {
    hide FileStart;
  }

  /**
   * A file URL written out from its parts is parsed into these parts, drive letters and dot segments included, or
   * refused, or halts, for its host, whatever the base URL.
   */
  lemma WrittenFileIsParsed(k: Coding, scheme: seq<CodePoint>, x: FileParts, base: Option<Url>)
    requires AllSchemeParts(scheme) && LoweredAscii(scheme) == FILE && IsWrittenFile(x)
    ensures var input := WrittenFile(scheme, x);
      Inv(input, base, START) && Run(k, input, base, START) == FileMeaning(k, x)
  {
    hide Inv, Run, Encode, Dispatch, FileMeaning, HostTail, SchemeLength, SchemeOf, HasScheme;
    var input := WrittenFile(scheme, x);
    FileSchemeIsFound(scheme, [SLASH] + ([SLASH] + HostTail(x)));
    SchemeAndSlashes(input, scheme, HostTail(x));
    hide WrittenFile;
    TwoSlashesStartHost(input, base, |scheme| + 1);
    var p := FileHostIsEntered(k, input, base);
    FileHostIsParsed(k, input, base, p, x);
  }

  /** Two slashes against a file URL: host and path are the reference's own. */
  lemma NetworkFileIsResolved(k: Coding, x: FileParts, b: Url)
    requires IsFileBase(b) && IsWrittenFile(x)
    ensures var input := [SLASH] + ([SLASH] + HostTail(x));
      Inv(input, Some(b), START) && Run(k, input, Some(b), START) == FileMeaning(k, x)
  {
    hide Inv, Run, Encode, Dispatch, FileMeaning, HostTail;
    var input := [SLASH] + ([SLASH] + HostTail(x));
    assert input[0..] == input && !HasScheme(input);
    Headed(input, 0, SLASH, [SLASH] + HostTail(x));
    Headed(input, 1, SLASH, HostTail(x));
    TwoSlashesStartHost(input, Some(b), 0);
    var p := FileHostIsEntered(k, input, Some(b));
    FileHostIsParsed(k, input, Some(b), p, x);
  }

  // ---- References to file URLs ----

  predicate IsFileBase(b: Url) {
    b.scheme == FILE && !b.cannotBeABaseUrl
  }

  /** The path that a relative reference goes on from: what looks like a drive letter drops the folder of the base. */
  function RelativeStart(b: Url, input: seq<CodePoint>): seq<Text> {
    if StartsWithWindowsDriveLetter(Encode(input)) then [] else Parent(true, b.paths)
  }

  /** The path that one with a slash goes on from: the drive letter of the base stays, unless one seems to follow. */
  function AbsoluteStart(b: Url, rest: seq<CodePoint>): seq<Text> {
    if !StartsWithWindowsDriveLetter(Encode(rest)) && |b.paths| > 0 && IsNormalizedWindowsDriveLetter(b.paths[0])
    then [b.paths[0]] else []
  }

  function BehindSlash(r: Reference): seq<CodePoint> {
    if |WrittenReference(r)| == 0 then [] else WrittenReference(r)[1..]
  }

  /** Whether the base lacks the first path segment that the code looks at. */
  predicate LacksFirstPath(b: Url, r: Reference) {
    r.AbsolutePath? && b.paths == [] && !StartsWithWindowsDriveLetter(Encode(BehindSlash(r)))
  }

  /** What the file state makes of a reference. */
  function FileOutcome(k: Coding, b: Url, r: Reference): Outcome {
    if LacksFirstPath(b, r) then Halted(NoFirstPath) else Parsed(FileResolution(k, b, r))
  }

  /** The file URL that a reference stands for. */
  function FileResolution(k: Coding, b: Url, r: Reference): Url {
    var u := FILE_URL.(valid := true, host := b.host);
    match r
    case Empty => u.(paths := b.paths, query := b.query)
    case SameDocument(fragment) => WithFragment(k, u.(paths := b.paths, query := b.query), Some(fragment))
    case SamePath(query, end) => WithFragment(k, WithQuery(k, u.(paths := b.paths), Some(query)), end)
    case AbsolutePath(segments, search, end) =>
      var start := AbsoluteStart(b, BehindSlash(r));
      WithFragment(k, WithQuery(k, u.(paths := Walked(k, true, start, segments)), search), end)
    case RelativePath(segments, search, end) =>
      var start := RelativeStart(b, WrittenReference(r));
      WithFragment(k, WithQuery(k, u.(paths := Walked(k, true, start, segments)), search), end)
  }

  lemma FileBaseIsEntered(k: Coding, input: seq<CodePoint>, b: Url)
    requires !HasScheme(input) && IsFileBase(b)
    ensures var p := START.(state := File); Leads(k, input, Some(b), START, p) && Inv(input, Some(b), p)
  {
    hide Inv, Run;
    NoSchemeIsFound(k, input, Some(b));
    var q := START.(state := NoScheme);
    LeadsByContinue(k, input, Some(b), q, START.(state := File));
    LeadsOn(k, input, Some(b), START, q, START.(state := File));
  }

  lemma FileGoesOn(k: Coding, input: seq<CodePoint>, b: Url)
    requires |input| > 0 && Inv(input, Some(b), START.(state := File)) && b.scheme == FILE
    ensures var p := START.(state := File); var c := input[0];
      var u := FILE_URL.(host := b.host, paths := b.paths, query := b.query);
      && (c == HASH ==>
        var q := p.(state := Fragment, pos := 1, url := u.(fragment := Some([]))); Leads(k, input, Some(b), p, q))
      && (c == QUESTION ==>
        var q := p.(state := Query, pos := 1, url := u.(query := Some([]))); Leads(k, input, Some(b), p, q))
      && (c == SLASH ==> var q := Fresh(FileSlash, 1, FILE_URL); Leads(k, input, Some(b), p, q))
      && (PathText([c], true) ==>
        var q := Fresh(Path, 0, u.(query := None, paths := RelativeStart(b, input))); Leads(k, input, Some(b), p, q))
  {
    hide Run, Inv, IsSpecialScheme, StartsWithWindowsDriveLetter, Encode, IsNormalizedWindowsDriveLetter;
    var p, c := START.(state := File), input[0];
    var u := FILE_URL.(host := b.host, paths := b.paths, query := b.query);
    assert [c][0] == c && input[0..] == input;
    if c == HASH {
      LeadsByBreak(k, input, Some(b), p, p.(state := Fragment, url := u.(fragment := Some([]))));
    } else if c == QUESTION {
      LeadsByBreak(k, input, Some(b), p, p.(state := Query, url := u.(query := Some([]))));
    } else if c == SLASH {
      LeadsByBreak(k, input, Some(b), p, Fresh(FileSlash, 0, FILE_URL));
    } else if PathText([c], true) {
      LeadsByContinue(k, input, Some(b), p, Fresh(Path, 0, u.(query := None, paths := RelativeStart(b, input))));
    }
  }

  lemma FileSlashGoesOn(k: Coding, input: seq<CodePoint>, b: Url, p: Parser)
    requires Inv(input, Some(b), p) && p.pos <= |input| && p == Fresh(FileSlash, p.pos, FILE_URL) && b.scheme == FILE
    requires !IsSlash(Current(input, p.pos))
    requires b.paths != [] || StartsWithWindowsDriveLetter(Encode(input[p.pos..]))
    ensures var q := Fresh(Path, p.pos, FILE_URL.(host := b.host, paths := AbsoluteStart(b, input[p.pos..])));
      Leads(k, input, Some(b), p, q) && Inv(input, Some(b), q)
  {
    hide Run, Inv, IsSpecialScheme, StartsWithWindowsDriveLetter, Encode, IsNormalizedWindowsDriveLetter;
    assert b.paths != [] ==> FILE_URL.paths + [b.paths[0]] == [b.paths[0]];
    LeadsByContinue(k, input, Some(b), p,
                    Fresh(Path, p.pos, FILE_URL.(host := b.host, paths := AbsoluteStart(b, input[p.pos..]))));
  }

  // ---- From the file state on ----

  lemma SameFileIsRead(k: Coding, b: Url, r: Reference)
    requires b.scheme == FILE && IsReference(r, true) && (r.SameDocument? || r.SamePath?)
    requires Inv(WrittenReference(r), Some(b), START.(state := File))
    ensures Run(k, WrittenReference(r), Some(b), START.(state := File)) == Parsed(FileResolution(k, b, r))
  {
    hide Run, Inv, IsSpecialScheme, Encode, Dispatch, RelativeStart;
    var input := WrittenReference(r);
    assert input[0..] == input;
    FileGoesOn(k, input, b);
    var u := FILE_URL.(host := b.host, paths := b.paths, query := b.query);
    match r
    case SameDocument(fragment) =>
      Headed(input, 0, HASH, fragment);
      FragmentIsParsed(k, input, Some(b), START.(state := Fragment, pos := 1, url := u.(fragment := Some([]))));
    case SamePath(query, end) =>
      Headed(input, 0, QUESTION, query + FragmentTail(end));
      QueryIsParsed(k, input, Some(b), START.(state := Query, pos := 1, url := u.(query := Some([]))), query, end);
  }

  lemma RelativeFileIsRead(k: Coding, b: Url, segments: seq<seq<CodePoint>>, search: Option<seq<CodePoint>>,
                           end: Option<seq<CodePoint>>)
    requires b.scheme == FILE && IsReference(RelativePath(segments, search, end), true)
    requires Inv(WrittenReference(RelativePath(segments, search, end)), Some(b), START.(state := File))
    ensures Run(k, WrittenReference(RelativePath(segments, search, end)), Some(b), START.(state := File))
         == Parsed(FileResolution(k, b, RelativePath(segments, search, end)))
  {
    FileIsScheme();
    hide Run, Inv, IsSpecialScheme, Encode, Dispatch, Walked, RelativeStart;
    var input := WrittenReference(RelativePath(segments, search, end));
    assert input[0..] == input && PathText(segments[0], true) && input[0] == segments[0][0];
    PathFirst(segments[0], true);
    FileGoesOn(k, input, b);
    var u := FILE_URL.(host := b.host, paths := RelativeStart(b, input));
    PathIsParsed(k, input, Some(b), Fresh(Path, 0, u), segments, search, end);
    ValidLast(k, WithPath(k, u, segments), search, end);
  }

  lemma AbsoluteFileIsRead(k: Coding, b: Url, segments: seq<seq<CodePoint>>, search: Option<seq<CodePoint>>,
                           end: Option<seq<CodePoint>>)
    requires b.scheme == FILE && IsReference(AbsolutePath(segments, search, end), true)
    requires Inv(PathTail(segments, search, end), Some(b), START.(state := File))
    ensures Run(k, PathTail(segments, search, end), Some(b), START.(state := File))
         == FileOutcome(k, b, AbsolutePath(segments, search, end))
  {
    FileIsScheme();
    hide Run, Inv, IsSpecialScheme, Encode, Dispatch, Walked;
    hide AbsoluteStart, RelativeStart, StartsWithWindowsDriveLetter;
    var input := PathTail(segments, search, end);
    var rest := segments[0] + PathTail(segments[1..], search, end);
    assert input[0..] == input && PathText(segments[0], true);
    Headed(input, 0, SLASH, rest);
    FileGoesOn(k, input, b);
    TailBegins(segments, search, end, true);
    assert |rest| > 0 ==> input[1] == rest[0];
    var p := Fresh(FileSlash, 1, FILE_URL);
    assert BehindSlash(AbsolutePath(segments, search, end)) == rest;
    if LacksFirstPath(b, AbsolutePath(segments, search, end)) {
      OneSlashHalts(k, input, Some(b), p);
    } else {
      FileSlashGoesOn(k, input, b, p);
      var u := FILE_URL.(host := b.host, paths := AbsoluteStart(b, rest));
      PathIsParsed(k, input, Some(b), Fresh(Path, 1, u), segments, search, end);
      ValidLast(k, WithPath(k, u, segments), search, end);
    }
  }

  lemma NoFileIsRead(k: Coding, b: Url)
    requires b.scheme == FILE && Inv([], Some(b), START.(state := File))
    ensures Run(k, [], Some(b), START.(state := File)) == Parsed(FileResolution(k, b, Empty))
  {
    hide Run, Inv, IsSpecialScheme, Encode, StartsWithWindowsDriveLetter;
    RunEnds(k, [], Some(b), START.(state := File));
  }

  /** What the file state makes of a reference, even of one that looks like a URL with a scheme. */
  lemma FileReferenceIsRead(k: Coding, b: Url, r: Reference)
    requires b.scheme == FILE && IsReference(r, true)
    requires Inv(WrittenReference(r), Some(b), START.(state := File))
    ensures Run(k, WrittenReference(r), Some(b), START.(state := File)) == FileOutcome(k, b, r)
  {
    hide Run, Inv, FileResolution, IsReference, Encode;
    match r
    case Empty => NoFileIsRead(k, b);
    case AbsolutePath(segments, search, end) => AbsoluteFileIsRead(k, b, segments, search, end);
    case RelativePath(segments, search, end) => RelativeFileIsRead(k, b, segments, search, end);
    case _ => SameFileIsRead(k, b, r);
  }

  /** A reference is resolved against a file URL, or halts for want of a first path segment. */
  lemma FileReferenceIsResolved(k: Coding, b: Url, r: Reference)
    requires IsFileBase(b) && IsReference(r, true) && !HasScheme(WrittenReference(r))
    ensures var input := WrittenReference(r);
      Inv(input, Some(b), START) && Run(k, input, Some(b), START) == FileOutcome(k, b, r)
  {
    hide Run, Inv, FileOutcome, IsReference, WrittenReference;
    FileBaseIsEntered(k, WrittenReference(r), b);
    FileReferenceIsRead(k, b, r);
  }

  /** The test for a drive letter at the beginning that the URL Standard has. */
  predicate IsDriveLetterAhead(t: Text) {
    |t| >= 2 && IsWindowsDriveLetter(t[..2]) && (|t| == 2 || t[2] in {SLASH, BACKSLASH, QUESTION, HASH})
  }

  /** Two bytes that end there, of which just one is as in a drive letter. */
  predicate HalfDriveLetterAhead(t: Text) {
    && |t| >= 2 && (|t| == 2 || t[2] in {SLASH, BACKSLASH, QUESTION, HASH})
    && (IsAlpha(t[0]) <==> t[1] != COLON && t[1] != BAR)
  }

  /**
   * A relative reference goes on from the folder of the base, or, before a drive letter, from the root, exactly if
   * there is no folder to lose or the reference does not begin with half a drive letter.
   */
  lemma FolderIsKeptExactly(b: Url, input: seq<CodePoint>)
    ensures RelativeStart(b, input) == (if IsDriveLetterAhead(Encode(input)) then [] else Parent(true, b.paths))
       <==> Parent(true, b.paths) == [] || !HalfDriveLetterAhead(Encode(input))
  {
    hide Encode, IsNormalizedWindowsDriveLetter;
    var t := Encode(input);
    assert |t| >= 2 ==> t[..2][0] == t[0] && t[..2][1] == t[1];
  }

  /**
   * A reference with one slash keeps the drive letter of the base, or, before another one, drops it, exactly if there
   * is none to keep or the reference does not begin with half a drive letter: `/ab` against `file:///C:/x` drops `C:`.
   */
  lemma DriveIsKeptExactly(b: Url, rest: seq<CodePoint>)
    ensures var keeps := |b.paths| > 0 && IsNormalizedWindowsDriveLetter(b.paths[0]);
      (AbsoluteStart(b, rest) == if !IsDriveLetterAhead(Encode(rest)) && keeps then [b.paths[0]] else [])
      <==> !keeps || !HalfDriveLetterAhead(Encode(rest))
  {
    hide Encode, IsNormalizedWindowsDriveLetter;
    var t := Encode(rest);
    assert |t| >= 2 ==> t[..2][0] == t[0] && t[..2][1] == t[1];
  }

  /** `ab` against `file:///c/d` is `file:///ab`: two letters lose the folder. */
  lemma TwoLettersLoseTheFolder(k: Coding, b: Url, first: CodePoint, second: CodePoint)
    requires IsFileBase(b) && IsAlpha(first) && IsAlpha(second)
    ensures var input: seq<CodePoint> := [first, second];
      && Inv(input, Some(b), START)
      && Run(k, input, Some(b), START)
        == Parsed(FILE_URL.(valid := true, host := b.host, paths := Walked(k, true, [], [input])))
  {
    hide Run, Inv, Walked;
    var input: seq<CodePoint> := [first, second];
    var r := RelativePath([input], None, None);
    assert WrittenReference(r) == input;
    TwoLetters(first, second);
    hide Encode, SchemeLength, IsNormalizedWindowsDriveLetter, PathTail;
    assert PathText(input, true) && !HasScheme(input);
    FileReferenceIsResolved(k, b, r);
  }

  lemma TwoLetters(first: CodePoint, second: CodePoint)
    requires IsAlpha(first) && IsAlpha(second)
    ensures var input: seq<CodePoint> := [first, second];
      Encode(input) == [first, second] && SchemeLength(input) == 2
  {
    var input: seq<CodePoint> := [first, second];
    assert input[..1] == [first] && input[..1][..0] == [];
    assert Encode(input[..1]) == [first];
    assert Encode(input) == Encode(input[..1]) + Utf8(second);
    assert input[1..] == [second] && input[1..][1..] == [];
  }
}
