/** References to a base URL, after section 5.2 of RFC 3986. */
module UrlReferences {
  import opened CommonTypes
  import opened Urls
  import opened UrlParsers
  import opened UrlMeaning
  import opened UrlAuthorities

  /** A reference written relative to a base URL. */
  datatype Reference =
    | Empty
    | SameDocument(fragment: seq<CodePoint>)
    | SamePath(query: seq<CodePoint>, end: Option<seq<CodePoint>>)
    | AbsolutePath(segments: seq<seq<CodePoint>>, search: Option<seq<CodePoint>>, end: Option<seq<CodePoint>>)
    | RelativePath(segments: seq<seq<CodePoint>>, search: Option<seq<CodePoint>>, end: Option<seq<CodePoint>>)

  predicate IsReference(r: Reference, special: bool) {
    match r
    case Empty => true
    case SameDocument(_) => true
    case SamePath(query, _) => HASH !in query
    case AbsolutePath(segments, search, _) =>
      && |segments| > 0 && PathSegments(segments, special) && (search.Some? ==> HASH !in search.value)
      && (|segments| > 1 ==> |segments[0]| > 0)
    case RelativePath(segments, search, _) =>
      && |segments| > 0 && PathSegments(segments, special) && (search.Some? ==> HASH !in search.value)
      && |segments[0]| > 0
  }

  function WrittenReference(r: Reference): seq<CodePoint> {
    match r
    case Empty => []
    case SameDocument(fragment) => [HASH] + fragment
    case SamePath(query, end) => [QUESTION] + (query + FragmentTail(end))
    case AbsolutePath(segments, search, end) => PathTail(segments, search, end)
    case RelativePath(segments, search, end) =>
      if |segments| == 0 then [] else segments[0] + PathTail(segments[1..], search, end)
  }

  /** What a reference takes over from the base URL, before anything of its own. */
  function Inherited(b: Url): Url {
    EMPTY_URL.(valid := true, scheme := b.scheme, username := b.username, password := b.password, host := b.host,
               port := b.port)
  }

  /** The URL a reference stands for. */
  function Resolution(k: Coding, b: Url, r: Reference): Url {
    var u := Inherited(b);
    match r
    case Empty => u.(paths := b.paths, query := b.query)
    case SameDocument(fragment) => WithFragment(k, u.(paths := b.paths, query := b.query), Some(fragment))
    case SamePath(query, end) => WithFragment(k, WithQuery(k, u.(paths := b.paths), Some(query)), end)
    case AbsolutePath(segments, search, end) =>
      WithFragment(k, WithQuery(k, u.(paths := Walked(k, false, [], segments)), search), end)
    case RelativePath(segments, search, end) =>
      WithFragment(k, WithQuery(k, u.(paths := Walked(k, false, WithoutLast(b.paths), segments)), search), end)
  }

  predicate IsHierarchical(b: Url) {
    !b.cannotBeABaseUrl && b.scheme != FILE
  }

  lemma RelativeIsEntered(k: Coding, input: seq<CodePoint>, b: Url)
    requires !HasScheme(input) && IsHierarchical(b)
    ensures var q := START.(state := Relative); Leads(k, input, Some(b), START, q) && Inv(input, Some(b), q)
  {
    hide Run, Inv;
    NoSchemeIsFound(k, input, Some(b));
    var p := START.(state := NoScheme);
    LeadsByContinue(k, input, Some(b), p, START.(state := Relative));
    LeadsOn(k, input, Some(b), START, p, START.(state := Relative));
  }

  /** What the parser holds after taking over all of the base. */
  function Copied(b: Url): Url {
    Inherited(b).(valid := false, paths := b.paths, query := b.query)
  }

  lemma RelativeGoesOn(k: Coding, input: seq<CodePoint>, b: Url)
    requires |input| > 0 && Inv(input, Some(b), START.(state := Relative))
    ensures var p := START.(state := Relative); var c := input[0]; var u := Copied(b);
      && (c == HASH ==>
        var q := p.(state := Fragment, pos := 1, url := u.(fragment := Some([]))); Leads(k, input, Some(b), p, q))
      && (c == QUESTION ==>
        var q := p.(state := Query, pos := 1, url := u.(query := Some([]))); Leads(k, input, Some(b), p, q))
      && (c == SLASH ==>
        var q := p.(state := RelativeSlash, pos := 1, url := EMPTY_URL.(scheme := b.scheme));
        Leads(k, input, Some(b), p, q))
      && (PathText([c], b.IsSpecial()) ==>
        var q := p.(state := Path, url := u.(query := None, paths := WithoutLast(b.paths)));
        Leads(k, input, Some(b), p, q))
  {
    hide Run, Inv, IsSpecialScheme;
    var p, u, c := START.(state := Relative), Copied(b), input[0];
    assert [c][0] == c;
    if c == HASH {
      LeadsByBreak(k, input, Some(b), p, p.(state := Fragment, url := u.(fragment := Some([]))));
    } else if c == QUESTION {
      LeadsByBreak(k, input, Some(b), p, p.(state := Query, url := u.(query := Some([]))));
    } else if c == SLASH {
      LeadsByBreak(k, input, Some(b), p, p.(state := RelativeSlash, url := EMPTY_URL.(scheme := b.scheme)));
    } else if PathText([c], b.IsSpecial()) {
      LeadsByContinue(k, input, Some(b), p, p.(state := Path, url := u.(query := None, paths := WithoutLast(b.paths))));
    }
  }

  lemma OneSlashIsPath(k: Coding, input: seq<CodePoint>, b: Url, p: Parser)
    requires Inv(input, Some(b), p) && p.pos <= |input| && p.state == RelativeSlash
    requires !ActsAsSlash(Current(input, p.pos), p.url.IsSpecial())
    ensures var q := p.(state := Path,
                        url := p.url.(username := b.username, password := b.password, host := b.host, port := b.port));
      Leads(k, input, Some(b), p, q) && Inv(input, Some(b), q)
  {
    hide Run, Inv, IsSpecialScheme;
    LeadsByContinue(k, input, Some(b), p,
      p.(state := Path, url := p.url.(username := b.username, password := b.password, host := b.host, port := b.port)));
  }

  // ---- From the relative state on ----

  lemma AbsolutePathIsRead(k: Coding, b: Url, segments: seq<seq<CodePoint>>, search: Option<seq<CodePoint>>,
                           end: Option<seq<CodePoint>>)
    requires IsReference(AbsolutePath(segments, search, end), b.IsSpecial()) && b.scheme != FILE
    requires Inv(PathTail(segments, search, end), Some(b), START.(state := Relative))
    ensures Run(k, PathTail(segments, search, end), Some(b), START.(state := Relative))
         == Parsed(Resolution(k, b, AbsolutePath(segments, search, end)))
  {
    hide Run, Inv, IsSpecialScheme, Encode, Dispatch, Walked;
    var input := PathTail(segments, search, end);
    var rest := segments[0] + PathTail(segments[1..], search, end);
    assert input[0..] == input && PathText(segments[0], b.IsSpecial());
    Headed(input, 0, SLASH, rest);
    RelativeGoesOn(k, input, b);
    TailBegins(segments, search, end, b.IsSpecial());
    var p := START.(state := RelativeSlash, pos := 1, url := EMPTY_URL.(scheme := b.scheme));
    assert |rest| > 0 ==> input[1] == rest[0];
    OneSlashIsPath(k, input, b, p);
    var u := Inherited(b).(valid := false);
    PathIsParsed(k, input, Some(b), p.(state := Path, url := u), segments, search, end);
    ValidLast(k, WithPath(k, u, segments), search, end);
  }

  lemma RelativePathIsRead(k: Coding, b: Url, segments: seq<seq<CodePoint>>, search: Option<seq<CodePoint>>,
                           end: Option<seq<CodePoint>>)
    requires IsReference(RelativePath(segments, search, end), b.IsSpecial()) && b.scheme != FILE
    requires Inv(WrittenReference(RelativePath(segments, search, end)), Some(b), START.(state := Relative))
    ensures Run(k, WrittenReference(RelativePath(segments, search, end)), Some(b), START.(state := Relative))
         == Parsed(Resolution(k, b, RelativePath(segments, search, end)))
  {
    hide Run, Inv, IsSpecialScheme, Encode, Dispatch, Walked;
    var input := WrittenReference(RelativePath(segments, search, end));
    assert input[0..] == input && PathText(segments[0], b.IsSpecial()) && input[0] == segments[0][0];
    PathFirst(segments[0], b.IsSpecial());
    RelativeGoesOn(k, input, b);
    var u := Copied(b).(query := None, paths := WithoutLast(b.paths));
    PathIsParsed(k, input, Some(b), START.(state := Path, url := u), segments, search, end);
    ValidLast(k, WithPath(k, u, segments), search, end);
  }

  lemma SamePathIsRead(k: Coding, b: Url, r: Reference)
    requires IsReference(r, b.IsSpecial()) && (r.SameDocument? || r.SamePath?)
    requires Inv(WrittenReference(r), Some(b), START.(state := Relative))
    ensures Run(k, WrittenReference(r), Some(b), START.(state := Relative)) == Parsed(Resolution(k, b, r))
  {
    hide Run, Inv, IsSpecialScheme, Encode, Dispatch;
    var input := WrittenReference(r);
    assert input[0..] == input;
    RelativeGoesOn(k, input, b);
    var u := Copied(b);
    match r
    case SameDocument(fragment) =>
      Headed(input, 0, HASH, fragment);
      FragmentIsParsed(k, input, Some(b), START.(state := Fragment, pos := 1, url := u.(fragment := Some([]))));
    case SamePath(query, end) =>
      Headed(input, 0, QUESTION, query + FragmentTail(end));
      QueryIsParsed(k, input, Some(b), START.(state := Query, pos := 1, url := u.(query := Some([]))), query, end);
  }

  lemma NothingIsRead(k: Coding, b: Url)
    requires Inv([], Some(b), START.(state := Relative))
    ensures Run(k, [], Some(b), START.(state := Relative)) == Parsed(Resolution(k, b, Empty))
  {
    hide Run, Inv, IsSpecialScheme;
    RunEnds(k, [], Some(b), START.(state := Relative));
  }

  /** What the relative state makes of a reference, even of one that looks like a URL with a scheme. */
  lemma ReferenceIsRead(k: Coding, b: Url, r: Reference)
    requires IsReference(r, b.IsSpecial()) && b.scheme != FILE
    requires Inv(WrittenReference(r), Some(b), START.(state := Relative))
    ensures Run(k, WrittenReference(r), Some(b), START.(state := Relative)) == Parsed(Resolution(k, b, r))
  {
    hide Run, Inv, Resolution, IsReference, IsSpecialScheme;
    match r
    case Empty => NothingIsRead(k, b);
    case AbsolutePath(segments, search, end) => AbsolutePathIsRead(k, b, segments, search, end);
    case RelativePath(segments, search, end) => RelativePathIsRead(k, b, segments, search, end);
    case _ => SamePathIsRead(k, b, r);
  }

  /** A reference is resolved against its base as section 5.2 of RFC 3986 has it. */
  lemma ReferenceIsResolved(k: Coding, b: Url, r: Reference)
    requires IsHierarchical(b) && IsReference(r, b.IsSpecial()) && !HasScheme(WrittenReference(r))
    ensures var input := WrittenReference(r);
      Inv(input, Some(b), START) && Run(k, input, Some(b), START) == Parsed(Resolution(k, b, r))
  {
    hide Run, Inv, Resolution, IsReference, WrittenReference, IsSpecialScheme;
    RelativeIsEntered(k, WrittenReference(r), b);
    ReferenceIsRead(k, b, r);
  }

  /** Two slashes at the beginning: everything but the scheme is the reference's own. */
  lemma NetworkPathIsResolved(k: Coding, b: Url, x: HierPart)
    requires IsHierarchical(b) && IsHierPart(b.IsSpecial(), x)
    ensures var input := [SLASH] + ([SLASH] + UserTail(x));
      Inv(input, Some(b), START) && Run(k, input, Some(b), START) == Meaning(k, b.scheme, x)
  {
    var input := [SLASH] + ([SLASH] + UserTail(x));
    if b.IsSpecial() {
      FirstOfAuthority(x);
    }
    hide Run, Inv, IsSpecialScheme, Meaning, UserTail, Dispatch, IsHierPart;
    TwoSlashesAhead(input, UserTail(x));
    RelativeIsEntered(k, input, b);
    RelativeGoesOn(k, input, b);
    var p := START.(state := RelativeSlash, pos := 1, url := EMPTY_URL.(scheme := b.scheme));
    SecondSlashIsRead(k, input, b, p);
    AuthorityIsParsed(k, input, Some(b), p.(state := Authority, pos := 2), x);
  }

  lemma TwoSlashesAhead(input: seq<CodePoint>, rest: seq<CodePoint>)
    requires input == [SLASH] + ([SLASH] + rest)
    ensures |input| == |rest| + 2 && input[0] == SLASH && input[1] == SLASH && input[2..] == rest && !HasScheme(input)
    ensures |rest| > 0 ==> input[2] == rest[0]
  {
  }

  lemma SecondSlashIsRead(k: Coding, input: seq<CodePoint>, b: Url, p: Parser)
    requires Inv(input, Some(b), p) && p.state == RelativeSlash && p.pos < |input| && input[p.pos] == SLASH
    requires p.url.IsSpecial() ==> p.pos + 1 < |input| && !IsSlash(input[p.pos + 1])
    ensures var q := p.(state := Authority, pos := p.pos + 1); Leads(k, input, Some(b), p, q) && Inv(input, Some(b), q)
  {
    hide Run, Inv, IsSpecialScheme;
    if p.url.IsSpecial() {
      var r := p.(state := SpecialAuthorityIgnoreSlashes);
      LeadsByBreak(k, input, Some(b), p, r);
      LeadsByContinue(k, input, Some(b), Advanced(r), Advanced(r).(state := Authority));
    } else {
      LeadsByBreak(k, input, Some(b), p, p.(state := Authority));
    }
  }

  /** What an input without a scheme stands for if there is no base, or one that cannot be a base. */
  function WithoutBase(k: Coding, input: seq<CodePoint>, base: Option<Url>): Outcome {
    if base.None? || |input| == 0 || input[0] != HASH then NotAUrl
    else
      var b := base.value;
      var u := EMPTY_URL.(valid := true, scheme := b.scheme, paths := b.paths, query := b.query,
                          cannotBeABaseUrl := true);
      Parsed(WithFragment(k, u, Some(input[1..])))
  }

  lemma NoBaseIsResolved(k: Coding, input: seq<CodePoint>, base: Option<Url>)
    requires !HasScheme(input) && (base.Some? ==> base.value.cannotBeABaseUrl)
    ensures Inv(input, base, START) && Run(k, input, base, START) == WithoutBase(k, input, base)
  {
    hide Run, Inv, Encode;
    NoSchemeIsFound(k, input, base);
    var p := START.(state := NoScheme);
    RunEnds(k, input, base, p);
    if base.Some? && |input| > 0 && input[0] == HASH {
      var b := base.value;
      var q := p.(state := Fragment, url := EMPTY_URL.(scheme := b.scheme, paths := b.paths, query := b.query,
                                                       fragment := Some([]), cannotBeABaseUrl := true));
      LeadsByBreak(k, input, base, p, q);
      FragmentIsParsed(k, input, base, Advanced(q));
    }
  }
}
