/** In special URLs, backslashes before the query are read as slashes. */
module UrlBackslashes {
  import opened CommonTypes
  import opened Urls
  import opened UrlParsers
  import opened UrlMeaning
  import opened UrlFiles

  // ---- Inputs that differ in the direction of slashes ----

  predicate SameOrSlashes(c: CodePoint, c': CodePoint) {
    c == c' || (IsSlash(c) && IsSlash(c'))
  }

  predicate EndsPath(c: CodePoint) {
    c == QUESTION || c == HASH
  }

  /** Equal but for the direction of slashes, which differ only before `cut`, where the first `?` or `#` stands. */
  ghost predicate Similar(input: seq<CodePoint>, input': seq<CodePoint>, cut: nat) {
    && cut <= |input| == |input'|
    && (forall i :: 0 <= i < cut ==> SameOrSlashes(input[i], input'[i]) && !EndsPath(input[i]))
    && (forall i :: cut <= i < |input| ==> input[i] == input'[i])
  }

  function PathLength(input: seq<CodePoint>): (n: nat)
    ensures n <= |input|
    ensures forall i :: 0 <= i < n ==> !EndsPath(input[i])
  {
    if |input| == 0 || EndsPath(input[0]) then 0 else 1 + PathLength(input[1..])
  }

  /** The input with slashes for backslashes before the first `?` or `#`. */
  function Forward(input: seq<CodePoint>): (r: seq<CodePoint>)
    ensures |r| == |input|
  {
    var cut := PathLength(input);
    seq(|input|, i requires 0 <= i < |input| => if i < cut && input[i] == BACKSLASH then SLASH else input[i])
  }

  lemma ForwardIsSimilar(input: seq<CodePoint>)
    ensures Similar(input, Forward(input), PathLength(input))
  {
  }

  lemma SimilarHere(input: seq<CodePoint>, input': seq<CodePoint>, cut: nat, pos: nat)
    requires Similar(input, input', cut) && pos <= |input|
    ensures var c, c' := Current(input, pos), Current(input', pos);
      && (c == c' || (IsSlash(c) && IsSlash(c') && pos < cut))
      && (pos < |input| && EndsPath(input[pos]) ==> pos >= cut)
  {
  }

  // ---- Their bytes ----

  ghost predicate SimilarText(t: Text, t': Text) {
    && |t| == |t'|
    && forall i :: 0 <= i < |t| ==> t[i] == t'[i] || (IsSlash(t[i]) && IsSlash(t'[i]))
  }

  ghost predicate SimilarSeq(s: seq<CodePoint>, s': seq<CodePoint>) {
    && |s| == |s'|
    && forall i :: 0 <= i < |s| ==> SameOrSlashes(s[i], s'[i])
  }

  lemma SimilarCodePoints(c: CodePoint, c': CodePoint)
    requires SameOrSlashes(c, c')
    ensures SimilarText(Utf8(c), Utf8(c'))
  {
  }

  lemma SimilarJoined(a: Text, a': Text, b: Text, b': Text)
    requires SimilarText(a, a') && SimilarText(b, b')
    ensures SimilarText(a + b, a' + b')
  {
  }

  lemma {:induction false} SimilarEncoded(s: seq<CodePoint>, s': seq<CodePoint>)
    requires SimilarSeq(s, s')
    ensures SimilarText(Encode(s), Encode(s'))
  {
    if |s| > 0 {
      var n := |s| - 1;
      SimilarEncoded(s[..n], s'[..n]);
      SimilarCodePoints(s[n], s'[n]);
      SimilarJoined(Encode(s[..n]), Encode(s'[..n]), Utf8(s[n]), Utf8(s'[n]));
    }
  }

  lemma SimilarParts(input: seq<CodePoint>, input': seq<CodePoint>, cut: nat, pos: nat)
    requires Similar(input, input', cut) && pos <= |input|
    ensures |input'| == |input|
    ensures SimilarSeq(input[..pos], input'[..pos]) && SimilarSeq(input[pos..], input'[pos..])
  {
  }

  lemma SimilarDrive(t: Text, t': Text)
    requires SimilarText(t, t')
    ensures StartsWithWindowsDriveLetter(t) == StartsWithWindowsDriveLetter(t')
  {
  }

  lemma SameDrive(input: seq<CodePoint>, input': seq<CodePoint>, cut: nat, pos: nat)
    requires Similar(input, input', cut) && pos <= |input|
    ensures StartsWithWindowsDriveLetter(Encode(input[pos..])) == StartsWithWindowsDriveLetter(Encode(input'[pos..]))
  {
    hide Similar, SimilarSeq, SimilarText, StartsWithWindowsDriveLetter;
    SimilarParts(input, input', cut, pos);
    SimilarEncoded(input[pos..], input'[pos..]);
    SimilarDrive(Encode(input[pos..]), Encode(input'[pos..]));
  }

  lemma SameOffset(input: seq<CodePoint>, input': seq<CodePoint>, cut: nat, pos: nat)
    requires Similar(input, input', cut) && pos <= |input|
    ensures |input'| == |input| && ByteOffset(input, pos) == ByteOffset(input', pos)
  {
    SimilarParts(input, input', cut, pos);
    SimilarEncoded(input[..pos], input'[..pos]);
  }

  lemma {:induction false} SameAtOffset(input: seq<CodePoint>, input': seq<CodePoint>, cut: nat, offset: int, from: nat)
    requires Similar(input, input', cut) && from <= |input|
    ensures |input'| == |input| && AtByteOffset(input, offset, from) == AtByteOffset(input', offset, from)
    decreases |input| - from
  {
    hide ByteOffset;
    SameOffset(input, input', cut, from);
    if from < |input| && ByteOffset(input, from) < offset {
      SameAtOffset(input, input', cut, offset, from + 1);
    }
  }

  // ---- Steps ----

  /** The URL is special, and the query or the fragment has not begun before the cut. */
  predicate Goes(base: Option<Url>, p: Parser, cut: nat) {
    match p.state
    case Relative => base.Some? && base.value.IsSpecial() && p.url == EMPTY_URL.(scheme := p.url.scheme)
    case File => true
    case FileSlash | FileHost => p.url.scheme == FILE
    case RelativeSlash | SpecialAuthorityIgnoreSlashes | Authority | HostState | Hostname | Port | PathStart | Path =>
      p.url.IsSpecial()
    case Query | Fragment => p.pos > cut
    case _ => false
  }

  /** Both inputs lead to the same state, which goes on alike. */
  ghost predicate Together(input: seq<CodePoint>, base: Option<Url>, e: Effect, e': Effect, cut: nat) {
    && e == e'
    && (e.Continue? ==> Goes(base, e.p, cut))
    && (e.Break? && e.p.pos < |input| ==> Goes(base, Advanced(e.p), cut))
  }

  lemma RelativeTogether(k: Coding, input: seq<CodePoint>, input': seq<CodePoint>, cut: nat, base: Option<Url>,
                         p: Parser)
    requires Similar(input, input', cut) && p.pos <= |input| && Goes(base, p, cut)
    requires p.state == Relative
    ensures var c, c' := Current(input, p.pos), Current(input', p.pos);
      Together(input, base, OnRelative(base, p, c), OnRelative(base, p, c'), cut)
  {
    SimilarHere(input, input', cut, p.pos);
    hide IsSpecialScheme, Similar;
  }

  lemma RelativeSlashTogether(k: Coding, input: seq<CodePoint>, input': seq<CodePoint>, cut: nat, base: Option<Url>,
                              p: Parser)
    requires Similar(input, input', cut) && p.pos <= |input| && Goes(base, p, cut)
    requires p.state == RelativeSlash
    ensures var c, c' := Current(input, p.pos), Current(input', p.pos);
      Together(input, base, OnRelativeSlash(base, p, c), OnRelativeSlash(base, p, c'), cut)
  {
    SimilarHere(input, input', cut, p.pos);
    hide IsSpecialScheme, Similar;
  }

  lemma IgnoredTogether(k: Coding, input: seq<CodePoint>, input': seq<CodePoint>, cut: nat, base: Option<Url>,
                        p: Parser)
    requires Similar(input, input', cut) && p.pos <= |input| && Goes(base, p, cut)
    requires p.state == SpecialAuthorityIgnoreSlashes
    ensures var c, c' := Current(input, p.pos), Current(input', p.pos);
      Together(input, base, OnSpecialAuthorityIgnoreSlashes(p, c), OnSpecialAuthorityIgnoreSlashes(p, c'), cut)
  {
    SimilarHere(input, input', cut, p.pos);
    hide IsSpecialScheme, Similar;
  }

  lemma SameRewind(input: seq<CodePoint>, input': seq<CodePoint>, cut: nat, p: Parser)
    requires Similar(input, input', cut) && p.pos <= |input|
    ensures |input'| == |input|
    ensures AtByteOffset(input, ByteOffset(input, p.pos) - |p.buffer| - 1, 0)
         == AtByteOffset(input', ByteOffset(input', p.pos) - |p.buffer| - 1, 0)
  {
    hide ByteOffset, AtByteOffset, Similar;
    SameOffset(input, input', cut, p.pos);
    SameAtOffset(input, input', cut, ByteOffset(input, p.pos) - |p.buffer| - 1, 0);
  }

  lemma AuthorityTogether(k: Coding, input: seq<CodePoint>, input': seq<CodePoint>, cut: nat, base: Option<Url>,
                          p: Parser)
    requires Similar(input, input', cut) && p.pos <= |input| && Goes(base, p, cut)
    requires p.state == Authority
    ensures var c, c' := Current(input, p.pos), Current(input', p.pos);
      Together(input, base, OnAuthority(input, p, c), OnAuthority(input', p, c'), cut)
  {
    hide IsSpecialScheme, ByteOffset, AtByteOffset, Utf8;
    SimilarHere(input, input', cut, p.pos);
    SameRewind(input, input', cut, p);
    hide Similar;
  }

  lemma HostTogether(k: Coding, input: seq<CodePoint>, input': seq<CodePoint>, cut: nat, base: Option<Url>,
                     p: Parser)
    requires Similar(input, input', cut) && p.pos <= |input| && Goes(base, p, cut)
    requires p.state == HostState || p.state == Hostname
    ensures var c, c' := Current(input, p.pos), Current(input', p.pos);
      Together(input, base, OnHost(k, input, p, c), OnHost(k, input', p, c'), cut)
  {
    SimilarHere(input, input', cut, p.pos);
    hide IsSpecialScheme, Similar, ParseHost, Utf8;
  }

  lemma PortTogether(k: Coding, input: seq<CodePoint>, input': seq<CodePoint>, cut: nat, base: Option<Url>,
                     p: Parser)
    requires Similar(input, input', cut) && p.pos <= |input| && Goes(base, p, cut)
    requires p.state == Port
    ensures var c, c' := Current(input, p.pos), Current(input', p.pos);
      Together(input, base, OnPort(input, p, c), OnPort(input', p, c'), cut)
  {
    SimilarHere(input, input', cut, p.pos);
    hide IsSpecialScheme, Similar, ToUint, DefaultPortForScheme, Utf8;
  }

  /** Where the File state goes. */
  lemma FileGoes(input: seq<CodePoint>, base: Option<Url>, p: Parser, cut: nat)
    requires p.pos <= |input| && (p.pos < |input| && EndsPath(input[p.pos]) ==> p.pos >= cut) && p.state == File
    ensures var e := OnFile(input, base, p, Current(input, p.pos)); Together(input, base, e, e, cut)
  {
    FileIsScheme();
    hide StartsWithWindowsDriveLetter, Encode, IsSpecialScheme, KeepsDriveLetter;
  }

  lemma SameFile(input: seq<CodePoint>, input': seq<CodePoint>, base: Option<Url>, p: Parser, c: int, c': int)
    requires p.pos <= |input| == |input'| && (c == c' || (IsSlash(c) && IsSlash(c')))
    requires var t, t' := Encode(input[p.pos..]), Encode(input'[p.pos..]);
      StartsWithWindowsDriveLetter(t) == StartsWithWindowsDriveLetter(t')
    ensures OnFile(input, base, p, c) == OnFile(input', base, p, c')
  {
    hide StartsWithWindowsDriveLetter, Encode, Shortened;
  }

  lemma FileTogether(k: Coding, input: seq<CodePoint>, input': seq<CodePoint>, cut: nat, base: Option<Url>, p: Parser)
    requires Similar(input, input', cut) && p.pos <= |input| && Goes(base, p, cut)
    requires p.state == File
    ensures var c, c' := Current(input, p.pos), Current(input', p.pos);
      Together(input, base, OnFile(input, base, p, c), OnFile(input', base, p, c'), cut)
  {
    SimilarHere(input, input', cut, p.pos);
    SameDrive(input, input', cut, p.pos);
    assert |input'| == |input|;
    hide Similar, StartsWithWindowsDriveLetter, Encode, OnFile;
    FileGoes(input, base, p, cut);
    SameFile(input, input', base, p, Current(input, p.pos), Current(input', p.pos));
  }

  lemma FileSlashTogether(k: Coding, input: seq<CodePoint>, input': seq<CodePoint>, cut: nat, base: Option<Url>,
                          p: Parser)
    requires Similar(input, input', cut) && p.pos <= |input| && Goes(base, p, cut)
    requires p.state == FileSlash
    ensures var c, c' := Current(input, p.pos), Current(input', p.pos);
      Together(input, base, OnFileSlash(input, base, p, c), OnFileSlash(input', base, p, c'), cut)
  {
    SimilarHere(input, input', cut, p.pos);
    SameDrive(input, input', cut, p.pos);
    FileIsScheme();
    hide Similar, StartsWithWindowsDriveLetter, IsNormalizedWindowsDriveLetter, Encode, IsSpecialScheme;
  }

  lemma FileHostTogether(k: Coding, input: seq<CodePoint>, input': seq<CodePoint>, cut: nat, base: Option<Url>,
                         p: Parser)
    requires Similar(input, input', cut) && p.pos <= |input| && Goes(base, p, cut)
    requires p.state == FileHost
    ensures var c, c' := Current(input, p.pos), Current(input', p.pos);
      Together(input, base, OnFileHost(k, input, p, c), OnFileHost(k, input', p, c'), cut)
  {
    SimilarHere(input, input', cut, p.pos);
    FileIsScheme();
    hide Similar, ParseHost, IsWindowsDriveLetter, Utf8, IsSpecialScheme;
  }

  lemma PathStartTogether(k: Coding, input: seq<CodePoint>, input': seq<CodePoint>, cut: nat, base: Option<Url>,
                          p: Parser)
    requires Similar(input, input', cut) && p.pos <= |input| && Goes(base, p, cut)
    requires p.state == PathStart
    ensures var c, c' := Current(input, p.pos), Current(input', p.pos);
      Together(input, base, OnPathStart(p, c), OnPathStart(p, c'), cut)
  {
    SimilarHere(input, input', cut, p.pos);
    hide IsSpecialScheme, Similar;
  }

  lemma SegmentsTogether(k: Coding, u: Url, buffer: Text, c: int, c': int)
    requires u.IsSpecial() && (c == c' || (IsSlash(c) && IsSlash(c')))
    ensures SegmentAdded(k, u, buffer, c) == SegmentAdded(k, u, buffer, c')
  {
    hide IsSpecialScheme, IsDoubleDotPathSegment, IsSingleDotPathSegment, IsWindowsDriveLetter;
    hide IsNormalizedWindowsDriveLetter;
  }

  lemma PathTogether(k: Coding, input: seq<CodePoint>, input': seq<CodePoint>, cut: nat, base: Option<Url>,
                     p: Parser)
    requires Similar(input, input', cut) && p.pos <= |input| && Goes(base, p, cut)
    requires p.state == Path
    ensures var c, c' := Current(input, p.pos), Current(input', p.pos);
      Together(input, base, OnPath(k, input, p, c), OnPath(k, input', p, c'), cut)
  {
    SimilarHere(input, input', cut, p.pos);
    SegmentsTogether(k, p.url, p.buffer, Current(input, p.pos), Current(input', p.pos));
    OnlyPathsChange(k, p.url, p.buffer, Current(input, p.pos));
    hide IsSpecialScheme, Similar, SegmentAdded;
  }

  lemma QueryTogether(k: Coding, input: seq<CodePoint>, input': seq<CodePoint>, cut: nat, base: Option<Url>,
                      p: Parser)
    requires Similar(input, input', cut) && p.pos <= |input| && Goes(base, p, cut)
    requires p.state == Query
    ensures var c, c' := Current(input, p.pos), Current(input', p.pos);
      Together(input, base, OnQuery(k, input, p, c), OnQuery(k, input', p, c'), cut)
  {
    hide IsSpecialScheme, Utf8;
  }

  lemma FragmentTogether(k: Coding, input: seq<CodePoint>, input': seq<CodePoint>, cut: nat, base: Option<Url>,
                         p: Parser)
    requires Similar(input, input', cut) && p.pos <= |input| && Goes(base, p, cut)
    requires p.state == Fragment
    ensures Together(input, base, OnFragment(k, input, p), OnFragment(k, input', p), cut)
  {
    hide IsSpecialScheme, Utf8;
  }

  lemma StepTogether(k: Coding, input: seq<CodePoint>, input': seq<CodePoint>, cut: nat, base: Option<Url>, p: Parser)
    requires Similar(input, input', cut) && p.pos <= |input| && Goes(base, p, cut)
    ensures Together(input, base, Dispatch(k, input, base, p), Dispatch(k, input', base, p), cut)
  {
    hide Similar, Together, OnRelative, OnRelativeSlash, OnSpecialAuthorityIgnoreSlashes, OnAuthority, OnHost, OnPort;
    hide OnFile, OnFileSlash, OnFileHost, OnPathStart, OnPath, OnQuery, OnFragment;
    match p.state
    case Relative => RelativeTogether(k, input, input', cut, base, p);
    case RelativeSlash => RelativeSlashTogether(k, input, input', cut, base, p);
    case SpecialAuthorityIgnoreSlashes => IgnoredTogether(k, input, input', cut, base, p);
    case Authority => AuthorityTogether(k, input, input', cut, base, p);
    case HostState | Hostname => HostTogether(k, input, input', cut, base, p);
    case Port => PortTogether(k, input, input', cut, base, p);
    case File => FileTogether(k, input, input', cut, base, p);
    case FileSlash => FileSlashTogether(k, input, input', cut, base, p);
    case FileHost => FileHostTogether(k, input, input', cut, base, p);
    case PathStart => PathStartTogether(k, input, input', cut, base, p);
    case Path => PathTogether(k, input, input', cut, base, p);
    case Query => QueryTogether(k, input, input', cut, base, p);
    case Fragment => FragmentTogether(k, input, input', cut, base, p);
    case _ =>
  }

  /** From the same state on, the outcome is the same. */
  lemma {:induction false} RunTogether(k: Coding, input: seq<CodePoint>, input': seq<CodePoint>, cut: nat,
                                       base: Option<Url>, p: Parser)
    requires Similar(input, input', cut) && Inv(input, base, p) && Inv(input', base, p) && Goes(base, p, cut)
    ensures Run(k, input, base, p) == Run(k, input', base, p)
    decreases Measure(|input|, p)
  {
    assert |input| == |input'|;
    hide Dispatch, Similar, Inv, Measure, Goes;
    PosInRange(input, base, p);
    DispatchKeeps(k, input, base, p);
    DispatchKeeps(k, input', base, p);
    StepTogether(k, input, input', cut, base, p);
    match Dispatch(k, input, base, p)
    case Continue(q) => RunTogether(k, input, input', cut, base, q);
    case Break(q) =>
      if q.pos < |input| {
        RunTogether(k, input, input', cut, base, Advanced(q));
      }
    case _ =>
  }

  // ---- The states that look for two slashes ----

  /** After the scheme of a special URL, any slashes are passed over. */
  lemma SlashesAreIgnored(k: Coding, input: seq<CodePoint>, base: Option<Url>, p: Parser)
    requires Inv(input, base, p) && p.state == SpecialAuthoritySlashes && p.pos <= |input|
    ensures var q := p.(state := SpecialAuthorityIgnoreSlashes); Leads(k, input, base, p, q) && Inv(input, base, q)
  {
    hide Run, IsSpecialScheme;
    var q := p.(state := SpecialAuthorityIgnoreSlashes);
    if Current(input, p.pos) == SLASH && RemainingStartsWithSlash(input, p.pos) {
      LeadsByBreak(k, input, base, p, q.(pos := p.pos + 1));
      LeadsByBreak(k, input, base, q, q);
      LeadsByBreak(k, input, base, q.(pos := p.pos + 1), q.(pos := p.pos + 1));
    } else {
      LeadsByContinue(k, input, base, p, q);
    }
  }

  /** With a base of the same scheme, two slashes are read as the relative state reads them. */
  lemma SlashesAreRelative(k: Coding, input: seq<CodePoint>, base: Option<Url>, p: Parser)
    requires Inv(input, base, p) && p.state == SpecialRelativeOrAuthority && 1 <= p.pos <= |input|
    requires base.Some? && p.url == EMPTY_URL.(scheme := base.value.scheme) && p.url.IsSpecial()
    ensures var q := p.(state := Relative); Leads(k, input, base, p, q) && Inv(input, base, q)
  {
    hide Run, IsSpecialScheme;
    var q := p.(state := Relative);
    if Current(input, p.pos) == SLASH && RemainingStartsWithSlash(input, p.pos) {
      var r := p.(state := SpecialAuthorityIgnoreSlashes, pos := p.pos + 1);
      LeadsByBreak(k, input, base, p, r);
      LeadsByBreak(k, input, base, q, p.(state := RelativeSlash));
      LeadsByBreak(k, input, base, p.(state := RelativeSlash, pos := p.pos + 1), r);
    } else {
      LeadsByContinue(k, input, base, p, q);
    }
  }

  // ---- The whole ----

  lemma {:induction false} SchemeIsSimilar(input: seq<CodePoint>, input': seq<CodePoint>)
    requires SimilarSeq(input, input')
    ensures SchemeLength(input) == SchemeLength(input')
    ensures input[..SchemeLength(input)] == input'[..SchemeLength(input)]
  {
    if |input| > 0 && IsSchemePart(input[0]) {
      SchemeIsSimilar(input[1..], input'[1..]);
      var n := SchemeLength(input[1..]);
      assert input[..n + 1] == [input[0]] + input[1..][..n] && input'[..n + 1] == [input'[0]] + input'[1..][..n];
    }
  }

  lemma SameScheme(input: seq<CodePoint>, input': seq<CodePoint>, cut: nat)
    requires Similar(input, input', cut)
    ensures HasScheme(input) == HasScheme(input') && SchemeLength(input) == SchemeLength(input')
    ensures HasScheme(input) ==> SchemeOf(input) == SchemeOf(input')
  {
    assert input[0..] == input && input'[0..] == input';
    SimilarParts(input, input', cut, 0);
    SchemeIsSimilar(input, input');
    if |input| > 0 {
      assert SameOrSlashes(input[0], input'[0]);
    }
  }

  /** Whether the URL is bound to be special, by its own scheme or, if it has none, by that of its base. */
  predicate IsBoundToBeSpecial(input: seq<CodePoint>, base: Option<Url>) {
    if HasScheme(input) then IsSpecialScheme(SchemeOf(input))
    else base.Some? && base.value.IsSpecial() && !base.value.cannotBeABaseUrl
  }

  /** The state from which the direction of slashes plays no part. */
  lemma GoingIsEntered(k: Coding, input: seq<CodePoint>, base: Option<Url>, cut: nat)
    requires IsBoundToBeSpecial(input, base) && cut <= |input|
    ensures var p := GoingState(input, base);
      Leads(k, input, base, START, p) && Inv(input, base, p) && Goes(base, p, cut)
  {
    hide Run, IsSpecialScheme, Inv, SchemeLength, SchemeOf;
    if HasScheme(input) {
      var n := SchemeLength(input);
      SchemeIsRead(k, input, base);
      var q := START.(state := Scheme, pos := n, buffer := SchemeOf(input));
      GoesFromScheme(k, input, base, q);
      LeadsOn(k, input, base, START, q, GoingState(input, base));
    } else {
      var p := GoingState(input, base);
      NoSchemeIsFound(k, input, base);
      var q := START.(state := NoScheme);
      LeadsByContinue(k, input, base, q, p);
      LeadsOn(k, input, base, START, q, p);
    }
  }

  lemma GoesFromScheme(k: Coding, input: seq<CodePoint>, base: Option<Url>, q: Parser)
    requires Inv(input, base, q) && q == START.(state := Scheme, pos := q.pos, buffer := q.buffer)
    requires q.pos < |input| && input[q.pos] == COLON && IsSpecialScheme(q.buffer)
    ensures var p := AfterSpecialScheme(q.buffer, q.pos + 1, base); Leads(k, input, base, q, p) && Inv(input, base, p)
  {
    hide Run, IsSpecialScheme, Inv;
    var r := AfterScheme(input, base, q);
    LeadsByBreak(k, input, base, q, r);
    hide Dispatch;
    if r.state == SpecialAuthoritySlashes {
      SlashesAreIgnored(k, input, base, Advanced(r));
    } else if r.state == SpecialRelativeOrAuthority {
      SlashesAreRelative(k, input, base, Advanced(r));
    }
  }

  function AfterSpecialScheme(scheme: Text, pos: nat, base: Option<Url>): Parser {
    Fresh(if scheme == FILE then File
          else if base.Some? && base.value.scheme == scheme then Relative
          else SpecialAuthorityIgnoreSlashes, pos, EMPTY_URL.(scheme := scheme))
  }

  function GoingState(input: seq<CodePoint>, base: Option<Url>): Parser {
    if HasScheme(input) then AfterSpecialScheme(SchemeOf(input), SchemeLength(input) + 1, base)
    else START.(state := if base.Some? && base.value.scheme == FILE then File else Relative)
  }

  /** In every input that is bound to be a special URL, backslashes before the first `?` or `#` are read as slashes. */
  lemma BackslashesAreSlashes(k: Coding, input: seq<CodePoint>, base: Option<Url>)
    requires IsBoundToBeSpecial(input, base)
    ensures Inv(input, base, START) && Inv(Forward(input), base, START)
    ensures Run(k, input, base, START) == Run(k, Forward(input), base, START)
  {
    hide Run, Inv, IsSpecialScheme, SchemeLength, Forward, PathLength, AfterSpecialScheme;
    var input', cut := Forward(input), PathLength(input);
    ForwardIsSimilar(input);
    SameScheme(input, input', cut);
    hide SchemeOf, HasScheme, Similar;
    GoingIsEntered(k, input, base, cut);
    GoingIsEntered(k, input', base, cut);
    RunTogether(k, input, input', cut, base, GoingState(input, base));
  }
}
