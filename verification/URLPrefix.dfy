/**
 * What stands in front of the place that the loop is at is forgotten once the scheme is passed, so that a URL with
 * the scheme of its base is read relative to that base.
 */
module UrlPrefixes {
  import opened CommonTypes
  import opened Urls
  import opened UrlParsers
  import opened UrlMeaning
  import opened UrlAuthorities
  import opened UrlReferences
  import opened UrlBackslashes
  import opened UrlFiles
  import opened UrlFileMeaning

  /** The states that never go back to the beginning. */
  predicate IsBehind(s: State) {
    s != SchemeStart && s != Scheme && s != NoScheme
  }

  /** The same place in an input that is longer by `d` characters in front. */
  function Moved(p: Parser, d: nat): Parser {
    p.(pos := p.pos + d)
  }

  function MovedEffect(e: Effect, d: nat): Effect {
    match e
    case Continue(q) => Continue(Moved(q, d))
    case Break(q) => Break(Moved(q, d))
    case _ => e
  }

  lemma SameAhead(prefix: seq<CodePoint>, rest: seq<CodePoint>, pos: nat)
    requires pos <= |rest|
    ensures var input, at := prefix + rest, pos + |prefix|;
      && Current(input, at) == Current(rest, pos) && input[at..] == rest[pos..]
      && (pos < |rest| ==> input[at] == rest[pos])
      && RemainingStartsWithSlash(input, at) == RemainingStartsWithSlash(rest, pos)
  {
  }

  lemma BufferedMoves(prefix: seq<CodePoint>, rest: seq<CodePoint>, pos: nat, buffer: Text, start: nat)
    requires BufferedSince(rest, pos, buffer, start)
    ensures BufferedSince(prefix + rest, pos + |prefix|, buffer, start + |prefix|)
  {
    hide Encode;
    assert (prefix + rest)[start + |prefix|..pos + |prefix|] == rest[start..pos];
  }

  lemma InvMoves(prefix: seq<CodePoint>, rest: seq<CodePoint>, base: Option<Url>, p: Parser)
    requires Inv(rest, base, p) && IsBehind(p.state)
    ensures Inv(prefix + rest, base, Moved(p, |prefix|))
  {
    if p.state == Authority {
      var start: nat :| BufferedSince(rest, p.pos, p.buffer, start);
      BufferedMoves(prefix, rest, p.pos, p.buffer, start);
    }
  }

  /** The one effect is the other, with the place moved, and neither goes back to the beginning. */
  predicate Alike(e: Effect, moved: Effect, d: nat) {
    moved == MovedEffect(e, d) && (e.Continue? || e.Break? ==> IsBehind(e.p.state))
  }

  lemma SlashesMove(prefix: seq<CodePoint>, rest: seq<CodePoint>, p: Parser, c: int)
    requires p.pos <= |rest| && IsBehind(p.state)
    ensures var input, q := prefix + rest, Moved(p, |prefix|);
      && Alike(OnSpecialRelativeOrAuthority(rest, p, c), OnSpecialRelativeOrAuthority(input, q, c), |prefix|)
      && Alike(OnSpecialAuthoritySlashes(rest, p, c), OnSpecialAuthoritySlashes(input, q, c), |prefix|)
      && Alike(OnSpecialAuthorityIgnoreSlashes(p, c), OnSpecialAuthorityIgnoreSlashes(q, c), |prefix|)
      && Alike(OnPathOrAuthority(p, c), OnPathOrAuthority(q, c), |prefix|)
  {
    SameAhead(prefix, rest, p.pos);
    hide RemainingStartsWithSlash;
  }

  lemma RelativeMoves(base: Option<Url>, p: Parser, c: int, d: nat)
    requires IsBehind(p.state)
    ensures Alike(OnRelative(base, p, c), OnRelative(base, Moved(p, d), c), d)
  {
    hide IsSpecialScheme, WithoutLast;
  }

  lemma RelativeSlashMoves(base: Option<Url>, p: Parser, c: int, d: nat)
    requires IsBehind(p.state)
    ensures Alike(OnRelativeSlash(base, p, c), OnRelativeSlash(base, Moved(p, d), c), d)
  {
    hide IsSpecialScheme;
  }

  lemma PathStartMoves(p: Parser, c: int, d: nat)
    requires IsBehind(p.state)
    ensures Alike(OnPathStart(p, c), OnPathStart(Moved(p, d), c), d)
  {
    hide IsSpecialScheme;
  }

  /** The rewind to the host goes back by as much in both. */
  lemma AuthorityMoves(prefix: seq<CodePoint>, rest: seq<CodePoint>, base: Option<Url>, p: Parser)
    requires Inv(rest, base, p) && p.state == Authority
    ensures var input, q, c := prefix + rest, Moved(p, |prefix|), Current(rest, p.pos);
      Current(input, q.pos) == c && Alike(OnAuthority(rest, p, c), OnAuthority(input, q, c), |prefix|)
  {
    hide IsSpecialScheme, Utf8, AtByteOffset, ByteOffset, Encode;
    var start: nat :| BufferedSince(rest, p.pos, p.buffer, start);
    SameAhead(prefix, rest, p.pos);
    BufferedMoves(prefix, rest, p.pos, p.buffer, start);
    AuthorityRewinds(rest, p, start);
    AuthorityRewinds(prefix + rest, Moved(p, |prefix|), start + |prefix|);
    hide BufferedSince;
  }

  lemma HostMoves(k: Coding, prefix: seq<CodePoint>, rest: seq<CodePoint>, p: Parser)
    requires p.pos <= |rest| && IsBehind(p.state)
    ensures var input, q, c := prefix + rest, Moved(p, |prefix|), Current(rest, p.pos);
      Current(input, q.pos) == c && Alike(OnHost(k, rest, p, c), OnHost(k, input, q, c), |prefix|)
  {
    hide IsSpecialScheme, Utf8, ParseHost;
    SameAhead(prefix, rest, p.pos);
  }

  lemma PortMoves(prefix: seq<CodePoint>, rest: seq<CodePoint>, p: Parser)
    requires p.pos <= |rest| && IsBehind(p.state)
    ensures var input, q, c := prefix + rest, Moved(p, |prefix|), Current(rest, p.pos);
      Current(input, q.pos) == c && Alike(OnPort(rest, p, c), OnPort(input, q, c), |prefix|)
  {
    hide IsSpecialScheme, Utf8, ToUint, DefaultPortForScheme;
    SameAhead(prefix, rest, p.pos);
  }

  lemma FileMoves(input: seq<CodePoint>, rest: seq<CodePoint>, base: Option<Url>, p: Parser, c: int, d: nat)
    requires p.pos <= |rest| && p.pos + d <= |input| && input[p.pos + d..] == rest[p.pos..] && IsBehind(p.state)
    ensures Alike(OnFile(rest, base, p, c), OnFile(input, base, Moved(p, d), c), d)
  {
    hide StartsWithWindowsDriveLetter, Encode, Shortened;
  }

  lemma FileSlashMoves(input: seq<CodePoint>, rest: seq<CodePoint>, base: Option<Url>, p: Parser, c: int, d: nat)
    requires p.pos <= |rest| && p.pos + d <= |input| && input[p.pos + d..] == rest[p.pos..] && IsBehind(p.state)
    ensures Alike(OnFileSlash(rest, base, p, c), OnFileSlash(input, base, Moved(p, d), c), d)
  {
    hide StartsWithWindowsDriveLetter, IsNormalizedWindowsDriveLetter, Encode;
  }

  lemma FileHostMoves(k: Coding, prefix: seq<CodePoint>, rest: seq<CodePoint>, p: Parser)
    requires p.pos <= |rest| && IsBehind(p.state)
    ensures var input, q, c := prefix + rest, Moved(p, |prefix|), Current(rest, p.pos);
      Current(input, q.pos) == c && Alike(OnFileHost(k, rest, p, c), OnFileHost(k, input, q, c), |prefix|)
  {
    hide Utf8, ParseHost, IsWindowsDriveLetter;
    SameAhead(prefix, rest, p.pos);
  }

  lemma PathMoves(k: Coding, prefix: seq<CodePoint>, rest: seq<CodePoint>, p: Parser)
    requires p.pos <= |rest| && IsBehind(p.state)
    ensures var input, q, c := prefix + rest, Moved(p, |prefix|), Current(rest, p.pos);
      Current(input, q.pos) == c && Alike(OnPath(k, rest, p, c), OnPath(k, input, q, c), |prefix|)
  {
    hide IsSpecialScheme, SegmentAdded;
    SameAhead(prefix, rest, p.pos);
  }

  lemma OpaquePathMoves(k: Coding, prefix: seq<CodePoint>, rest: seq<CodePoint>, p: Parser)
    requires p.pos <= |rest| && IsBehind(p.state)
    ensures var input, q, c := prefix + rest, Moved(p, |prefix|), Current(rest, p.pos);
      && Current(input, q.pos) == c
      && Alike(OnCannotBeABaseUrlPath(k, rest, p, c), OnCannotBeABaseUrlPath(k, input, q, c), |prefix|)
  {
    hide PathIsOneEmptySegment;
    SameAhead(prefix, rest, p.pos);
  }

  lemma QueryMoves(k: Coding, prefix: seq<CodePoint>, rest: seq<CodePoint>, p: Parser)
    requires p.pos <= |rest| && IsBehind(p.state)
    ensures var input, q, c := prefix + rest, Moved(p, |prefix|), Current(rest, p.pos);
      Current(input, q.pos) == c && Alike(OnQuery(k, rest, p, c), OnQuery(k, input, q, c), |prefix|)
  {
    hide IsSpecialScheme, Utf8;
    SameAhead(prefix, rest, p.pos);
  }

  lemma FragmentMoves(k: Coding, prefix: seq<CodePoint>, rest: seq<CodePoint>, p: Parser)
    requires p.pos <= |rest| && IsBehind(p.state)
    ensures Alike(OnFragment(k, rest, p), OnFragment(k, prefix + rest, Moved(p, |prefix|)), |prefix|)
  {
    hide Utf8;
    SameAhead(prefix, rest, p.pos);
  }

  /** A step is the same in both inputs. */
  lemma StepMoves(k: Coding, prefix: seq<CodePoint>, rest: seq<CodePoint>, base: Option<Url>, p: Parser)
    requires Inv(rest, base, p) && IsBehind(p.state) && p.pos <= |rest|
    ensures Alike(Dispatch(k, rest, base, p), Dispatch(k, prefix + rest, base, Moved(p, |prefix|)), |prefix|)
  {
    hide Alike, Inv, Current, OnSpecialRelativeOrAuthority, OnPathOrAuthority, OnRelative, OnRelativeSlash;
    hide OnSpecialAuthoritySlashes, OnSpecialAuthorityIgnoreSlashes, OnAuthority, OnHost, OnPort, OnFile, OnFileSlash;
    hide OnFileHost, OnPathStart, OnPath, OnCannotBeABaseUrlPath, OnQuery, OnFragment;
    var c := Current(rest, p.pos);
    SameAhead(prefix, rest, p.pos);
    match p.state
    case SpecialRelativeOrAuthority | SpecialAuthoritySlashes | SpecialAuthorityIgnoreSlashes | PathOrAuthority =>
      SlashesMove(prefix, rest, p, c);
    case Relative => RelativeMoves(base, p, c, |prefix|);
    case RelativeSlash => RelativeSlashMoves(base, p, c, |prefix|);
    case PathStart => PathStartMoves(p, c, |prefix|);
    case Authority => AuthorityMoves(prefix, rest, base, p);
    case HostState | Hostname => HostMoves(k, prefix, rest, p);
    case Port => PortMoves(prefix, rest, p);
    case File => FileMoves(prefix + rest, rest, base, p, c, |prefix|);
    case FileSlash => FileSlashMoves(prefix + rest, rest, base, p, c, |prefix|);
    case FileHost => FileHostMoves(k, prefix, rest, p);
    case Path => PathMoves(k, prefix, rest, p);
    case CannotBeABaseUrlPath => OpaquePathMoves(k, prefix, rest, p);
    case Query => QueryMoves(k, prefix, rest, p);
    case Fragment => FragmentMoves(k, prefix, rest, p);
  }

  /** Behind the scheme, the outcome does not depend on what stands in front. */
  lemma {:induction false} PrefixIsForgotten(k: Coding, prefix: seq<CodePoint>, rest: seq<CodePoint>, base: Option<Url>,
                                             p: Parser)
    requires Inv(rest, base, p) && IsBehind(p.state)
    ensures Inv(prefix + rest, base, Moved(p, |prefix|))
    ensures Run(k, prefix + rest, base, Moved(p, |prefix|)) == Run(k, rest, base, p)
    decreases Measure(|rest|, p)
  {
    InvMoves(prefix, rest, base, p);
    PosInRange(rest, base, p);
    hide Dispatch, Inv, Measure;
    DispatchKeeps(k, rest, base, p);
    DispatchKeeps(k, prefix + rest, base, Moved(p, |prefix|));
    StepMoves(k, prefix, rest, base, p);
    match Dispatch(k, rest, base, p)
    case Continue(q) => PrefixIsForgotten(k, prefix, rest, base, q);
    case Break(q) =>
      if q.pos < |rest| {
        assert Advanced(Moved(q, |prefix|)) == Moved(Advanced(q), |prefix|);
        PrefixIsForgotten(k, prefix, rest, base, Advanced(q));
      }
    case _ =>
  }

  // ---- URLs with the scheme of their base ----

  lemma PrefixParts(scheme: seq<CodePoint>, rest: seq<CodePoint>)
    ensures var input := scheme + ([COLON] + rest);
      && input == (scheme + [COLON]) + rest && input[..|scheme|] == scheme && |input| == |scheme| + 1 + |rest|
      && input[|scheme|] == COLON
  {
  }

  /** A special URL with the scheme of its base is read as what follows the colon, as if that were relative. */
  lemma SameSchemeIsRelative(k: Coding, scheme: seq<CodePoint>, rest: seq<CodePoint>, b: Url)
    requires SchemeIsWritten(scheme) && IsSpecialScheme(LoweredAscii(scheme)) && b.scheme == LoweredAscii(scheme)
    ensures var input := scheme + ([COLON] + rest); var p := START.(state := Relative);
      && Inv(input, Some(b), START) && Inv(rest, Some(b), p)
      && Run(k, input, Some(b), START) == Run(k, rest, Some(b), p)
  {
    hide Run, IsSpecialScheme;
    var input, n := scheme + ([COLON] + rest), |scheme|;
    PrefixParts(scheme, rest);
    SchemeIsParsedUpTo(k, input, Some(b), n);
    var q := START.(state := Scheme, pos := n, buffer := LoweredAscii(scheme));
    var r := START.(state := SpecialRelativeOrAuthority, pos := n, url := EMPTY_URL.(scheme := q.buffer));
    var p := Advanced(r).(state := Relative);
    hide Inv;
    LeadsByBreak(k, input, Some(b), q, r);
    SlashesAreRelative(k, input, Some(b), Advanced(r));
    hide Dispatch;
    RelativeForgetsUrl(k, rest, b);
    var from := START.(state := Relative, url := EMPTY_URL.(scheme := b.scheme));
    PrefixIsForgotten(k, scheme + [COLON], rest, Some(b), from);
  }

  /** The relative state replaces the scheme that it finds. */
  lemma RelativeForgetsUrl(k: Coding, rest: seq<CodePoint>, b: Url)
    ensures var p := START.(state := Relative); var q := p.(url := EMPTY_URL.(scheme := b.scheme));
      && Inv(rest, Some(b), p) && Inv(rest, Some(b), q) && Run(k, rest, Some(b), p) == Run(k, rest, Some(b), q)
  {
    var p := START.(state := Relative);
    var q := p.(url := EMPTY_URL.(scheme := b.scheme));
    assert Inv(rest, Some(b), p) && Inv(rest, Some(b), q);
    hide Inv, IsSpecialScheme, Run;
    SameStep(k, rest, Some(b), p, q);
  }

  /** Two states whose next step is the same have the same outcome. */
  lemma SameStep(k: Coding, input: seq<CodePoint>, base: Option<Url>, p: Parser, q: Parser)
    requires Inv(input, base, p) && Inv(input, base, q) && p.pos <= |input| && q.pos <= |input|
    requires Dispatch(k, input, base, p) == Dispatch(k, input, base, q)
    ensures Run(k, input, base, p) == Run(k, input, base, q)
  {
    hide Inv, Dispatch;
  }

  /** So every reference is resolved in the same way behind the scheme of its base. */
  lemma SameSchemeIsResolved(k: Coding, scheme: seq<CodePoint>, r: Reference, b: Url)
    requires SchemeIsWritten(scheme) && IsSpecialScheme(LoweredAscii(scheme)) && b.scheme == LoweredAscii(scheme)
    requires IsReference(r, true)
    ensures var input := scheme + ([COLON] + WrittenReference(r));
      Inv(input, Some(b), START) && Run(k, input, Some(b), START) == Parsed(Resolution(k, b, r))
  {
    hide Run, Inv, IsSpecialScheme, Resolution, IsReference, WrittenReference, LoweredAscii;
    SameSchemeIsRelative(k, scheme, WrittenReference(r), b);
    ReferenceIsRead(k, b, r);
  }

  /** A file URL with a file base is read as what follows the colon, as if that were relative. */
  lemma FileSchemeIsRelative(k: Coding, scheme: seq<CodePoint>, rest: seq<CodePoint>, b: Url)
    requires AllSchemeParts(scheme) && LoweredAscii(scheme) == FILE && b.scheme == FILE
    ensures var input := scheme + ([COLON] + rest); var p := START.(state := File);
      && Inv(input, Some(b), START) && Inv(rest, Some(b), p)
      && Run(k, input, Some(b), START) == Run(k, rest, Some(b), p)
  {
    hide Run, IsSpecialScheme, Encode;
    var input := scheme + ([COLON] + rest);
    PrefixParts(scheme, rest);
    FileSchemeIsFound(scheme, rest);
    var f := |scheme| + 1;
    var p := START.(state := File);
    assert Inv(rest, Some(b), p);
    hide Inv, HasScheme, SchemeOf, SchemeLength;
    var q := FileIsEntered(k, input, Some(b));
    PrefixIsForgotten(k, scheme + [COLON], rest, Some(b), p);
    SameStep(k, input, Some(b), q, Moved(p, f));
  }

  lemma FileSchemeIsResolved(k: Coding, scheme: seq<CodePoint>, r: Reference, b: Url)
    requires AllSchemeParts(scheme) && LoweredAscii(scheme) == FILE && b.scheme == FILE && IsReference(r, true)
    ensures var input := scheme + ([COLON] + WrittenReference(r));
      Inv(input, Some(b), START) && Run(k, input, Some(b), START) == FileOutcome(k, b, r)
  {
    hide Run, Inv, FileOutcome, IsReference, WrittenReference, LoweredAscii;
    FileSchemeIsRelative(k, scheme, WrittenReference(r), b);
    FileReferenceIsRead(k, b, r);
  }
}
