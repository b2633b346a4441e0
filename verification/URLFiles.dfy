/** The states that only file URLs come to: where parsing halts, and what is skipped without a file base. */
module UrlFiles {
  import opened CommonTypes
  import opened Urls
  import opened UrlParsers
  import opened UrlMeaning

  // ---- Which inputs come to the File state ----

  function SchemeOf(input: seq<CodePoint>): Text
    requires HasScheme(input)
  {
    SchemePrefix(input);
    LoweredAscii(input[..SchemeLength(input)])
  }

  predicate IsFile(base: Option<Url>) {
    base.Some? && base.value.scheme == FILE
  }

  /** Where the File state begins, if the input comes to it. */
  function FileStart(input: seq<CodePoint>, base: Option<Url>): (f: Option<nat>)
    ensures f.Some? ==> f.value <= |input|
  {
    if HasScheme(input) then if SchemeOf(input) == FILE then Some(SchemeLength(input) + 1) else None
    else if IsFile(base) && !base.value.cannotBeABaseUrl then Some(0)
    else None
  }

  predicate BeforeOrInFile(s: State) {
    s == SchemeStart || s == Scheme || s == NoScheme || s == File || s == FileSlash || s == FileHost
  }

  /** An iteration elsewhere neither halts nor comes back. */
  lemma StaysElsewhere(k: Coding, input: seq<CodePoint>, base: Option<Url>, p: Parser)
    requires Inv(input, base, p) && p.pos <= |input| && !BeforeOrInFile(p.state)
    ensures var e := Dispatch(k, input, base, p);
      && !e.Halts?
      && (e.Continue? || e.Break? ==> !BeforeOrInFile(e.p.state))
  {
    hide IsSpecialScheme, Encode, AtByteOffset, ByteOffset, Utf8, ParseHost, ToUint, DefaultPortForScheme, SegmentAdded;
    DispatchHalts(k, input, base, p);
    hide Inv;
  }

  lemma {:induction false} ElsewhereNeverHalts(k: Coding, input: seq<CodePoint>, base: Option<Url>, p: Parser)
    requires Inv(input, base, p) && !BeforeOrInFile(p.state)
    ensures !Run(k, input, base, p).Halted?
    decreases Measure(|input|, p)
  {
    hide Dispatch, Measure, Inv;
    PosInRange(input, base, p);
    DispatchKeeps(k, input, base, p);
    StaysElsewhere(k, input, base, p);
    match Dispatch(k, input, base, p)
    case Continue(q) => ElsewhereNeverHalts(k, input, base, q);
    case Break(q) =>
      if q.pos < |input| {
        ElsewhereNeverHalts(k, input, base, Advanced(q));
      }
    case _ =>
  }

  function Fresh(state: State, pos: nat, url: Url): Parser {
    Parser(state, pos, [], false, false, url)
  }

  lemma SchemeIsRead(k: Coding, input: seq<CodePoint>, base: Option<Url>)
    requires HasScheme(input)
    ensures var q := START.(state := Scheme, pos := SchemeLength(input), buffer := SchemeOf(input));
      Leads(k, input, base, START, q) && Inv(input, base, q)
  {
    hide Inv, Run;
    SchemePrefix(input);
    SchemeIsParsedUpTo(k, input, base, SchemeLength(input));
  }

  /** Every other input stays clear of the states of files, and never halts. */
  lemma OtherInputsNeverHalt(k: Coding, input: seq<CodePoint>, base: Option<Url>)
    requires FileStart(input, base).None?
    ensures Inv(input, base, START) && !Run(k, input, base, START).Halted?
  {
    hide Inv, Run, IsSpecialScheme;
    StartInvariant(input, base);
    if HasScheme(input) {
      var n := SchemeLength(input);
      SchemeIsRead(k, input, base);
      var p := START.(state := Scheme, pos := n, buffer := SchemeOf(input));
      var q := AfterScheme(input, base, p);
      LeadsByBreak(k, input, base, p, q);
      ElsewhereNeverHalts(k, input, base, Advanced(q));
    } else {
      NoSchemeIsFound(k, input, base);
      NoSchemeNeverHalts(k, input, base, START.(state := NoScheme));
    }
  }

  lemma NoSchemeNeverHalts(k: Coding, input: seq<CodePoint>, base: Option<Url>, p: Parser)
    requires Inv(input, base, p) && p.pos <= |input| && p.state == NoScheme
    requires !IsFile(base) || base.value.cannotBeABaseUrl
    ensures !Run(k, input, base, p).Halted?
  {
    hide Inv, Run;
    match OnNoScheme(base, p, Current(input, p.pos))
    case Continue(q) =>
      LeadsByContinue(k, input, base, p, q);
      ElsewhereNeverHalts(k, input, base, q);
    case Break(q) =>
      LeadsByBreak(k, input, base, p, q);
      ElsewhereNeverHalts(k, input, base, Advanced(q));
    case _ =>
      RunEnds(k, input, base, p);
  }

  const FILE_URL: Url := EMPTY_URL.(scheme := FILE, host := Some([]))

  /** What the File state makes of the URL it finds. */
  predicate BecomesFile(u: Url) {
    u.(scheme := FILE, host := Some([])) == FILE_URL
  }

  lemma FileIsEntered(k: Coding, input: seq<CodePoint>, base: Option<Url>) returns (p: Parser)
    requires FileStart(input, base).Some?
    ensures Leads(k, input, base, START, p) && Inv(input, base, p)
    ensures p == Fresh(File, FileStart(input, base).value, p.url) && BecomesFile(p.url)
  {
    hide Inv, Run, IsSpecialScheme;
    if HasScheme(input) {
      var n := SchemeLength(input);
      SchemeIsRead(k, input, base);
      var q := START.(state := Scheme, pos := n, buffer := SchemeOf(input));
      LeadsByBreak(k, input, base, q, AfterScheme(input, base, q));
      p := Advanced(AfterScheme(input, base, q));
      LeadsOn(k, input, base, START, q, p);
    } else {
      NoSchemeIsFound(k, input, base);
      var q := START.(state := NoScheme);
      p := START.(state := File);
      LeadsByContinue(k, input, base, q, p);
      LeadsOn(k, input, base, START, q, p);
    }
  }

  // ---- The host ----

  /** The first slash from there on, or the end. */
  function FirstSlash(input: seq<CodePoint>, from: nat): (n: nat)
    requires from <= |input|
    ensures from <= n <= |input| && (n < |input| ==> IsSlash(input[n]))
    decreases |input| - from
  {
    if from == |input| || IsSlash(input[from]) then from else FirstSlash(input, from + 1)
  }

  /** Where a file URL's host ends. */
  function HostEnd(input: seq<CodePoint>, from: nat): (n: nat)
    requires from <= |input|
    ensures from <= n <= |input| && EndsFileHost(Current(input, n))
    ensures forall i :: from <= i < n ==> !EndsFileHost(input[i])
    decreases |input| - from
  {
    if EndsFileHost(Current(input, from)) then from else HostEnd(input, from + 1)
  }

  /** The text from there to the next slash, backslash, question mark or hash. */
  function HostText(input: seq<CodePoint>, from: nat): seq<CodePoint>
    requires from <= |input|
  {
    input[from..HostEnd(input, from)]
  }

  predicate InBrackets(s: seq<CodePoint>) {
    |s| > 0 && s[0] == OPEN_BRACKET && s[|s| - 1] == CLOSE_BRACKET
  }

  lemma EncodedBrackets(s: seq<CodePoint>)
    ensures IsBracketed(Encode(s)) <==> InBrackets(s)
  {
    if |s| > 0 {
      EncodeFront(s, 0);
      assert s[0..] == s;
    }
  }

  lemma {:induction false} FileHostScanned(k: Coding, input: seq<CodePoint>, base: Option<Url>, p: Parser, n: nat)
    requires Inv(input, base, p) && p.state == FileHost && p.pos <= n <= |input|
    requires forall i :: p.pos <= i < n ==> !EndsFileHost(input[i])
    ensures Leads(k, input, base, p, p.(pos := n, buffer := p.buffer + Encode(input[p.pos..n])))
    decreases n - p.pos
  {
    hide Inv, Run, Utf8;
    if p.pos == n {
      assert p.buffer + Encode(input[p.pos..n]) == p.buffer;
      LeadsNowhere(k, input, base, p);
    } else {
      hide Encode;
      var q := Advanced(Appended(p, input));
      LeadsByBreak(k, input, base, p, Appended(p, input));
      FileHostScanned(k, input, base, q, n);
      BufferGrows(input, p.pos, n, p.buffer);
      LeadsOn(k, input, base, p, q, p.(pos := n, buffer := p.buffer + Encode(input[p.pos..n])));
    }
  }

  /** The state from which the host text is judged. */
  lemma FileHostIsRead(k: Coding, input: seq<CodePoint>, base: Option<Url>, p: Parser)
    requires Inv(input, base, p) && p.state == FileHost && p.pos <= |input| && p.buffer == []
    ensures var q := p.(pos := HostEnd(input, p.pos), buffer := Encode(HostText(input, p.pos)));
      Leads(k, input, base, p, q) && Inv(input, base, q)
  {
    hide Inv, Run, Encode, EndsFileHost;
    FileHostScanned(k, input, base, p, HostEnd(input, p.pos));
    assert [] + Encode(HostText(input, p.pos)) == Encode(HostText(input, p.pos));
  }

  /** A file URL's host halts exactly if it is bracketed. */
  lemma FileHostHalts(k: Coding, input: seq<CodePoint>, base: Option<Url>, p: Parser)
    requires Inv(input, base, p) && p.state == FileHost && p.pos <= |input| && p.buffer == []
    ensures var r := Run(k, input, base, p);
      if InBrackets(HostText(input, p.pos)) then r == Halted(Ipv6Host) else !r.Halted?
  {
    hide Inv, Run, Encode, EndsFileHost, Dispatch;
    FileHostIsRead(k, input, base, p);
    EncodedBrackets(HostText(input, p.pos));
    HostJudged(k, input, base, p.(pos := HostEnd(input, p.pos), buffer := Encode(HostText(input, p.pos))));
  }

  lemma HostJudged(k: Coding, input: seq<CodePoint>, base: Option<Url>, p: Parser)
    requires Inv(input, base, p) && p.state == FileHost && p.pos <= |input| && EndsFileHost(Current(input, p.pos))
    ensures var r := Run(k, input, base, p);
      if IsBracketed(p.buffer) then r == Halted(Ipv6Host) else !r.Halted?
  {
    hide Inv, Run, EndsFileHost, Encode, StartsWithWindowsDriveLetter;
    DispatchHalts(k, input, base, p);
    DispatchKeeps(k, input, base, p);
    RunEnds(k, input, base, p);
    var e := Dispatch(k, input, base, p);
    if e.Continue? {
      hide FreeOf;
      RunContinues(k, input, base, p, e.p);
      ElsewhereNeverHalts(k, input, base, e.p);
    }
  }

  // ---- Without a file base ----

  /** The File state passes over everything up to the first slash. */
  lemma {:induction false} FirstSlashIsFound(k: Coding, input: seq<CodePoint>, base: Option<Url>, p: Parser)
    requires Inv(input, base, p) && p.pos <= |input| && p == Fresh(File, p.pos, p.url) && BecomesFile(p.url)
    requires !IsFile(base)
    ensures var s := FirstSlash(input, p.pos); var q := Fresh(FileSlash, s + 1, FILE_URL);
      && (s == |input| ==> Run(k, input, base, p) == Parsed(FILE_URL.(valid := true)))
      && (s < |input| ==> Leads(k, input, base, p, q) && Inv(input, base, q))
    decreases |input| - p.pos
  {
    hide Inv, Run, IsSpecialScheme, Encode;
    var q := Fresh(File, p.pos, FILE_URL);
    if p.pos == |input| {
      RunEnds(k, input, base, p);
    } else if IsSlash(input[p.pos]) {
      LeadsByBreak(k, input, base, p, q.(state := FileSlash));
    } else {
      LeadsByBreak(k, input, base, p, q);
      FirstSlashIsFound(k, input, base, Advanced(q));
      var s := FirstSlash(input, p.pos);
      if s < |input| {
        LeadsOn(k, input, base, p, Advanced(q), Fresh(FileSlash, s + 1, FILE_URL));
      }
    }
  }

  /** The FileSlash state passes over everything up to the next one. */
  lemma {:induction false} SecondSlashIsFound(k: Coding, input: seq<CodePoint>, base: Option<Url>, p: Parser)
    requires Inv(input, base, p) && p.pos <= |input| && p == Fresh(FileSlash, p.pos, FILE_URL) && !IsFile(base)
    ensures var s := FirstSlash(input, p.pos); var q := Fresh(FileHost, s + 1, FILE_URL);
      && (s == |input| ==> Run(k, input, base, p) == Parsed(FILE_URL.(valid := true)))
      && (s < |input| ==> Leads(k, input, base, p, q) && Inv(input, base, q))
    decreases |input| - p.pos
  {
    hide Inv, Run, IsSpecialScheme, Encode;
    if p.pos == |input| {
      RunEnds(k, input, base, p);
    } else if IsSlash(input[p.pos]) {
      LeadsByBreak(k, input, base, p, p.(state := FileHost));
    } else {
      LeadsByBreak(k, input, base, p, p);
      SecondSlashIsFound(k, input, base, Advanced(p));
      var s := FirstSlash(input, p.pos);
      if s < |input| {
        LeadsOn(k, input, base, p, Advanced(p), Fresh(FileHost, s + 1, FILE_URL));
      }
    }
  }

  /** What stands behind the second slash, if there are two. */
  function AfterTwoSlashes(input: seq<CodePoint>, from: nat): (n: Option<nat>)
    requires from <= |input|
    ensures n.Some? ==> from + 2 <= n.value <= |input|
  {
    var s1 := FirstSlash(input, from);
    if s1 == |input| then None
    else
      var s2 := FirstSlash(input, s1 + 1);
      if s2 == |input| then None else Some(s2 + 1)
  }

  lemma TwoSlashesAreFound(k: Coding, input: seq<CodePoint>, base: Option<Url>)
    requires FileStart(input, base).Some? && !IsFile(base)
    ensures var n := AfterTwoSlashes(input, FileStart(input, base).value);
      && Inv(input, base, START)
      && (n.None? ==> Run(k, input, base, START) == Parsed(FILE_URL.(valid := true)))
      && (n.Some? ==> var q := Fresh(FileHost, n.value, FILE_URL);
          Leads(k, input, base, START, q) && Inv(input, base, q))
  {
    hide Inv, Run;
    var f := FileStart(input, base).value;
    var p := FileIsEntered(k, input, base);
    FirstSlashIsFound(k, input, base, p);
    var s1 := FirstSlash(input, f);
    if s1 < |input| {
      var q := Fresh(FileSlash, s1 + 1, FILE_URL);
      LeadsOn(k, input, base, START, p, q);
      SecondSlashIsFound(k, input, base, q);
      var s2 := FirstSlash(input, s1 + 1);
      if s2 < |input| {
        LeadsOn(k, input, base, START, q, Fresh(FileHost, s2 + 1, FILE_URL));
      }
    }
  }

  // ---- With a file base ----

  lemma OneSlashHalts(k: Coding, input: seq<CodePoint>, base: Option<Url>, p: Parser)
    requires Inv(input, base, p) && p.pos <= |input| && p == Fresh(FileSlash, p.pos, FILE_URL)
    requires IsFile(base) && !IsSlash(Current(input, p.pos))
    ensures var r := Run(k, input, base, p);
      if base.value.paths == [] && !StartsWithWindowsDriveLetter(Encode(input[p.pos..]))
      then r == Halted(NoFirstPath) else !r.Halted?
  {
    hide Inv, Run, IsSpecialScheme, Encode, StartsWithWindowsDriveLetter;
    DispatchHalts(k, input, base, p);
    DispatchKeeps(k, input, base, p);
    RunEnds(k, input, base, p);
    var e := Dispatch(k, input, base, p);
    if e.Continue? {
      RunContinues(k, input, base, p, e.p);
      ElsewhereNeverHalts(k, input, base, e.p);
    }
  }

  lemma NoSlashNeverHalts(k: Coding, input: seq<CodePoint>, base: Option<Url>, p: Parser)
    requires Inv(input, base, p) && p.pos <= |input| && p.state == File && IsFile(base)
    requires !IsSlash(Current(input, p.pos))
    ensures !Run(k, input, base, p).Halted?
  {
    hide Inv, Run, IsSpecialScheme, Encode, StartsWithWindowsDriveLetter, Shortened;
    DispatchKeeps(k, input, base, p);
    RunEnds(k, input, base, p);
    var e := Dispatch(k, input, base, p);
    if e.Continue? {
      RunContinues(k, input, base, p, e.p);
      ElsewhereNeverHalts(k, input, base, e.p);
    } else if e.p.pos < |input| {
      RunBreaks(k, input, base, p, e.p);
      ElsewhereNeverHalts(k, input, base, Advanced(e.p));
    }
  }

  // ---- When parsing halts ----

  predicate SlashAt(input: seq<CodePoint>, pos: nat) {
    pos < |input| && IsSlash(input[pos])
  }

  /** Where a file URL's host begins, if the input has one of its own. */
  function FileHostStart(input: seq<CodePoint>, base: Option<Url>): (n: Option<nat>)
    ensures n.Some? ==> n.value <= |input|
  {
    match FileStart(input, base)
    case None => None
    case Some(f) =>
      if !IsFile(base) then AfterTwoSlashes(input, f)
      else if SlashAt(input, f) && SlashAt(input, f + 1) then Some(f + 2) else None
  }

  /** A file URL's host in brackets. */
  predicate HostIsBracketed(input: seq<CodePoint>, base: Option<Url>) {
    var n := FileHostStart(input, base);
    n.Some? && InBrackets(HostText(input, n.value))
  }

  /** A single slash, where the file base URL has no first path segment to keep. */
  predicate FirstPathIsMissing(input: seq<CodePoint>, base: Option<Url>) {
    && IsFile(base) && base.value.paths == []
    && var f := FileStart(input, base);
    && f.Some? && SlashAt(input, f.value) && !SlashAt(input, f.value + 1)
    && !StartsWithWindowsDriveLetter(Encode(input[f.value + 1..]))
  }

  lemma FileBaseHalts(k: Coding, input: seq<CodePoint>, base: Option<Url>)
    requires FileStart(input, base).Some? && IsFile(base)
    ensures Inv(input, base, START)
    ensures var r := Run(k, input, base, START);
      if HostIsBracketed(input, base) then r == Halted(Ipv6Host)
      else if FirstPathIsMissing(input, base) then r == Halted(NoFirstPath)
      else !r.Halted?
  {
    hide Inv, Run, IsSpecialScheme, Encode, StartsWithWindowsDriveLetter, InBrackets, HostText, FileStart;
    var p := FileIsEntered(k, input, base);
    if SlashAt(input, p.pos) {
      var q := Fresh(FileSlash, p.pos + 1, FILE_URL);
      LeadsByBreak(k, input, base, p, Fresh(FileSlash, p.pos, FILE_URL));
      if SlashAt(input, q.pos) {
        var h := Fresh(FileHost, q.pos + 1, FILE_URL);
        LeadsByBreak(k, input, base, q, Fresh(FileHost, q.pos, FILE_URL));
        FileHostHalts(k, input, base, h);
      } else {
        OneSlashHalts(k, input, base, q);
      }
    } else {
      NoSlashNeverHalts(k, input, base, p);
    }
  }

  /**
   * Parsing runs into the unfinished code for IPv6 exactly at a file URL's host in brackets, into the assertion
   * of the vector exactly at a single slash against a file base URL without a path, and into nothing else.
   */
  lemma HaltsExactly(k: Coding, input: seq<CodePoint>, base: Option<Url>)
    ensures Inv(input, base, START)
    ensures Run(k, input, base, START) == Halted(Ipv6Host) <==> HostIsBracketed(input, base)
    ensures Run(k, input, base, START) == Halted(NoFirstPath) <==> FirstPathIsMissing(input, base)
    ensures Run(k, input, base, START).Halted? <==> HostIsBracketed(input, base) || FirstPathIsMissing(input, base)
  {
    hide Inv, Run, Encode, StartsWithWindowsDriveLetter, InBrackets, HostText;
    if FileStart(input, base).None? {
      OtherInputsNeverHalt(k, input, base);
    } else if IsFile(base) {
      FileBaseHalts(k, input, base);
    } else {
      TwoSlashesAreFound(k, input, base);
      var n := AfterTwoSlashes(input, FileStart(input, base).value);
      if n.Some? {
        FileHostHalts(k, input, base, Fresh(FileHost, n.value, FILE_URL));
      }
    }
  }

  /** The same of `parse`, which strips its input first. */
  lemma ParseHaltsExactly(k: Coding, raw: seq<CodePoint>, base: Option<Url>)
    ensures var input := Joined(Stripped(raw)); var runs := Stripped(raw) != [] && !(DATA_PREFIX <= raw);
      && (ParseResult(k, raw, base) == Halted(Ipv6Host) <==> runs && HostIsBracketed(input, base))
      && (ParseResult(k, raw, base) == Halted(NoFirstPath) <==> runs && FirstPathIsMissing(input, base))
      && (ParseResult(k, raw, base).Halted? <==>
          runs && (HostIsBracketed(input, base) || FirstPathIsMissing(input, base)))
  {
    hide Inv, Run, HostIsBracketed, FirstPathIsMissing;
    HaltsExactly(k, Joined(Stripped(raw)), base);
  }

  const FILE_COLON: seq<CodePoint> := ['f' as int, 'i' as int, 'l' as int, 'e' as int, COLON]

  lemma FileColonIsScheme(rest: seq<CodePoint>)
    ensures var input := FILE_COLON + rest;
      HasScheme(input) && SchemeLength(input) == 4 && SchemeOf(input) == FILE && input[5..] == rest
  {
    var input := FILE_COLON + rest;
    assert SchemeLength(input[4..]) == 0;
    assert input[3..][1..] == input[4..] && SchemeLength(input[3..]) == 1;
    assert input[2..][1..] == input[3..] && SchemeLength(input[2..]) == 2;
    assert input[1..][1..] == input[2..] && SchemeLength(input[1..]) == 3;
    assert LoweredAscii(input[..4]) == FILE by {
      SchemePrefix(input);
      assert input[..4] == FILE_COLON[..4];
    }
  }

  /** `file://[x]` runs into the unfinished code, whatever stands in the brackets and whatever the base URL. */
  lemma BracketsHalt(k: Coding, text: seq<CodePoint>, base: Option<Url>)
    requires forall i :: 0 <= i < |text| ==> !EndsFileHost(text[i])
    ensures var input := FILE_COLON + [SLASH, SLASH, OPEN_BRACKET] + text + [CLOSE_BRACKET];
      Inv(input, base, START) && Run(k, input, base, START) == Halted(Ipv6Host)
  {
    hide Inv, Run, SchemeOf, SchemeLength;
    var input := FILE_COLON + [SLASH, SLASH, OPEN_BRACKET] + text + [CLOSE_BRACKET];
    var rest := [SLASH, SLASH, OPEN_BRACKET] + text + [CLOSE_BRACKET];
    assert input == FILE_COLON + rest;
    FileColonIsScheme(rest);
    assert HostEnd(input, 7) == |input|;
    assert HostText(input, 7) == [OPEN_BRACKET] + text + [CLOSE_BRACKET];
    HaltsExactly(k, input, base);
  }

  /** `file:` alone is a URL without a path, and a single slash against it trips over the assertion of the vector. */
  lemma SlashAgainstBareFileHalts(k: Coding)
    ensures ParseResult(k, FILE_COLON, None) == Parsed(FILE_URL.(valid := true))
    ensures ParseResult(k, [SLASH], Some(FILE_URL.(valid := true))) == Halted(NoFirstPath)
  {
    hide Inv, Run;
    FileColonIsScheme([]);
    assert FILE_COLON + [] == FILE_COLON;
    NothingJoined(FILE_COLON);
    TwoSlashesAreFound(k, FILE_COLON, None);
    NothingJoined([SLASH]);
    HaltsExactly(k, [SLASH], Some(FILE_URL.(valid := true)));
  }

  // ---- What becomes of a file URL ----

  /** The states behind the slashes, which look at nothing but the rest of the input. */
  predicate LooksAhead(s: State) {
    s == FileHost || s == PathStart || s == Path || s == Query || s == Fragment
  }

  ghost predicate Alike(e: Effect, e': Effect, pos: nat, pos': nat) {
    match e
    case Continue(q) => e' == Continue(q.(pos := pos')) && q.pos == pos && LooksAhead(q.state)
    case Break(q) => e' == Break(q.(pos := pos')) && q.pos == pos && LooksAhead(q.state)
    case _ => e' == e
  }

  lemma SameHead(input: seq<CodePoint>, pos: nat, input': seq<CodePoint>, pos': nat)
    requires pos <= |input| && pos' <= |input'| && input[pos..] == input'[pos'..]
    ensures |input| - pos == |input'| - pos' && Current(input, pos) == Current(input', pos')
    ensures pos < |input| ==> input[pos] == input'[pos']
  {
    assert |input[pos..]| == |input'[pos'..]|;
    assert pos < |input| ==> input[pos] == input[pos..][0] == input'[pos'];
  }

  lemma FileHostStepsAlike(k: Coding, input: seq<CodePoint>, p: Parser, input': seq<CodePoint>, pos': nat)
    requires p.pos <= |input| && pos' <= |input'| && p.state == FileHost && input[p.pos..] == input'[pos'..]
    ensures Alike(OnFileHost(k, input, p, Current(input, p.pos)),
                  OnFileHost(k, input', p.(pos := pos'), Current(input', pos')), p.pos, pos')
  {
    hide ParseHost, Utf8, IsWindowsDriveLetter;
    SameHead(input, p.pos, input', pos');
  }

  lemma PathStepsAlike(k: Coding, input: seq<CodePoint>, p: Parser, input': seq<CodePoint>, pos': nat)
    requires p.pos <= |input| && pos' <= |input'| && p.state == Path && input[p.pos..] == input'[pos'..]
    ensures Alike(OnPath(k, input, p, Current(input, p.pos)),
                  OnPath(k, input', p.(pos := pos'), Current(input', pos')), p.pos, pos')
  {
    hide IsSpecialScheme, SegmentAdded;
    SameHead(input, p.pos, input', pos');
  }

  lemma QueryStepsAlike(k: Coding, input: seq<CodePoint>, p: Parser, input': seq<CodePoint>, pos': nat)
    requires p.pos <= |input| && pos' <= |input'| && p.state == Query && input[p.pos..] == input'[pos'..]
    ensures Alike(OnQuery(k, input, p, Current(input, p.pos)),
                  OnQuery(k, input', p.(pos := pos'), Current(input', pos')), p.pos, pos')
  {
    hide IsSpecialScheme, Utf8;
    SameHead(input, p.pos, input', pos');
  }

  lemma StepsAlike(k: Coding, input: seq<CodePoint>, base: Option<Url>, p: Parser,
                   input': seq<CodePoint>, base': Option<Url>, pos': nat)
    requires p.pos <= |input| && pos' <= |input'| && LooksAhead(p.state) && input[p.pos..] == input'[pos'..]
    ensures Alike(Dispatch(k, input, base, p), Dispatch(k, input', base', p.(pos := pos')), p.pos, pos')
  {
    hide IsSpecialScheme, Utf8, OnFileHost, OnPath, OnQuery;
    SameHead(input, p.pos, input', pos');
    match p.state
    case FileHost => FileHostStepsAlike(k, input, p, input', pos');
    case Path => PathStepsAlike(k, input, p, input', pos');
    case Query => QueryStepsAlike(k, input, p, input', pos');
    case _ =>
  }

  /** From there on, the outcome depends on the rest of the input alone. */
  lemma {:induction false} SameRest(k: Coding, input: seq<CodePoint>, base: Option<Url>, p: Parser,
                                    input': seq<CodePoint>, base': Option<Url>, pos': nat)
    requires Inv(input, base, p) && p.pos <= |input| && LooksAhead(p.state)
    requires pos' <= |input'| && input[p.pos..] == input'[pos'..]
    ensures Inv(input', base', p.(pos := pos'))
    ensures Run(k, input, base, p) == Run(k, input', base', p.(pos := pos'))
    decreases Measure(|input|, p)
  {
    assert Inv(input', base', p.(pos := pos'));
    hide Inv, Dispatch, Measure;
    SameHead(input, p.pos, input', pos');
    DispatchKeeps(k, input, base, p);
    StepsAlike(k, input, base, p, input', base', pos');
    match Dispatch(k, input, base, p)
    case Continue(q) => SameRest(k, input, base, q, input', base', pos');
    case Break(q) =>
      if q.pos < |input| {
        assert input[q.pos + 1..] == input[q.pos..][1..] == input'[pos' + 1..];
        SameRest(k, input, base, Advanced(q), input', base', pos' + 1);
      }
    case _ =>
  }

  /**
   * Without a file base, a file URL is read as `file://` and what follows its second slash, wherever that stands;
   * with fewer slashes nothing is read at all. Only with two slashes right behind the colon is nothing skipped.
   */
  lemma FileIsReadAfterTwoSlashes(k: Coding, input: seq<CodePoint>, base: Option<Url>)
    requires HasScheme(input) && SchemeOf(input) == FILE && !IsFile(base)
    ensures var f := SchemeLength(input) + 1; var n := AfterTwoSlashes(input, f);
      && Inv(input, base, START)
      && (n.None? ==> Run(k, input, base, START) == Parsed(FILE_URL.(valid := true)))
      && (n.Some? ==> var input' := FILE_COLON + ([SLASH, SLASH] + input[n.value..]);
          Inv(input', base, START) && Run(k, input, base, START) == Run(k, input', base, START))
      && (n == Some(f + 2) <==> SlashAt(input, f) && SlashAt(input, f + 1))
  {
    hide Inv, Run, SchemeOf, SchemeLength;
    var f := SchemeLength(input) + 1;
    assert f <= |input|;
    hide HasScheme;
    var n := AfterTwoSlashes(input, f);
    TwoSlashesAreFound(k, input, base);
    if n.Some? {
      var rest := [SLASH, SLASH] + input[n.value..];
      var input' := FILE_COLON + rest;
      FileColonIsScheme(rest);
      assert input'[5] == rest[0] && input'[6] == rest[1];
      TwoSlashesAreFound(k, input', base);
      assert input'[7..] == rest[2..] == input[n.value..];
      SameRest(k, input, base, Fresh(FileHost, n.value, FILE_URL), input', base, 7);
    }
  }

  /** What the host text stands for. */
  function FileHostOf(k: Coding, s: seq<CodePoint>): HostResult {
    if |s| == 0 || IsWindowsDriveLetter(Encode(s)) then Host([])
    else
      match ParseHost(k, Encode(s), true)
      case Host(host) => Host(if host == LOCALHOST then [] else host)
      case r => r
  }

  /** From the path on, a URL always comes out, with the same scheme and host. */
  lemma {:induction false} PathKeepsHost(k: Coding, input: seq<CodePoint>, base: Option<Url>, p: Parser)
    requires Inv(input, base, p) && LooksAhead(p.state) && p.state != FileHost
    ensures var r := Run(k, input, base, p); r.Parsed? && r.url.scheme == p.url.scheme && r.url.host == p.url.host
    decreases Measure(|input|, p)
  {
    hide Dispatch, Measure, Inv;
    PosInRange(input, base, p);
    DispatchKeeps(k, input, base, p);
    StepKeepsHost(k, input, base, p);
    match Dispatch(k, input, base, p)
    case Continue(q) => PathKeepsHost(k, input, base, q);
    case Break(q) =>
      if q.pos < |input| {
        PathKeepsHost(k, input, base, Advanced(q));
      }
    case _ =>
  }

  lemma StepKeepsHost(k: Coding, input: seq<CodePoint>, base: Option<Url>, p: Parser)
    requires Inv(input, base, p) && p.pos <= |input| && LooksAhead(p.state) && p.state != FileHost
    ensures var e := Dispatch(k, input, base, p);
      && (e.Continue? || e.Break?)
      && LooksAhead(e.p.state) && e.p.state != FileHost
      && e.p.url.scheme == p.url.scheme && e.p.url.host == p.url.host
  {
    hide IsSpecialScheme, Encode, Utf8, SegmentAdded;
    OnlyPathsChange(k, p.url, p.buffer, Current(input, p.pos));
  }

  /** A file URL's own host, wherever it begins, is what its text stands for, and the parser takes no other way out. */
  lemma FileHostIsTaken(k: Coding, input: seq<CodePoint>, base: Option<Url>)
    requires FileHostStart(input, base).Some?
    ensures Inv(input, base, START)
    ensures var r := Run(k, input, base, START);
      match FileHostOf(k, HostText(input, FileHostStart(input, base).value))
      case NoHost => r == NotAUrl
      case HostHalts(check) => r == Halted(check)
      case Host(host) => r.Parsed? && r.url.scheme == FILE && r.url.host == Some(host)
  {
    hide Inv, Run, HostText, FileHostOf;
    var p := FileHostIsEntered(k, input, base);
    FileHostIsRead(k, input, base, p);
    HostTextIsTaken(k, input, base, p.(pos := HostEnd(input, p.pos), buffer := Encode(HostText(input, p.pos))),
                    HostText(input, p.pos));
  }

  lemma FileHostIsEntered(k: Coding, input: seq<CodePoint>, base: Option<Url>) returns (p: Parser)
    requires FileHostStart(input, base).Some?
    ensures p == Fresh(FileHost, FileHostStart(input, base).value, FILE_URL)
    ensures Leads(k, input, base, START, p) && Inv(input, base, p)
  {
    hide Inv, Run, FileStart, IsSpecialScheme, Encode;
    p := Fresh(FileHost, FileHostStart(input, base).value, FILE_URL);
    if IsFile(base) {
      var q := FileIsEntered(k, input, base);
      LeadsByBreak(k, input, base, q, Fresh(FileSlash, q.pos, FILE_URL));
      LeadsByBreak(k, input, base, Fresh(FileSlash, q.pos + 1, FILE_URL), Fresh(FileHost, q.pos + 1, FILE_URL));
    } else {
      TwoSlashesAreFound(k, input, base);
    }
  }

  lemma HostTextIsTaken(k: Coding, input: seq<CodePoint>, base: Option<Url>, p: Parser, s: seq<CodePoint>)
    requires Inv(input, base, p) && p.state == FileHost && p.pos <= |input| && EndsFileHost(Current(input, p.pos))
    requires p.buffer == Encode(s) && p.url == FILE_URL
    ensures var r := Run(k, input, base, p);
      match FileHostOf(k, s)
      case NoHost => r == NotAUrl
      case HostHalts(check) => r == Halted(check)
      case Host(host) => r.Parsed? && r.url.scheme == FILE && r.url.host == Some(host)
  {
    hide Inv, Run, EndsFileHost, IsWindowsDriveLetter, ParseHost;
    assert |Encode(s)| == 0 <==> |s| == 0;
    hide Encode;
    DispatchKeeps(k, input, base, p);
    RunEnds(k, input, base, p);
    var e := Dispatch(k, input, base, p);
    if e.Continue? {
      RunContinues(k, input, base, p, e.p);
      PathKeepsHost(k, input, base, e.p);
    }
  }

  lemma {:induction false} SlashIsFirst(input: seq<CodePoint>, from: nat, n: nat)
    requires from <= n <= |input| && forall i :: from <= i < n ==> !IsSlash(input[i])
    requires n < |input| ==> IsSlash(input[n])
    ensures FirstSlash(input, from) == n
    decreases n - from
  {
    if from < n {
      SlashIsFirst(input, from + 1, n);
    }
  }

  predicate WithoutSlash(s: seq<CodePoint>) {
    forall i :: 0 <= i < |s| ==> !IsSlash(s[i])
  }

  /** `file:abc` has no path: text without a slash is lost. */
  lemma FileTextIsLost(k: Coding, text: seq<CodePoint>)
    requires WithoutSlash(text)
    ensures var input := FILE_COLON + text;
      Inv(input, None, START) && Run(k, input, None, START) == Parsed(FILE_URL.(valid := true))
  {
    hide Inv, Run, SchemeOf, SchemeLength, HasScheme;
    var input := FILE_COLON + text;
    FileColonIsScheme(text);
    SlashIsFirst(input, 5, |input|);
    FileIsReadAfterTwoSlashes(k, input, None);
  }

  lemma FolderIsFirst(input: seq<CodePoint>, folder: seq<CodePoint>, rest: seq<CodePoint>)
    requires 5 <= |input| && input[5..] == [SLASH] + (folder + ([SLASH] + rest)) && WithoutSlash(folder)
    ensures AfterTwoSlashes(input, 5) == Some(7 + |folder|) && input[7 + |folder|..] == rest
  {
    Headed(input, 5, SLASH, folder + ([SLASH] + rest));
    Parted(input, 6, folder, [SLASH] + rest);
    var n := 6 + |folder|;
    Headed(input, n, SLASH, rest);
    forall i | 6 <= i < n ensures !IsSlash(input[i]) {
      assert input[i] == input[6..n][i - 6];
    }
    SlashIsFirst(input, 6, n);
  }

  /** `file:/a/b` is read as `file://b`: the first folder is lost, and the second taken for the host. */
  lemma FileFolderIsLost(k: Coding, folder: seq<CodePoint>, rest: seq<CodePoint>)
    requires WithoutSlash(folder)
    ensures var input := FILE_COLON + ([SLASH] + (folder + ([SLASH] + rest)));
      var input' := FILE_COLON + ([SLASH, SLASH] + rest);
      && Inv(input, None, START) && Inv(input', None, START)
      && Run(k, input, None, START) == Run(k, input', None, START)
  {
    hide Inv, Run, SchemeOf, SchemeLength, HasScheme;
    var tail := [SLASH] + (folder + ([SLASH] + rest));
    var input := FILE_COLON + tail;
    FileColonIsScheme(tail);
    FolderIsFirst(input, folder, rest);
    FileIsReadAfterTwoSlashes(k, input, None);
  }
}
