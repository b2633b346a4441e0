/** The glob matcher, with the stretches its wildcards matched. */
module Globs {
  import opened CommonTypes

  datatype CaseSensitivity = CaseInsensitive | CaseSensitive

  datatype MaskSpan = MaskSpan(start: nat, length: nat)

  // ---- What a mask denotes ----

  function ToAsciiLowercase(c: char): char {
    if 'A' <= c <= 'Z' then c + 32 as char else c
  }

  predicate SameChar(p: char, c: char, cs: CaseSensitivity) {
    if cs == CaseSensitive then p == c else ToAsciiLowercase(p) == ToAsciiLowercase(c)
  }

  /** `*` is any run of characters, `?` any one, anything else itself. */
  predicate Denotes(mask: string, s: string, cs: CaseSensitivity)
    decreases |mask|, |s|
  {
    if |mask| == 0 then s == []
    else if mask[0] == '*' then Denotes(mask[1..], s, cs) || (|s| > 0 && Denotes(mask, s[1..], cs))
    else |s| > 0 && (mask[0] == '?' || SameChar(mask[0], s[0], cs)) && Denotes(mask[1..], s[1..], cs)
  }

  lemma {:induction false} StarFrom(mask: string, s: string, cs: CaseSensitivity, k: nat)
    requires |mask| > 0 && mask[0] == '*' && k <= |s|
    ensures Denotes(mask, s[k..], cs) ==> Denotes(mask, s, cs)
    decreases k
  {
    if k > 0 {
      assert s[k - 1..][1..] == s[k..];
      StarFrom(mask, s, cs, k - 1);
    } else {
      assert s[0..] == s;
    }
  }

  /** A star takes a stretch of some length. */
  lemma StarTakes(mask: string, s: string, cs: CaseSensitivity, k: nat)
    requires |mask| > 0 && mask[0] == '*' && k <= |s| && Denotes(mask[1..], s[k..], cs)
    ensures Denotes(mask, s, cs)
  {
    StarFrom(mask, s, cs, k);
  }

  /** When no shorter stretch will do, a star has to take more. */
  lemma {:induction false} StarGoesOn(mask: string, s: string, cs: CaseSensitivity, k: nat)
    requires |mask| > 0 && mask[0] == '*' && k <= |s|
    requires forall i :: 0 <= i < k ==> !Denotes(mask[1..], s[i..], cs)
    ensures Denotes(mask, s, cs) <==> Denotes(mask, s[k..], cs)
    decreases k
  {
    if k == 0 {
      assert s[0..] == s;
    } else {
      StarGoesOn(mask, s, cs, k - 1);
      assert s[k - 1..][1..] == s[k..];
      assert !Denotes(mask[1..], s[k - 1..], cs);
    }
  }

  predicate AllStars(mask: string) {
    forall i :: 0 <= i < |mask| ==> mask[i] == '*'
  }

  lemma {:induction false} DenotesNothing(mask: string, cs: CaseSensitivity)
    ensures Denotes(mask, [], cs) <==> AllStars(mask)
  {
    if |mask| > 0 {
      DenotesNothing(mask[1..], cs);
      assert forall i :: 0 < i < |mask| ==> mask[i] == mask[1..][i - 1];
      if mask[0] == '*' && AllStars(mask[1..]) {
        assert AllStars(mask);
      }
    }
  }

  predicate IsWildcard(c: char) {
    c == '*' || c == '?'
  }

  // ---- What that means for whole texts ----

  /** The same character, or the two forms of one ASCII letter. */
  predicate SameLetter(a: char, b: char) {
    || a == b
    || ('A' <= a <= 'Z' && 'a' <= b <= 'z' && a as int - 'A' as int == b as int - 'a' as int)
    || ('a' <= a <= 'z' && 'A' <= b <= 'Z' && a as int - 'a' as int == b as int - 'A' as int)
  }

  lemma SameCharIs(a: char, b: char)
    ensures SameChar(a, b, CaseSensitive) <==> a == b
    ensures SameChar(a, b, CaseInsensitive) <==> SameLetter(a, b)
  {
  }

  /** A mask of one character. */
  lemma OneDenotes(c: char, s: string, cs: CaseSensitivity)
    ensures c == '*' ==> Denotes([c], s, cs)
    ensures c == '?' ==> (Denotes([c], s, cs) <==> |s| == 1)
    ensures c != '*' && c != '?' && cs == CaseSensitive ==> (Denotes([c], s, cs) <==> s == [c])
    ensures c != '*' && c != '?' && cs == CaseInsensitive ==>
      (Denotes([c], s, cs) <==> |s| == 1 && SameLetter(c, s[0]))
  {
    assert [c][1..] == [] && (|s| > 0 ==> (|s[1..]| == 0 <==> |s| == 1));
    if c == '*' {
      assert s[|s|..] == [];
      StarTakes([c], s, cs, |s|);
    } else if |s| > 0 {
      SameCharIs(c, s[0]);
    }
  }

  lemma {:induction false} DenotesJoined(a: string, b: string, s: string, cs: CaseSensitivity, k: nat)
    requires k <= |s| && Denotes(a, s[..k], cs) && Denotes(b, s[k..], cs)
    ensures Denotes(a + b, s, cs)
    decreases |a|, |s|
  {
    if |a| == 0 {
      assert a + b == b && s[0..] == s;
    } else {
      assert (a + b)[1..] == a[1..] + b;
      if k > 0 {
        assert s[..k][1..] == s[1..][..k - 1] && s[1..][k - 1..] == s[k..];
      }
      if a[0] == '*' && Denotes(a[1..], s[..k], cs) {
        DenotesJoined(a[1..], b, s, cs, k);
      } else if a[0] == '*' {
        DenotesJoined(a, b, s[1..], cs, k - 1);
      } else {
        DenotesJoined(a[1..], b, s[1..], cs, k - 1);
      }
    }
  }

  lemma {:induction false} DenotesParted(a: string, b: string, s: string, cs: CaseSensitivity) returns (k: nat)
    requires Denotes(a + b, s, cs)
    ensures k <= |s| && Denotes(a, s[..k], cs) && Denotes(b, s[k..], cs)
    decreases |a|, |s|
  {
    if |a| == 0 {
      assert a + b == b && s[0..] == s;
      k := 0;
    } else {
      assert (a + b)[1..] == a[1..] + b;
      if a[0] == '*' && Denotes(a[1..] + b, s, cs) {
        k := DenotesParted(a[1..], b, s, cs);
      } else {
        var rest := DenotesParted(if a[0] == '*' then a else a[1..], b, s[1..], cs);
        k := rest + 1;
        assert s[..k][1..] == s[1..][..rest] && s[k..] == s[1..][rest..];
      }
    }
  }

  /** Two masks after each other denote what the first denotes, followed by what the second does. */
  lemma DenotesConcat(a: string, b: string, s: string, cs: CaseSensitivity)
    ensures Denotes(a + b, s, cs) <==> exists k :: 0 <= k <= |s| && Denotes(a, s[..k], cs) && Denotes(b, s[k..], cs)
  {
    hide Denotes;
    if Denotes(a + b, s, cs) {
      var k := DenotesParted(a, b, s, cs);
    }
    forall k | 0 <= k <= |s| && Denotes(a, s[..k], cs) && Denotes(b, s[k..], cs) ensures Denotes(a + b, s, cs) {
      DenotesJoined(a, b, s, cs, k);
    }
  }

  /** Without wildcards, a mask denotes itself, and, if case does not count, its variants in upper and lower case. */
  lemma {:induction false} LiteralDenotes(mask: string, s: string)
    requires '*' !in mask && '?' !in mask
    ensures Denotes(mask, s, CaseSensitive) <==> mask == s
    ensures Denotes(mask, s, CaseInsensitive) <==>
      |mask| == |s| && forall i :: 0 <= i < |mask| ==> SameLetter(mask[i], s[i])
  {
    hide SameLetter;
    if |mask| > 0 && |s| > 0 {
      LiteralDenotes(mask[1..], s[1..]);
      SameCharIs(mask[0], s[0]);
      assert mask == [mask[0]] + mask[1..] && s == [s[0]] + s[1..];
      assert forall i :: 0 < i < |mask| ==> mask[i] == mask[1..][i - 1];
      assert forall i :: 0 < i < |s| ==> s[i] == s[1..][i - 1];
      if |mask| == |s| {
        assert forall i :: 0 <= i < |mask| - 1 ==> mask[1..][i] == mask[i + 1] && s[1..][i] == s[i + 1];
      }
    }
  }

  // ---- What the spans say ----

  /** The mask accounts for the characters from `at` to `end`, each wildcard by its span. */
  predicate Parses(mask: string, s: string, at: nat, end: nat, spans: seq<MaskSpan>, cs: CaseSensitivity)
    decreases |mask|
  {
    if |mask| == 0 then at == end && end <= |s| && spans == []
    else if IsWildcard(mask[0]) then
      && |spans| > 0 && spans[0].start == at && at + spans[0].length <= |s|
      && (mask[0] == '?' ==> spans[0].length == 1)
      && Parses(mask[1..], s, at + spans[0].length, end, spans[1..], cs)
    else at < |s| && SameChar(mask[0], s[at], cs) && Parses(mask[1..], s, at + 1, end, spans, cs)
  }

  lemma {:induction false} ParsesOneMore(mask: string, s: string, at: nat, mid: nat, end: nat, spans: seq<MaskSpan>,
                                         cs: CaseSensitivity, c: char, last: seq<MaskSpan>)
    requires Parses(mask, s, at, mid, spans, cs) && Parses([c], s, mid, end, last, cs)
    ensures Parses(mask + [c], s, at, end, spans + last, cs)
    decreases |mask|
  {
    if |mask| == 0 {
      assert mask + [c] == [c] && spans + last == last;
    } else {
      assert (mask + [c])[1..] == mask[1..] + [c];
      if IsWildcard(mask[0]) {
        ParsesOneMore(mask[1..], s, at + spans[0].length, mid, end, spans[1..], cs, c, last);
        assert (spans + last)[1..] == spans[1..] + last;
      } else {
        ParsesOneMore(mask[1..], s, at + 1, mid, end, spans, cs, c, last);
      }
    }
  }

  function Wildcards(mask: string): nat {
    if |mask| == 0 then 0 else (if IsWildcard(mask[0]) then 1 else 0) + Wildcards(mask[1..])
  }

  predicate Within(spans: seq<MaskSpan>, s: string) {
    forall i :: 0 <= i < |spans| ==> spans[i].start + spans[i].length <= |s|
  }

  /** The mask with its wildcards replaced by what their spans cover. */
  function Filled(mask: string, s: string, spans: seq<MaskSpan>): string
    requires |spans| == Wildcards(mask) && Within(spans, s)
    decreases |mask|
  {
    if |mask| == 0 then []
    else if IsWildcard(mask[0]) then
      s[spans[0].start..spans[0].start + spans[0].length] + Filled(mask[1..], s, spans[1..])
    else [mask[0]] + Filled(mask[1..], s, spans)
  }

  predicate SameText(a: string, b: string, cs: CaseSensitivity) {
    |a| == |b| && forall i :: 0 <= i < |a| ==> SameChar(a[i], b[i], cs)
  }

  lemma SameTextConcat(a: string, b: string, c: string, e: string, cs: CaseSensitivity)
    requires SameText(a, b, cs) && SameText(c, e, cs)
    ensures SameText(a + c, b + e, cs)
  {
  }

  lemma SameTextJoined(a: string, c: string, s: string, at: nat, next: nat, end: nat, cs: CaseSensitivity)
    requires at <= next <= end <= |s| && SameText(a, s[at..next], cs) && SameText(c, s[next..end], cs)
    ensures SameText(a + c, s[at..end], cs)
  {
    hide SameText;
    assert s[at..end] == s[at..next] + s[next..end];
    SameTextConcat(a, s[at..next], c, s[next..end], cs);
  }

  /** The spans lie between `from` and `end`, one after the other. */
  ghost predicate InOrder(spans: seq<MaskSpan>, from: nat, end: nat) {
    && (forall i :: 0 <= i < |spans| ==> from <= spans[i].start && spans[i].start + spans[i].length <= end)
    && (forall i, k :: 0 <= i < k < |spans| ==> spans[i].start + spans[i].length <= spans[k].start)
  }

  lemma InOrderAfter(first: MaskSpan, rest: seq<MaskSpan>, end: nat)
    requires InOrder(rest, first.start + first.length, end) && first.start + first.length <= end
    ensures InOrder([first] + rest, first.start, end)
  {
    var spans := [first] + rest;
    assert forall i :: 0 < i < |spans| ==> spans[i] == rest[i - 1];
  }

  /** Spans come one per wildcard, in order. */
  lemma {:induction false} SpansInOrder(mask: string, s: string, at: nat, end: nat, spans: seq<MaskSpan>,
                                        cs: CaseSensitivity)
    requires Parses(mask, s, at, end, spans, cs)
    ensures at <= end <= |s| && |spans| == Wildcards(mask) && InOrder(spans, at, end)
    decreases |mask|
  {
    if |mask| > 0 {
      if IsWildcard(mask[0]) {
        SpansInOrder(mask[1..], s, at + spans[0].length, end, spans[1..], cs);
        InOrderAfter(spans[0], spans[1..], end);
        assert spans == [spans[0]] + spans[1..];
      } else {
        SpansInOrder(mask[1..], s, at + 1, end, spans, cs);
      }
    }
  }

  lemma InOrderWithin(spans: seq<MaskSpan>, from: nat, end: nat, s: string)
    requires InOrder(spans, from, end) && end <= |s|
    ensures Within(spans, s)
  {
  }

  lemma FilledUnfolds(mask: string, s: string, spans: seq<MaskSpan>)
    requires |mask| > 0 && |spans| == Wildcards(mask) && Within(spans, s)
    ensures if IsWildcard(mask[0]) then
        && |spans| > 0 && |spans[1..]| == Wildcards(mask[1..]) && Within(spans[1..], s)
        && spans[0].start + spans[0].length <= |s|
        && Filled(mask, s, spans)
          == s[spans[0].start..spans[0].start + spans[0].length] + Filled(mask[1..], s, spans[1..])
      else |spans| == Wildcards(mask[1..]) && Filled(mask, s, spans) == [mask[0]] + Filled(mask[1..], s, spans)
  {
  }

  /** Filling the spans into the mask gives the string, up to case. */
  lemma {:induction false} ParsesFills(mask: string, s: string, at: nat, end: nat, spans: seq<MaskSpan>,
                                       cs: CaseSensitivity)
    requires Parses(mask, s, at, end, spans, cs)
    ensures at <= end <= |s| && |spans| == Wildcards(mask) && InOrder(spans, at, end) && Within(spans, s)
    ensures SameText(Filled(mask, s, spans), s[at..end], cs)
    decreases |mask|
  {
    hide Filled, InOrder, Wildcards, Within, SameText;
    SpansInOrder(mask, s, at, end, spans, cs);
    InOrderWithin(spans, at, end, s);
    if |mask| == 0 {
      NothingFilled(mask, s, spans, at, end, cs);
    } else {
      FilledUnfolds(mask, s, spans);
      ParsesHead(mask, s, at, end, spans, cs);
      hide Parses;
      var next := if IsWildcard(mask[0]) then at + spans[0].length else at + 1;
      var rest := if IsWildcard(mask[0]) then spans[1..] else spans;
      ParsesFills(mask[1..], s, next, end, rest, cs);
      var head := if IsWildcard(mask[0]) then s[at..next] else [mask[0]];
      hide *;
      SameTextJoined(head, Filled(mask[1..], s, rest), s, at, next, end, cs);
    }
  }

  /** With case, it gives exactly the string. */
  lemma ParsesExactly(mask: string, s: string, spans: seq<MaskSpan>)
    requires Parses(mask, s, 0, |s|, spans, CaseSensitive)
    ensures |spans| == Wildcards(mask) && Within(spans, s) && Filled(mask, s, spans) == s
  {
    ParsesFills(mask, s, 0, |s|, spans, CaseSensitive);
    hide Parses, Filled, InOrder, Wildcards, Within;
    assert s[0..|s|] == s;
  }

  /** What the first character of a mask accounts for. */
  lemma ParsesHead(mask: string, s: string, at: nat, end: nat, spans: seq<MaskSpan>, cs: CaseSensitivity)
    requires Parses(mask, s, at, end, spans, cs) && |mask| > 0
    ensures IsWildcard(mask[0]) ==>
      && |spans| > 0 && spans[0].start == at && at + spans[0].length <= |s|
      && SameText(s[at..at + spans[0].length], s[at..at + spans[0].length], cs)
      && Parses(mask[1..], s, at + spans[0].length, end, spans[1..], cs)
    ensures !IsWildcard(mask[0]) ==>
      at < |s| && SameText([mask[0]], s[at..at + 1], cs) && Parses(mask[1..], s, at + 1, end, spans, cs)
  {
  }

  lemma NothingFilled(mask: string, s: string, spans: seq<MaskSpan>, at: nat, end: nat, cs: CaseSensitivity)
    requires |mask| == 0 && |spans| == Wildcards(mask) && Within(spans, s) && at == end <= |s|
    ensures SameText(Filled(mask, s, spans), s[at..end], cs)
  {
  }

  /** What is accounted for is denoted. */
  lemma {:induction false} ParsesDenotes(mask: string, s: string, at: nat, spans: seq<MaskSpan>, cs: CaseSensitivity)
    requires Parses(mask, s, at, |s|, spans, cs) && at <= |s|
    ensures Denotes(mask, s[at..], cs)
    decreases |mask|
  {
    if |mask| > 0 {
      var n := if IsWildcard(mask[0]) then spans[0].length else 1;
      assert s[at..][n..] == s[at + n..];
      ParsesDenotes(mask[1..], s, at + n, if IsWildcard(mask[0]) then spans[1..] else spans, cs);
      if mask[0] == '*' {
        StarTakes(mask, s[at..], cs, n);
      }
    }
  }

  // ---- The matcher ----

  /** One character of the mask that is not a star, against one of the string. */
  lemma OneChar(mask: string, s: string, cs: CaseSensitivity, i: nat, j: nat)
    requires i < |s| && j < |mask| && mask[j] != '*'
    ensures Denotes(mask[j..], s[i..], cs) <==>
      (mask[j] == '?' || SameChar(mask[j], s[i], cs)) && Denotes(mask[j + 1..], s[i + 1..], cs)
  {
    assert mask[j..][1..] == mask[j + 1..] && s[i..][1..] == s[i + 1..];
  }

  lemma OneParsed(mask: string, s: string, cs: CaseSensitivity, i: nat, j: nat, n: nat, spans: seq<MaskSpan>)
    requires i + n <= |s| && j < |mask| && Parses(mask[..j], s, 0, i, spans, cs)
    requires mask[j] != '*' ==> n == 1 && (mask[j] == '?' || SameChar(mask[j], s[i], cs))
    ensures Parses(mask[..j + 1], s, 0, i + n, spans + if IsWildcard(mask[j]) then [MaskSpan(i, n)] else [], cs)
  {
    var last := if IsWildcard(mask[j]) then [MaskSpan(i, n)] else [];
    assert [mask[j]][1..] == [] && (|last| > 0 ==> last[1..] == []);
    ParsesOneMore(mask[..j], s, 0, i, i + n, spans, cs, mask[j], last);
    assert mask[..j + 1] == mask[..j] + [mask[j]];
  }

  /** The inner loop at a star: the shortest non-empty rest that the remaining mask matches, or none. */
  method SkipToMatch(s: string, start: nat, rest: string, cs: CaseSensitivity) returns (i: nat)
    requires start <= |s| && |rest| > 0
    ensures start <= i <= |s| && (i < |s| ==> Denotes(rest, s[i..], cs))
    ensures forall k :: start <= k < i ==> !Denotes(rest, s[k..], cs)
    decreases |rest|, 1
  {
    i := start;
    while i < |s|
      invariant start <= i <= |s| && forall k :: start <= k < i ==> !Denotes(rest, s[k..], cs)
    {
      var found, _ := Matches(Some(s[i..]), Some(rest), cs);
      if found {
        break;
      }
      i := i + 1;
    }
  }

  lemma StarSkipped(mask: string, s: string, cs: CaseSensitivity, start: nat, i: nat, j: nat)
    requires j < |mask| && mask[j] == '*' && start <= i <= |s|
    requires forall k :: start <= k < i ==> !Denotes(mask[j + 1..], s[k..], cs)
    requires i < |s| ==> Denotes(mask[j + 1..], s[i..], cs)
    ensures Denotes(mask[j..], s[start..], cs) <==> Denotes(mask[j + 1..], s[i..], cs)
  {
    assert mask[j..][1..] == mask[j + 1..] && s[start..][i - start..] == s[i..];
    forall k | 0 <= k < i - start ensures !Denotes(mask[j..][1..], s[start..][k..], cs) {
      assert s[start..][k..] == s[start + k..];
    }
    StarGoesOn(mask[j..], s[start..], cs, i - start);
  }

  lemma LastStar(mask: string, s: string, cs: CaseSensitivity)
    requires mask == ['*']
    ensures Denotes(mask, s, cs)
  {
    assert mask[1..] == [] && s[|s|..] == [];
    StarTakes(mask, s, cs, |s|);
  }

  lemma OnlyStarParses(s: string, cs: CaseSensitivity)
    ensures Parses("*", s, 0, |s|, [MaskSpan(0, |s|)], cs)
  {
    assert "*"[1..] == "" && [MaskSpan(0, |s|)][1..] == [];
  }

  /** So far: what is left decides, and what is done is accounted for. */
  ghost predicate Going(mask: string, s: string, cs: CaseSensitivity, i: nat, j: nat, spans: seq<MaskSpan>) {
    && i <= |s| && j <= |mask|
    && (Denotes(mask, s, cs) <==> Denotes(mask[j..], s[i..], cs))
    && Parses(mask[..j], s, 0, i, spans, cs)
  }

  lemma NothingParsed(mask: string, s: string, cs: CaseSensitivity)
    ensures Going(mask, s, cs, 0, 0, [])
  {
    assert mask[0..] == mask && s[0..] == s;
  }

  lemma StarIsLast(mask: string, s: string, cs: CaseSensitivity, i: nat, j: nat, spans: seq<MaskSpan>)
    requires Going(mask, s, cs, i, j, spans) && j == |mask| - 1 && mask[j] == '*'
    ensures Denotes(mask, s, cs) && Parses(mask, s, 0, |s|, spans + [MaskSpan(i, |s| - i)], cs)
  {
    hide Parses, Denotes;
    OneParsed(mask, s, cs, i, j, |s| - i, spans);
    LastStar(mask[j..], s[i..], cs);
    assert mask[..j + 1] == mask;
  }

  lemma StarGoing(mask: string, s: string, cs: CaseSensitivity, start: nat, i: nat, j: nat, spans: seq<MaskSpan>)
    requires Going(mask, s, cs, start, j, spans) && j < |mask| && mask[j] == '*' && start <= i <= |s|
    requires forall k :: start <= k < i ==> !Denotes(mask[j + 1..], s[k..], cs)
    requires i < |s| ==> Denotes(mask[j + 1..], s[i..], cs)
    ensures Going(mask, s, cs, i, j + 1, spans + [MaskSpan(start, i - start)])
  {
    hide Parses, Denotes;
    StarSkipped(mask, s, cs, start, i, j);
    OneParsed(mask, s, cs, start, j, i - start, spans);
  }

  lemma CharGoing(mask: string, s: string, cs: CaseSensitivity, i: nat, j: nat, spans: seq<MaskSpan>)
    requires Going(mask, s, cs, i, j, spans) && i < |s| && j < |mask| && mask[j] != '*'
    ensures mask[j] == '?' ==> Going(mask, s, cs, i + 1, j + 1, spans + [MaskSpan(i, 1)])
    ensures mask[j] != '?' && SameChar(mask[j], s[i], cs) ==> Going(mask, s, cs, i + 1, j + 1, spans)
    ensures mask[j] != '?' && !SameChar(mask[j], s[i], cs) ==> !Denotes(mask, s, cs)
  {
    hide Parses, Denotes;
    OneChar(mask, s, cs, i, j);
    if mask[j] == '?' || SameChar(mask[j], s[i], cs) {
      OneParsed(mask, s, cs, i, j, 1, spans);
      assert spans + [] == spans;
    }
  }

  lemma StarAtEnd(mask: string, s: string, cs: CaseSensitivity, j: nat, spans: seq<MaskSpan>)
    requires Going(mask, s, cs, |s|, j, spans) && j < |mask| && mask[j] == '*'
    ensures Going(mask, s, cs, |s|, j + 1, spans + [MaskSpan(|s|, 0)])
  {
    StarGoing(mask, s, cs, |s|, |s|, j, spans);
  }

  lemma AtEnd(mask: string, s: string, cs: CaseSensitivity, i: nat, j: nat, spans: seq<MaskSpan>)
    requires Going(mask, s, cs, i, j, spans) && (i < |s| ==> j == |mask|)
    requires i == |s| && j < |mask| ==> mask[j] != '*'
    ensures Denotes(mask, s, cs) <==> i == |s| && j == |mask|
    ensures i == |s| && j == |mask| ==> Parses(mask, s, 0, |s|, spans, cs)
  {
    if j == |mask| {
      assert mask[..j] == mask;
    }
  }

  /** `matches`: null matches only null, and otherwise the mask has to denote the string. */
  method Matches(str: Option<string>, mask: Option<string>, cs: CaseSensitivity)
    returns (ok: bool, spans: seq<MaskSpan>)
    ensures ok <==> if str.None? || mask.None? then str.None? && mask.None? else Denotes(mask.value, str.value, cs)
    ensures ok && str.Some? ==> Parses(mask.value, str.value, 0, |str.value|, spans, cs)
    decreases if mask.Some? then |mask.value| else 0, 0
  {
    spans := [];
    if str.None? || mask.None? {
      return str.None? && mask.None?, spans;
    }
    var s, m := str.value, mask.value;
    hide Denotes, Parses, Going;
    if m == "*" {
      LastStar(m, s, cs);
      OnlyStarParses(s, cs);
      return true, [MaskSpan(0, |s|)];
    }
    var i, j := 0, 0;
    NothingParsed(m, s, cs);
    while i < |s| && j < |m|
      invariant i <= |s| && j <= |m| && Going(m, s, cs, i, j, spans)
      decreases |m| - j
    {
      if m[j] == '*' {
        if j == |m| - 1 {
          StarIsLast(m, s, cs, i, j, spans);
          return true, spans + [MaskSpan(i, |s| - i)];
        }
        var start := i;
        i := SkipToMatch(s, start, m[j + 1..], cs);
        StarGoing(m, s, cs, start, i, j, spans);
        spans := spans + [MaskSpan(start, i - start)];
      } else if m[j] == '?' {
        CharGoing(m, s, cs, i, j, spans);
        spans := spans + [MaskSpan(i, 1)];
        i := i + 1;
      } else {
        CharGoing(m, s, cs, i, j, spans);
        if !SameChar(m[j], s[i], cs) {
          return false, spans;
        }
        i := i + 1;
      }
      j := j + 1;
    }
    if i == |s| {
      while j != |m| && m[j] == '*'
        invariant j <= |m| && Going(m, s, cs, i, j, spans)
        decreases |m| - j
      {
        StarAtEnd(m, s, cs, j, spans);
        spans := spans + [MaskSpan(i, 0)];
        j := j + 1;
      }
    }
    AtEnd(m, s, cs, i, j, spans);
    return i == |s| && j == |m|, spans;
  }
}
