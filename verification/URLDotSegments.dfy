/** What dot segments do to a path, after section 5.2.4 of RFC 3986. */
module UrlDotSegments {
  import opened CommonTypes
  import opened Urls
  import opened UrlParsers
  import opened UrlMeaning

  predicate IsDotSegment(k: Coding, s: seq<CodePoint>) {
    IsSingleDotPathSegment(PathEncoded(k, s)) || IsDoubleDotPathSegment(PathEncoded(k, s))
  }

  function DecodedSegments(k: Coding, segments: seq<seq<CodePoint>>): seq<Text> {
    seq(|segments|, i requires 0 <= i < |segments| => k.decode(PathEncoded(k, segments[i])))
  }

  /** Without dot segments, a path gets the decoded segments in order. */
  lemma {:induction false} PlainWalk(k: Coding, paths: seq<Text>, segments: seq<seq<CodePoint>>)
    requires forall i :: 0 <= i < |segments| ==> !IsDotSegment(k, segments[i])
    ensures Walked(k, false, paths, segments) == paths + DecodedSegments(k, segments)
    decreases |segments|
  {
    hide IsSingleDotPathSegment, IsDoubleDotPathSegment, PathEncoded;
    if |segments| > 0 {
      var s := segments[0];
      var next := paths + [k.decode(PathEncoded(k, s))];
      assert !IsDotSegment(k, s);
      PlainWalk(k, next, segments[1..]);
      assert DecodedSegments(k, segments) == [k.decode(PathEncoded(k, s))] + DecodedSegments(k, segments[1..]);
    }
  }

  /** Walking one stretch and then another. */
  lemma {:induction false} WalkedOn(k: Coding, paths: seq<Text>, a: seq<seq<CodePoint>>, b: seq<seq<CodePoint>>,
                                    b': seq<seq<CodePoint>>)
    requires |b| > 0 && |b'| > 0
    requires forall before: seq<Text> :: Walked(k, false, before, b) == Walked(k, false, before, b')
    ensures Walked(k, false, paths, a + b) == Walked(k, false, paths, a + b')
    decreases |a|
  {
    hide Stepped;
    if |a| == 0 {
      assert a + b == b && a + b' == b';
    } else {
      assert (a + b)[1..] == a[1..] + b && (a + b')[1..] == a[1..] + b';
      WalkedOn(k, Stepped(k, false, paths, a[0], false), a[1..], b, b');
    }
  }

  lemma SingleIsNotDouble(t: Text)
    requires IsSingleDotPathSegment(t)
    ensures !IsDoubleDotPathSegment(t)
  {
    assert |Lowercased(t)| == |t|;
  }

  /** `.` before another segment changes nothing. */
  lemma DotIsSkipped(k: Coding, paths: seq<Text>, a: seq<seq<CodePoint>>, dot: seq<CodePoint>, b: seq<seq<CodePoint>>)
    requires |b| > 0 && IsSingleDotPathSegment(PathEncoded(k, dot))
    ensures Walked(k, false, paths, a + ([dot] + b)) == Walked(k, false, paths, a + b)
  {
    hide PathEncoded;
    SingleIsNotDouble(PathEncoded(k, dot));
    hide IsSingleDotPathSegment, IsDoubleDotPathSegment;
    forall before: seq<Text> ensures Walked(k, false, before, [dot] + b) == Walked(k, false, before, b) {
      assert ([dot] + b)[1..] == b && before + [] == before;
    }
    WalkedOn(k, paths, a, [dot] + b, b);
  }

  /** A segment and `..` before another one cancel out. */
  lemma DotDotTakesBack(k: Coding, paths: seq<Text>, a: seq<seq<CodePoint>>, s: seq<CodePoint>, dots: seq<CodePoint>,
                        b: seq<seq<CodePoint>>)
    requires |b| > 0 && !IsDotSegment(k, s) && IsDoubleDotPathSegment(PathEncoded(k, dots))
    ensures Walked(k, false, paths, a + ([s, dots] + b)) == Walked(k, false, paths, a + b)
  {
    hide PathEncoded, IsSingleDotPathSegment, IsDoubleDotPathSegment;
    forall before: seq<Text> ensures Walked(k, false, before, [s, dots] + b) == Walked(k, false, before, b) {
      var next := before + [k.decode(PathEncoded(k, s))];
      assert ([s, dots] + b)[1..] == [dots] + b && ([dots] + b)[1..] == b;
      assert WithoutLast(next) + [] == before;
    }
    WalkedOn(k, paths, a, [s, dots] + b, b);
  }

  /** No `..` leads above the root. */
  lemma RootIsItsParent(k: Coding, dots: seq<CodePoint>, b: seq<seq<CodePoint>>)
    requires |b| > 0 && IsDoubleDotPathSegment(PathEncoded(k, dots))
    ensures Walked(k, false, [], [dots] + b) == Walked(k, false, [], b)
  {
    hide PathEncoded;
    var none: seq<Text> := [];
    assert ([dots] + b)[1..] == b && none + [] == none;
  }

  // ---- A normal form without dot segments ----

  /** How many segments to go up, and the segments that stay after that. */
  datatype Normal = Normal(up: nat, kept: seq<seq<CodePoint>>)

  /** Read from the last segment back: each `..` takes off the next name that is met, and what is left over goes up. */
  function Normalized(k: Coding, segments: seq<seq<CodePoint>>, skip: nat): Normal
    decreases |segments|
  {
    if |segments| == 0 then Normal(skip, [])
    else
      var n := |segments| - 1;
      var t := PathEncoded(k, segments[n]);
      if IsDoubleDotPathSegment(t) then Normalized(k, segments[..n], skip + 1)
      else if IsSingleDotPathSegment(t) then Normalized(k, segments[..n], skip)
      else if skip > 0 then Normalized(k, segments[..n], skip - 1)
      else
        var r := Normalized(k, segments[..n], 0);
        r.(kept := r.kept + [segments[n]])
  }

  function Dropped(paths: seq<Text>, n: nat): seq<Text> {
    if n >= |paths| then [] else paths[..|paths| - n]
  }

  /** The names of a path after these segments. */
  function Names(k: Coding, paths: seq<Text>, segments: seq<seq<CodePoint>>): seq<Text> {
    var r := Normalized(k, segments, 0);
    Dropped(paths, r.up) + DecodedSegments(k, r.kept)
  }

  /** A dot segment at the end leaves an empty one. */
  function LastOf(k: Coding, segments: seq<seq<CodePoint>>): seq<Text> {
    if |segments| > 0 && IsDotSegment(k, segments[|segments| - 1]) then [[]] else []
  }

  function NormalPath(k: Coding, paths: seq<Text>, segments: seq<seq<CodePoint>>): seq<Text> {
    Names(k, paths, segments) + LastOf(k, segments)
  }

  lemma {:induction false} NoDotsLeft(k: Coding, segments: seq<seq<CodePoint>>, skip: nat)
    ensures var r := Normalized(k, segments, skip);
      forall s :: s in r.kept ==> !IsDotSegment(k, s) && s in segments
    decreases |segments|
  {
    hide PathEncoded, IsSingleDotPathSegment, IsDoubleDotPathSegment;
    if |segments| > 0 {
      var n := |segments| - 1;
      var t := PathEncoded(k, segments[n]);
      assert forall s :: s in segments[..n] ==> s in segments;
      if IsDoubleDotPathSegment(t) {
        assert Normalized(k, segments, skip) == Normalized(k, segments[..n], skip + 1);
        NoDotsLeft(k, segments[..n], skip + 1);
      } else if IsSingleDotPathSegment(t) {
        NoDotsLeft(k, segments[..n], skip);
      } else if skip > 0 {
        NoDotsLeft(k, segments[..n], skip - 1);
      } else {
        NoDotsLeft(k, segments[..n], 0);
        var kept := Normalized(k, segments[..n], 0).kept;
        assert Normalized(k, segments, 0).kept == kept + [segments[n]];
        assert !IsDotSegment(k, segments[n]) && segments[n] in segments;
      }
    }
  }

  /** All but what happens at the very end, from the last segment back. */
  function Open(k: Coding, file: bool, paths: seq<Text>, segments: seq<seq<CodePoint>>): seq<Text>
    decreases |segments|
  {
    if |segments| == 0 then paths
    else
      var n := |segments| - 1;
      Stepped(k, file, Open(k, file, paths, segments[..n]), segments[n], false)
  }

  lemma {:induction false} OpenFromFront(k: Coding, file: bool, paths: seq<Text>, segments: seq<seq<CodePoint>>)
    requires |segments| > 0
    ensures Open(k, file, paths, segments) == Open(k, file, Stepped(k, file, paths, segments[0], false), segments[1..])
    decreases |segments|
  {
    hide Stepped;
    var n := |segments| - 1;
    if n == 0 {
      assert segments[..0] == [] && segments[1..] == [];
    } else {
      assert segments[..n][0] == segments[0] && segments[..n][1..] == segments[1..][..n - 1];
      OpenFromFront(k, file, paths, segments[..n]);
    }
  }

  lemma LastStepIs(k: Coding, file: bool, paths: seq<Text>, s: seq<CodePoint>)
    ensures Stepped(k, file, paths, s, true)
         == Stepped(k, file, paths, s, false) + if IsDotSegment(k, s) then [[]] else []
  {
    hide PathEncoded, IsSingleDotPathSegment, IsDoubleDotPathSegment, IsWindowsDriveLetter, Parent;
    assert Parent(file, paths) + [] == Parent(file, paths) && paths + [] == paths;
  }

  lemma {:induction false} WalkedIsOpen(k: Coding, file: bool, paths: seq<Text>, segments: seq<seq<CodePoint>>)
    ensures Walked(k, file, paths, segments) == Open(k, file, paths, segments) + LastOf(k, segments)
    decreases |segments|
  {
    hide Stepped, IsDotSegment;
    if |segments| == 0 {
      assert paths + [] == paths;
    } else if |segments| == 1 {
      LastStepIs(k, file, paths, segments[0]);
      assert segments[..0] == [] && segments[1..] == [];
    } else {
      OpenFromFront(k, file, paths, segments);
      WalkedIsOpen(k, file, Stepped(k, file, paths, segments[0], false), segments[1..]);
      assert segments[1..][|segments| - 2] == segments[|segments| - 1];
    }
  }

  lemma DroppedMore(paths: seq<Text>, d: Text, skip: nat)
    ensures Dropped(WithoutLast(paths), skip) == Dropped(paths, skip + 1)
    ensures skip > 0 ==> Dropped(paths + [d], skip) == Dropped(paths, skip - 1)
    ensures Dropped(paths, 0) == paths
  {
  }

  lemma DecodedMore(k: Coding, kept: seq<seq<CodePoint>>, s: seq<CodePoint>)
    ensures DecodedSegments(k, kept + [s]) == DecodedSegments(k, kept) + [k.decode(PathEncoded(k, s))]
  {
    hide PathEncoded;
  }

  /** Going forward over the segments comes to what reading them backward says. */
  lemma {:induction false} OpenIsNormal(k: Coding, paths: seq<Text>, segments: seq<seq<CodePoint>>, skip: nat)
    ensures var r := Normalized(k, segments, skip);
      Dropped(Open(k, false, paths, segments), skip) == Dropped(paths, r.up) + DecodedSegments(k, r.kept)
    decreases |segments|
  {
    hide PathEncoded, IsSingleDotPathSegment, IsDoubleDotPathSegment, Dropped, DecodedSegments;
    if |segments| == 0 {
      assert DecodedSegments(k, []) == [] by { NothingDecoded(k); }
      assert Dropped(paths, skip) + [] == Dropped(paths, skip);
    } else {
      var n := |segments| - 1;
      var w, s := Open(k, false, paths, segments[..n]), segments[n];
      var t := PathEncoded(k, s);
      assert w + [] == w && WithoutLast(w) + [] == WithoutLast(w);
      DroppedMore(w, k.decode(t), skip);
      if IsDoubleDotPathSegment(t) {
        OpenIsNormal(k, paths, segments[..n], skip + 1);
      } else if IsSingleDotPathSegment(t) {
        OpenIsNormal(k, paths, segments[..n], skip);
      } else if skip > 0 {
        OpenIsNormal(k, paths, segments[..n], skip - 1);
      } else {
        OpenIsNormal(k, paths, segments[..n], 0);
        DroppedMore(w + [k.decode(t)], [], 0);
        var r := Normalized(k, segments[..n], 0);
        DecodedMore(k, r.kept, s);
        var base, names, last := Dropped(paths, r.up), DecodedSegments(k, r.kept), [k.decode(t)];
        assert (base + names) + last == base + (names + last);
      }
    }
  }

  lemma NothingDecoded(k: Coding)
    ensures DecodedSegments(k, []) == []
  {
  }

  /** Where segments lead is the normal form without any dot segment: for all but file URLs. */
  lemma WalkedIsNormal(k: Coding, paths: seq<Text>, segments: seq<seq<CodePoint>>)
    ensures Walked(k, false, paths, segments) == NormalPath(k, paths, segments)
  {
    hide Walked, Open, Normalized, LastOf, DecodedSegments, Dropped;
    WalkedIsOpen(k, false, paths, segments);
    OpenIsNormal(k, paths, segments, 0);
    DroppedMore(Open(k, false, paths, segments), [], 0);
  }

  // ---- The same for file URLs ----

  /** The name that a segment gets at the root of a file URL. */
  function RootName(k: Coding, s: seq<CodePoint>): Text {
    var t := PathEncoded(k, s);
    k.decode(if IsWindowsDriveLetter(t) then [t[0], COLON] else t)
  }

  predicate IsDrive(k: Coding, s: seq<CodePoint>) {
    !IsDotSegment(k, s) && IsNormalizedWindowsDriveLetter(RootName(k, s))
  }

  /** The first segment from `i` on that comes to the root and is a drive letter. */
  function DriveIndex(k: Coding, paths: seq<Text>, segments: seq<seq<CodePoint>>, i: nat): (d: Option<nat>)
    requires i <= |segments|
    ensures d.Some? ==> i <= d.value < |segments|
    decreases |segments| - i
  {
    if i == |segments| then None
    else if Names(k, paths, segments[..i]) == [] && IsDrive(k, segments[i]) then Some(i)
    else DriveIndex(k, paths, segments, i + 1)
  }

  predicate StartsWithDrive(paths: seq<Text>) {
    |paths| > 0 && IsNormalizedWindowsDriveLetter(paths[0])
  }

  /** A drive letter, wherever it came from, stays in front, and the rest is as for other URLs. */
  function NormalFilePath(k: Coding, paths: seq<Text>, segments: seq<seq<CodePoint>>): seq<Text> {
    if StartsWithDrive(paths) then [paths[0]] + NormalPath(k, paths[1..], segments)
    else
      match DriveIndex(k, paths, segments, 0)
      case None => NormalPath(k, paths, segments)
      case Some(i) => [RootName(k, segments[i])] + NormalPath(k, [], segments[i + 1..])
  }

  /** Percent-decoding leaves a drive letter alone. */
  ghost predicate KeepsDriveLetters(k: Coding) {
    forall t: Text :: IsNormalizedWindowsDriveLetter(t) ==> k.decode(t) == t
  }

  lemma SteppedBehindDrive(k: Coding, drive: Text, paths: seq<Text>, s: seq<CodePoint>, last: bool)
    requires IsNormalizedWindowsDriveLetter(drive)
    ensures Stepped(k, true, [drive] + paths, s, last) == [drive] + Stepped(k, false, paths, s, last)
  {
    hide PathEncoded, IsSingleDotPathSegment, IsDoubleDotPathSegment, IsWindowsDriveLetter;
    hide IsNormalizedWindowsDriveLetter;
    var all, end := [drive] + paths, if last then [[]] else [];
    assert Parent(true, all) == [drive] + Parent(false, paths);
    assert ([drive] + Parent(false, paths)) + end == [drive] + (Parent(false, paths) + end);
    assert all + end == [drive] + (paths + end);
    assert all + [k.decode(PathEncoded(k, s))] == [drive] + (paths + [k.decode(PathEncoded(k, s))]);
  }

  /** A drive letter in front is the root of everything behind it. */
  lemma {:induction false} DriveIsRoot(k: Coding, drive: Text, paths: seq<Text>, segments: seq<seq<CodePoint>>)
    requires IsNormalizedWindowsDriveLetter(drive)
    ensures Walked(k, true, [drive] + paths, segments) == [drive] + Walked(k, false, paths, segments)
    decreases |segments|
  {
    hide Stepped, IsNormalizedWindowsDriveLetter;
    if |segments| > 0 {
      var last := |segments| == 1;
      SteppedBehindDrive(k, drive, paths, segments[0], last);
      DriveIsRoot(k, drive, Stepped(k, false, paths, segments[0], last), segments[1..]);
    }
  }

  /** Away from drive letters, a step in a file URL is as in any other. */
  lemma SteppedWithoutDrive(k: Coding, paths: seq<Text>, s: seq<CodePoint>, last: bool)
    requires KeepsDriveLetters(k) && !StartsWithDrive(paths) && !(paths == [] && IsDrive(k, s))
    ensures var next := Stepped(k, false, paths, s, last);
      Stepped(k, true, paths, s, last) == next && !StartsWithDrive(next)
  {
    var t := PathEncoded(k, s);
    if IsWindowsDriveLetter(t) {
      assert IsNormalizedWindowsDriveLetter([t[0], COLON]);
    }
    hide PathEncoded, IsSingleDotPathSegment, IsDoubleDotPathSegment;
  }

  lemma DriveIsStepped(k: Coding, s: seq<CodePoint>, last: bool)
    requires IsDrive(k, s)
    ensures Stepped(k, true, [], s, last) == [RootName(k, s)]
  {
    hide PathEncoded, IsSingleDotPathSegment, IsDoubleDotPathSegment, IsWindowsDriveLetter;
    hide IsNormalizedWindowsDriveLetter;
  }

  /** Names as one goes forward by a segment. */
  lemma NamesFromFront(k: Coding, paths: seq<Text>, segments: seq<seq<CodePoint>>)
    requires |segments| > 0
    ensures Names(k, paths, segments) == Names(k, Stepped(k, false, paths, segments[0], false), segments[1..])
  {
    hide Open, Normalized, DecodedSegments, Dropped, Stepped;
    OpenFromFront(k, false, paths, segments);
    var next := Stepped(k, false, paths, segments[0], false);
    OpenIsNormal(k, paths, segments, 0);
    OpenIsNormal(k, next, segments[1..], 0);
    DroppedMore(Open(k, false, paths, segments), [], 0);
  }

  lemma {:induction false} DriveIndexFromFront(k: Coding, paths: seq<Text>, segments: seq<seq<CodePoint>>, i: nat)
    requires 0 < i <= |segments|
    ensures var d, e := DriveIndex(k, paths, segments, i),
                        DriveIndex(k, Stepped(k, false, paths, segments[0], false), segments[1..], i - 1);
      d.Some? == e.Some? && (d.Some? ==> d.value == e.value + 1)
    decreases |segments| - i
  {
    hide Names, IsDrive, Stepped;
    if i < |segments| {
      NamesFromFront(k, paths, segments[..i]);
      assert segments[..i][0] == segments[0] && segments[..i][1..] == segments[1..][..i - 1];
      DriveIndexFromFront(k, paths, segments, i + 1);
    }
  }

  lemma NoNamesYet(k: Coding, paths: seq<Text>)
    ensures Names(k, paths, []) == paths
  {
    assert paths + [] == paths;
  }

  /** What a walk from that path comes to, if it meets a drive letter at the root. */
  function FromDrive(k: Coding, paths: seq<Text>, segments: seq<seq<CodePoint>>): seq<Text> {
    match DriveIndex(k, paths, segments, 0)
    case None => Walked(k, false, paths, segments)
    case Some(i) => [RootName(k, segments[i])] + Walked(k, false, [], segments[i + 1..])
  }

  lemma FromDriveGoesOn(k: Coding, paths: seq<Text>, segments: seq<seq<CodePoint>>)
    requires |segments| > 0 && !(paths == [] && IsDrive(k, segments[0]))
    ensures FromDrive(k, paths, segments)
         == FromDrive(k, Stepped(k, false, paths, segments[0], |segments| == 1), segments[1..])
  {
    hide Names, IsDrive, Stepped, RootName;
    NoNamesYet(k, paths);
    assert segments[..0] == [];
    assert DriveIndex(k, paths, segments, 0) == DriveIndex(k, paths, segments, 1);
    if |segments| > 1 {
      DriveIndexFromFront(k, paths, segments, 1);
      var e := DriveIndex(k, Stepped(k, false, paths, segments[0], false), segments[1..], 0);
      if e.Some? {
        assert segments[1..][e.value] == segments[e.value + 1];
        assert segments[1..][e.value + 1..] == segments[e.value + 2..];
      }
    }
  }

  /** Where segments lead in a file URL that has no drive letter yet. */
  lemma {:induction false} FileWalkFindsDrive(k: Coding, paths: seq<Text>, segments: seq<seq<CodePoint>>)
    requires KeepsDriveLetters(k) && !StartsWithDrive(paths)
    ensures Walked(k, true, paths, segments) == FromDrive(k, paths, segments)
    decreases |segments|
  {
    hide IsDrive, Stepped, RootName, StartsWithDrive, KeepsDriveLetters;
    if |segments| > 0 {
      var s, last := segments[0], |segments| == 1;
      if paths == [] && IsDrive(k, s) {
        DriveIsFirst(k, segments);
      } else {
        hide DriveIndex;
        SteppedWithoutDrive(k, paths, s, last);
        FileWalkFindsDrive(k, Stepped(k, false, paths, s, last), segments[1..]);
        hide FromDrive;
        FromDriveGoesOn(k, paths, segments);
      }
    }
  }

  lemma DriveIsFirst(k: Coding, segments: seq<seq<CodePoint>>)
    requires |segments| > 0 && IsDrive(k, segments[0])
    ensures Walked(k, true, [], segments) == FromDrive(k, [], segments)
  {
    hide IsDrive, Stepped, RootName, Names;
    var s := segments[0];
    NoNamesYet(k, []);
    assert segments[..0] == [];
    DriveIsStepped(k, s, |segments| == 1);
    DriveHasName(k, s);
    DriveIsRoot(k, RootName(k, s), [], segments[1..]);
    assert [RootName(k, s)] + [] == [RootName(k, s)];
  }

  lemma DriveHasName(k: Coding, s: seq<CodePoint>)
    requires IsDrive(k, s)
    ensures IsNormalizedWindowsDriveLetter(RootName(k, s))
  {
  }

  /** Where segments lead is the normal form without any dot segment, for file URLs with their drive letter in front. */
  lemma FileWalkIsNormal(k: Coding, paths: seq<Text>, segments: seq<seq<CodePoint>>)
    requires KeepsDriveLetters(k)
    ensures Walked(k, true, paths, segments) == NormalFilePath(k, paths, segments)
  {
    hide Walked, NormalPath, RootName, KeepsDriveLetters;
    if StartsWithDrive(paths) {
      DriveIsRoot(k, paths[0], paths[1..], segments);
      assert [paths[0]] + paths[1..] == paths;
      WalkedIsNormal(k, paths[1..], segments);
    } else {
      FileWalkFindsDrive(k, paths, segments);
      match DriveIndex(k, paths, segments, 0)
      case None => WalkedIsNormal(k, paths, segments);
      case Some(i) => WalkedIsNormal(k, [], segments[i + 1..]);
    }
  }
}
