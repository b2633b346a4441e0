/** Byte strings and the first place where one occurs in another. */
module ByteStrings {
  import opened CommonTypes

  predicate MatchAt(haystack: seq<byte>, needle: seq<byte>, offset: int) {
    0 <= offset && offset + |needle| <= |haystack| && haystack[offset..offset + |needle|] == needle
  }

  /** No match starts before `end`. */
  ghost predicate NoMatchBefore(haystack: seq<byte>, needle: seq<byte>, end: int) {
    forall o :: 0 <= o < end ==> !MatchAt(haystack, needle, o)
  }

  /** The least offset at which the needle occurs, or none. */
  ghost predicate IsFirst(haystack: seq<byte>, needle: seq<byte>, r: Option<nat>) {
    match r
    case Some(o) => MatchAt(haystack, needle, o) && NoMatchBefore(haystack, needle, o)
    case None => NoMatchBefore(haystack, needle, |haystack| + 1)
  }

  /** Trying every offset in turn. */
  function NaiveSearch(haystack: seq<byte>, needle: seq<byte>, from: nat): Option<nat>
    requires from <= |haystack| + 1
    decreases |haystack| + 1 - from
  {
    if from > |haystack| then None
    else if MatchAt(haystack, needle, from) then Some(from)
    else NaiveSearch(haystack, needle, from + 1)
  }

  /** What is first is what the naive search finds. */
  lemma {:induction false} FirstIsNaive(haystack: seq<byte>, needle: seq<byte>, from: nat, r: Option<nat>)
    requires from <= |haystack| + 1 && NoMatchBefore(haystack, needle, from)
    ensures IsFirst(haystack, needle, r) <==> r == NaiveSearch(haystack, needle, from)
    decreases |haystack| + 1 - from
  {
    if from <= |haystack| {
      if MatchAt(haystack, needle, from) {
        if r.Some? && r.value > from {
          assert MatchAt(haystack, needle, from);
        }
      } else {
        FirstIsNaive(haystack, needle, from + 1, r);
      }
    }
  }

  /** The pieces of a byte string, joined. */
  function Concat(chunks: seq<seq<byte>>): seq<byte> {
    if |chunks| == 0 then [] else chunks[0] + Concat(chunks[1..])
  }

  lemma {:induction false} ConcatSplit(left: seq<seq<byte>>, right: seq<seq<byte>>)
    ensures Concat(left + right) == Concat(left) + Concat(right)
  {
    if |left| == 0 {
      assert left + right == right;
    } else {
      assert (left + right)[1..] == left[1..] + right;
      ConcatSplit(left[1..], right);
    }
  }

  /** Where a byte of a chunk lies in the whole. */
  lemma ConcatAt(chunks: seq<seq<byte>>, i: nat, k: nat)
    requires i < |chunks| && k <= |chunks[i]|
    ensures |Concat(chunks[..i])| + k <= |Concat(chunks)|
    ensures k < |chunks[i]| ==>
      |Concat(chunks[..i])| + k < |Concat(chunks)| && Concat(chunks)[|Concat(chunks[..i])| + k] == chunks[i][k]
    ensures |Concat(chunks[..i + 1])| == |Concat(chunks[..i])| + |chunks[i]|
  {
    assert chunks == chunks[..i] + chunks[i..];
    ConcatSplit(chunks[..i], chunks[i..]);
    assert chunks[..i + 1] == chunks[..i] + [chunks[i]];
    ConcatSplit(chunks[..i], [chunks[i]]);
    assert Concat([chunks[i]]) == chunks[i];
  }
}

/** Substring search: Knuth-Morris-Pratt over chunks, shift-or, and the choice between them. */
module MemMem {
  import opened ByteStrings
  import opened CommonTypes

  // ---- Borders and the failure table ----

  /** The first `b` bytes of the needle are also the last `b` of its first `i`. */
  predicate Border(needle: seq<byte>, i: int, b: int) {
    0 <= b < i <= |needle| && needle[..b] == needle[i - b..i]
  }

  lemma BorderOfBorder(needle: seq<byte>, i: int, c: int, b: int)
    requires Border(needle, i, c) && 0 <= b < c
    ensures Border(needle, i, b) <==> Border(needle, c, b)
  {
    assert needle[c - b..c] == needle[..c][c - b..];
    assert needle[i - b..i] == needle[i - c..i][c - b..];
  }

  lemma BorderExtends(needle: seq<byte>, i: int, b: int)
    requires 0 <= b < i < |needle|
    ensures Border(needle, i + 1, b + 1) <==> Border(needle, i, b) && needle[b] == needle[i]
  {
    assert needle[..b + 1] == needle[..b] + [needle[b]];
    assert needle[i - b..i + 1] == needle[i - b..i] + [needle[i]];
    if Border(needle, i + 1, b + 1) {
      assert needle[..b] == needle[..b + 1][..b] && needle[i - b..i] == needle[i - b..i + 1][..b];
      assert needle[b] == needle[..b + 1][b] && needle[i] == needle[i - b..i + 1][b];
    }
  }

  /** The longest border of the first `i` bytes that is followed by another byte than `needle[i]`; -1 if none. */
  ghost predicate StrongFailure(needle: seq<byte>, i: int, t: int) {
    && 0 <= i < |needle| && -1 <= t < i
    && (t >= 0 ==> Border(needle, i, t) && needle[t] != needle[i])
    && forall b :: t < b < i && Border(needle, i, b) ==> needle[b] == needle[i]
  }

  ghost predicate FailureTable(needle: seq<byte>, table: seq<int>, filled: int) {
    0 <= filled <= |table| == |needle| && forall i :: 0 <= i < filled ==> StrongFailure(needle, i, table[i])
  }

  ghost predicate LongestBorder(needle: seq<byte>, i: int, c: int) {
    Border(needle, i, c) && forall b :: c < b < i ==> !Border(needle, i, b)
  }

  /** `c` is -1 or a border of the first `i` bytes, and no longer border is followed by `needle[i]`. */
  ghost predicate NoLongerFits(needle: seq<byte>, i: int, c: int) {
    && 0 < i < |needle| && -1 <= c < i
    && (c >= 0 ==> Border(needle, i, c))
    && forall b :: c < b < i && Border(needle, i, b) ==> needle[b] != needle[i]
  }

  lemma SameByteFailure(needle: seq<byte>, i: int, c: int, t: int)
    requires 0 < i < |needle| && LongestBorder(needle, i, c) && needle[i] == needle[c] && StrongFailure(needle, c, t)
    ensures StrongFailure(needle, i, t)
  {
    if t >= 0 {
      BorderOfBorder(needle, i, c, t);
    }
    forall b | t < b < i && Border(needle, i, b) ensures needle[b] == needle[i] {
      if b < c {
        BorderOfBorder(needle, i, c, b);
      }
    }
  }

  lemma FallBack(needle: seq<byte>, i: int, c: int, t: int)
    requires c >= 0 && NoLongerFits(needle, i, c) && needle[c] != needle[i] && StrongFailure(needle, c, t)
    ensures NoLongerFits(needle, i, t)
  {
    if t >= 0 {
      BorderOfBorder(needle, i, c, t);
    }
    forall b | t < b < i && Border(needle, i, b) ensures needle[b] != needle[i] {
      if b < c {
        BorderOfBorder(needle, i, c, b);
      }
    }
  }

  lemma NextBorder(needle: seq<byte>, i: int, c: int)
    requires NoLongerFits(needle, i, c) && (c >= 0 ==> needle[c] == needle[i])
    ensures LongestBorder(needle, i + 1, c + 1)
  {
    if c >= 0 {
      BorderExtends(needle, i, c);
    }
    var n := i + 1;
    forall b | c + 1 < b < n ensures !Border(needle, n, b) {
      BorderExtends(needle, i, b - 1);
    }
  }

  lemma LongestFits(needle: seq<byte>, i: int, c: int)
    requires i < |needle| && LongestBorder(needle, i, c)
    ensures 0 <= c < i && NoLongerFits(needle, i, c)
    ensures needle[i] != needle[c] ==> StrongFailure(needle, i, c)
  {
  }

  lemma TableExtended(needle: seq<byte>, table: seq<int>, filled: nat, t: int)
    requires FailureTable(needle, table, filled) && filled < |needle| && StrongFailure(needle, filled, t)
    ensures FailureTable(needle, table[filled := t], filled + 1)
  {
  }

  lemma TableAt(needle: seq<byte>, table: seq<int>, filled: nat, i: nat)
    requires FailureTable(needle, table, filled) && i < filled
    ensures -1 <= table[i] < i && StrongFailure(needle, i, table[i])
  {
  }

  lemma FirstFailure(needle: seq<byte>, table: seq<int>)
    requires |table| == |needle| > 0
    ensures FailureTable(needle, table[0 := -1], 1) && LongestBorder(needle, 1, 0)
  {
  }

  /** `prepare_kmp_partial_table` */
  method PrepareKmpPartialTable(needle: seq<byte>) returns (table: array<int>)
    requires |needle| > 0
    ensures fresh(table) && FailureTable(needle, table[..], |needle|)
  {
    hide FailureTable, StrongFailure, LongestBorder, NoLongerFits, Border;
    table := new int[|needle|];
    var position := 1;
    var candidate := 0;
    FirstFailure(needle, table[..]);
    table[0] := -1;
    while position < |needle|
      invariant 1 <= position <= |needle| == table.Length
      invariant LongestBorder(needle, position, candidate)
      invariant FailureTable(needle, table[..], position)
    {
      LongestFits(needle, position, candidate);
      TableAt(needle, table[..], position, candidate);
      if needle[position] == needle[candidate] {
        SameByteFailure(needle, position, candidate, table[candidate]);
        TableExtended(needle, table[..], position, table[candidate]);
        table[position] := table[candidate];
      } else {
        TableExtended(needle, table[..], position, candidate);
        FallBack(needle, position, candidate, table[candidate]);
        table[position] := candidate;
        candidate := table[candidate];
        while candidate >= 0 && needle[candidate] != needle[position]
          invariant -1 <= candidate < position && NoLongerFits(needle, position, candidate)
          invariant FailureTable(needle, table[..], position + 1)
          decreases candidate
        {
          TableAt(needle, table[..], position + 1, candidate);
          FallBack(needle, position, candidate, table[candidate]);
          candidate := table[candidate];
        }
      }
      NextBorder(needle, position, candidate);
      position := position + 1;
      candidate := candidate + 1;
    }
  }

  // ---- Searching with the table ----

  /** The last `q` bytes before `total` are the first `q` of the needle, and nothing earlier matches. */
  ghost predicate Partial(haystack: seq<byte>, needle: seq<byte>, total: int, q: int) {
    && 0 <= q < |needle| && q <= total <= |haystack|
    && haystack[total - q..total] == needle[..q]
    && NoMatchBefore(haystack, needle, total - q)
  }

  lemma PartialGrows(haystack: seq<byte>, needle: seq<byte>, total: int, q: int)
    requires Partial(haystack, needle, total, q) && total < |haystack| && needle[q] == haystack[total]
    ensures q + 1 < |needle| ==> Partial(haystack, needle, total + 1, q + 1)
    ensures q + 1 == |needle| ==> MatchAt(haystack, needle, total + 1 - |needle|)
  {
    assert haystack[total - q..total + 1] == haystack[total - q..total] + [haystack[total]];
    assert needle[..q + 1] == needle[..q] + [needle[q]];
    assert needle[..|needle|] == needle;
  }

  /** A match that starts within the partial one makes a border, continued by the next byte. */
  lemma MatchOverlaps(haystack: seq<byte>, needle: seq<byte>, total: int, q: int, b: int)
    requires Partial(haystack, needle, total, q) && total < |haystack|
    requires 0 <= b <= q && MatchAt(haystack, needle, total - b)
    ensures needle[b] == haystack[total] && (b < q ==> Border(needle, q, b))
  {
    var o := total - b;
    assert haystack[total] == haystack[o..o + |needle|][b];
    assert needle[..b] == haystack[o..o + |needle|][..b];
    assert haystack[o..total] == haystack[total - q..total][q - b..] == needle[..q][q - b..];
    assert needle[q - b..q] == needle[..q][q - b..];
  }

  lemma NoMatchAt(haystack: seq<byte>, needle: seq<byte>, total: int, q: int, b: int)
    requires Partial(haystack, needle, total, q) && total < |haystack| && needle[q] != haystack[total]
    requires 0 <= b <= q && (Border(needle, q, b) ==> needle[b] == needle[q])
    ensures !MatchAt(haystack, needle, total - b)
  {
    if MatchAt(haystack, needle, total - b) {
      MatchOverlaps(haystack, needle, total, q, b);
    }
  }

  /** Falling back by the table skips no match. */
  lemma PartialFallsBack(haystack: seq<byte>, needle: seq<byte>, total: int, q: int, t: int)
    requires Partial(haystack, needle, total, q) && total < |haystack| && needle[q] != haystack[total]
    requires StrongFailure(needle, q, t)
    ensures t >= 0 ==> Partial(haystack, needle, total, t)
    ensures t < 0 ==> Partial(haystack, needle, total + 1, 0)
  {
    forall o | 0 <= o < total - t ensures !MatchAt(haystack, needle, o) {
      if o >= total - q {
        NoMatchAt(haystack, needle, total, q, total - o);
      }
    }
    if t >= 0 {
      assert haystack[total - t..total] == haystack[total - q..total][q - t..] == needle[..q][q - t..];
      assert needle[q - t..q] == needle[..q][q - t..];
    }
  }

  lemma PartialBegins(haystack: seq<byte>, needle: seq<byte>)
    requires |needle| > 0
    ensures Partial(haystack, needle, 0, 0)
  {
  }

  lemma PartialInRange(haystack: seq<byte>, needle: seq<byte>, total: int, q: int)
    requires Partial(haystack, needle, total, q)
    ensures 0 <= q < |needle| && q <= total <= |haystack|
  {
  }

  lemma PartialCompletes(haystack: seq<byte>, needle: seq<byte>, total: int, q: int)
    requires Partial(haystack, needle, total, q) && total < |haystack| && needle[q] == haystack[total]
    requires q + 1 == |needle|
    ensures IsFirst(haystack, needle, Some(total - q)) && NaiveSearch(haystack, needle, 0) == Some(total - q)
  {
    PartialGrows(haystack, needle, total, q);
    FirstIsNaive(haystack, needle, 0, Some(total - q));
  }

  lemma PartialAtEnd(haystack: seq<byte>, needle: seq<byte>, q: int)
    requires Partial(haystack, needle, |haystack|, q)
    ensures IsFirst(haystack, needle, None) && NaiveSearch(haystack, needle, 0) == None
  {
    FirstIsNaive(haystack, needle, 0, None);
  }

  /** `memmem` over a haystack in chunks. */
  method MemMemChunks(chunks: seq<seq<byte>>, needle: seq<byte>) returns (r: Option<nat>)
    requires |needle| > 0
    ensures IsFirst(Concat(chunks), needle, r)
    ensures r == NaiveSearch(Concat(chunks), needle, 0)
  {
    var table := PrepareKmpPartialTable(needle);
    ghost var haystack := Concat(chunks);
    hide Partial, FailureTable, StrongFailure, IsFirst, NaiveSearch;
    PartialBegins(haystack, needle);
    var total, current, needleIndex := 0, 0, 0;
    var it := 0;
    while it < |chunks|
      invariant 0 <= it <= |chunks| && 0 <= current
      invariant it < |chunks| ==> current <= |chunks[it]|
      invariant it == |chunks| ==> current == 0
      invariant total == |Concat(chunks[..it])| + current
      invariant Partial(haystack, needle, total, needleIndex)
      invariant FailureTable(needle, table[..], |needle|)
      decreases |haystack| - total, |chunks| - it, needleIndex
    {
      ConcatAt(chunks, it, current);
      PartialInRange(haystack, needle, total, needleIndex);
      if current >= |chunks[it]| {
        current := 0;
        it := it + 1;
        continue;
      }
      if needle[needleIndex] == chunks[it][current] {
        if needleIndex + 1 == |needle| {
          PartialCompletes(haystack, needle, total, needleIndex);
        } else {
          PartialGrows(haystack, needle, total, needleIndex);
        }
        needleIndex := needleIndex + 1;
        current := current + 1;
        total := total + 1;
        if needleIndex == |needle| {
          return Some(total - needleIndex);
        }
        continue;
      }
      TableAt(needle, table[..], |needle|, needleIndex);
      PartialFallsBack(haystack, needle, total, needleIndex, table[needleIndex]);
      needleIndex := table[needleIndex];
      if needleIndex < 0 {
        needleIndex := needleIndex + 1;
        current := current + 1;
        total := total + 1;
      }
    }
    assert chunks[..it] == chunks;
    PartialAtEnd(haystack, needle, needleIndex);
    r := None;
  }

  // ---- Shift-or ----

  /** A 32-bit word, lowest bit first. */
  type Word = w: seq<bool> | |w| == 32 witness seq(32, i => false)

  function BitwiseOr(v: Word, w: Word): Word {
    seq(32, i requires 0 <= i < 32 => v[i] || w[i])
  }

  function ShiftedLeft(w: Word): Word {
    seq(32, i requires 0 <= i < 32 => i > 0 && w[i - 1])
  }

  /** `w & ~(1 << i)` */
  function Cleared(w: Word, i: nat): Word
    requires i < 32
  {
    w[i := false]
  }

  /** `0xffffffff` */
  function AllOnes(): Word {
    seq(32, i => true)
  }

  /** Bit `k` is clear exactly when the last `k` bytes read are the first `k` of the needle. */
  ghost predicate TracksMatches(lookup: Word, haystack: seq<byte>, needle: seq<byte>, read: int) {
    && 0 <= read <= |haystack| && |needle| < 32
    && forall k :: 0 <= k < 32 ==>
      (!lookup[k] <==> k <= |needle| && k <= read && haystack[read - k..read] == needle[..k])
  }

  /** Bit `j` of the mask of `c` is clear exactly when `needle[j]` is `c`, for the bytes of the needle seen so far. */
  ghost predicate IsNeedleMask(mask: seq<Word>, needle: seq<byte>, seen: int) {
    && 0 <= seen <= |needle| < 32 && |mask| == 256
    && forall c, j :: 0 <= c < 256 && 0 <= j < 32 ==> (!mask[c][j] <==> j < seen && needle[j] == c)
  }

  lemma LookupBit(lookup: Word, mask: Word, k: nat)
    requires k < 32
    ensures ShiftedLeft(BitwiseOr(lookup, mask))[k] == (k > 0 && (lookup[k - 1] || mask[k - 1]))
  {
  }

  lemma LookupStep(lookup: Word, mask: seq<Word>, haystack: seq<byte>, needle: seq<byte>, i: nat)
    requires TracksMatches(lookup, haystack, needle, i) && i < |haystack| && IsNeedleMask(mask, needle, |needle|)
    ensures TracksMatches(ShiftedLeft(BitwiseOr(lookup, mask[haystack[i]])), haystack, needle, i + 1)
  {
    var lookup' := ShiftedLeft(BitwiseOr(lookup, mask[haystack[i]]));
    forall k | 0 <= k < 32
      ensures !lookup'[k] <==> k <= |needle| && k <= i + 1 && haystack[i + 1 - k..i + 1] == needle[..k]
    {
      LookupBit(lookup, mask[haystack[i]], k);
      if k == 0 {
        assert haystack[i + 1 - k..i + 1] == needle[..k];
      } else {
        var j := k - 1;
        assert !lookup[j] <==> j <= |needle| && j <= i && haystack[i - j..i] == needle[..j];
        if j < |needle| && j <= i {
          ExtendedMatch(haystack, needle, i, j);
        }
      }
    }
  }

  lemma ExtendedMatch(haystack: seq<byte>, needle: seq<byte>, i: nat, k: nat)
    requires i < |haystack| && k < |needle| && k <= i
    ensures haystack[i - k..i + 1] == needle[..k + 1] <==> haystack[i - k..i] == needle[..k] && haystack[i] == needle[k]
  {
    assert haystack[i - k..i + 1] == haystack[i - k..i] + [haystack[i]];
    assert needle[..k + 1] == needle[..k] + [needle[k]];
    if haystack[i - k..i + 1] == needle[..k + 1] {
      assert haystack[i - k..i] == haystack[i - k..i + 1][..k] && needle[..k] == needle[..k + 1][..k];
      assert haystack[i] == haystack[i - k..i + 1][k] && needle[k] == needle[..k + 1][k];
    }
  }

  lemma EmptyMask(mask: seq<Word>, needle: seq<byte>)
    requires |mask| == 256 && |needle| < 32 && forall c :: 0 <= c < 256 ==> mask[c] == AllOnes()
    ensures IsNeedleMask(mask, needle, 0)
  {
  }

  lemma MaskStep(mask: seq<Word>, needle: seq<byte>, i: nat)
    requires IsNeedleMask(mask, needle, i) && i < |needle|
    ensures |mask| == 256 && i < 32
    ensures IsNeedleMask(mask[needle[i] := Cleared(mask[needle[i]], i)], needle, i + 1)
  {
    var mask' := mask[needle[i] := Cleared(mask[needle[i]], i)];
    forall c, j | 0 <= c < 256 && 0 <= j < 32 ensures !mask'[c][j] <==> j < i + 1 && needle[j] == c {
      assert !mask[c][j] <==> j < i && needle[j] == c;
      assert mask'[c][j] == (mask[c][j] && !(c == needle[i] && j == i));
    }
  }

  lemma NothingTracked(haystack: seq<byte>, needle: seq<byte>)
    requires |needle| < 32
    ensures TracksMatches(Cleared(AllOnes(), 0), haystack, needle, 0)
    ensures |needle| > 0 ==> NoMatchBefore(haystack, needle, 1 - |needle|)
  {
    assert haystack[0..0] == needle[..0];
  }

  lemma LastBitTells(lookup: Word, haystack: seq<byte>, needle: seq<byte>, read: nat)
    requires TracksMatches(lookup, haystack, needle, read) && read > 0
    requires |needle| > 0 ==> NoMatchBefore(haystack, needle, read - |needle|)
    ensures |needle| < 32 && (!lookup[|needle|] ==> |needle| <= read)
    ensures |needle| == 0 ==> !lookup[0]
    ensures |needle| > 0 && !lookup[|needle|] ==> IsFirst(haystack, needle, Some(read - |needle|))
    ensures |needle| > 0 && lookup[|needle|] ==> NoMatchBefore(haystack, needle, read - |needle| + 1)
  {
    if |needle| == 0 {
      assert haystack[read..read] == needle[..0];
    } else if read >= |needle| {
      assert MatchAt(haystack, needle, read - |needle|) <==> haystack[read - |needle|..read] == needle[..|needle|];
    }
  }

  lemma NoMatchAnywhere(haystack: seq<byte>, needle: seq<byte>)
    requires |needle| > 0 && NoMatchBefore(haystack, needle, |haystack| - |needle| + 1)
    ensures IsFirst(haystack, needle, None)
  {
  }

  /**
   * `bitap_bitwise`, with the pointer it returns as an offset. For an empty needle it answers
   * 1 past the true first match as soon as there is a byte to look at. (Lines 17 to 19 of the source
   * repeat lines 13 to 15; the check and the initial word are taken once.)
   */
  method BitapBitwise(haystack: seq<byte>, needle: seq<byte>) returns (r: Option<nat>)
    requires |needle| < 32
    ensures |needle| > 0 ==> IsFirst(haystack, needle, r)
    ensures |needle| == 0 ==> r == if |haystack| == 0 then None else Some(1)
  {
    hide TracksMatches, NoMatchBefore, MatchAt, BitwiseOr, ShiftedLeft, IsNeedleMask, IsFirst;
    var lookup: Word := Cleared(AllOnes(), 0);
    var needleMask := new Word[256](i => AllOnes());
    EmptyMask(needleMask[..], needle);
    for i := 0 to |needle|
      invariant IsNeedleMask(needleMask[..], needle, i)
    {
      MaskStep(needleMask[..], needle, i);
      needleMask[needle[i]] := Cleared(needleMask[needle[i]], i);
    }
    NothingTracked(haystack, needle);
    for i := 0 to |haystack|
      invariant IsNeedleMask(needleMask[..], needle, |needle|)
      invariant TracksMatches(lookup, haystack, needle, i)
      invariant |needle| == 0 ==> i == 0
      invariant |needle| > 0 ==> NoMatchBefore(haystack, needle, i - |needle| + 1)
    {
      LookupStep(lookup, needleMask[..], haystack, needle, i);
      lookup := BitwiseOr(lookup, needleMask[haystack[i]]);
      lookup := ShiftedLeft(lookup);
      LastBitTells(lookup, haystack, needle, i + 1);
      if !lookup[|needle|] {
        return Some(i - |needle| + 1);
      }
    }
    if |needle| > 0 {
      NoMatchAnywhere(haystack, needle);
    }
    return None;
  }

  // ---- The dispatcher ----

  /** `memmem_optional` */
  method MemMemOptional(haystack: seq<byte>, needle: seq<byte>) returns (r: Option<nat>)
    ensures IsFirst(haystack, needle, r)
    ensures r == NaiveSearch(haystack, needle, 0)
  {
    if |needle| == 0 {
      r := Some(0);
    } else if |haystack| < |needle| {
      r := None;
    } else if |haystack| == |needle| {
      r := if haystack == needle then Some(0) else None;
      assert haystack[..|needle|] == haystack;
    } else if |needle| < 32 {
      r := BitapBitwise(haystack, needle);
    } else {
      r := MemMemChunks([haystack], needle);
      assert Concat([haystack]) == haystack;
    }
    FirstIsNaive(haystack, needle, 0, r);
  }
}
