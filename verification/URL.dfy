/** UTF-8 text, and the URL record that the parser fills in. */
module Urls {
  import opened CommonTypes

  type CodePoint = c: int | 0 <= c <= 0x10FFFF

  /** A byte string in UTF-8. */
  type Text = seq<byte>

  // ---- UTF-8 ----

  function Utf8(c: CodePoint): (t: Text)
    ensures 1 <= |t| <= 4
    ensures c < 0x80 ==> t == [c]
    ensures c >= 0x80 ==> forall i :: 0 <= i < |t| ==> t[i] >= 0x80
  {
    if c < 0x80 then [c]
    else if c < 0x800 then [0xC0 + c / 64, 0x80 + c % 64]
    else if c < 0x10000 then [0xE0 + c / 4096, 0x80 + c / 64 % 64, 0x80 + c % 64]
    else [0xF0 + c / 262144, 0x80 + c / 4096 % 64, 0x80 + c / 64 % 64, 0x80 + c % 64]
  }

  function Encode(s: seq<CodePoint>): (t: Text)
    ensures |t| >= |s|
  {
    if |s| == 0 then [] else Encode(s[..|s| - 1]) + Utf8(s[|s| - 1])
  }

  lemma {:induction false} EncodeConcat(a: seq<CodePoint>, b: seq<CodePoint>)
    ensures Encode(a + b) == Encode(a) + Encode(b)
  {
    if |b| == 0 {
      assert a + b == a;
    } else {
      assert (a + b)[..|a + b| - 1] == a + b[..|b| - 1];
      EncodeConcat(a, b[..|b| - 1]);
    }
  }

  /** Where a code point starts, in bytes. */
  function ByteOffset(input: seq<CodePoint>, pos: nat): nat
    requires pos <= |input|
  {
    |Encode(input[..pos])|
  }

  lemma OffsetsGrow(input: seq<CodePoint>, i: nat, k: nat)
    requires i < k <= |input|
    ensures ByteOffset(input, i) < ByteOffset(input, k)
    ensures ByteOffset(input, k) == ByteOffset(input, i) + |Encode(input[i..k])|
  {
    assert input[..k] == input[..i] + input[i..k];
    EncodeConcat(input[..i], input[i..k]);
  }

  /** `iterator_at_byte_offset`: the first code point that starts there or later, else the end. */
  function AtByteOffset(input: seq<CodePoint>, offset: int, from: nat): (pos: nat)
    requires from <= |input|
    ensures from <= pos <= |input|
    decreases |input| - from
  {
    if from == |input| then from
    else if ByteOffset(input, from) >= offset then from
    else AtByteOffset(input, offset, from + 1)
  }

  lemma {:induction false} AtBoundary(input: seq<CodePoint>, pos: nat, from: nat)
    requires from <= pos <= |input|
    ensures AtByteOffset(input, ByteOffset(input, pos), from) == pos
    decreases pos - from
  {
    if from < pos {
      OffsetsGrow(input, from, pos);
      AtBoundary(input, pos, from + 1);
    }
  }

  // ---- Characters ----

  const END_OF_FILE: nat := 0xFFFF_FFFF

  const SLASH := '/' as int
  const BACKSLASH := '\\' as int
  const COLON := ':' as int
  const QUESTION := '?' as int
  const HASH := '#' as int
  const AT := '@' as int
  const BAR := '|' as int
  const OPEN_BRACKET := '[' as int
  const CLOSE_BRACKET := ']' as int

  predicate IsUpper(c: int) {
    'A' as int <= c <= 'Z' as int
  }

  predicate IsAlpha(c: int) {
    IsUpper(c) || 'a' as int <= c <= 'z' as int
  }

  predicate IsDigit(c: int) {
    '0' as int <= c <= '9' as int
  }

  predicate IsSchemePart(c: int) {
    IsAlpha(c) || IsDigit(c) || c == '+' as int || c == '-' as int || c == '.' as int
  }

  function ToLower(c: int): int {
    if IsUpper(c) then c + 0x20 else c
  }

  predicate IsSlash(c: int) {
    c == SLASH || c == BACKSLASH
  }

  function Lowercased(t: Text): Text {
    seq(|t|, i requires 0 <= i < |t| => ToLower(t[i]))
  }

  // ---- Path segments ----

  /** The drive-letter test as it is written: it fails only if neither character is right. */
  predicate StartsWithWindowsDriveLetter(t: Text) {
    && |t| >= 2
    && (IsAlpha(t[0]) || t[1] == COLON || t[1] == BAR)
    && (|t| == 2 || t[2] in {SLASH, BACKSLASH, QUESTION, HASH})
  }

  predicate IsWindowsDriveLetter(t: Text) {
    |t| == 2 && IsAlpha(t[0]) && (t[1] == COLON || t[1] == BAR)
  }

  predicate IsNormalizedWindowsDriveLetter(t: Text) {
    |t| == 2 && IsAlpha(t[0]) && t[1] == COLON
  }

  const DOT: Text := ['.' as int]
  const ENCODED_DOT: Text := ['%' as int, '2' as int, 'e' as int]

  predicate IsSingleDotPathSegment(t: Text) {
    t == DOT || Lowercased(t) == ENCODED_DOT
  }

  predicate IsDoubleDotPathSegment(t: Text) {
    t == DOT + DOT || Lowercased(t) in {DOT + ENCODED_DOT, ENCODED_DOT + DOT, ENCODED_DOT + ENCODED_DOT}
  }

  // ---- Schemes ----

  const FILE: Text := ['f' as int, 'i' as int, 'l' as int, 'e' as int]
  const FTP: Text := ['f' as int, 't' as int, 'p' as int]
  const HTTP: Text := ['h' as int, 't' as int, 't' as int, 'p' as int]
  const HTTPS: Text := HTTP + ['s' as int]
  const WS: Text := ['w' as int, 's' as int]
  const WSS: Text := WS + ['s' as int]
  const GEMINI: Text := ['g' as int, 'e' as int, 'm' as int, 'i' as int, 'n' as int, 'i' as int]
  const IRC: Text := ['i' as int, 'r' as int, 'c' as int]
  const IRCS: Text := IRC + ['s' as int]
  const DATA_PREFIX: seq<CodePoint> := ['d' as int, 'a' as int, 't' as int, 'a' as int, ':' as int]
  const LOCALHOST: Text :=
    ['l' as int, 'o' as int, 'c' as int, 'a' as int, 'l' as int, 'h' as int, 'o' as int, 's' as int, 't' as int]

  predicate IsSpecialScheme(scheme: Text) {
    scheme in {FTP, FILE, HTTP, HTTPS, WS, WSS}
  }

  function DefaultPortForScheme(scheme: Text): nat {
    if scheme == HTTP then 80
    else if scheme == HTTPS then 443
    else if scheme == GEMINI then 1965
    else if scheme == IRC then 6667
    else if scheme == IRCS then 6697
    else if scheme == WS then 80
    else if scheme == WSS then 443
    else 0
  }

  /** A letter, then letters, digits, `+`, `-` and `.`, all in lower case. */
  predicate IsScheme(t: Text) {
    |t| > 0 && IsAlpha(t[0]) && forall i :: 0 <= i < |t| ==> IsSchemePart(t[i]) && !IsUpper(t[i])
  }

  // ---- The record ----

  /** The fields the parser sets. `None` is a null string. */
  datatype Url = Url(valid: bool, scheme: Text, username: Option<Text>, password: Option<Text>, host: Option<Text>,
                     port: Option<nat>, paths: seq<Text>, query: Option<Text>, fragment: Option<Text>,
                     cannotBeABaseUrl: bool)
  {
    predicate IsSpecial() {
      IsSpecialScheme(scheme)
    }
  }

  const EMPTY_URL: Url := Url(false, [], None, None, None, None, [], None, None, false)

  /** A number in decimal digits, unless it takes more than 32 bits. */
  function ToUint(t: Text): Option<nat> {
    if |t| == 0 then None else UintOf(t)
  }

  function UintOf(t: Text): (r: Option<nat>)
    ensures r.Some? ==> r.value < 0x1_0000_0000
  {
    if |t| == 0 then Some(0)
    else if !IsDigit(t[|t| - 1]) then None
    else
      match UintOf(t[..|t| - 1])
      case None => None
      case Some(v) =>
        var v' := v * 10 + (t[|t| - 1] - '0' as int);
        if v' < 0x1_0000_0000 then Some(v') else None
  }

  /** The percent coding helpers, of which the parser needs nothing but that they are functions. */
  datatype Coding = Coding(decode: Text -> Text, encodeHost: Text -> Text, encodePath: CodePoint -> Text,
                           encodeC0: CodePoint -> Text, encodeQuery: (Text, bool) -> Text)

  // ---- Hosts ----

  const FORBIDDEN_EXCLUDING_PERCENT: set<byte> :=
    {0, 9, 10, 13, ' ' as int, '#' as int, '/' as int, ':' as int, '<' as int, '>' as int, '?' as int, '@' as int,
     '[' as int, '\\' as int, ']' as int, '^' as int, '|' as int}

  const FORBIDDEN: set<byte> := FORBIDDEN_EXCLUDING_PERCENT + {'%' as int}

  predicate FreeOf(t: Text, forbidden: set<byte>) {
    forall i :: 0 <= i < |t| ==> t[i] !in forbidden
  }

  /** Assertions and unfinished code that parsing can run into. */
  datatype Check = NullBase | Ipv6Host | EmptySpecialHost | OpaquePathTaken | QueryNotEmpty | NoFirstPath

  datatype HostResult = Host(host: Text) | NoHost | HostHalts(check: Check)

  predicate IsBracketed(t: Text) {
    |t| > 0 && t[0] == OPEN_BRACKET && t[|t| - 1] == CLOSE_BRACKET
  }

  /** `parse_host` */
  function ParseHost(k: Coding, t: Text, isNotSpecial: bool): HostResult {
    if |t| > 0 && t[0] == OPEN_BRACKET then
      if !IsBracketed(t) then NoHost else HostHalts(Ipv6Host)
    else if isNotSpecial then
      if FreeOf(t, FORBIDDEN_EXCLUDING_PERCENT) then Host(k.encodeHost(t)) else NoHost
    else if |t| == 0 then HostHalts(EmptySpecialHost)
    else
      var domain := k.decode(t);
      if FreeOf(domain, FORBIDDEN) then Host(domain) else NoHost
  }
}
