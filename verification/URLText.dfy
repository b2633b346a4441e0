/** What the texts, characters and numbers in a URL are, said without the functions that the parser tests them with. */
module UrlTexts {
  import opened CommonTypes
  import opened Urls
  import opened UrlParsers

  /** A text in ASCII. */
  function Ascii(s: string): (t: Text)
    requires forall i :: 0 <= i < |s| ==> s[i] < 128 as char
    ensures |t| == |s| && forall i :: 0 <= i < |s| ==> t[i] == s[i] as int
  {
    seq(|s|, i requires 0 <= i < |s| => s[i] as int)
  }

  // ---- Characters ----

  const UPPER: string := "ABCDEFGHIJKLMNOPQRSTUVWXYZ"
  const LOWER: string := "abcdefghijklmnopqrstuvwxyz"
  const DIGITS: string := "0123456789"

  lemma Alphabet(i: nat)
    requires i < 26
    ensures UPPER[i] as int == 'A' as int + i && LOWER[i] as int == 'a' as int + i
  {
  }

  lemma DigitIs(i: nat)
    requires i < 10
    ensures DIGITS[i] as int == '0' as int + i
  {
  }

  /** The letters, the digits, and what a scheme may be made of. */
  lemma CharacterClasses(c: char)
    ensures IsUpper(c as int) <==> c in UPPER
    ensures IsAlpha(c as int) <==> c in UPPER || c in LOWER
    ensures IsDigit(c as int) <==> c in DIGITS
    ensures IsSchemePart(c as int) <==> c in UPPER || c in LOWER || c in DIGITS || c in "+-."
  {
    forall i | 0 <= i < 26 ensures UPPER[i] as int == 'A' as int + i && LOWER[i] as int == 'a' as int + i {
      Alphabet(i);
    }
    forall i | 0 <= i < 10 ensures DIGITS[i] as int == '0' as int + i {
      DigitIs(i);
    }
    if 'A' <= c <= 'Z' {
      Alphabet(c as int - 'A' as int);
      assert UPPER[c as int - 'A' as int] == c;
    } else if 'a' <= c <= 'z' {
      Alphabet(c as int - 'a' as int);
      assert LOWER[c as int - 'a' as int] == c;
    } else if '0' <= c <= '9' {
      DigitIs(c as int - '0' as int);
      assert DIGITS[c as int - '0' as int] == c;
    }
  }

  /** A letter in upper case becomes the one in lower case, and nothing else changes. */
  lemma LowerCase(i: nat, c: int)
    requires i < 26
    ensures ToLower(UPPER[i] as int) == LOWER[i] as int
    ensures !IsUpper(c) ==> ToLower(c) == c
  {
    Alphabet(i);
  }

  /** Characters in ASCII are single bytes. */
  lemma {:induction false} AsciiIsEncoded(s: seq<CodePoint>)
    requires forall i :: 0 <= i < |s| ==> s[i] < 0x80
    ensures Encode(s) == s
  {
    if |s| > 0 {
      AsciiIsEncoded(s[..|s| - 1]);
      assert s == s[..|s| - 1] + [s[|s| - 1]];
    }
  }

  // ---- Schemes ----

  /** The special schemes, and the ports that are left out. */
  lemma SchemeTable(scheme: Text)
    ensures IsSpecialScheme(scheme)
       <==> scheme in {Ascii("ftp"), Ascii("file"), Ascii("http"), Ascii("https"), Ascii("ws"), Ascii("wss")}
    ensures DefaultPortForScheme(scheme)
         == if scheme in {Ascii("http"), Ascii("ws")} then 80
            else if scheme in {Ascii("https"), Ascii("wss")} then 443
            else if scheme == Ascii("gemini") then 1965
            else if scheme == Ascii("irc") then 6667
            else if scheme == Ascii("ircs") then 6697
            else 0
  {
    SchemeTexts();
    SchemesDiffer();
    hide Ascii, HTTP, HTTPS, WS, WSS, GEMINI, IRC, IRCS, FTP, FILE;
  }

  lemma SchemeTexts()
    ensures HTTP == Ascii("http") && HTTPS == Ascii("https") && WS == Ascii("ws") && WSS == Ascii("wss")
    ensures GEMINI == Ascii("gemini") && IRC == Ascii("irc") && IRCS == Ascii("ircs")
    ensures FTP == Ascii("ftp") && FILE == Ascii("file")
  {
  }

  lemma SchemesDiffer()
    ensures |HTTP| == |IRCS| == 4 && |HTTPS| == 5 && |WS| == 2 && |WSS| == |IRC| == 3 && |GEMINI| == 6
    ensures HTTP[0] != IRCS[0] && WSS[0] != IRC[0]
  {
  }

  /** The other names, and the delimiters, that the parser compares with. */
  lemma NamedTexts()
    ensures LOCALHOST == Ascii("localhost") && DATA_PREFIX == Ascii("data:")
    ensures [SLASH, BACKSLASH, COLON, QUESTION, HASH, AT, BAR, OPEN_BRACKET, CLOSE_BRACKET] == Ascii("/\\:?#@|[]")
    ensures END_OF_FILE > 0x10FFFF
  {
  }

  // ---- Numbers ----

  /** The decimal digits of a number. */
  function Decimal(n: nat): (t: Text)
    ensures |t| > 0 && forall i :: 0 <= i < |t| ==> IsDigit(t[i])
  {
    if n < 10 then DigitIs(n); [DIGITS[n] as int]
    else DigitIs(n % 10); Decimal(n / 10) + [DIGITS[n % 10] as int]
  }

  function Zeroes(m: nat): (t: Text)
    ensures |t| == m && forall i :: 0 <= i < m ==> t[i] == '0' as int
  {
    seq(m, i => '0' as int)
  }

  lemma {:induction false} ZeroesCountNothing(m: nat, t: Text)
    ensures UintOf(Zeroes(m) + t) == UintOf(t)
    decreases m + |t|
  {
    var s := Zeroes(m) + t;
    if |t| > 0 {
      assert s[..|s| - 1] == Zeroes(m) + t[..|t| - 1];
      ZeroesCountNothing(m, t[..|t| - 1]);
    } else if m > 0 {
      assert s[..|s| - 1] == Zeroes(m - 1) + t;
      ZeroesCountNothing(m - 1, t);
    } else {
      assert s == t;
    }
  }

  lemma {:induction false} UintOfDecimal(n: nat)
    ensures UintOf(Decimal(n)) == if n < 0x1_0000_0000 then Some(n) else None
  {
    var t := Decimal(n);
    if n < 10 {
      DigitIs(n);
      assert t[..0] == [];
    } else {
      DigitIs(n % 10);
      UintOfDecimal(n / 10);
      assert t[..|t| - 1] == Decimal(n / 10);
    }
  }

  /** A number of 32 bits is read from its decimal digits, any zeroes in front of them included, and no larger one. */
  lemma ToUintOfDecimal(m: nat, n: nat)
    ensures ToUint(Zeroes(m) + Decimal(n)) == if n < 0x1_0000_0000 then Some(n) else None
  {
    ZeroesCountNothing(m, Decimal(n));
    UintOfDecimal(n);
  }

  /** All digits are some number, with zeroes in front. */
  lemma {:induction false} DigitsAreNumber(t: Text) returns (m: nat, n: nat)
    requires |t| > 0 && forall i :: 0 <= i < |t| ==> IsDigit(t[i])
    ensures t == Zeroes(m) + Decimal(n)
  {
    var d: nat := t[|t| - 1] - '0' as int;
    assert t == t[..|t| - 1] + [t[|t| - 1]] && [t[|t| - 1]] == [d + '0' as int];
    if |t| == 1 {
      m, n := 0, d;
      OneDigit(d);
      assert Zeroes(0) + Decimal(d) == Decimal(d);
    } else {
      var m', n' := DigitsAreNumber(t[..|t| - 1]);
      m, n := if n' == 0 then m' + 1 else m', if n' == 0 then d else 10 * n' + d;
      DigitAppended(m', n', d);
    }
  }

  lemma OneDigit(d: nat)
    requires d < 10
    ensures Decimal(d) == [d + '0' as int]
  {
    DigitIs(d);
  }

  lemma OneDigitMore(n: nat, d: nat)
    requires 0 < n && d < 10
    ensures Decimal(10 * n + d) == Decimal(n) + [d + '0' as int]
  {
    DigitIs(d);
    assert (10 * n + d) / 10 == n && (10 * n + d) % 10 == d;
  }

  lemma DigitAppended(m: nat, n: nat, d: nat)
    requires d < 10
    ensures var t := Zeroes(m) + Decimal(n) + [d + '0' as int];
      t == if n == 0 then Zeroes(m + 1) + Decimal(d) else Zeroes(m) + Decimal(10 * n + d)
  {
    OneDigit(0);
    OneDigit(d);
    hide Decimal;
    if n == 0 {
      assert Zeroes(m) + Decimal(0) == Zeroes(m + 1);
    } else {
      OneDigitMore(n, d);
      assert Zeroes(m) + Decimal(n) + [d + '0' as int] == Zeroes(m) + (Decimal(n) + [d + '0' as int]);
    }
  }

  // ---- UTF-8 ----

  predicate IsContinuation(b: byte) {
    0x80 <= b < 0xC0
  }

  /** The first code point of a text and its size, after section 4 of RFC 3629. */
  function FirstDecoded(t: Text): Option<(CodePoint, nat)> {
    if |t| == 0 then None
    else if t[0] < 0x80 then Some((t[0], 1))
    else if 0xC0 <= t[0] < 0xE0 && |t| >= 2 && IsContinuation(t[1]) then
      Some(((t[0] as int - 0xC0) * 64 + (t[1] as int - 0x80), 2))
    else if 0xE0 <= t[0] < 0xF0 && |t| >= 3 && IsContinuation(t[1]) && IsContinuation(t[2]) then
      Some(((t[0] as int - 0xE0) * 4096 + (t[1] as int - 0x80) * 64 + (t[2] as int - 0x80), 3))
    else if 0xF0 <= t[0] < 0xF8 && |t| >= 4 && IsContinuation(t[1]) && IsContinuation(t[2]) && IsContinuation(t[3]) then
      var c := (t[0] as int - 0xF0) * 262144 + (t[1] as int - 0x80) * 4096 + (t[2] as int - 0x80) * 64
               + (t[3] as int - 0x80);
      if c <= 0x10FFFF then Some((c, 4)) else None
    else None
  }

  function Decoded(t: Text): (s: Option<seq<CodePoint>>)
    decreases |t|
  {
    if |t| == 0 then Some([])
    else
      var first := FirstDecoded(t);
      if first.None? || !(0 < first.value.1 <= |t|) then None
      else
        var rest := Decoded(t[first.value.1..]);
        if rest.None? then None else Some([first.value.0] + rest.value)
  }

  lemma Divided(c: nat)
    ensures c == c / 64 * 64 + c % 64 && c / 64 == c / 4096 * 64 + c / 64 % 64
    ensures c / 4096 == c / 262144 * 64 + c / 4096 % 64
  {
    assert c / 4096 == c / 64 / 64 && c / 262144 == c / 4096 / 64;
  }

  lemma FirstIsDecoded(c: CodePoint, rest: Text)
    ensures FirstDecoded(Utf8(c) + rest) == Some((c, |Utf8(c)|))
  {
    Divided(c);
    var t := Utf8(c);
    assert |t| <= |t + rest| && forall i :: 0 <= i < |t| ==> (t + rest)[i] == t[i];
  }

  /** What is encoded is decoded again, so that different inputs have different texts. */
  lemma {:induction false} EncodeIsDecoded(s: seq<CodePoint>)
    ensures Decoded(Encode(s)) == Some(s)
  {
    hide FirstDecoded, Utf8;
    if |s| > 0 {
      var first, rest := s[0], s[1..];
      assert [first] + rest == s;
      EncodeConcat([first], rest);
      assert [first][..0] == [] && Encode([first]) == Utf8(first);
      hide Encode;
      FirstIsDecoded(first, Encode(rest));
      assert (Utf8(first) + Encode(rest))[|Utf8(first)|..] == Encode(rest);
      EncodeIsDecoded(rest);
    }
  }

  // ---- Dot segments ----

  /** The ways to write a dot. */
  function Dots(): set<Text> {
    {Ascii("."), Ascii("%2e"), Ascii("%2E")}
  }

  lemma DotLowered(t: Text)
    ensures t in Dots() <==> Lowercased(t) == DOT || Lowercased(t) == ENCODED_DOT
    ensures Lowercased(t) == DOT <==> t == DOT
  {
    var l := Lowercased(t);
    assert |l| == |t| && forall i :: 0 <= i < |t| ==> l[i] == ToLower(t[i]);
    assert t == Ascii("%2e") || t == Ascii("%2E") <==>
      |t| == 3 && t[0] == '%' as int && t[1] == '2' as int && (t[2] == 'e' as int || t[2] == 'E' as int);
    assert t == Ascii(".") <==> |t| == 1 && t[0] == '.' as int;
  }

  lemma SingleDotIs(t: Text)
    ensures IsSingleDotPathSegment(t) <==> t in Dots()
  {
    DotLowered(t);
  }

  lemma LoweredParts(a: Text, b: Text)
    ensures Lowercased(a + b) == Lowercased(a) + Lowercased(b)
  {
  }

  /** A double dot is two dots, each written in any way. */
  lemma DoubleDotIs(t: Text)
    ensures IsDoubleDotPathSegment(t) <==> exists a, b :: a in Dots() && b in Dots() && t == a + b
  {
    forall a, b | a in Dots() && b in Dots() && t == a + b ensures IsDoubleDotPathSegment(t) {
      DotLowered(a);
      DotLowered(b);
      LoweredParts(a, b);
    }
    if IsDoubleDotPathSegment(t) {
      DotsParted(t, if t == DOT + DOT || Lowercased(t) == DOT + ENCODED_DOT then 1 else 3);
    }
  }

  lemma DotsParted(t: Text, n: nat)
    requires IsDoubleDotPathSegment(t)
    requires n == if t == DOT + DOT || Lowercased(t) == DOT + ENCODED_DOT then 1 else 3
    ensures n <= |t| && t[..n] in Dots() && t[n..] in Dots() && t == t[..n] + t[n..]
  {
    assert |Lowercased(t)| == |t| && t == t[..n] + t[n..];
    LoweredParts(t[..n], t[n..]);
    DotLowered(t[..n]);
    DotLowered(t[n..]);
    assert Lowercased(t)[..n] == Lowercased(t[..n]) && Lowercased(t)[n..] == Lowercased(t[n..]);
    assert (DOT + ENCODED_DOT)[..1] == DOT && (DOT + ENCODED_DOT)[1..] == ENCODED_DOT;
    assert (ENCODED_DOT + DOT)[..3] == ENCODED_DOT && (ENCODED_DOT + DOT)[3..] == DOT;
    assert (ENCODED_DOT + ENCODED_DOT)[..3] == ENCODED_DOT == (ENCODED_DOT + ENCODED_DOT)[3..];
    assert (DOT + DOT)[..1] == DOT == (DOT + DOT)[1..];
  }

  // ---- Drive letters ----

  /** A letter and a colon, or also a bar if the drive letter is not normalized. */
  lemma DriveLetterIs(t: Text)
    ensures IsWindowsDriveLetter(t) <==>
      |t| == 2 && (t[0] as char in UPPER || t[0] as char in LOWER) && t[1] as char in ":|"
    ensures IsNormalizedWindowsDriveLetter(t) <==>
      |t| == 2 && (t[0] as char in UPPER || t[0] as char in LOWER) && t[1] == ':' as int
  {
    if |t| == 2 {
      CharacterClasses(t[0] as char);
    }
    hide IsAlpha, UPPER, LOWER;
  }

  // ---- Hosts ----

  /** What no host may have in it, without the percent sign. */
  const NOT_IN_HOSTS: string := "\0\t\n\r #/:<>?@[\\]^|"

  lemma ForbiddenIs(c: byte)
    ensures c in FORBIDDEN_EXCLUDING_PERCENT <==> c as char in NOT_IN_HOSTS
    ensures c in FORBIDDEN <==> c as char in NOT_IN_HOSTS || c as char == '%'
  {
  }

  predicate HasAnyOf(t: Text, characters: string) {
    exists i :: 0 <= i < |t| && t[i] as char in characters
  }

  lemma FreeIs(t: Text)
    ensures FreeOf(t, FORBIDDEN_EXCLUDING_PERCENT) <==> !HasAnyOf(t, NOT_IN_HOSTS)
    ensures FreeOf(t, FORBIDDEN) <==> !HasAnyOf(t, NOT_IN_HOSTS + "%")
  {
    forall i | 0 <= i < |t|
      ensures t[i] in FORBIDDEN_EXCLUDING_PERCENT <==> t[i] as char in NOT_IN_HOSTS
      ensures t[i] in FORBIDDEN <==> t[i] as char in NOT_IN_HOSTS + "%"
    {
      ForbiddenIs(t[i]);
      hide FORBIDDEN, FORBIDDEN_EXCLUDING_PERCENT, NOT_IN_HOSTS;
    }
    hide FORBIDDEN, FORBIDDEN_EXCLUDING_PERCENT, NOT_IN_HOSTS;
  }

  /** A host without brackets is taken exactly if none of these characters is in it, after decoding if it is special. */
  lemma HostIsTakenExactly(k: Coding, t: Text)
    requires |t| > 0 ==> t[0] != OPEN_BRACKET
    ensures ParseHost(k, t, true) == if HasAnyOf(t, NOT_IN_HOSTS) then NoHost else Host(k.encodeHost(t))
    ensures |t| > 0 ==>
      ParseHost(k, t, false) == if HasAnyOf(k.decode(t), NOT_IN_HOSTS + "%") then NoHost else Host(k.decode(t))
  {
    FreeIs(t);
    FreeIs(k.decode(t));
    hide FORBIDDEN, FORBIDDEN_EXCLUDING_PERCENT, NOT_IN_HOSTS, FreeOf, HasAnyOf;
  }
}
