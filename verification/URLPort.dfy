/** Which port comes out of a number behind the host. */
module UrlPorts {
  import opened CommonTypes
  import opened Urls
  import opened UrlParsers
  import opened UrlMeaning
  import opened UrlAuthorities
  import opened UrlTexts

  /** A host that brackets and colons play no part in. */
  predicate IsBareHost(h: seq<CodePoint>) {
    COLON !in h && OPEN_BRACKET !in h && CLOSE_BRACKET !in h
  }

  lemma {:induction false} BareHostEnds(h: seq<CodePoint>, port: seq<CodePoint>)
    requires IsBareHost(h)
    ensures HostLength(h + ([COLON] + port), false) == |h|
  {
    var a := h + ([COLON] + port);
    if |h| > 0 {
      assert h[0] in h && forall c :: c in h[1..] ==> c in h;
      assert a[1..] == h[1..] + ([COLON] + port);
      BareHostEnds(h[1..], port);
    }
  }

  lemma HostAndPort(h: seq<CodePoint>, port: seq<CodePoint>)
    requires IsBareHost(h)
    ensures var a := h + ([COLON] + port);
      HostPart(a) == h && PortPart(a) == Some(port) && Unbracketed(HostPart(a)) == h
  {
    BareHostEnds(h, port);
    NothingBracketed(h);
    var a := h + ([COLON] + port);
    assert a[..|h|] == h && a[|h| + 1..] == port;
  }

  /** A number in decimal digits, with any zeroes in front. */
  function Number(m: nat, n: nat): (t: seq<CodePoint>)
    ensures |t| > 0 && forall i :: 0 <= i < |t| ==> IsDigit(t[i])
  {
    Zeroes(m) + Decimal(n)
  }

  lemma NumberIsRead(m: nat, n: nat)
    ensures ToUint(Encode(Number(m, n))) == if n < 0x1_0000_0000 then Some(n) else None
  {
    AsciiIsEncoded(Number(m, n));
    ToUintOfDecimal(m, n);
  }

  /** The port that a number stands for: none if it is the default one, and at most 65535. */
  lemma NumberIsJudged(scheme: Text, m: nat, n: nat)
    ensures PortIsAccepted(Some(Number(m, n))) <==> n <= 65535
    ensures n <= 65535 ==>
      PortOf(scheme, Some(Number(m, n))) == if n == DefaultPortForScheme(scheme) then None else Some(n)
  {
    NumberIsRead(m, n);
    hide Encode, Number, ToUint, DefaultPortForScheme;
  }

  /** Every part of a written URL, as it comes out. */
  function FromParts(k: Coding, scheme: Text, host: Text, port: Option<nat>, x: HierPart): Url {
    Url(true, scheme, None, None, Some(host), port,
        Walked(k, false, [], if |x.segments| == 0 && IsSpecialScheme(scheme) then [[]] else x.segments),
        if x.query.None? then None else Some(k.encodeQuery(Encode(x.query.value), IsSpecialScheme(scheme))),
        if x.fragment.None? then None else Some(k.decode(Encode(x.fragment.value))), false)
  }

  lemma PartsComeOut(k: Coding, scheme: Text, host: Text, x: HierPart)
    requires scheme != FILE
    ensures UrlOf(k, scheme, host, x) == FromParts(k, scheme, host, PortOf(scheme, PortPart(x.authority)), x)
  {
    hide IsSpecialScheme, Walked, Encode, PortOf, PortPart;
  }

  /** What an authority stands for by its host and its port. */
  lemma AuthorityMeans(k: Coding, scheme: Text, x: HierPart, h: seq<CodePoint>, p: seq<CodePoint>, port: Option<nat>)
    requires scheme != FILE && |x.authority| > 0 && HostPart(x.authority) == h && PortPart(x.authority) == Some(p)
    requires Unbracketed(h) == h
    requires PortIsAccepted(Some(p)) ==> PortOf(scheme, Some(p)) == port
    ensures var host := ParseHost(k, Encode(h), !IsSpecialScheme(scheme));
      Meaning(k, scheme, x)
      == if |h| > 0 && host.Host? && PortIsAccepted(Some(p)) then Parsed(FromParts(k, scheme, host.host, port, x))
         else NotAUrl
  {
    EncodedPort(h);
    var host := ParseHost(k, Encode(h), !IsSpecialScheme(scheme));
    hide IsSpecialScheme, ParseHost, Encode, HostPart, PortPart, Unbracketed, FromParts, UrlOf, PortIsAccepted, PortOf;
    if host.Host? {
      PartsComeOut(k, scheme, host.host, x);
    }
  }

  lemma NumberMeans(k: Coding, scheme: Text, x: HierPart, h: seq<CodePoint>, m: nat, n: nat)
    requires IsBareHost(h) && x.authority == h + ([COLON] + Number(m, n)) && scheme != FILE
    ensures var host := ParseHost(k, Encode(h), !IsSpecialScheme(scheme));
      var port := if n == DefaultPortForScheme(scheme) then None else Some(n);
      Meaning(k, scheme, x)
      == if |h| > 0 && host.Host? && n <= 65535 then Parsed(FromParts(k, scheme, host.host, port, x)) else NotAUrl
  {
    var port := if n == DefaultPortForScheme(scheme) then None else Some(n);
    HostAndPort(h, Number(m, n));
    NumberIsJudged(scheme, m, n);
    hide *;
    AuthorityMeans(k, scheme, x, h, Number(m, n), port);
  }

  /**
   * A URL written out with a number behind its host is parsed into all its parts: with no port if the number is the
   * default one, with the number if it is any other up to 65535, and not at all if it is larger or the host is refused.
   */
  lemma NumberIsPort(k: Coding, scheme: seq<CodePoint>, x: HierPart, h: seq<CodePoint>, m: nat, n: nat,
                     base: Option<Url>)
    requires SchemeIsWritten(scheme) && IsHierPart(IsSpecialScheme(LoweredAscii(scheme)), x)
    requires IsBareHost(h) && x.authority == h + ([COLON] + Number(m, n))
    ensures Inv(Written(scheme, x), base, START)
    ensures var lowered := LoweredAscii(scheme);
      var host := ParseHost(k, Encode(h), !IsSpecialScheme(lowered));
      var port := if n == DefaultPortForScheme(lowered) then None else Some(n);
      Run(k, Written(scheme, x), base, START)
      == if |h| > 0 && host.Host? && n <= 65535 then Parsed(FromParts(k, lowered, host.host, port, x)) else NotAUrl
  {
    hide Run, Inv, IsSpecialScheme, IsHierPart, Written, Meaning, FromParts, Encode, ParseHost, DefaultPortForScheme;
    hide Number;
    WrittenIsParsed(k, scheme, x, base);
    NumberMeans(k, LoweredAscii(scheme), x, h, m, n);
  }
}
