/** `uri_validate` (uri-validate.js:472-482) and the table of the eight
    scheme-specific grammars it consults (461-470). */
module Validate {

  import opened Wrappers
  import opened Text
  import opened Regex
  import opened Grammar

  /** The names the table files a grammar under. */
  const KNOWN_SCHEMES: set<Str> :=
    {U("http"), U("https"), U("ws"), U("wss"), U("mailto"), U("data"), U("gopher"), U("file")}

  /** The `known` table: the grammar of each of the eight schemes, looked up
      by name. Only the eight own entries are modelled. */
  function Known(name: Str): (r: Option<Re>)
    ensures r.Some? <==> name in KNOWN_SCHEMES
    ensures r.Some? ==> 2 <= |name| <= 6 && forall i :: 0 <= i < |name| ==> IsLowerAlpha(name[i])
  {
    LitIsText("http", name);
    LitIsText("https", name);
    LitIsText("ws", name);
    LitIsText("wss", name);
    LitIsText("mailto", name);
    LitIsText("data", name);
    LitIsText("gopher", name);
    LitIsText("file", name);
    if LitMatches("http", name) then Some(HttpURI)
    else if LitMatches("https", name) then Some(HttpsURI)
    else if LitMatches("ws", name) then Some(WsURI)
    else if LitMatches("wss", name) then Some(WssURI)
    else if LitMatches("mailto", name) then Some(MailtoURI)
    else if LitMatches("data", name) then Some(DataURI)
    else if LitMatches("gopher", name) then Some(GopherURI)
    else if LitMatches("file", name) then Some(FileURI)
    else None
  }

  /** The test `^g($|#fragment)`: a prefix of `s` is in `g`, and it is either
      all of `s` or followed by "#" and a (possibly empty) fragment. Nothing
      anchors the end after the fragment. */
  predicate GrammarThenFragment(g: Re, s: Str) {
    exists i :: 0 <= i <= |s| && Matches(g, s[..i]) &&
      (i == |s| || (s[i] == HASH && PrefixMatches(Fragment, s[i + 1..])))
  }

  /** Some prefix of `t` is in `r`: an unanchored end. */
  predicate PrefixMatches(r: Re, t: Str) {
    exists j :: 0 <= j <= |t| && Matches(r, t[..j])
  }

  /** The four steps: not a URI-reference is false; no ":" is true; an
      unknown scheme is true; a known scheme defers to its grammar. The
      scheme is the text before the first ":", lower-cased. */
  function UriValidate(s: Str): (ok: bool)
    ensures ok ==> Matches(URIReference, s)
    ensures Matches(URIReference, s) && (forall i :: 0 <= i < |s| ==> s[i] != COLON) ==> ok
  {
    if !Matches(URIReference, s) then false
    else match IndexOf(s, COLON)
      case None => true
      case Some(k) =>
        match Known(ToLowerAscii(s[..k]))
        case None => true
        case Some(g) => GrammarThenFragment(g, s)
  }

  //// The fragment part of the scheme test is vacuous

  /** Because the fragment pattern matches the empty string, the scheme test
      only asks what follows the grammar's match: the end or a "#". */
  lemma FragmentTail(g: Re, s: Str)
    ensures GrammarThenFragment(g, s) <==>
      exists i :: 0 <= i <= |s| && Matches(g, s[..i]) && (i == |s| || s[i] == HASH)
  {
    if i :| 0 <= i <= |s| && Matches(g, s[..i]) && (i == |s| || s[i] == HASH) {
      if i < |s| {
        assert Matches(Fragment, s[i + 1..][..0]);
      }
    }
  }

  /** The decision for a URI-reference with a known scheme. */
  lemma KnownSchemeDecision(s: Str, k: nat, g: Re)
    requires Matches(URIReference, s)
    requires IndexOf(s, COLON) == Some(k)
    requires Known(ToLowerAscii(s[..k])) == Some(g)
    ensures UriValidate(s) <==>
      exists i :: 0 <= i <= |s| && Matches(g, s[..i]) && (i == |s| || s[i] == HASH)
  {
    FragmentTail(g, s);
  }

  /** A URI-reference whose lower-cased scheme is not in the table is valid. */
  lemma UnknownSchemeAccepted(s: Str, k: nat)
    requires Matches(URIReference, s)
    requires IndexOf(s, COLON) == Some(k)
    requires Known(ToLowerAscii(s[..k])).None?
    ensures UriValidate(s)
  {
  }

  //// Every known grammar spells its scheme in lower case

  /** A pattern that starts with the literal `p` only matches text starting
      with `p`. */
  lemma LitHead(p: string, r: Re, t: Str)
    requires Matches(Cat(Lit(p), r), t)
    ensures |p| <= |t| && forall j :: 0 <= j < |p| ==> t[j] == p[j] as int
  {
    var x, y := CatParts(Lit(p), r, t);
    assert forall j :: 0 <= j < |p| ==> t[j] == x[j];
  }

  /** Every match of the grammar filed under `name` begins with `name` and a
      ":". */
  lemma KnownPrefix(name: Str, g: Re, t: Str)
    requires Known(name) == Some(g) && Matches(g, t)
    ensures StartsWithScheme(name, t)
  {
    if LitMatches("http", name) {
      HttpHead(name, t);
    } else if LitMatches("https", name) {
      HttpsHead(name, t);
    } else if LitMatches("ws", name) {
      WsHead(name, t);
    } else if LitMatches("wss", name) {
      WssHead(name, t);
    } else if LitMatches("mailto", name) {
      MailtoHead(name, t);
    } else if LitMatches("data", name) {
      DataHead(name, t);
    } else if LitMatches("gopher", name) {
      GopherHead(name, t);
    } else {
      FileHead(name, t);
    }
  }

  lemma HttpHead(name: Str, t: Str)
    requires LitMatches("http", name) && Matches(HttpURI, t)
    ensures StartsWithScheme(name, t)
  {
    SchemeHead("http://", name, Cat(Authority, Cat(PathAbempty, Cat(OptQuery, OptFragment))), t);
  }

  lemma HttpsHead(name: Str, t: Str)
    requires LitMatches("https", name) && Matches(HttpsURI, t)
    ensures StartsWithScheme(name, t)
  {
    SchemeHead("https://", name, Cat(Authority, Cat(PathAbempty, Cat(OptQuery, OptFragment))), t);
  }

  lemma WsHead(name: Str, t: Str)
    requires LitMatches("ws", name) && Matches(WsURI, t)
    ensures StartsWithScheme(name, t)
  {
    SchemeHead("ws://", name, Cat(Host, Cat(Opt(Cat(Lit(":"), Port)), Cat(Path, OptQuery))), t);
  }

  lemma WssHead(name: Str, t: Str)
    requires LitMatches("wss", name) && Matches(WssURI, t)
    ensures StartsWithScheme(name, t)
  {
    SchemeHead("wss://", name, Cat(Host, Cat(Opt(Cat(Lit(":"), Port)), Cat(Path, OptQuery))), t);
  }

  lemma MailtoHead(name: Str, t: Str)
    requires LitMatches("mailto", name) && Matches(MailtoURI, t)
    ensures StartsWithScheme(name, t)
  {
    SchemeHead("mailto:", name, Cat(Opt(To), Opt(Hfields)), t);
  }

  lemma DataHead(name: Str, t: Str)
    requires LitMatches("data", name) && Matches(DataURI, t)
    ensures StartsWithScheme(name, t)
  {
    SchemeHead("data:", name, Cat(Opt(Mediatype), Cat(Opt(Lit(";base64")), Cat(Lit(","), Data))), t);
  }

  lemma GopherHead(name: Str, t: Str)
    requires LitMatches("gopher", name) && Matches(GopherURI, t)
    ensures StartsWithScheme(name, t)
  {
    SchemeHead("gopher://", name, Cat(Host, Cat(Lit(":"), Cat(Port, Cat(Lit("/"), GopherPath)))), t);
  }

  /** The file grammar writes its scheme and its ":" as two literals. */
  lemma FileHead(name: Str, t: Str)
    requires LitMatches("file", name) && Matches(FileURI, t)
    ensures StartsWithScheme(name, t)
  {
    var x, y := CatParts(FScheme, Cat(Lit(":"), Cat(FHierPart, OptQuery)), t);
    LitHead(":", Cat(FHierPart, OptQuery), y);
    assert forall j :: 0 <= j < 4 ==> t[j] == x[j];
    assert t[4] == y[0];
  }

  /** `t` begins with `name` followed by ":". */
  predicate StartsWithScheme(name: Str, t: Str) {
    |name| < |t| && t[|name|] == COLON && forall j :: 0 <= j < |name| ==> t[j] == name[j]
  }

  /** A pattern that starts with the literal `p`, which spells `name` and
      ":", only matches text starting with `name` and ":". */
  lemma SchemeHead(p: string, name: Str, r: Re, t: Str)
    requires |name| < |p| && p[|name|] == ':'
    requires forall j :: 0 <= j < |name| ==> name[j] == p[j] as int
    requires Matches(Cat(Lit(p), r), t)
    ensures StartsWithScheme(name, t)
  {
    LitHead(p, r, t);
  }

  /** Lower-casing leaves no upper-case letter behind. */
  lemma LowerHasNoUpper(x: Str, j: int)
    requires 0 <= j < |x|
    ensures !IsUpperAlpha(ToLowerAscii(x)[j])
  {
  }

  /** A scheme with an upper-case letter never passes a known grammar, so
      "HTTP://x/y" is refused although its lower-cased scheme is known. */
  lemma UpperCaseSchemeRejected(s: Str, k: nat, j: nat)
    requires IndexOf(s, COLON) == Some(k)
    requires Known(ToLowerAscii(s[..k])).Some?
    requires j < k && IsUpperAlpha(s[j])
    ensures !UriValidate(s)
  {
    if UriValidate(s) {
      var name := ToLowerAscii(s[..k]);
      var g := Known(name).value;
      var i :| 0 <= i <= |s| && Matches(g, s[..i]) &&
        (i == |s| || (s[i] == HASH && PrefixMatches(Fragment, s[i + 1..])));
      KnownPrefix(name, g, s[..i]);
      LowerHasNoUpper(s[..k], j);
      assert false;
    }
  }

  //// Every http URI is accepted

  /** The pieces of an http URI: the literal head, then authority, path and
      the optional query and fragment. */
  lemma HttpParts(s: Str) returns (a: Str, p: Str, tail: Str)
    requires Matches(HttpURI, s)
    ensures s == U("http://") + a + p + tail
    ensures Matches(Authority, a) && Matches(PathAbempty, p) && Matches(Cat(OptQuery, OptFragment), tail)
  {
    var x, y := CatParts(Lit("http://"), Cat(Authority, Cat(PathAbempty, Cat(OptQuery, OptFragment))), s);
    var rest;
    a, rest := CatParts(Authority, Cat(PathAbempty, Cat(OptQuery, OptFragment)), y);
    p, tail := CatParts(PathAbempty, Cat(OptQuery, OptFragment), rest);
    assert x == U("http://");
    Regroup4(x, a, p, tail);
  }

  lemma Regroup4(x: Str, a: Str, p: Str, t: Str)
    ensures x + (a + (p + t)) == x + a + p + t
  {
  }

  /** "http://" + a + p + tail regrouped as scheme, ":" and hier-part. */
  lemma HttpRegroup(s: Str, a: Str, p: Str, tail: Str) returns (scheme: Str, hier: Str)
    requires s == U("http://") + a + p + tail
    ensures scheme == U("http") && hier == U("//") + (a + p)
    ensures s == scheme + ([COLON] + (hier + tail))
  {
    scheme, hier := U("http"), U("//") + (a + p);
    assert U("http://") == U("http") + [COLON] + U("//");
  }

  lemma HttpSchemeName()
    ensures Matches(Scheme, U("http"))
  {
    var s := U("http");
    assert Matches(ALPHA, [s[0]]);
    var r := Alt(ALPHA, Alt(DIGIT, OneOf("+-.")));
    forall i | 0 <= i < |s[1..]| ensures Matches(r, [s[1..][i]]) {
      assert Matches(ALPHA, [s[1..][i]]);
    }
    StarEach(r, s[1..]);
    CatIntro(ALPHA, Star(r), [s[0]], s[1..]);
    assert s == [s[0]] + s[1..];
  }

  /** "//" authority path-abempty is the first hier-part alternative. */
  lemma NetworkHierPart(a: Str, p: Str)
    requires Matches(Authority, a) && Matches(PathAbempty, p)
    ensures Matches(HierPart, U("//") + (a + p))
  {
    CatIntro(Authority, PathAbempty, a, p);
    CatIntro(Lit("//"), Cat(Authority, PathAbempty), U("//"), a + p);
  }

  /** scheme ":" hier-part [ "?" query ] [ "#" fragment ] */
  lemma UriIntro(scheme: Str, hier: Str, tail: Str)
    requires Matches(Scheme, scheme) && Matches(HierPart, hier) && Matches(Cat(OptQuery, OptFragment), tail)
    ensures Matches(URIReference, scheme + ([COLON] + (hier + tail)))
  {
    CatIntro(HierPart, Cat(OptQuery, OptFragment), hier, tail);
    CatIntro(Lit(":"), Cat(HierPart, Cat(OptQuery, OptFragment)), [COLON], hier + tail);
    CatIntro(Scheme, Cat(Lit(":"), Cat(HierPart, Cat(OptQuery, OptFragment))), scheme, [COLON] + (hier + tail));
  }

  /** The http grammar is a special case of the generic URI rule. */
  lemma HttpIsReference(s: Str)
    requires Matches(HttpURI, s)
    ensures Matches(URIReference, s)
  {
    var a, p, tail := HttpParts(s);
    var scheme, hier := HttpRegroup(s, a, p, tail);
    NetworkHierPart(a, p);
    HttpSchemeName();
    UriIntro(scheme, hier, tail);
  }

  /** Every match of the http grammar passes `uri_validate`. */
  lemma HttpAccepted(s: Str)
    requires Matches(HttpURI, s)
    ensures UriValidate(s)
  {
    HttpIsReference(s);
    HttpHead(U("http"), s);
    assert IndexOf(s, COLON) == Some(4);
    assert LitMatches("http", ToLowerAscii(s[..4]));
    assert s[..|s|] == s;
    assert GrammarThenFragment(HttpURI, s);
  }

  //// A URI-reference is ASCII with paired percent signs

  lemma TameChars()
    ensures Tame(ALPHA) && Tame(DIGIT) && Tame(HEXDIG)
  {
  }

  lemma TameUnreserved()
    ensures Tame(Unreserved) && Tame(PctEncoded) && Tame(SubDelims)
  {
    TameChars();
  }

  lemma TamePchar()
    ensures Tame(Pchar)
  {
    TameUnreserved();
  }

  lemma TameSegments()
    ensures Tame(Segment) && Tame(SegmentNz) && Tame(SegmentNzNc) && Tame(SlashSegments)
  {
    TameUnreserved();
    TamePchar();
  }

  lemma TamePaths()
    ensures Tame(PathAbempty) && Tame(PathAbsolute) && Tame(PathNoscheme) && Tame(PathRootless)
  {
    TameSegments();
  }

  lemma TameH16()
    ensures Tame(H16) && Tame(H16Colon)
  {
    TameChars();
    TameRep(HEXDIG, 1);
    TameRep(HEXDIG, 3);
  }

  lemma TameDecOctet()
    ensures Tame(DecOctet)
  {
    TameChars();
    TameRep(DIGIT, 2);
  }

  lemma TameIPv4()
    ensures Tame(IPv4Address)
  {
    TameDecOctet();
  }

  lemma TameLs32()
    ensures Tame(LS32)
  {
    TameH16();
    TameIPv4();
  }

  lemma TameBefore(n: nat)
    ensures Tame(PiecesBefore(n))
  {
    TameH16();
    TameRep(H16Colon, 0);
    TameRep(H16Colon, n);
  }

  /** "::", then `n` pieces with their ":", then ls32. */
  lemma TameAfter(n: nat)
    ensures Tame(Cat(Lit("::"), Cat(Rep(H16Colon, n), LS32)))
  {
    TameLs32();
    TameH16();
    TameRep(H16Colon, n);
  }

  lemma TameForm1()
    ensures Tame(IPv6Form1)
  {
    TameLs32();
    TameH16();
    TameRep(H16Colon, 6);
  }

  lemma TameForm2()
    ensures Tame(IPv6Form2)
  {
    TameAfter(5);
  }

  lemma TameForm3()
    ensures Tame(IPv6Form3)
  {
    TameH16();
    assert Tame(Opt(H16));
    TameAfter(4);
  }

  lemma TameForm4()
    ensures Tame(IPv6Form4)
  {
    TameBefore(1);
    TameAfter(3);
  }

  lemma TameForm5()
    ensures Tame(IPv6Form5)
  {
    TameBefore(2);
    TameAfter(2);
  }

  /** Pieces before "::", "::", then a tame rest. */
  lemma TameBeforeThen(n: nat, r: Re)
    requires Tame(r)
    ensures Tame(Cat(PiecesBefore(n), Cat(Lit("::"), r)))
  {
    TameBefore(n);
  }

  lemma TameForm6()
    ensures Tame(IPv6Form6)
  {
    TameLs32();
    TameH16();
    assert Tame(Cat(H16, Cat(Lit(":"), LS32)));
    TameBeforeThen(3, Cat(H16, Cat(Lit(":"), LS32)));
  }

  lemma TameForm7()
    ensures Tame(IPv6Form7)
  {
    TameLs32();
    TameBeforeThen(4, LS32);
  }

  lemma TameForm8()
    ensures Tame(IPv6Form8)
  {
    TameH16();
    TameBeforeThen(5, H16);
  }

  lemma TameForm9()
    ensures Tame(IPv6Form9)
  {
    TameBefore(6);
    assert Tame(Lit("::"));
    assert Tame(Cat(PiecesBefore(6), Lit("::")));
  }

  lemma TameIPv6()
    ensures Tame(IPv6Address)
  {
    TameForm1();
    TameForm2();
    TameForm3();
    TameForm4();
    TameForm5();
    TameForm6();
    TameForm7();
    TameForm8();
    TameForm9();
    assert Tame(Alt(IPv6Form8, IPv6Form9));
    assert Tame(Alt(IPv6Form7, Alt(IPv6Form8, IPv6Form9)));
    assert Tame(Alt(IPv6Form6, Alt(IPv6Form7, Alt(IPv6Form8, IPv6Form9))));
    assert Tame(Alt(IPv6Form5, Alt(IPv6Form6, Alt(IPv6Form7, Alt(IPv6Form8, IPv6Form9)))));
    assert Tame(Alt(IPv6Form4, Alt(IPv6Form5, Alt(IPv6Form6, Alt(IPv6Form7, Alt(IPv6Form8, IPv6Form9))))));
    assert Tame(Alt(IPv6Form3, Alt(IPv6Form4, Alt(IPv6Form5, Alt(IPv6Form6, Alt(IPv6Form7, Alt(IPv6Form8, IPv6Form9)))))));
    assert Tame(Alt(IPv6Form2, Alt(IPv6Form3, Alt(IPv6Form4, Alt(IPv6Form5, Alt(IPv6Form6, Alt(IPv6Form7, Alt(IPv6Form8, IPv6Form9))))))));
  }

  lemma TameIPvFuture()
    ensures Tame(IPvFuture)
  {
    TameChars();
    TameUnreserved();
  }

  lemma TameIPAddresses()
    ensures Tame(Alt(IPv6Address, IPvFuture))
  {
    TameIPv6();
    TameIPvFuture();
  }

  lemma TameIPLiteral()
    ensures Tame(IPLiteral)
  {
    TameIPAddresses();
    assert Tame(Lit("]"));
    assert Tame(Cat(Alt(IPv6Address, IPvFuture), Lit("]")));
  }

  lemma TameRegName()
    ensures Tame(RegName)
  {
    TameUnreserved();
  }

  lemma TameHost()
    ensures Tame(Host)
  {
    TameIPv4();
    TameRegName();
    assert Tame(Alt(IPv4Address, RegName));
    TameIPLiteral();
  }

  lemma TameUserinfo()
    ensures Tame(Opt(Cat(Userinfo, Lit("@"))))
  {
    TameUnreserved();
    assert Tame(Userinfo);
  }

  lemma TamePort()
    ensures Tame(Opt(Cat(Lit(":"), Port)))
  {
    TameChars();
    assert Tame(Port);
  }

  lemma TameAuthority()
    ensures Tame(Authority)
  {
    TameUserinfo();
    TameHost();
    TamePort();
    assert Tame(Cat(Host, Opt(Cat(Lit(":"), Port))));
  }

  lemma TameParts()
    ensures Tame(OptQuery) && Tame(OptFragment) && Tame(Scheme)
  {
    TameChars();
    TamePchar();
  }

  lemma TameNetworkPath()
    ensures Tame(Cat(Lit("//"), Cat(Authority, PathAbempty)))
  {
    TamePaths();
    TameAuthority();
    assert Tame(Cat(Authority, PathAbempty));
  }

  lemma TameHierPart()
    ensures Tame(HierPart) && Tame(RelativePart)
  {
    TamePaths();
    TameNetworkPath();
    assert Tame(PathEmpty);
    assert Tame(Alt(PathRootless, PathEmpty)) && Tame(Alt(PathNoscheme, PathEmpty));
  }

  lemma TameReference()
    ensures Tame(URIReference)
  {
    TameParts();
    TameHierPart();
    assert Tame(Lit(":"));
    assert Tame(Cat(OptQuery, OptFragment));
    assert Tame(Cat(HierPart, Cat(OptQuery, OptFragment)));
    assert Tame(URI) && Tame(RelativeRef);
  }

  /** Every URI-reference is ASCII, and each "%" in it stands next to
      another: the percent-encoding pattern demands two of them. */
  lemma ReferenceIsAscii(s: Str)
    requires Matches(URIReference, s)
    ensures IsAscii(s) && PercentsPaired(s)
  {
    TameReference();
    TameMatches(URIReference, s);
  }

  /** So a single percent escape such as "%41" makes any string invalid. */
  lemma LonePercentRejected(s: Str, i: nat)
    requires i < |s| && s[i] == PERCENT
    requires i + 1 == |s| || s[i + 1] != PERCENT
    requires i == 0 || s[i - 1] != PERCENT
    ensures !UriValidate(s)
  {
    if Matches(URIReference, s) {
      ReferenceIsAscii(s);
      PairedAt(s, i);
    }
  }

  /** For a URI-reference the lower-casing is exact: the scheme is ASCII. */
  lemma SchemeIsAscii(s: Str, k: nat)
    requires Matches(URIReference, s) && k <= |s|
    ensures IsAscii(s[..k])
  {
    ReferenceIsAscii(s);
  }
}
