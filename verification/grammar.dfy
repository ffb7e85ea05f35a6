/** The patterns of uri-validate.js, one constant per pattern variable and in
    the same order, each composed from the earlier ones exactly as the
    JavaScript concatenates its strings. Most follow Appendix A of RFC 3986;
    the scheme-specific ones follow sections 2.7.1-2.7.2 of RFC 7230 (http,
    https), section 3 of RFC 6455 (ws, wss), section 2 of RFC 6068 (mailto),
    section 3 of RFC 2397 with section 5.1 of RFC 2045 (data), RFC 4266
    (gopher) and draft-kerwin-file-scheme-13 (file). Where the JavaScript
    departs from the ABNF it transliterates, the constant keeps the
    JavaScript's meaning and says so. */
module Grammar {

  import opened Regex

  //// basics

  const DIGIT := Range('0', '9')
  const ALPHA := Alt(Range('A', 'Z'), Range('a', 'z'))
  const HEXDIG := Alt(DIGIT, Alt(Range('A', 'F'), Range('a', 'f')))
  const DQUOTE := Lit("\"")

  /** Written `"%%" + HEXDIG + HEXDIG`: TWO literal percent signs, where
      section 2.1 of RFC 3986 has one. */
  const PctEncoded := Cat(Lit("%%"), Cat(HEXDIG, HEXDIG))

  const Unreserved := Alt(ALPHA, Alt(DIGIT, OneOf("-._~")))
  const GenDelims := OneOf(":/?#[]@")
  const SubDelims := OneOf("!$&'()*+,;=")
  const Pchar := Alt(Unreserved, Alt(PctEncoded, Alt(SubDelims, OneOf(":@"))))
  const Reserved := Alt(GenDelims, SubDelims)

  //// scheme

  const Scheme := Cat(ALPHA, Star(Alt(ALPHA, Alt(DIGIT, OneOf("+-.")))))

  //// authority

  const DecOctet :=
    Alt(DIGIT,
    Alt(Cat(Range('1', '9'), DIGIT),
    Alt(Cat(Lit("1"), Rep(DIGIT, 2)),
    Alt(Cat(Lit("2"), Cat(Range('0', '4'), DIGIT)),
        Cat(Lit("25"), Range('0', '5'))))))

  const IPv4Address :=
    Cat(DecOctet, Cat(Lit("."), Cat(DecOctet, Cat(Lit("."), Cat(DecOctet, Cat(Lit("."), DecOctet))))))

  const H16 := RepRange(HEXDIG, 1, 4)

  const LS32 := Alt(Cat(H16, Cat(Lit(":"), H16)), IPv4Address)

  /** `(?:h16:)`, the repeated unit of the IPv6 forms. */
  const H16Colon := Cat(H16, Lit(":"))

  /** `(?:(?:h16:){0,n}h16)?`, the optional pieces before a "::". */
  function PiecesBefore(n: nat): Re {
    Opt(Cat(RepRange(H16Colon, 0, n), H16))
  }

  // The nine alternatives of the IPv6address rule of section 3.2.2 of RFC 3986.
  const IPv6Form1 := Cat(Rep(H16Colon, 6), LS32)
  const IPv6Form2 := Cat(Lit("::"), Cat(Rep(H16Colon, 5), LS32))
  const IPv6Form3 := Cat(Opt(H16), Cat(Lit("::"), Cat(Rep(H16Colon, 4), LS32)))
  const IPv6Form4 := Cat(PiecesBefore(1), Cat(Lit("::"), Cat(Rep(H16Colon, 3), LS32)))
  const IPv6Form5 := Cat(PiecesBefore(2), Cat(Lit("::"), Cat(Rep(H16Colon, 2), LS32)))
  const IPv6Form6 := Cat(PiecesBefore(3), Cat(Lit("::"), Cat(H16, Cat(Lit(":"), LS32))))
  const IPv6Form7 := Cat(PiecesBefore(4), Cat(Lit("::"), LS32))
  const IPv6Form8 := Cat(PiecesBefore(5), Cat(Lit("::"), H16))
  const IPv6Form9 := Cat(PiecesBefore(6), Lit("::"))

  const IPv6Address :=
    Alt(IPv6Form1, Alt(IPv6Form2, Alt(IPv6Form3, Alt(IPv6Form4, Alt(IPv6Form5,
    Alt(IPv6Form6, Alt(IPv6Form7, Alt(IPv6Form8, IPv6Form9))))))))

  const IPvFuture :=
    Cat(Lit("v"), Cat(Plus(HEXDIG), Cat(Lit("."), Plus(Alt(Unreserved, Alt(SubDelims, Lit(":")))))))

  const IPLiteral := Cat(Lit("["), Cat(Alt(IPv6Address, IPvFuture), Lit("]")))

  const RegName := Star(Alt(Unreserved, Alt(PctEncoded, SubDelims)))

  const Userinfo := Star(Alt(Unreserved, Alt(PctEncoded, Alt(SubDelims, Lit(":")))))

  const Host := Alt(IPLiteral, Alt(IPv4Address, RegName))

  /** `*DIGIT`: any run of digits, the empty run included, of any magnitude. */
  const Port := Star(DIGIT)

  const Authority := Cat(Opt(Cat(Userinfo, Lit("@"))), Cat(Host, Opt(Cat(Lit(":"), Port))))

  //// path

  const Segment := Star(Pchar)
  const SegmentNz := Plus(Pchar)
  const SegmentNzNc := Plus(Alt(Unreserved, Alt(PctEncoded, Alt(SubDelims, Lit("@")))))

  /** `*( "/" segment )` */
  const SlashSegments := Star(Cat(Lit("/"), Segment))

  const PathAbempty := SlashSegments
  const PathAbsolute := Cat(Lit("/"), Opt(Cat(SegmentNz, SlashSegments)))
  const PathNoscheme := Cat(SegmentNzNc, SlashSegments)
  const PathRootless := Cat(SegmentNz, SlashSegments)
  const PathEmpty := Eps
  const Path := Alt(PathAbempty, Alt(PathAbsolute, Alt(PathNoscheme, Alt(PathRootless, PathEmpty))))

  //// query and fragment

  const Query := Star(Alt(Pchar, OneOf("/?")))
  const Fragment := Star(Alt(Pchar, OneOf("/?")))

  /** `(?:\?query)?` and `(?:#fragment)?` */
  const OptQuery := Opt(Cat(Lit("?"), Query))
  const OptFragment := Opt(Cat(Lit("#"), Fragment))

  //// URIs

  const HierPart :=
    Alt(Cat(Lit("//"), Cat(Authority, PathAbempty)), Alt(PathAbsolute, Alt(PathRootless, PathEmpty)))

  const RelativePart :=
    Alt(Cat(Lit("//"), Cat(Authority, PathAbempty)), Alt(PathAbsolute, Alt(PathNoscheme, PathEmpty)))

  const RelativeRef := Cat(RelativePart, Cat(OptQuery, OptFragment))

  const URI := Cat(Scheme, Cat(Lit(":"), Cat(HierPart, Cat(OptQuery, OptFragment))))

  const URIReference := Alt(URI, RelativeRef)

  const AbsoluteURI := Cat(Scheme, Cat(Lit(":"), Cat(HierPart, OptQuery)))

  //// http, https

  const HttpURI := Cat(Lit("http://"), Cat(Authority, Cat(PathAbempty, Cat(OptQuery, OptFragment))))
  const HttpsURI := Cat(Lit("https://"), Cat(Authority, Cat(PathAbempty, Cat(OptQuery, OptFragment))))

  //// ws, wss

  const WsURI := Cat(Lit("ws://"), Cat(Host, Cat(Opt(Cat(Lit(":"), Port)), Cat(Path, OptQuery))))
  const WssURI := Cat(Lit("wss://"), Cat(Host, Cat(Opt(Cat(Lit(":"), Port)), Cat(Path, OptQuery))))

  //// mailto

  /** Written `\*\+` with no `|` between: the two-character sequence "*+"
      stands where the ABNF has the two characters "*" and "+". */
  const SomeDelims := Alt(OneOf("!$'()"), Alt(Lit("*+"), OneOf(",;:@")))

  const Qchar := Alt(Unreserved, Alt(PctEncoded, SomeDelims))

  /** Written `[!-[^-~]`: the ranges `!`-`[` and `^`-`~`, so "[" is admitted. */
  const DtextNoObs := Alt(Range('!', '['), Range('^', '~'))

  /** The percent sign appears doubled here too. */
  const Atext :=
    Alt(ALPHA, Alt(DIGIT, Alt(OneOf("!#$"), Alt(Lit("%%"), OneOf("&'*+-/=?^_`{|}~")))))

  /** The separator is an unescaped `.`, matching any code unit but a line
      terminator. */
  const DotAtomText := Cat(Plus(Atext), Star(Cat(AnyChar, Plus(Atext))))

  /** qcontent, FWS and CFWS are all the empty pattern. */
  const Qcontent := Eps
  const FWS := Eps
  const CFWS := Eps

  /** With the empty stubs this is exactly two double quotes. */
  const QuotedString :=
    Cat(Opt(CFWS), Cat(DQUOTE, Cat(Star(Cat(Opt(FWS), Qcontent)), Cat(Opt(FWS), Cat(DQUOTE, Opt(CFWS))))))

  const Domain := Alt(DotAtomText, Cat(Lit("["), Cat(Star(DtextNoObs), Lit("]"))))
  const LocalPart := Alt(DotAtomText, QuotedString)
  const AddrSpec := Cat(LocalPart, Cat(Lit("@"), Domain))
  const Hfvalue := Star(Qchar)
  const Hfname := Star(Qchar)
  const Hfield := Cat(Hfname, Cat(Lit("="), Hfvalue))
  const To := Cat(AddrSpec, Star(Cat(Lit(","), AddrSpec)))
  const Hfields := Cat(Lit("?"), Cat(Hfield, Star(Cat(Lit("&"), Hfield))))
  const MailtoURI := Cat(Lit("mailto:"), Cat(Opt(To), Opt(Hfields)))

  //// data

  /** Written `[0-z]+`: one or more code units from "0" to "z", a range that
      also holds ":;<=>?@[\]^_`". */
  const Token := Plus(Range('0', 'z'))
  const IetfToken := Token
  const IanaTokens := Token
  const XToken := Cat(OneOf("xX"), Cat(Lit("-"), Token))
  const ExtensionToken := Alt(IetfToken, XToken)
  const DiscreteType :=
    Alt(Lit("text"), Alt(Lit("image"), Alt(Lit("audio"), Alt(Lit("video"), Alt(Lit("application"), ExtensionToken)))))
  const CompositeType := Alt(Lit("message"), Alt(Lit("multipart"), ExtensionToken))
  const MediaTypeName := Alt(DiscreteType, CompositeType)
  const Subtype := Alt(ExtensionToken, IanaTokens)

  /** The RFC 2045 quoted-string is the empty pattern. */
  const MimeQuotedString := Eps
  const Attribute := Token
  const Value := Alt(Token, MimeQuotedString)
  const Parameter := Cat(Attribute, Cat(Lit("="), Value))
  const Mediatype := Cat(Opt(Cat(MediaTypeName, Cat(Lit("/"), Subtype))), Star(Cat(Lit(";"), Parameter)))
  const Uric := Alt(Reserved, Alt(Unreserved, PctEncoded))
  const Data := Star(Uric)
  const DataURI := Cat(Lit("data:"), Cat(Opt(Mediatype), Cat(Opt(Lit(";base64")), Cat(Lit(","), Data))))

  //// gopher

  /** A literal ":" is demanded after the host, the port digits may be none. */
  const GopherPath := Path
  const GopherURI := Cat(Lit("gopher://"), Cat(Host, Cat(Lit(":"), Cat(Port, Cat(Lit("/"), GopherPath)))))

  //// file

  const FScheme := Lit("file")
  const FAuth := Cat(Opt(Cat(Userinfo, Lit("@"))), Host)
  const UncPath := Cat(RepRange(Lit("/"), 2, 3), Cat(Authority, PathAbsolute))
  const DriveMarker := OneOf(":|")
  const DriveLetter := Cat(ALPHA, Opt(DriveMarker))
  const WindowsPath := Cat(DriveLetter, PathAbsolute)
  const LocalPath := Alt(PathAbsolute, WindowsPath)
  const AuthPath := Alt(Cat(Opt(FAuth), PathAbsolute), Alt(UncPath, WindowsPath))
  const FHierPart := Alt(Cat(Lit("//"), AuthPath), LocalPath)
  const FileURI := Cat(FScheme, Cat(Lit(":"), Cat(FHierPart, OptQuery)))
}
