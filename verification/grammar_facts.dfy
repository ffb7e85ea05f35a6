/** What the basic patterns of uri-validate.js accept, stated without the
    pattern language: digits, octets, dotted quads, 16-bit pieces, ports and
    the doubled percent escape. */
module GrammarFacts {

  import opened Text
  import opened Regex
  import opened Grammar

  /** `n.toString()` for a natural number: its decimal numeral, with no
      leading zero. */
  function DecimalText(n: nat): (r: Str)
    decreases n
  {
    if n < 10 then ['0' as int + n] else DecimalText(n / 10) + ['0' as int + n % 10]
  }

  /** The dotted-decimal text of four numbers. */
  function Dotted(a: nat, b: nat, c: nat, d: nat): Str {
    DecimalText(a) + [DOT] + DecimalText(b) + [DOT] + DecimalText(c) + [DOT] + DecimalText(d)
  }

  lemma DigitUnit(s: Str)
    ensures IsUnit(DIGIT)
    ensures Matches(DIGIT, s) <==> |s| == 1 && IsDigit(s[0])
  {
  }

  lemma HexdigUnit(s: Str)
    ensures IsUnit(HEXDIG)
    ensures Matches(HEXDIG, s) <==> |s| == 1 && IsHexDigit(s[0])
  {
    var letters := Alt(Range('A', 'F'), Range('a', 'f'));
    assert Matches(HEXDIG, s) <==> Matches(DIGIT, s) || Matches(letters, s);
  }

  /** h16 is one to four hexadecimal digits of either case. */
  lemma H16Digits(s: Str)
    ensures Matches(H16, s) <==> 1 <= |s| <= 4 && AllHex(s)
  {
    HexdigUnit([]);
    RepRangeUnits(HEXDIG, 1, 4, s);
    forall i | 0 <= i < |s| ensures Matches(HEXDIG, [s[i]]) <==> IsHexDigit(s[i]) {
      HexdigUnit([s[i]]);
    }
  }

  /** port is any run of decimal digits, the empty run included, with no
      bound on its value. */
  lemma PortDigits(s: Str)
    ensures Matches(Port, s) <==> forall i :: 0 <= i < |s| ==> IsDigit(s[i])
  {
    DigitUnit([]);
    StarUnits(DIGIT, s);
    forall i | 0 <= i < |s| ensures Matches(DIGIT, [s[i]]) <==> IsDigit(s[i]) {
      DigitUnit([s[i]]);
    }
  }

  /** pct-encoded as written: two percent signs and two hexadecimal digits. */
  lemma PctEncodedShape(s: Str)
    ensures Matches(PctEncoded, s) <==>
      |s| == 4 && s[0] == PERCENT && s[1] == PERCENT && IsHexDigit(s[2]) && IsHexDigit(s[3])
  {
    HexdigUnit([]);
    CatLit("%%", Cat(HEXDIG, HEXDIG), s);
    if |s| >= 2 {
      var t := s[2..];
      CatUnit(HEXDIG, HEXDIG, t);
      HexdigUnit([]);
      if |t| >= 1 {
        HexdigUnit([t[0]]);
        HexdigUnit(t[1..]);
      }
    }
  }

  /** The numerals of the numbers below 1000, digit by digit. */
  lemma DecimalDigits(n: nat)
    ensures n < 10 ==> DecimalText(n) == ['0' as int + n]
    ensures 10 <= n < 100 ==> DecimalText(n) == ['0' as int + n / 10, '0' as int + n % 10]
    ensures 100 <= n < 1000 ==>
      DecimalText(n) == ['0' as int + n / 100, '0' as int + n / 10 % 10, '0' as int + n % 10]
  {
    if n >= 10 {
      assert DecimalText(n) == DecimalText(n / 10) + ['0' as int + n % 10];
      if n >= 100 {
        assert n / 10 / 10 == n / 100;
      }
    }
  }

  // The five alternatives of dec-octet.
  const OctetOneDigit := DIGIT
  const OctetTwoDigits := Cat(Range('1', '9'), DIGIT)
  const OctetHundreds := Cat(Lit("1"), Rep(DIGIT, 2))
  const OctetTwoHundreds := Cat(Lit("2"), Cat(Range('0', '4'), DIGIT))
  const OctetTwoFifties := Cat(Lit("25"), Range('0', '5'))

  lemma DecOctetAlternatives(s: Str)
    ensures Matches(DecOctet, s) <==>
      Matches(OctetOneDigit, s) || Matches(OctetTwoDigits, s) || Matches(OctetHundreds, s)
      || Matches(OctetTwoHundreds, s) || Matches(OctetTwoFifties, s)
  {
    var r3 := Alt(OctetTwoHundreds, OctetTwoFifties);
    var r2 := Alt(OctetHundreds, r3);
    var r1 := Alt(OctetTwoDigits, r2);
    assert DecOctet == Alt(OctetOneDigit, r1);
    AltIff(OctetOneDigit, r1, s);
    AltIff(OctetTwoDigits, r2, s);
    AltIff(OctetHundreds, r3, s);
    AltIff(OctetTwoHundreds, OctetTwoFifties, s);
  }

  lemma DecOctetSound(s: Str)
    requires Matches(DecOctet, s)
    ensures exists n: nat :: n <= 255 && s == DecimalText(n)
  {
    DecOctetAlternatives(s);
    if Matches(OctetOneDigit, s) {
      DigitUnit(s);
      var n := s[0] - '0' as int;
      DecimalDigits(n);
      assert s == DecimalText(n);
    } else if Matches(OctetTwoDigits, s) {
      TwoDigitsSound(s);
    } else if Matches(OctetHundreds, s) {
      HundredsSound(s);
    } else if Matches(OctetTwoHundreds, s) {
      TwoHundredsSound(s);
    } else {
      CatLit("25", Range('0', '5'), s);
      var n := 250 + (s[2] - '0' as int);
      DecimalDigits(n);
      assert s == DecimalText(n);
    }
  }

  lemma TwoDigitsSound(s: Str)
    requires Matches(OctetTwoDigits, s)
    ensures exists n: nat :: 10 <= n < 100 && s == DecimalText(n)
  {
    DigitUnit([]);
    CatUnit(Range('1', '9'), DIGIT, s);
    DigitUnit(s[1..]);
    var n := (s[0] - '0' as int) * 10 + (s[1] - '0' as int);
    DecimalDigits(n);
    assert s == DecimalText(n);
  }

  lemma HundredsSound(s: Str)
    requires Matches(OctetHundreds, s)
    ensures exists n: nat :: 100 <= n < 200 && s == DecimalText(n)
  {
    DigitUnit([]);
    CatLit("1", Rep(DIGIT, 2), s);
    RepUnits(DIGIT, 2, s[1..]);
    DigitUnit([s[1]]);
    DigitUnit([s[2]]);
    var n := 100 + (s[1] - '0' as int) * 10 + (s[2] - '0' as int);
    DecimalDigits(n);
    assert s == DecimalText(n);
  }

  lemma TwoHundredsSound(s: Str)
    requires Matches(OctetTwoHundreds, s)
    ensures exists n: nat :: 200 <= n < 250 && s == DecimalText(n)
  {
    DigitUnit([]);
    CatLit("2", Cat(Range('0', '4'), DIGIT), s);
    CatUnit(Range('0', '4'), DIGIT, s[1..]);
    DigitUnit(s[2..]);
    var n := 200 + (s[1] - '0' as int) * 10 + (s[2] - '0' as int);
    DecimalDigits(n);
    assert s == DecimalText(n);
  }

  lemma DecOctetComplete(n: nat)
    requires n <= 255
    ensures Matches(DecOctet, DecimalText(n))
  {
    var s := DecimalText(n);
    DecOctetAlternatives(s);
    if n < 10 {
      DecimalDigits(n);
      DigitUnit(s);
      assert Matches(OctetOneDigit, s);
    } else if n < 100 {
      TwoDigitsComplete(n);
    } else if n < 200 {
      HundredsComplete(n);
    } else if n < 250 {
      TwoHundredsComplete(n);
    } else {
      TwoFiftiesComplete(n);
    }
  }

  lemma TwoDigitsComplete(n: nat)
    requires 10 <= n < 100
    ensures Matches(OctetTwoDigits, DecimalText(n))
  {
    var s := DecimalText(n);
    DecimalDigits(n);
    DigitUnit([]);
    DigitUnit(s[1..]);
    CatUnit(Range('1', '9'), DIGIT, s);
  }

  lemma TwoHundredsComplete(n: nat)
    requires 200 <= n < 250
    ensures Matches(OctetTwoHundreds, DecimalText(n))
  {
    var s := DecimalText(n);
    DecimalDigits(n);
    DigitUnit([]);
    DigitUnit(s[2..]);
    CatUnit(Range('0', '4'), DIGIT, s[1..]);
    CatLit("2", Cat(Range('0', '4'), DIGIT), s);
  }

  lemma TwoFiftiesComplete(n: nat)
    requires 250 <= n <= 255
    ensures Matches(OctetTwoFifties, DecimalText(n))
  {
    var s := DecimalText(n);
    DecimalDigits(n);
    CatLit("25", Range('0', '5'), s);
  }

  lemma HundredsComplete(n: nat)
    requires 100 <= n < 200
    ensures Matches(OctetHundreds, DecimalText(n))
  {
    var s := DecimalText(n);
    DecimalDigits(n);
    DigitUnit([]);
    DigitUnit([s[1]]);
    DigitUnit([s[2]]);
    RepUnits(DIGIT, 2, s[1..]);
    CatLit("1", Rep(DIGIT, 2), s);
  }

  /** dec-octet accepts exactly the numerals of 0 to 255 without a leading
      zero. */
  lemma DecOctetNumeral(s: Str)
    ensures Matches(DecOctet, s) <==> exists n: nat :: n <= 255 && s == DecimalText(n)
  {
    if Matches(DecOctet, s) {
      DecOctetSound(s);
    }
    if exists n: nat :: n <= 255 && s == DecimalText(n) {
      var n: nat :| n <= 255 && s == DecimalText(n);
      DecOctetComplete(n);
    }
  }

  lemma DecimalShape(n: nat)
    ensures 1 <= |DecimalText(n)|
    ensures forall i :: 0 <= i < |DecimalText(n)| ==> IsDigit(DecimalText(n)[i])
    ensures n < 10 <==> |DecimalText(n)| == 1
    ensures n < 100 <==> |DecimalText(n)| <= 2
    ensures n < 1000 <==> |DecimalText(n)| <= 3
    ensures DecimalText(n)[0] == '0' as int ==> n == 0
    decreases n
  {
    if n >= 10 {
      DecimalShape(n / 10);
    }
  }

  /** "0" is a dec-octet; "00" (a leading zero) and "256" (too large) are not. */
  lemma DecOctetZero()
    ensures Matches(DecOctet, U("0"))
  {
    DecimalDigits(0);
    assert U("0") == DecimalText(0);
    DecOctetComplete(0);
  }

  lemma DecOctetNoLeadingZero()
    ensures !Matches(DecOctet, U("00"))
  {
    var s := U("00");
    DecOctetNumeral(s);
    forall n: nat | n <= 255 ensures s != DecimalText(n) {
      DecimalShape(n);
    }
  }

  lemma DecOctetNoOverflow()
    ensures !Matches(DecOctet, U("256"))
  {
    var s := U("256");
    assert s == ['2' as int, '5' as int, '6' as int];
    if Matches(DecOctet, s) {
      var n := OctetValue(s);
      DecimalShape(n);
      DecimalDigits(n);
      assert false;
    }
  }

  /** The tail `"." r` of a dotted pattern. */
  lemma DotThen(r: Re, t: Str)
    ensures Matches(Cat(Lit("."), r), t) <==> |t| >= 1 && t[0] == DOT && Matches(r, t[1..])
  {
    CatLit(".", r, t);
    if |t| >= 1 {
      assert LitMatches(".", t[..1]) <==> t[0] == DOT;
    }
  }

  /** A dec-octet followed by a dot and something else. */
  lemma OctetDot(r: Re, s: Str) returns (a: nat, t: Str)
    requires Matches(Cat(DecOctet, Cat(Lit("."), r)), s)
    ensures a <= 255 && s == DecimalText(a) + [DOT] + t && Matches(r, t)
  {
    var x, y := CatParts(DecOctet, Cat(Lit("."), r), s);
    DotThen(r, y);
    a := OctetValue(x);
    t := y[1..];
    assert y == [DOT] + t;
    Associative(x, [DOT], t);
  }


  lemma OctetValue(s: Str) returns (n: nat)
    requires Matches(DecOctet, s)
    ensures n <= 255 && s == DecimalText(n)
  {
    DecOctetSound(s);
    n :| n <= 255 && s == DecimalText(n);
  }

  lemma OctetDotIntro(r: Re, a: nat, t: Str)
    requires a <= 255 && Matches(r, t)
    ensures Matches(Cat(DecOctet, Cat(Lit("."), r)), DecimalText(a) + [DOT] + t)
  {
    DecOctetComplete(a);
    DotThen(r, [DOT] + t);
    assert ([DOT] + t)[1..] == t;
    CatIntro(DecOctet, Cat(Lit("."), r), DecimalText(a), [DOT] + t);
    assert DecimalText(a) + ([DOT] + t) == DecimalText(a) + [DOT] + t;
  }

  const Ipv4Tail1 := Cat(DecOctet, Cat(Lit("."), DecOctet))
  const Ipv4Tail2 := Cat(DecOctet, Cat(Lit("."), Ipv4Tail1))

  lemma IPv4Sound(s: Str)
    requires Matches(IPv4Address, s)
    ensures exists a: nat, b: nat, c: nat, d: nat ::
      a <= 255 && b <= 255 && c <= 255 && d <= 255 && s == Dotted(a, b, c, d)
  {
    var a, t1 := OctetDot(Ipv4Tail2, s);
    var b, t2 := OctetDot(Ipv4Tail1, t1);
    var c, t3 := OctetDot(DecOctet, t2);
    var d := OctetValue(t3);
    DottedNested(a, b, c, d);
  }

  /** The dotted quad as a numeral, a dot, and the rest. */
  lemma DottedNested(a: nat, b: nat, c: nat, d: nat)
    ensures Dotted(a, b, c, d) ==
      DecimalText(a) + [DOT] + (DecimalText(b) + [DOT] + (DecimalText(c) + [DOT] + DecimalText(d)))
  {
  }

  lemma IPv4Complete(a: nat, b: nat, c: nat, d: nat)
    requires a <= 255 && b <= 255 && c <= 255 && d <= 255
    ensures Matches(IPv4Address, Dotted(a, b, c, d))
  {
    DecOctetComplete(d);
    var t3 := DecimalText(d);
    OctetDotIntro(DecOctet, c, t3);
    var t2 := DecimalText(c) + [DOT] + t3;
    OctetDotIntro(Ipv4Tail1, b, t2);
    var t1 := DecimalText(b) + [DOT] + t2;
    OctetDotIntro(Ipv4Tail2, a, t1);
    assert IPv4Address == Cat(DecOctet, Cat(Lit("."), Ipv4Tail2));
    assert DecimalText(a) + [DOT] + t1 == Dotted(a, b, c, d);
  }

  /** IPv4address is exactly four numerals of 0 to 255 separated by single
      dots. */
  lemma IPv4Numerals(s: Str)
    ensures Matches(IPv4Address, s) <==> exists a: nat, b: nat, c: nat, d: nat ::
      a <= 255 && b <= 255 && c <= 255 && d <= 255 && s == Dotted(a, b, c, d)
  {
    if Matches(IPv4Address, s) {
      IPv4Sound(s);
    }
    if exists a: nat, b: nat, c: nat, d: nat ::
      a <= 255 && b <= 255 && c <= 255 && d <= 255 && s == Dotted(a, b, c, d) {
      var a: nat, b: nat, c: nat, d: nat :|
        a <= 255 && b <= 255 && c <= 255 && d <= 255 && s == Dotted(a, b, c, d);
      IPv4Complete(a, b, c, d);
    }
  }
}
