/** Concrete decisions of `uri_validate`: "http://x/y" and a port of 70000
    are accepted, "HTTP://x/y" and the escape "%41" are rejected, and a
    relative reference with no ":" is accepted. */
module ValidateExamples {

  import opened Wrappers
  import opened Text
  import opened Regex
  import opened Grammar
  import opened GrammarFacts
  import opened Validate

  /** A run of lower-case letters. */
  predicate LowerWord(w: Str) {
    forall i :: 0 <= i < |w| ==> IsLowerAlpha(w[i])
  }

  lemma LowerLetter(c: CodeUnit)
    requires IsLowerAlpha(c)
    ensures Matches(Unreserved, [c]) && Matches(Pchar, [c])
    ensures Matches(Alt(Unreserved, Alt(PctEncoded, SubDelims)), [c])
  {
    assert Matches(ALPHA, [c]);
  }

  /** A lower-case word is a reg-name, hence a host. */
  lemma WordHost(w: Str)
    requires LowerWord(w)
    ensures Matches(Host, w)
  {
    forall i | 0 <= i < |w| ensures Matches(Alt(Unreserved, Alt(PctEncoded, SubDelims)), [w[i]]) {
      LowerLetter(w[i]);
    }
    StarEach(Alt(Unreserved, Alt(PctEncoded, SubDelims)), w);
    assert Matches(RegName, w);
  }

  /** "/" and a lower-case word is a one-segment path-abempty. */
  lemma WordPath(w: Str)
    requires LowerWord(w)
    ensures Matches(PathAbempty, [SLASH] + w)
  {
    forall i | 0 <= i < |w| ensures Matches(Pchar, [w[i]]) {
      LowerLetter(w[i]);
    }
    StarEach(Pchar, w);
    CatIntro(Lit("/"), Segment, [SLASH], w);
    StarOne(Cat(Lit("/"), Segment), [SLASH] + w);
  }

  /** A host alone is an authority. */
  lemma HostAuthority(h: Str)
    requires Matches(Host, h)
    ensures Matches(Authority, h)
  {
    OptEmpty(Cat(Lit(":"), Port));
    OptEmpty(Cat(Userinfo, Lit("@")));
    Cat3Intro(Opt(Cat(Userinfo, Lit("@"))), Host, Opt(Cat(Lit(":"), Port)), [], h, []);
    assert [] + (h + []) == h;
  }

  /** A host, ":" and a run of digits is an authority. */
  lemma HostPortAuthority(h: Str, d: Str)
    requires Matches(Host, h)
    requires forall i :: 0 <= i < |d| ==> IsDigit(d[i])
    ensures Matches(Authority, h + ([COLON] + d))
  {
    PortDigits(d);
    CatIntro(Lit(":"), Port, [COLON], d);
    OptEmpty(Cat(Userinfo, Lit("@")));
    Cat3Intro(Opt(Cat(Userinfo, Lit("@"))), Host, Opt(Cat(Lit(":"), Port)), [], h, [COLON] + d);
    assert [] + (h + ([COLON] + d)) == h + ([COLON] + d);
  }

  /** Neither a query nor a fragment. */
  lemma NoQueryNoFragment()
    ensures Matches(Cat(OptQuery, OptFragment), [])
  {
    OptEmpty(Cat(Lit("?"), Query));
    OptEmpty(Cat(Lit("#"), Fragment));
    CatIntro(OptQuery, OptFragment, [], []);
  }

  /** A match of `r` followed by no query and no fragment. */
  lemma EmptyTail(r: Re, p: Str)
    requires Matches(r, p)
    ensures Matches(Cat(r, Cat(OptQuery, OptFragment)), p)
  {
    NoQueryNoFragment();
    CatIntro(r, Cat(OptQuery, OptFragment), p, []);
    assert p + [] == p;
  }

  /** "http://" authority path-abempty, with no query and no fragment. */
  lemma HttpIntro(a: Str, p: Str)
    requires Matches(Authority, a) && Matches(PathAbempty, p)
    ensures Matches(HttpURI, U("http://") + (a + p))
  {
    EmptyTail(PathAbempty, p);
    LitIntro("http://");
    Cat3Intro(Lit("http://"), Authority, Cat(PathAbempty, Cat(OptQuery, OptFragment)), U("http://"), a, p);
  }

  /** "http://" host "/" word, with lower-case words, is accepted. */
  lemma HttpWordsAccepted(h: Str, w: Str)
    requires LowerWord(h) && LowerWord(w)
    ensures UriValidate(U("http://") + (h + ([SLASH] + w)))
  {
    WordHost(h);
    HostAuthority(h);
    WordPath(w);
    HttpIntro(h, [SLASH] + w);
    HttpAccepted(U("http://") + (h + ([SLASH] + w)));
  }

  /** "http://" host ":" digits "/" word is accepted whatever the digits'
      value. */
  lemma HttpPortAccepted(h: Str, d: Str, w: Str)
    requires LowerWord(h) && LowerWord(w)
    requires forall i :: 0 <= i < |d| ==> IsDigit(d[i])
    ensures UriValidate(U("http://") + ((h + ([COLON] + d)) + ([SLASH] + w)))
  {
    WordHost(h);
    HostPortAuthority(h, d);
    WordPath(w);
    HttpIntro(h + ([COLON] + d), [SLASH] + w);
    HttpAccepted(U("http://") + ((h + ([COLON] + d)) + ([SLASH] + w)));
  }

  lemma PlainHttpAccepted()
    ensures UriValidate(U("http://x/y"))
  {
    HttpWordsAccepted(U("x"), U("y"));
    assert U("http://x/y") == U("http://") + (U("x") + ([SLASH] + U("y")));
  }

  /** The port has no magnitude limit. */
  lemma LargePortAccepted()
    ensures UriValidate(U("http://h:70000/p"))
  {
    var d := U("70000");
    assert forall i :: 0 <= i < |d| ==> IsDigit(d[i]);
    assert LowerWord(U("h")) && LowerWord(U("p"));
    HttpPortAccepted(U("h"), d, U("p"));
    LargePortText();
  }

  lemma LargePortText()
    ensures U("http://h:70000/p") == U("http://") + ((U("h") + ([COLON] + U("70000"))) + ([SLASH] + U("p")))
  {
  }

  /** The http grammar spells its scheme in lower case. */
  lemma UpperHttpRejected()
    ensures !UriValidate(U("HTTP://x/y"))
  {
    var s := U("HTTP://x/y");
    assert s[4] == COLON;
    assert IndexOf(s, COLON) == Some(4);
    assert LitMatches("http", ToLowerAscii(s[..4]));
    UpperCaseSchemeRejected(s, 4, 0);
  }

  /** A single "%" escape is not a URI-reference, since pct-encoded asks
      for two percent signs. */
  lemma PercentEscapeRejected()
    ensures !UriValidate(U("http://x/%41"))
  {
    LonePercentRejected(U("http://x/%41"), 9);
  }

  /** A non-empty lower-case word is a segment-nz. */
  lemma WordSegment(w: Str)
    requires LowerWord(w) && |w| > 0
    ensures Matches(SegmentNz, w)
  {
    var t := w[1..];
    forall i | 0 <= i < |t| ensures Matches(Pchar, [t[i]]) {
      assert t[i] == w[i + 1];
      LowerLetter(w[i + 1]);
    }
    StarEach(Pchar, t);
    LowerLetter(w[0]);
    CatIntro(Pchar, Star(Pchar), [w[0]], t);
    assert [w[0]] + t == w;
  }

  /** "/" and a segment-nz is a path-absolute. */
  lemma SegmentAbsolute(x: Str)
    requires Matches(SegmentNz, x)
    ensures Matches(PathAbsolute, [SLASH] + x)
  {
    assert Matches(SlashSegments, []);
    CatIntro(SegmentNz, SlashSegments, x, []);
    assert x + [] == x;
    AltIff(Cat(SegmentNz, SlashSegments), Eps, x);
    assert LitMatches("/", [SLASH]);
    CatIntro(Lit("/"), Opt(Cat(SegmentNz, SlashSegments)), [SLASH], x);
  }

  /** "/" and a non-empty lower-case word is a path-absolute. */
  lemma WordAbsolute(w: Str)
    requires LowerWord(w) && |w| > 0
    ensures Matches(PathAbsolute, [SLASH] + w)
  {
    WordSegment(w);
    SegmentAbsolute(w);
  }

  /** With no ":" only the generic rule is consulted: "/" and a word is a
      relative reference, and valid. */
  lemma RelativeWordAccepted(w: Str)
    requires LowerWord(w) && |w| > 0
    ensures UriValidate([SLASH] + w)
  {
    var p := [SLASH] + w;
    WordAbsolute(w);
    assert Matches(RelativePart, p);
    EmptyTail(RelativePart, p);
    assert Matches(RelativeRef, p);
    assert Matches(URIReference, p);
  }

  lemma RelativeAccepted()
    ensures UriValidate(U("/y"))
  {
    RelativeWordAccepted(U("y"));
    assert U("/y") == [SLASH] + U("y");
  }
}
