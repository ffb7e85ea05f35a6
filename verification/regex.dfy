/** Regular expressions with exactly the constructs uri-validate.js uses
    (classes, literals, concatenation, alternation, `*`, `+`, `?`, `{m,n}`
    and `.`; no back-references or look-arounds), and their language: an
    anchored test `^r$` succeeds on `s` exactly when `Matches(r, s)`. */
module Regex {

  import opened Text

  datatype Re =
    | Eps                         // `(?:)`: the empty string only
    | Span(lo: int, hi: int)      // `[lo-hi]`: one code unit in the range
    | OneOf(text: string)         // one of the characters of `text`, as `[...]` or `(?:a|b|...)` writes it
    | AnyChar                     // `.` without the `s` flag
    | Lit(text: string)           // a literal run of characters
    | Cat(left: Re, right: Re)    // concatenation
    | Alt(first: Re, second: Re)  // `|`
    | Star(body: Re)              // `*`

  /** `[lo-hi]` written with characters. */
  function Range(lo: char, hi: char): Re {
    Span(lo as int, hi as int)
  }

  /** The code units of the characters of `t`. */
  function Codes(t: string): set<int>
    decreases |t|
  {
    if t == "" then {} else {t[0] as int} + Codes(t[1..])
  }

  /** `(?:r)?` */
  function Opt(r: Re): Re {
    Alt(r, Eps)
  }

  /** `(?:r)+`, and `{1,}` */
  function Plus(r: Re): Re {
    Cat(r, Star(r))
  }

  /** `(?:r){n}` */
  function Rep(r: Re, n: nat): Re
    decreases n
  {
    if n == 0 then Eps else Cat(r, Rep(r, n - 1))
  }

  /** `(?:r){0,n}` */
  function UpTo(r: Re, n: nat): Re
    decreases n
  {
    if n == 0 then Eps else Opt(Cat(r, UpTo(r, n - 1)))
  }

  /** `(?:r){m,n}` */
  function RepRange(r: Re, m: nat, n: nat): Re
    requires m <= n
  {
    Cat(Rep(r, m), UpTo(r, n - m))
  }

  /** The code units `.` refuses: LF, CR, LS and PS. */
  predicate IsLineTerminator(c: int) {
    c == 0x0A || c == 0x0D || c == 0x2028 || c == 0x2029
  }

  predicate LitMatches(t: string, s: Str) {
    |s| == |t| && forall i :: 0 <= i < |s| ==> s[i] == t[i] as int
  }

  /** A literal matches exactly the code units of its text. */
  lemma LitIsText(t: string, s: Str)
    requires forall i :: 0 <= i < |t| ==> t[i] as int < 0x1_0000
    ensures LitMatches(t, s) <==> s == U(t)
  {
  }

  /** The language of `r`. A starred body contributes non-empty pieces only;
      an empty iteration adds nothing to the language. */
  predicate Matches(r: Re, s: Str)
    decreases r, |s|
  {
    match r
    case Eps => s == []
    case Span(lo, hi) => |s| == 1 && lo <= s[0] <= hi
    case OneOf(t) => |s| == 1 && s[0] in Codes(t)
    case AnyChar => |s| == 1 && !IsLineTerminator(s[0])
    case Lit(t) => LitMatches(t, s)
    case Cat(a, b) => exists i :: 0 <= i <= |s| && Matches(a, s[..i]) && Matches(b, s[i..])
    case Alt(a, b) => Matches(a, s) || Matches(b, s)
    case Star(a) => s == [] || exists i :: 0 < i <= |s| && Matches(a, s[..i]) && Matches(r, s[i..])
  }

  lemma CatIntro(a: Re, b: Re, x: Str, y: Str)
    requires Matches(a, x) && Matches(b, y)
    ensures Matches(Cat(a, b), x + y)
  {
    assert (x + y)[..|x|] == x && (x + y)[|x|..] == y;
  }

  /** Three consecutive matches make a match of the nested concatenation. */
  lemma Cat3Intro(a: Re, b: Re, c: Re, x: Str, y: Str, z: Str)
    requires Matches(a, x) && Matches(b, y) && Matches(c, z)
    ensures Matches(Cat(a, Cat(b, c)), x + (y + z))
  {
    CatIntro(b, c, y, z);
    CatIntro(a, Cat(b, c), x, y + z);
  }

  lemma LitIntro(t: string)
    requires forall i :: 0 <= i < |t| ==> t[i] as int < 0x1_0000
    ensures Matches(Lit(t), U(t))
  {
  }

  lemma OptEmpty(r: Re)
    ensures Matches(Opt(r), [])
  {
    assert Matches(Eps, []);
  }

  /** A split point of a concatenation match. */
  lemma CatSplit(a: Re, b: Re, s: Str) returns (i: nat)
    requires Matches(Cat(a, b), s)
    ensures i <= |s| && Matches(a, s[..i]) && Matches(b, s[i..])
  {
    i :| 0 <= i <= |s| && Matches(a, s[..i]) && Matches(b, s[i..]);
  }

  /** The two parts of a concatenation match. */
  lemma CatParts(a: Re, b: Re, s: Str) returns (x: Str, y: Str)
    requires Matches(Cat(a, b), s)
    ensures s == x + y && Matches(a, x) && Matches(b, y)
  {
    var i := CatSplit(a, b, s);
    x, y := s[..i], s[i..];
    assert s == x + y;
  }

  lemma StarCons(a: Re, x: Str, y: Str)
    requires |x| > 0 && Matches(a, x) && Matches(Star(a), y)
    ensures Matches(Star(a), x + y)
  {
    assert (x + y)[..|x|] == x && (x + y)[|x|..] == y;
  }

  lemma StarOne(a: Re, x: Str)
    requires Matches(a, x)
    ensures Matches(Star(a), x)
  {
    if |x| > 0 {
      StarCons(a, x, []);
      assert x + [] == x;
    }
  }

  /** Starred languages are closed under concatenation. */
  lemma {:induction false} StarAppend(a: Re, x: Str, y: Str)
    requires Matches(Star(a), x) && Matches(Star(a), y)
    ensures Matches(Star(a), x + y)
    decreases |x|
  {
    if x == [] {
      assert x + y == y;
    } else {
      var head, tail := StarSplit(a, x);
      StarAppend(a, tail, y);
      Associative(head, tail, y);
      StarCons(a, head, tail + y);
    }
  }

  /** A non-empty match of a star starts with a non-empty match of its body. */
  lemma StarSplit(a: Re, s: Str) returns (head: Str, tail: Str)
    requires s != [] && Matches(Star(a), s)
    ensures |head| > 0 && s == head + tail && Matches(a, head) && Matches(Star(a), tail)
  {
    var i :| 0 < i <= |s| && Matches(a, s[..i]) && Matches(Star(a), s[i..]);
    head, tail := s[..i], s[i..];
  }

  /** A prefix literal is matched character by character. */
  lemma CatLit(t: string, b: Re, s: Str)
    ensures Matches(Cat(Lit(t), b), s) <==> |s| >= |t| && LitMatches(t, s[..|t|]) && Matches(b, s[|t|..])
  {
    if |s| >= |t| && LitMatches(t, s[..|t|]) && Matches(b, s[|t|..]) {
      assert Matches(Lit(t), s[..|t|]);
    }
  }

  lemma AltIff(a: Re, b: Re, s: Str)
    ensures Matches(Alt(a, b), s) <==> Matches(a, s) || Matches(b, s)
  {
  }

  /** A single-unit head takes exactly the first code unit. */
  lemma CatUnit(a: Re, b: Re, s: Str)
    requires IsUnit(a)
    ensures Matches(Cat(a, b), s) <==> |s| >= 1 && Matches(a, [s[0]]) && Matches(b, s[1..])
  {
    if Matches(Cat(a, b), s) {
      var i :| 0 <= i <= |s| && Matches(a, s[..i]) && Matches(b, s[i..]);
      UnitLength(a, s[..i]);
      assert s[..1] == [s[0]];
    }
    if |s| >= 1 && Matches(a, [s[0]]) && Matches(b, s[1..]) {
      assert s[..1] == [s[0]];
    }
  }

  /** Concatenation with the empty pattern changes nothing. */
  lemma CatEps(a: Re, s: Str)
    ensures Matches(Cat(a, Eps), s) <==> Matches(a, s)
    ensures Matches(Cat(Eps, a), s) <==> Matches(a, s)
  {
    assert s[..|s|] == s && s[|s|..] == [];
    assert s[..0] == [] && s[0..] == s;
  }

  /** Patterns that match exactly one code unit. */
  predicate IsUnit(r: Re) {
    match r
    case Span(_, _) => true
    case OneOf(_) => true
    case AnyChar => true
    case Lit(t) => |t| == 1
    case Alt(a, b) => IsUnit(a) && IsUnit(b)
    case _ => false
  }

  lemma {:induction false} UnitLength(r: Re, s: Str)
    requires IsUnit(r) && Matches(r, s)
    ensures |s| == 1
  {
    match r
    case Alt(a, b) =>
      if Matches(a, s) { UnitLength(a, s); } else { UnitLength(b, s); }
    case _ =>
  }

  /** A star of a single-unit pattern is any string of its units. */
  lemma {:induction false} StarUnits(r: Re, s: Str)
    requires IsUnit(r)
    ensures Matches(Star(r), s) <==> forall i :: 0 <= i < |s| ==> Matches(r, [s[i]])
    decreases |s|
  {
    if s != [] {
      StarUnits(r, s[1..]);
      if Matches(Star(r), s) {
        var i :| 0 < i <= |s| && Matches(r, s[..i]) && Matches(Star(r), s[i..]);
        UnitLength(r, s[..i]);
        assert s[..1] == [s[0]];
        forall j | 0 <= j < |s| ensures Matches(r, [s[j]]) {
          if j > 0 { assert s[1..][j - 1] == s[j]; }
        }
      }
      if forall i :: 0 <= i < |s| ==> Matches(r, [s[i]]) {
        assert forall j :: 0 <= j < |s[1..]| ==> s[1..][j] == s[j + 1];
        assert Matches(r, s[..1]) by { assert s[..1] == [s[0]]; }
      }
    }
  }

  /** A string each of whose code units matches `r` alone is in `r*`. */
  lemma {:induction false} StarEach(r: Re, s: Str)
    requires forall i :: 0 <= i < |s| ==> Matches(r, [s[i]])
    ensures Matches(Star(r), s)
    decreases |s|
  {
    if s != [] {
      assert forall j :: 0 <= j < |s[1..]| ==> s[1..][j] == s[j + 1];
      StarEach(r, s[1..]);
      StarCons(r, [s[0]], s[1..]);
      assert s == [s[0]] + s[1..];
    }
  }

  lemma StarUnitsPlus(r: Re, s: Str)
    requires IsUnit(r)
    ensures Matches(Plus(r), s) <==> |s| >= 1 && forall i :: 0 <= i < |s| ==> Matches(r, [s[i]])
  {
    if Matches(Plus(r), s) {
      var i :| 0 <= i <= |s| && Matches(r, s[..i]) && Matches(Star(r), s[i..]);
      UnitLength(r, s[..i]);
      StarUnits(r, s[1..]);
      assert s[..1] == [s[0]];
      forall j | 0 <= j < |s| ensures Matches(r, [s[j]]) {
        if j > 0 { assert s[1..][j - 1] == s[j]; }
      }
    }
    if |s| >= 1 && forall i :: 0 <= i < |s| ==> Matches(r, [s[i]]) {
      StarUnits(r, s[1..]);
      assert forall j :: 0 <= j < |s[1..]| ==> s[1..][j] == s[j + 1];
      assert s[..1] == [s[0]];
      assert Matches(r, s[..1]) && Matches(Star(r), s[1..]);
    }
  }

  /** `{n}` of a single-unit pattern: exactly n of its units. */
  lemma {:induction false} RepUnits(r: Re, n: nat, s: Str)
    requires IsUnit(r)
    ensures Matches(Rep(r, n), s) <==> |s| == n && forall i :: 0 <= i < |s| ==> Matches(r, [s[i]])
    decreases n
  {
    if n > 0 {
      RepUnits(r, n - 1, if |s| > 0 then s[1..] else s);
      CatUnit(r, Rep(r, n - 1), s);
      if |s| > 0 {
        UnitsCons(r, s);
      }
    }
  }

  /** `{0,n}` of a single-unit pattern: at most n of its units. */
  lemma {:induction false} UpToUnits(r: Re, n: nat, s: Str)
    requires IsUnit(r)
    ensures Matches(UpTo(r, n), s) <==> |s| <= n && forall i :: 0 <= i < |s| ==> Matches(r, [s[i]])
    decreases n
  {
    if n > 0 {
      UpToUnits(r, n - 1, if |s| > 0 then s[1..] else s);
      AltIff(Cat(r, UpTo(r, n - 1)), Eps, s);
      CatUnit(r, UpTo(r, n - 1), s);
      if |s| > 0 {
        UnitsCons(r, s);
      }
    }
  }

  /** Every unit of a non-empty text matches `r` when the first does and
      every unit of the rest does. */
  lemma UnitsCons(r: Re, s: Str)
    requires s != []
    ensures (forall i :: 0 <= i < |s| ==> Matches(r, [s[i]])) <==>
      Matches(r, [s[0]]) && forall i :: 0 <= i < |s[1..]| ==> Matches(r, [s[1..][i]])
  {
    if Matches(r, [s[0]]) && forall i :: 0 <= i < |s[1..]| ==> Matches(r, [s[1..][i]]) {
      forall i | 0 < i < |s| ensures Matches(r, [s[i]]) {
        assert s[i] == s[1..][i - 1];
      }
    }
  }

  /** `{m,n}` of a single-unit pattern: between m and n of its units. */
  lemma RepRangeUnits(r: Re, m: nat, n: nat, s: Str)
    requires IsUnit(r) && m <= n
    ensures Matches(RepRange(r, m, n), s) <==> m <= |s| <= n && forall i :: 0 <= i < |s| ==> Matches(r, [s[i]])
  {
    if Matches(RepRange(r, m, n), s) {
      RepRangeUnitsOnly(r, m, n, s);
    }
    if m <= |s| <= n && forall i :: 0 <= i < |s| ==> Matches(r, [s[i]]) {
      RepRangeUnitsIntro(r, m, n, s);
    }
  }

  lemma RepRangeUnitsIntro(r: Re, m: nat, n: nat, s: Str)
    requires IsUnit(r) && m <= |s| <= n
    requires forall i :: 0 <= i < |s| ==> Matches(r, [s[i]])
    ensures Matches(RepRange(r, m, n), s)
  {
    var x, y := s[..m], s[m..];
    UnitsSplit(r, s, m);
    RepUnits(r, m, x);
    UpToUnits(r, n - m, y);
    assert s == x + y;
    CatIntro(Rep(r, m), UpTo(r, n - m), x, y);
  }

  /** The units of a prefix and of the matching suffix. */
  lemma UnitsSplit(r: Re, s: Str, m: nat)
    requires m <= |s| && forall i :: 0 <= i < |s| ==> Matches(r, [s[i]])
    ensures forall j :: 0 <= j < m ==> Matches(r, [s[..m][j]])
    ensures forall j :: 0 <= j < |s| - m ==> Matches(r, [s[m..][j]])
  {
    forall j | 0 <= j < m ensures Matches(r, [s[..m][j]]) {
      assert s[..m][j] == s[j];
    }
    forall j | 0 <= j < |s| - m ensures Matches(r, [s[m..][j]]) {
      assert s[m..][j] == s[j + m];
    }
  }

  lemma RepRangeUnitsOnly(r: Re, m: nat, n: nat, s: Str)
    requires IsUnit(r) && m <= n
    requires Matches(RepRange(r, m, n), s)
    ensures m <= |s| <= n && forall i :: 0 <= i < |s| ==> Matches(r, [s[i]])
  {
    var i :| 0 <= i <= |s| && Matches(Rep(r, m), s[..i]) && Matches(UpTo(r, n - m), s[i..]);
    var x, y := s[..i], s[i..];
    RepUnits(r, m, x);
    UpToUnits(r, n - m, y);
    forall j | 0 <= j < |s| ensures Matches(r, [s[j]]) {
      if j < i { assert x[j] == s[j]; } else { assert y[j - i] == s[j]; }
    }
  }

  /** ASCII text with no percent sign. */
  predicate PlainText(t: string) {
    forall c :: c in t ==> c as int < 0x80 && c != '%'
  }

  predicate IsDoublePercent(t: string) {
    |t| == 2 && t[0] == '%' && t[1] == '%'
  }

  /** Every code unit a match of `r` holds is ASCII, and a percent sign can
      only come from the literal "%%". */
  predicate Tame(r: Re) {
    match r
    case Eps => true
    case Span(lo, hi) => 0 <= lo && hi < 0x80 && (hi < PERCENT || PERCENT < lo)
    case OneOf(t) => PlainText(t)
    case AnyChar => false
    case Lit(t) => PlainText(t) || IsDoublePercent(t)
    case Cat(a, b) => Tame(a) && Tame(b)
    case Alt(a, b) => Tame(a) && Tame(b)
    case Star(a) => Tame(a)
  }

  lemma {:induction false} PlainTextChars(t: string)
    requires PlainText(t)
    ensures forall i :: 0 <= i < |t| ==> t[i] as int < 0x80 && t[i] as int != PERCENT
    ensures forall c :: c in Codes(t) ==> c < 0x80 && c != PERCENT
    decreases |t|
  {
    forall i | 0 <= i < |t| ensures t[i] as int < 0x80 && t[i] as int != PERCENT {
      assert t[i] in t;
    }
    if t != "" {
      assert PlainText(t[1..]) by {
        forall c | c in t[1..] ensures c in t {
        }
      }
      PlainTextChars(t[1..]);
    }
  }

  /** A match of a tame pattern is ASCII with its percent signs paired. */
  lemma {:induction false} TameMatches(r: Re, s: Str)
    requires Tame(r) && Matches(r, s)
    ensures IsAscii(s) && PercentsPaired(s)
    decreases r, |s|
  {
    match r
    case Eps =>
    case Span(lo, hi) =>
    case OneOf(t) =>
      PlainTextChars(t);
    case AnyChar =>
      assert false;
    case Lit(t) =>
      if PlainText(t) {
        PlainTextChars(t);
        assert forall i :: 0 <= i < |s| ==> s[i] == t[i] as int;
      } else {
        assert s == [PERCENT, PERCENT];
      }
    case Cat(a, b) =>
      var x, y := CatParts(a, b, s);
      TameMatches(a, x);
      TameMatches(b, y);
      AsciiPairedAppend(x, y);
    case Alt(a, b) =>
      if Matches(a, s) {
        TameMatches(a, s);
      } else {
        TameMatches(b, s);
      }
    case Star(a) =>
      if s != [] {
        var i :| 0 < i <= |s| && Matches(a, s[..i]) && Matches(r, s[i..]);
        TameMatches(a, s[..i]);
        TameMatches(r, s[i..]);
        AsciiPairedAppend(s[..i], s[i..]);
        assert s == s[..i] + s[i..];
      }
  }

  lemma {:induction false} TameRep(r: Re, n: nat)
    requires Tame(r)
    ensures Tame(Rep(r, n)) && Tame(UpTo(r, n))
    decreases n
  {
    if n > 0 {
      TameRep(r, n - 1);
    }
  }
}
