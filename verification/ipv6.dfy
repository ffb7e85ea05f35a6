/** The nine-way IPv6address rule of section 3.2.2 of RFC 3986, as
    uri-validate.js spells it, against a description that does not use the
    pattern language: a run of 16-bit pieces (a trailing dotted quad counting
    as two), either eight of them, or at most seven around a single "::". */
module Ipv6Forms {

  import opened Wrappers
  import opened Text
  import opened Regex
  import opened Grammar
  import opened GrammarFacts

  /** One to four hexadecimal digits: the text of one 16-bit piece. */
  predicate IsH16(h: Str) {
    1 <= |h| <= 4 && AllHex(h)
  }

  predicate AllH16(hs: seq<Str>) {
    forall i :: 0 <= i < |hs| ==> IsH16(hs[i])
  }

  /** Each piece followed by ":". */
  function Terminated(hs: seq<Str>): Str
    decreases |hs|
  {
    if hs == [] then [] else hs[0] + [COLON] + Terminated(hs[1..])
  }

  /** The pieces joined by ":". */
  function Colons(hs: seq<Str>): Str {
    if hs == [] then [] else Terminated(hs[..|hs| - 1]) + hs[|hs| - 1]
  }

  /** Four numbers, written as a dotted quad. */
  datatype Quad = Quad(a: nat, b: nat, c: nat, d: nat)
  {
    predicate Valid() {
      a <= 255 && b <= 255 && c <= 255 && d <= 255
    }

    function Spelling(): Str {
      Dotted(a, b, c, d)
    }
  }

  /** A run of pieces, optionally closed by a dotted quad that stands for the
      last two of them. */
  datatype Pieces = Pieces(hs: seq<Str>, quad: Option<Quad>)
  {
    function Count(): nat {
      |hs| + if quad.Some? then 2 else 0
    }

    predicate Valid() {
      AllH16(hs) && (quad.Some? ==> quad.value.Valid())
    }

    function Spelling(): Str {
      match quad
      case None => Colons(hs)
      case Some(q) => Terminated(hs) + q.Spelling()
    }
  }

  /** An address: eight pieces, or pieces before and after one "::". */
  datatype Shape = Full(pieces: Pieces) | Elided(before: seq<Str>, after: Pieces)
  {
    predicate Valid() {
      match this
      case Full(p) => p.Valid() && p.Count() == 8
      case Elided(b, a) => AllH16(b) && a.Valid() && |b| + a.Count() <= 7
    }

    function Spelling(): Str {
      match this
      case Full(p) => p.Spelling()
      case Elided(b, a) => Colons(b) + [COLON, COLON] + a.Spelling()
    }
  }

  /** `x` put in front of the pieces of `p`. */
  function Prefixed(x: seq<Str>, p: Pieces): Pieces {
    Pieces(x + p.hs, p.quad)
  }

  lemma {:induction false} TerminatedAppend(x: seq<Str>, y: seq<Str>)
    ensures Terminated(x + y) == Terminated(x) + Terminated(y)
    decreases |x|
  {
    if x != [] {
      assert (x + y)[1..] == x[1..] + y;
      TerminatedAppend(x[1..], y);
    } else {
      assert x + y == y;
    }
  }

  lemma PrefixedSpelling(x: seq<Str>, p: Pieces)
    requires p.hs != [] || p.quad.Some?
    ensures Prefixed(x, p).Spelling() == Terminated(x) + p.Spelling()
    ensures Prefixed(x, p).Count() == |x| + p.Count()
  {
    if p.quad.Some? {
      PrefixedQuad(x, p.hs, p.quad.value);
    } else {
      ColonsAppend(x, p.hs);
    }
  }

  lemma PrefixedQuad(x: seq<Str>, hs: seq<Str>, q: Quad)
    ensures Prefixed(x, Pieces(hs, Some(q))).Spelling() == Terminated(x) + Pieces(hs, Some(q)).Spelling()
  {
    TerminatedAppend(x, hs);
  }

  /** The last piece is written after the others, each with its ":". */
  lemma ColonsSnoc(init: seq<Str>, last: Str)
    ensures Colons(init + [last]) == Terminated(init) + last
  {
    var hs := init + [last];
    assert hs[..|hs| - 1] == init;
  }

  lemma ColonsAppend(x: seq<Str>, y: seq<Str>)
    requires y != []
    ensures Colons(x + y) == Terminated(x) + Colons(y)
  {
    var init, last := y[..|y| - 1], y[|y| - 1];
    assert y == init + [last];
    assert x + y == (x + init) + [last];
    ColonsSnoc(x + init, last);
    ColonsSnoc(init, last);
    TerminatedAppend(x, init);
    Associative(Terminated(x), Terminated(init), last);
  }


  lemma AllH16Append(x: seq<Str>, y: seq<Str>)
    ensures AllH16(x + y) <==> AllH16(x) && AllH16(y)
  {
    if AllH16(x + y) {
      forall i | 0 <= i < |y| ensures IsH16(y[i]) {
        assert y[i] == (x + y)[|x| + i];
      }
      forall i | 0 <= i < |x| ensures IsH16(x[i]) {
        assert x[i] == (x + y)[i];
      }
    }
  }

  lemma PrefixedValid(x: seq<Str>, p: Pieces)
    ensures Prefixed(x, p).Valid() <==> AllH16(x) && p.Valid()
  {
    AllH16Append(x, p.hs);
  }

  /** The numbers of a dotted quad the IPv4address rule accepts. */
  lemma QuadSound(t: Str) returns (q: Quad)
    requires Matches(IPv4Address, t)
    ensures q.Valid() && q.Spelling() == t
  {
    IPv4Numerals(t);
    var a: nat, b: nat, c: nat, d: nat :|
      a <= 255 && b <= 255 && c <= 255 && d <= 255 && t == Dotted(a, b, c, d);
    q := Quad(a, b, c, d);
  }

  lemma QuadIntro(q: Quad)
    requires q.Valid()
    ensures Matches(IPv4Address, q.Spelling())
  {
    IPv4Complete(q.a, q.b, q.c, q.d);
  }

  lemma H16Text(h: Str)
    ensures Matches(H16, h) <==> IsH16(h)
  {
    H16Digits(h);
  }

  lemma LitColon(s: Str)
    ensures Matches(Lit(":"), s) <==> s == [COLON]
  {
    if |s| == 1 {
      assert LitMatches(":", s) <==> s[0] == COLON;
    }
  }

  lemma H16ColonSound(x: Str) returns (h: Str)
    requires Matches(H16Colon, x)
    ensures IsH16(h) && x == h + [COLON]
  {
    var c;
    h, c := CatParts(H16, Lit(":"), x);
    H16Text(h);
    LitColon(c);
  }

  lemma H16ColonIntro(h: Str)
    requires IsH16(h)
    ensures Matches(H16Colon, h + [COLON])
  {
    H16Text(h);
    LitColon([COLON]);
    CatIntro(H16, Lit(":"), h, [COLON]);
  }

  /** One more piece in front. */
  lemma ConsPiece(h: Str, rest: seq<Str>) returns (hs: seq<Str>)
    requires IsH16(h) && AllH16(rest)
    ensures hs == [h] + rest && |hs| == |rest| + 1 && AllH16(hs)
    ensures Terminated(hs) == h + [COLON] + Terminated(rest)
  {
    hs := [h] + rest;
    assert hs[1..] == rest;
    AllH16Append([h], rest);
  }

  /** A colon in front of a pattern. */
  lemma ColonThen(b: Re, s: Str) returns (y: Str)
    requires Matches(Cat(Lit(":"), b), s)
    ensures s == [COLON] + y && Matches(b, y)
  {
    var c;
    c, y := CatParts(Lit(":"), b, s);
    LitColon(c);
  }

  lemma ColonThenIntro(b: Re, y: Str)
    requires Matches(b, y)
    ensures Matches(Cat(Lit(":"), b), [COLON] + y)
  {
    LitColon([COLON]);
    CatIntro(Lit(":"), b, [COLON], y);
  }

  /** A "::" in front of a pattern. */
  lemma DoubleColonThen(b: Re, s: Str) returns (y: Str)
    requires Matches(Cat(Lit("::"), b), s)
    ensures s == [COLON, COLON] + y && Matches(b, y)
  {
    var c;
    c, y := CatParts(Lit("::"), b, s);
    DoubleColonLit(c);
  }

  lemma DoubleColonThenIntro(b: Re, y: Str)
    requires Matches(b, y)
    ensures Matches(Cat(Lit("::"), b), [COLON, COLON] + y)
  {
    DoubleColonLit([COLON, COLON]);
    CatIntro(Lit("::"), b, [COLON, COLON], y);
  }

  lemma {:induction false} RepSound(k: nat, t: Str) returns (hs: seq<Str>)
    requires Matches(Rep(H16Colon, k), t)
    ensures |hs| == k && AllH16(hs) && t == Terminated(hs)
    decreases k
  {
    if k == 0 {
      hs := [];
    } else {
      var u, v := CatParts(H16Colon, Rep(H16Colon, k - 1), t);
      var h := H16ColonSound(u);
      var rest := RepSound(k - 1, v);
      hs := ConsPiece(h, rest);
    }
  }

  lemma {:induction false} RepIntro(hs: seq<Str>)
    requires AllH16(hs)
    ensures Matches(Rep(H16Colon, |hs|), Terminated(hs))
    decreases |hs|
  {
    if hs != [] {
      assert IsH16(hs[0]);
      H16ColonIntro(hs[0]);
      RepIntro(hs[1..]);
      CatIntro(H16Colon, Rep(H16Colon, |hs| - 1), hs[0] + [COLON], Terminated(hs[1..]));
    }
  }

  lemma {:induction false} UpToSound(n: nat, t: Str) returns (hs: seq<Str>)
    requires Matches(UpTo(H16Colon, n), t)
    ensures |hs| <= n && AllH16(hs) && t == Terminated(hs)
    decreases n
  {
    if t == [] {
      hs := [];
    } else {
      assert n > 0;
      var u, v := CatParts(H16Colon, UpTo(H16Colon, n - 1), t);
      var h := H16ColonSound(u);
      var rest := UpToSound(n - 1, v);
      hs := ConsPiece(h, rest);
    }
  }

  lemma {:induction false} UpToIntro(hs: seq<Str>, n: nat)
    requires AllH16(hs) && |hs| <= n
    ensures Matches(UpTo(H16Colon, n), Terminated(hs))
    decreases n
  {
    if hs != [] {
      assert IsH16(hs[0]);
      H16ColonIntro(hs[0]);
      UpToIntro(hs[1..], n - 1);
      CatIntro(H16Colon, UpTo(H16Colon, n - 1), hs[0] + [COLON], Terminated(hs[1..]));
    } else if n > 0 {
      AltIff(Cat(H16Colon, UpTo(H16Colon, n - 1)), Eps, []);
    }
  }

  /** The optional pieces in front of a "::" in the form that allows at most
      `n` of them. */
  function BeforeRe(n: nat): Re
    requires 1 <= n
  {
    if n == 1 then Opt(H16) else PiecesBefore(n - 1)
  }

  /** The pieces after the "::" in the form that has `j` of them. */
  function AfterRe(j: nat): Re
    requires 1 <= j
  {
    if j == 1 then H16
    else if j == 2 then LS32
    else if j == 3 then Cat(H16, Cat(Lit(":"), LS32))
    else Cat(Rep(H16Colon, j - 2), LS32)
  }

  lemma FormsAre()
    ensures IPv6Form1 == AfterRe(8)
    ensures IPv6Form2 == Cat(Lit("::"), AfterRe(7))
    ensures IPv6Form3 == Cat(BeforeRe(1), Cat(Lit("::"), AfterRe(6)))
    ensures IPv6Form4 == Cat(BeforeRe(2), Cat(Lit("::"), AfterRe(5)))
    ensures IPv6Form5 == Cat(BeforeRe(3), Cat(Lit("::"), AfterRe(4)))
    ensures IPv6Form6 == Cat(BeforeRe(4), Cat(Lit("::"), AfterRe(3)))
    ensures IPv6Form7 == Cat(BeforeRe(5), Cat(Lit("::"), AfterRe(2)))
    ensures IPv6Form8 == Cat(BeforeRe(6), Cat(Lit("::"), AfterRe(1)))
    ensures IPv6Form9 == Cat(BeforeRe(7), Lit("::"))
  {
  }

  lemma BeforeSound(n: nat, t: Str) returns (ls: seq<Str>)
    requires 1 <= n && Matches(BeforeRe(n), t)
    ensures |ls| <= n && AllH16(ls) && t == Colons(ls)
  {
    if t == [] {
      ls := [];
    } else if n == 1 {
      H16Text(t);
      ls := [t];
    } else {
      var r := Cat(RepRange(H16Colon, 0, n - 1), H16);
      assert BeforeRe(n) == Alt(r, Eps);
      assert Matches(r, t);
      ls := PiecesThenLast(n - 1, t);
    }
  }

  /** Up to `m` pieces with their ":" and one more piece. */
  lemma PiecesThenLast(m: nat, t: Str) returns (ls: seq<Str>)
    requires Matches(Cat(RepRange(H16Colon, 0, m), H16), t)
    ensures 1 <= |ls| <= m + 1 && AllH16(ls) && t == Colons(ls)
  {
    var r := RepRange(H16Colon, 0, m);
    assert r == Cat(Eps, UpTo(H16Colon, m));
    var u, h := CatParts(r, H16, t);
    CatEps(UpTo(H16Colon, m), u);
    var hs := UpToSound(m, u);
    H16Text(h);
    ls := hs + [h];
    AllH16Append(hs, [h]);
    ColonsSnoc(hs, h);
  }

  lemma BeforeIntro(ls: seq<Str>, n: nat)
    requires 1 <= n && |ls| <= n && AllH16(ls)
    ensures Matches(BeforeRe(n), Colons(ls))
  {
    if ls == [] {
      AltIff(if n == 1 then H16 else Cat(RepRange(H16Colon, 0, n - 1), H16), Eps, []);
    } else if n == 1 {
      assert IsH16(ls[0]);
      H16Text(ls[0]);
      assert Colons(ls) == ls[0];
    } else {
      var hs := ls[..|ls| - 1];
      var h := ls[|ls| - 1];
      assert IsH16(h);
      assert AllH16(hs) by {
        forall i | 0 <= i < |hs| ensures IsH16(hs[i]) {
          assert hs[i] == ls[i];
        }
      }
      UpToIntro(hs, n - 1);
      var r := RepRange(H16Colon, 0, n - 1);
      assert r == Cat(Eps, UpTo(H16Colon, n - 1));
      CatEps(UpTo(H16Colon, n - 1), Terminated(hs));
      H16Text(h);
      CatIntro(r, H16, Terminated(hs), h);
    }
  }

  lemma Ls32Sound(t: Str) returns (p: Pieces)
    requires Matches(LS32, t)
    ensures p.Valid() && p.Count() == 2 && t == p.Spelling()
  {
    if Matches(IPv4Address, t) {
      var q := QuadSound(t);
      p := Pieces([], Some(q));
    } else {
      var a, b := PairSound(t);
      p := Pieces([a, b], None);
      PairSpelling(a, b);
    }
  }

  lemma PairSpelling(a: Str, b: Str)
    ensures Pieces([a, b], None).Spelling() == a + [COLON] + b
  {
    assert [a, b][..1] == [a];
    assert Terminated([a]) == a + [COLON];
  }

  lemma PairSound(t: Str) returns (a: Str, b: Str)
    requires Matches(Cat(H16, Cat(Lit(":"), H16)), t)
    ensures IsH16(a) && IsH16(b) && t == a + [COLON] + b
  {
    var rest;
    a, rest := CatParts(H16, Cat(Lit(":"), H16), t);
    b := ColonThen(H16, rest);
    H16Text(a);
    H16Text(b);
  }

  lemma PairIntro(a: Str, b: Str)
    requires IsH16(a) && IsH16(b)
    ensures Matches(Cat(H16, Cat(Lit(":"), H16)), a + [COLON] + b)
  {
    H16Text(a);
    H16Text(b);
    ColonThenIntro(H16, b);
    CatIntro(H16, Cat(Lit(":"), H16), a, [COLON] + b);
    assert a + ([COLON] + b) == a + [COLON] + b;
  }

  lemma Ls32Intro(p: Pieces)
    requires p.Valid() && p.Count() == 2
    ensures Matches(LS32, p.Spelling())
  {
    if p.quad.None? {
      var a, b := p.hs[0], p.hs[1];
      assert IsH16(a) && IsH16(b);
      assert p.hs == [a, b];
      PairSpelling(a, b);
      PairIntro(a, b);
    } else {
      assert p.hs == [];
      assert p.Spelling() == p.quad.value.Spelling();
      QuadIntro(p.quad.value);
      AltIff(Cat(H16, Cat(Lit(":"), H16)), IPv4Address, p.Spelling());
    }
  }

  /** ls32 is two 16-bit pieces joined by ":" or a dotted quad. */
  lemma Ls32Forms(t: Str)
    ensures Matches(LS32, t) <==>
      (exists a, b :: IsH16(a) && IsH16(b) && t == a + [COLON] + b) || Matches(IPv4Address, t)
  {
    if Matches(LS32, t) && !Matches(IPv4Address, t) {
      var a, b := PairSound(t);
    }
    if exists a, b :: IsH16(a) && IsH16(b) && t == a + [COLON] + b {
      var a, b :| IsH16(a) && IsH16(b) && t == a + [COLON] + b;
      PairIntro(a, b);
    }
  }

  /** The last two pieces of a run, and the rest. */
  lemma SplitLastTwo(p: Pieces) returns (x: seq<Str>, p2: Pieces)
    requires p.Valid() && p.Count() >= 2
    ensures p == Prefixed(x, p2) && p2.Valid() && p2.Count() == 2
    ensures AllH16(x) && |x| == p.Count() - 2
  {
    if p.quad.Some? {
      x, p2 := p.hs, Pieces([], p.quad);
      assert p.hs + [] == p.hs;
    } else {
      var k := |p.hs| - 2;
      x, p2 := p.hs[..k], Pieces(p.hs[k..], None);
      assert p.hs == x + p.hs[k..];
      AllH16Append(x, p.hs[k..]);
    }
  }

  lemma AfterSound(j: nat, t: Str) returns (p: Pieces)
    requires 1 <= j && Matches(AfterRe(j), t)
    ensures p.Valid() && p.Count() == j && t == p.Spelling()
  {
    if j == 1 {
      H16Text(t);
      p := Pieces([t], None);
    } else if j == 2 {
      p := Ls32Sound(t);
    } else if j == 3 {
      p := ThreeSound(t);
    } else {
      p := ManySound(j, t);
    }
  }

  /** The pieces `x` in front of a valid pair `p2`. */
  lemma Combine(x: seq<Str>, p2: Pieces) returns (p: Pieces)
    requires AllH16(x) && p2.Valid() && p2.Count() == 2
    ensures p.Valid() && p.Count() == |x| + 2 && p.Spelling() == Terminated(x) + p2.Spelling()
  {
    p := Prefixed(x, p2);
    PrefixedSpelling(x, p2);
    PrefixedValid(x, p2);
  }

  lemma ThreeSound(t: Str) returns (p: Pieces)
    requires Matches(Cat(H16, Cat(Lit(":"), LS32)), t)
    ensures p.Valid() && p.Count() == 3 && t == p.Spelling()
  {
    var h, rest := CatParts(H16, Cat(Lit(":"), LS32), t);
    H16Text(h);
    var v := ColonThen(LS32, rest);
    var p2 := Ls32Sound(v);
    assert Terminated([h]) == h + [COLON];
    p := Combine([h], p2);
    Associative(h, [COLON], v);
  }

  lemma ManySound(j: nat, t: Str) returns (p: Pieces)
    requires 4 <= j && Matches(Cat(Rep(H16Colon, j - 2), LS32), t)
    ensures p.Valid() && p.Count() == j && t == p.Spelling()
  {
    var u, v := CatParts(Rep(H16Colon, j - 2), LS32, t);
    var x := RepSound(j - 2, u);
    var p2 := Ls32Sound(v);
    p := Combine(x, p2);
  }

  lemma AfterIntro(p: Pieces)
    requires p.Valid() && 1 <= p.Count()
    ensures Matches(AfterRe(p.Count()), p.Spelling())
  {
    var j := p.Count();
    if j == 1 {
      assert p.hs == [p.hs[0]];
      assert IsH16(p.hs[0]);
      H16Text(p.hs[0]);
    } else if j == 2 {
      Ls32Intro(p);
    } else if j == 3 {
      ThreeIntro(p);
    } else {
      ManyIntro(p);
    }
  }

  lemma ThreeIntro(p: Pieces)
    requires p.Valid() && p.Count() == 3
    ensures Matches(Cat(H16, Cat(Lit(":"), LS32)), p.Spelling())
  {
    var x, p2 := SplitLastTwo(p);
    PrefixedSpelling(x, p2);
    Ls32Intro(p2);
    var h := x[0];
    assert x == [h];
    assert IsH16(h);
    H16Text(h);
    assert Terminated([h]) == h + [COLON];
    ColonThenIntro(LS32, p2.Spelling());
    CatIntro(H16, Cat(Lit(":"), LS32), h, [COLON] + p2.Spelling());
    Associative(h, [COLON], p2.Spelling());
  }

  lemma ManyIntro(p: Pieces)
    requires p.Valid() && p.Count() >= 4
    ensures Matches(Cat(Rep(H16Colon, p.Count() - 2), LS32), p.Spelling())
  {
    var x, p2 := SplitLastTwo(p);
    PrefixedSpelling(x, p2);
    Ls32Intro(p2);
    RepIntro(x);
    CatIntro(Rep(H16Colon, p.Count() - 2), LS32, Terminated(x), p2.Spelling());
  }

  lemma DoubleColonLit(s: Str)
    ensures Matches(Lit("::"), s) <==> s == [COLON, COLON]
  {
    if |s| == 2 {
      assert LitMatches("::", s) <==> s[0] == COLON && s[1] == COLON;
    }
  }

  /** A "::" followed by `j` pieces. */
  lemma AfterDoubleColon(j: nat, u: Str) returns (p: Pieces)
    requires 1 <= j && Matches(Cat(Lit("::"), AfterRe(j)), u)
    ensures p.Valid() && p.Count() == j && u == [COLON, COLON] + p.Spelling()
  {
    var v := DoubleColonThen(AfterRe(j), u);
    p := AfterSound(j, v);
  }

  /** Forms 3 to 8: at most `n` pieces, "::", then `7 - n` pieces. */
  lemma ElidedSound(n: nat, t: Str) returns (a: Shape)
    requires 1 <= n <= 6 && Matches(Cat(BeforeRe(n), Cat(Lit("::"), AfterRe(7 - n))), t)
    ensures a.Elided? && a.Valid() && a.Spelling() == t && a.after.Count() == 7 - n
  {
    var u, v := CatParts(BeforeRe(n), Cat(Lit("::"), AfterRe(7 - n)), t);
    var ls := BeforeSound(n, u);
    var p := AfterDoubleColon(7 - n, v);
    a := Elided(ls, p);
    ElidedJoin(ls, p);
  }

  lemma ElidedJoin(ls: seq<Str>, p: Pieces)
    ensures Elided(ls, p).Spelling() == Colons(ls) + ([COLON, COLON] + p.Spelling())
  {
  }

  lemma ElidedIntro(a: Shape)
    requires a.Elided? && a.Valid() && 1 <= a.after.Count() <= 6
    ensures Matches(Cat(BeforeRe(7 - a.after.Count()),
      Cat(Lit("::"), AfterRe(a.after.Count()))), a.Spelling())
  {
    var j := a.after.Count();
    BeforeIntro(a.before, 7 - j);
    AfterIntro(a.after);
    DoubleColonThenIntro(AfterRe(j), a.after.Spelling());
    var rest := [COLON, COLON] + a.after.Spelling();
    CatIntro(BeforeRe(7 - j), Cat(Lit("::"), AfterRe(j)), Colons(a.before), rest);
    assert Colons(a.before) + rest == a.Spelling();
  }

  /** Form 2: "::" and seven pieces. */
  lemma LeadingSound(t: Str) returns (a: Shape)
    requires Matches(Cat(Lit("::"), AfterRe(7)), t)
    ensures a.Elided? && a.Valid() && a.Spelling() == t && a.before == []
  {
    var p := AfterDoubleColon(7, t);
    a := Elided([], p);
    ElidedJoin([], p);
    assert Colons([]) == [];
  }

  lemma LeadingIntro(p: Pieces)
    requires p.Valid() && p.Count() == 7
    ensures Matches(Cat(Lit("::"), AfterRe(7)), Elided([], p).Spelling())
  {
    AfterIntro(p);
    DoubleColonThenIntro(AfterRe(7), p.Spelling());
    ElidedJoin([], p);
    assert Colons([]) == [];
    assert Elided([], p).Spelling() == [COLON, COLON] + p.Spelling();
  }

  /** Form 9: at most seven pieces and a closing "::". */
  lemma TrailingSound(t: Str) returns (a: Shape)
    requires Matches(Cat(BeforeRe(7), Lit("::")), t)
    ensures a.Elided? && a.Valid() && a.Spelling() == t && a.after.Count() == 0
  {
    var u, v := CatParts(BeforeRe(7), Lit("::"), t);
    var ls := BeforeSound(7, u);
    DoubleColonLit(v);
    a := Elided(ls, Pieces([], None));
  }

  lemma TrailingIntro(ls: seq<Str>)
    requires AllH16(ls) && |ls| <= 7
    ensures Matches(Cat(BeforeRe(7), Lit("::")), Elided(ls, Pieces([], None)).Spelling())
  {
    BeforeIntro(ls, 7);
    DoubleColonLit([COLON, COLON]);
    CatIntro(BeforeRe(7), Lit("::"), Colons(ls), [COLON, COLON]);
    assert Colons(ls) + [COLON, COLON] + Colons([]) == Colons(ls) + [COLON, COLON];
  }

  lemma IPv6Alternatives(s: Str)
    ensures Matches(IPv6Address, s) <==>
      Matches(IPv6Form1, s) || Matches(IPv6Form2, s) || Matches(IPv6Form3, s)
      || Matches(IPv6Form4, s) || Matches(IPv6Form5, s) || Matches(IPv6Form6, s)
      || Matches(IPv6Form7, s) || Matches(IPv6Form8, s) || Matches(IPv6Form9, s)
  {
    var r8 := Alt(IPv6Form8, IPv6Form9);
    var r7 := Alt(IPv6Form7, r8);
    var r6 := Alt(IPv6Form6, r7);
    var r5 := Alt(IPv6Form5, r6);
    var r4 := Alt(IPv6Form4, r5);
    var r3 := Alt(IPv6Form3, r4);
    var r2 := Alt(IPv6Form2, r3);
    assert IPv6Address == Alt(IPv6Form1, r2);
    AltIff(IPv6Form1, r2, s);
    AltIff(IPv6Form2, r3, s);
    AltIff(IPv6Form3, r4, s);
    AltIff(IPv6Form4, r5, s);
    AltIff(IPv6Form5, r6, s);
    AltIff(IPv6Form6, r7, s);
    AltIff(IPv6Form7, r8, s);
    AltIff(IPv6Form8, IPv6Form9, s);
  }

  lemma IPv6Sound(s: Str) returns (a: Shape)
    requires Matches(IPv6Address, s)
    ensures a.Valid() && a.Spelling() == s
  {
    IPv6Alternatives(s);
    FormsAre();
    if Matches(IPv6Form1, s) {
      var p := AfterSound(8, s);
      a := Full(p);
    } else if Matches(IPv6Form2, s) {
      a := LeadingSound(s);
    } else if Matches(IPv6Form9, s) {
      a := TrailingSound(s);
    } else {
      a := MiddleSound(s);
    }
  }

  /** Forms 3 to 8: pieces on both sides of the "::". */
  lemma MiddleSound(s: Str) returns (a: Shape)
    requires Matches(IPv6Form3, s) || Matches(IPv6Form4, s) || Matches(IPv6Form5, s)
      || Matches(IPv6Form6, s) || Matches(IPv6Form7, s) || Matches(IPv6Form8, s)
    ensures a.Valid() && a.Spelling() == s
  {
    FormsAre();
    if Matches(IPv6Form3, s) {
      a := ElidedSound(1, s);
    } else if Matches(IPv6Form4, s) {
      a := ElidedSound(2, s);
    } else if Matches(IPv6Form5, s) {
      a := ElidedSound(3, s);
    } else if Matches(IPv6Form6, s) {
      a := ElidedSound(4, s);
    } else if Matches(IPv6Form7, s) {
      a := ElidedSound(5, s);
    } else {
      a := ElidedSound(6, s);
    }
  }

  lemma IPv6Complete(a: Shape)
    requires a.Valid()
    ensures Matches(IPv6Address, a.Spelling())
  {
    var s := a.Spelling();
    IPv6Alternatives(s);
    match a
    case Full(p) =>
      FormsAre();
      AfterIntro(p);
    case Elided(b, p) =>
      var j := p.Count();
      if j == 0 {
        FormsAre();
        assert p == Pieces([], None);
        TrailingIntro(b);
      } else if j == 7 {
        FormsAre();
        assert b == [];
        LeadingIntro(p);
      } else {
        MiddleComplete(a);
      }
  }

  lemma MiddleComplete(a: Shape)
    requires a.Elided? && a.Valid() && 1 <= a.after.Count() <= 6
    ensures Matches(IPv6Form3, a.Spelling()) || Matches(IPv6Form4, a.Spelling())
      || Matches(IPv6Form5, a.Spelling()) || Matches(IPv6Form6, a.Spelling())
      || Matches(IPv6Form7, a.Spelling()) || Matches(IPv6Form8, a.Spelling())
  {
    if a.after.Count() <= 3 {
      ShortTailComplete(a);
    } else {
      LongTailComplete(a);
    }
  }

  /** Forms 6 to 8: one to three pieces after the "::". */
  lemma ShortTailComplete(a: Shape)
    requires a.Elided? && a.Valid() && 1 <= a.after.Count() <= 3
    ensures Matches(IPv6Form6, a.Spelling()) || Matches(IPv6Form7, a.Spelling())
      || Matches(IPv6Form8, a.Spelling())
  {
    var j := a.after.Count();
    var s := a.Spelling();
    ElidedIntro(a);
    FormsAre();
    if j == 1 {
      assert Matches(Cat(BeforeRe(6), Cat(Lit("::"), AfterRe(1))), s);
    } else if j == 2 {
      assert Matches(Cat(BeforeRe(5), Cat(Lit("::"), AfterRe(2))), s);
    } else {
      assert Matches(Cat(BeforeRe(4), Cat(Lit("::"), AfterRe(3))), s);
    }
  }

  /** Forms 3 to 5: four to six pieces after the "::". */
  lemma LongTailComplete(a: Shape)
    requires a.Elided? && a.Valid() && 4 <= a.after.Count() <= 6
    ensures Matches(IPv6Form3, a.Spelling()) || Matches(IPv6Form4, a.Spelling())
      || Matches(IPv6Form5, a.Spelling())
  {
    var j := a.after.Count();
    var s := a.Spelling();
    ElidedIntro(a);
    FormsAre();
    if j == 4 {
      assert Matches(Cat(BeforeRe(3), Cat(Lit("::"), AfterRe(4))), s);
    } else if j == 5 {
      assert Matches(Cat(BeforeRe(2), Cat(Lit("::"), AfterRe(5))), s);
    } else {
      assert Matches(Cat(BeforeRe(1), Cat(Lit("::"), AfterRe(6))), s);
    }
  }

  /** The IPv6address rule accepts exactly the spellings of valid shapes:
      eight pieces without "::", or at most seven around one "::", a
      trailing dotted quad counting as two pieces. */
  lemma IPv6Shapes(s: Str)
    ensures Matches(IPv6Address, s) <==> exists a: Shape :: a.Valid() && a.Spelling() == s
  {
    if Matches(IPv6Address, s) {
      var a := IPv6Sound(s);
    }
    if exists a: Shape :: a.Valid() && a.Spelling() == s {
      var a: Shape :| a.Valid() && a.Spelling() == s;
      IPv6Complete(a);
    }
  }

  /** A "::" starts at index `i` of `s`. */
  predicate DoubleColonAt(s: Str, i: int) {
    0 <= i && i + 1 < |s| && s[i] == COLON && s[i + 1] == COLON
  }

  predicate NoDoubleColon(t: Str) {
    forall i :: 0 <= i < |t| ==> !DoubleColonAt(t, i)
  }

  predicate ColonFree(t: Str) {
    forall i :: 0 <= i < |t| ==> t[i] != COLON
  }

  /** Non-empty, and neither end is a colon. */
  predicate CleanEnds(t: Str) {
    |t| > 0 && t[0] != COLON && t[|t| - 1] != COLON
  }

  lemma ColonFreeAppend(x: Str, y: Str)
    requires ColonFree(x) && ColonFree(y)
    ensures ColonFree(x + y)
  {
    forall i | 0 <= i < |x + y| ensures (x + y)[i] != COLON {
      if i >= |x| {
        assert (x + y)[i] == y[i - |x|];
      }
    }
  }

  lemma NoDoubleAppend(x: Str, y: Str)
    requires NoDoubleColon(x) && NoDoubleColon(y)
    requires x == [] || y == [] || x[|x| - 1] != COLON || y[0] != COLON
    ensures NoDoubleColon(x + y)
  {
    var s := x + y;
    forall i ensures !DoubleColonAt(s, i) {
      if DoubleColonAt(s, i) {
        if i + 1 < |x| {
          assert DoubleColonAt(x, i);
        } else if i >= |x| {
          assert DoubleColonAt(y, i - |x|);
        }
      }
    }
  }

  lemma ColonFreeNoDouble(t: Str)
    requires ColonFree(t)
    ensures NoDoubleColon(t)
  {
    forall i ensures !DoubleColonAt(t, i) {
    }
  }

  lemma H16ColonFree(h: Str)
    requires IsH16(h)
    ensures ColonFree(h) && NoDoubleColon(h) && CleanEnds(h)
  {
    forall i | 0 <= i < |h| ensures h[i] != COLON {
      assert IsHexDigit(h[i]);
    }
    ColonFreeNoDouble(h);
  }

  lemma DecimalColonFree(n: nat)
    ensures ColonFree(DecimalText(n)) && |DecimalText(n)| > 0
  {
    DecimalShape(n);
  }

  lemma QuadColonFree(q: Quad)
    ensures ColonFree(q.Spelling()) && NoDoubleColon(q.Spelling()) && CleanEnds(q.Spelling())
  {
    DecimalColonFree(q.a);
    DecimalColonFree(q.b);
    DecimalColonFree(q.c);
    DecimalColonFree(q.d);
    var w, x, y, z := DecimalText(q.a), DecimalText(q.b), DecimalText(q.c), DecimalText(q.d);
    assert ColonFree([DOT]);
    ColonFreeAppend(w, [DOT]);
    ColonFreeAppend(w + [DOT], x);
    ColonFreeAppend(w + [DOT] + x, [DOT]);
    ColonFreeAppend(w + [DOT] + x + [DOT], y);
    ColonFreeAppend(w + [DOT] + x + [DOT] + y, [DOT]);
    ColonFreeAppend(w + [DOT] + x + [DOT] + y + [DOT], z);
    ColonFreeNoDouble(q.Spelling());
  }

  lemma {:induction false} TerminatedShape(hs: seq<Str>)
    requires AllH16(hs)
    ensures NoDoubleColon(Terminated(hs))
    ensures hs != [] ==> |Terminated(hs)| > 0 && Terminated(hs)[0] != COLON
    decreases |hs|
  {
    if hs != [] {
      var h := hs[0];
      assert IsH16(h);
      H16ColonFree(h);
      assert AllH16(hs[1..]) by {
        forall i | 0 <= i < |hs[1..]| ensures IsH16(hs[1..][i]) {
          assert hs[1..][i] == hs[i + 1];
        }
      }
      TerminatedShape(hs[1..]);
      var rest := Terminated(hs[1..]);
      assert NoDoubleColon([COLON]);
      NoDoubleAppend(h, [COLON]);
      NoDoubleAppend(h + [COLON], rest);
      assert (h + [COLON] + rest)[0] == h[0];
    }
  }

  lemma ColonsShape(hs: seq<Str>)
    requires AllH16(hs)
    ensures NoDoubleColon(Colons(hs))
    ensures hs != [] ==> CleanEnds(Colons(hs))
  {
    if hs == [] {
      assert NoDoubleColon([]);
    } else {
      var init, last := hs[..|hs| - 1], hs[|hs| - 1];
      assert IsH16(last);
      H16ColonFree(last);
      AllH16Append(init, [last]);
      assert hs == init + [last];
      TerminatedShape(init);
      NoDoubleAppend(Terminated(init), last);
      var t := Terminated(init) + last;
      assert t[|t| - 1] == last[|last| - 1];
      if init != [] {
        assert t[0] == Terminated(init)[0];
      } else {
        assert t == last;
      }
    }
  }

  lemma PiecesShape(p: Pieces)
    requires p.Valid()
    ensures NoDoubleColon(p.Spelling())
    ensures p.Count() > 0 ==> CleanEnds(p.Spelling())
  {
    match p.quad
    case None =>
      ColonsShape(p.hs);
    case Some(q) =>
      QuadColonFree(q);
      TerminatedShape(p.hs);
      var u, v := Terminated(p.hs), q.Spelling();
      NoDoubleAppend(u, v);
      var t := u + v;
      assert t[|t| - 1] == v[|v| - 1];
      if p.hs != [] {
        assert t[0] == u[0];
      } else {
        assert t == v;
      }
  }

  /** A valid shape spells a "::" exactly where it elides pieces, and nowhere
      else. */
  lemma DoubleColonPlace(a: Shape)
    requires a.Valid()
    ensures forall i :: DoubleColonAt(a.Spelling(), i) <==> a.Elided? && i == |Colons(a.before)|
  {
    match a
    case Full(p) =>
      PiecesShape(p);
    case Elided(b, p) =>
      var l, r := Colons(b), p.Spelling();
      var s := a.Spelling();
      ColonsShape(b);
      PiecesShape(p);
      forall i ensures DoubleColonAt(s, i) <==> i == |l| {
        if i == |l| {
          assert s[i] == COLON && s[i + 1] == COLON;
        } else if DoubleColonAt(s, i) {
          if i + 1 < |l| {
            assert DoubleColonAt(l, i);
          } else if i >= |l| + 2 {
            assert DoubleColonAt(r, i - |l| - 2);
          }
        }
      }
  }

  /** An IPv6address holds at most one "::", never ":::", and has a "::"
      exactly when it is an elided shape. */
  lemma IPv6DoubleColon(s: Str) returns (a: Shape)
    requires Matches(IPv6Address, s)
    ensures a.Valid() && a.Spelling() == s
    ensures a.Full? <==> NoDoubleColon(s)
    ensures forall i, j :: DoubleColonAt(s, i) && DoubleColonAt(s, j) ==> i == j
    ensures forall i :: !(DoubleColonAt(s, i) && DoubleColonAt(s, i + 1))
  {
    a := IPv6Sound(s);
    DoubleColonPlace(a);
    if a.Elided? {
      assert DoubleColonAt(s, |Colons(a.before)|);
    }
  }
}
