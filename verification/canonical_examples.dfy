/** Two concrete runs of `Url.canonicalizeIpv6` (url.js:243-284): the
    loopback pieces, where the zero at index 0 blocks the elision, and a
    documentation prefix, where the first zero after index 0 is elided. */
module CanonicalExamples {

  import opened Wrappers
  import opened Text
  import opened Regex
  import opened Grammar
  import opened GrammarFacts
  import opened Ipv6Forms
  import opened CanonicalIpv6

  /** "0:" written `n` times. */
  function ZeroColons(n: nat): (r: Str)
    ensures |r| == 2 * n
    ensures forall i :: 0 <= i < |r| ==> r[i] == if i % 2 == 0 then '0' as int else COLON
  {
    if n == 0 then [] else ZERO + [COLON] + ZeroColons(n - 1)
  }

  /** `n` groups "0" and a last group, joined by ":". */
  lemma {:induction false} JoinZeros(n: nat, h: Str)
    ensures Join(Zeros(n) + [h], [COLON]) == ZeroColons(n) + h
    decreases n
  {
    if n > 0 {
      JoinZeros(n - 1, h);
      var gs := Zeros(n) + [h];
      assert gs[1..] == Zeros(n - 1) + [h];
      assert gs[0] == ZERO;
    } else {
      assert Zeros(0) + [h] == [h];
    }
  }

  /** The pieces: none before "::", "1" after it. */
  lemma LoopbackGroups()
    ensures AllH16([]) && AllH16([ONE])
    ensures Groups([], [ONE], 8) == Zeros(7) + [ONE]
  {
    CanonDigit('1' as int);
    CanonDigit('0' as int);
    var p := Padded([], [ONE], 8);
    assert p == Zeros(7) + [ONE];
    var gs := Groups([], [ONE], 8);
    forall i | 0 <= i < 8 ensures gs[i] == (Zeros(7) + [ONE])[i] {
      assert gs[i] == Canon(p[i]);
    }
  }

  /** `([], ["1"])` gives "0:0:0:0:0:0:0:1": the first zero is at index 0,
      so nothing is elided. */
  lemma LoopbackExample()
    ensures AllH16([]) && AllH16([ONE])
    ensures Canonicalize([], [ONE], None) == U("0:0:0:0:0:0:0:1")
  {
    LoopbackGroups();
    var gs := Zeros(7) + [ONE];
    assert gs[0] == ZERO;
    assert FirstZero(gs, 0, 6) == Some(0);
    assert Elision(gs, 8) == None;
    JoinZeros(7, ONE);
    LoopbackText();
  }

  lemma LoopbackText()
    ensures ZeroColons(7) + ONE == U("0:0:0:0:0:0:0:1")
  {
  }

  const G2001: Str := U("2001")
  const GDB8: Str := U("DB8")

  /** `parseInt("2001", 16)` prints back as "2001". */
  lemma Canon2001()
    ensures IsH16(U("2001")) && Canon(U("2001")) == G2001
  {
    var a := U("2001");
    assert a[..3][..2] == a[..2] && a[..2][..1] == a[..1] && a[..1][..0] == [];
    assert HexValue(a[..1]) == 0x2;
    assert HexValue(a[..2]) == 0x20;
    assert HexValue(a[..3]) == 0x200;
    assert HexValue(a) == 0x2001;
    assert HexText(0x2001) == G2001;
  }

  /** `parseInt("db8", 16)` prints back as "DB8". */
  lemma CanonDb8()
    ensures IsH16(U("db8")) && Canon(U("db8")) == GDB8
  {
    var b := U("db8");
    assert b[..2][..1] == b[..1] && b[..1][..0] == [];
    assert HexValue(b[..1]) == 0xD;
    assert HexValue(b[..2]) == 0xDB;
    assert HexValue(b) == 0xDB8;
    assert HexText(0xDB8) == GDB8;
  }

  /** The eight groups of the documentation prefix. */
  lemma DocumentationGroups()
    ensures AllH16([U("2001"), U("db8")]) && AllH16([ONE])
    ensures Groups([U("2001"), U("db8")], [ONE], 8) == [G2001, GDB8] + Zeros(5) + [ONE]
  {
    Canon2001();
    CanonDb8();
    CanonDigit('1' as int);
    CanonDigit('0' as int);
    var pre := [U("2001"), U("db8")];
    var p := Padded(pre, [ONE], 8);
    assert p == pre + Zeros(5) + [ONE];
    var gs := Groups(pre, [ONE], 8);
    forall i | 0 <= i < 8 ensures gs[i] == ([G2001, GDB8] + Zeros(5) + [ONE])[i] {
      assert gs[i] == Canon(p[i]);
    }
  }

  /** The zeros after "DB8" are elided and only "1" is left behind. */
  lemma DocumentationElision()
    ensures var gs := [G2001, GDB8] + Zeros(5) + [ONE];
      Elision(gs, 8) == Some(2) && Tail(gs, 2, false) == Some([ONE])
  {
    var gs := [G2001, GDB8] + Zeros(5) + [ONE];
    assert G2001[0] != ZERO[0] && GDB8[0] != ZERO[0];
    assert gs[0] != ZERO && gs[1] != ZERO && gs[2] == ZERO;
    assert FirstZero(gs, 0, 6) == Some(2);
    var t := gs[3..];
    assert t == [ZERO, ZERO, ZERO, ZERO, ONE];
    StripZerosToLast(t);
    OneIsNotZero();
    assert [ONE] != [ZERO];
  }

  /** Shifting "0" groups off four of them and "1" leaves "1". */
  lemma StripZerosToLast(t: seq<Str>)
    requires t == [ZERO, ZERO, ZERO, ZERO, ONE]
    ensures StripZeros(t) == [ONE]
  {
    OneIsNotZero();
    assert t[1..][1..][1..][1..] == [ONE];
    StripOne(t);
    StripOne(t[1..]);
    StripOne(t[1..][1..]);
    StripOne(t[1..][1..][1..]);
  }

  /** `(["2001", "db8"], ["1"])` gives "2001:DB8::1". */
  lemma DocumentationExample()
    ensures AllH16([U("2001"), U("db8")]) && AllH16([ONE])
    ensures Canonicalize([U("2001"), U("db8")], [ONE], None) == U("2001:DB8::1")
  {
    DocumentationGroups();
    DocumentationElision();
    var gs := [G2001, GDB8] + Zeros(5) + [ONE];
    assert gs[..2] == [G2001, GDB8];
    DocumentationText();
  }

  lemma DocumentationText()
    ensures Join([G2001, GDB8], [COLON]) + ([COLON, COLON] + Join([ONE], [COLON])) == U("2001:DB8::1")
  {
    assert [G2001, GDB8][1..] == [GDB8];
    assert Join([G2001, GDB8], [COLON]) == G2001 + [COLON] + GDB8;
  }

  /** No pieces at all: six "0" groups. */
  lemma EmptyGroups()
    ensures AllH16([])
    ensures Groups([], [], 6) == Zeros(6)
  {
    CanonDigit('0' as int);
    var p := Padded([], [], 6);
    var gs := Groups([], [], 6);
    forall i | 0 <= i < 6 ensures gs[i] == Zeros(6)[i] {
      assert gs[i] == Canon(p[i]);
    }
  }

  /** `([], [], "1.2.3.4")` gives "0:0:0:0:0:0::1.2.3.4": the first zero is at
      index 0, so nothing is elided, yet "::" still joins the quad. That is
      no IPv6address; the corrected join writes ":" there and is one. */
  lemma NoElisionExample()
    ensures AllH16([])
    ensures Canonicalize([], [], Some(Quad(1, 2, 3, 4).Spelling())) == U("0:0:0:0:0:0::1.2.3.4")
    ensures !Matches(IPv6Address, Canonicalize([], [], Some(Quad(1, 2, 3, 4).Spelling())))
    ensures Matches(IPv6Address, CanonicalizeCorrected([], [], Some(Quad(1, 2, 3, 4).Spelling())))
  {
    var q := Quad(1, 2, 3, 4);
    QuadLength(q);
    EmptyGroups();
    var gs := Zeros(6);
    assert gs[0] == ZERO;
    assert FirstZero(gs, 0, 4) == Some(0);
    assert Elision(gs, 6) == None;
    NoElisionOutput([], [], q);
    CorrectedIsAddress([], [], q);
    ZerosSnoc(5);
    JoinZeros(5, ZERO);
    NoElisionText();
  }

  lemma NoElisionText()
    ensures ZeroColons(5) + ZERO + ([COLON, COLON] + Quad(1, 2, 3, 4).Spelling()) == U("0:0:0:0:0:0::1.2.3.4")
  {
    assert Quad(1, 2, 3, 4).Spelling() == U("1.2.3.4");
  }
}
