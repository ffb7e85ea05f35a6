/** `Url.canonicalizeIpv6` (url.js:243-284): the text form of an IPv6
    address from the pieces a parser found before and after "::" and an
    optional dotted-quad tail. This is not the form of RFC 5952: hex is
    upper-case, the FIRST zero group is elided rather than the longest
    run, a zero group at index 0 is never elided, and the dotted quad is
    always joined with "::". */
module CanonicalIpv6 {

  import opened Wrappers
  import opened Text
  import opened Regex
  import opened Grammar
  import opened Ipv6Forms

  /** The group "0". */
  const ZERO: Str := ['0' as int]

  /** `n` groups "0" (none when `n` is not positive). */
  function Zeros(n: int): (r: seq<Str>)
    ensures |r| == if n < 0 then 0 else n
    ensures forall i :: 0 <= i < |r| ==> r[i] == ZERO
  {
    if n <= 0 then [] else seq(n, _ => ZERO)
  }

  lemma ZerosSnoc(n: nat)
    ensures Zeros(n) + [ZERO] == Zeros(n + 1)
  {
  }

  /** 6 pieces leave room for a dotted quad, 8 otherwise. */
  function Slots(ipv4: Option<Str>): nat {
    if Truthy(ipv4) then 6 else 8
  }

  /** `parseInt(n, 16).toString(16).toUpperCase()` */
  function Canon(h: Str): (r: Str)
    requires IsH16(h)
    ensures IsH16(r) && HexValue(r) == HexValue(h)
    ensures r == ZERO <==> HexValue(h) == 0
    ensures r[0] != '0' as int || r == ZERO
    ensures forall i :: 0 <= i < |r| ==> !IsLowerAlpha(r[i])
  {
    HexValueBound(h);
    HexTextRoundTrip(HexValue(h));
    HexTextLength(HexValue(h), 4);
    HexTextZero(HexValue(h));
    HexText(HexValue(h))
  }

  lemma {:induction false} HexValueBound(s: Str)
    requires AllHex(s)
    ensures HexValue(s) < Pow16(|s|)
    decreases |s|
  {
    if s != [] {
      HexValueBound(s[..|s| - 1]);
    }
  }

  /** The pieces with "0" groups pushed onto `pre` until there are `slots`
      of them. */
  function Padded(pre: seq<Str>, post: seq<Str>, slots: nat): (r: seq<Str>)
    ensures |r| == if |pre| + |post| < slots then slots else |pre| + |post|
    ensures r[..|pre|] == pre && r[|r| - |post|..] == post
    ensures forall i :: |pre| <= i < |r| - |post| ==> r[i] == ZERO
    ensures AllH16(pre) && AllH16(post) ==> AllH16(r)
  {
    var r := pre + Zeros(slots - |pre| - |post|) + post;
    assert AllH16(pre) && AllH16(post) ==> AllH16(r) by {
      if AllH16(pre) && AllH16(post) {
        AllH16Append(pre, Zeros(slots - |pre| - |post|));
        AllH16Append(pre + Zeros(slots - |pre| - |post|), post);
      }
    }
    r
  }

  /** The padded pieces, each rewritten by `Canon`. */
  function Groups(pre: seq<Str>, post: seq<Str>, slots: nat): (gs: seq<Str>)
    requires AllH16(pre) && AllH16(post)
    ensures |gs| == |Padded(pre, post, slots)| && AllH16(gs)
    ensures forall i :: 0 <= i < |gs| ==>
      gs[i] == Canon(Padded(pre, post, slots)[i]) && HexValue(gs[i]) == HexValue(Padded(pre, post, slots)[i])
  {
    var p := Padded(pre, post, slots);
    seq(|p|, i requires 0 <= i < |p| => Canon(p[i]))
  }

  /** The first "0" group at an index from `i` to `last`. */
  function FirstZero(gs: seq<Str>, i: nat, last: int): (r: Option<nat>)
    ensures r.Some? ==> i <= r.value <= last && r.value < |gs| && gs[r.value] == ZERO
    ensures r.Some? ==> forall j :: i <= j < r.value ==> gs[j] != ZERO
    ensures r.None? ==> forall j :: i <= j <= last && j < |gs| ==> gs[j] != ZERO
    decreases last - i + 1
  {
    if i > last then None
    else if i < |gs| && gs[i] == ZERO then Some(i)
    else FirstZero(gs, i + 1, last)
  }

  /** Where "::" goes: the first "0" among indices 0 to slots - 2, except
      that `!zero` treats index 0 like no zero at all. */
  function Elision(gs: seq<Str>, slots: nat): (r: Option<nat>)
    ensures r.Some? ==> 1 <= r.value <= slots - 2 && r.value < |gs| && gs[r.value] == ZERO
    ensures r.Some? ==> forall j :: 0 <= j < r.value ==> gs[j] != ZERO
    ensures r.None? ==> (|gs| > 0 && gs[0] == ZERO) || forall j :: 0 <= j <= slots - 2 && j < |gs| ==> gs[j] != ZERO
  {
    match FirstZero(gs, 0, slots - 2)
    case Some(z) => if z == 0 then None else Some(z)
    case None => None
  }

  /** Leading "0" groups shifted off while more than one group is left. */
  function StripZeros(gs: seq<Str>): (r: seq<Str>)
    ensures |r| <= |gs| && (gs != [] ==> r != [])
    ensures r == gs[|gs| - |r|..]
    ensures forall j :: 0 <= j < |gs| - |r| ==> gs[j] == ZERO
    decreases |gs|
  {
    if |gs| > 1 && gs[0] == ZERO then StripZeros(gs[1..]) else gs
  }

  /** The groups written after "::", or none: with a dotted quad a lone
      remaining "0" is dropped. */
  function Tail(gs: seq<Str>, z: nat, v4: bool): (r: Option<seq<Str>>)
    requires z + 1 < |gs|
    ensures r.Some? ==> r.value != [] && |r.value| <= |gs| - z - 1
    ensures r.Some? ==> r.value == gs[|gs| - |r.value|..] && forall j :: z < j < |gs| - |r.value| ==> gs[j] == ZERO
    ensures r.None? ==> v4 && forall j :: z < j < |gs| ==> gs[j] == ZERO
  {
    var u := gs[z + 1..];
    var t := StripZeros(u);
    assert u[|u| - |t|..] == gs[|gs| - |t|..];
    assert forall j :: z < j < |gs| - |t| ==> gs[j] == u[j - z - 1];
    assert t == [ZERO] ==> gs[|gs| - 1] == t[0];
    if v4 && t == [ZERO] then None else Some(t)
  }

  /** The text before the dotted-quad suffix. */
  function Head(gs: seq<Str>, slots: nat, v4: bool): Str
    requires |gs| >= slots
  {
    match Elision(gs, slots)
    case None => Join(gs, [COLON])
    case Some(z) =>
      Join(gs[..z], [COLON]) +
        match Tail(gs, z, v4)
        case None => []
        case Some(t) => [COLON, COLON] + Join(t, [COLON])
  }

  /** The output for the rewritten groups, as written: with a dotted quad
      present, "::" and the quad always follow. */
  function FromGroups(gs: seq<Str>, ipv4: Option<Str>): Str
    requires |gs| >= Slots(ipv4)
  {
    Head(gs, Slots(ipv4), Truthy(ipv4)) + if Truthy(ipv4) then [COLON, COLON] + ipv4.value else []
  }

  /** Upper-case hexadecimal digits and ":" only. */
  predicate CanonText(s: Str) {
    forall i :: 0 <= i < |s| ==> s[i] == COLON || (IsHexDigit(s[i]) && !IsLowerAlpha(s[i]))
  }

  predicate AllCanonText(gs: seq<Str>) {
    forall i :: 0 <= i < |gs| ==> CanonText(gs[i])
  }

  lemma CanonTextAppend(x: Str, y: Str)
    requires CanonText(x) && CanonText(y)
    ensures CanonText(x + y)
  {
    assert forall i :: |x| <= i < |x + y| ==> (x + y)[i] == y[i - |x|];
  }

  lemma {:induction false} JoinCanonText(gs: seq<Str>)
    requires AllCanonText(gs)
    ensures CanonText(Join(gs, [COLON]))
    decreases |gs|
  {
    if |gs| > 1 {
      assert forall i :: 0 <= i < |gs| - 1 ==> gs[1..][i] == gs[i + 1];
      JoinCanonText(gs[1..]);
      CanonTextAppend(gs[0], [COLON]);
      CanonTextAppend(gs[0] + [COLON], Join(gs[1..], [COLON]));
    } else if |gs| == 1 {
      assert CanonText(gs[0]);
    }
  }

  /** The rewritten groups are upper-case hex. */
  lemma GroupsCanonText(pre: seq<Str>, post: seq<Str>, slots: nat)
    requires AllH16(pre) && AllH16(post)
    ensures AllCanonText(Groups(pre, post, slots))
  {
    var gs := Groups(pre, post, slots);
    forall i | 0 <= i < |gs| ensures CanonText(gs[i]) {
      assert IsH16(gs[i]);
    }
  }

  /** The text before the dotted quad is upper-case hex and ":". */
  lemma HeadCanonText(gs: seq<Str>, slots: nat, v4: bool)
    requires |gs| >= slots && AllCanonText(gs)
    ensures CanonText(Head(gs, slots, v4))
  {
    match Elision(gs, slots)
    case None =>
      JoinCanonText(gs);
    case Some(z) =>
      ElidedCanonText(gs, z, Tail(gs, z, v4));
  }

  lemma ElidedCanonText(gs: seq<Str>, z: nat, tail: Option<seq<Str>>)
    requires z <= |gs| && AllCanonText(gs)
    requires tail.Some? ==> |tail.value| <= |gs| && tail.value == gs[|gs| - |tail.value|..]
    ensures CanonText(Join(gs[..z], [COLON]) + match tail case None => [] case Some(t) => [COLON, COLON] + Join(t, [COLON]))
  {
    assert forall i :: 0 <= i < z ==> gs[..z][i] == gs[i];
    JoinCanonText(gs[..z]);
    match tail
    case None =>
      assert Join(gs[..z], [COLON]) + [] == Join(gs[..z], [COLON]);
    case Some(t) =>
      assert forall i :: 0 <= i < |t| ==> t[i] == gs[|gs| - |t| + i];
      JoinCanonText(t);
      CanonTextAppend([COLON, COLON], Join(t, [COLON]));
      CanonTextAppend(Join(gs[..z], [COLON]), [COLON, COLON] + Join(t, [COLON]));
  }

  /** `Url.canonicalizeIpv6` as written. `pre` and `post` are the 16-bit
      pieces the parser hands over. The output is upper-case hex and ":",
      followed, when a dotted quad is given, by "::" and the quad. */
  function Canonicalize(pre: seq<Str>, post: seq<Str>, ipv4: Option<Str>): (r: Str)
    requires AllH16(pre) && AllH16(post)
    ensures var n := if Truthy(ipv4) then |ipv4.value| + 2 else 0;
      n <= |r| && CanonText(r[..|r| - n]) && r[|r| - n..] == (if Truthy(ipv4) then [COLON, COLON] + ipv4.value else [])
  {
    var gs := Groups(pre, post, Slots(ipv4));
    GroupsCanonText(pre, post, Slots(ipv4));
    HeadCanonText(gs, Slots(ipv4), Truthy(ipv4));
    FromGroups(gs, ipv4)
  }

  /** The same with the dotted quad joined as the address grammar asks:
      after "::" only when the elided run reaches the end, after ":"
      otherwise. */
  function FromGroupsCorrected(gs: seq<Str>, ipv4: Option<Str>): Str
    requires |gs| >= Slots(ipv4)
  {
    var slots, v4 := Slots(ipv4), Truthy(ipv4);
    Head(gs, slots, v4) +
      if !v4 then []
      else
        match Elision(gs, slots)
        case Some(z) => if Tail(gs, z, v4).None? then [COLON, COLON] + ipv4.value else [COLON] + ipv4.value
        case None => [COLON] + ipv4.value
  }

  /** Without a dotted quad the corrected output is the output as written;
      with one, upper-case hex and ":" come first, then ":" and the quad. */
  function CanonicalizeCorrected(pre: seq<Str>, post: seq<Str>, ipv4: Option<Str>): (r: Str)
    requires AllH16(pre) && AllH16(post)
    ensures !Truthy(ipv4) ==> r == Canonicalize(pre, post, ipv4)
    ensures Truthy(ipv4) ==>
      (|ipv4.value| + 1 <= |r| && CanonText(r[..|r| - |ipv4.value| - 1]) &&
       r[|r| - |ipv4.value| - 1..] == [COLON] + ipv4.value)
  {
    var gs := Groups(pre, post, Slots(ipv4));
    GroupsCanonText(pre, post, Slots(ipv4));
    HeadCanonText(gs, Slots(ipv4), Truthy(ipv4));
    if Truthy(ipv4) then CorrectedQuadJoin(gs, ipv4); FromGroupsCorrected(gs, ipv4)
    else FromGroupsCorrected(gs, ipv4)
  }

  /** The corrected join: the text before the quad, then ":" and the quad
      (the text before ending in ":" itself when the elision reaches the
      quad). */
  lemma CorrectedQuadJoin(gs: seq<Str>, ipv4: Option<Str>)
    requires Truthy(ipv4) && |gs| >= 6 && CanonText(Head(gs, 6, true))
    ensures var r, v := FromGroupsCorrected(gs, ipv4), ipv4.value;
      |v| + 1 <= |r| && CanonText(r[..|r| - |v| - 1]) && r[|r| - |v| - 1..] == [COLON] + v
  {
    var h, v := Head(gs, 6, true), ipv4.value;
    CanonTextAppend(h, [COLON]);
    var e := Elision(gs, 6);
    var r := FromGroupsCorrected(gs, ipv4);
    if e.Some? && Tail(gs, e.value, true).None? {
      assert r == (h + [COLON]) + ([COLON] + v);
    } else {
      assert r == h + ([COLON] + v);
    }
  }

  //// What the canonical text stands for

  /** The pieces a shape stands for, the elided ones written as "0"; with a
      dotted quad, the six pieces in front of it. */
  function Expanded(a: Shape): seq<Str> {
    match a
    case Full(p) => p.hs
    case Elided(b, p) => b + Zeros((if p.quad.Some? then 6 else 8) - |b| - |p.hs|) + p.hs
  }

  lemma {:induction false} ColonsJoin(hs: seq<Str>)
    ensures Join(hs, [COLON]) == Colons(hs)
    decreases |hs|
  {
    if |hs| >= 2 {
      ColonsJoin(hs[1..]);
      var n := |hs|;
      assert hs[1..][..n - 2] == hs[1..n - 1];
      assert hs[..n - 1] == [hs[0]] + hs[1..n - 1];
      assert Terminated(hs[..n - 1]) == hs[0] + [COLON] + Terminated(hs[1..n - 1]);
    } else if |hs| == 1 {
      assert hs[..0] == [];
    }
  }

  lemma ColonsTerminated(hs: seq<Str>)
    requires hs != []
    ensures Colons(hs) + [COLON] == Terminated(hs)
  {
    var n := |hs|;
    assert hs == hs[..n - 1] + [hs[n - 1]];
    TerminatedAppend(hs[..n - 1], [hs[n - 1]]);
    assert Terminated([hs[n - 1]]) == hs[n - 1] + [COLON];
  }

  /** What the elision leaves out is "0" groups only: the groups are the
      ones before it, zeros, then the tail. */
  lemma ElidedGroups(gs: seq<Str>, z: nat, t: seq<Str>)
    requires z < |gs| && gs[z] == ZERO && t == StripZeros(gs[z + 1..])
    ensures gs == gs[..z] + Zeros(|gs| - z - |t|) + t
  {
    var u := gs[z + 1..];
    var k := |u| - |t|;
    var g := gs[..z] + Zeros(|gs| - z - |t|) + t;
    assert |g| == |gs|;
    forall i | 0 <= i < |gs| ensures g[i] == gs[i] {
      if i < z {
      } else if i < z + 1 + k {
        if i > z {
          assert gs[i] == u[i - z - 1];
        }
      } else {
        assert gs[i] == u[i - z - 1];
        assert t[i - z - 1 - k] == u[i - z - 1];
      }
    }
  }

  lemma SliceH16(gs: seq<Str>, k: nat)
    requires AllH16(gs) && k <= |gs|
    ensures AllH16(gs[..k]) && AllH16(gs[k..])
  {
    assert forall i :: 0 <= i < k ==> gs[..k][i] == gs[i];
    assert forall i :: 0 <= i < |gs| - k ==> gs[k..][i] == gs[k + i];
  }

  /** The unelided output: the groups joined by ":". */
  lemma FullShape(gs: seq<Str>, q: Option<Quad>) returns (a: Shape)
    requires AllH16(gs) && |gs| == (if q.Some? then 6 else 8) && (q.Some? ==> q.value.Valid())
    ensures a.Valid() && Expanded(a) == gs
    ensures q.None? ==> a.Spelling() == Join(gs, [COLON]) && NoQuad(a)
    ensures q.Some? ==> a.Spelling() == Join(gs, [COLON]) + ([COLON] + q.value.Spelling())
  {
    ColonsJoin(gs);
    a := Full(Pieces(gs, q));
    if q.Some? {
      ColonsTerminated(gs);
      Associative(Colons(gs), [COLON], q.value.Spelling());
    }
  }

  /** The elided output: the groups before the first "0", "::", and the
      groups after it with leading zeros stripped. */
  lemma ElidedShape(gs: seq<Str>, z: nat, t: seq<Str>) returns (a: Shape)
    requires AllH16(gs) && |gs| == 8 && 1 <= z && z + 1 < |gs| && gs[z] == ZERO
    requires t == StripZeros(gs[z + 1..])
    ensures a.Valid() && Expanded(a) == gs
    ensures a.Spelling() == Join(gs[..z], [COLON]) + ([COLON, COLON] + Join(t, [COLON])) && NoQuad(a)
  {
    TailH16(gs, z, t);
    var p := Pieces(t, None);
    a := Elided(gs[..z], p);
    ElidedValid(gs[..z], p);
    ElidedGroups(gs, z, t);
    ElidedExpanded(gs, z, t, None);
    ElidedSpelling(gs[..z], p);
    ColonsJoin(t);
  }

  /** The groups on either side of "::" are 16-bit pieces. */
  lemma TailH16(gs: seq<Str>, z: nat, t: seq<Str>)
    requires AllH16(gs) && z + 1 < |gs| && t == StripZeros(gs[z + 1..])
    ensures AllH16(gs[..z]) && AllH16(t) && |t| <= |gs| - z - 1
  {
    SliceH16(gs, z);
    SliceH16(gs, |gs| - |t|);
    assert gs[|gs| - |t|..] == t;
  }

  lemma ElidedValid(b: seq<Str>, p: Pieces)
    requires AllH16(b) && p.Valid() && |b| + p.Count() <= 7
    ensures Elided(b, p).Valid()
  {
  }

  /** The elided shape stands for the groups, given that only "0"s were
      elided. */
  lemma ElidedExpanded(gs: seq<Str>, z: nat, t: seq<Str>, q: Option<Quad>)
    requires |gs| == (if q.Some? then 6 else 8) && z + |t| < |gs|
    requires gs == gs[..z] + Zeros(|gs| - z - |t|) + t
    ensures Expanded(Elided(gs[..z], Pieces(t, q))) == gs
  {
    assert |gs[..z]| == z;
  }

  /** A tail that was a lone "0" is elided too. */
  lemma DroppedTailExpanded(gs: seq<Str>, z: nat, q: Quad)
    requires |gs| == 6 && z + 1 < |gs|
    requires gs == gs[..z] + Zeros(|gs| - z - 1) + [ZERO]
    ensures Expanded(Elided(gs[..z], Pieces([], Some(q)))) == gs
  {
    ZerosSnoc(|gs| - z - 1);
    assert gs[..z] + Zeros(|gs| - z - 1) + [ZERO] == gs[..z] + (Zeros(|gs| - z - 1) + [ZERO]);
    assert |gs[..z]| == z;
  }

  lemma ElidedSpelling(b: seq<Str>, p: Pieces)
    ensures Elided(b, p).Spelling() == Join(b, [COLON]) + ([COLON, COLON] + p.Spelling())
  {
    ColonsJoin(b);
    Associative(Colons(b), [COLON, COLON], p.Spelling());
  }

  /** The output for eight groups and no dotted quad, as a shape. */
  lemma GroupsShape(gs: seq<Str>) returns (a: Shape)
    requires AllH16(gs) && |gs| == 8
    ensures a.Valid() && a.Spelling() == FromGroups(gs, None) && Expanded(a) == gs && NoQuad(a)
  {
    assert FromGroups(gs, None) == Head(gs, 8, false) + [];
    match Elision(gs, 8)
    case None =>
      a := FullShape(gs, None);
    case Some(z) =>
      a := ElidedShape(gs, z, Tail(gs, z, false).value);
  }

  /** With no dotted quad and at most eight pieces in, the output is an
      IPv6address of RFC 3986 that stands for the padded pieces, value for
      value. */
  lemma CanonicalShape(pre: seq<Str>, post: seq<Str>) returns (a: Shape)
    requires AllH16(pre) && AllH16(post) && |pre| + |post| <= 8
    ensures a.Valid() && a.Spelling() == Canonicalize(pre, post, None)
    ensures Expanded(a) == Groups(pre, post, 8) && NoQuad(a)
  {
    a := GroupsShape(Groups(pre, post, 8));
  }

  /** The output with no dotted quad is always an IPv6address. */
  lemma CanonicalIsAddress(pre: seq<Str>, post: seq<Str>)
    requires AllH16(pre) && AllH16(post) && |pre| + |post| <= 8
    ensures Matches(IPv6Address, Canonicalize(pre, post, None))
  {
    var a := CanonicalShape(pre, post);
    IPv6Shapes(a.Spelling());
  }

  /** A dotted quad closing the pieces after ":". */
  lemma QuadPiecesSpelling(t: seq<Str>, q: Quad)
    requires t != []
    ensures Pieces(t, Some(q)).Spelling() == Join(t, [COLON]) + ([COLON] + q.Spelling())
  {
    ColonsJoin(t);
    ColonsTerminated(t);
    Associative(Colons(t), [COLON], q.Spelling());
  }

  lemma Regroup(w: Str, x: Str, y: Str, z: Str)
    ensures w + (x + (y + z)) == (w + (x + y)) + z
  {
  }

  lemma QuadNonEmpty(q: Quad)
    ensures q.Spelling() != []
  {
    assert |q.Spelling()| >= 3;
  }

  /** The corrected output with a dotted quad after an elision that
      leaves groups behind it: those groups, ":", the quad. */
  lemma QuadTailShape(gs: seq<Str>, z: nat, t: seq<Str>, q: Quad) returns (a: Shape)
    requires AllH16(gs) && |gs| == 6 && 1 <= z <= 4 && gs[z] == ZERO && q.Valid()
    requires t == StripZeros(gs[z + 1..])
    ensures a.Valid() && Expanded(a) == gs
    ensures a.Spelling() == (Join(gs[..z], [COLON]) + ([COLON, COLON] + Join(t, [COLON]))) + ([COLON] + q.Spelling())
  {
    var b := gs[..z];
    TailH16(gs, z, t);
    var p := Pieces(t, Some(q));
    a := Elided(b, p);
    ElidedValid(b, p);
    ElidedGroups(gs, z, t);
    ElidedExpanded(gs, z, t, Some(q));
    ElidedSpelling(b, p);
    QuadPiecesSpelling(t, q);
    Regroup(Join(b, [COLON]), [COLON, COLON], Join(t, [COLON]), [COLON] + q.Spelling());
  }

  /** The corrected output with a dotted quad after an elision that takes
      every group after it: "::" and the quad. */
  lemma DroppedTailShape(gs: seq<Str>, z: nat, q: Quad) returns (a: Shape)
    requires AllH16(gs) && |gs| == 6 && 1 <= z <= 4 && gs[z] == ZERO && q.Valid()
    requires StripZeros(gs[z + 1..]) == [ZERO]
    ensures a.Valid() && Expanded(a) == gs
    ensures a.Spelling() == Join(gs[..z], [COLON]) + ([COLON, COLON] + q.Spelling())
  {
    var b := gs[..z];
    TailH16(gs, z, [ZERO]);
    var p := Pieces([], Some(q));
    a := Elided(b, p);
    ElidedValid(b, p);
    ElidedGroups(gs, z, [ZERO]);
    DroppedTailExpanded(gs, z, q);
    ElidedSpelling(b, p);
    assert p.Spelling() == q.Spelling();
  }

  lemma CorrectedGroupsShape(gs: seq<Str>, q: Quad) returns (a: Shape)
    requires AllH16(gs) && |gs| == 6 && q.Valid()
    ensures a.Valid() && a.Spelling() == FromGroupsCorrected(gs, Some(q.Spelling())) && Expanded(a) == gs
  {
    QuadNonEmpty(q);
    match Elision(gs, 6)
    case None =>
      a := FullShape(gs, Some(q));
    case Some(z) =>
      var t := StripZeros(gs[z + 1..]);
      var v := q.Spelling();
      if t == [ZERO] {
        assert Tail(gs, z, true).None?;
        a := DroppedTailShape(gs, z, q);
        assert Head(gs, 6, true) == Join(gs[..z], [COLON]) + [];
        assert FromGroupsCorrected(gs, Some(v)) == Head(gs, 6, true) + ([COLON, COLON] + v);
        assert Join(gs[..z], [COLON]) + [] == Join(gs[..z], [COLON]);
      } else {
        assert Tail(gs, z, true) == Some(t);
        a := QuadTailShape(gs, z, t, q);
        assert Head(gs, 6, true) == Join(gs[..z], [COLON]) + ([COLON, COLON] + Join(t, [COLON]));
        assert FromGroupsCorrected(gs, Some(v)) == Head(gs, 6, true) + ([COLON] + v);
      }
  }

  /** With the dotted quad joined correctly, the output with at most six
      pieces and a valid dotted quad is always an IPv6address of RFC 3986,
      and it stands for the padded pieces, value for value. */
  lemma CorrectedShape(pre: seq<Str>, post: seq<Str>, q: Quad) returns (a: Shape)
    requires AllH16(pre) && AllH16(post) && |pre| + |post| <= 6 && q.Valid()
    ensures a.Valid() && a.Spelling() == CanonicalizeCorrected(pre, post, Some(q.Spelling()))
    ensures Expanded(a) == Groups(pre, post, 6)
  {
    QuadNonEmpty(q);
    a := CorrectedGroupsShape(Groups(pre, post, 6), q);
  }

  lemma CorrectedIsAddress(pre: seq<Str>, post: seq<Str>, q: Quad)
    requires AllH16(pre) && AllH16(post) && |pre| + |post| <= 6 && q.Valid()
    ensures Matches(IPv6Address, CanonicalizeCorrected(pre, post, Some(q.Spelling())))
  {
    var a := CorrectedShape(pre, post, q);
    IPv6Shapes(a.Spelling());
  }

  /** Text with "::" at two places is no IPv6address. */
  lemma TwoElisions(l: Str, m: Str, v: Str)
    ensures !Matches(IPv6Address, (l + ([COLON, COLON] + m)) + ([COLON, COLON] + v))
  {
    var s := (l + ([COLON, COLON] + m)) + ([COLON, COLON] + v);
    assert DoubleColonAt(s, |l|);
    assert DoubleColonAt(s, |l| + 2 + |m|);
    if Matches(IPv6Address, s) {
      var a := IPv6DoubleColon(s);
      assert false;
    }
  }

  /** As written, a dotted quad after an elision that leaves groups behind
      it is joined with a second "::", and the output is no IPv6address. */
  lemma DoubleElision(pre: seq<Str>, post: seq<Str>, v: Str)
    requires AllH16(pre) && AllH16(post) && v != []
    requires var gs := Groups(pre, post, 6);
      Elision(gs, 6).Some? && Tail(gs, Elision(gs, 6).value, true).Some?
    ensures !Matches(IPv6Address, Canonicalize(pre, post, Some(v)))
  {
    var gs := Groups(pre, post, 6);
    var z := Elision(gs, 6).value;
    TwoElisions(Join(gs[..z], [COLON]), Join(Tail(gs, z, true).value, [COLON]), v);
  }

  /** The number of ":" in `s`. */
  function ColonCount(s: Str): nat
    decreases |s|
  {
    if s == [] then 0 else (if s[0] == COLON then 1 else 0) + ColonCount(s[1..])
  }

  lemma {:induction false} ColonCountAppend(x: Str, y: Str)
    ensures ColonCount(x + y) == ColonCount(x) + ColonCount(y)
    decreases |x|
  {
    if x != [] {
      assert (x + y)[1..] == x[1..] + y;
      ColonCountAppend(x[1..], y);
    } else {
      assert x + y == y;
    }
  }

  lemma {:induction false} H16ColonCount(h: Str)
    requires AllHex(h)
    ensures ColonCount(h) == 0
    decreases |h|
  {
    if h != [] {
      assert h[0] != COLON;
      H16ColonCount(h[1..]);
    }
  }

  lemma {:induction false} TerminatedColonCount(hs: seq<Str>)
    requires AllH16(hs)
    ensures ColonCount(Terminated(hs)) == |hs|
    decreases |hs|
  {
    if hs != [] {
      assert forall i :: 0 <= i < |hs| - 1 ==> hs[1..][i] == hs[i + 1];
      TerminatedColonCount(hs[1..]);
      H16ColonCount(hs[0]);
      ColonCountAppend(hs[0], [COLON]);
      ColonCountAppend(hs[0] + [COLON], Terminated(hs[1..]));
    }
  }

  /** `n` pieces joined by ":" hold `n - 1` colons. */
  lemma ColonsColonCount(hs: seq<Str>)
    requires AllH16(hs) && hs != []
    ensures ColonCount(Colons(hs)) == |hs| - 1
  {
    var n := |hs|;
    SliceH16(hs, n - 1);
    TerminatedColonCount(hs[..n - 1]);
    H16ColonCount(hs[n - 1]);
    ColonCountAppend(Terminated(hs[..n - 1]), hs[n - 1]);
  }

  /** A dotted quad is at least seven characters long: longer than any
      16-bit piece. */
  lemma QuadLength(q: Quad)
    ensures |q.Spelling()| >= 7
  {
    DecimalColonFree(q.a);
    DecimalColonFree(q.b);
    DecimalColonFree(q.c);
    DecimalColonFree(q.d);
  }

  /** A "::" right after `l` in a valid shape's spelling is its one elision:
      `l` is the text of the pieces before it, and the rest is the text of
      the pieces after it. */
  lemma SplitAtElision(a: Shape, l: Str, w: Str)
    requires a.Valid() && a.Spelling() == l + ([COLON, COLON] + w)
    ensures a.Elided? && Colons(a.before) == l && a.after.Spelling() == w
  {
    var s := a.Spelling();
    assert DoubleColonAt(s, |l|);
    ElisionAt(a, |l|);
    SameSplit(Colons(a.before), a.after.Spelling(), l, w);
  }

  lemma SameSplit(c: Str, x: Str, l: Str, w: Str)
    requires |c| == |l| && c + [COLON, COLON] + x == l + ([COLON, COLON] + w)
    ensures c == l && x == w
  {
    var s := l + ([COLON, COLON] + w);
    assert c == s[..|l|] == l;
    assert x == s[|l| + 2..] == w;
  }

  /** Where a valid shape's spelling has "::". */
  lemma ElisionAt(a: Shape, i: int)
    requires a.Valid() && DoubleColonAt(a.Spelling(), i)
    ensures a.Elided? && i == |Colons(a.before)|
  {
    DoubleColonPlace(a);
  }

  /** Pieces spelled alike are equally many. */
  lemma SameColonsCount(b: seq<Str>, gs: seq<Str>)
    requires AllH16(b) && AllH16(gs) && gs != [] && Colons(b) == Colons(gs)
    ensures |b| == |gs|
  {
    var n := |gs|;
    assert Colons(gs) == Terminated(gs[..n - 1]) + gs[n - 1] && |gs[n - 1]| > 0;
    ColonsColonCount(gs);
    ColonsColonCount(b);
  }

  /** At most one piece and no quad spell at most four characters. */
  lemma ShortPieces(p: Pieces)
    requires p.Valid() && p.Count() <= 1
    ensures |p.Spelling()| <= 4
  {
    if p.hs != [] {
      assert p.Spelling() == p.hs[0];
    }
  }

  /** No valid shape is spelled as six pieces, "::" and a dotted quad: the
      "::" would have to follow all six pieces, leaving room for one more
      piece only, and no single piece is spelled like a quad. */
  lemma NotSixThenQuad(a: Shape, gs: seq<Str>, q: Quad)
    requires a.Valid() && AllH16(gs) && |gs| == 6
    ensures a.Spelling() != Colons(gs) + ([COLON, COLON] + q.Spelling())
  {
    if a.Spelling() == Colons(gs) + ([COLON, COLON] + q.Spelling()) {
      SplitAtElision(a, Colons(gs), q.Spelling());
      SameColonsCount(a.before, gs);
      ShortPieces(a.after);
      QuadLength(q);
      assert false;
    }
  }

  /** Six groups joined by ":", then "::" and a dotted quad, are no
      IPv6address. */
  lemma NoElisionQuad(gs: seq<Str>, q: Quad)
    requires AllH16(gs) && |gs| == 6
    ensures !Matches(IPv6Address, Join(gs, [COLON]) + ([COLON, COLON] + q.Spelling()))
  {
    ColonsJoin(gs);
    var s := Colons(gs) + ([COLON, COLON] + q.Spelling());
    if Matches(IPv6Address, s) {
      var a := IPv6Sound(s);
      NotSixThenQuad(a, gs, q);
      assert false;
    }
  }

  /** As written, a dotted quad after groups with no elision (no "0"
      group, or only one at index 0) is joined with "::" after six groups,
      and the output is no IPv6address. */
  lemma NoElisionOutput(pre: seq<Str>, post: seq<Str>, q: Quad)
    requires AllH16(pre) && AllH16(post) && |pre| + |post| <= 6
    requires Elision(Groups(pre, post, 6), 6).None?
    ensures !Matches(IPv6Address, Canonicalize(pre, post, Some(q.Spelling())))
  {
    QuadLength(q);
    var gs := Groups(pre, post, 6);
    assert Canonicalize(pre, post, Some(q.Spelling())) == Join(gs, [COLON]) + ([COLON, COLON] + q.Spelling());
    NoElisionQuad(gs, q);
  }

  //// Canonicalizing twice

  /** The pieces a shape writes before and after "::" (all of them before,
      for a full shape). */
  function Before(a: Shape): seq<Str> {
    match a
    case Full(p) => p.hs
    case Elided(b, _) => b
  }

  function After(a: Shape): seq<Str> {
    match a
    case Full(_) => []
    case Elided(_, p) => p.hs
  }

  predicate NoQuad(a: Shape) {
    match a
    case Full(p) => p.quad.None?
    case Elided(_, p) => p.quad.None?
  }

  /** A canonical group is its own canonical form. */
  lemma CanonIdempotent(h: Str)
    requires IsH16(h)
    ensures Canon(Canon(h)) == Canon(h)
  {
  }

  /** Without a dotted quad, feeding the pieces before and after the "::"
      of the output back in gives the same output again. */
  lemma CanonicalIdempotent(pre: seq<Str>, post: seq<Str>) returns (a: Shape)
    requires AllH16(pre) && AllH16(post) && |pre| + |post| <= 8
    ensures a.Valid() && a.Spelling() == Canonicalize(pre, post, None)
    ensures AllH16(Before(a)) && AllH16(After(a)) && |Before(a)| + |After(a)| <= 8
    ensures Canonicalize(Before(a), After(a), None) == Canonicalize(pre, post, None)
  {
    a := CanonicalShape(pre, post);
    var gs := Groups(pre, post, 8);
    var p := Padded(Before(a), After(a), 8);
    assert p == Expanded(a);
    var gs2 := Groups(Before(a), After(a), 8);
    forall i | 0 <= i < 8 ensures gs2[i] == gs[i] {
      CanonIdempotent(Padded(pre, post, 8)[i]);
    }
    assert gs2 == gs;
  }

  //// Examples

  /** A one-digit decimal group is its own canonical form. */
  lemma CanonDigit(d: int)
    requires '0' as int <= d <= '9' as int
    ensures IsH16([d]) && Canon([d]) == [d]
  {
    assert [d][..0] == [];
    assert HexValue([d]) == d - '0' as int;
  }

  const ONE: Str := ['1' as int]
  const FIVE: Str := ['5' as int]

  lemma OneFiveGroups()
    ensures AllH16([ONE]) && AllH16([FIVE])
    ensures Groups([ONE], [FIVE], 6) == [ONE, ZERO, ZERO, ZERO, ZERO, FIVE]
  {
    CanonDigit('1' as int);
    CanonDigit('5' as int);
    CanonDigit('0' as int);
    var p := Padded([ONE], [FIVE], 6);
    assert p == [ONE, ZERO, ZERO, ZERO, ZERO, FIVE];
  }

  /** "1" is not the group "0". */
  lemma OneIsNotZero()
    ensures ONE != ZERO && FIVE != ZERO
  {
    assert ONE[0] != ZERO[0];
    assert FIVE[0] != ZERO[0];
  }

  /** One leading "0" group is shifted off. */
  lemma StripOne(t: seq<Str>)
    requires |t| > 1 && t[0] == ZERO
    ensures StripZeros(t) == StripZeros(t[1..])
  {
  }

  /** Leading "0" groups in front of "5" are all shifted off. */
  lemma StripBeforeFive()
    ensures StripZeros([ZERO, ZERO, ZERO, FIVE]) == [FIVE]
  {
    var t3, t2, t1 := [ZERO, ZERO, ZERO, FIVE], [ZERO, ZERO, FIVE], [ZERO, FIVE];
    assert t3[1..] == t2 && t2[1..] == t1 && t1[1..] == [FIVE];
    StripOne(t3);
    StripOne(t2);
    StripOne(t1);
  }

  /** The pieces "1" and "5" with a dotted quad give the groups "1", four
      "0"s and "5"; the elision starts at index 1 and leaves "5" behind. */
  lemma DoubleElisionInput()
    ensures var gs := [ONE, ZERO, ZERO, ZERO, ZERO, FIVE];
      Elision(gs, 6) == Some(1) && Tail(gs, 1, true) == Some([FIVE])
  {
    var gs := [ONE, ZERO, ZERO, ZERO, ZERO, FIVE];
    OneIsNotZero();
    assert gs[0] != ZERO && gs[1] == ZERO;
    assert FirstZero(gs, 1, 4) == Some(1);
    assert FirstZero(gs, 0, 4) == Some(1);
    assert gs[2..] == [ZERO, ZERO, ZERO, FIVE];
    StripBeforeFive();
    assert [FIVE] != [ZERO];
  }

  /** As written, the pieces "1" and "5" with the quad 1.2.3.4 come out as
      "1::5::1.2.3.4", which is no IPv6address; the corrected join gives
      "1::5:1.2.3.4", which is one. */
  lemma DoubleElisionExample()
    ensures !Matches(IPv6Address, Canonicalize([ONE], [FIVE], Some(Quad(1, 2, 3, 4).Spelling())))
    ensures Matches(IPv6Address, CanonicalizeCorrected([ONE], [FIVE], Some(Quad(1, 2, 3, 4).Spelling())))
  {
    var q := Quad(1, 2, 3, 4);
    QuadNonEmpty(q);
    OneFiveGroups();
    DoubleElisionInput();
    DoubleElision([ONE], [FIVE], q.Spelling());
    CorrectedIsAddress([ONE], [FIVE], q);
  }
}
