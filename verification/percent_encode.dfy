/** Percent-encoding in url.js: `Url.utf8PercentEncode` (51-87), the five
    encode sets (31-36) and `Url.percentEncode` (174-178). UTF-8 follows
    section 3 of RFC 3629, except that a surrogate code unit with no
    partner is encoded as if it were a scalar value. */
module PercentEncoding {

  import opened Text

  type Byte = b: int | 0 <= b < 0x100

  predicate IsHighSurrogate(c: int) {
    0xD800 <= c <= 0xDBFF
  }

  predicate IsLowSurrogate(c: int) {
    0xDC00 <= c <= 0xDFFF
  }

  /** `[ -~]` */
  predicate IsPrintable(c: int) {
    0x20 <= c <= 0x7E
  }

  /** The code point of a surrogate pair. */
  function PairValue(hi: int, lo: int): (cp: nat)
    requires IsHighSurrogate(hi) && IsLowSurrogate(lo)
    ensures 0x10000 <= cp < 0x110000
  {
    (hi - 0xD800) * 0x400 + (lo - 0xDC00) + 0x10000
  }

  //// UTF-8 bytes

  /** Two bytes: `(c >> 6) | 192, (c & 63) | 128`, the ORs adding bits
      that are clear. */
  function Two(c: nat): (bs: seq<Byte>)
    requires c < 0x800
  {
    [0xC0 + c / 64, 0x80 + c % 64]
  }

  /** Three bytes: `(c >> 12) | 224, ((c >> 6) & 63) | 128, (c & 63) | 128`. */
  function Three(c: nat): (bs: seq<Byte>)
    requires c < 0x10000
  {
    [0xE0 + c / 0x1000, 0x80 + c / 64 % 64, 0x80 + c % 64]
  }

  /** Four bytes for a supplementary code point. */
  function Four(cp: nat): (bs: seq<Byte>)
    requires cp < 0x110000
  {
    [0xF0 + cp / 0x40000, 0x80 + cp / 0x1000 % 64, 0x80 + cp / 64 % 64, 0x80 + cp % 64]
  }

  /** The bytes `utf8PercentEncode` computes for the text of one match: the
      first code unit decides, and a high surrogate takes a following low
      surrogate with it. On empty text `charCodeAt(0)` is NaN, which fails
      every comparison and reads as 0 in every bit operation, so it takes
      the three-byte branch with the value 0. A surrogate without its
      partner (there `charCodeAt(1)` is NaN or not a low surrogate) takes
      the three-byte branch too. */
  function Utf8Bytes(cp: Str): (bs: seq<Byte>)
    ensures |cp| == 0 ==> bs == [0xE0, 0x80, 0x80]
    ensures |cp| > 0 && cp[0] < 0x80 ==> bs == [cp[0]]
  {
    if |cp| == 0 then Three(0)
    else if cp[0] < 0x80 then [cp[0]]
    else if cp[0] < 0x800 then Two(cp[0])
    else if !(0xD800 <= cp[0] <= 0xDFFF) then Three(cp[0])
    else if !(IsHighSurrogate(cp[0]) && |cp| > 1 && IsLowSurrogate(cp[1])) then Three(cp[0])
    else Four(PairValue(cp[0], cp[1]))
  }

  //// "%XX" triplets

  /** `"%" + hi.toString(16) + lo.toString(16)`, upper-cased. */
  function Triplet(b: Byte): (r: Str)
    ensures |r| == 3 && r[0] == PERCENT && IsHexDigit(r[1]) && IsHexDigit(r[2])
    ensures 16 * HexDigitValue(r[1]) + HexDigitValue(r[2]) == b
    ensures !IsLowerAlpha(r[1]) && !IsLowerAlpha(r[2])
  {
    [PERCENT, HexDigitUpper(b / 16), HexDigitUpper(b % 16)]
  }

  function Triplets(bs: seq<Byte>): (r: Str)
    ensures |r| == 3 * |bs|
    decreases |bs|
  {
    if bs == [] then [] else Triplet(bs[0]) + Triplets(bs[1..])
  }

  lemma {:induction false} TripletsAppend(x: seq<Byte>, y: seq<Byte>)
    ensures Triplets(x + y) == Triplets(x) + Triplets(y)
    decreases |x|
  {
    if x != [] {
      assert (x + y)[1..] == x[1..] + y;
      TripletsAppend(x[1..], y);
    } else {
      assert x + y == y;
    }
  }

  /** `Url.utf8PercentEncode`: one upper-case "%XX" triplet per byte. One
      triplet below U+0080, two below U+0800, four for a surrogate pair and
      three for any other single code unit, an unpaired surrogate (or the
      empty text) included. */
  function Utf8PercentEncode(cp: Str): (r: Str)
    ensures |cp| > 0 && cp[0] < 0x80 ==> |r| == 3
    ensures |cp| > 0 && 0x80 <= cp[0] < 0x800 ==> |r| == 6
    ensures |cp| > 1 && IsHighSurrogate(cp[0]) && IsLowSurrogate(cp[1]) ==> |r| == 12
    ensures (|cp| == 0 || (0x800 <= cp[0] && !(|cp| > 1 && IsHighSurrogate(cp[0]) && IsLowSurrogate(cp[1]))))
      ==> |r| == 9
    ensures forall i :: 0 <= i < |r| ==> (i % 3 == 0 <==> r[i] == PERCENT)
    ensures forall i :: 0 <= i < |r| && i % 3 != 0 ==> IsHexDigit(r[i]) && !IsLowerAlpha(r[i])
  {
    TripletsShape(Utf8Bytes(cp));
    Triplets(Utf8Bytes(cp))
  }

  /** Every third code unit of a run of triplets is "%", and the others are
      upper-case hexadecimal digits. */
  lemma {:induction false} TripletsShape(bs: seq<Byte>)
    ensures forall i :: 0 <= i < |Triplets(bs)| ==> (i % 3 == 0 <==> Triplets(bs)[i] == PERCENT)
    ensures forall i :: 0 <= i < |Triplets(bs)| && i % 3 != 0 ==>
      IsHexDigit(Triplets(bs)[i]) && !IsLowerAlpha(Triplets(bs)[i])
    decreases |bs|
  {
    if bs != [] {
      TripletsShape(bs[1..]);
      var r, t := Triplets(bs), Triplet(bs[0]);
      forall i | 0 <= i < |r|
        ensures (i % 3 == 0 <==> r[i] == PERCENT)
        ensures i % 3 != 0 ==> IsHexDigit(r[i]) && !IsLowerAlpha(r[i])
      {
        if i >= 3 {
          assert r[i] == Triplets(bs[1..])[i - 3];
        }
      }
    }
  }

  //// Encode sets

  datatype EncodeSet = Simple | Password | Username | Default | Query

  /** The ASCII characters each set adds to the base set
      `([\uD800-\uDBFF][\uDC00-\uDFFF])|[^ -~]`. */
  function Extra(e: EncodeSet): set<int> {
    match e
    case Simple => {}
    case Password => {'@' as int, '/' as int}
    case Username => {'@' as int, '/' as int, ':' as int}
    case Default => {0x20, '"' as int, '#' as int, '<' as int, '>' as int, '?' as int}
    case Query => {0x20, 0x23, 0x3C, 0x3E, 0x60}
  }

  /** A single code unit the set matches on its own. */
  predicate InSet(c: int, e: EncodeSet) {
    !IsPrintable(c) || c in Extra(e)
  }

  /** The set's first alternative: a high surrogate then a low one. */
  predicate PairAt(s: Str, i: int) {
    0 <= i && i + 1 < |s| && IsHighSurrogate(s[i]) && IsLowSurrogate(s[i + 1])
  }

  /** How many code units the scan takes at the start of `s`: a pair is
      taken whole. */
  function StepLength(s: Str): (n: nat)
    requires s != []
    ensures 1 <= n <= |s|
    ensures n == 2 <==> PairAt(s, 0)
  {
    if PairAt(s, 0) then 2 else 1
  }

  /** The replacement of one scanned unit: its triplets when the set
      matches it, the unit itself otherwise. */
  function EncodeUnit(u: Str, e: EncodeSet): (r: Str)
    requires |u| == 1 || (|u| == 2 && PairAt(u, 0))
    ensures forall i :: 0 <= i < |r| ==> IsPrintable(r[i])
  {
    if |u| == 2 || InSet(u[0], e) then Utf8PercentEncode(u) else u
  }

  /** `Url.percentEncode`: a global replace that scans left to right and at
      each position tries the pair first, then the single code unit. */
  function PercentEncode(s: Str, e: EncodeSet): (r: Str)
    ensures forall i :: 0 <= i < |r| ==> IsPrintable(r[i])
    decreases |s|
  {
    if s == [] then []
    else
      var n := StepLength(s);
      EncodeUnit(s[..n], e) + PercentEncode(s[n..], e)
  }

  //// What percentEncode changes

  /** No set holds the percent sign. */
  lemma PercentNotInSets(e: EncodeSet)
    ensures !InSet(PERCENT, e)
  {
  }

  /** A code unit outside the set is copied; one inside it becomes its
      triplets. */
  lemma EncodeOne(c: CodeUnit, e: EncodeSet)
    ensures PercentEncode([c], e) == if InSet(c, e) then Utf8PercentEncode([c]) else [c]
  {
    assert !PairAt([c], 0);
    assert [c][..1] == [c] && [c][1..] == [];
  }

  /** A surrogate pair is encoded whole. */
  lemma EncodePair(hi: CodeUnit, lo: CodeUnit, e: EncodeSet)
    requires IsHighSurrogate(hi) && IsLowSurrogate(lo)
    ensures PercentEncode([hi, lo], e) == Utf8PercentEncode([hi, lo])
  {
    assert PairAt([hi, lo], 0);
    assert [hi, lo][..2] == [hi, lo] && [hi, lo][2..] == [];
  }


  /** Appending text does not change the first scanned unit, unless a high
      surrogate at the end meets a low one. */
  lemma StepAppend(x: Str, y: Str)
    requires x != []
    requires !(|y| > 0 && IsHighSurrogate(x[|x| - 1]) && IsLowSurrogate(y[0]))
    ensures StepLength(x + y) == StepLength(x)
    ensures (x + y)[..StepLength(x)] == x[..StepLength(x)]
    ensures (x + y)[StepLength(x)..] == x[StepLength(x)..] + y
  {
    var s := x + y;
    if |x| == 1 && |y| > 0 {
      assert s[0] == x[0] && s[1] == y[0];
    } else if |x| > 1 {
      assert s[0] == x[0] && s[1] == x[1];
    }
  }

  /** Encoding works piece by piece, as long as the cut does not separate a
      high surrogate from the low one after it. */
  lemma {:induction false} EncodeAppend(x: Str, y: Str, e: EncodeSet)
    requires !(|x| > 0 && |y| > 0 && IsHighSurrogate(x[|x| - 1]) && IsLowSurrogate(y[0]))
    ensures PercentEncode(x + y, e) == PercentEncode(x, e) + PercentEncode(y, e)
    decreases |x|
  {
    if x == [] {
      assert x + y == y;
    } else {
      var n := StepLength(x);
      StepAppend(x, y);
      var head, rest := x[..n], x[n..];
      assert rest != [] ==> rest[|rest| - 1] == x[|x| - 1];
      EncodeAppend(rest, y, e);
      var u, p, q := EncodeUnit(head, e), PercentEncode(rest, e), PercentEncode(y, e);
      assert PercentEncode(x, e) == u + p;
      assert PercentEncode(x + y, e) == u + PercentEncode(rest + y, e);
      Associative(u, p, q);
    }
  }

  /** Text the set does not match comes back unchanged. */
  lemma {:induction false} EncodeUnmatched(s: Str, e: EncodeSet)
    requires forall i :: 0 <= i < |s| ==> !InSet(s[i], e)
    ensures PercentEncode(s, e) == s
    decreases |s|
  {
    if s != [] {
      assert !PairAt(s, 0) && [s[0]] == s[..1];
      EncodeUnmatched(s[1..], e);
    }
  }
}
