/** Percent-decoding in url.js: the byte-wise `Url.percentDecode` (89-106)
    and `Url.utf8PercentDecode` (108-172), with the table of well-formed
    UTF-8 byte sequences of section 4 of RFC 3629 as the reference the
    second is compared with. */
module PercentDecoding {

  import opened Wrappers
  import opened Text
  import opened Regex
  import opened PercentEncoding

  /** "%" and two hexadecimal digits of either case start at `i`. */
  predicate TripletAt(s: Str, i: int) {
    0 <= i && i + 2 < |s| && s[i] == PERCENT && IsHexDigit(s[i + 1]) && IsHexDigit(s[i + 2])
  }

  /** `parseInt` of the two digits. */
  function ByteAt(s: Str, i: int): Byte
    requires TripletAt(s, i)
  {
    16 * HexDigitValue(s[i + 1]) + HexDigitValue(s[i + 2])
  }

  /** The bytes as code units. */
  function Units(bs: seq<Byte>): (r: Str)
    ensures |r| == |bs| && forall i :: 0 <= i < |bs| ==> r[i] == bs[i]
  {
    seq(|bs|, i requires 0 <= i < |bs| => bs[i] as CodeUnit)
  }

  //// percentDecode

  /** The warning test `/%($|[^0-9a-fA-F]|.$|.[^0-9a-fA-F])/` at `i`, one
      alternative per line; `.` refuses line terminators. */
  predicate WarnAt(s: Str, i: int) {
    0 <= i < |s| && s[i] == PERCENT &&
      (i + 1 == |s|
      || !IsHexDigit(s[i + 1])
      || (i + 2 == |s| && !IsLineTerminator(s[i + 1]))
      || (i + 2 < |s| && !IsLineTerminator(s[i + 1]) && !IsHexDigit(s[i + 2])))
  }

  const PercentWarning: string := "Percent sign (\"%\") not followed by two hexadecimal digits"

  /** A decoded string, with the `exception` property the source attaches
      to a `String` object when it warns. */
  datatype Decoded = Decoded(text: Str, exception: Option<string>)

  /** The replace of `/%[0-9a-fA-F]{2}/g`: left to right, each escape
      becomes the code unit of its byte value, and decoded text is not
      scanned again. */
  function DecodeEscapes(s: Str): (r: Str)
    ensures |r| <= |s|
    decreases |s|
  {
    if s == [] then []
    else if TripletAt(s, 0) then [ByteAt(s, 0) as CodeUnit] + DecodeEscapes(s[3..])
    else [s[0]] + DecodeEscapes(s[1..])
  }

  function PercentDecode(s: Str): (d: Decoded)
    ensures d.exception.Some? ==> d.exception.value == PercentWarning
    ensures |d.text| <= |s|
  {
    Decoded(DecodeEscapes(s), if exists i :: 0 <= i < |s| && WarnAt(s, i) then Some(PercentWarning) else None)
  }

  /** The four alternatives of the warning test together say: this "%" is
      not followed by two hexadecimal digits. */
  lemma WarnAtIff(s: Str, i: int)
    ensures WarnAt(s, i) <==> 0 <= i < |s| && s[i] == PERCENT && !TripletAt(s, i)
  {
  }

  /** percentDecode warns exactly when some "%" is not an escape. */
  lemma PercentDecodeWarns(s: Str)
    ensures PercentDecode(s).exception.Some? <==>
      exists i :: 0 <= i < |s| && s[i] == PERCENT && !TripletAt(s, i)
  {
    forall i | 0 <= i < |s| ensures WarnAt(s, i) <==> s[i] == PERCENT && !TripletAt(s, i) {
      WarnAtIff(s, i);
    }
  }

  /** Text with no "%" comes back unchanged and unmarked. */
  lemma {:induction false} PercentDecodeNoPercent(s: Str)
    requires forall i :: 0 <= i < |s| ==> s[i] != PERCENT
    ensures PercentDecode(s) == Decoded(s, None)
    decreases |s|
  {
    if s != [] {
      PercentDecodeNoPercent(s[1..]);
    }
  }

  /** Decoding a run of escapes gives back their bytes, with no warning. */
  lemma PercentDecodeTriplets(bs: seq<Byte>)
    ensures PercentDecode(Triplets(bs)) == Decoded(Units(bs), None)
  {
    DecodeEscapesTriplets(bs);
    TripletsEscapes(bs);
    PercentDecodeWarns(Triplets(bs));
  }

  /** Every "%" of a run of escapes starts one. */
  lemma {:induction false} TripletsEscapes(bs: seq<Byte>)
    ensures forall i :: 0 <= i < |Triplets(bs)| && Triplets(bs)[i] == PERCENT ==> TripletAt(Triplets(bs), i)
    decreases |bs|
  {
    if bs != [] {
      TripletsEscapes(bs[1..]);
      var s, t, u := Triplets(bs), Triplet(bs[0]), Triplets(bs[1..]);
      assert s == t + u;
      forall i | 0 <= i < |s| && s[i] == PERCENT ensures TripletAt(s, i) {
        if i >= 3 {
          assert s[i] == u[i - 3] && TripletAt(u, i - 3);
          assert s[i + 1] == u[i - 2] && s[i + 2] == u[i - 1];
        } else {
          assert s[i] == t[i];
          assert !IsHexDigit(PERCENT);
        }
      }
    }
  }

  /** Each escape of a run becomes its byte. */
  lemma {:induction false} DecodeEscapesTriplets(bs: seq<Byte>)
    ensures DecodeEscapes(Triplets(bs)) == Units(bs)
    decreases |bs|
  {
    if bs != [] {
      var s := Triplets(bs);
      DecodeEscapesTriplets(bs[1..]);
      assert s == Triplet(bs[0]) + Triplets(bs[1..]);
      assert s[3..] == Triplets(bs[1..]);
      assert TripletAt(s, 0) && ByteAt(s, 0) == bs[0];
      assert Units(bs) == [bs[0] as CodeUnit] + Units(bs[1..]);
    }
  }

  //// utf8PercentDecode

  /** `(b & 192) == 128` */
  predicate IsContinuation(b: int) {
    0x80 <= b <= 0xBF
  }

  /** `"%" + b.toString(16).toUpperCase()`: the byte written back. */
  function Reemit(b: Byte): (r: Str)
    ensures 2 <= |r| <= 3 && r[0] == PERCENT
  {
    HexTextLength(b, 2);
    HexTextRoundTrip(b);
    [PERCENT] + HexText(b)
  }

  /** `String.fromCharCode` keeps the low 16 bits of its argument. */
  function FromCharCode(n: nat): CodeUnit {
    n % 0x10000
  }

  /** The `while` loop over the bytes of one run: each round shifts one to
      four bytes off the front. */
  function DecodeBytes(bs: seq<Byte>): (r: Str)
    ensures |r| <= 3 * |bs| && (bs != [] ==> r != [])
    decreases |bs|
  {
    if bs == [] then []
    else
      var b := bs[0] as int;
      if b < 128 then [b as CodeUnit] + DecodeBytes(bs[1..])
      else if b < 194 then Reemit(b) + DecodeBytes(bs[1..])
      else if b < 224 then
        if |bs| == 1 then Reemit(b) + DecodeBytes(bs[1..])
        else if !IsContinuation(bs[1]) then Reemit(b) + DecodeBytes(bs[1..])
        else [FromCharCode(b * 64 + bs[1] as int - 12416)] + DecodeBytes(bs[2..])
      else if b < 240 then
        if |bs| <= 2 then Reemit(b) + DecodeBytes(bs[1..])
        // the source tests the second byte twice; the repeat never fires
        else if !IsContinuation(bs[1]) then Reemit(b) + DecodeBytes(bs[1..])
        else if b == 224 && bs[1] < 160 then Reemit(b) + DecodeBytes(bs[1..])
        else if !IsContinuation(bs[2]) then Reemit(b) + DecodeBytes(bs[1..])
        else [FromCharCode(b * 4096 + bs[1] as int * 64 + bs[2] as int - 925824)] + DecodeBytes(bs[3..])
      else if b < 245 then
        if |bs| <= 3 then Reemit(b) + DecodeBytes(bs[1..])
        else if !IsContinuation(bs[1]) then Reemit(b) + DecodeBytes(bs[1..])
        else if b == 240 && bs[1] < 144 then Reemit(b) + DecodeBytes(bs[1..])
        else if b == 244 && bs[1] >= 144 then Reemit(b) + DecodeBytes(bs[1..])
        else if !IsContinuation(bs[2]) then Reemit(b) + DecodeBytes(bs[1..])
        else if !IsContinuation(bs[3]) then Reemit(b) + DecodeBytes(bs[1..])
        else [FromCharCode(b * 262144 + bs[1] as int * 4096 + bs[2] as int * 64 + bs[3] as int - 63447168)] + DecodeBytes(bs[4..])
      else Reemit(b) + DecodeBytes(bs[1..])
  }

  /** The bytes of the escapes in the maximal run `(%[0-9a-fA-F]{2})+` that
      starts `s` (none when `s` does not start with an escape). */
  function RunBytes(s: Str): (bs: seq<Byte>)
    ensures 3 * |bs| <= |s|
    decreases |s|
  {
    if TripletAt(s, 0) then [ByteAt(s, 0)] + RunBytes(s[3..]) else []
  }

  /** `Url.utf8PercentDecode`: each maximal run of escapes is replaced by
      the decoding of its bytes; everything else is copied. */
  function Utf8PercentDecode(s: Str): (r: Str)
    ensures |r| <= |s|
    decreases |s|
  {
    if s == [] then []
    else if TripletAt(s, 0) then
      var bs := RunBytes(s);
      DecodeBytes(bs) + Utf8PercentDecode(s[3 * |bs|..])
    else [s[0]] + Utf8PercentDecode(s[1..])
  }

  //// The reference: well-formed UTF-8 byte sequences

  /** The length of the well-formed sequence that starts `bs`, by the table
      of section 4 of RFC 3629, or 0 when none does. The table's narrower
      second byte after ED (which keeps surrogates out) is NOT applied:
      the decoder accepts encoded surrogates. */
  function SequenceLength(bs: seq<Byte>): (n: nat)
    ensures n <= |bs| && n <= 4
  {
    if bs == [] then 0
    else if bs[0] <= 0x7F then 1
    else if 0xC2 <= bs[0] <= 0xDF then
      if |bs| >= 2 && IsContinuation(bs[1]) then 2 else 0
    else if 0xE0 <= bs[0] <= 0xEF then
      if |bs| >= 3 && IsContinuation(bs[1]) && IsContinuation(bs[2]) && (bs[0] == 0xE0 ==> bs[1] >= 0xA0) then 3
      else 0
    else if 0xF0 <= bs[0] <= 0xF4 then
      if |bs| >= 4 && IsContinuation(bs[1]) && IsContinuation(bs[2]) && IsContinuation(bs[3])
        && (bs[0] == 0xF0 ==> bs[1] >= 0x90) && (bs[0] == 0xF4 ==> bs[1] <= 0x8F) then 4
      else 0
    else 0
  }

  /** The code point a well-formed sequence stands for: the payload bits of
      its bytes, most significant first. */
  function ScalarValue(bs: seq<Byte>): (v: nat)
    requires SequenceLength(bs) > 0
    ensures v < 0x110000
  {
    var n := SequenceLength(bs);
    var b0, b1, b2, b3 := bs[0] as int, if n > 1 then bs[1] as int else 0, if n > 2 then bs[2] as int else 0,
      if n > 3 then bs[3] as int else 0;
    if n == 1 then b0
    else if n == 2 then (b0 - 0xC0) * 64 + (b1 - 0x80)
    else if n == 3 then (b0 - 0xE0) * 4096 + (b1 - 0x80) * 64 + (b2 - 0x80)
    else (b0 - 0xF0) * 262144 + (b1 - 0x80) * 4096 + (b2 - 0x80) * 64 + (b3 - 0x80)
  }

  /** A byte from 0x80 up is written back as its own "%XX" triplet. */
  lemma ReemitIsTriplet(b: Byte)
    requires b >= 0x80
    ensures Reemit(b) == Triplet(b)
  {
    assert HexText(b / 16) == [HexDigitUpper(b / 16)];
  }

  /** A well-formed sequence decodes to its scalar value, cut to 16 bits,
      and decoding carries on right after it. */
  lemma DecodeWellFormed(bs: seq<Byte>)
    requires SequenceLength(bs) > 0
    ensures DecodeBytes(bs) ==
      [FromCharCode(ScalarValue(bs))] + DecodeBytes(bs[SequenceLength(bs)..])
  {
  }

  /** A byte that starts no well-formed sequence is written back alone, and
      decoding resumes at the next byte. */
  lemma DecodeIllFormed(bs: seq<Byte>)
    requires bs != [] && SequenceLength(bs) == 0
    ensures bs[0] >= 0x80
    ensures DecodeBytes(bs) == Triplet(bs[0]) + DecodeBytes(bs[1..])
  {
    ReemitIsTriplet(bs[0]);
  }

  //// Round trips

  /** The payload arithmetic of the two-, three- and four-byte forms. */
  lemma TwoPayload(c: nat)
    requires 0x80 <= c < 0x800
    ensures 0xC2 <= 0xC0 + c / 64 <= 0xDF
    ensures (c / 64) * 64 + c % 64 == c
  {
  }

  lemma ThreePayload(c: nat)
    requires 0x800 <= c < 0x10000
    ensures c < 0x1000 ==> c / 64 % 64 >= 0x20
    ensures (c / 0x1000) * 4096 + (c / 64 % 64) * 64 + c % 64 == c
  {
    var q := c / 64;
    assert c == q * 64 + c % 64;
    assert q / 64 == c / 0x1000;
    assert q == (q / 64) * 64 + q % 64;
  }

  lemma FourPayload(cp: nat)
    requires 0x10000 <= cp < 0x110000
    ensures cp < 0x40000 ==> cp / 0x1000 % 64 >= 0x10
    ensures cp >= 0x100000 ==> cp / 0x40000 == 4 && cp / 0x1000 % 64 < 0x10
    ensures (cp / 0x40000) * 262144 + (cp / 0x1000 % 64) * 4096 + (cp / 64 % 64) * 64 + cp % 64 == cp
  {
    var q := cp / 64;
    var q2 := q / 64;
    assert cp == q * 64 + cp % 64;
    assert q == q2 * 64 + q % 64;
    assert q2 == cp / 0x1000;
    assert q2 == (q2 / 64) * 64 + q2 % 64;
    assert q2 / 64 == cp / 0x40000;
  }

  /** The bytes utf8PercentEncode gives one code unit form a well-formed
      sequence of the reference table whose value is that code unit. */
  lemma UnitBytesWellFormed(c: CodeUnit, rest: seq<Byte>)
    ensures SequenceLength(Utf8Bytes([c]) + rest) == |Utf8Bytes([c])|
    ensures ScalarValue(Utf8Bytes([c]) + rest) == c
  {
    var bs := Utf8Bytes([c]) + rest;
    if c < 0x80 {
    } else if c < 0x800 {
      TwoPayload(c);
      assert bs[..2] == Two(c);
    } else {
      ThreePayload(c);
      assert bs[..3] == Three(c);
    }
  }

  /** The four bytes of a surrogate pair form a well-formed sequence whose
      value is the pair's code point. */
  lemma PairBytesWellFormed(hi: CodeUnit, lo: CodeUnit, rest: seq<Byte>)
    requires IsHighSurrogate(hi) && IsLowSurrogate(lo)
    ensures SequenceLength(Utf8Bytes([hi, lo]) + rest) == 4
    ensures ScalarValue(Utf8Bytes([hi, lo]) + rest) == PairValue(hi, lo)
  {
    var cp := PairValue(hi, lo);
    FourPayload(cp);
    assert (Utf8Bytes([hi, lo]) + rest)[..4] == Four(cp);
  }

  /** Decoding the bytes of one code unit gives that unit back. */
  lemma DecodeUnitBytes(c: CodeUnit, rest: seq<Byte>)
    ensures DecodeBytes(Utf8Bytes([c]) + rest) == [c] + DecodeBytes(rest)
  {
    var bs := Utf8Bytes([c]) + rest;
    UnitBytesWellFormed(c, rest);
    DecodeWellFormed(bs);
    assert bs[|Utf8Bytes([c])|..] == rest;
    assert FromCharCode(c) == c;
  }

  /** Decoding the bytes of a surrogate pair gives one code unit: the code
      point cut to 16 bits. */
  lemma DecodePairBytes(hi: CodeUnit, lo: CodeUnit, rest: seq<Byte>)
    requires IsHighSurrogate(hi) && IsLowSurrogate(lo)
    ensures DecodeBytes(Utf8Bytes([hi, lo]) + rest) ==
      [PairValue(hi, lo) % 0x10000] + DecodeBytes(rest)
  {
    var bs := Utf8Bytes([hi, lo]) + rest;
    PairBytesWellFormed(hi, lo, rest);
    DecodeWellFormed(bs);
    assert bs[4..] == rest;
  }

  /** The run at the start of some escapes followed by text that does not
      start with an escape is exactly those escapes. */
  lemma {:induction false} RunOfTriplets(bs: seq<Byte>, t: Str)
    requires !TripletAt(t, 0)
    ensures RunBytes(Triplets(bs) + t) == bs
    decreases |bs|
  {
    var s := Triplets(bs) + t;
    if bs == [] {
      assert s == t;
    } else {
      RunOfTriplets(bs[1..], t);
      assert s == Triplet(bs[0]) + (Triplets(bs[1..]) + t);
      assert s[3..] == Triplets(bs[1..]) + t;
      assert TripletAt(s, 0) && ByteAt(s, 0) == bs[0];
    }
  }

  /** A whole run of escapes is decoded as one block of bytes. */
  lemma DecodeRun(bs: seq<Byte>, t: Str)
    requires bs != [] && !TripletAt(t, 0)
    ensures Utf8PercentDecode(Triplets(bs) + t) == DecodeBytes(bs) + Utf8PercentDecode(t)
  {
    var s := Triplets(bs) + t;
    RunOfTriplets(bs, t);
    assert s == Triplet(bs[0]) + (Triplets(bs[1..]) + t);
    assert TripletAt(s, 0);
    assert s[3 * |bs|..] == t;
  }

  /** Every code unit, surrogates included, survives utf8PercentEncode
      followed by utf8PercentDecode. */
  lemma UnitRoundTrip(c: CodeUnit)
    ensures Utf8PercentDecode(Utf8PercentEncode([c])) == [c]
  {
    var bs := Utf8Bytes([c]);
    DecodeRun(bs, []);
    assert Triplets(bs) + [] == Triplets(bs);
    DecodeUnitBytes(c, []);
    assert bs + [] == bs;
  }

  /** A surrogate pair does not survive: it comes back as the one code unit
      its code point leaves in the low 16 bits. */
  lemma PairFolds(hi: CodeUnit, lo: CodeUnit)
    requires IsHighSurrogate(hi) && IsLowSurrogate(lo)
    ensures Utf8PercentDecode(Utf8PercentEncode([hi, lo])) == [PairValue(hi, lo) % 0x10000]
  {
    var bs := Utf8Bytes([hi, lo]);
    DecodeRun(bs, []);
    assert Triplets(bs) + [] == Triplets(bs);
    DecodePairBytes(hi, lo, []);
    assert bs + [] == bs;
  }

  /** Text with no escape in it is copied. */
  lemma {:induction false} Utf8DecodeNoPercent(s: Str)
    requires forall i :: 0 <= i < |s| ==> s[i] != PERCENT
    ensures Utf8PercentDecode(s) == s
    decreases |s|
  {
    if s != [] {
      Utf8DecodeNoPercent(s[1..]);
    }
  }

  /** The UTF-8 bytes of each code unit of `cs` in turn. */
  function UnitsBytes(cs: Str): (bs: seq<Byte>)
    ensures cs != [] ==> bs != []
    decreases |cs|
  {
    if cs == [] then [] else Utf8Bytes([cs[0]]) + UnitsBytes(cs[1..])
  }

  lemma {:induction false} UnitsBytesSnoc(cs: Str, c: CodeUnit)
    ensures UnitsBytes(cs + [c]) == UnitsBytes(cs) + Utf8Bytes([c])
    decreases |cs|
  {
    if cs == [] {
      assert [] + [c] == [c] && Utf8Bytes([c]) + [] == Utf8Bytes([c]);
    } else {
      assert (cs + [c])[1..] == cs[1..] + [c];
      UnitsBytesSnoc(cs[1..], c);
    }
  }

  /** Bytes below 0x80 are copied one for one. */
  lemma {:induction false} DecodeAscii(bs: seq<Byte>)
    requires forall i :: 0 <= i < |bs| ==> bs[i] < 128
    ensures DecodeBytes(bs) == Units(bs)
    decreases |bs|
  {
    if bs != [] {
      DecodeAscii(bs[1..]);
      assert Units(bs) == [bs[0] as CodeUnit] + Units(bs[1..]);
    }
  }

  /** The bytes of a string of code units decode back to that string. */
  lemma {:induction false} DecodeUnitsBytes(cs: Str, rest: seq<Byte>)
    ensures DecodeBytes(UnitsBytes(cs) + rest) == cs + DecodeBytes(rest)
    decreases |cs|
  {
    if cs != [] {
      var head, tail := Utf8Bytes([cs[0]]), UnitsBytes(cs[1..]);
      assert UnitsBytes(cs) == head + tail;
      calc {
        DecodeBytes(UnitsBytes(cs) + rest);
        DecodeBytes((head + tail) + rest);
        { Associative(head, tail, rest); }
        DecodeBytes(head + (tail + rest));
        { DecodeUnitBytes(cs[0], tail + rest); }
        [cs[0]] + DecodeBytes(tail + rest);
        { DecodeUnitsBytes(cs[1..], rest); }
        [cs[0]] + (cs[1..] + DecodeBytes(rest));
        { Associative([cs[0]], cs[1..], DecodeBytes(rest)); }
        ([cs[0]] + cs[1..]) + DecodeBytes(rest);
        { assert [cs[0]] + cs[1..] == cs; }
        cs + DecodeBytes(rest);
      }
    } else {
      assert UnitsBytes(cs) + rest == rest;
    }
  }

  /** No surrogate pair anywhere. */
  predicate NoPairs(s: Str) {
    forall i :: 0 <= i < |s| ==> !PairAt(s, i)
  }

  lemma NoPairsTail(s: Str)
    requires s != [] && NoPairs(s)
    ensures !PairAt(s, 0) && NoPairs(s[1..])
  {
    forall i | 0 <= i < |s| - 1 ensures !PairAt(s[1..], i) {
      assert !PairAt(s, i + 1);
    }
  }

  /** percentEncode of text that does not start with a pair handles its
      first code unit on its own. */
  lemma EncodeFirst(s: Str, e: EncodeSet)
    requires s != [] && !PairAt(s, 0)
    ensures PercentEncode(s, e) == EncodeUnit([s[0]], e) + PercentEncode(s[1..], e)
  {
    assert s[..1] == [s[0]];
  }

  /** Pending escapes followed by text that is not an escape decode to the
      pending code units. */
  lemma FlushPending(cs: Str, t: Str)
    requires cs != [] && !TripletAt(t, 0)
    ensures Utf8PercentDecode(Triplets(UnitsBytes(cs)) + t) == cs + Utf8PercentDecode(t)
  {
    var bs := UnitsBytes(cs);
    calc {
      Utf8PercentDecode(Triplets(bs) + t);
      { DecodeRun(bs, t); }
      DecodeBytes(bs) + Utf8PercentDecode(t);
      { assert bs + [] == bs; DecodeUnitsBytes(cs, []); }
      (cs + []) + Utf8PercentDecode(t);
      { assert cs + [] == cs; }
      cs + Utf8PercentDecode(t);
    }
  }

  /** A code unit other than "%" is copied. */
  lemma CopyFirst(c: CodeUnit, t: Str)
    requires c != PERCENT
    ensures Utf8PercentDecode([c] + t) == [c] + Utf8PercentDecode(t)
  {
    assert ([c] + t)[1..] == t;
  }

  /** No pending escapes: just the text. */
  lemma NonePending(t: Str)
    ensures Triplets(UnitsBytes([])) + t == t
  {
  }

  /** The escapes of one more code unit join the pending ones. */
  lemma PendMore(cs: Str, c: CodeUnit, t: Str)
    ensures Triplets(UnitsBytes(cs)) + (Utf8PercentEncode([c]) + t) == Triplets(UnitsBytes(cs + [c])) + t
  {
    var bs, cb := UnitsBytes(cs), Utf8Bytes([c]);
    UnitsBytesSnoc(cs, c);
    TripletsAppend(bs, cb);
    Associative(Triplets(bs), Triplets(cb), t);
  }

  /** The three steps of `EncodeDecodePending`, one lemma each. */
  lemma StepPend(cs: Str, c: CodeUnit, s': Str, t': Str)
    requires Utf8PercentDecode(Triplets(UnitsBytes(cs + [c])) + t') == (cs + [c]) + s'
    ensures Utf8PercentDecode(Triplets(UnitsBytes(cs)) + (Utf8PercentEncode([c]) + t')) == cs + ([c] + s')
  {
    PendMore(cs, c, t');
    Associative(cs, [c], s');
  }

  lemma StepCopy(c: CodeUnit, s': Str, t': Str)
    requires c != PERCENT
    requires Utf8PercentDecode(Triplets(UnitsBytes([])) + t') == [] + s'
    ensures Utf8PercentDecode(Triplets(UnitsBytes([])) + ([c] + t')) == [] + ([c] + s')
  {
    NonePending([c] + t');
    NonePending(t');
    CopyFirst(c, t');
  }

  lemma StepFlush(cs: Str, s: Str, t: Str)
    requires cs != [] && !TripletAt(t, 0)
    requires Utf8PercentDecode(Triplets(UnitsBytes([])) + t) == [] + s
    ensures Utf8PercentDecode(Triplets(UnitsBytes(cs)) + t) == cs + s
  {
    assert Utf8PercentDecode(t) == s by {
      NonePending(t);
    }
    FlushPending(cs, t);
  }

  /** The induction behind `EncodeDecodeRoundTrip`: `cs` are code units
      already encoded whose escapes have not yet been decoded. */
  lemma {:induction false} EncodeDecodePending(cs: Str, s: Str, e: EncodeSet)
    requires forall i :: 0 <= i < |s| ==> s[i] != PERCENT
    requires NoPairs(s)
    ensures Utf8PercentDecode(Triplets(UnitsBytes(cs)) + PercentEncode(s, e)) == cs + s
    decreases |s|, |cs|
  {
    if s == [] {
      assert PercentEncode(s, e) == [];
      if cs != [] {
        FlushPending(cs, []);
      }
      assert Triplets(UnitsBytes(cs)) + [] == Triplets(UnitsBytes(cs));
      assert cs + [] == cs;
    } else {
      var c, s' := s[0], s[1..];
      var t, t' := PercentEncode(s, e), PercentEncode(s', e);
      NoPairsTail(s);
      EncodeFirst(s, e);
      assert s == [c] + s';
      if InSet(c, e) {
        assert t == Utf8PercentEncode([c]) + t';
        EncodeDecodePending(cs + [c], s', e);
        StepPend(cs, c, s', t');
      } else {
        assert t == [c] + t';
        if cs == [] {
          EncodeDecodePending([], s', e);
          StepCopy(c, s', t');
        } else {
          EncodeDecodePending([], s, e);
          StepFlush(cs, s, t);
        }
      }
    }
  }

  /** Text with no "%" and no surrogate pair survives percentEncode, with
      any encode set, followed by utf8PercentDecode. */
  lemma EncodeDecodeRoundTrip(s: Str, e: EncodeSet)
    requires forall i :: 0 <= i < |s| ==> s[i] != PERCENT
    requires NoPairs(s)
    ensures Utf8PercentDecode(PercentEncode(s, e)) == s
  {
    EncodeDecodePending([], s, e);
    assert Triplets(UnitsBytes([])) + PercentEncode(s, e) == PercentEncode(s, e);
  }

  //// Decoding twice

  /** "%C3%25%34%31", "%C3%41" and "%C3A", as code units. */
  const ESCAPED: Str := [0x25, 0x43, 0x33, 0x25, 0x32, 0x35, 0x25, 0x33, 0x34, 0x25, 0x33, 0x31]
  const ONCE: Str := [0x25, 0x43, 0x33, 0x25, 0x34, 0x31]
  const TWICE: Str := [0x25, 0x43, 0x33, 0x41]

  lemma EscapedText()
    ensures U("%C3%25%34%31") == ESCAPED && U("%C3%41") == ONCE && U("%C3A") == TWICE
  {
  }

  /** A run of escapes shifts one byte per escape. */
  lemma RunStep(s: Str)
    requires TripletAt(s, 0)
    ensures RunBytes(s) == [ByteAt(s, 0)] + RunBytes(s[3..])
  {
  }

  lemma EscapedRun()
    ensures RunBytes(ESCAPED) == [0xC3, 0x25, 0x34, 0x31]
  {
    var s1, s2, s3 := ESCAPED[3..], ESCAPED[6..], ESCAPED[9..];
    assert s1[3..] == s2 && s2[3..] == s3 && s3[3..] == [];
    assert ByteAt(s3, 0) == 0x31;
    RunStep(s3);
    assert ByteAt(s2, 0) == 0x34;
    RunStep(s2);
    assert ByteAt(s1, 0) == 0x25;
    RunStep(s1);
    assert ByteAt(ESCAPED, 0) == 0xC3;
    RunStep(ESCAPED);
  }

  lemma OnceRun()
    ensures RunBytes(ONCE) == [0xC3, 0x41]
  {
    var s1 := ONCE[3..];
    assert s1[3..] == [];
    assert ByteAt(s1, 0) == 0x41;
    RunStep(s1);
    assert ByteAt(ONCE, 0) == 0xC3;
    RunStep(ONCE);
  }

  /** The lead byte C3 written back. */
  lemma ReemitC3()
    ensures Reemit(0xC3) == [0x25, 0x43, 0x33]
  {
    assert HexText(0xC) == [0x43];
    assert HexText(0xC3) == HexText(0xC) + [0x33];
  }

  /** C3 followed by a byte that is no continuation is re-emitted alone. */
  lemma LoneC3(rest: seq<Byte>)
    requires rest != [] && !IsContinuation(rest[0])
    ensures DecodeBytes([0xC3] + rest) == Reemit(0xC3) + DecodeBytes(rest)
  {
    assert ([0xC3] + rest)[1..] == rest;
  }

  /** Neither decoder is idempotent: an escaped "%" comes out as a "%"
      that the next decoding reads as the start of an escape. */
  lemma PercentDecodeNotIdempotent()
    ensures PercentDecode(ESCAPED).text == [0xC3] + ONCE[3..]
    ensures PercentDecode([0xC3] + ONCE[3..]).text == [0xC3, 0x41]
  {
    var s1, s2, s3 := ESCAPED[3..], ESCAPED[6..], ESCAPED[9..];
    assert s1[3..] == s2 && s2[3..] == s3 && s3[3..] == [];
    assert ByteAt(s3, 0) == 0x31 && ByteAt(s2, 0) == 0x34 && ByteAt(s1, 0) == 0x25 && ByteAt(ESCAPED, 0) == 0xC3;
    assert DecodeEscapes(s3) == [0x31];
    assert DecodeEscapes(s2) == [0x34, 0x31];
    assert DecodeEscapes(s1) == [0x25, 0x34, 0x31];
    assert DecodeEscapes(ESCAPED) == [0xC3, 0x25, 0x34, 0x31];
    var t := [0xC3] + ONCE[3..];
    assert !TripletAt(t, 0) && t[1..] == ONCE[3..] && t[1..][3..] == [];
    assert ByteAt(t[1..], 0) == 0x41;
    assert DecodeEscapes(t[1..]) == [0x41];
  }

  /** The UTF-8 decoder re-emits the lone lead byte C3 as "%C3", and the
      "%" decoded from "%25" then forms the escape "%41" with the next two
      characters. */
  lemma Utf8DecodeNotIdempotent()
    ensures Utf8PercentDecode(ESCAPED) == ONCE && Utf8PercentDecode(ONCE) == TWICE
  {
    EscapedRun();
    OnceRun();
    ReemitC3();
    LoneC3([0x25, 0x34, 0x31]);
    DecodeAscii([0x25, 0x34, 0x31]);
    assert ESCAPED[12..] == [] && TripletAt(ESCAPED, 0);
    assert Utf8PercentDecode(ESCAPED) == DecodeBytes([0xC3, 0x25, 0x34, 0x31]) + Utf8PercentDecode([]);
    LoneC3([0x41]);
    DecodeAscii([0x41]);
    assert ONCE[6..] == [] && TripletAt(ONCE, 0);
    assert Utf8PercentDecode(ONCE) == DecodeBytes([0xC3, 0x41]) + Utf8PercentDecode([]);
  }
}
