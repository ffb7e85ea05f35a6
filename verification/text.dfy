/** JavaScript strings as sequences of UTF-16 code units, with the character
    and hexadecimal helpers shared by the grammar and the codec. */
module Text {

  import opened Wrappers

  /** One UTF-16 code unit, the value `charCodeAt` returns. */
  type CodeUnit = c: int | 0 <= c < 0x1_0000

  /** A JavaScript string: a sequence of code units, in which surrogates may
      appear paired or unpaired. */
  type Str = seq<CodeUnit>

  /** The code units of a Dafny string literal whose characters all lie in the
      Basic Multilingual Plane; used to write concrete strings in lemmas. */
  function U(t: string): (r: Str)
    requires forall i :: 0 <= i < |t| ==> t[i] as int < 0x1_0000
    ensures |r| == |t|
    ensures forall i :: 0 <= i < |t| ==> r[i] == t[i] as int
  {
    seq(|t|, i requires 0 <= i < |t| => t[i] as int)
  }

  /** A nullable JavaScript string is truthy when it is present and not
      empty. */
  predicate Truthy(v: Option<Str>) {
    v.Some? && v.value != []
  }

  const PERCENT: CodeUnit := 0x25
  const COLON: CodeUnit := 0x3A
  const HASH: CodeUnit := 0x23
  const SLASH: CodeUnit := 0x2F
  const DOT: CodeUnit := 0x2E

  predicate IsDigit(c: int) {
    '0' as int <= c <= '9' as int
  }

  predicate IsUpperAlpha(c: int) {
    'A' as int <= c <= 'Z' as int
  }

  predicate IsLowerAlpha(c: int) {
    'a' as int <= c <= 'z' as int
  }

  /** `[0-9A-Fa-f]` */
  predicate IsHexDigit(c: int) {
    IsDigit(c) || 'A' as int <= c <= 'F' as int || 'a' as int <= c <= 'f' as int
  }

  /** The value of one hexadecimal digit of either case. */
  function HexDigitValue(c: int): (v: nat)
    requires IsHexDigit(c)
    ensures v < 16
  {
    if IsDigit(c) then c - '0' as int
    else if c <= 'F' as int then c - 'A' as int + 10
    else c - 'a' as int + 10
  }

  /** The upper-case hexadecimal digit for `v`. */
  function HexDigitUpper(v: nat): (c: CodeUnit)
    requires v < 16
    ensures IsHexDigit(c) && !IsLowerAlpha(c) && HexDigitValue(c) == v
  {
    if v < 10 then '0' as int + v else 'A' as int + (v - 10)
  }

  /** `n.toString(16).toUpperCase()`: the shortest upper-case hexadecimal
      numeral of `n`. */
  function HexText(n: nat): (r: Str)
    decreases n
  {
    if n < 16 then [HexDigitUpper(n)] else HexText(n / 16) + [HexDigitUpper(n % 16)]
  }

  /** `parseInt(s, 16)` on a non-empty run of hexadecimal digits. */
  function HexValue(s: Str): (v: nat)
    requires forall i :: 0 <= i < |s| ==> IsHexDigit(s[i])
    decreases |s|
  {
    if s == [] then 0 else HexValue(s[..|s| - 1]) * 16 + HexDigitValue(s[|s| - 1])
  }

  predicate AllHex(s: Str) {
    forall i :: 0 <= i < |s| ==> IsHexDigit(s[i])
  }

  /** Parsing the numeral `HexText` prints gives back the number, and the
      numeral is made of upper-case digits. */
  lemma {:induction false} HexTextRoundTrip(n: nat)
    ensures 1 <= |HexText(n)|
    ensures AllHex(HexText(n)) && HexValue(HexText(n)) == n
    ensures forall i :: 0 <= i < |HexText(n)| ==> !IsLowerAlpha(HexText(n)[i])
    decreases n
  {
    if n >= 16 {
      HexTextRoundTrip(n / 16);
      var t := HexText(n);
      assert t[..|t| - 1] == HexText(n / 16);
    }
  }

  /** The numeral has no leading zero: it is "0" exactly for zero. */
  lemma {:induction false} HexTextZero(n: nat)
    ensures HexText(n) == ['0' as int] <==> n == 0
    ensures n > 0 ==> HexText(n)[0] != '0' as int
    decreases n
  {
    if n >= 16 {
      HexTextZero(n / 16);
    }
  }

  /** A number below 16^k prints with at most k digits. */
  lemma {:induction false} HexTextLength(n: nat, k: nat)
    requires n < Pow16(k) && k >= 1
    ensures |HexText(n)| <= k
    decreases k
  {
    if n >= 16 {
      HexTextLength(n / 16, k - 1);
    }
  }

  function Pow16(k: nat): nat {
    if k == 0 then 1 else 16 * Pow16(k - 1)
  }

  /** JavaScript's `toLowerCase` restricted to ASCII: `A`-`Z` become `a`-`z`,
      every other code unit is kept. */
  function ToLowerAscii(s: Str): (r: Str)
    ensures |r| == |s|
    ensures forall i :: 0 <= i < |s| ==> r[i] == (if IsUpperAlpha(s[i]) then s[i] + 32 else s[i])
    ensures forall i :: 0 <= i < |r| ==> !IsUpperAlpha(r[i])
  {
    seq(|s|, i requires 0 <= i < |s| => if IsUpperAlpha(s[i]) then s[i] + 32 else s[i])
  }

  /** Lower-casing is idempotent, and it changes exactly the strings that
      hold an upper-case ASCII letter. */
  lemma ToLowerAsciiFixed(s: Str)
    ensures ToLowerAscii(ToLowerAscii(s)) == ToLowerAscii(s)
    ensures ToLowerAscii(s) == s <==> forall i :: 0 <= i < |s| ==> !IsUpperAlpha(s[i])
  {
    if ToLowerAscii(s) == s {
      forall i | 0 <= i < |s| ensures !IsUpperAlpha(s[i]) {
        assert ToLowerAscii(s)[i] == s[i];
      }
    }
  }

  /** `parts.join(sep)` */
  function Join(parts: seq<Str>, sep: Str): Str
    decreases |parts|
  {
    if |parts| == 0 then []
    else if |parts| == 1 then parts[0]
    else parts[0] + sep + Join(parts[1..], sep)
  }

  /** `s.indexOf(c)`: the first position of `c`, if any. */
  function IndexOf(s: Str, c: int): (r: Option<nat>)
    ensures r.Some? ==> r.value < |s| && s[r.value] == c && forall j :: 0 <= j < r.value ==> s[j] != c
    ensures r.None? ==> forall j :: 0 <= j < |s| ==> s[j] != c
    decreases |s|
  {
    if s == [] then None
    else if s[0] == c then Some(0)
    else match IndexOf(s[1..], c)
      case None => None
      case Some(k) => Some(k + 1)
  }

  predicate IsAscii(s: Str) {
    forall i :: 0 <= i < |s| ==> s[i] < 0x80
  }

  /** The code unit at `i` has a percent sign beside it. */
  predicate Neighboured(s: Str, i: int) {
    (0 <= i + 1 < |s| && s[i + 1] == PERCENT) || (0 < i <= |s| && s[i - 1] == PERCENT)
  }

  /** Every percent sign stands next to another one. */
  predicate PercentsPaired(s: Str) {
    forall i {:trigger Neighboured(s, i)} :: 0 <= i < |s| && s[i] == PERCENT ==> Neighboured(s, i)
  }

  lemma PairedAt(s: Str, i: int)
    requires PercentsPaired(s) && 0 <= i < |s| && s[i] == PERCENT
    ensures (i + 1 < |s| && s[i + 1] == PERCENT) || (0 < i && s[i - 1] == PERCENT)
  {
    assert Neighboured(s, i);
  }

  /** Both properties survive concatenation: a neighbour inside either part
      is still a neighbour in the whole. */
  lemma AsciiPairedAppend(x: Str, y: Str)
    requires IsAscii(x) && PercentsPaired(x) && IsAscii(y) && PercentsPaired(y)
    ensures IsAscii(x + y) && PercentsPaired(x + y)
  {
    var s := x + y;
    forall i | 0 <= i < |s| ensures s[i] < 0x80 {
      if i < |x| { assert s[i] == x[i]; } else { assert s[i] == y[i - |x|]; }
    }
    forall i | 0 <= i < |s| && s[i] == PERCENT ensures Neighboured(s, i) {
      if i < |x| {
        NeighbouredLeft(x, y, i);
      } else {
        NeighbouredRight(x, y, i - |x|);
      }
    }
    assert PercentsPaired(s);
  }

  lemma NeighbouredLeft(x: Str, y: Str, i: int)
    requires PercentsPaired(x) && 0 <= i < |x| && x[i] == PERCENT
    ensures Neighboured(x + y, i)
  {
    PairedAt(x, i);
    var s := x + y;
    if i + 1 < |x| && x[i + 1] == PERCENT {
      assert s[i + 1] == x[i + 1];
    } else {
      assert s[i - 1] == x[i - 1];
    }
  }

  lemma NeighbouredRight(x: Str, y: Str, k: int)
    requires PercentsPaired(y) && 0 <= k < |y| && y[k] == PERCENT
    ensures Neighboured(x + y, |x| + k)
  {
    PairedAt(y, k);
    var s, i := x + y, |x| + k;
    if k + 1 < |y| && y[k + 1] == PERCENT {
      assert s[i + 1] == y[k + 1];
    } else {
      assert s[i - 1] == y[k - 1];
    }
  }

  /** Concatenation may be regrouped. */
  lemma Associative<T>(a: seq<T>, b: seq<T>, c: seq<T>)
    ensures (a + b) + c == a + (b + c)
  {
  }
}
