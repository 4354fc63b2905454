/**
 * The pieces of JavaScript's built-in behaviour that the modelled code relies on: string
 * truthiness, `trim`, `split`, `includes`, `toLowerCase`, `parseInt(_, 10)`, integer to string
 * conversion, `padStart`, the truncating `%` operator, the ToInt32 / ToUint32 conversions
 * applied by the bitwise operators, and the UTF-16 `length` of a string. A number (`Num`) is
 * NaN, an infinity or an integer: the modelled code produces no other doubles. The integer a
 * `parseInt` reads is rounded to the nearest double (`ToDouble`), so that a digit string
 * beyond 2^53 loses precision and one beyond about 1.8e308 becomes an infinity, as in
 * JavaScript.
 */
module JsRuntime {
  import opened Wrappers

  // ---------------------------------------------------------------------------------------
  // Truthiness of optional strings
  // ---------------------------------------------------------------------------------------

  /** `if (x)` for a value that is a string or absent: absent and "" are falsy. */
  predicate Truthy(o: Option<string>) {
    o.Some? && o.value != ""
  }

  // ---------------------------------------------------------------------------------------
  // Whitespace and trim
  // ---------------------------------------------------------------------------------------

  /** The characters JavaScript's `trim` and `parseInt` skip (WhiteSpace and LineTerminator):
      TAB, LF, VT, FF, CR, SPACE, NBSP, the Unicode space separators, LS, PS and the BOM. */
  predicate IsSpace(c: char) {
    var n := c as int;
    (9 <= n <= 13) || n == 32 || n == 0xA0 || n == 0x1680 || (0x2000 <= n <= 0x200A)
    || n == 0x2028 || n == 0x2029 || n == 0x202F || n == 0x205F || n == 0x3000 || n == 0xFEFF
  }

  predicate AllSpace(s: string) {
    forall i :: 0 <= i < |s| ==> IsSpace(s[i])
  }

  /** The number of whitespace characters `s` starts with. */
  function LeadingSpaces(s: string): (k: nat)
    ensures k <= |s| && AllSpace(s[..k])
    ensures k == |s| || !IsSpace(s[k])
  {
    if s != [] && IsSpace(s[0]) then
      var k := LeadingSpaces(s[1..]);
      assert s[..k + 1] == [s[0]] + s[1..][..k];
      k + 1
    else 0
  }

  /** The number of whitespace characters `s` ends with. */
  function TrailingSpaces(s: string): (k: nat)
    ensures k <= |s| && AllSpace(s[|s| - k..])
    ensures k == |s| || !IsSpace(s[|s| - k - 1])
  {
    if s != [] && IsSpace(s[|s| - 1]) then
      var t := s[..|s| - 1];
      var k := TrailingSpaces(t);
      assert s[|s| - (k + 1)..] == t[|t| - k..] + [s[|s| - 1]];
      k + 1
    else 0
  }

  /** `s.trimStart()`: drops the leading whitespace and nothing else. */
  function TrimStart(s: string): string {
    s[LeadingSpaces(s)..]
  }

  /** `s.trimEnd()`: drops the trailing whitespace and nothing else. */
  function TrimEnd(s: string): string {
    s[..|s| - TrailingSpaces(s)]
  }

  /** `s.trim()`. */
  function Trim(s: string): string {
    TrimEnd(TrimStart(s))
  }

  /** The trimmed string is a piece of the input, preceded and followed by whitespace only,
      and neither starts nor ends with whitespace. */
  lemma TrimShape(s: string)
    ensures exists i, j :: 0 <= i <= j <= |s| && TrimPiece(s, i, j)
  {
    var i := LeadingSpaces(s);
    var t := s[i..];
    var k := TrailingSpaces(t);
    var j := i + |t| - k;
    assert Trim(s) == t[..|t| - k] == s[i..j];
    assert t[|t| - k..] == s[j..];
    assert AllSpace(s[..i]) && AllSpace(s[j..]);
    if i < j {
      assert s[j - 1] == t[|t| - k - 1];
    }
    assert TrimPiece(s, i, j);
  }

  /** `Trim(s)` is `s[i..j]`, with only whitespace around it and none at its ends. */
  predicate TrimPiece(s: string, i: int, j: int)
    requires 0 <= i <= j <= |s|
  {
    && Trim(s) == s[i..j]
    && AllSpace(s[..i]) && AllSpace(s[j..])
    && (i == j || (!IsSpace(s[i]) && !IsSpace(s[j - 1])))
  }

  /** A string whose two pieces are all whitespace is all whitespace. */
  lemma AllSpaceJoin(s: string, i: int)
    requires 0 <= i <= |s| && AllSpace(s[..i]) && AllSpace(s[i..])
    ensures AllSpace(s)
  {
    forall k | 0 <= k < |s|
      ensures IsSpace(s[k])
    {
      if k < i {
        assert s[..i][k] == s[k];
      } else {
        assert s[i..][k - i] == s[k];
      }
    }
  }

  /** The trimmed string is empty exactly when the input is all whitespace. */
  lemma TrimEmptyIffAllSpace(s: string)
    ensures Trim(s) == [] <==> AllSpace(s)
  {
    TrimShape(s);
    var i, j :| 0 <= i <= j <= |s| && TrimPiece(s, i, j);
    if i == j {
      AllSpaceJoin(s, i);
    } else {
      assert !IsSpace(s[i]);
    }
  }

  /** Trimming keeps only characters of the input. */
  lemma TrimKeepsChars(s: string, c: char)
    requires c in Trim(s)
    ensures c in s
  {
    TrimShape(s);
    var i, j :| 0 <= i <= j <= |s| && TrimPiece(s, i, j);
    var k :| 0 <= k < j - i && s[i..j][k] == c;
    assert s[i + k] == c;
  }

  /** A string that neither starts nor ends with whitespace is its own trim. */
  lemma TrimNoSpace(r: string)
    requires r == [] || (!IsSpace(r[0]) && !IsSpace(r[|r| - 1]))
    ensures Trim(r) == r
  {
  }

  /** Trimming twice is trimming once. */
  lemma TrimIdempotent(s: string)
    ensures Trim(Trim(s)) == Trim(s)
  {
    TrimShape(s);
    var i, j :| 0 <= i <= j <= |s| && TrimPiece(s, i, j);
    TrimNoSpace(s[i..j]);
  }

  // ---------------------------------------------------------------------------------------
  // split and join
  // ---------------------------------------------------------------------------------------

  /** `s.split(sep)` for a one-character separator: the maximal separator-free pieces, in
      order. The first piece is the text before the first separator (or all of `s`). */
  function Split(s: string, sep: char): (parts: seq<string>)
    ensures |parts| >= 1
    ensures forall i :: 0 <= i < |parts| ==> sep !in parts[i]
    ensures parts[0] <= s && (|parts[0]| < |s| ==> s[|parts[0]|] == sep)
    ensures sep !in s ==> parts == [s]
    ensures sep in s ==> |parts| >= 2
  {
    if s == [] then [""]
    else
      var rest := Split(s[1..], sep);
      assert s == [s[0]] + s[1..];
      if s[0] == sep then [""] + rest
      else [[s[0]] + rest[0]] + rest[1..]
  }

  /** `parts.join(sep)`. */
  function Join(parts: seq<string>, sep: char): string
    requires |parts| >= 1
  {
    if |parts| == 1 then parts[0] else parts[0] + [sep] + Join(parts[1..], sep)
  }

  /** Joining a piece in front of at least one more. */
  lemma JoinCons(p: string, parts: seq<string>, sep: char)
    requires |parts| >= 1
    ensures Join([p] + parts, sep) == p + [sep] + Join(parts, sep)
  {
    assert ([p] + parts)[1..] == parts;
  }

  /** Prefixing the first piece with a character prefixes the join with it. */
  lemma JoinPrefixHead(c: char, parts: seq<string>, sep: char)
    requires |parts| >= 1
    ensures Join([[c] + parts[0]] + parts[1..], sep) == [c] + Join(parts, sep)
  {
    var q := [[c] + parts[0]] + parts[1..];
    if |parts| > 1 {
      assert q[1..] == parts[1..];
    }
  }

  /** Joining the pieces with the separator gives back the string. */
  lemma {:induction false} SplitJoin(s: string, sep: char)
    ensures Join(Split(s, sep), sep) == s
  {
    if s != [] {
      SplitJoin(s[1..], sep);
      var rest := Split(s[1..], sep);
      assert s == [s[0]] + s[1..];
      if s[0] == sep {
        JoinCons("", rest, sep);
      } else {
        JoinPrefixHead(s[0], rest, sep);
      }
    }
  }

  lemma {:induction false} SplitCons(a: string, b: string, sep: char)
    requires sep !in a
    ensures Split(a + [sep] + b, sep) == [a] + Split(b, sep)
  {
    if a == [] {
      assert ([] + [sep] + b)[1..] == b;
    } else {
      assert (a + [sep] + b)[1..] == a[1..] + [sep] + b;
      SplitCons(a[1..], b, sep);
      assert [a[0]] + a[1..] == a;
    }
  }

  /** Splitting the join of separator-free pieces gives back the pieces. */
  lemma {:induction false} JoinSplit(parts: seq<string>, sep: char)
    requires |parts| >= 1
    requires forall i :: 0 <= i < |parts| ==> sep !in parts[i]
    ensures Split(Join(parts, sep), sep) == parts
  {
    if |parts| > 1 {
      JoinSplit(parts[1..], sep);
      SplitCons(parts[0], Join(parts[1..], sep), sep);
      assert [parts[0]] + parts[1..] == parts;
    }
  }

  // ---------------------------------------------------------------------------------------
  // includes and toLowerCase
  // ---------------------------------------------------------------------------------------

  /** `s.includes(needle)`: the needle occurs at some position of `s`. */
  predicate Contains(s: string, needle: string) {
    exists i | 0 <= i <= |s| - |needle| :: OccursAt(s, needle, i)
  }

  predicate OccursAt(s: string, needle: string, i: int) {
    0 <= i <= |s| - |needle| && s[i..i + |needle|] == needle
  }

  /** A needle with a character the string lacks does not occur in it. */
  lemma NotContainsByChar(s: string, needle: string, k: nat)
    requires k < |needle| && needle[k] !in s
    ensures !Contains(s, needle)
  {
  }

  /** `toLowerCase` on one character, exact wherever the result holds an ASCII character:
      'A'..'Z' lower to 'a'..'z', U+0130 (capital I with dot above) to 'i' followed by
      U+0307, and U+212A (the Kelvin sign) to 'k'. Every other character is kept; JavaScript
      maps some of them to other characters, none of which is ASCII. */
  function LowerChar(c: char): (r: string)
    ensures 1 <= |r| <= 2
  {
    if 'A' <= c <= 'Z' then [(c as int + 32) as char]
    else if c == '\U{0130}' then "i\U{0307}"
    else if c == '\U{212A}' then "k"
    else [c]
  }

  /** `s.toLowerCase()`: each character lowered in turn. */
  function ToLower(s: string): (r: string)
    ensures |s| <= |r| <= 2 * |s|
  {
    if s == [] then [] else LowerChar(s[0]) + ToLower(s[1..])
  }

  /** Lowering works character by character, so it distributes over concatenation. */
  lemma {:induction false} ToLowerConcat(a: string, b: string)
    ensures ToLower(a + b) == ToLower(a) + ToLower(b)
  {
    if a != [] {
      assert (a + b)[0] == a[0] && (a + b)[1..] == a[1..] + b;
      ToLowerConcat(a[1..], b);
      assert ToLower(a + b) == LowerChar(a[0]) + (ToLower(a[1..]) + ToLower(b));
    } else {
      assert a + b == b;
    }
  }

  /** A string without 'A'..'Z', U+0130 and U+212A is its own lower case. */
  lemma {:induction false} ToLowerKeeps(s: string)
    requires forall i :: 0 <= i < |s| ==> !('A' <= s[i] <= 'Z') && s[i] != '\U{0130}' && s[i] != '\U{212A}'
    ensures ToLower(s) == s
  {
    if s != [] {
      ToLowerKeeps(s[1..]);
    }
  }

  /** The two capitals outside ASCII whose lower case holds an ASCII letter. */
  lemma ToLowerSpecialCapitals()
    ensures ToLower("\U{0130}") == "i\U{0307}"
    ensures ToLower("\U{212A}") == "k"
  {
    ToLowerCons('\U{0130}', []);
    ToLowerCons('\U{212A}', []);
  }

  /** Lowering the first character and then the rest. */
  lemma ToLowerCons(c: char, s: string)
    ensures ToLower([c] + s) == LowerChar(c) + ToLower(s)
  {
    assert ([c] + s)[0] == c && ([c] + s)[1..] == s;
  }

  /** Lower-casing is idempotent. */
  lemma {:induction false} ToLowerIdempotent(s: string)
    ensures ToLower(ToLower(s)) == ToLower(s)
  {
    if s != [] {
      var l := LowerChar(s[0]);
      ToLowerKeeps(l);
      ToLowerConcat(l, ToLower(s[1..]));
      ToLowerIdempotent(s[1..]);
    }
  }

  // ---------------------------------------------------------------------------------------
  // Integral numbers, parseInt and number-to-string
  // ---------------------------------------------------------------------------------------

  /** A JavaScript number as the modelled code produces it: NaN, an infinity, or a double
      whose value is the integer `v`. */
  datatype Num = NaN | Int(v: int) | Infinity(negative: bool)

  predicate IsDigit(c: char) {
    '0' <= c <= '9'
  }

  predicate AllDigits(s: string) {
    forall i :: 0 <= i < |s| ==> IsDigit(s[i])
  }

  function DigitValue(c: char): nat
    requires IsDigit(c)
  {
    c as int - '0' as int
  }

  function DigitChar(d: nat): (c: char)
    requires d < 10
    ensures IsDigit(c) && DigitValue(c) == d
  {
    ('0' as int + d) as char
  }

  /** The longest prefix of `s` made of decimal digits. */
  function DigitPrefix(s: string): (r: string)
    ensures r <= s && AllDigits(r)
    ensures |r| == |s| || !IsDigit(s[|r|])
  {
    if s != [] && IsDigit(s[0]) then [s[0]] + DigitPrefix(s[1..]) else []
  }

  /** The value of a decimal digit string, most significant digit first. */
  function DigitsValue(ds: string): nat
    requires AllDigits(ds)
  {
    if ds == [] then 0 else DigitsValue(ds[..|ds| - 1]) * 10 + DigitValue(ds[|ds| - 1])
  }

  /** The integer `parseInt(s, 10)` reads, before it becomes a double: skip leading
      whitespace, read an optional sign and the longest run of digits after it; NaN when that
      run is empty. Text after the digits is ignored. */
  function ReadInt10(s: string): Num {
    ParseSigned(TrimStart(s))
  }

  /** An optional sign, then the digits. */
  function ParseSigned(t: string): Num {
    if t != [] && t[0] == '-' then Negate(ParseUnsigned(t[1..]))
    else if t != [] && t[0] == '+' then ParseUnsigned(t[1..])
    else ParseUnsigned(t)
  }

  /** The value of the longest digit prefix, NaN when there is none. */
  function ParseUnsigned(b: string): Num {
    var digits := DigitPrefix(b);
    if digits == [] then NaN else Int(DigitsValue(digits))
  }

  function Negate(n: Num): Num {
    match n
    case NaN => NaN
    case Int(v) => Int(0 - v)
    case Infinity(negative) => Infinity(!negative)
  }

  // ---------------------------------------------------------------------------------------
  // Rounding to a double
  // ---------------------------------------------------------------------------------------

  /** Every integer of magnitude at most 2^53 is a double. */
  const TWO_53: int := 0x20_0000_0000_0000
  /** How many halvings bring the magnitude m below 2^53: 0 below 2^53, k in
      [2^(52 + k), 2^(53 + k)). */
  function Binade(m: nat): nat {
    if m < TWO_53 then 0 else 1 + Binade(m / 2)
  }

  /** The spacing of the doubles around the magnitude m: 1 below 2^53, and twice as much in
      each binade above (2 in [2^53, 2^54), 4 in [2^54, 2^55), ...). */
  function Ulp(m: nat): (u: nat)
    ensures u >= 1
    ensures m < TWO_53 ==> u == 1
  {
    if m < TWO_53 then 1 else 2 * Ulp(m / 2)
  }

  /** m rounded to the nearest multiple of its spacing, a tie going to the even multiple. */
  function RoundMagnitude(m: nat): nat {
    var u := Ulp(m);
    var q, r := m / u, m % u;
    if 2 * r > u || (2 * r == u && q % 2 == 1) then (q + 1) * u else q * u
  }

  /** The double nearest to the integer x (IEEE 754 round half to even), or an infinity of
      x's sign when its magnitude is too large. The doubles end below 2^1024 = 2^(53 + 971),
      the first magnitude of binade 972. The smallest magnitude that rounds to an infinity
      is 2^1024 - 2^970. Below 2^1024 the doubles are 2^971 apart, so that magnitude is
      exactly the smallest whose nearest multiple of the spacing (ties to even) is 2^1024. */
  function ToDouble(x: int): Num {
    var m := RoundMagnitude(if x < 0 then -x else x);
    if Binade(m) > 971 then Infinity(x < 0) else Int(if x < 0 then 0 - m else m)
  }

  /** A value read as an integer, as the double it becomes. */
  function Rounded(n: Num): Num {
    match n
    case Int(v) => ToDouble(v)
    case _ => n
  }

  /** `parseInt(s, 10)`: the integer read from `s`, rounded to a double. */
  function ParseInt10(s: string): Num {
    Rounded(ReadInt10(s))
  }

  /** Integers of magnitude at most 2^53 are doubles: rounding keeps them. */
  lemma ToDoubleExact(x: int)
    requires -TWO_53 <= x <= TWO_53
    ensures ToDouble(x) == Int(x)
  {
    var m := if x < 0 then -x else x;
    if m == TWO_53 {
      assert Ulp(m) == 2 * Ulp(m / 2) == 2;
      assert m / 2 * 2 == m;
    }
    assert RoundMagnitude(m) == m;
    assert Binade(m) <= 1;
  }

  /** y is a multiple of u at most half of u away from x; at a tie it is an even multiple. */
  predicate NearestMultiple(x: int, y: int, u: int)
    requires u >= 1
  {
    var d := if x < y then y - x else x - y;
    y % u == 0 && 2 * d <= u && (2 * d == u ==> (y / u) % 2 == 0)
  }

  /** The rounded magnitude is a multiple of the spacing at most half a spacing away; at a
      tie it is the even multiple. */
  lemma RoundMagnitudeNearest(m: nat)
    ensures NearestMultiple(m, RoundMagnitude(m), Ulp(m))
  {
    var u := Ulp(m);
    NearestChoice(m, u, m / u, m % u);
  }

  lemma NearestChoice(m: int, u: int, q: int, r: int)
    requires u >= 1 && m == q * u + r && 0 <= r < u
    ensures NearestMultiple(m, if 2 * r > u || (2 * r == u && q % 2 == 1) then (q + 1) * u else q * u, u)
  {
    var p := q * u;
    if 2 * r > u || (2 * r == u && q % 2 == 1) {
      var y := (q + 1) * u;
      assert y == p + u;
      assert y - m == u - r;
      MultipleOf(q + 1, u);
    } else {
      MultipleOf(q, u);
    }
  }

  /** Nearness is symmetric under negation. */
  lemma NearestNegated(x: int, y: int, u: int)
    requires u >= 1 && NearestMultiple(x, y, u)
    ensures NearestMultiple(-x, -y, u)
  {
    var k := y / u;
    assert y == k * u;
    assert -y == (-k) * u;
    MultipleOf(-k, u);
    assert (-k) % 2 == 0 <==> k % 2 == 0;
  }

  /** Below the infinities the double has the sign of x and is nearest to it. */
  lemma ToDoubleNearest(x: int)
    requires ToDouble(x).Int?
    ensures var m := if x < 0 then -x else x; var y := ToDouble(x).v;
      NearestMultiple(x, y, Ulp(m)) && (x < 0 ==> y <= 0) && (x >= 0 ==> y >= 0)
  {
    var m := if x < 0 then -x else x;
    var a: int := RoundMagnitude(m);
    assert ToDouble(x).v == if x < 0 then -a else a;
    RoundMagnitudeNearest(m);
    if x < 0 {
      NearestNegated(m, a, Ulp(m));
      assert -m == x;
    }
  }

  lemma MultipleOf(k: int, u: int)
    requires u >= 1
    ensures (k * u) % u == 0 && (k * u) / u == k
  {
    DivUnique(k * u, u, k, 0);
  }

  /** The first integer that is not a double: 2^53 + 1 lies halfway between 2^53 and
      2^53 + 2 and rounds to the even 2^53. */
  lemma TwoToThe53PlusOne(n: int)
    requires n == TWO_53 + 1
    ensures ToDouble(n) == Int(TWO_53)
  {
    assert Ulp(n / 2) == 1;
    assert Ulp(n) == 2;
    assert n / 2 == TWO_53 / 2 && n % 2 == 1;
    assert Binade(TWO_53) == 1;
  }

  /** The decimal representation of a natural number, without leading zeros. */
  function NatToString(n: nat): (s: string)
    ensures |s| >= 1 && AllDigits(s)
  {
    if n < 10 then [DigitChar(n)] else NatToString(n / 10) + [DigitChar(n % 10)]
  }

  /** `String(n)` for an integer n. */
  lemma {:induction false} NatToStringValue(n: nat)
    ensures DigitsValue(NatToString(n)) == n
  {
    if n >= 10 {
      NatToStringValue(n / 10);
      var s := NatToString(n);
      assert s[..|s| - 1] == NatToString(n / 10);
    }
  }

  lemma DigitPrefixAll(s: string)
    requires AllDigits(s)
    ensures DigitPrefix(s) == s
  {
  }

  lemma ParseUnsignedDigits(d: string)
    requires |d| >= 1 && AllDigits(d)
    ensures ParseUnsigned(d) == Int(DigitsValue(d))
  {
    DigitPrefixAll(d);
  }

  lemma DigitNotSpace(c: char)
    requires IsDigit(c)
    ensures !IsSpace(c)
  {
  }

  lemma TrimStartNoSpace(s: string)
    requires s == [] || !IsSpace(s[0])
    ensures TrimStart(s) == s
  {
  }

  /** A digit string with no sign reads back as its value. */
  lemma ParseDigits(d: string)
    requires |d| >= 1 && AllDigits(d)
    ensures ReadInt10(d) == Int(DigitsValue(d))
  {
    assert IsDigit(d[0]);
    TrimStartNoSpace(d);
    assert ReadInt10(d) == ParseSigned(d);
    assert ParseSigned(d) == ParseUnsigned(d);
    ParseUnsignedDigits(d);
  }

  /** Reading back the decimal text of a natural number gives the number, and `parseInt` of it
      is that number as a double: the number itself up to 2^53, a rounded value above. (For
      a number, `String(n)` is this text only below 10^21, where it turns to exponent
      notation.) */
  lemma ParseNatToString(n: nat)
    ensures ReadInt10(NatToString(n)) == Int(n)
    ensures ParseInt10(NatToString(n)) == ToDouble(n)
    ensures n <= TWO_53 ==> ParseInt10(NatToString(n)) == Int(n)
  {
    NatToStringValue(n);
    ParseDigits(NatToString(n));
    if n <= TWO_53 {
      ToDoubleExact(n);
    }
  }

  /** `String(n)` for an integer n: a minus sign before the digits of a negative number. */
  function IntToString(n: int): (s: string)
    ensures |s| >= 1
  {
    if n < 0 then "-" + NatToString(-n) else NatToString(n)
  }

  lemma {:induction false} DigitPrefixThen(d: string, rest: string)
    requires AllDigits(d) && (rest == [] || !IsDigit(rest[0]))
    ensures DigitPrefix(d + rest) == d
  {
    if d == [] {
      assert d + rest == rest;
    } else {
      assert (d + rest)[1..] == d[1..] + rest;
      DigitPrefixThen(d[1..], rest);
    }
  }

  /** `parseInt` stops at the first character that is not a digit: digits followed by such a
      character read back as the digits' value. */
  lemma ParseDigitsThen(d: string, rest: string)
    requires |d| >= 1 && AllDigits(d) && (rest == [] || !IsDigit(rest[0]))
    ensures ReadInt10(d + rest) == Int(DigitsValue(d))
    ensures ParseInt10(d + rest) == ToDouble(DigitsValue(d))
  {
    var s := d + rest;
    assert s[0] == d[0];
    DigitNotSpace(s[0]);
    TrimStartNoSpace(s);
    DigitPrefixThen(d, rest);
    assert ParseUnsigned(s) == Int(DigitsValue(d));
    assert ParseSigned(s) == ParseUnsigned(s) by {
      assert s[0] != '-' && s[0] != '+';
    }
  }

  /** `s.padStart(2, '0')`. */
  function PadStart2(s: string): (r: string)
    ensures |s| >= 2 ==> r == s
    ensures |s| < 2 ==> |r| == 2 && r[2 - |s|..] == s
  {
    if |s| >= 2 then s else if |s| == 1 then "0" + s else "00"
  }

  // ---------------------------------------------------------------------------------------
  // Integer operators
  // ---------------------------------------------------------------------------------------

  const TWO_32: int := 0x1_0000_0000
  const TWO_31: int := 0x8000_0000

  /** ToUint32, the conversion applied by `>>>` and to shift counts. NaN and the infinities
      convert to 0. */
  function ToUint32(n: Num): (r: nat)
    ensures r < TWO_32
    ensures n.Int? && 0 <= n.v < TWO_32 ==> r == n.v
  {
    match n
    case NaN => 0
    case Int(v) => v % TWO_32
    case Infinity(_) => 0
  }

  /** ToInt32, the conversion applied by `<<`, `&` and `|`. NaN and the infinities convert
      to 0. */
  function ToInt32(n: Num): (r: int)
    ensures -TWO_31 <= r < TWO_31
    ensures (r - ToUint32(n)) % TWO_32 == 0
    ensures n.Int? && -TWO_31 <= n.v < TWO_31 ==> r == n.v
  {
    var u := ToUint32(n);
    if u >= TWO_31 then u - TWO_32 else u
  }

  /** Division leaves a quotient and a remainder that no other pair can replace. */
  lemma DivUnique(x: int, d: int, q: int, r: int)
    requires d > 0 && x == d * q + r && 0 <= r < d
    ensures x / d == q && x % d == r
  {
    var q0, r0 := x / d, x % d;
    var t := q - q0;
    assert d * q == d * q0 + d * t;
    MulSmall(d, t);
  }

  /** The only multiple of d strictly between -d and d is 0. */
  lemma MulSmall(d: int, t: int)
    requires d > 0 && -d < d * t < d
    ensures t == 0
  {
    assert d * t == d * (t - 1) + d;
    assert d * t == d * (t + 1) - d;
    assert t >= 1 ==> d * (t - 1) >= 0;
    assert t <= -1 ==> d * (t + 1) <= 0;
  }

  /** JavaScript's `a % b` for a positive divisor: the remainder takes the sign of `a`. */
  function JsRem(a: int, b: int): (r: int)
    requires b > 0
    ensures a >= 0 ==> 0 <= r < b
    ensures a < 0 ==> -b < r <= 0
  {
    if a >= 0 then a % b else -((-a) % b)
  }

  // ---------------------------------------------------------------------------------------
  // String length
  // ---------------------------------------------------------------------------------------

  /** The UTF-16 code units of one character: two for a character outside the Basic
      Multilingual Plane, which JavaScript stores as a surrogate pair. */
  function CodeUnits(c: char): nat {
    if c as int > 0xFFFF then 2 else 1
  }

  /** `s.length`, which counts UTF-16 code units; `|s|` counts characters. */
  function Utf16Length(s: string): (n: nat)
    ensures |s| <= n <= 2 * |s|
  {
    if s == [] then 0 else Utf16Length(s[..|s| - 1]) + CodeUnits(s[|s| - 1])
  }

  predicate InBmp(s: string) {
    forall i :: 0 <= i < |s| ==> s[i] as int <= 0xFFFF
  }

  /** The length of a concatenation is the sum of the lengths. */
  lemma {:induction false} Utf16LengthConcat(a: string, b: string)
    ensures Utf16Length(a + b) == Utf16Length(a) + Utf16Length(b)
  {
    if b != [] {
      assert (a + b)[..|a + b| - 1] == a + b[..|b| - 1];
      Utf16LengthConcat(a, b[..|b| - 1]);
    } else {
      assert a + b == a;
    }
  }

  /** A string of characters from the Basic Multilingual Plane has one code unit per
      character, and a string of characters beyond it two. */
  lemma {:induction false} Utf16LengthCounts(s: string)
    ensures InBmp(s) ==> Utf16Length(s) == |s|
    ensures (forall i :: 0 <= i < |s| ==> s[i] as int > 0xFFFF) ==> Utf16Length(s) == 2 * |s|
  {
    if s != [] {
      Utf16LengthCounts(s[..|s| - 1]);
    }
  }

  /** A piece of a string is no longer than the string. */
  lemma Utf16LengthSlice(s: string, i: int, j: int)
    requires 0 <= i <= j <= |s|
    ensures Utf16Length(s[i..j]) <= Utf16Length(s)
  {
    assert s[..j] == s[..i] + s[i..j];
    assert s == s[..j] + s[j..];
    Utf16LengthConcat(s[..i], s[i..j]);
    Utf16LengthConcat(s[..j], s[j..]);
  }

  /** Trimming never lengthens a string. */
  lemma Utf16LengthTrim(s: string)
    ensures Utf16Length(Trim(s)) <= Utf16Length(s)
  {
    var t := TrimStart(s);
    assert t == s[LeadingSpaces(s)..|s|];
    Utf16LengthSlice(s, LeadingSpaces(s), |s|);
    var j := |t| - TrailingSpaces(t);
    assert Trim(s) == t[0..j];
    Utf16LengthSlice(t, 0, j);
  }
}
