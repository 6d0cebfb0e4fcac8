/** The JavaScript primitives the engines lean on, stated over mathematical
    integers, reals and strings: `Math.round`, the Uint8ClampedArray store
    conversion, `Number.prototype.toString(16)`, `String(n)`, `parseInt(s, 16)`,
    `padStart`, `trim`, `startsWith`, ASCII `toUpperCase`/`toLowerCase` and the
    string `<` relation. */
module JsText {
  import opened Wrappers

  /** One element of a Uint8ClampedArray. */
  type Byte = x: int | 0 <= x < 256

  // ---------------------------------------------------------------- numbers

  /** `Math.round`: the nearest integer, halves rounded up. */
  function MathRound(x: real): (r: int)
    ensures x - 0.5 < r as real <= x + 0.5
  {
    (x + 0.5).Floor
  }

  /** Any integer within half a unit of `x` (halves going up) is `Math.round(x)`. */
  lemma MathRoundUnique(x: real, k: int)
    requires x - 0.5 < k as real <= x + 0.5
    ensures MathRound(x) == k
  {
  }

  /** `Math.round` never decreases when its argument grows. */
  lemma MathRoundMonotonic(x: real, y: real)
    requires x <= y
    ensures MathRound(x) <= MathRound(y)
  {
  }

  /** The conversion a store into a Uint8ClampedArray applies (ToUint8Clamp):
      clamp to [0, 255], then round to the nearest integer, ties to even. */
  function ToUint8Clamp(x: real): (b: Byte)
    ensures x <= 0.0 ==> b == 0
    ensures x >= 255.0 ==> b == 255
    ensures 0.0 < x < 255.0 ==> x - 0.5 <= b as real <= x + 0.5
    ensures 0.0 < x < 255.0 && (b as real == x - 0.5 || b as real == x + 0.5) ==> b % 2 == 0
  {
    if x <= 0.0 then 0
    else if x >= 255.0 then 255
    else
      var f := x.Floor;
      if f as real + 0.5 < x then f + 1
      else if x < f as real + 0.5 then f
      else if f % 2 == 0 then f else f + 1
  }

  /** A store of a value that already is a byte leaves it as it is. */
  lemma ToUint8ClampOfByte(b: Byte)
    ensures ToUint8Clamp(b as real) == b
  {
  }

  // ------------------------------------------------------- hexadecimal text

  predicate IsHexDigit(c: char) {
    ('0' <= c <= '9') || ('a' <= c <= 'f') || ('A' <= c <= 'F')
  }

  predicate AllHex(s: string) {
    forall i :: 0 <= i < |s| ==> IsHexDigit(s[i])
  }

  predicate IsLowerHexDigit(c: char) {
    ('0' <= c <= '9') || ('a' <= c <= 'f')
  }

  function HexDigitValue(c: char): (v: nat)
    requires IsHexDigit(c)
    ensures v < 16
  {
    if '0' <= c <= '9' then c as int - '0' as int
    else if 'a' <= c <= 'f' then c as int - 'a' as int + 10
    else c as int - 'A' as int + 10
  }

  /** The lower-case digit `Number.prototype.toString(16)` writes for `v`. */
  function HexDigitChar(v: nat): (c: char)
    requires v < 16
    ensures IsLowerHexDigit(c) && IsHexDigit(c) && HexDigitValue(c) == v
  {
    if v < 10 then ('0' as int + v) as char else ('a' as int + v - 10) as char
  }

  /** The number a string of hexadecimal digits denotes, most significant first. */
  function HexValue(s: string): (v: nat)
    requires AllHex(s)
    ensures v < Pow16(|s|)
  {
    if |s| == 0 then 0
    else
      var hi := HexValue(s[..|s| - 1]);
      assert hi * 16 + 15 < Pow16(|s| - 1) * 16 by {
        assert hi + 1 <= Pow16(|s| - 1);
      }
      hi * 16 + HexDigitValue(s[|s| - 1])
  }

  /** The two hex digits at position `i`, read as one byte. */
  function HexByte(s: string, i: nat): Byte
    requires i + 2 <= |s| && AllHex(s)
  {
    var pair := s[i..i + 2];
    assert AllHex(pair) by {
      forall k | 0 <= k < |pair| ensures IsHexDigit(pair[k]) {
        assert pair[k] == s[i + k];
      }
    }
    assert Pow16(2) == 256;
    HexValue(pair)
  }

  function Pow16(n: nat): (p: nat)
    ensures p >= 1
  {
    if n == 0 then 1 else 16 * Pow16(n - 1)
  }

  lemma {:induction false} Pow16Monotonic(a: nat, b: nat)
    requires a <= b
    ensures Pow16(a) <= Pow16(b)
    decreases b - a
  {
    if a < b {
      Pow16Monotonic(a, b - 1);
    }
  }

  /** Up to thirteen hex digits denote less than 2^52, which a double holds
      exactly. */
  lemma ThirteenDigitsExact(s: string)
    requires AllHex(s) && |s| <= 13
    ensures HexValue(s) < TwoTo53
  {
    Pow16Monotonic(|s|, 13);
    assert Pow16(13) == 0x10_0000_0000_0000;
  }

  /** Two more digits on the right multiply the value by 256. */
  lemma HexValueAppendPair(a: string, b: string)
    requires AllHex(a) && AllHex(b) && |b| == 2
    ensures AllHex(a + b)
    ensures HexValue(a + b) == HexValue(a) * 256 + HexValue(b)
    ensures HexValue(b) < 256
  {
    HexValueAppend(a, b);
    assert Pow16(2) == 256;
  }

  /** Digits appended on the right shift the value left by one digit each. */
  lemma {:induction false} HexValueAppend(a: string, b: string)
    requires AllHex(a) && AllHex(b)
    ensures AllHex(a + b)
    ensures HexValue(a + b) == HexValue(a) * Pow16(|b|) + HexValue(b)
  {
    assert AllHex(a + b);
    if |b| == 0 {
      assert a + b == a;
    } else {
      var b' := b[..|b| - 1];
      var d := HexDigitValue(b[|b| - 1]);
      assert (a + b)[..|a + b| - 1] == a + b';
      assert (a + b)[|a + b| - 1] == b[|b| - 1];
      HexValueAppend(a, b');
      ShiftOneDigit(HexValue(a + b), HexValue(a + b'), HexValue(a), Pow16(|b'|), HexValue(b'), d, HexValue(b), Pow16(|b|));
    }
  }

  /** The arithmetic of one more digit: if `ab'` is `v` shifted by `p` plus `w`,
      then one more digit `d` shifts by `16 * p`. */
  lemma ShiftOneDigit(ab: int, ab': int, v: int, p: int, w: int, d: int, bv: int, pb: int)
    requires ab == ab' * 16 + d && ab' == v * p + w
    requires bv == w * 16 + d && pb == 16 * p
    ensures ab == v * pb + bv
  {
    assert (v * p + w) * 16 + d == v * (16 * p) + (w * 16 + d);
  }

  /** `n.toString(16)` for a non-negative integer: lower-case digits, no
      leading zeros. */
  function ToHexString(n: nat): (s: string)
    ensures 1 <= |s|
    ensures forall i :: 0 <= i < |s| ==> IsLowerHexDigit(s[i])
    ensures AllHex(s) && HexValue(s) == n
    ensures n < 16 ==> |s| == 1
    ensures 16 <= n < 256 ==> |s| == 2
  {
    if n < 16 then [HexDigitChar(n)]
    else
      var s := ToHexString(n / 16) + [HexDigitChar(n % 16)];
      assert s[..|s| - 1] == ToHexString(n / 16);
      s
  }

  /** `s.padStart(2, "0")`. */
  function PadStart2(s: string): (r: string)
    ensures |s| >= 2 ==> r == s
    ensures |s| < 2 ==> |r| == 2 && r[2 - |s|..] == s
    ensures forall i :: 0 <= i < |r| - |s| ==> r[i] == '0'
  {
    if |s| >= 2 then s else seq(2 - |s|, _ => '0') + s
  }

  /** Leading zeros do not change the value of a run of hex digits. */
  lemma HexValueLeadingZero(s: string)
    requires AllHex(s)
    ensures AllHex("0" + s) && HexValue("0" + s) == HexValue(s)
  {
    HexValueAppend("0", s);
    assert HexValue("0") == HexValue("") * 16 + 0;
  }

  /** `b.toString(16).padStart(2, "0")`: two lower-case hex digits denoting `b`. */
  function ByteHexString(b: Byte): (s: string)
    ensures |s| == 2 && AllHex(s) && HexValue(s) == b
    ensures forall i :: 0 <= i < |s| ==> IsLowerHexDigit(s[i])
  {
    var digits := ToHexString(b);
    if |digits| < 2 then
      assert PadStart2(digits) == "0" + digits;
      HexValueLeadingZero(digits);
      PadStart2(digits)
    else
      PadStart2(digits)
  }

  // ------------------------------------------------------------ decimal text

  function DecimalDigitChar(v: nat): (c: char)
    requires v < 10
    ensures '0' <= c <= '9' && c as int - '0' as int == v
  {
    ('0' as int + v) as char
  }

  predicate AllDecimal(s: string) {
    forall i :: 0 <= i < |s| ==> '0' <= s[i] <= '9'
  }

  function DecimalValue(s: string): nat
    requires AllDecimal(s)
  {
    if |s| == 0 then 0 else DecimalValue(s[..|s| - 1]) * 10 + (s[|s| - 1] as int - '0' as int)
  }

  /** `String(n)` for a non-negative integer. */
  function DecimalString(n: nat): (s: string)
    ensures 1 <= |s| && AllDecimal(s) && DecimalValue(s) == n
  {
    if n < 10 then [DecimalDigitChar(n)]
    else
      var s := DecimalString(n / 10) + [DecimalDigitChar(n % 10)];
      assert s[..|s| - 1] == DecimalString(n / 10);
      s
  }

  /** Different numbers print differently. */
  lemma DecimalStringInjective(m: nat, n: nat)
    requires m != n
    ensures DecimalString(m) != DecimalString(n)
  {
  }

  // ------------------------------------------------------------------ parse

  /** The characters `String.prototype.trim` and `parseInt` skip: WhiteSpace and
      LineTerminator of ECMA-262 (section 12.2 and 12.3), by code point. */
  predicate IsJsWhitespace(c: char) {
    var n := c as int;
    n == 0x09 || n == 0x0A || n == 0x0B || n == 0x0C || n == 0x0D || n == 0x20
    || n == 0xA0 || n == 0x1680 || (0x2000 <= n <= 0x200A) || n == 0x2028 || n == 0x2029
    || n == 0x202F || n == 0x205F || n == 0x3000 || n == 0xFEFF
  }

  function TrimStart(s: string): (r: string)
    ensures |r| <= |s| && r == s[|s| - |r|..]
    ensures |r| > 0 ==> !IsJsWhitespace(r[0])
    ensures forall i :: 0 <= i < |s| - |r| ==> IsJsWhitespace(s[i])
  {
    if |s| > 0 && IsJsWhitespace(s[0]) then TrimStart(s[1..]) else s
  }

  function TrimEnd(s: string): (r: string)
    ensures |r| <= |s| && r == s[..|r|]
    ensures |r| > 0 ==> !IsJsWhitespace(r[|r| - 1])
    ensures forall i :: |r| <= i < |s| ==> IsJsWhitespace(s[i])
  {
    if |s| > 0 && IsJsWhitespace(s[|s| - 1]) then TrimEnd(s[..|s| - 1]) else s
  }

  /** `String.prototype.trim`: the part of `s` left after the white space
      on both ends is cut, and nothing inside it. */
  function Trim(s: string): (r: string)
    ensures r == "" || (!IsJsWhitespace(r[0]) && !IsJsWhitespace(r[|r| - 1]))
    ensures exists a :: TrimmedAt(s, a, r)
  {
    TrimSlice(s);
    TrimEnd(TrimStart(s))
  }

  lemma TrimSlice(s: string)
    ensures TrimmedAt(s, |s| - |TrimStart(s)|, TrimEnd(TrimStart(s)))
  {
    TrimmedOf(s, TrimStart(s), TrimEnd(TrimStart(s)));
  }

  /** A suffix of `s` after white space, cut before trailing white space. */
  lemma TrimmedOf(s: string, t: string, r: string)
    requires |t| <= |s| && t == s[|s| - |t|..]
    requires forall i :: 0 <= i < |s| - |t| ==> IsJsWhitespace(s[i])
    requires |r| <= |t| && r == t[..|r|]
    requires forall i :: |r| <= i < |t| ==> IsJsWhitespace(t[i])
    ensures TrimmedAt(s, |s| - |t|, r)
  {
    var a := |s| - |t|;
    forall i | a + |r| <= i < |s| ensures IsJsWhitespace(s[i]) {
      assert s[i] == t[i - a];
    }
    assert r == s[a..a + |r|];
  }

  /** `r` is the slice of `s` at `a` with only white space before and after it. */
  predicate TrimmedAt(s: string, a: int, r: string) {
    && 0 <= a <= |s| - |r| && r == s[a..a + |r|]
    && (forall i :: 0 <= i < a ==> IsJsWhitespace(s[i]))
    && (forall i :: a + |r| <= i < |s| ==> IsJsWhitespace(s[i]))
  }

  /** The longest prefix of `s` made of hex digits. */
  function HexPrefix(s: string): (r: string)
    ensures |r| <= |s| && r == s[..|r|] && AllHex(r)
    ensures |r| < |s| ==> !IsHexDigit(s[|r|])
  {
    if |s| > 0 && IsHexDigit(s[0]) then
      var t := HexPrefix(s[1..]);
      assert [s[0]] + t == s[..1 + |t|];
      [s[0]] + t
    else ""
  }

  /** `parseInt(s, 16)`: skip leading white space, read an optional sign and an
      optional `0x`/`0X`, then the longest run of hex digits; no digits is NaN
      (`None`). */
  function ParseIntHex(s: string): (r: Option<int>)
    ensures r.None? <==> HexPrefix(HexBody(s)) == ""
  {
    var digits := HexPrefix(HexBody(s));
    if digits == "" then None
    else
      var t := TrimStart(s);
      var negative := |t| > 0 && t[0] == '-';
      var v: int := HexValue(digits);
      Some(if negative then -v else v)
  }

  /** What `parseInt(s, 16)` scans for digits: `s` after white space, sign and
      radix prefix. */
  function HexBody(s: string): string {
    var t := TrimStart(s);
    var u := if |t| > 0 && (t[0] == '-' || t[0] == '+') then t[1..] else t;
    if |u| >= 2 && u[0] == '0' && (u[1] == 'x' || u[1] == 'X') then u[2..] else u
  }

  /** A string of hex digits alone parses to the number it denotes. */
  lemma ParseIntHexOfDigits(s: string)
    requires |s| > 0 && AllHex(s)
    ensures ParseIntHex(s) == Some(HexValue(s))
  {
    HexBodyOfDigits(s);
    HexPrefixOfDigits(s);
  }

  lemma HexBodyOfDigits(s: string)
    requires |s| > 0 && AllHex(s)
    ensures TrimStart(s) == s && HexBody(s) == s
  {
    assert !IsJsWhitespace(s[0]);
    if |s| >= 2 {
      assert s[1] != 'x' && s[1] != 'X';
    }
  }

  lemma HexPrefixOfDigits(s: string)
    requires AllHex(s)
    ensures HexPrefix(s) == s
  {
  }

  // ---------------------------------------------------------------- numbers

  /** 2^53: every integer of smaller magnitude is exactly a double. */
  const TwoTo53: nat := 0x20_0000_0000_0000

  /** 2^1024: a magnitude that rounds to it or beyond becomes Infinity. */
  const TwoTo1024: nat := 0x1_0000_0000_0000_0000_0000_0000_0000_0000_0000_0000_0000_0000_0000_0000_0000_0000_0000_0000_0000_0000_0000_0000_0000_0000_0000_0000_0000_0000_0000_0000_0000_0000_0000_0000_0000_0000_0000_0000_0000_0000_0000_0000_0000_0000_0000_0000_0000_0000_0000_0000_0000_0000_0000_0000_0000_0000_0000_0000_0000_0000_0000_0000_0000_0000

  function Pow2(k: nat): (p: nat)
    ensures p >= 1
  {
    if k == 0 then 1 else 2 * Pow2(k - 1)
  }

  /** How many low bits of `n` a double cannot hold: the halvings it takes
      until the rest fits in the 53-bit significand. */
  function DroppedBits(n: nat): (k: nat)
    ensures k == 0 <==> n < TwoTo53
    decreases n
  {
    if n < TwoTo53 then 0 else 1 + DroppedBits(n / 2)
  }

  /** The double nearest to `n`, ties to the even significand (section 6.1.6.1
      of ECMA-262), before any overflow: a multiple of the unit `2^k` for the
      `k` dropped bits, within half a unit of `n`. */
  function RoundToDouble(n: nat): (d: nat)
    ensures n < TwoTo53 ==> d == n
    ensures d % Pow2(DroppedBits(n)) == 0
    ensures 2 * (d - n) <= Pow2(DroppedBits(n)) && 2 * (n - d) <= Pow2(DroppedBits(n))
  {
    var u := Pow2(DroppedBits(n));
    var rem := n % u;
    RoundingFacts(n, u);
    if 2 * rem > u || (2 * rem == u && (n / u) % 2 == 1) then n - rem + u else n - rem
  }

  /** The multiples of `u` just below and just above `n`. */
  lemma RoundingFacts(n: nat, u: nat)
    requires u >= 1
    ensures 0 <= n % u < u && n % u <= n
    ensures (n - n % u) % u == 0 && (n - n % u + u) % u == 0
    ensures u == 1 ==> n % u == 0
  {
    var q, rem := n / u, n % u;
    DivModOf(n, q, rem, u);
    DivModOf(n - rem, q, 0, u);
    DivModOf(n - rem + u, q + 1, 0, u);
    if u == 1 {
      DivModOf(n, n, 0, 1);
    }
  }

  /** The Number an exact integer becomes (section 7.1.4 of ECMA-262, as
      `parseInt` ends): the nearest double, or `None` for Infinity and
      -Infinity when the magnitude rounds to 2^1024 or more. */
  function NumberOfInt(v: int): (r: Option<int>)
    ensures -(TwoTo53 as int) < v < TwoTo53 ==> r == Some(v)
    ensures r.Some? ==> -(TwoTo1024 as int) < r.value < TwoTo1024
    ensures r.Some? && v >= 0 ==> r.value == RoundToDouble(v)
    ensures r.Some? && v < 0 ==> r.value == -(RoundToDouble(-v) as int)
  {
    var m: int := RoundToDouble(if v < 0 then -v else v);
    var x: int := if v < 0 then -m else m;
    if m >= TwoTo1024 then None else Some(x)
  }

  // ------------------------------------------------------------ other text

  predicate StartsWith(s: string, prefix: string) {
    |prefix| <= |s| && s[..|prefix|] == prefix
  }

  /** `s.replace(c, "")` with a one-character search string: only the first
      occurrence goes. */
  function ReplaceFirst(s: string, c: char): (r: string)
    ensures c !in s ==> r == s
    ensures c in s ==> |r| == |s| - 1
    ensures |s| > 0 && s[0] == c ==> r == s[1..]
    ensures c in s ==> RemovesFirst(s, c, r)
  {
    if |s| == 0 then s
    else if s[0] == c then
      assert s[..0] + s[1..] == s[1..];
      assert RemovesFirstAt(s, c, s[1..], 0);
      s[1..]
    else
      var t := ReplaceFirst(s[1..], c);
      if c in s[1..] then
        RemovedAfterHead(s, c, t);
        [s[0]] + t
      else [s[0]] + t
  }

  /** `t` is `u` with the `c` at position `i`, its first, removed. */
  predicate RemovesFirstAt(u: string, c: char, t: string, i: int) {
    0 <= i < |u| && u[i] == c && c !in u[..i] && t == u[..i] + u[i + 1..]
  }

  /** `t` is `u` with its first `c` removed. */
  ghost predicate RemovesFirst(u: string, c: char, t: string) {
    exists i :: RemovesFirstAt(u, c, t, i)
  }

  /** A head other than `c` stays in front of the removal in the tail. */
  lemma RemovedAfterHead(s: string, c: char, t: string)
    requires |s| > 0 && s[0] != c && RemovesFirst(s[1..], c, t)
    ensures RemovesFirst(s, c, [s[0]] + t)
  {
    var u := s[1..];
    var i :| RemovesFirstAt(u, c, t, i);
    assert s[..i + 1] == [s[0]] + u[..i];
    assert u[i + 1..] == s[i + 2..];
    assert [s[0]] + t == s[..i + 1] + s[i + 2..];
    assert RemovesFirstAt(s, c, [s[0]] + t, i + 1);
  }

  function UpperChar(c: char): char {
    if 'a' <= c <= 'z' then (c as int - 32) as char else c
  }

  function LowerChar(c: char): char {
    if 'A' <= c <= 'Z' then (c as int + 32) as char else c
  }

  /** `toUpperCase` on the ASCII letters. */
  function ToUpper(s: string): (r: string)
    ensures |r| == |s| && forall i :: 0 <= i < |s| ==> r[i] == UpperChar(s[i])
  {
    seq(|s|, i requires 0 <= i < |s| => UpperChar(s[i]))
  }

  /** `toLowerCase` on the ASCII letters. */
  function ToLower(s: string): (r: string)
    ensures |r| == |s| && forall i :: 0 <= i < |s| ==> r[i] == LowerChar(s[i])
    ensures forall i :: 0 <= i < |r| ==> !('A' <= r[i] <= 'Z')
  {
    seq(|s|, i requires 0 <= i < |s| => LowerChar(s[i]))
  }

  /** Lower-casing twice is lower-casing once. */
  lemma ToLowerIdempotent(s: string)
    ensures ToLower(ToLower(s)) == ToLower(s)
  {
  }

  /** The string `<` of JavaScript: lexicographic by character, a proper prefix
      comes first. */
  predicate StrLess(a: string, b: string) {
    if |a| == 0 then |b| > 0
    else if |b| == 0 then false
    else if a[0] != b[0] then a[0] < b[0]
    else StrLess(a[1..], b[1..])
  }

  lemma {:induction false} StrLessIrreflexive(a: string)
    ensures !StrLess(a, a)
  {
    if |a| > 0 {
      StrLessIrreflexive(a[1..]);
    }
  }

  lemma {:induction false} StrLessTransitive(a: string, b: string, c: string)
    requires StrLess(a, b) && StrLess(b, c)
    ensures StrLess(a, c)
  {
    if |a| > 0 && |b| > 0 && |c| > 0 && a[0] == b[0] && b[0] == c[0] {
      StrLessTransitive(a[1..], b[1..], c[1..]);
    }
  }

  /** Neither string is below the other only when they are equal. */
  lemma {:induction false} StrLessTotal(a: string, b: string)
    requires !StrLess(a, b) && !StrLess(b, a)
    ensures a == b
  {
    if |a| > 0 && |b| > 0 {
      StrLessTotal(a[1..], b[1..]);
      assert a == [a[0]] + a[1..];
      assert b == [b[0]] + b[1..];
    }
  }

  /** "Not below" is transitive. */
  lemma {:induction false} StrNotLessTransitive(a: string, b: string, c: string)
    requires !StrLess(b, a) && !StrLess(c, b)
    ensures !StrLess(c, a)
  {
    if |a| > 0 && |b| > 0 && |c| > 0 && a[0] == b[0] && b[0] == c[0] {
      StrNotLessTransitive(a[1..], b[1..], c[1..]);
    }
  }

  // ------------------------------------------------------------- integer division

  lemma MulAtLeast(a: int, d: int)
    requires a >= 1 && d > 0
    ensures a * d >= d
  {
  }

  /** Quotient and remainder are determined by any decomposition
      `v == q * d + r` with `0 <= r < d`. */
  lemma DivModOf(v: int, q: int, r: int, d: int)
    requires d > 0 && 0 <= r < d && v == q * d + r
    ensures v / d == q && v % d == r
  {
    var q', r' := v / d, v % d;
    assert v == q' * d + r';
    assert (q - q') * d == r' - r;
    if q > q' {
      MulAtLeast(q - q', d);
    } else if q < q' {
      MulAtLeast(q' - q, d);
    }
  }
}
