/** String primitives the handlers borrow from JavaScript: the `\s` class,
    ASCII case folding, prefix/suffix/substring tests, code-point order,
    `String(n)`, `padStart` and `parseInt` in base 10. */
module Text {
  import opened Base

  /** A character matched by `\s` in a JavaScript regular expression (and
      skipped by `parseInt` before the number). */
  predicate IsSpace(c: char) {
    var k := c as int;
    k == 0x09 || k == 0x0A || k == 0x0B || k == 0x0C || k == 0x0D || k == 0x20
    || k == 0xA0 || k == 0x1680 || (0x2000 <= k <= 0x200A) || k == 0x2028
    || k == 0x2029 || k == 0x202F || k == 0x205F || k == 0x3000 || k == 0xFEFF
  }

  predicate NoSpace(s: string) {
    forall i :: 0 <= i < |s| ==> !IsSpace(s[i])
  }

  predicate StartsWith(s: string, p: string) {
    |p| <= |s| && s[..|p|] == p
  }

  predicate EndsWith(s: string, p: string) {
    |p| <= |s| && s[|s| - |p|..] == p
  }

  /** `s.includes(sub)`: some position of `s` starts a copy of `sub`. */
  predicate Contains(s: string, sub: string)
    decreases |s|
  {
    StartsWith(s, sub) || (|s| > 0 && Contains(s[1..], sub))
  }

  /** `s.indexOf(c)`: the first position holding `c`, if any. */
  function IndexOf(s: string, c: char): (r: Option<nat>)
    ensures r.None? ==> c !in s
    ensures r.Some? ==> r.value < |s| && s[r.value] == c && forall i :: 0 <= i < r.value ==> s[i] != c
    decreases |s|
  {
    if |s| == 0 then None
    else if s[0] == c then Some(0)
    else
      match IndexOf(s[1..], c)
      case None => None
      case Some(k) => Some(k + 1)
  }

  function LowerChar(c: char): char {
    if 'A' <= c <= 'Z' then (c as int + 32) as char else c
  }

  /** `toLowerCase`, on the ASCII letters. */
  function Lower(s: string): (r: string)
    ensures |r| == |s|
    ensures forall i :: 0 <= i < |s| ==> r[i] == LowerChar(s[i])
  {
    seq(|s|, i requires 0 <= i < |s| => LowerChar(s[i]))
  }

  /** Lower-casing twice is lower-casing once. */
  lemma LowerIdempotent(s: string)
    ensures Lower(Lower(s)) == Lower(s)
  {
  }

  /** Lexicographic order on code points: the order a string column is
      sorted in by `orderBy: 'asc' | 'desc'`. A prefix sorts first. */
  predicate LexLe(a: string, b: string)
    decreases |a|
  {
    |a| == 0 || (|b| > 0 && (a[0] < b[0] || (a[0] == b[0] && LexLe(a[1..], b[1..]))))
  }

  lemma LexLeTotal(a: string, b: string)
    ensures LexLe(a, b) || LexLe(b, a)
    decreases |a|
  {
    if |a| > 0 && |b| > 0 && a[0] == b[0] {
      LexLeTotal(a[1..], b[1..]);
    }
  }

  lemma LexLeTrans(a: string, b: string, c: string)
    requires LexLe(a, b) && LexLe(b, c)
    ensures LexLe(a, c)
    decreases |a|
  {
    if |a| > 0 && a[0] == b[0] && b[0] == c[0] {
      LexLeTrans(a[1..], b[1..], c[1..]);
    }
  }

  lemma LexLeAntisym(a: string, b: string)
    requires LexLe(a, b) && LexLe(b, a)
    ensures a == b
    decreases |a|
  {
    if |a| > 0 {
      LexLeAntisym(a[1..], b[1..]);
      assert a == [a[0]] + a[1..] && b == [b[0]] + b[1..];
    }
  }

  predicate IsDigit(c: char) {
    '0' <= c <= '9'
  }

  predicate AllDigits(s: string) {
    forall i :: 0 <= i < |s| ==> IsDigit(s[i])
  }

  function DigitOf(c: char): nat
    requires IsDigit(c)
  {
    c as int - '0' as int
  }

  function Digit(d: nat): (c: char)
    requires d < 10
    ensures IsDigit(c) && DigitOf(c) == d
  {
    ('0' as int + d) as char
  }

  function Pow10(n: nat): nat {
    if n == 0 then 1 else 10 * Pow10(n - 1)
  }

  /** The number a string of decimal digits denotes, most significant first. */
  function DigitsValue(s: string): nat
    requires AllDigits(s)
    decreases |s|
  {
    if |s| == 0 then 0 else DigitOf(s[0]) * Pow10(|s| - 1) + DigitsValue(s[1..])
  }

  /** `String(n)` for a non-negative integer: no leading zeros. */
  function NatToString(n: nat): string
    decreases n
  {
    if n < 10 then [Digit(n)] else NatToString(n / 10) + [Digit(n % 10)]
  }

  /** `String(i)` for any integer. */
  function IntToString(i: int): string {
    if i < 0 then "-" + NatToString(-i) else NatToString(i)
  }

  function Repeat(c: char, n: nat): (r: string)
    ensures |r| == n
    ensures forall i :: 0 <= i < n ==> r[i] == c
  {
    seq(n, _ => c)
  }

  /** `s.padStart(width, c)`: fill on the left up to `width` characters. */
  function PadStart(s: string, width: nat, c: char): (r: string)
    ensures |r| == if |s| >= width then |s| else width
    ensures r[|r| - |s|..] == s
    ensures forall i :: 0 <= i < |r| - |s| ==> r[i] == c
  {
    if |s| >= width then s else Repeat(c, width - |s|) + s
  }

  function TrimStart(s: string): (r: string)
    ensures |r| > 0 ==> !IsSpace(r[0])
    decreases |s|
  {
    if |s| > 0 && IsSpace(s[0]) then TrimStart(s[1..]) else s
  }

  /** The longest prefix of `s` made of decimal digits. */
  function DigitPrefix(s: string): (r: string)
    ensures AllDigits(r) && |r| <= |s| && r == s[..|r|]
    ensures |r| < |s| ==> !IsDigit(s[|r|])
    decreases |s|
  {
    if |s| > 0 && IsDigit(s[0]) then [s[0]] + DigitPrefix(s[1..]) else ""
  }

  /** JavaScript `parseInt(s)` with the radix left to default: leading white
      space is skipped, one sign is allowed, then the longest run of digits is
      read. No digit at all is `NaN`, here `None`. */
  function ParseInt(s: string): Option<int> {
    var t := TrimStart(s);
    var negative := |t| > 0 && t[0] == '-';
    var u := if |t| > 0 && (t[0] == '-' || t[0] == '+') then t[1..] else t;
    var d := DigitPrefix(u);
    if d == "" then None
    else
      var v: int := DigitsValue(d);
      Some(if negative then -v else v)
  }

  // ---------------------------------------------------------------------------
  // Facts about decimal strings.

  lemma {:induction false} DigitsValueAppend(a: string, c: char)
    requires AllDigits(a) && IsDigit(c)
    ensures AllDigits(a + [c])
    ensures DigitsValue(a + [c]) == DigitsValue(a) * 10 + DigitOf(c)
    decreases |a|
  {
    if |a| == 0 {
      assert a + [c] == [c];
    } else {
      var rest := a[1..];
      var ac := a + [c];
      assert ac[1..] == rest + [c] && ac[0] == a[0];
      DigitsValueAppend(rest, c);
      var d := DigitOf(a[0]);
      var p := Pow10(|a| - 1);
      assert Pow10(|ac| - 1) == 10 * p;
      assert DigitsValue(ac) == d * (10 * p) + DigitsValue(rest + [c]);
      assert DigitsValue(a) == d * p + DigitsValue(rest);
      MulTen(d, p, DigitsValue(rest), DigitOf(c));
    }
  }

  lemma MulTen(d: int, p: int, v: int, e: int)
    ensures d * (10 * p) + (v * 10 + e) == (d * p + v) * 10 + e
  {
  }

  /** `String(n)` is a non-empty digit string denoting `n`. */
  lemma {:induction false} NatToStringValue(n: nat)
    ensures |NatToString(n)| > 0 && AllDigits(NatToString(n))
    ensures DigitsValue(NatToString(n)) == n
    decreases n
  {
    if n >= 10 {
      NatToStringValue(n / 10);
      DigitsValueAppend(NatToString(n / 10), Digit(n % 10));
    }
  }

  lemma {:induction false} LeadingZeros(k: nat, s: string)
    requires AllDigits(s)
    ensures AllDigits(Repeat('0', k) + s)
    ensures DigitsValue(Repeat('0', k) + s) == DigitsValue(s)
    decreases k
  {
    if k > 0 {
      var z := Repeat('0', k) + s;
      assert z[1..] == Repeat('0', k - 1) + s;
      LeadingZeros(k - 1, s);
      assert z[0] == '0' && DigitOf(z[0]) == 0;
      assert DigitsValue(z) == 0 * Pow10(|z| - 1) + DigitsValue(z[1..]);
    } else {
      assert Repeat('0', k) + s == s;
    }
  }

  lemma {:induction false} DigitsValueBound(s: string)
    requires AllDigits(s)
    ensures DigitsValue(s) < Pow10(|s|)
    decreases |s|
  {
    if |s| > 0 {
      DigitsValueBound(s[1..]);
      LeadingTermDecides(DigitOf(s[0]), 10, Pow10(|s| - 1), DigitsValue(s[1..]), 0);
    }
  }

  lemma DigitPrefixOfDigits(s: string)
    requires AllDigits(s)
    ensures DigitPrefix(s) == s
  {
  }

  /** The digit run ends where the first non-digit starts. */
  lemma {:induction false} DigitPrefixStops(d: string, rest: string)
    requires AllDigits(d) && |rest| > 0 && !IsDigit(rest[0])
    ensures DigitPrefix(d + rest) == d
    decreases |d|
  {
    if |d| > 0 {
      assert (d + rest)[1..] == d[1..] + rest;
      DigitPrefixStops(d[1..], rest);
      assert d == [d[0]] + d[1..];
    } else {
      assert d + rest == rest;
    }
  }

  /** `parseInt` reads back every non-empty digit string, leading zeros and all. */
  lemma ParseDigits(s: string)
    requires |s| > 0 && AllDigits(s)
    ensures ParseInt(s) == Some(DigitsValue(s))
  {
    assert !IsSpace(s[0]);
    assert TrimStart(s) == s;
    DigitPrefixOfDigits(s);
  }

  /** `parseInt(String(n).padStart(w, '0'))` gives back `n`. */
  lemma ParsePadded(n: nat, w: nat)
    ensures ParseInt(PadStart(NatToString(n), w, '0')) == Some(n)
  {
    var s := NatToString(n);
    NatToStringValue(n);
    var p := PadStart(s, w, '0');
    if |s| < w {
      LeadingZeros(w - |s|, s);
    }
    ParseDigits(p);
  }

  /** On digit strings of one length, the string order is the numeric order. */
  lemma {:induction false} LexIsNumeric(a: string, b: string)
    requires |a| == |b| && AllDigits(a) && AllDigits(b)
    ensures LexLe(a, b) <==> DigitsValue(a) <= DigitsValue(b)
    decreases |a|
  {
    if |a| > 0 {
      if a[0] < b[0] {
        FirstDigitDecides(a, b);
      } else if b[0] < a[0] {
        FirstDigitDecides(b, a);
      } else {
        LexIsNumeric(a[1..], b[1..]);
      }
    }
  }

  /** A smaller leading digit makes the smaller number, whatever follows. */
  lemma FirstDigitDecides(a: string, b: string)
    requires |a| == |b| > 0 && AllDigits(a) && AllDigits(b) && a[0] < b[0]
    ensures DigitsValue(a) < DigitsValue(b)
  {
    var p := Pow10(|a| - 1);
    DigitsValueBound(a[1..]);
    assert DigitsValue(a) == DigitOf(a[0]) * p + DigitsValue(a[1..]);
    assert DigitsValue(b) == DigitOf(b[0]) * p + DigitsValue(b[1..]);
    LeadingTermDecides(DigitOf(a[0]), DigitOf(b[0]), p, DigitsValue(a[1..]), DigitsValue(b[1..]));
  }

  lemma LeadingTermDecides(x: nat, y: nat, p: nat, ra: nat, rb: nat)
    requires x < y && ra < p
    ensures x * p + ra < y * p + rb
  {
    MulMono(x + 1, y, p);
    assert (x + 1) * p == x * p + p;
  }

  lemma MulMono(x: nat, y: nat, p: nat)
    requires x <= y
    ensures x * p <= y * p
  {
  }
}
