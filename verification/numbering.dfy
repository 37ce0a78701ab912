/** Allocation of the participant number (`nomor_peserta`) printed on a
    certificate: one more than the largest number handed out so far, written
    with at least three digits.

    The handler finds "the largest" by sorting the text column in descending
    order, so the comparison is the string order, not the numeric one. Both
    readings are defined here: `NextNomorAsWritten` follows the handler,
    `NextNomor` is the numeric reading the zero padding was meant to give.
    They agree while every number is below 1000 (`AsWrittenAgreesBelow1000`);
    from 1000 on the string order keeps "999" on top and the handler hands
    out "1000" again (`AsWrittenRepeats1000`). */
module Numbering {
  import opened Base
  import opened Text

  /** `String(n).padStart(3, '0')`. */
  function Pad3(n: nat): string {
    PadStart(NatToString(n), 3, '0')
  }

  /** The same for any integer: `parseInt` of the stored maximum may be negative. */
  function Pad3Int(i: int): string {
    PadStart(IntToString(i), 3, '0')
  }

  /** The value at the top of a descending sort of the text column. */
  ghost function MaxLex(s: set<string>): (top: string)
    requires s != {}
    ensures top in s
    ensures forall x :: x in s ==> LexLe(x, top)
  {
    var x :| x in s;
    if s == {x} then
      assert forall y :: y in s ==> y == x;
      LexLeTotal(x, x);
      x
    else
      var rest := MaxLex(s - {x});
      LexLeTotal(x, rest);
      if LexLe(x, rest) then rest
      else
        assert forall y :: y in s - {x} ==> LexLe(y, x) by {
          forall y | y in s - {x}
            ensures LexLe(y, x)
          {
            LexLeTrans(y, rest, x);
          }
        }
        LexLeTotal(x, x);
        x
  }

  /** The number `generateSertifikat` allocates, as written: the string-order
      maximum of the stored numbers, `parseInt` plus one, padded; 1 when no
      number (or only an empty one) is stored; "NaN" when the maximum does not
      start with a number. */
  ghost function NextNomorAsWritten(existing: set<string>): string {
    if existing == {} then Pad3(1)
    else
      var top := MaxLex(existing);
      if top == "" then Pad3(1)
      else
        match ParseInt(top)
        case None => "NaN"
        case Some(v) => Pad3Int(v + 1)
  }

  /** The largest value `parseInt` reads from a stored number, or 0. */
  ghost function MaxParsed(existing: set<string>): (top: nat)
    ensures forall v :: v in existing && ParseInt(v).Some? ==> ParseInt(v).value <= top
    ensures top == 0 || exists v :: v in existing && ParseInt(v) == Some(top)
  {
    if existing == {} then 0
    else
      var x :| x in existing;
      var rest := MaxParsed(existing - {x});
      assert forall v :: v in existing ==> v == x || v in existing - {x};
      match ParseInt(x)
      case Some(n) => if n > rest then n else rest
      case None => rest
  }

  /** One more than the numeric maximum, and at least 1. */
  ghost function NextNumber(existing: set<string>): (n: nat)
    ensures n >= 1
    ensures forall v :: v in existing && ParseInt(v).Some? ==> ParseInt(v).value < n
  {
    MaxParsed(existing) + 1
  }

  /** The allocation with the numeric maximum, which the zero padding was
      meant to give; `Sertifikat.GenerateSertifikatNumeric` uses it. */
  ghost function NextNomor(existing: set<string>): string {
    Pad3(NextNumber(existing))
  }

  /** The corrected allocation never repeats a stored number, and reads back
      as a number larger than every stored one. */
  lemma NextNomorIsNew(existing: set<string>)
    ensures ParseInt(NextNomor(existing)) == Some(NextNumber(existing))
    ensures NextNomor(existing) !in existing
  {
    ParsePadded(NextNumber(existing), 3);
  }

  /** A number as the handler writes it while fewer than 1000 are out. */
  ghost predicate Canonical(v: string) {
    var p := ParseInt(v);
    p.Some? && 0 <= p.value < 1000 && v == Pad3(p.value)
  }

  lemma {:induction false} NatToStringLength(n: nat, k: nat)
    requires k >= 1 && n < Pow10(k)
    ensures |NatToString(n)| <= k
    decreases n
  {
    if n >= 10 {
      assert Pow10(1) == 10;
      assert k >= 2;
      assert n / 10 < Pow10(k - 1);
      NatToStringLength(n / 10, k - 1);
    }
  }

  /** Below 1000 a padded number is exactly three digits denoting it. */
  lemma Pad3Digits(n: nat)
    requires n < 1000
    ensures |Pad3(n)| == 3 && AllDigits(Pad3(n)) && DigitsValue(Pad3(n)) == n
  {
    assert Pow10(3) == 1000;
    NatToStringLength(n, 3);
    NatToStringValue(n);
    var s := NatToString(n);
    LeadingZeros(3 - |s|, s);
    assert Pad3(n) == Repeat('0', 3 - |s|) + s;
  }

  /** For numbers below 1000 the string order of the padded forms is the
      numeric order. */
  lemma PaddedOrderIsNumeric(n: nat, m: nat)
    requires n < 1000 && m < 1000
    ensures LexLe(Pad3(n), Pad3(m)) <==> n <= m
  {
    Pad3Digits(n);
    Pad3Digits(m);
    LexIsNumeric(Pad3(n), Pad3(m));
  }

  /** While every stored number is a padded number below 1000, the handler's
      string-order allocation gives the numeric one. */
  lemma AsWrittenAgreesBelow1000(existing: set<string>)
    requires forall v :: v in existing ==> Canonical(v)
    ensures NextNomorAsWritten(existing) == NextNomor(existing)
  {
    if existing != {} {
      var top := MaxLex(existing);
      TopIsNumericMax(existing, top);
      AgreeFromTop(existing, top, ParseInt(top).value);
    }
  }

  /** When the top of the string order reads as the numeric maximum, both
      allocations give its padded successor. */
  lemma AgreeFromTop(existing: set<string>, top: string, t: nat)
    requires existing != {} && top == MaxLex(existing) && top != "" && ParseInt(top) == Some(t)
    requires MaxParsed(existing) == t
    ensures NextNomorAsWritten(existing) == NextNomor(existing)
  {
    AsWrittenFromTop(existing, top, t);
  }

  /** With a readable, non-negative maximum on top of the string order, the
      handler allocates the padded successor. */
  lemma AsWrittenFromTop(existing: set<string>, top: string, t: nat)
    requires existing != {} && top == MaxLex(existing) && top != "" && ParseInt(top) == Some(t)
    ensures NextNomorAsWritten(existing) == Pad3(t + 1)
  {
    assert Pad3Int(t + 1) == Pad3(t + 1);
  }

  lemma TopIsNumericMax(existing: set<string>, top: string)
    requires forall v :: v in existing ==> Canonical(v)
    requires top in existing && forall x :: x in existing ==> LexLe(x, top)
    ensures top != "" && ParseInt(top).Some? && ParseInt(top).value >= 0
    ensures MaxParsed(existing) == ParseInt(top).value
  {
    assert Canonical(top);
    var t := ParseInt(top).value;
    var m := MaxParsed(existing);
    if m != 0 {
      var v :| v in existing && ParseInt(v) == Some(m);
      PaddedOrderIsNumeric(m, t);
    }
  }

  /** Once "999" and "1000" are both stored, "999" stays on top of the string
      order and the handler allocates "1000" a second time. */
  lemma AsWrittenRepeats1000()
    ensures NextNomorAsWritten({"999", "1000"}) == "1000"
    ensures "1000" in {"999", "1000"}
    ensures NextNomor({"999", "1000"}) != "1000"
  {
    var s := {"999", "1000"};
    NineNineNineOnTop();
    ParseNineNineNine();
    AsWrittenFromTop(s, "999", 999);
    ThousandDigits();
    assert Pad3(1000) == "1000";
    NextNomorIsNew(s);
  }

  lemma NineNineNineOnTop()
    ensures MaxLex({"999", "1000"}) == "999"
  {
    assert !LexLe("999", "1000");
  }

  lemma ParseNineNineNine()
    ensures ParseInt("999") == Some(999)
  {
    assert AllDigits("999");
    ParseDigits("999");
    assert "999"[1..] == "99" && "99"[1..] == "9";
    assert Pow10(2) == 100;
  }

  lemma ThousandDigits()
    ensures NatToString(1000) == "1000"
  {
    assert NatToString(1) == "1";
    assert NatToString(10) == "1" + "0";
    assert NatToString(100) == "10" + "0";
  }
}
