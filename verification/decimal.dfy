/** Decimal text as the JVM writes and reads it: `Int.toString()`,
    `String.toIntOrNull()` and the zero-padded `"%0<w>d"` format. */
module Decimal {
  import opened Common

  /** The range of a 32-bit `Int`. */
  const IntMin: int := -0x8000_0000
  const IntMax: int := 0x7fff_ffff

  predicate IsDigit(c: char)
  {
    '0' <= c <= '9'
  }

  predicate AllDigits(s: seq<char>)
  {
    forall i :: 0 <= i < |s| ==> IsDigit(s[i])
  }

  /** A non-empty digit string without a leading zero (other than "0" itself). */
  predicate Canonical(s: seq<char>)
  {
    |s| >= 1 && AllDigits(s) && (|s| > 1 ==> s[0] != '0')
  }

  function DigitValue(c: char): nat
    requires IsDigit(c)
  {
    c as int - '0' as int
  }

  function DigitChar(d: nat): (c: char)
    requires d < 10
    ensures IsDigit(c) && DigitValue(c) == d
  {
    ('0' as int + d) as char
  }

  /** The value of a digit string, most significant digit first. */
  function DigitsValue(s: seq<char>): nat
    requires AllDigits(s)
  {
    if s == [] then 0 else DigitsValue(s[..|s| - 1]) * 10 + DigitValue(s[|s| - 1])
  }

  /** `n.toString()` for a number that is not negative. */
  function NatToString(n: nat): (s: seq<char>)
    ensures Canonical(s)
    ensures s[0] == '0' <==> n == 0
  {
    if n < 10 then [DigitChar(n)]
    else NatToString(n / 10) + [DigitChar(n % 10)]
  }

  /** `n.toString()` */
  function IntToString(n: int): (r: seq<char>)
    ensures |r| >= 1 && (r[0] == '-' <==> n < 0)
    ensures Canonical(if n < 0 then r[1..] else r)
  {
    if n < 0 then ['-'] + NatToString(-n) else NatToString(n)
  }

  /** Reading back what `NatToString` wrote gives the number. */
  lemma {:induction false} NatToStringValue(n: nat)
    ensures DigitsValue(NatToString(n)) == n
  {
    if n >= 10 {
      NatToStringValue(n / 10);
      var s := NatToString(n);
      assert s[..|s| - 1] == NatToString(n / 10);
    }
  }

  /** A canonical string with a leading digit other than zero is worth at least 1. */
  lemma {:induction false} LeadingDigitPositive(s: seq<char>)
    requires Canonical(s) && s[0] != '0'
    ensures DigitsValue(s) >= 1
  {
    if |s| > 1 {
      var init := s[..|s| - 1];
      LeadingDigitPositive(init);
    }
  }

  /** Writing the value of a canonical string gives the string back: the two
      are inverse on canonical strings. */
  lemma {:induction false} CanonicalRoundTrip(s: seq<char>)
    requires Canonical(s)
    ensures NatToString(DigitsValue(s)) == s
  {
    if |s| > 1 {
      var init := s[..|s| - 1];
      CanonicalRoundTrip(init);
      LeadingDigitPositive(init);
      var v := DigitsValue(s);
      assert v / 10 == DigitsValue(init) && v % 10 == DigitValue(s[|s| - 1]);
      assert s == init + [s[|s| - 1]];
    }
  }

  /** `toIntOrNull()`: an optional sign, then one or more ASCII digits, whose
      value fits an `Int`; anything else is `null`. */
  function ToIntOrNull(s: seq<char>): (r: Option<int>)
    ensures r.Some? ==> IntMin <= r.value <= IntMax
    ensures r.Some? ==> |s| >= 1 && (r.value < 0 ==> s[0] == '-')
    ensures (forall i :: 0 <= i < |s| ==> !IsDigit(s[i])) ==> r.None?
  {
    if s == [] then None
    else
      var digits := if s[0] == '-' || s[0] == '+' then s[1..] else s;
      if digits == [] || !AllDigits(digits) then None
      else
        var v := if s[0] == '-' then 0 - DigitsValue(digits) as int else DigitsValue(digits) as int;
        if IntMin <= v <= IntMax then Some(v) else None
  }

  /** Every `Int` survives being written and read back. */
  lemma IntRoundTrip(n: int)
    requires IntMin <= n <= IntMax
    ensures ToIntOrNull(IntToString(n)) == Some(n)
  {
    var s := IntToString(n);
    if n < 0 {
      var d := NatToString(-n);
      NatToStringValue(-n);
      assert s == ['-'] + d && s[0] == '-';
      assert s[1..] == d;
      assert AllDigits(d) && DigitsValue(d) == -n;
    } else {
      NatToStringValue(n);
      assert IsDigit(s[0]);
    }
  }

  /** A canonical string reads as its value when that fits an `Int`, and as
      `null` when it overflows. */
  lemma CanonicalToInt(s: seq<char>)
    requires Canonical(s)
    ensures DigitsValue(s) <= IntMax ==> ToIntOrNull(s) == Some(DigitsValue(s))
    ensures DigitsValue(s) > IntMax ==> ToIntOrNull(s) == None
  {
  }

  /** `k` zeros. */
  function Zeros(k: int): (z: seq<char>)
    ensures |z| == if k > 0 then k else 0
    ensures forall i :: 0 <= i < |z| ==> z[i] == '0'
    decreases k
  {
    if k <= 0 then [] else Zeros(k - 1) + ['0']
  }

  /** `"%0<width>d".format(n)`: the digits of `|n|`, after a minus sign for a
      negative `n`, with zeros between them so that the whole is at least
      `width` characters. */
  function PadZero(n: int, width: nat): (r: seq<char>)
    ensures |r| >= width && |r| >= 1
    ensures r[0] == '-' <==> n < 0
  {
    var digits := NatToString(if n < 0 then -n else n);
    var sign := if n < 0 then "-" else "";
    sign + Zeros(width - |sign| - |digits|) + digits
  }

  lemma {:induction false} ZerosThenDigits(k: int, s: seq<char>)
    requires AllDigits(s)
    ensures AllDigits(Zeros(k) + s) && DigitsValue(Zeros(k) + s) == DigitsValue(s)
  {
    if s == [] {
      ZerosValue(k);
      assert Zeros(k) + s == Zeros(k);
    } else {
      var init := s[..|s| - 1];
      ZerosThenDigits(k, init);
      assert (Zeros(k) + s)[..|Zeros(k) + s| - 1] == Zeros(k) + init;
    }
  }

  lemma {:induction false} ZerosValue(k: int)
    ensures AllDigits(Zeros(k)) && DigitsValue(Zeros(k)) == 0
    decreases k
  {
    if k > 0 {
      ZerosValue(k - 1);
      var z := Zeros(k);
      assert z[..|z| - 1] == Zeros(k - 1);
    }
  }

  /** Padding a number that is not negative gives digits only, worth the number,
      exactly `width` long when the number has at most `width` digits. */
  lemma PadZeroSpec(n: nat, width: nat)
    ensures AllDigits(PadZero(n, width)) && DigitsValue(PadZero(n, width)) == n
    ensures |PadZero(n, width)| >= width
    ensures |NatToString(n)| <= width ==> |PadZero(n, width)| == width
  {
    NatToStringValue(n);
    ZerosThenDigits(width - |NatToString(n)|, NatToString(n));
    assert PadZero(n, width) == Zeros(width - |NatToString(n)|) + NatToString(n);
  }

  /** Numbers below `10^k` have at most `k` digits, for the widths in use. */
  lemma NatToStringLength(n: nat)
    ensures n < 10 ==> |NatToString(n)| == 1
    ensures n < 100 ==> |NatToString(n)| <= 2
    ensures n < 1000 ==> |NatToString(n)| <= 3
  {
    if n >= 10 {
      var a := n / 10;
      if a >= 10 {
        assert |NatToString(a / 10)| == 1 || a / 10 >= 10;
      }
    }
  }
}
