/** Decimal numerals, as std::to_string writes them. */
module Decimal {
  import opened Bytes

  type digit = d: int | 0 <= d < 10

  function Digits(n: nat): (ds: seq<digit>)
    ensures |ds| > 0
    ensures n < 10 ==> |ds| == 1
  {
    if n < 10 then [n] else Digits(n / 10) + [n % 10]
  }

  /** The number a digit string stands for. */
  function Value(ds: seq<digit>): nat {
    if ds == [] then 0 else 10 * Value(ds[..|ds| - 1]) + ds[|ds| - 1]
  }

  lemma {:induction false} ValueOfDigits(n: nat)
    ensures Value(Digits(n)) == n
  {
    if n >= 10 {
      ValueOfDigits(n / 10);
      var ds := Digits(n / 10);
      assert (ds + [n % 10])[..|ds + [n % 10]| - 1] == ds;
    } else {
      assert Digits(n)[..0] == [];
    }
  }

  /** A numeral has no leading zero. */
  lemma {:induction false} NoLeadingZero(n: nat)
    requires n > 0
    ensures Digits(n)[0] != 0
  {
    if n >= 10 {
      NoLeadingZero(n / 10);
    }
  }

  /** A numeral below 10^k has at most k digits. */
  lemma {:induction false} DigitCount(n: nat, k: nat, bound: nat)
    requires k > 0 && n < bound && bound == Power10(k)
    ensures |Digits(n)| <= k
  {
    if n >= 10 && k > 1 {
      DigitCount(n / 10, k - 1, Power10(k - 1));
    }
  }

  function Power10(k: nat): nat {
    if k == 0 then 1 else 10 * Power10(k - 1)
  }

  /** Digits as ASCII octets. */
  function DigitBytes(ds: seq<digit>): (r: seq<byte>)
    ensures |r| == |ds|
    ensures forall i :: 0 <= i < |ds| ==> r[i] == 0x30 + ds[i] as int
  {
    seq(|ds|, i requires 0 <= i < |ds| => 0x30 + ds[i] as int)
  }

  function ToBytes(n: nat): (r: seq<byte>)
    ensures |r| > 0
    ensures forall i :: 0 <= i < |r| ==> 0x30 <= r[i] <= 0x39
  {
    DigitBytes(Digits(n))
  }

  predicate IsNumeral(s: seq<byte>) {
    s != [] && forall i :: 0 <= i < |s| ==> 0x30 <= s[i] <= 0x39
  }

  /** How a reader of the numeral evaluates it. */
  function FromBytes(s: seq<byte>): nat
    requires IsNumeral(s)
  {
    Value(seq(|s|, i requires 0 <= i < |s| => s[i] - 0x30))
  }

  lemma FromToBytes(n: nat)
    ensures IsNumeral(ToBytes(n)) && FromBytes(ToBytes(n)) == n
  {
    var ds := Digits(n);
    var s := ToBytes(n);
    assert seq(|s|, i requires 0 <= i < |s| => s[i] - 0x30) == ds;
    ValueOfDigits(n);
  }

  // ----- signed numerals as text -----

  function DigitChars(ds: seq<digit>): (r: string)
    ensures |r| == |ds|
    ensures forall i :: 0 <= i < |ds| ==> '0' <= r[i] <= '9' && r[i] as int == 0x30 + ds[i] as int
  {
    seq(|ds|, i requires 0 <= i < |ds| => (0x30 + ds[i] as int) as char)
  }

  /** std::to_string of a signed integer. */
  function ToText(n: int): (r: string)
    ensures r != ""
    ensures forall i :: 0 <= i < |r| ==> r[i] == '-' || '0' <= r[i] <= '9'
  {
    if n < 0 then "-" + DigitChars(Digits(-n)) else DigitChars(Digits(n))
  }

  predicate IsDigits(s: string) {
    s != "" && forall i :: 0 <= i < |s| ==> '0' <= s[i] <= '9'
  }

  predicate IsNumberText(s: string) {
    IsDigits(s) || (s != "" && s[0] == '-' && IsDigits(s[1..]))
  }

  function DigitsValue(s: string): nat
    requires IsDigits(s)
  {
    Value(seq(|s|, i requires 0 <= i < |s| => s[i] as int - 0x30))
  }

  function FromText(s: string): int
    requires IsNumberText(s)
  {
    if IsDigits(s) then DigitsValue(s) else 0 - DigitsValue(s[1..]) as int
  }

  lemma DigitsOfText(n: nat)
    ensures var s := DigitChars(Digits(n)); IsDigits(s) && DigitsValue(s) == n
  {
    var ds := Digits(n);
    var s := DigitChars(ds);
    assert seq(|s|, i requires 0 <= i < |s| => s[i] as int - 0x30) == ds;
    ValueOfDigits(n);
  }

  lemma FromToText(n: int)
    ensures IsNumberText(ToText(n)) && FromText(ToText(n)) == n
  {
    if n < 0 {
      DigitsOfText(-n);
      assert ToText(n)[1..] == DigitChars(Digits(-n));
      assert ToText(n)[0] == '-';
    } else {
      DigitsOfText(n);
    }
  }
}
