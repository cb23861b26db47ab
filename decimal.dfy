/** Decimal rendering of non-negative integers, as `strconv.Itoa` and the
    `%0Nd` verb of `fmt.Sprintf` produce it, and the reading that undoes it. */
module Decimal {

  function Pow10(k: nat): (p: nat)
    ensures p >= 1
  {
    if k == 0 then 1 else 10 * Pow10(k - 1)
  }

  predicate IsDigit(c: char) { '0' <= c <= '9' }

  function DigitChar(d: nat): (c: char)
    requires d < 10
    ensures IsDigit(c)
  {
    (48 + d) as char
  }

  /** strconv.Itoa(n) for n >= 0: the shortest decimal numeral of n. */
  function Digits(n: nat): (s: string)
    ensures |s| >= 1
    ensures forall i :: 0 <= i < |s| ==> IsDigit(s[i])
  {
    if n < 10 then [DigitChar(n)] else Digits(n / 10) + [DigitChar(n % 10)]
  }

  /** The numeral s read back in base ten (defined on any string). */
  function Value(s: string): int
  {
    if s == [] then 0 else 10 * Value(s[..|s| - 1]) + (s[|s| - 1] as int - 48)
  }

  function Zeros(k: nat): (z: string)
    ensures |z| == k
    ensures forall i :: 0 <= i < k ==> z[i] == '0'
  {
    if k == 0 then [] else ['0'] + Zeros(k - 1)
  }

  /** `%0wd` of n >= 0: Digits(n) left-padded with zeros to at least w characters. */
  function Pad(n: nat, w: nat): (s: string)
    ensures |s| >= w
    ensures forall i :: 0 <= i < |s| ==> IsDigit(s[i])
  {
    var d := Digits(n);
    if |d| >= w then d else Zeros(w - |d|) + d
  }

  lemma {:induction false} ValueOfDigits(n: nat)
    ensures Value(Digits(n)) == n
  {
    if n >= 10 {
      ValueOfDigits(n / 10);
      var s := Digits(n);
      assert s[..|s| - 1] == Digits(n / 10);
    }
  }

  lemma {:induction false} ValueOfZeros(k: nat)
    ensures Value(Zeros(k)) == 0
  {
    if k > 0 {
      ValueOfZeros(k - 1);
      var z := Zeros(k);
      assert z[..k - 1] == Zeros(k - 1);
    }
  }

  /** Leading zeros do not change the value of a numeral. */
  lemma {:induction false} ValueIgnoresLeadingZeros(k: nat, s: string)
    ensures Value(Zeros(k) + s) == Value(s)
    decreases |s|
  {
    if s == [] {
      assert Zeros(k) + s == Zeros(k);
      ValueOfZeros(k);
    } else {
      var t := Zeros(k) + s;
      assert t[..|t| - 1] == Zeros(k) + s[..|s| - 1];
      ValueIgnoresLeadingZeros(k, s[..|s| - 1]);
    }
  }

  /** Reading a padded numeral gives the number back. */
  lemma ValueOfPad(n: nat, w: nat)
    ensures Value(Pad(n, w)) == n
  {
    ValueOfDigits(n);
    var d := Digits(n);
    if |d| < w {
      ValueIgnoresLeadingZeros(w - |d|, d);
    }
  }

  lemma {:induction false} DigitsFit(n: nat, k: nat)
    requires 1 <= k
    requires n < Pow10(k)
    ensures |Digits(n)| <= k
  {
    if n >= 10 {
      assert k >= 2;
      DigitsFit(n / 10, k - 1);
    }
  }

  /** A number below 10^w pads to exactly w characters. */
  lemma PadWidth(n: nat, w: nat)
    requires 1 <= w
    requires n < Pow10(w)
    ensures |Pad(n, w)| == w
  {
    DigitsFit(n, w);
  }
}
