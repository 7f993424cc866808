/** Decimal digit strings: what "%llu" and "%020llu" print, and their values. */
module Decimal {
  import opened Common

  const UINT64_MAX: nat := 0xFFFF_FFFF_FFFF_FFFF

  predicate IsDigit(b: Byte) {
    48 <= b <= 57
  }

  function Digit(b: Byte): (d: nat)
    requires IsDigit(b)
    ensures d < 10
  {
    var x: int := b;
    x - 48
  }

  predicate AllDigits(d: Bytes) {
    forall i :: 0 <= i < |d| ==> IsDigit(d[i])
  }

  /** The decimal value of a digit string. */
  function Number(d: Bytes): nat
    requires AllDigits(d)
  {
    if |d| == 0 then 0 else Number(d[..|d| - 1]) * 10 + Digit(d[|d| - 1])
  }

  function DigitByte(d: nat): (b: Byte)
    requires d < 10
    ensures IsDigit(b) && Digit(b) == d
  {
    48 + d
  }

  /** n without leading zeros. */
  function Show(n: nat): (d: Bytes)
    ensures AllDigits(d) && |d| > 0
  {
    if n < 10 then [DigitByte(n)] else Show(n / 10) + [DigitByte(n % 10)]
  }

  /** The last k digits of n, zero-padded. */
  function Pad(n: nat, k: nat): (d: Bytes)
    ensures AllDigits(d) && |d| == k
  {
    if k == 0 then [] else Pad(n / 10, k - 1) + [DigitByte(n % 10)]
  }

  lemma {:induction false} NumberShow(n: nat)
    ensures Number(Show(n)) == n
  {
    if n >= 10 {
      NumberShow(n / 10);
      assert Show(n)[..|Show(n)| - 1] == Show(n / 10);
    } else {
      assert Show(n)[..0] == [];
    }
  }

  lemma {:induction false} NumberPad(n: nat, k: nat)
    requires n < Pow(10, k)
    ensures Number(Pad(n, k)) == n
  {
    if k > 0 {
      NumberPad(n / 10, k - 1);
      assert Pad(n, k)[..k - 1] == Pad(n / 10, k - 1);
    }
  }

  /** A k-digit string is the padding of its value. */
  lemma {:induction false} PadNumber(d: Bytes)
    requires AllDigits(d)
    ensures Number(d) < Pow(10, |d|) && Pad(Number(d), |d|) == d
  {
    if |d| > 0 {
      PadNumber(d[..|d| - 1]);
      assert d == d[..|d| - 1] + [d[|d| - 1]];
    }
  }

  /** Up to 20 digits hold every 64-bit id. */
  lemma {:induction false} ShowLength(n: nat, k: nat)
    requires n < Pow(10, k) && k > 0
    ensures |Show(n)| <= k
  {
    if n >= 10 { ShowLength(n / 10, k - 1); }
  }

  lemma {:induction false} PrefixBelow(d: Bytes, i: nat)
    requires AllDigits(d) && i <= |d|
    ensures AllDigits(d[..i]) && Number(d[..i]) <= Number(d)
    decreases |d| - i
  {
    if i < |d| {
      assert d[..i + 1][..i] == d[..i];
      PrefixBelow(d, i + 1);
    } else {
      assert d[..i] == d;
    }
  }
}
