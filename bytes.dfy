/** Byte strings and the decimal text that Python's `str(int)` produces,
    as the bencode encoder writes it with `f"i{obj}e".encode()` and
    `f"{len(obj)}:".encode()`. */
module Bytes {

  /** One octet of a Python `bytes` object. */
  type byte = x: int | 0 <= x < 256

  type Bytes = seq<byte>

  const Zero: byte := 48   // '0'
  const Minus: byte := 45  // '-'

  /** The bytes of an ASCII literal, as `"...".encode()` gives them. Every
      literal this model writes is ASCII, so the reduction modulo 256 never
      changes a character; it only makes the function total. */
  function Ascii(s: string): Bytes
  {
    seq(|s|, i requires 0 <= i < |s| => s[i] as int % 256)
  }

  predicate IsDigit(b: byte) {
    Zero <= b <= Zero + 9
  }

  predicate AllDigits(s: Bytes) {
    forall i :: 0 <= i < |s| ==> IsDigit(s[i])
  }

  function Pow10(k: nat): (p: nat)
    ensures p >= 1
  {
    if k == 0 then 1 else 10 * Pow10(k - 1)
  }

  /** The number a string of ASCII digits denotes, read most significant first.
      This is the reference meaning of decimal text, independent of how the
      text is produced. */
  function DigitsValue(s: Bytes): nat
    requires AllDigits(s)
  {
    if s == [] then 0
    else 10 * DigitsValue(s[..|s| - 1]) + (s[|s| - 1] - Zero)
  }

  /** The number a possibly signed decimal text denotes. */
  function SignedValue(s: Bytes): int
    requires s != [] && (s[0] == Minus ==> AllDigits(s[1..]))
    requires s[0] != Minus ==> AllDigits(s)
  {
    if s[0] == Minus then -(DigitsValue(s[1..]) as int) else DigitsValue(s)
  }

  /** `str(n)` for a non-negative `n`: shortest decimal text, no leading zero. */
  function NatText(n: nat): (r: Bytes)
    ensures 1 <= |r| && AllDigits(r)
    ensures |r| > 1 ==> r[0] != Zero
    ensures DigitsValue(r) == n
    ensures n < Pow10(|r|) && (|r| > 1 ==> Pow10(|r| - 1) <= n)
    decreases n
  {
    if n < 10 then [Zero + n]
    else
      var front := NatText(n / 10);
      var r := front + [Zero + n % 10];
      assert r[..|r| - 1] == front;
      r
  }

  /** `str(n)` for any integer: a `-` sign, then the text of the magnitude. */
  function IntText(n: int): (r: Bytes)
    ensures r != [] && (r[0] == Minus <==> n < 0)
    ensures r[0] == Minus ==> AllDigits(r[1..]) && |r| >= 2 && (|r| > 2 ==> r[1] != Zero)
    ensures r[0] != Minus ==> AllDigits(r) && (|r| > 1 ==> r[0] != Zero)
    ensures SignedValue(r) == n
  {
    if n < 0 then
      var mag := NatText(-n);
      assert ([Minus] + mag)[1..] == mag;
      [Minus] + mag
    else NatText(n)
  }

  lemma AppendAssoc<T>(a: seq<T>, b: seq<T>, c: seq<T>)
    ensures (a + b) + c == a + (b + c)
  {
  }

  /** The text of a number below 100 has one digit, or two. */
  lemma SmallNatText(n: nat)
    requires n < 100
    ensures NatText(n) == if n < 10 then [Zero + n] else [Zero + n / 10, Zero + n % 10]
  {
  }
}
