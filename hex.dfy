/** Python's `format(h, "08X")` for the 32-bit content hashes of a `.locres`
    entry: upper-case hexadecimal, zero-padded to eight digits. */
module Hex {

  /** The content hash stored with every entry is a 32-bit unsigned integer. */
  type u32 = x: int | 0 <= x < 0x1_0000_0000

  function Pow16(n: nat): (r: nat)
    ensures r > 0
  {
    if n == 0 then 1 else 16 * Pow16(n - 1)
  }

  predicate IsHexDigit(c: char)
  {
    '0' <= c <= '9' || 'A' <= c <= 'F'
  }

  function DigitChar(d: nat): (c: char)
    requires d < 16
    ensures IsHexDigit(c)
  {
    if d < 10 then '0' + d as char else 'A' + (d - 10) as char
  }

  function DigitValue(c: char): (d: nat)
    requires IsHexDigit(c)
    ensures d < 16
  {
    if c <= '9' then (c - '0') as nat else (c - 'A') as nat + 10
  }

  /** The value a string of upper-case hexadecimal digits denotes. */
  function ParseHex(s: string): nat
    requires forall i :: 0 <= i < |s| ==> IsHexDigit(s[i])
  {
    if s == [] then 0 else 16 * ParseHex(s[..|s| - 1]) + DigitValue(s[|s| - 1])
  }

  /** The last `n` hexadecimal digits of `h`, most significant first. */
  function Digits(h: nat, n: nat): (r: string)
    ensures |r| == n
    ensures forall i :: 0 <= i < |r| ==> IsHexDigit(r[i])
  {
    if n == 0 then "" else Digits(h / 16, n - 1) + [DigitChar(h % 16)]
  }

  /** `format(h, "08X")`. */
  function Hex8(h: u32): (r: string)
    ensures |r| == 8
    ensures forall i :: 0 <= i < |r| ==> IsHexDigit(r[i])
  {
    Digits(h, 8)
  }

  lemma {:induction false} DigitRoundTrip(d: nat)
    requires d < 16
    ensures DigitValue(DigitChar(d)) == d
  {
  }

  /** Reading back `n` digits of a number below 16^n gives the number. */
  lemma {:induction false} ParseDigits(h: nat, n: nat)
    requires h < Pow16(n)
    ensures ParseHex(Digits(h, n)) == h
  {
    if n > 0 {
      ParseDigits(h / 16, n - 1);
      var r := Digits(h, n);
      assert r[..|r| - 1] == Digits(h / 16, n - 1);
      DigitRoundTrip(h % 16);
    }
  }

  /** Eight hexadecimal digits hold every 32-bit hash: parsing `Hex8(h)`
      gives `h` back. */
  lemma Hex8RoundTrip(h: u32)
    ensures ParseHex(Hex8(h)) == h
  {
    assert Pow16(8) == 0x1_0000_0000;
    ParseDigits(h, 8);
  }

  /** Distinct hashes are written differently. */
  lemma Hex8Injective(h: u32, g: u32)
    requires Hex8(h) == Hex8(g)
    ensures h == g
  {
    Hex8RoundTrip(h);
    Hex8RoundTrip(g);
  }

  /** `format(0xABCD1234, "08X")`, digit by digit. */
  lemma Hex8Example()
    ensures Hex8(0xABCD1234) == "ABCD1234"
  {
    assert Digits(0xA, 1) == "A";
    assert Digits(0xAB, 2) == "AB";
    assert Digits(0xABC, 3) == "ABC";
    assert Digits(0xABCD, 4) == "ABCD";
    assert Digits(0xABCD1, 5) == "ABCD1";
    assert Digits(0xABCD12, 6) == "ABCD12";
    assert Digits(0xABCD123, 7) == "ABCD123";
  }
}
