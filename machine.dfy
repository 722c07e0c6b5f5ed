/** Machine integers, paths and the decimal and hexadecimal formatting the daemon
    uses when it builds diagnostic keys and cache file names. */
module Machine {

  /** Rust `u32`. */
  type U32 = x: nat | x < 0x1_0000_0000

  /** Rust `u64`. */
  type U64 = x: nat | x < 0x1_0000_0000_0000_0000

  /** A filesystem path, in its (lossy) string form. */
  type Path = string

  predicate IsDigit(c: char) {
    '0' <= c <= '9'
  }

  predicate IsHexDigit(c: char) {
    '0' <= c <= '9' || 'a' <= c <= 'f'
  }

  predicate AllDigits(s: string) {
    forall i :: 0 <= i < |s| ==> IsDigit(s[i])
  }

  predicate AllHexDigits(s: string) {
    forall i :: 0 <= i < |s| ==> IsHexDigit(s[i])
  }

  function DigitChar(d: nat): (c: char)
    requires d < 10
    ensures IsDigit(c) && DigitValue(c) == d
  {
    (48 + d) as char
  }

  function DigitValue(c: char): nat
    requires IsDigit(c)
  {
    c as int - 48
  }

  /** Lower-case hexadecimal digit, as Rust's `{:x}` prints it. */
  function HexDigitChar(d: nat): (c: char)
    requires d < 16
    ensures IsHexDigit(c) && HexDigitValue(c) == d
  {
    if d < 10 then (48 + d) as char else (87 + d) as char
  }

  function HexDigitValue(c: char): nat
    requires IsHexDigit(c)
  {
    if c <= '9' then c as int - 48 else c as int - 87
  }

  /** Decimal rendering of a natural number without leading zeros (Rust's `{}`). */
  function Decimal(n: nat): (s: string)
    ensures |s| >= 1 && AllDigits(s)
  {
    if n < 10 then [DigitChar(n)] else Decimal(n / 10) + [DigitChar(n % 10)]
  }

  /** The number a string of decimal digits denotes. */
  function DecimalValue(s: string): nat
    requires AllDigits(s)
  {
    if s == [] then 0 else DecimalValue(s[..|s| - 1]) * 10 + DigitValue(s[|s| - 1])
  }

  lemma {:induction false} DecimalRoundTrip(n: nat)
    ensures DecimalValue(Decimal(n)) == n
  {
    if n >= 10 {
      var s := Decimal(n);
      assert s[..|s| - 1] == Decimal(n / 10);
      DecimalRoundTrip(n / 10);
    }
  }

  lemma DecimalInjective(m: nat, n: nat)
    requires Decimal(m) == Decimal(n)
    ensures m == n
  {
    DecimalRoundTrip(m);
    DecimalRoundTrip(n);
  }

  function Pow16(w: nat): (p: nat)
    ensures p >= 1
  {
    if w == 0 then 1 else 16 * Pow16(w - 1)
  }

  /** `n` written with exactly `w` hexadecimal digits, zero padded on the left. */
  function HexDigits(n: nat, w: nat): (s: string)
    requires n < Pow16(w)
    ensures |s| == w && AllHexDigits(s)
  {
    if w == 0 then [] else HexDigits(n / 16, w - 1) + [HexDigitChar(n % 16)]
  }

  /** The number a string of hexadecimal digits denotes. */
  function HexValue(s: string): nat
    requires AllHexDigits(s)
  {
    if s == [] then 0 else HexValue(s[..|s| - 1]) * 16 + HexDigitValue(s[|s| - 1])
  }

  lemma {:induction false} HexRoundTrip(n: nat, w: nat)
    requires n < Pow16(w)
    ensures HexValue(HexDigits(n, w)) == n
  {
    if w > 0 {
      var s := HexDigits(n, w);
      assert s[..|s| - 1] == HexDigits(n / 16, w - 1);
      HexRoundTrip(n / 16, w - 1);
    }
  }

  lemma Pow16Of16()
    ensures Pow16(16) == 0x1_0000_0000_0000_0000
  {
    assert Pow16(1) == 0x10;
    assert Pow16(2) == 0x100;
    assert Pow16(3) == 0x1000;
    assert Pow16(4) == 0x10000;
    assert Pow16(5) == 0x100000;
    assert Pow16(6) == 0x1000000;
    assert Pow16(7) == 0x10000000;
    assert Pow16(8) == 0x100000000;
    assert Pow16(9) == 0x1000000000;
    assert Pow16(10) == 0x10000000000;
    assert Pow16(11) == 0x100000000000;
    assert Pow16(12) == 0x1000000000000;
    assert Pow16(13) == 0x10000000000000;
    assert Pow16(14) == 0x100000000000000;
    assert Pow16(15) == 0x1000000000000000;
    assert Pow16(16) == 0x10000000000000000;
  }

  /** Rust's `{:016x}` applied to a `u64`: always exactly sixteen digits. */
  function Hex16(n: U64): (s: string)
    ensures |s| == 16 && AllHexDigits(s)
  {
    Pow16Of16();
    HexDigits(n, 16)
  }

  lemma Hex16Injective(m: U64, n: U64)
    requires Hex16(m) == Hex16(n)
    ensures m == n
  {
    Pow16Of16();
    HexRoundTrip(m, 16);
    HexRoundTrip(n, 16);
  }

  /** No occurrence of `sep` in `s`. */
  predicate Lacks(s: string, sep: char) {
    forall i :: 0 <= i < |s| ==> s[i] != sep
  }

  lemma SeparatorAfter(a: string, sep: char, x: string)
    ensures (a + ([sep] + x))[|a|] == sep
  {
  }

  /** Text joined at a separator that neither left part contains splits back
      into the same parts. */
  lemma SplitAtSeparator(sep: char, a: string, x: string, b: string, y: string)
    requires Lacks(a, sep) && Lacks(b, sep)
    requires a + ([sep] + x) == b + ([sep] + y)
    ensures a == b && x == y
  {
    var s := a + ([sep] + x);
    var t := b + ([sep] + y);
    if |a| < |b| {
      SeparatorAfter(a, sep, x);
      assert false;
    } else if |b| < |a| {
      SeparatorAfter(b, sep, y);
      assert false;
    }
    assert a == s[..|a|] && b == t[..|b|];
    assert x == s[|a| + 1..] && y == t[|b| + 1..];
  }
}
