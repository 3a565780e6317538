/**
 * Integer literals as the assembler reads and writes them: `parseInt` with
 * no radix (optional sign, optional `0x`/`0X` prefix, then the longest run of
 * digits), the decimal text a template literal gives a number, and the
 * `& 0xff` mask of the DB pseudo-op.
 */
module Numbers {
  import opened Wrappers
  import opened Text

  /** The digit value of a character in bases up to 36; 36 for a character that is no digit at all. */
  function DigitValue(c: char): (d: nat)
    ensures d <= 36
    ensures d < 10 <==> '0' <= c <= '9'
  {
    if '0' <= c <= '9' then c as int - '0' as int
    else if 'a' <= c <= 'z' then c as int - 'a' as int + 10
    else if 'A' <= c <= 'Z' then c as int - 'A' as int + 10
    else 36
  }

  predicate IsDigit(c: char, base: nat) {
    DigitValue(c) < base
  }

  /** The length of the longest prefix of `s` made of digits in `base`. */
  function DigitRun(s: string, base: nat): (n: nat)
    ensures n <= |s|
    ensures forall i :: 0 <= i < n ==> IsDigit(s[i], base)
    ensures n < |s| ==> !IsDigit(s[n], base)
  {
    if s != [] && IsDigit(s[0], base) then 1 + DigitRun(s[1..], base) else 0
  }

  /** The value of a digit string, most significant digit first. */
  function Value(s: string, base: nat): nat
  {
    if s == [] then 0
    else Value(s[..|s| - 1], base) * base + (if IsDigit(s[|s| - 1], base) then DigitValue(s[|s| - 1]) else 0)
  }

  /** The digits at the front of `s`, read in `base`; `None` (`NaN`) when there are none. */
  function ParseDigits(s: string, base: nat): (r: Option<nat>)
    ensures r.None? <==> s == [] || !IsDigit(s[0], base)
  {
    var n := DigitRun(s, base);
    if n == 0 then None else Some(Value(s[..n], base))
  }

  /** Text that starts with the hexadecimal prefix `0x` or `0X`. */
  predicate HexPrefix(s: string) {
    |s| >= 2 && s[0] == '0' && (s[1] == 'x' || s[1] == 'X')
  }

  /** An unsigned literal: `0x`/`0X` switches to base 16, otherwise base 10. */
  function ParseMagnitude(s: string): (r: Option<nat>)
    ensures s == [] || !('0' <= s[0] <= '9') ==> r.None?
    ensures s != [] && '0' <= s[0] <= '9' && !HexPrefix(s) ==> r == Some(Value(s[..DigitRun(s, 10)], 10))
    ensures HexPrefix(s) ==> r == (if |s| > 2 && IsDigit(s[2], 16) then Some(Value(s[2..][..DigitRun(s[2..], 16)], 16)) else None)
  {
    if HexPrefix(s) then ParseDigits(s[2..], 16)
    else ParseDigits(s, 10)
  }

  /**
   * A literal after its sign: `+` reads the unsigned literal as it is, `-`
   * negates it, and no decimal digit after the sign is `NaN`.
   */
  function ParseSigned(sign: char, u: string): (r: Option<int>)
    requires sign == '-' || sign == '+'
    ensures r.Some? && r.value < 0 ==> sign == '-'
    ensures var k := if sign == '-' then -1 else 1;
      (u == [] || !('0' <= u[0] <= '9') ==> r.None?) &&
      (u != [] && '0' <= u[0] <= '9' && !HexPrefix(u) ==> r == Some(k * Value(u[..DigitRun(u, 10)], 10))) &&
      (HexPrefix(u) ==> r == (if |u| > 2 && IsDigit(u[2], 16) then Some(k * Value(u[2..][..DigitRun(u[2..], 16)], 16)) else None))
  {
    match ParseMagnitude(u)
    case Some(v) => if sign == '-' then Some(0 - v as int) else Some(v as int)
    case None => None
  }

  /**
   * `parseInt(s)` with no radix: leading whitespace is skipped, one `+` or
   * `-` is read, then an unsigned literal; `None` stands for `NaN`. An
   * unsigned decimal literal reads as the value of its longest run of
   * decimal digits, a `0x` literal as the value of the hexadecimal digits
   * after the prefix (`NaN` when there is none). After a sign the same
   * literal is read and negated for `-`; a sign with no decimal digit after
   * it is `NaN`.
   */
  function ParseInt(s: string): (r: Option<int>)
    ensures var t := TrimStart(s);
      t != [] && '0' <= t[0] <= '9' && !HexPrefix(t) ==> r == Some(Value(t[..DigitRun(t, 10)], 10))
    ensures var t := TrimStart(s);
      HexPrefix(t) ==> r == (if |t| > 2 && IsDigit(t[2], 16) then Some(Value(t[2..][..DigitRun(t[2..], 16)], 16)) else None)
  {
    var t := TrimStart(s);
    if t != [] && (t[0] == '-' || t[0] == '+') then ParseSigned(t[0], t[1..])
    else ParseMagnitude(t)
  }

  /**
   * Signed text: after a `-` or `+`, `parseInt` reads the unsigned literal,
   * negated for `-`; with no decimal digit after the sign it is `NaN`.
   */
  lemma ParseIntSigned(s: string)
    ensures var t := TrimStart(s);
      t != [] && (t[0] == '-' || t[0] == '+') ==> var u, k := t[1..], if t[0] == '-' then -1 else 1;
        (u == [] || !('0' <= u[0] <= '9') ==> ParseInt(s).None?) &&
        (u != [] && '0' <= u[0] <= '9' && !HexPrefix(u) ==> ParseInt(s) == Some(k * Value(u[..DigitRun(u, 10)], 10))) &&
        (HexPrefix(u) ==> ParseInt(s) == (if |u| > 2 && IsDigit(u[2], 16) then Some(k * Value(u[2..][..DigitRun(u[2..], 16)], 16)) else None))
  {
    var t := TrimStart(s);
    if t != [] && (t[0] == '-' || t[0] == '+') {
      var v := ParseSigned(t[0], t[1..]);
    }
  }

  /**
   * Only a leading `-` makes the value negative, and text that, after its
   * leading whitespace, starts with neither a sign nor a decimal digit is
   * `NaN`.
   */
  lemma ParseIntSign(s: string)
    ensures ParseInt(s).Some? && ParseInt(s).value < 0 ==> TrimStart(s) != [] && TrimStart(s)[0] == '-'
    ensures var t := TrimStart(s);
      t == [] || (t[0] != '-' && t[0] != '+' && !('0' <= t[0] <= '9')) ==> ParseInt(s).None?
  {
    var t := TrimStart(s);
    if t != [] && (t[0] == '-' || t[0] == '+') {
      var v := ParseSigned(t[0], t[1..]);
    } else {
      var v := ParseMagnitude(t);
    }
  }

  function DigitChar(d: nat): (c: char)
    requires d < 10
    ensures '0' <= c <= '9' && DigitValue(c) == d
  {
    ('0' as int + d) as char
  }

  /** The decimal text of a number, as `${n}` writes it. */
  function Decimal(n: nat): (s: string)
    ensures |s| > 0
    ensures forall i :: 0 <= i < |s| ==> '0' <= s[i] <= '9'
  {
    if n < 10 then [DigitChar(n)] else Decimal(n / 10) + [DigitChar(n % 10)]
  }

  /** Reading back the decimal text of a number gives the number. */
  lemma {:induction false} DecimalValue(n: nat)
    ensures Value(Decimal(n), 10) == n
  {
    if n >= 10 {
      var s := Decimal(n);
      assert s[..|s| - 1] == Decimal(n / 10);
      DecimalValue(n / 10);
    }
  }

  /** The digit run of `p + t` covers exactly `p` when `p` is all digits and `t` does not start with one. */
  lemma {:induction false} DigitRunOver(p: string, t: string, base: nat)
    requires forall i :: 0 <= i < |p| ==> IsDigit(p[i], base)
    requires t == [] || !IsDigit(t[0], base)
    ensures DigitRun(p + t, base) == |p|
  {
    if p != [] {
      assert (p + t)[1..] == p[1..] + t;
      DigitRunOver(p[1..], t, base);
    }
  }

  /**
   * `parseInt` reads back what a template literal wrote, whatever text follows
   * as long as that text does not continue the literal.
   */
  lemma DecimalRoundTrip(n: nat, tail: string)
    requires tail == [] || !IsWordChar(tail[0])
    ensures ParseInt(Decimal(n) + tail) == Some(n)
  {
    var s := Decimal(n) + tail;
    DecimalStart(n, tail);
    DecimalMagnitude(n, tail);
    assert ParseInt(s) == ParseMagnitude(TrimStart(s));
  }

  /** `parseInt` reads `-` followed by the decimal text of `n` as `-n`, whatever non-word text follows. */
  lemma SignedRoundTrip(n: nat, tail: string)
    requires tail == [] || !IsWordChar(tail[0])
    ensures ParseInt("-" + Decimal(n) + tail) == Some(-(n as int))
  {
    DecimalMagnitude(n, tail);
    MinusLiteral(Decimal(n), tail, n);
  }

  /** A `-` before a literal `d` (and the text after it) that reads as `n` reads as `-n`. */
  lemma MinusLiteral(d: string, tail: string, n: nat)
    requires ParseMagnitude(d + tail) == Some(n)
    ensures ParseInt("-" + d + tail) == Some(-(n as int))
  {
    MinusSplit(d, tail);
    SignUnfold("-" + d + tail);
  }

  /** `-` followed by `d` and `tail`: a leading `-`, then `d + tail`. */
  lemma MinusSplit(d: string, tail: string)
    ensures var s := "-" + d + tail; s != [] && s[0] == '-' && s[1..] == d + tail
  {
  }

  /** On text that starts with a sign, `parseInt` reads the literal after that sign. */
  lemma SignUnfold(s: string)
    requires s != [] && (s[0] == '-' || s[0] == '+')
    ensures ParseInt(s) == ParseSigned(s[0], s[1..])
  {
    NoSpaceToSkip(s);
  }

  /** Text that starts with a non-space has no whitespace for `TrimStart` to skip. */
  lemma NoSpaceToSkip(s: string)
    requires s != [] && !IsSpace(s[0])
    ensures TrimStart(s) == s
  {
  }

  /** Decimal text starts with a digit: no whitespace to skip and no sign. */
  lemma DecimalStart(n: nat, tail: string)
    ensures var s := Decimal(n) + tail;
      TrimStart(s) == s && s[0] != '-' && s[0] != '+'
  {
    var s := Decimal(n) + tail;
    assert s[0] == Decimal(n)[0];
    NoSpaceToSkip(s);
  }

  /** The digits of decimal text, followed by a non-digit, read back as the number in base 10. */
  lemma DecimalMagnitude(n: nat, tail: string)
    requires tail == [] || !IsWordChar(tail[0])
    ensures ParseMagnitude(Decimal(n) + tail) == Some(n)
  {
    var d := Decimal(n);
    var s := d + tail;
    DigitRunOver(d, tail, 10);
    assert s[..|d|] == d;
    DecimalValue(n);
    if n >= 10 {
      DecimalAtLeast(n);
    } else {
      assert |d| == 1;
    }
    assert !(|s| >= 2 && s[0] == '0' && (s[1] == 'x' || s[1] == 'X'));
  }

  /** A number of two or more digits is written without a leading zero. */
  lemma {:induction false} DecimalAtLeast(n: nat)
    requires n >= 10
    ensures |Decimal(n)| >= 2 && Decimal(n)[0] != '0'
  {
    if n / 10 >= 10 {
      DecimalAtLeast(n / 10);
    }
  }

  /** A word (no sign, no whitespace) never reads as a negative number. */
  lemma WordNotNegative(s: string)
    requires IsWord(s)
    ensures ParseInt(s).Some? ==> ParseInt(s).value >= 0
  {
    assert !IsSpace(s[0]) && !IsSpace(s[|s| - 1]);
    TrimUnchanged(s);
    ParseIntSign(s);
  }

  /** `v & 0xff`: the low eight bits of a 32-bit two's-complement integer. */
  function LowByte(v: int): (b: nat)
    ensures b < 256
    ensures (v - b) % 256 == 0
    ensures 0 <= v < 256 ==> b == v
  {
    v % 256
  }
}
