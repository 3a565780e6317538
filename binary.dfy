/**
 * Binary rendering of byte values: `Number.prototype.toString(2)` and the
 * assembler's `p8`, which left-pads that text with zeros to eight digits.
 */
module Binary {

  predicate IsBinary(s: string) {
    forall i :: 0 <= i < |s| ==> s[i] == '0' || s[i] == '1'
  }

  function Bit(c: char): nat {
    if c == '1' then 1 else 0
  }

  function BitChar(b: nat): char {
    if b == 0 then '0' else '1'
  }

  function Pow2(n: nat): nat {
    if n == 0 then 1 else 2 * Pow2(n - 1)
  }

  /** Appending the digit `1` doubles the value and adds one. */
  lemma AppendOneBit(s: string)
    ensures FromBinary(s + "1") == 2 * FromBinary(s) + 1
  {
    var t := s + "1";
    assert t[..|t| - 1] == s;
  }

  /** `v.toString(2)`: the shortest binary text of `v`, with no leading zero except for 0 itself. */
  function ToBinary(v: nat): (s: string)
    ensures |s| > 0 && IsBinary(s)
    ensures |s| > 1 ==> s[0] == '1'
  {
    if v < 2 then [BitChar(v)] else ToBinary(v / 2) + [BitChar(v % 2)]
  }

  /** The value of a binary text, most significant digit first. */
  function FromBinary(s: string): nat {
    if s == [] then 0 else 2 * FromBinary(s[..|s| - 1]) + Bit(s[|s| - 1])
  }

  function Zeros(n: nat): (s: string)
    ensures |s| == n && IsBinary(s)
    ensures forall i :: 0 <= i < n ==> s[i] == '0'
  {
    if n == 0 then [] else Zeros(n - 1) + ['0']
  }

  /** Left-pads `b` with zeros to width `w`; a longer text is left alone. */
  function PadTo(b: string, w: nat): string {
    if |b| >= w then b else Zeros(w - |b|) + b
  }

  /** Reading back the binary text of a number gives the number. */
  lemma {:induction false} BinaryRoundTrip(v: nat)
    ensures FromBinary(ToBinary(v)) == v
  {
    if v >= 2 {
      var s := ToBinary(v);
      assert s[..|s| - 1] == ToBinary(v / 2);
      BinaryRoundTrip(v / 2);
    }
  }

  /** The binary text of `v` fits in `n` digits exactly when `v < 2^n`. */
  lemma {:induction false} BinaryLength(v: nat, n: nat)
    requires n >= 1
    ensures |ToBinary(v)| <= n <==> v < Pow2(n)
  {
    if v >= 2 {
      if n == 1 {
        assert |ToBinary(v)| >= 2 by { assert ToBinary(v) == ToBinary(v / 2) + [BitChar(v % 2)]; }
      } else {
        BinaryLength(v / 2, n - 1);
      }
    } else {
      assert Pow2(n) >= 2 by { PowAtLeastTwo(n); }
    }
  }

  lemma {:induction false} PowAtLeastTwo(n: nat)
    requires n >= 1
    ensures Pow2(n) >= 2
  {
    if n > 1 { PowAtLeastTwo(n - 1); }
  }

  /** Leading zeros do not change the value of a binary text. */
  lemma {:induction false} LeadingZeros(k: nat, s: string)
    ensures FromBinary(Zeros(k) + s) == FromBinary(s)
  {
    if s == [] {
      assert Zeros(k) + s == Zeros(k);
      AllZeros(k);
    } else {
      var z := Zeros(k) + s;
      assert z[..|z| - 1] == Zeros(k) + s[..|s| - 1];
      LeadingZeros(k, s[..|s| - 1]);
    }
  }

  lemma {:induction false} AllZeros(k: nat)
    ensures FromBinary(Zeros(k)) == 0
  {
    if k > 0 {
      assert Zeros(k)[..k - 1] == Zeros(k - 1);
      AllZeros(k - 1);
    }
  }

  /** What `p8(v)` returns: binary digits, at least eight of them, exactly eight for a byte, worth `v`. */
  function Padded(v: nat): (s: string)
    ensures IsBinary(s) && |s| >= 8
    ensures |s| == 8 <==> v < 256
    ensures FromBinary(s) == v
  {
    var b := ToBinary(v);
    BinaryRoundTrip(v);
    BinaryLength(v, 8);
    assert Pow2(8) == 256;
    LeadingZeros(if |b| < 8 then 8 - |b| else 0, b);
    PadTo(b, 8)
  }

  /** A text of zeros is worth nothing, and a binary text worth nothing is all zeros. */
  lemma {:induction false} ZeroValue(s: string)
    requires IsBinary(s)
    ensures FromBinary(s) == 0 <==> s == Zeros(|s|)
  {
    if s != [] {
      var n := |s|;
      ZeroValue(s[..n - 1]);
      assert s == s[..n - 1] + [s[n - 1]];
      assert Zeros(n) == Zeros(n - 1) + ['0'];
      assert s == Zeros(n) <==> s[..n - 1] == Zeros(n - 1) && s[n - 1] == '0' by {
        if s[..n - 1] == Zeros(n - 1) && s[n - 1] == '0' {
          assert s == Zeros(n - 1) + ['0'];
        }
      }
    }
  }

  /**
   * Rendering the value of a binary text of width `w` back at width `w` gives
   * the text itself: the rendering keeps the zeros the text was padded with.
   */
  lemma {:induction false} PadInverse(s: string, w: nat)
    requires IsBinary(s) && |s| == w && w >= 1
    ensures PadTo(ToBinary(FromBinary(s)), w) == s
  {
    var t := s[..w - 1];
    var d := s[w - 1];
    assert s == t + [d];
    var x := FromBinary(t);
    assert FromBinary(s) == 2 * x + Bit(d);
    if x == 0 {
      if w > 1 { ZeroValue(t); } else { assert t == Zeros(0); }
      assert ToBinary(FromBinary(s)) == [] + [d];
      PadAppend([], d, w);
      assert PadTo([], w - 1) == t;
      assert PadTo(ToBinary(FromBinary(s)), w) == t + [d];
    } else {
      PadInverse(t, w - 1);
      AppendDigit(x, d);
      PadAppend(ToBinary(x), d, w);
      assert PadTo(ToBinary(FromBinary(s)), w) == PadTo(ToBinary(x), w - 1) + [d];
    }
  }

  /** Appending a digit to a binary text doubles its value and adds the digit. */
  lemma AppendDigit(x: nat, d: char)
    requires x >= 1 && (d == '0' || d == '1')
    ensures ToBinary(2 * x + Bit(d)) == ToBinary(x) + [d]
  {
    assert (2 * x + Bit(d)) / 2 == x;
    assert BitChar((2 * x + Bit(d)) % 2) == d;
  }

  /** Padding a text with one more digit at the end pads the text without it to one less. */
  lemma PadAppend(b: string, d: char, w: nat)
    requires w >= 1
    ensures PadTo(b + [d], w) == PadTo(b, w - 1) + [d]
  {
    if |b| < w - 1 {
      assert Zeros(w - (|b| + 1)) + (b + [d]) == (Zeros(w - 1 - |b|) + b) + [d];
    }
  }

  /** An eight-digit binary text survives a round trip through its value and `p8`. */
  lemma ByteTextRoundTrip(s: string)
    requires IsBinary(s) && |s| == 8
    ensures Padded(FromBinary(s)) == s
  {
    PadInverse(s, 8);
  }

  /** `p8`: prepend `0` to the binary text of `v` until it has eight digits. */
  method P8(v: nat) returns (bin: string)
    ensures bin == Padded(v)
    ensures |bin| >= 8 && FromBinary(bin) == v
  {
    var b := ToBinary(v);
    bin := b;
    ghost var k := 0;
    assert bin == Zeros(0) + b;
    while |bin| < 8
      invariant bin == Zeros(k) + b
      invariant k == 0 || |bin| <= 8
      decreases 8 - |bin|
    {
      PrependZero(k, b);
      bin := ['0'] + bin;
      k := k + 1;
    }
    PaddedZeros(v, k);
  }

  /** The text `p8` ends with: as many zeros as bring the binary text to eight digits, or none if it is longer. */
  lemma PaddedZeros(v: nat, k: nat)
    requires var n := |ToBinary(v)|; (k == 0 && n >= 8) || k + n == 8
    ensures Zeros(k) + ToBinary(v) == Padded(v)
  {
    if k == 0 {
      assert Zeros(0) + ToBinary(v) == ToBinary(v);
    }
  }

  /** One more zero in front of a padded text is one more padding zero. */
  lemma PrependZero(k: nat, b: string)
    ensures ['0'] + (Zeros(k) + b) == Zeros(k + 1) + b
  {
    ZerosFront(k + 1);
  }

  lemma {:induction false} ZerosFront(n: nat)
    requires n >= 1
    ensures Zeros(n) == ['0'] + Zeros(n - 1)
  {
    if n > 1 { ZerosFront(n - 1); }
  }
}
