/** Hamming distance between two perceptual hashes written as hexadecimal
    strings (`hamming_distance_hex`). The preferred branch lets the imagehash
    library count the differing bits of two 64-bit hashes; the fallback parses
    both strings as integers, writes each in binary zero-padded to 64
    characters and counts the positions where the two strings differ. Both
    are shown here to be the population count of the bitwise XOR for values
    below 2^64. */
module Hamming {
  import opened Common

  /** Bit length of the perceptual hashes (an 8x8 pHash). */
  const HashBits: nat := 64

  /** Number of hexadecimal digits of a 64-bit hash. */
  const HashHexDigits: nat := 16

  function Pow2(n: nat): (r: nat)
    ensures r >= 1
  {
    if n == 0 then 1 else 2 * Pow2(n - 1)
  }

  lemma Pow2AddFour(m: nat)
    ensures Pow2(m + 4) == 16 * Pow2(m)
  {
    assert Pow2(m + 4) == 2 * Pow2(m + 3);
    assert Pow2(m + 3) == 2 * Pow2(m + 2);
    assert Pow2(m + 2) == 2 * Pow2(m + 1);
  }

  // ---------------------------------------------------------------- parsing

  predicate IsHexDigit(c: char)
  {
    ('0' <= c <= '9') || ('a' <= c <= 'f') || ('A' <= c <= 'F')
  }

  function HexDigitValue(c: char): (r: nat)
    requires IsHexDigit(c)
    ensures r < 16
  {
    if '0' <= c <= '9' then c as int - '0' as int
    else if 'a' <= c <= 'f' then c as int - 'a' as int + 10
    else c as int - 'A' as int + 10
  }

  predicate AllHex(s: string)
  {
    forall i :: 0 <= i < |s| ==> IsHexDigit(s[i])
  }

  /** Value of a string of hexadecimal digits, most significant digit first. */
  function HexValue(s: string): nat
    requires AllHex(s)
    decreases |s|
  {
    if |s| == 0 then 0 else 16 * HexValue(s[..|s| - 1]) + HexDigitValue(s[|s| - 1])
  }

  /** `int(s, 16)`: None stands for the ValueError raised on an empty string or a non-digit. */
  function ParseHex(s: string): (r: Option<nat>)
    ensures r.Some? <==> |s| > 0 && AllHex(s)
  {
    if |s| > 0 && AllHex(s) then Some(HexValue(s)) else None
  }

  /** A string of k hexadecimal digits denotes a value below 2^(4k). */
  lemma {:induction false} HexValueBound(s: string)
    requires AllHex(s)
    ensures HexValue(s) < Pow2(4 * |s|)
    decreases |s|
  {
    if |s| > 0 {
      var front := s[..|s| - 1];
      HexValueBound(front);
      Pow2AddFour(4 * |front|);
      assert 4 * |s| == 4 * |front| + 4;
      var p := Pow2(4 * |front|);
      assert HexValue(front) + 1 <= p;
      assert 16 * (HexValue(front) + 1) <= 16 * p;
    }
  }

  // ---------------------------------------------------- bitwise arithmetic

  /** Bitwise exclusive or of two naturals. */
  function Xor(a: nat, b: nat): nat
    decreases a + b
  {
    if a == 0 && b == 0 then 0
    else 2 * Xor(a / 2, b / 2) + (if a % 2 != b % 2 then 1 else 0)
  }

  /** Number of one bits. */
  function PopCount(x: nat): nat
    decreases x
  {
    if x == 0 then 0 else x % 2 + PopCount(x / 2)
  }

  lemma PopCountDouble(x: nat, r: nat)
    requires r < 2
    ensures PopCount(2 * x + r) == r + PopCount(x)
  {
    if 2 * x + r != 0 {
      assert (2 * x + r) % 2 == r;
      assert (2 * x + r) / 2 == x;
    }
  }

  /** The lowest bit of a XOR contributes to the population count exactly when the two lowest bits differ. */
  lemma XorStep(a: nat, b: nat)
    ensures PopCount(Xor(a, b)) == (if a % 2 != b % 2 then 1 else 0) + PopCount(Xor(a / 2, b / 2))
  {
    if !(a == 0 && b == 0) {
      XorStepNonZero(a, b, if a % 2 != b % 2 then 1 else 0, Xor(a / 2, b / 2));
    }
  }

  lemma XorStepNonZero(a: nat, b: nat, r: nat, x: nat)
    requires !(a == 0 && b == 0)
    requires r == if a % 2 != b % 2 then 1 else 0
    requires x == Xor(a / 2, b / 2)
    ensures PopCount(Xor(a, b)) == r + PopCount(x)
  {
    assert Xor(a, b) == 2 * x + r;
    PopCountDouble(x, r);
  }

  lemma {:induction false} XorSymmetric(a: nat, b: nat)
    ensures Xor(a, b) == Xor(b, a)
    decreases a + b
  {
    if !(a == 0 && b == 0) { XorSymmetric(a / 2, b / 2); }
  }

  lemma {:induction false} XorSelf(a: nat)
    ensures Xor(a, a) == 0
    decreases a
  {
    if a != 0 { XorSelf(a / 2); }
  }

  /** A number below 2^n has at most n one bits. */
  lemma {:induction false} PopCountBound(x: nat, n: nat)
    requires x < Pow2(n)
    ensures PopCount(x) <= n
    decreases n
  {
    if x != 0 {
      assert n > 0;
      PopCountBound(x / 2, n - 1);
    }
  }

  lemma {:induction false} XorBound(a: nat, b: nat, n: nat)
    requires a < Pow2(n) && b < Pow2(n)
    ensures Xor(a, b) < Pow2(n)
    decreases n
  {
    if !(a == 0 && b == 0) {
      assert n > 0;
      XorBound(a / 2, b / 2, n - 1);
    }
  }

  // ------------------------------------------------ binary strings (fallback)

  function BitChar(b: nat): char
    requires b < 2
  {
    if b == 0 then '0' else '1'
  }

  /** `bin(x)[2:]`: binary digits without leading zeros ("0" for zero). */
  function Binary(x: nat): (r: string)
    ensures |r| > 0
    decreases x
  {
    if x < 2 then [BitChar(x)] else Binary(x / 2) + [BitChar(x % 2)]
  }

  function Zeros(k: nat): (r: string)
    ensures |r| == k && forall i :: 0 <= i < k ==> r[i] == '0'
  {
    seq(k, i => '0')
  }

  /** `s.zfill(w)` on a string without a sign: left-pad with '0' to width `w`. */
  function ZFill(s: string, w: nat): (r: string)
  {
    if |s| >= w then s else Zeros(w - |s|) + s
  }

  /** `sum(c1 != c2 for c1, c2 in zip(s, t))`: `zip` stops at the shorter string. */
  function CountDiffering(s: string, t: string): (r: nat)
    decreases |s|
  {
    if |s| == 0 || |t| == 0 then 0
    else (if s[0] != t[0] then 1 else 0) + CountDiffering(s[1..], t[1..])
  }

  /** The fallback branch of `hamming_distance_hex`, applied to the two parsed values. */
  function FallbackDistance(a: nat, b: nat): nat
  {
    CountDiffering(ZFill(Binary(a), HashBits), ZFill(Binary(b), HashBits))
  }

  /** The n low bits of x, most significant first. */
  function BitsMsbFirst(x: nat, n: nat): (r: string)
    ensures |r| == n
    decreases n
  {
    if n == 0 then [] else BitsMsbFirst(x / 2, n - 1) + [BitChar(x % 2)]
  }

  lemma {:induction false} BitsOfZero(n: nat)
    ensures BitsMsbFirst(0, n) == Zeros(n)
    decreases n
  {
    if n > 0 {
      BitsOfZero(n - 1);
      assert Zeros(n - 1) + ['0'] == Zeros(n);
    }
  }

  lemma {:induction false} BinaryLength(x: nat, n: nat)
    requires n >= 1 && x < Pow2(n)
    ensures |Binary(x)| <= n
    decreases n
  {
    if x >= 2 {
      assert n >= 2;
      BinaryLength(x / 2, n - 1);
    }
  }

  /** Zero-padding the binary form of a number below 2^n to n characters gives its n low bits. */
  lemma {:induction false} ZFillBinary(x: nat, n: nat)
    requires n >= 1 && x < Pow2(n)
    ensures ZFill(Binary(x), n) == BitsMsbFirst(x, n)
    decreases n
  {
    var c := BitChar(x % 2);
    if x < 2 {
      BitsOfZero(n - 1);
      assert Binary(x) == [c];
      assert ZFill([c], n) == Zeros(n - 1) + [c];
    } else {
      assert n >= 2;
      var hi := Binary(x / 2);
      BinaryLength(x / 2, n - 1);
      ZFillBinary(x / 2, n - 1);
      assert Binary(x) == hi + [c];
      if |hi| == n - 1 {
        assert ZFill(hi + [c], n) == hi + [c];
        assert ZFill(hi, n - 1) == hi;
      } else {
        assert ZFill(hi + [c], n) == Zeros(n - 1 - |hi|) + hi + [c];
        assert ZFill(hi, n - 1) == Zeros(n - 1 - |hi|) + hi;
      }
    }
  }

  lemma {:induction false} CountDifferingSnoc(s: string, t: string, c: char, d: char)
    requires |s| == |t|
    ensures CountDiffering(s + [c], t + [d]) == CountDiffering(s, t) + (if c != d then 1 else 0)
    decreases |s|
  {
    if |s| > 0 {
      assert (s + [c])[1..] == s[1..] + [c];
      assert (t + [d])[1..] == t[1..] + [d];
      CountDifferingSnoc(s[1..], t[1..], c, d);
    }
  }

  /** Counting the differing positions of the n-bit forms of a and b counts the one bits of their XOR. */
  lemma {:induction false} CountDifferingBits(a: nat, b: nat, n: nat)
    requires a < Pow2(n) && b < Pow2(n)
    ensures CountDiffering(BitsMsbFirst(a, n), BitsMsbFirst(b, n)) == PopCount(Xor(a, b))
    decreases n
  {
    if n == 0 {
      assert a == 0 && b == 0;
    } else {
      CountDifferingBits(a / 2, b / 2, n - 1);
      CountDifferingSnoc(BitsMsbFirst(a / 2, n - 1), BitsMsbFirst(b / 2, n - 1), BitChar(a % 2), BitChar(b % 2));
      XorStep(a, b);
    }
  }

  lemma {:induction false} CountDifferingSymmetric(s: string, t: string)
    ensures CountDiffering(s, t) == CountDiffering(t, s)
    decreases |s|
  {
    if |s| > 0 && |t| > 0 { CountDifferingSymmetric(s[1..], t[1..]); }
  }

  lemma {:induction false} CountDifferingSelf(s: string)
    ensures CountDiffering(s, s) == 0
    decreases |s|
  {
    if |s| > 0 { CountDifferingSelf(s[1..]); }
  }

  lemma {:induction false} CountDifferingBound(s: string, t: string)
    ensures CountDiffering(s, t) <= |s|
    decreases |s|
  {
    if |s| > 0 && |t| > 0 { CountDifferingBound(s[1..], t[1..]); }
  }

  /** For values below 2^64 the fallback counts exactly the one bits of the XOR. */
  lemma FallbackIsPopCountOfXor(a: nat, b: nat)
    requires a < Pow2(HashBits) && b < Pow2(HashBits)
    ensures FallbackDistance(a, b) == PopCount(Xor(a, b))
  {
    ZFillBinary(a, HashBits);
    ZFillBinary(b, HashBits);
    CountDifferingBits(a, b, HashBits);
  }

  // --------------------------------------------------------------- distance

  /** The strings that imagehash's `hex_to_hash` turns into 64-bit hashes. */
  predicate IsImageHashHex(h: string)
  {
    |h| == HashHexDigits && AllHex(h)
  }

  /** `hamming_distance_hex(h1, h2)`; None stands for the ValueError that the
      fallback's `int(h, 16)` raises, which the function does not catch. */
  function HammingDistanceHex(h1: string, h2: string): (r: Option<nat>)
    ensures r.Some? <==> ParseHex(h1).Some? && ParseHex(h2).Some?
  {
    if IsImageHashHex(h1) && IsImageHashHex(h2) then
      Some(PopCount(Xor(HexValue(h1), HexValue(h2))))
    else
      match (ParseHex(h1), ParseHex(h2))
      case (Some(a), Some(b)) => Some(FallbackDistance(a, b))
      case _ => None
  }

  /** Whenever both hashes denote values below 2^64 (in particular for every
      16-digit hash), both branches compute the population count of the XOR,
      which is at most 64. */
  lemma DistanceIsPopCountOfXor(h1: string, h2: string)
    requires ParseHex(h1).Some? && ParseHex(h2).Some?
    requires ParseHex(h1).value < Pow2(HashBits) && ParseHex(h2).value < Pow2(HashBits)
    ensures HammingDistanceHex(h1, h2) == Some(PopCount(Xor(ParseHex(h1).value, ParseHex(h2).value)))
    ensures HammingDistanceHex(h1, h2).value <= HashBits
  {
    var a, b := ParseHex(h1).value, ParseHex(h2).value;
    FallbackIsPopCountOfXor(a, b);
    XorBound(a, b, HashBits);
    PopCountBound(Xor(a, b), HashBits);
  }

  /** A 16-digit hash always denotes a value below 2^64. */
  lemma ImageHashValueBound(h: string)
    requires IsImageHashHex(h)
    ensures ParseHex(h) == Some(HexValue(h)) && HexValue(h) < Pow2(HashBits)
  {
    HexValueBound(h);
  }

  /** Any two 16-digit hashes are at distance at most 64. */
  lemma DistanceBound(h1: string, h2: string)
    requires IsImageHashHex(h1) && IsImageHashHex(h2)
    ensures HammingDistanceHex(h1, h2).Some? && HammingDistanceHex(h1, h2).value <= HashBits
  {
    ImageHashValueBound(h1);
    ImageHashValueBound(h2);
    DistanceIsPopCountOfXor(h1, h2);
  }

  /** The distance does not depend on the order of its arguments. */
  lemma DistanceSymmetric(h1: string, h2: string)
    ensures HammingDistanceHex(h1, h2) == HammingDistanceHex(h2, h1)
  {
    if IsImageHashHex(h1) && IsImageHashHex(h2) {
      XorSymmetric(HexValue(h1), HexValue(h2));
    } else if ParseHex(h1).Some? && ParseHex(h2).Some? {
      var a, b := ParseHex(h1).value, ParseHex(h2).value;
      CountDifferingSymmetric(ZFill(Binary(a), HashBits), ZFill(Binary(b), HashBits));
    }
  }

  /** A parseable hash is at distance 0 from itself. */
  lemma DistanceToSelf(h: string)
    requires ParseHex(h).Some?
    ensures HammingDistanceHex(h, h) == Some(0)
  {
    if IsImageHashHex(h) {
      XorSelf(HexValue(h));
    } else {
      CountDifferingSelf(ZFill(Binary(ParseHex(h).value), HashBits));
    }
  }
}
