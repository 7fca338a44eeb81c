/** Bit lists, powers of two and the big-endian conversions between
    integers and bit lists that the frame decoder is built on
    (`words2bits`, `bits2int`). */
module Bits {

  /** One binary digit, as the decoder's bit lists hold it. */
  type Bit = b: nat | b < 2

  function Pow2(k: nat): (r: nat)
    ensures r >= 1
  {
    if k == 0 then 1 else 2 * Pow2(k - 1)
  }

  /** 2^32: words at or above it do not fit the 32-bit layout. */
  const WordLimit: nat := 0x1_0000_0000

  function Min(a: int, b: int): int {
    if a <= b then a else b
  }

  /** Python's `n >> k` on a non-negative integer. */
  function ShiftRight(n: nat, k: nat): nat {
    var p := Pow2(k);
    DivNonNegative(n, p);
    n / p
  }

  /** Python slice `s[lo:hi]` for non-negative bounds: both ends are clamped
      to the length, so reading past the end yields a shorter list. */
  function Slice<T>(s: seq<T>, lo: nat, hi: nat): (r: seq<T>)
    ensures |r| == if lo >= |s| || hi <= lo then 0 else Min(hi, |s|) - lo
  {
    if lo >= |s| || hi <= lo then [] else s[lo..Min(hi, |s|)]
  }

  /** Python slice `s[k:]`. */
  function Drop<T>(s: seq<T>, k: nat): (r: seq<T>)
    ensures |r| == if k >= |s| then 0 else |s| - k
  {
    if k >= |s| then [] else s[k..]
  }

  /** `bits2int`: big-endian value of a bit list, first bit most significant. */
  function BitsToNat(bits: seq<Bit>): (r: nat)
    ensures r < Pow2(|bits|)
    decreases |bits|
  {
    if |bits| == 0 then 0 else 2 * BitsToNat(bits[..|bits| - 1]) + bits[|bits| - 1]
  }

  /** Number of ones in a bit list. */
  function Ones(bits: seq<Bit>): (r: nat)
    ensures r <= |bits|
  {
    if |bits| == 0 then 0 else Ones(bits[..|bits| - 1]) + bits[|bits| - 1]
  }

  /** The digits of `bin(n)[2:]`: most significant first, and "0" for zero. */
  function Binary(n: nat): (r: seq<Bit>)
    ensures 1 <= |r|
    ensures BitsToNat(r) == n
  {
    if n < 2 then [n]
    else
      var high := Binary(n / 2);
      assert (high + [n % 2])[..|high|] == high;
      high + [n % 2]
  }

  function Zeros(k: nat): (r: seq<Bit>)
    ensures |r| == k
    ensures forall i | 0 <= i < k :: r[i] == 0
  {
    seq(k, _ => 0)
  }

  /** `str.zfill(width)` on a digit string: left-pad with zeros. */
  function ZeroFill(bits: seq<Bit>, width: nat): (r: seq<Bit>)
    ensures |r| == if |bits| >= width then |bits| else width
    ensures BitsToNat(r) == BitsToNat(bits)
  {
    if |bits| >= width then bits
    else
      BitsOfConcat(Zeros(width - |bits|), bits);
      ZerosValue(width - |bits|);
      Zeros(width - |bits|) + bits
  }

  /** The binary digit of weight 2^e in `n`. */
  function DigitAt(n: nat, e: nat): Bit {
    (n / Pow2(e)) % 2
  }

  /** Bit `j` of a 32-bit word, counting from the most significant end. */
  function BitOfWord(w: nat, j: nat): Bit
    requires j < 32
  {
    DigitAt(w, 31 - j)
  }

  /** The bits one word contributes in `words2bits`. */
  function WordBits(w: nat): seq<Bit> {
    ZeroFill(Binary(w), 32)
  }

  /** `words2bits`: every word's bits, in word order. */
  function WordsToBits(words: seq<nat>): seq<Bit> {
    if |words| == 0 then [] else WordBits(words[0]) + WordsToBits(words[1..])
  }

  /** Fixed-width big-endian rendering of `n`, the inverse of `BitsToNat`. */
  function NatToBits(n: nat, k: nat): (r: seq<Bit>)
    ensures |r| == k
  {
    if k == 0 then [] else NatToBits(n / 2, k - 1) + [n % 2]
  }

  // ---------------------------------------------------------------------
  // Arithmetic helpers

  lemma DivNonNegative(n: nat, d: nat)
    requires d > 0
    ensures n / d >= 0
  {
  }

  lemma MulAtLeast(k: int, d: int)
    requires k >= 1 && d > 0
    ensures k * d >= d
  {
    if k > 1 {
      MulAtLeast(k - 1, d);
      assert k * d == (k - 1) * d + d;
    }
  }

  lemma DivModUnique(a: int, d: int, q: int, r: int)
    requires d > 0 && 0 <= r < d && a == q * d + r
    ensures a / d == q && a % d == r
  {
    var q', r' := a / d, a % d;
    assert a == q' * d + r';
    assert (q - q') * d == r' - r;
    if q > q' {
      MulAtLeast(q - q', d);
    } else if q < q' {
      MulAtLeast(q' - q, d);
    }
  }

  /** Dropping the last bit of a value halves it. */
  lemma HalveWithBit(x: nat, b: Bit, p: nat)
    requires p >= 1
    ensures (2 * x + b) / (2 * p) == x / p
    ensures (2 * x + b) % (2 * p) == 2 * (x % p) + b
  {
    var q, r := x / p, x % p;
    assert x == q * p + r;
    assert 2 * x + b == q * (2 * p) + (2 * r + b);
    DivModUnique(2 * x + b, 2 * p, q, 2 * r + b);
  }

  lemma ShiftStep(x: int, p: int, y: int, l: int)
    ensures 2 * (x * p + y) + l == x * (2 * p) + (2 * y + l)
  {
  }

  lemma Pow2Add(a: nat, b: nat)
    ensures Pow2(a + b) == Pow2(a) * Pow2(b)
  {
    if a > 0 {
      Pow2Add(a - 1, b);
    }
  }

  lemma WordLimitPower()
    ensures Pow2(32) == WordLimit
  {
    assert Pow2(8) == 0x100;
    Pow2Add(8, 8);
    Pow2Add(16, 16);
  }

  lemma Pow2Monotone(a: nat, b: nat)
    requires a <= b
    ensures Pow2(a) <= Pow2(b)
  {
    if a < b {
      Pow2Monotone(a, b - 1);
    }
  }

  // ---------------------------------------------------------------------
  // Properties of the conversions

  lemma ZerosValue(k: nat)
    ensures BitsToNat(Zeros(k)) == 0
  {
    if k > 0 {
      assert Zeros(k)[..k - 1] == Zeros(k - 1);
      ZerosValue(k - 1);
    }
  }

  /** The value of a concatenation: the left part is shifted past the right. */
  lemma {:induction false} BitsOfConcat(a: seq<Bit>, b: seq<Bit>)
    ensures BitsToNat(a + b) == BitsToNat(a) * Pow2(|b|) + BitsToNat(b)
    decreases |b|
  {
    if |b| == 0 {
      assert a + b == a;
    } else {
      var b' := b[..|b| - 1];
      assert (a + b)[..|a + b| - 1] == a + b';
      BitsOfConcat(a, b');
      var x, p, y, l := BitsToNat(a), Pow2(|b'|), BitsToNat(b'), b[|b| - 1];
      assert BitsToNat(a + b) == 2 * BitsToNat(a + b') + l;
      assert BitsToNat(b) == 2 * y + l;
      assert Pow2(|b|) == 2 * p;
      ShiftStep(x, p, y, l);
    }
  }

  /** Most significant bit first: bit `j` of a list is the binary digit of
      weight 2^(|bits|-1-j) of its value. */
  lemma {:induction false} BitAt(bits: seq<Bit>, j: nat)
    requires j < |bits|
    ensures bits[j] == DigitAt(BitsToNat(bits), |bits| - 1 - j)
    decreases |bits|
  {
    var n := |bits|;
    var p := bits[..n - 1];
    var l := bits[n - 1];
    var x := BitsToNat(p);
    if j == n - 1 {
      assert BitsToNat(bits) == 2 * x + l;
    } else {
      BitAt(p, j);
      assert p[j] == bits[j];
      var w := Pow2(n - 2 - j);
      assert Pow2(n - 1 - j) == 2 * w;
      HalveWithBit(x, l, w);
    }
  }

  lemma {:induction false} NatToBitsValue(n: nat, k: nat)
    requires n < Pow2(k)
    ensures BitsToNat(NatToBits(n, k)) == n
  {
    if k > 0 {
      var r := NatToBits(n, k);
      var high := NatToBits(n / 2, k - 1);
      assert r[..k - 1] == high;
      assert r[k - 1] == n % 2;
      assert n / 2 < Pow2(k - 1);
      NatToBitsValue(n / 2, k - 1);
      assert BitsToNat(r) == 2 * BitsToNat(high) + n % 2;
    }
  }

  lemma {:induction false} BinaryLength(n: nat, k: nat)
    requires 1 <= k && n < Pow2(k)
    ensures |Binary(n)| <= k
  {
    if n >= 2 {
      assert k >= 2;
      BinaryLength(n / 2, k - 1);
    }
  }

  /** A word below 2^32 contributes exactly 32 bits that read back as the word;
      a wider word contributes all of its binary digits, also reading back as
      the word. */
  lemma WordBitsValue(w: nat)
    ensures BitsToNat(WordBits(w)) == w
    ensures w < WordLimit ==> |WordBits(w)| == 32
  {
    if w < WordLimit {
      WordLimitPower();
      BinaryLength(w, 32);
    }
  }

  /** Words below 2^32 become 32 bits each: word `i` sits at positions
      32i .. 32i+31, its most significant bit first. */
  lemma {:induction false} WordsToBitsLayout(words: seq<nat>)
    requires forall i | 0 <= i < |words| :: words[i] < WordLimit
    ensures |WordsToBits(words)| == 32 * |words|
    ensures forall i, j | 0 <= i < |words| && 0 <= j < 32 ::
              WordsToBits(words)[32 * i + j] == BitOfWord(words[i], j)
  {
    if |words| > 0 {
      WordBitsValue(words[0]);
      WordsToBitsLayout(words[1..]);
      assert WordsToBits(words) == WordBits(words[0]) + WordsToBits(words[1..]);
      LayoutStep(words, WordsToBits(words[1..]));
    }
  }

  /** The layout of a word list follows from its first word's bits and the
      layout of the rest. */
  lemma LayoutStep(words: seq<nat>, rest: seq<Bit>)
    requires |words| > 0 && words[0] < WordLimit
    requires |rest| == 32 * (|words| - 1)
    requires forall i, j | 0 <= i < |words| - 1 && 0 <= j < 32 :: rest[32 * i + j] == BitOfWord(words[1..][i], j)
    ensures forall i, j | 0 <= i < |words| && 0 <= j < 32 ::
              (WordBits(words[0]) + rest)[32 * i + j] == BitOfWord(words[i], j)
  {
    var head := WordBits(words[0]);
    forall i, j | 0 <= i < |words| && 0 <= j < 32
      ensures (head + rest)[32 * i + j] == BitOfWord(words[i], j)
    {
      WordBitAt(words[0], j);
      if i > 0 {
        var k := 32 * (i - 1) + j;
        assert 32 * i + j == |head| + k;
        assert (head + rest)[|head| + k] == rest[k];
        assert rest[k] == BitOfWord(words[1..][i - 1], j);
        assert words[1..][i - 1] == words[i];
      }
    }
  }

  /** Bit `j` of a word's 32-bit rendering is its `BitOfWord`. */
  lemma WordBitAt(w: nat, j: nat)
    requires w < WordLimit && j < 32
    ensures |WordBits(w)| == 32
    ensures WordBits(w)[j] == BitOfWord(w, j)
  {
    WordBitsValue(w);
    BitAt(WordBits(w), j);
  }

}
