/** The running checksum of the firmware update: crc32_compute of the bootloader's CRC library, a
    fold over bytes that can be continued. Words are numbers, so that their bits are spelt out. */
module Crc32 {
  import opened Arithmetic
  import opened Cyclic

  /** The firmware's `uint32_t`. */
  type word = x: int | 0 <= x < 0x1_0000_0000

  /** Exclusive or of the last `n` bits. */
  function Xor(a: nat, b: nat, n: nat): nat {
    if n == 0 then 0 else (if a % 2 != b % 2 then 1 else 0) + 2 * Xor(a / 2, b / 2, n - 1)
  }

  lemma {:induction false} XorBound(a: nat, b: nat, n: nat)
    ensures Xor(a, b, n) < Pow2(n)
  {
    if n > 0 {
      XorBound(a / 2, b / 2, n - 1);
    }
  }

  function Xor32(a: word, b: word): word {
    XorBound(a, b, 32);
    WordSize();
    Xor(a, b, 32)
  }

  function Complement(x: word): word { 0xFFFF_FFFF - x }

  /** The polynomial of CRC-32, its lowest coefficient in the highest bit. */
  const POLYNOMIAL: word := 0xEDB8_8320

  function Feedback(crc: word): word { if crc % 2 == 1 then POLYNOMIAL else 0 }

  function BitStep(crc: word): word { Xor32(crc / 2, Feedback(crc)) }

  function BitSteps(crc: word, n: nat): word {
    if n == 0 then crc else BitStep(BitSteps(crc, n - 1))
  }

  function Fold(crc: word, data: seq<byte>): word {
    if data == [] then crc
    else BitSteps(Xor32(Fold(crc, data[..|data| - 1]), data[|data| - 1]), 8)
  }

  /** crc32_compute, continuing from the checksum `last` of what came before. */
  function Continue(last: word, data: seq<byte>): (crc: word) {
    Complement(Fold(Complement(last), data))
  }

  function Crc(data: seq<byte>): (crc: word) { Continue(0, data) }

  lemma {:induction false} FoldConcat(crc: word, a: seq<byte>, b: seq<byte>)
    ensures Fold(crc, a + b) == Fold(Fold(crc, a), b)
    decreases |b|
  {
    hide BitSteps, Xor32;
    if b == [] {
      assert a + b == a;
    } else {
      FoldConcat(crc, a, b[..|b| - 1]);
      assert (a + b)[..|a + b| - 1] == a + b[..|b| - 1];
    }
  }

  /** A checksum kept up piece by piece is the checksum of the whole. */
  lemma CrcContinues(a: seq<byte>, b: seq<byte>)
    ensures Continue(Crc(a), b) == Crc(a + b)
  {
    hide Fold;
    FoldConcat(Complement(0), a, b);
  }

  // ----- the checksum of a message followed by its checksum -----

  /** How exclusive or looks bit by bit. */
  lemma XorBits(a: nat, b: nat, n: nat)
    requires n > 0
    ensures Xor(a, b, n) / 2 == Xor(a / 2, b / 2, n - 1)
    ensures Xor(a, b, n) % 2 == if a % 2 != b % 2 then 1 else 0
  {
  }

  lemma {:induction false} XorCommutes(a: nat, b: nat, n: nat)
    ensures Xor(a, b, n) == Xor(b, a, n)
  {
    if n > 0 {
      XorCommutes(a / 2, b / 2, n - 1);
    }
  }

  lemma {:induction false} XorAssociates(a: nat, b: nat, c: nat, n: nat)
    ensures Xor(Xor(a, b, n), c, n) == Xor(a, Xor(b, c, n), n)
  {
    if n > 0 {
      XorBits(a, b, n);
      XorBits(b, c, n);
      XorAssociates(a / 2, b / 2, c / 2, n - 1);
    }
  }

  lemma {:induction false} XorNothing(a: nat, n: nat)
    requires a < Pow2(n)
    ensures Xor(a, 0, n) == a
  {
    if n > 0 {
      XorNothing(a / 2, n - 1);
    }
  }

  /** A number and its complement. */
  lemma {:induction false} XorComplement(a: nat, n: nat)
    requires a < Pow2(n)
    ensures Xor(a, Pow2(n) - 1 - a, n) == Pow2(n) - 1
  {
    if n > 0 {
      XorComplement(a / 2, n - 1);
    }
  }

  /** Bits that are zero in both stay zero. */
  lemma {:induction false} XorNarrow(a: nat, b: nat, n: nat)
    requires n > 0 && a < Pow2(n - 1) && b < Pow2(n - 1)
    ensures Xor(a, b, n) == Xor(a, b, n - 1)
  {
    if n > 1 {
      XorNarrow(a / 2, b / 2, n - 1);
    }
  }

  /** One bit in front of the low bits, none in front of the high ones. */
  lemma XorShift(low: nat, half: nat, n: nat)
    requires n > 0
    ensures Xor(low, 2 * half, n) == low % 2 + 2 * Xor(low / 2, half, n - 1)
  {
    hide Pow2;
    assert 2 * half / 2 == half;
  }

  lemma Double(high: nat, k: nat)
    requires k > 0
    ensures high * Pow2(k) == 2 * (high * Pow2(k - 1))
  {
    MulSwap(high, 2, Pow2(k - 1));
  }

  /** Low bits and high bits do not meet. */
  lemma {:induction false} XorDisjoint(low: nat, high: nat, k: nat, n: nat)
    requires k <= n && low < Pow2(k) && low + high * Pow2(k) < Pow2(n)
    ensures Xor(low, high * Pow2(k), n) == low + high * Pow2(k)
    decreases n
  {
    if k == 0 {
      assert low == 0 && high * Pow2(0) == high;
      XorCommutes(0, high, n);
      XorNothing(high, n);
    } else {
      var half := high * Pow2(k - 1);
      Double(high, k);
      assert Pow2(k) == 2 * Pow2(k - 1) && Pow2(n) == 2 * Pow2(n - 1);
      hide Xor, Pow2;
      XorDisjoint(low / 2, high, k - 1, n - 1);
      XorShift(low, half, n);
    }
  }

  lemma Half()
    ensures Pow2(32) == 0x1_0000_0000 && Pow2(31) == 0x8000_0000
  {
    WordSize();
    assert Pow2(32) == 2 * Pow2(31);
  }

  lemma {:induction false} XorSelf(a: nat, n: nat)
    ensures Xor(a, a, n) == 0
  {
    if n > 0 {
      XorSelf(a / 2, n - 1);
    }
  }

  lemma FeedbackXor(a: word, b: word)
    ensures Xor32(Feedback(a), Feedback(b)) == Feedback(Xor32(a, b))
  {
    hide Pow2;
    Half();
    XorBits(a, b, 32);
    XorNothing(POLYNOMIAL, 32);
    XorNothing(0, 32);
    XorCommutes(0, POLYNOMIAL, 32);
    XorSelf(POLYNOMIAL, 32);
    hide Xor;
  }

  lemma HalfXor(a: word, b: word)
    ensures Xor32(a, b) / 2 == Xor32(a / 2, b / 2)
  {
    hide Pow2;
    Half();
    XorBits(a, b, 32);
    XorNarrow(a / 2, b / 2, 32);
    hide Xor;
  }

  /** Four words, two by two. */
  lemma XorPairs(a: word, b: word, c: word, d: word)
    ensures Xor32(Xor32(a, b), Xor32(c, d)) == Xor32(Xor32(a, c), Xor32(b, d))
  {
    hide Xor;
    XorAssociates(a, b, Xor32(c, d), 32);
    XorAssociates(b, c, d, 32);
    XorCommutes(b, c, 32);
    XorAssociates(c, b, d, 32);
    XorAssociates(a, c, Xor32(b, d), 32);
  }

  /** The checksum loop is linear. */
  lemma BitStepXor(a: word, b: word)
    ensures BitStep(Xor32(a, b)) == Xor32(BitStep(a), BitStep(b))
  {
    hide Xor32;
    HalfXor(a, b);
    FeedbackXor(a, b);
    XorPairs(a / 2, Feedback(a), b / 2, Feedback(b));
  }

  lemma {:induction false} BitStepsXor(a: word, b: word, n: nat)
    ensures BitSteps(Xor32(a, b), n) == Xor32(BitSteps(a, n), BitSteps(b, n))
  {
    hide Xor32, BitStep;
    if n > 0 {
      BitStepsXor(a, b, n - 1);
      BitStepXor(BitSteps(a, n - 1), BitSteps(b, n - 1));
    }
  }

  lemma ZeroStep(y: word)
    requires 2 * y < 0x1_0000_0000
    ensures BitStep(2 * y) == y
  {
    hide Xor32;
    assert 2 * y / 2 == y && 2 * y % 2 == 0;
    WordXorNothing(y);
  }

  /** Steps over zero bits only shift. */
  lemma {:induction false} ZeroSteps(x: nat, n: nat, m: nat)
    requires n <= m && x * Pow2(m) < 0x1_0000_0000
    ensures BitSteps(x * Pow2(m), n) == x * Pow2(m - n)
  {
    hide Pow2, BitStep;
    if n > 0 {
      ZeroSteps(x, n - 1, m);
      Double(x, m - n + 1);
      ZeroStep(x * Pow2(m - n));
    }
  }

  lemma WordXorNothing(y: word)
    ensures Xor32(y, 0) == y
  {
    hide Xor, Pow2;
    Half();
    XorNothing(y, 32);
  }

  lemma {:induction false} BitStepsThen(x: word, n: nat, m: nat)
    ensures BitSteps(x, n + m) == BitSteps(BitSteps(x, n), m)
  {
    hide BitStep;
    if m > 0 {
      BitStepsThen(x, n, m - 1);
    }
  }

  lemma FoldByte(crc: word, b: byte)
    ensures Fold(crc, [b]) == BitSteps(Xor32(crc, b), 8)
  {
    hide BitSteps, Xor32;
    assert [b][..0] == [];
    assert Fold(crc, []) == crc;
  }

  /** Eight steps over a whole word take its lowest byte as the loop does. */
  lemma ByteOfWord(crc: word, w: word)
    ensures BitSteps(Xor32(crc, w), 8) == Xor32(Fold(crc, [w % 256]), w / 256)
  {
    var low: nat, high: nat := w % 256, w / 256;
    SplitWord(w, low, high);
    hide BitSteps, Xor32, Xor, Fold;
    FoldByte(crc, low);
    BitStepsXor(Xor32(crc, low), high * 256, 8);
    XorAssociative32(crc, low, high * 256);
    ShiftByte(high);
  }

  lemma SplitWord(w: word, low: nat, high: nat)
    requires low == w % 256 && high == w / 256
    ensures high * 256 < 0x1_0000_0000 && Xor32(low, high * 256) == w
  {
    WordSize();
    hide Pow2;
    assert w == low + high * 256;
    XorDisjoint(low, high, 8, 32);
  }

  lemma ShiftByte(high: nat)
    requires high * 256 < 0x1_0000_0000
    ensures BitSteps(high * 256, 8) == high
  {
    hide BitSteps;
    WordSize();
    assert Pow2(0) == 1;
    hide Pow2;
    ZeroSteps(high, 8, 8);
  }

  lemma XorAssociative32(a: word, b: word, c: word)
    ensures Xor32(Xor32(a, b), c) == Xor32(a, Xor32(b, c))
  {
    hide Xor;
    XorAssociates(a, b, c, 32);
  }

  /** The bytes of a word, the lowest first. */
  function LittleEndian(w: word): seq<byte> {
    [w % 256, w / 256 % 256, w / 256 / 256 % 256, w / 256 / 256 / 256]
  }

  /** Folding the bytes of a word. */
  lemma FoldWord(crc: word, w: word)
    ensures Fold(crc, LittleEndian(w)) == BitSteps(Xor32(crc, w), 32)
  {
    hide Fold, BitSteps, Xor32;
    var w1: word, w2: word, w3: word := w / 256, w / 256 / 256, w / 256 / 256 / 256;
    var a, b, c, d: seq<byte> := [w % 256], [w1 % 256], [w2 % 256], [w3];
    assert LittleEndian(w) == a + b + c + d;
    FoldConcat(crc, a + b + c, d);
    FoldConcat(crc, a + b, c);
    FoldConcat(crc, a, b);
    var fa := Fold(crc, a);
    var fb := Fold(fa, b);
    var fc := Fold(fb, c);
    ByteOfWord(crc, w);
    ByteOfWord(fa, w1);
    ByteOfWord(fb, w2);
    FoldByte(fc, w3);
    BitStepsThen(Xor32(crc, w), 8, 24);
    BitStepsThen(Xor32(fa, w1), 8, 16);
    BitStepsThen(Xor32(fb, w2), 8, 8);
  }

  /** Shifting without and with a bit shifted out. */
  lemma StepLaws(y: word)
    ensures BitStep(1) == POLYNOMIAL
    ensures y % 2 == 0 ==> BitStep(y) == y / 2
  {
    hide Xor32;
    WordXorNothing(POLYNOMIAL);
    WordXorCommutes(0, POLYNOMIAL);
    WordXorNothing(y / 2);
  }

  lemma WordXorCommutes(a: word, b: word)
    ensures Xor32(a, b) == Xor32(b, a)
  {
    hide Xor;
    XorCommutes(a, b, 32);
  }

  /** These laws and linearity leave one step only: division by the polynomial. */
  lemma OnlyBitStep(f: word -> word, x: word)
    requires f(1) == 0xEDB8_8320
    requires forall y: word :: y % 2 == 0 ==> f(y) == y / 2
    requires forall a: word, b: word :: f(Xor32(a, b)) == Xor32(f(a), f(b))
    ensures BitStep(x) == f(x)
  {
    hide Xor32, BitStep;
    StepLaws(x);
    if x % 2 == 1 {
      var even: word := x - 1;
      StepLaws(even);
      LowestBit(even);
      BitStepXor(1, even);
      assert f(Xor32(1, even)) == Xor32(f(1), f(even));
    }
  }

  lemma LowestBit(even: word)
    requires even % 2 == 0
    ensures even + 1 < 0x1_0000_0000 && Xor32(1, even) == even + 1
  {
    WordSize();
    assert Pow2(1) == 2 && even == even / 2 * Pow2(1);
    hide Pow2, Xor;
    XorDisjoint(1, even / 2, 1, 32);
  }

  /** A message followed by its checksum has the same checksum whatever the message: the residue. */
  lemma MessageWithChecksum(m: seq<byte>)
    ensures Crc(m + LittleEndian(Crc(m))) == Complement(BitSteps(0xFFFF_FFFF, 32))
  {
    hide Fold, BitSteps, LittleEndian;
    var state := Fold(Complement(0), m);
    FoldConcat(Complement(0), m, LittleEndian(Complement(state)));
    FoldWord(state, Complement(state));
    WordComplement(state);
  }

  lemma WordComplement(x: word)
    ensures Xor32(x, Complement(x)) == 0xFFFF_FFFF
  {
    hide Xor, Pow2;
    Half();
    XorComplement(x, 32);
  }
}
