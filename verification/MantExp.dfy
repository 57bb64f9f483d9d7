/** The mantissa and exponent codec of Firmware/AppBase/Src/Libraries/Tool.c, in exact arithmetic:
    a number is kept as a mantissa of some bits times a coefficient times a power of ten. The
    coefficient is any positive fraction. */
module MantExp {
  import opened Arithmetic

  const TABLE_SIZE := 6

  /** u32Quick_Pow10: a table of six powers; zero beyond it. */
  function QuickPow10(n: nat): (p: nat) {
    if n < TABLE_SIZE then [1, 10, 100, 1000, 10000, 100000][n] else 0
  }

  function PowerOfTen(n: nat): nat { if n == 0 then 1 else 10 * PowerOfTen(n - 1) }

  /** The table holds the powers of ten. */
  lemma TableIsPowers(n: nat)
    ensures n < TABLE_SIZE ==> QuickPow10(n) == PowerOfTen(n)
    ensures n >= TABLE_SIZE ==> QuickPow10(n) == 0
  {
    assert PowerOfTen(2) == 100;
    assert PowerOfTen(4) == 10000;
    assert PowerOfTen(5) == 100000;
  }

  function MaxOf(bits: nat): (m: nat) { Pow2(bits) - 1 }

  /** The coefficient num / den. */
  datatype Coef = Coef(num: nat, den: nat) {
    predicate Positive() { num > 0 && den > 0 }
  }

  /** The first value that is out of reach with exponent `e`: the coefficient times the largest
      mantissa, truncated, times the power. */
  function Threshold(coef: Coef, mantMax: nat, e: nat): (t: nat)
    requires coef.den > 0
  {
    coef.num * mantMax / coef.den * QuickPow10(e)
  }

  /** The step between two neighbouring values with exponent `e`, in parts of the denominator. */
  function Unit(coef: Coef, e: nat): (u: nat) { coef.num * QuickPow10(e) }

  /** vMantExpDecoder: the mantissa comes in a `uint16_t`, the exponent goes through a `uint8_t`,
      the product is truncated. */
  function Decode(mant: nat, exp: nat, coef: Coef): (x: nat)
    requires coef.den > 0
  {
    mant % 0x1_0000 * Unit(coef, exp % 256) / coef.den
  }

  /** x over the unit, rounded, halves up: floor((x + unit/2) / unit). */
  function Nearest(x: nat, coef: Coef, e: nat): (m: nat)
    requires Unit(coef, e) > 0
  {
    (2 * (x * coef.den) + Unit(coef, e)) / (2 * Unit(coef, e))
  }

  /** Whether every exponent the encoder can choose for `x` is in the table of powers. */
  predicate InTable(x: nat, coef: Coef, mantMax: nat, expMax: nat)
    requires coef.den > 0
  {
    expMax < TABLE_SIZE || x < Threshold(coef, mantMax, TABLE_SIZE - 1)
  }

  datatype Code = Nothing | Code(mant: nat, exp: nat, packed: nat)

  /** What the encoder must choose: the least exponent whose range covers the number, or else the
      largest exponent. */
  ghost predicate LeastExponent(x: nat, coef: Coef, mantMax: nat, expMax: nat, e: nat)
    requires coef.den > 0
  {
    && e <= expMax
    && (forall k :: 0 <= k < e ==> x >= Threshold(coef, mantMax, k))
    && (e < expMax ==> x < Threshold(coef, mantMax, e))
  }

  /** (mantissa << bits) | exponent, in 32 bits. */
  function Pack(mant: nat, exp: nat, expBits: nat): (w: nat) {
    mant * Pow2(expBits) % 0x1_0000_0000 + exp
  }

  // ----- rounding -----

  /** The rounded mantissa is within half a unit. */
  lemma NearestBounds(x: nat, coef: Coef, e: nat)
    requires Unit(coef, e) > 0
    ensures var m, u, y := Nearest(x, coef, e), Unit(coef, e), x * coef.den;
            2 * (m * u) <= 2 * y + u < 2 * (m * u) + 2 * u
  {
    hide Unit;
    var m, u, y := Nearest(x, coef, e), Unit(coef, e), x * coef.den;
    QuotientBounds(2 * y + u, 2 * u);
    assert m * (2 * u) == 2 * (m * u);
  }

  // ----- the encoder's choice -----

  lemma UnitPositive(coef: Coef, e: nat)
    requires coef.Positive()
    ensures Unit(coef, e) > 0 <==> e < TABLE_SIZE
  {
    if e < TABLE_SIZE {
      Mono(1, coef.num, QuickPow10(e));
    }
  }

  /** A number that is in reach is rounded to a mantissa that needs no clipping. */
  lemma InReachFits(x: nat, coef: Coef, mantMax: nat, e: nat)
    requires coef.Positive() && e < TABLE_SIZE && x < Threshold(coef, mantMax, e)
    ensures Unit(coef, e) > 0 && x * coef.den < mantMax * Unit(coef, e)
    ensures Nearest(x, coef, e) <= mantMax
  {
    UnitPositive(coef, e);
    var p, u := QuickPow10(e), Unit(coef, e);
    assert coef.num * mantMax * p == mantMax * u;
    assert x < coef.num * mantMax / coef.den * p;
    hide Unit, Nearest, Threshold, QuickPow10;
    ScaledQuotient(x, coef.num * mantMax, coef.den, p);
    NearestBounds(x, coef, e);
    var m := Nearest(x, coef, e);
    if m > mantMax {
      Mono(mantMax, m, u);
    }
  }

  lemma ScaledQuotient(x: nat, n: nat, d: nat, p: nat)
    requires d > 0 && x < n / d * p
    ensures x * d < n * p
  {
    QuotientBounds(n, d);
    Mono(n / d * d, n, p);
    Mono(x, n / d * p, d);
    assert n / d * p * d == n / d * d * p;
  }

  /** No smaller exponent would do: with any of them the number is beyond the largest mantissa, or
      less than one power below it, by which the truncated threshold may be short. */
  lemma SmallerFallShort(x: nat, coef: Coef, mantMax: nat, expMax: nat, e: nat, k: nat)
    requires coef.den > 0 && LeastExponent(x, coef, mantMax, expMax, e) && k < e
    ensures x * coef.den + QuickPow10(k) * coef.den >= mantMax * Unit(coef, k)
    ensures coef.den == 1 ==> x >= mantMax * Unit(coef, k)
  {
    var n, p := coef.num * mantMax, QuickPow10(k);
    var q := n / coef.den;
    assert x >= Threshold(coef, mantMax, k) == q * p;
    hide QuickPow10, Threshold, LeastExponent;
    assert n * p == mantMax * Unit(coef, k) by { UnitTimes(coef, mantMax, k); }
    hide Unit;
    assert q * coef.den <= n < q * coef.den + coef.den by { QuotientBounds(n, coef.den); }
    TruncatedShort(x, n, coef.den, p, q);
  }

  lemma UnitTimes(coef: Coef, m: nat, k: nat)
    ensures coef.num * m * QuickPow10(k) == m * Unit(coef, k)
  {
    hide QuickPow10;
    var p := QuickPow10(k);
    MulSwap(coef.num, m, p);
  }

  lemma TruncatedShort(x: nat, n: nat, d: nat, p: nat, q: nat)
    requires d > 0 && q * d <= n < q * d + d && x >= q * p
    ensures x * d + p * d >= n * p
    ensures d == 1 ==> x >= n * p
  {
    var low, whole := q * p, q * d;
    Mono(low, x, d);
    Mono(n, whole + d, p);
    assert low * d == whole * p by { MulSwap(q, p, d); }
    assert (whole + d) * p == whole * p + d * p by { MulSum(whole, d, p); }
    assert d * p == p * d;
    if d == 1 {
      assert n == whole == q;
    }
  }

  lemma ThresholdGrows(coef: Coef, mantMax: nat, e: nat, f: nat)
    requires coef.den > 0 && e <= f < TABLE_SIZE
    ensures Threshold(coef, mantMax, e) <= Threshold(coef, mantMax, f)
  {
    Mono(QuickPow10(e), QuickPow10(f), coef.num * mantMax / coef.den);
  }

  /** When the encoder stays inside its table of powers: exactly for numbers below the threshold of
      the last power, unless the exponent field itself is small. Outside, its divisor is zero. */
  lemma TableSuffices(x: nat, coef: Coef, mantMax: nat, expMax: nat, e: nat)
    requires coef.Positive() && LeastExponent(x, coef, mantMax, expMax, e)
    ensures InTable(x, coef, mantMax, expMax) <==> e < TABLE_SIZE
    ensures InTable(x, coef, mantMax, expMax) <==> Unit(coef, e) > 0
  {
    hide Threshold;
    UnitPositive(coef, e);
    if e < TABLE_SIZE && e < expMax {
      ThresholdGrows(coef, mantMax, e, TABLE_SIZE - 1);
    }
  }

  /** For instance, 100000 with one bit of mantissa and three of exponent: no power in the table is
      large enough, the exponent goes up to seven, and the divisor is zero. */
  lemma TableOverrun()
    ensures LeastExponent(100_000, Coef(1, 1), MaxOf(1), 7, 7) && MaxOf(1) == 1
    ensures Unit(Coef(1, 1), 7) == 0 && !InTable(100_000, Coef(1, 1), MaxOf(1), 7)
  {
    assert Pow2(1) == 2 * Pow2(0);
    forall k | 0 <= k < 7
      ensures 100_000 >= Threshold(Coef(1, 1), 1, k)
    {
      PowersInTable(k);
    }
  }

  lemma PowersInTable(k: nat)
    ensures QuickPow10(k) <= 100_000
  {
  }

  /** The error of the encoding, for every number: the encoded value is within half a unit of it
      exactly if it is not more than half a unit beyond the largest mantissa. Below the largest
      exponent it always is. */
  lemma ErrorWithinHalf(x: nat, coef: Coef, mantMax: nat, expMax: nat, e: nat)
    requires coef.Positive() && LeastExponent(x, coef, mantMax, expMax, e) && InTable(x, coef, mantMax, expMax)
    ensures var u, y := Unit(coef, e), x * coef.den;
            && u > 0
            && var m := if Nearest(x, coef, e) > mantMax then mantMax else Nearest(x, coef, e);
            && (2 * y - u <= 2 * (m * u) <= 2 * y + u <==> 2 * y <= 2 * (mantMax * u) + u)
            && (e < expMax ==> 2 * y <= 2 * (mantMax * u) + u)
  {
    hide Nearest, Unit, Threshold;
    TableSuffices(x, coef, mantMax, expMax, e);
    if e < expMax {
      InReachFits(x, coef, mantMax, e);
    }
    NearestBounds(x, coef, e);
    ClippingError(Nearest(x, coef, e), mantMax, Unit(coef, e), x * coef.den);
  }

  lemma ClippingError(rounded: nat, mantMax: nat, u: nat, y: nat)
    requires 2 * (rounded * u) <= 2 * y + u < 2 * (rounded * u) + 2 * u
    ensures var m := if rounded > mantMax then mantMax else rounded;
            2 * y - u <= 2 * (m * u) <= 2 * y + u <==> 2 * y <= 2 * (mantMax * u) + u
  {
    if rounded <= mantMax {
      Mono(rounded, mantMax, u);
    } else {
      Mono(mantMax, rounded, u);
    }
  }

  /** The decoder gives back the encoded value: truncated, and exact for a whole coefficient. */
  lemma DecodesEncoded(mant: nat, e: nat, coef: Coef)
    requires coef.den > 0 && e < 256 && mant < 0x1_0000
    ensures var x, y := Decode(mant, e, coef), mant * Unit(coef, e);
            && x * coef.den <= y < x * coef.den + coef.den
            && (coef.den == 1 ==> x == y)
  {
    hide Unit;
    QuotientBounds(mant * Unit(coef, e), coef.den);
  }

  /** Encoding and decoding a number, for any coefficient: the result is at most half a unit above
      the number; and, if the number is not more than half a unit out of range, less than half a unit
      and one below it. For a whole coefficient it is then within half a unit, and only then. */
  lemma EncodeDecode(x: nat, coef: Coef, mantMax: nat, expMax: nat, e: nat, mant: nat)
    requires coef.Positive() && mantMax < 0x1_0000 && InTable(x, coef, mantMax, expMax)
    requires LeastExponent(x, coef, mantMax, expMax, e) && Unit(coef, e) > 0
    requires mant == if Nearest(x, coef, e) > mantMax then mantMax else Nearest(x, coef, e)
    ensures var u, y, z, d := Unit(coef, e), x * coef.den, Decode(mant, e, coef) * coef.den, coef.den;
            var inRange := 2 * y <= 2 * (mantMax * u) + u;
            && (e < expMax ==> inRange)
            && 2 * z <= 2 * y + u
            && (inRange ==> 2 * y < 2 * z + u + 2 * d)
            && (d == 1 ==> (2 * y - u <= 2 * z <==> inRange))
  {
    hide Nearest, Unit, Threshold, Decode;
    TableSuffices(x, coef, mantMax, expMax, e);
    ErrorWithinHalf(x, coef, mantMax, expMax, e);
    NeverAbove(x, coef, mantMax, e, mant);
    DecodesEncoded(mant, e, coef);
  }

  lemma NeverAbove(x: nat, coef: Coef, mantMax: nat, e: nat, mant: nat)
    requires Unit(coef, e) > 0
    requires mant == if Nearest(x, coef, e) > mantMax then mantMax else Nearest(x, coef, e)
    ensures 2 * (mant * Unit(coef, e)) <= 2 * (x * coef.den) + Unit(coef, e)
  {
    hide Nearest, Unit;
    NearestBounds(x, coef, e);
    Mono(mant, Nearest(x, coef, e), Unit(coef, e));
  }

  // ----- packing -----

  /** Shifting left in a word drops the bits above it. */
  lemma ShiftOut(m: nat, p: nat, q: nat)
    requires p > 0 && q > 0
    ensures m * p % (p * q) == m % q * p
    ensures m % q == m <==> m * p < p * q
  {
    var d, r := m / q, m % q;
    assert m == d * q + r;
    ShiftParts(m, p, q, d, r);
    assert m < q <==> m * p < p * q by {
      assert q * p == p * q;
      if m < q {
        Mono(m, q, p);
      } else {
        Mono(q, m, p);
      }
    }
    assert m < q ==> m % q == m by {
      if m < q {
        Remainder(m, 0, m, q);
      }
    }
  }

  lemma ShiftParts(m: nat, p: nat, q: nat, d: nat, r: nat)
    requires p > 0 && q > 0 && r < q && m == d * q + r
    ensures p * q > 0 && m * p % (p * q) == r * p
  {
    var n := p * q;
    assert r * p < n by {
      Mono(r, q, p);
      assert q * p == n;
    }
    assert m * p == d * n + r * p by {
      assert (d * q + r) * p == d * q * p + r * p;
      assert d * q * p == d * (q * p) && q * p == n;
    }
    Remainder(m * p, d, r * p, n);
  }

  /** The two fields of the packed word come back, exactly if the mantissa is not pushed out of the
      32 bits at the top. */
  lemma UnpackPair(mant: nat, exp: nat, expBits: nat)
    requires expBits < 32 && exp < Pow2(expBits)
    ensures Pack(mant, exp, expBits) % Pow2(expBits) == exp
    ensures Pack(mant, exp, expBits) / Pow2(expBits) == mant <==> mant * Pow2(expBits) < 0x1_0000_0000
  {
    hide Pow2;
    var p, q := Pow2(expBits), Pow2(32 - expBits);
    PowersSplit(expBits, 32 - expBits);
    WordSize();
    UnpackParts(mant, exp, p, q);
  }

  lemma UnpackParts(mant: nat, exp: nat, p: nat, q: nat)
    requires p > 0 && q > 0 && p * q == 0x1_0000_0000 && exp < p
    ensures (mant * p % 0x1_0000_0000 + exp) % p == exp
    ensures (mant * p % 0x1_0000_0000 + exp) / p == mant <==> mant * p < 0x1_0000_0000
  {
    var kept := mant % q;
    var shifted := mant * p % 0x1_0000_0000;
    assert shifted == kept * p && (kept == mant <==> mant * p < 0x1_0000_0000) by {
      ShiftOut(mant, p, q);
    }
    TwoFields(shifted, kept, exp, p);
  }

  lemma TwoFields(shifted: nat, kept: nat, exp: nat, p: nat)
    requires p > 0 && exp < p && shifted == kept * p
    ensures (shifted + exp) % p == exp && (shifted + exp) / p == kept
  {
    Remainder(shifted + exp, kept, exp, p);
  }

  /** For instance, a mantissa of 25 bits beside an exponent of 8: its top bit is lost. */
  lemma TopBitIsLost()
    ensures Pow2(8) == 256 && Pack(0x100_0000, 0, 8) == 0
  {
    WordSize();
  }

  lemma FieldsFit(mant: nat, mantBits: nat, expBits: nat)
    requires mantBits + expBits <= 32 && mant <= MaxOf(mantBits)
    ensures mant * Pow2(expBits) < 0x1_0000_0000
  {
    var p := Pow2(mantBits + expBits);
    PowersSplit(mantBits, expBits);
    Mono(mant, Pow2(mantBits), Pow2(expBits));
    PowersSplit(32 - mantBits - expBits, mantBits + expBits);
    Mono(1, Pow2(32 - mantBits - expBits), p);
    WordSize();
  }

  /** When both fields fit the word, every encoded pair comes back. */
  lemma PackRoundTrip(mant: nat, mantBits: nat, exp: nat, expBits: nat)
    requires mantBits + expBits <= 32 && expBits < 32 && mant <= MaxOf(mantBits) && exp <= MaxOf(expBits)
    ensures Pack(mant, exp, expBits) % Pow2(expBits) == exp
    ensures Pack(mant, exp, expBits) / Pow2(expBits) == mant
  {
    hide Pow2, Pack;
    FieldsFit(mant, mantBits, expBits);
    UnpackPair(mant, exp, expBits);
  }

  // ----- the encoder -----

  /** vMantExpEncoder. Without bits or coefficient it writes nothing. */
  method Encode(x: nat, mantBits: nat, expBits: nat, coef: Coef) returns (code: Code)
    requires mantBits < 32 && expBits < 32 && coef.den > 0
    requires coef.num > 0 ==> InTable(x, coef, MaxOf(mantBits), MaxOf(expBits))
    ensures code == Nothing <==> mantBits == 0 || expBits == 0 || coef.num == 0
    ensures code != Nothing ==>
              var mantMax := MaxOf(mantBits);
              && LeastExponent(x, coef, mantMax, MaxOf(expBits), code.exp)
              && code.exp < TABLE_SIZE && Unit(coef, code.exp) > 0
              && code.mant == (if Nearest(x, coef, code.exp) > mantMax then mantMax else Nearest(x, coef, code.exp))
              && code.packed == Pack(code.mant, code.exp, expBits)
  {
    hide Threshold, Nearest, Unit;
    if mantBits == 0 || expBits == 0 || coef.num == 0 {
      return Nothing;
    }
    var mantMax, expMax := MaxOf(mantBits), MaxOf(expBits);
    assert Pow2(expBits) == 2 * Pow2(expBits - 1);
    var exp: nat, found, going := 0, false, true;
    while going
      invariant exp <= expMax && exp < TABLE_SIZE
      invariant forall k :: 0 <= k < exp ==> x >= Threshold(coef, mantMax, k)
      invariant going ==> !found && exp < expMax
      invariant found ==> x < Threshold(coef, mantMax, exp)
      invariant !going && !found ==> exp == expMax
      decreases expMax - exp, if going then 1 else 0
    {
      if x < Threshold(coef, mantMax, exp) {
        found := true;
      } else {
        exp := exp + 1;
      }
      going := exp < expMax && !found;
    }
    TableSuffices(x, coef, mantMax, expMax, exp);
    var mant := Nearest(x, coef, exp);
    mant := if mant > mantMax then mantMax else mant;
    code := Code(mant, exp, Pack(mant, exp, expBits));
  }
}
