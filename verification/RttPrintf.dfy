/** The formatted output of Firmware/AppBase/Src/RTT/SEGGER_RTT_printf.c: characters are staged in
    a small buffer that goes to the ring when it is full; the ring refuses a buffer it has no room
    for. */
module RttPrintf {
  import opened Arithmetic
  import opened Cyclic
  import opened RttRing
  import opened FormatSpec

  const U32_LIMIT := 0x1_0000_0000

  /** What the staged output stands for: all of `full` was asked to be stored, or, after a refused
      write, a first part of it. */
  ghost predicate Progress(before: seq<byte>, after: seq<byte>, full: seq<byte>, ok: bool) {
    if ok then after == before + full else after <= before + full
  }

  lemma ProgressThen(a: seq<byte>, b: seq<byte>, c: seq<byte>, f: seq<byte>, g: seq<byte>, ok: bool)
    requires Progress(a, b, f, true) && Progress(b, c, g, ok)
    ensures Progress(a, c, f + g, ok)
  {
    assert a + f + g == a + (f + g);
  }

  lemma ProgressNone(a: seq<byte>)
    ensures Progress(a, a, [], true)
  {
  }

  lemma ProgressStops(a: seq<byte>, b: seq<byte>, f: seq<byte>, g: seq<byte>)
    requires Progress(a, b, f, false)
    ensures Progress(a, b, f + g, false)
  {
    assert a + f + g == a + (f + g);
  }

  /** The precisions whose leading power fits a 32-bit divisor, for the two bases in use. */
  predicate Precise(base: nat, precision: nat) {
    (base == 10 && precision <= 10) || (base == 16 && precision <= 8)
  }

  lemma {:induction false} Powers()
    ensures Pow(10, 9) == 1_000_000_000 && Pow(10, 10) == 10_000_000_000
    ensures Pow(16, 7) == 0x1000_0000 && Pow(16, 8) == 0x1_0000_0000
  {
    assert Pow(10, 3) == 1000;
    assert Pow(10, 6) == 1_000_000;
    assert Pow(16, 3) == 0x1000;
    assert Pow(16, 6) == 0x100_0000;
  }

  lemma {:induction false} DigitCountAbove(v: nat, base: nat, k: nat)
    requires base > 1 && k > 0
    ensures v >= Pow(base, k) <==> DigitCount(v, base) > k
  {
    DigitCountCovers(v, base);
    if DigitCount(v, base) > k {
      PowMono(base, k, DigitCount(v, base) - 1);
    } else {
      PowMono(base, DigitCount(v, base), k);
    }
  }

  /** For the two bases, the power of the leading digit fits 32 bits exactly up to the stated
      precision. Beyond it the divisor wraps; at nine hexadecimal digits it becomes zero. */
  lemma LeadingPowerFits(v: nat, base: nat, precision: nat)
    requires (base == 10 || base == 16) && v < U32_LIMIT
    ensures Pow(base, Width(v, base, precision) - 1) < U32_LIMIT <==> Precise(base, precision)
    ensures Pow(16, 8) % U32_LIMIT == 0
  {
    Powers();
    var limit := if base == 10 then 10 else 8;
    DigitCountAbove(v, base, limit);
    var w := Width(v, base, precision);
    if w <= limit {
      PowMono(base, w - 1, limit - 1);
    } else {
      PowMono(base, limit, w - 1);
    }
  }

  lemma WidthPositive(v: nat, base: nat, precision: nat)
    requires base > 1
    ensures Width(v, base, precision) > 0
  {
  }

  /** The divisor loop goes on exactly while the divisor is below that of the leading digit, and its
      product does not wrap. */
  lemma DivisorTurn(v: nat, base: nat, precision: nat, i: nat, digit: nat)
    requires v < U32_LIMIT && Precise(base, precision)
    requires i < Width(v, base, precision) && digit == Pow(base, i)
    ensures i + 1 < Width(v, base, precision) <==> v / digit >= base || precision - i > 1
    ensures i + 1 < Width(v, base, precision) ==> digit * base % U32_LIMIT == Pow(base, i + 1)
  {
    hide DigitCount, Pow;
    var w := Width(v, base, precision);
    PowSteps(base, i);
    DigitCountAbove(v, base, i + 1);
    QuotientAbove(v, base, digit);
    if i + 1 < w {
      LeadingPowerFits(v, base, precision);
      PowMono(base, i + 1, w - 1);
      NoWrap(digit * base);
    }
  }

  lemma NoWrap(x: nat)
    requires x < U32_LIMIT
    ensures x % U32_LIMIT == x
  {
  }

  // ----- what a wrapped divisor does to the text -----

  /** The digit loop from any divisor: the quotients whose characters it stores, one a turn. */
  function Quotients(v: nat, base: nat, divisor: nat): (q: seq<nat>)
    requires base > 1 && divisor > 0
    decreases divisor
  {
    NextIsLess(divisor, base);
    QuotientNat(v, divisor);
    [v / divisor] + if divisor / base == 0 then [] else Quotients(v % divisor, base, divisor / base)
  }

  lemma QuotientNat(v: nat, d: nat)
    requires d > 0
    ensures 0 <= v / d && 0 <= v % d
  {
  }

  lemma NextIsLess(divisor: nat, base: nat)
    requires base > 1 && divisor > 0
    ensures divisor / base < divisor && (divisor / base == 0 <==> divisor < base)
  {
    QuotientAbove(divisor, 1, base);
    if divisor >= base {
      DivShrinks(divisor, base);
    }
  }

  /** The loop makes as many turns as the divisor has digits. */
  lemma {:induction false} QuotientCount(v: nat, base: nat, divisor: nat)
    requires base > 1 && divisor > 0
    ensures |Quotients(v, base, divisor)| == DigitCount(divisor, base)
    decreases divisor
  {
    NextIsLess(divisor, base);
    if divisor >= base {
      QuotientCount(v % divisor, base, divisor / base);
    }
  }

  /** From the right divisor, the quotients are the digits. */
  lemma {:induction false} QuotientsAreDigits(v: nat, base: nat, n: nat, p: nat)
    requires 1 < base <= 16 && n > 0 && v < Pow(base, n) && p == Pow(base, n - 1)
    ensures |Quotients(v, base, p)| == n
    ensures forall i :: 0 <= i < n ==>
              Quotients(v, base, p)[i] < 16 && DigitChar(Quotients(v, base, p)[i]) == Numeral(v, base, n)[i]
    decreases n
  {
    hide Pow, Numeral, Quotients;
    var q, rest, next := DigitTurn(v, base, n, p);
    if n > 1 {
      QuotientsAreDigits(rest, base, n - 1, next);
    } else {
      NoDigits(rest, base);
    }
  }

  /** One turn of the loop, and what is left for the next. */
  lemma DigitTurn(v: nat, base: nat, n: nat, p: nat) returns (q: nat, rest: nat, next: nat)
    requires 1 < base <= 16 && n > 0 && v < Pow(base, n) && p == Pow(base, n - 1)
    ensures q < 16 && rest < Pow(base, n - 1) && next == (if n > 1 then Pow(base, n - 2) else 0)
    ensures Numeral(v, base, n) == [DigitChar(q)] + Numeral(rest, base, n - 1)
    ensures Quotients(v, base, p) == [q] + if next == 0 then [] else Quotients(rest, base, next)
  {
    hide Pow;
    q, rest, next := v / p, v % p, p / base;
    assert next == (if n > 1 then Pow(base, n - 2) else 0) by { NextDivisor(base, n); }
    assert q < base && rest < p by { LeadingDigit(v, base, n - 1); }
  }

  lemma NoDigits(v: nat, base: nat)
    requires 1 < base <= 16 && v < Pow(base, 0)
    ensures Numeral(v, base, 0) == []
  {
  }

  /** The digit loop can emit as many digits as the precision asks for exactly if the precision is
      one whose leading power fits 32 bits. Beyond, whatever divisor the wrapped products end at,
      there are too few digits, and the text is not that of the number. */
  lemma EnoughDigits(v: nat, base: nat, precision: nat)
    requires (base == 10 || base == 16) && v < U32_LIMIT
    ensures (exists d :: 0 < d < U32_LIMIT && |Quotients(v, base, d)| == Width(v, base, precision))
            <==> Precise(base, precision)
  {
    hide Quotients, Pow, DigitCount;
    Powers();
    var limit, w := if base == 10 then 10 else 8, Width(v, base, precision);
    forall d | 0 < d < U32_LIMIT
      ensures |Quotients(v, base, d)| <= limit
    {
      QuotientCount(v, base, d);
      DigitCountAbove(d, base, limit);
    }
    if Precise(base, precision) {
      var d := Pow(base, w - 1);
      LeadingPowerFits(v, base, precision);
      QuotientCount(v, base, d);
      DigitCountOfPower(base, w - 1);
    }
  }

  lemma DigitCountOfPower(base: nat, k: nat)
    requires base > 1
    ensures DigitCount(Pow(base, k), base) == k + 1
  {
    var p := Pow(base, k);
    PowSteps(base, k);
    hide Pow, DigitCount;
    Mono(2, base, p);
    DigitCountAbove(p, base, k + 1);
    if k > 0 {
      DigitCountAbove(p, base, k);
    }
  }

  /** For instance, zero with a precision of eleven, whose divisor wraps to 1410065408. */
  lemma ElevenDigitsFail()
    ensures Pow(10, 10) % U32_LIMIT == 1_410_065_408
    ensures |Quotients(0, 10, 1_410_065_408)| == 10 < Width(0, 10, 11)
  {
    Powers();
    hide Quotients, Pow;
    QuotientCount(0, 10, 1_410_065_408);
    DigitCountAbove(1_410_065_408, 10, 9);
    DigitCountAbove(1_410_065_408, 10, 10);
  }

  // ----- staging -----

  /** Whole buffers. */
  predicate Whole(n: nat, size: nat) { size > 0 && n % size == 0 }

  lemma WholeNext(n: nat, size: nat)
    requires Whole(n, size)
    ensures Whole(n + size, size)
  {
    assert n == n / size * size;
    assert (n / size + 1) * size == n / size * size + size;
    Remainder(n + size, n / size + 1, 0, size);
  }

  lemma WholeRest(n: nat, rest: nat, size: nat)
    requires Whole(n, size)
    ensures rest < size ==> (n + rest) % size == rest
  {
    if rest < size {
      Remainder(n + rest, n / size, rest, size);
    }
  }

  class Descriptor {
    const buffer: array<byte>
    const ring: Ring
    var cnt: nat
    var returnValue: int
    /** The characters stored so far, the part of them the ring took, and what the ring held before. */
    ghost var text: seq<byte>
    ghost var handed: seq<byte>
    ghost const start: seq<byte>

    /** What holds while a full buffer has yet to be emptied, too. */
    ghost predicate Staged()
      reads this, buffer, ring, ring.buffer
    {
      && 0 < buffer.Length < 0x8000_0000 && buffer != ring.buffer
      && ring.Valid() && ring.mode == NoBlockSkip
      && cnt <= buffer.Length
      && text == handed + buffer[..cnt]
      && ring.Stored() == start + handed && Whole(|handed|, buffer.Length)
      && returnValue >= -1
    }

    ghost predicate Valid()
      reads this, buffer, ring, ring.buffer
    {
      && Staged()
      && (returnValue >= 0 ==> cnt < buffer.Length && returnValue == |text|)
      && (returnValue < 0 ==> (cnt == 0 || cnt == buffer.Length) && |text| >= buffer.Length)
    }

    predicate Ok() reads this { returnValue >= 0 }

    constructor (ring: Ring, size: nat)
      requires ring.Valid() && ring.mode == NoBlockSkip && 0 < size < 0x8000_0000
      ensures Valid() && Ok() && text == [] && this.ring == ring && start == ring.Stored()
      ensures fresh(buffer) && buffer.Length == size
    {
      this.ring := ring;
      buffer := new byte[size];
      cnt, returnValue := 0, 0;
      text, handed, start := [], [], ring.Stored();
    }

    /** The part of _StoreChar that empties a full buffer, if the ring takes it. */
    method Empty()
      requires Staged() && cnt == buffer.Length && (returnValue >= 0 ==> returnValue == |text|)
      modifies this`cnt, this`returnValue, this`handed, ring, ring.buffer
      ensures Valid()
      ensures returnValue == (if cnt == 0 then old(returnValue) else -1)
      ensures cnt == 0 || cnt == buffer.Length
    {
      hide Window, Whole;
      assert buffer[..cnt] == buffer[..];
      WholeNext(|handed|, buffer.Length);
      var written, _, _ := ring.Write(buffer[..cnt]);
      if written != cnt {
        returnValue := -1;
      } else {
        handed := handed + buffer[..cnt];
        cnt := 0;
      }
    }

    /** _StoreChar. After a refused write it may be called once more: it stores nothing, and tries
        the same full buffer again. */
    method StoreChar(c: byte)
      requires Valid() && (Ok() || cnt == buffer.Length)
      modifies this, buffer, ring, ring.buffer
      ensures Valid()
      ensures text == if old(Ok()) then old(text) + [c] else old(text)
      ensures Ok() ==> old(Ok())
      ensures old(Ok()) && !Ok() ==> cnt == buffer.Length
    {
      if cnt + 1 <= buffer.Length {
        ghost var before := buffer[..cnt];
        buffer[cnt] := c;
        assert buffer[..cnt + 1] == before + [c];
        cnt := cnt + 1;
        returnValue := returnValue + 1;
        text := text + [c];
        assert handed + buffer[..cnt] == text;
      }
      if cnt == buffer.Length {
        Empty();
      }
    }

    /** The padding loop, in the four places it occurs: it counts the field width down and stores
        one character for every position beyond `width`. What is left of the field width asks for
        no more padding. */
    method PadField(c: byte, width: nat, fieldWidth: nat) returns (left: nat)
      requires Valid() && (Ok() || cnt == buffer.Length)
      modifies this, buffer, ring, ring.buffer
      ensures Valid() && (Ok() ==> old(Ok()))
      ensures if old(Ok()) then Progress(old(text), text, Repeat(c, Pad(fieldWidth, width)), Ok())
              else text == old(text)
      ensures Ok() ==> left <= width && Pad(left, width) == 0
    {
      left := fieldWidth;
      ghost var n := 0;
      assert old(text) + Repeat(c, 0) == old(text);
      if left == 0 {
        return;
      }
      while true
        invariant Valid() && (Ok() || cnt == buffer.Length) && Ok() == old(Ok())
        invariant n == 0 || Ok()
        invariant left + n == fieldWidth && n <= Pad(fieldWidth, width)
        invariant text == old(text) + Repeat(c, n)
        decreases left
      {
        if left == 0 {
          break;
        }
        var beyond := width < left;
        left := left - 1;
        if !beyond {
          break;
        }
        StoreChar(c);
        if !Ok() {
          RepeatMore(c, n, Pad(fieldWidth, width));
          return;
        }
        assert old(text) + Repeat(c, n) + [c] == old(text) + Repeat(c, n + 1);
        n := n + 1;
      }
    }

    /** Counts the digits of `v`, and widens to the precision. */
    static method ActualWidth(v: nat, base: nat, numDigits: nat) returns (width: nat)
      requires base > 1
      ensures width == Width(v, base, numDigits)
    {
      var number: nat := v;
      width := 1;
      while number >= base
        invariant DigitCount(v, base) == width - 1 + DigitCount(number, base) && width > 0
        decreases number
      {
        DivShrinks(number, base);
        number := number / base;
        width := width + 1;
      }
      if numDigits > width {
        width := numDigits;
      }
    }

    /** The divisor for the leading digit, in 32-bit arithmetic. Both operands of the loop's `|` are
        evaluated, so the precision counts down in every turn. */
    static method LeadingDivisor(v: nat, base: nat, numDigits: nat) returns (digit: nat)
      requires v < U32_LIMIT && Precise(base, numDigits)
      ensures digit == Pow(base, Width(v, base, numDigits) - 1)
    {
      hide Width, Pow;
      ghost var w, i := Width(v, base, numDigits), 0;
      digit := 1;
      var left: int := numDigits;
      assert Pow(base, 0) == 1 && w > 0 by { PowSteps(base, 0); WidthPositive(v, base, numDigits); }
      while true
        invariant i < w && digit == Pow(base, i) && left == numDigits - i
        decreases w - i
      {
        DivisorTurn(v, base, numDigits, i, digit);
        var large, wanted := v / digit >= base, left > 1;
        left := left - 1;
        if !(large || wanted) {
          break;
        }
        digit := digit * base % U32_LIMIT;
        i := i + 1;
      }
    }

    /** The digit loop: writes the digits of `number` from the one `divisor` stands for on. */
    method StoreDigits(number: nat, base: nat, divisor: nat, ghost n: nat)
      requires Valid() && Ok()
      requires 1 < base <= 16 && n > 0 && divisor == Pow(base, n - 1) && number < Pow(base, n)
      modifies this, buffer, ring, ring.buffer
      ensures Valid() && (Ok() || cnt == buffer.Length)
      ensures Progress(old(text), text, Numeral(number, base, n), Ok())
    {
      hide Numeral, Pow, Staged;
      var digit: nat, v: nat := divisor, number;
      ghost var done: seq<byte>, k: nat := [], n;
      while digit > 0
        invariant Valid() && Ok() && k <= n
        invariant digit == if k > 0 then Pow(base, k - 1) else 0
        invariant v < Pow(base, k) && Numeral(number, base, n) == done + Numeral(v, base, k)
        invariant text == old(text) + done
        decreases k
      {
        var div := v / digit;
        NextDigit(v, base, k, digit, div, v - div * digit);
        v := v - div * digit;
        StoreChar(DigitChar(div));
        done := done + [DigitChar(div)];
        if !Ok() {
          return;
        }
        NextDivisor(base, k);
        digit := digit / base;
        k := k - 1;
      }
    }

    /** _PrintUnsigned. */
    method PrintUnsigned(v: nat, base: nat, numDigits: nat, fieldWidth: nat, flags: Flags)
      requires Valid() && Ok() && v < U32_LIMIT && Precise(base, numDigits)
      modifies this, buffer, ring, ring.buffer
      ensures Valid()
      ensures Progress(old(text), text, Format(v, base, numDigits, fieldWidth, [], flags), Ok())
    {
      hide Numeral, Pow, Repeat, DigitCount, Staged;
      var width := ActualWidth(v, base, numDigits);
      WidthCovers(v, base, numDigits);
      ghost var digits, pad := Numeral(v, base, width), Pad(fieldWidth, width);
      ghost var front := if flags.leftJustify then []
                         else Repeat(if flags.padZero && numDigits == 0 then ZERO else SPACE, pad);
      ghost var back := if flags.leftJustify then Repeat(SPACE, pad) else [];
      LayoutUnsigned(digits, numDigits, fieldWidth, flags, front, back);
      ghost var before := text;
      var left := fieldWidth;
      if !flags.leftJustify {
        var c := if flags.padZero && numDigits == 0 then ZERO else SPACE;
        left := PadField(c, width, left);
        if !Ok() {
          ProgressStops(before, text, front, digits + back);
          return;
        }
      }
      assert Progress(before, text, front, true) by {
        RepeatNone(SPACE);
        RepeatNone(ZERO);
      }
      ghost var middle := text;
      var digit := LeadingDivisor(v, base, numDigits);
      StoreDigits(v, base, digit, width);
      ghost var last, stored := text, Ok();
      if flags.leftJustify {
        left := PadField(SPACE, width, left);
      }
      if stored {
        assert Progress(last, text, back, Ok()) by {
          RepeatNone(SPACE);
        }
        ProgressThen(middle, last, text, digits, back, Ok());
      } else {
        ProgressStops(middle, text, digits, back);
      }
      ProgressThen(before, middle, text, front, digits + back, Ok());
    }

    /** One turn of the output loop of SEGGER_RTT_vprintf. */
    method Print(item: Item)
      requires Valid() && Ok() && Printable(item)
      modifies this, buffer, ring, ring.buffer
      ensures Valid()
      ensures Progress(old(text), text, ItemText(item), Ok())
    {
      hide Format, Staged;
      match item
      case Plain(c) => StoreChar(c);
      case Signed(v, precision, width, flags) => PrintInt(v, 10, precision, width, flags);
      case Unsigned(v, base, precision, width, flags) => PrintUnsigned(v, base, precision, width, flags);
      case Str(s) =>
        var j := 0;
        while j < |s| && returnValue >= 0
          invariant j <= |s| && Valid()
          invariant Progress(old(text), text, s[..j], true)
          invariant Ok() || (text <= old(text) + s)
        {
          StoreChar(s[j]);
          assert s[..j + 1] == s[..j] + [s[j]];
          assert old(text) + s[..j] + [s[j]] == old(text) + s[..j + 1];
          j := j + 1;
        }
        assert s[..|s|] == s;
    }

    /** The end of SEGGER_RTT_vprintf: what is still staged goes to the ring, if the ring has room. */
    method Finish() returns (result: int)
      requires Valid()
      modifies this`handed, ring, ring.buffer
      ensures ring.Valid() && ring.Stored() == start + handed && handed <= text
      ensures returnValue < 0 ==> result == -1
      ensures returnValue >= 0 ==>
                var rest := |text| % buffer.Length;
                result == |text| + rest && (|handed| == |text| || |handed| + rest == |text|)
    {
      WholeRest(|handed|, cnt, buffer.Length);
      hide Whole, Window;
      result := returnValue;
      if returnValue > 0 {
        if cnt != 0 {
          ghost var rest := buffer[..cnt];
          var written, _, _ := ring.Write(buffer[..cnt]);
          handed := handed + rest[..written];
        }
        result := result + cnt;
      }
    }

    /** The sign of _PrintInt. */
    method StoreSign(v: int, flags: Flags)
      requires Valid() && Ok()
      modifies this, buffer, ring, ring.buffer
      ensures Valid() && (Ok() || cnt == buffer.Length)
      ensures Progress(old(text), text, Sign(v, flags), Ok())
    {
      if v < 0 {
        StoreChar(MINUS);
      } else if flags.printSign {
        StoreChar(PLUS);
      }
    }

    /** _PrintInt, for every int but the least one, whose negation overflows. */
    method PrintInt(v: int, base: nat, numDigits: nat, fieldWidth: nat, flags: Flags)
      requires Valid() && Ok() && -0x8000_0000 < v < 0x8000_0000 && Precise(base, numDigits)
      modifies this, buffer, ring, ring.buffer
      ensures Valid()
      ensures Progress(old(text), text, Format(v, base, numDigits, fieldWidth, Sign(v, flags), flags), Ok())
    {
      hide Numeral, Pow, Repeat, DigitCount, Layout, Progress, Staged;
      RepeatNone(SPACE);
      RepeatNone(ZERO);
      ProgressNone(text);
      var number: nat := if v < 0 then -v else v;
      var width := ActualWidth(number, base, numDigits);
      WidthCovers(number, base, numDigits);
      var left := fieldWidth;
      if left > 0 && (v < 0 || flags.printSign) {
        left := left - 1;
      }
      ghost var before, sign, digits := text, Sign(v, flags), Numeral(number, base, width);
      ghost var pad := Pad(left, width);
      ghost var front := if !flags.leftJustify && !(flags.padZero && numDigits == 0) then Repeat(SPACE, pad) else [];
      ghost var zeros := if !flags.leftJustify && flags.padZero && numDigits == 0 then Repeat(ZERO, pad) else [];
      ghost var back := if flags.leftJustify then Repeat(SPACE, pad) else [];
      LayoutSigned(sign, digits, numDigits, fieldWidth, left, flags, front, zeros, back);

      if (!flags.padZero || numDigits != 0) && !flags.leftJustify {
        left := PadField(SPACE, width, left);
        if !Ok() {
          Fails(before, before, text, [], front, sign + zeros + (digits + back));
          return;
        }
      }
      ghost var t := text;
      StoreSign(v, flags);
      if !Ok() {
        Fails(before, t, text, front, sign, zeros + (digits + back));
        return;
      }
      ProgressThen(before, t, text, front, sign, true);
      t := text;
      ProgressNone(t);
      if flags.padZero && !flags.leftJustify && numDigits == 0 {
        left := PadField(ZERO, width, left);
        if !Ok() {
          Fails(before, t, text, front + sign, zeros, digits + back);
          return;
        }
      }
      ProgressThen(before, t, text, front + sign, zeros, true);
      t := text;
      LayoutRest(digits, numDigits, left, flags, back);
      PrintUnsigned(number, base, numDigits, left, flags);
      ProgressThen(before, t, text, front + sign + zeros, digits + back, Ok());
    }
  }

  /** One conversion of a format string, or one plain character (`%c` and `%%` too). `%p` is an
      unsigned conversion in base 16 with precision and width 8. */
  datatype Item =
    | Plain(c: byte)
    | Signed(i: int, precision: nat, width: nat, flags: Flags)
    | Unsigned(u: nat, base: nat, precision: nat, width: nat, flags: Flags)
    | Str(s: seq<byte>)

  predicate Printable(item: Item) {
    match item
    case Signed(i, precision, _, _) => -0x8000_0000 < i < 0x8000_0000 && Precise(10, precision)
    case Unsigned(u, base, precision, _, _) => u < U32_LIMIT && Precise(base, precision)
    case _ => true
  }

  function ItemText(item: Item): (t: seq<byte>)
    requires Printable(item)
  {
    match item
    case Plain(c) => [c]
    case Signed(i, precision, width, flags) => Format(i, 10, precision, width, Sign(i, flags), flags)
    case Unsigned(u, base, precision, width, flags) => Format(u, base, precision, width, [], flags)
    case Str(s) => s
  }

  predicate AllPrintable(items: seq<Item>) {
    forall i :: 0 <= i < |items| ==> Printable(items[i])
  }

  function FullText(items: seq<Item>): (t: seq<byte>)
    requires AllPrintable(items)
  {
    if items == [] then [] else FullText(items[..|items| - 1]) + ItemText(items[|items| - 1])
  }

  lemma {:induction false} FullTextPrefix(items: seq<Item>, k: nat)
    requires AllPrintable(items) && k <= |items|
    ensures FullText(items[..k]) <= FullText(items)
    decreases |items|
  {
    if k == |items| {
      assert items[..k] == items;
    } else {
      var init := items[..|items| - 1];
      FullTextPrefix(init, k);
      assert init[..k] == items[..k];
    }
  }

  /** The output loop and the final write of SEGGER_RTT_vprintf, for a ring in SKIP mode. Whatever
      the ring refuses, what it took is a first part of the full text. A result that is not
      negative is the length of the text plus, once more, the length of the final write, which is
      what exceeds whole buffers of 64; then all of the text was taken, or all but that. So the
      result is the number of bytes stored exactly if the text fills whole buffers. */
  method VPrintf(ring: Ring, items: seq<Item>) returns (result: int, ghost taken: seq<byte>)
    requires ring.Valid() && ring.mode == NoBlockSkip && AllPrintable(items)
    modifies ring, ring.buffer
    ensures ring.Valid() && ring.Stored() == old(ring.Stored()) + taken
    ensures taken <= FullText(items)
    ensures var n := |FullText(items)|;
            && (result == -1 || result == n + n % 64)
            && (n < 64 ==> result >= 0)
            && (result >= 0 ==> |taken| == n || |taken| + n % 64 == n)
            && (result >= 0 ==> (result == |taken| <==> n % 64 == 0))
  {
    hide ItemText, Format, Whole;
    var d := new Descriptor(ring, 64);
    var i := 0;
    ghost var full := FullText(items);
    while i < |items| && d.returnValue >= 0
      invariant 0 <= i <= |items| && d.ring == ring && fresh(d) && fresh(d.buffer)
      invariant d.start == old(ring.Stored()) && d.buffer.Length == 64
      invariant d.Valid()
      invariant if d.Ok() then d.text == FullText(items[..i]) else d.text <= full
      decreases |items| - i
    {
      d.Print(items[i]);
      FullTextPrefix(items, i + 1);
      assert items[..i + 1][..i] == items[..i];
      i := i + 1;
    }
    assert d.Ok() ==> items[..i] == items;
    result := d.Finish();
    taken := d.handed;
  }

  /** For instance, printing one character never fails, and returns two. */
  method PrintOneCharacter(ring: Ring, c: byte) returns (result: int, ghost taken: seq<byte>)
    requires ring.Valid() && ring.mode == NoBlockSkip
    modifies ring, ring.buffer
    ensures ring.Valid() && ring.Stored() == old(ring.Stored()) + taken
    ensures result == 2 && |taken| <= 1
  {
    assert FullText([Plain(c)]) == FullText([]) + [c] by {
      assert [Plain(c)][..0] == [];
    }
    result, taken := VPrintf(ring, [Plain(c)]);
  }

  lemma LayoutSigned(sign: seq<byte>, digits: seq<byte>, precision: nat, width: nat, left: nat, flags: Flags,
                     front: seq<byte>, zeros: seq<byte>, back: seq<byte>)
    requires |sign| <= 1 && digits != []
    requires left == if width > 0 then width - |sign| else 0
    requires var pad := Pad(left, |digits|);
             && front == (if !flags.leftJustify && !(flags.padZero && precision == 0) then Repeat(SPACE, pad) else [])
             && zeros == (if !flags.leftJustify && flags.padZero && precision == 0 then Repeat(ZERO, pad) else [])
             && back == (if flags.leftJustify then Repeat(SPACE, pad) else [])
    ensures Layout(sign, digits, precision, width, flags) == front + sign + zeros + (digits + back)
    ensures Layout(sign, digits, precision, width, flags) == [] + front + (sign + zeros + (digits + back))
    ensures Layout(sign, digits, precision, width, flags) == front + sign + (zeros + (digits + back))
  {
    hide Repeat;
    RepeatNone(SPACE);
    RepeatNone(ZERO);
    assert Pad(left, |digits|) == Pad(width, |sign| + |digits|);
  }

  /** What is left of the field width after the padding in front asks for none behind. */
  lemma LayoutRest(digits: seq<byte>, precision: nat, left: nat, flags: Flags, back: seq<byte>)
    requires back == if flags.leftJustify then Repeat(SPACE, Pad(left, |digits|)) else []
    requires !flags.leftJustify ==> Pad(left, |digits|) == 0
    ensures Layout([], digits, precision, left, flags) == digits + back
  {
  }

  lemma Fails(before: seq<byte>, mid: seq<byte>, after: seq<byte>, done: seq<byte>, f: seq<byte>, g: seq<byte>)
    requires Progress(before, mid, done, true) && Progress(mid, after, f, false)
    ensures Progress(before, after, done + f + g, false)
  {
    assert before + done + f + g == before + (done + f + g);
  }

  lemma RepeatNone(c: byte)
    ensures Repeat(c, 0) == []
  {
  }

  lemma LayoutUnsigned(digits: seq<byte>, precision: nat, width: nat, flags: Flags, front: seq<byte>, back: seq<byte>)
    requires var pad := Pad(width, |digits|);
             && front == (if flags.leftJustify then []
                          else Repeat(if flags.padZero && precision == 0 then ZERO else SPACE, pad))
             && back == (if flags.leftJustify then Repeat(SPACE, pad) else [])
    ensures Layout([], digits, precision, width, flags) == front + (digits + back)
  {
  }

  lemma NextDigit(v: nat, base: nat, k: nat, p: nat, digit: nat, rest: int)
    requires 1 < base <= 16 && k > 0 && v < Pow(base, k) && p == Pow(base, k - 1)
    requires digit == v / p && rest == v - digit * p
    ensures digit < 16 && 0 <= rest < p
    ensures Numeral(v, base, k) == [DigitChar(digit)] + Numeral(rest, base, k - 1)
  {
    hide Pow;
    LeadingDigit(v, base, k - 1);
    assert rest == v % p;
  }

  lemma RepeatMore(c: byte, n: nat, m: nat)
    requires n < m
    ensures Repeat(c, n) + [c] <= Repeat(c, m)
  {
  }

  lemma PowSteps(base: nat, i: nat)
    requires base > 0
    ensures Pow(base, 0) == 1 && Pow(base, i + 1) == base * Pow(base, i)
  {
  }

  lemma QuotientAbove(v: nat, base: nat, p: nat)
    requires base > 0 && p > 0
    ensures v / p >= base <==> v >= base * p
  {
    var q := v / p;
    assert v == q * p + v % p && (q + 1) * p == q * p + p;
    if q < base {
      Mono(q + 1, base, p);
    } else {
      Mono(base, q, p);
    }
  }

  lemma NextDivisor(base: nat, k: nat)
    requires base > 1 && k > 0
    ensures Pow(base, k - 1) / base == if k > 1 then Pow(base, k - 2) else 0
  {
    var p := Pow(base, k - 1);
    if k > 1 {
      var p' := Pow(base, k - 2);
      assert p == p' * base;
      QuotientAbove(p, p', base);
      QuotientAbove(p, p' + 1, base);
      assert (p' + 1) * base == p' * base + base;
    } else {
      QuotientAbove(1, 1, base);
    }
  }
}
