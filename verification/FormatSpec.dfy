/** What the integer conversions of SEGGER_RTT_printf.c are for: the text of a number in a field of
    a given width, and a reader that gets the number back from the text. */
module FormatSpec {
  import opened Arithmetic
  import opened Cyclic

  const SPACE: byte := 32
  const ZERO: byte := 48
  const PLUS: byte := 43
  const MINUS: byte := 45

  datatype Flags = Flags(leftJustify: bool, padZero: bool, printSign: bool)

  function Pow(base: nat, n: nat): (r: nat)
    requires base > 0
    ensures r > 0
  {
    if n == 0 then 1 else base * Pow(base, n - 1)
  }

  function DigitChar(d: nat): (c: byte)
    requires d < 16
    ensures IsDigit(c) && DigitValue(c) == d
  {
    if d < 10 then ZERO + d else 55 + d
  }

  predicate IsDigit(c: byte) { 48 <= c <= 57 || 65 <= c <= 70 }

  function DigitValue(c: byte): (d: nat)
    requires IsDigit(c)
  {
    if c <= 57 then c - 48 else c - 55
  }

  function Repeat(c: byte, n: nat): (r: seq<byte>)
    ensures |r| == n
    ensures forall i :: 0 <= i < n ==> r[i] == c
  {
    if n == 0 then [] else Repeat(c, n - 1) + [c]
  }

  function Max(a: nat, b: nat): (r: nat) { if a < b then b else a }

  /** How many digits a number needs. */
  function DigitCount(v: nat, base: nat): (n: nat)
    requires base > 1
    ensures n > 0
  {
    if v < base then 1
    else
      DivShrinks(v, base);
      1 + DigitCount(v / base, base)
  }

  lemma DivShrinks(v: nat, base: nat)
    requires 1 < base <= v
    ensures 0 < v / base < v
    ensures base * (v / base) <= v < base * (v / base + 1)
  {
    var q := v / base;
    assert v == base * q + v % base;
    Mono(2, base, q);
    assert base * (q + 1) == base * q + base;
  }

  /** The last `n` digits of a number, the most significant one first. */
  function Numeral(v: nat, base: nat, n: nat): (r: seq<byte>)
    requires 1 < base <= 16 && v < Pow(base, n)
    ensures |r| == n
    decreases n
  {
    if n == 0 then []
    else
      LeadingDigit(v, base, n - 1);
      [DigitChar(v / Pow(base, n - 1))] + Numeral(v % Pow(base, n - 1), base, n - 1)
  }

  lemma LeadingDigit(v: nat, base: nat, n: nat)
    requires base > 1 && v < Pow(base, n + 1)
    ensures v / Pow(base, n) < base
    ensures v % Pow(base, n) < Pow(base, n)
    ensures v == v / Pow(base, n) * Pow(base, n) + v % Pow(base, n)
  {
    var p := Pow(base, n);
    assert v < base * p;
    hide Pow;
    DivBelow(v, base, p);
    assert v == v / p * p + v % p;
  }

  lemma DivBelow(v: nat, base: nat, p: nat)
    requires p > 0 && v < base * p
    ensures v / p < base
  {
    if v / p >= base {
      Mono(base, v / p, p);
    }
  }

  function Width(v: nat, base: nat, precision: nat): (w: nat)
    requires base > 1
  {
    Max(DigitCount(v, base), precision)
  }

  function Sign(v: int, flags: Flags): (s: seq<byte>) {
    if v < 0 then [MINUS] else if flags.printSign then [PLUS] else []
  }

  function Pad(width: nat, used: nat): (n: nat) { if used < width then width - used else 0 }

  /** The sign, the digits, and the padding that fills the field: behind, as zeros between sign and
      digits, or in front. */
  function Layout(sign: seq<byte>, digits: seq<byte>, precision: nat, width: nat, flags: Flags): (t: seq<byte>)
  {
    var pad := Pad(width, |sign| + |digits|);
    if flags.leftJustify then sign + digits + Repeat(SPACE, pad)
    else if flags.padZero && precision == 0 then sign + Repeat(ZERO, pad) + digits
    else Repeat(SPACE, pad) + sign + digits
  }

  function Format(v: int, base: nat, precision: nat, width: nat, sign: seq<byte>, flags: Flags): (t: seq<byte>)
    requires 1 < base <= 16
  {
    var n := if v < 0 then -v else v;
    WidthCovers(n, base, precision);
    Layout(sign, Numeral(n, base, Width(n, base, precision)), precision, width, flags)
  }

  /** A number has fewer than base^DigitCount values below it, and more than base^(DigitCount-1). */
  lemma {:induction false} DigitCountCovers(v: nat, base: nat)
    requires base > 1
    ensures v < Pow(base, DigitCount(v, base))
    ensures v > 0 ==> Pow(base, DigitCount(v, base) - 1) <= v
  {
    if v < base {
      assert Pow(base, 1) == base * Pow(base, 0);
    } else {
      var q := v / base;
      DivShrinks(v, base);
      DigitCountCovers(q, base);
      var k := DigitCount(q, base);
      assert DigitCount(v, base) == k + 1;
      assert Pow(base, k + 1) == base * Pow(base, k) && Pow(base, k) == base * Pow(base, k - 1);
      Mono(q + 1, Pow(base, k), base);
      Mono(Pow(base, k - 1), q, base);
    }
  }

  lemma {:induction false} PowMono(base: nat, a: nat, b: nat)
    requires base > 1 && a <= b
    ensures Pow(base, a) <= Pow(base, b)
    decreases b
  {
    if a < b {
      PowMono(base, a, b - 1);
      Mono(1, base, Pow(base, b - 1));
    }
  }

  lemma WidthCovers(v: nat, base: nat, precision: nat)
    requires base > 1
    ensures v < Pow(base, Width(v, base, precision))
  {
    DigitCountCovers(v, base);
    PowMono(base, DigitCount(v, base), Width(v, base, precision));
  }

  // ----- reading it back -----

  function SkipSpaces(t: seq<byte>): (r: seq<byte>) {
    if t != [] && t[0] == SPACE then SkipSpaces(t[1..]) else t
  }

  function DigitRun(t: seq<byte>): (r: seq<byte>)
    ensures forall i :: 0 <= i < |r| ==> IsDigit(r[i])
  {
    if t != [] && IsDigit(t[0]) then [t[0]] + DigitRun(t[1..]) else []
  }

  /** The positional value of a run of digits. */
  function Value(digits: seq<byte>, base: nat): (v: nat)
    requires base > 0 && forall i :: 0 <= i < |digits| ==> IsDigit(digits[i])
  {
    if digits == [] then 0
    else DigitValue(digits[0]) * Pow(base, |digits| - 1) + Value(digits[1..], base)
  }

  /** Reads a number: spaces, an optional sign, digits; whatever follows is ignored. */
  function Parse(t: seq<byte>, base: nat): (v: int)
    requires base > 0
  {
    var u := SkipSpaces(t);
    if u != [] && u[0] == MINUS then 0 - Value(DigitRun(u[1..]), base)
    else if u != [] && u[0] == PLUS then Value(DigitRun(u[1..]), base)
    else Value(DigitRun(u), base)
  }

  lemma {:induction false} NumeralIsDigits(v: nat, base: nat, n: nat)
    requires 1 < base <= 16 && v < Pow(base, n)
    ensures forall i :: 0 <= i < n ==> IsDigit(Numeral(v, base, n)[i])
    ensures Value(Numeral(v, base, n), base) == v
    decreases n
  {
    if n > 0 {
      LeadingDigit(v, base, n - 1);
      NumeralIsDigits(v % Pow(base, n - 1), base, n - 1);
    }
  }

  lemma {:induction false} LeadingZeros(k: nat, digits: seq<byte>, base: nat)
    requires base > 0 && forall i :: 0 <= i < |digits| ==> IsDigit(digits[i])
    ensures forall i :: 0 <= i < |Repeat(ZERO, k) + digits| ==> IsDigit((Repeat(ZERO, k) + digits)[i])
    ensures Value(Repeat(ZERO, k) + digits, base) == Value(digits, base)
    decreases k
  {
    if k == 0 {
      assert Repeat(ZERO, 0) + digits == digits;
    } else {
      LeadingZeros(k - 1, digits, base);
      var t := Repeat(ZERO, k) + digits;
      assert t[1..] == Repeat(ZERO, k - 1) + digits;
      assert t[0] == ZERO;
    }
  }

  lemma {:induction false} SkipsSpaces(k: nat, t: seq<byte>)
    requires t == [] || t[0] != SPACE
    ensures SkipSpaces(Repeat(SPACE, k) + t) == t
    decreases k
  {
    if k == 0 {
      assert Repeat(SPACE, 0) + t == t;
    } else {
      var u := Repeat(SPACE, k) + t;
      assert u[1..] == Repeat(SPACE, k - 1) + t;
      SkipsSpaces(k - 1, t);
    }
  }

  lemma {:induction false} TakesDigits(digits: seq<byte>, rest: seq<byte>)
    requires forall i :: 0 <= i < |digits| ==> IsDigit(digits[i])
    requires rest == [] || !IsDigit(rest[0])
    ensures DigitRun(digits + rest) == digits
    decreases |digits|
  {
    if digits == [] {
      assert digits + rest == rest;
    } else {
      assert (digits + rest)[1..] == digits[1..] + rest;
      TakesDigits(digits[1..], rest);
    }
  }

  lemma ParseParts(pad: nat, sign: seq<byte>, digits: seq<byte>, behind: nat, base: nat)
    requires base > 0 && digits != [] && forall i :: 0 <= i < |digits| ==> IsDigit(digits[i])
    requires sign == [] || sign == [PLUS] || sign == [MINUS]
    ensures Parse(Repeat(SPACE, pad) + sign + digits + Repeat(SPACE, behind), base) ==
            if sign == [MINUS] then 0 - Value(digits, base) else Value(digits, base)
  {
    hide Repeat, Value, SkipSpaces, DigitRun;
    var rest := digits + Repeat(SPACE, behind);
    var t := sign + rest;
    assert Repeat(SPACE, pad) + sign + digits + Repeat(SPACE, behind) == Repeat(SPACE, pad) + t;
    SkipsSpaces(pad, t);
    TakesDigits(digits, Repeat(SPACE, behind));
    assert sign == [] ==> t == rest;
    assert sign != [] ==> t[1..] == rest;
  }

  /** However the field is padded, the text reads back as the digits with their sign, and fills
      the field. */
  lemma LayoutParses(sign: seq<byte>, digits: seq<byte>, precision: nat, width: nat, flags: Flags, base: nat)
    requires base > 0 && digits != [] && forall i :: 0 <= i < |digits| ==> IsDigit(digits[i])
    requires sign == [] || sign == [PLUS] || sign == [MINUS]
    ensures var t := Layout(sign, digits, precision, width, flags);
            && Parse(t, base) == (if sign == [MINUS] then 0 - Value(digits, base) else Value(digits, base))
            && |t| == Max(width, |sign| + |digits|)
  {
    hide Parse, Value, Repeat;
    var pad := Pad(width, |sign| + |digits|);
    var t := Layout(sign, digits, precision, width, flags);
    if flags.leftJustify {
      ParseParts(0, sign, digits, pad, base);
      assert t == Repeat(SPACE, 0) + sign + digits + Repeat(SPACE, pad);
    } else if flags.padZero && precision == 0 {
      LeadingZeros(pad, digits, base);
      ParseParts(0, sign, Repeat(ZERO, pad) + digits, 0, base);
      assert t == Repeat(SPACE, 0) + sign + (Repeat(ZERO, pad) + digits) + Repeat(SPACE, 0);
    } else {
      ParseParts(pad, sign, digits, 0, base);
      assert t == Repeat(SPACE, pad) + sign + digits + Repeat(SPACE, 0);
    }
  }

  /** Round trip and exact width, for every number, precision, field width and flag combination:
      the text reads back as the number and is as wide as the field, or as the number needs. */
  lemma FormatRoundTrip(v: int, base: nat, precision: nat, width: nat, flags: Flags)
    requires 1 < base <= 16
    ensures var t := Format(v, base, precision, width, Sign(v, flags), flags);
            var n := if v < 0 then -v else v;
            && Parse(t, base) == v
            && |t| == Max(width, |Sign(v, flags)| + Max(precision, DigitCount(n, base)))
  {
    hide Pow, Numeral, DigitCount, Parse, Value, Layout;
    var n := if v < 0 then -v else v;
    var w := Width(n, base, precision);
    WidthCovers(n, base, precision);
    NumeralIsDigits(n, base, w);
    LayoutParses(Sign(v, flags), Numeral(n, base, w), precision, width, flags, base);
  }

  // ----- what the flags do -----

  /** The characters of the digits. */
  lemma Alphabet(d: nat)
    requires d < 16
    ensures DigitChar(d) == "0123456789ABCDEF"[d] as int
  {
  }

  function CountDigits(t: seq<byte>): (n: nat) {
    if t == [] then 0 else CountDigits(t[..|t| - 1]) + if IsDigit(t[|t| - 1]) then 1 else 0
  }

  lemma {:induction false} CountConcat(a: seq<byte>, b: seq<byte>)
    ensures CountDigits(a + b) == CountDigits(a) + CountDigits(b)
    decreases |b|
  {
    if b == [] {
      assert a + b == a;
    } else {
      CountConcat(a, b[..|b| - 1]);
      assert (a + b)[..|a + b| - 1] == a + b[..|b| - 1];
    }
  }

  lemma {:induction false} CountAll(t: seq<byte>)
    requires forall i :: 0 <= i < |t| ==> IsDigit(t[i])
    ensures CountDigits(t) == |t|
  {
    if t != [] {
      CountAll(t[..|t| - 1]);
    }
  }

  lemma {:induction false} CountNone(t: seq<byte>)
    requires forall i :: 0 <= i < |t| ==> !IsDigit(t[i])
    ensures CountDigits(t) == 0
  {
    if t != [] {
      CountNone(t[..|t| - 1]);
    }
  }

  /** Spaces, a sign or none, digits, spaces: what a reader sees of a formatted number. */
  ghost predicate Shaped(t: seq<byte>, front: nat, sign: seq<byte>, digits: seq<byte>, back: nat) {
    && t == Repeat(SPACE, front) + sign + digits + Repeat(SPACE, back)
    && (sign == [] || sign == [MINUS] || sign == [PLUS])
    && digits != [] && forall i :: 0 <= i < |digits| ==> IsDigit(digits[i])
  }

  /** Where the parts of such a text are. */
  lemma ShapedAt(t: seq<byte>, front: nat, sign: seq<byte>, digits: seq<byte>, back: nat)
    requires Shaped(t, front, sign, digits, back)
    ensures |t| == front + |sign| + |digits| + back && CountDigits(t) == |digits|
    ensures forall i :: 0 <= i < front ==> t[i] == SPACE
    ensures sign != [] ==> t[front] == sign[0]
    ensures forall i :: front + |sign| <= i < front + |sign| + |digits| ==> IsDigit(t[i])
    ensures forall i :: front + |sign| + |digits| <= i < |t| ==> t[i] == SPACE
  {
    hide Repeat, CountDigits;
    CountNone(Repeat(SPACE, front));
    CountNone(sign);
    CountAll(digits);
    CountNone(Repeat(SPACE, back));
    CountConcat(Repeat(SPACE, front), sign);
    CountConcat(Repeat(SPACE, front) + sign, digits);
    CountConcat(Repeat(SPACE, front) + sign + digits, Repeat(SPACE, back));
  }

  /** The shape of every layout: where the padding is, and how many digits there are. */
  lemma LayoutIsShaped(sign: seq<byte>, digits: seq<byte>, precision: nat, width: nat, flags: Flags)
    returns (front: nat, shown: seq<byte>, back: nat)
    requires digits != [] && forall i :: 0 <= i < |digits| ==> IsDigit(digits[i])
    requires sign == [] || sign == [PLUS] || sign == [MINUS]
    ensures Shaped(Layout(sign, digits, precision, width, flags), front, sign, shown, back)
    ensures front + |sign| + |shown| + back == Max(width, |sign| + |digits|)
    ensures flags.leftJustify ==> front == 0
    ensures !flags.leftJustify ==> back == 0
    ensures !flags.leftJustify && flags.padZero && precision == 0 ==> front == 0
    ensures flags.leftJustify || !flags.padZero || precision != 0 ==> shown == digits
  {
    var pad := Pad(width, |sign| + |digits|);
    var t := Layout(sign, digits, precision, width, flags);
    assert Repeat(SPACE, 0) == [];
    hide Repeat;
    front, shown, back := 0, digits, 0;
    if flags.leftJustify {
      back := pad;
      assert t == [] + sign + shown + Repeat(SPACE, back);
    } else if flags.padZero && precision == 0 {
      shown := Repeat(ZERO, pad) + digits;
      assert t == [] + sign + shown + [];
    } else {
      front := pad;
      assert t == Repeat(SPACE, front) + sign + shown + [];
    }
  }

  lemma ShownDigits(t: seq<byte>, front: nat, sign: seq<byte>, digits: seq<byte>, back: nat)
    requires Shaped(t, front, sign, digits, back)
    ensures digits != [] && |t| == front + |sign| + |digits| + back
    ensures forall i :: 0 <= i < |t| ==>
              if i < front || i >= front + |sign| + |digits| then t[i] == SPACE
              else if i < front + |sign| then t[i] == sign[0]
              else IsDigit(t[i])
  {
    hide CountDigits, Repeat;
    ShapedAt(t, front, sign, digits, back);
  }

  /** The text of a layout, in terms of its characters alone. */
  lemma LayoutText(sign: seq<byte>, digits: seq<byte>, precision: nat, width: nat, flags: Flags)
    requires digits != [] && forall i :: 0 <= i < |digits| ==> IsDigit(digits[i])
    requires sign == [] || sign == [PLUS] || sign == [MINUS]
    ensures var t := Layout(sign, digits, precision, width, flags);
            && |t| == Max(width, |sign| + |digits|)
            && ('-' as int in t <==> sign == [MINUS]) && ('+' as int in t <==> sign == [PLUS])
            && (forall i, j :: 0 <= i < |t| && 0 <= j < |t| && t[i] in {'-' as int, '+' as int} && i != j ==>
                  t[j] !in {'-' as int, '+' as int} && (IsDigit(t[j]) ==> i < j))
            && (flags.leftJustify ==> t[0] != ' ' as int)
            && (!flags.leftJustify ==> IsDigit(t[|t| - 1]))
            && (if flags.padZero && precision == 0 && !flags.leftJustify then ' ' as int !in t
                else CountDigits(t) == |digits|)
  {
    hide Layout, Shaped, CountDigits, Repeat;
    var front, shown, back := LayoutIsShaped(sign, digits, precision, width, flags);
    var t := Layout(sign, digits, precision, width, flags);
    ShapedAt(t, front, sign, shown, back);
    ShownDigits(t, front, sign, shown, back);
    if sign != [] {
      assert t[front] == sign[0];
    }
  }

  /** What the flags do to the text of a number, whatever the number, precision and field width.
      A minus stands before the digits of a negative number, a plus before those of any other exactly
      if the flag asks for it, and nowhere else. The field is filled: behind if it is left-justified,
      with zeros if the flag asks for them and there is no precision, and else in front. */
  lemma FlagsDecideText(v: int, base: nat, precision: nat, width: nat, flags: Flags)
    requires 1 < base <= 16
    ensures var t := Format(v, base, precision, width, Sign(v, flags), flags);
            var n := Max(precision, DigitCount(if v < 0 then -v else v, base));
            var signed := if v < 0 || flags.printSign then 1 else 0;
            && |t| == Max(width, signed + n)
            && ('-' as int in t <==> v < 0) && ('+' as int in t <==> v >= 0 && flags.printSign)
            && (forall i, j :: 0 <= i < |t| && 0 <= j < |t| && t[i] in {'-' as int, '+' as int} && i != j ==>
                  t[j] !in {'-' as int, '+' as int} && (IsDigit(t[j]) ==> i < j))
            && (flags.leftJustify ==> t[0] != ' ' as int)
            && (!flags.leftJustify ==> IsDigit(t[|t| - 1]))
            && (if flags.padZero && precision == 0 && !flags.leftJustify then ' ' as int !in t
                else CountDigits(t) == n)
  {
    hide Pow, Numeral, DigitCount, Layout, CountDigits;
    var m := if v < 0 then -v else v;
    var w := Width(m, base, precision);
    WidthCovers(m, base, precision);
    NumeralIsDigits(m, base, w);
    LayoutText(Sign(v, flags), Numeral(m, base, w), precision, width, flags);
  }

  /** An unsigned conversion has no sign at all. */
  lemma FlagsDecideUnsigned(v: nat, base: nat, precision: nat, width: nat, flags: Flags)
    requires 1 < base <= 16
    ensures var t := Format(v, base, precision, width, [], flags);
            var n := Max(precision, DigitCount(v, base));
            && |t| == Max(width, n) && '-' as int !in t && '+' as int !in t
            && (flags.leftJustify ==> t[0] != ' ' as int)
            && (!flags.leftJustify ==> IsDigit(t[|t| - 1]))
            && (if flags.padZero && precision == 0 && !flags.leftJustify then ' ' as int !in t
                else CountDigits(t) == n)
  {
    hide Pow, Numeral, DigitCount, Layout, CountDigits;
    var w := Width(v, base, precision);
    WidthCovers(v, base, precision);
    NumeralIsDigits(v, base, w);
    LayoutText([], Numeral(v, base, w), precision, width, flags);
  }
}
