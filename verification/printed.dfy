/**
 * What a directive prints, said without the printer: numerals by their figures and places, arguments by the
 * C values they pass, columns by their characters (lib/common/vsnprintf.cpp, _format).
 */
module PrintedText {
  import opened Machine
  import opened Powers
  import opened Digits
  import opened Fields
  import opened Directives
  import opened Spellings

  // ---- Numerals ----

  const LOWER := "0123456789abcdef"
  const UPPER := "0123456789ABCDEF"

  /** The number with these figures, highest place first. */
  function Positional(ks: seq<nat>, base: nat): nat {
    if ks == [] then 0 else Positional(ks[..|ks| - 1], base) * base + ks[|ks| - 1]
  }

  /** Text `ds` writes the figures `ks`. */
  ghost predicate Figured(ds: string, ks: seq<nat>, base: nat, figures: string)
    requires base <= |figures|
  {
    |ds| == |ks| && forall i :: 0 <= i < |ks| ==> ks[i] < base && ds[i] == figures[ks[i]]
  }

  /** `ds` is the numeral of `v`: at least one figure, and no leading zero unless it is "0" itself. */
  ghost predicate IsNumeral(ds: string, base: nat, figures: string, v: nat)
    requires base <= |figures|
  {
    exists ks :: Figured(ds, ks, base, figures) && Positional(ks, base) == v && ks != [] && (ks[0] == 0 ==> |ks| == 1)
  }

  lemma PositionalNext(ks: seq<nat>, k: nat, base: nat)
    ensures Positional(ks + [k], base) == Positional(ks, base) * base + k
  {
    assert (ks + [k])[..|ks|] == ks;
  }

  lemma FigureIs(d: nat, upper: bool)
    requires d < 16
    ensures DigitChar(d, upper) == (if upper then UPPER else LOWER)[d]
  {}

  lemma DigitsReversed(value: nat, base: nat, upper: bool, room: nat)
    requires 2 <= base <= 16 && room > 0
    ensures Reverse(DigitsOf(value, base, upper, room))
         == (if value / base == 0 then "" else Reverse(DigitsOf(value / base, base, upper, room - 1)))
            + [DigitChar(value % base, upper)]
  {
    hide DigitsOf, Reverse, DigitChar;
    var c := DigitChar(value % base, upper);
    DigitsUnfold(value, base, upper, room);
    ReverseSign([c]);
    if value / base != 0 {
      ReverseAppend([c], DigitsOf(value / base, base, upper, room - 1));
    } else {
      assert [c] + "" == [c] && "" + [c] == [c];
    }
  }

  /** The digits the printer stores, highest first, are the numeral. */
  lemma {:induction false} DigitsFigured(value: nat, base: nat, upper: bool, room: nat) returns (ks: seq<nat>)
    requires 2 <= base <= 16 && room > 0 && value < Pow(base, room)
    ensures Figured(Reverse(DigitsOf(value, base, upper, room)), ks, base, if upper then UPPER else LOWER)
    ensures Positional(ks, base) == value && ks != [] && (ks[0] == 0 <==> value == 0) && (value == 0 ==> |ks| == 1)
    decreases room
  {
    hide DigitsOf, Pow, DigitChar, Positional, Reverse, Figured;
    var low, rest, figures := value % base, value / base, if upper then UPPER else LOWER;
    OneDigitLess(value, base, room);
    DigitsReversed(value, base, upper, room);
    FigureIs(low, upper);
    var more, ds := [], "";
    if rest == 0 {
      NoneFigured(base, figures);
    } else {
      more := DigitsFigured(rest, base, upper, room - 1);
      ds := Reverse(DigitsOf(rest, base, upper, room - 1));
    }
    ks := more + [low];
    OneMoreFigured(ds, more, DigitChar(low, upper), low, base, figures);
    PositionalNext(more, low, base);
    Recombined(value, base);
  }

  lemma NoneFigured(base: nat, figures: string)
    requires base <= |figures|
    ensures Figured("", [], base, figures) && Positional([], base) == 0
  {}

  lemma Recombined(value: nat, base: nat)
    requires base > 0
    ensures value / base * base + value % base == value
  {}

  lemma PositionalNone(base: nat)
    ensures Positional([], base) == 0
  {}

  lemma OneMoreFigured(ds: string, ks: seq<nat>, c: char, k: nat, base: nat, figures: string)
    requires base <= |figures| && Figured(ds, ks, base, figures) && k < base && c == figures[k]
    ensures Figured(ds + [c], ks + [k], base, figures)
  {}

  /** Every 64-bit value in base 8, 10 or 16, and every 32-bit value in base 2, is shown by its numeral. */
  lemma NumeralShown(value: nat, base: nat, upper: bool)
    requires base in {2, 8, 10, 16} && value < if base == 2 then TWO32 else TWO64
    ensures IsNumeral(Reverse(DigitsOf(value, base, upper, BUFFER)), base, if upper then UPPER else LOWER, value)
  {
    hide Pow, DigitsOf, Reverse, Positional, Figured;
    PowerValues();
    var ks := DigitsFigured(value, base, upper, BUFFER);
  }

  // ---- The C values arguments pass ----

  /** The number of values of the C type that a length modifier names. */
  function Modulus(length: string): nat {
    if length == "hh" then 0x100 else if length == "h" then 0x1_0000 else if length == "" then TWO32 else TWO64
  }

  /** The argument `bits` passes the integer `v` of a type with that many values, in two's complement. */
  ghost predicate Passes(bits: nat, v: int, modulus: nat, signed: bool)
    requires modulus > 0
  {
    (bits - v) % modulus == 0 && if signed then -(modulus as int) <= 2 * v < modulus else 0 <= v < modulus
  }

  lemma PassedRemainder(bits: nat, v: int, modulus: nat, signed: bool)
    requires modulus > 0 && Passes(bits, v, modulus, signed)
    ensures bits % modulus == if v < 0 then v + modulus else v
  {
    var q := (bits - v) / modulus;
    assert bits == modulus * q + v;
    var r, k := if v < 0 then v + modulus else v, if v < 0 then q - 1 else q;
    assert bits == modulus * k + r;
    if k < 0 {
      MultiplesApart(modulus, k);
      assert false;
    }
    ModUnique(bits, modulus, k, r);
  }

  lemma SignedPassed(bits: nat, v: int, modulus: nat)
    requires modulus > 0 && Passes(bits, v, modulus, true)
    ensures AsSigned(bits % modulus, modulus) == v
  {
    PassedRemainder(bits, v, modulus, true);
  }

  // ---- What a directive is given ----

  /** Number `n` of a directive is `v`; a star takes it from the arguments, of which `rest` are left. */
  ghost predicate Gives(n: Number, v: int, args: seq<Arg>, rest: seq<Arg>) {
    match n
    case Absent => v == 0 && rest == args
    case Figures(ds) => rest == args && exists ks :: Figured(ds, ks, 10, LOWER) && v == Positional(ks, 10) % TWO32
    case Star => args != [] && args[0].Num? && Passes(args[0].bits, v, TWO32, true) && rest == args[1..]
  }

  /** The directive has width `w`, precision `p`, and `rest` for its conversion. */
  ghost predicate Given(sp: Spelling, args: seq<Arg>, w: int, p: int, rest: seq<Arg>) {
    exists mid :: Gives(sp.width, w, args, mid)
                  && if sp.precision.Some? then Gives(sp.precision.value, p, mid, rest) else p == 0 && rest == mid
  }

  lemma {:induction false} DecimalPlaces(ds: string, ks: seq<nat>)
    requires Figured(ds, ks, 10, LOWER)
    ensures Decimal(ds) == Positional(ks, 10)
    decreases |ds|
  {
    hide Decimal, Positional;
    if ds == "" {
      DecimalEmpty();
      PositionalNone(10);
    } else {
      var n := |ds| - 1;
      assert ds == ds[..n] + [ds[n]] && ks == ks[..n] + [ks[n]];
      DecimalPlaces(ds[..n], ks[..n]);
      DecimalNext(ds[..n], ds[n]);
      PositionalNext(ks[..n], ks[n], 10);
      FigureIs(ks[n], false);
      DigitRoundTrip(ks[n], false);
    }
  }

  lemma NumberGiven(n: Number, v: int, args: seq<Arg>, rest: seq<Arg>)
    requires Gives(n, v, args, rest)
    ensures NumberValue(n, args) == Some((v, rest))
  {
    hide Decimal, Positional, Figured, Passes;
    match n
    case Absent =>
    case Figures(ds) =>
      var ks :| Figured(ds, ks, 10, LOWER) && v == Positional(ks, 10) % TWO32;
      DecimalPlaces(ds, ks);
    case Star =>
      SignedPassed(args[0].bits, v, TWO32);
  }

  /** The settings a directive works with. */
  lemma MeaningGiven(sp: Spelling, args: seq<Arg>, w: int, p: int, rest: seq<Arg>)
    requires Given(sp, args, w, p, rest)
    ensures Meaning(sp, "", args)
         == Some(Spec(Settings(sp, w), Magnitude(w), if p > 0 then p else 0, [sp.conv] + "", rest))
  {
    hide Gives, NumberValue;
    var mid :| Gives(sp.width, w, args, mid)
               && if sp.precision.Some? then Gives(sp.precision.value, p, mid, rest) else p == 0 && rest == mid;
    NumberGiven(sp.width, w, args, mid);
    if sp.precision.Some? {
      NumberGiven(sp.precision.value, p, mid, rest);
    }
  }

  /** A directive as C writes it: flags, width, precision and length modifier in front of a conversion character. */
  ghost predicate Ordinary(sp: Spelling) {
    && (forall c <- sp.flags :: c in "0-+ #")
    && (sp.width.Figures? ==> InFigures(sp.width.digits) && sp.width.digits[0] != '0')
    && (sp.precision.Some? && sp.precision.value.Figures? ==> InFigures(sp.precision.value.digits))
    && sp.length in {"", "l", "ll", "h", "hh", "j", "z"} && sp.conv in "diuxXobcsp%"
  }

  predicate InFigures(s: string) {
    s != "" && forall c <- s :: c in "0123456789"
  }

  lemma OrdinaryWellformed(sp: Spelling)
    requires Ordinary(sp)
    ensures Wellformed(sp)
  {
    hide FlagChar, IsDigit, LengthChar, InFigures;
    forall c | c in sp.flags ensures FlagChar(c) {
      OrdinaryFlag(c);
    }
    if sp.width.Figures? {
      OrdinaryFigures(sp.width.digits);
    }
    if sp.precision.Some? && sp.precision.value.Figures? {
      OrdinaryFigures(sp.precision.value.digits);
    }
    OrdinaryConversion(sp.conv);
  }

  lemma OrdinaryFlag(c: char)
    requires c in "0-+ #"
    ensures FlagChar(c)
  {}

  lemma OrdinaryFigures(s: string)
    requires InFigures(s)
    ensures s != "" && forall c <- s :: IsDigit(c)
  {}

  lemma OrdinaryConversion(c: char)
    requires c in "diuxXobcsp%"
    ensures !FlagChar(c) && !IsDigit(c) && !LengthChar(c) && c != '*' && c != '.' && c != 'l' && c != 'h'
  {}

  // ---- Columns ----

  /** The field is left-justified. */
  predicate ToTheLeft(sp: Spelling, w: int) {
    '-' in sp.flags || w < 0
  }

  function Abs(v: int): nat {
    if v < 0 then -v else v
  }

  /**
   * A number in its columns: sign, zeros and figures, with blanks on one side. The printer's buffer has 32
   * places: a zero-padded field wider than that, or a precision of 32 or more, loses the sign.
   */
  function Line(sign: string, left: bool, zero: bool, width: nat, prec: nat, ds: string): string {
    if left then sign + ds + Repeat(' ', width - |sign| - |ds|)
    else if zero then (if width <= 32 then sign else "") + Repeat('0', width - |sign| - |ds|) + ds
    else
      var zeros := Max(Min(prec, 32) - |ds|, 0);
      var kept := if prec < 32 then sign else "";
      Repeat(' ', width - |kept| - zeros - |ds|) + kept + Repeat('0', zeros) + ds
  }

  /** A field without '#' is such a line. */
  lemma FieldLine(digits: string, negative: bool, base: nat, prec: nat, width: nat, flags: Flags)
    requires |digits| <= BUFFER && !flags.hash && (|digits| < BUFFER || !Signed(negative, flags))
    requires flags.zeroPad ==> prec == 0
    ensures Field(digits, negative, base, prec, width, flags)
         == Line(Sign(negative, flags), flags.padLeft, flags.zeroPad, width, prec, Reverse(digits))
  {
    hide Field, Reverse, Repeat, Columns, Line, ZeroCount, ZeroWidth, Sign, Signed;
    var f, sign, inner := Field(digits, negative, base, prec, width, flags), Sign(negative, flags), ZeroWidth(negative, width, flags);
    SignIsShort(negative, flags);
    var zeros := ZeroCount(|digits|, prec, inner, flags);
    ZerosCounted(|digits|, prec, inner, flags);
    var kept := if |digits| + zeros < BUFFER then sign else "";
    var gap := inner - |digits| - zeros - |kept|;
    LineCounts(|digits|, negative, prec, width, flags, sign, inner, zeros, kept);
    FieldColumns(digits, negative, base, prec, width, flags, inner, zeros, kept, gap, f);
    if flags.padLeft {
      LeftLine(f, kept, sign, true, flags.zeroPad, width, prec, digits, zeros, gap);
    } else if flags.zeroPad {
      ZeroLine(f, kept, sign, false, true, width, prec, digits, zeros, gap);
    } else {
      BlankLine(f, kept, sign, false, false, width, prec, digits, zeros, gap);
    }
  }

  lemma SignIsShort(negative: bool, flags: Flags)
    ensures |Sign(negative, flags)| <= 1
  {}

  lemma ZerosCounted(n: nat, prec: nat, inner: nat, flags: Flags)
    requires n <= BUFFER
    ensures ZeroCount(n, prec, inner, flags) >= 0
  {}

  lemma FieldColumns(digits: string, negative: bool, base: nat, prec: nat, width: nat, flags: Flags,
                     inner: nat, zeros: nat, kept: string, gap: int, f: string)
    requires |digits| <= BUFFER && !flags.hash && |Sign(negative, flags)| <= 1
    requires inner == ZeroWidth(negative, width, flags) && zeros == ZeroCount(|digits|, prec, inner, flags)
    requires kept == if |digits| + zeros < BUFFER then Sign(negative, flags) else ""
    requires gap == inner - |digits| - zeros - |kept| && f == Field(digits, negative, base, prec, width, flags)
    ensures flags.padLeft ==> f == Columns(0, kept, zeros, digits, gap)
    ensures !flags.padLeft && flags.zeroPad && gap > 0 ==> f == Repeat('0', gap) + kept + Repeat('0', zeros) + Reverse(digits)
    ensures !flags.padLeft && !(flags.zeroPad && gap > 0) ==> f == Columns(gap, kept, zeros, digits, 0)
  {
    hide Stored, Reverse, Repeat, Columns, Justified, ZeroCount, ZeroWidth, Sign;
    StoredWithoutPrefix(digits, negative, base, prec, width, flags);
    ReverseSign(kept);
    assert Stored(digits, negative, base, prec, width, flags) == digits + Repeat('0', zeros) + Reverse(kept);
    JustifiedColumns(digits, zeros, kept, inner, flags);
  }

  /** How the counts of the code come out. */
  lemma LineCounts(n: nat, negative: bool, prec: nat, width: nat, flags: Flags, sign: string, inner: nat, zeros: nat, kept: string)
    requires n <= BUFFER && (n < BUFFER || !Signed(negative, flags)) && (flags.zeroPad ==> prec == 0)
    requires sign == Sign(negative, flags) && inner == ZeroWidth(negative, width, flags)
    requires zeros == ZeroCount(n, prec, inner, flags) && kept == if n + zeros < BUFFER then sign else ""
    ensures flags.padLeft ==> zeros == 0 && kept == sign && inner == width
    ensures !flags.padLeft && flags.zeroPad ==>
              && kept == (if width <= 32 then sign else "")
              && (if n + zeros + |kept| < inner then kept == "" && inner == width - |sign|
                  else zeros == Max(width - |sign| - n, 0))
    ensures !flags.padLeft && !flags.zeroPad ==>
              inner == width && zeros == Max(Min(prec, 32) - n, 0) && kept == (if prec < 32 then sign else "")
  {}

  /** The columns without their empty parts. */
  lemma MarkedColumns(gap: int, mark: string, zeros: int, digits: string)
    ensures Columns(gap, mark, zeros, digits, 0) == Repeat(' ', gap) + mark + Repeat('0', zeros) + Reverse(digits)
    ensures Columns(0, mark, 0, digits, gap) == mark + Reverse(digits) + Repeat(' ', gap)
  {
    hide Reverse, Repeat;
    NoRepeat(' ', 0);
    NoRepeat('0', 0);
    assert "" + mark + "" == mark;
    var t := Repeat(' ', gap) + mark + Repeat('0', zeros) + Reverse(digits);
    assert t + "" == t;
  }

  lemma LeftLine(f: string, kept: string, sign: string, left: bool, zero: bool, width: nat, prec: nat, digits: string, zeros: nat,
                 gap: int)
    requires f == Columns(0, kept, zeros, digits, gap) && left
    requires kept == sign && zeros == 0 && gap == width - |digits| - |sign|
    ensures f == Line(sign, left, zero, width, prec, Reverse(digits))
  {
    hide Reverse, Repeat, Columns;
    MarkedColumns(gap, kept, 0, digits);
  }

  lemma ZeroLine(f: string, kept: string, sign: string, left: bool, zero: bool, width: nat, prec: nat, digits: string, zeros: nat,
                 gap: int)
    requires !left && zero
    requires if gap > 0 then f == Repeat('0', gap) + kept + Repeat('0', zeros) + Reverse(digits)
             else f == Columns(gap, kept, zeros, digits, 0)
    requires kept == if width <= 32 then sign else ""
    requires if gap > 0 then kept == "" && gap + zeros == width - |sign| - |digits|
             else zeros == Max(width - |sign| - |digits|, 0)
    ensures f == Line(sign, left, zero, width, prec, Reverse(digits))
  {
    hide Reverse, Repeat;
    NoRepeat(' ', gap);
    if gap > 0 {
      RepeatMore('0', gap, zeros);
      assert Repeat('0', gap) + "" == Repeat('0', gap);
      assert "" + Repeat('0', gap + zeros) == Repeat('0', gap + zeros);
    } else {
      assert "" + kept == kept && Reverse(digits) + "" == Reverse(digits);
      SameRepeat('0', zeros, width - |sign| - |digits|);
      NoRepeat(' ', 0);
      assert kept + Repeat('0', zeros) + Reverse(digits) + "" == kept + Repeat('0', zeros) + Reverse(digits);
    }
  }

  lemma SameRepeat(c: char, n: nat, m: int)
    requires n == Max(m, 0)
    ensures Repeat(c, n) == Repeat(c, m)
  {}

  lemma BlankLine(f: string, kept: string, sign: string, left: bool, zero: bool, width: nat, prec: nat, digits: string, zeros: nat,
                  gap: int)
    requires !left && !zero && f == Columns(gap, kept, zeros, digits, 0)
    requires kept == if prec < 32 then sign else ""
    requires zeros == Max(Min(prec, 32) - |digits|, 0) && gap == width - |digits| - zeros - |kept|
    ensures f == Line(sign, left, zero, width, prec, Reverse(digits))
  {
    hide Reverse, Repeat;
    NoRepeat(' ', 0);
    var t := Repeat(' ', gap) + kept + Repeat('0', zeros) + Reverse(digits);
    assert t + "" == t;
  }

  // ---- Integers ----

  predicate IsSigned(c: char) {
    c == 'd' || c == 'i'
  }

  function Radix(c: char): (b: nat)
    ensures b <= 16
  {
    match c
    case 'x' => 16
    case 'X' => 16
    case 'o' => 8
    case 'b' => 2
    case _ => 10
  }

  /** The figures of the magnitude: none for a zero with a precision, otherwise its numeral. */
  ghost predicate IsShown(ds: string, sp: Spelling, v: int) {
    if sp.precision.Some? && v == 0 then ds == ""
    else IsNumeral(ds, Radix(sp.conv), if sp.conv == 'X' then UPPER else LOWER, Abs(v))
  }

  function SignText(sp: Spelling, v: int): string {
    if !IsSigned(sp.conv) then ""
    else if v < 0 then "-" else if '+' in sp.flags then "+" else if ' ' in sp.flags then " " else ""
  }

  /** The line an integer is printed on. */
  function IntegerLine(sp: Spelling, w: int, p: int, v: int, ds: string): string {
    Line(SignText(sp, v), ToTheLeft(sp, w), '0' in sp.flags && sp.precision.None?, Abs(w), if p > 0 then p else 0, ds)
  }

  /** What the code makes of the settings and the argument of an integer conversion. */
  lemma IntegerSettings(sp: Spelling, w: int, bits: Word, v: int)
    requires IsInteger(sp.conv) && Passes(bits, v, Modulus(sp.length), IsSigned(sp.conv)) && GoodLength(sp.length)
    ensures var flags := IntegerFlags(Settings(sp, w), sp.conv);
            && BaseOf(sp.conv) == Radix(sp.conv) && BaseOf(sp.conv) in {2, 8, 10, 16}
            && flags.upper == (sp.conv == 'X') && flags.padLeft == ToTheLeft(sp, w) && flags.precision == sp.precision.Some?
            && flags.zeroPad == ('0' in sp.flags && sp.precision.None?)
            && flags.hash == ('#' in sp.flags && Radix(sp.conv) != 10)
            && Sign(v < 0, flags) == SignText(sp, v)
            && (if IsSigned(sp.conv) then SignedValue(bits, flags) == v else v >= 0 && Unsigned(bits, flags) == v)
  {
    hide Passes, AsSigned;
    ArgumentPassed(bits, v, sp, IntegerFlags(Settings(sp, w), sp.conv));
  }

  lemma ArgumentPassed(bits: Word, v: int, sp: Spelling, flags: Flags)
    requires Passes(bits, v, Modulus(sp.length), IsSigned(sp.conv)) && GoodLength(sp.length)
    requires flags.wide == (sp.length == "l" || sp.length == "ll" || sp.length == "j" || sp.length == "z")
    requires flags.short == (sp.length == "h" || sp.length == "hh") && flags.byteWide == (sp.length == "hh")
    ensures if IsSigned(sp.conv) then SignedValue(bits, flags) == v else v >= 0 && Unsigned(bits, flags) == v
  {
    hide AsSigned;
    var m := Modulus(sp.length);
    PassedRemainder(bits, v, m, IsSigned(sp.conv));
    SmallMod(bits, TWO64);
    assert Unsigned(bits, flags) == bits % m;
    if IsSigned(sp.conv) {
      SignedPassed(bits, v, m);
    }
  }

  /**
   * Every integer directive without an effective '#', whatever its flags, width and precision: the line of the
   * value's sign and figures, in the base and the letters of the conversion character.
   */
  lemma IntegerPrinted(sp: Spelling, args: seq<Arg>, w: int, p: int, bits: Word, v: int, more: seq<Arg>) returns (ds: string)
    requires Ordinary(sp) && sp.conv in {'d', 'i', 'u', 'x', 'X', 'o', 'b'} && Given(sp, args, w, p, [Num(bits)] + more)
    requires Passes(bits, v, Modulus(sp.length), IsSigned(sp.conv)) && (sp.conv == 'b' ==> v < TWO32)
    requires '#' !in sp.flags || Radix(sp.conv) == 10 || v == 0
    ensures IsShown(ds, sp, v)
    ensures Render("%" + Spell(sp), args) == Outcome(IntegerLine(sp, w, p, v, ds), Complete, more)
  {
    hide Given, Passes, Render, Spell, IntegerText, Reverse, IsNumeral, Line, Settings, IntegerFlags,
      Ordinary, Wellformed;
    var prec: nat, flags := if p > 0 then p else 0, IntegerFlags(Settings(sp, w), sp.conv);
    ds := Reverse(Shown(Abs(v), Radix(sp.conv), flags));
    OrdinaryWellformed(sp);
    WellformedLength(sp);
    IntegerSettings(sp, w, bits, v);
    Bounded(sp, bits, v);
    MeaningGiven(sp, args, w, p, [Num(bits)] + more);
    var s := Meaning(sp, "", args).value;
    IntegerTextIs(sp, w, bits, v, s);
    NoPrecisionNoZeros(sp, args, w, p, [Num(bits)] + more);
    ShownLine(Abs(v), v < 0, Radix(sp.conv), prec, Abs(w), flags);
    ShownFigures(sp, v, flags);
    OneConverted(sp, args, bits, more);
  }

  lemma WellformedLength(sp: Spelling)
    requires Wellformed(sp)
    ensures GoodLength(sp.length)
  {}

  lemma Bounded(sp: Spelling, bits: Word, v: int)
    requires Passes(bits, v, Modulus(sp.length), IsSigned(sp.conv))
    ensures Abs(v) < TWO64 && (!IsSigned(sp.conv) ==> v >= 0)
  {}

  lemma NoPrecisionNoZeros(sp: Spelling, args: seq<Arg>, w: int, p: int, rest: seq<Arg>)
    requires Given(sp, args, w, p, rest)
    ensures sp.precision.None? ==> p == 0
  {
    hide Gives;
  }

  lemma IntegerTextIs(sp: Spelling, w: int, bits: Word, v: int, s: Spec)
    requires IsInteger(sp.conv) && s.flags == Settings(sp, w) && s.width == Magnitude(w)
    requires var flags := IntegerFlags(s.flags, sp.conv);
             && BaseOf(sp.conv) == Radix(sp.conv)
             && (if IsSigned(sp.conv) then SignedValue(bits, flags) == v else v >= 0 && Unsigned(bits, flags) == v)
    ensures IntegerText(bits, sp.conv, s)
         == IntegerField(Abs(v), v < 0, Radix(sp.conv), s.prec, Abs(w), IntegerFlags(s.flags, sp.conv))
  {
    hide IntegerField, IntegerFlags, SignedValue, Unsigned, Settings;
  }

  lemma ShownLine(value: nat, negative: bool, base: nat, prec: nat, width: nat, flags: Flags)
    requires value < TWO64 && base in {2, 8, 10, 16} && (base == 2 ==> !Signed(negative, flags))
    requires !flags.hash || value == 0
    requires flags.zeroPad ==> prec == 0
    ensures IntegerField(value, negative, base, prec, width, flags)
         == Line(Sign(negative, flags), flags.padLeft, flags.zeroPad, width, prec, Reverse(Shown(value, base, flags)))
  {
    hide Field, Line, Reverse, DigitsOf;
    if base != 2 {
      ShortInLargeBases(value, base, flags.upper);
    }
    FieldLine(Shown(value, base, flags), negative, base, prec, width, Settled(value, flags));
  }

  lemma ShownFigures(sp: Spelling, v: int, flags: Flags)
    requires IsInteger(sp.conv) && Abs(v) < (if sp.conv == 'b' then TWO32 else TWO64)
    requires flags.upper == (sp.conv == 'X') && flags.precision == sp.precision.Some?
    ensures Radix(sp.conv) >= 2 && IsShown(Reverse(Shown(Abs(v), Radix(sp.conv), flags)), sp, v)
  {
    hide Reverse, DigitsOf, IsNumeral;
    if flags.precision && v == 0 {
      ReverseSign("");
    } else {
      NumeralShown(Abs(v), Radix(sp.conv), flags.upper);
    }
  }

  /** The directive, as a format, prints what its conversion makes of its argument. */
  lemma OneConverted(sp: Spelling, args: seq<Arg>, bits: Word, more: seq<Arg>)
    requires Wellformed(sp) && IsInteger(sp.conv)
    requires Meaning(sp, "", args).Some? && Meaning(sp, "", args).value.args == [Num(bits)] + more
    ensures Render("%" + Spell(sp), args) == Outcome(IntegerText(bits, sp.conv, Meaning(sp, "", args).value), Complete, more)
  {
    hide Render, Spell, Wellformed, Meaning, IntegerText;
    var s := Meaning(sp, "", args).value;
    assert s.rest == [sp.conv] + "";
    assert s.args[1..] == more;
    OneDirective(sp, args);
  }

  // ---- The prefix of '#' ----

  function Mark(c: char): string {
    match c
    case 'x' => "0x"
    case 'X' => "0X"
    case 'b' => "0b"
    case _ => "0"
  }

  /** The settings that decide the layout. */
  function LayoutFlags(sp: Spelling, w: int): Flags {
    NO_FLAGS.(zeroPad := '0' in sp.flags && sp.precision.None?, padLeft := ToTheLeft(sp, w), precision := sp.precision.Some?)
  }

  /** The line of a number of `n` figures with its prefix. */
  function PrefixedLine(sp: Spelling, w: int, p: nat, ds: string): string {
    var mark, zeros := Mark(sp.conv), PrefixZeros(|ds|, Radix(sp.conv), p, Abs(w), LayoutFlags(sp, w));
    if ToTheLeft(sp, w) then mark + ds + Repeat(' ', Abs(w) - |mark| - |ds|)
    else Repeat(' ', Abs(w) - |mark| - zeros - |ds|) + mark + Repeat('0', zeros) + ds
  }

  /** With '#', and wherever the buffer has room for figures and prefix, the prefix stands where a sign would. */
  lemma PrefixedPrinted(sp: Spelling, args: seq<Arg>, w: int, p: int, bits: Word, v: int, more: seq<Arg>) returns (ds: string)
    requires Ordinary(sp) && sp.conv in {'x', 'X', 'o', 'b'} && '#' in sp.flags
    requires Given(sp, args, w, p, [Num(bits)] + more) && v > 0
    requires Passes(bits, v, Modulus(sp.length), false) && (sp.conv == 'b' ==> v < 0x4000_0000)
    ensures IsShown(ds, sp, v)
    ensures FullPrefix(|ds|, Radix(sp.conv), if p > 0 then p else 0, Abs(w), LayoutFlags(sp, w)) ==>
              Render("%" + Spell(sp), args) == Outcome(PrefixedLine(sp, w, if p > 0 then p else 0, ds), Complete, more)
  {
    hide Given, Passes, Render, Spell, IntegerText, Reverse, IsNumeral, PrefixedLine, Settings, IntegerFlags,
      FullPrefix, Ordinary, Wellformed;
    var prec: nat, flags := if p > 0 then p else 0, IntegerFlags(Settings(sp, w), sp.conv);
    ds := Reverse(Shown(Abs(v), Radix(sp.conv), flags));
    OrdinaryWellformed(sp);
    WellformedLength(sp);
    IntegerSettings(sp, w, bits, v);
    Bounded(sp, bits, v);
    MeaningGiven(sp, args, w, p, [Num(bits)] + more);
    var s := Meaning(sp, "", args).value;
    IntegerTextIs(sp, w, bits, v, s);
    NoPrecisionNoZeros(sp, args, w, p, [Num(bits)] + more);
    ShownFigures(sp, v, flags);
    PrefixedField(sp, w, prec, v, flags);
    OneConverted(sp, args, bits, more);
  }

  lemma PrefixedField(sp: Spelling, w: int, prec: nat, v: nat, flags: Flags)
    requires sp.conv in {'x', 'X', 'o', 'b'} && 0 < v < if sp.conv == 'b' then 0x4000_0000 else TWO64
    requires flags.upper == (sp.conv == 'X') && flags.padLeft == ToTheLeft(sp, w) && flags.precision == sp.precision.Some?
    requires flags.zeroPad == ('0' in sp.flags && sp.precision.None?) && flags.hash && Sign(false, flags) == ""
    requires sp.precision.None? ==> prec == 0
    ensures var base := Radix(sp.conv);
            var ds := Reverse(Shown(v, base, flags));
            FullPrefix(|ds|, base, prec, Abs(w), LayoutFlags(sp, w)) ==>
              IntegerField(v, false, base, prec, Abs(w), flags) == PrefixedLine(sp, w, prec, ds)
  {
    hide Field, Reverse, DigitsOf, Columns, Repeat, FullPrefix, PrefixZeros, PrefixedLine;
    var base, width := Radix(sp.conv), Abs(w);
    var digits := Shown(v, base, flags);
    FewDigits(v, base, flags.upper);
    SamePrefix(sp, w, |digits|, base, prec, flags);
    if FullPrefix(|digits|, base, prec, width, flags) {
      PrefixLayout(digits, base, prec, width, flags);
      var zeros := PrefixZeros(|digits|, base, prec, width, flags);
      MarkedColumns(width - |digits| - zeros - |Mark(sp.conv)|, Mark(sp.conv), zeros, digits);
      MarkedColumns(width - |digits| - |Mark(sp.conv)|, Mark(sp.conv), 0, digits);
      LineWithMark(sp, w, prec, Reverse(digits), zeros);
      assert flags.padLeft ==> zeros == 0 by {
        NoZerosLeft(|digits|, base, prec, width, flags);
      }
    }
  }

  lemma NoZerosLeft(n: nat, base: nat, prec: nat, width: nat, flags: Flags)
    ensures flags.padLeft ==> PrefixZeros(n, base, prec, width, flags) == 0
  {}

  lemma SamePrefix(sp: Spelling, w: int, n: nat, base: nat, prec: nat, flags: Flags)
    requires flags.upper == (sp.conv == 'X') && flags.padLeft == ToTheLeft(sp, w) && flags.precision == sp.precision.Some?
    requires flags.zeroPad == ('0' in sp.flags && sp.precision.None?) && sp.conv in {'x', 'X', 'o', 'b'} && base == Radix(sp.conv)
    ensures FullPrefix(n, base, prec, Abs(w), flags) == FullPrefix(n, base, prec, Abs(w), LayoutFlags(sp, w))
    ensures PrefixZeros(n, base, prec, Abs(w), flags) == PrefixZeros(n, base, prec, Abs(w), LayoutFlags(sp, w))
    ensures Prefix(base, flags) == Mark(sp.conv)
  {}

  lemma LineWithMark(sp: Spelling, w: int, p: nat, ds: string, zeros: int)
    requires zeros == PrefixZeros(|ds|, Radix(sp.conv), p, Abs(w), LayoutFlags(sp, w))
    ensures PrefixedLine(sp, w, p, ds)
         == if ToTheLeft(sp, w) then Mark(sp.conv) + ds + Repeat(' ', Abs(w) - |Mark(sp.conv)| - |ds|)
            else Repeat(' ', Abs(w) - |Mark(sp.conv)| - zeros - |ds|) + Mark(sp.conv) + Repeat('0', zeros) + ds
  {
    hide PrefixZeros, Repeat;
  }

  lemma FewDigits(v: nat, base: nat, upper: bool)
    requires base in {2, 8, 16} && 0 < v < if base == 2 then 0x4000_0000 else TWO64
    ensures 0 < |DigitsOf(v, base, upper, BUFFER)| <= BUFFER - 2
  {
    hide DigitsOf, Pow;
    if base == 2 {
      PowSquare(2);
      PowDouble(2, 2);
      PowAdd(2, 4, 2);
      PowDouble(2, 6);
      PowAdd(2, 12, 3);
      PowDouble(2, 15);
      assert Pow(2, 1) == 2 && Pow(2, 3) == 8 by { PowStep(2, 1); PowZero(2); PowStep(2, 3); }
      DigitCount(v, 2, upper, BUFFER, 30);
    } else {
      ShortInLargeBases(v, base, upper);
    }
  }

  // ---- Characters, pointers and texts ----

  /** Text and blanks, on the side that '-' asks for. */
  function Beside(text: string, blanks: int, left: bool): string {
    if left then text + Repeat(' ', blanks) else Repeat(' ', blanks) + text
  }

  /** %c prints the character whose code the argument has in its lowest byte. */
  lemma CharPrinted(sp: Spelling, args: seq<Arg>, w: int, p: int, bits: Word, c: char, more: seq<Arg>)
    requires Ordinary(sp) && sp.conv == 'c' && Given(sp, args, w, p, [Num(bits)] + more)
    requires Passes(bits, c as int, 0x100, false)
    ensures Render("%" + Spell(sp), args) == Outcome(Beside([c], Abs(w) - 1, ToTheLeft(sp, w)), Complete, more)
  {
    hide Given, Passes, Render, Spell, Repeat, Ordinary, Wellformed;
    OrdinaryWellformed(sp);
    MeaningGiven(sp, args, w, p, [Num(bits)] + more);
    PassedRemainder(bits, c as int, 0x100, false);
    var s := Meaning(sp, "", args).value;
    assert s.rest == [sp.conv] + "" && s.args[1..] == more;
    OneDirective(sp, args);
  }

  /** %p prints all sixteen places of the address, in capital letters. */
  lemma PointerPrinted(sp: Spelling, args: seq<Arg>, w: int, p: int, bits: Word, more: seq<Arg>) returns (ds: string)
    requires Ordinary(sp) && sp.conv == 'p' && Given(sp, args, w, p, [Num(bits)] + more) && sp.precision.None?
    requires '#' !in sp.flags || bits == 0
    ensures IsNumeral(ds, 16, UPPER, bits)
    ensures var sign := if '+' in sp.flags then "+" else if ' ' in sp.flags then " " else "";
            Render("%" + Spell(sp), args) == Outcome(Line(sign, ToTheLeft(sp, w), true, 16, 0, ds), Complete, more)
  {
    hide Given, Render, Spell, IntegerField, Reverse, IsNumeral, Line, DigitsOf, Ordinary, Wellformed;
    OrdinaryWellformed(sp);
    MeaningGiven(sp, args, w, p, [Num(bits)] + more);
    NoPrecisionNoZeros(sp, args, w, p, [Num(bits)] + more);
    var s := Meaning(sp, "", args).value;
    var flags := s.flags.(zeroPad := true, upper := true);
    ds := Reverse(Shown(bits, 16, flags));
    NumeralShown(bits, 16, true);
    ShownLine(bits, false, 16, 0, 16, flags);
    assert s.rest == [sp.conv] + "" && s.args[1..] == more;
    OneDirective(sp, args);
  }

  /** The columns the code takes a text of `n` characters to fill. */
  function TextColumns(n: nat, precision: bool, p: nat): nat {
    if !precision then Min(n, TWO64 - 1) % TWO32 else if n < p then 1 else p
  }

  /** The first `n` of `chars` in their places, and blanks on one side. */
  ghost predicate IsPadded(text: string, chars: string, n: nat, blanks: nat, left: bool)
    requires n <= |chars|
  {
    && |text| == blanks + n
    && forall i :: 0 <= i < |text| ==>
         text[i] == if left then (if i < n then chars[i] else ' ') else if i < blanks then ' ' else chars[i - blanks]
  }

  /**
   * %s prints the text in its order, as much of it as a precision allows, and blanks on the side that '-' asks
   * for, as many as the code takes to be missing from the width.
   */
  lemma TextPrinted(sp: Spelling, args: seq<Arg>, w: int, p: int, chars: Chars, more: seq<Arg>)
    requires Ordinary(sp) && sp.conv == 's' && Given(sp, args, w, p, [Text(chars)] + more)
    ensures var prec: nat := if p > 0 then p else 0;
            var n := if sp.precision.Some? then Min(|chars|, prec) else |chars|;
            var blanks := Max(Abs(w) - TextColumns(|chars|, sp.precision.Some?, prec), 0);
            var r := Render("%" + Spell(sp), args);
            r.stop == Complete && r.args == more && IsPadded(r.text, chars, n, blanks, ToTheLeft(sp, w))
  {
    hide Given, Render, Spell, StringText, IsPadded, TextColumns, Settings, Ordinary, Wellformed;
    OrdinaryWellformed(sp);
    SettingsOfText(sp, w);
    MeaningGiven(sp, args, w, p, [Text(chars)] + more);
    SmallPrecision(sp, args, w, p, [Text(chars)] + more);
    var s := Meaning(sp, "", args).value;
    assert s.rest == [sp.conv] + "" && s.args[1..] == more;
    OneDirective(sp, args);
    StringColumns(chars, s);
  }

  lemma SettingsOfText(sp: Spelling, w: int)
    ensures var flags := Settings(sp, w); flags.padLeft == ToTheLeft(sp, w) && flags.precision == sp.precision.Some?
  {}

  lemma SmallPrecision(sp: Spelling, args: seq<Arg>, w: int, p: int, rest: seq<Arg>)
    requires Given(sp, args, w, p, rest)
    ensures p < TWO32
  {
    hide Figured, Positional;
  }

  lemma StringColumns(chars: string, s: Spec)
    requires s.prec < TWO32 && (s.flags.precision || s.prec == 0)
    ensures var n := if s.flags.precision then Min(|chars|, s.prec) else |chars|;
            var blanks := Max(s.width - TextColumns(|chars|, s.flags.precision, s.prec), 0);
            var text := StringText(chars, s);
            IsPadded(text, chars, n, blanks, s.flags.padLeft)
  {}

  /** A text prints as itself. */
  lemma TextAlone(t: Chars)
    ensures Render("%s", [Text(t)]) == Outcome(t, Complete, [])
  {
    hide Render;
    var sp := Spelling("", Absent, None, "", 's');
    var args := [Text(t)];
    assert Gives(sp.width, 0, args, args);
    assert [Text(t)] + [] == args;
    assert Given(sp, args, 0, 0, [Text(t)] + []);
    assert "%" + Spell(sp) == "%s";
    TextPrinted(sp, args, 0, 0, t, []);
    var r := Render("%s", args);
    assert r.text == t;
  }
}
