/**
 * The field an integer directive emits (lib/common/vsnprintf.cpp, _ntoa_format and _out_rev): the
 * text collected backwards in the 32-byte buffer, and how the padding around it comes out.
 */
module Fields {
  import opened Machine
  import opened Powers
  import opened Digits

  // ---- The buffer, step by step, lowest digit first ----

  predicate Signed(negative: bool, flags: Flags) {
    negative || flags.forcePlus || flags.padSpace
  }

  function Sign(negative: bool, flags: Flags): string {
    if negative then "-" else if flags.forcePlus then "+" else if flags.padSpace then " " else ""
  }

  /** The width zeros may fill: one column less when a sign goes in front of them. */
  function ZeroWidth(negative: bool, width: nat, flags: Flags): nat {
    if !flags.padLeft && width > 0 && flags.zeroPad && Signed(negative, flags) then width - 1 else width
  }

  function Min(a: nat, b: nat): nat {
    if a < b then a else b
  }

  function Max(a: int, b: int): int {
    if a < b then b else a
  }

  function ZerosTo(buf: string, n: nat): (r: string)
    requires |buf| <= BUFFER
    ensures |r| == Max(|buf|, Min(n, BUFFER))
  {
    buf + Repeat('0', Min(n, BUFFER) - |buf|)
  }

  function WithZeros(buf: string, prec: nat, width: nat, flags: Flags): (r: string)
    requires |buf| <= BUFFER
    ensures |buf| <= |r| <= BUFFER
  {
    if flags.padLeft then buf
    else if flags.zeroPad then ZerosTo(ZerosTo(buf, prec), width)
    else ZerosTo(buf, prec)
  }

  function Append(buf: string, c: char): (r: string)
    requires |buf| <= BUFFER
    ensures |buf| <= |r| <= BUFFER
  {
    if |buf| < BUFFER then buf + [c] else buf
  }

  /** How much of the buffer stays when room is made for the prefix of '#'. */
  function KeptForPrefix(n: nat, base: nat, prec: nat, width: nat, flags: Flags): (r: nat)
    ensures r <= n <= r + 2
  {
    if !flags.precision && n > 0 && (n == prec || n == width) then
      if n > 1 && base == 16 then n - 2 else n - 1
    else n
  }

  function WithPrefix(buf: string, base: nat, prec: nat, width: nat, flags: Flags): (r: string)
    requires |buf| <= BUFFER
    ensures |r| <= BUFFER
  {
    if !flags.hash then buf else
      var kept := buf[..KeptForPrefix(|buf|, base, prec, width, flags)];
      var marked := if base == 16 then Append(kept, if flags.upper then 'X' else 'x')
                    else if base == 2 then Append(kept, 'b') else kept;
      Append(marked, '0')
  }

  function WithSign(buf: string, negative: bool, flags: Flags): (r: string)
    requires |buf| <= BUFFER
    ensures |r| <= BUFFER
  {
    if |buf| < BUFFER then buf + Sign(negative, flags) else buf
  }

  /** What the buffer holds when _ntoa_format hands it to _out_rev. */
  function Stored(digits: string, negative: bool, base: nat, prec: nat, width: nat, flags: Flags): (r: string)
    requires |digits| <= BUFFER
    ensures |r| <= BUFFER
  {
    var inner := ZeroWidth(negative, width, flags);
    WithSign(WithPrefix(WithZeros(digits, prec, inner, flags), base, prec, inner, flags), negative, flags)
  }

  /** _out_rev: the buffer backwards, padded to the width. */
  function Justified(buf: string, width: nat, flags: Flags): (r: string)
    ensures |r| == Max(|buf|, width)
  {
    if flags.padLeft then Reverse(buf) + Repeat(' ', width - |buf|)
    else Repeat(if flags.zeroPad then '0' else ' ', width - |buf|) + Reverse(buf)
  }

  function Field(digits: string, negative: bool, base: nat, prec: nat, width: nat, flags: Flags): string
    requires |digits| <= BUFFER
  {
    Justified(Stored(digits, negative, base, prec, width, flags), ZeroWidth(negative, width, flags), flags)
  }

  /** The digits _ntoa_long stores: none for a zero whose precision was given. */
  function Shown(value: nat, base: nat, flags: Flags): (s: string)
    requires 2 <= base <= 16
    ensures |s| <= BUFFER
  {
    if flags.precision && value == 0 then "" else DigitsOf(value, base, flags.upper, BUFFER)
  }

  function Settled(value: nat, flags: Flags): Flags {
    if value == 0 then flags.(hash := false) else flags
  }

  /** _ntoa_long and _ntoa_long_long. */
  function IntegerField(value: nat, negative: bool, base: nat, prec: nat, width: nat, flags: Flags): string
    requires 2 <= base <= 16
  {
    Field(Shown(value, base, flags), negative, base, prec, width, Settled(value, flags))
  }

  // ---- The layout ----

  /** The digits raised to the precision, unless the field is left-justified. */
  function Body(n: nat, prec: nat, flags: Flags): (r: nat)
    ensures r >= n
  {
    if flags.padLeft then n else Max(n, prec)
  }

  /** The columns of a field: padding, sign, zeros, digits (highest first), padding. */
  function Columns(before: int, sign: string, zeros: int, digits: string, after: int): string {
    Repeat(' ', before) + sign + Repeat('0', zeros) + Reverse(digits) + Repeat(' ', after)
  }

  lemma RepeatMore(c: char, a: int, b: int)
    requires a >= 0 && b >= 0
    ensures Repeat(c, a) + Repeat(c, b) == Repeat(c, a + b)
  {}

  lemma ReverseSign(sign: string)
    requires |sign| <= 1
    ensures Reverse(sign) == sign
  {
    if |sign| == 1 {
      assert sign[1..] == "";
    }
  }

  /** The stored text, forwards: sign or prefix, zeros, digits. */
  lemma StoredReversed(digits: string, zeros: int, front: string)
    ensures Reverse(digits + Repeat('0', zeros) + Reverse(front)) == front + Repeat('0', zeros) + Reverse(digits)
  {
    ReverseAppend(digits + Repeat('0', zeros), Reverse(front));
    ReverseAppend(digits, Repeat('0', zeros));
    ReverseRepeat('0', zeros);
    ReverseTwice(front);
  }

  /**
   * A directive without '#', width at most 32 and precision at most 31, whose digits leave room for a
   * sign: spaces, sign, zeros and digits in this order, or the digits first and the spaces last, and
   * the length is the width or what has to be shown, whichever is larger.
   */
  lemma FieldLayout(digits: string, negative: bool, base: nat, prec: nat, width: nat, flags: Flags)
    requires |digits| < BUFFER && !flags.hash && width <= BUFFER && prec < BUFFER
    ensures var sign, body := Sign(negative, flags), Body(|digits|, prec, flags);
            var gap := width - |sign| - body;
            var f := Field(digits, negative, base, prec, width, flags);
            |f| == Max(width, |sign| + body)
            && f == if flags.padLeft then Columns(0, sign, 0, digits, gap)
                    else if flags.zeroPad then Columns(0, sign, body - |digits| + Max(gap, 0), digits, 0)
                    else Columns(gap, sign, body - |digits|, digits, 0)
  {
    hide Stored, Reverse, Repeat, Columns, Justified;
    var sign := Sign(negative, flags);
    var inner := ZeroWidth(negative, width, flags);
    var zeros := ZeroCount(|digits|, prec, inner, flags);
    StoredWithoutPrefix(digits, negative, base, prec, width, flags);
    assert Stored(digits, negative, base, prec, width, flags) == digits + Repeat('0', zeros) + sign;
    ReverseSign(sign);
    JustifiedColumns(digits, zeros, sign, inner, flags);
    NothingBefore(inner - |digits| - zeros - |sign|, sign, zeros, digits);
  }

  lemma NothingBefore(before: int, sign: string, zeros: int, digits: string)
    ensures before <= 0 ==> Columns(before, sign, zeros, digits, 0) == Columns(0, sign, zeros, digits, 0)
  {
    hide Reverse;
  }

  lemma JustifiedColumns(digits: string, zeros: nat, sign: string, width: nat, flags: Flags)
    ensures var n := |digits| + zeros + |sign|;
            Justified(digits + Repeat('0', zeros) + Reverse(sign), width, flags)
            == if flags.padLeft then Columns(0, sign, zeros, digits, width - n)
               else if flags.zeroPad && n < width then
                 Repeat('0', width - n) + sign + Repeat('0', zeros) + Reverse(digits)
               else Columns(width - n, sign, zeros, digits, 0)
  {
    hide Reverse, Repeat, Columns;
    var gap := width - |digits| - zeros - |sign|;
    StoredReversed(digits, zeros, sign);
    ColumnsParts(0, sign, zeros, digits, gap);
    ColumnsParts(gap, sign, zeros, digits, 0);
    NoRepeat(' ', 0);
    NoRepeat(' ', gap);
    NoRepeat('0', gap);
  }

  lemma ColumnsParts(before: int, sign: string, zeros: int, digits: string, after: int)
    ensures var shown := sign + Repeat('0', zeros) + Reverse(digits);
            Columns(before, sign, zeros, digits, after) == Repeat(' ', before) + shown + Repeat(' ', after)
            && (before == 0 ==> Columns(before, sign, zeros, digits, after) == shown + Repeat(' ', after))
            && (after == 0 ==> Columns(before, sign, zeros, digits, after) == Repeat(' ', before) + shown)
  {
    hide Reverse, Repeat;
    NoRepeat(' ', 0);
  }

  lemma NoRepeat(c: char, n: int)
    ensures n <= 0 ==> Repeat(c, n) == ""
  {}

  /** The zeros put in front of the digits. */
  function ZeroCount(n: nat, prec: nat, inner: nat, flags: Flags): int
    requires n <= BUFFER
  {
    if flags.padLeft then 0
    else if flags.zeroPad then Max(Max(n, Min(prec, BUFFER)), Min(inner, BUFFER)) - n
    else Max(n, Min(prec, BUFFER)) - n
  }

  /** The zeros follow the digits in the buffer. */
  lemma ZerosBehind(digits: string, prec: nat, width: nat, flags: Flags)
    requires |digits| <= BUFFER
    ensures WithZeros(digits, prec, width, flags) == digits + Repeat('0', ZeroCount(|digits|, prec, width, flags))
  {
    hide Repeat;
    var first := Max(|digits|, Min(prec, BUFFER)) - |digits|;
    NoRepeat('0', 0);
    if !flags.padLeft && flags.zeroPad {
      RepeatMore('0', first, ZeroCount(|digits|, prec, width, flags) - first);
    }
  }

  /** Without '#' the buffer is the digits, the zeros and the sign if it fits. */
  lemma StoredWithoutPrefix(digits: string, negative: bool, base: nat, prec: nat, width: nat, flags: Flags)
    requires |digits| <= BUFFER && !flags.hash
    ensures var zeros := ZeroCount(|digits|, prec, ZeroWidth(negative, width, flags), flags);
            Stored(digits, negative, base, prec, width, flags)
            == digits + Repeat('0', zeros) + if |digits| + zeros < BUFFER then Sign(negative, flags) else ""
  {
    hide Repeat, WithZeros;
    ZerosBehind(digits, prec, ZeroWidth(negative, width, flags), flags);
  }

  lemma {:induction false} ReverseMembers(s: string, c: char)
    ensures c in Reverse(s) <==> c in s
  {
    if s != "" {
      ReverseMembers(s[1..], c);
      assert s == [s[0]] + s[1..];
    }
  }

  /**
   * A sign, be it a minus, a plus or a space, is put in front of the zeros and digits exactly when it finds
   * room: the zeros of a precision of 32 or more, or of a zero-padded field wider than 32, fill the buffer
   * and the sign is lost. A minus or a plus is then missing from the whole field.
   */
  lemma SignShown(value: nat, negative: bool, base: nat, prec: nat, width: nat, flags: Flags)
    requires value < TWO64 && 8 <= base <= 16 && !flags.hash && Signed(negative, flags)
    ensures var room := flags.padLeft || (prec < BUFFER && !(flags.zeroPad && width > BUFFER));
            && (Sign(negative, flags) <= Reverse(Stored(Shown(value, base, flags), negative, base, prec, width, flags))
                <==> room)
            && (negative || flags.forcePlus ==>
                  (Sign(negative, flags)[0] in IntegerField(value, negative, base, prec, width, flags) <==> room))
  {
    hide Stored, Reverse, DigitsOf;
    var digits, sign := Shown(value, base, flags), Sign(negative, flags)[0];
    var inner := ZeroWidth(negative, width, flags);
    var s := Stored(digits, negative, base, prec, width, flags);
    StoredWithoutPrefix(digits, negative, base, prec, width, flags);
    assert |digits| <= 22 && sign !in digits by {
      ShortInLargeBases(value, base, flags.upper);
      OnlyDigits(value, base, flags.upper, BUFFER);
      NotASign(base, flags.upper);
    }
    var zeros := ZeroCount(|digits|, prec, inner, flags);
    assert sign in s <==> |digits| + zeros < BUFFER;
    ReverseMembers(s, sign);
    assert s != "" && (s[|s| - 1] == sign <==> |digits| + zeros < BUFFER);
    FirstOfReverse(s, Sign(negative, flags));
  }

  lemma FirstOfReverse(s: string, sign: string)
    requires s != "" && |sign| == 1
    ensures sign <= Reverse(s) <==> s[|s| - 1] == sign[0]
  {
    hide Reverse;
    ReverseAt(s, 0);
    PrefixOfOne(sign, Reverse(s));
  }

  lemma PrefixOfOne(sign: string, s: string)
    requires s != "" && |sign| == 1
    ensures sign <= s <==> s[0] == sign[0]
  {
    assert sign == [sign[0]];
  }

  lemma NotASign(base: nat, upper: bool)
    requires base <= 16
    ensures !DigitIn('-', base, upper) && !DigitIn('+', base, upper) && !DigitIn(' ', base, upper)
  {}

  /** FieldLayout for every 64-bit value in a base of 8 or more: its digits always leave room. */
  lemma IntegerLayout(value: nat, negative: bool, base: nat, prec: nat, width: nat, flags: Flags)
    requires value < TWO64 && 8 <= base <= 16 && !flags.hash && width <= BUFFER && prec < BUFFER
    ensures var digits, sign := Shown(value, base, flags), Sign(negative, flags);
            var body := Body(|digits|, prec, flags);
            var gap := width - |sign| - body;
            var f := IntegerField(value, negative, base, prec, width, flags);
            |f| == Max(width, |sign| + body)
            && f == if flags.padLeft then Columns(0, sign, 0, digits, gap)
                    else if flags.zeroPad then Columns(0, sign, body - |digits| + Max(gap, 0), digits, 0)
                    else Columns(gap, sign, body - |digits|, digits, 0)
  {
    hide Field, DigitsOf, Columns;
    ShortInLargeBases(value, base, flags.upper);
    FieldLayout(Shown(value, base, flags), negative, base, prec, width, flags);
  }

  // ---- Reading a field back ----

  /** Without a sign a field is blanks, zeros and digits, or the digits first. */
  lemma PlainField(digits: string, base: nat, prec: nat, width: nat, flags: Flags)
    requires |digits| <= BUFFER && !flags.hash && !Signed(false, flags)
    ensures var zeros := ZeroCount(|digits|, prec, width, flags);
            var blanks := width - |digits| - zeros;
            Field(digits, false, base, prec, width, flags)
            == if flags.padLeft then Plain(' ', 0, 0, digits) + Repeat(' ', blanks)
               else if flags.zeroPad then Plain('0', blanks, zeros, digits)
               else Plain(' ', blanks, zeros, digits)
  {
    hide Reverse, Repeat, Stored, Justified, Columns, Plain;
    var zeros := ZeroCount(|digits|, prec, width, flags);
    var blanks := width - |digits| - zeros;
    StoredWithoutPrefix(digits, false, base, prec, width, flags);
    assert Stored(digits, false, base, prec, width, flags) == digits + Repeat('0', zeros) + "";
    ReverseSign("");
    JustifiedColumns(digits, zeros, "", width, flags);
    PlainColumns(digits, zeros, blanks);
  }

  /** Padding, zeros, digits. */
  function Plain(pad: char, before: int, zeros: int, digits: string): string {
    Repeat(pad, before) + (Repeat('0', zeros) + Reverse(digits))
  }

  lemma PlainColumns(digits: string, zeros: nat, blanks: int)
    ensures Columns(blanks, "", zeros, digits, 0) == Plain(' ', blanks, zeros, digits)
    ensures Columns(0, "", 0, digits, blanks) == Plain(' ', 0, 0, digits) + Repeat(' ', blanks)
    ensures Repeat('0', blanks) + "" + Repeat('0', zeros) + Reverse(digits) == Plain('0', blanks, zeros, digits)
    ensures blanks <= 0 ==> Plain('0', blanks, zeros, digits) == Plain(' ', blanks, zeros, digits)
  {
    hide Reverse;
  }

  lemma ZerosAndDigits(pad: char, before: int, zeros: int, digits: string, value: nat, upper: bool)
    requires value < TWO64 && (pad == '0' || before <= 0)
    requires digits == DigitsOf(value, 10, upper, BUFFER) || (digits == "" && value == 0)
    ensures var f := Plain(pad, before, zeros, digits);
            Decimal(f) == value && forall c <- f :: IsDigit(c)
  {
    hide DigitsOf, Denotes, Reverse;
    assert Repeat(pad, before) == Repeat('0', before);
    LeadingZeros(before, Repeat('0', zeros) + Reverse(digits));
    LeadingZeros(zeros, Reverse(digits));
    ReverseTwice(digits);
    if digits == DigitsOf(value, 10, upper, BUFFER) {
      PrintedExactly(value, 10, upper);
    } else {
      DenotesEmpty(10);
    }
    forall c | c in Reverse(digits) ensures IsDigit(c) {
      ReverseMembers(digits, c);
      OnlyDigits(value, 10, upper, BUFFER);
      DecimalDigit(c, upper);
    }
  }

  lemma DecimalDigit(c: char, upper: bool)
    ensures DigitIn(c, 10, upper) ==> IsDigit(c)
  {}

  /** The condition under which an unsigned field is not padded with blanks. */
  predicate NoBlanks(n: nat, prec: nat, width: nat, flags: Flags) {
    (flags.zeroPad && !flags.padLeft) || width <= Body(n, Min(prec, BUFFER), flags)
  }

  /**
   * The digits atoi consumes are exactly an unsigned decimal field, whatever follows it, if and only if
   * the field holds no blank, and then they denote the value.
   */
  lemma AtoiReadsBack(value: nat, prec: nat, width: nat, flags: Flags, rest: string)
    requires value < TWO64 && !flags.hash && !Signed(false, flags)
    requires rest == "" || !IsDigit(rest[0])
    ensures var f := IntegerField(value, false, 10, prec, width, flags);
            (DigitRun(f + rest, 0) == |f| <==> NoBlanks(|Shown(value, 10, flags)|, prec, width, flags))
            && (DigitRun(f + rest, 0) == |f| ==> Decimal((f + rest)[..|f|]) == value)
  {
    hide Reverse, Repeat, Field, DigitsOf, Decimal, Denotes, Plain, DigitRun, NoBlanks, ZeroCount;
    var digits := Shown(value, 10, flags);
    BlanksMean(|digits|, prec, width, flags);
    var zeros := ZeroCount(|digits|, prec, width, flags);
    var blanks := width - |digits| - zeros;
    var f := Field(digits, false, 10, prec, width, flags);
    PlainField(digits, 10, prec, width, flags);
    NoRepeat(' ', blanks);
    if blanks <= 0 || (flags.zeroPad && !flags.padLeft) {
      var pad := if flags.zeroPad && !flags.padLeft then '0' else ' ';
      var before := if flags.padLeft then 0 else blanks;
      assert f == Plain(pad, before, zeros, digits);
      PlainRead(pad, before, zeros, digits, value, flags.upper, rest);
    } else {
      BlankAt(blanks, zeros, digits);
      BlankStopsReading(f, rest, if flags.padLeft then |f| - 1 else 0);
    }
  }

  lemma BlanksMean(n: nat, prec: nat, width: nat, flags: Flags)
    requires n <= BUFFER
    ensures NoBlanks(n, prec, width, flags)
       <==> width - n - ZeroCount(n, prec, width, flags) <= 0 || (flags.zeroPad && !flags.padLeft)
    ensures ZeroCount(n, prec, width, flags) >= 0 && (flags.padLeft ==> ZeroCount(n, prec, width, flags) == 0)
  {}

  lemma PlainRead(pad: char, before: int, zeros: int, digits: string, value: nat, upper: bool, rest: string)
    requires value < TWO64 && (pad == '0' || before <= 0)
    requires digits == DigitsOf(value, 10, upper, BUFFER) || (digits == "" && value == 0)
    requires rest == "" || !IsDigit(rest[0])
    ensures var f := Plain(pad, before, zeros, digits);
            DigitRun(f + rest, 0) == |f| && Decimal((f + rest)[..|f|]) == value
  {
    hide DigitsOf, Decimal, Plain, DigitRun;
    ZerosAndDigits(pad, before, zeros, digits, value, upper);
    AllDigitsRead(Plain(pad, before, zeros, digits), rest);
  }

  lemma AllDigitsRead(f: string, rest: string)
    requires forall c <- f :: IsDigit(c)
    requires rest == "" || !IsDigit(rest[0])
    ensures DigitRun(f + rest, 0) == |f| && (f + rest)[..|f|] == f
  {
    assert forall i :: 0 <= i < |f| ==> (f + rest)[i] == f[i];
    RunOfDigits(f + rest, 0, |f|);
  }

  lemma BlankAt(blanks: nat, zeros: int, digits: string)
    requires blanks > 0
    ensures var f := Plain(' ', 0, 0, digits) + Repeat(' ', blanks); f != "" && f[|f| - 1] == ' '
    ensures var f := Plain(' ', blanks, zeros, digits); f != "" && f[0] == ' '
  {
    hide Reverse;
    var head := Plain(' ', 0, 0, digits);
    var f := head + Repeat(' ', blanks);
    assert f[|f| - 1] == Repeat(' ', blanks)[blanks - 1];
  }

  lemma BlankStopsReading(f: string, rest: string, at: nat)
    requires at < |f| && f[at] == ' '
    ensures DigitRun(f + rest, 0) <= at
  {
    RunIsDigits(f + rest, 0);
    assert (f + rest)[at] == ' ';
  }

  lemma {:induction false} RunIsDigits(s: string, from: nat)
    requires from <= |s|
    ensures forall i :: from <= i < DigitRun(s, from) ==> IsDigit(s[i])
    decreases |s| - from
  {
    if from < |s| && IsDigit(s[from]) {
      RunIsDigits(s, from + 1);
    }
  }

  // ---- The prefix of '#' ----

  /**
   * '#' keeps every digit of a number unless no precision is given and the width is exactly the digit
   * count (or, for zero-padded hexadecimal, one more): then the room for the prefix is taken from
   * the digits.
   */
  lemma PrefixKeepsDigits(value: nat, base: nat, prec: nat, width: nat, flags: Flags)
    requires base in {2, 8, 16} && 0 < value < if base == 2 then TWO32 else TWO64
    requires flags.hash && !Signed(false, flags) && (flags.precision || prec == 0)
    ensures var digits := Shown(value, base, flags);
            digits <= Stored(digits, false, base, prec, width, flags)
            <==> flags.precision
                 || !(width == |digits|
                      || (base == 16 && flags.zeroPad && !flags.padLeft && width == |digits| + 1))
  {
    hide DigitsOf, Pow, WithPrefix, KeptForPrefix, WithZeros, DigitIn;
    var digits := Shown(value, base, flags);
    PowerValues();
    NoLeadingZero(value, base, flags.upper, BUFFER);
    OnlyDigits(value, base, flags.upper, BUFFER);
    if base == 16 {
      ShortInLargeBases(value, base, flags.upper);
    }
    var zeroed := WithZeros(digits, prec, width, flags);
    var n := KeptForPrefix(|zeroed|, base, prec, width, flags);
    KeptEnough(digits, base, prec, width, flags);
    var s := Stored(digits, false, base, prec, width, flags);
    assert s == WithPrefix(zeroed, base, prec, width, flags);
    PrefixAfterKept(zeroed, base, prec, width, flags);
    if n < |digits| {
      PrefixIsNoDigit(digits[n], base, flags.upper);
      assert zeroed[n] == digits[n];
    } else {
      assert zeroed[..n][..|digits|] == digits;
    }
  }

  /** Whether the room for the prefix is taken from the digits or from the zeros. */
  lemma KeptEnough(digits: string, base: nat, prec: nat, width: nat, flags: Flags)
    requires 0 < |digits| <= BUFFER && (flags.precision || prec == 0) && (base == 16 ==> |digits| < BUFFER)
    ensures var zeroed := WithZeros(digits, prec, width, flags);
            var n := KeptForPrefix(|zeroed|, base, prec, width, flags);
            digits <= zeroed && n >= |digits| - 2
            && (n < |digits| <==> !flags.precision
                                  && (width == |digits|
                                      || (base == 16 && flags.zeroPad && !flags.padLeft && width == |digits| + 1)))
            && (n < |digits| && base != 16 ==> n == |digits| - 1)
  {
    hide Repeat;
  }

  /** The text that stays is followed by 'x', 'X', 'b' or '0' wherever something was cut off. */
  lemma PrefixAfterKept(buf: string, base: nat, prec: nat, width: nat, flags: Flags)
    requires |buf| <= BUFFER && flags.hash
    ensures var n := KeptForPrefix(|buf|, base, prec, width, flags);
            var s := WithPrefix(buf, base, prec, width, flags);
            buf[..n] <= s
            && (n < |buf| ==> |s| > n && s[n] == if base == 16 then (if flags.upper then 'X' else 'x')
                                                 else if base == 2 then 'b' else '0')
  {
    hide KeptForPrefix;
  }

  lemma PrefixIsNoDigit(c: char, base: nat, upper: bool)
    requires base in {2, 8, 16} && DigitIn(c, base, upper)
    ensures c != 'x' && c != 'X' && (base == 2 ==> c != 'b')
  {}

  function Prefix(base: nat, flags: Flags): string {
    if base == 16 then (if flags.upper then "0X" else "0x") else if base == 2 then "0b" else "0"
  }

  /** The columns the code frees for the prefix. */
  function FreedColumns(base: nat): nat {
    if base == 16 then 2 else 1
  }

  /** All digits are kept and the whole prefix finds room, for `n` digits. */
  predicate FullPrefix(n: nat, base: nat, prec: nat, width: nat, flags: Flags) {
    var mark := |Prefix(base, flags)|;
    var zeroPadded := flags.zeroPad && !flags.padLeft;
    && (flags.precision || !(width == n || (base == 16 && zeroPadded && width == n + 1)))
    && (flags.padLeft || prec + mark <= BUFFER)
    && (zeroPadded ==> width + mark <= BUFFER + if flags.precision then 0 else FreedColumns(base))
  }

  /** The zeros between prefix and digits. */
  function PrefixZeros(n: nat, base: nat, prec: nat, width: nat, flags: Flags): int {
    if flags.padLeft then 0
    else if flags.precision then Max(Max(prec, if flags.zeroPad then width else 0) - n, 0)
    else if flags.zeroPad && width > n then width - n - FreedColumns(base)
    else 0
  }

  lemma PrefixRoom(n: nat, base: nat, prec: nat, width: nat, flags: Flags)
    requires base in {2, 8, 16} && 0 < n <= BUFFER - 2 && (flags.precision || prec == 0)
    ensures var kept := KeptForPrefix(n + ZeroCount(n, prec, width, flags), base, prec, width, flags);
            && (kept >= n && kept + |Prefix(base, flags)| <= BUFFER <==> FullPrefix(n, base, prec, width, flags))
            && (FullPrefix(n, base, prec, width, flags) ==> kept == n + PrefixZeros(n, base, prec, width, flags))
  {}

  /**
   * The layout with '#', for every width and precision with which all digits and the prefix are kept:
   * padding, prefix, zeros, digits. No padding goes in front of a zero-padded field.
   */
  lemma PrefixLayout(digits: string, base: nat, prec: nat, width: nat, flags: Flags)
    requires base in {2, 8, 16} && flags.hash && !Signed(false, flags)
    requires 0 < |digits| <= BUFFER - 2 && (flags.precision || prec == 0)
    requires FullPrefix(|digits|, base, prec, width, flags)
    ensures var mark, n := Prefix(base, flags), |digits|;
            var zeros := PrefixZeros(n, base, prec, width, flags);
            var gap := width - n - zeros - |mark|;
            && (flags.zeroPad && !flags.padLeft ==> gap <= 0)
            && Field(digits, false, base, prec, width, flags)
               == if flags.padLeft then Columns(0, mark, 0, digits, gap) else Columns(gap, mark, zeros, digits, 0)
  {
    hide Stored, Reverse, Repeat, Columns, Justified, FullPrefix, KeptForPrefix;
    var mark, n := Prefix(base, flags), |digits|;
    PrefixRoom(n, base, prec, width, flags);
    PrefixGap(n, base, prec, width, flags);
    StoredWithPrefix(digits, base, prec, width, flags);
    JustifiedColumns(digits, PrefixZeros(n, base, prec, width, flags), mark, width, flags);
  }

  lemma PrefixGap(n: nat, base: nat, prec: nat, width: nat, flags: Flags)
    requires FullPrefix(n, base, prec, width, flags) && base in {2, 8, 16}
    ensures flags.zeroPad && !flags.padLeft ==> width <= n + PrefixZeros(n, base, prec, width, flags) + |Prefix(base, flags)|
  {}

  lemma StoredWithPrefix(digits: string, base: nat, prec: nat, width: nat, flags: Flags)
    requires base in {2, 8, 16} && flags.hash && !Signed(false, flags)
    requires 0 < |digits| <= BUFFER - 2 && (flags.precision || prec == 0)
    requires FullPrefix(|digits|, base, prec, width, flags)
    ensures PrefixZeros(|digits|, base, prec, width, flags) >= 0
    ensures Stored(digits, false, base, prec, width, flags)
         == digits + Repeat('0', PrefixZeros(|digits|, base, prec, width, flags)) + Reverse(Prefix(base, flags))
  {
    hide Repeat, WithPrefix, WithZeros, KeptForPrefix, FullPrefix, PrefixZeros;
    var n := |digits|;
    var all := ZeroCount(n, prec, width, flags);
    var zeroed := WithZeros(digits, prec, width, flags);
    ZerosBehind(digits, prec, width, flags);
    PrefixRoom(n, base, prec, width, flags);
    PrefixAppended(zeroed, base, prec, width, flags);
    FewerZeros(digits, all, PrefixZeros(n, base, prec, width, flags));
  }

  lemma FewerZeros(digits: string, all: nat, zeros: nat)
    requires zeros <= all
    ensures (digits + Repeat('0', all))[..|digits| + zeros] == digits + Repeat('0', zeros)
  {}

  lemma PrefixAppended(buf: string, base: nat, prec: nat, width: nat, flags: Flags)
    requires base in {2, 8, 16} && flags.hash && |buf| <= BUFFER
    requires KeptForPrefix(|buf|, base, prec, width, flags) + |Prefix(base, flags)| <= BUFFER
    ensures WithPrefix(buf, base, prec, width, flags)
         == buf[..KeptForPrefix(|buf|, base, prec, width, flags)] + Reverse(Prefix(base, flags))
  {
    hide KeptForPrefix;
    PrefixReversed(base, flags);
  }

  lemma PrefixReversed(base: nat, flags: Flags)
    ensures Reverse(Prefix(base, flags))
         == if base == 16 then (if flags.upper then "X0" else "x0") else if base == 2 then "b0" else "0"
  {
    ReverseAppend("0", "x");
    ReverseAppend("0", "X");
    ReverseAppend("0", "b");
    assert "0" + "x" == "0x" && "0" + "X" == "0X" && "0" + "b" == "0b";
    assert "x" + "0" == "x0" && "X" + "0" == "X0" && "b" + "0" == "b0";
    ReverseSign("0");
    ReverseSign("x");
    ReverseSign("X");
    ReverseSign("b");
  }
}
