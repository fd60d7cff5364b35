/**
 * Numbers as text (lib/common/vsnprintf.cpp, lib/common/stdlib.cpp): the digits the printer
 * produces, and the parser that reads decimal digits back.
 */
module Digits {
  import opened Machine
  import opened Powers

  // PRINTF_NTOA_BUFFER_SIZE
  const BUFFER: nat := 32

  const TWO32: nat := 0x1_0000_0000

  /** The FLAGS_* bits of a directive. */
  datatype Flags = Flags(zeroPad: bool, padLeft: bool, forcePlus: bool, padSpace: bool, hash: bool,
                         precision: bool, wide: bool, short: bool, byteWide: bool, upper: bool)

  const NO_FLAGS := Flags(false, false, false, false, false, false, false, false, false, false)

  function Repeat(c: char, n: int): (s: string)
    ensures |s| == if n < 0 then 0 else n
    ensures forall i :: 0 <= i < |s| ==> s[i] == c
    decreases if n < 0 then 0 else n
  {
    if n <= 0 then "" else Repeat(c, n - 1) + [c]
  }

  function Reverse(s: string): (r: string)
    ensures |r| == |s|
  {
    if s == "" then "" else Reverse(s[1..]) + [s[0]]
  }

  lemma {:induction false} ReverseAppend(a: string, b: string)
    ensures Reverse(a + b) == Reverse(b) + Reverse(a)
  {
    if a == "" {
      assert a + b == b;
    } else {
      assert (a + b)[1..] == a[1..] + b;
      ReverseAppend(a[1..], b);
    }
  }

  lemma {:induction false} ReverseAt(s: string, i: nat)
    requires i < |s|
    ensures Reverse(s)[i] == s[|s| - 1 - i]
  {
    if i < |s| - 1 {
      ReverseAt(s[1..], i);
    }
  }

  lemma {:induction false} ReverseRepeat(c: char, n: int)
    ensures Reverse(Repeat(c, n)) == Repeat(c, n)
  {
    forall i | 0 <= i < |Repeat(c, n)| ensures Reverse(Repeat(c, n))[i] == c {
      ReverseAt(Repeat(c, n), i);
    }
  }

  // ---- Digits ----

  function DigitChar(d: nat, upper: bool): char
    requires d < 16
  {
    if d < 10 then '0' + d as char else (if upper then 'A' else 'a') + (d - 10) as char
  }

  function DigitValue(c: char): nat {
    if '0' <= c <= '9' then (c - '0') as nat
    else if 'a' <= c <= 'f' then (c - 'a') as nat + 10
    else if 'A' <= c <= 'F' then (c - 'A') as nat + 10
    else 0
  }

  /** The digits of `value`, lowest first, at most `room` of them; zero has one digit. */
  function DigitsOf(value: nat, base: nat, upper: bool, room: nat): (s: string)
    requires 2 <= base <= 16
    ensures |s| <= room
    decreases room
  {
    if room == 0 then ""
    else if value / base == 0 then [DigitChar(value % base, upper)]
    else [DigitChar(value % base, upper)] + DigitsOf(value / base, base, upper, room - 1)
  }

  /** The number digits denote, lowest first. */
  function Denotes(s: string, base: nat): nat {
    if s == "" then 0 else DigitValue(s[0]) + base * Denotes(s[1..], base)
  }

  lemma DigitRoundTrip(d: nat, upper: bool)
    requires d < 16
    ensures DigitValue(DigitChar(d, upper)) == d
  {}

  /** The buffer holds the value modulo base^32: digits beyond it are lost. */
  lemma {:induction false} DigitsDenote(value: nat, base: nat, upper: bool, room: nat)
    requires 2 <= base <= 16
    ensures Denotes(DigitsOf(value, base, upper, room), base) == value % Pow(base, room)
  {
    hide DigitsOf, Denotes, Pow;
    if room == 0 {
      NoRoom(value, base, upper);
      DenotesEmpty(base);
      PowZero(base);
      ModOne(value);
    } else {
      if value / base != 0 {
        DigitsDenote(value / base, base, upper, room - 1);
      }
      DenotesNext(value, base, upper, room);
    }
  }

  lemma ModOne(x: nat)
    ensures x % 1 == 0
  {}

  lemma DenotesNext(value: nat, base: nat, upper: bool, room: nat)
    requires 2 <= base <= 16 && room > 0
    requires value / base != 0 ==>
               Denotes(DigitsOf(value / base, base, upper, room - 1), base) == (value / base) % Pow(base, room - 1)
    ensures Denotes(DigitsOf(value, base, upper, room), base) == value % Pow(base, room)
  {
    hide DigitChar, DigitValue, Denotes, DigitsOf, Pow;
    var d, q, p := value % base, value / base, Pow(base, room - 1);
    var rest := if q == 0 then "" else DigitsOf(q, base, upper, room - 1);
    DigitsUnfold(value, base, upper, room);
    DenotesCons(DigitChar(d, upper), rest, base);
    DigitRoundTrip(d, upper);
    assert Denotes(rest, base) == q % p by {
      if q == 0 {
        DenotesEmpty(base);
        SmallMod(0, p);
      }
    }
    ModPower(value, base, room);
  }

  lemma ModPower(value: nat, base: nat, room: nat)
    requires base > 0 && room > 0
    ensures value % Pow(base, room) == value % base + base * ((value / base) % Pow(base, room - 1))
  {
    hide Pow;
    ModStep(value, base, Pow(base, room - 1));
    PowStep(base, room);
  }

  lemma DigitsUnfold(value: nat, base: nat, upper: bool, room: nat)
    requires 2 <= base <= 16 && room > 0
    ensures DigitsOf(value, base, upper, room)
         == [DigitChar(value % base, upper)]
          + if value / base == 0 then "" else DigitsOf(value / base, base, upper, room - 1)
  {
    hide DigitChar;
  }

  lemma DenotesEmpty(base: nat)
    ensures Denotes("", base) == 0
  {}

  lemma DenotesCons(c: char, s: string, base: nat)
    ensures Denotes([c] + s, base) == DigitValue(c) + base * Denotes(s, base)
  {
    assert ([c] + s)[1..] == s;
  }

  lemma PowerValues()
    ensures Pow(8, 32) >= TWO64 && Pow(10, 32) >= TWO64 && Pow(16, 32) >= TWO64 && Pow(2, 32) == TWO32
  {
    PowChain(2, 4, 16, 256, 65536);
    PowChain(8, 64, 4096, 16777216, 281474976710656);
    PowChain(10, 100, 10000, 100000000, 10000000000000000);
    PowChain(16, 256, 65536, TWO32, TWO64);
  }

  lemma PowChain(base: nat, p2: nat, p4: nat, p8: nat, p16: nat)
    requires p2 == base * base && p4 == p2 * p2 && p8 == p4 * p4 && p16 == p8 * p8
    ensures Pow(base, 32) == p16 * p16
  {
    hide Pow;
    PowSquare(base);
    PowDouble(base, 2);
    PowDouble(base, 4);
    PowDouble(base, 8);
    PowDouble(base, 16);
  }

  /** In bases 8, 10 and 16 every 64-bit value is printed exactly; in base 2 exactly below 2^32. */
  lemma PrintedExactly(value: nat, base: nat, upper: bool)
    requires value < TWO64 && base in {2, 8, 10, 16}
    ensures Denotes(DigitsOf(value, base, upper, BUFFER), base) == value <==> base != 2 || value < TWO32
  {
    DigitsDenote(value, base, upper, BUFFER);
    PowerValues();
    if base != 2 {
      SmallMod(value, Pow(base, BUFFER));
    } else if value < TWO32 {
      SmallMod(value, TWO32);
    }
  }

  // ---- The count of digits ----

  /** A value below base^n takes at most n digits. */
  lemma {:induction false} DigitCount(value: nat, base: nat, upper: bool, room: nat, n: nat)
    requires 2 <= base <= 16 && n > 0 && value < Pow(base, n)
    ensures |DigitsOf(value, base, upper, room)| <= n
    ensures room > 0 ==> |DigitsOf(value, base, upper, room)| > 0
  {
    hide DigitChar, Pow, DigitsOf;
    if room == 0 {
      NoRoom(value, base, upper);
    } else {
      OneDigitLess(value, base, n);
      if value / base != 0 {
        DigitCount(value / base, base, upper, room - 1, n - 1);
      }
      DigitMore(value, base, upper, room, n);
    }
  }

  lemma DigitMore(value: nat, base: nat, upper: bool, room: nat, n: nat)
    requires 2 <= base <= 16 && room > 0 && n > 0
    requires value / base != 0 ==> |DigitsOf(value / base, base, upper, room - 1)| < n
    ensures 0 < |DigitsOf(value, base, upper, room)| <= n
  {
    hide DigitChar, DigitsOf;
    DigitsUnfold(value, base, upper, room);
  }

  lemma NoRoom(value: nat, base: nat, upper: bool)
    requires 2 <= base <= 16
    ensures DigitsOf(value, base, upper, 0) == ""
  {}

  lemma OneDigitLess(value: nat, base: nat, n: nat)
    requires base > 0 && n > 0 && value < Pow(base, n)
    ensures value / base < Pow(base, n - 1)
    ensures value / base != 0 ==> n > 1
  {
    hide Pow;
    PowStep(base, n);
    PowZero(base);
    QuotientBelow(value, base, Pow(base, n - 1));
  }

  lemma QuotientBelow(value: nat, base: nat, p: nat)
    requires base > 0 && value < base * p
    ensures value / base < p
  {
    var q := value / base;
    assert base * (p - q) > 0;
    MultiplesApart(base, p - q);
  }

  /** In base 8 or above 64 bits take at most 22 digits. */
  lemma ShortInLargeBases(value: nat, base: nat, upper: bool)
    requires 8 <= base <= 16 && value < TWO64
    ensures 1 <= |DigitsOf(value, base, upper, BUFFER)| <= 22
  {
    hide Pow, DigitsOf;
    PowGrows(8, base, 22);
    assert Pow(8, 22) >= TWO64 by {
      PowSquare(8);
      PowDouble(8, 2);
      PowDouble(8, 4);
      PowDouble(8, 8);
      PowAdd(8, 16, 4);
      PowAdd(8, 20, 2);
    }
    DigitCount(value, base, upper, BUFFER, 22);
  }

  /** A character the printer uses for some digit of the base. */
  predicate DigitIn(c: char, base: nat, upper: bool)
    requires base <= 16
  {
    exists d: nat :: d < base && c == DigitChar(d, upper)
  }

  lemma IsDigitIn(d: nat, base: nat, upper: bool)
    requires d < base <= 16
    ensures DigitIn(DigitChar(d, upper), base, upper)
  {}

  lemma {:induction false} OnlyDigits(value: nat, base: nat, upper: bool, room: nat)
    requires 2 <= base <= 16
    ensures forall c <- DigitsOf(value, base, upper, room) :: DigitIn(c, base, upper)
  {
    hide DigitChar, DigitsOf, DigitIn;
    if room == 0 {
      NoRoom(value, base, upper);
    } else {
      if value / base != 0 {
        OnlyDigits(value / base, base, upper, room - 1);
      }
      OneDigitMore(value, base, upper, room);
    }
  }

  lemma OneDigitMore(value: nat, base: nat, upper: bool, room: nat)
    requires 2 <= base <= 16 && room > 0
    requires value / base != 0 ==> forall c <- DigitsOf(value / base, base, upper, room - 1) :: DigitIn(c, base, upper)
    ensures forall c <- DigitsOf(value, base, upper, room) :: DigitIn(c, base, upper)
  {
    hide DigitChar, DigitsOf, DigitIn;
    DigitsUnfold(value, base, upper, room);
    IsDigitIn(value % base, base, upper);
  }

  /** No leading zero is printed. */
  lemma {:induction false} NoLeadingZero(value: nat, base: nat, upper: bool, room: nat)
    requires 2 <= base <= 16 && 0 < value < Pow(base, room)
    ensures var s := DigitsOf(value, base, upper, room); s != "" && s[|s| - 1] != '0'
  {
    hide DigitChar, DigitsOf, Pow;
    assert room > 0 by {
      PowZero(base);
    }
    OneDigitLess(value, base, room);
    if value / base != 0 {
      NoLeadingZero(value / base, base, upper, room - 1);
    }
    HighestDigit(value, base, upper, room);
  }

  lemma HighestDigit(value: nat, base: nat, upper: bool, room: nat)
    requires 2 <= base <= 16 && room > 0 && value > 0
    requires value / base != 0 ==>
               var s := DigitsOf(value / base, base, upper, room - 1); s != "" && s[|s| - 1] != '0'
    ensures var s := DigitsOf(value, base, upper, room); s != "" && s[|s| - 1] != '0'
  {
    hide DigitChar, DigitsOf;
    DigitsUnfold(value, base, upper, room);
    if value / base == 0 {
      NonzeroRemainder(value, base);
      ZeroDigit(value % base, upper);
    }
  }

  lemma NonzeroRemainder(value: nat, base: nat)
    requires base > 0 && value > 0 && value / base == 0
    ensures value % base > 0
  {
    assert value == base * (value / base) + value % base;
  }

  lemma ZeroDigit(d: nat, upper: bool)
    requires d < 16
    ensures DigitChar(d, upper) == '0' <==> d == 0
  {}

  // ---- Reading decimal ----

  predicate IsDigit(c: char) {
    '0' <= c <= '9'
  }

  /** One past the run of decimal digits that starts at `from`. */
  function DigitRun(s: string, from: nat): (to: nat)
    requires from <= |s|
    ensures from <= to <= |s|
    decreases |s| - from
  {
    if from < |s| && IsDigit(s[from]) then DigitRun(s, from + 1) else from
  }

  /** The number a decimal text denotes, highest digit first. */
  function Decimal(s: string): nat {
    Denotes(Reverse(s), 10)
  }

  lemma {:induction false} DecimalNext(s: string, c: char)
    ensures Decimal(s + [c]) == 10 * Decimal(s) + DigitValue(c)
  {
    ReverseAppend(s, [c]);
    assert Reverse([c]) == [c];
    DenotesCons(c, Reverse(s), 10);
  }

  lemma AtoiStep(sum: nat, whole: nat, d: nat)
    requires sum == whole % TWO32 && d < 10
    ensures ((sum * 10) % TWO32 + d) % TWO32 == (10 * whole + d) % TWO32
  {
    var q, k := whole / TWO32, (sum * 10) / TWO32;
    var low := (sum * 10) % TWO32 + d;
    assert 10 * whole + d == TWO32 * (10 * q + k) + low;
    ModUnique(10 * whole + d, TWO32, 10 * q + k + low / TWO32, low % TWO32);
  }

  /** `sum` is what `s` denotes, in 32 bits. */
  ghost predicate Reads(sum: nat, s: string) {
    sum == Decimal(s) % TWO32
  }

  lemma ReadsNext(sum: nat, s: string, c: char)
    requires Reads(sum, s) && IsDigit(c)
    ensures Reads(((sum * 10) % TWO32 + DigitValue(c)) % TWO32, s + [c])
  {
    hide Decimal;
    DecimalNext(s, c);
    AtoiStep(sum, Decimal(s), DigitValue(c));
  }

  lemma {:induction false} RunOfDigits(s: string, from: nat, to: nat)
    requires from <= to <= |s| && (to == |s| || !IsDigit(s[to]))
    requires forall i :: from <= i < to ==> IsDigit(s[i])
    ensures DigitRun(s, from) == to
    decreases |s| - from
  {
    if from < to {
      RunOfDigits(s, from + 1, to);
    }
  }

  /** atoi: the digits from `start` on, modulo 2^32; `next` is where the caller's pointer ends. */
  method Atoi(s: string, start: nat) returns (sum: nat, next: nat)
    requires start <= |s|
    ensures next == DigitRun(s, start)
    ensures forall i :: start <= i < next ==> IsDigit(s[i])
    ensures next == |s| || !IsDigit(s[next])
    ensures sum == Decimal(s[start..next]) % TWO32
  {
    hide Reads, Decimal;
    sum, next := 0, start;
    NothingRead(s[start..start]);
    while next < |s| && IsDigit(s[next])
      invariant start <= next <= |s|
      invariant DigitRun(s, next) == DigitRun(s, start)
      invariant forall i :: start <= i < next ==> IsDigit(s[i])
      invariant Reads(sum, s[start..next])
    {
      assert s[start..next + 1] == s[start..next] + [s[next]];
      ReadsNext(sum, s[start..next], s[next]);
      var digit := (s[next] - '0') as nat;
      sum := ((sum * 10) % TWO32 + digit) % TWO32;
      next := next + 1;
    }
    AllRead(sum, s[start..next]);
  }

  lemma NothingRead(s: string)
    requires s == ""
    ensures Reads(0, s)
  {
    DecimalEmpty();
  }

  lemma AllRead(sum: nat, s: string)
    requires Reads(sum, s)
    ensures sum == Decimal(s) % TWO32
  {}

  lemma DecimalEmpty()
    ensures Decimal("") == 0
  {}

  /** Zeros in front of a decimal text do not change what it denotes. */
  lemma {:induction false} LeadingZeros(n: int, s: string)
    ensures Decimal(Repeat('0', n) + s) == Decimal(s)
  {
    ReverseAppend(Repeat('0', n), s);
    ReverseRepeat('0', n);
    TrailingZeros(Reverse(s), n);
  }

  lemma {:induction false} TrailingZeros(s: string, n: int)
    ensures Denotes(s + Repeat('0', n), 10) == Denotes(s, 10)
    decreases |s|, if n < 0 then 0 else n
  {
    if s == "" {
      assert s + Repeat('0', n) == Repeat('0', n);
      if n > 0 {
        assert Repeat('0', n) == ['0'] + Repeat('0', n - 1);
        DenotesCons('0', Repeat('0', n - 1), 10);
        assert "" + Repeat('0', n - 1) == Repeat('0', n - 1);
        TrailingZeros("", n - 1);
      }
    } else {
      assert s + Repeat('0', n) == [s[0]] + (s[1..] + Repeat('0', n));
      DenotesCons(s[0], s[1..] + Repeat('0', n), 10);
      TrailingZeros(s[1..], n);
    }
  }

  lemma {:induction false} ReverseTwice(s: string)
    ensures Reverse(Reverse(s)) == s
  {
    forall i | 0 <= i < |s| ensures Reverse(Reverse(s))[i] == s[i] {
      ReverseAt(Reverse(s), i);
      ReverseAt(s, |s| - 1 - i);
    }
  }
}
