/**
 * Formats at which the printer does less than it could (lib/common/vsnprintf.cpp): inputs for each
 * condition that Digits, Fields, Directives and Spellings state exactly.
 */
module PrinterLimits {
  import opened Machine
  import opened Powers
  import opened Digits
  import opened Fields
  import opened Directives
  import opened Spellings

  lemma TwoFigures(a: char, b: char)
    requires IsDigit(a) && IsDigit(b)
    ensures Decimal([a, b]) == 10 * DigitValue(a) + DigitValue(b)
  {
    DecimalEmpty();
    assert "" + [a] == [a] && [a] + [b] == [a, b];
    DecimalNext("", a);
    DecimalNext([a], b);
  }

  lemma OneFigure(a: char)
    requires IsDigit(a)
    ensures Decimal([a]) == DigitValue(a)
  {
    DecimalEmpty();
    assert "" + [a] == [a];
    DecimalNext("", a);
  }

  /** The format `%040d` prints -5 without its minus. */
  lemma MinusLost()
    ensures var r := Render("%040d", [Num(0xFFFF_FFFB)]); r.stop == Complete && '-' !in r.text
  {
    hide Render, Spell, IntegerField, Decimal;
    var sp := Spelling("0", Figures("40"), None, "", 'd');
    assert "%" + Spell(sp) == "%040d" by {
      DecimalSpelled(sp);
    }
    TwoFigures('4', '0');
    OneDirective(sp, [Num(0xFFFF_FFFB)]);
    SignShown(5, true, 10, 0, 40, NO_FLAGS.(zeroPad := true));
  }

  lemma DecimalSpelled(sp: Spelling)
    requires sp == Spelling("0", Figures("40"), None, "", 'd')
    ensures "%" + Spell(sp) == "%040d"
  {}

  /** The format `%#3x` prints 0x123 as 0x3. */
  lemma DigitsDropped()
    ensures Render("%#3x", [Num(0x123)]) == Outcome("0x3", Complete, [])
  {
    hide Render, Spell, Decimal, DigitsOf, Field;
    var sp := Spelling("#", Figures("3"), None, "", 'x');
    assert "%" + Spell(sp) == "%#3x" by {
      HexSpelled(sp);
    }
    OneFigure('3');
    OneDirective(sp, [Num(0x123)]);
    HexDigits();
    HexField(NO_FLAGS.(hash := true));
  }

  lemma HexSpelled(sp: Spelling)
    requires sp == Spelling("#", Figures("3"), None, "", 'x')
    ensures "%" + Spell(sp) == "%#3x"
  {}

  lemma HexDigits()
    ensures DigitsOf(0x123, 16, false, BUFFER) == "321"
  {
    hide DigitsOf;
    DigitsUnfold(0x123, 16, false, 32);
    DigitsUnfold(0x12, 16, false, 31);
    DigitsUnfold(0x1, 16, false, 30);
  }

  /** One digit is left of "123" when two columns are freed for the prefix. */
  lemma HexField(flags: Flags)
    requires flags == NO_FLAGS.(hash := true)
    ensures Field("321", false, 16, 0, 3, flags) == "0x3"
  {
    hide Reverse, Repeat;
    NoRepeat('0', -3);
    NoRepeat(' ', 0);
    assert ZerosTo("321", 0) == "321";
    assert Stored("321", false, 16, 0, 3, flags) == "3x0";
    ReverseAppend("3x", "0");
    ReverseAppend("3", "x");
    ReverseSign("3");
    ReverseSign("x");
    ReverseSign("0");
    assert "3x" + "0" == "3x0" && "3" + "x" == "3x" && "0" + ("x" + "3") == "0x3";
  }

  /** The format `%5.4s` prints "ab" in six columns. */
  lemma ColumnTooMany()
    ensures var r := Render("%5.4s", [Text("ab")]); r.stop == Complete && |r.text| == 6
  {
    hide Render, Spell, Decimal;
    var sp := Spelling("", Figures("5"), Some(Figures("4")), "", 's');
    assert "%" + Spell(sp) == "%5.4s" by {
      StringSpelled(sp);
    }
    OneFigure('5');
    OneFigure('4');
    OneDirective(sp, [Text("ab")]);
  }

  lemma StringSpelled(sp: Spelling)
    requires sp == Spelling("", Figures("5"), Some(Figures("4")), "", 's')
    ensures "%" + Spell(sp) == "%5.4s"
  {}

  /** The format `%lb` prints 2^32 as zeros. */
  lemma HighBitsLost()
    ensures var r := Render("%lb", [Num(TWO32)]); r.stop == Complete && forall c <- r.text :: c == '0'
  {
    hide Render, Spell, Field, DigitsOf, Reverse, Repeat;
    var sp := Spelling("", Absent, None, "l", 'b');
    assert "%" + Spell(sp) == "%lb" by {
      BinarySpelled(sp);
    }
    PowerValues();
    OneDirective(sp, [Num(TWO32)]);
    var digits := DigitsOf(TWO32, 2, false, BUFFER);
    var flags := NO_FLAGS.(wide := true);
    LowZeros(32, 32);
    PlainField(digits, 2, 0, 0, flags);
    NoRepeat(' ', 0 - |digits| - ZeroCount(|digits|, 0, 0, flags));
    forall c ensures c in Reverse(digits) <==> c in digits {
      ReverseMembers(digits, c);
    }
  }

  lemma BinarySpelled(sp: Spelling)
    requires sp == Spelling("", Absent, None, "l", 'b')
    ensures "%" + Spell(sp) == "%lb"
  {}

  /** The lowest `n` binary digits of 2^m, m at least n, are zeros. */
  lemma {:induction false} LowZeros(m: nat, n: nat)
    requires n <= m
    ensures forall c <- DigitsOf(Pow(2, m), 2, false, n) :: c == '0'
  {
    hide Pow, DigitsOf;
    if n == 0 {
      NoRoom(Pow(2, m), 2, false);
    } else {
      PowStep(2, m);
      DigitsUnfold(Pow(2, m), 2, false, n);
      LowZeros(m - 1, n - 1);
    }
  }

  /** The format `%` ends inside a directive: the code steps over the terminator. */
  lemma PercentAlone()
    ensures Render("%", []).stop == PastEnd && !IsFormat("%")
  {
    FormatsEndWell("%");
  }

  /** So does `%-5l`, whatever the arguments. */
  lemma SettingsAlone(args: seq<Arg>)
    ensures Render("%-5l", args).stop == PastEnd && !IsFormat("%-5l")
  {
    hide Decimal;
    var s := Spec(NO_FLAGS, 0, 0, "-5l", args);
    var t := s.(flags := NO_FLAGS.(padLeft := true), rest := "5l");
    assert s.rest[1..] == "5l" && "%-5l"[1..] == "-5l";
    assert SetFlag(s.flags, '-') == Some(t.flags) && SetFlag(t.flags, '5') == None;
    assert ReadFlags(t) == t && ReadFlags(s) == t;
    FiguresRead("5", "l");
    assert "5" + "l" == "5l";
    var w := t.(width := Decimal("5") % TWO32, rest := "l");
    assert ReadWidth(t) == Some(w) && ReadPrecision(w) == Some(w);
    assert "l"[1..] == "";
    assert ReadLength(w).rest == "";
    assert ReadDirective("-5l", args) == Some(ReadLength(w));
    FormatsEndWell("%-5l");
  }
}
