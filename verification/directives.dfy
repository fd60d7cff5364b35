/**
 * What a format means (lib/common/vsnprintf.cpp, _format with COMMON_NO_FLOAT): the directives of a
 * format, the text each one stands for, and the text of the whole.
 */
module Directives {
  import opened Machine
  import opened Digits
  import opened Fields

  type Word = x: nat | x < TWO64

  /** The characters of a C string, without its terminator. */
  type Chars = s: string | '\0' !in s

  /** A variadic argument: an integer or pointer as the 64 bits passed for it, or a string. */
  datatype Arg = Num(bits: Word) | Text(chars: Chars)

  /** A directive as far as it has been read: the settings, and what is left of format and arguments. */
  datatype Spec = Spec(flags: Flags, width: nat, prec: nat, rest: string, args: seq<Arg>)

  /**
   * How printing ends: at the terminator; past it, when the format ends inside a directive; or at an
   * argument that is missing or of the wrong kind.
   */
  datatype Stop = Complete | PastEnd | BadArgument

  datatype Outcome = Outcome(text: string, stop: Stop, args: seq<Arg>)

  /** The character a format pointer is at. */
  function Head(s: string): char {
    if s == "" then '\0' else s[0]
  }

  // ---- Integers ----

  function Unsigned(bits: nat, flags: Flags): nat {
    if flags.wide then bits
    else if flags.byteWide then bits % 0x100
    else if flags.short then bits % 0x1_0000
    else bits % TWO32
  }

  function AsSigned(x: nat, modulus: nat): int {
    if 2 * x < modulus then x else x - modulus
  }

  function Int32(bits: nat): int {
    AsSigned(bits % TWO32, TWO32)
  }

  function SignedValue(bits: nat, flags: Flags): int {
    AsSigned(Unsigned(bits, flags),
             if flags.wide then TWO64
             else if flags.byteWide then 0x100
             else if flags.short then 0x1_0000
             else TWO32)
  }

  function Magnitude(v: int): nat {
    if v < 0 then -v else v
  }

  // ---- Reading a directive ----

  function SetFlag(flags: Flags, c: char): Option<Flags> {
    match c
    case '0' => Some(flags.(zeroPad := true))
    case '-' => Some(flags.(padLeft := true))
    case '+' => Some(flags.(forcePlus := true))
    case ' ' => Some(flags.(padSpace := true))
    case '#' => Some(flags.(hash := true))
    case _ => None
  }

  function ReadFlags(s: Spec): (r: Spec)
    ensures |r.rest| <= |s.rest| && r.args == s.args && r.width == s.width && r.prec == s.prec
    decreases |s.rest|
  {
    match SetFlag(s.flags, Head(s.rest))
    case Some(flags) => ReadFlags(s.(flags := flags, rest := s.rest[1..]))
    case None => s
  }

  /** An int argument, for '*'. */
  function StarValue(args: seq<Arg>): Option<int> {
    if args != [] && args[0].Num? then Some(Int32(args[0].bits)) else None
  }

  function ReadWidth(s: Spec): (r: Option<Spec>)
    ensures r.Some? ==> |r.value.rest| <= |s.rest|
  {
    if IsDigit(Head(s.rest)) then
      var n := DigitRun(s.rest, 0);
      Some(s.(width := Decimal(s.rest[..n]) % TWO32, rest := s.rest[n..]))
    else if Head(s.rest) == '*' then
      match StarValue(s.args)
      case Some(w) =>
        Some(s.(flags := if w < 0 then s.flags.(padLeft := true) else s.flags,
                width := Magnitude(w), rest := s.rest[1..], args := s.args[1..]))
      case None => None
    else Some(s)
  }

  function ReadPrecision(s: Spec): (r: Option<Spec>)
    ensures r.Some? ==> |r.value.rest| <= |s.rest|
  {
    if Head(s.rest) != '.' then Some(s) else
      var t := s.(flags := s.flags.(precision := true), rest := s.rest[1..]);
      if IsDigit(Head(t.rest)) then
        var n := DigitRun(t.rest, 0);
        Some(t.(prec := Decimal(t.rest[..n]) % TWO32, rest := t.rest[n..]))
      else if Head(t.rest) == '*' then
        match StarValue(t.args)
        case Some(v) => Some(t.(prec := if v > 0 then v else 0, rest := t.rest[1..], args := t.args[1..]))
        case None => None
      else Some(t)
  }

  function ReadLength(s: Spec): (r: Spec)
    ensures |r.rest| <= |s.rest| && r.args == s.args
  {
    match Head(s.rest)
    case 'l' =>
      s.(flags := s.flags.(wide := true), rest := if Head(s.rest[1..]) == 'l' then s.rest[2..] else s.rest[1..])
    case 'h' =>
      if Head(s.rest[1..]) == 'h' then
        s.(flags := s.flags.(short := true, byteWide := true), rest := s.rest[2..])
      else
        s.(flags := s.flags.(short := true), rest := s.rest[1..])
    case 'j' => s.(flags := s.flags.(wide := true), rest := s.rest[1..])
    case 'z' => s.(flags := s.flags.(wide := true), rest := s.rest[1..])
    case _ => s
  }

  /** Everything between '%' and the conversion character; None: an argument for '*' is missing. */
  function ReadDirective(rest: string, args: seq<Arg>): (r: Option<Spec>)
    ensures r.Some? ==> |r.value.rest| <= |rest|
  {
    match ReadWidth(ReadFlags(Spec(NO_FLAGS, 0, 0, rest, args)))
    case None => None
    case Some(w) =>
      match ReadPrecision(w)
      case None => None
      case Some(p) => Some(ReadLength(p))
  }

  // ---- What a directive stands for ----

  function BaseOf(c: char): (b: nat)
    ensures b == 2 || b == 8 || b == 10 || b == 16
  {
    if c == 'x' || c == 'X' then 16 else if c == 'o' then 8 else if c == 'b' then 2 else 10
  }

  /** The flags an integer conversion works with. */
  function IntegerFlags(flags: Flags, c: char): Flags {
    var signed := c == 'd' || c == 'i';
    flags.(hash := flags.hash && BaseOf(c) != 10,
           upper := flags.upper || c == 'X',
           forcePlus := flags.forcePlus && signed,
           padSpace := flags.padSpace && signed,
           zeroPad := flags.zeroPad && !flags.precision)
  }

  function IntegerText(bits: nat, c: char, s: Spec): string {
    var flags := IntegerFlags(s.flags, c);
    if c == 'd' || c == 'i' then
      var v := SignedValue(bits, flags);
      IntegerField(Magnitude(v), v < 0, BaseOf(c), s.prec, s.width, flags)
    else
      IntegerField(Unsigned(bits, flags), false, BaseOf(c), s.prec, s.width, flags)
  }

  /** Text with the blanks that bring `counted` columns to the width, on one side or the other. */
  function Padded(text: string, counted: nat, s: Spec): string {
    if s.flags.padLeft then text + Repeat(' ', s.width - counted) else Repeat(' ', s.width - counted) + text
  }

  function CharText(bits: nat, s: Spec): string {
    Padded([(bits % 0x100) as char], 1, s)
  }

  /** How many columns %s takes its text to fill; with a precision this is not the text's length. */
  function CountedColumns(n: nat, s: Spec): nat {
    var l := Min(n, if s.prec > 0 then s.prec else TWO64 - 1) % TWO32;
    if s.flags.precision then (if l < s.prec then 1 else s.prec) else l
  }

  function StringText(chars: string, s: Spec): string {
    Padded(if s.flags.precision then chars[..Min(|chars|, s.prec)] else chars, CountedColumns(|chars|, s), s)
  }

  function PointerText(bits: nat, s: Spec): string {
    IntegerField(bits, false, 16, s.prec, 16, s.flags.(zeroPad := true, upper := true))
  }

  predicate IsInteger(c: char) {
    c == 'd' || c == 'i' || c == 'u' || c == 'x' || c == 'X' || c == 'o' || c == 'b'
  }

  /** The text of a directive and the arguments after it; None: its argument is missing. */
  function Converted(s: Spec): (r: Option<(string, seq<Arg>)>)
    requires s.rest != ""
  {
    var c := s.rest[0];
    if IsInteger(c) || c == 'c' || c == 'p' then
      if s.args == [] || !s.args[0].Num? then None
      else if c == 'c' then Some((CharText(s.args[0].bits, s), s.args[1..]))
      else if c == 'p' then Some((PointerText(s.args[0].bits, s), s.args[1..]))
      else Some((IntegerText(s.args[0].bits, c, s), s.args[1..]))
    else if c == 's' then
      if s.args == [] || !s.args[0].Text? then None
      else Some((StringText(s.args[0].chars, s), s.args[1..]))
    else Some(([c], s.args))
  }

  /** The text a format and its arguments stand for. */
  function Render(format: string, args: seq<Arg>): (r: Outcome)
    decreases |format|
  {
    if format == "" then Outcome("", Complete, args)
    else if format[0] != '%' then Before([format[0]], Render(format[1..], args))
    else
      match ReadDirective(format[1..], args)
      case None => Outcome("", BadArgument, args)
      case Some(s) =>
        if s.rest == "" then Outcome("\0", PastEnd, s.args)
        else
          match Converted(s)
          case None => Outcome("", BadArgument, s.args)
          case Some(done) => Before(done.0, Render(s.rest[1..], done.1))
  }

  function Before(text: string, r: Outcome): Outcome {
    r.(text := text + r.text)
  }

  // ---- Laws ----

  /** With a precision %s fills the width correctly only in these cases: it counts a short text as one column. */
  lemma StringFillsWidth(chars: string, s: Spec)
    requires |chars| < TWO32 && s.prec < TWO32 && (s.flags.precision || s.prec == 0)
    ensures var n := if s.flags.precision then Min(|chars|, s.prec) else |chars|;
            |StringText(chars, s)| == Max(n, s.width)
            <==> !s.flags.precision || |chars| >= s.prec || |chars| == 1 || s.width == 0
                 || (s.width == 1 && |chars| >= 1)
  {
  }

  /**
   * A %u directive, with whatever flags, width and precision, is read back by atoi as its value, up to
   * exactly its end, if and only if it is not padded with blanks and the value is below 2^32.
   */
  lemma UnsignedReadsBack(bits: Word, s: Spec, rest: string)
    requires rest == "" || !IsDigit(rest[0])
    ensures var f, flags, v := IntegerText(bits, 'u', s), IntegerFlags(s.flags, 'u'), Unsigned(bits, s.flags);
            (DigitRun(f + rest, 0) == |f| && Decimal((f + rest)[..|f|]) % TWO32 == v)
            <==> NoBlanks(|Shown(v, 10, flags)|, s.prec, s.width, flags) && v < TWO32
  {
    hide IntegerField, NoBlanks, Shown, Decimal, DigitRun;
    AtoiReadsBack(Unsigned(bits, s.flags), s.prec, s.width, IntegerFlags(s.flags, 'u'), rest);
  }

  /** A text with its percent signs doubled. */
  function Escaped(t: string): string {
    if t == "" then "" else (if t[0] == '%' then "%%" else [t[0]]) + Escaped(t[1..])
  }

  /** An escaped text prints as itself and takes no argument. */
  lemma {:induction false} EscapedRenders(t: string, args: seq<Arg>)
    ensures Render(Escaped(t), args) == Outcome(t, Complete, args)
  {
    hide ReadDirective, Converted;
    if t != "" {
      EscapedRenders(t[1..], args);
      if t[0] == '%' {
        EscapedPercent(Escaped(t[1..]), args);
      } else {
        assert ([t[0]] + Escaped(t[1..]))[1..] == Escaped(t[1..]);
      }
    }
  }

  lemma EscapedPercent(rest: string, args: seq<Arg>)
    ensures Render("%%" + rest, args) == Before("%", Render(rest, args))
  {
    hide ReadDirective;
    var s := Spec(NO_FLAGS, 0, 0, ['%'] + rest, args);
    assert ("%%" + rest)[1..] == ['%'] + rest;
    PercentRead(rest, args);
    assert s.rest[1..] == rest;
    assert Converted(s) == Some((['%'], args));
  }

  lemma PercentRead(rest: string, args: seq<Arg>)
    ensures ReadDirective(['%'] + rest, args) == Some(Spec(NO_FLAGS, 0, 0, ['%'] + rest, args))
  {}

  // What follows a directive does not change how it is read.

  lemma {:induction false} FlagsAppend(s: Spec, g: string)
    requires ReadFlags(s).rest != ""
    ensures ReadFlags(s.(rest := s.rest + g)) == ReadFlags(s).(rest := ReadFlags(s).rest + g)
    decreases |s.rest|
  {
    if SetFlag(s.flags, Head(s.rest)).Some? {
      assert (s.rest + g)[1..] == s.rest[1..] + g;
      FlagsAppend(s.(flags := SetFlag(s.flags, Head(s.rest)).value, rest := s.rest[1..]), g);
    }
  }

  lemma {:induction false} DigitRunAppend(s: string, g: string, from: nat)
    requires from <= |s| && DigitRun(s, from) < |s|
    ensures DigitRun(s + g, from) == DigitRun(s, from)
    decreases |s| - from
  {
    if IsDigit(s[from]) {
      DigitRunAppend(s, g, from + 1);
    }
  }

  lemma NumberAppend(s: string, g: string)
    requires DigitRun(s, 0) < |s|
    ensures var n := DigitRun(s, 0);
            DigitRun(s + g, 0) == n && (s + g)[..n] == s[..n] && (s + g)[n..] == s[n..] + g
  {
    DigitRunAppend(s, g, 0);
  }

  lemma WidthAppend(s: Spec, g: string)
    requires ReadWidth(s).Some? && ReadWidth(s).value.rest != ""
    ensures ReadWidth(s.(rest := s.rest + g)) == Some(ReadWidth(s).value.(rest := ReadWidth(s).value.rest + g))
  {
    hide Decimal, DigitRun;
    if IsDigit(Head(s.rest)) {
      NumberAppend(s.rest, g);
    } else if Head(s.rest) == '*' {
      assert (s.rest + g)[1..] == s.rest[1..] + g;
    }
  }

  lemma PrecisionAppend(s: Spec, g: string)
    requires ReadPrecision(s).Some? && ReadPrecision(s).value.rest != ""
    ensures ReadPrecision(s.(rest := s.rest + g)) == Some(ReadPrecision(s).value.(rest := ReadPrecision(s).value.rest + g))
  {
    hide Decimal, DigitRun;
    if Head(s.rest) == '.' {
      var t := s.rest[1..];
      assert (s.rest + g)[1..] == t + g;
      if IsDigit(Head(t)) {
        NumberAppend(t, g);
      } else if Head(t) == '*' {
        assert (t + g)[1..] == t[1..] + g;
      }
    }
  }

  lemma LengthAppend(s: Spec, g: string)
    requires ReadLength(s).rest != ""
    ensures ReadLength(s.(rest := s.rest + g)) == ReadLength(s).(rest := ReadLength(s).rest + g)
  {
    assert (s.rest + g)[1..] == s.rest[1..] + g;
    if |s.rest| >= 2 {
      assert (s.rest + g)[2..] == s.rest[2..] + g;
    }
  }

  lemma DirectiveAppend(rest: string, args: seq<Arg>, g: string)
    requires ReadDirective(rest, args).Some? && ReadDirective(rest, args).value.rest != ""
    ensures ReadDirective(rest + g, args)
         == Some(ReadDirective(rest, args).value.(rest := ReadDirective(rest, args).value.rest + g))
  {
    hide ReadFlags, ReadWidth, ReadPrecision, ReadLength;
    var s := Spec(NO_FLAGS, 0, 0, rest, args);
    var f := ReadFlags(s);
    FlagsAppend(s, g);
    WidthAppend(f, g);
    PrecisionAppend(ReadWidth(f).value, g);
    LengthAppend(ReadPrecision(ReadWidth(f).value).value, g);
  }

  lemma ConvertedAppend(s: Spec, g: string)
    requires s.rest != ""
    ensures Converted(s.(rest := s.rest + g)) == Converted(s)
  {
    hide IntegerField, IntegerFlags, SignedValue, Unsigned;
    assert (s.rest + g)[0] == s.rest[0];
  }

  /** A format made of complete directives followed by another prints the two texts one after the other. */
  lemma {:induction false} RenderAppend(f: string, g: string, args: seq<Arg>)
    requires Render(f, args).stop == Complete
    ensures Render(f + g, args) == Before(Render(f, args).text, Render(g, Render(f, args).args))
    decreases |f|
  {
    hide ReadDirective, Converted;
    if f == "" {
      assert f + g == g;
    } else {
      assert (f + g)[1..] == f[1..] + g;
      if f[0] != '%' {
        RenderAppend(f[1..], g, args);
      } else {
        var s := ReadDirective(f[1..], args).value;
        DirectiveAppend(f[1..], args, g);
        ConvertedAppend(s, g);
        assert (s.rest + g)[1..] == s.rest[1..] + g;
        RenderAppend(s.rest[1..], g, Converted(s).value.1);
      }
    }
  }
}
