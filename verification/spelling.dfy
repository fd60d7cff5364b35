/**
 * How directives are written (lib/common/vsnprintf.cpp, lines 193-254): a grammar of directives and
 * formats, and the proof that the scanner reads exactly this grammar.
 */
module Spellings {
  import opened Machine
  import opened Digits
  import opened Fields
  import opened Directives

  /** A width or a precision as it stands in a format. */
  datatype Number = Absent | Figures(digits: string) | Star

  /** A directive without its percent sign. */
  datatype Spelling = Spelling(flags: string, width: Number, precision: Option<Number>, length: string, conv: char)

  function NumberText(n: Number): string {
    match n
    case Absent => ""
    case Figures(digits) => digits
    case Star => "*"
  }

  function PrecisionText(p: Option<Number>): string {
    match p
    case None => ""
    case Some(n) => "." + NumberText(n)
  }

  function Spell(sp: Spelling): string {
    sp.flags + (NumberText(sp.width) + (PrecisionText(sp.precision) + (sp.length + [sp.conv])))
  }

  predicate FlagChar(c: char) {
    c == '0' || c == '-' || c == '+' || c == ' ' || c == '#'
  }

  predicate AllFlags(s: string) {
    forall c <- s :: FlagChar(c)
  }

  predicate GoodNumber(n: Number) {
    n.Figures? ==> n.digits != "" && forall c <- n.digits :: IsDigit(c)
  }

  predicate LengthChar(c: char) {
    c == 'l' || c == 'h' || c == 'j' || c == 'z'
  }

  predicate GoodLength(s: string) {
    s == "" || s == "l" || s == "ll" || s == "h" || s == "hh" || s == "j" || s == "z"
  }

  /** A character after number `n` that is not taken for a part of it. */
  predicate EndsNumber(n: Number, c: char) {
    match n
    case Absent => !IsDigit(c) && c != '*'
    case Figures(_) => !IsDigit(c)
    case Star => true
  }

  /** A character after length modifier `s` that is not taken for a part of it. */
  predicate EndsLength(s: string, c: char) {
    if s == "" then !LengthChar(c) else if s == "l" then c != 'l' else if s == "h" then c != 'h' else true
  }

  /** The conversion character cannot be read as more of what stands before it. */
  predicate Ends(sp: Spelling) {
    && EndsLength(sp.length, sp.conv)
    && (sp.length == "" ==>
          match sp.precision
          case Some(n) => EndsNumber(n, sp.conv)
          case None =>
            && sp.conv != '.' && EndsNumber(sp.width, sp.conv)
            && (sp.width.Absent? ==> !FlagChar(sp.conv)))
  }

  predicate Wellformed(sp: Spelling) {
    && AllFlags(sp.flags) && GoodNumber(sp.width) && GoodLength(sp.length)
    && (sp.width.Figures? ==> sp.width.digits[0] != '0')
    && (sp.precision.Some? ==> GoodNumber(sp.precision.value))
    && Ends(sp)
  }

  // ---- What a spelling means ----

  /** The number, and the arguments after the one a star takes. */
  function NumberValue(n: Number, args: seq<Arg>): Option<(int, seq<Arg>)> {
    match n
    case Absent => Some((0, args))
    case Figures(digits) => Some((Decimal(digits) % TWO32, args))
    case Star => if args != [] && args[0].Num? then Some((Int32(args[0].bits), args[1..])) else None
  }

  /** The settings of a spelled directive; flags count however often and in whatever order they stand. */
  function Settings(sp: Spelling, width: int): Flags {
    Flags('0' in sp.flags, '-' in sp.flags || width < 0, '+' in sp.flags, ' ' in sp.flags, '#' in sp.flags,
          sp.precision.Some?, sp.length == "l" || sp.length == "ll" || sp.length == "j" || sp.length == "z",
          sp.length == "h" || sp.length == "hh", sp.length == "hh", false)
  }

  /** What a spelled directive followed by `rest` asks for; None: an argument for a star is missing. */
  function Meaning(sp: Spelling, rest: string, args: seq<Arg>): (r: Option<Spec>)
    ensures r.Some? ==> r.value.rest == [sp.conv] + rest
  {
    match NumberValue(sp.width, args)
    case None => None
    case Some(w) =>
      match if sp.precision.Some? then NumberValue(sp.precision.value, w.1) else Some((0, w.1))
      case None => None
      case Some(p) =>
        Some(Spec(Settings(sp, w.0), Magnitude(w.0), if p.0 > 0 then p.0 else 0, [sp.conv] + rest, p.1))
  }

  // ---- The scanner reads spellings ----

  function Marked(flags: Flags, s: string): Flags {
    Mark(flags, '0' in s, '-' in s, '+' in s, ' ' in s, '#' in s)
  }

  function Mark(flags: Flags, zero: bool, left: bool, plus: bool, space: bool, hash: bool): Flags {
    flags.(zeroPad := flags.zeroPad || zero, padLeft := flags.padLeft || left, forcePlus := flags.forcePlus || plus,
           padSpace := flags.padSpace || space, hash := flags.hash || hash)
  }

  lemma {:induction false} FlagsRead(s: Spec, f: string, t: string)
    requires s.rest == f + t && AllFlags(f) && !FlagChar(Head(t))
    ensures ReadFlags(s) == s.(flags := Marked(s.flags, f), rest := t)
    decreases |f|
  {
    if f == "" {
      assert s.rest == t;
    } else {
      var c, u := f[0], f[1..];
      OneFlag(s.flags, c, u);
      assert f == [c] + u;
      assert s.rest[0] == c && s.rest[1..] == u + t;
      FlagsRead(s.(flags := SetFlag(s.flags, c).value, rest := u + t), u, t);
    }
  }

  lemma OneFlag(flags: Flags, c: char, u: string)
    requires FlagChar(c)
    ensures SetFlag(flags, c).Some? && Marked(SetFlag(flags, c).value, u) == Marked(flags, [c] + u)
  {
    hide Mark, SetFlag;
    forall x: char ensures x in [c] + u <==> c == x || x in u {}
    SetIsMark(flags, c);
    MarkTwice(flags, c == '0', c == '-', c == '+', c == ' ', c == '#', '0' in u, '-' in u, '+' in u, ' ' in u, '#' in u);
  }

  lemma SetIsMark(flags: Flags, c: char)
    requires FlagChar(c)
    ensures SetFlag(flags, c) == Some(Mark(flags, c == '0', c == '-', c == '+', c == ' ', c == '#'))
  {}

  lemma MarkTwice(flags: Flags, a: bool, b: bool, c: bool, d: bool, e: bool,
                  a': bool, b': bool, c': bool, d': bool, e': bool)
    ensures Mark(Mark(flags, a, b, c, d, e), a', b', c', d', e') == Mark(flags, a || a', b || b', c || c', d || d', e || e')
  {}

  lemma FiguresRead(digits: string, t: string)
    requires digits != "" && (forall c <- digits :: IsDigit(c)) && !IsDigit(Head(t))
    ensures IsDigit(Head(digits + t)) && DigitRun(digits + t, 0) == |digits|
    ensures (digits + t)[..|digits|] == digits && (digits + t)[|digits|..] == t
  {
    var s := digits + t;
    forall i | 0 <= i < |digits| ensures IsDigit(s[i]) {
      assert s[i] == digits[i];
    }
    RunOfDigits(s, 0, |digits|);
  }

  lemma WidthRead(s: Spec, n: Number, t: string)
    requires s.rest == NumberText(n) + t && GoodNumber(n) && EndsNumber(n, Head(t))
    ensures ReadWidth(s)
         == match NumberValue(n, s.args)
            case None => None
            case Some(w) => Some(s.(flags := s.flags.(padLeft := s.flags.padLeft || w.0 < 0),
                                    width := if n.Absent? then s.width else Magnitude(w.0), rest := t, args := w.1))
  {
    hide Decimal, DigitRun;
    match n
    case Absent => assert s.rest == t;
    case Figures(digits) => FiguresRead(digits, t);
    case Star => assert s.rest[1..] == t;
  }

  lemma PrecisionRead(s: Spec, p: Option<Number>, t: string)
    requires s.rest == PrecisionText(p) + t && (p.Some? ==> GoodNumber(p.value) && EndsNumber(p.value, Head(t)))
    requires p.None? ==> Head(t) != '.'
    requires s.prec == 0
    ensures ReadPrecision(s)
         == match if p.Some? then NumberValue(p.value, s.args) else Some((0, s.args))
            case None => None
            case Some(v) => Some(s.(flags := s.flags.(precision := s.flags.precision || p.Some?),
                                    prec := if v.0 > 0 then v.0 else 0, rest := t, args := v.1))
  {
    hide Decimal, DigitRun;
    match p
    case None => assert s.rest == t;
    case Some(n) =>
      assert s.rest[1..] == NumberText(n) + t;
      match n
      case Absent => assert s.rest[1..] == t;
      case Figures(digits) => FiguresRead(digits, t);
      case Star => assert s.rest[1..][1..] == t;
  }

  lemma LengthRead(s: Spec, m: string, t: string)
    requires s.rest == m + t && GoodLength(m) && EndsLength(m, Head(t))
    ensures ReadLength(s)
         == s.(flags := s.flags.(wide := s.flags.wide || m == "l" || m == "ll" || m == "j" || m == "z",
                                 short := s.flags.short || m == "h" || m == "hh",
                                 byteWide := s.flags.byteWide || m == "hh"),
               rest := t)
  {
    if m == "" {
      assert s.rest == t;
    } else if |m| == 1 {
      assert s.rest[1..] == t;
    } else {
      assert s.rest[1..] == m[1..] + t && s.rest[2..] == t;
    }
  }

  /** What can follow the parts of a spelling. */
  lemma Followers(sp: Spelling, rest: string)
    requires Wellformed(sp)
    ensures var c := [sp.conv] + rest;
            var l := sp.length + c;
            var p := PrecisionText(sp.precision) + l;
            && EndsLength(sp.length, Head(c))
            && (sp.precision.None? ==> Head(l) != '.')
            && (sp.precision.Some? ==> EndsNumber(sp.precision.value, Head(l)))
            && EndsNumber(sp.width, Head(p))
            && !FlagChar(Head(NumberText(sp.width) + p))
  {
    var c := [sp.conv] + rest;
    var l := sp.length + c;
    var p := PrecisionText(sp.precision) + l;
    HeadOf([sp.conv], rest);
    HeadOf(sp.length, c);
    HeadOf(PrecisionText(sp.precision), l);
    HeadOf(NumberText(sp.width), p);
    assert sp.width.Figures? ==> sp.width.digits[0] in sp.width.digits;
  }

  lemma HeadOf(a: string, b: string)
    ensures Head(a + b) == if a == "" then Head(b) else a[0]
  {
    if a == "" {
      assert a + b == b;
    }
  }

  /** A spelling and what follows it, part by part. */
  lemma SpellTail(sp: Spelling, rest: string)
    ensures Spell(sp) + rest
         == sp.flags + (NumberText(sp.width) + (PrecisionText(sp.precision) + (sp.length + ([sp.conv] + rest))))
  {
    hide NumberText, PrecisionText;
  }

  /** A spelled directive, whatever follows it, is read as what it means. */
  lemma SpelledRead(sp: Spelling, rest: string, args: seq<Arg>)
    requires Wellformed(sp)
    ensures ReadDirective(Spell(sp) + rest, args) == Meaning(sp, rest, args)
  {
    hide Decimal, DigitRun, ReadFlags, ReadWidth, ReadPrecision, ReadLength, Spell, NumberText, PrecisionText;
    var c := [sp.conv] + rest;
    var l := sp.length + c;
    var p := PrecisionText(sp.precision) + l;
    var w := NumberText(sp.width) + p;
    Followers(sp, rest);
    SpellTail(sp, rest);
    var s := Spec(NO_FLAGS, 0, 0, sp.flags + w, args);
    FlagsRead(s, sp.flags, w);
    var f := ReadFlags(s);
    WidthRead(f, sp.width, p);
    if ReadWidth(f).Some? {
      var g := ReadWidth(f).value;
      PrecisionRead(g, sp.precision, l);
      if ReadPrecision(g).Some? {
        LengthRead(ReadPrecision(g).value, sp.length, c);
      }
    }
  }

  // ---- Everything the scanner reads is a spelling ----

  lemma {:induction false} FlagsSpelled(s: Spec) returns (f: string)
    ensures s.rest == f + ReadFlags(s).rest && AllFlags(f) && !FlagChar(Head(ReadFlags(s).rest))
    decreases |s.rest|
  {
    if SetFlag(s.flags, Head(s.rest)).Some? {
      f := FlagsSpelled(s.(flags := SetFlag(s.flags, Head(s.rest)).value, rest := s.rest[1..]));
      f := [s.rest[0]] + f;
    } else {
      f := "";
    }
  }

  lemma FiguresSpelled(s: string)
    requires IsDigit(Head(s))
    ensures var n := DigitRun(s, 0);
            n > 0 && (forall c <- s[..n] :: IsDigit(c)) && !IsDigit(Head(s[n..])) && s == s[..n] + s[n..]
  {
    RunIsDigits(s, 0);
    RunStops(s, 0);
  }

  lemma {:induction false} RunStops(s: string, from: nat)
    requires from <= |s|
    ensures DigitRun(s, from) == |s| || !IsDigit(s[DigitRun(s, from)])
    ensures from < |s| && IsDigit(s[from]) ==> DigitRun(s, from) > from
    decreases |s| - from
  {
    if from < |s| && IsDigit(s[from]) {
      RunStops(s, from + 1);
    }
  }

  /** What is left behind a number. */
  function AfterNumber(s: string): string {
    if IsDigit(Head(s)) then s[DigitRun(s, 0)..] else if Head(s) == '*' then s[1..] else s
  }

  lemma NumberSpelled(s: string) returns (n: Number)
    ensures s == NumberText(n) + AfterNumber(s) && GoodNumber(n) && EndsNumber(n, Head(AfterNumber(s)))
    ensures (n.Figures? ==> n.digits[0] == s[0]) && (n.Absent? ==> AfterNumber(s) == s)
  {
    hide DigitRun;
    if IsDigit(Head(s)) {
      FiguresSpelled(s);
      n := Figures(s[..DigitRun(s, 0)]);
    } else if Head(s) == '*' {
      n := Star;
    } else {
      n := Absent;
    }
  }

  lemma WidthSpelled(s: Spec) returns (n: Number)
    requires ReadWidth(s).Some? && !FlagChar(Head(s.rest))
    ensures var t := ReadWidth(s).value.rest;
            s.rest == NumberText(n) + t && GoodNumber(n) && EndsNumber(n, Head(t))
            && (n.Figures? ==> n.digits[0] != '0') && (n.Absent? ==> t == s.rest)
  {
    hide Decimal, DigitRun, EndsNumber, StarValue;
    n := NumberSpelled(s.rest);
    assert ReadWidth(s).value.rest == AfterNumber(s.rest);
  }

  lemma PrecisionRest(s: Spec)
    requires ReadPrecision(s).Some?
    ensures ReadPrecision(s).value.rest == if Head(s.rest) != '.' then s.rest else AfterNumber(s.rest[1..])
  {
    hide Decimal, DigitRun, StarValue;
  }

  lemma PrecisionSpelled(s: Spec) returns (p: Option<Number>)
    requires ReadPrecision(s).Some?
    ensures var t := ReadPrecision(s).value.rest;
            s.rest == PrecisionText(p) + t
            && (p.Some? ==> GoodNumber(p.value) && EndsNumber(p.value, Head(t)))
            && (p.None? ==> Head(t) != '.' && t == s.rest)
  {
    hide ReadPrecision, AfterNumber, GoodNumber, EndsNumber, NumberText;
    PrecisionRest(s);
    if Head(s.rest) != '.' {
      p := None;
    } else {
      var n := NumberSpelled(s.rest[1..]);
      p := Some(n);
      assert s.rest == "." + s.rest[1..];
      assert "." + (NumberText(n) + AfterNumber(s.rest[1..])) == "." + NumberText(n) + AfterNumber(s.rest[1..]);
    }
  }

  lemma LengthSpelled(s: Spec) returns (m: string)
    ensures var t := ReadLength(s).rest;
            s.rest == m + t && GoodLength(m) && EndsLength(m, Head(t)) && (m == "" ==> t == s.rest)
  {
    var n := |s.rest| - |ReadLength(s).rest|;
    m := s.rest[..n];
  }

  /** Whatever is read as a whole directive is spelled one. */
  lemma DirectiveSpelled(rest: string, args: seq<Arg>) returns (sp: Spelling)
    requires ReadDirective(rest, args).Some? && ReadDirective(rest, args).value.rest != ""
    ensures var t := ReadDirective(rest, args).value.rest;
            Wellformed(sp) && sp.conv == t[0] && rest == Spell(sp) + t[1..]
  {
    hide ReadFlags, ReadWidth, ReadPrecision, ReadLength, Spell, Wellformed, NumberText, PrecisionText,
      GoodNumber, GoodLength, AllFlags, EndsNumber, EndsLength, FlagChar;
    var s := Spec(NO_FLAGS, 0, 0, rest, args);
    var f := FlagsSpelled(s);
    var g := ReadFlags(s);
    var w := WidthSpelled(g);
    var h := ReadWidth(g).value;
    var p := PrecisionSpelled(h);
    var k := ReadPrecision(h).value;
    var m := LengthSpelled(k);
    var t := ReadLength(k).rest;
    sp := Spelling(f, w, p, m, t[0]);
    PartsJoined(sp, rest, g.rest, h.rest, k.rest, t);
    PartsAreGood(sp, g.rest, h.rest, k.rest, t);
  }

  lemma PartsJoined(sp: Spelling, rest: string, g: string, h: string, k: string, t: string)
    requires rest == sp.flags + g && g == NumberText(sp.width) + h && h == PrecisionText(sp.precision) + k && k == sp.length + t
    requires t != "" && sp.conv == t[0]
    ensures rest == Spell(sp) + t[1..]
  {
    hide Spell, NumberText, PrecisionText;
    assert t == [sp.conv] + t[1..];
    SpellTail(sp, t[1..]);
  }

  /** A spelling whose parts were each read as far as they go. */
  lemma PartsAreGood(sp: Spelling, g: string, h: string, k: string, t: string)
    requires t != "" && sp.conv == t[0]
    requires AllFlags(sp.flags) && !FlagChar(Head(g))
    requires GoodNumber(sp.width) && EndsNumber(sp.width, Head(h)) && (sp.width.Figures? ==> sp.width.digits[0] != '0')
    requires sp.width.Absent? ==> h == g
    requires sp.precision.Some? ==> GoodNumber(sp.precision.value) && EndsNumber(sp.precision.value, Head(k))
    requires sp.precision.None? ==> Head(k) != '.' && k == h
    requires GoodLength(sp.length) && EndsLength(sp.length, Head(t)) && (sp.length == "" ==> t == k)
    ensures Wellformed(sp)
  {
    hide FlagChar, IsDigit, LengthChar;
  }

  // ---- Formats ----

  /** A format is made of ordinary characters and directives. */
  datatype Piece = Literal(c: char) | Directive(sp: Spelling)

  predicate Good(p: Piece) {
    match p
    case Literal(c) => c != '%'
    case Directive(sp) => Wellformed(sp)
  }

  function PieceText(p: Piece): string {
    match p
    case Literal(c) => [c]
    case Directive(sp) => "%" + Spell(sp)
  }

  function FormatText(ps: seq<Piece>): string {
    if ps == [] then "" else PieceText(ps[0]) + FormatText(ps[1..])
  }

  /** Every percent sign of the format begins a whole directive. */
  ghost predicate IsFormat(f: string) {
    exists ps :: (forall p <- ps :: Good(p)) && FormatText(ps) == f
  }

  /** What a format prints, piece by piece. */
  function Print(ps: seq<Piece>, args: seq<Arg>): (r: Outcome)
    ensures r.stop != PastEnd
  {
    if ps == [] then Outcome("", Complete, args)
    else
      match ps[0]
      case Literal(c) => Before([c], Print(ps[1..], args))
      case Directive(sp) =>
        match Meaning(sp, "", args)
        case None => Outcome("", BadArgument, args)
        case Some(s) =>
          match Converted(s)
          case None => Outcome("", BadArgument, s.args)
          case Some(done) => Before(done.0, Print(ps[1..], done.1))
  }

  /** A format prints what its pieces print. */
  lemma {:induction false} FormatRenders(ps: seq<Piece>, args: seq<Arg>)
    requires forall p <- ps :: Good(p)
    ensures Render(FormatText(ps), args) == Print(ps, args)
    decreases |ps|
  {
    hide ReadDirective, Converted, Wellformed, Meaning;
    if ps != [] {
      var tail := FormatText(ps[1..]);
      assert Good(ps[0]);
      match ps[0]
      case Literal(c) =>
        assert ([c] + tail)[1..] == tail;
        FormatRenders(ps[1..], args);
      case Directive(sp) =>
        var text := "%" + Spell(sp) + tail;
        assert text[0] == '%' && text[1..] == Spell(sp) + tail;
        SpelledRead(sp, tail, args);
        MeaningTail(sp, tail, args);
        if Meaning(sp, "", args).Some? {
          var s := Meaning(sp, "", args).value;
          ConvertedAppend(s, tail);
          assert (s.rest + tail)[1..] == tail;
          if Converted(s).Some? {
            FormatRenders(ps[1..], Converted(s).value.1);
          }
        }
    }
  }

  lemma MeaningTail(sp: Spelling, rest: string, args: seq<Arg>)
    ensures Meaning(sp, "", args).None? <==> Meaning(sp, rest, args).None?
    ensures Meaning(sp, "", args).Some? ==>
              var s := Meaning(sp, "", args).value;
              s.rest == [sp.conv] && Meaning(sp, rest, args).value == s.(rest := s.rest + rest)
  {
    hide Decimal;
  }

  /** Whatever is printed to its end is a format. */
  lemma {:induction false} CompleteIsFormat(f: string, args: seq<Arg>) returns (ps: seq<Piece>)
    requires Render(f, args).stop == Complete
    ensures (forall p <- ps :: Good(p)) && FormatText(ps) == f
    decreases |f|
  {
    hide ReadDirective, Converted, Wellformed, Spell;
    if f == "" {
      ps := [];
    } else if f[0] != '%' {
      ps := CompleteIsFormat(f[1..], args);
      ps := [Literal(f[0])] + ps;
    } else {
      var s := ReadDirective(f[1..], args).value;
      var sp := DirectiveSpelled(f[1..], args);
      var tail := CompleteIsFormat(s.rest[1..], Converted(s).value.1);
      ps := [Directive(sp)] + tail;
      assert f == "%" + f[1..];
    }
  }

  // ---- Enough arguments ----

  lemma {:induction false} FlagsTakeNone(s: Spec, args: seq<Arg>)
    ensures ReadFlags(s.(args := args)) == ReadFlags(s).(args := args)
    decreases |s.rest|
  {
    if SetFlag(s.flags, Head(s.rest)).Some? {
      FlagsTakeNone(s.(flags := SetFlag(s.flags, Head(s.rest)).value, rest := s.rest[1..]), args);
    }
  }

  /** With arguments for its stars in front of any others, a directive is read. */
  lemma StarArguments(rest: string) returns (stars: seq<Arg>, left: string)
    ensures |left| <= |rest|
    ensures forall more :: ReadDirective(rest, stars + more).Some? && ReadDirective(rest, stars + more).value.rest == left
                           && ReadDirective(rest, stars + more).value.args == more
  {
    hide ReadFlags, ReadWidth, ReadPrecision, ReadLength, ReadDirective;
    var s := ReadFlags(Spec(NO_FLAGS, 0, 0, rest, []));
    var first := if TakesStar(s.rest) then [Num(0)] else [];
    WidthTakes(s, first, []);
    var w := ReadWidth(s.(args := first)).value;
    var second := if Head(w.rest) == '.' && TakesStar(w.rest[1..]) then [Num(0)] else [];
    PrecisionTakes(w, second, []);
    stars := first + second;
    left := ReadLength(ReadPrecision(w.(args := second)).value).rest;
    forall more
      ensures ReadDirective(rest, stars + more).Some? && ReadDirective(rest, stars + more).value.rest == left
      ensures ReadDirective(rest, stars + more).value.args == more
    {
      WithStars(rest, s, w, first, second, more);
    }
  }

  predicate TakesStar(s: string) {
    !IsDigit(Head(s)) && Head(s) == '*'
  }

  lemma WithStars(rest: string, s: Spec, w: Spec, first: seq<Arg>, second: seq<Arg>, more: seq<Arg>)
    requires s == ReadFlags(Spec(NO_FLAGS, 0, 0, rest, []))
    requires first == if TakesStar(s.rest) then [Num(0)] else []
    requires ReadWidth(s.(args := first)) == Some(w)
    requires second == if Head(w.rest) == '.' && TakesStar(w.rest[1..]) then [Num(0)] else []
    ensures ReadPrecision(w.(args := second)).Some?
    ensures var r := ReadDirective(rest, first + second + more);
            r.Some? && r.value.args == more
            && r.value.rest == ReadLength(ReadPrecision(w.(args := second)).value).rest
  {
    hide ReadFlags, ReadWidth, ReadPrecision, ReadLength, TakesStar;
    var all := first + (second + more);
    assert first + second + more == all;
    FlagsTakeNone(Spec(NO_FLAGS, 0, 0, rest, []), all);
    WidthTakes(s, first, second + more);
    PrecisionTakes(w, second, more);
    var k := ReadPrecision(w.(args := second)).value;
    LengthTakesNone(k, more);
  }

  lemma LengthTakesNone(s: Spec, args: seq<Arg>)
    ensures ReadLength(s.(args := args)) == ReadLength(s).(args := args)
  {}

  lemma WidthTakes(s: Spec, first: seq<Arg>, more: seq<Arg>)
    requires first == if TakesStar(s.rest) then [Num(0)] else []
    ensures ReadWidth(s.(args := first)).Some?
    ensures ReadWidth(s.(args := first + more)) == Some(ReadWidth(s.(args := first)).value.(args := more))
  {
    hide Decimal, DigitRun;
    assert first == [] ==> first + more == more;
    assert first != [] ==> (first + more)[1..] == more;
  }

  lemma PrecisionTakes(s: Spec, second: seq<Arg>, more: seq<Arg>)
    requires second == if Head(s.rest) == '.' && TakesStar(s.rest[1..]) then [Num(0)] else []
    ensures ReadPrecision(s.(args := second)).Some?
    ensures ReadPrecision(s.(args := second + more)) == Some(ReadPrecision(s.(args := second)).value.(args := more))
  {
    hide Decimal, DigitRun;
    assert second == [] ==> second + more == more;
    assert second != [] ==> (second + more)[1..] == more;
  }

  /** Some arguments are enough for a format, whole or not. */
  lemma {:induction false} EnoughArguments(f: string) returns (args: seq<Arg>)
    ensures Render(f, args).stop != BadArgument
    decreases |f|
  {
    hide ReadDirective;
    if f == "" {
      args := [];
    } else if f[0] != '%' {
      args := EnoughArguments(f[1..]);
    } else {
      var stars, left := StarArguments(f[1..]);
      if left == "" {
        args := stars + [];
      } else {
        var more := EnoughArguments(left[1..]);
        var c := left[0];
        var one := if IsInteger(c) || c == 'c' || c == 'p' then [Num(0)] else if c == 's' then [Text("")] else [];
        args := stars + (one + more);
        var s := ReadDirective(f[1..], args).value;
        assert one == [] ==> one + more == more;
        assert one != [] ==> (one + more)[1..] == more;
        ConvertedWith(s, one, more);
      }
    }
  }

  lemma ConvertedWith(s: Spec, one: seq<Arg>, more: seq<Arg>)
    requires s.rest != "" && s.args == one + more
    requires var c := s.rest[0];
             one == if IsInteger(c) || c == 'c' || c == 'p' then [Num(0)] else if c == 's' then [Text("")] else []
    ensures Converted(s).Some? && Converted(s).value.1 == more
  {
    hide IntegerText, StringText, CharText, PointerText;
    assert one == [] ==> one + more == more;
    assert one != [] ==> (one + more)[1..] == more;
  }

  /** The code steps over the terminator, for some arguments, exactly when the text is not a format. */
  lemma FormatsEndWell(f: string)
    ensures IsFormat(f) <==> forall args :: Render(f, args).stop != PastEnd
  {
    hide Render, Good;
    if IsFormat(f) {
      var ps :| (forall p <- ps :: Good(p)) && FormatText(ps) == f;
      forall args ensures Render(f, args).stop != PastEnd {
        FormatRenders(ps, args);
      }
    } else {
      var args := EnoughArguments(f);
      if Render(f, args).stop == Complete {
        var ps := CompleteIsFormat(f, args);
      }
    }
  }

  /** With arguments that do not stop it, printing is complete exactly on formats. */
  lemma FormatsComplete(f: string, args: seq<Arg>)
    requires Render(f, args).stop != BadArgument
    ensures Render(f, args).stop == Complete <==> IsFormat(f)
  {
    hide Render, Good;
    FormatsEndWell(f);
    if Render(f, args).stop == Complete {
      var ps := CompleteIsFormat(f, args);
    }
  }

  // ---- The arguments a format demands ----

  datatype Kind = Integral | Textual

  predicate IsKind(a: Arg, k: Kind) {
    a.Num? <==> k.Integral?
  }

  function StarKinds(n: Number): seq<Kind> {
    if n.Star? then [Integral] else []
  }

  function ConvKinds(c: char): seq<Kind> {
    if IsInteger(c) || c == 'c' || c == 'p' then [Integral] else if c == 's' then [Textual] else []
  }

  /** The arguments of a directive: for its stars, then for its conversion. */
  function Demands(sp: Spelling): seq<Kind> {
    StarKinds(sp.width) + (if sp.precision.Some? then StarKinds(sp.precision.value) else []) + ConvKinds(sp.conv)
  }

  function AllDemands(ps: seq<Piece>): seq<Kind> {
    if ps == [] then []
    else (if ps[0].Directive? then Demands(ps[0].sp) else []) + AllDemands(ps[1..])
  }

  /** The arguments begin with ones of these kinds. */
  predicate Match(args: seq<Arg>, kinds: seq<Kind>) {
    |kinds| <= |args| && forall i :: 0 <= i < |kinds| ==> IsKind(args[i], kinds[i])
  }

  lemma MatchBoth(args: seq<Arg>, a: seq<Kind>, b: seq<Kind>)
    ensures Match(args, a + b) <==> Match(args, a) && |a| <= |args| && Match(args[|a|..], b)
  {
    if Match(args, a + b) {
      forall i | 0 <= i < |a| ensures IsKind(args[i], a[i]) {
        assert (a + b)[i] == a[i];
      }
      forall i | 0 <= i < |b| ensures IsKind(args[|a|..][i], b[i]) {
        assert (a + b)[|a| + i] == b[i];
      }
    }
    if Match(args, a) && |a| <= |args| && Match(args[|a|..], b) {
      forall i | 0 <= i < |a + b| ensures IsKind(args[i], (a + b)[i]) {
        assert i >= |a| ==> args[|a|..][i - |a|] == args[i];
      }
    }
  }

  lemma StarMatches(n: Number, args: seq<Arg>)
    ensures NumberValue(n, args).Some? <==> Match(args, StarKinds(n))
    ensures NumberValue(n, args).Some? ==> |StarKinds(n)| <= |args| && NumberValue(n, args).value.1 == args[|StarKinds(n)|..]
  {
    hide Decimal;
  }

  lemma ConvMatches(s: Spec)
    requires s.rest != ""
    ensures Converted(s).Some? <==> Match(s.args, ConvKinds(s.rest[0]))
    ensures Converted(s).Some? ==>
              |ConvKinds(s.rest[0])| <= |s.args| && Converted(s).value.1 == s.args[|ConvKinds(s.rest[0])|..]
  {
    hide IntegerText, StringText, CharText, PointerText;
  }

  /** A directive finds its arguments exactly when they match what it demands, and takes just those. */
  lemma DirectiveMatches(sp: Spelling, args: seq<Arg>)
    ensures var m := Meaning(sp, "", args);
            (m.Some? && Converted(m.value).Some? <==> Match(args, Demands(sp)))
            && (m.Some? && Converted(m.value).Some? ==>
                  |Demands(sp)| <= |args| && Converted(m.value).value.1 == args[|Demands(sp)|..])
  {
    hide Match, Converted, NumberValue, StarKinds, ConvKinds;
    var a := StarKinds(sp.width);
    var b := if sp.precision.Some? then StarKinds(sp.precision.value) else [];
    MatchBoth(args, a + b, ConvKinds(sp.conv));
    MatchBoth(args, a, b);
    StarMatches(sp.width, args);
    if NumberValue(sp.width, args).Some? {
      var rest := NumberValue(sp.width, args).value.1;
      if sp.precision.Some? {
        StarMatches(sp.precision.value, rest);
      } else {
        StarMatches(Absent, rest);
        NothingDemanded(rest);
      }
    }
    var m := Meaning(sp, "", args);
    if m.Some? {
      ConvMatches(m.value);
      assert m.value.args == args[|a + b|..];
    }
  }

  lemma NothingDemanded(args: seq<Arg>)
    ensures Match(args, [])
  {}

  /** A format is printed to its end exactly when the arguments match what its directives demand. */
  lemma {:induction false} MatchedPrints(ps: seq<Piece>, args: seq<Arg>)
    ensures Print(ps, args).stop == Complete <==> Match(args, AllDemands(ps))
    decreases |ps|
  {
    hide Match, Converted, Meaning, Demands;
    if ps == [] {
      NothingDemanded(args);
    } else {
      var d := if ps[0].Directive? then Demands(ps[0].sp) else [];
      MatchBoth(args, d, AllDemands(ps[1..]));
      if ps[0].Directive? {
        DirectiveMatches(ps[0].sp, args);
      } else {
        NothingDemanded(args);
        assert args[|d|..] == args;
      }
      if |d| <= |args| {
        MatchedPrints(ps[1..], args[|d|..]);
      }
      LengthOfMatch(args, d);
    }
  }

  lemma LengthOfMatch(args: seq<Arg>, kinds: seq<Kind>)
    ensures Match(args, kinds) ==> |kinds| <= |args|
  {}

  /** A format with its arguments: printed to its end exactly when they match, and then as its pieces print. */
  lemma FormatPrints(ps: seq<Piece>, args: seq<Arg>)
    requires forall p <- ps :: Good(p)
    ensures Render(FormatText(ps), args) == Print(ps, args)
    ensures Render(FormatText(ps), args).stop == Complete <==> Match(args, AllDemands(ps))
  {
    hide Render, Print, Match;
    FormatRenders(ps, args);
    MatchedPrints(ps, args);
  }

  /** One directive as a format. */
  lemma OneDirective(sp: Spelling, args: seq<Arg>)
    requires Wellformed(sp) && Meaning(sp, "", args).Some? && Converted(Meaning(sp, "", args).value).Some?
    ensures var done := Converted(Meaning(sp, "", args).value).value;
            Render("%" + Spell(sp), args) == Outcome(done.0, Complete, done.1)
  {
    hide Converted, Render, Wellformed, Spell, NumberValue, Settings;
    var ps := [Directive(sp)];
    assert Good(ps[0]);
    assert FormatText(ps) == "%" + Spell(sp);
    FormatRenders(ps, args);
    var done := Converted(Meaning(sp, "", args).value).value;
    assert ps[1..] == [];
    assert Print([], done.1) == Outcome("", Complete, done.1);
    assert done.0 + "" == done.0;
  }

  /** A spelled directive with an ordinary conversion character holds no NUL. */
  lemma SpelledIsChars(sp: Spelling)
    requires Wellformed(sp) && sp.conv != '\0'
    ensures '\0' !in "%" + Spell(sp)
  {
    assert !FlagChar('\0') && !IsDigit('\0');
  }
}
