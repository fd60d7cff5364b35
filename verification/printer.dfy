/**
 * The printer (lib/common/vsnprintf.cpp): the two back ends, the helpers that emit a field through
 * either of them, and _format with its callers.
 */
module Printer {
  import opened Machine
  import opened Digits
  import opened Fields
  import opened Directives
  import opened Spellings

  // ---- What the back ends leave behind ----

  /** The characters the function back end passes on: a NUL is not delivered. */
  function Delivered(text: string): string {
    if text == "" then "" else (if text[0] == '\0' then "" else [text[0]]) + Delivered(text[1..])
  }

  lemma {:induction false} DeliveredMore(text: string, c: char)
    ensures Delivered(text + [c]) == Delivered(text) + if c == '\0' then "" else [c]
  {
    hide Delivered;
    DeliveredOne(text + [c]);
    if text == "" {
      assert text + [c] == [c] && (text + [c])[1..] == "";
      DeliveredNone();
    } else {
      assert (text + [c])[1..] == text[1..] + [c];
      DeliveredOne(text);
      DeliveredMore(text[1..], c);
    }
  }

  lemma DeliveredOne(text: string)
    requires text != ""
    ensures Delivered(text) == (if text[0] == '\0' then "" else [text[0]]) + Delivered(text[1..])
  {}

  lemma DeliveredNone()
    ensures Delivered("") == ""
  {}

  /** A buffer that held `before` once `text` has been written to it from the start, below maxlength. */
  function Written(text: string, maxlength: nat, before: string): (r: string)
    requires maxlength <= |before|
    ensures |r| == |before|
  {
    var k := Min(|text|, maxlength);
    text[..k] + before[k..]
  }

  /** The same with the terminator: the last character below maxlength gives way to it. */
  function Terminated(text: string, maxlength: nat, before: string): (r: string)
    requires maxlength <= |before|
    ensures |r| == |before|
  {
    if maxlength == 0 then before
    else
      var k := Min(|text|, maxlength - 1);
      Written(text, maxlength, before)[k := '\0']
  }

  /** Place by place: as much of the text as fits before maxlength, the terminator, and what was there before. */
  ghost predicate IsCut(buffer: string, text: string, maxlength: nat, before: string) {
    && |buffer| == |before|
    && forall i :: 0 <= i < |buffer| ==>
         buffer[i] == if i < |text| && i + 1 < maxlength then text[i]
                      else if i < maxlength && (i == |text| || i + 1 == maxlength) && i <= |text| then '\0'
                      else before[i]
  }

  lemma CutAt(text: string, maxlength: nat, before: string)
    requires maxlength <= |before|
    ensures IsCut(Terminated(text, maxlength, before), text, maxlength, before)
  {}

  /** The characters up to the first NUL. */
  function CString(buffer: string): string {
    if buffer == "" || buffer[0] == '\0' then "" else [buffer[0]] + CString(buffer[1..])
  }

  lemma {:induction false} CStringOf(text: string, after: string)
    requires '\0' !in text
    ensures CString(text + ['\0'] + after) == text
  {
    if text != "" {
      assert (text + ['\0'] + after)[1..] == text[1..] + ['\0'] + after;
      CStringOf(text[1..], after);
    }
  }

  lemma {:induction false} DeliveredWhole(text: string)
    ensures Delivered(text) == text <==> '\0' !in text
    ensures |Delivered(text)| <= |text|
  {
    if text != "" {
      DeliveredWhole(text[1..]);
      assert text == [text[0]] + text[1..];
    }
  }

  /**
   * The back ends agree: when the text holds no NUL, the string in the buffer is the delivered text cut
   * to one character less than maxlength.
   */
  lemma BackEndsAgree(text: string, maxlength: nat, before: string)
    requires 0 < maxlength <= |before| && '\0' !in text
    ensures Delivered(text) == text
    ensures CString(Terminated(text, maxlength, before)) == Delivered(text)[..Min(|text|, maxlength - 1)]
  {
    hide CString, Delivered, Terminated;
    DeliveredWhole(text);
    var k := Min(|text|, maxlength - 1);
    TerminatedParts(text, maxlength, before);
    CStringOf(text[..k], Written(text, maxlength, before)[k + 1..]);
  }

  lemma TerminatedParts(text: string, maxlength: nat, before: string)
    requires 0 < maxlength <= |before|
    ensures var k := Min(|text|, maxlength - 1);
            Terminated(text, maxlength, before)
            == text[..k] + ['\0'] + Written(text, maxlength, before)[k + 1..]
  {}

  lemma ReverseNext(longer: string, s: string, c: char)
    requires longer == s + [c]
    ensures Reverse(longer) == [c] + Reverse(s)
  {
    ReverseAppend(s, [c]);
    ReverseSign([c]);
  }

  lemma NothingReversed(s: string)
    requires s == ""
    ensures Reverse(s) == ""
  {}

  /** Takes the lowest digit off a value: what is still to come is that digit and the digits of the rest. */
  method NextDigit(value: nat, base: nat, ghost upper: bool, ghost room: nat) returns (digit: nat, rest: nat)
    requires 2 <= base <= 16 && room > 0
    ensures digit < base
    ensures DigitsOf(value, base, upper, room)
         == [DigitChar(digit, upper)] + if rest != 0 && room > 1 then DigitsOf(rest, base, upper, room - 1) else ""
  {
    hide DigitsOf, DigitChar;
    digit, rest := value % base, value / base;
    DigitsUnfold(value, base, upper, room);
    NoRoom(rest, base, upper);
  }

  /** The digits in `done` and those of `value`, if there are `more`, are the whole text. */
  ghost predicate StillToStore(done: string, value: nat, base: nat, upper: bool, more: bool, whole: string)
    requires 2 <= base <= 16
  {
    |done| <= BUFFER && whole == done + if more then DigitsOf(value, base, upper, BUFFER - |done|) else ""
  }

  lemma NoneStored(done: string, value: nat, base: nat, upper: bool)
    requires 2 <= base <= 16 && done == ""
    ensures StillToStore(done, value, base, upper, true, DigitsOf(value, base, upper, BUFFER))
  {
    hide DigitsOf;
  }

  lemma StoredOne(done: string, next: string, value: nat, rest: nat, c: char, base: nat, upper: bool, whole: string)
    requires 2 <= base <= 16 && StillToStore(done, value, base, upper, true, whole) && |done| < BUFFER
    requires next == done + [c]
    requires var room := BUFFER - |done|;
             DigitsOf(value, base, upper, room)
             == [c] + if rest != 0 && room > 1 then DigitsOf(rest, base, upper, room - 1) else ""
    ensures StillToStore(next, rest, base, upper, rest != 0 && |next| < BUFFER, whole)
  {
    hide DigitsOf;
  }

  lemma AllStored(done: string, value: nat, base: nat, upper: bool, whole: string)
    requires 2 <= base <= 16 && StillToStore(done, value, base, upper, false, whole)
    ensures done == whole
  {
    hide DigitsOf;
  }

  /** The count of characters as the int that is returned. */
  function AsInt(idx: nat): (v: int)
    ensures -0x8000_0000 <= v < 0x8000_0000 && (v - idx) % TWO32 == 0
    ensures idx < 0x8000_0000 ==> v == idx
  {
    Int32(idx)
  }

  /**
   * The three parameters that travel together: the output function, the buffer it writes (if it is
   * _out_buffer) and maxlength. `emitted` is what has been put out so far.
   */
  class Sink {
    const buffered: bool
    const buffer: array<char>
    const maxlength: nat
    var delivered: string
    ghost var emitted: string
    ghost const before: string

    ghost predicate Valid()
      reads this, buffer
    {
      if buffered then
        maxlength <= buffer.Length && |before| == buffer.Length && buffer[..] == Written(emitted, maxlength, before)
      else
        delivered == Delivered(emitted)
    }

    constructor ToBuffer(buffer: array<char>, maxlength: nat)
      requires maxlength <= buffer.Length
      ensures Valid() && emitted == "" && buffered
      ensures this.buffer == buffer && this.maxlength == maxlength && before == buffer[..]
    {
      buffered, delivered, emitted := true, "", "";
      this.buffer, this.maxlength := buffer, maxlength;
      before := buffer[..];
      new;
      assert Written("", maxlength, buffer[..]) == buffer[..];
    }

    constructor ToFunction()
      ensures Valid() && emitted == "" && !buffered && fresh(buffer)
      ensures maxlength == TWO64 - 1
    {
      buffered, delivered, emitted, before := false, "", "", "";
      buffer, maxlength := new char[0], TWO64 - 1;
    }

    /** _out_buffer and _out_fct. */
    method Out(c: char, idx: nat)
      requires Valid() && idx == |emitted|
      modifies this, buffer
      ensures Valid() && emitted == old(emitted) + [c]
    {
      if buffered {
        if idx < maxlength {
          buffer[idx] := c;
        }
        emitted := emitted + [c];
        assert buffer[..] == Written(emitted, maxlength, before);
      } else {
        DeliveredMore(emitted, c);
        if c != '\0' {
          delivered := delivered + [c];
        }
        emitted := emitted + [c];
      }
    }

    /** The last call of _format: the terminator. */
    method Terminate(idx: nat)
      requires Valid() && idx == |emitted|
      modifies this, buffer
      ensures emitted == old(emitted)
      ensures buffered ==> maxlength <= |before| && buffer[..] == Terminated(emitted, maxlength, before)
      ensures !buffered ==> delivered == Delivered(emitted)
    {
      // maxlength - 1 in 64 bits: for 0 an index no buffer has
      var at := if idx < maxlength then idx else if maxlength == 0 then TWO64 - 1 else maxlength - 1;
      if buffered && at < maxlength {
        buffer[at] := '\0';
      }
    }

    /** One of the loops that emit a padding character `count` times. */
    method Fill(c: char, idx: nat, count: int) returns (next: nat)
      requires Valid() && idx == |emitted|
      modifies this, buffer
      ensures Valid() && emitted == old(emitted) + Repeat(c, count) && next == |emitted|
    {
      next := idx;
      var i := 0;
      while i < count
        invariant 0 <= i && (i <= count || i == 0)
        invariant Valid() && next == |emitted| && emitted == old(emitted) + Repeat(c, i)
      {
        Out(c, next);
        i, next := i + 1, next + 1;
      }
    }

    /** _out_rev: the first `len` characters of `buf` backwards, padded to the width. */
    method OutRev(idx: nat, buf: array<char>, len: nat, width: nat, flags: Flags) returns (next: nat)
      requires Valid() && idx == |emitted| && buf != buffer && len <= buf.Length
      modifies this, buffer
      ensures Valid() && emitted == old(emitted) + Justified(buf[..len], width, flags) && next == |emitted|
    {
      hide Valid, Repeat, Reverse;
      next := idx;
      if !flags.padLeft {
        next := Fill(if flags.zeroPad then '0' else ' ', next, width - len);
      }
      next := Backwards(next, buf, len);
      if flags.padLeft {
        next := Fill(' ', next, width - (next - idx));
      }
      NoRepeat(if flags.zeroPad then '0' else ' ', width - len);
      NoRepeat(' ', width - len);
      assert emitted == old(emitted) + Justified(buf[..len], width, flags);
    }

    /** The loop of _out_rev that empties the buffer from its end. */
    method Backwards(idx: nat, buf: array<char>, len: nat) returns (next: nat)
      requires Valid() && idx == |emitted| && buf != buffer && len <= buf.Length
      modifies this, buffer
      ensures Valid() && emitted == old(emitted) + Reverse(buf[..len]) && next == |emitted|
    {
      hide Valid, Reverse;
      next := idx;
      var left := len;
      while left > 0
        invariant 0 <= left <= len
        invariant Valid() && next == |emitted|
        invariant emitted + Reverse(buf[..left]) == old(emitted) + Reverse(buf[..len])
      {
        left := left - 1;
        ReverseNext(buf[..left + 1], buf[..left], buf[left]);
        Out(buf[left], next);
        next := next + 1;
      }
      NothingReversed(buf[..left]);
    }

    /** One of the loops that put zeros into the buffer of 32. */
    method StoreZeros(buf: array<char>, len: nat, n: nat) returns (next: nat)
      requires len <= buf.Length == BUFFER
      modifies buf
      ensures next <= BUFFER && buf[..next] == ZerosTo(old(buf[..len]), n)
    {
      next := len;
      while next < n && next < BUFFER
        invariant len <= next <= BUFFER && next <= Max(len, n)
        invariant buf[..next] == old(buf[..len]) + Repeat('0', next - len)
      {
        buf[next] := '0';
        next := next + 1;
      }
    }

    /** Puts one character behind the ones stored, if the buffer has room. */
    method Store(buf: array<char>, len: nat, c: char) returns (next: nat)
      requires len <= buf.Length == BUFFER
      modifies buf
      ensures next <= BUFFER && buf[..next] == Append(old(buf[..len]), c)
    {
      next := len;
      if next < BUFFER {
        buf[next] := c;
        next := next + 1;
      }
    }

    /** _ntoa_format: zeros, the prefix of '#' and the sign after the digits in `buf`, then the field. */
    method NtoaFormat(idx: nat, buf: array<char>, length: nat, negative: bool, base: nat, prec: nat,
                      fullWidth: nat, flags: Flags)
      returns (next: nat)
      requires Valid() && idx == |emitted| && buf != buffer && length <= buf.Length == BUFFER
      modifies this, buffer, buf
      ensures Valid() && next == |emitted|
      ensures emitted == old(emitted) + Field(old(buf[..length]), negative, base, prec, fullWidth, flags)
    {
      hide Written, Delivered, Repeat, Reverse, Justified, Valid, WithPrefix, ZerosTo, WithSign;
      var len, width := length, fullWidth;
      ghost var digits := buf[..length];
      if !flags.padLeft {
        if width > 0 && flags.zeroPad && (negative || flags.forcePlus || flags.padSpace) {
          width := width - 1;
        }
        len := StoreZeros(buf, len, prec);
        if flags.zeroPad {
          len := StoreZeros(buf, len, width);
        }
      }
      assert width == ZeroWidth(negative, fullWidth, flags);
      assert buf[..len] == WithZeros(digits, prec, width, flags);
      len := Prefix(buf, len, base, prec, width, flags);
      len := StoreSign(buf, len, negative, flags);
      assert buf[..len] == Stored(digits, negative, base, prec, fullWidth, flags);
      next := OutRev(idx, buf, len, width, flags);
    }

    /** The sign, when the buffer has room for it. */
    method StoreSign(buf: array<char>, length: nat, negative: bool, flags: Flags) returns (len: nat)
      requires length <= buf.Length == BUFFER
      modifies buf
      ensures len <= BUFFER && buf[..len] == WithSign(old(buf[..length]), negative, flags)
    {
      len := length;
      if len < BUFFER {
        if negative {
          len := Store(buf, len, '-');
        } else if flags.forcePlus {
          len := Store(buf, len, '+');
        } else if flags.padSpace {
          len := Store(buf, len, ' ');
        }
      }
    }

    /** The part of _ntoa_format that '#' turns on. */
    method Prefix(buf: array<char>, length: nat, base: nat, prec: nat, width: nat, flags: Flags) returns (len: nat)
      requires length <= buf.Length == BUFFER
      modifies buf
      ensures len <= BUFFER && buf[..len] == WithPrefix(old(buf[..length]), base, prec, width, flags)
    {
      len := length;
      if flags.hash {
        if !flags.precision && len > 0 && (len == prec || len == width) {
          len := len - 1;
          if len > 0 && base == 16 {
            len := len - 1;
          }
        }
        assert buf[..len] == old(buf[..length])[..KeptForPrefix(length, base, prec, width, flags)];
        if base == 16 {
          len := Store(buf, len, if flags.upper then 'X' else 'x');
        } else if base == 2 {
          len := Store(buf, len, 'b');
        }
        len := Store(buf, len, '0');
      }
    }

    /** The loop that stores the digits, lowest first, until the value or the buffer is used up. */
    method StoreDigits(buf: array<char>, number: nat, base: nat, upper: bool) returns (len: nat)
      requires buf.Length == BUFFER && 2 <= base <= 16
      modifies buf
      ensures len <= BUFFER && buf[..len] == DigitsOf(number, base, upper, BUFFER)
    {
      hide DigitsOf, DigitChar, StillToStore;
      var value: nat := number;
      len := 0;
      var more := true;
      NoneStored(buf[..len], value, base, upper);
      while more
        invariant len <= BUFFER && (more ==> len < BUFFER)
        invariant StillToStore(buf[..len], value, base, upper, more, DigitsOf(number, base, upper, BUFFER))
        decreases more, BUFFER - len
      {
        ghost var done := buf[..len];
        var digit, rest := NextDigit(value, base, upper, BUFFER - len);
        buf[len] := DigitChar(digit, upper);
        StoredOne(done, buf[..len + 1], value, rest, DigitChar(digit, upper), base, upper,
                  DigitsOf(number, base, upper, BUFFER));
        len, value := len + 1, rest;
        more := value != 0 && len < BUFFER;
      }
      AllStored(buf[..len], value, base, upper, DigitsOf(number, base, upper, BUFFER));
    }

    /** _ntoa_long and _ntoa_long_long, which are the same function when long has 64 bits. */
    method Ntoa(idx: nat, number: nat, negative: bool, base: nat, prec: nat, width: nat, given: Flags)
      returns (next: nat)
      requires Valid() && idx == |emitted| && 2 <= base <= 16
      modifies this, buffer
      ensures Valid() && next == |emitted|
      ensures emitted == old(emitted) + IntegerField(number, negative, base, prec, width, given)
    {
      hide Written, Delivered, DigitsOf, Field, Valid;
      var buf := new char[BUFFER];
      var len, flags := 0, given;
      if number == 0 {
        flags := flags.(hash := false);
      }
      if !flags.precision || number != 0 {
        len := StoreDigits(buf, number, base, flags.upper);
      }
      assert buf[..len] == Shown(number, base, given);
      assert Valid();
      next := NtoaFormat(idx, buf, len, negative, base, prec, width, flags);
    }

    /** The text of %s: at most `precision` characters of it when a precision was given. */
    method PutText(idx: nat, chars: Chars, s: Spec) returns (next: nat)
      requires Valid() && idx == |emitted|
      modifies this, buffer
      ensures Valid() && next == |emitted|
      ensures emitted == old(emitted) + if s.flags.precision then chars[..Min(|chars|, s.prec)] else chars
    {
      hide Valid;
      next := idx;
      var at, precision := 0, s.prec;
      while at < |chars| && (!s.flags.precision || precision > 0)
        invariant at <= |chars| && precision == if s.flags.precision then s.prec - at else s.prec
        invariant Valid() && next == |emitted| && emitted == old(emitted) + chars[..at]
      {
        if s.flags.precision {
          precision := precision - 1;
        }
        Out(chars[at], next);
        at, next := at + 1, next + 1;
      }
    }

    /** case 's' */
    method PutString(idx: nat, chars: Chars, s: Spec) returns (next: nat)
      requires Valid() && idx == |emitted|
      modifies this, buffer
      ensures Valid() && next == |emitted| && emitted == old(emitted) + StringText(chars, s)
    {
      hide Valid, Repeat;
      var n := StrnLen(chars, if s.prec > 0 then s.prec else TWO64 - 1);
      var l := n % TWO32;
      if s.flags.precision {
        l := if l < s.prec then 1 else s.prec;
      }
      next := idx;
      if !s.flags.padLeft {
        next := Fill(' ', next, s.width - l);
      }
      next := PutText(next, chars, s);
      if s.flags.padLeft {
        next := Fill(' ', next, s.width - l);
      }
      assert emitted == old(emitted) + StringText(chars, s);
    }

    /** case 'c' */
    method PutChar(idx: nat, bits: nat, s: Spec) returns (next: nat)
      requires Valid() && idx == |emitted|
      modifies this, buffer
      ensures Valid() && next == |emitted| && emitted == old(emitted) + CharText(bits, s)
    {
      hide Valid, Repeat;
      next := idx;
      if !s.flags.padLeft {
        next := Fill(' ', next, s.width - 1);
      }
      Out((bits % 0x100) as char, next);
      next := next + 1;
      if s.flags.padLeft {
        next := Fill(' ', next, s.width - 1);
      }
      assert emitted == old(emitted) + CharText(bits, s);
    }

    /** cases 'd', 'i', 'u', 'x', 'X', 'o' and 'b' */
    method PutInteger(idx: nat, bits: nat, c: char, s: Spec) returns (next: nat)
      requires Valid() && idx == |emitted| && IsInteger(c)
      modifies this, buffer
      ensures Valid() && next == |emitted| && emitted == old(emitted) + IntegerText(bits, c, s)
    {
      hide Valid, IntegerField, IntegerFlags, BaseOf;
      var base, flags := BaseOf(c), IntegerFlags(s.flags, c);
      if c == 'i' || c == 'd' {
        var value := SignedValue(bits, flags);
        next := Ntoa(idx, if value > 0 then value else 0 - value, value < 0, base, s.prec, s.width, flags);
      } else {
        next := Ntoa(idx, Unsigned(bits, flags), false, base, s.prec, s.width, flags);
      }
    }

    /** The switch over the conversion character. */
    method Convert(idx: nat, s: Spec) returns (next: nat, args: seq<Arg>, ok: bool)
      requires Valid() && idx == |emitted| && s.rest != ""
      modifies this, buffer
      ensures ok == Converted(s).Some?
      ensures Valid() && next == |emitted|
      ensures emitted == old(emitted) + if ok then Converted(s).value.0 else ""
      ensures args == if ok then Converted(s).value.1 else s.args
    {
      hide Valid, IntegerText, StringText, CharText, IntegerField;
      var c := s.rest[0];
      next, args, ok := idx, s.args, true;
      if IsInteger(c) || c == 'c' || c == 'p' {
        if args == [] || !args[0].Num? {
          ok := false;
        } else {
          var bits := args[0].bits;
          args := args[1..];
          if c == 'c' {
            next := PutChar(idx, bits, s);
          } else if c == 'p' {
            next := Ntoa(idx, bits, false, 16, s.prec, 16, s.flags.(zeroPad := true, upper := true));
          } else {
            next := PutInteger(idx, bits, c, s);
          }
        }
      } else if c == 's' {
        if args == [] || !args[0].Text? {
          ok := false;
        } else {
          next := PutString(idx, args[0].chars, s);
          args := args[1..];
        }
      } else {
        Out(c, next);
        next := next + 1;
      }
    }

    /** _format. Where the source's behaviour ends (see Stop) the loop ends and nothing more is written. */
    method Format(given: Chars, arguments: seq<Arg>) returns (ret: int, stop: Stop)
      requires Valid() && emitted == ""
      modifies this, buffer
      ensures stop == Render(given, arguments).stop && emitted == Render(given, arguments).text
      ensures ret == AsInt(|emitted|)
      ensures stop == Complete && buffered ==>
                maxlength <= |before| && buffer[..] == Terminated(emitted, maxlength, before)
      ensures stop == Complete && !buffered ==> delivered == Delivered(emitted)
    {
      hide Valid, ReadDirective, Converted, Terminated, Delivered, Written;
      var format: string, args, idx := given, arguments, 0;
      stop := Complete;
      while stop == Complete && format != ""
        invariant Valid() && idx == |emitted|
        invariant stop == Complete ==> Render(given, arguments) == Before(emitted, Render(format, args))
        invariant stop != Complete ==> Render(given, arguments) == Outcome(emitted, stop, args)
        decreases stop == Complete, |format|
      {
        if format[0] != '%' {
          Out(format[0], idx);
          format, idx := format[1..], idx + 1;
        } else {
          var parsed := ScanDirective(format[1..], args);
          match parsed
          case None =>
            stop := BadArgument;
          case Some(s) =>
            if s.rest == "" {
              // the terminator is taken for a conversion character and stepped over
              Out('\0', idx);
              stop, args, idx := PastEnd, s.args, idx + 1;
            } else {
              var ok;
              idx, args, ok := Convert(idx, s);
              if ok {
                format := s.rest[1..];
              } else {
                stop := BadArgument;
              }
            }
        }
      }
      if stop == Complete {
        Terminate(idx);
      }
      ret := AsInt(idx);
    }
  }

  /** _strnlen_s */
  method StrnLen(str: string, maxsize: nat) returns (n: nat)
    ensures n == Min(|str|, maxsize)
  {
    n := 0;
    var left := maxsize;
    while n < |str| && left > 0
      invariant n <= |str| && left == maxsize - n
    {
      n, left := n + 1, left - 1;
    }
  }

  /** The part of _format between '%' and the conversion character. */
  method ScanDirective(rest: string, args: seq<Arg>) returns (r: Option<Spec>)
    ensures r == ReadDirective(rest, args)
    ensures forall sp, tail :: Wellformed(sp) && rest == Spell(sp) + tail ==> r == Meaning(sp, tail, args)
  {
    forall sp, tail | Wellformed(sp) && rest == Spell(sp) + tail
      ensures ReadDirective(rest, args) == Meaning(sp, tail, args)
    {
      SpelledRead(sp, tail, args);
    }
    hide ReadFlags, ReadWidth, ReadPrecision;
    var s := ScanFlags(Spec(NO_FLAGS, 0, 0, rest, args));
    r := ScanWidth(s);
    if r.None? {
      return;
    }
    r := ScanPrecision(r.value);
    if r.None? {
      return;
    }
    s := r.value;
    var c := Head(s.rest);
    if c == 'l' {
      s := s.(flags := s.flags.(wide := true), rest := s.rest[1..]);
      if Head(s.rest) == 'l' {
        s := s.(rest := s.rest[1..]);
      }
    } else if c == 'h' {
      s := s.(flags := s.flags.(short := true), rest := s.rest[1..]);
      if Head(s.rest) == 'h' {
        s := s.(flags := s.flags.(byteWide := true), rest := s.rest[1..]);
      }
    } else if c == 'j' || c == 'z' {
      s := s.(flags := s.flags.(wide := true), rest := s.rest[1..]);
    }
    r := Some(s);
  }

  method ScanFlags(start: Spec) returns (s: Spec)
    ensures s == ReadFlags(start)
  {
    s := start;
    var n := true;
    while n
      invariant ReadFlags(s) == ReadFlags(start)
      invariant !n ==> ReadFlags(s) == s
      decreases |s.rest|, n
    {
      match SetFlag(s.flags, Head(s.rest))
      case Some(flags) => s := s.(flags := flags, rest := s.rest[1..]);
      case None => n := false;
    }
  }

  method ScanWidth(s: Spec) returns (r: Option<Spec>)
    ensures r == ReadWidth(s)
  {
    hide Decimal;
    if IsDigit(Head(s.rest)) {
      var sum, next := Atoi(s.rest, 0);
      r := Some(s.(width := sum, rest := s.rest[next..]));
    } else if Head(s.rest) == '*' {
      if s.args == [] || !s.args[0].Num? {
        return None;
      }
      var w := Int32(s.args[0].bits);
      var t := s.(rest := s.rest[1..], args := s.args[1..]);
      if w < 0 {
        t := t.(flags := t.flags.(padLeft := true), width := -w);
      } else {
        t := t.(width := w);
      }
      r := Some(t);
    } else {
      r := Some(s);
    }
  }

  method ScanPrecision(s: Spec) returns (r: Option<Spec>)
    ensures r == ReadPrecision(s)
  {
    hide Decimal;
    if Head(s.rest) != '.' {
      return Some(s);
    }
    var t := s.(flags := s.flags.(precision := true), rest := s.rest[1..]);
    if IsDigit(Head(t.rest)) {
      var sum, next := Atoi(t.rest, 0);
      t := t.(prec := sum, rest := t.rest[next..]);
    } else if Head(t.rest) == '*' {
      if t.args == [] || !t.args[0].Num? {
        return None;
      }
      var prec := Int32(t.args[0].bits);
      t := t.(prec := if prec > 0 then prec else 0, rest := t.rest[1..], args := t.args[1..]);
    }
    r := Some(t);
  }

  // ---- The callers ----

  /** _snprintf and _vsnprintf: the whole buffer afterwards, and the length of the full text. */
  method Snprintf(buffer: array<char>, maxlength: nat, format: Chars, args: seq<Arg>) returns (ret: int, stop: Stop)
    requires maxlength <= buffer.Length
    modifies buffer
    ensures stop == Render(format, args).stop
    ensures ret == AsInt(|Render(format, args).text|)
    ensures stop == Complete ==> buffer[..] == Terminated(Render(format, args).text, maxlength, old(buffer[..]))
    ensures stop == Complete ==> IsCut(buffer[..], Render(format, args).text, maxlength, old(buffer[..]))
  {
    hide Terminated, Render, IsCut;
    var sink := new Sink.ToBuffer(buffer, maxlength);
    ret, stop := sink.Format(format, args);
    if stop == Complete {
      CutAt(Render(format, args).text, maxlength, old(buffer[..]));
    }
  }

  /** _fctprintf and _vfctprintf: what the function has been called with. */
  method Fctprintf(format: Chars, args: seq<Arg>) returns (delivered: string, ret: int, stop: Stop)
    ensures stop == Render(format, args).stop
    ensures ret == AsInt(|Render(format, args).text|)
    ensures stop == Complete ==> delivered == Delivered(Render(format, args).text)
  {
    hide Delivered, Render;
    var sink := new Sink.ToFunction();
    ret, stop := sink.Format(format, args);
    delivered := sink.delivered;
  }

  /**
   * A %u directive, however it is spelled, printed into a buffer and read back from it by atoi: what is
   * read is the value and ends where the text ends exactly when the field has no blank and the value is
   * below 2^32.
   */
  method PrintThenRead(buffer: array<char>, maxlength: nat, sp: Spelling, bits: Word) returns (read: nat, length: nat)
    requires maxlength <= buffer.Length
    requires Wellformed(sp) && sp.conv == 'u' && !sp.width.Star? && sp.precision != Some(Star)
    modifies buffer
    ensures Meaning(sp, "", [Num(bits)]).Some?
    ensures var s := Meaning(sp, "", [Num(bits)]).value;
            var flags, v := IntegerFlags(s.flags, 'u'), Unsigned(bits, s.flags);
            |IntegerText(bits, 'u', s)| < maxlength ==>
              ((length == |IntegerText(bits, 'u', s)| && read == v)
               <==> NoBlanks(|Shown(v, 10, flags)|, s.prec, s.width, flags) && v < TWO32)
  {
    hide Terminated, Render, Spell, Wellformed, IntegerText, IntegerFlags, Unsigned, NoBlanks, Shown, Decimal, DigitRun,
      Written;
    SpelledIsChars(sp);
    var format: Chars := "%" + Spell(sp);
    var ret, stop := Snprintf(buffer, maxlength, format, [Num(bits)]);
    read, length := Atoi(buffer[..], 0);
    ghost var s := Meaning(sp, "", [Num(bits)]).value;
    ghost var text := IntegerText(bits, 'u', s);
    OneDirective(sp, [Num(bits)]);
    if |text| < maxlength {
      TerminatedParts(text, maxlength, old(buffer[..]));
      ghost var rest := ['\0'] + Written(text, maxlength, old(buffer[..]))[|text| + 1..];
      assert buffer[..] == text + rest;
      UnsignedReadsBack(bits, s, rest);
      assert buffer[..][0..length] == buffer[..][..length];
    }
  }
}
