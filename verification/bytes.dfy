/**
 * Byte-addressed memory: little-endian words in it, and the copy and fill loops of
 * lib/common/memory.cpp.
 */
module Bytes {
  import opened Powers

  type byte = n: nat | n < 256

  // ---- Little-endian words ----

  function Encode(v: nat, n: nat): (s: seq<byte>)
    ensures |s| == n
  {
    if n == 0 then [] else [v % 256] + Encode(v / 256, n - 1)
  }

  function Decode(s: seq<byte>): nat {
    if s == [] then 0 else s[0] + 256 * Decode(s[1..])
  }

  /** The bytes of a word, lowest first. */
  lemma {:induction false} LowestFirst(v: nat, n: nat, i: nat)
    requires i < n
    ensures Encode(v, n)[i] == v / Pow(256, i) % 256
  {
    hide Pow;
    if i == 0 {
      PowZero(256);
    } else {
      LowestFirst(v / 256, n - 1, i - 1);
      PowStep(256, i);
      QuotientTwice(v, 256, Pow(256, i - 1));
    }
  }

  lemma {:induction false} DecodeEncode(v: nat, n: nat)
    requires v < Pow(256, n)
    ensures Decode(Encode(v, n)) == v
  {
    hide Pow, Decode;
    if n == 0 {
      PowZero(256);
      DecodeNone();
    } else {
      PowStep(256, n);
      DecodeEncode(v / 256, n - 1);
      DecodeFirst(v % 256, Encode(v / 256, n - 1));
    }
  }

  lemma DecodeNone()
    ensures Decode([]) == 0
  {}

  lemma DecodeFirst(b: byte, s: seq<byte>)
    ensures Decode([b] + s) == b + 256 * Decode(s)
  {
    assert ([b] + s)[1..] == s;
  }

  /** Reading back what was read is the bytes again: a word holds nothing but its bytes. */
  lemma {:induction false} EncodeDecode(s: seq<byte>)
    ensures Encode(Decode(s), |s|) == s && Decode(s) < Pow(256, |s|)
  {
    hide Pow, Decode, Encode;
    if s == [] {
      DecodeNone();
      EncodeNone();
      PowZero(256);
    } else {
      EncodeDecode(s[1..]);
      assert s == [s[0]] + s[1..];
      DecodeFirst(s[0], s[1..]);
      EncodeFirst(s[0], Decode(s[1..]), |s| - 1);
      PowStep(256, |s|);
    }
  }

  lemma EncodeNone()
    ensures Encode(0, 0) == []
  {}

  lemma EncodeFirst(b: byte, v: nat, n: nat)
    ensures Encode(b + 256 * v, n + 1) == [b] + Encode(v, n)
  {
    assert (b + 256 * v) % 256 == b && (b + 256 * v) / 256 == v;
  }

  lemma WordRange()
    ensures Pow(256, 8) == 0x1_0000_0000_0000_0000 && Pow(256, 4) == 0x1_0000_0000
  {
    assert Pow(256, 1) == 256 && Pow(256, 2) == 0x1_0000 && Pow(256, 3) == 0x100_0000 && Pow(256, 4) == 0x1_0000_0000;
    assert Pow(256, 5) == 0x100_0000_0000 && Pow(256, 6) == 0x1_0000_0000_0000 && Pow(256, 7) == 0x100_0000_0000_0000;
  }

  /** The `n`-byte word at `at`. */
  function Load(mem: seq<byte>, at: nat, n: nat): nat
    requires at + n <= |mem|
  {
    Decode(mem[at..at + n])
  }

  /** Memory after bytes `s` are written at `at`. */
  function Patch(mem: seq<byte>, at: nat, s: seq<byte>): (r: seq<byte>)
    requires at + |s| <= |mem|
    ensures |r| == |mem|
    ensures forall i {:trigger r[i]} :: 0 <= i < |mem| ==> r[i] == if at <= i < at + |s| then s[i - at] else mem[i]
  {
    mem[..at] + s + mem[at + |s|..]
  }

  lemma LoadPatchSame(mem: seq<byte>, at: nat, v: nat, n: nat)
    requires at + n <= |mem| && v < Pow(256, n)
    ensures Load(Patch(mem, at, Encode(v, n)), at, n) == v
  {
    assert Patch(mem, at, Encode(v, n))[at..at + n] == Encode(v, n);
    DecodeEncode(v, n);
  }

  /** A load sees only its own bytes. */
  lemma LoadDepends(a: seq<byte>, b: seq<byte>, at: nat, n: nat)
    requires at + n <= |a| && at + n <= |b|
    requires forall i :: at <= i < at + n ==> a[i] == b[i]
    ensures Load(a, at, n) == Load(b, at, n)
  {
    assert a[at..at + n] == b[at..at + n];
  }

  // ---- Memory as the code changes it ----

  class Memory {
    var bytes: seq<byte>

    constructor (bytes: seq<byte>)
      ensures this.bytes == bytes
    {
      this.bytes := bytes;
    }

    /** Moves `length` bytes as they were before the call, whatever the overlap. */
    method Bcopy(src: nat, dest: nat, length: nat)
      requires src + length <= |bytes| && dest + length <= |bytes|
      modifies this
      ensures bytes == Patch(old(bytes), dest, old(bytes[src..src + length]))
    {
      ghost var was := bytes;
      var left := length;
      if dest < src {
        var firsts, firstd := src, dest;
        while left > 0
          invariant 0 <= left <= length && firsts == src + (length - left) && firstd == dest + (length - left)
          invariant |bytes| == |was|
          invariant forall i {:trigger bytes[i]} :: 0 <= i < |was| ==>
                      bytes[i] == if dest <= i < firstd then was[src + (i - dest)] else was[i]
        {
          bytes := bytes[firstd := bytes[firsts]];
          firstd, firsts := firstd + 1, firsts + 1;
          left := left - 1;
        }
      } else {
        var lasts, lastd := src + length - 1, dest + length - 1;
        while left > 0
          invariant 0 <= left <= length && lasts == src + left - 1 && lastd == dest + left - 1
          invariant |bytes| == |was|
          invariant forall i {:trigger bytes[i]} :: 0 <= i < |was| ==>
                      bytes[i] == if lastd < i < dest + length then was[src + (i - dest)] else was[i]
        {
          bytes := bytes[lastd := bytes[lasts]];
          lastd, lasts := lastd - 1, lasts - 1;
          left := left - 1;
        }
      }
    }

    /** Copies bytes from elsewhere to `dest`, first to last. */
    method CopyIn(dest: nat, s: seq<byte>)
      requires dest + |s| <= |bytes|
      modifies this
      ensures bytes == Patch(old(bytes), dest, s)
    {
      ghost var was := bytes;
      for i := 0 to |s|
        invariant |bytes| == |was|
        invariant forall j {:trigger bytes[j]} :: 0 <= j < |was| ==> bytes[j] == if dest <= j < dest + i then s[j - dest] else was[j]
      {
        bytes := bytes[dest + i := s[i]];
      }
    }

    method Memset(dest: nat, val: byte, length: nat)
      requires dest + length <= |bytes|
      modifies this
      ensures bytes == Patch(old(bytes), dest, seq(length, _ => val))
    {
      ghost var was := bytes;
      var ptr, left := dest, length;
      while left > 0
        invariant 0 <= left <= length && ptr == dest + (length - left)
        invariant |bytes| == |was|
        invariant forall i {:trigger bytes[i]} :: 0 <= i < |was| ==> bytes[i] == if dest <= i < ptr then val else was[i]
      {
        bytes := bytes[ptr := val];
        ptr := ptr + 1;
        left := left - 1;
      }
    }

    /** `n` more bytes become accessible, holding whatever their frames held. */
    method Extend(n: nat)
      modifies this
      ensures |bytes| == |old(bytes)| + n && bytes[..|old(bytes)|] == old(bytes)
    {
      var held: seq<byte> := *;
      bytes := bytes + seq(n, i requires 0 <= i < n => if i < |held| then held[i] else 0);
    }

    method StoreByte(at: nat, v: byte)
      requires at < |bytes|
      modifies this
      ensures bytes == Patch(old(bytes), at, [v])
    {
      bytes := Patch(bytes, at, [v]);
    }

    /** Stores a 64-bit word. */
    method StoreWord(at: nat, v: nat)
      requires at + 8 <= |bytes| && v < Pow(256, 8)
      modifies this
      ensures bytes == Patch(old(bytes), at, Encode(v, 8))
    {
      bytes := Patch(bytes, at, Encode(v, 8));
    }
  }
}
