/**
 * C structs in a file: fields one after the other, each a little-endian word of its size, without padding
 * between them. The two ELF headers of boot/src/include/boot/boot.h, written out so.
 */
module Structs {
  import opened Powers
  import opened Bytes

  datatype Field = Field(value: nat, size: nat)

  ghost predicate Holds(f: Field) {
    f.value < Pow(256, f.size)
  }

  /** Where field `k` starts. */
  function OffsetOf(fs: seq<Field>, k: nat): nat
    requires k <= |fs|
  {
    if k == 0 then 0 else OffsetOf(fs, k - 1) + fs[k - 1].size
  }

  /** The first `k` fields as bytes. */
  function Written(fs: seq<Field>, k: nat): (s: seq<byte>)
    requires k <= |fs|
    ensures |s| == OffsetOf(fs, k)
  {
    if k == 0 then [] else Written(fs, k - 1) + Encode(fs[k - 1].value, fs[k - 1].size)
  }

  /** The file has the fields from `at` on. */
  ghost predicate StandsAt(file: seq<byte>, at: nat, fs: seq<Field>) {
    && at + OffsetOf(fs, |fs|) <= |file| && file[at..at + OffsetOf(fs, |fs|)] == Written(fs, |fs|)
    && forall k :: 0 <= k < |fs| ==> Holds(fs[k])
  }

  lemma {:induction false} FieldWritten(fs: seq<Field>, k: nat, n: nat)
    requires k < n <= |fs|
    ensures OffsetOf(fs, k) + fs[k].size <= OffsetOf(fs, n)
    ensures Written(fs, n)[OffsetOf(fs, k)..OffsetOf(fs, k) + fs[k].size] == Encode(fs[k].value, fs[k].size)
  {
    hide Encode;
    if k < n - 1 {
      FieldWritten(fs, k, n - 1);
      var a, b := OffsetOf(fs, k), OffsetOf(fs, k) + fs[k].size;
      assert Written(fs, n)[a..b] == Written(fs, n - 1)[a..b];
    }
  }

  /** A load at a field's place reads its value. */
  lemma FieldRead(file: seq<byte>, at: nat, fs: seq<Field>, k: nat)
    requires StandsAt(file, at, fs) && k < |fs|
    ensures at + OffsetOf(fs, k) + fs[k].size <= |file|
    ensures Load(file, at + OffsetOf(fs, k), fs[k].size) == fs[k].value
  {
    hide Encode, Decode, Pow, Written, OffsetOf;
    FieldWritten(fs, k, |fs|);
    SliceOfSlice(file, at, OffsetOf(fs, |fs|), OffsetOf(fs, k), OffsetOf(fs, k) + fs[k].size);
    assert Holds(fs[k]);
    DecodeEncode(fs[k].value, fs[k].size);
  }

  lemma SliceOfSlice(s: seq<byte>, at: nat, n: nat, a: nat, b: nat)
    requires a <= b <= n && at + n <= |s|
    ensures s[at + a..at + b] == s[at..at + n][a..b]
  {
    var t := s[at..at + n];
    forall i | 0 <= i < b - a ensures s[at + a..at + b][i] == t[a..b][i] {}
  }

  lemma NextOffset(fs: seq<Field>, k: nat)
    requires k < |fs|
    ensures OffsetOf(fs, 0) == 0 && OffsetOf(fs, k + 1) == OffsetOf(fs, k) + fs[k].size
  {}

  // ---- The headers of an ELF file ----

  /** Elf64_Ehdr behind e_ident. */
  datatype FileHeader = FileHeader(etype: nat, machine: nat, version: nat, entry: nat, phoff: nat, shoff: nat, flags: nat,
                                   ehsize: nat, phentsize: nat, phnum: nat, shentsize: nat, shnum: nat, shstrndx: nat)
  {
    function Fields(): seq<Field> {
      [Field(etype, 2), Field(machine, 2), Field(version, 4), Field(entry, 8), Field(phoff, 8), Field(shoff, 8),
       Field(flags, 4), Field(ehsize, 2), Field(phentsize, 2), Field(phnum, 2), Field(shentsize, 2), Field(shnum, 2),
       Field(shstrndx, 2)]
    }
  }

  /** Elf64_Phdr. */
  datatype ProgramHeader = ProgramHeader(ptype: nat, flags: nat, offset: nat, vaddr: nat, paddr: nat, filesz: nat, memsz: nat,
                                         align: nat)
  {
    function Fields(): seq<Field> {
      [Field(ptype, 4), Field(flags, 4), Field(offset, 8), Field(vaddr, 8), Field(paddr, 8), Field(filesz, 8),
       Field(memsz, 8), Field(align, 8)]
    }
  }

  const IDENT_SIZE: nat := 16

  /** The file begins with `ident` and header `eh`, and has the program headers `phs` where `eh` says. */
  ghost predicate IsElfFile(file: seq<byte>, ident: seq<byte>, eh: FileHeader, phs: seq<ProgramHeader>) {
    && |ident| == IDENT_SIZE <= |file| && file[..IDENT_SIZE] == ident
    && StandsAt(file, IDENT_SIZE, eh.Fields()) && eh.phnum == |phs|
    && forall i :: 0 <= i < |phs| ==> StandsAt(file, eh.phoff + i * eh.phentsize, phs[i].Fields())
  }

  lemma FileHeaderOffsets(eh: FileHeader)
    ensures var fs := eh.Fields();
            && OffsetOf(fs, 1) == 2 && OffsetOf(fs, 4) == 16 && OffsetOf(fs, 8) == 38 && OffsetOf(fs, 9) == 40
            && OffsetOf(fs, |fs|) == 48
  {
    hide OffsetOf;
    var fs := eh.Fields();
    NextOffset(fs, 0);
    NextOffset(fs, 1);
    NextOffset(fs, 2);
    NextOffset(fs, 3);
    NextOffset(fs, 4);
    NextOffset(fs, 5);
    NextOffset(fs, 6);
    NextOffset(fs, 7);
    NextOffset(fs, 8);
    NextOffset(fs, 9);
    NextOffset(fs, 10);
    NextOffset(fs, 11);
    NextOffset(fs, 12);
  }

  lemma ProgramHeaderOffsets(ph: ProgramHeader)
    ensures var fs := ph.Fields();
            && OffsetOf(fs, 0) == 0 && OffsetOf(fs, 2) == 8 && OffsetOf(fs, 3) == 16 && OffsetOf(fs, 5) == 32
            && OffsetOf(fs, 6) == 40 && OffsetOf(fs, |fs|) == 56
  {
    hide OffsetOf;
    var fs := ph.Fields();
    NextOffset(fs, 0);
    NextOffset(fs, 1);
    NextOffset(fs, 2);
    NextOffset(fs, 3);
    NextOffset(fs, 4);
    NextOffset(fs, 5);
    NextOffset(fs, 6);
    NextOffset(fs, 7);
  }

  /** What the loader reads of the file header, by the places it reads. */
  lemma FileHeaderRead(file: seq<byte>, ident: seq<byte>, eh: FileHeader, phs: seq<ProgramHeader>)
    requires IsElfFile(file, ident, eh, phs)
    ensures |file| >= 64
    ensures Load(file, 18, 2) == eh.machine && Load(file, 32, 8) == eh.phoff
    ensures Load(file, 54, 2) == eh.phentsize && Load(file, 56, 2) == eh.phnum
  {
    hide Load, StandsAt, OffsetOf;
    FileHeaderOffsets(eh);
    var fs := eh.Fields();
    assert |file| >= 64 by {
      WholeFits(file, IDENT_SIZE, fs);
    }
    FieldRead(file, IDENT_SIZE, fs, 1);
    FieldRead(file, IDENT_SIZE, fs, 4);
    FieldRead(file, IDENT_SIZE, fs, 8);
    FieldRead(file, IDENT_SIZE, fs, 9);
  }

  lemma WholeFits(file: seq<byte>, at: nat, fs: seq<Field>)
    requires StandsAt(file, at, fs)
    ensures at + OffsetOf(fs, |fs|) <= |file|
  {}

  lemma ProgramHeaderRead(file: seq<byte>, at: nat, ph: ProgramHeader)
    requires StandsAt(file, at, ph.Fields())
    ensures at + 56 <= |file|
    ensures Load(file, at, 4) == ph.ptype && Load(file, at + 8, 8) == ph.offset && Load(file, at + 16, 8) == ph.vaddr
    ensures Load(file, at + 32, 8) == ph.filesz && Load(file, at + 40, 8) == ph.memsz
  {
    hide Load, StandsAt, OffsetOf;
    ProgramHeaderOffsets(ph);
    var fs := ph.Fields();
    assert at + 56 <= |file| by {
      WholeFits(file, at, fs);
    }
    FieldRead(file, at, fs, 0);
    FieldRead(file, at, fs, 2);
    FieldRead(file, at, fs, 3);
    FieldRead(file, at, fs, 5);
    FieldRead(file, at, fs, 6);
  }
}
