/**
 * The boot loader's segment pass (boot/src/main.c): two walks over the program headers that
 * must build the memory image the headers describe (System V gABI, chapter 5, "Program Loading").
 */
module SegmentLoader {
  import opened Machine
  import opened Bytes
  import opened Structs

  const PT_LOAD: nat := 1
  const EHDR_SIZE: nat := 64
  const PHDR_SIZE: nat := 56
  const SIGNATURE: seq<byte> := [0x7F, 0x45, 0x4C, 0x46, 0x02, 0x01]
  const MACHINE_X86_64: nat := 62

  /** Elf64_Phdr, as far as the loader looks at it. */
  datatype Phdr = Phdr(kind: nat, offset: nat, vaddr: nat, filesz: nat, memsz: nat) {
    predicate Loads() { kind == PT_LOAD && memsz != 0 }

    /** The file gives the byte at `addr`. */
    predicate Backs(addr: nat) { Loads() && vaddr <= addr < vaddr + filesz }

    /** The segment occupies `addr`, file-backed or zero-filled. */
    predicate Occupies(addr: nat) { Loads() && vaddr <= addr < vaddr + memsz }

    /** Neither end of the segment leaves 64 bits, with room to round up to a page. */
    predicate NoWrap() { Loads() ==> offset + filesz < TWO64 && vaddr + memsz + FRAME_SIZE <= TWO64 }

    /** What the second pass demands. */
    predicate Sane(fileSize: nat) { Loads() ==> offset + filesz <= fileSize && filesz <= memsz }
  }

  /** The header stored at `at`. */
  function PhdrAt(file: seq<byte>, at: nat): Phdr
    requires at + PHDR_SIZE <= |file|
  {
    Phdr(Load(file, at, 4), Load(file, at + 8, 8), Load(file, at + 16, 8), Load(file, at + 32, 8), Load(file, at + 40, 8))
  }

  /** The program header table lies inside the file. */
  predicate TableInside(file: seq<byte>, phoff: nat, entsize: nat, count: nat) {
    forall i :: 0 <= i < count ==> HeaderOffset(phoff, entsize, i) + PHDR_SIZE <= |file|
  }

  function HeaderOffset(phoff: nat, entsize: nat, i: nat): nat {
    phoff + i * entsize
  }

  function Headers(file: seq<byte>, phoff: nat, entsize: nat, count: nat): (hs: seq<Phdr>)
    requires TableInside(file, phoff, entsize, count)
    ensures |hs| == count
    ensures forall i :: 0 <= i < count ==> hs[i] == PhdrAt(file, HeaderOffset(phoff, entsize, i))
  {
    seq(count, i requires 0 <= i < count => PhdrAt(file, HeaderOffset(phoff, entsize, i)))
  }

  // ---- What the headers describe ----

  /** The byte at `addr` after the first `n` headers: from the last one that backs it, or zero. */
  function ImageByte(file: seq<byte>, hs: seq<Phdr>, n: nat, addr: nat): byte
    requires n <= |hs| && forall i :: 0 <= i < n ==> hs[i].Sane(|file|)
  {
    if n == 0 then 0
    else
      assert hs[n - 1].Sane(|file|);
      if hs[n - 1].Backs(addr) then file[hs[n - 1].offset + (addr - hs[n - 1].vaddr)]
    else ImageByte(file, hs, n - 1, addr)
  }

  /** No two segments share an address. */
  ghost predicate Apart(hs: seq<Phdr>) {
    forall i, j, addr: nat :: 0 <= i < j < |hs| ==> !(hs[i].Occupies(addr) && hs[j].Occupies(addr))
  }

  /** The last header that backs an address decides its byte. */
  lemma {:induction false} LastBackerWins(file: seq<byte>, hs: seq<Phdr>, n: nat, i: nat, addr: nat)
    requires n <= |hs| && forall j :: 0 <= j < n ==> hs[j].Sane(|file|)
    requires i < n && hs[i].Backs(addr) && forall j :: i < j < n ==> !hs[j].Backs(addr)
    ensures ImageByte(file, hs, n, addr) == file[hs[i].offset + (addr - hs[i].vaddr)]
  {
    if i < n - 1 {
      LastBackerWins(file, hs, n - 1, i, addr);
    }
  }

  lemma {:induction false} UnbackedIsZero(file: seq<byte>, hs: seq<Phdr>, n: nat, addr: nat)
    requires n <= |hs| && forall j :: 0 <= j < n ==> hs[j].Sane(|file|)
    requires forall j :: 0 <= j < n ==> !hs[j].Backs(addr)
    ensures ImageByte(file, hs, n, addr) == 0
  {
    if n > 0 {
      UnbackedIsZero(file, hs, n - 1, addr);
    }
  }

  lemma OthersElsewhere(hs: seq<Phdr>, i: nat, j: nat, addr: nat)
    requires Apart(hs) && i < |hs| && j < |hs| && i != j && hs[i].Occupies(addr)
    ensures !hs[j].Occupies(addr)
  {
    var a, b := if i < j then i else j, if i < j then j else i;
    assert !(hs[a].Occupies(addr) && hs[b].Occupies(addr));
  }

  /** Segments that do not overlap load exactly: their file bytes, then zeros. */
  lemma SegmentExact(file: seq<byte>, hs: seq<Phdr>, i: nat, x: nat)
    requires (forall j :: 0 <= j < |hs| ==> hs[j].Sane(|file|)) && Apart(hs)
    requires i < |hs| && hs[i].Loads() && x < hs[i].memsz
    ensures ImageByte(file, hs, |hs|, hs[i].vaddr + x)
         == if x < hs[i].filesz then file[hs[i].offset + x] else 0
  {
    var addr := hs[i].vaddr + x;
    assert hs[i].Occupies(addr);
    forall j | 0 <= j < |hs| && j != i ensures !hs[j].Backs(addr) {
      assert hs[j].Sane(|file|);
      OthersElsewhere(hs, i, j, addr);
    }
    if x < hs[i].filesz {
      LastBackerWins(file, hs, |hs|, i, addr);
    } else {
      UnbackedIsZero(file, hs, |hs|, addr);
    }
  }

  // ---- The loader ----

  datatype Status =
    | Loaded        // the image is complete
    | Refused       // the loader stops with a load error
    | NoPages       // the firmware does not grant the pages
    | Astray        // an access would leave the file or the granted pages

  function AlignDown(x: nat): (a: nat)
    ensures a <= x < a + FRAME_SIZE && a % FRAME_SIZE == 0
  {
    x / FRAME_SIZE * FRAME_SIZE
  }

  /** ALIGN_UP in 64-bit arithmetic. */
  function AlignUp64(x: nat): (a: nat)
    ensures a % FRAME_SIZE == 0
    ensures x + FRAME_SIZE <= TWO64 ==> x <= a < x + FRAME_SIZE
    ensures TWO64 < x + FRAME_SIZE <= TWO64 + FRAME_SIZE ==> a == 0
  {
    Wrap(x + FRAME_SIZE - 1) / FRAME_SIZE * FRAME_SIZE
  }

  /** The lowest start and the highest end over the first `n` loadable headers, as the first pass computes them. */
  function Lowest(hs: seq<Phdr>, n: nat): (v: nat)
    requires n <= |hs|
    ensures v < TWO64
  {
    if n == 0 then TWO64 - 1
    else if hs[n - 1].Loads() && hs[n - 1].vaddr < Lowest(hs, n - 1) then hs[n - 1].vaddr
    else Lowest(hs, n - 1)
  }

  function Highest(hs: seq<Phdr>, n: nat): (v: nat)
    requires n <= |hs|
    ensures v < TWO64
  {
    if n == 0 then 0
    else if hs[n - 1].Loads() && Wrap(hs[n - 1].vaddr + hs[n - 1].memsz) > Highest(hs, n - 1)
    then Wrap(hs[n - 1].vaddr + hs[n - 1].memsz)
    else Highest(hs, n - 1)
  }

  /** Every segment lies between the two. */
  lemma {:induction false} ExtentHolds(hs: seq<Phdr>, n: nat, i: nat)
    requires i < n <= |hs| && hs[i].Loads()
    ensures Lowest(hs, n) <= hs[i].vaddr && Wrap(hs[i].vaddr + hs[i].memsz) <= Highest(hs, n)
  {
    if i < n - 1 {
      ExtentHolds(hs, n - 1, i);
    }
  }

  /** And each of the two is the end of some segment, if it is not what the pass starts from. */
  lemma {:induction false} ExtentAttained(hs: seq<Phdr>, n: nat)
    requires n <= |hs|
    ensures Lowest(hs, n) == TWO64 - 1 || exists i :: 0 <= i < n && hs[i].Loads() && hs[i].vaddr == Lowest(hs, n)
    ensures Highest(hs, n) == 0 || exists i :: 0 <= i < n && hs[i].Loads() && Wrap(hs[i].vaddr + hs[i].memsz) == Highest(hs, n)
  {
    hide Wrap;
    if n > 0 {
      ExtentAttained(hs, n - 1);
    }
  }

  /** Without wrap, the ends are out of order exactly when there is nothing to load. */
  lemma {:induction false} ExtentEmpty(hs: seq<Phdr>, n: nat)
    requires n <= |hs| && forall i :: 0 <= i < n ==> hs[i].NoWrap()
    ensures Lowest(hs, n) > Highest(hs, n) <==> forall i :: 0 <= i < n ==> !hs[i].Loads()
    ensures (forall i :: 0 <= i < n ==> !hs[i].Loads()) ==> Lowest(hs, n) == TWO64 - 1 && Highest(hs, n) == 0
    ensures Highest(hs, n) + FRAME_SIZE <= TWO64
  {
    if n > 0 {
      ExtentEmpty(hs, n - 1);
      assert hs[n - 1].NoWrap();
    }
  }

  /** First pass. */
  method Extent(hs: seq<Phdr>) returns (vmin: nat, vmax: nat)
    ensures vmin == Lowest(hs, |hs|) && vmax == Highest(hs, |hs|)
  {
    vmin, vmax := TWO64 - 1, 0;
    for i := 0 to |hs|
      invariant vmin == Lowest(hs, i) && vmax == Highest(hs, i)
    {
      var p := hs[i];
      if p.kind != PT_LOAD || p.memsz == 0 { continue; }
      if p.vaddr < vmin { vmin := p.vaddr; }
      if Wrap(p.vaddr + p.memsz) > vmax { vmax := Wrap(p.vaddr + p.memsz); }
    }
  }

  /** The bytes of the image are those the first `n` headers describe. */
  ghost predicate Describes(file: seq<byte>, hs: seq<Phdr>, n: nat, vmin: nat, image: seq<byte>) {
    && n <= |hs| && (forall i :: 0 <= i < n ==> hs[i].Sane(|file|))
    && forall a {:trigger image[a]} :: 0 <= a < |image| ==> image[a] == ImageByte(file, hs, n, vmin + a)
  }

  /**
   * How the second pass ends at one header: `vmin` is where the image of `size` bytes starts.
   * The code's own check wraps; what it lets through and would leave a buffer is `Astray`.
   */
  function Verdict(h: Phdr, fileSize: nat, vmin: nat, size: nat): Status {
    if !h.Loads() then Loaded
    else if Wrap(h.offset + h.filesz) > fileSize || h.filesz > h.memsz then Refused
    else if h.offset + h.filesz > fileSize || h.vaddr < vmin || h.vaddr - vmin + h.filesz > size then Astray
    else Loaded
  }

  /** The verdict on the first header that is not loaded. */
  function PassStatus(hs: seq<Phdr>, n: nat, fileSize: nat, vmin: nat, size: nat): Status
    requires n <= |hs|
  {
    if n == 0 then Loaded
    else
      var before := PassStatus(hs, n - 1, fileSize, vmin, size);
      if before != Loaded then before else Verdict(hs[n - 1], fileSize, vmin, size)
  }

  /** Second pass: copies the file-backed part of every segment over zeroed pages. */
  method CopySegments(file: seq<byte>, hs: seq<Phdr>, vmin: nat, image: Memory) returns (status: Status)
    requires forall a {:trigger image.bytes[a]} :: 0 <= a < |image.bytes| ==> image.bytes[a] == 0
    modifies image
    ensures |image.bytes| == |old(image.bytes)|
    ensures status == PassStatus(hs, |hs|, |file|, vmin, |image.bytes|)
    ensures status == Loaded ==> Describes(file, hs, |hs|, vmin, image.bytes)
  {
    for i := 0 to |hs|
      invariant |image.bytes| == |old(image.bytes)|
      invariant PassStatus(hs, i, |file|, vmin, |image.bytes|) == Loaded
      invariant Describes(file, hs, i, vmin, image.bytes)
    {
      var p := hs[i];
      ghost var was := image.bytes;
      if p.kind != PT_LOAD || p.memsz == 0 {
        Skipped(file, hs, i, vmin, was);
        continue;
      }
      if Wrap(p.offset + p.filesz) > |file| || p.filesz > p.memsz {
        StopsHere(hs, i, |hs|, |file|, vmin, |was|);
        return Refused;
      }
      if p.offset + p.filesz > |file| || p.vaddr < vmin || p.vaddr - vmin + p.filesz > |image.bytes| {
        StopsHere(hs, i, |hs|, |file|, vmin, |was|);
        return Astray;
      }
      image.CopyIn(p.vaddr - vmin, file[p.offset..p.offset + p.filesz]);
      Copied(file, hs, i, vmin, was, image.bytes);
    }
    status := Loaded;
  }

  lemma {:induction false} StopsHere(hs: seq<Phdr>, i: nat, n: nat, fileSize: nat, vmin: nat, size: nat)
    requires i < n <= |hs| && PassStatus(hs, i, fileSize, vmin, size) == Loaded
    requires Verdict(hs[i], fileSize, vmin, size) != Loaded
    ensures PassStatus(hs, n, fileSize, vmin, size) == Verdict(hs[i], fileSize, vmin, size)
  {
    if i < n - 1 {
      StopsHere(hs, i, n - 1, fileSize, vmin, size);
    }
  }

  lemma Skipped(file: seq<byte>, hs: seq<Phdr>, i: nat, vmin: nat, image: seq<byte>)
    requires i < |hs| && Describes(file, hs, i, vmin, image) && !hs[i].Loads()
    ensures Describes(file, hs, i + 1, vmin, image)
  {}

  lemma Copied(file: seq<byte>, hs: seq<Phdr>, i: nat, vmin: nat, was: seq<byte>, image: seq<byte>)
    requires i < |hs| && Describes(file, hs, i, vmin, was) && hs[i].Loads() && hs[i].Sane(|file|)
    requires vmin <= hs[i].vaddr && hs[i].vaddr - vmin + hs[i].filesz <= |was|
    requires image == Patch(was, hs[i].vaddr - vmin, file[hs[i].offset..hs[i].offset + hs[i].filesz])
    ensures Describes(file, hs, i + 1, vmin, image)
  {
    forall a {:trigger image[a]} | 0 <= a < |image| ensures image[a] == ImageByte(file, hs, i + 1, vmin + a) {
      assert was[a] == ImageByte(file, hs, i, vmin + a);
    }
  }

  // ---- How the second pass ends, for headers that may wrap ----

  /** The code's own check lets the header through; its sum is taken in 64 bits. */
  predicate LetThrough(h: Phdr, fileSize: nat) {
    Wrap(h.offset + h.filesz) <= fileSize && h.filesz <= h.memsz
  }

  /** The copy stays inside the file and the pages. */
  predicate StaysInside(h: Phdr, fileSize: nat, base: nat, size: nat) {
    h.offset + h.filesz <= fileSize && h.vaddr + h.filesz <= base + size
  }

  predicate Fits(h: Phdr, fileSize: nat, base: nat, size: nat) {
    h.Loads() ==> LetThrough(h, fileSize) && StaysInside(h, fileSize, base, size)
  }

  /** The pass comes to a header that is let through and strays. */
  ghost predicate ComesToStray(hs: seq<Phdr>, n: nat, fileSize: nat, base: nat, size: nat)
    requires n <= |hs|
  {
    exists i :: 0 <= i < n && hs[i].Loads() && LetThrough(hs[i], fileSize) && !StaysInside(hs[i], fileSize, base, size)
                && forall j :: 0 <= j < i ==> Fits(hs[j], fileSize, base, size)
  }

  ghost predicate AllFit(hs: seq<Phdr>, n: nat, fileSize: nat, base: nat, size: nat)
    requires n <= |hs|
  {
    forall i :: 0 <= i < n ==> Fits(hs[i], fileSize, base, size)
  }

  /** The pass succeeds exactly when all headers fit, and goes astray exactly when it comes to one that strays. */
  lemma {:induction false} PassEnds(hs: seq<Phdr>, n: nat, fileSize: nat, base: nat, size: nat)
    requires n <= |hs| && forall i :: 0 <= i < n && hs[i].Loads() ==> base <= hs[i].vaddr
    ensures PassStatus(hs, n, fileSize, base, size) == Loaded <==> AllFit(hs, n, fileSize, base, size)
    ensures PassStatus(hs, n, fileSize, base, size) == Astray <==> ComesToStray(hs, n, fileSize, base, size)
  {
    if n > 0 {
      PassEnds(hs, n - 1, fileSize, base, size);
      OneHeaderMore(hs, n - 1, n, fileSize, base, size);
    }
  }

  lemma OneHeaderMore(hs: seq<Phdr>, i: nat, n: nat, fileSize: nat, base: nat, size: nat)
    requires n == i + 1 <= |hs|
    ensures AllFit(hs, n, fileSize, base, size)
       <==> AllFit(hs, i, fileSize, base, size) && Fits(hs[i], fileSize, base, size)
    ensures ComesToStray(hs, n, fileSize, base, size)
       <==> ComesToStray(hs, i, fileSize, base, size)
            || (AllFit(hs, i, fileSize, base, size)
                && hs[i].Loads() && LetThrough(hs[i], fileSize) && !StaysInside(hs[i], fileSize, base, size))
    ensures ComesToStray(hs, i, fileSize, base, size) ==> !AllFit(hs, i, fileSize, base, size)
  {
    hide LetThrough, StaysInside;
  }

  /** No loadable header starts below the lowest start, wrap or not. */
  lemma {:induction false} LowestHolds(hs: seq<Phdr>, n: nat)
    requires n <= |hs|
    ensures forall i :: 0 <= i < n && hs[i].Loads() ==> Lowest(hs, n) <= hs[i].vaddr
  {
    if n > 0 {
      LowestHolds(hs, n - 1);
    }
  }

  /** Where the image starts and how large it is. */
  function BaseOf(hs: seq<Phdr>): (b: nat)
    ensures b <= Lowest(hs, |hs|)
  {
    AlignDown(Lowest(hs, |hs|))
  }

  function SizeOf(hs: seq<Phdr>): nat {
    PagesBetween(BaseOf(hs), AlignUp64(Highest(hs, |hs|))) * FRAME_SIZE
  }

  /** The loader comes as far as asking for pages. */
  predicate AsksForPages(hs: seq<Phdr>) {
    Lowest(hs, |hs|) <= Highest(hs, |hs|)
  }

  /** How the loader ends on these headers, whatever they hold. */
  ghost predicate EndsWith(status: Status, hs: seq<Phdr>, fileSize: nat, granted: bool) {
    && (status == NoPages <==> AsksForPages(hs) && !granted)
    && (status == Loaded <==> AsksForPages(hs) && granted && AllFit(hs, |hs|, fileSize, BaseOf(hs), SizeOf(hs)))
    && (status == Astray <==> AsksForPages(hs) && granted && ComesToStray(hs, |hs|, fileSize, BaseOf(hs), SizeOf(hs)))
  }

  lemma HowItEnds(status: Status, hs: seq<Phdr>, fileSize: nat, granted: bool)
    requires !AsksForPages(hs) ==> status == Refused
    requires AsksForPages(hs) && !granted ==> status == NoPages
    requires AsksForPages(hs) && granted ==> status == PassStatus(hs, |hs|, fileSize, BaseOf(hs), SizeOf(hs))
    ensures EndsWith(status, hs, fileSize, granted)
  {
    hide PassStatus, AllFit, ComesToStray, BaseOf, SizeOf;
    LowestHolds(hs, |hs|);
    PassEnds(hs, |hs|, fileSize, BaseOf(hs), SizeOf(hs));
    PassIsNoRequest(hs, |hs|, fileSize, BaseOf(hs), SizeOf(hs));
  }

  /** The file offset wraps: the check passes for every file of sixteen bytes or more, and the copy leaves it. */
  lemma OffsetWraps(status: Status, fileSize: nat)
    requires fileSize >= 16 && EndsWith(status, [Phdr(PT_LOAD, TWO64 - 16, 0x10_0000, 32, 32)], fileSize, true)
    requires fileSize < TWO64 - 16
    ensures status == Astray
  {
    hide PagesBetween, AlignUp64;
    var hs := [Phdr(PT_LOAD, TWO64 - 16, 0x10_0000, 32, 32)];
    OneHeader(hs);
    assert LetThrough(hs[0], fileSize) && !StaysInside(hs[0], fileSize, BaseOf(hs), SizeOf(hs));
  }

  lemma OneHeader(hs: seq<Phdr>)
    requires |hs| == 1 && hs[0].Loads() && hs[0].vaddr < TWO64 - 1
    ensures Lowest(hs, |hs|) == hs[0].vaddr && Highest(hs, |hs|) == Wrap(hs[0].vaddr + hs[0].memsz)
  {
    assert Lowest(hs, 0) == TWO64 - 1 && Highest(hs, 0) == 0;
    assert Lowest(hs, 1) == hs[0].vaddr;
  }

  /** A segment whose end wraps is left out of the extent: its copy leaves the pages. */
  lemma EndWraps(status: Status, fileSize: nat)
    requires fileSize >= 16
    requires EndsWith(status, [Phdr(PT_LOAD, 0, 0x1000, 16, 4096), Phdr(PT_LOAD, 0, TWO64 - 4096, 16, 4096)], fileSize, true)
    ensures status == Astray
  {
    var hs := [Phdr(PT_LOAD, 0, 0x1000, 16, 4096), Phdr(PT_LOAD, 0, TWO64 - 4096, 16, 4096)];
    assert Lowest(hs, 1) == 0x1000 && Highest(hs, 1) == 0x2000;
    assert Lowest(hs, 2) == 0x1000 && Highest(hs, 2) == 0x2000;
    assert BaseOf(hs) == 0x1000 && AlignUp64(0x2000) == 0x2000 && SizeOf(hs) == 0x1000;
    assert Fits(hs[0], fileSize, BaseOf(hs), SizeOf(hs));
    assert LetThrough(hs[1], fileSize) && !StaysInside(hs[1], fileSize, BaseOf(hs), SizeOf(hs));
  }

  /** A segment that ends in the last page of the address space loads, though rounding its end up wraps. */
  lemma LastPageLoads(status: Status, fileSize: nat)
    requires fileSize >= 80 && EndsWith(status, [Phdr(PT_LOAD, 64, TWO64 - 4096, 16, 4090)], fileSize, true)
    ensures status == Loaded
  {
    var hs := [Phdr(PT_LOAD, 64, TWO64 - 4096, 16, 4090)];
    OneHeader(hs);
    assert BaseOf(hs) == TWO64 - 4096 && AlignUp64(TWO64 - 6) == 0 && SizeOf(hs) == 4096;
  }

  ghost predicate AllNoWrap(hs: seq<Phdr>) {
    forall i :: 0 <= i < |hs| ==> hs[i].NoWrap()
  }

  /** The image holds every segment whole. */
  ghost predicate AllInside(hs: seq<Phdr>, vmin: nat, size: nat) {
    forall i :: 0 <= i < |hs| && hs[i].Loads() ==> vmin <= hs[i].vaddr && hs[i].vaddr + hs[i].memsz <= vmin + size
  }

  /** Without wrap, nothing goes astray, and the pass succeeds exactly on sane headers. */
  lemma {:induction false} PassExact(hs: seq<Phdr>, n: nat, fileSize: nat, vmin: nat, size: nat)
    requires n <= |hs| && AllNoWrap(hs) && AllInside(hs, vmin, size)
    ensures PassStatus(hs, n, fileSize, vmin, size)
         == if forall i :: 0 <= i < n ==> hs[i].Sane(fileSize) then Loaded else Refused
  {
    if n > 0 {
      PassExact(hs, n - 1, fileSize, vmin, size);
      assert hs[n - 1].NoWrap();
    }
  }

  /** The pages between the rounded ends hold every segment. */
  lemma PagesHoldAll(hs: seq<Phdr>)
    requires AllNoWrap(hs) && Lowest(hs, |hs|) <= Highest(hs, |hs|)
    ensures var base, end := AlignDown(Lowest(hs, |hs|)), AlignUp64(Highest(hs, |hs|));
      base <= end && end < TWO64 && AllInside(hs, base, (end - base) / FRAME_SIZE * FRAME_SIZE)
  {
    hide AlignDown, AlignUp64, Lowest, Highest;
    ExtentEmpty(hs, |hs|);
    var lo, hi := Lowest(hs, |hs|), Highest(hs, |hs|);
    AlignedSpan(lo, hi);
    forall i | 0 <= i < |hs| && hs[i].Loads()
      ensures lo <= hs[i].vaddr && hs[i].vaddr + hs[i].memsz <= hi
    {
      ExtentHolds(hs, |hs|, i);
      assert hs[i].NoWrap();
    }
  }

  /** Rounding the ends of a span to pages gives whole pages that hold it. */
  lemma AlignedSpan(lo: nat, hi: nat)
    requires lo <= hi && hi + FRAME_SIZE <= TWO64
    ensures var base, end := AlignDown(lo), AlignUp64(hi);
            base <= lo && hi <= end < TWO64 && (end - base) / FRAME_SIZE * FRAME_SIZE == end - base
  {
  }

  /** The signature, machine and table fields the loader checks before the first pass. */
  predicate GoodElfHeader(file: seq<byte>) {
    && |file| >= EHDR_SIZE && file[..6] == SIGNATURE
    && Load(file, 18, 2) == MACHINE_X86_64 && Load(file, 32, 8) != 0 && Load(file, 56, 2) != 0
  }

  predicate GoodTable(file: seq<byte>) {
    && GoodElfHeader(file)
    && TableInside(file, Load(file, 32, 8), Load(file, 54, 2), Load(file, 56, 2))
  }

  function HeadersOf(file: seq<byte>): seq<Phdr>
    requires GoodTable(file)
  {
    Headers(file, Load(file, 32, 8), Load(file, 54, 2), Load(file, 56, 2))
  }

  // ---- Headers as they are written ----

  /** The part of a program header the loader looks at. */
  function Seen(ph: ProgramHeader): Phdr {
    Phdr(ph.ptype, ph.offset, ph.vaddr, ph.filesz, ph.memsz)
  }

  function AllSeen(phs: seq<ProgramHeader>): (hs: seq<Phdr>)
    ensures |hs| == |phs| && forall i :: 0 <= i < |phs| ==> hs[i] == Seen(phs[i])
  {
    seq(|phs|, i requires 0 <= i < |phs| => Seen(phs[i]))
  }

  /** The loader takes the headers of an ELF file for what they are, provided the first checks let it through. */
  lemma HeadersRead(file: seq<byte>, ident: seq<byte>, eh: FileHeader, phs: seq<ProgramHeader>)
    requires IsElfFile(file, ident, eh, phs)
    ensures GoodElfHeader(file)
       <==> ident[..6] == [0x7F, 'E' as nat, 'L' as nat, 'F' as nat, 2, 1] && eh.machine == 62 && eh.phoff != 0 && phs != []
    ensures GoodElfHeader(file) ==> GoodTable(file) && HeadersOf(file) == AllSeen(phs)
    ensures forall i :: 0 <= i < |phs| ==> (AllSeen(phs)[i].Loads() <==> phs[i].ptype == 1 && phs[i].memsz != 0)
  {
    hide Load, StandsAt, FileHeader.Fields, ProgramHeader.Fields;
    FileHeaderRead(file, ident, eh, phs);
    assert file[..6] == ident[..6];
    forall i | 0 <= i < |phs|
      ensures HeaderOffset(eh.phoff, eh.phentsize, i) + PHDR_SIZE <= |file|
      ensures PhdrAt(file, HeaderOffset(eh.phoff, eh.phentsize, i)) == Seen(phs[i])
    {
      ProgramHeaderRead(file, HeaderOffset(eh.phoff, eh.phentsize, i), phs[i]);
    }
  }

  /** Something to load, and nothing the second pass refuses. */
  ghost predicate Loadable(hs: seq<Phdr>, fileSize: nat) {
    (exists i :: 0 <= i < |hs| && hs[i].Loads()) && forall i :: 0 <= i < |hs| ==> hs[i].Sane(fileSize)
  }

  /** Both passes over the headers, and the page request between them. */
  method RunPasses(file: seq<byte>, hs: seq<Phdr>, granted: bool) returns (status: Status, base: nat, image: Memory)
    ensures fresh(image)
    ensures status == Loaded ==>
              base % FRAME_SIZE == 0 && |image.bytes| % FRAME_SIZE == 0 && Describes(file, hs, |hs|, base, image.bytes)
    ensures AllNoWrap(hs) ==> status != Astray && (status == Loaded <==> granted && Loadable(hs, |file|))
    ensures AllNoWrap(hs) && status == Loaded ==> AllInside(hs, base, |image.bytes|)
    ensures AllNoWrap(hs) ==> (status == NoPages <==> !granted && exists i :: 0 <= i < |hs| && hs[i].Loads())
    ensures EndsWith(status, hs, |file|, granted)
    ensures status == Loaded ==> base == BaseOf(hs) && |image.bytes| == SizeOf(hs)
  {
    hide Describes, Lowest, Highest, PassStatus, AllInside, AlignDown, AlignUp64, PagesBetween, EndsWith;
    status, base := Refused, 0;
    image := new Memory([]);
    var vmin, vmax := Extent(hs);
    ExtentVerdict(hs);
    if vmin > vmax {
      HowItEnds(status, hs, |file|, granted);
      return;
    }
    base := AlignDown(vmin);
    var pages := PagesBetween(base, AlignUp64(vmax));
    WholeFrames(vmin, pages);
    if !granted {
      status := NoPages;
      HowItEnds(status, hs, |file|, granted);
      return;
    }
    status := LoadPages(file, hs, base, pages, image);
    HowItEnds(status, hs, |file|, granted);
  }

  /** What the first pass tells without wrap: whether there is anything to load, and that the pages hold it. */
  lemma ExtentVerdict(hs: seq<Phdr>)
    ensures var vmin, vmax := Lowest(hs, |hs|), Highest(hs, |hs|);
            AllNoWrap(hs) ==>
              && (vmin > vmax <==> forall i :: 0 <= i < |hs| ==> !hs[i].Loads())
              && (vmin <= vmax ==>
                    AllInside(hs, AlignDown(vmin), PagesBetween(AlignDown(vmin), AlignUp64(vmax)) * FRAME_SIZE))
  {
    hide Lowest, Highest, AllInside, AlignDown, AlignUp64, PagesBetween;
    if AllNoWrap(hs) {
      ExtentEmpty(hs, |hs|);
      if Lowest(hs, |hs|) <= Highest(hs, |hs|) {
        PagesHoldAll(hs);
      }
    }
  }

  lemma WholeFrames(vmin: nat, pages: nat)
    ensures AlignDown(vmin) % FRAME_SIZE == 0 && pages * FRAME_SIZE % FRAME_SIZE == 0
  {}

  /** The zeroed pages and the second pass over them. */
  method LoadPages(file: seq<byte>, hs: seq<Phdr>, base: nat, pages: nat, image: Memory) returns (status: Status)
    requires image.bytes == []
    modifies image
    ensures |image.bytes| == pages * FRAME_SIZE && status != NoPages
    ensures status == PassStatus(hs, |hs|, |file|, base, pages * FRAME_SIZE)
    ensures status == Loaded ==> Describes(file, hs, |hs|, base, image.bytes)
    ensures AllNoWrap(hs) && AllInside(hs, base, pages * FRAME_SIZE) ==>
              status != Astray && (status == Loaded <==> forall i :: 0 <= i < |hs| ==> hs[i].Sane(|file|))
  {
    hide Describes, PassStatus, AllInside;
    image.Extend(pages * FRAME_SIZE);
    image.Memset(0, 0, pages * FRAME_SIZE);
    status := CopySegments(file, hs, base, image);
    PassIsNoRequest(hs, |hs|, |file|, base, |image.bytes|);
    if AllNoWrap(hs) && AllInside(hs, base, pages * FRAME_SIZE) {
      PassExact(hs, |hs|, |file|, base, |image.bytes|);
    }
  }

  lemma {:induction false} PassIsNoRequest(hs: seq<Phdr>, n: nat, fileSize: nat, vmin: nat, size: nat)
    requires n <= |hs|
    ensures PassStatus(hs, n, fileSize, vmin, size) != NoPages
  {
    if n > 0 {
      PassIsNoRequest(hs, n - 1, fileSize, vmin, size);
    }
  }

  /** The number of pages from `vmin` to `vmax`, in 64-bit arithmetic. */
  function PagesBetween(vmin: nat, vmax: nat): (p: nat)
    requires vmin < TWO64
    ensures vmin <= vmax < TWO64 ==> p == (vmax - vmin) / FRAME_SIZE
  {
    assert vmin <= vmax < TWO64 ==> TWO64 + vmax - vmin == TWO64 + (vmax - vmin);
    Wrap(TWO64 + vmax - vmin) / FRAME_SIZE
  }

  /** How loading an ELF file ends, and what is then in memory, in terms of its headers. */
  ghost predicate LoadsElf(status: Status, base: nat, image: seq<byte>, file: seq<byte>, granted: bool,
                           ident: seq<byte>, eh: FileHeader, phs: seq<ProgramHeader>)
  {
    var hs := AllSeen(phs);
    if |ident| >= 6 && ident[..6] == SIGNATURE && eh.machine == MACHINE_X86_64 && eh.phoff != 0 && phs != [] then
      && EndsWith(status, hs, |file|, granted)
      && (status == Loaded ==> base == BaseOf(hs) && |image| == SizeOf(hs) && Describes(file, hs, |hs|, base, image))
    else status == Refused
  }

  lemma ElfLoaded(status: Status, base: nat, image: seq<byte>, file: seq<byte>, granted: bool,
                  ident: seq<byte>, eh: FileHeader, phs: seq<ProgramHeader>)
    requires IsElfFile(file, ident, eh, phs)
    requires !GoodElfHeader(file) ==> status == Refused
    requires GoodElfHeader(file) && !GoodTable(file) ==> status == Astray
    requires GoodTable(file) ==> EndsWith(status, HeadersOf(file), |file|, granted)
    requires GoodTable(file) && status == Loaded ==>
               var hs := HeadersOf(file);
               base == BaseOf(hs) && |image| == SizeOf(hs) && Describes(file, hs, |hs|, base, image)
    ensures LoadsElf(status, base, image, file, granted, ident, eh, phs)
  {
    hide EndsWith, Describes, BaseOf, SizeOf, GoodElfHeader, Headers, StandsAt, FileHeader.Fields, ProgramHeader.Fields, Load;
    HeadersRead(file, ident, eh, phs);
  }

  /** From the read file to the loaded image; `granted` is the firmware's answer to the page request. */
  method LoadKernel(file: seq<byte>, granted: bool) returns (status: Status, base: nat, image: Memory)
    ensures fresh(image)
    ensures !GoodElfHeader(file) ==> status == Refused
    ensures GoodElfHeader(file) && !GoodTable(file) ==> status == Astray
    ensures status == Loaded ==>
              && GoodTable(file) && base % FRAME_SIZE == 0 && |image.bytes| % FRAME_SIZE == 0
              && Describes(file, HeadersOf(file), |HeadersOf(file)|, base, image.bytes)
    ensures GoodTable(file) && AllNoWrap(HeadersOf(file)) ==>
              status != Astray && (status == Loaded <==> granted && Loadable(HeadersOf(file), |file|))
    ensures GoodTable(file) && AllNoWrap(HeadersOf(file)) && status == Loaded ==>
              AllInside(HeadersOf(file), base, |image.bytes|)
    ensures GoodTable(file) ==> EndsWith(status, HeadersOf(file), |file|, granted)
    ensures GoodTable(file) && status == Loaded ==>
              base == BaseOf(HeadersOf(file)) && |image.bytes| == SizeOf(HeadersOf(file))
    ensures forall ident, eh, phs ::
              IsElfFile(file, ident, eh, phs) ==> LoadsElf(status, base, image.bytes, file, granted, ident, eh, phs)
  {
    hide EndsWith, Load, PhdrAt, Describes, Headers, AllInside, AllNoWrap, Loadable, BaseOf, SizeOf, LoadsElf, IsElfFile;
    status, base := Refused, 0;
    image := new Memory([]);
    if GoodElfHeader(file) {
      if TableInside(file, Load(file, 32, 8), Load(file, 54, 2), Load(file, 56, 2)) {
        status, base, image := RunPasses(file, HeadersOf(file), granted);
      } else {
        status := Astray;
      }
    }
    forall ident, eh, phs | IsElfFile(file, ident, eh, phs)
      ensures LoadsElf(status, base, image.bytes, file, granted, ident, eh, phs)
    {
      ElfLoaded(status, base, image.bytes, file, granted, ident, eh, phs);
    }
  }
}
