/**
 * What an entry says, bit by bit, and what its bits allow: the processor grants a write only when every
 * entry on the way allows it, and an instruction fetch only when none forbids it (Intel SDM volume 3A,
 * sections 4.5 and 4.6).
 */
module Rights {
  import opened Machine
  import opened Powers
  import opened Paging

  // ---- Bits ----

  /** Bit `i` of a number. */
  predicate BitAt(x: nat, i: nat) {
    if i == 0 then x % 2 == 1 else BitAt(x / 2, i - 1)
  }

  predicate FieldBit(b: bv12, i: nat)
    requires i < 12
  {
    (b >> i) & 1 == 1
  }

  /** Bit `i` of the 64-bit word an entry stands for. */
  predicate EntryBit(e: Entry, i: nat)
    requires i < 64
  {
    if i < 12 then FieldBit(e.lo, i) else if i < 52 then BitAt(e.frame, i - 12) else FieldBit(e.hi, i - 52)
  }

  /** Bit `i` of the flags a caller passes. */
  predicate FlagBit(f: Flags, i: nat)
    requires i < 64
  {
    if i < 12 then FieldBit(f.lo, i) else if i < 52 then false else FieldBit(f.hi, i - 52)
  }

  /**
   * Entry `e` maps the page at `phys` with the flags given, and says nothing else: the address in bits 12 to
   * 51, the present bit, and the bits of the flags.
   */
  ghost predicate MapsPage(e: Entry, phys: nat, flags: Flags) {
    && e.Present() && (e.CanWrite() <==> flags.CanWrite()) && (e.NoExecute() <==> flags.NoExecute())
    && (phys < FRAME_FIELD * FRAME_SIZE ==> e.frame == Frame(phys))
    && forall i :: 0 <= i < 64 ==> (EntryBit(e, i) <==> i == 0 || FlagBit(flags, i) || (12 <= i < 52 && BitAt(phys, i)))
  }

  lemma {:induction false} BitOfHalves(x: nat, n: nat, i: nat)
    requires n <= i
    ensures BitAt(x, i) == BitAt(x / Pow(2, n), i - n)
  {
    hide Pow;
    if n == 0 {
      PowZero(2);
    } else {
      BitOfHalves(x / 2, n - 1, i - 1);
      PowStep(2, n);
      QuotientTwice(x, 2, Pow(2, n - 1));
    }
  }

  /** A remainder by a power of two has the low bits. */
  lemma {:induction false} BitOfRemainder(x: nat, n: nat, i: nat)
    requires i < n
    ensures BitAt(x % Pow(2, n), i) == BitAt(x, i)
  {
    hide Pow;
    PowStep(2, n);
    HalfOfRemainder(x, Pow(2, n), Pow(2, n - 1));
    if i > 0 {
      BitOfRemainder(x / 2, n - 1, i - 1);
    }
  }

  lemma HalfOfRemainder(x: nat, m: nat, p: nat)
    requires m == 2 * p && p > 0
    ensures x % m % 2 == x % 2 && x % m / 2 == x / 2 % p
  {
    ModStep(x, 2, p);
    LowestBit(x % m, x % 2, x / 2 % p);
  }

  lemma LowestBit(low: nat, r: nat, q: nat)
    requires low == r + 2 * q && r < 2
    ensures low % 2 == r && low / 2 == q
  {}

  lemma SizesArePowers()
    ensures Pow(2, 12) == FRAME_SIZE && Pow(2, 40) == FRAME_FIELD
  {
    hide Pow;
    PowSquare(2);
    PowDouble(2, 2);
    PowAdd(2, 4, 2);
    PowDouble(2, 6);
    PowAdd(2, 12, 8);
    PowDouble(2, 4);
    PowDouble(2, 20);
  }

  /** Masking an address keeps its bits 12 to 51. */
  lemma FieldBits(phys: nat, i: nat)
    requires 12 <= i < 52
    ensures BitAt(Field(phys), i - 12) == BitAt(phys, i)
  {
    hide Pow, BitAt;
    SizesArePowers();
    BitOfHalves(phys, 12, i);
    BitOfRemainder(Frame(phys), 40, i - 12);
  }

  lemma OredBits(b: bv12, i: nat)
    requires i < 12
    ensures FieldBit(b | PRESENT, i) <==> i == 0 || FieldBit(b, i)
  {}

  lemma RightsOfOred(flags: Flags, e: Entry)
    requires e.lo == flags.lo | PRESENT && e.hi == flags.hi
    ensures e.Present() && (e.CanWrite() <==> flags.CanWrite()) && (e.NoExecute() <==> flags.NoExecute())
  {}

  lemma PageEntryBit(phys: nat, flags: Flags, i: nat)
    requires i < 64
    ensures EntryBit(PageEntry(phys, flags), i) <==> i == 0 || FlagBit(flags, i) || (12 <= i < 52 && BitAt(phys, i))
  {
    hide FieldBit, BitAt, Field;
    if i < 12 {
      OredBits(flags.lo, i);
    } else if i < 52 {
      FieldBits(phys, i);
    }
  }

  /** What `map` writes maps the page and says nothing else. */
  lemma PageEntryMaps(phys: nat, flags: Flags)
    ensures MapsPage(PageEntry(phys, flags), phys, flags)
  {
    RightsOfOred(flags, PageEntry(phys, flags));
    SmallField(phys);
    FrameOfEntry(phys, flags);
    hide PageEntry, EntryBit, FlagBit, BitAt, Field, Entry.Present, Entry.CanWrite, Entry.NoExecute, Flags.CanWrite, Flags.NoExecute;
    forall i | 0 <= i < 64
      ensures EntryBit(PageEntry(phys, flags), i) <==> i == 0 || FlagBit(flags, i) || (12 <= i < 52 && BitAt(phys, i))
    {
      PageEntryBit(phys, flags, i);
    }
  }

  lemma FrameOfEntry(phys: nat, flags: Flags)
    ensures PageEntry(phys, flags).frame == Field(phys)
  {}

  lemma SmallField(phys: nat)
    ensures phys < FRAME_FIELD * FRAME_SIZE ==> Field(phys) == Frame(phys)
  {}

  // ---- Four levels ----

  /** A write to the page of key `k` is allowed by every entry from `table` at `level` down. */
  predicate MayWrite(ram: Ram, table: nat, k: nat, level: nat)
    decreases level
  {
    && table < |ram|
    && var e := ram[table][Prefix(k, level) % 512];
       e.Present() && e.CanWrite() && (level == 0 || MayWrite(ram, e.frame, k, level - 1))
  }

  /** An instruction fetch from it is forbidden by none. */
  predicate MayExecute(ram: Ram, table: nat, k: nat, level: nat)
    decreases level
  {
    && table < |ram|
    && var e := ram[table][Prefix(k, level) % 512];
       e.Present() && !e.NoExecute() && (level == 0 || MayExecute(ram, e.frame, k, level - 1))
  }

  lemma TableEntryAllows(frame: nat)
    ensures TableEntry(frame).Present() && TableEntry(frame).CanWrite() && !TableEntry(frame).NoExecute()
    ensures TableEntry(frame).frame == frame
  {}

  lemma TableEntryBit(frame: nat, i: nat)
    requires i < 64
    ensures EntryBit(TableEntry(frame), i) <==> i == 0 || i == 1 || (12 <= i < 52 && BitAt(Address(frame), i))
  {
    hide BitAt, Pow;
    if 12 <= i < 52 {
      SizesArePowers();
      BitOfHalves(Address(frame), 12, i);
      assert Address(frame) / FRAME_SIZE == frame;
    }
  }

  /** What `unmap` writes has no bit set. */
  lemma EmptyEntry(i: nat)
    requires i < 64
    ensures !EntryBit(EMPTY, i)
  {
    if 12 <= i < 52 {
      NoBitOfZero(i - 12);
    }
  }

  lemma {:induction false} NoBitOfZero(i: nat)
    ensures !BitAt(0, i)
  {
    if i > 0 {
      NoBitOfZero(i - 1);
    }
  }

  /** Tables grant everything: what is allowed is what the last entry allows. */
  lemma {:induction false} RightsBelow(ram: Ram, tables: Tables, root: nat, k: nat, level: nat)
    requires Tree(ram, tables, root) && level <= 3 && NodeFor(k, level) in tables
    ensures NodeFor(k, 0) in tables ==> tables[NodeFor(k, 0)] < |ram|
    ensures MayWrite(ram, tables[NodeFor(k, level)], k, level)
       <==> NodeFor(k, 0) in tables
            && var e := ram[tables[NodeFor(k, 0)]][k % 512]; e.Present() && e.CanWrite()
    ensures MayExecute(ram, tables[NodeFor(k, level)], k, level)
       <==> NodeFor(k, 0) in tables
            && var e := ram[tables[NodeFor(k, 0)]][k % 512]; e.Present() && !e.NoExecute()
  {
    hide Entry.Present, Entry.CanWrite, Entry.NoExecute, TableEntry;
    if level > 0 {
      var n := NodeFor(k, level);
      NodeForChild(k, level);
      assert Linked(ram, tables, n, Prefix(k, level) % 512);
      if NodeFor(k, level - 1) in tables {
        TableEntryAllows(tables[NodeFor(k, level - 1)]);
        RightsBelow(ram, tables, root, k, level - 1);
      } else {
        MissingBelow(tables, |ram|, k, level - 1);
      }
    }
  }

  /** The rights the processor grants to a mapped page are those its entry says. */
  lemma RightsOfKey(ram: Ram, tables: Tables, root: nat, k: nat)
    requires Tree(ram, tables, root) && k < KEYS
    ensures MayWrite(ram, root, k, 3) <==> Leaf(ram, root, k).Present() && Leaf(ram, root, k).CanWrite()
    ensures MayExecute(ram, root, k, 3) <==> Leaf(ram, root, k).Present() && !Leaf(ram, root, k).NoExecute()
  {
    hide Leaf, MayWrite, MayExecute, Entry.CanWrite, Entry.NoExecute;
    PrefixOfKey(k);
    RightsBelow(ram, tables, root, k, 3);
    LeafInTree(ram, tables, root, k);
  }
}
