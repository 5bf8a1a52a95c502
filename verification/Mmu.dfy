/**
  The i386 paging vocabulary of the kernel: machine words, the split of a
  linear address into directory index, table index and offset, page table
  entries, and the virtual memory layout.
*/
module Mmu {

  datatype Option<+T> = None | Some(value: T)

  /** A 32-bit machine word: a page table entry or four bytes of data. */
  type Word = x: int | 0 <= x < 0x1_0000_0000

  const PGSIZE := 4096
  const NPTENTRIES := 1024
  const PTSIZE := PGSIZE * NPTENTRIES
  /** Number of pages in the 32-bit linear address space. */
  const NVPAGES := 0x10_0000

  const PTE_P := 0x001
  const PTE_W := 0x002
  const PTE_U := 0x004

  const KERNBASE: Word := 0xF000_0000
  const IOPHYSMEM: Word := 0x0A_0000
  const EXTPHYSMEM: Word := 0x10_0000
  const KSTACKTOP: Word := 0xF000_0000
  const KSTKSIZE: Word := 0x8000
  const ULIM: Word := 0xEF80_0000
  const UVPT: Word := 0xEF40_0000
  const UPAGES: Word := 0xEF00_0000
  const UENVS: Word := 0xEEC0_0000
  const UTOP: Word := 0xEEC0_0000
  const USTACKTOP: Word := 0xEEBF_E000

  /** Directory index of the first slot above the user half. */
  const UTOPX: nat := 955
  /** Directory index of the self-mapping slot. */
  const UVPTX: nat := 957

  function PGNUM(la: Word): nat { la / 4096 }
  function PDX(la: Word): nat { la / 0x40_0000 }
  function PTX(la: Word): nat { (la / 4096) % 1024 }
  function PGOFF(la: Word): nat { la % 4096 }
  function PGADDR(d: nat, t: nat, o: nat): Word
    requires d < 1024 && t < 1024 && o < 4096
  {
    d * 0x40_0000 + t * 4096 + o
  }

  /** page2pa: the physical address of a frame. */
  function FrameAddr(f: nat): (pa: Word)
    requires f < NVPAGES
    ensures pa % PGSIZE == 0 && PGNUM(pa) == f
  {
    f * 4096
  }

  /** The page number named by a directory index and a table index. */
  function Vpn(d: nat, t: nat): nat { d * 1024 + t }

  predicate Present(w: Word) { w % 2 == 1 }

  /** Bit 1 of an entry: stores are permitted, if the other level permits them too. */
  predicate Writable(w: Word) { w / 2 % 2 == 1 }

  /** Bit 2: user mode is permitted, if the other level permits it too. */
  predicate ForUser(w: Word) { w / 4 % 2 == 1 }

  /** The frame number in an entry: PTE_ADDR(w) >> PGSHIFT. */
  function FrameOf(w: Word): nat { w / 4096 }

  function PermOf(w: Word): nat { w % 4096 }

  /** The word (frame << PGSHIFT) | perm | PTE_P. */
  function Pack(frame: nat, perm: nat): Word
    requires frame < NVPAGES && perm < 4096
  {
    frame * 4096 + 2 * (perm / 2) + 1
  }

  lemma PackParts(frame: nat, perm: nat)
    requires frame < NVPAGES && perm < 4096
    ensures Present(Pack(frame, perm))
    ensures FrameOf(Pack(frame, perm)) == frame
    ensures PermOf(Pack(frame, perm)) == 2 * (perm / 2) + 1
  {
    InPage(frame, 2 * (perm / 2) + 1);
    OddWord(frame * 2048 + perm / 2);
  }

  /** The permission bits of a packed entry are those of perm. */
  lemma PackBits(frame: nat, perm: nat)
    requires frame < NVPAGES && perm < 4096
    ensures Writable(Pack(frame, perm)) <==> perm / 2 % 2 == 1
    ensures ForUser(Pack(frame, perm)) <==> perm / 4 % 2 == 1
  {
    assert Pack(frame, perm) / 2 == frame * 2048 + perm / 2;
    assert Pack(frame, perm) / 4 == frame * 1024 + perm / 4;
  }

  lemma InPage(page: nat, o: nat)
    requires o < 4096
    ensures (page * 4096 + o) / 4096 == page && (page * 4096 + o) % 4096 == o
  {
  }

  lemma OddWord(h: nat)
    ensures (2 * h + 1) % 2 == 1
  {
  }

  lemma LayoutIndices()
    ensures PDX(UTOP) == UTOPX && PDX(UVPT) == UVPTX
    ensures UTOP % PTSIZE == 0 && UVPT % PTSIZE == 0
    ensures KSTACKTOP == KERNBASE && ULIM == KSTACKTOP - 2 * PTSIZE && UVPT == ULIM - PTSIZE
    ensures UPAGES == UVPT - PTSIZE && UENVS == UTOP == UPAGES - PTSIZE && USTACKTOP == UTOP - 2 * PGSIZE
  {
  }

  /** Splitting a linear address and putting it together again are inverse. */
  lemma AddressSplit(la: Word)
    ensures PDX(la) < 1024 && PTX(la) < 1024 && PGOFF(la) < 4096
    ensures PGADDR(PDX(la), PTX(la), PGOFF(la)) == la
    ensures PGNUM(la) == Vpn(PDX(la), PTX(la))
  {
  }

  lemma AddressJoin(d: nat, t: nat, o: nat)
    requires d < 1024 && t < 1024 && o < 4096
    ensures PDX(PGADDR(d, t, o)) == d
    ensures PTX(PGADDR(d, t, o)) == t
    ensures PGOFF(PGADDR(d, t, o)) == o
  {
    var la := PGADDR(d, t, o);
    assert la == (d * 1024 + t) * 4096 + o;
    assert la / 4096 == d * 1024 + t;
    assert (d * 1024 + t) / 1024 == d;
  }

  // ------------------------------------------------------- bytes of a word

  type Byte = x: int | 0 <= x < 256

  /** Byte i of a little-endian word. */
  function GetByte(w: Word, i: nat): Byte {
    if i == 0 then w % 0x100
    else if i == 1 then (w / 0x100) % 0x100
    else if i == 2 then (w / 0x1_0000) % 0x100
    else w / 0x100_0000
  }

  function Join(b0: Byte, b1: Byte, b2: Byte, b3: Byte): Word {
    b0 + 0x100 * b1 + 0x1_0000 * b2 + 0x100_0000 * b3
  }

  function PutByte(w: Word, i: nat, b: Byte): Word {
    Join(if i == 0 then b else GetByte(w, 0),
         if i == 1 then b else GetByte(w, 1),
         if i == 2 then b else GetByte(w, 2),
         if i == 3 then b else GetByte(w, 3))
  }

  lemma JoinBytes(b0: Byte, b1: Byte, b2: Byte, b3: Byte)
    ensures GetByte(Join(b0, b1, b2, b3), 0) == b0
    ensures GetByte(Join(b0, b1, b2, b3), 1) == b1
    ensures GetByte(Join(b0, b1, b2, b3), 2) == b2
    ensures GetByte(Join(b0, b1, b2, b3), 3) == b3
  {
    var w := Join(b0, b1, b2, b3);
    assert w / 0x100 == b1 + 0x100 * b2 + 0x1_0000 * b3;
    assert w / 0x1_0000 == b2 + 0x100 * b3;
  }

  lemma GetPut(w: Word, i: nat, j: nat, b: Byte)
    requires i < 4 && j < 4
    ensures GetByte(PutByte(w, i, b), j) == if i == j then b else GetByte(w, j)
  {
    JoinBytes(if i == 0 then b else GetByte(w, 0), if i == 1 then b else GetByte(w, 1),
              if i == 2 then b else GetByte(w, 2), if i == 3 then b else GetByte(w, 3));
  }

  // --------------------------------------------------------------- signed words

  /** Two's-complement reading of the low 32 bits. */
  function Int32(x: int): int {
    var y := x % 0x1_0000_0000;
    if y < 0x8000_0000 then y else y - 0x1_0000_0000
  }

  lemma Int32Shift(x: int, m: int)
    ensures Int32(x + 0x1_0000_0000 * m) == Int32(x)
  {
  }

  /** A number is its own two's-complement reading exactly when it fits. */
  lemma Int32Fits(x: int)
    ensures Int32(x) == x <==> -0x8000_0000 <= x < 0x8000_0000
  {
  }
}
