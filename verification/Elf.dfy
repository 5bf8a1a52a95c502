/**
  The file format that load_icode reads, written from struct Elf and struct Proghdr: the
  bytes of a header, and the program that a file made of such bytes becomes.
*/
module Elf {
  import opened Mmu
  import opened Vm
  import opened EnvVm
  import opened Loader

  /** A little-endian half word. */
  function Le16(x: nat): (r: seq<Byte>)
    requires x < 0x1_0000
    ensures |r| == 2
  {
    [x % 0x100, x / 0x100]
  }

  /** A little-endian word. */
  function Le32(x: Word): (r: seq<Byte>)
    ensures |r| == 4
  {
    [x % 0x100, x / 0x100 % 0x100, x / 0x1_0000 % 0x100, x / 0x100_0000]
  }

  /** struct Proghdr, all eight fields, in their order. */
  datatype Phdr = Phdr(kind: Word, offset: Word, va: Word, pa: Word, filesz: Word, memsz: Word, flags: Word, align: Word)

  function PhdrBytes(p: Phdr): (r: seq<Byte>)
    ensures |r| == 32
  {
    Le32(p.kind) + Le32(p.offset) + Le32(p.va) + Le32(p.pa) + Le32(p.filesz) + Le32(p.memsz) + Le32(p.flags) + Le32(p.align)
  }

  /** The bytes b stand at offset o of the image. */
  predicate Holds(image: seq<Byte>, o: nat, b: seq<Byte>) { o + |b| <= |image| && image[o..o + |b|] == b }

  /**
    The image is an ELF file with the given entry point and program headers: "\x7FELF" at
    0, e_entry at 24, e_phoff at 28, e_phnum at 44, and 32 bytes for each header.
  */
  ghost predicate ElfImage(image: seq<Byte>, entry: Word, phoff: Word, phs: seq<Phdr>) {
    && |phs| < 0x1_0000
    && Holds(image, 0, [0x7F, 0x45, 0x4C, 0x46]) && Holds(image, 24, Le32(entry))
    && Holds(image, 28, Le32(phoff)) && Holds(image, 44, Le16(|phs|))
    && (forall i :: 0 <= i < |phs| ==> Holds(image, phoff + 32 * i, PhdrBytes(phs[i])))
  }

  // ------------------------------------------------------------------- decoding

  lemma BytesAt(image: seq<Byte>, o: nat, b: seq<Byte>, k: nat)
    requires Holds(image, o, b) && k < |b|
    ensures ByteAt(image, o + k) == b[k]
  {
    assert image[o..o + |b|][k] == image[o + k];
  }

  lemma Word32(x: Word)
    ensures Join(x % 0x100, x / 0x100 % 0x100, x / 0x1_0000 % 0x100, x / 0x100_0000) == x
  {
    assert x / 0x100 == 0x100 * (x / 0x1_0000) + x / 0x100 % 0x100;
    assert x / 0x1_0000 == 0x100 * (x / 0x100_0000) + x / 0x1_0000 % 0x100;
  }

  /** Reading a word undoes writing it. */
  lemma ReadsWord(image: seq<Byte>, o: nat, x: Word)
    requires Holds(image, o, Le32(x))
    ensures U32(image, o) == x
  {
    hide Holds, ByteAt, Join;
    BytesAt(image, o, Le32(x), 0);
    BytesAt(image, o, Le32(x), 1);
    BytesAt(image, o, Le32(x), 2);
    BytesAt(image, o, Le32(x), 3);
    Word32(x);
  }

  lemma ReadsHalf(image: seq<Byte>, o: nat, x: nat)
    requires x < 0x1_0000 && Holds(image, o, Le16(x))
    ensures U16(image, o) == x
  {
    BytesAt(image, o, Le16(x), 0);
    BytesAt(image, o, Le16(x), 1);
  }

  lemma HoldsParts(image: seq<Byte>, o: nat, a: seq<Byte>, b: seq<Byte>)
    requires Holds(image, o, a + b)
    ensures Holds(image, o, a) && Holds(image, o + |a|, b)
  {
    assert image[o..o + |a|] == (a + b)[..|a|] == a;
    assert image[o + |a|..o + |a| + |b|] == (a + b)[|a|..] == b;
  }

  /** Reading a program header undoes writing it. */
  lemma ReadsHeader(image: seq<Byte>, o: nat, p: Phdr)
    requires Holds(image, o, PhdrBytes(p))
    ensures U32(image, o) == p.kind && U32(image, o + 4) == p.offset && U32(image, o + 8) == p.va
    ensures U32(image, o + 16) == p.filesz && U32(image, o + 20) == p.memsz
  {
    hide Holds, Le32, U32;
    var w1, w2, w3, w4 := Le32(p.kind), Le32(p.offset), Le32(p.va), Le32(p.pa);
    var w5, w6, w7, w8 := Le32(p.filesz), Le32(p.memsz), Le32(p.flags), Le32(p.align);
    HoldsParts(image, o, w1 + w2 + w3 + w4 + w5 + w6 + w7, w8);
    HoldsParts(image, o, w1 + w2 + w3 + w4 + w5 + w6, w7);
    HoldsParts(image, o, w1 + w2 + w3 + w4 + w5, w6);
    HoldsParts(image, o, w1 + w2 + w3 + w4, w5);
    HoldsParts(image, o, w1 + w2 + w3, w4);
    HoldsParts(image, o, w1 + w2, w3);
    HoldsParts(image, o, w1, w2);
    ReadsWord(image, o, p.kind);
    ReadsWord(image, o + 4, p.offset);
    ReadsWord(image, o + 8, p.va);
    ReadsWord(image, o + 16, p.filesz);
    ReadsWord(image, o + 20, p.memsz);
  }

  /** What load_icode reads off an ELF file is what was written there. */
  lemma ElfDecodes(image: seq<Byte>, entry: Word, phoff: Word, phs: seq<Phdr>)
    requires ElfImage(image, entry, phoff, phs)
    ensures U32(image, 0) == ELF_MAGIC && U32(image, 24) == entry && HeaderCount(image) == |phs|
    ensures forall i :: 0 <= i < |phs| ==>
      Header(image, i) == Proghdr(phs[i].kind, phs[i].offset, phs[i].va, phs[i].filesz, phs[i].memsz)
  {
    hide Holds, Le32, Le16, U32, U16, PhdrBytes;
    MagicBytes();
    ReadsWord(image, 0, ELF_MAGIC);
    ReadsWord(image, 24, entry);
    ReadsWord(image, 28, phoff);
    ReadsHalf(image, 44, |phs|);
    forall i | 0 <= i < |phs|
      ensures Header(image, i) == Proghdr(phs[i].kind, phs[i].offset, phs[i].va, phs[i].filesz, phs[i].memsz)
    {
      ReadsHeader(image, phoff + 32 * i, phs[i]);
    }
  }

  lemma MagicBytes()
    ensures Le32(ELF_MAGIC) == [0x7F, 0x45, 0x4C, 0x46]
  {
  }

  // ----------------------------------------------------------------- the program

  /** The pages of a segment, in numbers. */
  predicate OnPage(p: Phdr, page: nat) { p.va / 4096 <= page < p.va / 4096 + (p.memsz + 4095) / 4096 }

  /**
    A program that loads as its headers say: every loadable segment (type 1) lies below
    UTOP and within the file, is no longer there than in memory and fits its rounded
    length; no two of them share a page, and none takes the page of the stack.
  */
  ghost predicate Program(image: seq<Byte>, phs: seq<Phdr>) {
    && (forall i :: 0 <= i < |phs| && phs[i].kind == 1 ==>
          && phs[i].va + phs[i].memsz <= 0xEEC0_0000 && phs[i].filesz <= phs[i].memsz
          && phs[i].offset + phs[i].filesz <= |image|
          && phs[i].va % 4096 + phs[i].memsz <= (phs[i].memsz + 4095) / 4096 * 4096
          && !OnPage(phs[i], 0xE_EBFD))
    && (forall i, j, page :: 0 <= i < |phs| && 0 <= j < |phs| && i != j && phs[i].kind == 1 && phs[j].kind == 1 && OnPage(phs[i], page) ==>
          !OnPage(phs[j], page))
  }

  lemma ProgramIsTidy(image: seq<Byte>, entry: Word, phoff: Word, phs: seq<Phdr>)
    requires ElfImage(image, entry, phoff, phs) && Program(image, phs)
    ensures TidyImage(image)
    ensures forall i: nat :: Loads(image, i) ==> Header(image, i).filesz <= Header(image, i).memsz
  {
    hide ElfImage, Header;
    ElfDecodes(image, entry, phoff, phs);
    assert (USTACKTOP - PGSIZE) / 4096 == 0xE_EBFD;
    forall i: nat | Loads(image, i)
      ensures UserSegment(Header(image, i)) && Fits(Header(image, i)) && !InPages(Header(image, i), USTACKTOP - PGSIZE)
    {
      assert !OnPage(phs[i], 0xE_EBFD);
    }
    forall i: nat, j: nat, x: nat | Loads(image, i) && Loads(image, j) && i != j && InPages(Header(image, i), x)
      ensures !InPages(Header(image, j), x)
    {
      assert OnPage(phs[i], x / 4096) && !OnPage(phs[j], x / 4096);
    }
  }

  /** The pages that a program and its stack take, from its headers. */
  function ProgramPages(phs: seq<Phdr>): nat {
    if phs == [] then 0
    else ProgramPages(phs[..|phs| - 1]) + (if phs[|phs| - 1].kind == 1 then (phs[|phs| - 1].memsz + 4095) / 4096 else 0)
  }

  lemma {:induction false} ProgramPagesNeeded(image: seq<Byte>, phs: seq<Phdr>, k: nat)
    requires k <= |phs|
    requires forall i :: 0 <= i < |phs| ==> Header(image, i) == Proghdr(phs[i].kind, phs[i].offset, phs[i].va, phs[i].filesz, phs[i].memsz)
    ensures PagesNeeded(image, k) == ProgramPages(phs[..k])
  {
    hide Header;
    if k > 0 {
      ProgramPagesNeeded(image, phs, k - 1);
      assert phs[..k][..k - 1] == phs[..k - 1];
    }
  }

  /**
    load_icode of an ELF file: at va + k of every loadable segment stands the byte of the
    file at offset + k, for k below filesz, and 0 from there to memsz.
  */
  lemma LoadsElf(s: State, base: seq<nat>, out: set<nat>, e: nat, image: seq<Byte>, entry: Word, phoff: Word, phs: seq<Phdr>, i: nat, k: nat)
    requires Inv(s, base, out) && DirOf(s, e).Some? && Exclusive(s, e)
    requires ElfImage(image, entry, phoff, phs) && Program(image, phs)
    requires LoadIcode(s, DirOf(s, e).value, image).Some?
    requires i < |phs| && phs[i].kind == 1 && k < phs[i].memsz
    ensures ReadByte(LoadIcode(s, DirOf(s, e).value, image).value, DirOf(s, e).value, phs[i].va + k) ==
      Some(if k < phs[i].filesz then image[phs[i].offset + k] else 0)
  {
    hide Inv, Exclusive, ElfImage, Header, ReadByte, LoadIcode, TidyImage;
    ElfDecodes(image, entry, phoff, phs);
    ProgramIsTidy(image, entry, phoff, phs);
    LoadIcodeReads(s, base, out, e, image, i, phs[i].va + k);
  }

  /** It does load when two frames are free for every page of the program and of the stack. */
  lemma ElfSucceeds(s: State, base: seq<nat>, out: set<nat>, e: nat, image: seq<Byte>, entry: Word, phoff: Word, phs: seq<Phdr>)
    requires Inv(s, base, out) && DirOf(s, e).Some? && Exclusive(s, e)
    requires ElfImage(image, entry, phoff, phs) && Program(image, phs)
    requires |s.free| >= 2 * (ProgramPages(phs) + 1)
    ensures LoadIcode(s, DirOf(s, e).value, image).Some?
  {
    hide Inv, Exclusive, ElfImage, Header, LoadIcode, TidyImage, Program;
    ElfDecodes(image, entry, phoff, phs);
    ProgramIsTidy(image, entry, phoff, phs);
    ProgramPagesNeeded(image, phs, |phs|);
    assert phs[..|phs|] == phs;
    LoadIcodeSucceeds(s, base, out, e, image);
  }
}
