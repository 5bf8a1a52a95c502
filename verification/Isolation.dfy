/**
  No environment can see what the kernel does for another: over a whole run, the user
  memory of an environment that no operation is aimed at reads the same.
*/
module Isolation {
  import opened Mmu
  import opened Vm
  import opened VmSteps
  import opened PageOps
  import opened Translation
  import opened EnvVm
  import opened Loader
  import opened Envs
  import opened Protection
  import opened Steps
  import opened Runs
  import opened Boot
  import opened Elf

  /** op is aimed at environment e, or is a store to a page that e also maps. */
  ghost predicate Touches(c: Config, op: Op, e: nat) {
    match op
    case InsertOp(e1, _, _, _) => e1 == e
    case RemoveOp(e1, _) => e1 == e
    case EnvFreeOp(e1) => e1 == e
    case StoreOp(va, _) =>
      && c.sys.cur.Some? && Points(c.sys.vm, PteAt(c.sys.cur.value, va / 4096)).Some?
      && exists v: nat :: Points(c.sys.vm, PteAt(e, v)) == Points(c.sys.vm, PteAt(c.sys.cur.value, va / 4096))
    case _ => false
  }

  /** Environment e is live in both states, on one directory, and sees the same user memory. */
  ghost predicate SameView(s: Sys, s': Sys, e: nat) {
    && Live(s, e) && Live(s', e) && DirOf(s'.vm, e) == DirOf(s.vm, e)
    && forall x: nat :: x < UTOP ==> ReadByte(s'.vm, DirOf(s.vm, e).value, x) == ReadByte(s.vm, DirOf(s.vm, e).value, x)
  }

  lemma IsolatedRead(s: State, s': State, base: seq<nat>, out: set<nat>, out': set<nat>, e0: nat, e: nat, x: nat)
    requires Inv(s, base, out) && Inv(s', base, out') && Isolated(s, s', base, e0) && e != e0
    requires DirOf(s, e).Some? && x < UTOP
    ensures DirOf(s', e) == DirOf(s, e)
    ensures ReadByte(s', DirOf(s, e).value, x) == ReadByte(s, DirOf(s, e).value, x)
  {
    hide ReadByte, Accounts;
    assert Points(s, Dir(e)) == DirOf(s, e) && Points(s', Dir(e)) == DirOf(s', e);
    assert x / 4096 / 1024 < UTOPX;
    ReadUser(s, e, x);
    ReadUser(s', e, x);
    assert Points(s', PteAt(e, x / 4096)) == Points(s, PteAt(e, x / 4096));
  }

  lemma IsolatedView(s: Sys, s': Sys, base: seq<nat>, out: set<nat>, out': set<nat>, e0: nat, e: nat)
    requires Inv(s.vm, base, out) && Inv(s'.vm, base, out') && Isolated(s.vm, s'.vm, base, e0) && e != e0
    requires Live(s, e) && e < |s'.envs| && s'.envs[e].status != Free
    ensures SameView(s, s', e)
  {
    hide Inv, Isolated, ReadByte;
    IsolatedRead(s.vm, s'.vm, base, out, out', e0, e, 0);
    forall x: nat | x < UTOP ensures ReadByte(s'.vm, DirOf(s.vm, e).value, x) == ReadByte(s.vm, DirOf(s.vm, e).value, x) {
      IsolatedRead(s.vm, s'.vm, base, out, out', e0, e, x);
    }
  }

  /** A user store either faults and changes nothing, or writes one data frame below UTOP. */
  lemma StoreOutcome(c: Config, base: seq<nat>, va: nat, b: Byte) returns (f: nat)
    requires ConfigInv(c, base) && Allowed(c, base, StoreOp(va, b))
    ensures Step(c, StoreOp(va, b)).Some?
    ensures var c' := Step(c, StoreOp(va, b)).value;
      || c' == c
      || (&& c' == c.(sys := c.sys.(vm := c'.sys.vm)) && Points(c.sys.vm, PteAt(c.sys.cur.value, va / 4096)) == Some(f)
          && f < |base| && base[f] == 0 && Stored(c.sys.vm, c'.sys.vm, base, c.out, f))
  {
    hide Inv, Coherent, Guard, StoreByte, Stored;
    UserStoreStep(c, base, va, b);
    f := 0;
    if va < UTOP {
      assert va / 4096 / 1024 < UTOPX;
      StoreInv(c.sys.vm, base, c.out, c.sys.cur.value, va, b);
      if StoreByte(c.sys.vm, va, b).Some? { f := Points(c.sys.vm, PteAt(c.sys.cur.value, va / 4096)).value; }
    }
  }

  lemma StoreView(c: Config, base: seq<nat>, va: nat, b: Byte, e: nat)
    requires ConfigInv(c, base) && Allowed(c, base, StoreOp(va, b)) && Live(c.sys, e) && !Touches(c, StoreOp(va, b), e)
    ensures Step(c, StoreOp(va, b)).Some? && SameView(c.sys, Step(c, StoreOp(va, b)).value.sys, e)
  {
    hide Inv, Coherent, Guard, UserStore, Stored, Step;
    var f := StoreOutcome(c, base, va, b);
    var c' := Step(c, StoreOp(va, b)).value;
    if c' != c { StoredView(c.sys, c'.sys.vm, base, c.out, f, e); }
  }

  lemma StoredView(s: Sys, vm': State, base: seq<nat>, out: set<nat>, f: nat, e: nat)
    requires Inv(s.vm, base, out) && Stored(s.vm, vm', base, out, f) && Live(s, e)
    requires forall v: nat :: Points(s.vm, PteAt(e, v)) != Some(f)
    ensures SameView(s, s.(vm := vm'), e)
  {
    hide ReadByte, Accounts;
    forall x: nat | x < UTOP ensures ReadByte(vm', DirOf(s.vm, e).value, x) == ReadByte(s.vm, DirOf(s.vm, e).value, x) {
      assert x / 4096 / 1024 < UTOPX;
      ReadUser(s.vm, e, x);
      ReadUser(vm', e, x);
      assert Points(vm', PteAt(e, x / 4096)) == Points(s.vm, PteAt(e, x / 4096));
    }
  }

  /** An operation that is not aimed at a live environment does not act on its slot, and leaves it live. */
  lemma StillThere(c: Config, base: seq<nat>, op: Op, e: nat)
    requires ConfigInv(c, base) && Step(c, op).Some? && Live(c.sys, e) && !Touches(c, op, e) && !op.StoreOp?
    ensures Actor(c, op) != e
    ensures e < |Step(c, op).value.sys.envs| && Step(c, op).value.sys.envs[e].status != Free
  {
    hide Inv, Coherent, SetupVm, NextId, NthId, LoadIcode, FreeSpace, Insert, Remove, Alloc;
    if c.sys.freeEnvs != [] { assert c.sys.freeEnvs[0] in c.sys.freeEnvs; }
  }

  /** One step: whoever it is not aimed at sees no change. */
  lemma StepView(c: Config, base: seq<nat>, op: Op, e: nat)
    requires ConfigInv(c, base) && Allowed(c, base, op) && Step(c, op).Some?
    requires Live(c.sys, e) && !Touches(c, op, e)
    ensures SameView(c.sys, Step(c, op).value.sys, e)
  {
    hide Inv, Coherent, SameView, Isolated, Step, Actor, Touches, Allowed;
    if op.StoreOp? {
      StoreView(c, base, op.va, op.b, e);
    } else {
      StepKeeps(c, base, op);
      StepIsolated(c, base, op);
      StillThere(c, base, op, e);
      var c' := Step(c, op).value;
      IsolatedView(c.sys, c'.sys, base, c.out, c'.out, Actor(c, op), e);
    }
  }

  /** Nor does any step, user stores included, write a frame that has a boot-time use. */
  lemma StepKeepsBootFrames(c: Config, base: seq<nat>, op: Op)
    requires ConfigInv(c, base) && Allowed(c, base, op) && Step(c, op).Some?
    ensures BootKept(c.sys.vm, Step(c, op).value.sys.vm, base)
  {
    hide Inv, Coherent, Guard, Step, Allowed, Points;
    if op.StoreOp? {
      var f := StoreOutcome(c, base, op.va, op.b);
    } else {
      StepIsolated(c, base, op);
    }
  }

  lemma StepKeepsKernelMap(c: Config, base: seq<nat>, op: Op, v: nat)
    requires ConfigInv(c, base) && Allowed(c, base, op) && Step(c, op).Some?
    requires v < NVPAGES && v / 1024 != UVPTX
    ensures var s, s' := c.sys.vm, Step(c, op).value.sys.vm;
      s'.kdir == s.kdir && Translate(s', s.kdir, v) == Translate(s, s.kdir, v)
  {
    hide Inv, Coherent, Guard, Translate, Step, Allowed, Points;
    if op.StoreOp? {
      var f := StoreOutcome(c, base, op.va, op.b);
      assert IsSpace(c.sys.vm, c.sys.vm.kdir);
    } else {
      StepIsolated(c, base, op);
      IsolatedKernelMap(c.sys.vm, Step(c, op).value.sys.vm, base, c.out, Actor(c, op), v);
    }
  }

  /** Over every run kern_pgdir goes on translating every page, self-mapped slot apart, as it did at boot. */
  lemma {:induction false} RunKeepsKernelMap(c: Config, base: seq<nat>, ops: seq<Op>, v: nat)
    requires ConfigInv(c, base) && Run(c, base, ops).Some? && v < NVPAGES && v / 1024 != UVPTX
    ensures var s, s' := c.sys.vm, Run(c, base, ops).value.sys.vm;
      s'.kdir == s.kdir && Translate(s', s.kdir, v) == Translate(s, s.kdir, v)
    decreases |ops|
  {
    hide ConfigInv, Step, Allowed, Translate;
    if ops != [] {
      StepKeeps(c, base, ops[0]);
      StepKeepsKernelMap(c, base, ops[0], v);
      RunKeepsKernelMap(Step(c, ops[0]).value, base, ops[1..], v);
    }
  }

  /**
    Over every run the frames that have a boot-time use keep their contents: those of
    the kernel, of kern_pgdir, and those where pages[] and envs[] live on the machine.
    This is why the model may keep pages[] and envs[] beside physical memory.
  */
  lemma {:induction false} RunKeepsBootFrames(c: Config, base: seq<nat>, ops: seq<Op>)
    requires ConfigInv(c, base) && Run(c, base, ops).Some?
    ensures BootKept(c.sys.vm, Run(c, base, ops).value.sys.vm, base)
    decreases |ops|
  {
    hide ConfigInv, Step, Allowed;
    if ops != [] {
      StepKeeps(c, base, ops[0]);
      StepKeepsBootFrames(c, base, ops[0]);
      RunKeepsBootFrames(Step(c, ops[0]).value, base, ops[1..]);
    }
  }

  /** Some operation of the run, at the time it is performed, touches e. */
  ghost predicate RunTouches(c: Config, ops: seq<Op>, e: nat)
    decreases |ops|
  {
    ops != [] && (Touches(c, ops[0], e) || (Step(c, ops[0]).Some? && RunTouches(Step(c, ops[0]).value, ops[1..], e)))
  }

  /**
    Isolation. Over every run none of whose operations touches environment e, e stays
    live on the same directory and every byte of its user address space, mapped or
    not, reads as it did at the start: whatever the others map, unmap, load, store,
    exit or are given in the meantime.
  */
  lemma {:induction false} RunView(c: Config, base: seq<nat>, ops: seq<Op>, e: nat)
    requires ConfigInv(c, base) && Run(c, base, ops).Some? && Live(c.sys, e) && !RunTouches(c, ops, e)
    ensures SameView(c.sys, Run(c, base, ops).value.sys, e)
    decreases |ops|
  {
    hide ConfigInv, Step, Allowed, Touches, ReadByte;
    if ops != [] {
      StepKeeps(c, base, ops[0]);
      StepView(c, base, ops[0], e);
      RunView(Step(c, ops[0]).value, base, ops[1..], e);
    }
  }

  // ------------------------------------------------- from the image to the process

  /** What env_create leaves in the slot it takes. */
  lemma EnvCreateRecord(c: Config, base: seq<nat>, image: seq<Byte>, kind: int)
    requires ConfigInv(c, base) && UserImage(image) && Step(c, EnvCreateOp(image, kind)).Some?
    ensures c.sys.freeEnvs != []
    ensures var e, s' := c.sys.freeEnvs[0], Step(c, EnvCreateOp(image, kind)).value.sys;
      && Live(s', e) && !Live(c.sys, e)
      && s'.envs[e].kind == kind && s'.envs[e].parent == 0 && s'.envs[e].status == Runnable && s'.envs[e].runs == 0
      && s'.envs[e].eip == U32(image, 24)
      && 0 < s'.envs[e].id && Envid2Env(s', s'.envs[e].id, false) == Some(Some(e))
      && forall e2: nat :: e2 != e && e2 < |c.sys.envs| ==> s'.envs[e2] == c.sys.envs[e2]
  {
    hide Inv, Coherent, LoadIcode, SetupVm, NextId, NthId;
    StepKeeps(c, base, EnvCreateOp(image, kind));
    var e, c' := c.sys.freeEnvs[0], Step(c, EnvCreateOp(image, kind)).value;
    assert e in c.sys.freeEnvs;
    LiveIds(c', base, e, e);
  }

  lemma EnvCreateReads(c: Config, base: seq<nat>, image: seq<Byte>, kind: int, i: nat, x: nat)
    requires ConfigInv(c, base) && TidyImage(image) && Step(c, EnvCreateOp(image, kind)).Some?
    requires i < HeaderCount(image) && InSegment(Header(image, i), x)
    ensures c.sys.freeEnvs != []
    ensures var e, s' := c.sys.freeEnvs[0], Step(c, EnvCreateOp(image, kind)).value.sys.vm;
      && DirOf(s', e).Some?
      && ReadByte(s', DirOf(s', e).value, x) == Some(SegmentByte(image, Header(image, i), x - Header(image, i).va))
  {
    hide Inv, Coherent, LoadIcode, TidyImage, Header, ReadByte, SegmentByte;
    var s, s' := c.sys, Step(c, EnvCreateOp(image, kind)).value.sys;
    var e, a := s.freeEnvs[0], EnvAlloc(s, 0);
    assert e in s.freeEnvs;
    TidyUser(image);
    SetupVmInv(s.vm, base, c.out, e);
    assert DirOf(a.vm, e) == Some(s.vm.free[0]);
    EmptyExclusive(a.vm, base, c.out, e);
    LoadIcodeInv(a.vm, base, c.out, e, image);
    LoadIcodeReads(a.vm, base, c.out, e, image, i, x);
  }

  /**
    env_create of a tidy image does not panic when a slot is free, and one page for the
    directory and two for every page of the program and the stack.
  */
  lemma EnvCreateSucceeds(c: Config, base: seq<nat>, image: seq<Byte>, kind: int)
    requires ConfigInv(c, base) && TidyImage(image) && U32(image, 0) == ELF_MAGIC
    requires forall i :: Loads(image, i) ==> Header(image, i).filesz <= Header(image, i).memsz
    requires c.sys.freeEnvs != [] && |c.sys.vm.free| >= 1 + 2 * (PagesNeeded(image, HeaderCount(image)) + 1)
    ensures Step(c, EnvCreateOp(image, kind)).Some?
  {
    hide Inv, Coherent, LoadIcode, TidyImage, Header, HeaderCount, PagesNeeded;
    var s := c.sys;
    var e := s.freeEnvs[0];
    assert e in s.freeEnvs;
    EnvAllocReady(s, base, c.out, c.gens);
    var a := EnvAlloc(s, 0);
    SetupVmInv(s.vm, base, c.out, e);
    assert DirOf(a.vm, e) == Some(s.vm.free[0]);
    EmptyExclusive(a.vm, base, c.out, e);
    LoadIcodeSucceeds(a.vm, base, c.out, e, image);
  }

  lemma TidyBelow(image: seq<Byte>, i: nat, x: nat)
    requires TidyImage(image) && i < HeaderCount(image) && InSegment(Header(image, i), x)
    ensures x < UTOP
  {
    hide Header, HeaderCount;
    assert Loads(image, i);
    ByteInPages(Header(image, i), x);
  }

  /**
    End to end: a program created from a tidy image still shows every byte of every
    segment of that image after any run that does not touch it.
  */
  lemma CreatedProgramStays(c: Config, base: seq<nat>, image: seq<Byte>, kind: int, ops: seq<Op>, i: nat, x: nat)
    requires ConfigInv(c, base) && TidyImage(image) && Step(c, EnvCreateOp(image, kind)).Some? && c.sys.freeEnvs != []
    requires Run(Step(c, EnvCreateOp(image, kind)).value, base, ops).Some?
    requires !RunTouches(Step(c, EnvCreateOp(image, kind)).value, ops, c.sys.freeEnvs[0])
    requires i < HeaderCount(image) && InSegment(Header(image, i), x)
    ensures var e, s' := c.sys.freeEnvs[0], Run(Step(c, EnvCreateOp(image, kind)).value, base, ops).value.sys.vm;
      && DirOf(s', e).Some?
      && ReadByte(s', DirOf(s', e).value, x) == Some(SegmentByte(image, Header(image, i), x - Header(image, i).va))
  {
    hide Inv, Coherent, TidyImage, UserImage, Header, ReadByte, SegmentByte, EnvCreate, Run, RunTouches;
    TidyUser(image);
    TidyBelow(image, i, x);
    var e, c1 := c.sys.freeEnvs[0], Step(c, EnvCreateOp(image, kind)).value;
    EnvCreateRecord(c, base, image, kind);
    EnvCreateReads(c, base, image, kind, i, x);
    StepKeeps(c, base, EnvCreateOp(image, kind));
    RunView(c1, base, ops, e);
  }

  /**
    End to end, from the bytes of the file: env_create of an ELF file leaves in its slot
    the entry point that the file names and, after any later run that does not touch the
    environment, at va + k of every loadable segment the byte of the file at offset + k,
    or 0 past filesz.
  */
  lemma ElfProgramStays(c: Config, base: seq<nat>, image: seq<Byte>, kind: int, entry: Word, phoff: Word, phs: seq<Phdr>, ops: seq<Op>, i: nat, k: nat)
    requires ConfigInv(c, base) && ElfImage(image, entry, phoff, phs) && Program(image, phs)
    requires Step(c, EnvCreateOp(image, kind)).Some? && c.sys.freeEnvs != []
    requires Run(Step(c, EnvCreateOp(image, kind)).value, base, ops).Some?
    requires !RunTouches(Step(c, EnvCreateOp(image, kind)).value, ops, c.sys.freeEnvs[0])
    requires i < |phs| && phs[i].kind == 1 && k < phs[i].memsz
    ensures var e, c1 := c.sys.freeEnvs[0], Step(c, EnvCreateOp(image, kind)).value;
      && e < |c1.sys.envs| && c1.sys.envs[e].eip == entry
      && var s' := Run(c1, base, ops).value.sys.vm;
      && DirOf(s', e).Some?
      && ReadByte(s', DirOf(s', e).value, phs[i].va + k) == Some(if k < phs[i].filesz then image[phs[i].offset + k] else 0)
  {
    hide ConfigInv, ElfImage, Header, ReadByte, TidyImage, UserImage, Step, Run, RunTouches;
    ElfDecodes(image, entry, phoff, phs);
    ProgramIsTidy(image, entry, phoff, phs);
    TidyUser(image);
    EnvCreateRecord(c, base, image, kind);
    CreatedProgramStays(c, base, image, kind, ops, i, phs[i].va + k);
  }

  /** And env_create of it succeeds with a free slot, one page for the directory, and two for every page of program and stack. */
  lemma ElfCreateSucceeds(c: Config, base: seq<nat>, image: seq<Byte>, kind: int, entry: Word, phoff: Word, phs: seq<Phdr>)
    requires ConfigInv(c, base) && ElfImage(image, entry, phoff, phs) && Program(image, phs)
    requires c.sys.freeEnvs != [] && |c.sys.vm.free| >= 1 + 2 * (ProgramPages(phs) + 1)
    ensures Step(c, EnvCreateOp(image, kind)).Some?
  {
    hide ConfigInv, ElfImage, Header, TidyImage, Step, Program;
    ElfDecodes(image, entry, phoff, phs);
    ProgramIsTidy(image, entry, phoff, phs);
    ProgramPagesNeeded(image, phs, |phs|);
    assert phs[..|phs|] == phs;
    EnvCreateSucceeds(c, base, image, kind);
  }

  /**
    From power-on: whatever has run since boot, every live environment finds at every page
    from UTOP up, self-mapped slot apart, exactly the documented kernel map.
  */
  lemma KernelMapForever(s: State, l: Layout, sys: Sys, ops: seq<Op>, e: nat, v: nat)
    requires SaneLayout(l) && AfterPageInit(s, l) && |s.free| >= TablesNeeded(l)
    requires sys.vm == MemInit(s, l) && AfterEnvInit(sys)
    requires Run(Config(sys, Unlisted(l), seq(NENV, _ => 0)), s.refs, ops).Some?
    requires DirOf(Run(Config(sys, Unlisted(l), seq(NENV, _ => 0)), s.refs, ops).value.sys.vm, e).Some?
    requires UTOPX <= v / 1024 < 1024 && v / 1024 != UVPTX
    ensures var s' := Run(Config(sys, Unlisted(l), seq(NENV, _ => 0)), s.refs, ops).value.sys.vm;
      Translate(s', DirOf(s', e).value, v) == KernelMap(l, v)
  {
    hide ConfigInv, Run, MemInit, AfterPageInit, AfterEnvInit, Translate, Pack;
    var c := Config(sys, Unlisted(l), seq(NENV, _ => 0));
    BootConfig(s, l, sys);
    MemInitLayout(s, l, v);
    RunKeepsKernelMap(c, s.refs, ops, v);
    ReachableKernelHalf(c, s.refs, ops, e, v);
  }

  /** The entry of kernel page v in the documented map, in numbers: bit 0 present, bit 1 writable, bit 2 user. */
  lemma KernelMapNumbers(l: Layout, v: nat)
    requires SaneLayout(l) && 0xE_EC00 <= v < 0x10_0000
    ensures KernelMap(l, v) ==
      if v >= 0xF_0000 then Some((v - 0xF_0000) * 4096 + 3)
      else if v >= 0xE_FFF8 then Some((l.stack + v - 0xE_FFF8) * 4096 + 3)
      else if 0xE_F000 <= v < 0xE_F000 + l.npages / 512 then Some((l.pages + v - 0xE_F000) * 4096 + 5)
      else if v < 0xE_EC18 then Some((l.envs + v - 0xE_EC00) * 4096 + 5)
      else None
  {
  }

  /**
    Protection, from power-on and whatever has run since. In every live environment no
    page from ULIM up is accessible to the user program, and no page from UTOP up is
    writable by it, the self-mapped page tables included; the bits are those of both
    levels of the walk.
  */
  lemma KernelProtected(s: State, l: Layout, sys: Sys, ops: seq<Op>, e: nat, v: nat)
    requires SaneLayout(l) && AfterPageInit(s, l) && |s.free| >= TablesNeeded(l)
    requires sys.vm == MemInit(s, l) && AfterEnvInit(sys)
    requires Run(Config(sys, Unlisted(l), seq(NENV, _ => 0)), s.refs, ops).Some?
    requires DirOf(Run(Config(sys, Unlisted(l), seq(NENV, _ => 0)), s.refs, ops).value.sys.vm, e).Some?
    ensures var s' := Run(Config(sys, Unlisted(l), seq(NENV, _ => 0)), s.refs, ops).value.sys.vm;
      && (0xE_F800 <= v < 0x10_0000 ==> !UserMayRead(s', DirOf(s', e).value, v) && !UserMayWrite(s', DirOf(s', e).value, v))
      && (0xE_EC00 <= v < 0x10_0000 ==> !UserMayWrite(s', DirOf(s', e).value, v))
      && (0xE_EC00 <= v < 0xE_EC18 || 0xE_F000 <= v < 0xE_F000 + l.npages / 512 ==> UserMayRead(s', DirOf(s', e).value, v))
  {
    hide ConfigInv, Run, MemInit, AfterPageInit, AfterEnvInit, Translate, Pack, Inv, UserMayRead, UserMayWrite, KernelMap, Writable, ForUser;
    var c := Config(sys, Unlisted(l), seq(NENV, _ => 0));
    var c' := Run(c, s.refs, ops).value;
    BootConfig(s, l, sys);
    RunKeeps(c, s.refs, ops);
    if 0xE_EC00 <= v < 0x10_0000 {
      SpaceDecides(c', s.refs, e, v);
      if v / 1024 != UVPTX {
        KernelMapForever(s, l, sys, ops, e, v);
        KernelMapNumbers(l, v);
        if KernelMap(l, v).Some? { LowBits(KernelMap(l, v).value / 4096, KernelMap(l, v).value); }
      }
    }
  }

  lemma SpaceDecides(c: Config, base: seq<nat>, e: nat, v: nat)
    requires ConfigInv(c, base) && DirOf(c.sys.vm, e).Some? && UTOPX <= v / 1024 < 1024
    ensures var dir := DirOf(c.sys.vm, e).value; var w := Translate(c.sys.vm, dir, v);
      && (v / 1024 == UVPTX ==> !UserMayWrite(c.sys.vm, dir, v))
      && (v / 1024 != UVPTX ==> (UserMayRead(c.sys.vm, dir, v) <==> w.Some? && ForUser(w.value)))
      && (v / 1024 != UVPTX ==> (UserMayWrite(c.sys.vm, dir, v) <==> w.Some? && Open(w.value)))
  {
    hide Inv, Guard, Coherent, UserMayRead, UserMayWrite, Translate;
    TableDecidesAbove(c.sys.vm, base, c.out, DirOf(c.sys.vm, e).value, v);
  }

  /** An entry that ends in 3 is writable and not for the user; one that ends in 5 is the other way round. */
  lemma LowBits(f: nat, w: Word)
    ensures w == f * 4096 + 3 ==> Writable(w) && !ForUser(w)
    ensures w == f * 4096 + 5 ==> !Writable(w) && ForUser(w)
  {
    EndsIn3(f);
    EndsIn5(f);
    Parity(f * 1024);
    Parity(f * 1024 + 1);
    Parity(f * 512);
  }

  lemma Parity(h: nat)
    ensures (2 * h) % 2 == 0 && (2 * h + 1) % 2 == 1
  {
  }

  lemma EndsIn3(f: nat)
    ensures (f * 4096 + 3) / 2 == 2 * (f * 1024) + 1 && (f * 4096 + 3) / 4 == 2 * (f * 512)
  {
  }

  lemma EndsIn5(f: nat)
    ensures (f * 4096 + 5) / 2 == 2 * (f * 1024 + 1) && (f * 4096 + 5) / 4 == 2 * (f * 512) + 1
  {
  }
}
