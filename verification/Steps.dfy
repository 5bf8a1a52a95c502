/**
  One operation at a time: the kernel's operations, TLB fills and user stores as steps,
  what each keeps, and what it leaves alone.
*/
module Steps {
  import opened Mmu
  import opened Vm
  import opened VmSteps
  import opened PageOps
  import opened Translation
  import opened EnvVm
  import opened Loader
  import opened Envs
  import opened Protection

  /** A state, the pages handed out but not mapped, and the allocations of each slot. */
  datatype Config = Config(sys: Sys, out: set<nat>, gens: seq<nat>)

  datatype Op =
    | PageAllocOp(zero: bool)
    | PageFreeOp(p: nat)
    | InsertOp(e: nat, pp: nat, v: nat, perm: nat)
    | RemoveOp(e: nat, v: nat)
    | EnvAllocOp(parent: int)
    | EnvCreateOp(image: seq<Byte>, kind: int)
    | EnvRunOp(e: nat)
    | EnvFreeOp(e: nat)
    | TlbFillOp(v: nat)
    | StoreOp(va: nat, b: Byte)

  ghost predicate Live(s: Sys, e: nat) {
    e < |s.envs| && s.envs[e].status != Free && DirOf(s.vm, e).Some?
  }

  /** The processor is on the current environment's directory, as it is in user mode. */
  ghost predicate Storing(s: Sys) {
    s.cur.Some? && DirOf(s.vm, s.cur.value) == Some(s.vm.cr3)
  }

  /**
    What the kernel's own callers respect; a user program may store to any address.
    A page that is mapped was handed out by page_alloc or is mapped already: Countable
    keeps the frames with a boot-time use out of user memory.
  */
  ghost predicate Allowed(c: Config, base: seq<nat>, op: Op) {
    match op
    case PageAllocOp(_) => true
    case PageFreeOp(p) => p in c.out
    case InsertOp(e, pp, v, perm) =>
      Live(c.sys, e) && InsertArgs(c.sys.vm, e, pp, v, perm) && Countable(c.sys.vm, base, e, pp, v)
    case RemoveOp(e, v) =>
      Live(c.sys, e) && v / 1024 < UTOPX &&
      (Points(c.sys.vm, PteAt(e, v)).Some? || TableOf(c.sys.vm, e, v / 1024) == None)
    case EnvAllocOp(_) => true
    case EnvCreateOp(image, _) => UserImage(image)
    case EnvRunOp(e) => Live(c.sys, e)
    case EnvFreeOp(e) => Live(c.sys, e)
    case TlbFillOp(v) => v < NVPAGES
    case StoreOp(va, _) => Storing(c.sys) && va < 0x1_0000_0000
  }

  ghost predicate SlotReady(s: Sys, gens: seq<nat>) {
    Ready(s.vm) && (s.freeEnvs != [] ==> s.freeEnvs[0] < |s.envs| == |s.vm.dirs| == |gens|)
  }

  /**
    One kernel operation, TLB fill or user store; None is a panic. An operation that
    returns an error, and a store that faults, changes nothing.
  */
  ghost function Step(c: Config, op: Op): Option<Config> {
    var s := c.sys;
    match op
    case PageAllocOp(zero) =>
      if !Ready(s.vm) then None
      else if s.vm.free == [] then Some(c)
      else Some(c.(sys := s.(vm := Alloc(s.vm, zero)), out := c.out + {s.vm.free[0]}))
    case PageFreeOp(p) => Some(c.(sys := s.(vm := Release(s.vm, p)), out := c.out - {p}))
    case InsertOp(e, pp, v, perm) =>
      if DirOf(s.vm, e).Some? && Insertable(s.vm, DirOf(s.vm, e).value, pp, v, perm) then
        (match Insert(s.vm, DirOf(s.vm, e).value, pp, v, perm)
         case None => Some(c)
         case Some(vm') => Some(c.(sys := s.(vm := vm'), out := c.out - {pp})))
      else None
    case RemoveOp(e, v) =>
      if DirOf(s.vm, e).Some? && Removable(s.vm, DirOf(s.vm, e).value, v)
      then Some(c.(sys := s.(vm := Remove(s.vm, DirOf(s.vm, e).value, v)))) else None
    case EnvAllocOp(parent) =>
      if !SlotReady(s, c.gens) then None
      else if s.freeEnvs == [] || s.vm.free == [] then Some(c)
      else Some(Config(EnvAlloc(s, parent), c.out, c.gens[s.freeEnvs[0] := c.gens[s.freeEnvs[0]] + 1]))
    case EnvCreateOp(image, kind) =>
      if !SlotReady(s, c.gens) || s.freeEnvs == [] then None
      else
        (match EnvCreate(s, image, kind)
         case None => None
         case Some(s') => Some(Config(s', c.out, c.gens[s.freeEnvs[0] := c.gens[s.freeEnvs[0]] + 1])))
    case EnvRunOp(e) =>
      if DirOf(s.vm, e).Some? && e < |s.envs| && (s.cur.Some? ==> s.cur.value < |s.envs|)
      then Some(c.(sys := EnvRun(s, e))) else None
    case EnvFreeOp(e) =>
      if DirOf(s.vm, e).Some? && e < |s.envs| then
        (match EnvFree(s, e) case None => None case Some(s') => Some(c.(sys := s')))
      else None
    case TlbFillOp(v) => Some(c.(sys := s.(vm := Fill(s.vm, v))))
    case StoreOp(va, b) =>
      (match UserStore(s.vm, va, b) case None => Some(c) case Some(vm') => Some(c.(sys := s.(vm := vm'))))
  }

  /** Paging, TLB, slots, identifiers and cr3 are in order. */
  ghost predicate Sound(c: Config, base: seq<nat>) {
    SysInv(c.sys, base, c.out, c.gens)
  }

  // ----------------------------------------------------------- one step at a time

  /** A step that only touches the paging state keeps the environment bookkeeping. */
  lemma VmOnly(s: Sys, vm': State, base: seq<nat>, out: set<nat>, out': set<nat>, gens: seq<nat>)
    requires SysInv(s, base, out, gens)
    requires Inv(vm', base, out') && Coherent(vm') && vm'.dirs == s.vm.dirs && vm'.kdir == s.vm.kdir && vm'.cr3 == s.vm.cr3
    ensures SysInv(s.(vm := vm'), base, out', gens)
  {
    hide Inv, Coherent;
  }

  lemma ReleaseInv(s: State, base: seq<nat>, out: set<nat>, p: nat)
    requires Inv(s, base, out) && p in out
    ensures Inv(Release(s, p), base, out - {p})
  {
    var s' := Release(s, p);
    PointsSame(s, s');
    SeparateStep(s, s', Dir(0));
    assert forall q :: q in s'.free <==> q == p || q in s.free;
    AccountsStep(s, s', base, out, out - {p}, Dir(0));
    forall e | DirOf(s', e).Some? ensures SharesKernelHalf(s', DirOf(s', e).value) {
      assert SharesKernelHalf(s, DirOf(s, e).value);
    }
  }

  lemma AllocCoherent(s: State, base: seq<nat>, out: set<nat>, zero: bool)
    requires Inv(s, base, out) && Coherent(s) && IsSpace(s, s.cr3) && s.free != []
    ensures Ready(s) && Coherent(Alloc(s, zero))
  {
    AllocInv(s, base, out, zero);
    var s' := Alloc(s, zero);
    forall v | v in s'.tlb ensures v < NVPAGES && Translate(s', s.cr3, v) == Translate(s, s.cr3, v) {
      TranslateStable(s, s', s.free[0], s.cr3, v);
    }
  }

  lemma PageAllocStep(c: Config, base: seq<nat>, zero: bool)
    requires Sound(c, base)
    ensures Step(c, PageAllocOp(zero)).Some? && Sound(Step(c, PageAllocOp(zero)).value, base)
  {
    hide Inv, Coherent;
    var s := c.sys;
    ReadyInv(s.vm, base, c.out);
    if s.vm.free != [] {
      Cr3IsSpace(s);
      AllocInv(s.vm, base, c.out, zero);
      AllocCoherent(s.vm, base, c.out, zero);
      VmOnly(s, Alloc(s.vm, zero), base, c.out, c.out + {s.vm.free[0]}, c.gens);
    }
  }

  lemma PageFreeStep(c: Config, base: seq<nat>, p: nat)
    requires Sound(c, base) && p in c.out
    ensures Step(c, PageFreeOp(p)).Some? && Sound(Step(c, PageFreeOp(p)).value, base)
  {
    hide Inv;
    var s := c.sys;
    ReleaseInv(s.vm, base, c.out, p);
    var vm' := Release(s.vm, p);
    forall v | v in vm'.tlb ensures Translate(vm', s.vm.cr3, v) == Translate(s.vm, s.vm.cr3, v) {
      TranslateSame(s.vm, vm', s.vm.cr3, v);
    }
    VmOnly(s, vm', base, c.out, c.out - {p}, c.gens);
  }

  lemma InsertStep(c: Config, base: seq<nat>, e: nat, pp: nat, v: nat, perm: nat)
    requires Sound(c, base) && Allowed(c, base, InsertOp(e, pp, v, perm))
    ensures Step(c, InsertOp(e, pp, v, perm)).Some? && Sound(Step(c, InsertOp(e, pp, v, perm)).value, base)
  {
    hide Inv, Coherent, Insertable, InsertArgs;
    var s := c.sys;
    Cr3IsSpace(s);
    InsertDirs(s.vm, base, c.out, e, pp, v, perm);
    InsertInv(s.vm, base, c.out, e, pp, v, perm);
    InsertCoherent(s.vm, base, c.out, e, pp, v, perm);
    if Insert(s.vm, DirOf(s.vm, e).value, pp, v, perm).Some? {
      VmOnly(s, Insert(s.vm, DirOf(s.vm, e).value, pp, v, perm).value, base, c.out, c.out - {pp}, c.gens);
    }
  }

  lemma InsertDirs(s: State, base: seq<nat>, out: set<nat>, e: nat, pp: nat, v: nat, perm: nat)
    requires Inv(s, base, out) && InsertArgs(s, e, pp, v, perm)
    ensures DirOf(s, e).Some? && Insertable(s, DirOf(s, e).value, pp, v, perm)
    ensures Insert(s, DirOf(s, e).value, pp, v, perm).Some? ==>
      var s' := Insert(s, DirOf(s, e).value, pp, v, perm).value;
      s'.dirs == s.dirs && s'.kdir == s.kdir && s'.cr3 == s.cr3
  {
    hide Separate, KernelHalf, Accounts;
    InsertPoints(s, base, out, e, pp, v, perm);
  }

  lemma RemoveStep(c: Config, base: seq<nat>, e: nat, v: nat)
    requires Sound(c, base) && Allowed(c, base, RemoveOp(e, v))
    ensures Step(c, RemoveOp(e, v)).Some? && Sound(Step(c, RemoveOp(e, v)).value, base)
  {
    hide Inv, Coherent;
    var s := c.sys;
    Cr3IsSpace(s);
    if Points(s.vm, PteAt(e, v)).Some? {
      RemoveInv(s.vm, base, c.out, e, v);
      RemoveCoherent(s.vm, base, c.out, e, v);
      VmOnly(s, Remove(s.vm, DirOf(s.vm, e).value, v), base, c.out, c.out, c.gens);
    } else {
      RemoveAbsent(s.vm, base, c.out, e, v);
    }
  }

  lemma RemoveAbsent(s: State, base: seq<nat>, out: set<nat>, e: nat, v: nat)
    requires Inv(s, base, out) && DirOf(s, e).Some? && v / 1024 < UTOPX && TableOf(s, e, v / 1024) == None
    ensures Removable(s, DirOf(s, e).value, v) && Remove(s, DirOf(s, e).value, v) == s
  {
    EntryWords(s, e, v / 1024, v % 1024);
    ReadyInv(s, base, out);
  }

  /** Every kernel operation and TLB fill keeps everything in order, and only env_create can panic. */
  lemma StepSound(c: Config, base: seq<nat>, op: Op)
    requires Sound(c, base) && Allowed(c, base, op) && !op.StoreOp?
    ensures Step(c, op) == None ==> op.EnvCreateOp?
    ensures Step(c, op).Some? ==> Sound(Step(c, op).value, base)
  {
    hide Inv, Coherent, EnvAlloc, EnvFree, EnvRun, EnvCreate, Alloc, Insert, Remove;
    match op
    case PageAllocOp(zero) => PageAllocStep(c, base, zero);
    case PageFreeOp(p) => PageFreeStep(c, base, p);
    case InsertOp(e, pp, v, perm) => InsertStep(c, base, e, pp, v, perm);
    case RemoveOp(e, v) => RemoveStep(c, base, e, v);
    case EnvAllocOp(parent) =>
      EnvAllocReady(c.sys, base, c.out, c.gens);
      if c.sys.freeEnvs != [] && c.sys.vm.free != [] {
        EnvAllocInv(c.sys, base, c.out, c.gens, parent);
      }
    case EnvCreateOp(image, kind) => EnvCreateInv(c.sys, base, c.out, c.gens, image, kind);
    case EnvRunOp(e) => EnvRunInv(c.sys, base, c.out, c.gens, e);
    case EnvFreeOp(e) => EnvFreeInv(c.sys, base, c.out, c.gens, e);
    case TlbFillOp(v) =>
      FillKeeps(c.sys.vm, base, c.out, v);
      VmOnly(c.sys, Fill(c.sys.vm, v), base, c.out, c.out, c.gens);
  }

  // ------------------------------------------------------------------ isolation

  /** Writing a frame that only e0 names is isolated. */
  lemma FrameIsolated(s: State, s': State, base: seq<nat>, e0: nat, f: nat)
    requires s'.kdir == s.kdir && |s'.mem| == |s.mem| && forall g :: 0 <= g < |s.mem| && g != f ==> s'.mem[g] == s.mem[g]
    requires forall r: Ref :: !Owns(e0, r) ==> Points(s', r) == Points(s, r) && Points(s, r) != Some(f)
    requires f < |base| ==> base[f] == 0
    ensures Isolated(s, s', base, e0)
  {
  }

  lemma SetupVmIsolated(s: State, base: seq<nat>, out: set<nat>, e: nat)
    requires Inv(s, base, out) && s.free != [] && e < |s.dirs| && DirOf(s, e) == None
    ensures Ready(s) && Isolated(s, SetupVm(s, e), base, e)
  {
    AllocInv(s, base, out, true);
    SetupVmInv(s, base, out, e);
    hide Inv;
    FrameIsolated(s, SetupVm(s, e), base, e, s.free[0]);
  }

  /** The slot that an operation acts on; NENV, which is none, for those that act on no address space. */
  ghost function Actor(c: Config, op: Op): nat {
    match op
    case InsertOp(e, _, _, _) => e
    case RemoveOp(e, _) => e
    case EnvFreeOp(e) => e
    case EnvAllocOp(_) => if c.sys.freeEnvs != [] then c.sys.freeEnvs[0] else NENV
    case EnvCreateOp(_, _) => if c.sys.freeEnvs != [] then c.sys.freeEnvs[0] else NENV
    case _ => NENV
  }

  lemma PageAllocIsolated(c: Config, base: seq<nat>, zero: bool)
    requires Sound(c, base)
    ensures Step(c, PageAllocOp(zero)).Some? && Isolated(c.sys.vm, Step(c, PageAllocOp(zero)).value.sys.vm, base, NENV)
  {
    PageAllocStep(c, base, zero);
    hide Inv, Coherent;
    var s := c.sys.vm;
    if s.free != [] {
      AllocInv(s, base, c.out, zero);
      FrameIsolated(s, Alloc(s, zero), base, NENV, s.free[0]);
    }
  }

  lemma InsertOpIsolated(c: Config, base: seq<nat>, e: nat, pp: nat, v: nat, perm: nat)
    requires Sound(c, base) && Allowed(c, base, InsertOp(e, pp, v, perm))
    ensures Step(c, InsertOp(e, pp, v, perm)).Some? && Isolated(c.sys.vm, Step(c, InsertOp(e, pp, v, perm)).value.sys.vm, base, e)
  {
    hide Inv, Coherent, Insertable, InsertArgs;
    InsertStep(c, base, e, pp, v, perm);
    InsertIsolated(c.sys.vm, base, c.out, e, pp, v, perm);
  }

  lemma RemoveOpIsolated(c: Config, base: seq<nat>, e: nat, v: nat)
    requires Sound(c, base) && Allowed(c, base, RemoveOp(e, v))
    ensures Step(c, RemoveOp(e, v)).Some? && Isolated(c.sys.vm, Step(c, RemoveOp(e, v)).value.sys.vm, base, e)
  {
    hide Inv, Coherent, Removable;
    RemoveStep(c, base, e, v);
    if Points(c.sys.vm, PteAt(e, v)).Some? {
      RemoveIsolated(c.sys.vm, base, c.out, e, v);
    } else {
      RemoveAbsent(c.sys.vm, base, c.out, e, v);
    }
  }

  lemma EnvAllocIsolated(c: Config, base: seq<nat>, parent: int)
    requires Sound(c, base) && Step(c, EnvAllocOp(parent)).Some?
    ensures Isolated(c.sys.vm, Step(c, EnvAllocOp(parent)).value.sys.vm, base, Actor(c, EnvAllocOp(parent)))
  {
    hide Inv, Coherent;
    EnvAllocReady(c.sys, base, c.out, c.gens);
    if c.sys.freeEnvs != [] && c.sys.vm.free != [] {
      assert c.sys.freeEnvs[0] in c.sys.freeEnvs;
      SetupVmIsolated(c.sys.vm, base, c.out, c.sys.freeEnvs[0]);
    }
  }

  lemma EnvCreateIsolated(c: Config, base: seq<nat>, image: seq<Byte>, kind: int)
    requires Sound(c, base) && UserImage(image) && Step(c, EnvCreateOp(image, kind)).Some?
    ensures Isolated(c.sys.vm, Step(c, EnvCreateOp(image, kind)).value.sys.vm, base, Actor(c, EnvCreateOp(image, kind)))
  {
    hide Inv, Coherent, Isolated, LoadIcode;
    var s, s' := c.sys, Step(c, EnvCreateOp(image, kind)).value.sys;
    var e, a := s.freeEnvs[0], EnvAlloc(s, 0);
    assert e in s.freeEnvs;
    SetupVmInv(s.vm, base, c.out, e);
    SetupVmIsolated(s.vm, base, c.out, e);
    assert DirOf(a.vm, e) == Some(s.vm.free[0]);
    EmptyExclusive(a.vm, base, c.out, e);
    LoadIcodeInv(a.vm, base, c.out, e, image);
    IsolatedTwice(s.vm, a.vm, s'.vm, base, e);
  }

  lemma EmptyExclusive(s: State, base: seq<nat>, out: set<nat>, e: nat)
    requires Inv(s, base, out) && DirOf(s, e).Some? && EmptyUserHalf(s, DirOf(s, e).value)
    ensures Exclusive(s, e)
  {
    FreshExclusive(s, e);
  }

  lemma EnvFreeIsolated(c: Config, base: seq<nat>, e: nat)
    requires Sound(c, base) && Live(c.sys, e)
    ensures Step(c, EnvFreeOp(e)).Some? && Isolated(c.sys.vm, Step(c, EnvFreeOp(e)).value.sys.vm, base, e)
  {
    hide Inv, Coherent, FreeSpace;
    var s := c.sys;
    EnvFreeInv(s, base, c.out, c.gens, e);
    var vm0 := if s.cur == Some(e) then LoadCr3(s.vm, s.vm.kdir) else s.vm;
    LoadCr3Keeps(s.vm, base, c.out, s.vm.kdir);
    FreeSpaceIsolated(vm0, base, c.out, e);
  }

  lemma SameMemIsolated(s: State, s': State, base: seq<nat>)
    requires s'.mem == s.mem && s'.dirs == s.dirs && s'.kdir == s.kdir
    ensures Isolated(s, s', base, NENV)
  {
    PointsSame(s, s');
  }

  /** Every kernel operation is isolated to the slot it acts on. */
  lemma StepIsolated(c: Config, base: seq<nat>, op: Op)
    requires Sound(c, base) && Allowed(c, base, op) && Step(c, op).Some? && !op.StoreOp?
    ensures Isolated(c.sys.vm, Step(c, op).value.sys.vm, base, Actor(c, op))
  {
    hide Inv, Coherent, Isolated, EnvAlloc, EnvFree, EnvCreate, Alloc, Insert, Remove;
    match op
    case PageAllocOp(zero) => PageAllocIsolated(c, base, zero);
    case PageFreeOp(p) => SameMemIsolated(c.sys.vm, Step(c, op).value.sys.vm, base);
    case InsertOp(e, pp, v, perm) => InsertOpIsolated(c, base, e, pp, v, perm);
    case RemoveOp(e, v) => RemoveOpIsolated(c, base, e, v);
    case EnvAllocOp(parent) => EnvAllocIsolated(c, base, parent);
    case EnvCreateOp(image, kind) => EnvCreateIsolated(c, base, image, kind);
    case EnvRunOp(e) => SameMemIsolated(c.sys.vm, Step(c, op).value.sys.vm, base);
    case EnvFreeOp(e) => EnvFreeIsolated(c, base, e);
    case TlbFillOp(v) => SameMemIsolated(c.sys.vm, Step(c, op).value.sys.vm, base);
  }

  lemma IsolatedKernelMap(s: State, s': State, base: seq<nat>, out: set<nat>, e: nat, v: nat)
    requires Inv(s, base, out) && Isolated(s, s', base, e) && v < NVPAGES && v / 1024 != UVPTX
    ensures Translate(s', s.kdir, v) == Translate(s, s.kdir, v)
  {
    assert s'.mem[s.kdir] == s.mem[s.kdir];
    if v / 1024 >= UTOPX {
      assert Points(s, KPde(v / 1024)) == Target(Entry(s, s.kdir, v / 1024));
      assert !Owns(e, KPde(v / 1024));
    }
  }

  // ------------------------------------------------------------------ protection

  /** Whatever an operation leaves in the TLB was there before or is what the tables say. */
  lemma StepTlb(c: Config, base: seq<nat>, op: Op)
    requires Sound(c, base) && Allowed(c, base, op) && Step(c, op).Some? && !op.StoreOp?
    ensures CacheGrows(c.sys.vm, Step(c, op).value.sys.vm)
  {
    hide Inv, Coherent, Translate;
    var s := c.sys;
    match op
    case PageAllocOp(zero) =>
    case PageFreeOp(p) =>
    case InsertOp(e, pp, v, perm) => InsertTlb(s.vm, base, c.out, e, pp, v, perm);
    case RemoveOp(e, v) =>
    case EnvAllocOp(parent) =>
    case EnvCreateOp(image, kind) => CreateFlushes(s, image, kind);
    case EnvRunOp(e) =>
    case EnvFreeOp(e) => FreeShrinksTlb(s, base, c.out, c.gens, e);
    case TlbFillOp(v) =>
  }

  lemma CreateFlushes(s: Sys, image: seq<Byte>, kind: int)
    requires Ready(s.vm) && (s.freeEnvs != [] ==> s.freeEnvs[0] < |s.envs| == |s.vm.dirs|)
    requires EnvCreate(s, image, kind).Some?
    ensures EnvCreate(s, image, kind).value.vm.tlb == map[]
  {
    hide LoadSegments, RegionAlloc, SetupVm;
  }

  lemma FreeShrinksTlb(s: Sys, base: seq<nat>, out: set<nat>, gens: seq<nat>, e: nat)
    requires SysInv(s, base, out, gens) && DirOf(s.vm, e).Some? && e < |s.envs| && EnvFree(s, e).Some?
    ensures forall v :: v in EnvFree(s, e).value.vm.tlb ==> v in s.vm.tlb && EnvFree(s, e).value.vm.tlb[v] == s.vm.tlb[v]
  {
    hide Inv, Coherent, FreeSpace;
    var vm0 := if s.cur == Some(e) then LoadCr3(s.vm, s.vm.kdir) else s.vm;
    LoadCr3Keeps(s.vm, base, out, s.vm.kdir);
    FreeSpaceInv(vm0, base, out, e);
  }

  /** No kernel operation and no TLB fill opens a kernel page to user stores. */
  lemma StepGuard(c: Config, base: seq<nat>, op: Op)
    requires Sound(c, base) && Guard(c.sys.vm) && Allowed(c, base, op) && Step(c, op).Some? && !op.StoreOp?
    ensures Guard(Step(c, op).value.sys.vm)
  {
    hide Inv, Coherent, Guard, Isolated, Step, Allowed, CacheGrows, Translate;
    var s, s' := c.sys.vm, Step(c, op).value.sys.vm;
    StepIsolated(c, base, op);
    StepTlb(c, base, op);
    forall v: nat | KernelPage(v) ensures Translate(s', s.kdir, v) == Translate(s, s.kdir, v) {
      IsolatedKernelMap(s, s', base, c.out, Actor(c, op), v);
    }
    IsolatedKdir(s, s', base, Actor(c, op));
    Cr3IsSpace(c.sys);
    GuardStep(s, s', base, c.out);
  }

  lemma IsolatedKdir(s: State, s': State, base: seq<nat>, e: nat)
    requires Isolated(s, s', base, e)
    ensures s'.kdir == s.kdir
  {
  }
}
