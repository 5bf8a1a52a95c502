/**
  Environment slots: their identifiers, the free list, and the life cycle
  env_alloc / env_create / env_run / env_free over the paging state.
*/
module Envs {
  import opened Mmu
  import opened Vm
  import opened VmSteps
  import opened PageOps
  import opened Translation
  import opened EnvVm
  import opened Loader

  const NENV: nat := 1024

  datatype Status = Free | Dying | Runnable | Running | NotRunnable

  datatype Env = Env(id: int, parent: int, kind: int, status: Status, runs: Word, eip: Word)

  /** vm.dirs[i] is env_pgdir of slot i; freeEnvs is env_free_list, head first. */
  datatype Sys = Sys(vm: State, envs: seq<Env>, freeEnvs: seq<nat>, cur: Option<nat>)

  // ------------------------------------------------------------- identifiers

  /** The identifier env_alloc gives slot i when the slot last carried id. */
  function NextId(id: int, i: nat): int {
    var g := Int32(id + 4096);
    var generation := g - g % 1024;
    (if generation <= 0 then 4096 else generation) + i
  }

  /** The identifier of slot i after k allocations. */
  function NthId(i: nat, k: nat): int {
    if k == 0 then 0 else NextId(NthId(i, k - 1), i)
  }

  function ENVX(id: int): nat { id % 1024 }

  /** Number of generations before identifiers of a slot repeat. */
  const GENERATIONS: nat := 0x7_FFFF

  lemma NextIdCycle(i: nat, g: nat)
    requires i < NENV && 1 <= g <= GENERATIONS
    ensures NextId(4096 * g + i, i) == 4096 * (if g == GENERATIONS then 1 else g + 1) + i
  {
    var x := 4096 * g + i + 4096;
    assert x == 4096 * (g + 1) + i;
    if g < GENERATIONS {
      assert Int32(x) == x;
      assert x % 1024 == i by { Mod1024(4 * (g + 1), i); }
    } else {
      assert x == 0x8000_0000 + i;
      assert Int32(x) == i - 0x8000_0000;
    }
  }

  lemma NextGeneration(a: nat)
    ensures (a + 1) % 0x7_FFFF == if a % 0x7_FFFF == 0x7_FFFE then 0 else a % 0x7_FFFF + 1
  {
  }

  lemma Mod1024(q: int, i: nat)
    requires i < 1024
    ensures (1024 * q + i) % 1024 == i
  {
  }

  /** The k-th identifier of a slot: generations count up from 1 and wrap after 2^19-1. */
  lemma {:induction false} NthIdClosed(i: nat, k: nat)
    requires i < NENV && k >= 1
    ensures NthId(i, k) == 4096 * ((k - 1) % GENERATIONS + 1) + i
  {
    hide NextId;
    if k == 1 {
      FirstId(i);
      assert NthId(i, 0) == 0;
    } else {
      NthIdClosed(i, k - 1);
      var g := (k - 2) % GENERATIONS + 1;
      NextIdCycle(i, g);
      NextGeneration(k - 2);
    }
  }

  lemma FirstId(i: nat)
    ensures NextId(0, i) == 4096 + i
  {
    assert Int32(0 + 4096) == 4096;
  }

  /** Every identifier given out is positive, 31 bits long, and carries its slot in ENVX. */
  lemma IdShape(i: nat, k: nat)
    requires i < NENV && k >= 1
    ensures 0 < NthId(i, k) < 0x8000_0000 && ENVX(NthId(i, k)) == i
  {
    hide NthId;
    NthIdClosed(i, k);
    Mod1024(4 * ((k - 1) % GENERATIONS + 1), i);
  }

  /** Two allocations of a slot share an identifier exactly when 2^19-1 divides their distance. */
  lemma IdRepeatsIff(i: nat, j: nat, k: nat)
    requires i < NENV && 1 <= j <= k
    ensures NthId(i, j) == NthId(i, k) <==> (k - j) % GENERATIONS == 0
  {
    hide NthId;
    NthIdClosed(i, j);
    NthIdClosed(i, k);
    SameGeneration(j - 1, k - 1);
  }

  lemma SameGeneration(a: nat, b: nat)
    requires a <= b
    ensures a % 0x7_FFFF == b % 0x7_FFFF <==> (b - a) % 0x7_FFFF == 0
  {
  }

  // ------------------------------------------------------------- the life cycle

  /** env_alloc, when a slot and a page are left. The slot is s.freeEnvs[0]. */
  function EnvAlloc(s: Sys, parent: int): Sys
    requires Ready(s.vm) && s.vm.free != [] && s.freeEnvs != []
    requires s.freeEnvs[0] < |s.envs| == |s.vm.dirs|
  {
    var e := s.freeEnvs[0];
    s.(vm := SetupVm(s.vm, e),
       envs := s.envs[e := Env(NextId(s.envs[e].id, e), parent, 0, Runnable, 0, 0)],
       freeEnvs := s.freeEnvs[1..])
  }

  /** env_free; None is a panic. */
  ghost function EnvFree(s: Sys, e: nat): Option<Sys>
    requires DirOf(s.vm, e).Some? && e < |s.envs|
  {
    var vm0 := if s.cur == Some(e) then LoadCr3(s.vm, s.vm.kdir) else s.vm;
    match FreeSpace(vm0, e)
    case None => None
    case Some(vm1) =>
      Some(s.(vm := vm1, envs := s.envs[e := s.envs[e].(status := Free)], freeEnvs := [e] + s.freeEnvs))
  }

  function Stopped(s: Sys): (r: seq<Env>)
    requires s.cur.Some? ==> s.cur.value < |s.envs|
    ensures |r| == |s.envs|
  {
    if s.cur.Some? && s.envs[s.cur.value].status == Running
    then s.envs[s.cur.value := s.envs[s.cur.value].(status := Runnable)] else s.envs
  }

  function Started(x: Env): Env { x.(status := Running, runs := (x.runs + 1) % 0x1_0000_0000) }

  /** env_run, up to the return to user mode. */
  function EnvRun(s: Sys, e: nat): Sys
    requires DirOf(s.vm, e).Some? && e < |s.envs| && (s.cur.Some? ==> s.cur.value < |s.envs|)
  {
    s.(vm := LoadCr3(s.vm, DirOf(s.vm, e).value), envs := Stopped(s)[e := Started(Stopped(s)[e])], cur := Some(e))
  }

  /** env_create: env_alloc with parent 0, then load_icode; None is a panic. */
  ghost function EnvCreate(s: Sys, image: seq<Byte>, kind: int): Option<Sys>
    requires Ready(s.vm) && (s.freeEnvs != [] ==> s.freeEnvs[0] < |s.envs| == |s.vm.dirs|)
  {
    if s.freeEnvs == [] || s.vm.free == [] then None
    else
      var e, s1 := s.freeEnvs[0], EnvAlloc(s, 0);
      match LoadIcode(s1.vm, s.vm.free[0], image)
      case None => None
      case Some(vm2) => Some(s1.(vm := vm2, envs := s1.envs[e := s1.envs[e].(eip := U32(image, 24), kind := kind)]))
  }

  /** envid2env: the slot that id denotes, or None for -E_BAD_ENV. */
  function Envid2Env(s: Sys, id: int, checkperm: bool): Option<Option<nat>>
    requires |s.envs| == NENV && (s.cur.Some? ==> s.cur.value < NENV)
    requires id != 0 && checkperm ==> s.cur.Some?
  {
    if id == 0 then Some(s.cur)
    else
      var e := ENVX(id);
      if s.envs[e].status == Free || s.envs[e].id != id then None
      else if checkperm && s.cur != Some(e) && s.envs[e].parent != s.envs[s.cur.value].id then None
      else Some(Some(e))
  }

  // --------------------------------------------------------------- the invariant

  /** gens[i] counts the allocations of slot i. */
  ghost predicate EnvInv(s: Sys, gens: seq<nat>) {
    && |s.envs| == |s.vm.dirs| == |gens| == NENV
    && NoDup(s.freeEnvs)
    && (forall i: nat :: i in s.freeEnvs <==> i < NENV && s.envs[i].status == Free)
    && (forall i :: 0 <= i < NENV ==> (s.envs[i].status == Free <==> s.vm.dirs[i] == None))
    && (forall i :: 0 <= i < NENV && s.envs[i].status == Running ==> s.cur == Some(i))
    && (s.cur.Some? ==> s.cur.value < NENV)
    && (forall i :: 0 <= i < NENV ==> s.envs[i].id == NthId(i, gens[i]))
    && (forall i :: 0 <= i < NENV && s.envs[i].status != Free ==> gens[i] >= 1)
  }

  /** The processor's directory is kern_pgdir or that of the current, live environment. */
  ghost predicate Cr3Inv(s: Sys) {
    s.vm.cr3 == s.vm.kdir || (s.cur.Some? && DirOf(s.vm, s.cur.value) == Some(s.vm.cr3))
  }

  ghost predicate SysInv(s: Sys, base: seq<nat>, out: set<nat>, gens: seq<nat>) {
    Inv(s.vm, base, out) && Coherent(s.vm) && EnvInv(s, gens) && Cr3Inv(s)
  }

  lemma Cr3IsSpace(s: Sys)
    requires Cr3Inv(s)
    ensures IsSpace(s.vm, s.vm.cr3)
  {
  }

  lemma ReadyInv(s: State, base: seq<nat>, out: set<nat>)
    requires Inv(s, base, out)
    ensures Ready(s)
  {
    assert forall i :: 0 <= i < |s.free| ==> s.free[i] in s.free;
  }

  lemma EnvAllocReady(s: Sys, base: seq<nat>, out: set<nat>, gens: seq<nat>)
    requires SysInv(s, base, out, gens)
    ensures Ready(s.vm) && (s.freeEnvs != [] ==> s.freeEnvs[0] < |s.envs| == |s.vm.dirs|)
  {
    ReadyInv(s.vm, base, out);
    if s.freeEnvs != [] { assert s.freeEnvs[0] in s.freeEnvs; }
  }

  /** A new directory changes no translation of an address space that already exists. */
  lemma SetupVmTranslation(s: State, base: seq<nat>, out: set<nat>, e: nat, dir: nat, v: nat)
    requires Inv(s, base, out) && s.free != [] && e < |s.dirs| && DirOf(s, e) == None && IsSpace(s, dir) && v < NVPAGES
    ensures Ready(s)
    ensures Translate(SetupVm(s, e), dir, v) == Translate(s, dir, v)
  {
    AllocInv(s, base, out, true);
    SetupVmInv(s, base, out, e);
    TranslateStable(s, SetupVm(s, e), s.free[0], dir, v);
  }

  lemma EnvAllocSlots(s: Sys, base: seq<nat>, out: set<nat>, gens: seq<nat>, parent: int)
    requires Inv(s.vm, base, out) && EnvInv(s, gens) && s.freeEnvs != [] && s.vm.free != []
    ensures Ready(s.vm) && s.freeEnvs[0] < |s.envs| == |s.vm.dirs| == |gens|
    ensures EnvInv(EnvAlloc(s, parent), gens[s.freeEnvs[0] := gens[s.freeEnvs[0]] + 1])
  {
    hide Inv, Ready, SetupVm, NextId;
    ReadyInv(s.vm, base, out);
    var e := s.freeEnvs[0];
    assert e in s.freeEnvs;
    SetupVmDirs(s.vm, e);
    var s' := EnvAlloc(s, parent);
    assert s.freeEnvs == [e] + s'.freeEnvs;
    assert forall i: nat :: i in s'.freeEnvs <==> i in s.freeEnvs && i != e;
  }

  lemma SetupVmDirs(s: State, e: nat)
    requires Ready(s) && s.free != [] && e < |s.dirs|
    ensures SetupVm(s, e).dirs == s.dirs[e := Some(s.free[0])]
  {
  }

  lemma SetupVmCoherent(s: State, base: seq<nat>, out: set<nat>, e: nat)
    requires Inv(s, base, out) && Coherent(s) && IsSpace(s, s.cr3)
    requires s.free != [] && e < |s.dirs| && DirOf(s, e) == None
    ensures Ready(s) && Coherent(SetupVm(s, e)) && SetupVm(s, e).cr3 == s.cr3
  {
    ReadyInv(s, base, out);
    var s' := SetupVm(s, e);
    forall v | v in s'.tlb ensures v < NVPAGES && Translate(s', s.cr3, v) == Translate(s, s.cr3, v) {
      SetupVmTranslation(s, base, out, e, s.cr3, v);
    }
  }

  lemma EnvAllocInv(s: Sys, base: seq<nat>, out: set<nat>, gens: seq<nat>, parent: int)
    requires SysInv(s, base, out, gens) && s.freeEnvs != [] && s.vm.free != []
    ensures Ready(s.vm) && s.freeEnvs[0] < |s.envs| == |s.vm.dirs| == |gens|
    ensures SysInv(EnvAlloc(s, parent), base, out, gens[s.freeEnvs[0] := gens[s.freeEnvs[0]] + 1])
    ensures var e, s' := s.freeEnvs[0], EnvAlloc(s, parent);
      && s.envs[e].status == Free && s'.envs[e].status == Runnable
      && s'.envs[e].parent == parent && s'.envs[e].runs == 0 && s'.envs[e].kind == 0 && s'.envs[e].eip == 0
      && (forall i :: 0 <= i < |s.envs| && i != e ==> s'.envs[i] == s.envs[i])
      && s'.cur == s.cur && s'.vm.cr3 == s.vm.cr3
  {
    hide Inv, Coherent;
    EnvAllocSlots(s, base, out, gens, parent);
    var e := s.freeEnvs[0];
    assert e in s.freeEnvs;
    Cr3IsSpace(s);
    SetupVmInv(s.vm, base, out, e);
    SetupVmCoherent(s.vm, base, out, e);
  }

  lemma EnvFreeSlots(s: Sys, s': Sys, gens: seq<nat>, e: nat)
    requires EnvInv(s, gens) && e < NENV && s.envs[e].status != Free
    requires s'.vm.dirs == s.vm.dirs[e := None] && s'.cur == s.cur
    requires s'.envs == s.envs[e := s.envs[e].(status := Free)] && s'.freeEnvs == [e] + s.freeEnvs
    ensures EnvInv(s', gens)
  {
    assert forall i :: i in s'.freeEnvs <==> i == e || i in s.freeEnvs;
  }

  /** env_free of a live environment never panics and keeps everything in order. */
  lemma EnvFreeInv(s: Sys, base: seq<nat>, out: set<nat>, gens: seq<nat>, e: nat)
    requires SysInv(s, base, out, gens) && e < NENV && s.envs[e].status != Free
    ensures DirOf(s.vm, e).Some? && e < |s.envs|
    ensures EnvFree(s, e).Some? && SysInv(EnvFree(s, e).value, base, out, gens)
  {
    hide Inv, Coherent, FreeSpace;
    var vm0 := if s.cur == Some(e) then LoadCr3(s.vm, s.vm.kdir) else s.vm;
    LoadCr3Keeps(s.vm, base, out, s.vm.kdir);
    assert DirOf(vm0, e) == DirOf(s.vm, e);
    OtherDirectory(s, base, out, e);
    FreeSpaceInv(vm0, base, out, e);
    FreeSpaceCoherent(vm0, base, out, e);
    EnvFreeSlots(s, EnvFree(s, e).value, gens, e);
  }

  /** Once env_free has switched to kern_pgdir if need be, cr3 is not the doomed directory. */
  lemma OtherDirectory(s: Sys, base: seq<nat>, out: set<nat>, e: nat)
    requires Inv(s.vm, base, out) && Cr3Inv(s) && DirOf(s.vm, e).Some?
    ensures var vm0 := if s.cur == Some(e) then LoadCr3(s.vm, s.vm.kdir) else s.vm;
      IsSpace(vm0, vm0.cr3) && DirOf(vm0, e) != Some(vm0.cr3)
  {
    hide KernelHalf, Accounts;
    assert Points(s.vm, Dir(e)) == DirOf(s.vm, e);
    if s.vm.cr3 != s.vm.kdir {
      assert Points(s.vm, Dir(s.cur.value)) == Some(s.vm.cr3);
    }
  }

  lemma EnvRunInv(s: Sys, base: seq<nat>, out: set<nat>, gens: seq<nat>, e: nat)
    requires SysInv(s, base, out, gens) && e < NENV && s.envs[e].status != Free
    ensures DirOf(s.vm, e).Some? && (s.cur.Some? ==> s.cur.value < |s.envs|)
    ensures SysInv(EnvRun(s, e), base, out, gens)
  {
    hide Inv, Coherent;
    LoadCr3Keeps(s.vm, base, out, DirOf(s.vm, e).value);
  }

  /** What env_run changes: two statuses, one run count, curenv, cr3 and the TLB; nothing else. */
  lemma EnvRunRecord(s: Sys, gens: seq<nat>, e: nat)
    requires EnvInv(s, gens) && e < NENV && s.envs[e].status != Free
    ensures DirOf(s.vm, e).Some? && (s.cur.Some? ==> s.cur.value < |s.envs|)
    ensures var s' := EnvRun(s, e);
      && s'.cur == Some(e) && Some(s'.vm.cr3) == DirOf(s.vm, e) && s'.vm.tlb == map[]
      && |s'.envs| == |s.envs| && s'.freeEnvs == s.freeEnvs
      && s'.envs[e] == s.envs[e].(status := Running, runs := if s.envs[e].runs == 0xFFFF_FFFF then 0 else s.envs[e].runs + 1)
      && (forall i :: 0 <= i < NENV && i != e ==>
            s'.envs[i] == if s.envs[i].status == Running then s.envs[i].(status := Runnable) else s.envs[i])
  {
  }

  lemma FreshExclusive(s: State, e: nat)
    requires Shape(s) && DirOf(s, e).Some? && EmptyUserHalf(s, DirOf(s, e).value)
    ensures Exclusive(s, e)
  {
    forall d: nat, t: nat ensures Points(s, Pte(e, d, t)) == None {
      if d < UTOPX { assert Entry(s, DirOf(s, e).value, d) == None; }
    }
  }

  lemma EnvCreateInv(s: Sys, base: seq<nat>, out: set<nat>, gens: seq<nat>, image: seq<Byte>, kind: int)
    requires SysInv(s, base, out, gens) && UserImage(image)
    ensures Ready(s.vm) && (s.freeEnvs != [] ==> s.freeEnvs[0] < |s.envs| == |s.vm.dirs| == |gens|)
    ensures EnvCreate(s, image, kind).Some? ==>
      && s.freeEnvs != [] && s.freeEnvs[0] < |gens|
      && SysInv(EnvCreate(s, image, kind).value, base, out, gens[s.freeEnvs[0] := gens[s.freeEnvs[0]] + 1])
  {
    hide Coherent, LoadIcode, Separate, KernelHalf, Accounts;
    EnvAllocReady(s, base, out, gens);
    if EnvCreate(s, image, kind).Some? {
      var e, s1, s' := s.freeEnvs[0], EnvAlloc(s, 0), EnvCreate(s, image, kind).value;
      assert e in s.freeEnvs;
      EnvAllocInv(s, base, out, gens, 0);
      SetupVmInv(s.vm, base, out, e);
      FreshExclusive(s1.vm, e);
      assert DirOf(s1.vm, e) == Some(s.vm.free[0]);
      LoadIcodeInv(s1.vm, base, out, e, image);
      CreatedSlots(s1, s', gens[e := gens[e] + 1], e);
    }
  }

  lemma CreatedSlots(s: Sys, s': Sys, gens: seq<nat>, e: nat)
    requires EnvInv(s, gens) && e < NENV && s.envs[e].status == Runnable
    requires s'.vm.dirs == s.vm.dirs && s'.cur == s.cur && s'.freeEnvs == s.freeEnvs
    requires |s'.envs| == NENV && s'.envs[e].status == s.envs[e].status && s'.envs[e].id == s.envs[e].id
    requires forall i :: 0 <= i < NENV && i != e ==> s'.envs[i] == s.envs[i]
    ensures EnvInv(s', gens)
  {
  }
}
