/**
  Whole runs of the memory and environment manager, and what holds in every state
  that any of them reaches.
*/
module Runs {
  import opened Mmu
  import opened Vm
  import opened VmSteps
  import opened PageOps
  import opened Translation
  import opened EnvVm
  import opened Loader
  import opened Envs
  import opened Protection
  import opened Steps

  /** Everything is in order, and no kernel page is open to user stores. */
  ghost predicate ConfigInv(c: Config, base: seq<nat>) {
    Sound(c, base) && Guard(c.sys.vm)
  }

  /**
    Every operation the kernel's callers may invoke keeps the whole invariant; and
    only env_create, on a bad image or for lack of memory, can panic.
  */
  lemma StepKeeps(c: Config, base: seq<nat>, op: Op)
    requires ConfigInv(c, base) && Allowed(c, base, op)
    ensures Step(c, op) == None ==> op.EnvCreateOp?
    ensures Step(c, op).Some? ==> ConfigInv(Step(c, op).value, base)
  {
    hide Inv, Coherent, Guard, Step;
    if op.StoreOp? {
      UserStoreStep(c, base, op.va, op.b);
    } else {
      StepSound(c, base, op);
      if Step(c, op).Some? { StepGuard(c, base, op); }
    }
  }

  /** A user store below UTOP goes to a data frame or faults; from UTOP up it always faults. */
  lemma UserStoreStep(c: Config, base: seq<nat>, va: nat, b: Byte)
    requires ConfigInv(c, base) && Allowed(c, base, StoreOp(va, b))
    ensures Step(c, StoreOp(va, b)).Some? && ConfigInv(Step(c, StoreOp(va, b)).value, base)
    ensures va >= UTOP ==> Step(c, StoreOp(va, b)).value == c
  {
    hide Inv, Coherent, Guard, StoreByte;
    var s := c.sys;
    if va >= UTOP {
      Cr3IsSpace(s);
      StoreAboveFaults(s.vm, base, c.out, va, b);
    } else {
      assert va / 4096 / 1024 < UTOPX;
      StoreInv(s.vm, base, c.out, s.cur.value, va, b);
      if UserStore(s.vm, va, b).Some? {
        VmOnly(s, StoreByte(s.vm, va, b).value, base, c.out, c.out, c.gens);
        StoreGuard(s.vm, base, c.out, s.cur.value, va, b);
      }
    }
  }

  // ------------------------------------------------------------------ whole runs

  /** The state that a sequence of allowed operations leads to; None if one panics or is not allowed. */
  ghost function Run(c: Config, base: seq<nat>, ops: seq<Op>): Option<Config>
    decreases |ops|
  {
    if ops == [] then Some(c)
    else if !Allowed(c, base, ops[0]) then None
    else
      match Step(c, ops[0])
      case None => None
      case Some(c') => Run(c', base, ops[1..])
  }

  lemma {:induction false} RunKeeps(c: Config, base: seq<nat>, ops: seq<Op>)
    requires ConfigInv(c, base)
    ensures Run(c, base, ops).Some? ==> ConfigInv(Run(c, base, ops).value, base)
    decreases |ops|
  {
    hide ConfigInv, Step, Allowed;
    if ops != [] && Run(c, base, ops).Some? {
      StepKeeps(c, base, ops[0]);
      RunKeeps(Step(c, ops[0]).value, base, ops[1..]);
    }
  }

  /**
    In every reachable state pp_ref is the boot-time count plus the number of live
    directories, user and kernel page-table slots and user entries that name the
    page; and a page is on the free list exactly when nothing names it and nobody
    has taken it from page_alloc without mapping it yet. A page with a boot-time use
    keeps its boot-time count, and nothing ever names it.
  */
  lemma ReachableLedger(c: Config, base: seq<nat>, ops: seq<Op>, p: nat)
    requires ConfigInv(c, base) && Run(c, base, ops).Some?
    ensures var c' := Run(c, base, ops).value; var s' := c'.sys.vm;
      && Shape(s') && |base| == |s'.refs|
      && (p < |base| ==> s'.refs[p] == base[p] + |Holders(s', p)|)
      && (p in s'.free <==> p < |base| && base[p] == 0 && p !in c'.out && forall r :: Points(s', r) != Some(p))
      && (p < |base| && base[p] > 0 ==> s'.refs[p] == base[p] && forall r :: Points(s', r) != Some(p))
      && NoDup(s'.free)
  {
    RunKeeps(c, base, ops);
    var c' := Run(c, base, ops).value;
    FreeIffUnnamed(c'.sys.vm, base, c'.out, p);
    if p < |base| {
      assert c'.sys.vm.refs[p] == base[p] + Count(c'.sys.vm, p);
      if base[p] > 0 { assert Holders(c'.sys.vm, p) == {}; }
    }
  }

  /**
    In every reachable state cr3 names kern_pgdir or the directory of a live
    environment, and never a free page; at most the current environment is running;
    a slot is free exactly when it is on the free list, which has no duplicates; and
    every cached translation names the frame that the tables name.
  */
  lemma ReachableProcessor(c: Config, base: seq<nat>, ops: seq<Op>)
    requires ConfigInv(c, base) && Run(c, base, ops).Some?
    ensures var s' := Run(c, base, ops).value.sys;
      && (s'.vm.cr3 == s'.vm.kdir || exists e :: Live(s', e) && DirOf(s'.vm, e) == Some(s'.vm.cr3))
      && s'.vm.cr3 !in s'.vm.free
      && (forall i, j :: 0 <= i < |s'.envs| && 0 <= j < |s'.envs| && s'.envs[i].status == Running && s'.envs[j].status == Running ==> i == j && s'.cur == Some(i))
      && NoDup(s'.freeEnvs) && (forall i: nat :: i in s'.freeEnvs <==> i < |s'.envs| && s'.envs[i].status == Free)
      && Coherent(s'.vm)
  {
    RunKeeps(c, base, ops);
    var c' := Run(c, base, ops).value;
    var s' := c'.sys;
    hide Inv, Coherent;
    if s'.vm.cr3 != s'.vm.kdir {
      var e := s'.cur.value;
      assert Live(s', e) && DirOf(s'.vm, e) == Some(s'.vm.cr3);
    }
    DirectoryNotFree(s', base, c'.out);
  }

  lemma DirectoryNotFree(s: Sys, base: seq<nat>, out: set<nat>)
    requires Inv(s.vm, base, out) && Cr3Inv(s)
    ensures s.vm.cr3 !in s.vm.free
  {
    FreeIffUnnamed(s.vm, base, out, s.vm.cr3);
    if s.vm.cr3 != s.vm.kdir {
      assert Points(s.vm, Dir(s.cur.value)) == Some(s.vm.cr3);
    }
  }

  /**
    Although an environment copies kern_pgdir once, at birth, in every reachable
    state it translates every page from UTOP up exactly as kern_pgdir does, the
    self-mapped slot excepted.
  */
  lemma ReachableKernelHalf(c: Config, base: seq<nat>, ops: seq<Op>, e: nat, v: nat)
    requires ConfigInv(c, base) && Run(c, base, ops).Some?
    requires DirOf(Run(c, base, ops).value.sys.vm, e).Some?
    requires UTOPX <= v / 1024 < 1024 && v / 1024 != UVPTX
    ensures var s' := Run(c, base, ops).value.sys.vm; Translate(s', DirOf(s', e).value, v) == Translate(s', s'.kdir, v)
  {
    RunKeeps(c, base, ops);
    var s' := Run(c, base, ops).value.sys.vm;
    DirSound(s', e);
  }

  /** A page handed out by page_alloc is in no use whatever. */
  lemma ReachableAllocIsUnused(c: Config, base: seq<nat>, ops: seq<Op>)
    requires ConfigInv(c, base) && Run(c, base, ops).Some? && Run(c, base, ops).value.sys.vm.free != []
    ensures var c' := Run(c, base, ops).value; var p := c'.sys.vm.free[0];
      && p !in c'.out && p != c'.sys.vm.kdir && p != c'.sys.vm.cr3
      && (forall r :: Points(c'.sys.vm, r) != Some(p))
      && forall zero :: Step(c', PageAllocOp(zero)).Some? ==>
           p !in Step(c', PageAllocOp(zero)).value.sys.vm.free && p in Step(c', PageAllocOp(zero)).value.out
  {
    RunKeeps(c, base, ops);
    var c' := Run(c, base, ops).value;
    var p := c'.sys.vm.free[0];
    assert p in c'.sys.vm.free;
    AllocInv(c'.sys.vm, base, c'.out, true);
    AllocInv(c'.sys.vm, base, c'.out, false);
    DirectoryNotFree(c'.sys, base, c'.out);
  }

  // ------------------------------------------------------------------ identifiers

  /** Live environments have distinct, positive identifiers, and envid2env finds each by its own. */
  lemma LiveIds(c: Config, base: seq<nat>, i: nat, j: nat)
    requires ConfigInv(c, base) && Live(c.sys, i) && Live(c.sys, j)
    ensures c.sys.envs[i].id > 0 && Envid2Env(c.sys, c.sys.envs[i].id, false) == Some(Some(i))
    ensures c.sys.envs[i].id == c.sys.envs[j].id ==> i == j
  {
    hide Inv, Coherent, NthId;
    IdShape(i, c.gens[i]);
    IdShape(j, c.gens[j]);
  }

  /**
    envid2env resolves a nonzero identifier to slot e exactly when e is live and carries
    it and, if permission is asked for, is the current environment or its child; it
    answers -E_BAD_ENV exactly when there is no such slot.
  */
  lemma LookupIff(c: Config, base: seq<nat>, id: int, checkperm: bool, e: nat)
    requires ConfigInv(c, base) && id != 0 && (checkperm ==> c.sys.cur.Some?)
    ensures Envid2Env(c.sys, id, checkperm) == Some(Some(e)) <==> Granted(c.sys, id, checkperm, e)
    ensures Envid2Env(c.sys, id, checkperm) == None <==> forall x: nat :: !Granted(c.sys, id, checkperm, x)
  {
    hide Inv, Coherent, NthId;
    forall x: nat | Granted(c.sys, id, checkperm, x) ensures ENVX(id) == x {
      IdShape(x, c.gens[x]);
    }
    if Envid2Env(c.sys, id, checkperm) != None {
      assert Granted(c.sys, id, checkperm, ENVX(id));
    }
  }

  /** Identifier 0 stands for the current environment, with or without the permission check, just as its own identifier does. */
  lemma LookupCurrent(c: Config, base: seq<nat>, checkperm: bool)
    requires ConfigInv(c, base)
    ensures Envid2Env(c.sys, 0, checkperm) == Some(c.sys.cur)
    ensures c.sys.cur.Some? && Live(c.sys, c.sys.cur.value) ==>
      Envid2Env(c.sys, c.sys.envs[c.sys.cur.value].id, checkperm) == Envid2Env(c.sys, 0, checkperm)
  {
    hide Inv, Coherent, Guard, NthId;
    if c.sys.cur.Some? && Live(c.sys, c.sys.cur.value) {
      var e := c.sys.cur.value;
      IdShape(e, c.gens[e]);
    }
  }

  ghost predicate Granted(s: Sys, id: int, checkperm: bool, e: nat)
    requires s.cur.Some? ==> s.cur.value < |s.envs|
  {
    && Live(s, e) && s.envs[e].id == id
    && (checkperm ==> s.cur.Some? && (s.cur == Some(e) || s.envs[e].parent == s.envs[s.cur.value].id))
  }

  /**
    An identifier is stale once its slot was allocated again: envid2env rejects it
    until the slot has been allocated 2^19-1 more times.
  */
  lemma StaleIdRejected(c: Config, base: seq<nat>, i: nat, k: nat)
    requires ConfigInv(c, base) && i < NENV && 1 <= k < c.gens[i] < k + GENERATIONS
    ensures Envid2Env(c.sys, NthId(i, k), false) == None
  {
    hide Inv, Coherent, NthId;
    IdShape(i, k);
    IdRepeatsIff(i, k, c.gens[i]);
    SmallMod(c.gens[i] - k, GENERATIONS);
  }

  lemma SmallMod(a: nat, m: nat)
    requires 0 < a < m
    ensures a % m != 0
  {
  }

  lemma {:induction false} RunCountsAllocations(c: Config, base: seq<nat>, ops: seq<Op>, i: nat)
    requires ConfigInv(c, base) && Run(c, base, ops).Some? && i < NENV
    ensures |Run(c, base, ops).value.gens| == |c.gens| == NENV
    ensures c.gens[i] <= Run(c, base, ops).value.gens[i] <= c.gens[i] + |ops|
    decreases |ops|
  {
    if ops != [] {
      StepKeeps(c, base, ops[0]);
      var c1 := Step(c, ops[0]).value;
      StepGens(c, base, ops[0], i);
      RunCountsAllocations(c1, base, ops[1..], i);
    }
  }

  lemma StepGens(c: Config, base: seq<nat>, op: Op, i: nat)
    requires ConfigInv(c, base) && Allowed(c, base, op) && Step(c, op).Some? && i < NENV
    ensures |Step(c, op).value.gens| == |c.gens| == NENV
    ensures c.gens[i] <= Step(c, op).value.gens[i] <= c.gens[i] + 1
  {
    hide Inv, Coherent, EnvAlloc, EnvFree, EnvRun, EnvCreate, Alloc, Insert, Remove, StoreByte;
  }

  // ------------------------------------------------------------- create, then free

  /**
    env_create followed by env_free of the new environment restores every reference
    count, the set of free pages, the list of free slots, and every translation of
    every other address space.
  */
  lemma CreateThenFree(s: Sys, base: seq<nat>, out: set<nat>, gens: seq<nat>, image: seq<Byte>, kind: int)
    requires SysInv(s, base, out, gens) && UserImage(image)
    requires Ready(s.vm) && (s.freeEnvs != [] ==> s.freeEnvs[0] < |s.envs| == |s.vm.dirs|)
    requires EnvCreate(s, image, kind).Some?
    ensures s.freeEnvs != []
    ensures var e, s1 := s.freeEnvs[0], EnvCreate(s, image, kind).value;
      && DirOf(s1.vm, e).Some? && e < |s1.envs| && EnvFree(s1, e).Some?
      && var s2 := EnvFree(s1, e).value;
      && s2.vm.refs == s.vm.refs
      && (forall p: nat :: p in s2.vm.free <==> p in s.vm.free)
      && s2.freeEnvs == s.freeEnvs && s2.vm.dirs == s.vm.dirs
      && (forall r :: Points(s2.vm, r) == Points(s.vm, r))
  {
    hide Separate, KernelHalf, Accounts, Coherent, LoadIcode, FreeSpace;
    var e, s1 := s.freeEnvs[0], EnvCreate(s, image, kind).value;
    assert e in s.freeEnvs;
    EnvCreateInv(s, base, out, gens, image, kind);
    CreatePoints(s, base, out, gens, image, kind);
    EnvFreeInv(s1, base, out, gens[e := gens[e] + 1], e);
    var s2 := EnvFree(s1, e).value;
    FreePoints(s1, base, out, e);
    forall r ensures Points(s2.vm, r) == Points(s.vm, r) {
      if Owns(e, r) { AbsentOwnsNothing(s.vm, e, r); }
    }
    SamePointsSameLedger(s.vm, s2.vm, base, out);
  }

  lemma AbsentOwnsNothing(s: State, e: nat, r: Ref)
    requires DirOf(s, e) == None && Owns(e, r)
    ensures Points(s, r) == None
  {
  }

  lemma CreatePoints(s: Sys, base: seq<nat>, out: set<nat>, gens: seq<nat>, image: seq<Byte>, kind: int)
    requires SysInv(s, base, out, gens) && UserImage(image)
    requires Ready(s.vm) && (s.freeEnvs != [] ==> s.freeEnvs[0] < |s.envs| == |s.vm.dirs|)
    requires EnvCreate(s, image, kind).Some?
    ensures s.freeEnvs != []
    ensures var e, s1 := s.freeEnvs[0], EnvCreate(s, image, kind).value;
      && s1.vm.dirs == s.vm.dirs[e := Some(s.vm.free[0])] && s1.freeEnvs == s.freeEnvs[1..]
      && s1.envs[e].status == Runnable && |s1.envs| == |s.envs|
      && forall r :: !Owns(e, r) ==> Points(s1.vm, r) == Points(s.vm, r)
  {
    hide Separate, KernelHalf, Accounts, Coherent, LoadIcode;
    var e, a := s.freeEnvs[0], EnvAlloc(s, 0);
    assert e in s.freeEnvs;
    SetupVmInv(s.vm, base, out, e);
    FreshExclusive(a.vm, e);
    assert DirOf(a.vm, e) == Some(s.vm.free[0]);
    LoadIcodeInv(a.vm, base, out, e, image);
  }

  lemma FreePoints(s: Sys, base: seq<nat>, out: set<nat>, e: nat)
    requires Inv(s.vm, base, out) && DirOf(s.vm, e).Some? && e < |s.envs| && EnvFree(s, e).Some?
    ensures var s' := EnvFree(s, e).value;
      && e < |s.vm.dirs| && s'.vm.dirs == s.vm.dirs[e := None] && s'.freeEnvs == [e] + s.freeEnvs
      && (forall r :: Points(s'.vm, r) == if Owns(e, r) then None else Points(s.vm, r))
  {
    hide Inv, Coherent, FreeSpace;
    LoadCr3Keeps(s.vm, base, out, s.vm.kdir);
    var vm0 := if s.cur == Some(e) then LoadCr3(s.vm, s.vm.kdir) else s.vm;
    assert DirOf(vm0, e) == DirOf(s.vm, e);
    FreeSpaceInv(vm0, base, out, e);
  }
}
