/**
  The kernel's code as it runs: pages[], physical memory and envs[] are arrays that
  the operations update in place. Each operation is tied to the function on the
  abstract state whose properties the other modules prove.
*/
module KernelCode {
  import opened Mmu
  import opened Vm
  import opened VmSteps
  import opened PageOps
  import opened Translation
  import opened EnvVm
  import opened Loader
  import opened Envs
  import opened Boot
  import opened PageList

  /** struct PageInfo */
  datatype PageInfo = PageInfo(link: Option<nat>, ref: nat)

  /** struct Env: the fields of Env, env_link and env_pgdir. */
  datatype EnvCell = EnvCell(env: Env, link: Option<nat>, pgdir: Option<nat>)

  const E_BAD_ENV := 2
  const E_NO_MEM := 4
  const E_NO_FREE_ENV := 5

  ghost function RefsOf(ps: seq<PageInfo>): (r: seq<nat>)
    ensures |r| == |ps| && forall i :: 0 <= i < |ps| ==> r[i] == ps[i].ref
  {
    seq(|ps|, i requires 0 <= i < |ps| => ps[i].ref)
  }

  ghost function LinksOf(ps: seq<PageInfo>): (r: seq<Option<nat>>)
    ensures |r| == |ps| && forall i :: 0 <= i < |ps| ==> r[i] == ps[i].link
  {
    seq(|ps|, i requires 0 <= i < |ps| => ps[i].link)
  }

  lemma PageUpdate(ps: seq<PageInfo>, p: nat, x: PageInfo)
    requires p < |ps|
    ensures RefsOf(ps[p := x]) == RefsOf(ps)[p := x.ref]
    ensures LinksOf(ps[p := x]) == LinksOf(ps)[p := x.link]
  {
  }

  ghost function EnvsOf(es: seq<EnvCell>): (r: seq<Env>)
    ensures |r| == |es| && forall i :: 0 <= i < |es| ==> r[i] == es[i].env
  {
    seq(|es|, i requires 0 <= i < |es| => es[i].env)
  }

  ghost function EnvLinksOf(es: seq<EnvCell>): (r: seq<Option<nat>>)
    ensures |r| == |es| && forall i :: 0 <= i < |es| ==> r[i] == es[i].link
  {
    seq(|es|, i requires 0 <= i < |es| => es[i].link)
  }

  ghost function DirsOf(es: seq<EnvCell>): (r: seq<Option<nat>>)
    ensures |r| == |es| && forall i :: 0 <= i < |es| ==> r[i] == es[i].pgdir
  {
    seq(|es|, i requires 0 <= i < |es| => es[i].pgdir)
  }

  lemma EnvUpdate(es: seq<EnvCell>, e: nat, x: EnvCell)
    requires e < |es|
    ensures EnvsOf(es[e := x]) == EnvsOf(es)[e := x.env]
    ensures EnvLinksOf(es[e := x]) == EnvLinksOf(es)[e := x.link]
    ensures DirsOf(es[e := x]) == DirsOf(es)[e := x.pgdir]
  {
  }

  class Kernel {
    const kdir: nat
    const pages: array<PageInfo>
    const mem: array<seq<Word>>
    const envs: array<EnvCell>
    var pageFreeList: Option<nat>
    var envFreeList: Option<nat>
    var curenv: Option<nat>
    var cr3: nat
    var tlb: map<nat, Word>
    ghost var free: seq<nat>
    ghost var freeEnvs: seq<nat>

    /** The links spell out the two lists; pages off the list have no link. */
    ghost predicate Valid()
      reads this, pages, mem, envs
    {
      && Ready(Vm())
      && Chain(LinksOf(pages[..]), pageFreeList, free)
      && (forall p :: 0 <= p < pages.Length && p !in free ==> pages[p].link == None)
      && envs.Length == NENV && Chain(EnvLinksOf(envs[..]), envFreeList, freeEnvs)
      && (curenv.Some? ==> curenv.value < NENV)
    }

    ghost function Vm(): State
      reads this, pages, mem, envs
    {
      State(RefsOf(pages[..]), free, mem[..], kdir, DirsOf(envs[..]), cr3, tlb)
    }

    ghost function Now(): Sys
      reads this, pages, mem, envs
    {
      Sys(Vm(), EnvsOf(envs[..]), freeEnvs, curenv)
    }

    /** page_alloc */
    method PageAlloc(zero: bool) returns (pp: Option<nat>)
      requires Valid()
      modifies this`pageFreeList, this`free, pages, mem
      ensures Valid()
      ensures old(free) == [] ==> pp == None && Now() == old(Now())
      ensures old(free) != [] ==> pp == Some(old(free)[0]) && Now() == old(Now()).(vm := Alloc(old(Vm()), zero))
    {
      pp := pageFreeList;
      if pp == None {
        return;
      }
      var p := pp.value;
      ghost var ps := pages[..];
      ChainPop(LinksOf(ps), pageFreeList, free);
      pageFreeList := pages[p].link;
      pages[p] := pages[p].(ref := 0);
      pages[p] := pages[p].(link := None);
      free := free[1..];
      assert pages[..] == ps[p := PageInfo(None, 0)];
      PageUpdate(ps, p, PageInfo(None, 0));
      if zero {
        mem[p] := ZeroFrame();
        assert mem[..] == old(mem[..])[p := ZeroFrame()];
      }
      assert old(free) == [p] + free;
    }

    /**
      page_free; panicked when the page looks referenced or listed. The last page of the
      list, if its count is 0, looks like neither: freeing it leaves links that spell no list.
    */
    method PageFree(p: nat) returns (panicked: bool)
      requires Valid() && p < pages.Length
      modifies this`pageFreeList, this`free, pages
      ensures panicked <==> old(pages[p].ref) != 0 || (p in old(free) && p != old(free)[|old(free)| - 1])
      ensures panicked ==> Valid() && Now() == old(Now())
      ensures !panicked && p !in old(free) ==> Valid() && Now() == old(Now()).(vm := Release(old(Vm()), p))
      ensures !panicked && p in old(free) ==> forall l :: !Chain(LinksOf(pages[..]), pageFreeList, l)
    {
      hide Chain;
      GuardMissesOnlyTail(LinksOf(pages[..]), pageFreeList, free, p);
      if pages[p].ref != 0 || pages[p].link.Some? {
        return true;
      }
      ghost var ps, head, was := pages[..], pageFreeList, free;
      var tmp := pageFreeList;
      pageFreeList := Some(p);
      pages[p] := pages[p].(link := tmp);
      assert pages[..] == ps[p := PageInfo(tmp, 0)];
      PageUpdate(ps, p, PageInfo(tmp, 0));
      assert RefsOf(pages[..]) == RefsOf(ps);
      if p in free {
        forall l ensures !Chain(LinksOf(pages[..]), pageFreeList, l) {
          DoubleFreeOfTailLoops(LinksOf(ps), head, was, l);
        }
      } else {
        ChainPush(LinksOf(ps), head, was, p);
        free := [p] + free;
      }
      return false;
    }

    /** Dropping a reference to page p does not free a page that is listed already. */
    ghost predicate Droppable(p: nat)
      reads this, pages
    {
      p in free && p < pages.Length ==> pages[p].ref != 1
    }

    /** page_decref */
    method PageDecref(p: nat)
      requires Valid() && p < pages.Length && Droppable(p)
      modifies this`pageFreeList, this`free, pages
      ensures Valid()
      ensures Now() == old(Now()).(vm := Decref(old(Vm()), p))
    {
      ghost var ps := pages[..];
      pages[p] := pages[p].(ref := Drop(pages[p].ref));
      assert pages[..] == ps[p := PageInfo(ps[p].link, Drop(ps[p].ref))];
      PageUpdate(ps, p, PageInfo(ps[p].link, Drop(ps[p].ref)));
      assert LinksOf(pages[..]) == LinksOf(ps);
      if pages[p].ref == 0 {
        var panicked := PageFree(p);
      }
    }

    /** pgdir_walk; the result points at entry (frame, index). */
    method PgdirWalk(dir: nat, va: Word, create: bool) returns (pte: Option<(nat, nat)>)
      requires Valid() && Walkable(Vm(), dir, PDX(va))
      modifies this`pageFreeList, this`free, pages, mem
      ensures Valid()
      ensures !create || Present(old(mem[dir])[PDX(va)]) ==> Now() == old(Now())
      ensures Present(old(mem[dir])[PDX(va)]) ==> pte == Some((FrameOf(old(mem[dir])[PDX(va)]), PTX(va)))
      ensures !Present(old(mem[dir])[PDX(va)]) && !create ==> pte == None
      ensures create ==>
        match WalkCreate(old(Vm()), dir, PDX(va))
        case None => pte == None && Now() == old(Now())
        case Some(vm') => Now() == old(Now()).(vm := vm') && pte == Some((FrameOf(vm'.mem[dir][PDX(va)]), PTX(va)))
    {
      hide Chain;
      var d, t := PDX(va), PTX(va);
      if Present(mem[dir][d]) {
        return Some((FrameOf(mem[dir][d]), t));
      }
      if !create {
        return None;
      }
      var pp := PageAlloc(true);
      if pp == None {
        return None;
      }
      var p := pp.value;
      PageAdd(p);
      var row: seq<Word> := mem[dir][d := Pack(p, PTE_P + PTE_W + PTE_U)];
      PackParts(p, PTE_P + PTE_W + PTE_U);
      WriteFrame(dir, row);
      return Some((p, t));
    }

    /** pp->pp_ref++ */
    method PageAdd(p: nat)
      requires Valid() && p < pages.Length
      modifies pages
      ensures Valid() && Now() == old(Now()).(vm := Incref(old(Vm()), p))
    {
      ghost var ps := pages[..];
      pages[p] := pages[p].(ref := Bump(pages[p].ref));
      assert pages[..] == ps[p := PageInfo(ps[p].link, Bump(ps[p].ref))];
      PageUpdate(ps, p, PageInfo(ps[p].link, Bump(ps[p].ref)));
      assert LinksOf(pages[..]) == LinksOf(ps);
    }

    /** A store into physical memory. */
    method WriteFrame(f: nat, row: seq<Word>)
      requires Valid() && f < mem.Length && |row| == 1024
      modifies mem
      ensures Valid() && Now() == old(Now()).(vm := old(Vm()).(mem := old(mem[..])[f := row]))
    {
      mem[f] := row;
      assert mem[..] == old(mem[..])[f := row];
    }

    method WriteWord(f: nat, i: nat, w: Word)
      requires Valid() && f < mem.Length && i < 1024
      modifies mem
      ensures Valid() && Now() == old(Now()).(vm := SetWord(old(Vm()), f, i, w))
    {
      var row: seq<Word> := mem[f][i := w];
      WriteFrame(f, row);
    }

    /** page_lookup: the page that the entry of va holds, present or not; and the entry itself. */
    method PageLookup(dir: nat, va: Word) returns (pp: Option<nat>, pte: Option<(nat, nat)>)
      requires Valid() && Removable(Vm(), dir, PGNUM(va))
      modifies this`pageFreeList, this`free, pages, mem
      ensures Valid() && Now() == old(Now())
      ensures pte == (if Present(mem[dir][PDX(va)]) then Some((FrameOf(mem[dir][PDX(va)]), PTX(va))) else None)
      ensures pp == (if Present(mem[dir][PDX(va)]) then Some(FrameOf(mem[FrameOf(mem[dir][PDX(va)])][PTX(va)])) else None)
    {
      AddressSplit(va);
      pte := PgdirWalk(dir, va, false);
      if pte == None {
        return None, pte;
      }
      pp := Some(FrameOf(mem[pte.value.0][pte.value.1]));
    }

    /** page_remove */
    method PageRemove(dir: nat, va: Word)
      requires Valid() && Removable(Vm(), dir, PGNUM(va))
      requires Present(mem[dir][PDX(va)]) ==> Droppable(FrameOf(mem[FrameOf(mem[dir][PDX(va)])][PTX(va)]))
      modifies this`pageFreeList, this`free, this`tlb, pages, mem
      ensures Valid() && Now() == old(Now()).(vm := Remove(old(Vm()), dir, PGNUM(va)))
    {
      AddressSplit(va);
      assert PGNUM(va) / 1024 == PDX(va) && PGNUM(va) % 1024 == PTX(va);
      var pp, pte := PageLookup(dir, va);
      if pp == None {
        return;
      }
      PageDecref(pp.value);
      WriteWord(pte.value.0, pte.value.1, 0);
      TlbInvalidate(va);
    }

    /** tlb_invalidate: invlpg, whatever the directory. */
    method TlbInvalidate(va: Word)
      requires Valid()
      modifies this`tlb
      ensures Valid() && Now() == old(Now()).(vm := old(Vm()).(tlb := old(tlb) - {PGNUM(va)}))
    {
      tlb := tlb - {PGNUM(va)};
    }

    /** page_insert; 0 or -E_NO_MEM. */
    method PageInsert(dir: nat, pp: nat, va: Word, perm: nat, ghost e: nat, ghost base: seq<nat>, ghost out: set<nat>)
      returns (r: int)
      requires Valid() && Inv(Vm(), base, out) && DirOf(Vm(), e) == Some(dir) && InsertArgs(Vm(), e, pp, PGNUM(va), perm)
      modifies this`pageFreeList, this`free, this`tlb, pages, mem
      ensures Valid() && Insertable(old(Vm()), dir, pp, PGNUM(va), perm)
      ensures match Insert(old(Vm()), dir, pp, PGNUM(va), perm)
              case None => r == -4 && Now() == old(Now())
              case Some(vm') => r == 0 && Now() == old(Now()).(vm := vm')
    {
      hide Inv, Chain;
      ghost var s := Vm();
      AddressSplit(va);
      ghost var v := PGNUM(va);
      assert v / 1024 == PDX(va) && v % 1024 == PTX(va);
      WalkCreateKeepsData(s, base, out, e, v / 1024, pp);
      var pte := PgdirWalk(dir, va, true);
      if pte == None {
        return -E_NO_MEM;
      }
      ghost var s1 := Vm();
      MappableInv(s1, base, out, e, v);
      InsertHolds(s1, base, out, e, v);
      r := InsertHere(dir, pp, va, perm, pte.value.0, pte.value.1);
    }

    /** page_insert once the entry is found. */
    method InsertHere(dir: nat, pp: nat, va: Word, perm: nat, tab: nat, t: nat) returns (r: int)
      requires Valid() && Mappable(Vm(), dir, PGNUM(va)) && pp < pages.Length && perm < 4096
      requires tab == FrameOf(mem[dir][PGNUM(va) / 1024]) && t == PGNUM(va) % 1024
      requires Present(mem[tab][t]) ==> FrameOf(mem[tab][t]) !in free
      modifies this`pageFreeList, this`free, this`tlb, pages, mem
      ensures Valid() && r == 0 && Now() == old(Now()).(vm := InsertAt(old(Vm()), dir, pp, PGNUM(va), perm))
    {
      AddressSplit(va);
      assert PGNUM(va) / 1024 == PDX(va) && PGNUM(va) % 1024 == PTX(va);
      if Present(mem[tab][t]) {
        if FrameOf(mem[tab][t]) == pp {
          WriteWord(tab, t, Pack(pp, perm));
          return 0;
        }
        PageRemove(dir, va);
      }
      WriteWord(tab, t, Pack(pp, perm));
      PageAdd(pp);
      return 0;
    }

    // ------------------------------------------------------------ environments

    /** env_setup_vm; 0 or -E_NO_MEM. */
    method EnvSetupVm(e: nat) returns (r: int)
      requires Valid() && e < NENV
      modifies this`pageFreeList, this`free, pages, mem, envs
      ensures Valid()
      ensures old(free) == [] ==> r == -4 && Now() == old(Now())
      ensures old(free) != [] ==> r == 0 && Now() == old(Now()).(vm := SetupVm(old(Vm()), e))
      ensures forall i :: 0 <= i < NENV ==> envs[i].link == old(envs[i].link) && envs[i].env == old(envs[i].env)
    {
      var pp := PageAlloc(true);
      if pp == None {
        return -E_NO_MEM;
      }
      var p := pp.value;
      SetPgdir(e, Some(p));
      WriteFrame(p, mem[kdir]);
      PageAdd(p);
      WriteWord(p, UVPTX, Pack(p, PTE_P + PTE_U));
      return 0;
    }

    /** e->env_pgdir = ... */
    method SetPgdir(e: nat, f: Option<nat>)
      requires Valid() && e < NENV
      modifies envs
      ensures Valid() && Now() == old(Now()).(vm := old(Vm()).(dirs := old(Vm()).dirs[e := f]))
      ensures forall i :: 0 <= i < NENV ==> envs[i].link == old(envs[i].link) && envs[i].env == old(envs[i].env)
    {
      ghost var es := envs[..];
      ghost var x := envs[e].(pgdir := f);
      envs[e] := envs[e].(pgdir := f);
      assert envs[..] == es[e := x];
      EnvUpdate(es, e, x);
      assert EnvLinksOf(envs[..]) == EnvLinksOf(es) && EnvsOf(envs[..]) == EnvsOf(es);
    }

    /** Stores into the other fields of a slot. */
    method SetEnv(e: nat, env: Env)
      requires Valid() && e < NENV
      modifies envs
      ensures Valid() && Now() == old(Now()).(envs := old(Now()).envs[e := env])
      ensures forall i :: 0 <= i < NENV ==> envs[i].pgdir == old(envs[i].pgdir)
      ensures forall i :: 0 <= i < NENV ==> envs[i].env == if i == e then env else old(envs[i].env)
    {
      ghost var es := envs[..];
      ghost var x := envs[e].(env := env);
      envs[e] := envs[e].(env := env);
      assert envs[..] == es[e := x];
      EnvUpdate(es, e, x);
      assert EnvLinksOf(envs[..]) == EnvLinksOf(es) && DirsOf(envs[..]) == DirsOf(es);
    }

    /** env_alloc; 0 and the slot, or -E_NO_FREE_ENV or -E_NO_MEM. */
    method EnvAlloc(parent: int) returns (r: int, e: nat)
      requires Valid()
      modifies this, pages, mem, envs
      ensures Valid()
      ensures old(freeEnvs) == [] ==> r == -5 && Now() == old(Now())
      ensures old(freeEnvs) != [] && old(free) == [] ==> r == -4 && Now() == old(Now())
      ensures old(freeEnvs) != [] && old(free) != [] ==>
        r == 0 && e == old(freeEnvs)[0] < NENV && Now() == Envs.EnvAlloc(old(Now()), parent)
    {
      assert envs.Length == NENV && (freeEnvs == [] <==> envFreeList == None);
      assert freeEnvs != [] ==> envFreeList == Some(freeEnvs[0]) && freeEnvs[0] < NENV;
      hide Valid;
      e := 0;
      if envFreeList == None {
        return -E_NO_FREE_ENV, 0;
      }
      e := envFreeList.value;
      r := EnvSetupVm(e);
      if r < 0 {
        return;
      }
      var id := NextId(envs[e].env.id, e);
      SetEnv(e, Env(id, parent, 0, Runnable, 0, 0));
      PopEnv();
    }

    /** env_free_list = e->env_link */
    method PopEnv()
      requires Valid() && freeEnvs != []
      modifies this`envFreeList, this`freeEnvs
      ensures Valid() && Now() == old(Now()).(freeEnvs := old(freeEnvs)[1..])
    {
      ChainTail(EnvLinksOf(envs[..]), envFreeList, freeEnvs);
      envFreeList := envs[envFreeList.value].link;
      freeEnvs := freeEnvs[1..];
    }

    /** env_run, up to the return to user mode. */
    method EnvRun(e: nat)
      requires Valid() && e < NENV && envs[e].pgdir.Some?
      modifies this, envs
      ensures Valid() && DirOf(old(Vm()), e).Some? && Now() == Envs.EnvRun(old(Now()), e)
    {
      assert envs.Length == NENV && (curenv.Some? ==> curenv.value < NENV);
      hide Valid;
      ghost var s := Now();
      StopCurrent();
      ghost var s1 := Now();
      SetCurenv(e);
      StartEnv(e);
      Lcr3(envs[e].pgdir.value);
    }

    /** The running environment, if any, becomes runnable again. */
    method StopCurrent()
      requires Valid()
      modifies envs
      ensures Valid() && Now() == old(Now()).(envs := Stopped(old(Now())))
      ensures forall i :: 0 <= i < NENV ==> envs[i].pgdir == old(envs[i].pgdir)
    {
      assert envs.Length == NENV;
      if curenv.Some? && envs[curenv.value].env.status == Running {
        SetEnv(curenv.value, envs[curenv.value].env.(status := Runnable));
      }
    }

    method StartEnv(e: nat)
      requires Valid() && e < NENV
      modifies envs
      ensures Valid() && e < |old(Now()).envs|
      ensures Now() == old(Now()).(envs := old(Now()).envs[e := Started(old(Now()).envs[e])])
      ensures forall i :: 0 <= i < NENV ==> envs[i].pgdir == old(envs[i].pgdir)
    {
      SetEnv(e, Started(envs[e].env));
    }

    method SetCurenv(e: nat)
      requires Valid() && e < NENV
      modifies this`curenv
      ensures Valid() && Now() == old(Now()).(cur := Some(e))
    {
      curenv := Some(e);
    }

    /** lcr3 flushes the TLB. */
    method Lcr3(dir: nat)
      requires Valid()
      modifies this`cr3, this`tlb
      ensures Valid() && Now() == old(Now()).(vm := LoadCr3(old(Vm()), dir))
    {
      cr3, tlb := dir, map[];
    }

    /** envid2env: 0 and the slot (or no slot when there is no current environment), or -E_BAD_ENV. */
    method Envid2Env(id: int, checkperm: bool) returns (r: int, e: Option<nat>)
      requires Valid() && (id != 0 && checkperm ==> curenv.Some?)
      ensures match Envs.Envid2Env(Now(), id, checkperm)
              case None => r == -2 && e == None
              case Some(x) => r == 0 && e == x
    {
      if id == 0 {
        return 0, curenv;
      }
      var i := ENVX(id);
      if envs[i].env.status == Free || envs[i].env.id != id {
        return -E_BAD_ENV, None;
      }
      if checkperm && curenv != Some(i) && envs[i].env.parent != envs[curenv.value].env.id {
        return -E_BAD_ENV, None;
      }
      return 0, Some(i);
    }

    /** env_free */
    method EnvFree(e: nat, ghost base: seq<nat>, ghost out: set<nat>)
      requires Valid() && e < NENV && envs[e].pgdir.Some? && e !in freeEnvs && Inv(Vm(), base, out)
      modifies this, pages, mem, envs
      ensures Valid() && DirOf(old(Vm()), e).Some? && Envs.EnvFree(old(Now()), e) == Some(Now())
    {
      hide Inv, FreeTables, Points, Translate, IsSpace, Owns, ReadByte;
      var dir := envs[e].pgdir.value;
      ghost var s := Now();
      assert DirOf(s.vm, e) == Some(dir);
      LoadCr3Keeps(s.vm, base, out, kdir);
      if curenv == Some(e) {
        Lcr3(kdir);
      }
      ghost var vm0 := Vm();
      FreeSpaceInv(vm0, base, out, e);
      FreeUserHalf(e, dir, base, out);
      FreeTablesInv(vm0, base, out, e, UTOPX);
      DirUnlisted(Vm(), base, out, e);
      GiveUpDirectory(e, dir);
      assert FreeSpace(vm0, e) == Some(Vm());
      RetireSlot(e);
    }

    /** e->env_pgdir = 0, and its page loses a reference. */
    method GiveUpDirectory(e: nat, dir: nat)
      requires Valid() && e < NENV && dir < pages.Length && dir !in free
      modifies this`pageFreeList, this`free, pages, envs
      ensures Valid() && Now() == old(Now()).(vm := Decref(old(Vm()).(dirs := old(Vm()).dirs[e := None]), dir))
    {
      SetPgdir(e, None);
      PageDecref(dir);
    }

    method RetireSlot(e: nat)
      requires Valid() && e < NENV && e !in freeEnvs
      modifies this`envFreeList, this`freeEnvs, envs
      ensures Valid() && e < |old(Now()).envs|
      ensures Now() == old(Now()).(envs := old(Now()).envs[e := old(Now()).envs[e].(status := Free)], freeEnvs := [e] + old(freeEnvs))
    {
      SetEnv(e, envs[e].env.(status := Free));
      PushEnv(e);
    }

    /** e->env_link = env_free_list; env_free_list = e */
    method PushEnv(e: nat)
      requires Valid() && e < NENV && e !in freeEnvs
      modifies this`envFreeList, this`freeEnvs, envs
      ensures Valid() && Now() == old(Now()).(freeEnvs := [e] + old(freeEnvs))
    {
      ghost var es := envs[..];
      ChainPush(EnvLinksOf(es), envFreeList, freeEnvs, e);
      ghost var x := envs[e].(link := envFreeList);
      envs[e] := envs[e].(link := envFreeList);
      assert envs[..] == es[e := x];
      EnvUpdate(es, e, x);
      assert EnvsOf(envs[..]) == EnvsOf(es) && DirsOf(envs[..]) == DirsOf(es);
      envFreeList := Some(e);
      freeEnvs := [e] + freeEnvs;
    }

    /** The two loops of env_free. */
    method FreeUserHalf(e: nat, dir: nat, ghost base: seq<nat>, ghost out: set<nat>)
      requires Valid() && Inv(Vm(), base, out) && DirOf(Vm(), e) == Some(dir)
      modifies this`pageFreeList, this`free, this`tlb, pages, mem
      ensures Valid() && FreeTables(old(Vm()), dir, UTOPX).Some?
      ensures Now() == old(Now()).(vm := FreeTables(old(Vm()), dir, UTOPX).value)
    {
      hide Valid, Inv, FreeSlot;
      ghost var s := Now();
      var d := 0;
      while d < UTOPX
        invariant 0 <= d <= UTOPX && Valid()
        invariant FreeTables(s.vm, dir, d).Some? && Now() == s.(vm := FreeTables(s.vm, dir, d).value)
      {
        FreeTablesInv(s.vm, base, out, e, d);
        FreeUserSlot(e, dir, d, base, out);
        d := d + 1;
      }
    }

    /** One directory slot of env_free. */
    method FreeUserSlot(e: nat, dir: nat, d: nat, ghost base: seq<nat>, ghost out: set<nat>)
      requires Valid() && Inv(Vm(), base, out) && DirOf(Vm(), e) == Some(dir) && d < UTOPX
      modifies this`pageFreeList, this`free, this`tlb, pages, mem
      ensures Valid() && FreeSlot(old(Vm()), dir, d).Some?
      ensures Now() == old(Now()).(vm := FreeSlot(old(Vm()), dir, d).value)
    {
      hide Inv, FreeEntries, Chain;
      ghost var s := Vm();
      FreeSlotInv(s, base, out, e, d);
      SlotWords(s, base, out, e, d);
      if !Present(mem[dir][d]) {
        return;
      }
      var tab := FrameOf(mem[dir][d]);
      FreeUserEntries(e, dir, d, tab, base, out);
      FreeEntriesInv(s, base, out, e, d, 1024);
      TableUnlisted(s, Vm(), base, out, e, d, tab);
      WriteWord(dir, d, 0);
      PageDecref(tab);
    }

    /** The inner loop of env_free. */
    method FreeUserEntries(e: nat, dir: nat, d: nat, tab: nat, ghost base: seq<nat>, ghost out: set<nat>)
      requires Valid() && Inv(Vm(), base, out) && DirOf(Vm(), e) == Some(dir) && d < UTOPX && TableOf(Vm(), e, d) == Some(tab)
      modifies this`pageFreeList, this`free, this`tlb, pages, mem
      ensures Valid() && FreeEntries(old(Vm()), dir, d, 1024).Some?
      ensures Now() == old(Now()).(vm := FreeEntries(old(Vm()), dir, d, 1024).value)
    {
      hide Valid, Inv, FreeEntry;
      ghost var s := Now();
      var t := 0;
      while t < 1024
        invariant 0 <= t <= 1024 && Valid()
        invariant FreeEntries(s.vm, dir, d, t).Some? && Now() == s.(vm := FreeEntries(s.vm, dir, d, t).value)
      {
        FreeEntriesInv(s.vm, base, out, e, d, t);
        assert Points(Vm(), Pde(e, d)) == Points(s.vm, Pde(e, d));
        FreeUserEntry(e, dir, d, tab, t, base, out);
        t := t + 1;
      }
    }

    /** One turn of the inner loop of env_free. */
    method FreeUserEntry(e: nat, dir: nat, d: nat, tab: nat, t: nat, ghost base: seq<nat>, ghost out: set<nat>)
      requires Valid() && Inv(Vm(), base, out) && DirOf(Vm(), e) == Some(dir)
      requires d < UTOPX && t < 1024 && TableOf(Vm(), e, d) == Some(tab)
      modifies this`pageFreeList, this`free, this`tlb, pages, mem
      ensures Valid() && FreeEntry(old(Vm()), dir, Vpn(d, t)).Some?
      ensures Now() == old(Now()).(vm := FreeEntry(old(Vm()), dir, Vpn(d, t)).value)
    {
      hide Inv, Chain, Remove;
      EntryStep(Vm(), base, out, e, d, t);
      AddressJoin(d, t, 0);
      AddressSplit(PGADDR(d, t, 0));
      if Present(mem[tab][t]) {
        PageRemove(dir, PGADDR(d, t, 0));
      }
    }

    // ------------------------------------------------------------ building an image

    /** One page of region_alloc; false is a panic. */
    method RegionAllocPage(dir: nat, v: nat, ghost e: nat, ghost base: seq<nat>, ghost out: set<nat>) returns (ok: bool)
      requires Valid() && Inv(Vm(), base, out) && DirOf(Vm(), e) == Some(dir) && v < UTOPX * 1024
      modifies this`pageFreeList, this`free, this`tlb, pages, mem
      ensures match RegionPage(old(Vm()), dir, v)
              case None => !ok
              case Some(vm') => ok && Valid() && Now() == old(Now()).(vm := vm')
    {
      hide Inv, Chain;
      ghost var s := Vm();
      var pp := PageAlloc(false);
      if pp == None {
        return false;
      }
      FreshIsData(s, base, out);
      ghost var s1 := Vm();
      var va: Word := v * 4096;
      InPage(v, 0);
      var r := PageInsert(dir, pp.value, va, PTE_W + PTE_U + PTE_P, e, base, out + {pp.value});
      ok := r == 0;
    }

    /** region_alloc; false is a panic. */
    method RegionAlloc(dir: nat, va: Word, len: Word, ghost e: nat, ghost base: seq<nat>, ghost out: set<nat>) returns (ok: bool)
      requires Valid() && Loading(Vm(), base, out, e) && cr3 == dir
      requires PGNUM(va) + PageCount(len) <= UTOPX * 1024
      modifies this`pageFreeList, this`free, this`tlb, pages, mem
      ensures match Loader.RegionAlloc(old(Vm()), dir, va, len)
              case None => !ok
              case Some(vm') => ok && Valid() && Now() == old(Now()).(vm := vm')
    {
      hide Valid, Inv, RegionPage, Coherent;
      ghost var s := Now();
      var n, v, i := PageCount(len), PGNUM(va), 0;
      while i < n
        invariant 0 <= i <= n && Valid()
        invariant RegionPages(s.vm, dir, v, i).Some? && Now() == s.(vm := RegionPages(s.vm, dir, v, i).value)
      {
        RegionPagesKeep(s.vm, base, out, e, v, i);
        ok := RegionAllocPage(dir, v + i, e, base, out);
        if !ok {
          RegionStuck(s.vm, dir, v, i + 1, n);
          return;
        }
        i := i + 1;
      }
      ok := true;
    }

    /** A byte store by the processor; false is a page fault. */
    method Store(va: nat, b: Byte) returns (ok: bool)
      requires Valid()
      modifies this`tlb, mem
      ensures match StoreByte(old(Vm()), va, b)
              case None => !ok
              case Some(vm') => ok && Valid() && Now() == old(Now()).(vm := vm')
    {
      hide Chain;
      var w := HardwareAccess(va / 4096);
      if w == None || FrameOf(w.value) >= mem.Length {
        return false;
      }
      var f, i := FrameOf(w.value), va % 4096 / 4;
      WriteWord(f, i, PutByte(mem[f][i], va % 4, b));
      FillTlb(va / 4096, w.value);
      return true;
    }

    method FillTlb(v: nat, w: Word)
      requires Valid()
      modifies this`tlb
      ensures Valid() && Now() == old(Now()).(vm := old(Vm()).(tlb := old(tlb)[v := w]))
    {
      tlb := tlb[v := w];
    }

    /** The translation the processor finds: cached, or by the walk of check_va2pa. */
    method HardwareAccess(v: nat) returns (w: Option<Word>)
      requires Valid()
      ensures w == Access(Vm(), v)
    {
      if v in tlb {
        return Some(tlb[v]);
      }
      w := CheckWalk(cr3, v);
    }

    /** check_va2pa: the two-level walk in software. */
    method CheckWalk(dir: nat, v: nat) returns (w: Option<Word>)
      requires Valid()
      ensures w == Translate(Vm(), dir, v)
    {
      if dir >= mem.Length || v / 1024 >= 1024 || !Present(mem[dir][v / 1024]) {
        return None;
      }
      var tab := FrameOf(mem[dir][v / 1024]);
      if tab >= mem.Length || !Present(mem[tab][v % 1024]) {
        return None;
      }
      return Some(mem[tab][v % 1024]);
    }

    /** memcpy or memset into user memory; false is a page fault. */
    method CopyIn(va: nat, data: seq<Byte>) returns (ok: bool)
      requires Valid()
      modifies this`tlb, mem
      ensures match StoreBytes(old(Vm()), va, data)
              case None => !ok
              case Some(vm') => ok && Valid() && Now() == old(Now()).(vm := vm')
    {
      hide Valid, StoreByte;
      ghost var s := Now();
      var i := 0;
      while i < |data|
        invariant 0 <= i <= |data| && Valid()
        invariant StoreBytes(s.vm, va, data[..i]).Some? && Now() == s.(vm := StoreBytes(s.vm, va, data[..i]).value)
      {
        assert data[..i + 1][..i] == data[..i];
        ok := Store(va + i, data[i]);
        if !ok {
          StoreStuck(s.vm, va, data, i + 1);
          return;
        }
        i := i + 1;
      }
      assert data[..i] == data;
      ok := true;
    }

    /** One program header of load_icode; false is a panic or a page fault. */
    method LoadSegment(dir: nat, image: seq<Byte>, ph: Proghdr, ghost e: nat, ghost base: seq<nat>, ghost out: set<nat>) returns (ok: bool)
      requires Valid() && Loading(Vm(), base, out, e) && cr3 == dir && UserSegment(ph)
      modifies this`pageFreeList, this`free, this`tlb, pages, mem
      ensures match Loader.LoadSegment(old(Vm()), dir, image, ph)
              case None => !ok
              case Some(vm') => ok && Valid() && Now() == old(Now()).(vm := vm')
    {
      hide Valid, Inv, Coherent, RegionPages, StoreBytes;
      if ph.kind != ELF_PROG_LOAD {
        return true;
      }
      if ph.filesz > ph.memsz {
        return false;
      }
      PagesBelowTop(ph.va, ph.memsz);
      ok := RegionAlloc(dir, ph.va, ph.memsz, e, base, out);
      if !ok {
        return;
      }
      ok := CopyIn(ph.va, Slice(image, ph.offset, ph.filesz));
      if !ok {
        return;
      }
      ok := CopyIn(ph.va + ph.filesz, Zeros(ph.memsz - ph.filesz));
    }

    /** load_icode; false is a panic or a page fault. */
    method LoadIcode(dir: nat, image: seq<Byte>, ghost e: nat, ghost base: seq<nat>, ghost out: set<nat>) returns (ok: bool)
      requires Valid() && Inv(Vm(), base, out) && DirOf(Vm(), e) == Some(dir) && Exclusive(Vm(), e) && UserImage(image)
      modifies this, pages, mem
      ensures match Loader.LoadIcode(old(Vm()), dir, image)
              case None => !ok
              case Some(vm') => ok && Valid() && Now() == old(Now()).(vm := vm')
    {
      hide Valid, Inv, Coherent, RegionPages, Loader.LoadSegment, Header, Exclusive;
      if U32(image, 0) != ELF_MAGIC {
        return false;
      }
      StartLoading(Vm(), base, out, e);
      Lcr3(dir);
      ghost var s := Now();
      var k, n := 0, HeaderCount(image);
      while k < n
        invariant 0 <= k <= n && Valid() && cr3 == dir
        invariant LoadSegments(s.vm, dir, image, k).Some? && Now() == s.(vm := LoadSegments(s.vm, dir, image, k).value)
      {
        SegmentsKeep(s.vm, base, out, e, image, k);
        ok := LoadSegment(dir, image, Header(image, k), e, base, out);
        if !ok {
          SegmentsStuck(s.vm, dir, image, k + 1, n);
          return;
        }
        SegmentsKeep(s.vm, base, out, e, image, k + 1);
        k := k + 1;
      }
      SegmentsKeep(s.vm, base, out, e, image, n);
      assert PGNUM(USTACKTOP - PGSIZE) + PageCount(PGSIZE) <= UTOPX * 1024;
      ok := RegionAlloc(dir, USTACKTOP - PGSIZE, PGSIZE, e, base, out);
      if ok {
        Lcr3(kdir);
      }
    }

    /** env_create; false is a panic. */
    method EnvCreate(image: seq<Byte>, kind: int, ghost base: seq<nat>, ghost out: set<nat>, ghost gens: seq<nat>) returns (ok: bool)
      requires Valid() && SysInv(Now(), base, out, gens) && UserImage(image)
      modifies this, pages, mem, envs
      ensures match Envs.EnvCreate(old(Now()), image, kind)
              case None => !ok
              case Some(s') => ok && Valid() && Now() == s'
    {
      ghost var s := Now();
      EnvAllocReady(s, base, out, gens);
      assert envs.Length == NENV;
      hide Valid, Inv, Coherent, Loader.LoadIcode, Exclusive, EnvInv, Envs.EnvAlloc;
      var r, e := EnvAlloc(0);
      if r != 0 {
        return false;
      }
      ghost var s1 := Now();
      NewEnv(s, base, out, gens);
      var dir := envs[e].pgdir.value;
      ok := LoadIcode(dir, image, e, base, out);
      if ok {
        FinishEnv(e, U32(image, 24), kind);
      }
    }

    method FinishEnv(e: nat, eip: Word, kind: int)
      requires Valid() && e < NENV
      modifies envs
      ensures Valid() && e < |old(Now()).envs|
      ensures Now() == old(Now()).(envs := old(Now()).envs[e := old(Now()).envs[e].(eip := eip, kind := kind)])
    {
      SetEnv(e, envs[e].env.(eip := eip, kind := kind));
    }

    // ------------------------------------------------------------------------ boot

    /** pages[i] goes to the front of the list, unreferenced. */
    method ListPage(i: nat)
      requires Valid() && i < pages.Length && i !in free
      modifies this`pageFreeList, this`free, pages
      ensures Valid() && free == [i] + old(free)
      ensures forall j :: 0 <= j < pages.Length ==> pages[j].ref == if j == i then 0 else old(pages[j].ref)
      ensures forall j :: 0 <= j < pages.Length && j != i ==> pages[j].link == old(pages[j].link)
    {
      ghost var ps := pages[..];
      ChainPush(LinksOf(ps), pageFreeList, free, i);
      pages[i] := PageInfo(pageFreeList, 0);
      assert pages[..] == ps[i := PageInfo(pageFreeList, 0)];
      PageUpdate(ps, i, PageInfo(pageFreeList, 0));
      pageFreeList := Some(i);
      free := [i] + free;
    }

    /** pages[lo..hi] are in use. */
    method MarkUsed(lo: nat, hi: nat)
      requires Valid() && lo <= hi <= pages.Length
      modifies pages
      ensures Valid()
      ensures forall j :: 0 <= j < pages.Length ==> pages[j].ref == if lo <= j < hi then 1 else old(pages[j].ref)
      ensures forall j :: 0 <= j < pages.Length ==> pages[j].link == old(pages[j].link)
    {
      ghost var ps := pages[..];
      var i := lo;
      while i < hi
        invariant lo <= i <= hi
        invariant forall j :: 0 <= j < pages.Length ==> pages[j].ref == if lo <= j < i then 1 else ps[j].ref
        invariant forall j :: 0 <= j < pages.Length ==> pages[j].link == ps[j].link
      {
        pages[i] := pages[i].(ref := 1);
        i := i + 1;
      }
      assert LinksOf(pages[..]) == LinksOf(ps);
    }

    /** The listing loops of page_init: pages lo..hi-1, each in front of the one before. */
    method ListPages(lo: nat, hi: nat)
      requires Valid() && hi <= pages.Length && forall i :: lo <= i < hi ==> i !in free
      modifies this`pageFreeList, this`free, pages
      ensures Valid() && free == Down(hi, lo) + old(free)
      ensures forall j :: 0 <= j < pages.Length ==> pages[j].ref == if lo <= j < hi then 0 else old(pages[j].ref)
    {
      hide Valid;
      ghost var f := free;
      var i := lo;
      assert Down(lo, lo) == [];
      while i < hi
        invariant lo <= i && (i <= hi || i == lo) && Valid() && free == Down(i, lo) + f
        invariant forall j :: 0 <= j < pages.Length ==> pages[j].ref == if lo <= j < i then 0 else old(pages[j].ref)
      {
        DownShape(i, lo);
        ListPage(i);
        assert Down(i + 1, lo) == [i] + Down(i, lo);
        assert [i] + (Down(i, lo) + f) == ([i] + Down(i, lo)) + f;
        i := i + 1;
      }
      if hi < lo { assert Down(hi, lo) == []; }
    }

    /** page_init, on a pages[] that is still all zero. */
    method PageInit(nbase: nat, firstFree: nat)
      requires Valid() && free == [] && forall i :: 0 <= i < pages.Length ==> pages[i] == PageInfo(None, 0)
      requires nbase <= EXTMEM <= firstFree < pages.Length
      modifies this`pageFreeList, this`free, pages
      ensures Valid() && free == BootFree(pages.Length, nbase, firstFree)
      ensures forall i :: 0 <= i < pages.Length ==> pages[i].ref == BootRef(i, firstFree)
    {
      hide Valid;
      MarkUsed(0, 1);
      ListPages(1, nbase);
      DownShape(nbase, 1);
      assert Down(nbase, 1) + [] == Down(nbase, 1);
      MarkUsed(IOHOLE, EXTMEM);
      MarkUsed(EXTMEM, firstFree);
      ListPages(firstFree, pages.Length);
    }

    /** boot_map_region on kern_pgdir. */
    method BootMapRegion(va: Word, size: Word, pa: Word, perm: nat, ghost base: seq<nat>, ghost out: set<nat>)
      requires Valid() && BootInv(Vm(), base, out) && va % PGSIZE == 0 && pa % PGSIZE == 0 && perm < 4096
      requires PGNUM(pa) + PGNUM(size) <= NVPAGES && PGNUM(va) + PGNUM(size) <= NVPAGES && KernelPages(PGNUM(va), PGNUM(size))
      modifies this`pageFreeList, this`free, pages, mem
      ensures Valid() && Now() == old(Now()).(vm := MapRegion(old(Vm()), va, size, pa, perm)) && BootInv(Vm(), base, out)
    {
      hide Valid, BootInv, MapPage, TablesFor, MapsTo, Missing;
      ghost var s := Now();
      MapRegionInv(s.vm, base, out, va, size, pa, perm);
      var n, i := PGNUM(size), 0;
      var v, f := PGNUM(va), PGNUM(pa);
      while i < n
        invariant 0 <= i <= n && Valid()
        invariant MapPages(s.vm, v, f, i, perm).Some? && Now() == s.(vm := MapPages(s.vm, v, f, i, perm).value)
      {
        assert KernelPages(v, i);
        MapPagesInv(s.vm, base, out, v, f, i, perm);
        assert KSlot((v + i) / 1024);
        var ok := BootMapPage(v + i, f + i, perm, base, out);
        if !ok {
          MappedStops(s.vm, v, f, i, n, perm);
          return;
        }
        i := i + 1;
      }
    }

    /** One page of boot_map_region. */
    method BootMapPage(v: nat, frame: nat, perm: nat, ghost base: seq<nat>, ghost out: set<nat>) returns (ok: bool)
      requires Valid() && BootInv(Vm(), base, out) && KSlot(v / 1024) && v < NVPAGES && frame < NVPAGES && perm < 4096
      modifies this`pageFreeList, this`free, pages, mem
      ensures Valid()
      ensures match MapPage(old(Vm()), v, frame, perm)
              case None => !ok && Now() == old(Now())
              case Some(vm') => ok && Now() == old(Now()).(vm := vm')
    {
      hide Chain, BootInv;
      var va: Word := v * 4096;
      InPage(v, 0);
      AddressSplit(va);
      assert v / 1024 == PDX(va) && v % 1024 == PTX(va);
      KWalk(Vm(), base, out, v / 1024);
      var pte := PgdirWalk(kdir, va, true);
      if pte == None {
        return false;
      }
      KTableShape(Vm(), base, out, v / 1024);
      WriteWord(pte.value.0, pte.value.1, Pack(frame, perm));
      return true;
    }

    /** The mapping part of mem_init. */
    method MemInitMaps(l: Layout)
      requires Valid() && SaneLayout(l) && AfterPageInit(Vm(), l)
      modifies this`pageFreeList, this`free, this`cr3, this`tlb, pages, mem
      ensures Valid() && Now() == old(Now()).(vm := MemInit(old(Vm()), l))
    {
      hide Valid, BootInv, MapRegion, AfterPageInit, FrameAddr;
      ghost var s, base, out := Vm(), Vm().refs, Unlisted(l);
      AfterPageInitInv(s, l);
      WindowPages(l.npages);
      KernelRange(PGNUM(UPAGES), l.npages / 512);
      BootMapRegion(UPAGES, l.npages * 8, FrameAddr(l.pages), PTE_U + PTE_P, base, out);
      KernelRange(PGNUM(UENVS), 24);
      BootMapRegion(UENVS, 24 * PGSIZE, FrameAddr(l.envs), PTE_U + PTE_P, base, out);
      KernelRange(PGNUM(KSTACKTOP - KSTKSIZE), 8);
      BootMapRegion(KSTACKTOP - KSTKSIZE, KSTKSIZE, FrameAddr(l.stack), PTE_W + PTE_P, base, out);
      KernelRange(PGNUM(KERNBASE), 0x1_0000);
      BootMapRegion(KERNBASE, 0x1000_0000, FrameAddr(0), PTE_W + PTE_P, base, out);
      Lcr3(kdir);
    }

    /** env_init, on an empty list. */
    method EnvInit()
      requires Valid() && freeEnvs == []
      modifies this`envFreeList, this`freeEnvs, envs
      ensures Valid() && freeEnvs == Upto(NENV)
      ensures forall i :: 0 <= i < NENV ==> envs[i].env.status == Free && envs[i].env.id == 0
      ensures Vm() == old(Vm()) && curenv == old(curenv)
    {
      assert envs.Length == NENV;
      hide Valid;
      var i := NENV;
      while i > 0
        invariant 0 <= i <= NENV && Valid() && Vm() == old(Vm())
        invariant |freeEnvs| == NENV - i && forall k :: 0 <= k < |freeEnvs| ==> freeEnvs[k] == i + k
        invariant forall k :: i <= k < NENV ==> envs[k].env.status == Free && envs[k].env.id == 0
      {
        i := i - 1;
        ClearEnv(i);
      }
      assert freeEnvs == Upto(NENV);
    }

    /** One turn of the loop of env_init. */
    method ClearEnv(e: nat)
      requires Valid() && e < NENV && e !in freeEnvs
      modifies this`envFreeList, this`freeEnvs, envs
      ensures Valid() && freeEnvs == [e] + old(freeEnvs) && Vm() == old(Vm())
      ensures envs[e].env == old(envs[e].env).(id := 0, status := Free)
      ensures forall i :: 0 <= i < NENV && i != e ==> envs[i].env == old(envs[i].env)
    {
      assert envs.Length == NENV;
      hide Valid;
      SetEnv(e, envs[e].env.(id := 0, status := Free));
      ghost var es := Now().envs;
      PushEnv(e);
      forall i | 0 <= i < NENV ensures envs[i].env == es[i] {
        assert Now().envs[i] == es[i];
      }
    }

    // -------------------------------------------------- check_page_free_list

    /** *tp = p for a tail pointer that is the link of a page. */
    method SetLink(q: nat, p: Option<nat>)
      requires q < pages.Length
      modifies pages
      ensures LinksOf(pages[..]) == LinksOf(old(pages[..]))[q := p] && RefsOf(pages[..]) == RefsOf(old(pages[..]))
    {
      ghost var ps := pages[..];
      pages[q] := pages[q].(link := p);
      assert pages[..] == ps[q := PageInfo(p, ps[q].ref)];
      PageUpdate(ps, q, PageInfo(p, ps[q].ref));
    }

    /** The reordering at the head of check_page_free_list: low pages first, in place. */
    method LowPagesFirst()
      requires Valid()
      modifies this`pageFreeList, this`free, pages
      ensures Valid() && free == Select(old(free), true) + Select(old(free), false)
      ensures Now() == old(Now()).(vm := old(Vm()).(free := free))
    {
      ghost var l, s := free, Vm();
      hide Chain, Collected, Select, NoDup, Ready;
      var pp1, pp2, tp0, tp1 := CollectAll(l);
      JoinClasses(l, pp1, pp2, tp0, tp1);
      assert Vm() == s.(free := free);
      ReadyRelisted(s, free);
    }

    /** The loop over the list with its two tail pointers. */
    method CollectAll(ghost l: seq<nat>) returns (pp1: Option<nat>, pp2: Option<nat>, tp0: Option<nat>, tp1: Option<nat>)
      requires Chain(LinksOf(pages[..]), pageFreeList, l)
      requires forall q :: 0 <= q < pages.Length && q !in l ==> pages[q].link == None
      modifies pages
      ensures NoDup(l) && RefsOf(pages[..]) == RefsOf(old(pages[..]))
      ensures Collected(LinksOf(pages[..]), l, |l|, true, pp1, tp0) && Collected(LinksOf(pages[..]), l, |l|, false, pp2, tp1)
      ensures forall q :: 0 <= q < pages.Length && q !in l ==> pages[q].link == None
    {
      StartCollecting(LinksOf(pages[..]), pageFreeList, l);
      hide Collected, Ahead, Chain;
      pp1, pp2, tp0, tp1 := None, None, None, None;
      var pp := pageFreeList;
      ghost var k := 0;
      while pp.Some?
        invariant 0 <= k <= |l| && pp == (if k < |l| then Some(l[k]) else None)
        invariant RefsOf(pages[..]) == RefsOf(old(pages[..]))
        invariant forall q :: 0 <= q < pages.Length && q !in l ==> pages[q].link == None
        invariant Ahead(LinksOf(pages[..]), l, k)
        invariant Collected(LinksOf(pages[..]), l, k, true, pp1, tp0) && Collected(LinksOf(pages[..]), l, k, false, pp2, tp1)
        decreases |l| - k
      {
        var p := pp.value;
        pp1, pp2, tp0, tp1 := Collect(p, l, k, pp1, pp2, tp0, tp1);
        pp := pages[p].link;
        k := k + 1;
      }
    }

    /** The three assignments after the loop. */
    method JoinClasses(ghost l: seq<nat>, pp1: Option<nat>, pp2: Option<nat>, tp0: Option<nat>, tp1: Option<nat>)
      requires NoDup(l)
      requires Collected(LinksOf(pages[..]), l, |l|, true, pp1, tp0) && Collected(LinksOf(pages[..]), l, |l|, false, pp2, tp1)
      modifies this`pageFreeList, this`free, pages
      ensures free == Select(l, true) + Select(l, false) && RefsOf(pages[..]) == RefsOf(old(pages[..]))
      ensures Chain(LinksOf(pages[..]), pageFreeList, free) && forall i :: 0 <= i < |free| ==> free[i] < pages.Length
      requires forall q :: 0 <= q < pages.Length && q !in l ==> pages[q].link == None
      ensures forall q :: 0 <= q < pages.Length && q !in free ==> pages[q].link == None
    {
      hide Select, Threaded;
      ghost var next := LinksOf(pages[..]);
      CollectFinish(next, l, pp1, pp2, tp0, tp1);
      assert l[..|l|] == l;
      TailBehind(next, l, |l|, true, pp1, tp0);
      TailBehind(next, l, |l|, false, pp2, tp1);
      var second := pp2;
      if tp1.Some? { SetLink(tp1.value, None); } else { second := None; }
      if tp0.Some? { SetLink(tp0.value, second); }
      pageFreeList := if tp0.Some? then pp1 else second;
      free := Select(l, true) + Select(l, false);
      SelectBoth(l);
      forall q | 0 <= q < pages.Length && q !in free ensures pages[q].link == None {
        assert LinksOf(pages[..])[q] == next[q];
      }
    }

    /** One turn of the reordering loop. */
    method Collect(p: nat, ghost l: seq<nat>, ghost k: nat, pp1: Option<nat>, pp2: Option<nat>, tp0: Option<nat>, tp1: Option<nat>)
      returns (pp1': Option<nat>, pp2': Option<nat>, tp0': Option<nat>, tp1': Option<nat>)
      requires k < |l| && p == l[k] && NoDup(l) && Ahead(LinksOf(pages[..]), l, k)
      requires Collected(LinksOf(pages[..]), l, k, true, pp1, tp0) && Collected(LinksOf(pages[..]), l, k, false, pp2, tp1)
      requires forall q :: 0 <= q < pages.Length && q !in l ==> pages[q].link == None
      modifies pages
      ensures RefsOf(pages[..]) == RefsOf(old(pages[..])) && Ahead(LinksOf(pages[..]), l, k + 1)
      ensures p < pages.Length && pages[p].link == (if k + 1 < |l| then Some(l[k + 1]) else None)
      ensures Collected(LinksOf(pages[..]), l, k + 1, true, pp1', tp0') && Collected(LinksOf(pages[..]), l, k + 1, false, pp2', tp1')
      ensures forall q :: 0 <= q < pages.Length && q !in l ==> pages[q].link == None
    {
      hide Collected, Ahead, LowPage, NoDup, Hook;
      ghost var next := LinksOf(pages[..]);
      AheadBound(next, l, k);
      pp1', pp2', tp0', tp1' := pp1, pp2, tp0, tp1;
      TailBehind(next, l, k, true, pp1, tp0);
      TailBehind(next, l, k, false, pp2, tp1);
      if LowPage(p) {
        CollectNext(next, l, k, pp1, tp0);
        CollectOther(next, l, k, false, pp2, tp1, tp0, Some(p));
        AheadKept(next, l, k, tp0, Some(p));
        UnlistedKept(next, l, tp0, Some(p));
        HookTail(tp0, Some(p));
        if tp0 == None { pp1' := Some(p); }
        tp0' := Some(p);
      } else {
        CollectNext(next, l, k, pp2, tp1);
        CollectOther(next, l, k, true, pp1, tp0, tp1, Some(p));
        AheadKept(next, l, k, tp1, Some(p));
        UnlistedKept(next, l, tp1, Some(p));
        HookTail(tp1, Some(p));
        if tp1 == None { pp2' := Some(p); }
        tp1' := Some(p);
      }
    }

    /** *tp = p; a tail pointer that is still a local variable is set by the caller. */
    method HookTail(tail: Option<nat>, p: Option<nat>)
      requires tail.Some? ==> tail.value < pages.Length
      modifies pages
      ensures LinksOf(pages[..]) == Hook(LinksOf(old(pages[..])), tail, p) && RefsOf(pages[..]) == RefsOf(old(pages[..]))
    {
      if tail.Some? { SetLink(tail.value, p); }
    }
  }

  lemma AheadBound(next: seq<Option<nat>>, l: seq<nat>, k: nat)
    requires k < |l| && Ahead(next, l, k)
    ensures l[k] < |next|
  {
  }

  lemma UnlistedKept(next: seq<Option<nat>>, l: seq<nat>, tail: Option<nat>, p: Option<nat>)
    requires tail.Some? ==> tail.value < |next| && tail.value in l
    requires forall q :: 0 <= q < |next| && q !in l ==> next[q] == None
    ensures |Hook(next, tail, p)| == |next| && forall q :: 0 <= q < |next| && q !in l ==> Hook(next, tail, p)[q] == None
  {
  }

  lemma ReadyRelisted(s: State, l: seq<nat>)
    requires Ready(s) && forall i :: 0 <= i < |l| ==> l[i] < |s.refs|
    ensures Ready(s.(free := l))
  {
  }

  lemma StartCollecting(next: seq<Option<nat>>, head: Option<nat>, l: seq<nat>)
    requires Chain(next, head, l)
    ensures head == (if l == [] then None else Some(l[0])) && NoDup(l) && Ahead(next, l, 0)
    ensures Collected(next, l, 0, true, None, None) && Collected(next, l, 0, false, None, None)
  {
    assert l[..0] == [];
  }

  lemma TailBehind(next: seq<Option<nat>>, l: seq<nat>, k: nat, low: bool, first: Option<nat>, last: Option<nat>)
    requires NoDup(l) && k <= |l| && Collected(next, l, k, low, first, last)
    ensures last.Some? ==>
      && last.value < |next| && LowPage(last.value) == low && last.value in l
      && forall j :: k <= j < |l| ==> l[j] != last.value
  {
    var c := Select(l[..k], low);
    if c != [] { ClassBehind(l, k, low, |c| - 1); }
  }

  lemma {:induction false} MappedStops(s: State, v: nat, frame: nat, i: nat, n: nat, perm: nat)
    requires i < n && MapPages(s, v, frame, i, perm).Some? && MapPages(s, v, frame, i + 1, perm) == None
    ensures Mapped(s, v, frame, n, perm) == i
    decreases n
  {
    hide MapPage;
    MapStuck(s, v, frame, i + 1, n, perm);
    if i + 1 < n { MappedStops(s, v, frame, i, n - 1, perm); }
  }

  lemma {:induction false} MapStuck(s: State, v: nat, frame: nat, k: nat, n: nat, perm: nat)
    requires k <= n && MapPages(s, v, frame, k, perm) == None
    ensures MapPages(s, v, frame, n, perm) == None
    decreases n
  {
    hide MapPage;
    if k < n { MapStuck(s, v, frame, k, n - 1, perm); }
  }

  lemma NewEnv(s: Sys, base: seq<nat>, out: set<nat>, gens: seq<nat>)
    requires SysInv(s, base, out, gens) && s.freeEnvs != [] && s.vm.free != []
    ensures Ready(s.vm) && s.freeEnvs[0] < |s.envs| == |s.vm.dirs|
    ensures var s1 := EnvAlloc(s, 0);
      && Inv(s1.vm, base, out) && DirOf(s1.vm, s.freeEnvs[0]) == Some(s.vm.free[0]) && Exclusive(s1.vm, s.freeEnvs[0])
      && |s1.envs| == |s.envs|
  {
    EnvAllocReady(s, base, out, gens);
    assert s.freeEnvs[0] in s.freeEnvs;
    SetupVmInv(s.vm, base, out, s.freeEnvs[0]);
    FreshExclusive(EnvAlloc(s, 0).vm, s.freeEnvs[0]);
  }

  lemma {:induction false} RegionPagesKeep(s: State, base: seq<nat>, out: set<nat>, e: nat, v: nat, n: nat)
    requires Loading(s, base, out, e) && v + n <= UTOPX * 1024
    ensures RegionPages(s, s.cr3, v, n).Some? ==>
      Loading(RegionPages(s, s.cr3, v, n).value, base, out, e) && RegionPages(s, s.cr3, v, n).value.cr3 == s.cr3
  {
    hide Inv, RegionPage, Coherent;
    if n > 0 && RegionPages(s, s.cr3, v, n).Some? {
      RegionPagesKeep(s, base, out, e, v, n - 1);
      RegionPageLoading(RegionPages(s, s.cr3, v, n - 1).value, base, out, e, v + n - 1);
    }
  }

  lemma {:induction false} RegionStuck(s: State, dir: nat, v: nat, k: nat, n: nat)
    requires k <= n && RegionPages(s, dir, v, k) == None
    ensures RegionPages(s, dir, v, n) == None
    decreases n
  {
    hide RegionPage;
    if k < n { RegionStuck(s, dir, v, k, n - 1); }
  }

  lemma {:induction false} StoreStuck(s: State, va: nat, data: seq<Byte>, k: nat)
    requires k <= |data| && StoreBytes(s, va, data[..k]) == None
    ensures StoreBytes(s, va, data) == None
    decreases |data|
  {
    if k < |data| {
      var prefix := data[..|data| - 1];
      assert prefix[..k] == data[..k];
      StoreStuck(s, va, prefix, k);
    } else {
      assert data[..k] == data;
    }
  }

  lemma {:induction false} SegmentsStuck(s: State, dir: nat, image: seq<Byte>, k: nat, n: nat)
    requires k <= n && LoadSegments(s, dir, image, k) == None
    ensures LoadSegments(s, dir, image, n) == None
    decreases n
  {
    hide Loader.LoadSegment;
    if k < n { SegmentsStuck(s, dir, image, k, n - 1); }
  }

  /** Facts that one turn of the inner loop of env_free needs. */
  lemma EntryStep(s: State, base: seq<nat>, out: set<nat>, e: nat, d: nat, t: nat)
    requires Inv(s, base, out) && TableOf(s, e, d).Some? && d < UTOPX && t < 1024
    ensures DirOf(s, e).Some?
    ensures var dir, tab := DirOf(s, e).value, TableOf(s, e, d).value;
      && tab < |s.mem| && |s.mem[tab]| == 1024 && dir < |s.mem| && |s.mem[dir]| == 1024
      && Present(s.mem[dir][d]) && FrameOf(s.mem[dir][d]) == tab
      && (Present(s.mem[tab][t]) <==> Translate(s, dir, Vpn(d, t)).Some?)
      && (Present(s.mem[tab][t]) ==> Removable(s, dir, Vpn(d, t)) && FrameOf(s.mem[tab][t]) !in s.free)
  {
    EntryWords(s, e, d, t);
    assert Vpn(d, t) / 1024 == d && Vpn(d, t) % 1024 == t;
    ReadyInv(s, base, out);
    if Points(s, Pte(e, d, t)).Some? {
      Named(s, base, out, Pte(e, d, t), Points(s, Pte(e, d, t)).value);
    }
  }

  lemma SlotWords(s: State, base: seq<nat>, out: set<nat>, e: nat, d: nat)
    requires Inv(s, base, out) && DirOf(s, e).Some? && d < UTOPX
    ensures DirOf(s, e).value < |s.mem| && |s.mem[DirOf(s, e).value]| == 1024
    ensures TableOf(s, e, d) == Target(Entry(s, DirOf(s, e).value, d))
    ensures TableOf(s, e, d).Some? ==> TableOf(s, e, d).value < |s.refs|
  {
    EntryWords(s, e, d, 0);
  }

  lemma TableUnlisted(s: State, s1: State, base: seq<nat>, out: set<nat>, e: nat, d: nat, tab: nat)
    requires Inv(s, base, out) && TableOf(s, e, d) == Some(tab) && Inv(s1, base, out)
    requires Points(s1, Pde(e, d)) == Points(s, Pde(e, d))
    ensures tab < |s1.refs| && tab !in s1.free
  {
    assert Points(s, Pde(e, d)) == Some(tab);
    Named(s1, base, out, Pde(e, d), tab);
  }

  lemma DirUnlisted(s: State, base: seq<nat>, out: set<nat>, e: nat)
    requires Inv(s, base, out) && DirOf(s, e).Some?
    ensures DirOf(s, e).value < |s.refs| && DirOf(s, e).value !in s.free
  {
    DirSound(s, e);
    assert Points(s, Dir(e)) == DirOf(s, e);
    Named(s, base, out, Dir(e), DirOf(s, e).value);
  }

  lemma InsertHolds(s: State, base: seq<nat>, out: set<nat>, e: nat, v: nat)
    requires Inv(s, base, out) && TableOf(s, e, v / 1024).Some? && v / 1024 < UTOPX
    ensures DirOf(s, e).Some? && Mappable(s, DirOf(s, e).value, v)
    ensures var w := s.mem[FrameOf(s.mem[DirOf(s, e).value][v / 1024])][v % 1024]; Present(w) ==> FrameOf(w) !in s.free
  {
    MappableInv(s, base, out, e, v);
    EntryWords(s, e, v / 1024, v % 1024);
    if Points(s, Pte(e, v / 1024, v % 1024)).Some? {
      Named(s, base, out, Pte(e, v / 1024, v % 1024), Points(s, Pte(e, v / 1024, v % 1024)).value);
    }
  }
}
