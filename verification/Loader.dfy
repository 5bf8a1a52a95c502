/**
  region_alloc and load_icode: building a user image through the new directory.
*/
module Loader {
  import opened Mmu
  import opened Vm
  import opened VmSteps
  import opened PageOps
  import opened Translation
  import opened EnvVm

  // ------------------------------------------------------------- region_alloc

  /** One turn of the loop of region_alloc; None is the panic on lack of memory. */
  ghost function RegionPage(s: State, dir: nat, v: nat): Option<State> {
    if s.free == [] || !Ready(s) then None
    else
      var s1 := Alloc(s, false);
      if Insertable(s1, dir, s.free[0], v, PTE_W + PTE_U + PTE_P)
      then Insert(s1, dir, s.free[0], v, PTE_W + PTE_U + PTE_P)
      else None
  }

  ghost function RegionPages(s: State, dir: nat, v: nat, n: nat): Option<State> {
    if n == 0 then Some(s)
    else
      match RegionPages(s, dir, v, n - 1)
      case None => None
      case Some(s1) => RegionPage(s1, dir, v + n - 1)
  }

  /** ROUNDUP(len, PGSIZE) / PGSIZE in 32-bit arithmetic. */
  function PageCount(len: Word): nat {
    ((len + 4095) % 0x1_0000_0000) / 4096
  }

  /** The number of pages of 4096 bytes that len bytes take, page-aligned. */
  function PagesFor(len: nat): nat { (len + 4095) / 4096 }

  /**
    The page count in numbers: the least number of pages that hold len bytes, except that
    the 32-bit sum wraps to 0 for the last 4095 lengths.
  */
  lemma PageCountNumbers(len: Word)
    ensures len <= 0xFFFF_F000 ==> PageCount(len) == PagesFor(len)
    ensures 0 < len <= 0xFFFF_F000 ==> (PageCount(len) - 1) * 4096 < len <= PageCount(len) * 4096
    ensures len == 0 || len > 0xFFFF_F000 ==> PageCount(len) == 0
  {
  }

  /** region_alloc: the start is rounded down, but only the length is rounded up. */
  ghost function RegionAlloc(s: State, dir: nat, va: Word, len: Word): Option<State> {
    RegionPages(s, dir, PGNUM(va), PageCount(len))
  }

  lemma WalkCreateMem(s: State, dir: nat, d: nat, f: nat)
    requires Walkable(s, dir, d) && f < |s.mem| && f !in s.free && f != dir
    ensures WalkCreate(s, dir, d).Some? ==>
      |WalkCreate(s, dir, d).value.mem| == |s.mem| && WalkCreate(s, dir, d).value.mem[f] == s.mem[f]
  {
    if !Present(s.mem[dir][d]) && s.free != [] { assert s.free[0] in s.free; }
  }

  lemma InsertAtMem(s: State, dir: nat, pp: nat, v: nat, perm: nat, f: nat)
    requires Mappable(s, dir, v) && pp < |s.refs| && perm < 4096
    requires f < |s.mem| && f != FrameOf(s.mem[dir][v / 1024])
    ensures |InsertAt(s, dir, pp, v, perm).mem| == |s.mem| && InsertAt(s, dir, pp, v, perm).mem[f] == s.mem[f]
  {
  }

  /** page_insert writes only the directory, the table, and free pages. */
  lemma InsertMem(s: State, base: seq<nat>, out: set<nat>, e: nat, pp: nat, v: nat, perm: nat, f: nat)
    requires Inv(s, base, out) && InsertArgs(s, e, pp, v, perm)
    requires Insertable(s, DirOf(s, e).value, pp, v, perm)
    requires f < |s.mem| && f !in s.free && Some(f) != DirOf(s, e) && Some(f) != TableOf(s, e, v / 1024)
    ensures Insert(s, DirOf(s, e).value, pp, v, perm).Some? ==>
      && |Insert(s, DirOf(s, e).value, pp, v, perm).value.mem| == |s.mem|
      && Insert(s, DirOf(s, e).value, pp, v, perm).value.mem[f] == s.mem[f]
  {
    var dir, d := DirOf(s, e).value, v / 1024;
    if WalkCreate(s, dir, d).Some? {
      var s1 := WalkCreate(s, dir, d).value;
      WalkCreateMem(s, dir, d, f);
      assert FrameOf(s1.mem[dir][d]) != f by {
        if Present(s.mem[dir][d]) {
          assert TableOf(s, e, d) == Some(FrameOf(s.mem[dir][d]));
        } else {
          assert s.free[0] in s.free;
          PackParts(s.free[0], PTE_P + PTE_W + PTE_U);
        }
      }
      InsertAtMem(s1, dir, pp, v, perm, f);
    }
  }

  /** What mapping one fresh page does, and what it leaves alone. */
  ghost predicate PageAdded(s: State, s': State, base: seq<nat>, out: set<nat>, e: nat, v: nat) {
    && s.free != [] && Inv(s', base, out)
    && s'.dirs == s.dirs && s'.kdir == s.kdir && s'.cr3 == s.cr3
    && Points(s', Pte(e, v / 1024, v % 1024)) == Some(s.free[0])
    && (forall r :: r != Pte(e, v / 1024, v % 1024) && r != Pde(e, v / 1024) ==> Points(s', r) == Points(s, r))
    && (forall r :: Points(s, r) != Some(s.free[0]))
    && |s'.mem| == |s.mem|
    && (forall f :: 0 <= f < |s.mem| && f !in s.free && (forall r: Ref :: r.IsTable() ==> Points(s, r) != Some(f)) ==> s'.mem[f] == s.mem[f])
  }

  lemma FreshIsData(s: State, base: seq<nat>, out: set<nat>)
    requires Inv(s, base, out) && s.free != []
    ensures Ready(s)
    ensures var s1 := Alloc(s, false);
      && Inv(s1, base, out + {s.free[0]}) && DataFrame(s1, s.free[0]) && s1.refs[s.free[0]] == 0 && base[s.free[0]] == 0
      && (forall r :: Points(s1, r) == Points(s, r)) && (forall r :: Points(s, r) != Some(s.free[0]))
      && out + {s.free[0]} - {s.free[0]} == out
      && forall p: nat :: p in s1.free ==> p in s.free
  {
    AllocInv(s, base, out, false);
    assert s.free[0] in s.free;
    assert s.free == [s.free[0]] + s.free[1..];
  }

  lemma RegionPageInv(s: State, base: seq<nat>, out: set<nat>, e: nat, v: nat)
    requires Inv(s, base, out) && DirOf(s, e).Some? && v / 1024 < UTOPX
    ensures RegionPage(s, DirOf(s, e).value, v).Some? ==> PageAdded(s, RegionPage(s, DirOf(s, e).value, v).value, base, out, e, v)
    ensures |s.free| >= 2 ==> RegionPage(s, DirOf(s, e).value, v).Some?
  {
    if s.free != [] {
      FreshIsData(s, base, out);
      var p, s1 := s.free[0], Alloc(s, false);
      assert TableOf(s1, e, v / 1024) == TableOf(s, e, v / 1024) by {
        assert Points(s1, Pde(e, v / 1024)) == Points(s, Pde(e, v / 1024));
      }
      InsertInv(s1, base, out + {p}, e, p, v, PTE_W + PTE_U + PTE_P);
      assert RegionPage(s, DirOf(s, e).value, v) == Insert(s1, DirOf(s, e).value, p, v, PTE_W + PTE_U + PTE_P);
      if RegionPage(s, DirOf(s, e).value, v).Some? {
        var s' := RegionPage(s, DirOf(s, e).value, v).value;
        RegionPageMem(s, s', base, out, e, v);
      }
    }
  }

  lemma RegionPageMem(s: State, s': State, base: seq<nat>, out: set<nat>, e: nat, v: nat)
    requires Inv(s, base, out) && DirOf(s, e).Some? && v / 1024 < UTOPX && s.free != []
    requires RegionPage(s, DirOf(s, e).value, v) == Some(s')
    ensures s'.dirs == s.dirs && s'.kdir == s.kdir && s'.cr3 == s.cr3 && |s'.mem| == |s.mem|
    ensures forall f :: 0 <= f < |s.mem| && f !in s.free && (forall r: Ref :: r.IsTable() ==> Points(s, r) != Some(f)) ==> s'.mem[f] == s.mem[f]
  {
    hide Separate, KernelHalf, Accounts;
    FreshIsData(s, base, out);
    forall f | 0 <= f < |s.mem| && f !in s.free && (forall r: Ref :: r.IsTable() ==> Points(s, r) != Some(f))
      ensures s'.mem[f] == s.mem[f]
    {
      assert Points(s, Dir(e)) != Some(f) && Points(s, Pde(e, v / 1024)) != Some(f);
      RegionPageFrame(s, s', base, out, e, v, f);
    }
  }

  lemma RegionPageFrame(s: State, s': State, base: seq<nat>, out: set<nat>, e: nat, v: nat, f: nat)
    requires Inv(s, base, out) && DirOf(s, e).Some? && v / 1024 < UTOPX && s.free != []
    requires RegionPage(s, DirOf(s, e).value, v) == Some(s')
    requires f < |s.mem| && f !in s.free && Points(s, Dir(e)) != Some(f) && Points(s, Pde(e, v / 1024)) != Some(f)
    ensures |s'.mem| == |s.mem| && s'.mem[f] == s.mem[f]
  {
    FreshIsData(s, base, out);
    var p, s1 := s.free[0], Alloc(s, false);
    assert Points(s1, Pde(e, v / 1024)) == TableOf(s1, e, v / 1024);
    InsertMem(s1, base, out + {p}, e, p, v, PTE_W + PTE_U + PTE_P, f);
  }

  /** A mapped page costs at most itself and a page table. */
  lemma RegionPageCost(s: State, dir: nat, v: nat)
    requires RegionPage(s, dir, v).Some?
    ensures |RegionPage(s, dir, v).value.free| + 2 >= |s.free|
  {
    var s1 := Alloc(s, false);
    var s2 := WalkCreate(s1, dir, v / 1024).value;
    assert |s2.free| + 1 >= |s1.free|;
    assert |RegionPage(s, dir, v).value.free| >= |s2.free|;
  }

  /**
    A page of region_alloc appears at v, writable by the user program; every other
    user translation of every address space stays.
  */
  lemma RegionPageTranslation(s: State, base: seq<nat>, out: set<nat>, e: nat, u: nat, dir: nat, v: nat)
    requires Inv(s, base, out) && DirOf(s, e).Some? && u / 1024 < UTOPX && IsSpace(s, dir) && v / 1024 < UTOPX
    requires RegionPage(s, DirOf(s, e).value, u).Some?
    ensures Translate(RegionPage(s, DirOf(s, e).value, u).value, dir, v) ==
      if DirOf(s, e) == Some(dir) && v == u then Some(Pack(s.free[0], PTE_W + PTE_U + PTE_P)) else Translate(s, dir, v)
  {
    hide Inv, Insertable, Insert;
    FreshIsData(s, base, out);
    var s1 := Alloc(s, false);
    SpaceKept(s, s1, dir);
    InsertTranslation(s1, base, out + {s.free[0]}, e, s.free[0], u, PTE_W + PTE_U + PTE_P, dir, v);
    AllocTranslate(s, base, out, dir, v);
  }

  lemma AllocTranslate(s: State, base: seq<nat>, out: set<nat>, dir: nat, v: nat)
    requires Inv(s, base, out) && s.free != [] && IsSpace(s, dir) && v < NVPAGES
    ensures Ready(s) && Translate(Alloc(s, false), dir, v) == Translate(s, dir, v)
  {
    AllocInv(s, base, out, false);
    TranslateStable(s, Alloc(s, false), s.free[0], dir, v);
  }

  // ------------------------------------------------------------- above UTOP

  /** Only a kernel table, free pages and the kernel half of one directory were written. */
  ghost predicate KernelWrite(s: State, s': State, dir: nat) {
    && |s'.mem| == |s.mem| && s'.dirs == s.dirs && s'.kdir == s.kdir && s.kdir < |s.mem| && s'.mem[s.kdir] == s.mem[s.kdir]
    && (forall r: Ref :: (r.Dir? || r.Pde?) && Points(s, r).Some? && Points(s, r).value < |s.mem| && Points(s, r).value != dir ==>
          s'.mem[Points(s, r).value] == s.mem[Points(s, r).value])
    && dir < |s.mem| && |s'.mem[dir]| == |s.mem[dir]| && (forall i :: 0 <= i < UTOPX && i < |s.mem[dir]| ==> s'.mem[dir][i] == s.mem[dir][i])
  }

  lemma KernelWritePoints(s: State, s': State, base: seq<nat>, out: set<nat>, e: nat)
    requires Inv(s, base, out) && DirOf(s, e).Some? && KernelWrite(s, s', DirOf(s, e).value)
    ensures forall r :: Points(s', r) == Points(s, r)
  {
    hide Accounts, KernelHalf;
    forall e2: nat, d: nat ensures TableOf(s', e2, d) == TableOf(s, e2, d) {
      assert Points(s, Dir(e2)) == DirOf(s, e2);
    }
    forall r ensures Points(s', r) == Points(s, r) {
      match r
      case Dir(_) =>
      case Pde(e2, d) =>
      case KPde(_) =>
      case Pte(e2, d, _) =>
        assert Points(s, Pde(e2, d)) == TableOf(s, e2, d) && Points(s, Dir(e)) == DirOf(s, e);
    }
  }

  /** What one page of region_alloc leaves alone above UTOP. */
  lemma AboveMem(s: State, base: seq<nat>, out: set<nat>, e: nat, v: nat, f: nat)
    requires Inv(s, base, out) && DirOf(s, e).Some? && UTOPX <= v / 1024 < 1024 && v / 1024 != UVPTX
    requires RegionPage(s, DirOf(s, e).value, v).Some?
    requires f < |s.mem| && f !in s.free && Points(s, KPde(v / 1024)) != Some(f)
    ensures var s' := RegionPage(s, DirOf(s, e).value, v).value;
      && |s'.mem| == |s.mem| && |s'.mem[f]| == 1024
      && (forall i :: 0 <= i < 1024 && (f != DirOf(s, e).value || i != v / 1024) ==> s'.mem[f][i] == s.mem[f][i])
  {
    hide Accounts, Separate;
    var dir, d := DirOf(s, e).value, v / 1024;
    var s1 := Alloc(s, false);
    var s2 := WalkCreate(s1, dir, d).value;
    assert SharesKernelHalf(s, dir);
    if Present(s.mem[dir][d]) {
      assert Points(s, KPde(d)) == Some(FrameOf(s.mem[dir][d]));
    } else {
      var q := s1.free[0];
      assert s.free[1] in s.free;
      PackParts(q, PTE_P + PTE_W + PTE_U);
    }
    InsertAtMem(s2, dir, s.free[0], v, PTE_W + PTE_U + PTE_P, f);
  }

  lemma RegionPageAbove(s: State, base: seq<nat>, out: set<nat>, e: nat, v: nat)
    requires Inv(s, base, out) && DirOf(s, e).Some? && UTOPX <= v / 1024 < 1024 && v / 1024 != UVPTX
    requires RegionPage(s, DirOf(s, e).value, v).Some?
    ensures KernelWrite(s, RegionPage(s, DirOf(s, e).value, v).value, DirOf(s, e).value)
  {
    hide RegionPage, KernelHalf;
    var dir, d := DirOf(s, e).value, v / 1024;
    var s' := RegionPage(s, dir, v).value;
    assert Points(s, Dir(e)) == Some(dir);
    Named(s, base, out, Dir(e), dir);
    AboveMem(s, base, out, e, v, dir);
    assert s.refs[s.kdir] == base[s.kdir] + Count(s, s.kdir);
    AboveMem(s, base, out, e, v, s.kdir);
    forall r: Ref | (r.Dir? || r.Pde?) && Points(s, r).Some? && Points(s, r).value != dir
      ensures Points(s, r).value < |s.mem| && s'.mem[Points(s, r).value] == s.mem[Points(s, r).value]
    {
      Named(s, base, out, r, Points(s, r).value);
      AboveMem(s, base, out, e, v, Points(s, r).value);
    }
    RegionPageKeepsDirs(s, dir, v);
  }

  lemma RegionPageKeepsDirs(s: State, dir: nat, v: nat)
    requires RegionPage(s, dir, v).Some?
    ensures RegionPage(s, dir, v).value.dirs == s.dirs && RegionPage(s, dir, v).value.kdir == s.kdir
  {
  }

  /** The page handed to page_insert is then off the list, and its count is 0 or 1. */
  lemma RegionPageTakes(s: State, base: seq<nat>, out: set<nat>, e: nat, v: nat)
    requires Inv(s, base, out) && DirOf(s, e).Some? && v / 1024 < 1024
    requires RegionPage(s, DirOf(s, e).value, v).Some?
    ensures s.free != [] && s.free[0] !in RegionPage(s, DirOf(s, e).value, v).value.free
    ensures s.free[0] !in out && s.free[0] < |base| && base[s.free[0]] == 0
  {
    hide Separate, KernelHalf;
    var dir, p := DirOf(s, e).value, s.free[0];
    assert p in s.free;
    Unnamed(s, base, out, p);
    var s1 := Alloc(s, false);
    assert s.free == [p] + s1.free;
    var s2 := WalkCreate(s1, dir, v / 1024).value;
    assert p !in s2.free by { if s2 != s1 { assert s1.free == [s1.free[0]] + s2.free; } }
  }

  /**
    region_alloc is meant for user memory. One page of it keeps the invariant exactly
    when it lies below UTOP: above, it counts a page that no user mapping names, in a
    table that all environments share. The self-mapped slot is left aside.
  */
  lemma RegionPageBelowIff(s: State, base: seq<nat>, out: set<nat>, e: nat, v: nat)
    requires Inv(s, base, out) && DirOf(s, e).Some? && v / 1024 < 1024 && v / 1024 != UVPTX
    requires RegionPage(s, DirOf(s, e).value, v).Some?
    ensures Inv(RegionPage(s, DirOf(s, e).value, v).value, base, out) <==> v / 1024 < UTOPX
  {
    hide RegionPage, Separate, KernelHalf;
    if v / 1024 < UTOPX {
      RegionPageInv(s, base, out, e, v);
    } else {
      RegionPageTakes(s, base, out, e, v);
      var s', p := RegionPage(s, DirOf(s, e).value, v).value, s.free[0];
      RegionPageAbove(s, base, out, e, v);
      KernelWritePoints(s, s', base, out, e);
      FreeIffUnnamed(s, base, out, p);
      if Inv(s', base, out) {
        FreeIffUnnamed(s', base, out, p);
        assert false;
      }
    }
  }

  // ------------------------------------------------- stores through the tables

  function PteAt(e: nat, v: nat): Ref { Pte(e, v / 1024, v % 1024) }

  /** A byte of virtual memory as directory dir shows it. */
  function ReadByte(s: State, dir: nat, va: nat): Option<Byte> {
    match Translate(s, dir, va / 4096)
    case None => None
    case Some(w) =>
      if FrameOf(w) < |s.mem| && |s.mem[FrameOf(w)]| == 1024
      then Some(GetByte(s.mem[FrameOf(w)][va % 4096 / 4], va % 4)) else None
  }

  /** A store by the processor, through its TLB; None is a page fault. */
  function StoreByte(s: State, va: nat, b: Byte): Option<State> {
    match Access(s, va / 4096)
    case None => None
    case Some(w) =>
      if FrameOf(w) < |s.mem| && |s.mem[FrameOf(w)]| == 1024 then
        var s1 := SetWord(s, FrameOf(w), va % 4096 / 4, PutByte(s.mem[FrameOf(w)][va % 4096 / 4], va % 4, b));
        Some(s1.(tlb := s1.tlb[va / 4096 := w]))
      else None
  }

  /** Rewriting the contents of a data frame moves no reference and no translation. */
  lemma DataWrite(s: State, s': State, base: seq<nat>, out: set<nat>, f: nat)
    requires Inv(s, base, out) && f < |s.mem| && f != s.kdir
    requires forall r: Ref :: r.IsTable() ==> Points(s, r) != Some(f)
    requires |s'.mem| == |s.mem| && |s'.mem[f]| == 1024
    requires forall g :: 0 <= g < |s.mem| && g != f ==> s'.mem[g] == s.mem[g]
    requires s'.refs == s.refs && s'.free == s.free && s'.kdir == s.kdir && s'.dirs == s.dirs
    ensures Inv(s', base, out) && forall r :: Points(s', r) == Points(s, r)
    ensures forall dir, v :: IsSpace(s, dir) && 0 <= v < NVPAGES ==> Translate(s', dir, v) == Translate(s, dir, v)
  {
    PointsStable(s, s');
    SeparateStep(s, s', Dir(0));
    AccountsStep(s, s', base, out, out, Dir(0));
    forall e ensures DirOf(s, e) != Some(f) { assert Points(s, Dir(e)) != Some(f); }
    KernelHalfStable(s, s', f);
    forall dir, v | IsSpace(s, dir) && 0 <= v < NVPAGES ensures Translate(s', dir, v) == Translate(s, dir, v) {
      TranslateStable(s, s', f, dir, v);
    }
  }

  /** The frame that a user store reaches is the data frame the tables name, never one with a boot-time use. */
  lemma StoreTarget(s: State, base: seq<nat>, out: set<nat>, e: nat, v: nat)
    requires Inv(s, base, out) && DirOf(s, e) == Some(s.cr3) && Coherent(s) && v / 1024 < UTOPX
    ensures Target(Access(s, v)) == Points(s, PteAt(e, v))
    ensures Points(s, PteAt(e, v)).Some? ==>
      var f := Points(s, PteAt(e, v)).value;
      f < |s.mem| && f != s.kdir && f !in s.free && base[f] == 0 && forall r: Ref :: r.IsTable() ==> Points(s, r) != Some(f)
  {
    UserTranslation(s, e, v);
    if Points(s, PteAt(e, v)).Some? {
      Named(s, base, out, PteAt(e, v), Points(s, PteAt(e, v)).value);
    }
  }

  /** What a user store leaves alone: everything but one data frame and the TLB. */
  ghost predicate Stored(s: State, s': State, base: seq<nat>, out: set<nat>, f: nat) {
    && Inv(s', base, out) && Coherent(s')
    && s'.refs == s.refs && s'.free == s.free && s'.kdir == s.kdir && s'.dirs == s.dirs && s'.cr3 == s.cr3
    && |s'.mem| == |s.mem| && (forall g :: 0 <= g < |s.mem| && g != f ==> s'.mem[g] == s.mem[g])
    && (forall r :: Points(s', r) == Points(s, r))
    && (forall dir, v :: IsSpace(s, dir) && 0 <= v < NVPAGES ==> Translate(s', dir, v) == Translate(s, dir, v))
  }

  lemma StoreInv(s: State, base: seq<nat>, out: set<nat>, e: nat, va: nat, b: Byte)
    requires Inv(s, base, out) && DirOf(s, e) == Some(s.cr3) && Coherent(s) && va / 4096 / 1024 < UTOPX
    ensures StoreByte(s, va, b).Some? <==> Points(s, PteAt(e, va / 4096)).Some?
    ensures StoreByte(s, va, b).Some? ==>
      var f := Points(s, PteAt(e, va / 4096)).value;
      f < |base| && base[f] == 0 && Stored(s, StoreByte(s, va, b).value, base, out, f)
  {
    StoreTarget(s, base, out, e, va / 4096);
    if Points(s, PteAt(e, va / 4096)).Some? {
      var f := Points(s, PteAt(e, va / 4096)).value;
      var s' := StoreByte(s, va, b).value;
      DataWrite(s, s', base, out, f);
      assert IsSpace(s, s.cr3);
      assert va / 4096 < NVPAGES;
      UserTranslation(s, e, va / 4096);
      forall v | v in s'.tlb
        ensures v < NVPAGES && Translate(s', s'.cr3, v).Some? && FrameOf(Translate(s', s'.cr3, v).value) == FrameOf(s'.tlb[v])
      {
        assert v != va / 4096 ==> v in s.tlb;
        assert Translate(s', s.cr3, v) == Translate(s, s.cr3, v);
      }
    }
  }

  /** No page of environment e is shared, within it or with any other. */
  ghost predicate Exclusive(s: State, e: nat) {
    forall r: Ref, q: Ref :: r.Pte? && r.e == e && Points(s, r).Some? && Points(s, r) == Points(s, q) ==> r == q
  }

  lemma ReadUser(s: State, e: nat, va: nat)
    requires Shape(s) && Separate(s) && KernelHalf(s) && DirOf(s, e).Some? && va / 4096 / 1024 < UTOPX
    ensures Points(s, PteAt(e, va / 4096)) == None ==> ReadByte(s, DirOf(s, e).value, va) == None
    ensures Points(s, PteAt(e, va / 4096)).Some? ==>
      && Points(s, PteAt(e, va / 4096)).value < |s.mem|
      && ReadByte(s, DirOf(s, e).value, va) == Some(GetByte(s.mem[Points(s, PteAt(e, va / 4096)).value][va % 4096 / 4], va % 4))
  {
    UserTranslation(s, e, va / 4096);
    assert Points(s, PteAt(e, va / 4096)).Some? ==> Points(s, PteAt(e, va / 4096)).value < |s.mem|;
  }

  lemma PutInFrame(row: seq<Word>, va: nat, b: Byte, x: nat)
    requires |row| == 1024 && x / 4096 == va / 4096
    ensures var row': seq<Word> := row[va % 4096 / 4 := PutByte(row[va % 4096 / 4], va % 4, b)];
      GetByte(row'[x % 4096 / 4], x % 4) == if x == va then b else GetByte(row[x % 4096 / 4], x % 4)
  {
    var i, j := va % 4096, x % 4096;
    assert va % 4 == i % 4 && x % 4 == j % 4 && (x == va <==> i == j);
    assert i == j <==> i / 4 == j / 4 && i % 4 == j % 4;
    GetPut(row[i / 4], i % 4, j % 4, b);
  }

  /** A store to va is read back at va, and changes no other user byte of the environment. */
  lemma StoreRead(s: State, base: seq<nat>, out: set<nat>, e: nat, va: nat, b: Byte, x: nat)
    requires Inv(s, base, out) && DirOf(s, e) == Some(s.cr3) && Coherent(s) && va / 4096 / 1024 < UTOPX
    requires Exclusive(s, e) && StoreByte(s, va, b).Some? && x / 4096 / 1024 < UTOPX
    ensures ReadByte(StoreByte(s, va, b).value, s.cr3, x) == if x == va then Some(b) else ReadByte(s, s.cr3, x)
  {
    var s' := StoreByte(s, va, b).value;
    var f := Points(s, PteAt(e, va / 4096));
    assert Stored(s, s', base, out, f.value) && f.Some? by { StoreInv(s, base, out, e, va, b); }
    assert Target(Access(s, va / 4096)) == f by { StoreTarget(s, base, out, e, va / 4096); }
    ReadUser(s, e, x);
    ReadUser(s', e, x);
    var g := Points(s, PteAt(e, x / 4096));
    assert Points(s', PteAt(e, x / 4096)) == g;
    if x / 4096 == va / 4096 {
      PutInFrame(s.mem[f.value], va, b, x);
    } else if g.Some? {
      assert PteAt(e, x / 4096) != PteAt(e, va / 4096);
      assert g != f;
    }
  }

  // --------------------------------------------- growing and filling an image

  /** The state in which load_icode works on environment e. */
  ghost predicate Loading(s: State, base: seq<nat>, out: set<nat>, e: nat) {
    Inv(s, base, out) && DirOf(s, e) == Some(s.cr3) && Coherent(s)
  }

  /** Only environment e was touched. */
  ghost predicate OnlyEnv(s: State, s': State, base: seq<nat>, e: nat) {
    && s'.dirs == s.dirs && s'.kdir == s.kdir && s'.cr3 == s.cr3
    && Isolated(s, s', base, e)
  }

  /** page_insert for e is invisible to everybody else. */
  lemma InsertIsolated(s: State, base: seq<nat>, out: set<nat>, e: nat, pp: nat, v: nat, perm: nat)
    requires Inv(s, base, out) && InsertArgs(s, e, pp, v, perm)
    ensures Insertable(s, DirOf(s, e).value, pp, v, perm)
    ensures Insert(s, DirOf(s, e).value, pp, v, perm).Some? ==> Isolated(s, Insert(s, DirOf(s, e).value, pp, v, perm).value, base, e)
  {
    hide Inv, Insertable, Insert, Outside;
    InsertPoints(s, base, out, e, pp, v, perm);
    if Insert(s, DirOf(s, e).value, pp, v, perm).Some? {
      var s' := Insert(s, DirOf(s, e).value, pp, v, perm).value;
      SameFrames(s, base, out, e, pp, v, perm);
      forall f: nat | f < |s.mem| && Outside(s, base, e, f) ensures s'.mem[f] == s.mem[f] {
        OutsideFrame(s, base, out, e, f, v / 1024);
        InsertMem(s, base, out, e, pp, v, perm, f);
      }
      OutsideIsolated(s, s', base, out, e);
    }
  }

  /** A frame that is none of e's business: it has a boot-time use, or somebody else names it. */
  ghost predicate Outside(s: State, base: seq<nat>, e: nat, f: nat) {
    f < |s.mem| && ((f < |base| && base[f] > 0) || exists r: Ref :: !Owns(e, r) && Points(s, r) == Some(f))
  }

  lemma OutsideIsolated(s: State, s': State, base: seq<nat>, out: set<nat>, e: nat)
    requires s'.kdir == s.kdir && |s'.mem| == |s.mem| && forall r: Ref :: !Owns(e, r) ==> Points(s', r) == Points(s, r)
    requires forall f: nat :: f < |s.mem| && Outside(s, base, e, f) ==> s'.mem[f] == s.mem[f]
    ensures Isolated(s, s', base, e)
  {
    forall r: Ref | !Owns(e, r) && Points(s, r).Some? && Points(s, r).value < |s.mem| ensures s'.mem[Points(s, r).value] == s.mem[Points(s, r).value] {
      assert Outside(s, base, e, Points(s, r).value);
    }
    forall f: nat | f < |s.mem| && f < |base| && base[f] > 0 ensures s'.mem[f] == s.mem[f] {
      assert Outside(s, base, e, f);
    }
  }

  lemma SameFrames(s: State, base: seq<nat>, out: set<nat>, e: nat, pp: nat, v: nat, perm: nat)
    requires Inv(s, base, out) && InsertArgs(s, e, pp, v, perm) && Insertable(s, DirOf(s, e).value, pp, v, perm)
    requires Insert(s, DirOf(s, e).value, pp, v, perm).Some?
    ensures |Insert(s, DirOf(s, e).value, pp, v, perm).value.mem| == |s.mem|
  {
    hide Accounts;
    KernelFrame(s, base, out, e, v / 1024);
    InsertMem(s, base, out, e, pp, v, perm, s.kdir);
  }

  lemma KernelFrame(s: State, base: seq<nat>, out: set<nat>, e: nat, d: nat)
    requires Inv(s, base, out)
    ensures s.kdir < |s.mem| && s.kdir !in s.free && Some(s.kdir) != DirOf(s, e) && Some(s.kdir) != TableOf(s, e, d)
  {
    assert s.refs[s.kdir] == base[s.kdir] + Count(s, s.kdir);
    assert Points(s, Dir(e)) == DirOf(s, e) && Points(s, Pde(e, d)) == TableOf(s, e, d);
  }

  lemma OutsideFrame(s: State, base: seq<nat>, out: set<nat>, e: nat, f: nat, d: nat)
    requires Inv(s, base, out) && Outside(s, base, e, f)
    ensures f < |s.mem| && f !in s.free && Some(f) != DirOf(s, e) && Some(f) != TableOf(s, e, d)
  {
    hide KernelHalf;
    assert Points(s, Dir(e)) == DirOf(s, e) && Points(s, Pde(e, d)) == TableOf(s, e, d);
    if f < |base| && base[f] > 0 {
      assert s.refs[f] == base[f] + Count(s, f);
    } else {
      var r: Ref :| !Owns(e, r) && Points(s, r) == Some(f);
      Named(s, base, out, r, f);
    }
  }

  lemma RegionPageIsolated(s: State, base: seq<nat>, out: set<nat>, e: nat, v: nat)
    requires Inv(s, base, out) && DirOf(s, e).Some? && v / 1024 < UTOPX && RegionPage(s, DirOf(s, e).value, v).Some?
    ensures Isolated(s, RegionPage(s, DirOf(s, e).value, v).value, base, e)
  {
    hide Inv, RegionPage, Outside;
    var s' := RegionPage(s, DirOf(s, e).value, v).value;
    RegionPageInv(s, base, out, e, v);
    forall f: nat | f < |s.mem| && Outside(s, base, e, f) ensures s'.mem[f] == s.mem[f] {
      OutsideFrame(s, base, out, e, f, v / 1024);
      assert Points(s, Dir(e)) == DirOf(s, e) && Points(s, Pde(e, v / 1024)) == TableOf(s, e, v / 1024);
      RegionPageFrame(s, s', base, out, e, v, f);
    }
    OutsideIsolated(s, s', base, out, e);
  }

  lemma RegionPageCoherent(s: State, base: seq<nat>, out: set<nat>, e: nat, v: nat)
    requires Loading(s, base, out, e) && v / 1024 < UTOPX
    ensures RegionPage(s, s.cr3, v).Some? ==> Coherent(RegionPage(s, s.cr3, v).value)
  {
    if RegionPage(s, s.cr3, v).Some? {
      var p, s1 := s.free[0], Alloc(s, false);
      FreshIsData(s, base, out);
      forall u | u in s1.tlb ensures Translate(s1, s1.cr3, u) == Translate(s, s.cr3, u) {
        TranslateSame(s, s1, s.cr3, u);
      }
      assert DirOf(s1, e) == Some(s1.cr3);
      InsertCoherent(s1, base, out + {p}, e, p, v, PTE_W + PTE_U + PTE_P);
    }
  }

  lemma RegionPageLoading(s: State, base: seq<nat>, out: set<nat>, e: nat, v: nat)
    requires Loading(s, base, out, e) && v / 1024 < UTOPX
    ensures RegionPage(s, s.cr3, v).Some? ==>
      Loading(RegionPage(s, s.cr3, v).value, base, out, e) && OnlyEnv(s, RegionPage(s, s.cr3, v).value, base, e)
  {
    hide Inv, Coherent, RegionPage;
    RegionPageCoherent(s, base, out, e, v);
    if RegionPage(s, s.cr3, v).Some? {
      RegionPageInv(s, base, out, e, v);
      RegionPageIsolated(s, base, out, e, v);
      assert PageAdded(s, RegionPage(s, s.cr3, v).value, base, out, e, v);
    }
  }

  /** A fresh page at an unmapped v: readable there, and no other byte of e changes. */
  lemma RegionPageReads(s: State, base: seq<nat>, out: set<nat>, e: nat, v: nat, x: nat)
    requires Loading(s, base, out, e) && v / 1024 < UTOPX && x < UTOP
    requires RegionPage(s, s.cr3, v).Some?
    ensures var s' := RegionPage(s, s.cr3, v).value;
      if x / 4096 == v then ReadByte(s', s.cr3, x).Some? else ReadByte(s', s.cr3, x) == ReadByte(s, s.cr3, x)
  {
    var s' := RegionPage(s, s.cr3, v).value;
    RegionPageInv(s, base, out, e, v);
    ReadUser(s, e, x);
    ReadUser(s', e, x);
    if x / 4096 != v {
      var r := PteAt(e, x / 4096);
      assert r != PteAt(e, v);
      assert Points(s', r) == Points(s, r);
      if Points(s, r).Some? {
        Named(s, base, out, r, Points(s, r).value);
      }
    }
  }

  lemma RegionPageExclusive(s: State, s': State, base: seq<nat>, out: set<nat>, e: nat, v: nat)
    requires Shape(s) && Separate(s) && PageAdded(s, s', base, out, e, v) && v / 1024 < UTOPX && Exclusive(s, e)
    ensures Exclusive(s', e)
  {
    forall r: Ref, q: Ref | r.Pte? && r.e == e && Points(s', r).Some? && Points(s', r) == Points(s', q)
      ensures r == q
    {
      if q.IsTable() {
        assert Points(s', q).Some?;
      } else if r != PteAt(e, v) && q != PteAt(e, v) {
        assert Points(s, r) == Points(s, q);
      }
    }
  }

  /** Pages lo..hi of e have appeared; every other byte of e reads as before. */
  ghost predicate Grown(s: State, s': State, base: seq<nat>, out: set<nat>, e: nat, lo: nat, hi: nat) {
    && Loading(s', base, out, e) && OnlyEnv(s, s', base, e) && Exclusive(s', e)
    && (forall x :: 0 <= x < UTOP ==>
         if lo <= x / 4096 < hi then ReadByte(s', s.cr3, x).Some? else ReadByte(s', s.cr3, x) == ReadByte(s, s.cr3, x))
  }

  lemma GrownNothing(s: State, base: seq<nat>, out: set<nat>, e: nat, v: nat)
    requires Loading(s, base, out, e) && Exclusive(s, e)
    ensures Grown(s, s, base, out, e, v, v)
  {
  }

  lemma FilledNothing(s: State, base: seq<nat>, out: set<nat>, e: nat, va: nat)
    requires Loading(s, base, out, e) && Exclusive(s, e)
    ensures Filled(s, s, base, out, e, va, [])
  {
  }

  lemma {:induction false} RegionGrows(s: State, base: seq<nat>, out: set<nat>, e: nat, v: nat, n: nat)
    requires Loading(s, base, out, e) && Exclusive(s, e) && v + n <= UTOPX * 1024
    ensures RegionPages(s, s.cr3, v, n).Some? ==> Grown(s, RegionPages(s, s.cr3, v, n).value, base, out, e, v, v + n)
  {
    hide Grown, Inv, RegionPage;
    if n == 0 {
      GrownNothing(s, base, out, e, v);
    } else if RegionPages(s, s.cr3, v, n).Some? {
      RegionGrows(s, base, out, e, v, n - 1);
      var s1, s' := RegionPages(s, s.cr3, v, n - 1).value, RegionPages(s, s.cr3, v, n).value;
      RegionStep(s, s1, s', base, out, e, v, n);
    }
  }

  lemma RegionStep(s: State, s1: State, s': State, base: seq<nat>, out: set<nat>, e: nat, v: nat, n: nat)
    requires n > 0 && v + n <= UTOPX * 1024
    requires Grown(s, s1, base, out, e, v, v + n - 1) && RegionPage(s1, s.cr3, v + n - 1) == Some(s')
    ensures Grown(s, s', base, out, e, v, v + n)
  {
    hide RegionPage, ReadByte, Accounts, KernelHalf;
    RegionPageLoading(s1, base, out, e, v + n - 1);
    assert Exclusive(s', e) by {
      RegionPageInv(s1, base, out, e, v + n - 1);
      RegionPageExclusive(s1, s', base, out, e, v + n - 1);
    }
    forall x | 0 <= x < UTOP
      ensures if v <= x / 4096 < v + n then ReadByte(s', s.cr3, x).Some? else ReadByte(s', s.cr3, x) == ReadByte(s, s.cr3, x)
    {
      RegionPageReads(s1, base, out, e, v + n - 1, x);
    }
  }

  // ------------------------------------------------------- memcpy and memset

  /** The copying loops of load_icode, byte by byte from the front. */
  function StoreBytes(s: State, va: nat, data: seq<Byte>): Option<State> {
    if data == [] then Some(s)
    else
      match StoreBytes(s, va, data[..|data| - 1])
      case None => None
      case Some(s1) => StoreByte(s1, va + |data| - 1, data[|data| - 1])
  }

  /** The bytes of e at va.. are now data; every other byte of e reads as before. */
  ghost predicate Filled(s: State, s': State, base: seq<nat>, out: set<nat>, e: nat, va: nat, data: seq<Byte>) {
    && Loading(s', base, out, e) && OnlyEnv(s, s', base, e) && Exclusive(s', e)
    && (forall x :: 0 <= x < UTOP ==>
         ReadByte(s', s.cr3, x) == if va <= x < va + |data| then Some(data[x - va]) else ReadByte(s, s.cr3, x))
  }

  lemma StoreLoading(s: State, base: seq<nat>, out: set<nat>, e: nat, va: nat, b: Byte)
    requires Loading(s, base, out, e) && Exclusive(s, e) && va < UTOP
    ensures StoreByte(s, va, b).Some? <==> ReadByte(s, s.cr3, va).Some?
    ensures StoreByte(s, va, b).Some? ==>
      var s' := StoreByte(s, va, b).value;
      Loading(s', base, out, e) && OnlyEnv(s, s', base, e) && Exclusive(s', e)
  {
    StoreInv(s, base, out, e, va, b);
    ReadUser(s, e, va);
    if StoreByte(s, va, b).Some? {
      var s' := StoreByte(s, va, b).value;
      forall r: Ref, q: Ref | r.Pte? && r.e == e && Points(s', r).Some? && Points(s', r) == Points(s', q)
        ensures r == q
      {
        assert Points(s, r) == Points(s, q);
      }
    }
  }

  lemma StoreReads(s: State, s1: State, base: seq<nat>, out: set<nat>, e: nat, va: nat, data: seq<Byte>)
    requires data != [] && va + |data| <= UTOP
    requires Filled(s, s1, base, out, e, va, data[..|data| - 1])
    requires StoreByte(s1, va + |data| - 1, data[|data| - 1]).Some?
    ensures var s' := StoreByte(s1, va + |data| - 1, data[|data| - 1]).value;
      forall x :: 0 <= x < UTOP ==>
        ReadByte(s', s.cr3, x) == if va <= x < va + |data| then Some(data[x - va]) else ReadByte(s, s.cr3, x)
  {
    hide Inv, Coherent, Exclusive, Isolated, ReadByte, StoreByte;
    var s' := StoreByte(s1, va + |data| - 1, data[|data| - 1]).value;
    forall x | 0 <= x < UTOP
      ensures ReadByte(s', s.cr3, x) == if va <= x < va + |data| then Some(data[x - va]) else ReadByte(s, s.cr3, x)
    {
      StoreRead(s1, base, out, e, va + |data| - 1, data[|data| - 1], x);
    }
  }

  lemma OnlyEnvTwice(s: State, s1: State, s': State, base: seq<nat>, e: nat)
    requires OnlyEnv(s, s1, base, e) && OnlyEnv(s1, s', base, e)
    ensures OnlyEnv(s, s', base, e)
  {
    IsolatedTwice(s, s1, s', base, e);
  }

  lemma StoreStep(s: State, s1: State, base: seq<nat>, out: set<nat>, e: nat, va: nat, data: seq<Byte>)
    requires data != [] && va + |data| <= UTOP
    requires Filled(s, s1, base, out, e, va, data[..|data| - 1])
    ensures StoreByte(s1, va + |data| - 1, data[|data| - 1]).Some? <==> ReadByte(s1, s1.cr3, va + |data| - 1).Some?
    ensures StoreByte(s1, va + |data| - 1, data[|data| - 1]).Some? ==>
      Filled(s, StoreByte(s1, va + |data| - 1, data[|data| - 1]).value, base, out, e, va, data)
  {
    hide Inv, Exclusive, Coherent, ReadByte;
    StoreLoading(s1, base, out, e, va + |data| - 1, data[|data| - 1]);
    if StoreByte(s1, va + |data| - 1, data[|data| - 1]).Some? {
      StoreReads(s, s1, base, out, e, va, data);
      OnlyEnvTwice(s, s1, StoreByte(s1, va + |data| - 1, data[|data| - 1]).value, base, e);
    }
  }

  ghost predicate Readable(s: State, lo: nat, hi: nat) {
    forall x :: lo <= x < hi ==> ReadByte(s, s.cr3, x).Some?
  }

  lemma ReadableMore(s: State, lo: nat, hi: nat)
    requires lo < hi
    ensures Readable(s, lo, hi) <==> Readable(s, lo, hi - 1) && ReadByte(s, s.cr3, hi - 1).Some?
  {
  }

  lemma StoreBytesLast(s: State, base: seq<nat>, out: set<nat>, e: nat, va: nat, data: seq<Byte>)
    requires data != [] && va + |data| <= UTOP
    requires StoreBytes(s, va, data[..|data| - 1]).Some?
    requires Filled(s, StoreBytes(s, va, data[..|data| - 1]).value, base, out, e, va, data[..|data| - 1])
    ensures StoreBytes(s, va, data).Some? <==> ReadByte(s, s.cr3, va + |data| - 1).Some?
    ensures StoreBytes(s, va, data).Some? ==> Filled(s, StoreBytes(s, va, data).value, base, out, e, va, data)
  {
    var s1 := StoreBytes(s, va, data[..|data| - 1]).value;
    assert ReadByte(s1, s.cr3, va + |data| - 1) == ReadByte(s, s.cr3, va + |data| - 1);
    StoreStep(s, s1, base, out, e, va, data);
  }

  lemma {:induction false} StoreBytesFill(s: State, base: seq<nat>, out: set<nat>, e: nat, va: nat, data: seq<Byte>)
    requires Loading(s, base, out, e) && Exclusive(s, e) && va + |data| <= UTOP
    ensures StoreBytes(s, va, data).Some? <==> Readable(s, va, va + |data|)
    ensures StoreBytes(s, va, data).Some? ==> Filled(s, StoreBytes(s, va, data).value, base, out, e, va, data)
  {
    hide Inv, Filled, StoreByte, ReadByte;
    if data == [] {
      FilledNothing(s, base, out, e, va);
    } else {
      StoreBytesFill(s, base, out, e, va, data[..|data| - 1]);
      ReadableMore(s, va, va + |data|);
      if StoreBytes(s, va, data[..|data| - 1]).Some? {
        StoreBytesLast(s, base, out, e, va, data);
      }
    }
  }

  lemma RegionPageSucceeds(s: State, s1: State, base: seq<nat>, out: set<nat>, e: nat, v: nat, n: nat)
    requires Grown(s, s1, base, out, e, v, v + n) && v + n < UTOPX * 1024 && |s1.free| >= 2
    ensures RegionPage(s1, s.cr3, v + n).Some? && |RegionPage(s1, s.cr3, v + n).value.free| + 2 >= |s1.free|
  {
    hide Inv, Coherent, Exclusive, Isolated, ReadByte, RegionPage, PageAdded;
    RegionPageInv(s1, base, out, e, v + n);
    RegionPageCost(s1, s.cr3, v + n);
  }

  lemma {:induction false} RegionSucceeds(s: State, base: seq<nat>, out: set<nat>, e: nat, v: nat, n: nat)
    requires Loading(s, base, out, e) && Exclusive(s, e) && v + n <= UTOPX * 1024 && |s.free| >= 2 * n
    ensures RegionPages(s, s.cr3, v, n).Some? && |RegionPages(s, s.cr3, v, n).value.free| + 2 * n >= |s.free|
  {
    hide Grown, Inv, RegionPage;
    if n > 0 {
      RegionSucceeds(s, base, out, e, v, n - 1);
      RegionGrows(s, base, out, e, v, n - 1);
      RegionPageSucceeds(s, RegionPages(s, s.cr3, v, n - 1).value, base, out, e, v, n - 1);
    }
  }

  lemma {:induction false} StoreBytesKeepsFree(s: State, va: nat, data: seq<Byte>)
    requires StoreBytes(s, va, data).Some?
    ensures StoreBytes(s, va, data).value.free == s.free
  {
    if data != [] { StoreBytesKeepsFree(s, va, data[..|data| - 1]); }
  }

  /**
    region_alloc makes all of [va, va+len) accessible in a fresh address space
    exactly when rounding the length alone does not fall short of the last page.
  */
  lemma RegionCoversIff(s: State, base: seq<nat>, out: set<nat>, e: nat, va: Word, len: Word)
    requires Loading(s, base, out, e) && Exclusive(s, e) && 0 < len && va + len <= UTOP
    requires forall x :: 0 <= x < UTOP ==> ReadByte(s, s.cr3, x) == None
    requires RegionAlloc(s, s.cr3, va, len).Some?
    ensures Readable(RegionAlloc(s, s.cr3, va, len).value, va, va + len) <==> va % 4096 + len <= (len + 4095) / 4096 * 4096
  {
    hide ReadByte, RegionAlloc;
    var n := (len + 4095) / 4096;
    assert (n - 1) * 4096 < len <= n * 4096 && va / 4096 + n <= UTOPX * 1024;
    RegionMapsExactly(s, base, out, e, va, len, n);
    var s' := RegionAlloc(s, s.cr3, va, len).value;
    assert s'.cr3 == s.cr3;
    var last := va + len - 1;
    assert last / 4096 < va / 4096 + n <==> va % 4096 + len <= n * 4096;
    assert Readable(s', va, va + len) ==> ReadByte(s', s'.cr3, last).Some?;
    if last / 4096 < va / 4096 + n {
      forall x | va <= x < va + len ensures ReadByte(s', s'.cr3, x).Some? {
        assert va / 4096 <= x / 4096 <= last / 4096;
      }
    }
  }

  /**
    What region_alloc maps in an empty address space, in numbers: exactly the n pages from
    the one of va on, n being the least number of pages that hold len bytes. Of an aligned
    region every byte is accessible.
  */
  lemma RegionMapsExactly(s: State, base: seq<nat>, out: set<nat>, e: nat, va: Word, len: Word, n: nat)
    requires Loading(s, base, out, e) && Exclusive(s, e)
    requires 0 < len <= 0xFFFF_F000 && (n - 1) * 4096 < len <= n * 4096 && va / 4096 + n <= 0xE_EC00
    requires forall x :: 0 <= x < UTOP ==> ReadByte(s, s.cr3, x) == None
    requires RegionAlloc(s, s.cr3, va, len).Some?
    ensures RegionAlloc(s, s.cr3, va, len).value.cr3 == s.cr3
    ensures forall x :: 0 <= x < UTOP ==>
      (ReadByte(RegionAlloc(s, s.cr3, va, len).value, s.cr3, x).Some? <==> va / 4096 <= x / 4096 < va / 4096 + n)
    ensures va % 4096 == 0 ==> Readable(RegionAlloc(s, s.cr3, va, len).value, va, va + len)
  {
    hide ReadByte, RegionPages, Isolated, Inv, Coherent, Exclusive;
    PageCountNumbers(len);
    assert PageCount(len) == n;
    RegionGrows(s, base, out, e, PGNUM(va), n);
    var s' := RegionAlloc(s, s.cr3, va, len).value;
    if va % 4096 == 0 {
      forall x | va <= x < va + len ensures ReadByte(s', s'.cr3, x).Some? {
        assert va / 4096 <= x / 4096 < va / 4096 + n && x < UTOP;
      }
    }
  }

  /** For the lengths whose rounding wraps, and for 0, it maps nothing. */
  lemma RegionWraps(s: State, dir: nat, va: Word, len: Word)
    requires len == 0 || len > 0xFFFF_F000
    ensures RegionAlloc(s, dir, va, len) == Some(s)
  {
    PageCountNumbers(len);
  }

  // -------------------------------------------------------------- the ELF image

  const ELF_MAGIC := 0x464C_457F
  const ELF_PROG_LOAD := 1

  function ByteAt(image: seq<Byte>, i: nat): Byte {
    if i < |image| then image[i] else 0
  }

  function U16(image: seq<Byte>, o: nat): nat { ByteAt(image, o) + 0x100 * ByteAt(image, o + 1) }

  function U32(image: seq<Byte>, o: nat): Word {
    Join(ByteAt(image, o), ByteAt(image, o + 1), ByteAt(image, o + 2), ByteAt(image, o + 3))
  }

  /** The fields of a program header that load_icode reads. */
  datatype Proghdr = Proghdr(kind: Word, offset: Word, va: Word, filesz: Word, memsz: Word)

  function Header(image: seq<Byte>, i: nat): Proghdr {
    var o := U32(image, 28) + 32 * i;
    Proghdr(U32(image, o), U32(image, o + 4), U32(image, o + 8), U32(image, o + 16), U32(image, o + 20))
  }

  function HeaderCount(image: seq<Byte>): nat { U16(image, 44) }

  function Slice(image: seq<Byte>, o: nat, n: nat): (r: seq<Byte>)
    ensures |r| == n && forall i :: 0 <= i < n ==> r[i] == ByteAt(image, o + i)
  {
    seq<Byte>(n, i requires 0 <= i => ByteAt(image, o + i))
  }

  function Zeros(n: nat): (r: seq<Byte>)
    ensures |r| == n && forall i :: 0 <= i < n ==> r[i] == 0
  {
    seq(n, _ => 0 as Byte)
  }

  // -------------------------------------------------------------- load_icode

  /** The body of the loop of load_icode for one header. */
  ghost function LoadSegment(s: State, dir: nat, image: seq<Byte>, ph: Proghdr): Option<State> {
    if ph.kind != ELF_PROG_LOAD then Some(s)
    else if ph.filesz > ph.memsz then None
    else
      match RegionAlloc(s, dir, ph.va, ph.memsz)
      case None => None
      case Some(s1) =>
        match StoreBytes(s1, ph.va, Slice(image, ph.offset, ph.filesz))
        case None => None
        case Some(s2) => StoreBytes(s2, ph.va + ph.filesz, Zeros(ph.memsz - ph.filesz))
  }

  ghost function LoadSegments(s: State, dir: nat, image: seq<Byte>, k: nat): Option<State> {
    if k == 0 then Some(s)
    else
      match LoadSegments(s, dir, image, k - 1)
      case None => None
      case Some(s1) => LoadSegment(s1, dir, image, Header(image, k - 1))
  }

  /** load_icode into directory dir; None is a panic or a page fault. */
  ghost function LoadIcode(s: State, dir: nat, image: seq<Byte>): Option<State> {
    if U32(image, 0) != ELF_MAGIC then None
    else
      match LoadSegments(LoadCr3(s, dir), dir, image, HeaderCount(image))
      case None => None
      case Some(s1) =>
        match RegionAlloc(s1, dir, USTACKTOP - PGSIZE, PGSIZE)
        case None => None
        case Some(s2) => Some(LoadCr3(s2, s2.kdir))
  }

  // ------------------------------------------------ what load_icode establishes

  /** A loadable segment lies below UTOP and is no longer in the file than in memory. */
  predicate UserSegment(ph: Proghdr) {
    ph.kind == ELF_PROG_LOAD ==> ph.va + ph.memsz <= UTOP
  }

  predicate InPages(ph: Proghdr, x: nat) {
    ph.va / 4096 <= x / 4096 < ph.va / 4096 + (ph.memsz + 4095) / 4096
  }

  predicate InSegment(ph: Proghdr, x: nat) {
    ph.kind == ELF_PROG_LOAD && ph.va <= x < ph.va + ph.memsz
  }

  /** The byte that the image prescribes at offset i of a segment. */
  function SegmentByte(image: seq<Byte>, ph: Proghdr, i: nat): Byte {
    if i < ph.filesz then ByteAt(image, ph.offset + i) else 0
  }

  lemma PagesBelowTop(va: Word, len: Word)
    requires va + len <= UTOP
    ensures PageCount(len) == PagesFor(len) && PGNUM(va) + PageCount(len) <= UTOPX * 1024
  {
    assert (len + 4095) % 0x1_0000_0000 == len + 4095;
  }

  /** One segment is in place; bytes outside its pages are as before. */
  ghost predicate SegmentDone(s: State, s': State, base: seq<nat>, out: set<nat>, e: nat, image: seq<Byte>, ph: Proghdr) {
    && Loading(s', base, out, e) && OnlyEnv(s, s', base, e) && Exclusive(s', e)
    && (forall x :: 0 <= x < UTOP ==>
         if ph.va <= x < ph.va + ph.memsz then ReadByte(s', s.cr3, x) == Some(SegmentByte(image, ph, x - ph.va))
         else !InPages(ph, x) ==> ReadByte(s', s.cr3, x) == ReadByte(s, s.cr3, x))
  }

  lemma SegmentLoads(s: State, base: seq<nat>, out: set<nat>, e: nat, image: seq<Byte>, ph: Proghdr)
    requires Loading(s, base, out, e) && Exclusive(s, e) && UserSegment(ph) && ph.kind == ELF_PROG_LOAD
    ensures LoadSegment(s, s.cr3, image, ph).Some? ==>
      SegmentDone(s, LoadSegment(s, s.cr3, image, ph).value, base, out, e, image, ph)
  {
    hide Inv, Exclusive, Coherent, ReadByte, RegionPages, StoreBytes;
    if LoadSegment(s, s.cr3, image, ph).Some? {
      PagesBelowTop(ph.va, ph.memsz);
      RegionGrows(s, base, out, e, PGNUM(ph.va), PageCount(ph.memsz));
      var s1 := RegionAlloc(s, s.cr3, ph.va, ph.memsz).value;
      var data, zeros := Slice(image, ph.offset, ph.filesz), Zeros(ph.memsz - ph.filesz);
      StoreBytesFill(s1, base, out, e, ph.va, data);
      var s2 := StoreBytes(s1, ph.va, data).value;
      StoreBytesFill(s2, base, out, e, ph.va + ph.filesz, zeros);
      var s' := StoreBytes(s2, ph.va + ph.filesz, zeros).value;
      OnlyEnvTwice(s, s1, s2, base, e);
      OnlyEnvTwice(s, s2, s', base, e);
    }
  }

  /** Segments below index k of the image are in place. */
  ghost predicate SegmentsDone(s: State, s': State, base: seq<nat>, out: set<nat>, e: nat, image: seq<Byte>, k: nat) {
    && Loading(s', base, out, e) && OnlyEnv(s, s', base, e) && Exclusive(s', e)
    && (forall i: nat, x: nat :: i < k && InSegment(Header(image, i), x) ==>
          ReadByte(s', s.cr3, x) == Some(SegmentByte(image, Header(image, i), x - Header(image, i).va)))
  }

  ghost predicate UserImage(image: seq<Byte>) {
    forall i :: 0 <= i < HeaderCount(image) ==> UserSegment(Header(image, i))
  }

  predicate Loads(image: seq<Byte>, i: nat) {
    i < HeaderCount(image) && Header(image, i).kind == ELF_PROG_LOAD
  }

  predicate Fits(ph: Proghdr) {
    ph.va % 4096 + ph.memsz <= (ph.memsz + 4095) / 4096 * 4096
  }

  /** Distinct segments and the stack share no page, and each segment fits its rounded length. */
  ghost predicate TidyImage(image: seq<Byte>) {
    && UserImage(image)
    && (forall i :: Loads(image, i) ==>
          && Fits(Header(image, i)) && !InPages(Header(image, i), USTACKTOP - PGSIZE))
    && (forall i, j, x :: Loads(image, i) && Loads(image, j) && i != j && InPages(Header(image, i), x) ==> !InPages(Header(image, j), x))
  }

  lemma ByteInPages(ph: Proghdr, x: nat)
    requires Fits(ph) && ph.va <= x < ph.va + ph.memsz
    ensures InPages(ph, x)
  {
    var p := ph.va / 4096;
    assert ph.va == p * 4096 + PGOFF(ph.va);
    assert x < (p + (ph.memsz + 4095) / 4096) * 4096;
  }

  lemma SegmentsStep(s: State, s1: State, s': State, base: seq<nat>, out: set<nat>, e: nat, image: seq<Byte>, k: nat)
    requires TidyImage(image) && 0 < k <= HeaderCount(image)
    requires SegmentsDone(s, s1, base, out, e, image, k - 1)
    requires Header(image, k - 1).kind == ELF_PROG_LOAD && SegmentDone(s1, s', base, out, e, image, Header(image, k - 1))
    ensures SegmentsDone(s, s', base, out, e, image, k)
  {
    hide Inv, Exclusive, Coherent, ReadByte, Header;
    OnlyEnvTwice(s, s1, s', base, e);
    forall i: nat, x: nat | i < k && InSegment(Header(image, i), x)
      ensures ReadByte(s', s.cr3, x) == Some(SegmentByte(image, Header(image, i), x - Header(image, i).va))
    {
      assert Loads(image, i) && Loads(image, k - 1);
      assert UserSegment(Header(image, i));
      ByteInPages(Header(image, i), x);
      if i != k - 1 {
        assert !InPages(Header(image, k - 1), x);
        if Header(image, k - 1).va <= x < Header(image, k - 1).va + Header(image, k - 1).memsz {
          ByteInPages(Header(image, k - 1), x);
          assert false;
        }
      }
    }
  }

  lemma SkipSegment(s: State, image: seq<Byte>, ph: Proghdr)
    ensures ph.kind != ELF_PROG_LOAD ==> LoadSegment(s, s.cr3, image, ph) == Some(s)
  {
  }

  lemma TidyHeader(image: seq<Byte>, i: nat)
    requires TidyImage(image) && i < HeaderCount(image)
    ensures UserSegment(Header(image, i))
    ensures Header(image, i).kind == ELF_PROG_LOAD ==> Fits(Header(image, i))
  {
    assert Header(image, i).kind == ELF_PROG_LOAD ==> Loads(image, i);
  }

  lemma {:induction false} SegmentsLoad(s: State, base: seq<nat>, out: set<nat>, e: nat, image: seq<Byte>, k: nat)
    requires Loading(s, base, out, e) && Exclusive(s, e) && TidyImage(image) && k <= HeaderCount(image)
    ensures LoadSegments(s, s.cr3, image, k).Some? ==>
      SegmentsDone(s, LoadSegments(s, s.cr3, image, k).value, base, out, e, image, k)
  {
    hide Inv, Exclusive, Coherent, ReadByte, LoadSegment, Header, TidyImage;
    if k > 0 && LoadSegments(s, s.cr3, image, k).Some? {
      SegmentsLoad(s, base, out, e, image, k - 1);
      var s1 := LoadSegments(s, s.cr3, image, k - 1).value;
      var ph := Header(image, k - 1);
      TidyHeader(image, k - 1);
      SkipSegment(s1, image, ph);
      if ph.kind == ELF_PROG_LOAD {
        SegmentLoads(s1, base, out, e, image, ph);
        SegmentsStep(s, s1, LoadSegment(s1, s1.cr3, image, ph).value, base, out, e, image, k);
      }
    }
  }

  lemma LoadCr3Keeps(s: State, base: seq<nat>, out: set<nat>, dir: nat)
    requires Inv(s, base, out)
    ensures Inv(LoadCr3(s, dir), base, out) && Coherent(LoadCr3(s, dir))
    ensures forall r :: Points(LoadCr3(s, dir), r) == Points(s, r)
    ensures forall f, x :: ReadByte(LoadCr3(s, dir), f, x) == ReadByte(s, f, x)
  {
    InvSame(s, LoadCr3(s, dir), base, out);
    PointsSame(s, LoadCr3(s, dir));
    forall f: nat, x: nat ensures ReadByte(LoadCr3(s, dir), f, x) == ReadByte(s, f, x) {
      TranslateSame(s, LoadCr3(s, dir), f, x / 4096);
    }
  }

  lemma StartLoading(s: State, base: seq<nat>, out: set<nat>, e: nat)
    requires Inv(s, base, out) && DirOf(s, e).Some? && Exclusive(s, e)
    ensures var s0 := LoadCr3(s, DirOf(s, e).value); Loading(s0, base, out, e) && Exclusive(s0, e)
  {
    var s0 := LoadCr3(s, DirOf(s, e).value);
    LoadCr3Keeps(s, base, out, DirOf(s, e).value);
    forall r: Ref, q: Ref | r.Pte? && r.e == e && Points(s0, r).Some? && Points(s0, r) == Points(s0, q)
      ensures r == q
    {
      assert Points(s, r) == Points(s, q);
    }
  }

  /**
    After load_icode the address space holds the program: at every address of every
    loadable segment, all of them at once, the byte of the file, or zero past the
    part that the file provides; and the stack page is there.
  */
  lemma LoadIcodeReads(s: State, base: seq<nat>, out: set<nat>, e: nat, image: seq<Byte>, i: nat, x: nat)
    requires Inv(s, base, out) && DirOf(s, e).Some? && Exclusive(s, e) && TidyImage(image)
    requires LoadIcode(s, DirOf(s, e).value, image).Some?
    requires i < HeaderCount(image) && InSegment(Header(image, i), x)
    ensures ReadByte(LoadIcode(s, DirOf(s, e).value, image).value, DirOf(s, e).value, x) ==
      Some(SegmentByte(image, Header(image, i), x - Header(image, i).va))
    ensures forall y :: USTACKTOP - PGSIZE <= y < USTACKTOP ==>
      ReadByte(LoadIcode(s, DirOf(s, e).value, image).value, DirOf(s, e).value, y).Some?
  {
    hide Inv, Exclusive, Coherent, ReadByte, LoadSegments, RegionPages, Header;
    var dir := DirOf(s, e).value;
    var s0 := LoadCr3(s, dir);
    StartLoading(s, base, out, e);
    SegmentsLoad(s0, base, out, e, image, HeaderCount(image));
    var s1 := LoadSegments(s0, dir, image, HeaderCount(image)).value;
    var v := PGNUM(USTACKTOP - PGSIZE);
    assert PageCount(PGSIZE) == 1 && v == UTOPX * 1024 - 3;
    RegionGrows(s1, base, out, e, v, 1);
    var s2 := RegionPages(s1, dir, v, 1).value;
    assert Loads(image, i) && UserSegment(Header(image, i));
    ByteInPages(Header(image, i), x);
    assert InPages(Header(image, i), x) && !InPages(Header(image, i), USTACKTOP - PGSIZE);
    assert x / 4096 != v;
    LoadCr3Keeps(s2, base, out, s2.kdir);
  }

  // ---------------------------------------------------- any image below UTOP

  ghost predicate StillLoading(s: State, s': State, base: seq<nat>, out: set<nat>, e: nat) {
    Loading(s', base, out, e) && OnlyEnv(s, s', base, e) && Exclusive(s', e)
  }

  lemma {:induction false} SegmentsKeep(s: State, base: seq<nat>, out: set<nat>, e: nat, image: seq<Byte>, k: nat)
    requires Loading(s, base, out, e) && Exclusive(s, e) && UserImage(image) && k <= HeaderCount(image)
    ensures LoadSegments(s, s.cr3, image, k).Some? ==>
      StillLoading(s, LoadSegments(s, s.cr3, image, k).value, base, out, e)
  {
    hide Inv, Exclusive, Coherent, ReadByte, LoadSegment, Header;
    if k > 0 && LoadSegments(s, s.cr3, image, k).Some? {
      SegmentsKeep(s, base, out, e, image, k - 1);
      var s1 := LoadSegments(s, s.cr3, image, k - 1).value;
      var ph := Header(image, k - 1);
      SkipSegment(s1, image, ph);
      if ph.kind == ELF_PROG_LOAD {
        SegmentLoads(s1, base, out, e, image, ph);
        OnlyEnvTwice(s, s1, LoadSegment(s1, s1.cr3, image, ph).value, base, e);
      }
    }
  }

  /** load_icode of any image below UTOP keeps the invariant and touches only environment e. */
  lemma LoadIcodeInv(s: State, base: seq<nat>, out: set<nat>, e: nat, image: seq<Byte>)
    requires Inv(s, base, out) && DirOf(s, e).Some? && Exclusive(s, e) && UserImage(image)
    requires LoadIcode(s, DirOf(s, e).value, image).Some?
    ensures var s' := LoadIcode(s, DirOf(s, e).value, image).value;
      && Inv(s', base, out) && Coherent(s') && s'.cr3 == s.kdir
      && s'.dirs == s.dirs && s'.kdir == s.kdir && Isolated(s, s', base, e)
  {
    hide Inv, Exclusive, Coherent, ReadByte, LoadSegments, RegionPages, Header;
    var dir := DirOf(s, e).value;
    var s0 := LoadCr3(s, dir);
    StartLoading(s, base, out, e);
    LoadCr3Keeps(s, base, out, dir);
    SegmentsKeep(s0, base, out, e, image, HeaderCount(image));
    var s1 := LoadSegments(s0, dir, image, HeaderCount(image)).value;
    var v := PGNUM(USTACKTOP - PGSIZE);
    assert PageCount(PGSIZE) == 1 && v == UTOPX * 1024 - 3;
    RegionGrows(s1, base, out, e, v, 1);
    var s2 := RegionPages(s1, dir, v, 1).value;
    OnlyEnvTwice(s0, s1, s2, base, e);
    LoadCr3Keeps(s2, base, out, s2.kdir);
  }

  // ------------------------------------------------------- enough memory is enough

  function PagesNeeded(image: seq<Byte>, k: nat): nat {
    if k == 0 then 0
    else PagesNeeded(image, k - 1) + (if Header(image, k - 1).kind == ELF_PROG_LOAD then PagesFor(Header(image, k - 1).memsz) else 0)
  }

  lemma SegmentSucceeds(s: State, base: seq<nat>, out: set<nat>, e: nat, image: seq<Byte>, ph: Proghdr)
    requires Loading(s, base, out, e) && Exclusive(s, e) && UserSegment(ph) && ph.kind == ELF_PROG_LOAD && Fits(ph)
    requires ph.filesz <= ph.memsz && |s.free| >= 2 * PagesFor(ph.memsz)
    ensures LoadSegment(s, s.cr3, image, ph).Some?
    ensures |LoadSegment(s, s.cr3, image, ph).value.free| + 2 * PagesFor(ph.memsz) >= |s.free|
  {
    hide Inv, Exclusive, Coherent, ReadByte, RegionPages, StoreBytes, PageCount;
    PagesBelowTop(ph.va, ph.memsz);
    RegionGrows(s, base, out, e, PGNUM(ph.va), PageCount(ph.memsz));
    RegionSucceeds(s, base, out, e, PGNUM(ph.va), PageCount(ph.memsz));
    var s1 := RegionAlloc(s, s.cr3, ph.va, ph.memsz).value;
    var data, zeros := Slice(image, ph.offset, ph.filesz), Zeros(ph.memsz - ph.filesz);
    forall x | ph.va <= x < ph.va + ph.memsz ensures ReadByte(s1, s1.cr3, x).Some? {
      ByteInPages(ph, x);
    }
    StoreBytesFill(s1, base, out, e, ph.va, data);
    var s2 := StoreBytes(s1, ph.va, data).value;
    forall x | ph.va + ph.filesz <= x < ph.va + ph.memsz ensures ReadByte(s2, s2.cr3, x).Some? {
      assert ReadByte(s2, s1.cr3, x) == ReadByte(s1, s1.cr3, x);
    }
    StoreBytesFill(s2, base, out, e, ph.va + ph.filesz, zeros);
    StoreBytesKeepsFree(s1, ph.va, data);
    StoreBytesKeepsFree(s2, ph.va + ph.filesz, zeros);
  }

  lemma {:induction false} SegmentsSucceed(s: State, base: seq<nat>, out: set<nat>, e: nat, image: seq<Byte>, k: nat)
    requires Loading(s, base, out, e) && Exclusive(s, e) && TidyImage(image) && k <= HeaderCount(image)
    requires forall i :: Loads(image, i) ==> Header(image, i).filesz <= Header(image, i).memsz
    requires |s.free| >= 2 * PagesNeeded(image, k)
    ensures LoadSegments(s, s.cr3, image, k).Some?
    ensures |LoadSegments(s, s.cr3, image, k).value.free| + 2 * PagesNeeded(image, k) >= |s.free|
  {
    hide Inv, Exclusive, Coherent, ReadByte, LoadSegment, Header, TidyImage;
    if k > 0 {
      SegmentsSucceed(s, base, out, e, image, k - 1);
      TidyUser(image);
      SegmentsKeep(s, base, out, e, image, k - 1);
      var s1 := LoadSegments(s, s.cr3, image, k - 1).value;
      var ph := Header(image, k - 1);
      TidyHeader(image, k - 1);
      SkipSegment(s1, image, ph);
      if ph.kind == ELF_PROG_LOAD {
        assert Loads(image, k - 1);
        SegmentSucceeds(s1, base, out, e, image, ph);
      }
    }
  }

  lemma TidyUser(image: seq<Byte>)
    requires TidyImage(image)
    ensures UserImage(image)
  {
  }

  /** A well-formed image loads whenever two frames are free for every page it needs. */
  lemma LoadIcodeSucceeds(s: State, base: seq<nat>, out: set<nat>, e: nat, image: seq<Byte>)
    requires Inv(s, base, out) && DirOf(s, e).Some? && Exclusive(s, e) && TidyImage(image)
    requires U32(image, 0) == ELF_MAGIC
    requires forall i :: Loads(image, i) ==> Header(image, i).filesz <= Header(image, i).memsz
    requires |s.free| >= 2 * (PagesNeeded(image, HeaderCount(image)) + 1)
    ensures LoadIcode(s, DirOf(s, e).value, image).Some?
  {
    hide Inv, Exclusive, Coherent, ReadByte, LoadSegments, RegionPages, Header, TidyImage;
    var dir := DirOf(s, e).value;
    var s0 := LoadCr3(s, dir);
    StartLoading(s, base, out, e);
    SegmentsSucceed(s0, base, out, e, image, HeaderCount(image));
    TidyUser(image);
    SegmentsKeep(s0, base, out, e, image, HeaderCount(image));
    var s1 := LoadSegments(s0, dir, image, HeaderCount(image)).value;
    var v := PGNUM(USTACKTOP - PGSIZE);
    assert PageCount(PGSIZE) == 1 && v == UTOPX * 1024 - 3;
    RegionSucceeds(s1, base, out, e, v, 1);
  }
}
