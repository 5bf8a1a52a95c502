/**
  What the hardware lets a user program do: an access in user mode needs the permission
  bits of both levels of the walk. The kernel half is never open to user stores.
*/
module Protection {
  import opened Mmu
  import opened Vm
  import opened PageOps
  import opened Translation
  import opened Loader

  /** An entry that permits user stores. */
  predicate Open(w: Word) { Writable(w) && ForUser(w) }

  /**
    A store in user mode: the directory entry and the table entry, cached or walked, must
    both permit it; None is a page fault.
  */
  function UserStore(s: State, va: nat, b: Byte): Option<State> {
    match Entry(s, s.cr3, va / 4096 / 1024)
    case None => None
    case Some(pde) =>
      match Access(s, va / 4096)
      case None => None
      case Some(w) => if Open(pde) && Open(w) then StoreByte(s, va, b) else None
  }

  /** A page from UTOP up, outside the self-mapped slot. */
  predicate KernelPage(v: nat) { UTOPX <= v / 1024 < 1024 && v / 1024 != UVPTX }

  /** No kernel page is open to user stores, in the tables or in the TLB. */
  ghost predicate Guard(s: State) {
    && (forall v: nat :: KernelPage(v) ==> Closed(Translate(s, s.kdir, v)))
    && (forall v :: v in s.tlb && KernelPage(v) ==> !Open(s.tlb[v]))
  }

  predicate Closed(w: Option<Word>) { w.Some? ==> !Open(w.value) }

  /** Every translation cached in s' was cached in s or is what its tables say. */
  ghost predicate CacheGrows(s: State, s': State) {
    forall v :: v in s'.tlb ==> (v in s.tlb && s'.tlb[v] == s.tlb[v]) || Translate(s, s.cr3, v) == Some(s'.tlb[v])
  }

  /** From UTOP up, self-mapped slot apart, every address space translates as kern_pgdir does. */
  lemma SharedTranslation(s: State, base: seq<nat>, out: set<nat>, dir: nat, v: nat)
    requires Inv(s, base, out) && IsSpace(s, dir) && KernelPage(v)
    ensures Translate(s, dir, v) == Translate(s, s.kdir, v)
  {
    hide Accounts;
    if dir != s.kdir {
      var e :| DirOf(s, e) == Some(dir);
      DirSound(s, e);
    }
  }

  lemma GuardStep(s: State, s': State, base: seq<nat>, out: set<nat>)
    requires Inv(s, base, out) && IsSpace(s, s.cr3) && Guard(s) && s'.kdir == s.kdir && CacheGrows(s, s')
    requires forall v: nat :: KernelPage(v) ==> Translate(s', s.kdir, v) == Translate(s, s.kdir, v)
    ensures Guard(s')
  {
    hide Inv, Translate, Open;
    forall v | v in s'.tlb && KernelPage(v) ensures !Open(s'.tlb[v]) {
      if !(v in s.tlb && s'.tlb[v] == s.tlb[v]) { SharedTranslation(s, base, out, s.cr3, v); }
    }
  }

  /** A user store at or above UTOP always faults. */
  lemma StoreAboveFaults(s: State, base: seq<nat>, out: set<nat>, va: nat, b: Byte)
    requires Inv(s, base, out) && IsSpace(s, s.cr3) && Guard(s) && UTOP <= va < 0x1_0000_0000
    ensures UserStore(s, va, b) == None
  {
    hide StoreByte, Accounts;
    var v := va / 4096;
    var d := v / 1024;
    assert UTOPX <= d < 1024;
    if d == UVPTX {
      SecondLevel(s, s.cr3, d);
      PackBits(s.cr3, PTE_U);
    } else {
      SharedTranslation(s, base, out, s.cr3, v);
    }
  }

  /** A store below UTOP leaves the guard in place. */
  lemma StoreGuard(s: State, base: seq<nat>, out: set<nat>, e: nat, va: nat, b: Byte)
    requires Inv(s, base, out) && DirOf(s, e) == Some(s.cr3) && Coherent(s) && Guard(s) && va < UTOP
    requires StoreByte(s, va, b).Some?
    ensures Guard(StoreByte(s, va, b).value)
  {
    hide Inv, Coherent, Translate, Open;
    assert va / 4096 / 1024 < UTOPX;
    StoreInv(s, base, out, e, va, b);
    var s' := StoreByte(s, va, b).value;
    assert IsSpace(s, s.kdir);
    forall v: nat | KernelPage(v) ensures Translate(s', s.kdir, v) == Translate(s, s.kdir, v) {
      assert v < NVPAGES;
    }
    forall v | v in s'.tlb && KernelPage(v) ensures v in s.tlb && s'.tlb[v] == s.tlb[v] {
      assert v != va / 4096;
    }
  }

  // ------------------------------------------------------- what the tables permit

  /** Both levels of the walk of v have bit 2 set. */
  predicate UserMayRead(s: State, dir: nat, v: nat) {
    match Entry(s, dir, v / 1024)
    case None => false
    case Some(pde) => ForUser(pde) && Translate(s, dir, v).Some? && ForUser(Translate(s, dir, v).value)
  }

  /** Both levels of the walk of v have bits 1 and 2 set. */
  predicate UserMayWrite(s: State, dir: nat, v: nat) {
    match Entry(s, dir, v / 1024)
    case None => false
    case Some(pde) => Open(pde) && Translate(s, dir, v).Some? && Open(Translate(s, dir, v).value)
  }

  /** Below UTOP the directory entry permits everything, so the table entry decides. */
  lemma TableDecides(s: State, base: seq<nat>, out: set<nat>, e: nat, v: nat)
    requires Inv(s, base, out) && DirOf(s, e).Some? && v / 1024 < UTOPX
    ensures var w := Translate(s, DirOf(s, e).value, v);
      && (UserMayRead(s, DirOf(s, e).value, v) <==> w.Some? && ForUser(w.value))
      && (UserMayWrite(s, DirOf(s, e).value, v) <==> w.Some? && Open(w.value))
  {
    hide Accounts;
    DirSound(s, e);
    assert OpenSlot(s.mem[DirOf(s, e).value][v / 1024]);
  }

  /** So it does in the kernel half, the self-mapped slot apart; that slot is closed to stores. */
  lemma TableDecidesAbove(s: State, base: seq<nat>, out: set<nat>, dir: nat, v: nat)
    requires Inv(s, base, out) && IsSpace(s, dir) && UTOPX <= v / 1024 < 1024
    ensures var w := Translate(s, dir, v);
      && (v / 1024 == UVPTX ==> !UserMayWrite(s, dir, v))
      && (v / 1024 != UVPTX ==> (UserMayRead(s, dir, v) <==> w.Some? && ForUser(w.value)))
      && (v / 1024 != UVPTX ==> (UserMayWrite(s, dir, v) <==> w.Some? && Open(w.value)))
  {
    hide Accounts;
    var d := v / 1024;
    if d == UVPTX {
      SecondLevel(s, dir, d);
      PackBits(dir, PTE_U);
    } else {
      if dir != s.kdir {
        var e :| DirOf(s, e) == Some(dir);
        DirSound(s, e);
      }
      assert OpenSlot(s.mem[s.kdir][d]);
    }
  }

  /**
    A user store that the TLB does not decide from a stale entry succeeds exactly where
    both levels of the walk permit it.
  */
  lemma StoreIffPermitted(s: State, base: seq<nat>, out: set<nat>, e: nat, va: nat, b: Byte)
    requires Inv(s, base, out) && DirOf(s, e) == Some(s.cr3) && Exact(s) && va < UTOP
    ensures UserStore(s, va, b).Some? <==> UserMayWrite(s, s.cr3, va / 4096)
  {
    hide Accounts;
    assert va / 4096 / 1024 < UTOPX;
    ExactCoherent(s);
    StoreInv(s, base, out, e, va, b);
    UserTranslation(s, e, va / 4096);
  }

  lemma ExactCoherent(s: State)
    requires Exact(s)
    ensures Coherent(s)
  {
  }

  /** Every page that region_alloc maps may be read and written by the user program. */
  lemma {:induction false} RegionOpen(s: State, base: seq<nat>, out: set<nat>, e: nat, v: nat, n: nat)
    requires Inv(s, base, out) && DirOf(s, e).Some? && v + n <= UTOPX * 1024
    requires RegionPages(s, DirOf(s, e).value, v, n).Some?
    ensures var s', dir := RegionPages(s, DirOf(s, e).value, v, n).value, DirOf(s, e).value;
      && Inv(s', base, out) && s'.dirs == s.dirs
      && forall u :: v <= u < v + n ==> UserMayRead(s', dir, u) && UserMayWrite(s', dir, u)
  {
    hide Inv, RegionPage, UserMayRead, UserMayWrite;
    if n > 0 {
      var dir := DirOf(s, e).value;
      var s1 := RegionPages(s, dir, v, n - 1).value;
      var s' := RegionPages(s, dir, v, n).value;
      RegionOpen(s, base, out, e, v, n - 1);
      assert (v + n - 1) / 1024 < UTOPX;
      RegionPageInv(s1, base, out, e, v + n - 1);
      forall u | v <= u < v + n ensures UserMayRead(s', dir, u) && UserMayWrite(s', dir, u) {
        OnePageOpen(s1, base, out, e, v + n - 1, u);
      }
    }
  }

  lemma OnePageOpen(s: State, base: seq<nat>, out: set<nat>, e: nat, v: nat, u: nat)
    requires Inv(s, base, out) && DirOf(s, e).Some? && v / 1024 < UTOPX && u / 1024 < UTOPX
    requires RegionPage(s, DirOf(s, e).value, v).Some?
    requires u != v ==> UserMayRead(s, DirOf(s, e).value, u) && UserMayWrite(s, DirOf(s, e).value, u)
    ensures UserMayRead(RegionPage(s, DirOf(s, e).value, v).value, DirOf(s, e).value, u)
    ensures UserMayWrite(RegionPage(s, DirOf(s, e).value, v).value, DirOf(s, e).value, u)
  {
    hide Inv, RegionPage, UserMayRead, UserMayWrite, Translate;
    var dir, s' := DirOf(s, e).value, RegionPage(s, DirOf(s, e).value, v).value;
    RegionPageInv(s, base, out, e, v);
    assert IsSpace(s, dir);
    RegionPageTranslation(s, base, out, e, v, dir, u);
    TableDecides(s, base, out, e, u);
    TableDecides(s', base, out, e, u);
    if u == v { FreshFrame(s, base, out); PackBits(s.free[0], PTE_W + PTE_U + PTE_P); }
  }

  lemma FreshFrame(s: State, base: seq<nat>, out: set<nat>)
    requires Inv(s, base, out) && s.free != []
    ensures s.free[0] < NVPAGES
  {
    assert s.free[0] in s.free;
  }
}
