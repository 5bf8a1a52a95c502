/**
  The two-level tables as one flat map per address space: which translations each
  operation changes, in every address space at once, and what the TLB may still hold.
*/
module Translation {
  import opened Mmu
  import opened Vm
  import opened VmSteps
  import opened PageOps

  /** The frames that a processor may have in cr3: kern_pgdir and live directories. */
  ghost predicate IsSpace(s: State, dir: nat) {
    dir == s.kdir || exists e :: DirOf(s, e) == Some(dir)
  }

  /** What the second level of a walk can be. */
  lemma SecondLevel(s: State, dir: nat, d: nat)
    requires Shape(s) && Separate(s) && KernelHalf(s) && IsSpace(s, dir) && d < 1024
    ensures dir < |s.mem|
    ensures d == UVPTX ==> Entry(s, dir, d) == Some(Pack(dir, PTE_U)) && FrameOf(Pack(dir, PTE_U)) == dir
    ensures d >= UTOPX && d != UVPTX ==> Target(Entry(s, dir, d)) == Points(s, KPde(d))
    ensures d < UTOPX && dir == s.kdir ==> Entry(s, dir, d) == None
    ensures forall e :: d < UTOPX && DirOf(s, e) == Some(dir) ==> Target(Entry(s, dir, d)) == Points(s, Pde(e, d))
  {
    if dir != s.kdir {
      var e :| DirOf(s, e) == Some(dir);
      DirSound(s, e);
    }
    PackParts(dir, PTE_U);
  }

  lemma SpaceKept(s: State, s': State, dir: nat)
    requires IsSpace(s, dir) && s'.kdir == s.kdir && s'.dirs == s.dirs
    ensures IsSpace(s', dir)
  {
    if dir != s.kdir {
      var e :| DirOf(s, e) == Some(dir);
      assert DirOf(s', e) == Some(dir);
    }
  }

  /** Frames outside every walk may be rewritten freely. */
  lemma TranslateStable(s: State, s': State, p: nat, dir: nat, v: nat)
    requires Shape(s) && Separate(s) && KernelHalf(s) && Shape(s') && |s'.mem| == |s.mem|
    requires forall f :: 0 <= f < |s.mem| && f != p ==> s'.mem[f] == s.mem[f]
    requires p != s.kdir && forall r: Ref :: r.IsTable() ==> Points(s, r) != Some(p)
    requires IsSpace(s, dir) && v < NVPAGES
    ensures Translate(s', dir, v) == Translate(s, dir, v)
  {
    SecondLevel(s, dir, v / 1024);
    if dir != s.kdir {
      var e :| DirOf(s, e) == Some(dir);
      assert Points(s, Dir(e)) == Some(dir);
      assert Points(s, Pde(e, v / 1024)) == TableOf(s, e, v / 1024);
    }
    assert Points(s, KPde(v / 1024)) != Some(p);
  }

  /** A write of one user table entry changes one translation of one address space. */
  lemma TranslateEntry(s: State, s': State, e: nat, d: nat, t: nat, w: Word, dir: nat, v: nat)
    requires Shape(s) && Separate(s) && KernelHalf(s) && TableOf(s, e, d).Some? && t < 1024
    requires TableOf(s, e, d).value < |s.mem| && d < UTOPX
    requires s'.mem == SetWord(s, TableOf(s, e, d).value, t, w).mem
    requires IsSpace(s, dir) && v < NVPAGES
    ensures Translate(s', dir, v) ==
      if DirOf(s, e) == Some(dir) && v == Vpn(d, t) then (if Present(w) then Some(w) else None) else Translate(s, dir, v)
  {
    hide SharesKernelHalf, KernelHalf;
    var tab := TableOf(s, e, d).value;
    TableSound(s, e, d);
    SecondLevel(s, dir, v / 1024);
    assert Points(s, Pde(e, d)) == Some(tab);
    if dir != s.kdir {
      var e2 :| DirOf(s, e2) == Some(dir);
      assert Points(s, Dir(e2)) == Some(dir);
      assert Points(s, Pde(e2, v / 1024)) == TableOf(s, e2, v / 1024);
    }
    assert Points(s, KPde(v / 1024)) != Some(tab);
  }

  lemma OtherSpaceSlot(s: State, s': State, e: nat, d: nat, w: Word, dir: nat, v: nat)
    requires Shape(s) && Separate(s) && KernelHalf(s) && DirOf(s, e).Some? && DirOf(s, e).value < |s.mem| && d < UTOPX
    requires s'.mem == SetWord(s, DirOf(s, e).value, d, w).mem
    requires IsSpace(s, dir) && dir != DirOf(s, e).value && v < NVPAGES
    ensures Translate(s', dir, v) == Translate(s, dir, v)
  {
    var mine := DirOf(s, e).value;
    SecondLevel(s, dir, v / 1024);
    assert Points(s, Dir(e)) == Some(mine);
    if v / 1024 < UTOPX {
      if dir != s.kdir {
        var e2 :| DirOf(s, e2) == Some(dir);
        assert Points(s, Pde(e2, v / 1024)) != Some(mine);
      }
    } else if v / 1024 != UVPTX {
      assert Points(s, KPde(v / 1024)) != Some(mine);
    }
  }

  lemma OwnSpaceSlot(s: State, s': State, e: nat, d: nat, w: Word, v: nat)
    requires Shape(s) && Separate(s) && KernelHalf(s) && DirOf(s, e).Some? && DirOf(s, e).value < |s.mem| && d < UTOPX
    requires s'.mem == SetWord(s, DirOf(s, e).value, d, w).mem
    requires v / 1024 != d && v < NVPAGES
    ensures Translate(s', DirOf(s, e).value, v) ==
      if v == Vpn(UVPTX, d) then (if Present(w) then Some(w) else None) else Translate(s, DirOf(s, e).value, v)
  {
    var mine := DirOf(s, e).value;
    SecondLevel(s, mine, v / 1024);
    assert Points(s, Dir(e)) == Some(mine);
    if v / 1024 < UTOPX {
      assert Points(s, Pde(e, v / 1024)) != Some(mine);
    } else if v / 1024 != UVPTX {
      assert Points(s, KPde(v / 1024)) != Some(mine);
    }
  }

  /**
    Linking or unlinking an empty table changes no translation, except that the
    table itself appears or disappears in the self-mapped slot of its own directory.
  */
  lemma TranslateSlot(s: State, s': State, e: nat, d: nat, w: Word, dir: nat, v: nat)
    requires Shape(s) && Separate(s) && KernelHalf(s) && DirOf(s, e).Some? && DirOf(s, e).value < |s.mem| && d < UTOPX
    requires s'.mem == SetWord(s, DirOf(s, e).value, d, w).mem
    requires TableOf(s, e, d).Some? ==> EmptyTable(s, TableOf(s, e, d).value)
    requires Present(w) ==> FrameOf(w) != DirOf(s, e).value && EmptyTable(s, FrameOf(w))
    requires IsSpace(s, dir) && v < NVPAGES
    ensures Translate(s', dir, v) ==
      if DirOf(s, e) == Some(dir) && v == Vpn(UVPTX, d) then (if Present(w) then Some(w) else None) else Translate(s, dir, v)
  {
    if dir != DirOf(s, e).value {
      OtherSpaceSlot(s, s', e, d, w, dir, v);
    } else if v / 1024 != d {
      OwnSpaceSlot(s, s', e, d, w, v);
    } else {
      if TableOf(s, e, d).Some? { TableSound(s, e, d); }
      assert Present(w) ==> Entry(s', FrameOf(w), v % 1024) == Entry(s, FrameOf(w), v % 1024);
    }
  }

  // --------------------------------------------------------- page operations

  /**
    pgdir_walk with create: no address space gains, loses or changes a translation,
    but for the new table itself, which the owning directory now shows read-only at
    UVPT. The exception is real: it is the page that uvpt[] uses to show the table.
  */
  lemma WalkCreateTranslation(s: State, base: seq<nat>, out: set<nat>, e: nat, d: nat, dir: nat, v: nat)
    requires Inv(s, base, out) && DirOf(s, e).Some? && d < UTOPX && IsSpace(s, dir) && v < NVPAGES
    ensures Walkable(s, DirOf(s, e).value, d)
    ensures WalkCreate(s, DirOf(s, e).value, d).Some? ==>
      var s' := WalkCreate(s, DirOf(s, e).value, d).value;
      Translate(s', dir, v) ==
        if TableOf(s, e, d) == None && DirOf(s, e) == Some(dir) && v == Vpn(UVPTX, d)
        then Some(Pack(s.free[0], PTE_P + PTE_W + PTE_U))
        else Translate(s, dir, v)
  {
    WalkCreateInv(s, base, out, e, d);
    if TableOf(s, e, d) == None && s.free != [] {
      var p := s.free[0];
      AllocInv(s, base, out, true);
      var s1 := Alloc(s, true);
      var s' := WalkCreate(s, DirOf(s, e).value, d).value;
      TranslateStable(s, s1, p, dir, v);
      assert Points(s1, Pde(e, d)) == None;
      assert Points(s1, Dir(e)) == DirOf(s, e);
      assert EmptyTable(s1, p);
      PackParts(p, PTE_P + PTE_W + PTE_U);
      SpaceKept(s, s1, dir);
      TranslateSlot(s1, s', e, d, Pack(p, PTE_P + PTE_W + PTE_U), dir, v);
    }
  }

  /** page_remove of a mapped page deletes that translation and no other, anywhere. */
  lemma RemoveTranslation(s: State, base: seq<nat>, out: set<nat>, e: nat, u: nat, dir: nat, v: nat)
    requires Inv(s, base, out) && DirOf(s, e).Some? && u / 1024 < UTOPX
    requires Points(s, Pte(e, u / 1024, u % 1024)).Some?
    requires IsSpace(s, dir) && v < NVPAGES
    ensures Removable(s, DirOf(s, e).value, u)
    ensures Translate(Remove(s, DirOf(s, e).value, u), dir, v) ==
      if DirOf(s, e) == Some(dir) && v == u then None else Translate(s, dir, v)
  {
    RemoveInv(s, base, out, e, u);
    EntryWords(s, e, u / 1024, u % 1024);
    TranslateEntry(s, Remove(s, DirOf(s, e).value, u), e, u / 1024, u % 1024, 0, dir, v);
  }

  lemma InsertAtTranslation(s: State, base: seq<nat>, out: set<nat>, e: nat, pp: nat, u: nat, perm: nat, dir: nat, v: nat)
    requires Inv(s, base, out) && InsertArgs(s, e, pp, u, perm) && TableOf(s, e, u / 1024).Some?
    requires IsSpace(s, dir) && v < NVPAGES
    ensures Mappable(s, DirOf(s, e).value, u)
    ensures Translate(InsertAt(s, DirOf(s, e).value, pp, u, perm), dir, v) ==
      if DirOf(s, e) == Some(dir) && v == u then Some(Pack(pp, perm)) else Translate(s, dir, v)
  {
    hide Accounts;
    InsertAtPoints(s, base, out, e, pp, u, perm);
    PackParts(pp, perm);
    var s' := InsertAt(s, DirOf(s, e).value, pp, u, perm);
    TranslateEntry(s, s', e, u / 1024, u % 1024, Pack(pp, perm), dir, v);
  }

  /**
    page_insert refines the update of a flat map: in the given directory, v now
    translates to pp with the given permissions; everything else, in this and every
    other address space, is as before (up to the self-mapped page of a new table).
    On failure there is no new state at all.
  */
  lemma InsertTranslation(s: State, base: seq<nat>, out: set<nat>, e: nat, pp: nat, u: nat, perm: nat, dir: nat, v: nat)
    requires Inv(s, base, out) && InsertArgs(s, e, pp, u, perm)
    requires IsSpace(s, dir) && v < NVPAGES
    ensures Insertable(s, DirOf(s, e).value, pp, u, perm)
    ensures Insert(s, DirOf(s, e).value, pp, u, perm).Some? ==>
      Translate(Insert(s, DirOf(s, e).value, pp, u, perm).value, dir, v) ==
        if DirOf(s, e) == Some(dir) && v == u then Some(Pack(pp, perm))
        else if DirOf(s, e) == Some(dir) && TableOf(s, e, u / 1024) == None && v == Vpn(UVPTX, u / 1024)
        then Some(Pack(s.free[0], PTE_P + PTE_W + PTE_U))
        else Translate(s, dir, v)
  {
    assert Insertable(s, DirOf(s, e).value, pp, u, perm) by { InsertPoints(s, base, out, e, pp, u, perm); }
    var d := u / 1024;
    WalkCreateTranslation(s, base, out, e, d, dir, v);
    if WalkCreate(s, DirOf(s, e).value, d).Some? {
      WalkCreateKeepsData(s, base, out, e, d, pp);
      var s1 := WalkCreate(s, DirOf(s, e).value, d).value;
      SpaceKept(s, s1, dir);
      InsertAtTranslation(s1, base, out, e, pp, u, perm, dir, v);
    }
  }

  // ------------------------------------------------------------------ the TLB

  /** Every cached translation names the frame that the tables name now. */
  ghost predicate Coherent(s: State) {
    forall v :: v in s.tlb ==>
      && v < NVPAGES && Translate(s, s.cr3, v).Some?
      && FrameOf(Translate(s, s.cr3, v).value) == FrameOf(s.tlb[v])
  }

  /** Every cached translation is the entry that the tables hold now, permissions included. */
  ghost predicate Exact(s: State) {
    forall v :: v in s.tlb ==> v < NVPAGES && Translate(s, s.cr3, v) == Some(s.tlb[v])
  }

  /** lcr3 */
  function LoadCr3(s: State, dir: nat): State { s.(cr3 := dir, tlb := map[]) }

  /** The processor caches the translation of v. */
  function Fill(s: State, v: nat): State {
    if Translate(s, s.cr3, v).Some? then s.(tlb := s.tlb[v := Translate(s, s.cr3, v).value]) else s
  }

  /** The translation a memory access uses: the cached one if there is one. */
  function Access(s: State, v: nat): Option<Word> {
    if v in s.tlb then Some(s.tlb[v]) else Translate(s, s.cr3, v)
  }

  lemma TranslateSame(s: State, s': State, dir: nat, v: nat)
    requires s'.mem == s.mem
    ensures Translate(s', dir, v) == Translate(s, dir, v)
  {
  }

  lemma InvSame(s: State, s': State, base: seq<nat>, out: set<nat>)
    requires Inv(s, base, out)
    requires s'.refs == s.refs && s'.free == s.free && s'.mem == s.mem && s'.kdir == s.kdir && s'.dirs == s.dirs
    ensures Inv(s', base, out)
  {
    PointsSame(s, s');
    SeparateStep(s, s', Dir(0));
    AccountsStep(s, s', base, out, out, Dir(0));
    forall e | DirOf(s', e).Some? ensures SharesKernelHalf(s', DirOf(s', e).value) {
      assert SharesKernelHalf(s, DirOf(s, e).value);
    }
  }

  lemma FillKeeps(s: State, base: seq<nat>, out: set<nat>, v: nat)
    requires Inv(s, base, out) && Coherent(s) && v < NVPAGES
    ensures Inv(Fill(s, v), base, out) && Coherent(Fill(s, v))
    ensures Translate(s, s.cr3, v).Some? ==> Fill(s, v).tlb == s.tlb[v := Translate(s, s.cr3, v).value]
    ensures Translate(s, s.cr3, v) == None ==> Fill(s, v) == s
  {
    InvSame(s, Fill(s, v), base, out);
    forall u | u in Fill(s, v).tlb ensures Translate(Fill(s, v), s.cr3, u) == Translate(s, s.cr3, u) {
      TranslateSame(s, Fill(s, v), s.cr3, u);
    }
  }

  lemma RemoveCoherent(s: State, base: seq<nat>, out: set<nat>, e: nat, u: nat)
    requires Inv(s, base, out) && DirOf(s, e).Some? && u / 1024 < UTOPX
    requires Points(s, Pte(e, u / 1024, u % 1024)).Some?
    requires IsSpace(s, s.cr3)
    ensures Removable(s, DirOf(s, e).value, u)
    ensures Coherent(s) ==> Coherent(Remove(s, DirOf(s, e).value, u))
    ensures Exact(s) ==> Exact(Remove(s, DirOf(s, e).value, u))
  {
    RemoveInv(s, base, out, e, u);
    var s' := Remove(s, DirOf(s, e).value, u);
    forall v | v in s'.tlb && v < NVPAGES
      ensures v in s.tlb && s'.tlb[v] == s.tlb[v] && Translate(s', s.cr3, v) == Translate(s, s.cr3, v)
    {
      RemoveTranslation(s, base, out, e, u, s.cr3, v);
    }
  }

  /** page_insert drops the cached translation of u exactly when it replaces another page there. */
  lemma InsertTlb(s: State, base: seq<nat>, out: set<nat>, e: nat, pp: nat, u: nat, perm: nat)
    requires Inv(s, base, out) && InsertArgs(s, e, pp, u, perm)
    ensures Insertable(s, DirOf(s, e).value, pp, u, perm)
    ensures Insert(s, DirOf(s, e).value, pp, u, perm).Some? ==>
      var s' := Insert(s, DirOf(s, e).value, pp, u, perm).value;
      var was := Points(s, Pte(e, u / 1024, u % 1024));
      && s'.tlb == (if was.Some? && was != Some(pp) then s.tlb - {u} else s.tlb)
      && s'.cr3 == s.cr3
  {
    hide Inv, InsertAt, Mappable;
    var d, t := u / 1024, u % 1024;
    InsertPoints(s, base, out, e, pp, u, perm);
    WalkCreateKeepsData(s, base, out, e, d, pp);
    if WalkCreate(s, DirOf(s, e).value, d).Some? {
      var s1 := WalkCreate(s, DirOf(s, e).value, d).value;
      assert Points(s1, Pte(e, d, t)) == Points(s, Pte(e, d, t));
      InsertAtTlb(s1, base, out, e, pp, u, perm);
    }
  }

  lemma InsertAtTlb(s: State, base: seq<nat>, out: set<nat>, e: nat, pp: nat, u: nat, perm: nat)
    requires Inv(s, base, out) && InsertArgs(s, e, pp, u, perm) && TableOf(s, e, u / 1024).Some?
    ensures Mappable(s, DirOf(s, e).value, u)
    ensures var s' := InsertAt(s, DirOf(s, e).value, pp, u, perm);
      var was := Points(s, Pte(e, u / 1024, u % 1024));
      s'.tlb == (if was.Some? && was != Some(pp) then s.tlb - {u} else s.tlb) && s'.cr3 == s.cr3
  {
    hide Accounts;
    MappableInv(s, base, out, e, u);
    EntryWords(s, e, u / 1024, u % 1024);
  }

  lemma UserTranslation(s: State, e: nat, u: nat)
    requires Shape(s) && Separate(s) && KernelHalf(s) && DirOf(s, e).Some? && u / 1024 < UTOPX
    ensures Target(Translate(s, DirOf(s, e).value, u)) == Points(s, Pte(e, u / 1024, u % 1024))
  {
    EntryWords(s, e, u / 1024, u % 1024);
  }

  lemma InsertCoherent(s: State, base: seq<nat>, out: set<nat>, e: nat, pp: nat, u: nat, perm: nat)
    requires Inv(s, base, out) && InsertArgs(s, e, pp, u, perm)
    requires IsSpace(s, s.cr3) && Coherent(s)
    ensures Insertable(s, DirOf(s, e).value, pp, u, perm)
    ensures Insert(s, DirOf(s, e).value, pp, u, perm).Some? ==> Coherent(Insert(s, DirOf(s, e).value, pp, u, perm).value)
  {
    InsertTlb(s, base, out, e, pp, u, perm);
    PackParts(pp, perm);
    UserTranslation(s, e, u);
    if Insert(s, DirOf(s, e).value, pp, u, perm).Some? {
      var s' := Insert(s, DirOf(s, e).value, pp, u, perm).value;
      forall v | v in s'.tlb
        ensures v < NVPAGES && Translate(s', s'.cr3, v).Some? && FrameOf(Translate(s', s'.cr3, v).value) == FrameOf(s'.tlb[v])
      {
        SelfMapAbsent(s, base, out, e, u / 1024);
        InsertTranslation(s, base, out, e, pp, u, perm, s.cr3, v);
      }
    }
  }

  /** A table that does not exist has no page in the self-mapped slot. */
  lemma SelfMapAbsent(s: State, base: seq<nat>, out: set<nat>, e: nat, d: nat)
    requires Inv(s, base, out) && DirOf(s, e).Some? && d < UTOPX
    ensures TableOf(s, e, d) == None ==> Translate(s, DirOf(s, e).value, Vpn(UVPTX, d)) == None
  {
    assert SelfMapped(s, DirOf(s, e).value) by { DirectorySelfMapped(s, e); }
    hide Inv, Pack, PermOf;
    var v := Vpn(UVPTX, d);
    assert v / 1024 == UVPTX && v % 1024 == d by { VpnParts(UVPTX, d); }
    assert TableOf(s, e, d) == Target(Entry(s, DirOf(s, e).value, d));
  }

  /** The UVPT slot of a directory names the directory. */
  ghost predicate SelfMapped(s: State, dir: nat) { Target(Entry(s, dir, UVPTX)) == Some(dir) }

  lemma DirectorySelfMapped(s: State, e: nat)
    requires Shape(s) && Separate(s) && KernelHalf(s) && DirOf(s, e).Some?
    ensures SelfMapped(s, DirOf(s, e).value)
  {
    SecondLevel(s, DirOf(s, e).value, UVPTX);
  }

  lemma VpnParts(d: nat, t: nat)
    requires t < 1024
    ensures Vpn(d, t) / 1024 == d && Vpn(d, t) % 1024 == t
  {
  }

  /**
    The TLB stays exact through page_insert except in one case: the page was already
    mapped there, in the current directory, cached, and its permissions change.
  */
  lemma InsertExactIff(s: State, base: seq<nat>, out: set<nat>, e: nat, pp: nat, u: nat, perm: nat)
    requires Inv(s, base, out) && InsertArgs(s, e, pp, u, perm)
    requires IsSpace(s, s.cr3) && Exact(s)
    ensures Insertable(s, DirOf(s, e).value, pp, u, perm)
    ensures Insert(s, DirOf(s, e).value, pp, u, perm).Some? ==>
      (Exact(Insert(s, DirOf(s, e).value, pp, u, perm).value) <==>
        !(DirOf(s, e) == Some(s.cr3) && u in s.tlb && FrameOf(s.tlb[u]) == pp && s.tlb[u] != Pack(pp, perm)))
  {
    InsertTlb(s, base, out, e, pp, u, perm);
    PackParts(pp, perm);
    UserTranslation(s, e, u);
    if Insert(s, DirOf(s, e).value, pp, u, perm).Some? {
      var s' := Insert(s, DirOf(s, e).value, pp, u, perm).value;
      SelfMapAbsent(s, base, out, e, u / 1024);
      forall v | v in s'.tlb
        ensures v in s.tlb && s'.tlb[v] == s.tlb[v] && v < NVPAGES
        ensures Translate(s', s'.cr3, v) ==
          (if DirOf(s, e) == Some(s.cr3) && v == u then Some(Pack(pp, perm)) else Some(s.tlb[v]))
      {
        InsertTranslation(s, base, out, e, pp, u, perm, s.cr3, v);
      }
    }
  }

  // ------------------------------------------------------------- the self map

  /** The word that a load from va sees through directory dir; None is a page fault. */
  function ReadWord(s: State, dir: nat, va: nat): Option<Word> {
    match Translate(s, dir, va / 4096)
    case None => None
    case Some(w) =>
      if FrameOf(w) < |s.mem| && |s.mem[FrameOf(w)]| == 1024 then Some(s.mem[FrameOf(w)][va % 4096 / 4]) else None
  }

  /**
    In a directory whose UVPT slot names the directory itself, uvpt[n] is the table
    entry of page n if page n has a table, and faults if it has none; and uvpd[d] is
    directory entry d.
  */
  lemma SelfMap(s: State, dir: nat, n: nat, d: nat)
    requires Shape(s) && dir < |s.mem| && Target(Entry(s, dir, UVPTX)) == Some(dir)
    requires n < NVPAGES && d < 1024
    requires Entry(s, dir, n / 1024).Some? ==> FrameOf(Entry(s, dir, n / 1024).value) < |s.mem|
    ensures ReadWord(s, dir, UVPT + 4 * n) ==
      match Entry(s, dir, n / 1024)
      case None => None
      case Some(pde) => Some(s.mem[FrameOf(pde)][n % 1024])
    ensures ReadWord(s, dir, UVPT + UVPT / 4096 * 4 + 4 * d) == Some(s.mem[dir][d])
  {
    SelfMapAddress(n);
    SelfMapAddress(UVPT / 4096 + d);
    assert (UVPT / 4096 + d) / 1024 == UVPTX && (UVPT / 4096 + d) % 1024 == d;
    assert 4 * (UVPT / 4096 + d) == UVPT / 4096 * 4 + 4 * d;
  }

  lemma SelfMapAddress(n: nat)
    requires n < NVPAGES
    ensures (UVPT + 4 * n) / 4096 == Vpn(UVPTX, n / 1024) && (UVPT + 4 * n) % 4096 / 4 == n % 1024
    ensures Vpn(UVPTX, n / 1024) / 1024 == UVPTX && Vpn(UVPTX, n / 1024) % 1024 == n / 1024
  {
    var q, r := n / 1024, n % 1024;
    assert UVPT + 4 * n == (957 * 1024 + q) * 4096 + 4 * r;
    InPage(957 * 1024 + q, 4 * r);
  }

  /** Every address space of the kernel is such a directory. */
  lemma SpacesSelfMap(s: State, base: seq<nat>, out: set<nat>, dir: nat)
    requires Inv(s, base, out) && IsSpace(s, dir)
    ensures dir < |s.mem| && Target(Entry(s, dir, UVPTX)) == Some(dir)
  {
    SecondLevel(s, dir, UVPTX);
  }
}
