/**
  The boot sequence: page_init, boot_map_region, and the kernel half that mem_init
  builds with them; the state in which every later run starts.
*/
module Boot {
  import opened Mmu
  import opened Vm
  import opened VmSteps
  import opened PageOps
  import opened Translation
  import opened EnvVm
  import opened Envs
  import opened Protection
  import opened Steps
  import opened Runs

  // ---------------------------------------------------------------- page_init

  const IOHOLE: nat := IOPHYSMEM / PGSIZE
  const EXTMEM: nat := EXTPHYSMEM / PGSIZE

  /** hi-1, hi-2, ..., lo */
  function Down(hi: nat, lo: nat): seq<nat>
    decreases hi
  {
    if hi <= lo then [] else [hi - 1] + Down(hi - 1, lo)
  }

  /** pp_ref after page_init, firstFree being the first page after the kernel's own data. */
  function BootRef(i: nat, firstFree: nat): nat {
    if i == 0 || IOHOLE <= i < EXTMEM || EXTMEM <= i < firstFree then 1 else 0
  }

  /** The free list after page_init, head first. */
  function BootFree(npages: nat, nbase: nat, firstFree: nat): seq<nat> {
    Down(npages, firstFree) + Down(nbase, 1)
  }

  lemma {:induction false} DownShape(hi: nat, lo: nat)
    ensures |Down(hi, lo)| == if hi <= lo then 0 else hi - lo
    ensures forall k :: 0 <= k < |Down(hi, lo)| ==> Down(hi, lo)[k] == hi - 1 - k
    ensures forall i: nat :: i in Down(hi, lo) <==> lo <= i < hi
  {
    if hi > lo {
      DownShape(hi - 1, lo);
      assert Down(hi, lo) == [hi - 1] + Down(hi - 1, lo);
    }
  }

  /** page_init lists exactly pages 1..nbase-1 and firstFree..npages-1, in descending order. */
  lemma BootFreeShape(npages: nat, nbase: nat, firstFree: nat)
    requires nbase <= firstFree
    ensures var f := BootFree(npages, nbase, firstFree);
      && (forall i: nat :: i in f <==> 1 <= i < nbase || firstFree <= i < npages)
      && (forall j, k :: 0 <= j < k < |f| ==> f[j] > f[k])
      && NoDup(f)
  {
    DownShape(npages, firstFree);
    DownShape(nbase, 1);
    var a, b := Down(npages, firstFree), Down(nbase, 1);
    forall j, k | 0 <= j < k < |a + b| ensures (a + b)[j] > (a + b)[k] {
      if k >= |a| { assert b[k - |a|] in b; }
      if j < |a| { assert a[j] in a; }
    }
  }

  /** The boot-time counts, in numbers: page 0, the hole from 0xA0000 to 0x100000, and all below the first free page. */
  lemma BootRefNumbers(i: nat, firstFree: nat)
    requires firstFree >= 0x100
    ensures BootRef(i, firstFree) == if i == 0 || 0xA0 <= i < firstFree then 1 else 0
  {
  }

  /** All listed pages are unreferenced exactly when base memory stops below the I/O hole. */
  lemma BootFreeCleanIff(npages: nat, nbase: nat, firstFree: nat)
    requires EXTMEM <= firstFree && nbase <= EXTMEM
    ensures (forall i: nat :: i in BootFree(npages, nbase, firstFree) ==> BootRef(i, firstFree) == 0) <==> nbase <= 160
  {
    BootFreeShape(npages, nbase, firstFree);
    if nbase > IOHOLE {
      assert IOHOLE in BootFree(npages, nbase, firstFree);
      assert BootRef(IOHOLE, firstFree) == 1;
    }
  }

  // ---------------------------------------------------------- boot_map_region

  /** One page of boot_map_region; None when pgdir_walk finds no page for a table. */
  ghost function MapPage(s: State, v: nat, frame: nat, perm: nat): Option<State> {
    if !Walkable(s, s.kdir, v / 1024) || frame >= NVPAGES || perm >= 4096 then None
    else
      match WalkCreate(s, s.kdir, v / 1024)
      case None => None
      case Some(s1) =>
        if s.kdir < |s1.mem| && Entry(s1, s.kdir, v / 1024).Some? && FrameOf(s1.mem[s.kdir][v / 1024]) < |s1.mem|
           && |s1.mem[FrameOf(s1.mem[s.kdir][v / 1024])]| == 1024
        then Some(SetWord(s1, FrameOf(s1.mem[s.kdir][v / 1024]), v % 1024, Pack(frame, perm)))
        else None
  }

  /** The first n pages of boot_map_region, all of them mapped. */
  ghost function MapPages(s: State, v: nat, frame: nat, n: nat, perm: nat): Option<State> {
    if n == 0 then Some(s)
    else
      match MapPages(s, v, frame, n - 1, perm)
      case None => None
      case Some(s1) => MapPage(s1, v + n - 1, frame + n - 1, perm)
  }

  /** How many pages boot_map_region maps before it gives up. */
  ghost function Mapped(s: State, v: nat, frame: nat, n: nat, perm: nat): (k: nat)
    ensures k <= n && MapPages(s, v, frame, k, perm).Some?
  {
    if n == 0 then 0
    else if MapPages(s, v, frame, n, perm).Some? then n
    else Mapped(s, v, frame, n - 1, perm)
  }

  lemma {:induction false} MappedIsMaximal(s: State, v: nat, frame: nat, n: nat, perm: nat)
    ensures var k := Mapped(s, v, frame, n, perm); k < n ==> MapPages(s, v, frame, k + 1, perm) == None
  {
    hide MapPages;
    if n > 0 && MapPages(s, v, frame, n, perm) == None { MappedIsMaximal(s, v, frame, n - 1, perm); }
  }

  /** boot_map_region: size is cut down to whole pages. */
  ghost function MapRegion(s: State, va: Word, size: Word, pa: Word, perm: nat): State
    requires va % PGSIZE == 0 && pa % PGSIZE == 0
  {
    MapPages(s, PGNUM(va), PGNUM(pa), Mapped(s, PGNUM(va), PGNUM(pa), PGNUM(size), perm), perm).value
  }

  /** No environment exists yet. */
  ghost predicate BootInv(s: State, base: seq<nat>, out: set<nat>) {
    Inv(s, base, out) && forall e :: DirOf(s, e) == None
  }

  /** A slot of the kernel half, other than the self-mapped one. */
  predicate KSlot(d: nat) { UTOPX <= d < 1024 && d != UVPTX }

  lemma KLinkTable(s: State, base: seq<nat>, out: set<nat>, d: nat, p: nat)
    requires BootInv(s, base, out) && KSlot(d) && Points(s, KPde(d)) == None
    requires p in out && EmptyTable(s, p)
    ensures p < |s.refs|
    ensures var s' := SetWord(Incref(s, p), s.kdir, d, Pack(p, PTE_P + PTE_W + PTE_U));
      && BootInv(s', base, out - {p}) && Points(s', KPde(d)) == Some(p) && EmptyTable(s', p)
      && forall r :: r != KPde(d) ==> Points(s', r) == Points(s, r)
  {
    Unnamed(s, base, out, p);
    var w := Pack(p, PTE_P + PTE_W + PTE_U);
    PackParts(p, PTE_P + PTE_W + PTE_U);
    PointsAfterKPde(s, d, w);
    var s1, s' := SetWord(s, s.kdir, d, w), SetWord(Incref(s, p), s.kdir, d, w);
    PointsSame(s1, s');
    Gain(s, s', base, out, KPde(d), p);
    PackBits(p, PTE_P + PTE_W + PTE_U);
    forall t: nat ensures Entry(s', p, t) == None { assert Entry(s, p, t) == None; }
    forall e ensures DirOf(s', e) == None { assert DirOf(s, e) == None; }
  }

  lemma KTranslateLink(s: State, s': State, base: seq<nat>, out: set<nat>, d: nat, p: nat, v: nat)
    requires BootInv(s, base, out) && KSlot(d) && Points(s, KPde(d)) == None && v < NVPAGES && v / 1024 != UVPTX
    requires p < |s.mem| && p != s.kdir && EmptyTable(s, p)
    requires s'.mem == SetWord(s, s.kdir, d, Pack(p, PTE_P + PTE_W + PTE_U)).mem && s'.kdir == s.kdir
    ensures Translate(s', s.kdir, v) == Translate(s, s.kdir, v)
  {
    PackParts(p, PTE_P + PTE_W + PTE_U);
    SecondLevel(s, s.kdir, v / 1024);
    assert Entry(s, p, v % 1024) == None;
    if v / 1024 != d && KSlot(v / 1024) {
      assert Points(s, KPde(v / 1024)) != Some(s.kdir);
    }
  }

  lemma KTranslateEntry(s: State, s': State, base: seq<nat>, out: set<nat>, d: nat, t: nat, w: Word, v: nat)
    requires BootInv(s, base, out) && KSlot(d) && Points(s, KPde(d)).Some? && t < 1024 && v < NVPAGES && v / 1024 != UVPTX
    requires Points(s, KPde(d)).value < |s.mem|
    requires s'.mem == SetWord(s, Points(s, KPde(d)).value, t, w).mem && s'.kdir == s.kdir
    ensures Translate(s', s.kdir, v) ==
      if v == Vpn(d, t) then (if Present(w) then Some(w) else None) else Translate(s, s.kdir, v)
  {
    var tab := Points(s, KPde(d)).value;
    assert tab != s.kdir;
    SecondLevel(s, s.kdir, v / 1024);
    if KSlot(v / 1024) && Points(s, KPde(v / 1024)) == Some(tab) {
      assert KPde(v / 1024) == KPde(d);
    }
  }

  lemma KEntryInv(s: State, base: seq<nat>, out: set<nat>, d: nat, t: nat, w: Word)
    requires BootInv(s, base, out) && KSlot(d) && Points(s, KPde(d)).Some? && t < 1024
    ensures Points(s, KPde(d)).value < |s.mem|
    ensures var s' := SetWord(s, Points(s, KPde(d)).value, t, w);
      BootInv(s', base, out) && forall r :: Points(s', r) == Points(s, r)
  {
    var tab := Points(s, KPde(d)).value;
    var s' := SetWord(s, tab, t, w);
    PointsStable(s, s');
    SeparateStep(s, s', Dir(0));
    AccountsStep(s, s', base, out, out, Dir(0));
    KernelHalfStable(s, s', tab);
    forall e ensures DirOf(s', e) == None { assert DirOf(s, e) == None; }
  }

  lemma KWalk(s: State, base: seq<nat>, out: set<nat>, d: nat)
    requires BootInv(s, base, out) && KSlot(d)
    ensures Walkable(s, s.kdir, d)
    ensures WalkCreate(s, s.kdir, d) == None <==> Points(s, KPde(d)) == None && s.free == []
    ensures WalkCreate(s, s.kdir, d).Some? ==>
      var s1 := WalkCreate(s, s.kdir, d).value;
      && BootInv(s1, base, out) && s1.kdir == s.kdir && |s1.mem| == |s.mem| && Points(s1, KPde(d)).Some?
      && |s1.free| + B(Points(s, KPde(d)) == None) == |s.free|
      && (forall r :: r != KPde(d) ==> Points(s1, r) == Points(s, r))
      && (forall v :: 0 <= v < NVPAGES && v / 1024 != UVPTX ==> Translate(s1, s.kdir, v) == Translate(s, s.kdir, v))
  {
    ReadyInv(s, base, out);
    assert Points(s, KPde(d)) == Target(Entry(s, s.kdir, d));
    if Points(s, KPde(d)) == None && s.free != [] {
      var p, s1 := s.free[0], Alloc(s, true);
      AllocInv(s, base, out, true);
      assert p in s.free && out + {p} - {p} == out;
      forall e ensures DirOf(s1, e) == None { assert DirOf(s, e) == None; }
      assert Points(s1, KPde(d)) == None && EmptyTable(s1, p);
      KLinkTable(s1, base, out + {p}, d, p);
      var s2 := WalkCreate(s, s.kdir, d).value;
      forall v | 0 <= v < NVPAGES && v / 1024 != UVPTX ensures Translate(s2, s.kdir, v) == Translate(s, s.kdir, v) {
        TranslateStable(s, s1, p, s.kdir, v);
        KTranslateLink(s1, s2, base, out + {p}, d, p, v);
      }
    }
  }

  /** What one page of boot_map_region does to the state and to the kernel's translations. */
  lemma MapPageInv(s: State, base: seq<nat>, out: set<nat>, v: nat, frame: nat, perm: nat)
    requires BootInv(s, base, out) && KSlot(v / 1024) && frame < NVPAGES && perm < 4096
    ensures MapPage(s, v, frame, perm) == None <==> Points(s, KPde(v / 1024)) == None && s.free == []
    ensures MapPage(s, v, frame, perm).Some? ==>
      var s' := MapPage(s, v, frame, perm).value;
      && BootInv(s', base, out) && s'.kdir == s.kdir && Points(s', KPde(v / 1024)).Some?
      && |s'.free| + B(Points(s, KPde(v / 1024)) == None) == |s.free|
      && (forall r :: r != KPde(v / 1024) ==> Points(s', r) == Points(s, r))
      && (forall x :: 0 <= x < NVPAGES && x / 1024 != UVPTX ==>
            Translate(s', s.kdir, x) == if x == v then Some(Pack(frame, perm)) else Translate(s, s.kdir, x))
  {
    hide Inv;
    var d := v / 1024;
    KWalk(s, base, out, d);
    if WalkCreate(s, s.kdir, d).Some? {
      var s1 := WalkCreate(s, s.kdir, d).value;
      var w := Pack(frame, perm);
      PackParts(frame, perm);
      KEntryInv(s1, base, out, d, v % 1024, w);
      KTableShape(s1, base, out, d);
      var s' := MapPage(s, v, frame, perm).value;
      forall x | 0 <= x < NVPAGES && x / 1024 != UVPTX
        ensures Translate(s', s.kdir, x) == if x == v then Some(w) else Translate(s, s.kdir, x)
      {
        KTranslateEntry(s1, s', base, out, d, v % 1024, w, x);
      }
    }
  }

  lemma KTableShape(s: State, base: seq<nat>, out: set<nat>, d: nat)
    requires BootInv(s, base, out) && KSlot(d) && Points(s, KPde(d)).Some?
    ensures s.kdir < |s.mem| && Entry(s, s.kdir, d).Some?
    ensures Points(s, KPde(d)).value == FrameOf(s.mem[s.kdir][d]) < |s.mem|
    ensures |s.mem[FrameOf(s.mem[s.kdir][d])]| == 1024
  {
  }

  /** Page x of a region that starts at v is the first one of the region that its table serves. */
  predicate FirstOfTable(v: nat, x: nat) { x == v || x % 1024 == 0 }

  /** Number of page tables that serve n pages from v on and do not exist in s. */
  function Missing(s: State, v: nat, n: nat): nat {
    if n == 0 then 0
    else
      var x := v + n - 1;
      Missing(s, v, n - 1) + B(FirstOfTable(v, x) && Points(s, KPde(x / 1024)) == None)
  }

  /** Never more than the number of tables that serve the region; all of them if none exists. */
  lemma {:induction false} MissingBound(s: State, v: nat, n: nat)
    requires n >= 1
    ensures Missing(s, v, n) <= (v + n - 1) / 1024 - v / 1024 + 1
    ensures (forall d :: v / 1024 <= d <= (v + n - 1) / 1024 ==> Points(s, KPde(d)) == None) ==>
      Missing(s, v, n) == (v + n - 1) / 1024 - v / 1024 + 1
  {
    hide Points;
    if n == 1 {
      assert Missing(s, v, 0) == 0;
    } else {
      MissingBound(s, v, n - 1);
      NextTable(v, v + n - 1);
    }
  }

  lemma NextTable(v: nat, x: nat)
    requires v < x
    ensures x / 1024 == (x - 1) / 1024 + B(FirstOfTable(v, x)) && v / 1024 <= (x - 1) / 1024
  {
  }

  /** All n pages are kernel pages outside the self-mapped slot. */
  ghost predicate KernelPages(v: nat, n: nat) {
    forall x :: v <= x < v + n ==> KSlot(x / 1024)
  }

  /** n pages from v on are mapped to frames from `frame` on, and no other translation has changed. */
  ghost predicate RegionMapped(s: State, s': State, base: seq<nat>, out: set<nat>, v: nat, frame: nat, n: nat, perm: nat)
    requires frame + n <= NVPAGES && perm < 4096
  {
    && BootInv(s', base, out) && s'.kdir == s.kdir
    && TablesFor(s, s', v, n)
    && |s'.free| + Missing(s, v, n) == |s.free|
    && MapsTo(s, s', v, frame, n, perm)
  }

  /** Exactly the tables that serve the region have been added, where they were missing. */
  ghost predicate TablesFor(s: State, s': State, v: nat, n: nat) {
    forall d: nat :: Points(s', KPde(d)).Some? <==> Points(s, KPde(d)).Some? || Serves(v, n, d)
  }

  /** Exactly the translations of the region have changed. */
  ghost predicate MapsTo(s: State, s': State, v: nat, frame: nat, n: nat, perm: nat)
    requires frame + n <= NVPAGES && perm < 4096
  {
    forall x :: 0 <= x < NVPAGES && x / 1024 != UVPTX ==>
      Translate(s', s.kdir, x) == if v <= x < v + n then Some(Pack(frame + x - v, perm)) else Translate(s, s.kdir, x)
  }

  /** The table of directory slot d serves some of the n pages from v on. */
  predicate Serves(v: nat, n: nat, d: nat) { n > 0 && v / 1024 <= d <= (v + n - 1) / 1024 }

  lemma RegionMappedStep(s: State, s1: State, base: seq<nat>, out: set<nat>, v: nat, frame: nat, n: nat, perm: nat)
    requires n > 0 && frame + n <= NVPAGES && perm < 4096 && KernelPages(v, n)
    requires RegionMapped(s, s1, base, out, v, frame, n - 1, perm)
    ensures MapPage(s1, v + n - 1, frame + n - 1, perm) == None <==> Missing(s, v, n) > |s.free|
    ensures MapPage(s1, v + n - 1, frame + n - 1, perm).Some? ==>
      RegionMapped(s, MapPage(s1, v + n - 1, frame + n - 1, perm).value, base, out, v, frame, n, perm)
  {
    hide BootInv, MapPage, MapsTo, TablesFor, Points, Translate, Serves, FirstOfTable;
    var x := v + n - 1;
    assert KSlot(x / 1024);
    MapPageInv(s1, base, out, x, frame + n - 1, perm);
    TableStep(s, s1, v, n);
    if MapPage(s1, x, frame + n - 1, perm).Some? {
      var s' := MapPage(s1, x, frame + n - 1, perm).value;
      TablesStep(s, s1, s', v, n);
      MapsToStep(s, s1, s', v, frame, n, perm);
    }
  }

  /** The table of the last page is missing exactly when it was and no earlier page has called for it. */
  lemma TableStep(s: State, s1: State, v: nat, n: nat)
    requires n > 0 && TablesFor(s, s1, v, n - 1)
    ensures Points(s1, KPde((v + n - 1) / 1024)) == None <==>
      FirstOfTable(v, v + n - 1) && Points(s, KPde((v + n - 1) / 1024)) == None
  {
    hide Points;
    if n > 1 { NextTable(v, v + n - 1); }
  }

  lemma TablesStep(s: State, s1: State, s': State, v: nat, n: nat)
    requires n > 0 && TablesFor(s, s1, v, n - 1)
    requires forall r :: r != KPde((v + n - 1) / 1024) ==> Points(s', r) == Points(s1, r)
    requires Points(s', KPde((v + n - 1) / 1024)).Some?
    ensures TablesFor(s, s', v, n)
  {
    hide Points;
    var x := v + n - 1;
    if n > 1 { NextTable(v, x); }
    forall d: nat ensures Points(s', KPde(d)).Some? <==> Points(s, KPde(d)).Some? || Serves(v, n, d) {
      assert Serves(v, n, d) <==> Serves(v, n - 1, d) || d == x / 1024;
    }
  }

  lemma MapsToStep(s: State, s1: State, s': State, v: nat, frame: nat, n: nat, perm: nat)
    requires n > 0 && frame + n <= NVPAGES && perm < 4096 && s1.kdir == s.kdir && MapsTo(s, s1, v, frame, n - 1, perm)
    requires forall x :: 0 <= x < NVPAGES && x / 1024 != UVPTX ==>
      Translate(s', s1.kdir, x) == if x == v + n - 1 then Some(Pack(frame + n - 1, perm)) else Translate(s1, s1.kdir, x)
    ensures MapsTo(s, s', v, frame, n, perm)
  {
    hide Translate, Pack;
  }

  /**
    boot_map_region maps all n pages exactly when there is a free page for every table
    that is missing; then exactly those translations change, and exactly those tables
    appear.
  */
  lemma {:induction false} MapPagesInv(s: State, base: seq<nat>, out: set<nat>, v: nat, frame: nat, n: nat, perm: nat)
    requires BootInv(s, base, out) && frame + n <= NVPAGES && perm < 4096 && KernelPages(v, n)
    ensures MapPages(s, v, frame, n, perm).Some? <==> |s.free| >= Missing(s, v, n)
    ensures MapPages(s, v, frame, n, perm).Some? ==>
      RegionMapped(s, MapPages(s, v, frame, n, perm).value, base, out, v, frame, n, perm)
  {
    if n > 0 {
      hide Inv, BootInv, MapPage;
      assert KernelPages(v, n - 1);
      MapPagesInv(s, base, out, v, frame, n - 1, perm);
      if MapPages(s, v, frame, n - 1, perm).Some? {
        RegionMappedStep(s, MapPages(s, v, frame, n - 1, perm).value, base, out, v, frame, n, perm);
      }
    }
  }

  /**
    boot_map_region maps the longest prefix of the region whose missing tables the free
    pages pay for, and changes no other kernel translation. So it maps the whole region
    exactly when the free pages pay for all missing tables; when it stops short, without
    a word, no free page is left.
  */
  lemma MapRegionInv(s: State, base: seq<nat>, out: set<nat>, va: Word, size: Word, pa: Word, perm: nat)
    requires BootInv(s, base, out) && va % PGSIZE == 0 && pa % PGSIZE == 0 && perm < 4096
    requires PGNUM(pa) + PGNUM(size) <= NVPAGES && KernelPages(PGNUM(va), PGNUM(size))
    ensures var v, n, s' := PGNUM(va), PGNUM(size), MapRegion(s, va, size, pa, perm);
      var k := Mapped(s, v, PGNUM(pa), n, perm);
      && RegionMapped(s, s', base, out, v, PGNUM(pa), k, perm)
      && (k == n <==> |s.free| >= Missing(s, v, n))
      && Missing(s, v, k) <= |s.free| && (k < n ==> s'.free == [] && Missing(s, v, k + 1) == |s.free| + 1)
  {
    hide BootInv, MapPages, Points;
    var v, f, n := PGNUM(va), PGNUM(pa), PGNUM(size);
    var k := Mapped(s, v, f, n, perm);
    MapPagesInv(s, base, out, v, f, k, perm);
    MapPagesInv(s, base, out, v, f, n, perm);
    MappedIsMaximal(s, v, f, n, perm);
    if k < n { MapPagesInv(s, base, out, v, f, k + 1, perm); }
  }

  /** The silent return at work: with no free page and no table, nothing of the region is mapped. */
  lemma MapRegionStopsShort(s: State, base: seq<nat>, out: set<nat>, va: Word, size: Word, pa: Word, perm: nat)
    requires BootInv(s, base, out) && va % PGSIZE == 0 && pa % PGSIZE == 0 && perm < 4096
    requires PGNUM(pa) + PGNUM(size) <= NVPAGES && KernelPages(PGNUM(va), PGNUM(size)) && size >= PGSIZE
    requires s.free == [] && Points(s, KPde(PGNUM(va) / 1024)) == None
    ensures Translate(MapRegion(s, va, size, pa, perm), s.kdir, PGNUM(va)) == None
  {
    hide BootInv, Points, Mapped, MapRegion;
    var v := PGNUM(va);
    MapRegionInv(s, base, out, va, size, pa, perm);
    assert Missing(s, v, 0) == 0 && Missing(s, v, 1) == 1;
    MissingGrows(s, v, 1, Mapped(s, v, PGNUM(pa), PGNUM(size), perm));
    assert KSlot(v / 1024);
    NoTable(s, base, out, v);
  }

  lemma {:induction false} MissingGrows(s: State, v: nat, m: nat, n: nat)
    ensures m <= n ==> Missing(s, v, m) <= Missing(s, v, n)
    decreases n
  {
    if m < n { MissingGrows(s, v, m, n - 1); }
  }

  lemma NoTable(s: State, base: seq<nat>, out: set<nat>, v: nat)
    requires BootInv(s, base, out) && KSlot(v / 1024) && Points(s, KPde(v / 1024)) == None
    ensures v < NVPAGES && Translate(s, s.kdir, v) == None
  {
    SecondLevel(s, s.kdir, v / 1024);
  }

  // ------------------------------------------------------------------ mem_init

  /** Where the boot allocator has put things: all in frames, and all below firstFree. */
  datatype Layout = Layout(npages: nat, nbase: nat, firstFree: nat, kdir: nat, pages: nat, envs: nat, stack: nat)

  predicate SaneLayout(l: Layout) {
    && l.npages <= 0x1_0000 && l.nbase <= IOHOLE
    && EXTMEM <= l.kdir < l.firstFree < l.npages
    && EXTMEM <= l.pages && l.pages + l.npages / 512 <= l.firstFree
    && EXTMEM <= l.envs && l.envs + 24 <= l.firstFree
    && EXTMEM <= l.stack && l.stack + 8 <= l.firstFree
  }

  /**
    The state that page_init leaves: an empty kern_pgdir but for its self map, and no
    environment. The list may be in any order: check_page_free_list has reordered it by
    the time the regions are mapped.
  */
  ghost predicate AfterPageInit(s: State, l: Layout) {
    && |s.mem| == |s.refs| == l.npages && s.kdir == l.kdir < l.npages
    && (forall f :: 0 <= f < |s.mem| ==> |s.mem[f]| == 1024)
    && (forall d :: 0 <= d < 1024 && d != UVPTX ==> s.mem[l.kdir][d] == 0)
    && (l.kdir < NVPAGES ==> s.mem[l.kdir][UVPTX] == Pack(l.kdir, PTE_U + PTE_P))
    && (forall i :: 0 <= i < l.npages ==> s.refs[i] == BootRef(i, l.firstFree))
    && NoDup(s.free) && (forall i: nat :: i in s.free <==> i in BootFree(l.npages, l.nbase, l.firstFree))
    && (forall e :: DirOf(s, e) == None)
  }

  /** Pages of base memory that page_init neither lists nor marks. */
  function Unlisted(l: Layout): set<nat> {
    var lo := if l.nbase == 0 then 1 else l.nbase;
    set i | i in Down(IOHOLE, lo)
  }

  lemma BootPoints(s: State, l: Layout)
    requires SaneLayout(l) && AfterPageInit(s, l)
    ensures forall r :: Points(s, r) == None
  {
    forall r ensures Points(s, r) == None {
      match r
      case Dir(e) => assert DirOf(s, e) == None;
      case Pde(e, _) => assert DirOf(s, e) == None;
      case Pte(e, _, _) => assert DirOf(s, e) == None;
      case KPde(d) =>
    }
  }

  /** After page_init the ledger holds, with the boot-time counts as its base. */
  lemma AfterPageInitInv(s: State, l: Layout)
    requires SaneLayout(l) && AfterPageInit(s, l)
    ensures BootInv(s, s.refs, Unlisted(l))
  {
    hide AfterPageInit, Unlisted, BootFree;
    assert Shape(s) && KernelHalf(s) && Separate(s) by { BootShape(s, l); }
    BootPoints(s, l);
    BootList(s, l);
    NobodyNames(s);
    hide Shape, Separate, KernelHalf;
    assert Accounts(s, s.refs, Unlisted(l));
    forall e ensures DirOf(s, e) == None { assert Points(s, Dir(e)) == None; }
  }

  lemma BootShape(s: State, l: Layout)
    requires SaneLayout(l) && AfterPageInit(s, l)
    ensures Shape(s) && KernelHalf(s) && Separate(s) && s.refs[s.kdir] > 0
  {
    BootPoints(s, l);
    PackParts(l.kdir, PTE_U);
  }

  lemma BootList(s: State, l: Layout)
    requires SaneLayout(l) && AfterPageInit(s, l)
    ensures FreeList(s, Unlisted(l)) && s.kdir < |s.refs| && s.refs[s.kdir] > 0
  {
    DownShape(IOHOLE, if l.nbase == 0 then 1 else l.nbase);
    BootFreeShape(l.npages, l.nbase, l.firstFree);
    forall p: nat ensures p in s.free <==> p < |s.refs| && s.refs[p] == 0 && p !in Unlisted(l) {
      if p < |s.refs| { assert s.refs[p] == BootRef(p, l.firstFree); }
    }
  }

  lemma NobodyNames(s: State)
    requires Shape(s) && forall r: Ref :: Points(s, r) == None
    ensures forall p {:trigger Count(s, p)} :: 0 <= p < |s.refs| ==> Count(s, p) == 0
  {
    hide Points;
    forall p {:trigger Count(s, p)} | 0 <= p < |s.refs| ensures Count(s, p) == 0 {
      var h := Holders(s, p);
      forall r ensures r !in h { assert Points(s, r) == None; }
      assert h == {};
    }
  }

  /** The four regions that mem_init maps, in its order, and the switch to kern_pgdir. */
  ghost function MemInit(s: State, l: Layout): State
    requires SaneLayout(l)
  {
    var s2 := MapWindows(s, l);
    var s4 := MapPhysical(MapStack(s2, l));
    LoadCr3(s4, s4.kdir)
  }

  /** The kernel stack, below KSTACKTOP. */
  ghost function MapStack(s: State, l: Layout): State
    requires SaneLayout(l)
  {
    MapRegion(s, KSTACKTOP - KSTKSIZE, KSTKSIZE, FrameAddr(l.stack), PTE_W + PTE_P)
  }

  /** All physical memory, at KERNBASE. */
  ghost function MapPhysical(s: State): State { MapRegion(s, KERNBASE, 0x1000_0000, FrameAddr(0), PTE_W + PTE_P) }

  /** The read-only windows on pages[] and envs[]. */
  ghost function MapWindows(s: State, l: Layout): State
    requires SaneLayout(l)
  {
    var s1 := MapRegion(s, UPAGES, l.npages * 8, FrameAddr(l.pages), PTE_U + PTE_P);
    MapRegion(s1, UENVS, 24 * PGSIZE, FrameAddr(l.envs), PTE_U + PTE_P)
  }

  /** The kernel half of the virtual memory map, page by page. */
  function KernelMap(l: Layout, v: nat): Option<Word>
    requires SaneLayout(l) && v < NVPAGES
  {
    if v >= KERNBASE / PGSIZE then Some(Pack(v - KERNBASE / PGSIZE, PTE_W + PTE_P))
    else if v >= KSTACKTOP / PGSIZE - 8 then Some(Pack(l.stack + v - (KSTACKTOP / PGSIZE - 8), PTE_W + PTE_P))
    else if UPAGES / PGSIZE <= v < UPAGES / PGSIZE + l.npages / 512 then Some(Pack(l.pages + v - UPAGES / PGSIZE, PTE_U + PTE_P))
    else if UENVS / PGSIZE <= v < UENVS / PGSIZE + 24 then Some(Pack(l.envs + v - UENVS / PGSIZE, PTE_U + PTE_P))
    else None
  }

  lemma KernelRange(v: nat, n: nat)
    requires UTOPX * 1024 <= v && v + n <= NVPAGES && (v + n <= UVPTX * 1024 || (UVPTX + 1) * 1024 <= v)
    ensures KernelPages(v, n)
  {
  }

  /** A range of kernel pages outside the self-mapped slot, and frames and permissions for it. */
  predicate InKernel(va: Word, size: Word, frame: nat, perm: nat) {
    && va % PGSIZE == 0 && perm < 4096 && frame < NVPAGES && frame + PGNUM(size) <= NVPAGES
    && UTOP <= va && PGNUM(va) + PGNUM(size) <= NVPAGES
    && (PGNUM(va) + PGNUM(size) <= UVPTX * 1024 || (UVPTX + 1) * 1024 <= PGNUM(va))
  }

  /** What is left of a after taking b, if there is that much. */
  function Left(a: nat, b: nat): nat { if a >= b then a - b else 0 }

  /** No kernel page of kern_pgdir is open to user stores. */
  ghost predicate SafeMap(s: State) {
    forall v: nat :: KernelPage(v) ==> Closed(Translate(s, s.kdir, v))
  }

  /** perm grants both user access and stores. */
  predicate BothBits(perm: nat) { perm / 2 % 2 == 1 && perm / 4 % 2 == 1 }

  lemma MapsToSafe(s: State, s': State, v: nat, frame: nat, n: nat, perm: nat)
    requires frame + n <= NVPAGES && perm < 4096 && s'.kdir == s.kdir && MapsTo(s, s', v, frame, n, perm)
    requires SafeMap(s) && !BothBits(perm)
    ensures SafeMap(s')
  {
    hide Translate, Pack;
    forall x: nat | KernelPage(x) ensures Closed(Translate(s', s'.kdir, x)) {
      assert x < NVPAGES;
      if v <= x < v + n { PackBits(frame + x - v, perm); }
    }
  }

  /** One of mem_init's regions, none of whose page tables exists yet; it needs `tables` of them. */
  ghost predicate Stage(s: State, s': State, base: seq<nat>, out: set<nat>, v: nat, n: nat, frame: nat, perm: nat, tables: nat)
    requires frame + n <= NVPAGES && perm < 4096
  {
    && BootInv(s', base, out) && s'.kdir == s.kdir && |s'.free| == Left(|s.free|, tables)
    && (forall d: nat :: !Serves(v, n, d) && Points(s, KPde(d)) == None ==> Points(s', KPde(d)) == None)
    && (|s.free| >= tables ==> MapsTo(s, s', v, frame, n, perm))
    && (SafeMap(s) && !BothBits(perm) ==> SafeMap(s'))
    && (|s.free| < tables ==> n > 0 && (v + n <= NVPAGES ==> Translate(s', s.kdir, v + n - 1) == Translate(s, s.kdir, v + n - 1)))
  }

  lemma StageInv(s: State, base: seq<nat>, out: set<nat>, va: Word, size: Word, frame: nat, perm: nat, tables: nat)
    requires BootInv(s, base, out) && InKernel(va, size, frame, perm)
    requires tables == if PGNUM(size) == 0 then 0 else (PGNUM(va) + PGNUM(size) - 1) / 1024 - PGNUM(va) / 1024 + 1
    requires forall d: nat :: Serves(PGNUM(va), PGNUM(size), d) ==> Points(s, KPde(d)) == None
    ensures Stage(s, MapRegion(s, va, size, FrameAddr(frame), perm), base, out, PGNUM(va), PGNUM(size), frame, perm, tables)
  {
    hide Inv, BootInv, Points, Translate, Mapped, MapRegion, Missing, MapsTo, KernelPages, SafeMap, BothBits;
    var v, n := PGNUM(va), PGNUM(size);
    KernelRange(v, n);
    if n > 0 { MissingBound(s, v, n); } else { NothingMissing(s, v); }
    MapRegionInv(s, base, out, va, size, FrameAddr(frame), perm);
    var k := Mapped(s, v, frame, n, perm);
    if SafeMap(s) && !BothBits(perm) { MapsToSafe(s, MapRegion(s, va, size, FrameAddr(frame), perm), v, frame, k, perm); }
    if k < n { Beyond(s, MapRegion(s, va, size, FrameAddr(frame), perm), v, frame, k, n, perm); }
  }

  lemma NothingMissing(s: State, v: nat)
    ensures Missing(s, v, 0) == 0
  {
  }

  /** A prefix that stops short leaves the last page of the region as it was. */
  lemma Beyond(s: State, s': State, v: nat, frame: nat, k: nat, n: nat, perm: nat)
    requires k < n && frame + n <= NVPAGES && perm < 4096 && MapsTo(s, s', v, frame, k, perm) && KernelPages(v, n)
    ensures v + n <= NVPAGES ==> Translate(s', s.kdir, v + n - 1) == Translate(s, s.kdir, v + n - 1)
  {
    hide Translate;
    assert KSlot((v + n - 1) / 1024);
  }

  /** The page tables of the four regions: one each, none for an empty window on pages[], and 64 for KERNBASE. */
  function TablesNeeded(l: Layout): nat { B(l.npages >= 512) + 66 }

  /** The states between the four regions of mem_init. */
  ghost predicate Stages(s: State, l: Layout, s1: State, s2: State, s3: State, s4: State, base: seq<nat>, out: set<nat>)
    requires SaneLayout(l)
  {
    && Stage(s, s1, base, out, UPAGES / PGSIZE, l.npages / 512, l.pages, PTE_U + PTE_P, B(l.npages >= 512))
    && Stage(s1, s2, base, out, UENVS / PGSIZE, 24, l.envs, PTE_U + PTE_P, 1)
    && Stage(s2, s3, base, out, KSTACKTOP / PGSIZE - 8, 8, l.stack, PTE_W + PTE_P, 1)
    && Stage(s3, s4, base, out, KERNBASE / PGSIZE, 0x1_0000, 0, PTE_W + PTE_P, 64)
    && (forall d: nat :: KSlot(d) && d >= 960 ==> Points(s3, KPde(d)) == None)
    && MemInit(s, l) == LoadCr3(s4, s4.kdir)
  }

  lemma MemInitStages(s: State, l: Layout) returns (s1: State, s2: State, s3: State, s4: State)
    requires SaneLayout(l) && AfterPageInit(s, l)
    ensures BootInv(s, s.refs, Unlisted(l)) && s.kdir == l.kdir && Stages(s, l, s1, s2, s3, s4, s.refs, Unlisted(l))
  {
    hide Inv, BootInv, Points, Translate, MapRegion, MapsTo, Pack, FrameAddr, AfterPageInit;
    AfterPageInitInv(s, l);
    NothingMappedYet(s, l, 0);
    BootPoints(s, l);
    var base, out := s.refs, Unlisted(l);
    WindowPages(l.npages);
    StageInv(s, base, out, UPAGES, l.npages * 8, l.pages, PTE_U + PTE_P, B(l.npages >= 512));
    s1 := MapRegion(s, UPAGES, l.npages * 8, FrameAddr(l.pages), PTE_U + PTE_P);
    StageInv(s1, base, out, UENVS, 24 * PGSIZE, l.envs, PTE_U + PTE_P, 1);
    s2 := MapRegion(s1, UENVS, 24 * PGSIZE, FrameAddr(l.envs), PTE_U + PTE_P);
    StageInv(s2, base, out, KSTACKTOP - KSTKSIZE, KSTKSIZE, l.stack, PTE_W + PTE_P, 1);
    s3 := MapRegion(s2, KSTACKTOP - KSTKSIZE, KSTKSIZE, FrameAddr(l.stack), PTE_W + PTE_P);
    StageInv(s3, base, out, KERNBASE, 0x1000_0000, 0, PTE_W + PTE_P, 64);
    s4 := MapRegion(s3, KERNBASE, 0x1000_0000, FrameAddr(0), PTE_W + PTE_P);
  }

  lemma WindowPages(npages: nat)
    requires npages <= 0x1_0000
    ensures npages * 8 / PGSIZE == npages / 512 <= 128 && (npages / 512 == 0 <==> npages < 512)
  {
    assert npages * 8 == 4096 * (npages / 512) + 8 * (npages % 512);
  }

  /**
    mem_init builds exactly the documented kernel half: all physical memory at KERNBASE,
    the kernel stack with an unmapped guard below it, the read-only pages[] and envs[]
    windows, and an empty user half.
  */
  lemma MemInitLayout(s: State, l: Layout, v: nat)
    requires SaneLayout(l) && AfterPageInit(s, l) && |s.free| >= TablesNeeded(l)
    requires v < NVPAGES && v / 1024 != UVPTX
    ensures var s' := MemInit(s, l); s'.cr3 == s'.kdir == l.kdir && Translate(s', l.kdir, v) == KernelMap(l, v)
  {
    hide Inv, BootInv, Points, Translate, MemInit, AfterPageInit, Pack, Serves;
    var s1, s2, s3, s4 := MemInitStages(s, l);
    NothingMappedYet(s, l, v);
    TranslateSame(s4, LoadCr3(s4, s4.kdir), l.kdir, v);
  }

  /**
    It does so exactly when there is a free page for each of the page tables; with fewer,
    the top of physical memory stays unmapped and nothing is reported.
  */
  lemma MemInitCompleteIff(s: State, l: Layout)
    requires SaneLayout(l) && AfterPageInit(s, l)
    ensures (forall v :: 0 <= v < NVPAGES && v / 1024 != UVPTX ==> Translate(MemInit(s, l), l.kdir, v) == KernelMap(l, v))
      <==> |s.free| >= TablesNeeded(l)
    ensures |s.free| < TablesNeeded(l) ==> Translate(MemInit(s, l), l.kdir, NVPAGES - 1) == None
  {
    hide Inv, BootInv, Points, Translate, MemInit, AfterPageInit, Pack, Serves, MapsTo;
    if |s.free| >= TablesNeeded(l) {
      forall v | 0 <= v < NVPAGES && v / 1024 != UVPTX ensures Translate(MemInit(s, l), l.kdir, v) == KernelMap(l, v) {
        MemInitLayout(s, l, v);
      }
    } else {
      var s1, s2, s3, s4 := MemInitStages(s, l);
      assert |s3.free| < 64;
      var x := NVPAGES - 1;
      assert x / 1024 == 1023;
      NoTable(s3, s.refs, Unlisted(l), x);
      TranslateSame(s4, LoadCr3(s4, s4.kdir), l.kdir, x);
      assert Translate(MemInit(s, l), l.kdir, x) == None != KernelMap(l, x);
    }
  }

  /** However far it gets, mem_init leaves the kernel on kern_pgdir with everything accounted for. */
  lemma MemInitInv(s: State, l: Layout)
    requires SaneLayout(l) && AfterPageInit(s, l)
    ensures BootInv(MemInit(s, l), s.refs, Unlisted(l)) && MemInit(s, l).cr3 == MemInit(s, l).kdir == l.kdir
  {
    hide Inv, BootInv, Points, Translate, MemInit, AfterPageInit, Pack, Serves, MapsTo;
    var s1, s2, s3, s4 := MemInitStages(s, l);
    FinishBoot(s4, s.refs, Unlisted(l), 0);
  }

  lemma NothingMappedYet(s: State, l: Layout, v: nat)
    requires SaneLayout(l) && AfterPageInit(s, l) && v < NVPAGES && v / 1024 != UVPTX
    ensures Translate(s, l.kdir, v) == None && s.kdir == l.kdir
  {
  }

  lemma FinishBoot(s: State, base: seq<nat>, out: set<nat>, v: nat)
    requires BootInv(s, base, out)
    ensures BootInv(LoadCr3(s, s.kdir), base, out) && Translate(LoadCr3(s, s.kdir), s.kdir, v) == Translate(s, s.kdir, v)
  {
    InvSame(s, LoadCr3(s, s.kdir), base, out);
    forall e ensures DirOf(LoadCr3(s, s.kdir), e) == None { assert DirOf(s, e) == None; }
  }

  /** The window at UPAGES shows every element of pages[], 8 bytes each, exactly when npages is a multiple of 512. */
  lemma PagesWindowIff(s: State, l: Layout)
    requires SaneLayout(l) && AfterPageInit(s, l) && |s.free| >= TablesNeeded(l)
    ensures (forall k :: 0 <= k < l.npages ==>
        Target(Translate(MemInit(s, l), l.kdir, (UPAGES + 8 * k) / PGSIZE)) == Some(l.pages + 8 * k / PGSIZE))
      <==> l.npages % 512 == 0
  {
    hide MemInit, AfterPageInit, Translate, BootInv, Pack, FrameOf;
    forall k | 0 <= k < l.npages
      ensures Target(Translate(MemInit(s, l), l.kdir, (UPAGES + 8 * k) / PGSIZE)) ==
        if k / 512 < l.npages / 512 then Some(l.pages + k / 512) else None
    {
      ElementPage(k);
      MemInitLayout(s, l, UPAGES / PGSIZE + k / 512);
      if k / 512 < l.npages / 512 { PackParts(l.pages + k / 512, PTE_U + PTE_P); }
    }
    var last := l.npages - 1;
    assert l.npages % 512 != 0 ==> last / 512 == l.npages / 512;
    forall k | 0 <= k < l.npages && l.npages % 512 == 0 ensures k / 512 < l.npages / 512 && 8 * k / PGSIZE == k / 512 {
      ElementPage(k);
    }
  }

  lemma ElementPage(k: nat)
    requires k < 0x1_0000
    ensures (UPAGES + 8 * k) / PGSIZE == UPAGES / PGSIZE + k / 512 && 8 * k / PGSIZE == k / 512
    ensures (UPAGES / PGSIZE + k / 512) / 1024 != UVPTX && UPAGES / PGSIZE + k / 512 < UPAGES / PGSIZE + 128
  {
    var q, r := k / 512, k % 512;
    assert 8 * k == 4096 * q + 8 * r;
  }

  // ----------------------------------------------------- the state runs start from

  function Upto(n: nat): (r: seq<nat>)
    ensures |r| == n && forall i :: 0 <= i < n ==> r[i] == i
  {
    seq(n, i => i)
  }

  /** The environment table after env_init: all slots free, in order, with no identifier yet. */
  ghost predicate AfterEnvInit(s: Sys) {
    && |s.envs| == |s.vm.dirs| == NENV && s.cur == None
    && s.freeEnvs == Upto(NENV)
    && (forall i :: 0 <= i < NENV ==> s.envs[i].status == Free && s.envs[i].id == 0)
  }

  lemma FreshSlots(s: Sys)
    requires AfterEnvInit(s) && (forall e :: DirOf(s.vm, e) == None)
    ensures EnvInv(s, seq(NENV, _ => 0))
  {
    forall i: nat ensures i in s.freeEnvs <==> i < NENV && s.envs[i].status == Free {
      if i < NENV { assert s.freeEnvs[i] == i; }
    }
    forall i | 0 <= i < NENV ensures s.vm.dirs[i] == None { assert DirOf(s.vm, i) == None; }
  }

  /** However far mem_init gets, no kernel page is open to user stores. */
  lemma MemInitGuard(s: State, l: Layout)
    requires SaneLayout(l) && AfterPageInit(s, l)
    ensures Guard(MemInit(s, l))
  {
    hide Inv, BootInv, Points, MemInit, AfterPageInit, Pack, Serves, MapsTo;
    var s1, s2, s3, s4 := MemInitStages(s, l);
    forall v: nat | KernelPage(v) ensures Translate(s, s.kdir, v) == None { NothingMappedYet(s, l, v); }
    assert SafeMap(s4) by { hide Translate; }
    FlushedTlb(s, l);
    forall v: nat | KernelPage(v) ensures Closed(Translate(MemInit(s, l), s4.kdir, v)) {
      TranslateSame(s4, LoadCr3(s4, s4.kdir), s4.kdir, v);
    }
  }

  lemma FlushedTlb(s: State, l: Layout)
    requires SaneLayout(l)
    ensures MemInit(s, l).tlb == map[] && Coherent(MemInit(s, l))
  {
  }

  /** Boot establishes the invariant from which every run proceeds. */
  lemma BootConfig(s: State, l: Layout, sys: Sys)
    requires SaneLayout(l) && AfterPageInit(s, l)
    requires sys.vm == MemInit(s, l) && AfterEnvInit(sys)
    ensures ConfigInv(Config(sys, Unlisted(l), seq(NENV, _ => 0)), s.refs)
  {
    hide Inv, MemInit, AfterPageInit, Coherent, AfterEnvInit, Guard;
    MemInitInv(s, l);
    MemInitGuard(s, l);
    FlushedTlb(s, l);
    FreshSlots(sys);
  }
}
