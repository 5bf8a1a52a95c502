/**
  The page operations of kern/pmap.c as functions on the paging state, and the
  proof that each of them keeps the frame ledger and the separation of roles.
*/
module PageOps {
  import opened Mmu
  import opened Vm
  import opened VmSteps

  // -------------------------------------------------------------- operations

  ghost predicate Ready(s: State) {
    Shape(s) && forall i :: 0 <= i < |s.free| ==> s.free[i] < |s.refs|
  }

  /** page_alloc, when the list is not empty; the page handed out is s.free[0]. */
  function Alloc(s: State, zero: bool): (s': State)
    requires Ready(s) && s.free != []
    ensures Ready(s') && |s'.refs| == |s.refs| && s'.dirs == s.dirs && s'.kdir == s.kdir
  {
    var p := s.free[0];
    s.(free := s.free[1..], refs := s.refs[p := 0], mem := if zero then s.mem[p := ZeroFrame()] else s.mem)
  }

  /** page_free */
  function Release(s: State, p: nat): State {
    s.(free := [p] + s.free)
  }

  /** page_decref */
  function Decref(s: State, p: nat): (s': State)
    requires p < |s.refs|
    ensures |s'.refs| == |s.refs| && s'.mem == s.mem && s'.dirs == s.dirs && s'.kdir == s.kdir
    ensures Ready(s) ==> Ready(s')
  {
    var s1 := s.(refs := s.refs[p := Drop(s.refs[p])]);
    if s1.refs[p] == 0 then Release(s1, p) else s1
  }

  function Incref(s: State, p: nat): (s': State)
    requires p < |s.refs|
    ensures Ready(s) ==> Ready(s')
  {
    s.(refs := s.refs[p := Bump(s.refs[p])])
  }

  /** Entry d of directory dir, if present, names a frame that exists (KADDR does not panic). */
  ghost predicate Walkable(s: State, dir: nat, d: nat) {
    && Ready(s) && dir < |s.mem| && d < 1024
    && (Present(s.mem[dir][d]) ==> FrameOf(s.mem[dir][d]) < |s.mem|)
  }

  /** The effect of pgdir_walk with create set; None when no page is left. */
  function WalkCreate(s: State, dir: nat, d: nat): (r: Option<State>)
    requires Walkable(s, dir, d)
    ensures r.Some? ==> Ready(r.value) && |r.value.refs| == |s.refs|
  {
    if Present(s.mem[dir][d]) then Some(s)
    else if s.free == [] then None
    else
      var p := s.free[0];
      Some(SetWord(Incref(Alloc(s, true), p), dir, d, Pack(p, PTE_P + PTE_W + PTE_U)))
  }

  /** pa2page does not panic on the entry that the walk of v finds. */
  ghost predicate Removable(s: State, dir: nat, v: nat) {
    && Walkable(s, dir, v / 1024)
    && (Present(s.mem[dir][v / 1024]) ==> FrameOf(s.mem[FrameOf(s.mem[dir][v / 1024])][v % 1024]) < |s.refs|)
  }

  /** page_remove: the entry is looked up without testing its present bit. */
  function Remove(s: State, dir: nat, v: nat): State
    requires Removable(s, dir, v)
  {
    if !Present(s.mem[dir][v / 1024]) then s
    else
      var tab := FrameOf(s.mem[dir][v / 1024]);
      var s1 := SetWord(Decref(s, FrameOf(s.mem[tab][v % 1024])), tab, v % 1024, 0);
      s1.(tlb := s1.tlb - {v})
  }

  /** The table of v exists, and its entry, if present, names a frame that exists. */
  ghost predicate Mappable(s: State, dir: nat, v: nat) {
    && Walkable(s, dir, v / 1024) && Present(s.mem[dir][v / 1024])
    && var w := s.mem[FrameOf(s.mem[dir][v / 1024])][v % 1024]; Present(w) ==> FrameOf(w) < |s.refs|
  }

  /** page_insert once the table of v exists. */
  function InsertAt(s: State, dir: nat, pp: nat, v: nat, perm: nat): State
    requires Mappable(s, dir, v) && pp < |s.refs| && perm < 4096
  {
    var tab := FrameOf(s.mem[dir][v / 1024]);
    var was := s.mem[tab][v % 1024];
    if Present(was) && FrameOf(was) == pp then
      SetWord(s, tab, v % 1024, Pack(pp, perm))
    else
      var s1 := if Present(was) then Remove(s, dir, v) else s;
      Incref(SetWord(s1, tab, v % 1024, Pack(pp, perm)), pp)
  }

  ghost predicate Insertable(s: State, dir: nat, pp: nat, v: nat, perm: nat) {
    && Walkable(s, dir, v / 1024) && pp < |s.refs| && perm < 4096
    && (WalkCreate(s, dir, v / 1024).Some? ==> Mappable(WalkCreate(s, dir, v / 1024).value, dir, v))
  }

  /** page_insert; None is -E_NO_MEM. */
  function Insert(s: State, dir: nat, pp: nat, v: nat, perm: nat): Option<State>
    requires Insertable(s, dir, pp, v, perm)
  {
    match WalkCreate(s, dir, v / 1024)
    case None => None
    case Some(s1) => Some(InsertAt(s1, dir, pp, v, perm))
  }

  // ------------------------------------------------------------ preservation

  lemma AllocInv(s: State, base: seq<nat>, out: set<nat>, zero: bool)
    requires Inv(s, base, out) && s.free != []
    ensures Ready(s)
    ensures var s', p := Alloc(s, zero), s.free[0];
      && Inv(s', base, out + {p})
      && (forall r :: Points(s', r) == Points(s, r))
      && (forall r :: Points(s, r) != Some(p))
      && p != s.kdir && base[p] == 0 && s.refs[p] == 0 && p !in s'.free
  {
    hide KernelHalf;
    assert Ready(s) by { assert forall i :: 0 <= i < |s.free| ==> s.free[i] in s.free; }
    var s', p := Alloc(s, zero), s.free[0];
    assert p in s.free;
    Unnamed(s, base, out, p);
    PointsStable(s, s');
    SeparateStep(s, s', Dir(0));
    AllocList(s, out, zero);
    AccountsStep(s, s', base, out, out + {p}, Dir(0));
    AllocKernelHalf(s, s', p);
  }

  /** page_alloc zeroes the page it hands out if asked to, and touches no other frame. */
  lemma AllocContents(s: State, zero: bool)
    requires Ready(s) && s.free != []
    ensures |Alloc(s, zero).mem| == |s.mem|
    ensures forall f :: 0 <= f < |s.mem| && (f != s.free[0] || !zero) ==> Alloc(s, zero).mem[f] == s.mem[f]
    ensures zero ==> forall i :: 0 <= i < 1024 ==> Alloc(s, zero).mem[s.free[0]][i] == 0
  {
  }

  /** The list without its head. */
  lemma AllocList(s: State, out: set<nat>, zero: bool)
    requires Ready(s) && s.free != [] && s.refs[s.free[0]] == 0 && FreeList(s, out)
    ensures FreeList(Alloc(s, zero), out + {s.free[0]})
  {
    var p, s' := s.free[0], Alloc(s, zero);
    assert s.free == [p] + s'.free;
    forall q: nat ensures q in s'.free <==> q < |s'.refs| && s'.refs[q] == 0 && q !in out + {p} {
      if q in s.free && q != p { assert q in s'.free; }
    }
  }

  /** Writing a frame that is no directory leaves every kernel half alone. */
  lemma AllocKernelHalf(s: State, s': State, p: nat)
    requires Shape(s) && KernelHalf(s) && Shape(s') && s'.kdir == s.kdir && s'.dirs == s.dirs && |s'.mem| == |s.mem|
    requires p != s.kdir && forall g :: 0 <= g < |s.mem| && g != p ==> s'.mem[g] == s.mem[g]
    requires forall r: Ref :: Points(s, r) != Some(p)
    ensures KernelHalf(s')
  {
    forall e | DirOf(s', e).Some? ensures SharesKernelHalf(s', DirOf(s', e).value) {
      assert Points(s, Dir(e)) == DirOf(s, e);
    }
  }

  /** Giving frame p, so far out or mapped, one more reference through r0. */
  lemma Gain(s: State, s': State, base: seq<nat>, out: set<nat>, r0: Ref, p: nat)
    requires Inv(s, base, out) && Shape(s') && s'.kdir == s.kdir && |s'.mem| == |s.mem|
    requires forall r :: r != r0 ==> Points(s', r) == Points(s, r)
    requires Points(s, r0) == None && Points(s', r0) == Some(p)
    requires p < |s.refs| && p !in s.free && p != s.kdir && s.refs[p] < 0xFFFF
    requires s'.refs == s.refs[p := s.refs[p] + 1] && s'.free == s.free
    requires forall r :: r != r0 && (r0.IsTable() || r.IsTable()) ==> Points(s, r) != Some(p)
    requires base[p] == 0
    ensures Separate(s') && Accounts(s', base, out - {p})
  {
    SeparateStep(s, s', r0);
    AccountsStep(s, s', base, out, out - {p}, r0);
  }

  /** Taking the reference r0 away from frame p, and freeing p if it was the last. */
  lemma Lose(s: State, s': State, base: seq<nat>, out: set<nat>, r0: Ref, p: nat)
    requires Inv(s, base, out) && Shape(s') && s'.kdir == s.kdir && |s'.mem| == |s.mem|
    requires forall r :: r != r0 ==> Points(s', r) == Points(s, r)
    requires Points(s, r0) == Some(p) && Points(s', r0) == None && p < |s.refs|
    requires s'.refs == Decref(s, p).refs && s'.free == Decref(s, p).free
    ensures Separate(s') && Accounts(s', base, out)
  {
    Named(s, base, out, r0, p);
    SeparateStep(s, s', r0);
    assert s'.refs == s.refs[p := s.refs[p] - 1];
    assert FreeList(s', out) by {
      if s.refs[p] == 1 {
        assert s'.free == [p] + s.free;
        assert forall q :: q in s'.free <==> q == p || q in s.free;
      }
    }
    AccountsStep(s, s', base, out, out, r0);
  }

  lemma DirSound(s: State, e: nat)
    requires Shape(s) && Separate(s) && KernelHalf(s) && DirOf(s, e).Some?
    ensures DirOf(s, e).value < |s.mem| && DirOf(s, e).value != s.kdir && SharesKernelHalf(s, DirOf(s, e).value)
  {
    assert Points(s, Dir(e)) == DirOf(s, e);
  }

  lemma TableSound(s: State, e: nat, d: nat)
    requires Shape(s) && Separate(s) && TableOf(s, e, d).Some?
    ensures TableOf(s, e, d).value < |s.mem| && TableOf(s, e, d).value != s.kdir
    ensures DirOf(s, e).Some? && d < UTOPX && TableOf(s, e, d) != DirOf(s, e)
  {
    assert Points(s, Pde(e, d)) == TableOf(s, e, d);
    assert Points(s, Dir(e)) == DirOf(s, e);
  }

  /** Writing one frame below its kernel half leaves every kernel half alone. */
  lemma KernelHalfStable(s: State, s': State, f: nat)
    requires Shape(s) && Separate(s) && KernelHalf(s) && Shape(s')
    requires |s'.mem| == |s.mem| && s'.kdir == s.kdir && s'.dirs == s.dirs
    requires f < |s.mem| && f != s.kdir
    requires forall g :: 0 <= g < |s.mem| && g != f ==> s'.mem[g] == s.mem[g]
    requires || ((forall d :: UTOPX <= d < 1024 ==> s'.mem[f][d] == s.mem[f][d]) && (forall d :: 0 <= d < UTOPX && s'.mem[f][d] != s.mem[f][d] ==> OpenSlot(s'.mem[f][d])))
             || (forall e :: DirOf(s, e) != Some(f))
    ensures KernelHalf(s')
  {
    forall e | DirOf(s', e).Some? ensures SharesKernelHalf(s', DirOf(s', e).value) {
      assert SharesKernelHalf(s, DirOf(s, e).value);
    }
  }

  lemma LinkPoints(s: State, s': State, e: nat, d: nat, p: nat)
    requires Shape(s) && Separate(s) && DirOf(s, e).Some? && d < UTOPX && TableOf(s, e, d) == None
    requires DirOf(s, e).value < |s.mem| && p < |s.mem| && p != DirOf(s, e).value && EmptyTable(s, p)
    requires s'.mem == SetWord(s, DirOf(s, e).value, d, Pack(p, PTE_P + PTE_W + PTE_U)).mem
    requires s'.dirs == s.dirs && s'.kdir == s.kdir
    ensures forall r :: r != Pde(e, d) ==> Points(s', r) == Points(s, r)
    ensures Points(s', Pde(e, d)) == Some(p)
    ensures EmptyTable(s', p)
  {
    var w := Pack(p, PTE_P + PTE_W + PTE_U);
    PackParts(p, PTE_P + PTE_W + PTE_U);
    PointsAfterPde(s, e, d, w);
    var s1 := SetWord(s, DirOf(s, e).value, d, w);
    PointsSame(s1, s');
    forall t: nat ensures Entry(s', p, t) == None { assert Entry(s, p, t) == None; }
  }

  /** Hanging an empty table, in no other use, into an empty slot of a user half. */
  lemma LinkTable(s: State, base: seq<nat>, out: set<nat>, e: nat, d: nat, p: nat)
    requires Inv(s, base, out) && DirOf(s, e).Some? && d < UTOPX && TableOf(s, e, d) == None
    requires p in out && EmptyTable(s, p)
    ensures DirOf(s, e).value < |s.mem| && p < |s.mem|
    ensures var s' := SetWord(Incref(s, p), DirOf(s, e).value, d, Pack(p, PTE_P + PTE_W + PTE_U));
      && Inv(s', base, out - {p})
      && (forall r :: r != Pde(e, d) ==> Points(s', r) == Points(s, r))
      && Points(s', Pde(e, d)) == Some(p)
      && EmptyTable(s', p)
  {
    var dir := DirOf(s, e).value;
    DirSound(s, e);
    Unnamed(s, base, out, p);
    assert Points(s, Dir(e)) == Some(dir);
    assert Points(s, Pde(e, d)) == None;
    var s' := SetWord(Incref(s, p), dir, d, Pack(p, PTE_P + PTE_W + PTE_U));
    LinkPoints(s, s', e, d, p);
    Gain(s, s', base, out, Pde(e, d), p);
    PackBits(p, PTE_P + PTE_W + PTE_U);
    KernelHalfStable(s, s', dir);
  }

  lemma WalkCreateInv(s: State, base: seq<nat>, out: set<nat>, e: nat, d: nat)
    requires Inv(s, base, out) && DirOf(s, e).Some? && d < UTOPX
    ensures Walkable(s, DirOf(s, e).value, d)
    ensures TableOf(s, e, d).Some? ==> WalkCreate(s, DirOf(s, e).value, d) == Some(s)
    ensures TableOf(s, e, d) == None && s.free == [] ==> WalkCreate(s, DirOf(s, e).value, d) == None
    ensures TableOf(s, e, d) == None && s.free != [] ==>
      && WalkCreate(s, DirOf(s, e).value, d).Some?
      && var s' := WalkCreate(s, DirOf(s, e).value, d).value;
      && Inv(s', base, out)
      && (forall r :: r != Pde(e, d) ==> Points(s', r) == Points(s, r))
      && Points(s', Pde(e, d)) == Some(s.free[0])
      && EmptyTable(s', s.free[0])
      && s.free[0] < |s'.mem| && |s'.mem[s.free[0]]| == 1024 && (forall t :: 0 <= t < 1024 ==> s'.mem[s.free[0]][t] == 0)
  {
    DirSound(s, e);
    assert Points(s, Pde(e, d)) == TableOf(s, e, d);
    assert forall i :: 0 <= i < |s.free| ==> s.free[i] in s.free;
    if TableOf(s, e, d) == None && s.free != [] {
      var p := s.free[0];
      AllocInv(s, base, out, true);
      var s1 := Alloc(s, true);
      assert Points(s1, Pde(e, d)) == TableOf(s1, e, d);
      LinkTable(s1, base, out + {p}, e, d, p);
      assert p in s.free;
      assert out + {p} - {p} == out;
    }
  }

  // ------------------------------------------------------- one table entry

  /** A write of one table entry, whatever it does to the counts and the list. */
  lemma EntryPoints(s: State, s': State, e: nat, d: nat, t: nat, w: Word)
    requires Shape(s) && Separate(s) && TableOf(s, e, d).Some? && t < 1024
    requires TableOf(s, e, d).value < |s.mem|
    requires s'.mem == SetWord(s, TableOf(s, e, d).value, t, w).mem && s'.dirs == s.dirs && s'.kdir == s.kdir
    ensures forall r :: r != Pte(e, d, t) ==> Points(s', r) == Points(s, r)
    ensures Points(s', Pte(e, d, t)) == (if Present(w) then Some(FrameOf(w)) else None)
  {
    PointsAfterPte(s, e, d, t, w);
    PointsSame(SetWord(s, TableOf(s, e, d).value, t, w), s');
  }

  lemma TableIsNoDir(s: State, e: nat, d: nat)
    requires Separate(s) && TableOf(s, e, d).Some?
    ensures forall e2 :: DirOf(s, e2) != TableOf(s, e, d)
  {
    forall e2 ensures DirOf(s, e2) != TableOf(s, e, d) {
      assert Points(s, Pde(e, d)) == TableOf(s, e, d);
      assert Points(s, Dir(e2)) == DirOf(s, e2);
    }
  }

  /** The words behind a present user entry. */
  lemma EntryWords(s: State, e: nat, d: nat, t: nat)
    requires Shape(s) && Separate(s) && KernelHalf(s) && DirOf(s, e).Some? && d < UTOPX && t < 1024
    ensures DirOf(s, e).value < |s.mem|
    ensures TableOf(s, e, d).Some? <==> Present(s.mem[DirOf(s, e).value][d])
    ensures TableOf(s, e, d).Some? ==>
      && TableOf(s, e, d).value < |s.mem| && TableOf(s, e, d).value == FrameOf(s.mem[DirOf(s, e).value][d])
      && (Points(s, Pte(e, d, t)).Some? <==> Present(s.mem[TableOf(s, e, d).value][t]))
    ensures Points(s, Pte(e, d, t)).Some? ==>
      && TableOf(s, e, d).Some?
      && Points(s, Pte(e, d, t)).value == FrameOf(s.mem[TableOf(s, e, d).value][t]) < |s.refs|
  {
    DirSound(s, e);
    if TableOf(s, e, d).Some? {
      TableSound(s, e, d);
    }
  }

  lemma RemoveInv(s: State, base: seq<nat>, out: set<nat>, e: nat, v: nat)
    requires Inv(s, base, out) && DirOf(s, e).Some? && v / 1024 < UTOPX
    requires Points(s, Pte(e, v / 1024, v % 1024)).Some?
    ensures Removable(s, DirOf(s, e).value, v)
    ensures var s' := Remove(s, DirOf(s, e).value, v);
      && Inv(s', base, out)
      && (forall r :: r != Pte(e, v / 1024, v % 1024) ==> Points(s', r) == Points(s, r))
      && Points(s', Pte(e, v / 1024, v % 1024)) == None
  {
    var d, t := v / 1024, v % 1024;
    var dir := DirOf(s, e).value;
    EntryWords(s, e, d, t);
    assert forall i :: 0 <= i < |s.free| ==> s.free[i] in s.free;
    var tab := TableOf(s, e, d).value;
    var p := Points(s, Pte(e, d, t)).value;
    var s' := Remove(s, dir, v);
    EntryPoints(s, s', e, d, t, 0);
    TableSound(s, e, d);
    Lose(s, s', base, out, Pte(e, d, t), p);
    TableIsNoDir(s, e, d);
    KernelHalfStable(s, s', tab);
  }

  /** A frame that a user table entry may name: allocated, and no table or directory. */
  ghost predicate DataFrame(s: State, p: nat) {
    && p < |s.refs| && p !in s.free && p != s.kdir
    && forall r: Ref :: r.IsTable() ==> Points(s, r) != Some(p)
  }

  /** Filling an empty entry. */
  lemma FillInv(s: State, base: seq<nat>, out: set<nat>, e: nat, d: nat, t: nat, pp: nat, perm: nat)
    requires Inv(s, base, out) && TableOf(s, e, d).Some? && t < 1024 && Points(s, Pte(e, d, t)) == None
    requires DataFrame(s, pp) && perm < 4096 && s.refs[pp] < 0xFFFF && base[pp] == 0
    ensures TableOf(s, e, d).value < |s.mem|
    ensures var s' := Incref(SetWord(s, TableOf(s, e, d).value, t, Pack(pp, perm)), pp);
      && Inv(s', base, out - {pp})
      && (forall r :: r != Pte(e, d, t) ==> Points(s', r) == Points(s, r))
      && Points(s', Pte(e, d, t)) == Some(pp)
  {
    hide KernelHalf;
    TableSound(s, e, d);
    var s' := Incref(SetWord(s, TableOf(s, e, d).value, t, Pack(pp, perm)), pp);
    PackParts(pp, perm);
    EntryPoints(s, s', e, d, t, Pack(pp, perm));
    Gain(s, s', base, out, Pte(e, d, t), pp);
    TableIsNoDir(s, e, d);
    KernelHalfStable(s, s', TableOf(s, e, d).value);
  }

  /** Rewriting an entry with the frame it already names. */
  lemma RepermitInv(s: State, base: seq<nat>, out: set<nat>, e: nat, d: nat, t: nat, pp: nat, perm: nat)
    requires Inv(s, base, out) && TableOf(s, e, d).Some? && t < 1024 && Points(s, Pte(e, d, t)) == Some(pp)
    requires pp < |s.refs| && perm < 4096
    ensures TableOf(s, e, d).value < |s.mem|
    ensures var s' := SetWord(s, TableOf(s, e, d).value, t, Pack(pp, perm));
      && Inv(s', base, out)
      && (forall r :: Points(s', r) == Points(s, r))
  {
    TableSound(s, e, d);
    var s' := SetWord(s, TableOf(s, e, d).value, t, Pack(pp, perm));
    PackParts(pp, perm);
    EntryPoints(s, s', e, d, t, Pack(pp, perm));
    SeparateStep(s, s', Dir(0));
    AccountsStep(s, s', base, out, out, Dir(0));
    TableIsNoDir(s, e, d);
    KernelHalfStable(s, s', TableOf(s, e, d).value);
  }

  // -------------------------------------------------------------- page_insert

  /** What page_insert demands of its arguments. */
  ghost predicate InsertArgs(s: State, e: nat, pp: nat, v: nat, perm: nat) {
    DirOf(s, e).Some? && v / 1024 < UTOPX && DataFrame(s, pp) && perm < 4096
  }

  /** One more mapping of pp at v can be counted: it is there already, or pp has no boot-time use and pp_ref does not wrap. */
  ghost predicate Countable(s: State, base: seq<nat>, e: nat, pp: nat, v: nat) {
    || Points(s, Pte(e, v / 1024, v % 1024)) == Some(pp)
    || (pp < |base| && base[pp] == 0 && pp < |s.refs| && s.refs[pp] < 0xFFFF)
  }

  lemma WalkCreateKeepsData(s: State, base: seq<nat>, out: set<nat>, e: nat, d: nat, pp: nat)
    requires Inv(s, base, out) && DirOf(s, e).Some? && d < UTOPX && DataFrame(s, pp)
    ensures Walkable(s, DirOf(s, e).value, d)
    ensures WalkCreate(s, DirOf(s, e).value, d) == None <==> TableOf(s, e, d) == None && s.free == []
    ensures WalkCreate(s, DirOf(s, e).value, d).Some? ==>
      var s1 := WalkCreate(s, DirOf(s, e).value, d).value;
      && Inv(s1, base, out) && TableOf(s1, e, d).Some? && s1.dirs == s.dirs
      && (forall r :: r != Pde(e, d) ==> Points(s1, r) == Points(s, r))
      && DataFrame(s1, pp) && s1.refs[pp] == s.refs[pp]
      && Points(s1, Pde(e, d)) == (if TableOf(s, e, d).Some? then TableOf(s, e, d) else Some(s.free[0]))
  {
    hide Separate, KernelHalf, Shape;
    WalkCreateInv(s, base, out, e, d);
    if WalkCreate(s, DirOf(s, e).value, d).Some? {
      var s1 := WalkCreate(s, DirOf(s, e).value, d).value;
      assert Points(s1, Pde(e, d)) == TableOf(s1, e, d);
      if s1 != s {
        assert s.free[0] in s.free;
        assert s.free == [s.free[0]] + s1.free;
      }
    }
  }

  lemma MappableInv(s: State, base: seq<nat>, out: set<nat>, e: nat, v: nat)
    requires Inv(s, base, out) && TableOf(s, e, v / 1024).Some? && v / 1024 < UTOPX
    ensures DirOf(s, e).Some? && Mappable(s, DirOf(s, e).value, v)
  {
    EntryWords(s, e, v / 1024, v % 1024);
    assert forall i :: 0 <= i < |s.free| ==> s.free[i] in s.free;
  }

  /** The branch of page_insert that replaces another page's mapping. */
  lemma ReplaceInv(s: State, base: seq<nat>, out: set<nat>, e: nat, pp: nat, v: nat, perm: nat)
    requires Inv(s, base, out) && InsertArgs(s, e, pp, v, perm) && s.refs[pp] < 0xFFFF && base[pp] == 0
    requires Points(s, Pte(e, v / 1024, v % 1024)).Some? && Points(s, Pte(e, v / 1024, v % 1024)) != Some(pp)
    ensures Mappable(s, DirOf(s, e).value, v)
    ensures Inv(InsertAt(s, DirOf(s, e).value, pp, v, perm), base, out - {pp})
  {
    var d, t := v / 1024, v % 1024;
    MappableInv(s, base, out, e, v);
    EntryWords(s, e, d, t);
    RemoveInv(s, base, out, e, v);
    var s2 := Remove(s, DirOf(s, e).value, v);
    assert TableOf(s2, e, d) == TableOf(s, e, d) by {
      assert Points(s2, Pde(e, d)) == Points(s, Pde(e, d));
    }
    FillInv(s2, base, out, e, d, t, pp, perm);
  }

  /** All three branches of page_insert write the one entry, whatever they do to the counts. */
  lemma InsertAtPoints(s: State, base: seq<nat>, out: set<nat>, e: nat, pp: nat, v: nat, perm: nat)
    requires Inv(s, base, out) && InsertArgs(s, e, pp, v, perm) && TableOf(s, e, v / 1024).Some?
    ensures Mappable(s, DirOf(s, e).value, v) && TableOf(s, e, v / 1024).value < |s.mem|
    ensures var s' := InsertAt(s, DirOf(s, e).value, pp, v, perm);
      && s'.mem == SetWord(s, TableOf(s, e, v / 1024).value, v % 1024, Pack(pp, perm)).mem
      && s'.dirs == s.dirs && s'.kdir == s.kdir && |s'.refs| == |s.refs|
      && (forall r :: r != Pte(e, v / 1024, v % 1024) ==> Points(s', r) == Points(s, r))
      && Points(s', Pte(e, v / 1024, v % 1024)) == Some(pp)
  {
    hide Accounts;
    var d, t := v / 1024, v % 1024;
    MappableInv(s, base, out, e, v);
    EntryWords(s, e, d, t);
    PackParts(pp, perm);
    var s' := InsertAt(s, DirOf(s, e).value, pp, v, perm);
    var tab := TableOf(s, e, d).value;
    assert s'.mem == SetWord(s, tab, t, Pack(pp, perm)).mem by {
      SetWordTwice(s, tab, t, 0, Pack(pp, perm));
    }
    EntryPoints(s, s', e, d, t, Pack(pp, perm));
  }

  lemma InsertAtInv(s: State, base: seq<nat>, out: set<nat>, e: nat, pp: nat, v: nat, perm: nat)
    requires Inv(s, base, out) && InsertArgs(s, e, pp, v, perm) && TableOf(s, e, v / 1024).Some?
    requires Countable(s, base, e, pp, v)
    ensures Mappable(s, DirOf(s, e).value, v)
    ensures var s' := InsertAt(s, DirOf(s, e).value, pp, v, perm);
      && Inv(s', base, out - {pp})
      && (forall r :: r != Pte(e, v / 1024, v % 1024) ==> Points(s', r) == Points(s, r))
      && Points(s', Pte(e, v / 1024, v % 1024)) == Some(pp)
  {
    var d, t := v / 1024, v % 1024;
    InsertAtPoints(s, base, out, e, pp, v, perm);
    EntryWords(s, e, d, t);
    var was := Points(s, Pte(e, d, t));
    if was == Some(pp) {
      RepermitInv(s, base, out, e, d, t, pp, perm);
      Named(s, base, out, Pte(e, d, t), pp);
      assert out - {pp} == out;
    } else if was == None {
      FillInv(s, base, out, e, d, t, pp, perm);
    } else {
      ReplaceInv(s, base, out, e, pp, v, perm);
    }
  }

  /**
    page_insert succeeds exactly when the table exists or a page for it is left;
    it then names pp at v, adds at most the page table of v, and changes no other
    reference of any environment.
  */
  lemma InsertPoints(s: State, base: seq<nat>, out: set<nat>, e: nat, pp: nat, v: nat, perm: nat)
    requires Inv(s, base, out) && InsertArgs(s, e, pp, v, perm)
    ensures Insertable(s, DirOf(s, e).value, pp, v, perm)
    ensures Insert(s, DirOf(s, e).value, pp, v, perm) == None <==> TableOf(s, e, v / 1024) == None && s.free == []
    ensures Insert(s, DirOf(s, e).value, pp, v, perm).Some? ==>
      var s' := Insert(s, DirOf(s, e).value, pp, v, perm).value;
      && s'.dirs == s.dirs && s'.kdir == s.kdir
      && (forall r :: r != Pte(e, v / 1024, v % 1024) && r != Pde(e, v / 1024) ==> Points(s', r) == Points(s, r))
      && Points(s', Pte(e, v / 1024, v % 1024)) == Some(pp)
      && Points(s', Pde(e, v / 1024)) == (if TableOf(s, e, v / 1024).Some? then TableOf(s, e, v / 1024) else Some(s.free[0]))
  {
    var d := v / 1024;
    WalkCreateKeepsData(s, base, out, e, d, pp);
    if WalkCreate(s, DirOf(s, e).value, d).Some? {
      var s1 := WalkCreate(s, DirOf(s, e).value, d).value;
      hide Inv, Mappable, InsertAt, DataFrame;
      InsertAtPoints(s1, base, out, e, pp, v, perm);
    }
  }

  /** And it keeps the invariant whenever the new reference can be counted. */
  lemma InsertInv(s: State, base: seq<nat>, out: set<nat>, e: nat, pp: nat, v: nat, perm: nat)
    requires Inv(s, base, out) && InsertArgs(s, e, pp, v, perm) && Countable(s, base, e, pp, v)
    ensures Insertable(s, DirOf(s, e).value, pp, v, perm)
    ensures Insert(s, DirOf(s, e).value, pp, v, perm) == None <==> TableOf(s, e, v / 1024) == None && s.free == []
    ensures Insert(s, DirOf(s, e).value, pp, v, perm).Some? ==>
      var s' := Insert(s, DirOf(s, e).value, pp, v, perm).value;
      && Inv(s', base, out - {pp})
      && (forall r :: r != Pte(e, v / 1024, v % 1024) && r != Pde(e, v / 1024) ==> Points(s', r) == Points(s, r))
      && Points(s', Pte(e, v / 1024, v % 1024)) == Some(pp)
      && Points(s', Pde(e, v / 1024)) == (if TableOf(s, e, v / 1024).Some? then TableOf(s, e, v / 1024) else Some(s.free[0]))
  {
    hide Inv, Mappable, InsertAt, DataFrame;
    var d := v / 1024;
    InsertPoints(s, base, out, e, pp, v, perm);
    WalkCreateKeepsData(s, base, out, e, d, pp);
    if WalkCreate(s, DirOf(s, e).value, d).Some? {
      var s1 := WalkCreate(s, DirOf(s, e).value, d).value;
      InsertAtInv(s1, base, out, e, pp, v, perm);
    }
  }

  // ------------------------------------------- tables and directories come and go

  /** Taking an emptied table out of its directory slot and giving up its page. */
  lemma UnlinkInv(s: State, base: seq<nat>, out: set<nat>, e: nat, d: nat)
    requires Inv(s, base, out) && TableOf(s, e, d).Some? && EmptyTable(s, TableOf(s, e, d).value)
    ensures DirOf(s, e).Some? && DirOf(s, e).value < |s.mem| && d < UTOPX && TableOf(s, e, d).value < |s.refs|
    ensures var s' := Decref(SetWord(s, DirOf(s, e).value, d, 0), TableOf(s, e, d).value);
      && Inv(s', base, out)
      && (forall r :: r != Pde(e, d) ==> Points(s', r) == Points(s, r))
      && Points(s', Pde(e, d)) == None
  {
    TableSound(s, e, d);
    DirSound(s, e);
    var dir, tab := DirOf(s, e).value, TableOf(s, e, d).value;
    var s1 := SetWord(s, dir, d, 0);
    var s' := Decref(s1, tab);
    PointsAfterPde(s, e, d, 0);
    PointsSame(s1, s');
    assert Points(s, Pde(e, d)) == Some(tab);
    Lose(s, s', base, out, Pde(e, d), tab);
    KernelHalfStable(s, s', dir);
  }

  /** Detaching a directory whose user half is empty and giving up its page. */
  lemma DetachInv(s: State, base: seq<nat>, out: set<nat>, e: nat)
    requires Inv(s, base, out) && DirOf(s, e).Some? && EmptyUserHalf(s, DirOf(s, e).value)
    ensures e < |s.dirs| && DirOf(s, e).value < |s.refs|
    ensures var s' := Decref(s.(dirs := s.dirs[e := None]), DirOf(s, e).value);
      && Inv(s', base, out)
      && (forall r :: r != Dir(e) ==> Points(s', r) == Points(s, r))
      && Points(s', Dir(e)) == None
  {
    DirSound(s, e);
    var dir := DirOf(s, e).value;
    var s1 := s.(dirs := s.dirs[e := None]);
    var s' := Decref(s1, dir);
    PointsAfterDir(s, e, None);
    PointsSame(s1, s');
    assert Points(s, Dir(e)) == Some(dir);
    Lose(s, s', base, out, Dir(e), dir);
    forall e2 | DirOf(s', e2).Some? ensures SharesKernelHalf(s', DirOf(s', e2).value) {
      assert SharesKernelHalf(s, DirOf(s, e2).value);
    }
  }

  /** env_setup_vm on slot e, when a page is left: the new directory copies kern_pgdir. */
  function SetupVm(s: State, e: nat): State
    requires Ready(s) && s.free != [] && e < |s.dirs|
  {
    var p := s.free[0];
    var s1 := Alloc(s, true);
    var s2 := Incref(s1.(dirs := s1.dirs[e := Some(p)], mem := s1.mem[p := s1.mem[s1.kdir]]), p);
    SetWord(s2, p, UVPTX, Pack(p, PTE_P + PTE_U))
  }

  lemma SetupVmInv(s: State, base: seq<nat>, out: set<nat>, e: nat)
    requires Inv(s, base, out) && s.free != [] && e < |s.dirs| && DirOf(s, e) == None
    ensures Ready(s)
    ensures var s' := SetupVm(s, e);
      && Inv(s', base, out)
      && (forall r :: r != Dir(e) ==> Points(s', r) == Points(s, r))
      && Points(s', Dir(e)) == Some(s.free[0])
      && EmptyUserHalf(s', s.free[0])
  {
    AllocInv(s, base, out, true);
    var p := s.free[0];
    assert p in s.free;
    var s1 := Alloc(s, true);
    var frame: seq<Word> := s1.mem[s1.kdir][UVPTX := Pack(p, PTE_P + PTE_U)];
    var s2 := s1.(mem := s1.mem[p := frame]);
    PointsStable(s1, s2);
    assert EmptyUserHalf(s2, p);
    PointsAfterDir(s2, e, Some(p));
    var s3 := s2.(dirs := s2.dirs[e := Some(p)]);
    var s' := SetupVm(s, e);
    assert s'.mem == s3.mem;
    PointsSame(s3, s');
    Gain(s1, s', base, out + {p}, Dir(e), p);
    assert out + {p} - {p} == out;
    forall e2 | DirOf(s', e2).Some? ensures SharesKernelHalf(s', DirOf(s', e2).value) {
      if e2 != e {
        assert SharesKernelHalf(s1, DirOf(s1, e2).value);
        assert Points(s1, Dir(e2)) == DirOf(s1, e2);
      }
    }
  }

  // --------------------------------------------------- where the code falls short

  /**
    page_remove is documented to do nothing when no page is mapped at v. It does
    nothing exactly when v has no page table: page_lookup does not test PTE_P, so
    under an existing table it takes a reference away from whatever frame number
    the absent entry holds.
  */
  lemma RemoveUnmappedIff(s: State, base: seq<nat>, out: set<nat>, e: nat, v: nat)
    requires Inv(s, base, out) && DirOf(s, e).Some? && v / 1024 < UTOPX
    requires Points(s, Pte(e, v / 1024, v % 1024)) == None
    requires Removable(s, DirOf(s, e).value, v)
    ensures Remove(s, DirOf(s, e).value, v) == s <==> TableOf(s, e, v / 1024) == None
    ensures TableOf(s, e, v / 1024).Some? && TableOf(s, e, v / 1024).value < |s.mem| ==>
      var p := s.mem[TableOf(s, e, v / 1024).value][v % 1024] / 4096;
      p < |s.refs| == |Remove(s, DirOf(s, e).value, v).refs| && Remove(s, DirOf(s, e).value, v).refs[p] == (s.refs[p] + 0xFFFF) % 0x1_0000
  {
    EntryWords(s, e, v / 1024, v % 1024);
    if TableOf(s, e, v / 1024).Some? {
      var p := FrameOf(s.mem[TableOf(s, e, v / 1024).value][v % 1024]);
      assert Remove(s, DirOf(s, e).value, v).refs[p] == Drop(s.refs[p]) != s.refs[p];
    }
  }

  /** With the boot-time count of page 0, one such call puts page 0 on the free list. */
  lemma RemoveUnmappedFreesPageZero(s: State, base: seq<nat>, out: set<nat>, e: nat, v: nat)
    requires Inv(s, base, out) && DirOf(s, e).Some? && v / 1024 < UTOPX
    requires TableOf(s, e, v / 1024).Some? && TableOf(s, e, v / 1024).value < |s.mem|
    requires s.mem[TableOf(s, e, v / 1024).value][v % 1024] == 0 && s.refs[0] == 1
    ensures Removable(s, DirOf(s, e).value, v)
    ensures Remove(s, DirOf(s, e).value, v).free == [0] + s.free
  {
    EntryWords(s, e, v / 1024, v % 1024);
    assert forall i :: 0 <= i < |s.free| ==> s.free[i] in s.free;
  }

  /**
    page_insert keeps the invariant exactly when the page is mapped there already, or
    has no boot-time use and fewer than 65535 references: pp_ref has 16 bits, and the
    next reference wraps the count to 0.
  */
  lemma InsertKeepsLedgerIff(s: State, base: seq<nat>, out: set<nat>, e: nat, pp: nat, v: nat, perm: nat)
    requires Inv(s, base, out) && InsertArgs(s, e, pp, v, perm)
    ensures Insertable(s, DirOf(s, e).value, pp, v, perm)
    ensures Insert(s, DirOf(s, e).value, pp, v, perm).Some? ==>
      (Inv(Insert(s, DirOf(s, e).value, pp, v, perm).value, base, out - {pp}) <==> Countable(s, base, e, pp, v))
  {
    hide Inv, DataFrame, Insertable, Insert;
    InsertPoints(s, base, out, e, pp, v, perm);
    if Insert(s, DirOf(s, e).value, pp, v, perm).Some? {
      if Countable(s, base, e, pp, v) {
        InsertInv(s, base, out, e, pp, v, perm);
      } else {
        WrappedCount(s, base, out, e, pp, v, perm);
        var s' := Insert(s, DirOf(s, e).value, pp, v, perm).value;
        if Inv(s', base, out - {pp}) {
          Counted(s', base, out - {pp}, Pte(e, v / 1024, v % 1024), pp);
          assert false;
        }
      }
    }
  }

  /** In order, a named page has a positive count, and no boot-time use. */
  lemma Counted(s: State, base: seq<nat>, out: set<nat>, r: Ref, p: nat)
    requires Inv(s, base, out) && Points(s, r) == Some(p)
    ensures p < |s.refs| == |base| && s.refs[p] >= 1 && base[p] == 0
  {
    Named(s, base, out, r, p);
  }

  /** The count of a page after a new mapping: one up, modulo 2^16. */
  lemma WrappedCount(s: State, base: seq<nat>, out: set<nat>, e: nat, pp: nat, v: nat, perm: nat)
    requires Inv(s, base, out) && InsertArgs(s, e, pp, v, perm) && Points(s, Pte(e, v / 1024, v % 1024)) != Some(pp)
    requires Insertable(s, DirOf(s, e).value, pp, v, perm) && Insert(s, DirOf(s, e).value, pp, v, perm).Some?
    ensures pp < |s.refs| && |Insert(s, DirOf(s, e).value, pp, v, perm).value.refs| == |s.refs| == |base|
    ensures s.refs[pp] < 0x1_0000
    ensures Insert(s, DirOf(s, e).value, pp, v, perm).value.refs[pp] == (s.refs[pp] + 1) % 0x1_0000
  {
    hide Separate, KernelHalf;
    var d := v / 1024;
    WalkCreateKeepsData(s, base, out, e, d, pp);
    var s1 := WalkCreate(s, DirOf(s, e).value, d).value;
    assert Points(s1, Pte(e, d, v % 1024)) == Points(s, Pte(e, d, v % 1024));
    EntryWords(s1, e, d, v % 1024);
  }
}
