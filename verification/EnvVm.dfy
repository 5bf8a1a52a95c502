/**
  The address-space side of an environment's life: env_free walks the user half of
  the directory and gives back every page the environment held.
*/
module EnvVm {
  import opened Mmu
  import opened Vm
  import opened VmSteps
  import opened PageOps
  import opened Translation

  /** The references that belong to environment slot e. */
  predicate Owns(e: nat, r: Ref) {
    match r
    case Dir(e2) => e2 == e
    case Pde(e2, _) => e2 == e
    case Pte(e2, _, _) => e2 == e
    case KPde(_) => false
  }

  /** One turn of the inner loop of env_free: unmap page v if it is mapped; None is a panic. */
  ghost function FreeEntry(s: State, dir: nat, v: nat): Option<State> {
    if Translate(s, dir, v) == None then Some(s)
    else if Removable(s, dir, v) then Some(Remove(s, dir, v))
    else None
  }

  /** The inner loop of env_free, over entries below n of table d. */
  ghost function FreeEntries(s: State, dir: nat, d: nat, n: nat): Option<State> {
    if n == 0 then Some(s)
    else
      match FreeEntries(s, dir, d, n - 1)
      case None => None
      case Some(s1) => FreeEntry(s1, dir, Vpn(d, n - 1))
  }

  /**
    What env_free leaves alone while it takes the user half of directory dir apart:
    every translation of every other address space; and the TLB only loses entries.
  */
  ghost predicate Kept(s: State, s': State, dir: nat) {
    && s'.dirs == s.dirs && s'.cr3 == s.cr3 && s'.kdir == s.kdir
    && (forall v :: v in s'.tlb ==> v in s.tlb && s'.tlb[v] == s.tlb[v])
    && (forall f, v :: IsSpace(s, f) && f != dir && 0 <= v < NVPAGES ==> Translate(s', f, v) == Translate(s, f, v))
  }

  lemma KeptTwice(s: State, s1: State, s': State, dir: nat)
    requires Kept(s, s1, dir) && Kept(s1, s', dir)
    ensures Kept(s, s', dir)
  {
    forall f, v | IsSpace(s, f) && f != dir && 0 <= v < NVPAGES ensures Translate(s', f, v) == Translate(s, f, v) {
      SpaceKept(s, s1, f);
    }
  }

  lemma FreeEntryInv(s: State, base: seq<nat>, out: set<nat>, e: nat, d: nat, t: nat)
    requires Inv(s, base, out) && DirOf(s, e).Some? && d < UTOPX && t < 1024
    ensures FreeEntry(s, DirOf(s, e).value, Vpn(d, t)).Some?
    ensures var s' := FreeEntry(s, DirOf(s, e).value, Vpn(d, t)).value;
      && Inv(s', base, out) && Kept(s, s', DirOf(s, e).value)
      && forall r :: Points(s', r) == if r == Pte(e, d, t) then None else Points(s, r)
  {
    var v := Vpn(d, t);
    assert v / 1024 == d && v % 1024 == t;
    UserTranslation(s, e, v);
    if Points(s, Pte(e, d, t)).Some? {
      RemoveInv(s, base, out, e, v);
      var s' := Remove(s, DirOf(s, e).value, v);
      forall f, u | IsSpace(s, f) && f != DirOf(s, e).value && 0 <= u < NVPAGES
        ensures Translate(s', f, u) == Translate(s, f, u)
      {
        RemoveTranslation(s, base, out, e, v, f, u);
      }
    }
  }

  lemma {:induction false} FreeEntriesInv(s: State, base: seq<nat>, out: set<nat>, e: nat, d: nat, n: nat)
    requires Inv(s, base, out) && DirOf(s, e).Some? && d < UTOPX && n <= 1024
    ensures FreeEntries(s, DirOf(s, e).value, d, n).Some?
    ensures var s' := FreeEntries(s, DirOf(s, e).value, d, n).value;
      && Inv(s', base, out) && Kept(s, s', DirOf(s, e).value)
      && forall r :: Points(s', r) == if r.Pte? && r.e == e && r.d == d && r.t < n then None else Points(s, r)
  {
    hide Inv, FreeEntry, Points;
    if n > 0 {
      FreeEntriesInv(s, base, out, e, d, n - 1);
      var s1 := FreeEntries(s, DirOf(s, e).value, d, n - 1).value;
      FreeEntryInv(s1, base, out, e, d, n - 1);
      KeptTwice(s, s1, FreeEntry(s1, DirOf(s, e).value, Vpn(d, n - 1)).value, DirOf(s, e).value);
    }
  }

  /** One turn of the outer loop: empty table d, clear its slot, give its page back. */
  ghost function FreeSlot(s: State, dir: nat, d: nat): Option<State> {
    if Entry(s, dir, d) == None then Some(s)
    else if FrameOf(Entry(s, dir, d).value) >= |s.refs| then None
    else
      match FreeEntries(s, dir, d, 1024)
      case None => None
      case Some(s1) =>
        if dir < |s1.mem| && d < |s1.mem[dir]| && FrameOf(Entry(s, dir, d).value) < |s1.refs|
        then Some(Decref(SetWord(s1, dir, d, 0), FrameOf(Entry(s, dir, d).value)))
        else None
  }

  /** The outer loop of env_free over directory slots below n. */
  ghost function FreeTables(s: State, dir: nat, n: nat): Option<State> {
    if n == 0 then Some(s)
    else
      match FreeTables(s, dir, n - 1)
      case None => None
      case Some(s1) => FreeSlot(s1, dir, n - 1)
  }

  /** env_free, as far as memory is concerned. */
  ghost function FreeSpace(s: State, e: nat): Option<State>
    requires DirOf(s, e).Some?
  {
    match FreeTables(s, DirOf(s, e).value, UTOPX)
    case None => None
    case Some(s1) =>
      if |s1.dirs| == |s.dirs| && DirOf(s, e).value < |s1.refs|
      then Some(Decref(s1.(dirs := s1.dirs[e := None]), DirOf(s, e).value))
      else None
  }

  lemma UnlinkKept(s: State, base: seq<nat>, out: set<nat>, e: nat, d: nat)
    requires Inv(s, base, out) && TableOf(s, e, d).Some? && EmptyTable(s, TableOf(s, e, d).value)
    ensures DirOf(s, e).Some? && DirOf(s, e).value < |s.mem| && d < UTOPX && TableOf(s, e, d).value < |s.refs|
    ensures Kept(s, Decref(SetWord(s, DirOf(s, e).value, d, 0), TableOf(s, e, d).value), DirOf(s, e).value)
  {
    TableSound(s, e, d);
    DirSound(s, e);
    var s' := Decref(SetWord(s, DirOf(s, e).value, d, 0), TableOf(s, e, d).value);
    forall f, u | IsSpace(s, f) && f != DirOf(s, e).value && 0 <= u < NVPAGES
      ensures Translate(s', f, u) == Translate(s, f, u)
    {
      TranslateSlot(s, s', e, d, 0, f, u);
    }
  }

  lemma EmptiedTable(s: State, e: nat, d: nat)
    requires Shape(s) && TableOf(s, e, d).Some?
    requires forall t :: 0 <= t < 1024 ==> Points(s, Pte(e, d, t)) == None
    ensures EmptyTable(s, TableOf(s, e, d).value)
  {
    forall t: nat ensures Entry(s, TableOf(s, e, d).value, t) == None {
      if t < 1024 { assert Points(s, Pte(e, d, t)) == None; }
    }
  }

  lemma PteInRange(s: State, e: nat, d: nat, t: nat)
    requires Shape(s) && Points(s, Pte(e, d, t)).Some?
    ensures t < 1024 && TableOf(s, e, d).Some?
  {
  }

  lemma SlotPoints(s: State, s1: State, s': State, e: nat, d: nat)
    requires Shape(s)
    requires forall r :: Points(s1, r) == if r.Pte? && r.e == e && r.d == d && r.t < 1024 then None else Points(s, r)
    requires forall r :: r != Pde(e, d) ==> Points(s', r) == Points(s1, r)
    requires Points(s', Pde(e, d)) == None
    ensures forall r :: Points(s', r) == if (r.Pte? || r.Pde?) && r.e == e && r.d == d then None else Points(s, r)
  {
    forall r ensures Points(s', r) == if (r.Pte? || r.Pde?) && r.e == e && r.d == d then None else Points(s, r) {
      if r.Pte? && Points(s, r).Some? {
        PteInRange(s, r.e, r.d, r.t);
      }
    }
  }

  lemma FreeTableInv(s: State, base: seq<nat>, out: set<nat>, e: nat, d: nat)
    requires Inv(s, base, out) && TableOf(s, e, d).Some?
    ensures DirOf(s, e).Some? && FreeSlot(s, DirOf(s, e).value, d).Some?
    ensures var s' := FreeSlot(s, DirOf(s, e).value, d).value;
      && Inv(s', base, out) && Kept(s, s', DirOf(s, e).value)
      && forall r :: Points(s', r) == if (r.Pte? || r.Pde?) && r.e == e && r.d == d then None else Points(s, r)
  {
    TableSound(s, e, d);
    var dir, tab := DirOf(s, e).value, TableOf(s, e, d).value;
    FreeEntriesInv(s, base, out, e, d, 1024);
    var s1 := FreeEntries(s, dir, d, 1024).value;
    assert TableOf(s1, e, d) == Some(tab) by {
      assert Points(s, Pde(e, d)) == Some(tab);
      assert Points(s1, Pde(e, d)) == TableOf(s1, e, d);
    }
    EmptiedTable(s1, e, d);
    UnlinkInv(s1, base, out, e, d);
    UnlinkKept(s1, base, out, e, d);
    var s' := Decref(SetWord(s1, dir, d, 0), tab);
    assert FreeSlot(s, dir, d) == Some(s');
    SlotPoints(s, s1, s', e, d);
    KeptTwice(s, s1, s', dir);
  }

  lemma FreeSlotInv(s: State, base: seq<nat>, out: set<nat>, e: nat, d: nat)
    requires Inv(s, base, out) && DirOf(s, e).Some? && d < UTOPX
    ensures FreeSlot(s, DirOf(s, e).value, d).Some?
    ensures var s' := FreeSlot(s, DirOf(s, e).value, d).value;
      && Inv(s', base, out) && Kept(s, s', DirOf(s, e).value)
      && forall r :: Points(s', r) == if (r.Pte? || r.Pde?) && r.e == e && r.d == d then None else Points(s, r)
  {
    if TableOf(s, e, d).Some? {
      FreeTableInv(s, base, out, e, d);
    } else {
      assert Points(s, Pde(e, d)) == None;
      assert forall t :: Points(s, Pte(e, d, t)) == None;
    }
  }

  lemma {:induction false} FreeTablesInv(s: State, base: seq<nat>, out: set<nat>, e: nat, n: nat)
    requires Inv(s, base, out) && DirOf(s, e).Some? && n <= UTOPX
    ensures FreeTables(s, DirOf(s, e).value, n).Some?
    ensures var s' := FreeTables(s, DirOf(s, e).value, n).value;
      && Inv(s', base, out) && Kept(s, s', DirOf(s, e).value)
      && forall r :: Points(s', r) == if (r.Pte? || r.Pde?) && r.e == e && r.d < n then None else Points(s, r)
  {
    hide Inv, FreeSlot, Points;
    if n > 0 {
      FreeTablesInv(s, base, out, e, n - 1);
      var s1 := FreeTables(s, DirOf(s, e).value, n - 1).value;
      FreeSlotInv(s1, base, out, e, n - 1);
      KeptTwice(s, s1, FreeSlot(s1, DirOf(s, e).value, n - 1).value, DirOf(s, e).value);
    }
  }

  /** Frame p is held, and only by environment e. */
  ghost predicate HeldOnlyBy(s: State, e: nat, p: nat) {
    && (exists r :: Points(s, r) == Some(p))
    && forall r :: Points(s, r) == Some(p) ==> Owns(e, r)
  }

  /** The list, read off the ledger: the frames that nothing names. */
  lemma FreeIffUnnamed(s: State, base: seq<nat>, out: set<nat>, p: nat)
    requires Shape(s) && Accounts(s, base, out)
    ensures p in s.free <==> p < |base| && base[p] == 0 && p !in out && forall r :: Points(s, r) != Some(p)
  {
    if p < |base| {
      var h := Holders(s, p);
      if Count(s, p) == 0 {
        assert h == {};
        assert forall r :: Points(s, r) == Some(p) ==> r in h;
      } else {
        var r :| r in h;
        assert Points(s, r) == Some(p);
      }
    }
  }

  /** Two states with the same references have the same counts and the same free pages. */
  lemma SamePointsSameLedger(s: State, s': State, base: seq<nat>, out: set<nat>)
    requires Shape(s) && Shape(s') && Accounts(s, base, out) && Accounts(s', base, out)
    requires forall r :: Points(s', r) == Points(s, r)
    ensures s'.refs == s.refs
    ensures forall p: nat :: p in s'.free <==> p in s.free
  {
    forall p | 0 <= p < |base| ensures s'.refs[p] == s.refs[p] {
      assert Count(s', p) == Count(s, p) by {
        forall r ensures r in Holders(s', p) <==> r in Holders(s, p) {
          assert Points(s', r) == Points(s, r);
        }
        assert Holders(s', p) == Holders(s, p);
      }
    }
  }

  lemma EmptiedUserHalf(s: State, e: nat)
    requires Shape(s) && DirOf(s, e).Some?
    requires forall d :: 0 <= d < UTOPX ==> Points(s, Pde(e, d)) == None
    ensures EmptyUserHalf(s, DirOf(s, e).value)
  {
    forall d | 0 <= d < UTOPX ensures Entry(s, DirOf(s, e).value, d) == None {
      assert Points(s, Pde(e, d)) == None;
    }
  }

  lemma OwnedPoints(s: State, s1: State, s': State, e: nat)
    requires forall r :: Points(s1, r) == if (r.Pte? || r.Pde?) && r.e == e && r.d < UTOPX then None else Points(s, r)
    requires forall r :: r != Dir(e) ==> Points(s', r) == Points(s1, r)
    requires Points(s', Dir(e)) == None
    ensures forall r :: Points(s', r) == if Owns(e, r) then None else Points(s, r)
  {
    forall r ensures Points(s', r) == if Owns(e, r) then None else Points(s, r) {
      match r
      case Dir(_) =>
      case KPde(_) =>
      case Pde(_, d) => assert d >= UTOPX ==> Points(s, r) == None;
      case Pte(_, d, _) => assert d >= UTOPX ==> Points(s, r) == None;
    }
  }

  /**
    env_free never panics; afterwards the environment names nothing, every other
    reference is untouched, and every other address space translates as before.
  */
  lemma FreeSpaceInv(s: State, base: seq<nat>, out: set<nat>, e: nat)
    requires Inv(s, base, out) && DirOf(s, e).Some?
    ensures FreeSpace(s, e).Some? && e < |s.dirs|
    ensures var s' := FreeSpace(s, e).value;
      && Inv(s', base, out)
      && s'.dirs == s.dirs[e := None] && s'.cr3 == s.cr3 && s'.kdir == s.kdir
      && (forall r :: Points(s', r) == if Owns(e, r) then None else Points(s, r))
      && (forall f, v :: IsSpace(s, f) && f != DirOf(s, e).value && 0 <= v < NVPAGES ==> Translate(s', f, v) == Translate(s, f, v))
      && (forall v :: v in s'.tlb ==> v in s.tlb && s'.tlb[v] == s.tlb[v])
  {
    var dir := DirOf(s, e).value;
    DirSound(s, e);
    FreeTablesInv(s, base, out, e, UTOPX);
    var s1 := FreeTables(s, dir, UTOPX).value;
    EmptiedUserHalf(s1, e);
    DetachInv(s1, base, out, e);
    var s' := Decref(s1.(dirs := s1.dirs[e := None]), dir);
    assert FreeSpace(s, e) == Some(s');
    OwnedPoints(s, s1, s', e);
    forall f, v | IsSpace(s, f) && f != dir && 0 <= v < NVPAGES ensures Translate(s', f, v) == Translate(s, f, v) {
      TranslateSame(s1, s', f, v);
    }
  }

  /**
    env_free reclaims everything and nothing else: the free pages grow by exactly
    the frames that only this environment held.
  */
  lemma FreeSpaceReclaims(s: State, base: seq<nat>, out: set<nat>, e: nat, p: nat)
    requires Inv(s, base, out) && DirOf(s, e).Some?
    ensures FreeSpace(s, e).Some?
    ensures p in FreeSpace(s, e).value.free <==>
      p in s.free || (p < |base| && base[p] == 0 && HeldOnlyBy(s, e, p))
  {
    FreeSpaceInv(s, base, out, e);
    var s' := FreeSpace(s, e).value;
    FreeIffUnnamed(s, base, out, p);
    FreeIffUnnamed(s', base, out, p);
    if p < |base| && HeldOnlyBy(s, e, p) {
      var r :| Points(s, r) == Some(p);
      Named(s, base, out, r, p);
    }
    if p in s'.free && p !in s.free {
      var r :| Points(s, r) == Some(p);
      forall r | Points(s, r) == Some(p) ensures Owns(e, r) {
        assert Points(s', r) != Some(p);
      }
    }
  }

  /** In particular its directory and all its user page tables come back. */
  lemma FreeSpaceReturnsTables(s: State, base: seq<nat>, out: set<nat>, e: nat, r: Ref)
    requires Inv(s, base, out) && DirOf(s, e).Some?
    requires Owns(e, r) && r.IsTable() && Points(s, r).Some?
    ensures FreeSpace(s, e).Some?
    ensures Points(s, r).value in FreeSpace(s, e).value.free && Points(s, r).value !in s.free
  {
    var p := Points(s, r).value;
    assert p < |s.mem|;
    Named(s, base, out, r, p);
    assert HeldOnlyBy(s, e, p);
    FreeSpaceReclaims(s, base, out, e, p);
  }

  lemma FreeSpaceCoherent(s: State, base: seq<nat>, out: set<nat>, e: nat)
    requires Inv(s, base, out) && DirOf(s, e).Some? && Coherent(s)
    requires IsSpace(s, s.cr3) && DirOf(s, e) != Some(s.cr3)
    ensures FreeSpace(s, e).Some?
    ensures Coherent(FreeSpace(s, e).value) && IsSpace(FreeSpace(s, e).value, s.cr3)
  {
    FreeSpaceInv(s, base, out, e);
    var s' := FreeSpace(s, e).value;
    if s.cr3 != s.kdir {
      var e2 :| DirOf(s, e2) == Some(s.cr3);
      assert DirOf(s', e2) == Some(s.cr3);
    }
  }

  // ------------------------------------------------------------------ isolation

  /** The contents of the frames that have a boot-time use are the same, kern_pgdir among them. */
  ghost predicate BootKept(s: State, s': State, base: seq<nat>) {
    s'.kdir == s.kdir && |s'.mem| == |s.mem| && forall f :: 0 <= f < |s.mem| && f < |base| && base[f] > 0 ==> s'.mem[f] == s.mem[f]
  }

  /**
    An operation on environment e leaves every reference of everybody else, the
    contents of every frame that anybody else names, and those of the frames with a
    boot-time use, as they were.
  */
  ghost predicate Isolated(s: State, s': State, base: seq<nat>, e: nat) {
    && |s'.mem| == |s.mem| && BootKept(s, s', base)
    && forall r :: !Owns(e, r) ==>
         && Points(s', r) == Points(s, r)
         && (Points(s, r).Some? && Points(s, r).value < |s.mem| ==> s'.mem[Points(s, r).value] == s.mem[Points(s, r).value])
  }

  lemma IsolatedTwice(s: State, s1: State, s': State, base: seq<nat>, e: nat)
    requires Isolated(s, s1, base, e) && Isolated(s1, s', base, e)
    ensures Isolated(s, s', base, e)
  {
  }

  /** A frame that somebody else names is no directory or table of e. */
  lemma NotOurTable(s: State, e: nat, r: Ref, q: Ref)
    requires Separate(s) && Owns(e, q) && q.IsTable() && Points(s, q).Some? && !Owns(e, r)
    ensures Points(s, r) != Points(s, q)
  {
  }

  lemma RemoveIsolated(s: State, base: seq<nat>, out: set<nat>, e: nat, v: nat)
    requires Inv(s, base, out) && DirOf(s, e).Some? && v / 1024 < UTOPX && Points(s, Pte(e, v / 1024, v % 1024)).Some?
    ensures Removable(s, DirOf(s, e).value, v) && Isolated(s, Remove(s, DirOf(s, e).value, v), base, e)
  {
    RemoveInv(s, base, out, e, v);
    EntryWords(s, e, v / 1024, v % 1024);
    Named(s, base, out, Pde(e, v / 1024), TableOf(s, e, v / 1024).value);
    forall r | !Owns(e, r) ensures Points(s, r) != TableOf(s, e, v / 1024) {
      NotOurTable(s, e, r, Pde(e, v / 1024));
    }
  }

  lemma FreeEntryIsolated(s: State, base: seq<nat>, out: set<nat>, e: nat, d: nat, t: nat)
    requires Inv(s, base, out) && DirOf(s, e).Some? && d < UTOPX && t < 1024
    ensures FreeEntry(s, DirOf(s, e).value, Vpn(d, t)).Some?
    ensures Isolated(s, FreeEntry(s, DirOf(s, e).value, Vpn(d, t)).value, base, e)
  {
    hide Accounts;
    var v := Vpn(d, t);
    assert v / 1024 == d && v % 1024 == t;
    UserTranslation(s, e, v);
    if Points(s, Pte(e, d, t)).Some? {
      RemoveIsolated(s, base, out, e, v);
    }
  }

  lemma {:induction false} FreeEntriesIsolated(s: State, base: seq<nat>, out: set<nat>, e: nat, d: nat, n: nat)
    requires Inv(s, base, out) && DirOf(s, e).Some? && d < UTOPX && n <= 1024
    ensures FreeEntries(s, DirOf(s, e).value, d, n).Some?
    ensures Isolated(s, FreeEntries(s, DirOf(s, e).value, d, n).value, base, e)
  {
    hide Inv, FreeEntry;
    if n == 0 {
      assert Isolated(s, s, base, e);
    } else {
      FreeEntriesIsolated(s, base, out, e, d, n - 1);
      FreeEntriesInv(s, base, out, e, d, n - 1);
      var s1 := FreeEntries(s, DirOf(s, e).value, d, n - 1).value;
      FreeEntryIsolated(s1, base, out, e, d, n - 1);
      IsolatedTwice(s, s1, FreeEntry(s1, DirOf(s, e).value, Vpn(d, n - 1)).value, base, e);
    }
  }

  lemma UnlinkIsolated(s: State, base: seq<nat>, out: set<nat>, e: nat, d: nat)
    requires Inv(s, base, out) && TableOf(s, e, d).Some? && EmptyTable(s, TableOf(s, e, d).value)
    ensures DirOf(s, e).Some? && DirOf(s, e).value < |s.mem| && d < UTOPX && TableOf(s, e, d).value < |s.refs|
    ensures Isolated(s, Decref(SetWord(s, DirOf(s, e).value, d, 0), TableOf(s, e, d).value), base, e)
  {
    UnlinkInv(s, base, out, e, d);
    assert Points(s, Dir(e)) == DirOf(s, e);
    forall r | !Owns(e, r) ensures Points(s, r) != DirOf(s, e) {
      NotOurTable(s, e, r, Dir(e));
    }
  }

  lemma FreeSlotIsolated(s: State, base: seq<nat>, out: set<nat>, e: nat, d: nat)
    requires Inv(s, base, out) && DirOf(s, e).Some? && d < UTOPX
    ensures FreeSlot(s, DirOf(s, e).value, d).Some?
    ensures Isolated(s, FreeSlot(s, DirOf(s, e).value, d).value, base, e)
  {
    FreeSlotInv(s, base, out, e, d);
    if TableOf(s, e, d).Some? {
      var dir, tab := DirOf(s, e).value, TableOf(s, e, d).value;
      FreeEntriesInv(s, base, out, e, d, 1024);
      FreeEntriesIsolated(s, base, out, e, d, 1024);
      var s1 := FreeEntries(s, dir, d, 1024).value;
      assert TableOf(s1, e, d) == Some(tab) by {
        assert Points(s, Pde(e, d)) == Some(tab);
        assert Points(s1, Pde(e, d)) == TableOf(s1, e, d);
      }
      hide Inv, FreeEntries;
      EmptiedTable(s1, e, d);
      UnlinkIsolated(s1, base, out, e, d);
      IsolatedTwice(s, s1, Decref(SetWord(s1, dir, d, 0), tab), base, e);
    }
  }

  lemma {:induction false} FreeTablesIsolated(s: State, base: seq<nat>, out: set<nat>, e: nat, n: nat)
    requires Inv(s, base, out) && DirOf(s, e).Some? && n <= UTOPX
    ensures FreeTables(s, DirOf(s, e).value, n).Some?
    ensures Isolated(s, FreeTables(s, DirOf(s, e).value, n).value, base, e)
  {
    hide Inv, FreeSlot;
    if n == 0 {
      assert Isolated(s, s, base, e);
    } else {
      FreeTablesIsolated(s, base, out, e, n - 1);
      FreeTablesInv(s, base, out, e, n - 1);
      var s1 := FreeTables(s, DirOf(s, e).value, n - 1).value;
      FreeSlotIsolated(s1, base, out, e, n - 1);
      IsolatedTwice(s, s1, FreeSlot(s1, DirOf(s, e).value, n - 1).value, base, e);
    }
  }

  lemma FreeSpaceIsolated(s: State, base: seq<nat>, out: set<nat>, e: nat)
    requires Inv(s, base, out) && DirOf(s, e).Some?
    ensures FreeSpace(s, e).Some? && Isolated(s, FreeSpace(s, e).value, base, e)
  {
    hide Inv, FreeTables;
    FreeSpaceInv(s, base, out, e);
    FreeTablesInv(s, base, out, e, UTOPX);
    FreeTablesIsolated(s, base, out, e, UTOPX);
  }
}
