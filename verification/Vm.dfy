/**
  Physical frames, reference counts, the free list and the page tables, and the
  invariant that keeps a frame's roles (free page, directory, table, data) apart.
*/
module Vm {
  import opened Mmu

  /**
    refs   pp_ref of every frame
    free   the frames on page_free_list, head first
    mem    the 1024 words of every frame
    kdir   the frame of kern_pgdir
    dirs   env_pgdir of every environment slot, as a frame
    cr3    the frame of the directory the processor is using
    tlb    translations the processor has cached, page number to entry
  */
  datatype State = State(
    refs: seq<nat>,
    free: seq<nat>,
    mem: seq<seq<Word>>,
    kdir: nat,
    dirs: seq<Option<nat>>,
    cr3: nat,
    tlb: map<nat, Word>)

  ghost predicate Shape(s: State) {
    && |s.refs| == |s.mem| <= NVPAGES
    && (forall f :: 0 <= f < |s.mem| ==> |s.mem[f]| == 1024)
    && (forall p :: 0 <= p < |s.refs| ==> s.refs[p] < 0x1_0000)
    && s.kdir < |s.mem|
  }

  // ---------------------------------------------------------------- walking

  /** Entry i of frame f, when it is present. */
  function Entry(s: State, f: nat, i: nat): Option<Word> {
    if f < |s.mem| && i < |s.mem[f]| && Present(s.mem[f][i]) then Some(s.mem[f][i]) else None
  }

  function Target(w: Option<Word>): Option<nat> {
    match w case None => None case Some(x) => Some(FrameOf(x))
  }

  /** The processor's two-level walk of page number v from directory frame dir. */
  function Translate(s: State, dir: nat, v: nat): Option<Word> {
    match Entry(s, dir, v / 1024)
    case None => None
    case Some(pde) => Entry(s, FrameOf(pde), v % 1024)
  }

  // ------------------------------------------------------------- references

  /**
    The references that pp_ref counts: a live directory, a page table named by
    the user half of a directory, a page named by a user table entry, and a page
    table of the kernel half of kern_pgdir.
  */
  datatype Ref = Dir(e: nat) | Pde(e: nat, d: nat) | Pte(e: nat, d: nat, t: nat) | KPde(d: nat) {
    predicate IsTable() { !Pte? }
  }

  function DirOf(s: State, e: nat): Option<nat> {
    if e < |s.dirs| then s.dirs[e] else None
  }

  function TableOf(s: State, e: nat, d: nat): Option<nat> {
    if DirOf(s, e).Some? && d < UTOPX then Target(Entry(s, DirOf(s, e).value, d)) else None
  }

  /** The frame a reference names, if any. */
  function Points(s: State, r: Ref): Option<nat> {
    match r
    case Dir(e) => DirOf(s, e)
    case Pde(e, d) => TableOf(s, e, d)
    case Pte(e, d, t) =>
      if TableOf(s, e, d).Some? then Target(Entry(s, TableOf(s, e, d).value, t)) else None
    case KPde(d) => if UTOPX <= d && d != UVPTX then Target(Entry(s, s.kdir, d)) else None
  }

  /** h is the set of all references that name frame p. */
  ghost predicate AreHolders(s: State, p: nat, h: set<Ref>) {
    forall r {:trigger r in h} :: r in h <==> Points(s, r) == Some(p)
  }

  lemma HoldersFinite(s: State, p: nat)
    requires Shape(s)
    ensures exists h :: AreHolders(s, p, h)
  {
    var n := |s.dirs|;
    var u := (set e | 0 <= e < n :: Dir(e))
      + (set e, d | 0 <= e < n && 0 <= d < 1024 :: Pde(e, d))
      + (set e, d, t | 0 <= e < n && 0 <= d < 1024 && 0 <= t < 1024 :: Pte(e, d, t))
      + (set d | 0 <= d < 1024 :: KPde(d));
    var h := set r | r in u && Points(s, r) == Some(p);
    forall r ensures r in h <==> Points(s, r) == Some(p) {
      if Points(s, r) == Some(p) {
        match r
        case Dir(_) =>
        case Pde(_, _) =>
        case Pte(_, _, _) =>
        case KPde(_) =>
      }
    }
    assert AreHolders(s, p, h);
  }

  ghost function Holders(s: State, p: nat): (h: set<Ref>)
    requires Shape(s)
    ensures AreHolders(s, p, h)
  {
    HoldersFinite(s, p);
    var h :| AreHolders(s, p, h);
    h
  }

  /** The number of references that name frame p. */
  ghost function Count(s: State, p: nat): nat
    requires Shape(s)
  {
    |Holders(s, p)|
  }

  function B(b: bool): nat { if b then 1 else 0 }

  lemma SetDelta<T>(a: set<T>, b: set<T>, x: T)
    requires a - {x} == b - {x}
    ensures |b| + B(x in a) == |a| + B(x in b)
  {
    assert a == if x in a then (a - {x}) + {x} else a - {x};
    assert b == if x in b then (b - {x}) + {x} else b - {x};
  }

  /** A step that changes what one reference names moves the counts by that one. */
  lemma HoldersDelta(s: State, s': State, r0: Ref, q: nat)
    requires Shape(s) && Shape(s')
    requires forall r :: r != r0 ==> Points(s', r) == Points(s, r)
    ensures Count(s', q) + B(Points(s, r0) == Some(q)) == Count(s, q) + B(Points(s', r0) == Some(q))
  {
    var a, b := Holders(s, q), Holders(s', q);
    forall r ensures r in a - {r0} <==> r in b - {r0} {
      if r != r0 {
        assert Points(s', r) == Points(s, r);
      }
    }
    assert a - {r0} == b - {r0};
    SetDelta(a, b, r0);
  }

  // -------------------------------------------------------------- invariant

  ghost predicate KernelHalf(s: State)
    requires Shape(s)
  {
    && (forall d :: 0 <= d < UTOPX ==> !Present(s.mem[s.kdir][d]))
    && s.mem[s.kdir][UVPTX] == Pack(s.kdir, PTE_U)
    && (forall d :: UTOPX <= d < 1024 && d != UVPTX ==> OpenSlot(s.mem[s.kdir][d]))
    && forall e :: DirOf(s, e).Some? ==> SharesKernelHalf(s, DirOf(s, e).value)
  }

  /** A directory entry that leaves the decision to the table: if present, it permits everything. */
  predicate OpenSlot(w: Word) { Present(w) ==> Writable(w) && ForUser(w) }

  ghost predicate SharesKernelHalf(s: State, f: nat)
    requires Shape(s)
  {
    && f < |s.mem|
    && s.mem[f][UVPTX] == Pack(f, PTE_U)
    && (forall d :: 0 <= d < UTOPX ==> OpenSlot(s.mem[f][d]))
    && forall d :: UTOPX <= d < 1024 && d != UVPTX ==> s.mem[f][d] == s.mem[s.kdir][d]
  }

  /** Every directory or table frame has exactly one reference, of the right kind. */
  ghost predicate Separate(s: State) {
    && (forall r :: Points(s, r).Some? ==> Points(s, r).value < |s.mem| && Points(s, r).value != s.kdir)
    && (forall r: Ref, q: Ref :: r.IsTable() && Points(s, r).Some? && Points(s, r) == Points(s, q) ==> r == q)
  }

  ghost predicate NoDup(xs: seq<nat>) {
    forall i, j :: 0 <= i < j < |xs| ==> xs[i] != xs[j]
  }

  /**
    The ledger. base[p] is what pp_ref[p] held for boot-time reasons; out holds
    the unreferenced frames that are off the list (handed out and not yet mapped).
    Nothing names a frame with a boot-time use: the frames that hold the kernel, its
    pages[] and envs[] and kern_pgdir are in nobody's user memory.
  */
  ghost predicate Accounts(s: State, base: seq<nat>, out: set<nat>)
    requires Shape(s)
  {
    && |base| == |s.refs|
    && (forall p {:trigger Count(s, p)} :: 0 <= p < |s.refs| ==> s.refs[p] == base[p] + Count(s, p))
    && NoDup(s.free)
    && (forall p: nat :: p in s.free <==> p < |s.refs| && s.refs[p] == 0 && p !in out)
    && (forall p :: p in out ==> p < |s.refs| && s.refs[p] == 0)
    && (forall r: Ref :: Points(s, r).Some? && Points(s, r).value < |base| ==> base[Points(s, r).value] == 0)
    && base[s.kdir] > 0
  }

  ghost predicate Inv(s: State, base: seq<nat>, out: set<nat>) {
    Shape(s) && Separate(s) && KernelHalf(s) && Accounts(s, base, out)
  }
}
