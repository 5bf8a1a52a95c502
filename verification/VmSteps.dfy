/**
  The elementary updates that every page operation is made of, and the one
  reference that each of them changes.
*/
module VmSteps {
  import opened Mmu
  import opened Vm

  /** pp_ref is a 16-bit field. */
  function Bump(n: nat): nat { (n + 1) % 0x1_0000 }
  function Drop(n: nat): nat { (n + 0xFFFF) % 0x1_0000 }

  function ZeroFrame(): (z: seq<Word>)
    ensures |z| == 1024 && forall i :: 0 <= i < 1024 ==> z[i] == 0
  {
    seq(1024, _ => 0 as Word)
  }

  function SetWord(s: State, f: nat, i: nat, w: Word): State
    requires f < |s.mem| && i < |s.mem[f]|
  {
    var frame: seq<Word> := s.mem[f][i := w];
    s.(mem := s.mem[f := frame])
  }

  lemma SetWordTwice(s: State, f: nat, i: nat, w0: Word, w: Word)
    requires f < |s.mem| && i < |s.mem[f]|
    ensures SetWord(SetWord(s, f, i, w0), f, i, w).mem == SetWord(s, f, i, w).mem
  {
    assert s.mem[f][i := w0][i := w] == s.mem[f][i := w];
  }

  // ------------------------------------------------- what each update names

  /** Frames that are no live directory and no user table may be rewritten freely. */
  lemma PointsStable(s: State, s': State)
    requires Shape(s) && |s'.mem| == |s.mem| && s'.dirs == s.dirs && s'.kdir == s.kdir
    requires s'.mem[s.kdir] == s.mem[s.kdir]
    requires forall r: Ref :: (r.Dir? || r.Pde?) && Points(s, r).Some? && Points(s, r).value < |s.mem| ==>
               s'.mem[Points(s, r).value] == s.mem[Points(s, r).value]
    ensures forall r :: Points(s', r) == Points(s, r)
  {
    forall r ensures Points(s', r) == Points(s, r) {
      match r
      case Dir(e) =>
      case Pde(e, d) => assert Points(s, Dir(e)) == DirOf(s, e);
      case KPde(d) =>
      case Pte(e, d, t) =>
        assert Points(s, Dir(e)) == DirOf(s, e);
        assert Points(s, Pde(e, d)) == TableOf(s, e, d);
    }
  }

  lemma PointsSame(s: State, s': State)
    requires s'.mem == s.mem && s'.dirs == s.dirs && s'.kdir == s.kdir
    ensures forall r :: Points(s', r) == Points(s, r)
    ensures forall f, i :: Entry(s', f, i) == Entry(s, f, i)
  {
    forall r ensures Points(s', r) == Points(s, r) {
      match r
      case Dir(_) =>
      case Pde(_, _) =>
      case KPde(_) =>
      case Pte(_, _, _) =>
    }
  }

  lemma PointsAfterPte(s: State, e: nat, d: nat, t: nat, w: Word)
    requires Shape(s) && Separate(s)
    requires TableOf(s, e, d).Some? && t < 1024 && TableOf(s, e, d).value < |s.mem|
    ensures var s' := SetWord(s, TableOf(s, e, d).value, t, w);
      && (forall r :: r != Pte(e, d, t) ==> Points(s', r) == Points(s, r))
      && Points(s', Pte(e, d, t)) == (if Present(w) then Some(FrameOf(w)) else None)
  {
    var tab := TableOf(s, e, d).value;
    var s' := SetWord(s, tab, t, w);
    assert Points(s, Pde(e, d)) == Some(tab);
    forall e2 ensures DirOf(s, e2) != Some(tab) {
      assert Points(s, Dir(e2)) == DirOf(s, e2);
    }
    forall e2: nat, d2: nat ensures TableOf(s', e2, d2) == TableOf(s, e2, d2) {
      assert DirOf(s, e2) != Some(tab);
    }
    forall r | r != Pte(e, d, t) ensures Points(s', r) == Points(s, r) {
      match r
      case Dir(_) =>
      case Pde(_, _) =>
      case KPde(_) =>
      case Pte(e2, d2, t2) =>
        if TableOf(s, e2, d2) == Some(tab) {
          assert Points(s, Pde(e2, d2)) == Some(tab);
        }
    }
  }

  ghost predicate EmptyTable(s: State, f: nat) {
    forall t :: Entry(s, f, t) == None
  }

  ghost predicate EmptyUserHalf(s: State, f: nat) {
    forall d :: 0 <= d < UTOPX ==> Entry(s, f, d) == None
  }

  lemma PointsAfterPde(s: State, e: nat, d: nat, w: Word)
    requires Shape(s) && Separate(s)
    requires DirOf(s, e).Some? && d < UTOPX && DirOf(s, e).value < |s.mem|
    requires TableOf(s, e, d).Some? ==> EmptyTable(s, TableOf(s, e, d).value)
    requires Present(w) ==> FrameOf(w) != DirOf(s, e).value && EmptyTable(s, FrameOf(w))
    ensures var s' := SetWord(s, DirOf(s, e).value, d, w);
      && (forall r :: r != Pde(e, d) ==> Points(s', r) == Points(s, r))
      && Points(s', Pde(e, d)) == (if Present(w) then Some(FrameOf(w)) else None)
  {
    var dir := DirOf(s, e).value;
    var s' := SetWord(s, dir, d, w);
    assert Points(s, Dir(e)) == Some(dir);
    forall e2: nat, d2: nat | e2 != e || d2 != d ensures TableOf(s', e2, d2) == TableOf(s, e2, d2) {
      assert Points(s, Dir(e2)) == DirOf(s, e2);
    }
    forall r | r != Pde(e, d) ensures Points(s', r) == Points(s, r) {
      match r
      case Dir(_) =>
      case Pde(_, _) =>
      case KPde(_) =>
      case Pte(e2, d2, t2) =>
        if TableOf(s, e2, d2).Some? {
          assert Points(s, Pde(e2, d2)) == TableOf(s, e2, d2);
        }
        if Present(w) {
          assert Entry(s', FrameOf(w), t2) == Entry(s, FrameOf(w), t2);
        }
    }
  }

  lemma PointsAfterKPde(s: State, d: nat, w: Word)
    requires Shape(s) && Separate(s)
    requires UTOPX <= d < 1024 && d != UVPTX
    ensures var s' := SetWord(s, s.kdir, d, w);
      && (forall r :: r != KPde(d) ==> Points(s', r) == Points(s, r))
      && Points(s', KPde(d)) == (if Present(w) then Some(FrameOf(w)) else None)
  {
    var s' := SetWord(s, s.kdir, d, w);
    forall r | r != KPde(d) ensures Points(s', r) == Points(s, r) {
      match r
      case Dir(_) =>
      case KPde(_) =>
      case Pde(e2, d2) =>
        assert Points(s, Dir(e2)) == DirOf(s, e2);
      case Pte(e2, d2, t2) =>
        assert Points(s, Dir(e2)) == DirOf(s, e2);
        assert Points(s, Pde(e2, d2)) == TableOf(s, e2, d2);
    }
  }

  /** Attaching or detaching a directory whose user half is empty. */
  lemma PointsAfterDir(s: State, e: nat, f: Option<nat>)
    requires Shape(s) && e < |s.dirs|
    requires DirOf(s, e).Some? ==> EmptyUserHalf(s, DirOf(s, e).value)
    requires f.Some? ==> EmptyUserHalf(s, f.value)
    ensures var s' := s.(dirs := s.dirs[e := f]);
      && (forall r :: r != Dir(e) ==> Points(s', r) == Points(s, r))
      && Points(s', Dir(e)) == f
  {
    var s' := s.(dirs := s.dirs[e := f]);
    forall e2: nat, d2: nat ensures TableOf(s', e2, d2) == TableOf(s, e2, d2) {
      if e2 == e && d2 < UTOPX {
        assert f.Some? ==> Entry(s, f.value, d2) == None;
        assert DirOf(s, e).Some? ==> Entry(s, DirOf(s, e).value, d2) == None;
      }
    }
    forall r | r != Dir(e) ensures Points(s', r) == Points(s, r) {
      match r
      case Dir(_) =>
      case KPde(_) =>
      case Pde(_, _) =>
      case Pte(_, _, _) =>
    }
  }

  // ------------------------------------------------------ keeping the ledger

  /** A frame with no references is named by nothing. */
  lemma Unnamed(s: State, base: seq<nat>, out: set<nat>, p: nat)
    requires Shape(s) && Accounts(s, base, out) && p < |s.refs| && s.refs[p] == 0
    ensures base[p] == 0 && p != s.kdir
    ensures forall r :: Points(s, r) != Some(p)
  {
    assert Count(s, p) == 0;
    assert Holders(s, p) == {};
    forall r ensures Points(s, r) != Some(p) {
      assert r !in Holders(s, p);
    }
  }

  /** A named frame has a reference to give up. */
  lemma Named(s: State, base: seq<nat>, out: set<nat>, r: Ref, p: nat)
    requires Shape(s) && Accounts(s, base, out) && Points(s, r) == Some(p) && p < |s.refs|
    ensures s.refs[p] >= 1 && p !in s.free && p !in out && base[p] == 0
  {
    assert r in Holders(s, p);
    assert Holders(s, p) - {r} + {r} == Holders(s, p);
    assert Count(s, p) >= 1;
  }

  lemma SeparateStep(s: State, s': State, r0: Ref)
    requires Separate(s) && |s'.mem| == |s.mem| && s'.kdir == s.kdir
    requires forall r :: r != r0 ==> Points(s', r) == Points(s, r)
    requires Points(s', r0).Some? ==>
               && Points(s', r0).value < |s.mem| && Points(s', r0).value != s.kdir
               && forall r :: r != r0 && (r0.IsTable() || r.IsTable()) ==> Points(s, r) != Points(s', r0)
    ensures Separate(s')
  {
    forall r: Ref, q: Ref | r.IsTable() && Points(s', r).Some? && Points(s', r) == Points(s', q)
      ensures r == q
    {
      if r != r0 && q != r0 {
        assert Points(s, r) == Points(s, q);
      }
    }
  }

  ghost predicate RefsMoved(s: State, s': State, r0: Ref) {
    && |s'.refs| == |s.refs|
    && forall q :: 0 <= q < |s.refs| ==>
         s'.refs[q] + B(Points(s, r0) == Some(q)) == s.refs[q] + B(Points(s', r0) == Some(q))
  }

  ghost predicate FreeList(s: State, out: set<nat>) {
    && NoDup(s.free)
    && (forall p: nat :: p in s.free <==> p < |s.refs| && s.refs[p] == 0 && p !in out)
    && (forall p: nat :: p in out ==> p < |s.refs| && s.refs[p] == 0)
  }

  lemma AccountsStep(s: State, s': State, base: seq<nat>, out: set<nat>, out': set<nat>, r0: Ref)
    requires Shape(s) && Accounts(s, base, out)
    requires Shape(s') && s'.kdir == s.kdir
    requires forall r :: r != r0 ==> Points(s', r) == Points(s, r)
    requires RefsMoved(s, s', r0)
    requires FreeList(s', out')
    requires Points(s', r0).Some? ==> Points(s', r0).value < |base| && base[Points(s', r0).value] == 0
    ensures Accounts(s', base, out')
  {
    forall p | 0 <= p < |s'.refs| ensures s'.refs[p] == base[p] + Count(s', p) {
      HoldersDelta(s, s', r0, p);
    }
    forall r: Ref | Points(s', r).Some? && Points(s', r).value < |base|
      ensures base[Points(s', r).value] == 0
    {
      if r != r0 { assert Points(s', r) == Points(s, r); }
    }
  }
}
