/**
  debuginfo_eip: three nested searches, each in the bracket that the one before it
  found, then two scans from where they ended.
*/
module DebugInfo {
  import opened Mmu
  import opened Stabs

  const N_FUN: int := 0x24
  const N_SLINE: int := 0x44
  const N_SO: int := 0x64
  const N_SOL: int := 0x84
  const N_PSYM: int := 0xa0

  /**
    file .. fileEnd are the entries of the source file, fun .. funEnd those of the
    function; fun > funEnd when the file holds no function entry. fileName and funName
    are offsets into the string table, None standing for "<unknown>".
  */
  datatype Info = Info(
    file: int, fileEnd: int, fun: int, funEnd: int,
    funAddr: nat, funName: Option<nat>, line: int, fileName: Option<nat>, args: nat)

  /** What the comments on stab_binsearch expect of a region: addresses ascend, and none is mistaken for its neighbour. */
  ghost predicate Tidy(stabs: seq<Stab>, kind: int, addr: nat, lo: int, hi: int) {
    0 <= lo && hi < |stabs| && Sorted(stabs, kind, lo, hi) && Undisturbed(stabs, kind, lo, hi, addr)
  }

  /** i is the last entry of the kind in [lo, hi] that starts at or before addr. */
  ghost predicate LastAt(stabs: seq<Stab>, kind: int, addr: nat, lo: int, hi: int, i: int) {
    lo <= i <= hi && AtOrBelow(stabs, kind, addr, i) && forall j :: i < j <= hi ==> !AtOrBelow(stabs, kind, addr, j)
  }

  /** hi' is the end of the stretch that starts at i: just before the next entry of the kind, or hi. */
  ghost predicate EndsAt(stabs: seq<Stab>, kind: int, i: int, hi: int, hi': int) {
    i <= hi' <= hi && (forall j :: i < j <= hi' ==> !Is(stabs, kind, j)) && (hi' < hi ==> Is(stabs, kind, hi' + 1))
  }

  /** A bracket holds the last entry at or before addr, or sits at the start of a region without one. */
  lemma BracketMeans(stabs: seq<Stab>, kind: int, addr: nat, lo: int, hi: int, left: int, right: int)
    requires 0 <= lo <= hi && left <= right <= hi && lo - 1 <= right && Bracketed(stabs, kind, addr, lo, hi, left, right)
    requires Is(stabs, kind, lo) ==> stabs[lo].value <= addr
    ensures EndsAt(stabs, kind, left, hi, right)
    ensures (exists i :: lo <= i <= hi && AtOrBelow(stabs, kind, addr, i)) ==> LastAt(stabs, kind, addr, lo, hi, left)
    ensures (forall i :: lo <= i <= hi ==> !AtOrBelow(stabs, kind, addr, i)) ==> left == lo
  {
    assert right < hi ==> Above(stabs, kind, addr, right + 1) && Is(stabs, kind, right + 1);
  }

  /** A file-name entry, as the backward scan recognises it: N_SOL, or N_SO with an address. */
  predicate NamesFile(x: Stab) { x.kind == 0x84 || (x.kind == 0x64 && x.value != 0) }

  /** The last file-name entry of [lo, i]; lo-1 if there is none. */
  function LastName(stabs: seq<Stab>, lo: int, i: int): (k: int)
    requires 0 <= lo && lo - 1 <= i < |stabs|
    ensures lo - 1 <= k <= i && (k >= lo ==> NamesFile(stabs[k])) && forall j :: k < j <= i ==> !NamesFile(stabs[j])
    decreases i - lo + 1
  {
    if i < lo || NamesFile(stabs[i]) then i else LastName(stabs, lo, i - 1)
  }

  /** n is the length of the unbroken run of parameter entries, N_PSYM, between fun and end. */
  ghost predicate ArgRun(stabs: seq<Stab>, fun: int, end: int, n: nat) {
    && (forall j :: fun < j <= fun + n ==> j < end && Is(stabs, 0xa0, j))
    && (n == 0 || fun + n < end)
    && (fun + n + 1 < end ==> !Is(stabs, 0xa0, fun + n + 1))
  }

  /** name is the string-table offset of entry x, if that lies inside the table. */
  predicate IsName(x: Stab, size: nat, name: Option<nat>) { name == if x.strx < size then Some(x.strx) else None }

  /** The file and function that a tidy table prescribes for addr. */
  ghost predicate Located(stabs: seq<Stab>, size: nat, addr: nat, x: Info) {
    && LastAt(stabs, N_SO, addr, 0, |stabs| - 1, x.file) && EndsAt(stabs, N_SO, x.file, |stabs| - 1, x.fileEnd)
    && (x.fun > x.funEnd <==> forall i :: x.file <= i <= x.fileEnd ==> !Is(stabs, N_FUN, i))
    && (x.fun > x.funEnd ==> x.fun == x.file && x.funAddr == addr && x.funName == None)
    && (x.fun <= x.funEnd ==>
          && EndsAt(stabs, N_FUN, x.fun, x.fileEnd, x.funEnd) && x.fun >= x.file
          && x.funAddr == stabs[x.fun].value <= addr && IsName(stabs[x.fun], size, x.funName)
          && (if exists i :: x.file <= i <= x.fileEnd && AtOrBelow(stabs, N_FUN, addr, i)
              then LastAt(stabs, N_FUN, addr, x.file, x.fileEnd, x.fun) else x.fun == x.file))
  }

  /**
    line is what the table says about addr in [lo, hi], whose line entries count from the
    address start: that of the last line entry at or below addr, -1 if there is no line
    entry; l is where the search ends.
  */
  ghost predicate LineAt(stabs: seq<Stab>, start: nat, addr: nat, lo: int, hi: int, line: int, l: int)
    requires start <= addr
  {
    && 0 <= lo <= l <= hi < |stabs|
    && ((forall i :: lo <= i <= hi ==> !Is(stabs, N_SLINE, i)) ==> line == -1 && l == lo)
    && ((exists i :: lo <= i <= hi && Is(stabs, N_SLINE, i)) ==> line == stabs[l].desc)
    && (Tidy(stabs, N_SLINE, addr - start, lo, hi) && (exists i :: lo <= i <= hi && Is(stabs, N_SLINE, i) && start + stabs[i].value <= addr) ==>
          && Is(stabs, N_SLINE, l) && start + stabs[l].value <= addr
          && forall j :: l < j <= hi && Is(stabs, N_SLINE, j) ==> start + stabs[j].value > addr)
  }

  /** The line, in absolute addresses: counted from the function if there is one, else as it stands. */
  ghost predicate LineFound(stabs: seq<Stab>, addr: nat, x: Info, l: int) {
    if x.fun <= x.funEnd
    then 0 <= x.fun < |stabs| && stabs[x.fun].value <= addr && LineAt(stabs, stabs[x.fun].value, addr, x.fun, x.funEnd, x.line, l)
    else LineAt(stabs, 0, addr, x.file, x.fileEnd, x.line, l)
  }

  /** What debuginfo_eip reports about an address that lies in some source file. */
  ghost predicate Reported(stabs: seq<Stab>, size: nat, addr: nat, x: Info, l: int) {
    && Located(stabs, size, addr, x) && LineFound(stabs, addr, x, l) && 0 <= x.file <= l < |stabs|
    && (var k := LastName(stabs, x.file, l); if k >= x.file then IsName(stabs[k], size, x.fileName) else x.fileName == None)
    && (if x.fun < x.funEnd then ArgRun(stabs, x.fun, x.funEnd, x.args) else x.args == 0)
  }

  /**
    What the lookup needs of the table: values below the last address, source files that
    ascend, and functions that ascend within the file that addr is in.
  */
  ghost predicate Searchable(stabs: seq<Stab>, addr: nat) {
    && (forall i :: 0 <= i < |stabs| ==> stabs[i].value < 0xFFFF_FFFF)
    && Tidy(stabs, N_SO, addr, 0, |stabs| - 1)
    && (forall i, j :: LastAt(stabs, N_SO, addr, 0, |stabs| - 1, i) && EndsAt(stabs, N_SO, i, |stabs| - 1, j) ==>
          Tidy(stabs, N_FUN, addr, i, j))
  }

  /** The entry of index 0 is a source file above addr. */
  predicate StartsAbove(stabs: seq<Stab>, addr: nat) { Above(stabs, N_SO, addr, 0) }

  /**
    How a lookup ends: with an answer, with -1, or, because the test for 0 lets the
    answer -1 of the first search pass, with a second search that starts before the table.
  */
  datatype Lookup = Found(info: Info) | NotFound | BeforeTable

  /** The first search answers -1 exactly when the entry of index 0 is a source file above addr. */
  lemma MinusOneIff(stabs: seq<Stab>, addr: nat, left: int, right: int)
    requires stabs != [] && left <= right && -1 <= right < |stabs| && Tidy(stabs, N_SO, addr, 0, |stabs| - 1)
    requires Bracketed(stabs, N_SO, addr, 0, |stabs| - 1, left, right)
    ensures left == -1 <==> StartsAbove(stabs, addr)
  {
    hide Undisturbed;
    if StartsAbove(stabs, addr) {
      forall i | 0 <= i < |stabs| ensures !AtOrBelow(stabs, N_SO, addr, i) { assert Is(stabs, N_SO, 0); }
    }
  }

  /** A table of one source file, at 10, and a lookup of address 5: the first search answers -1. */
  lemma OneFileAbove(stabs: seq<Stab>)
    requires stabs == [Stab(N_SO, 10, 0, 0)]
    ensures Searchable(stabs, 5)
    ensures var x := Narrow(stabs, N_SO, Start(0, 0, 5));
      0 <= x.left && x.right < |stabs| && Settle(stabs, N_SO, x.left, x.right) == -1
  {
    hide Narrow;
    assert Is(stabs, N_SO, 0);
    assert NoneAt(stabs, N_SO, 0, 0, 5);
    HitIffOccurs(stabs, N_SO, 0, 0, Start(0, 0, 5));
    Answer(stabs, N_SO, 5, 0, 0);
    var x := Narrow(stabs, N_SO, Start(0, 0, 5));
    MinusOneIff(stabs, 5, Settle(stabs, N_SO, x.left, x.right), x.right);
  }

  /** The first two searches: the source file, and the function inside it. */
  method Locate(stabs: seq<Stab>, size: nat, addr: Word) returns (r: Lookup)
    requires Searchable(stabs, addr)
    ensures r.BeforeTable? <==> StartsAbove(stabs, addr)
    ensures r.NotFound? <==> !StartsAbove(stabs, addr) && forall i :: 0 < i < |stabs| ==> !AtOrBelow(stabs, N_SO, addr, i)
    ensures r.Found? ==> Located(stabs, size, addr, r.info) && r.info.file > 0
  {
    hide Sorted, Undisturbed, Bracketed, Narrow, Settle;
    var file, fileEnd := StabBinsearch(stabs, 0, |stabs| - 1, N_SO, addr);
    if file <= fileEnd {
      MinusOneIff(stabs, addr, file, fileEnd);
      if !StartsAbove(stabs, addr) { BracketMeans(stabs, N_SO, addr, 0, |stabs| - 1, file, fileEnd); }
    }
    if file == 0 { return NotFound; }
    if file < 0 { return BeforeTable; }
    assert LastAt(stabs, N_SO, addr, 0, |stabs| - 1, file) && EndsAt(stabs, N_SO, file, |stabs| - 1, fileEnd);
    assert Tidy(stabs, N_FUN, addr, file, fileEnd);
    var fun, funEnd := StabBinsearch(stabs, file, fileEnd, N_FUN, addr);
    if fun <= funEnd {
      BracketMeans(stabs, N_FUN, addr, file, fileEnd, fun, funEnd);
      r := Found(Info(file, fileEnd, fun, funEnd, stabs[fun].value, if stabs[fun].strx < size then Some(stabs[fun].strx) else None, 0, None, 0));
    } else {
      r := Found(Info(file, fileEnd, fun, funEnd, addr, None, 0, None, 0));
    }
  }

  /** The third search: the line, in the function or else in the whole file. */
  method FindLine(stabs: seq<Stab>, size: nat, addr0: Word, x: Info) returns (y: Info, l: int)
    requires Searchable(stabs, addr0) && Located(stabs, size, addr0, x)
    ensures Located(stabs, size, addr0, y) && LineFound(stabs, addr0, y, l)
  {
    hide Sorted, Undisturbed, Bracketed, Narrow, Settle;
    var lo, hi, addr := x.file, x.fileEnd, addr0;
    if x.fun <= x.funEnd {
      lo, hi := x.fun, x.funEnd;
      addr := (addr0 - x.funAddr) % 0x1_0000_0000;
    }
    StartIsNoLine(stabs, size, addr0, x);
    var end;
    l, end := StabBinsearch(stabs, lo, hi, N_SLINE, addr);
    assert Tidy(stabs, N_SLINE, addr, lo, hi) && l <= end ==> Bracketed(stabs, N_SLINE, addr, lo, hi, l, end);
    if Bracketed(stabs, N_SLINE, addr, lo, hi, l, end) && l <= end {
      BracketMeans(stabs, N_SLINE, addr, lo, hi, l, end);
    }
    y := x.(line := if l <= end then stabs[l].desc else -1);
    LineMeans(stabs, addr0 - addr, addr, lo, hi, y.line, l, end);
  }

  /** From the key of the search to absolute addresses. */
  lemma LineMeans(stabs: seq<Stab>, start: nat, key: nat, lo: int, hi: int, line: int, l: int, end: int)
    requires 0 <= lo <= l <= hi < |stabs| && line == (if l <= end then stabs[l].desc else -1)
    requires l > end <==> forall i :: lo <= i <= hi ==> !Is(stabs, N_SLINE, i)
    requires l > end ==> l == lo
    requires Tidy(stabs, N_SLINE, key, lo, hi) && (exists i :: lo <= i <= hi && AtOrBelow(stabs, N_SLINE, key, i)) ==>
      LastAt(stabs, N_SLINE, key, lo, hi, l)
    ensures LineAt(stabs, start, start + key, lo, hi, line, l)
  {
    hide Tidy;
    if i :| lo <= i <= hi && Is(stabs, N_SLINE, i) && start + stabs[i].value <= start + key {
      assert AtOrBelow(stabs, N_SLINE, key, i);
      if Tidy(stabs, N_SLINE, key, lo, hi) {
        forall j | l < j <= hi && Is(stabs, N_SLINE, j) ensures start + stabs[j].value > start + key {
          assert !AtOrBelow(stabs, N_SLINE, key, j);
        }
      }
    }
  }

  lemma StartIsNoLine(stabs: seq<Stab>, size: nat, addr: Word, x: Info)
    requires Located(stabs, size, addr, x)
    ensures 0 <= x.file <= x.fileEnd < |stabs| && !Is(stabs, N_SLINE, x.file)
    ensures x.fun <= x.funEnd ==> x.file <= x.fun && x.funEnd < |stabs| && !Is(stabs, N_SLINE, x.fun) && x.funAddr <= addr
  {
  }

  lemma Placed(stabs: seq<Stab>, size: nat, addr: Word, x: Info, l: int)
    requires Located(stabs, size, addr, x) && LineFound(stabs, addr, x, l)
    ensures 0 <= x.file <= l < |stabs| && 0 <= x.fun && x.funEnd < |stabs|
  {
    StartIsNoLine(stabs, size, addr, x);
  }

  lemma SameLocation(stabs: seq<Stab>, size: nat, addr: Word, x: Info, y: Info, l: int)
    requires Located(stabs, size, addr, x) && LineFound(stabs, addr, x, l)
    requires y == x.(fileName := y.fileName, args := y.args)
    ensures Located(stabs, size, addr, y) && LineFound(stabs, addr, y, l)
  {
    hide LastAt, EndsAt, Tidy;
  }

  /** The backward scan for the name of the source file. */
  method FindFileName(stabs: seq<Stab>, size: nat, file: int, l: int) returns (name: Option<nat>)
    requires 0 <= file <= l < |stabs|
    ensures var k := LastName(stabs, file, l); if k >= file then IsName(stabs[k], size, name) else name == None
  {
    var k := l;
    while k >= file && stabs[k].kind != N_SOL && (stabs[k].kind != N_SO || stabs[k].value == 0)
      invariant file - 1 <= k <= l && LastName(stabs, file, k) == LastName(stabs, file, l)
    {
      k := k - 1;
    }
    name := if k >= file && stabs[k].strx < size then Some(stabs[k].strx) else None;
  }

  method CountArgs(stabs: seq<Stab>, fun: int, funEnd: int) returns (n: nat)
    requires 0 <= fun && funEnd < |stabs|
    ensures if fun < funEnd then ArgRun(stabs, fun, funEnd, n) else n == 0
  {
    n := 0;
    if fun < funEnd {
      var i := fun + 1;
      while i < funEnd && stabs[i].kind == N_PSYM
        invariant fun < i == fun + 1 + n <= funEnd
        invariant forall j :: fun < j < i ==> Is(stabs, N_PSYM, j)
      {
        n, i := n + 1, i + 1;
      }
    }
  }

  /**
    debuginfo_eip. It fails exactly when the string table is not terminated or no source
    file after index 0 starts at or before addr; and it leaves the table, where the code
    reads stabs[-1], exactly when the entry of index 0 is a source file above addr.
  */
  method DebuginfoEip(stabs: seq<Stab>, stabstr: seq<Byte>, addr: Word) returns (r: Lookup)
    requires Searchable(stabs, addr)
    ensures r.BeforeTable? <==> stabstr != [] && stabstr[|stabstr| - 1] == 0 && StartsAbove(stabs, addr)
    ensures r.NotFound? <==>
      stabstr == [] || stabstr[|stabstr| - 1] != 0 ||
      (!StartsAbove(stabs, addr) && forall i :: 0 < i < |stabs| ==> !AtOrBelow(stabs, N_SO, addr, i))
    ensures r.Found? ==> exists l :: Reported(stabs, |stabstr|, addr, r.info, l)
  {
    hide Searchable, Located, LineFound, AtOrBelow, StartsAbove;
    if stabstr == [] || stabstr[|stabstr| - 1] != 0 { return NotFound; }
    r := Locate(stabs, |stabstr|, addr);
    if r.Found? {
      var x, at := FindLine(stabs, |stabstr|, addr, r.info);
      Placed(stabs, |stabstr|, addr, x, at);
      var name := FindFileName(stabs, |stabstr|, x.file, at);
      var n := CountArgs(stabs, x.fun, x.funEnd);
      r := Found(x.(fileName := name, args := n));
      SameLocation(stabs, |stabstr|, addr, x, r.info, at);
      assert Reported(stabs, |stabstr|, addr, r.info, at);
    }
  }

  /**
    A file at 0x100 with one function there, whose lines 10 and 11 start at offsets 0 and
    0x20, and a next file at 0x200: whatever is reported for 0x105 is line 10 of that
    function.
  */
  lemma LineOfAnAddress(stabs: seq<Stab>, size: nat, x: Info, l: int)
    requires stabs == [Stab(0, 0, 0, 0), Stab(0x64, 0x100, 0, 0), Stab(0x24, 0x100, 0, 0),
                       Stab(0x44, 0, 10, 0), Stab(0x44, 0x20, 11, 0), Stab(0x64, 0x200, 0, 0)]
    requires Reported(stabs, size, 0x105, x, l)
    ensures x.file == 1 && x.fileEnd == 4 && x.fun == 2 && x.funEnd == 4 && x.funAddr == 0x100 && x.line == 10
  {
    hide Undisturbed;
    assert AtOrBelow(stabs, N_SO, 0x105, 1) && Is(stabs, N_SO, 5);
    assert x.file == 1 && x.fileEnd == 4;
    assert AtOrBelow(stabs, N_FUN, 0x105, 2) && Is(stabs, N_FUN, 2);
    assert x.fun == 2 && x.funEnd == 4;
    assert Is(stabs, N_SLINE, 3) && Is(stabs, N_SLINE, 4);
    assert Sorted(stabs, N_SLINE, 2, 4) && NoNeighbour(stabs, N_SLINE, 2, 4, 5);
    NoNeighbourSuffices(stabs, N_SLINE, 2, 4, 5);
    assert l == 3;
  }
}
