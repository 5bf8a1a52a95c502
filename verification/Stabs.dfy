/**
  stab_binsearch: a binary search over the entries of one type in a mixed table,
  which raises its own key by one after an exact hit and goes on searching.
*/
module Stabs {
  import opened Mmu

  /** The fields of a symbol table entry that the lookup reads. */
  datatype Stab = Stab(kind: int, value: nat, desc: int, strx: nat)

  /** Entry i is of the sought type. */
  predicate Is(stabs: seq<Stab>, kind: int, i: int) {
    0 <= i < |stabs| && stabs[i].kind == kind
  }

  /** Entries of the type in [lo, hi] whose value is at least addr. */
  function Pending(stabs: seq<Stab>, kind: int, addr: nat, lo: int, hi: int): nat
    decreases hi - lo + 1
  {
    if hi < lo then 0
    else Pending(stabs, kind, addr, lo, hi - 1) + (if Is(stabs, kind, hi) && stabs[hi].value >= addr then 1 else 0)
  }

  lemma {:induction false} PendingNarrower(stabs: seq<Stab>, kind: int, addr: nat, lo: int, hi: int, lo': int, hi': int)
    requires lo <= lo' && hi' <= hi
    ensures Pending(stabs, kind, addr, lo', hi') <= Pending(stabs, kind, addr, lo, hi)
    decreases hi - lo + 1
  {
    if lo <= hi && lo' <= hi' {
      PendingNarrower(stabs, kind, addr, lo, hi - 1, lo', if hi' == hi then hi' - 1 else hi');
    }
  }

  /** Raising the key past an entry that is pending takes that entry away. */
  lemma {:induction false} PendingRaised(stabs: seq<Stab>, kind: int, addr: nat, lo: int, hi: int, m: int)
    requires Is(stabs, kind, m) && stabs[m].value == addr
    ensures Pending(stabs, kind, addr + 1, lo, hi) + (if lo <= m <= hi then 1 else 0) <= Pending(stabs, kind, addr, lo, hi)
    decreases hi - lo + 1
  {
    if lo <= hi { PendingRaised(stabs, kind, addr, lo, hi - 1, m); }
  }

  /** The entries of the type in [lo, hi] are in non-decreasing order of value. */
  ghost predicate Sorted(stabs: seq<Stab>, kind: int, lo: int, hi: int) {
    forall i, j :: lo <= i <= j <= hi && Is(stabs, kind, i) && Is(stabs, kind, j) ==> stabs[i].value <= stabs[j].value
  }

  /** addr and addr+1 do not both occur among the entries of the type. */
  ghost predicate NoNeighbour(stabs: seq<Stab>, kind: int, lo: int, hi: int, addr: nat) {
    forall i, j :: lo <= i <= hi && lo <= j <= hi && Is(stabs, kind, i) && Is(stabs, kind, j) && stabs[i].value == addr ==> stabs[j].value != addr + 1
  }

  /** Entry i is of the type and starts at or before addr. */
  predicate AtOrBelow(stabs: seq<Stab>, kind: int, addr: nat, i: int) {
    Is(stabs, kind, i) && stabs[i].value <= addr
  }

  predicate Above(stabs: seq<Stab>, kind: int, addr: nat, i: int) {
    Is(stabs, kind, i) && stabs[i].value > addr
  }

  /** What the search has established: everything left of l is at or below addr, everything right of r is above. */
  ghost predicate Split(stabs: seq<Stab>, kind: int, addr: nat, lo: int, hi: int, l: int, r: int) {
    && (forall i :: lo <= i < l ==> !Above(stabs, kind, addr, i))
    && (forall i :: r < i <= hi ==> !AtOrBelow(stabs, kind, addr, i))
  }

  /** The bracket that a tidy region calls for. */
  ghost predicate Bracketed(stabs: seq<Stab>, kind: int, addr: nat, lo: int, hi: int, left: int, right: int) {
    && Split(stabs, kind, addr, lo, hi, right + 1, right)
    && (right < hi ==> Above(stabs, kind, addr, right + 1))
    && (forall i :: left < i <= right ==> !Is(stabs, kind, i))
    && ((lo <= left && AtOrBelow(stabs, kind, addr, left)) ||
        (left == (if right < lo then right else lo) && forall i :: lo <= i <= hi ==> !AtOrBelow(stabs, kind, addr, i)))
  }

  // ------------------------------------------------------- the search as a function

  /** The last entry of the type in [l, m], or l-1. */
  function Back(stabs: seq<Stab>, kind: int, l: int, m: int): (k: int)
    requires 0 <= l && l - 1 <= m < |stabs|
    ensures l - 1 <= k <= m && (k >= l ==> Is(stabs, kind, k)) && forall i :: k < i <= m ==> !Is(stabs, kind, i)
    decreases m - l + 1
  {
    if m >= l && stabs[m].kind != kind then Back(stabs, kind, l, m - 1) else m
  }

  /** The variables of the first loop. */
  datatype Vars = Vars(l: int, r: int, left: int, right: int, anyMatches: bool, addr: nat)

  ghost predicate InTable(stabs: seq<Stab>, x: Vars) { 0 <= x.l && x.r < |stabs| }

  /** One turn of the first loop. */
  function Turn(stabs: seq<Stab>, kind: int, x: Vars): Vars
    requires InTable(stabs, x) && x.l <= x.r
  {
    var trueM := (x.l + x.r) / 2;
    var m := Back(stabs, kind, x.l, trueM);
    if m < x.l then x.(l := trueM + 1)
    else if stabs[m].value < x.addr then x.(left := m, l := trueM + 1, anyMatches := true)
    else if stabs[m].value > x.addr then x.(right := m - 1, r := m - 1, anyMatches := true)
    else x.(left := m, l := m, addr := x.addr + 1, anyMatches := true)
  }

  /** Every turn decreases (pending entries, length of the interval), the exact hit included. */
  lemma TurnDecreases(stabs: seq<Stab>, kind: int, x: Vars)
    requires InTable(stabs, x) && x.l <= x.r
    ensures var y := Turn(stabs, kind, x);
      && InTable(stabs, y)
      && (Pending(stabs, kind, y.addr, y.l, y.r) < Pending(stabs, kind, x.addr, x.l, x.r) ||
          (Pending(stabs, kind, y.addr, y.l, y.r) == Pending(stabs, kind, x.addr, x.l, x.r) && y.r - y.l < x.r - x.l))
  {
    hide Pending;
    var trueM := (x.l + x.r) / 2;
    var m := Back(stabs, kind, x.l, trueM);
    PendingNarrower(stabs, kind, x.addr, x.l, x.r, trueM + 1, x.r);
    PendingNarrower(stabs, kind, x.addr, x.l, x.r, x.l, m - 1);
    if m >= x.l && stabs[m].value == x.addr {
      PendingNarrower(stabs, kind, x.addr, x.l, x.r, m, x.r);
      PendingRaised(stabs, kind, x.addr, m, x.r, m);
    }
  }

  /** The first loop, to its end: it terminates on every table, sorted or not. */
  function Narrow(stabs: seq<Stab>, kind: int, x: Vars): Vars
    requires InTable(stabs, x)
    decreases Pending(stabs, kind, x.addr, x.l, x.r), x.r - x.l + 1
  {
    if x.l > x.r then x
    else
      TurnDecreases(stabs, kind, x);
      Narrow(stabs, kind, Turn(stabs, kind, x))
  }

  /** The second loop: from right down to the next entry of the type, but not below left. */
  function Settle(stabs: seq<Stab>, kind: int, left: int, l: int): (k: int)
    requires 0 <= left && l < |stabs|
    ensures k <= l && (k > left ==> Is(stabs, kind, k)) && (k < left ==> k == l) && forall i :: k < i <= l ==> !Is(stabs, kind, i)
    decreases l - left + 1
  {
    if l > left && stabs[l].kind != kind then Settle(stabs, kind, left, l - 1) else l
  }

  function Start(lo: int, hi: int, addr: nat): Vars { Vars(lo, hi, lo, hi, false, addr) }

  // ----------------------------------------------------------- what the loop keeps

  /** On every table. */
  ghost predicate Sane(stabs: seq<Stab>, kind: int, lo: int, hi: int, x: Vars) {
    && lo <= x.l && x.r == x.right && lo - 1 <= x.r <= hi && lo <= x.left
    && (x.left == lo || (x.left <= hi && Is(stabs, kind, x.left)))
    && (x.r < hi ==> Is(stabs, kind, x.r + 1))
    && (!x.anyMatches ==> x.left == lo && x.r == hi && forall i :: lo <= i < x.l ==> !Is(stabs, kind, i))
    && (x.anyMatches ==> exists i :: lo <= i <= hi && Is(stabs, kind, i))
  }

  /** On a sorted region, as long as no entry at addr0+1 can be taken for a hit. */
  ghost predicate Progress(stabs: seq<Stab>, kind: int, addr0: nat, lo: int, hi: int, x: Vars) {
    && Split(stabs, kind, addr0, lo, hi, x.l, x.r)
    && (x.left == lo || AtOrBelow(stabs, kind, addr0, x.left))
    && (x.r < hi ==> Above(stabs, kind, addr0, x.r + 1))
    && (x.addr == addr0 || (x.addr == addr0 + 1 && NoneAt(stabs, kind, x.l, x.r, addr0 + 1)))
  }

  /** No entry of the type in [l, r] has the value a. */
  ghost predicate NoneAt(stabs: seq<Stab>, kind: int, l: int, r: int, a: nat) {
    forall i :: l <= i <= r && Is(stabs, kind, i) ==> stabs[i].value != a
  }

  lemma TurnSane(stabs: seq<Stab>, kind: int, lo: int, hi: int, x: Vars)
    requires InTable(stabs, x) && x.l <= x.r && Sane(stabs, kind, lo, hi, x)
    ensures Sane(stabs, kind, lo, hi, Turn(stabs, kind, x))
  {
  }

  /** The turn at state x finds an entry whose value is the key. */
  ghost predicate Hits(stabs: seq<Stab>, kind: int, x: Vars)
    requires InTable(stabs, x) && x.l <= x.r
  {
    var m := Back(stabs, kind, x.l, (x.l + x.r) / 2);
    m >= x.l && stabs[m].value == x.addr
  }

  lemma TurnProgress(stabs: seq<Stab>, kind: int, addr0: nat, lo: int, hi: int, x: Vars)
    requires Sorted(stabs, kind, lo, hi) && InTable(stabs, x) && x.l <= x.r
    requires Sane(stabs, kind, lo, hi, x) && Progress(stabs, kind, addr0, lo, hi, x)
    requires Hits(stabs, kind, x) ==> NoneAt(stabs, kind, x.l, x.r, addr0 + 1)
    ensures Progress(stabs, kind, addr0, lo, hi, Turn(stabs, kind, x))
    ensures !Hits(stabs, kind, x) ==> Turn(stabs, kind, x).addr == x.addr
  {
    hide Sorted, Progress, NoneAt;
    var trueM := (x.l + x.r) / 2;
    Advance(stabs, kind, addr0, lo, hi, x, Back(stabs, kind, x.l, trueM), trueM);
  }

  lemma Advance(stabs: seq<Stab>, kind: int, addr0: nat, lo: int, hi: int, x: Vars, m: int, trueM: int)
    requires Sorted(stabs, kind, lo, hi) && Progress(stabs, kind, addr0, lo, hi, x)
    requires lo <= x.l && x.l - 1 <= m <= trueM <= x.r <= hi && (m >= x.l ==> Is(stabs, kind, m))
    requires forall i :: m < i <= trueM ==> !Is(stabs, kind, i)
    ensures m < x.l ==> Progress(stabs, kind, addr0, lo, hi, x.(l := trueM + 1))
    ensures m >= x.l && stabs[m].value < x.addr ==>
      Progress(stabs, kind, addr0, lo, hi, x.(left := m, l := trueM + 1, anyMatches := true))
    ensures m >= x.l && stabs[m].value > x.addr ==>
      Progress(stabs, kind, addr0, lo, hi, x.(right := m - 1, r := m - 1, anyMatches := true))
    ensures m >= x.l && stabs[m].value == x.addr && NoneAt(stabs, kind, x.l, x.r, addr0 + 1) ==>
      Progress(stabs, kind, addr0, lo, hi, x.(left := m, l := m, addr := x.addr + 1, anyMatches := true))
  {
  }

  lemma {:induction false} NarrowSane(stabs: seq<Stab>, kind: int, lo: int, hi: int, x: Vars)
    requires InTable(stabs, x) && Sane(stabs, kind, lo, hi, x)
    ensures Narrow(stabs, kind, x).l > Narrow(stabs, kind, x).r && Sane(stabs, kind, lo, hi, Narrow(stabs, kind, x))
    decreases Pending(stabs, kind, x.addr, x.l, x.r), x.r - x.l + 1
  {
    hide Sane, Turn;
    if x.l <= x.r {
      TurnDecreases(stabs, kind, x);
      TurnSane(stabs, kind, lo, hi, x);
      NarrowSane(stabs, kind, lo, hi, Turn(stabs, kind, x));
    }
  }

  // ------------------------------------------------ the raised key, on a sorted region

  /** The state of the bisection at its first hit; until then it is the textbook one. */
  ghost function FirstHit(stabs: seq<Stab>, kind: int, x: Vars): Option<Vars>
    requires InTable(stabs, x)
    decreases Pending(stabs, kind, x.addr, x.l, x.r), x.r - x.l + 1
  {
    if x.l > x.r then None
    else if Hits(stabs, kind, x) then Some(x)
    else
      TurnDecreases(stabs, kind, x);
      FirstHit(stabs, kind, Turn(stabs, kind, x))
  }

  /** The interval that the bisection has reached at its first hit holds no entry of the type at addr+1. */
  ghost predicate Undisturbed(stabs: seq<Stab>, kind: int, lo: int, hi: int, addr: nat)
    requires 0 <= lo && hi < |stabs|
  {
    match FirstHit(stabs, kind, Start(lo, hi, addr))
    case None => true
    case Some(h) => NoneAt(stabs, kind, h.l, h.r, addr + 1)
  }

  /** The key is addr0+1 and an entry at addr0+1 is still in reach. */
  ghost predicate Waiting(stabs: seq<Stab>, kind: int, addr0: nat, x: Vars) {
    x.addr == addr0 + 1 && !NoneAt(stabs, kind, x.l, x.r, addr0 + 1)
  }

  /** left is an entry above addr0, and can only move up. */
  ghost predicate Lost(stabs: seq<Stab>, kind: int, addr0: nat, lo: int, x: Vars) {
    && lo <= x.left <= x.r && x.left <= x.l
    && Is(stabs, kind, x.left) && addr0 < stabs[x.left].value < x.addr
  }

  lemma WaitingTurn(stabs: seq<Stab>, kind: int, addr0: nat, lo: int, hi: int, x: Vars)
    requires Sorted(stabs, kind, lo, hi) && InTable(stabs, x) && x.l <= x.r && lo <= x.l && x.r <= hi
    requires Waiting(stabs, kind, addr0, x)
    ensures var y := Turn(stabs, kind, x); Waiting(stabs, kind, addr0, y) || Lost(stabs, kind, addr0, lo, y)
  {
    var j :| x.l <= j <= x.r && Is(stabs, kind, j) && stabs[j].value == addr0 + 1;
    var y := Turn(stabs, kind, x);
    if y.addr == x.addr { assert y.l <= j <= y.r; }
  }

  lemma LostTurn(stabs: seq<Stab>, kind: int, addr0: nat, lo: int, hi: int, x: Vars)
    requires Sorted(stabs, kind, lo, hi) && InTable(stabs, x) && x.l <= x.r && lo <= x.l && x.r <= hi
    requires Lost(stabs, kind, addr0, lo, x)
    ensures Lost(stabs, kind, addr0, lo, Turn(stabs, kind, x))
  {
  }

  lemma {:induction false} NarrowLost(stabs: seq<Stab>, kind: int, addr0: nat, lo: int, hi: int, x: Vars)
    requires Sorted(stabs, kind, lo, hi) && InTable(stabs, x) && Sane(stabs, kind, lo, hi, x)
    requires Waiting(stabs, kind, addr0, x) || Lost(stabs, kind, addr0, lo, x)
    ensures Lost(stabs, kind, addr0, lo, Narrow(stabs, kind, x))
    decreases Pending(stabs, kind, x.addr, x.l, x.r), x.r - x.l + 1
  {
    hide Turn, Lost, Sorted;
    if x.l <= x.r {
      TurnDecreases(stabs, kind, x);
      TurnSane(stabs, kind, lo, hi, x);
      if Waiting(stabs, kind, addr0, x) {
        WaitingTurn(stabs, kind, addr0, lo, hi, x);
      } else {
        LostTurn(stabs, kind, addr0, lo, hi, x);
      }
      NarrowLost(stabs, kind, addr0, lo, hi, Turn(stabs, kind, x));
    }
  }

  /** With no entry at addr0+1 in reach the raised key does no harm. */
  lemma {:induction false} NarrowRaised(stabs: seq<Stab>, kind: int, addr0: nat, lo: int, hi: int, x: Vars)
    requires Sorted(stabs, kind, lo, hi) && InTable(stabs, x) && Sane(stabs, kind, lo, hi, x)
    requires Progress(stabs, kind, addr0, lo, hi, x) && x.addr == addr0 + 1
    ensures Progress(stabs, kind, addr0, lo, hi, Narrow(stabs, kind, x))
    decreases Pending(stabs, kind, x.addr, x.l, x.r), x.r - x.l + 1
  {
    hide Turn, Sorted, Split, AtOrBelow, Above;
    if x.l <= x.r {
      TurnDecreases(stabs, kind, x);
      TurnSane(stabs, kind, lo, hi, x);
      TurnProgress(stabs, kind, addr0, lo, hi, x);
      NarrowRaised(stabs, kind, addr0, lo, hi, Turn(stabs, kind, x));
    }
  }

  /** The whole search on a sorted region: what happens at the first hit decides. */
  lemma {:induction false} NarrowExact(stabs: seq<Stab>, kind: int, lo: int, hi: int, x: Vars)
    requires Sorted(stabs, kind, lo, hi) && InTable(stabs, x) && Sane(stabs, kind, lo, hi, x)
    requires Progress(stabs, kind, x.addr, lo, hi, x)
    ensures match FirstHit(stabs, kind, x)
      case None => Progress(stabs, kind, x.addr, lo, hi, Narrow(stabs, kind, x))
      case Some(h) =>
        if NoneAt(stabs, kind, h.l, h.r, x.addr + 1)
        then Progress(stabs, kind, x.addr, lo, hi, Narrow(stabs, kind, x))
        else Lost(stabs, kind, x.addr, lo, Narrow(stabs, kind, x))
    decreases Pending(stabs, kind, x.addr, x.l, x.r), x.r - x.l + 1
  {
    hide Turn, Sorted, Progress, Lost, NoneAt, Hits;
    if x.l <= x.r {
      TurnDecreases(stabs, kind, x);
      TurnSane(stabs, kind, lo, hi, x);
      if !Hits(stabs, kind, x) {
        TurnProgress(stabs, kind, x.addr, lo, hi, x);
        NarrowExact(stabs, kind, lo, hi, Turn(stabs, kind, x));
      } else if NoneAt(stabs, kind, x.l, x.r, x.addr + 1) {
        TurnProgress(stabs, kind, x.addr, lo, hi, x);
        HitTurn(stabs, kind, lo, hi, x);
        NarrowRaised(stabs, kind, x.addr, lo, hi, Turn(stabs, kind, x));
      } else {
        HitTurn(stabs, kind, lo, hi, x);
        NarrowLost(stabs, kind, x.addr, lo, hi, Turn(stabs, kind, x));
      }
    }
  }

  /** A hit raises the key and keeps every later entry in reach. */
  lemma HitTurn(stabs: seq<Stab>, kind: int, lo: int, hi: int, x: Vars)
    requires Sorted(stabs, kind, lo, hi) && InTable(stabs, x) && x.l <= x.r && lo <= x.l && x.r <= hi && Hits(stabs, kind, x)
    ensures Turn(stabs, kind, x).addr == x.addr + 1
    ensures !NoneAt(stabs, kind, x.l, x.r, x.addr + 1) ==> Waiting(stabs, kind, x.addr, Turn(stabs, kind, x))
  {
    if !NoneAt(stabs, kind, x.l, x.r, x.addr + 1) {
      var j :| x.l <= j <= x.r && Is(stabs, kind, j) && stabs[j].value == x.addr + 1;
      assert Turn(stabs, kind, x).l <= j;
    }
  }

  /** The answer on a sorted region, right or wrong, as the state of the first loop gives it. */
  lemma Answer(stabs: seq<Stab>, kind: int, addr: nat, lo: int, hi: int)
    requires 0 <= lo && lo - 1 <= hi < |stabs|
    ensures var x := Narrow(stabs, kind, Start(lo, hi, addr));
      && Sane(stabs, kind, lo, hi, x) && x.l > x.r
      && (Sorted(stabs, kind, lo, hi) && x.anyMatches ==>
           var left := Settle(stabs, kind, x.left, x.right);
           && (Bracketed(stabs, kind, addr, lo, hi, left, x.right) <==> Undisturbed(stabs, kind, lo, hi, addr))
           && (!Undisturbed(stabs, kind, lo, hi, addr) ==> Above(stabs, kind, addr, left)))
  {
    hide Narrow, Progress, Lost, Bracketed, Sorted, NoneAt;
    var start := Start(lo, hi, addr);
    StartProgress(stabs, kind, addr, lo, hi);
    NarrowSane(stabs, kind, lo, hi, start);
    var x := Narrow(stabs, kind, start);
    if Sorted(stabs, kind, lo, hi) && x.anyMatches {
      NarrowExact(stabs, kind, lo, hi, start);
      Settled(stabs, kind, addr, lo, hi, x);
      if Lost(stabs, kind, addr, lo, x) { LostAnswer(stabs, kind, addr, lo, hi, x); }
    }
  }

  /** An answer that is lost is an entry above addr, so it brackets nothing. */
  lemma LostAnswer(stabs: seq<Stab>, kind: int, addr: nat, lo: int, hi: int, x: Vars)
    requires 0 <= lo && hi < |stabs| && Sorted(stabs, kind, lo, hi)
    requires Sane(stabs, kind, lo, hi, x) && Lost(stabs, kind, addr, lo, x)
    ensures Above(stabs, kind, addr, Settle(stabs, kind, x.left, x.right))
    ensures !Bracketed(stabs, kind, addr, lo, hi, Settle(stabs, kind, x.left, x.right), x.right)
  {
    assert Above(stabs, kind, addr, x.left);
  }

  /**
    stab_binsearch reports failure, left > right, exactly when the region holds no
    entry of the type. The comment in the source promises only that no entry then
    contains addr, and that is so; the converse reading, that a miss is reported as a
    failure, holds exactly when some entry is at or below addr or there is none at all.

    On a sorted region left is the last entry at or below addr and right is just before
    the next entry of the type exactly when the bisection, at its first hit, has no
    entry at addr+1 left in its interval; otherwise left is an entry above addr.
  */
  method StabBinsearch(stabs: seq<Stab>, regionLeft: int, regionRight: int, kind: int, addr: nat)
    returns (left: int, right: int)
    requires 0 <= regionLeft && regionLeft - 1 <= regionRight < |stabs|
    requires forall i :: 0 <= i < |stabs| ==> stabs[i].value < 0xFFFF_FFFF
    ensures regionLeft - 1 <= left && regionLeft - 1 <= right <= regionRight
    ensures left > right <==> forall i :: regionLeft <= i <= regionRight ==> !Is(stabs, kind, i)
    ensures left > right ==> left == regionLeft && right == left - 1
    ensures left <= right < regionRight ==> Is(stabs, kind, right + 1)
    ensures left < regionLeft ==> left == right
    ensures left > right ==> forall i :: regionLeft <= i <= regionRight ==> !AtOrBelow(stabs, kind, addr, i)
    ensures ((forall i :: regionLeft <= i <= regionRight ==> !AtOrBelow(stabs, kind, addr, i)) ==> left > right) <==>
      (exists i :: regionLeft <= i <= regionRight && AtOrBelow(stabs, kind, addr, i)) ||
      (forall i :: regionLeft <= i <= regionRight ==> !Is(stabs, kind, i))
    ensures Sorted(stabs, kind, regionLeft, regionRight) && left <= right ==>
      (Bracketed(stabs, kind, addr, regionLeft, regionRight, left, right) <==>
       Undisturbed(stabs, kind, regionLeft, regionRight, addr))
    ensures Sorted(stabs, kind, regionLeft, regionRight) && left <= right && !Undisturbed(stabs, kind, regionLeft, regionRight, addr) ==>
      Above(stabs, kind, addr, left)
    ensures var x := Narrow(stabs, kind, Start(regionLeft, regionRight, addr));
      left <= right ==> right == x.right && 0 <= x.left && x.right < |stabs| && left == Settle(stabs, kind, x.left, x.right)
  {
    hide Narrow, Sorted, Bracketed, Undisturbed, Above;
    Answer(stabs, kind, addr, regionLeft, regionRight);
    ghost var x := Narrow(stabs, kind, Start(regionLeft, regionRight, addr));
    var anyMatches: bool;
    left, right, anyMatches := NarrowLoop(stabs, regionLeft, regionRight, kind, addr);
    if !anyMatches {
      right := left - 1;
    } else {
      var l := right;
      while l > left && stabs[l].kind != kind
        invariant l <= right && Settle(stabs, kind, left, l) == Settle(stabs, kind, left, right)
      {
        l := l - 1;
      }
      left := l;
    }
  }

  lemma StartProgress(stabs: seq<Stab>, kind: int, addr: nat, lo: int, hi: int)
    ensures Progress(stabs, kind, addr, lo, hi, Start(lo, hi, addr))
  {
  }

  /** The first loop of stab_binsearch. */
  method NarrowLoop(stabs: seq<Stab>, regionLeft: int, regionRight: int, kind: int, addr0: nat)
    returns (left: int, right: int, anyMatches: bool)
    requires 0 <= regionLeft && regionLeft - 1 <= regionRight < |stabs|
    requires forall i :: 0 <= i < |stabs| ==> stabs[i].value < 0xFFFF_FFFF
    ensures var x := Narrow(stabs, kind, Start(regionLeft, regionRight, addr0));
      left == x.left && right == x.right && anyMatches == x.anyMatches
  {
    left, right := regionLeft, regionRight;
    var l, r, addr := left, right, addr0;
    anyMatches := false;
    hide Pending, Narrow, Turn;
    ghost var start := Start(regionLeft, regionRight, addr0);
    while l <= r
      invariant InTable(stabs, start) && InTable(stabs, Vars(l, r, left, right, anyMatches, addr))
      invariant Narrow(stabs, kind, Vars(l, r, left, right, anyMatches, addr)) == Narrow(stabs, kind, start)
      decreases Pending(stabs, kind, addr, l, r), r - l + 1
    {
      ghost var x := Vars(l, r, left, right, anyMatches, addr);
      TurnDecreases(stabs, kind, x);
      NarrowTurn(stabs, kind, x);
      l, r, left, right, anyMatches, addr := TurnOnce(stabs, kind, l, r, left, right, anyMatches, addr);
    }
    NarrowDone(stabs, kind, Vars(l, r, left, right, anyMatches, addr));
  }

  lemma NarrowTurn(stabs: seq<Stab>, kind: int, x: Vars)
    requires InTable(stabs, x) && x.l <= x.r
    ensures InTable(stabs, Turn(stabs, kind, x)) && Narrow(stabs, kind, x) == Narrow(stabs, kind, Turn(stabs, kind, x))
  {
    hide Pending, Turn;
    TurnDecreases(stabs, kind, x);
  }

  lemma NarrowDone(stabs: seq<Stab>, kind: int, x: Vars)
    requires InTable(stabs, x) && x.l > x.r
    ensures Narrow(stabs, kind, x) == x
  {
  }

  /** The body of the first loop. */
  method TurnOnce(stabs: seq<Stab>, kind: int, l: int, r: int, left: int, right: int, anyMatches: bool, addr: nat)
    returns (l': int, r': int, left': int, right': int, anyMatches': bool, addr': nat)
    requires InTable(stabs, Vars(l, r, left, right, anyMatches, addr)) && l <= r
    ensures Vars(l', r', left', right', anyMatches', addr') == Turn(stabs, kind, Vars(l, r, left, right, anyMatches, addr))
  {
    l', r', left', right', anyMatches', addr' := l, r, left, right, anyMatches, addr;
    var trueM := (l + r) / 2;
    var m := FindBack(stabs, kind, l, trueM);
    if m < l {
      l' := trueM + 1;
      return;
    }
    anyMatches' := true;
    if stabs[m].value < addr {
      left' := m;
      l' := trueM + 1;
    } else if stabs[m].value > addr {
      right' := m - 1;
      r' := m - 1;
    } else {
      left' := m;
      l' := m;
      addr' := addr + 1;
    }
  }

  /** The inner loop: back to the nearest entry of the type. */
  method FindBack(stabs: seq<Stab>, kind: int, l: int, trueM: int) returns (m: int)
    requires 0 <= l && l - 1 <= trueM < |stabs|
    ensures m == Back(stabs, kind, l, trueM)
  {
    m := trueM;
    while m >= l && stabs[m].kind != kind
      invariant l - 1 <= m <= trueM && Back(stabs, kind, l, m) == Back(stabs, kind, l, trueM)
    {
      m := m - 1;
    }
  }

  /** The second loop completes the bracket. */
  lemma Settled(stabs: seq<Stab>, kind: int, addr: nat, lo: int, hi: int, x: Vars)
    requires 0 <= lo && hi < |stabs| && Sane(stabs, kind, lo, hi, x) && x.l > x.r && x.anyMatches
    ensures var left := Settle(stabs, kind, x.left, x.right);
      && lo - 1 <= left <= x.right
      && (Progress(stabs, kind, addr, lo, hi, x) ==> Bracketed(stabs, kind, addr, lo, hi, left, x.right))
  {
    var left := Settle(stabs, kind, x.left, x.right);
    if Progress(stabs, kind, addr, lo, hi, x) {
      if left > x.left {
        assert !Above(stabs, kind, addr, left);
      } else {
        assert x.left > x.right ==> !AtOrBelow(stabs, kind, addr, x.left) || x.left > hi;
        if !AtOrBelow(stabs, kind, addr, left) || left < lo {
          forall i | lo <= i <= hi ensures !AtOrBelow(stabs, kind, addr, i) {
            if i <= x.right { assert i > left ==> !Is(stabs, kind, i); }
          }
        }
      }
    }
  }

  // -------------------------------------------------------------- its limits

  /** The bracket is unique, so Bracketed determines the answer. */
  lemma BracketUnique(stabs: seq<Stab>, kind: int, addr: nat, lo: int, hi: int, l1: int, r1: int, l2: int, r2: int)
    requires lo - 1 <= r1 <= hi && lo - 1 <= r2 <= hi && l1 <= r1 && l2 <= r2
    requires Bracketed(stabs, kind, addr, lo, hi, l1, r1) && Bracketed(stabs, kind, addr, lo, hi, l2, r2)
    ensures l1 == l2 && r1 == r2
  {
    assert r1 < r2 ==> Above(stabs, kind, addr, r1 + 1);
    assert r2 < r1 ==> Above(stabs, kind, addr, r2 + 1);
    assert r1 == r2;
    assert AtOrBelow(stabs, kind, addr, l1) ==> Is(stabs, kind, l1);
    assert AtOrBelow(stabs, kind, addr, l2) ==> Is(stabs, kind, l2);
  }

  /** On a sorted region the bisection hits exactly when addr occurs. */
  lemma {:induction false} HitIffOccurs(stabs: seq<Stab>, kind: int, lo: int, hi: int, x: Vars)
    requires Sorted(stabs, kind, lo, hi) && InTable(stabs, x) && lo <= x.l && x.r <= hi
    ensures FirstHit(stabs, kind, x).Some? <==> !NoneAt(stabs, kind, x.l, x.r, x.addr)
    decreases Pending(stabs, kind, x.addr, x.l, x.r), x.r - x.l + 1
  {
    hide Sorted, NoneAt, Turn, Hits;
    if x.l > x.r {
      EmptyInterval(stabs, kind, x.l, x.r, x.addr);
    } else {
      TurnDecreases(stabs, kind, x);
      KeepsInReach(stabs, kind, lo, hi, x);
      if !Hits(stabs, kind, x) { HitIffOccurs(stabs, kind, lo, hi, Turn(stabs, kind, x)); }
    }
  }

  lemma EmptyInterval(stabs: seq<Stab>, kind: int, l: int, r: int, a: nat)
    requires l > r
    ensures NoneAt(stabs, kind, l, r, a)
  {
  }

  lemma KeepsInReach(stabs: seq<Stab>, kind: int, lo: int, hi: int, x: Vars)
    requires Sorted(stabs, kind, lo, hi) && InTable(stabs, x) && x.l <= x.r && lo <= x.l && x.r <= hi
    ensures Hits(stabs, kind, x) ==> !NoneAt(stabs, kind, x.l, x.r, x.addr)
    ensures !Hits(stabs, kind, x) ==>
      var y := Turn(stabs, kind, x);
      && lo <= y.l && y.r <= hi && y.addr == x.addr
      && (NoneAt(stabs, kind, y.l, y.r, x.addr) <==> NoneAt(stabs, kind, x.l, x.r, x.addr))
  {
    if !Hits(stabs, kind, x) && !NoneAt(stabs, kind, x.l, x.r, x.addr) {
      var j :| x.l <= j <= x.r && Is(stabs, kind, j) && stabs[j].value == x.addr;
      assert Turn(stabs, kind, x).l <= j <= Turn(stabs, kind, x).r;
    }
  }

  /** In particular the search is right when addr and addr+1 do not both occur; but it need not be wrong when they do. */
  lemma NoNeighbourSuffices(stabs: seq<Stab>, kind: int, lo: int, hi: int, addr: nat)
    requires 0 <= lo && hi < |stabs| && Sorted(stabs, kind, lo, hi) && NoNeighbour(stabs, kind, lo, hi, addr)
    ensures Undisturbed(stabs, kind, lo, hi, addr)
  {
    HitIffOccurs(stabs, kind, lo, hi, Start(lo, hi, addr));
    HitWithin(stabs, kind, lo, hi, Start(lo, hi, addr));
  }

  lemma {:induction false} HitWithin(stabs: seq<Stab>, kind: int, lo: int, hi: int, x: Vars)
    requires InTable(stabs, x) && lo <= x.l && x.r <= hi
    ensures FirstHit(stabs, kind, x).Some? ==> lo <= FirstHit(stabs, kind, x).value.l && FirstHit(stabs, kind, x).value.r <= hi
    decreases Pending(stabs, kind, x.addr, x.l, x.r), x.r - x.l + 1
  {
    if x.l <= x.r && !Hits(stabs, kind, x) {
      TurnDecreases(stabs, kind, x);
      HitWithin(stabs, kind, lo, hi, Turn(stabs, kind, x));
    }
  }

  /** Entries at 10 and 11: a search for 10 answers with the entry at 11. */
  lemma NeighbourDefeats(stabs: seq<Stab>, kind: int)
    requires stabs == [Stab(kind, 10, 0, 0), Stab(kind, 11, 0, 0)]
    ensures Sorted(stabs, kind, 0, 1) && !Undisturbed(stabs, kind, 0, 1, 10)
    ensures var x := Narrow(stabs, kind, Start(0, 1, 10));
      0 <= x.left && x.right < |stabs| && Settle(stabs, kind, x.left, x.right) == 1
  {
    hide Narrow;
    assert Is(stabs, kind, 0) && Is(stabs, kind, 1);
    assert Hits(stabs, kind, Start(0, 1, 10));
    Answer(stabs, kind, 10, 0, 1);
  }

  /** Entries at 10, 11, 20 and 30: the first probe cuts the entry at 11 off, and the search for 10 is right. */
  lemma NeighbourSpared(stabs: seq<Stab>, kind: int)
    requires stabs == [Stab(kind, 10, 0, 0), Stab(kind, 11, 0, 0), Stab(kind, 20, 0, 0), Stab(kind, 30, 0, 0)]
    ensures Sorted(stabs, kind, 0, 3) && !NoNeighbour(stabs, kind, 0, 3, 10) && Undisturbed(stabs, kind, 0, 3, 10)
  {
    assert Is(stabs, kind, 0) && Is(stabs, kind, 1);
    var x := Start(0, 3, 10);
    assert Back(stabs, kind, 0, 1) == 1;
    var y := Vars(0, 0, 0, 0, true, 10);
    assert Turn(stabs, kind, x) == y;
    assert Hits(stabs, kind, y);
    TurnDecreases(stabs, kind, x);
    assert FirstHit(stabs, kind, x) == FirstHit(stabs, kind, y) == Some(y);
  }
}
