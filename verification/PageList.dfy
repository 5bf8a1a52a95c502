/**
  Intrusive singly linked lists over an array of cells: page_free_list threads
  pages[] through pp_link, env_free_list threads envs[] through env_link.
*/
module PageList {
  import opened Mmu
  import opened Vm

  /** Following next from head visits exactly l, in order, and ends. */
  ghost predicate Chain(next: seq<Option<nat>>, head: Option<nat>, l: seq<nat>) {
    && head == (if l == [] then None else Some(l[0]))
    && (forall i :: 0 <= i < |l| ==> l[i] < |next|)
    && (forall i, j :: 0 <= i && j == i + 1 && j < |l| ==> next[l[i]] == Some(l[j]))
    && (l != [] ==> next[l[|l| - 1]] == None)
    && NoDup(l)
  }

  lemma ChainPop(next: seq<Option<nat>>, head: Option<nat>, l: seq<nat>)
    requires Chain(next, head, l) && l != []
    ensures Chain(next[l[0] := None], next[l[0]], l[1..])
  {
    var l' := l[1..];
    forall i, j | 0 <= i && j == i + 1 && j < |l'| ensures next[l[0] := None][l'[i]] == Some(l'[j]) {
      assert l'[i] == l[j] && l'[j] == l[j + 1] && l[j] != l[0];
    }
    if l' != [] { assert l'[|l'| - 1] == l[|l| - 1] != l[0]; }
  }

  lemma ChainPush(next: seq<Option<nat>>, head: Option<nat>, l: seq<nat>, p: nat)
    requires Chain(next, head, l) && p < |next| && p !in l
    ensures Chain(next[p := head], Some(p), [p] + l)
  {
    var l' := [p] + l;
    forall i, j | 0 <= i && j == i + 1 && j < |l'| ensures next[p := head][l'[i]] == Some(l'[j]) {
      if i > 0 { assert l'[i] == l[i - 1] && l'[j] == l[i] && l[i - 1] != p; }
    }
    if l != [] { assert l'[|l'| - 1] == l[|l| - 1] != p; }
  }

  /** The list is determined by the links: nothing else can be read off them. */
  lemma {:induction false} ChainUnique(next: seq<Option<nat>>, head: Option<nat>, a: seq<nat>, b: seq<nat>)
    requires Chain(next, head, a) && Chain(next, head, b)
    ensures a == b
    decreases |a|
  {
    if a != [] {
      assert a[0] == b[0];
      ChainTail(next, head, a);
      ChainTail(next, head, b);
      ChainUnique(next, next[a[0]], a[1..], b[1..]);
      assert a == [a[0]] + a[1..] && b == [b[0]] + b[1..];
    }
  }

  lemma ChainTail(next: seq<Option<nat>>, head: Option<nat>, l: seq<nat>)
    requires Chain(next, head, l) && l != []
    ensures Chain(next, next[l[0]], l[1..])
  {
    var l' := l[1..];
    forall i, j | 0 <= i && j == i + 1 && j < |l'| ensures next[l'[i]] == Some(l'[j]) {
      assert l'[i] == l[j] && l'[j] == l[j + 1];
    }
  }

  /**
    page_free panics on a page whose link is set. With the links of unlisted pages
    clear, that guard catches every listed page except the last one of the list.
  */
  lemma GuardMissesOnlyTail(next: seq<Option<nat>>, head: Option<nat>, l: seq<nat>, p: nat)
    requires Chain(next, head, l) && p < |next|
    requires forall q :: 0 <= q < |next| && q !in l ==> next[q] == None
    ensures next[p].Some? <==> p in l && p != l[|l| - 1]
  {
    if p in l {
      var i :| 0 <= i < |l| && l[i] == p;
      if i < |l| - 1 { assert next[l[i]] == Some(l[i + 1]); }
    }
  }

  /** Freeing the last page again is not caught, and makes the list endless. */
  lemma DoubleFreeOfTailLoops(next: seq<Option<nat>>, head: Option<nat>, l: seq<nat>, l': seq<nat>)
    requires Chain(next, head, l) && l != []
    ensures !Chain(next[l[|l| - 1] := head], Some(l[|l| - 1]), l')
  {
    var tail := l[|l| - 1];
    var next' := next[tail := head];
    if Chain(next', Some(tail), l') {
      LoopVisits(next, head, l, l', |l'| - 1);
      assert false;
    }
  }

  /** In the looped list every step, however late, has a successor. */
  lemma {:induction false} LoopVisits(next: seq<Option<nat>>, head: Option<nat>, l: seq<nat>, l': seq<nat>, k: nat)
    requires Chain(next, head, l) && l != []
    requires Chain(next[l[|l| - 1] := head], Some(l[|l| - 1]), l') && k < |l'|
    ensures l'[k] in l && next[l[|l| - 1] := head][l'[k]].Some?
  {
    var tail := l[|l| - 1];
    var next' := next[tail := head];
    if k > 0 {
      LoopVisits(next, head, l, l', k - 1);
      assert next'[l'[k - 1]] == Some(l'[k]);
      var i :| 0 <= i < |l| && l[i] == l'[k - 1];
      if i < |l| - 1 {
        assert l[i] != tail;
        assert next[l[i]] == Some(l[i + 1]);
      }
    }
    var j :| 0 <= j < |l| && l[j] == l'[k];
    if j < |l| - 1 {
      assert l[j] != tail;
      assert next[l[j]] == Some(l[j + 1]);
    }
  }

  // ----------------------------------------------------------- stable partition

  predicate LowPage(p: nat) { p / 1024 % 1024 < 1 }

  /** The pages of l, in order, that are low (or high). */
  function Select(l: seq<nat>, low: bool): seq<nat> {
    if l == [] then []
    else Select(l[..|l| - 1], low) + (if LowPage(l[|l| - 1]) == low then [l[|l| - 1]] else [])
  }

  lemma {:induction false} SelectMembers(l: seq<nat>, low: bool)
    ensures forall x :: x in Select(l, low) <==> x in l && LowPage(x) == low
    ensures NoDup(l) ==> NoDup(Select(l, low))
  {
    if l != [] {
      SelectMembers(l[..|l| - 1], low);
      assert l == l[..|l| - 1] + [l[|l| - 1]];
    }
  }

  /** The low pages are those of the first four megabytes. */
  lemma SelectNumbers(l: seq<nat>, low: bool, x: nat)
    requires x < 0x10_0000
    ensures x in Select(l, low) <==> x in l && (x < 1024) == low
  {
    SelectMembers(l, low);
  }

  lemma SelectBoth(l: seq<nat>)
    ensures forall x :: x in Select(l, true) + Select(l, false) <==> x in l
  {
    SelectMembers(l, true);
    SelectMembers(l, false);
  }

  lemma AddOne(a: seq<nat>, b: seq<nat>, x: nat)
    ensures multiset((a + [x]) + b) == multiset(a + b) + multiset{x}
    ensures multiset(a + (b + [x])) == multiset(a + b) + multiset{x}
  {
    assert a + (b + [x]) == (a + b) + [x];
  }

  lemma SelectLast(l: seq<nat>, x: nat)
    ensures Select(l + [x], LowPage(x)) == Select(l, LowPage(x)) + [x]
    ensures Select(l + [x], !LowPage(x)) == Select(l, !LowPage(x))
  {
    assert (l + [x])[..|l|] == l;
  }

  /** Low pages first, then high pages, each in their old order: a permutation of the list. */
  lemma {:induction false} PartitionPermutes(l: seq<nat>)
    ensures multiset(Select(l, true) + Select(l, false)) == multiset(l)
    decreases |l|
  {
    hide LowPage;
    if l != [] {
      var l0, x := l[..|l| - 1], l[|l| - 1];
      PartitionPermutes(l0);
      assert l == l0 + [x];
      var a, b := Select(l0, true), Select(l0, false);
      AddOne(a, b, x);
      SelectLast(l0, x);
      assert multiset(l) == multiset(l0) + multiset{x};
    }
  }

  /** The order within a class is the old order. */
  lemma {:induction false} SelectIsStable(l: seq<nat>, low: bool, i: nat, j: nat)
    requires i < j < |Select(l, low)|
    ensures exists a, b :: 0 <= a < b < |l| && l[a] == Select(l, low)[i] && l[b] == Select(l, low)[j]
  {
    var l0 := l[..|l| - 1];
    var s0 := Select(l0, low);
    if j < |s0| {
      SelectIsStable(l0, low, i, j);
      var a, b :| 0 <= a < b < |l0| && l0[a] == s0[i] && l0[b] == s0[j];
      assert l[a] == Select(l, low)[i] && l[b] == Select(l, low)[j];
    } else {
      SelectMembers(l0, low);
      assert s0[i] in l0;
      var a :| 0 <= a < |l0| && l0[a] == s0[i];
      assert l[a] == Select(l, low)[i] && l[|l| - 1] == Select(l, low)[j];
    }
  }

  // ----------------------------------------- the two-tail-pointer loop, as it runs

  ghost predicate Threaded(next: seq<Option<nat>>, c: seq<nat>) {
    && (forall i :: 0 <= i < |c| ==> c[i] < |next|)
    && (forall i, j :: 0 <= i && j == i + 1 && j < |c| ==> next[c[i]] == Some(c[j]))
  }

  /** The class collected from the first k pages of l hangs between first and the tail pointer last. */
  ghost predicate Collected(next: seq<Option<nat>>, l: seq<nat>, k: nat, low: bool, first: Option<nat>, last: Option<nat>)
    requires k <= |l|
  {
    var c := Select(l[..k], low);
    && Threaded(next, c)
    && (c == [] ==> last == None)
    && (c != [] ==> first == Some(c[0]) && last == Some(c[|c| - 1]))
  }

  /** The part of l that is still to be walked is intact. */
  ghost predicate Ahead(next: seq<Option<nat>>, l: seq<nat>, k: nat) {
    && (forall i :: 0 <= i < |l| ==> l[i] < |next|)
    && (forall i, j :: k <= i && 0 <= i && j == i + 1 && j < |l| ==> next[l[i]] == Some(l[j]))
    && (0 <= k < |l| ==> next[l[|l| - 1]] == None)
  }

  /** *tp = p, where the tail pointer is the link of page last, or a local if there is none. */
  function Hook(next: seq<Option<nat>>, last: Option<nat>, p: Option<nat>): seq<Option<nat>>
    requires last.Some? ==> last.value < |next|
  {
    if last.Some? then next[last.value := p] else next
  }

  lemma SelectNext(l: seq<nat>, k: nat)
    requires k < |l|
    ensures Select(l[..k + 1], LowPage(l[k])) == Select(l[..k], LowPage(l[k])) + [l[k]]
    ensures Select(l[..k + 1], !LowPage(l[k])) == Select(l[..k], !LowPage(l[k]))
  {
    assert l[..k + 1] == l[..k] + [l[k]];
    SelectLast(l[..k], l[k]);
  }

  lemma ClassBehind(l: seq<nat>, k: nat, low: bool, i: nat)
    requires NoDup(l) && k <= |l| && i < |Select(l[..k], low)|
    ensures LowPage(Select(l[..k], low)[i]) == low
    ensures forall j :: k <= j < |l| ==> l[j] != Select(l[..k], low)[i]
    ensures NoDup(Select(l[..k], low)) && Select(l[..k], low)[i] in l
  {
    SelectMembers(l[..k], low);
    assert Select(l[..k], low)[i] in Select(l[..k], low);
  }

  lemma CollectNext(next: seq<Option<nat>>, l: seq<nat>, k: nat, first: Option<nat>, last: Option<nat>)
    requires k < |l| && NoDup(l) && l[k] < |next| && Collected(next, l, k, LowPage(l[k]), first, last)
    ensures last.Some? ==> last.value < |next|
    ensures Collected(Hook(next, last, Some(l[k])), l, k + 1, LowPage(l[k]), if last.Some? then first else Some(l[k]), Some(l[k]))
  {
    hide LowPage, Select, Threaded;
    var c := Select(l[..k], LowPage(l[k]));
    SelectNext(l, k);
    if c != [] {
      ClassBehind(l, k, LowPage(l[k]), |c| - 1);
      ThreadBound(next, c, |c| - 1);
    }
    ThreadAppend(next, c, l[k]);
  }

  lemma ThreadBound(next: seq<Option<nat>>, c: seq<nat>, i: nat)
    requires Threaded(next, c) && i < |c|
    ensures c[i] < |next|
  {
  }

  lemma ThreadAppend(next: seq<Option<nat>>, c: seq<nat>, p: nat)
    requires Threaded(next, c) && NoDup(c) && p < |next|
    ensures Threaded(if c == [] then next else next[c[|c| - 1] := Some(p)], c + [p])
  {
    var next' := if c == [] then next else next[c[|c| - 1] := Some(p)];
    var c' := c + [p];
    forall i, j | 0 <= i && j == i + 1 && j < |c'| ensures next'[c'[i]] == Some(c'[j]) {
      if j < |c| {
        assert c'[i] == c[i] && c'[j] == c[j] && c[i] != c[|c| - 1];
      }
    }
  }

  lemma CollectOther(next: seq<Option<nat>>, l: seq<nat>, k: nat, low: bool, first: Option<nat>, last: Option<nat>, hook: Option<nat>, p: Option<nat>)
    requires k < |l| && NoDup(l) && Collected(next, l, k, low, first, last) && LowPage(l[k]) != low
    requires hook.Some? ==> hook.value < |next| && LowPage(hook.value) != low
    ensures Collected(Hook(next, hook, p), l, k + 1, low, first, last)
  {
    SelectNext(l, k);
    var c := Select(l[..k], low);
    forall i | 0 <= i < |c| ensures LowPage(c[i]) == low { ClassBehind(l, k, low, i); }
  }

  lemma AheadKept(next: seq<Option<nat>>, l: seq<nat>, k: nat, hook: Option<nat>, p: Option<nat>)
    requires k < |l| && NoDup(l) && Ahead(next, l, k)
    requires hook.Some? ==> hook.value < |next| && forall j :: k <= j < |l| ==> l[j] != hook.value
    ensures Ahead(Hook(next, hook, p), l, k + 1)
    ensures Hook(next, hook, p)[l[k]] == (if k + 1 < |l| then Some(l[k + 1]) else None)
  {
  }

  /** The last three assignments join the two classes into one list. */
  lemma CollectFinish(next: seq<Option<nat>>, l: seq<nat>, pp1: Option<nat>, pp2: Option<nat>, tp0: Option<nat>, tp1: Option<nat>)
    requires NoDup(l) && Collected(next, l, |l|, true, pp1, tp0) && Collected(next, l, |l|, false, pp2, tp1)
    ensures (tp0.Some? ==> tp0.value < |next|) && (tp1.Some? ==> tp1.value < |next|)
    ensures var second := if tp1.Some? then pp2 else None;
      Chain(Hook(Hook(next, tp1, None), tp0, second), if tp0.Some? then pp1 else second, Select(l, true) + Select(l, false))
  {
    hide LowPage, Select, Threaded, Chain, NoDup;
    assert l[..|l|] == l;
    var a, b := Select(l, true), Select(l, false);
    SelectMembers(l, true);
    SelectMembers(l, false);
    if a != [] { ThreadBound(next, a, |a| - 1); }
    if b != [] { ThreadBound(next, b, |b| - 1); }
    assert forall i, j :: 0 <= i < |a| && 0 <= j < |b| ==> a[i] != b[j] by {
      forall i, j | 0 <= i < |a| && 0 <= j < |b| ensures a[i] != b[j] {
        assert a[i] in a && b[j] in b;
      }
    }
    JoinThreads(next, a, b);
  }

  lemma JoinThreads(next: seq<Option<nat>>, a: seq<nat>, b: seq<nat>)
    requires Threaded(next, a) && Threaded(next, b) && NoDup(a) && NoDup(b)
    requires forall i, j :: 0 <= i < |a| && 0 <= j < |b| ==> a[i] != b[j]
    ensures var headB := if b == [] then None else Some(b[0]);
      var next1 := if b == [] then next else next[b[|b| - 1] := None];
      var next2 := if a == [] then next1 else next1[a[|a| - 1] := headB];
      Chain(next2, if a == [] then headB else Some(a[0]), a + b)
  {
    var next1 := if b == [] then next else next[b[|b| - 1] := None];
    var next2 := if a == [] then next1 else next1[a[|a| - 1] := if b == [] then None else Some(b[0])];
    var c := a + b;
    forall i, j | 0 <= i && j == i + 1 && j < |c| ensures next2[c[i]] == Some(c[j]) {
      if j < |a| {
        assert c[i] == a[i] && c[j] == a[j] && a[i] != a[|a| - 1];
        assert b != [] ==> a[i] != b[|b| - 1];
      } else if i >= |a| {
        assert c[i] == b[i - |a|] && c[j] == b[j - |a|] && b[i - |a|] != b[|b| - 1];
        assert a != [] ==> a[|a| - 1] != b[i - |a|];
      }
    }
  }
}
