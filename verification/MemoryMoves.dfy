/**
  memmove of lib/string.c over a byte-addressed memory: the word loops must do
  exactly what the byte loops do, overlapping regions included.
*/
module MemoryMoves {
  import opened Mmu

  /** What memmove promises: bytes src..src+n of the old contents appear at dst..dst+n. */
  function Moved(m: seq<Byte>, dst: nat, src: nat, n: nat): (r: seq<Byte>)
    requires dst + n <= |m| && src + n <= |m|
    ensures |r| == |m|
  {
    m[..dst] + m[src..src + n] + m[dst + n..]
  }

  lemma MovedAt(m: seq<Byte>, dst: nat, src: nat, n: nat, k: nat)
    requires dst + n <= |m| && src + n <= |m| && k < |m|
    ensures Moved(m, dst, src, n)[k] == if dst <= k < dst + n then m[src + (k - dst)] else m[k]
  {
  }

  /** Moving a front part and then the next piece is moving the longer front part. */
  lemma MoveNext(m: seq<Byte>, dst: nat, src: nat, i: nat, unit: nat)
    requires dst + i + unit <= |m| && src + i + unit <= |m| && !(src < dst < src + i + unit)
    ensures Moved(Moved(m, dst, src, i), dst + i, src + i, unit) == Moved(m, dst, src, i + unit)
  {
    var a := Moved(m, dst, src, i);
    var b, c := Moved(a, dst + i, src + i, unit), Moved(m, dst, src, i + unit);
    hide Moved;
    forall k | 0 <= k < |m| ensures b[k] == c[k] {
      MovedAt(a, dst + i, src + i, unit, k);
      MovedAt(m, dst, src, i + unit, k);
      MovedAt(m, dst, src, i, k);
      if dst + i <= k < dst + i + unit { MovedAt(m, dst, src, i, src + i + (k - (dst + i))); }
    }
  }

  /** Moving a back part and then the piece before it is moving the longer back part. */
  lemma MovePrevious(m: seq<Byte>, dst: nat, src: nat, i: nat, unit: nat)
    requires dst + unit + i <= |m| && src + unit + i <= |m| && src < dst
    ensures Moved(Moved(m, dst + unit, src + unit, i), dst, src, unit) == Moved(m, dst, src, unit + i)
  {
    var a := Moved(m, dst + unit, src + unit, i);
    var b, c := Moved(a, dst, src, unit), Moved(m, dst, src, unit + i);
    hide Moved;
    forall k | 0 <= k < |m| ensures b[k] == c[k] {
      MovedAt(a, dst, src, unit, k);
      MovedAt(m, dst, src, unit + i, k);
      MovedAt(m, dst + unit, src + unit, i, k);
      if dst <= k < dst + unit { MovedAt(m, dst + unit, src + unit, i, src + (k - dst)); }
    }
  }

  /** x is a whole number of units of one or four bytes. */
  predicate Whole(unit: nat, x: nat) { unit == 1 || (unit == 4 && x % 4 == 0) }

  lemma NextUnit(unit: nat, i: nat, n: nat)
    requires Whole(unit, i) && Whole(unit, n) && i < n
    ensures (unit == 1 || unit == 4) && i + unit <= n && Whole(unit, i + unit)
  {
  }

  lemma NothingMoved(m: seq<Byte>, dst: nat, src: nat, unit: nat, n: nat)
    requires dst <= |m| && src <= |m| && Whole(unit, n)
    ensures Moved(m, dst, src, 0) == m && Whole(unit, 0)
  {
  }

  /** One movsb or movsl: the unit is read whole before it is written. */
  method MoveUnit(m: array<Byte>, d: nat, s: nat, unit: nat)
    requires (unit == 1 || unit == 4) && d + unit <= m.Length && s + unit <= m.Length
    modifies m
    ensures m[..] == Moved(old(m[..]), d, s, unit)
  {
    if unit == 1 {
      m[d] := m[s];
    } else {
      var w0, w1, w2, w3 := m[s], m[s + 1], m[s + 2], m[s + 3];
      m[d], m[d + 1], m[d + 2], m[d + 3] := w0, w1, w2, w3;
    }
    forall k | 0 <= k < m.Length ensures m[k] == Moved(old(m[..]), d, s, unit)[k] {
      MovedAt(old(m[..]), d, s, unit, k);
    }
  }

  /** rep movsb or movsl with the direction flag clear; safe unless dst lies inside src. */
  method CopyForward(m: array<Byte>, dst: nat, src: nat, n: nat, unit: nat)
    requires dst + n <= m.Length && src + n <= m.Length && !(src < dst < src + n)
    requires Whole(unit, n)
    modifies m
    ensures m[..] == Moved(old(m[..]), dst, src, n)
  {
    hide Moved, Whole;
    var i := 0;
    ghost var was := m[..];
    NothingMoved(was, dst, src, unit, n);
    while i < n
      invariant 0 <= i <= n && Whole(unit, i) && m[..] == Moved(was, dst, src, i)
    {
      NextUnit(unit, i, n);
      MoveUnit(m, dst + i, src + i, unit);
      MoveNext(was, dst, src, i, unit);
      i := i + unit;
    }
  }

  /** The same with the direction flag set, from the last unit down; safe when dst lies above src. */
  method CopyBackward(m: array<Byte>, dst: nat, src: nat, n: nat, unit: nat)
    requires dst + n <= m.Length && src + n <= m.Length && src < dst
    requires Whole(unit, n)
    modifies m
    ensures m[..] == Moved(old(m[..]), dst, src, n)
  {
    hide Moved, Whole;
    var i := 0;
    ghost var was := m[..];
    NothingMoved(was, dst + n, src + n, unit, n);
    while i < n
      invariant 0 <= i <= n && Whole(unit, i) && m[..] == Moved(was, dst + (n - i), src + (n - i), i)
    {
      NextUnit(unit, i, n);
      MoveUnit(m, dst + (n - i - unit), src + (n - i - unit), unit);
      MovePrevious(was, dst + (n - i - unit), src + (n - i - unit), i, unit);
      i := i + unit;
    }
  }

  /** memmove, with its choice of direction and of unit. */
  method Memmove(m: array<Byte>, dst: nat, src: nat, n: nat)
    requires dst + n <= m.Length && src + n <= m.Length
    modifies m
    ensures m[..] == Moved(old(m[..]), dst, src, n)
  {
    if src < dst && src + n > dst {
      if (src + n) % 4 == 0 && (dst + n) % 4 == 0 && n % 4 == 0 {
        CopyBackward(m, dst, src, n, 4);
      } else {
        CopyBackward(m, dst, src, n, 1);
      }
    } else {
      if src % 4 == 0 && dst % 4 == 0 && n % 4 == 0 {
        CopyForward(m, dst, src, n, 4);
      } else {
        CopyForward(m, dst, src, n, 1);
      }
    }
  }
}
