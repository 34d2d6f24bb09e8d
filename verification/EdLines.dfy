/**
  Line sequences and the in-place array work of ed's `m` and `g/re/d`
  (ed.c: reverse, the three-reversal rotation of move, rdelete, gdelete).
 */
module EdLines {

  /** s with the cells from i up to j end for end. */
  function Reversed(s: seq<int>, i: nat, j: nat): (r: seq<int>)
    requires i <= j <= |s|
    ensures |r| == |s|
    ensures forall x {:trigger r[x]} :: 0 <= x < |s| ==> r[x] == if i <= x < j then s[i + j - 1 - x] else s[x]
  {
    seq(|s|, x requires 0 <= x < |s| => if i <= x < j then s[i + j - 1 - x] else s[x])
  }

  /** `reverse`, in place. */
  method Reverse(a: array<int>, i: nat, j: nat)
    requires i < j <= a.Length
    modifies a
    ensures a[..] == Reversed(old(a[..]), i, j)
  {
    ghost var s, r := a[..], Reversed(a[..], i, j);
    var a1, a2 := i, j;
    while true
      invariant i <= a1 <= a2 <= j && a1 - i == j - a2 && (a1 < a2 || i < a1)
      invariant forall k :: 0 <= k < a1 || a2 <= k < a.Length ==> a[k] == r[k]
      invariant forall k :: a1 <= k < a2 ==> a[k] == s[k]
      decreases a2
    {
      a2 := a2 - 1;
      var t := a[a2];
      if a2 <= a1 {
        assert a2 == a1 ==> r[a1] == s[a1];
        break;
      }
      assert r[a1] == s[a2] && r[a2] == s[a1];
      a[a2] := a[a1];
      a[a1] := t;
      a1 := a1 + 1;
    }
  }

  /** The ranges i..j and j..k of s exchanged. */
  function Exchanged(s: seq<int>, i: nat, j: nat, k: nat): seq<int>
    requires i <= j <= k <= |s|
  {
    s[..i] + s[j..k] + s[i..j] + s[k..]
  }

  /** Reversing two neighbouring ranges and then both together exchanges them. */
  lemma ThreeReversals(s: seq<int>, i: nat, j: nat, k: nat)
    requires i <= j <= k <= |s|
    ensures Reversed(Reversed(Reversed(s, i, j), j, k), i, k) == Exchanged(s, i, j, k)
  {
    var r, e := Reversed(Reversed(Reversed(s, i, j), j, k), i, k), Exchanged(s, i, j, k);
    forall x | 0 <= x < |s| ensures r[x] == e[x] {
      ExchangedAt(s, i, j, k, x);
      ReversedAt(s, i, j, k, x);
    }
  }

  lemma ReversedAt(s: seq<int>, i: nat, j: nat, k: nat, x: nat)
    requires i <= j <= k <= |s| && x < |s|
    ensures Reversed(Reversed(Reversed(s, i, j), j, k), i, k)[x] ==
              if i <= x < i + k - j then s[x + j - i] else if i + k - j <= x < k then s[x + j - k] else s[x]
  {
    var r1 := Reversed(s, i, j);
    var r2 := Reversed(r1, j, k);
    if i <= x < k {
      var y := i + k - 1 - x;
      assert Reversed(r2, i, k)[x] == r2[y];
      if y < j {
        assert r2[y] == r1[y] == s[i + j - 1 - y];
      } else {
        assert r2[y] == r1[j + k - 1 - y] == s[j + k - 1 - y];
      }
    }
  }

  lemma ExchangedAt(s: seq<int>, i: nat, j: nat, k: nat, x: nat)
    requires i <= j <= k <= |s| && x < |s|
    ensures |Exchanged(s, i, j, k)| == |s|
    ensures Exchanged(s, i, j, k)[x] ==
              if i <= x < i + k - j then s[x + j - i] else if i + k - j <= x < k then s[x + j - k] else s[x]
  {
  }

  method Rotate(a: array<int>, i: nat, j: nat, k: nat)
    requires i < j < k <= a.Length
    modifies a
    ensures a[..] == Exchanged(old(a[..]), i, j, k)
  {
    ThreeReversals(a[..], i, j, k);
    Reverse(a, i, j);
    Reverse(a, j, k);
    Reverse(a, i, k);
  }

  // ----- where `m` puts its lines

  /** The lines lo..hi taken out and put back after line t, which lies outside them. */
  function Moved(s: seq<int>, lo: nat, hi: nat, t: nat): seq<int>
    requires lo < hi <= |s| && t < |s| && (t < lo || hi <= t)
  {
    if t < lo then Exchanged(s, t + 1, lo, hi) else Exchanged(s, lo, hi, t + 1)
  }

  /** Where the last line of the block ends up. */
  function Landing(lo: nat, hi: nat, t: nat): nat
    requires lo < hi
  {
    if t < lo then t + (hi - lo) else t
  }

  lemma MovedLast(s: seq<int>, lo: nat, hi: nat, t: nat)
    requires lo < hi <= |s| && t < |s| && (t < lo || hi <= t)
    ensures var at := Landing(lo, hi, t);
            at < |Moved(s, lo, hi, t)| == |s| && Moved(s, lo, hi, t)[at] == s[hi - 1]
  {
    if t < lo {
      LastOfFront(s[..t + 1], s[lo..hi], s[t + 1..lo], s[hi..]);
    } else {
      LastOfBack(s[..lo], s[hi..t + 1], s[lo..hi], s[t + 1..]);
    }
  }

  lemma LastOfFront(a: seq<int>, b: seq<int>, c: seq<int>, d: seq<int>)
    requires b != []
    ensures (a + b + c + d)[|a| + |b| - 1] == b[|b| - 1]
  {
  }

  lemma LastOfBack(a: seq<int>, b: seq<int>, c: seq<int>, d: seq<int>)
    requires c != []
    ensures (a + b + c + d)[|a| + |b| + |c| - 1] == c[|c| - 1]
  {
  }

  lemma ExchangedPrefix(m: seq<int>, n: nat, i: nat, j: nat, k: nat)
    requires i <= j <= k <= n <= |m|
    ensures |Exchanged(m, i, j, k)| == |m| && Exchanged(m, i, j, k)[..n] == Exchanged(m[..n], i, j, k)
  {
    var s := m[..n];
    assert m[..i] == s[..i] && m[j..k] == s[j..k] && m[i..j] == s[i..j] && m[k..n] == s[k..];
    assert m[k..] == m[k..n] + m[n..];
    var front := m[..i] + m[j..k] + m[i..j];
    assert Exchanged(m, i, j, k) == front + m[k..n] + m[n..];
    assert |front + m[k..n]| == n;
  }

  /** The tail of `move` on the first n cells: the block lo..hi goes after t, by rotation. */
  method Relocate(a: array<int>, n: nat, lo: nat, hi: nat, t: nat)
    requires lo < hi <= n <= a.Length && t < n && (t < lo || hi <= t)
    modifies a
    ensures a[..n] == Moved(old(a[..n]), lo, hi, t)
  {
    if t < lo {
      if t + 1 < lo {
        RotateFirst(a, n, t + 1, lo, hi);
      } else {
        NothingToDo(a[..n], lo, hi);
      }
    } else {
      RotateFirst(a, n, lo, hi, t + 1);
    }
  }

  lemma NothingToDo(s: seq<int>, lo: nat, hi: nat)
    requires lo <= hi <= |s|
    ensures Exchanged(s, lo, lo, hi) == s
  {
  }

  /** A rotation within the first n cells. */
  method RotateFirst(a: array<int>, n: nat, i: nat, j: nat, k: nat)
    requires i < j < k <= n <= a.Length
    modifies a
    ensures a[..n] == Exchanged(old(a[..n]), i, j, k)
  {
    ghost var m := a[..];
    ExchangedPrefix(m, n, i, j, k);
    assert m[..n] == a[..n];
    Rotate(a, i, j, k);
    assert a[..][..n] == a[..n];
  }

  /** The shifting loop of `append`: tl enters the first n cells at index at. */
  method InsertCell(a: array<int>, n: nat, at: nat, tl: int)
    requires at <= n < a.Length
    modifies a
    ensures a[..n + 1] == old(a[..at]) + [tl] + old(a[at..n])
  {
    ghost var s := a[..];
    var a1, a2 := n, n + 1;
    while a1 > at
      invariant at <= a1 <= n && a2 == a1 + 1
      invariant forall k :: 0 <= k < a1 ==> a[k] == s[k]
      invariant forall k :: a1 < k <= n ==> a[k] == s[k - 1]
    {
      a2 := a2 - 1;
      a1 := a1 - 1;
      a[a2] := a[a1];
    }
    a[at] := tl;
  }

  /** s without the n lines from at on. */
  function Without(s: seq<int>, at: nat, n: nat): seq<int>
    requires at + n <= |s|
  {
    s[..at] + s[at + n..]
  }

  /**
    r is s with the block lo..hi relocated and nothing else changed: right after the target
    line stands the block, in its order, and without the block the old and the new lines
    are the same sequence.
   */
  predicate Relocated(s: seq<int>, lo: nat, hi: nat, t: nat, r: seq<int>)
    requires lo < hi <= |s| && t < |s| && (t < lo || hi <= t)
  {
    var n := hi - lo;
    var at := if t < lo then t + 1 else t + 1 - n;
    && |r| == |s| && 0 < at && at + n <= |r|
    && r[at - 1] == s[t]
    && r[at..at + n] == s[lo..hi]
    && Without(r, at, n) == Without(s, lo, n)
    && multiset(r) == multiset(s)
  }

  /** What `m` leaves is a relocation. */
  lemma MovedIsRelocation(s: seq<int>, lo: nat, hi: nat, t: nat)
    requires lo < hi <= |s| && t < |s| && (t < lo || hi <= t)
    ensures Relocated(s, lo, hi, t, Moved(s, lo, hi, t))
  {
    if t < lo {
      MovedUp(s, lo, hi, t, Moved(s, lo, hi, t));
    } else {
      MovedDown(s, lo, hi, t, Moved(s, lo, hi, t));
    }
  }

  lemma MovedUp(s: seq<int>, lo: nat, hi: nat, t: nat, r: seq<int>)
    requires t < lo < hi <= |s| && r == s[..t + 1] + s[lo..hi] + s[t + 1..lo] + s[hi..]
    ensures Relocated(s, lo, hi, t, r)
  {
    var a, b, c, d := s[..t + 1], s[t + 1..lo], s[lo..hi], s[hi..];
    assert s == a + b + c + d;
    SwapFront(a, b, c, d, s, r);
  }

  lemma MovedDown(s: seq<int>, lo: nat, hi: nat, t: nat, r: seq<int>)
    requires lo < hi <= t < |s| && r == s[..lo] + s[hi..t + 1] + s[lo..hi] + s[t + 1..]
    ensures Relocated(s, lo, hi, t, r)
  {
    var a, b, c, d := s[..lo], s[lo..hi], s[hi..t + 1], s[t + 1..];
    assert s == a + b + c + d;
    assert c[|c| - 1] == s[t];
    SwapBack(a, b, c, d, s, r);
  }

  lemma SwapFront(a: seq<int>, b: seq<int>, c: seq<int>, d: seq<int>, s: seq<int>, r: seq<int>)
    requires s == a + b + c + d && r == a + c + b + d && a != []
    ensures |r| == |s| && multiset(r) == multiset(s) && r[|a| - 1] == s[|a| - 1] && r[|a|..|a| + |c|] == c
    ensures Without(r, |a|, |c|) == Without(s, |a| + |b|, |c|)
  {
    assert Without(r, |a|, |c|) == a + b + d;
    assert Without(s, |a| + |b|, |c|) == a + b + d;
  }

  lemma SwapBack(a: seq<int>, b: seq<int>, c: seq<int>, d: seq<int>, s: seq<int>, r: seq<int>)
    requires s == a + b + c + d && r == a + c + b + d && c != []
    ensures |r| == |s| && multiset(r) == multiset(s) && r[|a| + |c|..|a| + |c| + |b|] == b
    ensures r[|a| + |c| - 1] == c[|c| - 1] && Without(r, |a| + |c|, |b|) == Without(s, |a|, |b|)
  {
    assert Without(r, |a| + |c|, |b|) == a + c + d;
    assert Without(s, |a|, |b|) == a + c + d;
  }

  // ----- deleting

  /**
    `rdelete` on the cells up to dol: lines lo..hi disappear, the rest moves up, and dot is
    on the line that followed them, or on the last line.
   */
  method Rdelete(a: array<int>, lo: nat, hi: nat, dol: nat) returns (dol': nat, dot: nat)
    requires 0 < lo <= hi <= dol && dol + 1 < a.Length
    modifies a
    ensures dol' == dol - (hi - lo + 1)
    ensures a[..dol' + 1] == old(a[..lo]) + old(a[hi + 1..dol + 1])
    ensures dot == if hi < dol then lo else dol'
  {
    ghost var s := a[..];
    var a1, a2 := lo, hi + 1;
    dol' := dol - (hi + 1 - lo);
    a[a1] := a[a2];
    a1, a2 := a1 + 1, a2 + 1;
    while a2 <= dol
      invariant a2 - a1 == hi + 1 - lo && hi + 1 < a2 && (a2 <= dol + 1 || a2 == hi + 2)
      invariant forall k :: 0 <= k < lo ==> a[k] == s[k]
      invariant forall k :: lo <= k < a1 ==> a[k] == s[k + (hi + 1 - lo)]
      invariant forall k :: a1 <= k < a.Length ==> a[k] == s[k]
      decreases dol - a2
    {
      a[a1] := a[a2];
      a1, a2 := a1 + 1, a2 + 1;
    }
    dot := if lo > dol' then dol' else lo;
  }

  predicate Marked(h: int) { h % 2 == 1 }

  function Clear(h: int): int { h - h % 2 }

  /** The lines among the first n that carry no mark. */
  function UnmarkedUpTo(s: seq<int>, n: nat): seq<int>
    requires n <= |s|
  {
    if n == 0 then [] else UnmarkedUpTo(s, n - 1) + if Marked(s[n - 1]) then [] else [s[n - 1]]
  }

  /** The lines that carry no mark. */
  function Unmarked(s: seq<int>): seq<int> { UnmarkedUpTo(s, |s|) }

  lemma {:induction false} UnmarkedUpToConcat(s: seq<int>, t: seq<int>, n: nat)
    requires n <= |s| + |t|
    ensures UnmarkedUpTo(s + t, n) == if n <= |s| then UnmarkedUpTo(s, n) else Unmarked(s) + UnmarkedUpTo(t, n - |s|)
  {
    if n > 0 {
      UnmarkedUpToConcat(s, t, n - 1);
    }
  }

  lemma UnmarkedConcat(s: seq<int>, t: seq<int>)
    ensures Unmarked(s + t) == Unmarked(s) + Unmarked(t)
  {
    UnmarkedUpToConcat(s, t, |s| + |t|);
  }

  lemma UnmarkedOne(h: int)
    ensures Unmarked([h]) == if Marked(h) then [] else [h]
  {
    assert UnmarkedUpTo([h], 0) == [];
  }

  lemma {:induction false} UnmarkedAllUpTo(s: seq<int>, n: nat)
    requires n <= |s| && forall i :: 0 <= i < n ==> !Marked(s[i])
    ensures UnmarkedUpTo(s, n) == s[..n]
  {
    if n > 0 {
      UnmarkedAllUpTo(s, n - 1);
      assert s[..n] == s[..n - 1] + [s[n - 1]];
    }
  }

  lemma UnmarkedAll(s: seq<int>)
    requires forall i :: 0 <= i < |s| ==> !Marked(s[i])
    ensures Unmarked(s) == s
  {
    UnmarkedAllUpTo(s, |s|);
    assert s[..|s|] == s;
  }

  /** `gdelete`, the one-pass path of g/re/d: exactly the unmarked cells remain, in order. */
  method Gdelete(a: array<int>, dol: nat) returns (dol': int)
    requires dol < a.Length
    modifies a
    ensures -1 <= dol' <= dol && a[..dol' + 1] == Unmarked(old(a[..dol + 1]))
  {
    var a1 := 0;
    while !Marked(a[a1])
      invariant 0 <= a1 <= dol
      invariant forall k :: 0 <= k < a1 ==> !Marked(a[k])
      decreases dol - a1
    {
      if a1 >= dol {
        UnmarkedAll(a[..dol + 1]);
        return dol;
      }
      a1 := a1 + 1;
    }
    dol' := Compact(a, a1, dol);
  }

  /** Close the gaps left by marked cells, the first of them at first. */
  method Compact(a: array<int>, first: nat, dol: nat) returns (dol': int)
    requires first <= dol < a.Length && Marked(a[first]) && forall k :: 0 <= k < first ==> !Marked(a[k])
    modifies a
    ensures -1 <= dol' <= dol && a[..dol' + 1] == Unmarked(old(a[..dol + 1]))
  {
    ghost var s := a[..dol + 1];
    UnmarkedAllUpTo(s, first);
    ghost var out := s[..first];
    var a1, a2 := first, first + 1;
    while a2 <= dol
      invariant 0 <= a1 < a2 <= dol + 1 && |out| == a1 && out == UnmarkedUpTo(s, a2)
      invariant forall k :: 0 <= k < a1 ==> a[k] == out[k]
      invariant forall k :: a2 <= k <= dol ==> a[k] == s[k]
    {
      if Marked(a[a2]) {
        a2 := a2 + 1;
      } else {
        out := out + [a[a2]];
        a[a1] := a[a2];
        a1, a2 := a1 + 1, a2 + 1;
      }
    }
    assert a[..a1] == out;
    dol' := a1 - 1;
  }

  // ----- the whole of `m` on the cells

  /** s with the marks of the cells lo..hi cleared. */
  function Cleared(s: seq<int>, lo: nat, hi: nat): (r: seq<int>)
    requires lo <= hi <= |s|
    ensures |r| == |s|
    ensures forall i :: 0 <= i < |s| ==> r[i] == if lo <= i < hi then Clear(s[i]) else s[i]
  {
    seq(|s|, i requires 0 <= i < |s| => if lo <= i < hi then Clear(s[i]) else s[i])
  }

  method ClearMarks(a: array<int>, n: nat, lo: nat, hi: nat)
    requires lo <= hi <= n <= a.Length
    modifies a
    ensures a[..n] == Cleared(old(a[..n]), lo, hi)
  {
    ghost var s := a[..n];
    var i := lo;
    while i < hi
      invariant lo <= i <= hi
      invariant forall k :: 0 <= k < n ==> a[k] == if lo <= k < i then Clear(s[k]) else s[k]
    {
      a[i] := Clear(a[i]);
      i := i + 1;
    }
  }

  /** The cells after `m`; a target inside the block leaves only the marks cleared. */
  function AfterMove(s: seq<int>, lo: nat, hi: nat, t: nat): seq<int>
    requires lo < hi <= |s| && t < |s|
  {
    var c := Cleared(s, lo, hi);
    if t < lo || hi <= t then Moved(c, lo, hi, t) else c
  }

  /** The last line of the block, unmarked, stands where dot is put. */
  lemma AfterMoveLast(s: seq<int>, lo: nat, hi: nat, t: nat)
    requires lo < hi <= |s| && t < |s| && (t < lo || hi <= t)
    ensures Landing(lo, hi, t) < |AfterMove(s, lo, hi, t)| == |s|
    ensures AfterMove(s, lo, hi, t)[Landing(lo, hi, t)] == Clear(s[hi - 1])
  {
    MovedLast(Cleared(s, lo, hi), lo, hi, t);
  }

  /** Clear the block's marks, then move it after t; dot becomes the place of its last line. */
  method MoveCells(a: array<int>, n: nat, lo: nat, hi: nat, t: nat, ghost s: seq<int>) returns (ok: bool, dot: nat)
    requires lo < hi <= n <= a.Length && t < n && s == a[..n]
    modifies a
    ensures ok == (t < lo || hi <= t) && a[..n] == AfterMove(s, lo, hi, t)
    ensures ok ==> dot == Landing(lo, hi, t)
  {
    ClearMarks(a, n, lo, hi);
    dot := 0;
    ok := t < lo || t >= hi;
    if ok {
      dot := if t < lo then t + (hi - lo) else t;
      Relocate(a, n, lo, hi, t);
    }
  }
}
