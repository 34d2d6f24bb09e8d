/**
  Little-endian base-100 digit strings, the representation dc uses for every
  number: the abstraction function `Val`, the block shapes the arithmetic
  accepts and produces, and the facts that connect a block's top byte to the
  sign of its value.
 */
module Radix {

  function Pow(n: nat): (r: int)
    ensures r >= 1
  {
    if n == 0 then 1 else 100 * Pow(n - 1)
  }

  /** The integer a digit string stands for. */
  function Val(s: seq<int>): int {
    if s == [] then 0 else s[0] + 100 * Val(s[1..])
  }

  /** Every byte is an ordinary digit. */
  predicate Digits(s: seq<int>) {
    forall i :: 0 <= i < |s| ==> 0 <= s[i] < 100
  }

  /** Hundred's complement: ordinary digits, except that the top byte may be -1. */
  predicate WellFormed(s: seq<int>) {
    forall i :: 0 <= i < |s| ==> s[i] < 100 && (0 <= s[i] || (i == |s| - 1 && s[i] == -1))
  }

  /** No leading zero, and no 99 below a top -1 except in the two-byte string. */
  predicate Normal(s: seq<int>) {
    && WellFormed(s)
    && (s != [] ==> s[|s| - 1] != 0)
    && (|s| >= 3 && s[|s| - 1] == -1 ==> s[|s| - 2] != 99)
  }

  /** The bytes of a block that a pass has reached at index i, where now and was agree from i on. */
  lemma PassAt(now: seq<int>, was: seq<int>, i: nat)
    requires i < |now| == |was| && now[i..] == was[i..]
    ensures now[i] == was[i] && was[..i + 1] == was[..i] + [was[i]]
  {
    assert now[i..][0] == was[i..][0];
  }

  /** The same after the pass has replaced byte i. */
  lemma PassStep(now: seq<int>, was: seq<int>, i: nat, x: int)
    requires i < |now| == |was| && now[i..] == was[i..]
    ensures now[i := x][..i + 1] == now[..i] + [x] && now[i := x][i + 1..] == was[i + 1..]
  {
    assert now[i + 1..] == now[i..][1..] && was[i + 1..] == was[i..][1..];
  }

  lemma {:induction false} ValConcat(a: seq<int>, b: seq<int>)
    ensures Val(a + b) == Val(a) + Pow(|a|) * Val(b)
  {
    if a == [] {
      assert a + b == b;
    } else {
      ValConcat(a[1..], b);
      assert (a + b)[1..] == a[1..] + b;
      assert Pow(|a|) * Val(b) == 100 * (Pow(|a| - 1) * Val(b));
    }
  }

  lemma ValSnoc(a: seq<int>, x: int)
    ensures Val(a + [x]) == Val(a) + Pow(|a|) * x
  {
    ValConcat(a, [x]);
    assert Val([x]) == x;
  }

  /** Splitting the digit at index n off a longer string. */
  lemma ValTake(s: seq<int>, n: nat)
    requires n < |s|
    ensures Val(s[..n + 1]) == Val(s[..n]) + Pow(n) * s[n]
  {
    assert s[..n + 1] == s[..n] + [s[n]];
    ValSnoc(s[..n], s[n]);
  }

  lemma ValTop(s: seq<int>)
    requires s != []
    ensures Val(s) == Val(s[..|s| - 1]) + Pow(|s| - 1) * s[|s| - 1]
  {
    ValTake(s, |s| - 1);
    assert s[..|s|] == s;
  }

  lemma ValSplit(s: seq<int>, n: nat)
    requires n <= |s|
    ensures Val(s) == Val(s[..n]) + Pow(n) * Val(s[n..])
  {
    assert s[..n] + s[n..] == s;
    ValConcat(s[..n], s[n..]);
  }

  lemma {:induction false} PowAdd(a: nat, b: nat)
    ensures Pow(a + b) == Pow(a) * Pow(b)
  {
    if a != 0 {
      PowAdd(a - 1, b);
      assert Pow(a + b) == 100 * (Pow(a - 1) * Pow(b));
    }
  }

  lemma {:induction false} PowMono(a: nat, b: nat)
    requires a <= b
    ensures Pow(a) <= Pow(b)
  {
    if a < b {
      PowMono(a, b - 1);
    }
  }

  lemma {:induction false} DigitsBound(s: seq<int>)
    requires Digits(s)
    ensures 0 <= Val(s) < Pow(|s|)
  {
    if s != [] {
      DigitsBound(s[1..]);
    }
  }

  /** A string with ordinary digits below its top byte t has value in [t, t+1) * 100^(n-1). */
  lemma TopBound(s: seq<int>)
    requires s != [] && Digits(s[..|s| - 1])
    ensures Pow(|s| - 1) * s[|s| - 1] <= Val(s) < Pow(|s| - 1) * (s[|s| - 1] + 1)
  {
    ValTop(s);
    DigitsBound(s[..|s| - 1]);
  }

  lemma WellFormedBelow(s: seq<int>)
    requires WellFormed(s) && s != []
    ensures Digits(s[..|s| - 1])
  {
  }

  /** The top byte decides the sign; in normal form emptiness decides zero. */
  lemma NormalSign(s: seq<int>)
    requires WellFormed(s)
    ensures s == [] ==> Val(s) == 0
    ensures s != [] && s[|s| - 1] == -1 ==> Val(s) < 0
    ensures (s != [] ==> s[|s| - 1] != -1) ==> Val(s) >= 0 && Digits(s)
    ensures Normal(s) ==> (s == [] <==> Val(s) == 0)
    ensures Normal(s) ==> (s != [] && s[|s| - 1] > 0 <==> Val(s) > 0)
  {
    if s != [] {
      WellFormedBelow(s);
      TopBound(s);
      var t, q := s[|s| - 1], Pow(|s| - 1);
      if t > 0 {
        assert q * t >= 1;
      } else if t == -1 {
        assert q * (t + 1) == 0;
      } else {
        assert q * t == 0;
      }
    }
  }

  /** Below its lowest byte a normal form is normal. */
  lemma NormalTail(s: seq<int>)
    requires Normal(s) && s != []
    ensures Normal(s[1..]) && Val(s) == s[0] + 100 * Val(s[1..]) && s == [s[0]] + s[1..]
    ensures |s| > 1 ==> 0 <= s[0] < 100
  {
    TailNormal(s, s[1..]);
    assert s == [s[0]] + s[1..];
  }

  lemma TailNormal(s: seq<int>, t: seq<int>)
    requires Normal(s) && s != [] && t == s[1..]
    ensures Normal(t)
  {
    assert forall i :: 0 <= i < |t| ==> t[i] == s[i + 1];
  }

  /** -1 has two normal forms: chsign of 1 leaves the first, add the second. */
  lemma MinusOneForms(s: seq<int>)
    ensures Normal(s) && Val(s) == -1 <==> s == [-1] || s == [99, -1]
    decreases |s|
  {
    assert [99, -1][1..] == [-1] && [-1][1..] == [];
    if Normal(s) && Val(s) == -1 && |s| > 1 {
      NormalTail(s);
      MinusOneForms(s[1..]);
    } else if s != [] {
      assert |s| == 1 ==> s[1..] == [];
    }
  }

  /** A value has one normal form, except -1. */
  lemma {:induction false} NormalUnique(a: seq<int>, b: seq<int>)
    requires Normal(a) && Normal(b) && Val(a) == Val(b)
    ensures a == b || Val(a) == -1
    decreases |a|
  {
    NormalSign(a);
    NormalSign(b);
    if |a| > 0 && |b| > 0 {
      NormalTail(a);
      NormalTail(b);
      if |a| > 1 && |b| > 1 {
        assert a[0] == b[0] && Val(a[1..]) == Val(b[1..]);
        NormalUnique(a[1..], b[1..]);
        MinusOneForms(a[1..]);
        MinusOneForms(b[1..]);
      } else if |a| == 1 {
        OneByte(a, b);
      } else {
        OneByte(b, a);
      }
    }
  }

  /** A normal form of one byte is its value; a longer one has that value only for -1. */
  lemma OneByte(a: seq<int>, b: seq<int>)
    requires Normal(a) && Normal(b) && Val(a) == Val(b) && |a| == 1 && b != []
    ensures a == b || Val(a) == -1
  {
    NormalTail(a);
    NormalTail(b);
    NormalSign(b[1..]);
    if |b| > 1 && a[0] >= 0 {
      NormalSign(b);
    }
  }
}
