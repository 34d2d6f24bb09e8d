/** dc's operations built on the arithmetic: square root, power and decimal shifts
    (dc.c: dcsqrt, dcexp, add0, removr). */
module DcOps {
  import opened Radix
  import opened Blocks
  import opened DcArith
  import opened DcDiv
  import opened DcEstimate

  // ----- dcsqrt

  /** r is the integer square root of n. */
  ghost predicate IsRoot(r: int, n: int) {
    r >= 0 && r * r <= n < (r + 1) * (r + 1)
  }

  ghost predicate AboveRoot(r: int, n: int) {
    r >= 1 && n < (r + 1) * (r + 1)
  }

  /** One Newton step from above the root: either it stops at the root or it stays above it. */
  lemma NewtonStep(n: int, r: int, q: int, m: int, s: int, b: int)
    requires n >= 1 && AboveRoot(r, n)
    requires Divides(n, r, q, m) && Divides(q + r, 2, s, b)
    ensures s >= r ==> IsRoot(r, n)
    ensures s < r ==> AboveRoot(s, n)
  {
    QuotientNonnegative(n, r, q, m);
    assert q + r - 1 <= 2 * s <= q + r;
    if s >= r {
      MulLe(r, r, q);
    } else {
      NewtonAbove(n, r, q, m, s);
    }
  }

  lemma QuotientNonnegative(n: int, r: int, q: int, m: int)
    requires 1 <= n && 1 <= r && n == q * r + m && m < r
    ensures 0 <= q && (r == 1 ==> q >= 1)
  {
    if q < 0 {
      MulLe(r, q, -1);
    }
  }

  lemma NewtonAbove(n: int, r: int, q: int, m: int, s: int)
    requires 1 <= n && 1 <= r && n == q * r + m && m < r && 0 <= q && (r == 1 ==> q >= 1)
    requires q + r - 1 <= 2 * s
    ensures AboveRoot(s, n)
  {
    ArithGeo(r, q + 1);
    assert r * (q + 1) == q * r + r;
    Doubled(s + 1, r + (q + 1));
  }

  lemma ArithGeo(a: int, b: int)
    ensures (a + b) * (a + b) >= 4 * (a * b)
  {
    assert (a - b) * (a - b) >= 0;
    assert (a + b) * (a + b) == (a - b) * (a - b) + 4 * (a * b);
  }

  lemma Doubled(t: int, u: int)
    requires 0 <= u <= 2 * t
    ensures u * u <= 4 * (t * t)
  {
    assert u * u <= u * (2 * t) <= (2 * t) * (2 * t);
  }

  /** The leading one or two bytes bound the number from above. */
  lemma LeadBound(s: seq<int>, n': nat, lead: int)
    requires Digits(s) && s != [] && n' == (|s| + 1) / 2
    requires lead == if |s| % 2 == 1 then s[|s| - 1] else s[|s| - 1] * 100 + s[|s| - 2]
    ensures Val(s) < (lead + 1) * (Pow(n' - 1) * Pow(n' - 1)) && 0 <= lead < 10000
  {
    var p := Pow(n' - 1) * Pow(n' - 1);
    PowAdd(n' - 1, n' - 1);
    if |s| % 2 == 0 {
      PairBound(s);
    } else {
      TopBound(s);
      Commute(p, lead + 1);
    }
  }

  lemma Commute(a: int, b: int)
    ensures a * b == b * a
  {
  }

  lemma PairBound(s: seq<int>)
    requires Digits(s) && |s| >= 2
    ensures Val(s) < (s[|s| - 1] * 100 + s[|s| - 2] + 1) * Pow(|s| - 2)
  {
    var n := |s|;
    ValTop(s);
    TopBound(s[..n - 1]);
    assert s[..n - 1][n - 2] == s[n - 2];
    TwoLeads(Pow(n - 1), Pow(n - 2), s[n - 1], s[n - 2], s[n - 1] * 100 + s[n - 2]);
  }

  lemma TwoLeads(p1: int, p: int, a: int, b: int, lead: int)
    requires p1 == 100 * p && lead == a * 100 + b
    ensures p * (b + 1) + p1 * a == (lead + 1) * p
  {
  }

  lemma {:induction false} ZerosVal(n: nat)
    ensures Val(seq(n, i => 0)) == 0
  {
    if n > 0 {
      assert seq(n, i => 0)[1..] == seq(n - 1, i => 0);
      ZerosVal(n - 1);
    }
  }

  lemma GuessAbove(v: int, lead: int, p: int, k: int)
    requires p >= 1 && k >= 1 && v < (lead + 1) * (p * p) && lead < k * k
    ensures v < (k * p) * (k * p) && AboveRoot(k * p, v)
  {
    assert (lead + 1) * (p * p) <= (k * k) * (p * p) == (k * p) * (k * p);
    var g := k * p;
    assert g >= 1;
    assert g * g <= (g + 1) * (g + 1);
  }

  /** The first approximation: one more than the root of the leading bytes, over zeros. */
  method FirstGuess(p: Blk) returns (r: Blk)
    requires Normal(p.d) && Digits(p.d) && p.d != []
    modifies p`rd
    ensures fresh(r) && Normal(r.d) && AboveRoot(Val(r.d), Val(p.d))
  {
    var n := |p.d|;
    p.Fsfile();
    var c := p.Sbackc();
    if n % 2 != 1 {
      var next := 0;
      if !p.Sfbeg() { next := p.Sbackc(); }
      c := c * 100 + next;
    }
    n := (n + 1) / 2;
    LeadBound(p.d, n, c);
    var k := RootAbove(c);
    GuessAbove(Val(p.d), c, Pow(n - 1), k);
    r := LeadOverZeros(k, n);
  }

  /** k followed by n - 1 zero bytes, where k may be 100. */
  method LeadOverZeros(k: int, n: nat) returns (r: Blk)
    requires 1 <= k <= 100 && n >= 1
    ensures fresh(r) && Normal(r.d) && Val(r.d) == k * Pow(n - 1)
  {
    r := new Blk(seq(n, i => 0));
    ghost var z := seq(n - 1, i => 0);
    ZerosVal(n - 1);
    r.Fsfile();
    r.Backc();
    if k >= 100 {
      r.Salterc(k - 100);
      r.Sputc(1);
      assert r.d == (z + [0]) + [1];
      ValSnoc(z, 0);
      ValSnoc(z + [0], 1);
    } else {
      r.Salterc(k);
      assert r.d == z + [k];
      ValSnoc(z, k);
    }
  }

  /** Subtracting the odd numbers: the least k with k*k above c. */
  method RootAbove(c0: int) returns (k: int)
    requires 0 <= c0 < 10000
    ensures 1 <= k <= 100 && (k - 1) * (k - 1) <= c0 < k * k
  {
    var nn, c := 1, c0;
    ghost var j := 0;
    c := c - nn;
    while c >= 0
      invariant nn == 2 * j + 1 && 0 <= j <= 99 && c == c0 - (j + 1) * (j + 1) && j * j <= c0
      decreases c + 1
    {
      nn := nn + 2;
      c := c - nn;
      j := j + 1;
      assert (j + 1) * (j + 1) == j * j + 2 * j + 1;
      assert j * j <= c0 < 10000;
    }
    k := (nn + 1) / 2;
  }

  /** `dcsqrt` terminates on every positive number with its integer square root. */
  method Dcsqrt(p: Blk, sqtemp: Blk, divxyz: Blk) returns (r: Blk)
    requires p != divxyz && sqtemp != divxyz && sqtemp.d == [2]
    requires Normal(p.d) && Val(p.d) > 0
    modifies p`rd, sqtemp`rd, divxyz
    ensures fresh(r) && Normal(r.d) && IsRoot(Val(r.d), Val(p.d))
  {
    NormalSign(p.d);
    r := FirstGuess(p);
    while true
      invariant fresh(r) && Normal(r.d) && AboveRoot(Val(r.d), Val(p.d))
      decreases Val(r.d)
    {
      var q, done := NewtonNext(p, r, sqtemp, divxyz);
      if done {
        break;
      }
      r := q;
    }
  }

  /** The mean of r and p / r, and whether it is no longer below r. */
  method NewtonNext(p: Blk, r: Blk, sqtemp: Blk, divxyz: Blk) returns (q: Blk, done: bool)
    requires p != divxyz && sqtemp != divxyz && r != divxyz && r != p && r != sqtemp && sqtemp.d == [2]
    requires Normal(p.d) && Val(p.d) > 0 && Normal(r.d) && AboveRoot(Val(r.d), Val(p.d))
    modifies p`rd, r`rd, sqtemp`rd, divxyz
    ensures fresh(q) && Normal(q.d)
    ensures done ==> IsRoot(Val(r.d), Val(p.d))
    ensures !done ==> Val(q.d) < Val(r.d) && AboveRoot(Val(q.d), Val(p.d))
  {
    NormalSign(p.d);
    NormalSign(r.d);
    assert Val([2]) == 2;
    var rem;
    q, rem := Div(p, r, divxyz);
    var s := Add(q, r);
    ghost var qv, mv := Val(q.d), Val(rem.d);
    q, rem := Div(s, sqtemp, divxyz);
    NewtonStep(Val(p.d), Val(r.d), qv, mv, Val(q.d), Val(rem.d));
    done := NotBelow(q, r);
  }

  /** The sign of q - r, read off the top byte of their difference. */
  method NotBelow(q: Blk, r: Blk) returns (yes: bool)
    requires q != r && Normal(q.d) && Normal(r.d)
    modifies q`rd
    ensures yes == (Val(q.d) >= Val(r.d))
  {
    var s := new Blk(r.d);
    Chsign(s);
    var t := Add(s, q);
    NormalSign(t.d);
    t.Fsfile();
    var nn := 0;
    if !t.Sfbeg() { nn := t.Sbackc(); }
    yes := nn >= 0;
  }

  // ----- dcexp

  function Power(b: int, n: nat): int {
    if n == 0 then 1 else b * Power(b, n - 1)
  }

  lemma PowerPositive(k: nat)
    ensures Power(10, k) >= 1
  {
  }

  lemma {:induction false} PowerAdd(b: int, m: nat, n: nat)
    ensures Power(b, m + n) == Power(b, m) * Power(b, n)
  {
    if m > 0 {
      PowerAdd(b, m - 1, n);
      Assoc(b, Power(b, m - 1), Power(b, n));
    }
  }

  lemma {:induction false} PowerSquare(b: int, n: nat)
    ensures Power(b * b, n) == Power(b, 2 * n)
  {
    if n > 0 {
      PowerSquare(b, n - 1);
      Assoc(b, b, Power(b, 2 * n - 2));
    }
  }

  /** The accumulator r and the squared base b still owe e multiplications to reach power. */
  ghost predicate Owes(r: int, b: int, e: int, power: int) {
    e >= 0 && r * Power(b, e) == power
  }

  /** Binary powering: one bit of the exponent moves into the accumulator. */
  lemma PowerStep(r: int, b: int, e: int, power: int)
    requires Owes(r, b, e, power)
    ensures Owes(if e % 2 == 1 then b * r else r, b * b, e / 2, power)
  {
    var q := e / 2;
    PowerSquare(b, q);
    if e % 2 == 1 {
      assert Power(b, e) == b * Power(b, 2 * q);
      Assoc(r, b, Power(b, 2 * q));
      assert r * b == b * r;
    }
  }

  /**
    `dcexp` computes the power. For a negative exponent it answers by cases on the bytes
    of the base; see NegativePower for what that is.
   */
  method Dcexp(base: Blk, ex: Blk, sqtemp: Blk, divxyz: Blk) returns (r: Blk)
    requires sqtemp != divxyz && sqtemp.d == [2]
    requires base != divxyz && ex != divxyz && Normal(base.d) && WellFormed(ex.d)
    modifies base`rd, sqtemp`rd, divxyz
    ensures fresh(r) && Normal(r.d)
    ensures Val(ex.d) >= 0 ==> Val(r.d) == Power(Val(base.d), Val(ex.d))
    ensures Val(ex.d) < 0 ==> Val(r.d) == ByCases(base.d)
  {
    NormalSign(ex.d);
    var e := new Blk(ex.d);
    var temp := false;
    e.Fsfile();
    if !e.Sfbeg() {
      var c := e.Sbackc();
      if c < 0 {
        temp := true;
        Chsign(e);
        NormalSign(e.d);
      }
    }
    ghost var n := Val(e.d);
    r := PowerOf(base, e, sqtemp, divxyz);
    if temp {
      r := NegativeTail(base, r, n);
    }
  }

  /** The bytes left for a negative exponent. */
  function ByCases(base: seq<int>): int { if base == [1] then 1 else if base == [-1] then -1 else 0 }

  method NegativeTail(base: Blk, r0: Blk, ghost n: nat) returns (r: Blk)
    requires Normal(base.d) && n >= 1 && Val(r0.d) == Power(Val(base.d), n) && Normal(r0.d)
    modifies base`rd
    ensures (r == r0 || fresh(r)) && Normal(r.d) && Val(r.d) == ByCases(base.d)
  {
    NormalSign(base.d);
    var c := |base.d|;
    if c == 0 {
      assert Power(0, n) == 0;
      return r0;
    }
    r := new Blk([]);
    if c == 1 {
      base.Rewind();
      c := base.Sgetc();
      assert base.d == [c];
      if c <= 1 {
        r.Sputc(c);
        assert r.d == [c] && [c][1..] == [];
      }
    }
  }

  /** One divided by b to the n, with truncation toward zero. */
  function Inverse(b: int, n: nat): int {
    if Power(b, n) == 1 then 1 else if Power(b, n) == -1 then -1 else 0
  }

  lemma {:induction false} PowerGrows(b: int, n: nat)
    requires n >= 1 && (b >= 2 || b <= -2)
    ensures Power(b, n) >= 2 || Power(b, n) <= -2
  {
    if n == 1 {
      assert Power(b, 1) == b * Power(b, 0);
    } else {
      PowerGrows(b, n - 1);
      ProductGrows(b, Power(b, n - 1));
    }
  }

  lemma ProductGrows(b: int, p: int)
    requires (b >= 2 || b <= -2) && (p >= 2 || p <= -2)
    ensures b * p >= 2 || b * p <= -2
  {
    if b >= 2 && p >= 2 { assert b * p >= 2 * p; }
    if b >= 2 && p <= -2 { assert b * p <= 2 * p; }
    if b <= -2 && p >= 2 { assert b * p <= -2 * p; }
    if b <= -2 && p <= -2 { assert b * p >= -2 * p; }
  }

  lemma {:induction false} PowerOfUnit(b: int, n: nat)
    requires b == 1 || b == -1
    ensures Power(b, n) == if b == 1 || n % 2 == 0 then 1 else -1
  {
    if n > 0 { PowerOfUnit(b, n - 1); }
  }

  /**
    For a base other than zero the cases are the inverse of the power exactly when the base
    is not -1, or is the single byte -1 under an odd exponent.
   */
  lemma NegativePower(base: seq<int>, n: nat)
    requires Normal(base) && n >= 1 && Val(base) != 0
    ensures ByCases(base) == Inverse(Val(base), n) <==> Val(base) != -1 || (base == [-1] && n % 2 == 1)
  {
    var b := Val(base);
    assert [1][1..] == [] && [-1][1..] == [];
    MinusOneForms(base);
    if b == 1 || b == -1 {
      PowerOfUnit(b, n);
      if b == 1 { NormalUnique(base, [1]); }
    } else {
      PowerGrows(b, n);
    }
  }

  /** The loop of `dcexp`. */
  method PowerOf(base: Blk, ex: Blk, sqtemp: Blk, divxyz: Blk) returns (r: Blk)
    requires sqtemp != divxyz && sqtemp.d == [2]
    requires base != divxyz && ex != divxyz && Normal(base.d) && Digits(ex.d)
    modifies sqtemp`rd, divxyz
    ensures fresh(r) && Normal(r.d)
    ensures Val(ex.d) >= 0 && Val(r.d) == Power(Val(base.d), Val(ex.d))
  {
    DigitsBound(ex.d);
    ghost var power := Power(Val(base.d), Val(ex.d));
    r := new Blk([1]);
    var p := new Blk(base.d);
    var e := new Blk(ex.d);
    assert Val([1]) == 1;
    while |e.d| != 0
      invariant fresh(r) && fresh(p) && fresh(e) && p != r
      invariant Normal(r.d) && Normal(p.d) && Digits(e.d)
      invariant Owes(Val(r.d), Val(p.d), Val(e.d), power)
      decreases Val(e.d), |e.d|
    {
      PowerStep(Val(r.d), Val(p.d), Val(e.d), power);
      var odd;
      e, odd := Half(e, sqtemp, divxyz);
      r, p := ExpStep(p, r, odd);
    }
  }

  /** Divide by two; the remainder block is empty exactly for an even number. */
  method Half(e: Blk, sqtemp: Blk, divxyz: Blk) returns (e1: Blk, odd: bool)
    requires e != divxyz && sqtemp != divxyz && sqtemp.d == [2] && Digits(e.d) && e.d != []
    modifies sqtemp`rd, divxyz
    ensures fresh(e1) && Normal(e1.d) && Digits(e1.d)
    ensures Val(e1.d) == Val(e.d) / 2 && odd == (Val(e.d) % 2 == 1)
    ensures Val(e1.d) < Val(e.d) || (Val(e.d) == 0 && e1.d == [])
  {
    DigitsBound(e.d);
    assert Val([2]) == 2;
    var rem;
    e1, rem := Div(e, sqtemp, divxyz);
    HalfBit(Val(e.d), Val(e1.d), Val(rem.d));
    NormalSign(rem.d);
    NormalSign(e1.d);
    odd := |rem.d| != 0;
  }

  /** Multiply the accumulator in when the exponent bit is set, then square the base. */
  method ExpStep(p: Blk, r: Blk, odd: bool) returns (r': Blk, p': Blk)
    requires p != r && Normal(p.d) && Normal(r.d)
    modifies p`rd, r`rd
    ensures fresh(p') && (r' == r || fresh(r')) && r' != p' && Normal(p'.d) && Normal(r'.d)
    ensures Val(r'.d) == (if odd then Val(p.d) * Val(r.d) else Val(r.d)) && Val(p'.d) == Val(p.d) * Val(p.d)
  {
    r' := r;
    if odd {
      r' := Mult(p, r);
    }
    var t := new Blk(p.d);
    p' := Mult(p, t);
  }

  lemma HalfBit(n: int, q: int, r: int)
    requires n >= 0 && Divides(n, 2, q, r)
    ensures q == n / 2 && r == n % 2
  {
  }

  // ----- add0, removr

  /** n zero bytes below the bytes of p. */
  method ShiftUp(p: Blk, n: nat) returns (q: Blk)
    requires WellFormed(p.d)
    modifies p`rd
    ensures fresh(q) && q.d == seq(n, i => 0) + p.d
  {
    q := new Blk([]);
    var i := 0;
    while i < n
      invariant i <= n && q.d == seq(i, j => 0)
    {
      q.Sputc(0);
      i := i + 1;
    }
    p.Rewind();
    while !p.Sfeof()
      invariant p.rd <= |p.d| && q.d == seq(n, j => 0) + p.d[..p.rd]
      decreases |p.d| - p.rd
    {
      var c := p.Sgetc();
      q.Sputc(c);
    }
  }

  /** Append ct decimal zeros: multiply by 10^ct. */
  method Add0(p: Blk, ct: nat) returns (q: Blk)
    requires WellFormed(p.d)
    modifies p`rd
    ensures fresh(q) && WellFormed(q.d)
    ensures Val(q.d) == Val(p.d) * Power(10, ct)
    ensures Normal(p.d) && Digits(p.d) && p.d != [] ==> Normal(q.d)
  {
    var n := ct / 2;
    ShiftedVal(p.d, n);
    q := ShiftUp(p, n);
    if ct % 2 == 1 {
      var ten := new Blk([10]);
      assert Val([10]) == 10;
      assert Power(10, ct) == 10 * Power(10, 2 * n);
      TimesTen(Val(p.d), Power(10, 2 * n));
      q := Mult(ten, q);
    }
  }

  lemma TimesTen(v: int, p: int)
    ensures 10 * (v * p) == v * (10 * p)
  {
  }

  lemma ShiftedVal(s: seq<int>, n: nat)
    ensures Val(seq(n, i => 0) + s) == Val(s) * Power(10, 2 * n)
  {
    var z := seq(n, i => 0);
    ZerosVal(n);
    ValConcat(z, s);
    HundredTen(n);
  }

  lemma {:induction false} HundredTen(n: nat)
    ensures Pow(n) == Power(10, 2 * n)
  {
    if n > 0 {
      HundredTen(n - 1);
      assert Power(10, 2 * n) == 10 * (10 * Power(10, 2 * n - 2));
    }
  }
}
