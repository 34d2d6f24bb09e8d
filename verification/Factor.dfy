/**
  The factor command (factor.c): trial division by 2, 3, 5, 7 and the numbers a
  48-step wheel visits. The program computes in doubles; the model computes in
  naturals, with which they agree below 2^53, and writes the test d > sqrt(n) + 1 as
  (d - 1)^2 > n.
 */
module Factor {
  const WHEEL: seq<nat> :=
    [2, 10, 2, 4, 2, 4, 6, 2, 6, 4]
    + [2, 4, 6, 6, 2, 6, 4, 2, 6, 4]
    + [6, 8, 4, 2, 4, 2, 4, 8, 6, 4]
    + [6, 2, 4, 6, 2, 6, 6, 4, 2, 4]
    + [6, 2, 6, 4, 2, 4, 2, 10]

  // ----- arithmetic

  predicate Divides(d: nat, n: nat)
    requires d > 0
  {
    n % d == 0
  }

  predicate Prime(p: nat) {
    p >= 2 && forall q :: 2 <= q < p ==> !Divides(q, p)
  }

  function Product(s: seq<nat>): nat {
    if s == [] then 1 else Product(s[..|s| - 1]) * s[|s| - 1]
  }

  /** n has no divisor from 2 up to d. */
  predicate NoneUpTo(n: nat, d: nat) {
    forall q :: 2 <= q <= d ==> !Divides(q, n)
  }

  lemma MulMono(a: nat, b: nat, k: nat)
    requires a <= b
    ensures a * k <= b * k && k * a <= k * b
  {
  }

  lemma DividesMul(d: nat, k: nat)
    requires d > 0
    ensures Divides(d, k * d) && Divides(d, d * k)
  {
    ModMul(k, d);
  }

  lemma {:induction false} ModMul(k: nat, d: nat)
    requires d > 0
    ensures k * d % d == 0
    decreases k
  {
    if k > 0 {
      ModMul(k - 1, d);
      assert k * d == (k - 1) * d + d;
      assert ((k - 1) * d + d) % d == ((k - 1) * d) % d by { ModAdd((k - 1) * d, d); }
    }
  }

  lemma ModAdd(x: nat, d: nat)
    requires d > 0
    ensures (x + d) % d == x % d
  {
    var q, r := x / d, x % d;
    assert x + d == (q + 1) * d + r;
    ModUnique(x + d, d, q + 1, r);
  }

  lemma ModUnique(x: nat, d: nat, q: nat, r: nat)
    requires d > 0 && r < d && x == q * d + r
    ensures x % d == r
  {
    var q', r' := x / d, x % d;
    assert x == q' * d + r';
    if q > q' {
      MulMono(q' + 1, q, d);
    } else if q < q' {
      MulMono(q + 1, q', d);
    }
  }

  lemma DividesTrans(a: nat, b: nat, c: nat)
    requires a > 0 && b > 0 && Divides(a, b) && Divides(b, c)
    ensures Divides(a, c)
  {
    var k, m := b / a, c / b;
    assert b == k * a && c == m * b;
    assert c == (m * k) * a by { assert m * (k * a) == (m * k) * a; }
    DividesMul(a, m * k);
  }

  /** The first divisor that trial division meets is prime. */
  lemma FirstDivisorPrime(n: nat, d: nat)
    requires n > 0 && d >= 2 && NoneUpTo(n, d - 1) && Divides(d, n)
    ensures Prime(d)
  {
    forall q | 2 <= q < d ensures !Divides(q, d) {
      if Divides(q, d) {
        DividesTrans(q, d, n);
      }
    }
  }

  /** Dividing d out loses no information about smaller divisors. */
  lemma QuotientNone(n: nat, d: nat, k: nat)
    requires n > 0 && d >= 2 && Divides(d, n) && NoneUpTo(n, k)
    ensures 0 < n / d < n && n == n / d * d && NoneUpTo(n / d, k)
  {
    var m := n / d;
    assert n == m * d;
    assert m > 0;
    forall q | 2 <= q <= k ensures !Divides(q, m) {
      if Divides(q, m) {
        DividesMul(m, d);
        DividesTrans(q, m, n);
      }
    }
    assert m * d >= m * 2;
  }

  /** A number without divisors up to d, and below the square of d, is 1 or prime. */
  lemma RestIsPrime(n: nat, d: nat)
    requires n > 0 && d >= 2 && NoneUpTo(n, d) && n < d * d
    ensures n == 1 || (Prime(n) && n > d)
  {
    if n > 1 {
      DividesMul(n, 1);
      assert n > d;
      forall q | 2 <= q < n ensures !Divides(q, n) {
        if Divides(q, n) {
          SmallCofactor(n, d, q);
        }
      }
    }
  }

  lemma SmallCofactor(n: nat, d: nat, q: nat)
    requires n > 0 && d >= 2 && NoneUpTo(n, d) && n < d * d && 2 <= q < n
    ensures !Divides(q, n)
  {
    if Divides(q, n) {
      var m := n / q;
      assert n == m * q;
      assert q > d;
      if m > d {
        MulMono(d, m, q);
        MulMono(d, q, d);
      } else if m >= 2 {
        DividesMul(m, q);
      }
    }
  }

  // ----- the wheel

  predicate SharesFactor(x: nat) { Divides(2, x) || Divides(3, x) || Divides(5, x) || Divides(7, x) }

  /** How far a turn of the wheel has come before its i-th step. */
  const SPOKE: seq<nat> :=
    [0, 2, 12, 14, 18, 20, 24, 30, 32, 38]
    + [42, 44, 48, 54, 60, 62, 68, 72, 74, 80]
    + [84, 90, 98, 102, 104, 108, 110, 114, 122, 128]
    + [132, 138, 140, 144, 150, 152, 158, 164, 168, 170]
    + [174, 180, 182, 188, 192, 194, 198, 200, 210]

  /** From the odd number r on, the odd numbers below r + w are multiples of 3, 5 or 7. */
  predicate GapOk(r: nat, w: nat) {
    && r % 2 == 1 && (w == 2 || w == 4 || w == 6 || w == 8 || w == 10)
    && (w > 2 ==> SharesFactor(r + 2)) && (w > 4 ==> SharesFactor(r + 4))
    && (w > 6 ==> SharesFactor(r + 6)) && (w > 8 ==> SharesFactor(r + 8))
  }

  /** The gaps of one turn of the wheel. */
  predicate IsGap(r: nat, w: nat) {
    || (w == 2 && r in {209, 221, 227, 239, 251, 269, 281, 311, 317, 347, 359, 377, 389, 401, 407})
    || (w == 4 && r in {223, 229, 247, 253, 277, 289, 307, 313, 319, 337, 349, 373, 379, 397, 403})
    || (w == 6 && r in {233, 241, 257, 263, 271, 283, 293, 331, 341, 353, 361, 367, 383, 391})
    || (w == 8 && r in {299, 323})
    || (w == 10 && r in {211, 409})
  }

  lemma IsGapOk(r: nat, w: nat)
    requires IsGap(r, w)
    ensures GapOk(r, w)
  {
  }

  lemma SpokeOk(i: nat)
    requires i < 48
    ensures |WHEEL| == 48 && |SPOKE| == 49 && SPOKE[i + 1] == SPOKE[i] + WHEEL[i] && GapOk(209 + SPOKE[i], WHEEL[i])
  {
    TableOk(i);
    IsGapOk(209 + SPOKE[i], WHEEL[i]);
  }

  /** The two tables, entry by entry. */
  lemma TableOk(i: nat)
    requires i < 48
    ensures |WHEEL| == 48 && |SPOKE| == 49 && SPOKE[i + 1] == SPOKE[i] + WHEEL[i] && IsGap(209 + SPOKE[i], WHEEL[i])
  {
    match i {
      case 0 => case 1 => case 2 => case 3 => case 4 => case 5 => case 6 => case 7 =>
      case 8 => case 9 => case 10 => case 11 => case 12 => case 13 => case 14 => case 15 =>
      case 16 => case 17 => case 18 => case 19 => case 20 => case 21 => case 22 => case 23 =>
      case 24 => case 25 => case 26 => case 27 => case 28 => case 29 => case 30 => case 31 =>
      case 32 => case 33 => case 34 => case 35 => case 36 => case 37 => case 38 => case 39 =>
      case 40 => case 41 => case 42 => case 43 => case 44 => case 45 => case 46 => case 47 =>
    }
  }

  /** The wheel skips only numbers that share a factor with 210, in every turn. */
  lemma SkippedShare(k: nat, i: nat, d: nat, x: nat)
    requires i < 48 && |WHEEL| == 48 && |SPOKE| == 49
    requires d == 210 * k - 1 + SPOKE[i] && d < x < d + WHEEL[i]
    ensures SharesFactor(x)
  {
    SpokeOk(i);
    GapShares(209 + SPOKE[i], WHEEL[i], x - d);
    ShiftShares(209 + SPOKE[i] + (x - d), k - 1, x);
  }

  lemma GapShares(r: nat, w: nat, g: nat)
    requires GapOk(r, w) && 0 < g < w
    ensures SharesFactor(r + g)
  {
  }

  lemma ShiftShares(y: nat, m: int, x: nat)
    requires x == y + 210 * m && SharesFactor(y)
    ensures SharesFactor(x)
  {
    if Divides(2, y) {
      ShiftBy(y, 2, 105 * m, x);
    } else if Divides(3, y) {
      ShiftBy(y, 3, 70 * m, x);
    } else if Divides(5, y) {
      ShiftBy(y, 5, 42 * m, x);
    } else {
      ShiftBy(y, 7, 30 * m, x);
    }
  }

  lemma ShiftBy(y: nat, p: nat, m: int, x: nat)
    requires p > 0 && Divides(p, y) && x == y + p * m
    ensures Divides(p, x)
  {
    var q := y / p;
    assert y == p * q;
    Distribute(p, q, m);
    assert x == p * (q + m);
    MultipleOf(p, q + m, x);
  }

  lemma Distribute(p: int, q: int, m: int)
    ensures p * (q + m) == p * q + p * m
  {
  }

  lemma MultipleOf(p: nat, k: int, x: nat)
    requires p > 0 && x == p * k
    ensures x % p == 0
  {
    var r := x % p;
    var q := x / p;
    assert x == p * q + r;
    Distribute(p, k, -q);
    if k > q {
      TimesAtLeast(p, k - q);
    } else if k < q {
      TimesAtLeast(p, q - k);
      Distribute(p, q, -k);
    }
  }

  lemma TimesAtLeast(p: nat, k: nat)
    requires k > 0
    ensures p * k >= p
  {
  }

  // ----- the program

  predicate Coprime210(n: nat) { !Divides(2, n) && !Divides(3, n) && !Divides(5, n) && !Divides(7, n) }

  lemma SharedDoesNotDivide(n: nat, x: nat)
    requires n > 0 && x > 0 && Coprime210(n) && SharesFactor(x)
    ensures !Divides(x, n)
  {
    if Divides(x, n) {
      if Divides(2, x) { DividesTrans(2, x, n); }
      else if Divides(3, x) { DividesTrans(3, x, n); }
      else if Divides(5, x) { DividesTrans(5, x, n); }
      else { DividesTrans(7, x, n); }
    }
  }

  predicate Ascending(s: seq<nat>) { forall i, j :: 0 <= i < j < |s| ==> s[i] <= s[j] }

  /** What has been printed so far: primes in ascending order, none above top. */
  ghost predicate Printed(out: seq<nat>, top: nat) {
    Ascending(out) && forall i :: 0 <= i < |out| ==> Prime(out[i]) && out[i] <= top
  }

  lemma PrintOne(out: seq<nat>, top: nat, d: nat, n: nat, n0: nat)
    requires Printed(out, top) && Prime(d) && top <= d && Product(out) * (n * d) == n0
    ensures Printed(out + [d], d) && Product(out + [d]) * n == n0
  {
    assert (out + [d])[..|out|] == out;
    assert Product(out) * (n * d) == Product(out) * d * n;
  }

  /** Divide d out of n as often as it goes, printing it each time. */
  method DivideOut(n1: nat, d: nat, out1: seq<nat>, ghost n0: nat, ghost top: nat) returns (n: nat, out: seq<nat>)
    requires n1 > 0 && d >= 2 && NoneUpTo(n1, d - 1) && top <= d
    requires Printed(out1, top) && Product(out1) * n1 == n0
    ensures 0 < n <= n1 && NoneUpTo(n, d) && (forall q :: q > 0 && !Divides(q, n1) ==> !Divides(q, n))
    ensures Printed(out, d) && Product(out) * n == n0
  {
    n, out := n1, out1;
    while n % d == 0
      invariant 0 < n <= n1 && NoneUpTo(n, d - 1) && (forall q :: q > 0 && !Divides(q, n1) ==> !Divides(q, n))
      invariant Printed(out, d) && Product(out) * n == n0
      decreases n
    {
      FirstDivisorPrime(n, d);
      QuotientNone(n, d, d - 1);
      var quot := n / d;
      forall q | q > 0 && !Divides(q, n1) ensures !Divides(q, quot) {
        if Divides(q, quot) {
          DividesMul(quot, d);
          DividesTrans(q, quot, n);
        }
      }
      PrintOne(out, d, d, quot, n0);
      out := out + [d];
      n := quot;
    }
  }

  /** The four loops before the wheel. */
  method SmallPrimes(n0: nat) returns (n: nat, out: seq<nat>)
    requires n0 > 0
    ensures 0 < n <= n0 && Coprime210(n) && Printed(out, 7) && Product(out) * n == n0
  {
    n, out := DivideOut(n0, 2, [], n0, 0);
    n, out := DivideOut(n, 3, out, n0, 2);
    assert !Divides(4, n) by { if Divides(4, n) { DividesTrans(2, 4, n); } }
    n, out := DivideOut(n, 5, out, n0, 3);
    assert !Divides(6, n) by { if Divides(6, n) { DividesTrans(2, 6, n); } }
    n, out := DivideOut(n, 7, out, n0, 5);
  }

  /** The next trial divisor is the first that can divide n. */
  lemma NextDivisor(n: nat, k: nat, i: nat, d: nat)
    requires n > 0 && i < 48 && |WHEEL| == 48 && |SPOKE| == 49 && d == 210 * k - 1 + SPOKE[i]
    requires Coprime210(n) && NoneUpTo(n, d)
    ensures NoneUpTo(n, d + WHEEL[i] - 1)
  {
    forall q | 2 <= q <= d + WHEEL[i] - 1 ensures !Divides(q, n) {
      if q > d {
        SkippedShare(k, i, d, q);
        SharedDoesNotDivide(n, q);
      }
    }
  }

  /** What holds of the rest n and the printed numbers once d has been divided out. */
  ghost predicate Sieved(n: nat, d: nat, out: seq<nat>, n0: nat) {
    0 < n <= n0 && Coprime210(n) && NoneUpTo(n, d) && Printed(out, if d < 7 then 7 else d) && Product(out) * n == n0
  }

  /** The next spoke of the wheel, divided out. */
  method Turn(n1: nat, d1: nat, i: nat, ghost k: nat, out1: seq<nat>, ghost n0: nat)
    returns (d: nat, n: nat, out: seq<nat>)
    requires i < 48 && |SPOKE| == 49 && 1 <= d1 == 210 * k - 1 + SPOKE[i] && Sieved(n1, d1, out1, n0)
    ensures |SPOKE| == 49 && d == 210 * k - 1 + SPOKE[i + 1] && d1 < d && n <= n1 && Sieved(n, d, out, n0)
  {
    SpokeOk(i);
    NextDivisor(n1, k, i, d1);
    d := d1 + WHEEL[i];
    n, out := DivideOut(n1, d, out1, n0, if d1 < 7 then 7 else d1);
  }

  /** From spoke i0 to the end of the wheel. */
  method Revolve(n1: nat, d1: nat, i0: nat, ghost k: nat, out1: seq<nat>, ghost n0: nat)
    returns (d: nat, n: nat, out: seq<nat>)
    requires i0 < 2 && |SPOKE| == 49 && 1 <= d1 == 210 * k - 1 + SPOKE[i0] && Sieved(n1, d1, out1, n0)
    ensures d == 210 * (k + 1) - 1 && n <= n1 && Sieved(n, d, out, n0)
  {
    d, n, out := d1, n1, out1;
    var i := i0;
    while i < 48
      invariant i0 <= i <= 48 && |SPOKE| == 49 && 1 <= d == 210 * k - 1 + SPOKE[i] && n <= n1 && Sieved(n, d, out, n0)
    {
      d, n, out := Turn(n, d, i, k, out, n0);
      i := i + 1;
    }
  }

  /**
    `factor` ends for every n; for n >= 1 the printed numbers are primes in
    ascending order whose product is n. The bound is tested only when the wheel
    wraps around.
   */
  method FactorNumber(n0: nat) returns (out: seq<nat>)
    ensures n0 == 0 ==> out == []
    ensures n0 > 0 ==> Product(out) == n0 && Ascending(out) && forall i :: 0 <= i < |out| ==> Prime(out[i])
  {
    out := [];
    if n0 == 0 {
      return;
    }
    var n;
    n, out := SmallPrimes(n0);
    var d;
    SpokeOk(1);
    d, n, out := Revolve(n, 1, 1, 0, out, n0);
    ghost var k := 1;
    while (d - 1) * (d - 1) <= n
      invariant d == 210 * k - 1 && Sieved(n, d, out, n0) && k >= 1
      decreases n0 + 300 - d
    {
      SquareBound(d - 1, n);
      SpokeOk(0);
      d, n, out := Revolve(n, d, 0, k, out, n0);
      k := k + 1;
    }
    SquareStep(d, n);
    RestIsPrime(n, d);
    if n > 1 {
      PrintOne(out, d, n, 1, n0);
      out := out + [n];
    }
  }

  lemma SquareBound(x: nat, n: nat)
    requires x * x <= n
    ensures x <= n
  {
    if x > 0 {
      MulMono(1, x, x);
    }
  }

  lemma SquareStep(d: nat, n: nat)
    requires d >= 1 && (d - 1) * (d - 1) > n
    ensures n < d * d
  {
    MulMono(d - 1, d, d - 1);
    MulMono(d - 1, d, d);
  }
}
