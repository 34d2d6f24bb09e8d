/**
  The quotient-digit estimate of dc's `div`, over plain integers.

  `div` divides the top three digits of the running dividend by the top two (or,
  rescaled by 8/100, the top three) digits of the divisor. All digits but the last
  are deliberately under-estimated, the last one is over-estimated; the results
  here bound how far off each estimate can be.
 */
module DcEstimate {

  /** The divisor scale from its top three digits: (c, magic). */
  function Divisor(d3: int): (int, bool) {
    if d3 / 10000 < 10 then (d3 * 2 / 25, true) else (d3 / 100, false)
  }

  /** The estimated digit and the `under` flag, from the top three dividend digits. */
  function Estimate(td: int, d3: int, last: bool): (int, bool)
    requires 10000 <= d3
  {
    var (c, magic) := Divisor(d3);
    var t := if last then td + 1 else td;
    var cc := if last then c else c + 1;
    var t8 := if magic then 8 * t else t;
    var dig := t8 / cc;
    if t8 % cc < 8 && dig > 0 && magic then (dig - 1, true) else (dig, false)
  }

  lemma MulLe(k: int, a: int, b: int)
    requires 0 <= k && a <= b
    ensures k * a <= k * b
  {
  }

  lemma MulLt(k: int, a: int, b: int)
    requires 0 < k && a < b
    ensures k * a < k * b
  {
  }

  lemma Cancel(a: int, b: int, k: int)
    requires 0 < k && a * k < b * k
    ensures a < b
  {
    if b <= a {
      MulLe(k, b, a);
    }
  }

  lemma Assoc(a: int, b: int, c: int)
    ensures a * b * c == a * (b * c) && a * (b * c) == b * (a * c)
  {
  }

  /** dig divisors fit, when they fit at the divisor's upper bound h/100 * x. */
  lemma NotTooBig(dig: int, f: int, u: int, x: int, t: int, h: int)
    requires 0 <= dig && 0 < x && 100 * f <= h * x && dig * h <= 100 * t && t * x <= u
    ensures dig * f <= u
  {
    calc {
      100 * (dig * f);
      dig * (100 * f);
    <= { MulLe(dig, 100 * f, h * x); }
      dig * (h * x);
      { Assoc(dig, h, x); }
      dig * h * x;
    <= { MulLe(x, dig * h, 100 * t); }
      100 * t * x;
      { Assoc(100, t, x); }
      100 * (t * x);
    <=
      100 * u;
    }
  }

  /** dig + b/100 divisors do not fit, when they exceed w at the divisor's lower bound c * x. */
  lemma NotTooSmall(dig: int, b: int, f: int, u: int, x: int, w: int, c: int)
    requires 0 <= 100 * dig + b && 0 < x && c * x <= f && u < w * x && 100 * w <= (100 * dig + b) * c
    ensures 100 * u < (100 * dig + b) * f
  {
    var g := 100 * dig + b;
    calc {
      100 * u;
    <
      100 * (w * x);
      { Assoc(100, w, x); }
      100 * w * x;
    <= { MulLe(x, 100 * w, g * c); }
      g * c * x;
      { Assoc(g, c, x); }
      g * (c * x);
    <= { MulLe(g, c * x, f); }
      g * f;
    }
  }

  lemma DivFacts(t: int, c: int) returns (q: int, r: int)
    requires 0 < c && 0 <= t
    ensures q == t / c && r == t % c && t == q * c + r && 0 <= r < c && 0 <= q
  {
    q, r := t / c, t % c;
  }

  /**
    What the loop of `div` relies on, for dividend v and divisor e: no digit
    exceeds 117; before the last position the digit leaves a remainder in
    [0, 1.17 e), and at the last position it is off by at most one, upwards
    without the `under` flag and downwards with it.
   */
  ghost predicate GoodDigit(v: int, e: int, last: bool, dig: int, under: bool) {
    && 0 <= dig <= 117
    && (!last ==> dig * e <= v && 100 * v < (100 * dig + 117) * e)
    && (last && !under ==> (dig - 1) * e <= v < (dig + 1) * e)
    && (last && under ==> dig * e <= v < (dig + 2) * e)
  }

  lemma Unscale(v: int, e: int, last: bool, dig: int, under: bool)
    requires GoodDigit(10000 * v, 10000 * e, last, dig, under)
    ensures GoodDigit(v, e, last, dig, under)
  {
    Assoc(dig, 10000, e);
    Assoc(dig - 1, 10000, e);
    Assoc(dig + 1, 10000, e);
    Assoc(dig + 2, 10000, e);
    Assoc(100 * dig + 117, 10000, e);
  }

  /** The bounds a good digit puts on the remainder w it leaves. */
  ghost predicate Within(w: int, e: int, last: bool, under: bool) {
    if !last then 0 <= w && 100 * w < 117 * e
    else if under then 0 <= w < 2 * e
    else -e <= w < e
  }

  lemma GoodRemainder(v: int, e: int, last: bool, dig: int, under: bool)
    requires GoodDigit(v, e, last, dig, under)
    ensures Within(v - e * dig, e, last, under)
    ensures 0 <= v && v - e * dig < 0 ==> dig >= 1
  {
    assert (dig - 1) * e == e * dig - e && (dig + 1) * e == e * dig + e && (dig + 2) * e == e * dig + 2 * e;
    assert (100 * dig + 117) * e == 100 * (e * dig) + 117 * e;
  }

  /** d3 and td are the top digits of divisor and dividend, in units of z and 100 z. */
  lemma EstimateBounds(z: int, d3: int, td: int, e: int, v: int, last: bool)
    requires 1 <= z && 10000 <= d3 && 0 <= td
    requires z * d3 <= e < z * (d3 + 1)
    requires 100 * z * td <= v < 100 * z * (td + 1)
    requires v < 117 * e
    ensures GoodDigit(v, e, last, Estimate(td, d3, last).0, Estimate(td, d3, last).1)
  {
    var (c, magic) := Divisor(d3);
    var x := 100 * z;
    if magic {
      Rescaled(z, d3, e, c);
      if last { MagicLast(x, c, td, e, v); } else { MagicInner(x, c, td, e, v); }
    } else {
      assert 100 * c <= d3 && d3 + 1 <= 100 * (c + 1);
      MulLe(z, 100 * c, d3);
      MulLe(z, d3 + 1, 100 * (c + 1));
      if last { PlainLast(x, c, td, e, v); } else { PlainInner(x, c, td, e, v); }
    }
  }

  /** The "magic" scale: 8 divisors lie between c and c + 1.04 units of x. */
  lemma Rescaled(z: int, d3: int, e: int, c: int)
    requires 1 <= z && 10000 <= d3 && c == d3 * 2 / 25
    requires z * d3 <= e < z * (d3 + 1)
    ensures c >= 800 && c * (100 * z) <= 8 * e && 100 * (8 * e) <= (100 * c + 104) * (100 * z)
  {
    assert 100 * c <= 8 * d3 <= 100 * c + 96;
    MulLe(z, 100 * c, 8 * d3);
    MulLe(z, 8 * (d3 + 1), 100 * c + 104);
  }

  lemma PlainInner(x: int, c: int, td: int, e: int, v: int)
    requires 0 < x && c >= 1000 && 0 <= td
    requires c * x <= e <= (c + 1) * x && x * td <= v < x * (td + 1) && v < 117 * e
    ensures var dig := td / (c + 1);
            0 <= dig <= 117 && dig * e <= v && 100 * v < (100 * dig + 117) * e
  {
    var dig, r := DivFacts(td, c + 1);
    PlainUnder(x, c, td, e, v, dig, r);
    PlainOver(x, c, td, e, v, dig, r);
  }

  lemma PlainUnder(x: int, c: int, td: int, e: int, v: int, dig: int, r: int)
    requires 0 < x && c >= 1000 && 0 <= dig && td == dig * (c + 1) + r && 0 <= r <= c
    requires c * x <= e <= (c + 1) * x && x * td <= v < 117 * e
    ensures dig <= 117 && dig * e <= v
  {
    NotTooBig(dig, e, v, x, td, 100 * (c + 1));
    Cancel(dig, 117, e);
  }

  lemma PlainOver(x: int, c: int, td: int, e: int, v: int, dig: int, r: int)
    requires 0 < x && c >= 1000 && 0 <= dig <= 117 && td == dig * (c + 1) + r && 0 <= r <= c
    requires c * x <= e && v < x * (td + 1)
    ensures 100 * v < (100 * dig + 117) * e
  {
    assert dig * (c + 1) == dig * c + dig;
    NotTooSmall(dig, 117, e, v, x, td + 1, c);
  }

  lemma PlainLast(x: int, c: int, td: int, e: int, v: int)
    requires 0 < x && c >= 1000 && 0 <= td
    requires c * x <= e <= (c + 1) * x && x * td <= v < x * (td + 1) && v < 117 * e
    ensures var dig := (td + 1) / c;
            0 <= dig <= 117 && (dig - 1) * e <= v < (dig + 1) * e
  {
    var dig, r := DivFacts(td + 1, c);
    LastDigitBound(dig, r, 1, x, c, td, e, v);
    if dig >= 1 {
      assert (dig - 1) * (100 * (c + 1)) == 100 * (dig * c) + 100 * dig - 100 * c - 100;
      NotTooBig(dig - 1, e, v, x, td, 100 * (c + 1));
    }
    assert (100 * dig + 100) * c == 100 * (dig * c) + 100 * c;
    NotTooSmall(dig, 100, e, v, x, td + 1, c);
  }

  /** The over-estimated last digit still stays below 118. */
  lemma LastDigitBound(dig: int, r: int, k: int, x: int, c: int, t: int, f: int, u: int)
    requires 0 < x && c >= 800 && 0 <= r && 1 <= k <= 8 && dig * c + r == t + k
    requires 100 * f <= (100 * c + 104) * x && t * x <= u && u < 117 * f
    ensures dig <= 117
  {
    calc {
      100 * t * x;
      { Assoc(100, t, x); }
      100 * (t * x);
    <=
      100 * u;
    <
      117 * (100 * f);
    <=
      117 * ((100 * c + 104) * x);
      { Assoc(117, 100 * c + 104, x); }
      117 * (100 * c + 104) * x;
    }
    Cancel(100 * t, 117 * (100 * c + 104), x);
    assert t < 117 * c + 122;
    if dig >= 118 {
      MulLe(c, 118, dig);
    }
  }

  lemma MagicInner(x: int, c: int, td: int, e: int, v: int)
    requires 0 < x && c >= 800 && 0 <= td
    requires c * x <= 8 * e && 100 * (8 * e) <= (100 * c + 104) * x
    requires x * td <= v < x * (td + 1) && v < 117 * e
    ensures var t := 8 * td; var q := t / (c + 1);
            var dig := if t % (c + 1) < 8 && q > 0 then q - 1 else q;
            0 <= dig <= 117 && dig * e <= v && 100 * v < (100 * dig + 117) * e
  {
    var t := 8 * td;
    var q, r := DivFacts(t, c + 1);
    var dig := if r < 8 && q > 0 then q - 1 else q;
    assert q * (c + 1) == q * c + q;
    LastDigitBound(q, q + r + 8, 8, x, c, t, 8 * e, 8 * v);
    MagicInnerDigit(c, t, q, r, dig);
    NotTooBig(dig, 8 * e, 8 * v, x, t, 100 * c + 104);
    NotTooSmall(dig, 117, 8 * e, 8 * v, x, t + 8, c);
  }

  lemma MagicInnerDigit(c: int, t: int, q: int, r: int, dig: int)
    requires c >= 800 && 0 <= q <= 117 && 0 <= r <= c && t == q * c + q + r
    requires dig == if r < 8 && q > 0 then q - 1 else q
    ensures 0 <= dig && dig * (100 * c + 104) <= 100 * t && 100 * (t + 8) <= (100 * dig + 117) * c
  {
    var m := dig * c;
    assert q == dig + 1 ==> q * c == m + c;
    assert dig * (100 * c + 104) == 100 * m + 104 * dig;
    assert (100 * dig + 117) * c == 100 * m + 117 * c;
  }

  lemma MagicLast(x: int, c: int, td: int, e: int, v: int)
    requires 0 < x && c >= 800 && 0 <= td
    requires c * x <= 8 * e && 100 * (8 * e) <= (100 * c + 104) * x
    requires x * td <= v < x * (td + 1) && v < 117 * e
    ensures var t := 8 * (td + 1); var q := t / c;
            && 0 <= q <= 117
            && (t % c < 8 && q > 0 ==> (q - 1) * e <= v < (q + 1) * e)
            && (!(t % c < 8 && q > 0) ==> (q - 1) * e <= v < (q + 1) * e)
  {
    var t := 8 * td;
    var q, r := DivFacts(t + 8, c);
    LastDigitBound(q, r, 8, x, c, t, 8 * e, 8 * v);
    if q >= 1 {
      assert (q - 1) * (100 * c + 104) == 100 * (q * c) + 104 * q - 100 * c - 104;
      NotTooBig(q - 1, 8 * e, 8 * v, x, t, 100 * c + 104);
    }
    assert (100 * q + 100) * c == 100 * (q * c) + 100 * c;
    NotTooSmall(q, 100, 8 * e, 8 * v, x, t + 8, c);
  }
}
