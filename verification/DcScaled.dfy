/**
  dc's `/` and `%` on scaled decimals (dc.c: commnds, dscale, removr, binop).
  A number is a block of digits with its scale, the count of decimals, in a
  trailing byte.
 */
module DcScaled {
  import opened Radix
  import opened Blocks
  import opened DcArith
  import opened DcDiv
  import opened DcEstimate
  import opened DcOps

  function Abs(x: int): nat { if x < 0 then -x else x }

  /** How many base-100 bytes a number takes. */
  function NumBytes(v: nat): nat {
    if v == 0 then 0 else 1 + NumBytes(v / 100)
  }

  lemma {:induction false} NormalLength(s: seq<int>)
    requires Normal(s) && Digits(s)
    ensures Val(s) >= 0 && |s| == NumBytes(Val(s))
  {
    NormalSign(s);
    if s != [] {
      assert s[1..] != [] ==> s[1..][|s| - 2] == s[|s| - 1];
      NormalLength(s[1..]);
      assert Val(s) / 100 == Val(s[1..]);
    }
  }

  // ----- removr

  /** The low m bytes of s as `removr` reads them: past the end every read gives EOF, that is -1. */
  ghost function LowBytes(s: seq<int>, m: nat): seq<int> {
    if m <= |s| then s[..m] else s + seq(m - |s|, i => EOF)
  }

  /** The number of n bytes that are all 1. */
  function Ones(n: nat): (r: nat)
    ensures n > 0 ==> r > 0
  {
    if n == 0 then 0 else 1 + 100 * Ones(n - 1)
  }

  lemma {:induction false} EofVal(n: nat)
    ensures Val(seq(n, i => EOF)) == 0 - Ones(n)
  {
    if n > 0 {
      assert seq(n, i => EOF)[1..] == seq(n - 1, i => EOF);
      EofVal(n - 1);
    }
  }

  /** What is taken off a number that has fewer than m bytes: each byte that is missing counts as -1. */
  function TooMuch(v: int, m: nat): int
    requires m > NumBytes(Abs(v))
  {
    var l := NumBytes(Abs(v));
    var low := Abs(v) - Pow(l) * Ones(m - l);
    if v < 0 then -low else low
  }

  /** The bytes taken off and the bytes left add up exactly when there were enough bytes. */
  lemma LowBytesVal(s: seq<int>, m: nat)
    requires Digits(s)
    ensures m <= |s| ==> Val(s) == Val(LowBytes(s, m)) + Pow(m) * Val(s[m..]) && 0 <= Val(LowBytes(s, m)) < Pow(m)
    ensures m > |s| ==> Val(LowBytes(s, m)) == Val(s) - Pow(|s|) * Ones(m - |s|) < Val(s)
  {
    if m <= |s| {
      ValSplit(s, m);
      DigitsBound(s[..m]);
    } else {
      EofVal(m - |s|);
      ValConcat(s, seq(m - |s|, i => EOF));
      Missing(Pow(|s|), Ones(m - |s|));
    }
  }

  lemma Missing(x: int, y: int)
    requires x >= 1 && y >= 1
    ensures x * (0 - y) == -(x * y) && x * y > 0
  {
  }

  /** Move m bytes from the front of p to q, and the rest to r. */
  method SplitBytes(p: Blk, m: nat) returns (q: Blk, r: Blk)
    requires Digits(p.d)
    modifies p`rd
    ensures fresh(q) && fresh(r) && q != r
    ensures q.d == LowBytes(p.d, m) && r.d == if m <= |p.d| then p.d[m..] else []
  {
    q := new Blk([]);
    p.Rewind();
    var i := 0;
    while i < m
      invariant i <= m && p.rd == (if i <= |p.d| then i else |p.d|) && q.d == LowBytes(p.d, i)
    {
      var c := p.Sgetc();
      q.Sputc(c);
      i := i + 1;
    }
    r := new Blk([]);
    ghost var start := p.rd;
    while !p.Sfeof()
      invariant start <= p.rd <= |p.d| && r.d == p.d[start..p.rd] && q.d == LowBytes(p.d, m)
      decreases |p.d| - p.rd
    {
      var c := p.Sgetc();
      r.Sputc(c);
    }
  }

  /** Truncated division of n by 10^k, read off `LowBytes`: the value identity. */
  ghost predicate Cut(n: int, k: nat, q: int, r: int) {
    n == q * Power(10, k) + r
  }

  lemma EvenCut(s: seq<int>, m: nat)
    requires Digits(s)
    ensures m <= |s| ==> Cut(Val(s), 2 * m, Val(s[m..]), Val(LowBytes(s, m)))
    ensures m <= |s| ==> 0 <= Val(LowBytes(s, m)) < Power(10, 2 * m)
    ensures m > |s| ==> !Cut(Val(s), 2 * m, 0, Val(LowBytes(s, m)))
  {
    LowBytesVal(s, m);
    HundredTen(m);
  }

  lemma OddCut(s: seq<int>, m: nat, q: int, d: int)
    requires Digits(s) && m <= |s| && 0 <= d < 10 && Val(s[m..]) == q * 10 + d
    ensures var low := Val(LowBytes(s, m)) + Pow(m) * d;
            Cut(Val(s), 2 * m + 1, q, low) && 0 <= low < Power(10, 2 * m + 1)
  {
    LowBytesVal(s, m);
    HundredTen(m);
    var p10 := Power(10, 2 * m + 1);
    assert p10 == 10 * Pow(m);
    OddDigit(Pow(m), p10, q, d, Val(s[m..]), Val(LowBytes(s, m)));
  }

  lemma OddDigit(p: int, p10: int, q: int, d: int, rest: int, low: int)
    requires 1 <= p && p10 == 10 * p && 0 <= d < 10 && rest == q * 10 + d && 0 <= low < p
    ensures low + p * rest == q * p10 + (low + p * d)
    ensures 0 <= low + p * d < p10
  {
    assert p * rest == p * (q * 10) + p * d;
    MulLe(p, d, 9);
    MulLe(p, 0, d);
  }

  lemma CutNegated(n: int, k: nat, q: int, r: int)
    ensures Cut(-n, k, -q, -r) <==> Cut(n, k, q, r)
  {
    MulSigns(q, Power(10, k));
  }

  /**
    `removr`: take n decimals off p, returning what is left and what was removed.
    The two add up to p, with truncation toward zero, exactly when p has at least
    n/2 bytes; otherwise the missing bytes are read as EOF and end up in the
    removed part.
   */
  method Removr(p: Blk, n: nat, divxyz: Blk) returns (r: Blk, irem: Blk)
    requires p != divxyz && Normal(p.d) && p.d != [] && n >= 1
    modifies p, divxyz
    ensures fresh(r) && fresh(irem) && r != irem && WellFormed(r.d) && Signed(irem.d)
    ensures var v := Val(old(p.d));
            && (Cut(v, n, Val(r.d), Val(irem.d)) <==> n / 2 <= NumBytes(Abs(v)))
            && (n / 2 <= NumBytes(Abs(v)) ==>
                  Abs(Val(irem.d)) < Power(10, n)
                  && (Val(irem.d) == 0 || (Val(irem.d) < 0 <==> v < 0))
                  && (Val(r.d) == 0 || (Val(r.d) < 0 <==> v < 0)))
            && (n / 2 > NumBytes(Abs(v)) ==> Val(r.d) == 0 && Val(irem.d) == TooMuch(v, n / 2))
  {
    ghost var v := Val(p.d);
    NormalSign(p.d);
    p.Fsfile();
    var neg := p.Sbackc();
    if neg < 0 {
      Chsign(p);
    }
    NormalSign(p.d);
    NormalLength(p.d);
    r, irem := RemoveDecimals(p, n, divxyz);
    CutNegated(Abs(v), n, Val(r.d), Val(irem.d));
    if neg < 0 {
      Chsign(r);
      Chsign(irem);
    }
  }

  /** `removr` on a nonnegative number. */
  method RemoveDecimals(p: Blk, n: nat, divxyz: Blk) returns (r: Blk, irem: Blk)
    requires p != divxyz && Digits(p.d)
    modifies p`rd, divxyz
    ensures fresh(r) && fresh(irem) && r != irem && WellFormed(r.d) && Signed(irem.d)
    ensures Cut(Val(p.d), n, Val(r.d), Val(irem.d)) <==> n / 2 <= |p.d|
    ensures n / 2 <= |p.d| ==> 0 <= Val(r.d) && 0 <= Val(irem.d) < Power(10, n)
    ensures n / 2 > |p.d| ==> Val(r.d) == 0 && Val(irem.d) == Val(p.d) - Pow(|p.d|) * Ones(n / 2 - |p.d|)
  {
    var m := n / 2;
    irem, r := SplitBytes(p, m);
    DigitsBound(r.d);
    EvenCut(p.d, m);
    LowBytesVal(p.d, m);
    if n % 2 == 1 {
      var d;
      r, d := DivTen(r, divxyz);
      assert n == 2 * m + 1;
      if m <= |p.d| {
        OddCut(p.d, m, Val(r.d), d);
      }
      if d != 0 {
        ValSnoc(irem.d, d);
        irem.Sputc(d);
      }
    }
  }

  /** Divide a nonnegative number by ten; the remainder block holds at most one byte. */
  method DivTen(r: Blk, divxyz: Blk) returns (s: Blk, d: int)
    requires r != divxyz && Digits(r.d)
    modifies divxyz
    ensures fresh(s) && Normal(s.d) && 0 <= d < 10 && 0 <= Val(s.d) && Val(r.d) == Val(s.d) * 10 + d
  {
    DigitsBound(r.d);
    var ten := new Blk([10]);
    assert Val([10]) == 10;
    var rem;
    s, rem := Div(r, ten, divxyz);
    TenFacts(Val(r.d), Val(s.d), Val(rem.d));
    rem.Rewind();
    d := 0;
    SmallBlock(rem.d);
    if !rem.Sfeof() {
      d := rem.Sgetc();
    }
  }

  lemma TenFacts(n: int, q: int, r: int)
    requires n >= 0 && Divides(n, 10, q, r)
    ensures 0 <= q && 0 <= r < 10 && n == q * 10 + r
  {
  }

  lemma SmallBlock(s: seq<int>)
    requires WellFormed(s) && 0 <= Val(s) < 10
    ensures s == [] ==> Val(s) == 0
    ensures s != [] ==> s[0] == Val(s)
  {
    NormalSign(s);
    if s != [] {
      DigitsBound(s[1..]);
    }
  }

  // ----- / and %

  /** What a signed char keeps of an int. */
  function CharOf(x: int): int { (x + 128) % 256 - 128 }

  /** The digits of a number, below its scale byte. */
  function Body(s: seq<int>): seq<int>
    requires s != []
  {
    s[..|s| - 1]
  }

  function ScaleOf(s: seq<int>): int
    requires s != []
  {
    s[|s| - 1]
  }

  datatype Outcome = DivideByZero | ZeroDividend | Divided

  /** Both sides shifted to the scale sc, n / d leaves q with remainder r. */
  ghost predicate ScaledLaw(n: int, skd: int, d: int, skr: int, k: int, q: int, r: int, sc: int) {
    skd <= sc && skr + k <= sc && d != 0 &&
    Divides(n * Power(10, sc - skd), d * Power(10, sc - skr - k), q, r)
  }

  lemma ShiftedDivides(n: int, d: int, t: int, p: int, r: int, irem: int, q: int, rem: int)
    requires p >= 1 && d != 0 && Divides(t, d, q, rem) && r == rem * p + irem
    requires n == t * p + irem && Abs(irem) < p
    requires (irem == 0 || (irem < 0 <==> n < 0)) && (t == 0 || (t < 0 <==> n < 0))
    ensures Divides(n, d * p, q, r)
  {
    Distribute3(t, q * d, rem, p);
    Assoc(q, d, p);
    Magnitude(rem, irem, Abs(d), p);
    SignedProduct(d, p);
    RemSign(n, t, d, q, rem);
    if n >= 0 {
      MulLe(p, 0, rem);
    } else {
      MulLe(p, rem, 0);
    }
    DividesIntro(n, d * p, q, r, Abs(d) * p);
  }

  lemma DividesIntro(n: int, d: int, q: int, r: int, e: int)
    requires n == q * d + r && (d == e || d == -e) && -e < r < e && (if n >= 0 then r >= 0 else r <= 0)
    ensures Divides(n, d, q, r)
  {
  }

  lemma SignedProduct(d: int, p: int)
    ensures d * p == Abs(d) * p || d * p == -(Abs(d) * p)
  {
  }

  lemma RemSign(n: int, t: int, d: int, q: int, rem: int)
    requires d != 0 && Divides(t, d, q, rem) && (t == 0 || (t < 0 <==> n < 0))
    ensures if n >= 0 then rem >= 0 else rem <= 0
  {
  }

  lemma Distribute3(t: int, u: int, v: int, p: int)
    requires t == u + v
    ensures t * p == u * p + v * p
  {
  }

  lemma Magnitude(rem: int, irem: int, e: int, p: int)
    requires p >= 1 && -e < rem < e && -p < irem < p
    ensures -(e * p) < rem * p + irem < e * p
  {
    MulLe(p, rem, e - 1);
    MulLe(p, 1 - e, rem);
  }

  /** A number on dc's stack: normal-form digits under a scale byte, which % can wrap to any char. */
  predicate Number(s: seq<int>) {
    s != [] && Normal(Body(s)) && IsChar(ScaleOf(s))
  }

  /** `dscale` brings the dividend to k decimals more than the divisor has. */
  method Dscale(dd: Blk, dr: Blk, k: int, divxyz: Blk) returns (st: Outcome, arg1: Blk, irem: Blk?, skd: int, skr: int)
    requires dd != dr && dd != divxyz && dr != divxyz
    requires Number(dd.d) && Number(dr.d) && -1 <= k <= 99
    modifies dd, dr, divxyz
    ensures skd == ScaleOf(old(dd.d)) && skr == ScaleOf(old(dr.d))
    ensures st.DivideByZero? <==> Val(Body(old(dr.d))) == 0
    ensures st.DivideByZero? ==> dr.d == old(dr.d)
    ensures st.ZeroDividend? <==> Val(Body(old(dd.d))) == 0 && Val(Body(old(dr.d))) != 0
    ensures st.ZeroDividend? ==> dd.d == old(dd.d)
    ensures st.Divided? ==> dr.d == Body(old(dr.d)) && WellFormed(arg1.d) && fresh(arg1)
    ensures st.Divided? ==> (irem == null <==> skd <= skr + k)
    ensures st.Divided? && irem == null ==> Val(arg1.d) == Val(Body(old(dd.d))) * Power(10, skr + k - skd)
    ensures st.Divided? && irem != null ==> fresh(irem) && irem != arg1 && Signed(irem.d)
    ensures st.Divided? && irem != null ==>
              var v, n := Val(Body(old(dd.d))), skd - skr - k;
              && (Cut(v, n, Val(arg1.d), Val(irem.d)) <==> n / 2 <= NumBytes(Abs(v)))
              && (n / 2 > NumBytes(Abs(v)) ==> Val(arg1.d) == 0 && Val(irem.d) == TooMuch(v, n / 2))
              && (n / 2 <= NumBytes(Abs(v)) ==>
                    Abs(Val(irem.d)) < Power(10, n)
                    && (Val(irem.d) == 0 || (Val(irem.d) < 0 <==> v < 0))
                    && (Val(arg1.d) == 0 || (Val(arg1.d) < 0 <==> v < 0)))
  {
    arg1, irem := dd, null;
    skd := dd.Sunputc();
    skr := dr.Sunputc();
    NormalSign(dd.d);
    NormalSign(dr.d);
    var top := 0;
    if !dr.Sfbeg() { top := dr.Sbackc(); }
    if top == 0 {
      dr.Sputc(skr);
      return DivideByZero, arg1, irem, skd, skr;
    }
    top := 0;
    if !dd.Sfbeg() { top := dd.Sbackc(); }
    if top == 0 {
      dd.Sputc(skd);
      return ZeroDividend, arg1, irem, skd, skr;
    }
    st := Divided;
    var c := k - skd + skr;
    if c < 0 {
      arg1, irem := Removr(dd, -c, divxyz);
    } else {
      arg1 := Add0(dd, c);
    }
  }

  /** No decimals are taken off the dividend, or it has at least half as many bytes. */
  predicate Enough(n: int, skd: int, skr: int, k: int) {
    skd <= skr + k || (skd - skr - k) / 2 <= NumBytes(Abs(n))
  }

  /** The scaled division law where there are enough bytes, and exactly what is left where there are not. */
  ghost predicate Answers(n: int, skd: int, d: int, skr: int, k: int, q: int, m: int, sc: int) {
    && sc == (if skd <= skr + k then skr + k else skd)
    && (ScaledLaw(n, skd, d, skr, k, q, m, sc) <==> Enough(n, skd, skr, k))
    && (!Enough(n, skd, skr, k) ==> q == 0 && m == TooMuch(n, (skd - skr - k) / 2))
  }

  /**
    What `/` and `%` leave for dividend dd and divisor dr at scale k: the quotient
    with k decimals and the remainder. Together they satisfy the division law
    exactly, as scaled decimals, if and only if no decimals had to be taken off the
    dividend or it has at least half as many bytes as decimals are taken off. If it has
    fewer, the quotient is zero and the remainder is off by the bytes that are missing.
    The remainder's scale byte is the true scale sc cut to a char.
   */
  method DivideModulo(dd: Blk, dr: Blk, k: int, divxyz: Blk)
    returns (st: Outcome, quot: Blk, modulo: Blk, ghost sc: int)
    requires dd != dr && dd != divxyz && dr != divxyz
    requires Number(dd.d) && Number(dr.d) && -1 <= k <= 99
    modifies dd, dr, divxyz
    ensures st.DivideByZero? <==> Val(Body(old(dr.d))) == 0
    ensures st.DivideByZero? ==> dr.d == old(dr.d)
    ensures st.ZeroDividend? <==> Val(Body(old(dd.d))) == 0 && Val(Body(old(dr.d))) != 0
    ensures st.ZeroDividend? ==> dd.d == old(dd.d)
    ensures st.Divided? ==>
              var skd, skr := ScaleOf(old(dd.d)), ScaleOf(old(dr.d));
              var n, d := Val(Body(old(dd.d))), Val(Body(old(dr.d)));
              && quot.d != [] && modulo.d != [] && ScaleOf(quot.d) == k && ScaleOf(modulo.d) == CharOf(sc)
              && Answers(n, skd, d, skr, k, Val(Body(quot.d)), Val(Body(modulo.d)), sc)
  {
    ghost var n, d := Val(Body(dd.d)), Val(Body(dr.d));
    var arg1, irem, skd, skr;
    quot, modulo := dd, dr;
    sc := 0;
    st, arg1, irem, skd, skr := Dscale(dd, dr, k, divxyz);
    if !st.Divided? {
      return;
    }
    NormalSign(dr.d);
    var rem;
    quot, rem := Div(arg1, dr, divxyz);
    ghost var q := Val(quot.d);
    if irem == null {
      sc := skr + k;
      modulo := rem;
      WholeLaw(n, skd, d, skr, k, q, Val(modulo.d), Val(arg1.d));
    } else {
      sc := skd;
      ghost var r, t := Val(rem.d), Val(arg1.d);
      var p := Add0(rem, skd - (skr + k));
      modulo := Add(p, irem);
      ModuloAnswers(n, skd, d, skr, k, q, Val(modulo.d), r, Val(irem.d), t);
    }
    WithScale(quot.d, k);
    WithScale(modulo.d, CharOf(sc));
    quot.Sputc(k);
    modulo.Sputc(CharOf(if irem == null then skr + k else skd));
  }

  lemma NothingDivided(d: int, q: int, r: int, p: int)
    requires d != 0 && Divides(0, d, q, r)
    ensures q == 0 && r * p == 0
  {
    if q > 0 {
      Apart(q, d);
    } else if q < 0 {
      Apart(-q, d);
    }
  }

  lemma Apart(q: int, d: int)
    requires q >= 1 && d != 0
    ensures q * d >= Abs(d) || q * d + Abs(d) <= 0
    ensures -q * d == -(q * d)
  {
    if d > 0 { MulLe(d, 1, q); } else { MulLe(-d, 1, q); }
  }

  lemma WithScale(s: seq<int>, c: int)
    ensures Body(s + [c]) == s && ScaleOf(s + [c]) == c
  {
  }

  lemma WholeLaw(n: int, skd: int, d: int, skr: int, k: int, q: int, m: int, t: int)
    requires skd <= skr + k && d != 0 && t == n * Power(10, skr + k - skd) && Divides(t, d, q, m)
    ensures Answers(n, skd, d, skr, k, q, m, skr + k)
  {
    assert Power(10, 0) == 1 && d * 1 == d;
  }

  lemma ModuloAnswers(n: int, skd: int, d: int, skr: int, k: int, q: int, m: int, rem: int, irem: int, t: int)
    requires skd > skr + k && d != 0 && Divides(t, d, q, rem)
    requires m == rem * Power(10, skd - skr - k) + irem
    requires var c := skd - skr - k;
             && (Cut(n, c, t, irem) <==> c / 2 <= NumBytes(Abs(n)))
             && (c / 2 > NumBytes(Abs(n)) ==> t == 0 && irem == TooMuch(n, c / 2))
             && (c / 2 <= NumBytes(Abs(n)) ==>
                   Abs(irem) < Power(10, c) && (irem == 0 || (irem < 0 <==> n < 0)) && (t == 0 || (t < 0 <==> n < 0)))
    ensures Answers(n, skd, d, skr, k, q, m, skd)
  {
    ModuloLaw(n, skd, d, skr, k, q, m, rem, irem, t);
    if t == 0 { NothingDivided(d, q, rem, Power(10, skd - skr - k)); }
  }

  /** The branch of `%` that recombines the removed decimals. */
  lemma ModuloLaw(n: int, skd: int, d: int, skr: int, k: int, q: int, m: int, rem: int, irem: int, t: int)
    requires skd > skr + k && d != 0 && Divides(t, d, q, rem)
    requires m == rem * Power(10, skd - skr - k) + irem
    requires var c := skd - skr - k;
             && (Cut(n, c, t, irem) <==> c / 2 <= NumBytes(Abs(n)))
             && (c / 2 > NumBytes(Abs(n)) ==> t == 0)
             && (c / 2 <= NumBytes(Abs(n)) ==>
                   Abs(irem) < Power(10, c) && (irem == 0 || (irem < 0 <==> n < 0)) && (t == 0 || (t < 0 <==> n < 0)))
    ensures ScaledLaw(n, skd, d, skr, k, q, m, skd) <==> (skd - skr - k) / 2 <= NumBytes(Abs(n))
  {
    var c := skd - skr - k;
    var p := Power(10, c);
    PowerPositive(c);
    assert n * Power(10, 0) == n;
    if c / 2 <= NumBytes(Abs(n)) {
      ShiftedDivides(n, d, t, p, m, irem, q, rem);
    } else if n == q * (d * p) + m {
      Assoc(q, d, p);
      Distribute3(t, q * d, rem, p);
      assert false;
    }
  }

  /** .00001 divided by 1 at scale 0: two bytes are taken off a one-byte dividend, so the law fails. */
  lemma ShortDividendFails()
    ensures Number([1, 5]) && Number([1, 0]) && Val(Body([1, 5])) == Val(Body([1, 0])) == 1
    ensures !Enough(Val(Body([1, 5])), ScaleOf([1, 5]), ScaleOf([1, 0]), 0)
    ensures NumBytes(Abs(1)) < 5 / 2 && TooMuch(1, 5 / 2) == -99
  {
    assert Body([1, 5]) == [1] && Body([1, 0]) == [1];
    assert [1][1..] == [];
    assert NumBytes(1) == 1 + NumBytes(0);
  }

  /** The remainder's scale byte is right exactly when the scale fits a char. */
  lemma ScaleByteFits(sc: int)
    ensures CharOf(sc) == sc <==> -128 <= sc <= 127
  {
  }
}
