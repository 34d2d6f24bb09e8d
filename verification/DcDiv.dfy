/** dc's long division (dc.c: div), one method per phase of the routine. */
module DcDiv {
  import opened Radix
  import opened Blocks
  import opened DcArith
  import opened DcEstimate

  /** The k-th byte from the top, zero past the bottom. */
  function FromTop(s: seq<int>, k: nat): int {
    if k < |s| then s[|s| - 1 - k] else 0
  }

  function Top3(s: seq<int>): int {
    (FromTop(s, 0) * 100 + FromTop(s, 1)) * 100 + FromTop(s, 2)
  }

  /** Ordinary digits below a nonnegative top byte that may have absorbed a carry. */
  predicate Loose(s: seq<int>) {
    s != [] && Digits(s[..|s| - 1]) && 0 <= s[|s| - 1] < 117
  }

  /** The top three digits pin the value down to one unit of the third. */
  lemma Top3Bounds(s: seq<int>)
    requires s != [] && Digits(s[..|s| - 1])
    ensures Pow(|s| - 1) * Top3(s) <= 10000 * Val(s) < Pow(|s| - 1) * (Top3(s) + 1)
  {
    if |s| <= 2 {
      Top3Short(s);
    } else {
      Top3Long(s, |s| - 3, s[..|s| - 3]);
    }
  }

  lemma Top3Short(s: seq<int>)
    requires 1 <= |s| <= 2
    ensures Pow(|s| - 1) * Top3(s) <= 10000 * Val(s) < Pow(|s| - 1) * (Top3(s) + 1)
  {
    if |s| == 1 {
      assert s[..0] == [];
    } else {
      ValTop(s);
      ValTake(s, 0);
      assert s[..0] == [];
      TwoDigits(Pow(1), Top3(s), s[1], s[0]);
    }
  }

  lemma Top3Long(s: seq<int>, m: nat, low: seq<int>)
    requires |s| == m + 3 && low == s[..m] && Digits(s[..m + 2])
    ensures Pow(m + 2) * Top3(s) <= 10000 * Val(s) < Pow(m + 2) * (Top3(s) + 1)
  {
    ValThree(s);
    assert low == s[..m + 2][..m];
    DigitsBound(low);
    PowTwice(m);
    ThreeDigits(Pow(m + 2), Pow(m + 1), Pow(m), Top3(s), s[m + 2], s[m + 1], s[m], Val(low));
  }

  lemma PowTwice(m: nat)
    ensures Pow(m + 1) == 100 * Pow(m) && Pow(m + 2) == 100 * Pow(m + 1)
  {
  }

  lemma ValThree(s: seq<int>)
    requires |s| >= 3
    ensures var n := |s|;
            Val(s) == Val(s[..n - 3]) + Pow(n - 3) * s[n - 3] + Pow(n - 2) * s[n - 2] + Pow(n - 1) * s[n - 1]
  {
    ValTop(s);
    ValTake(s, |s| - 2);
    ValTake(s, |s| - 3);
  }

  lemma TwoDigits(p: int, t: int, a: int, b: int)
    requires p == 100 && t == (a * 100 + b) * 100
    ensures p * t <= 10000 * (b + p * a) < p * (t + 1)
  {
  }

  lemma ThreeDigits(p2: int, p1: int, p: int, t: int, a: int, b: int, c: int, low: int)
    requires p2 == 100 * p1 && p1 == 100 * p && 0 <= low < p && t == (a * 100 + b) * 100 + c
    ensures p2 * t <= 10000 * (low + p * c + p1 * b + p2 * a) < p2 * (t + 1)
  {
    assert p1 * b == p * (100 * b) && p2 * a == p * (10000 * a) && p2 * t == 10000 * (p * t);
    assert p * t == p * c + p * (100 * b) + p * (10000 * a);
    assert p2 * (t + 1) == p2 * t + p2;
  }

  // ----- reading the estimate off the blocks

  method DivisorScale(divr: Blk) returns (c: int, magic: bool)
    requires divr.d != [] && Digits(divr.d)
    modifies divr`rd
    ensures (c, magic) == Divisor(Top3(divr.d))
  {
    ghost var s := divr.d;
    magic := false;
    divr.Fsfile();
    c := divr.Sbackc();
    if c < 10 {
      magic := true;
    }
    var second := 0;
    if !divr.Sfbeg() { second := divr.Sbackc(); }
    assert c == FromTop(s, 0) && second == FromTop(s, 1);
    c := c * 100 + second;
    if magic {
      var third := 0;
      if !divr.Sfbeg() { third := divr.Sbackc(); }
      assert third == FromTop(s, 2);
      c := (c * 100 + third) * 2;
      c := c / 25;
    }
  }

  method EstimateDigit(divd: Blk, c: int, magic: bool, offset: nat, ghost divr: seq<int>, ghost e: int)
    returns (dig: int, under: bool)
    requires Divisible(divr) && (c, magic) == Divisor(Top3(divr))
    requires Loose(divd.d) && |divd.d| == offset + |divr| + 1
    requires e == Val(divr) * Pow(offset) && Val(divd.d) < 117 * e
    modifies divd`rd
    ensures 0 <= dig <= 117 && Within(Val(divd.d) - e * dig, e, offset == 0, under)
    ensures Val(divd.d) - e * dig < 0 ==> dig >= 1
  {
    ghost var s := divd.d;
    DigitIsGood(s, divr, offset, e);
    divd.Fsfile();
    var td := divd.Sbackc();
    td := td * 100;
    var dd := 0;
    if !divd.Sfbeg() { dd := divd.Sbackc(); }
    assert td + dd == FromTop(s, 0) * 100 + FromTop(s, 1);
    td := (td + dd) * 100;
    dd := 0;
    if !divd.Sfbeg() { dd := divd.Sbackc(); }
    td := td + dd;
    assert td == Top3(s);
    var cc := c;
    if offset == 0 {
      td := td + 1;
    } else {
      cc := cc + 1;
    }
    if magic {
      td := td * 8;
    }
    dig := td / cc;
    under := false;
    if td % cc < 8 && dig > 0 && magic {
      dig := dig - 1;
      under := true;
    }
    LooseNonnegative(s);
    GoodRemainder(Val(s), e, offset == 0, dig, under);
  }

  lemma LooseNonnegative(s: seq<int>)
    requires Loose(s)
    ensures Val(s) >= 0
  {
    TopBound(s);
    MulLe(Pow(|s| - 1), 0, s[|s| - 1]);
  }

  // ----- multiply and subtract

  /** divxyz := divr * dig, whose top byte may exceed 99 but stays within a char. */
  method ScaleDivisor(divr: Blk, dig: int, divxyz: Blk)
    requires divr != divxyz && Digits(divr.d) && 0 <= dig <= 117
    modifies divr`rd, divxyz
    ensures |divxyz.d| > |divr.d|
    ensures Val(divxyz.d[..|divr.d| + 1]) == Val(divr.d) * dig
    ensures Digits(divxyz.d[..|divr.d|]) && 0 <= divxyz.d[|divr.d|] <= dig
  {
    divr.Rewind();
    divxyz.Rewind();
    var carry := 0;
    while !divr.Sfeof()
      invariant divr.rd == divxyz.rd <= |divr.d| && divxyz.rd <= |divxyz.d|
      invariant 0 <= carry <= dig
      invariant Digits(divxyz.d[..divr.rd])
      invariant Val(divxyz.d[..divr.rd]) + Pow(divr.rd) * carry == Val(divr.d[..divr.rd]) * dig
      decreases |divr.d| - divr.rd
    {
      ghost var i, before, c := divr.rd, divxyz.d, carry;
      var x := divr.Sgetc();
      MulLe(dig, x, 99);
      MulLe(dig, 0, x);
      var d := x * dig + carry;
      carry := d / 100;
      divxyz.Salterc(d % 100);
      assert divxyz.d[..i + 1] == before[..i] + [d % 100];
      ValSnoc(before[..i], d % 100);
      ValTake(divr.d, i);
      ScaleStep(Pow(i), x, dig, c, d, Val(divr.d[..i]));
    }
    ghost var i, before := divr.rd, divxyz.d;
    divxyz.Salterc(carry);
    assert divxyz.d[..i + 1] == before[..i] + [carry];
    assert divxyz.d[..i] == before[..i];
    ValSnoc(before[..i], carry);
    assert divr.d[..i] == divr.d;
  }

  lemma ScaleStep(p: int, x: int, dig: int, c: int, d: int, v: int)
    requires d == x * dig + c
    ensures p * (d % 100) + 100 * p * (d / 100) == p * x * dig + p * c
    ensures (v + p * x) * dig == v * dig + p * x * dig
  {
    CarryOut(p, d, x * dig, c, 0);
    Assoc(p, x, dig);
  }

  predicate DigitRange(s: seq<int>, top: int) {
    forall i :: 0 <= i < |s| ==> 0 <= s[i] < top
  }

  /** The low n digits of w - xs, with the borrow out of them. */
  ghost function Diff(w: seq<int>, xs: seq<int>, n: nat): (r: (seq<int>, int))
    requires n <= |w| && n <= |xs|
    ensures |r.0| == n && (r.1 == 0 || r.1 == 1)
  {
    if n == 0 then ([], 0)
    else
      var r := Diff(w, xs, n - 1);
      var d := w[n - 1] - xs[n - 1] - r.1;
      if d < 0 then (r.0 + [d + 100], 1) else (r.0 + [d], 0)
  }

  lemma DiffStep(w: seq<int>, xs: seq<int>, k: nat, d: int, carry: int)
    requires k < |w| && k < |xs| && (carry == 0 || carry == 1)
    requires d == w[k] - xs[k] - Diff(w, xs, k).1 + 100 * carry
    requires (carry == 1 <==> w[k] - xs[k] - Diff(w, xs, k).1 < 0)
    ensures Diff(w, xs, k + 1).1 == carry && Diff(w, xs, k + 1).0 == Diff(w, xs, k).0 + [d]
  {
  }

  lemma SpreadDigit(p: int, a: int, b: int, c: int, d: int)
    ensures p * (a - b - c + 100 * d) == p * a - p * b - p * c + 100 * p * d
  {
    assert p * (100 * d) == 100 * p * d;
  }

  lemma {:induction false} DiffVal(w: seq<int>, xs: seq<int>, n: nat)
    requires n <= |w| && n <= |xs|
    ensures Val(Diff(w, xs, n).0) == Val(w[..n]) - Val(xs[..n]) + Pow(n) * Diff(w, xs, n).1
  {
    if n > 0 {
      var p, r, r' := Pow(n - 1), Diff(w, xs, n - 1), Diff(w, xs, n);
      var x := w[n - 1] - xs[n - 1] - r.1 + 100 * r'.1;
      assert r'.0 == r.0 + [x];
      ValSnoc(r.0, x);
      SpreadDigit(p, w[n - 1], xs[n - 1], r.1, r'.1);
      DiffVal(w, xs, n - 1);
      ValTake(w, n - 1);
      ValTake(xs, n - 1);
    }
  }

  lemma {:induction false} DiffDigits(w: seq<int>, xs: seq<int>, n: nat)
    requires n <= |w| && n <= |xs| && Digits(w[..n]) && Digits(xs[..n])
    ensures Digits(Diff(w, xs, n).0)
  {
    if n > 0 {
      assert w[..n][n - 1] == w[n - 1] && xs[..n][n - 1] == xs[n - 1];
      assert w[..n][..n - 1] == w[..n - 1] && xs[..n][..n - 1] == xs[..n - 1];
      DiffDigits(w, xs, n - 1);
    }
  }

  /** Subtract divxyz from the window of divd that starts at offset and runs to its end. */
  method SubtractAt(divd: Blk, divxyz: Blk, offset: nat) returns (carry: int)
    requires divd != divxyz && offset <= |divd.d| && |divd.d| - offset <= |divxyz.d|
    requires DigitRange(divd.d, 117) && DigitRange(divxyz.d[..|divd.d| - offset], 118)
    modifies divd, divxyz`rd
    ensures var w := old(divd.d)[offset..];
            (divd.d, carry) == (old(divd.d)[..offset] + Diff(w, divxyz.d, |w|).0, Diff(w, divxyz.d, |w|).1)
  {
    ghost var s, xs := divd.d, divxyz.d;
    divxyz.Rewind();
    divd.Seekc(offset);
    carry := 0;
    while !divd.Sfeof()
      invariant offset <= divd.rd <= |divd.d| == |s| && divxyz.rd == divd.rd - offset && divxyz.d == xs
      invariant Subtracted(divd.d, s, xs, offset, divd.rd, carry)
      decreases |divd.d| - divd.rd
    {
      ghost var i, before, c := divd.rd, divd.d, carry;
      SubtractPass(before, s, xs, offset, i, c);
      var d := divd.Slookc();
      var x := 0;
      if !divxyz.Sfeof() { x := divxyz.Sgetc(); }
      d := d - x - carry;
      carry := 0;
      if d < 0 {
        d := d + 100;
        carry := 1;
      }
      divd.Salterc(d);
    }
    assert divd.d[..|s|] == divd.d;
  }

  /** now is s with the bytes from offset up to i reduced by those of xs. */
  ghost predicate Subtracted(now: seq<int>, s: seq<int>, xs: seq<int>, offset: nat, i: nat, carry: int)
    requires offset <= i <= |now| == |s| && |s| - offset <= |xs|
  {
    && now[i..] == s[i..] && carry == Diff(s[offset..], xs, i - offset).1
    && now[..i] == s[..offset] + Diff(s[offset..], xs, i - offset).0
  }

  lemma SubtractPass(now: seq<int>, s: seq<int>, xs: seq<int>, offset: nat, i: nat, carry: int)
    requires offset <= i < |now| == |s| && |s| - offset <= |xs| && Subtracted(now, s, xs, offset, i, carry)
    requires DigitRange(s, 117) && DigitRange(xs[..|s| - offset], 118)
    ensures now[i] == s[i] && 0 <= s[i] < 117 && 0 <= xs[i - offset] < 118 && (carry == 0 || carry == 1)
    ensures var d := s[i] - xs[i - offset] - carry;
            Subtracted(now[i := if d < 0 then d + 100 else d], s, xs, offset, i + 1, if d < 0 then 1 else 0)
  {
    var k := i - offset;
    var d := s[i] - xs[k] - carry;
    var x, carry' := if d < 0 then d + 100 else d, if d < 0 then 1 else 0;
    PassAt(now, s, i);
    PassStep(now, s, i, x);
    assert s[offset..][k] == s[i] && xs[..|s| - offset][k] == xs[k];
    DiffStep(s[offset..], xs, k, x, carry');
  }

  // ----- one quotient digit

  predicate Divisible(divr: seq<int>) {
    divr != [] && Digits(divr) && divr[|divr| - 1] != 0
  }

  lemma DivisorBounds(divr: seq<int>)
    requires Divisible(divr)
    ensures Pow(|divr| - 1) <= Val(divr) < Pow(|divr|) && 10000 <= Top3(divr)
  {
    DigitsBound(divr);
    TopBound(divr);
    MulLe(Pow(|divr| - 1), 1, divr[|divr| - 1]);
  }

  /** Quotient bytes before the final carry pass. */
  predicate RawQuotient(p: seq<int>) {
    forall i :: 0 <= i < |p| ==> 0 <= p[i] <= 118
  }

  /** The dividend n is what divd still holds plus what the digits of p above offset account for. */
  ghost predicate Running(divd: seq<int>, p: seq<int>, divr: seq<int>, n: int, offset: nat) {
    && Loose(divd) && |divd| == offset + |divr| + 1 && offset < |p|
    && RawQuotient(p[offset + 1..])
    && Val(divd) < 117 * (Val(divr) * Pow(offset))
    && n == Val(divd) + Val(divr) * (Pow(offset + 1) * Val(p[offset + 1..]))
  }

  /**
    After the last digit: the true remainder w is off by at most one divisor, and
    divd holds it modulo 100^|divd| with the borrow in carry.
   */
  ghost predicate Finished(divd: seq<int>, p: seq<int>, divr: seq<int>, n: int, under: bool, carry: int) {
    && |divd| == |divr| + 1 && Digits(divd) && p != [] && RawQuotient(p) && p[0] <= 117
    && var w := n - Val(divr) * Val(p);
    && (if under then 0 <= w < 2 * Val(divr) else -Val(divr) <= w < Val(divr))
    && (if w >= 0 then carry == 0 && Val(divd) == w
        else carry == 1 && divd[|divr|] == 99 && Val(divd[..|divr|] + [-1]) == w && p[0] >= 1)
  }

  /** The digits read off the blocks give a good digit. */
  lemma DigitIsGood(divd: seq<int>, divr: seq<int>, offset: nat, e: int)
    requires Divisible(divr) && Loose(divd) && |divd| == offset + |divr| + 1
    requires e == Val(divr) * Pow(offset) && Val(divd) < 117 * e
    ensures 10000 <= Top3(divr)
    ensures var est := Estimate(Top3(divd), Top3(divr), offset == 0);
            GoodDigit(Val(divd), e, offset == 0, est.0, est.1)
  {
    DivisorBounds(divr);
    UnitBounds(divd, divr, offset, e, Pow(offset + |divr| - 1));
    GoodFromBounds(Pow(offset + |divr| - 1), Top3(divr), Top3(divd), e, Val(divd), offset == 0);
  }

  lemma GoodFromBounds(z: int, d3: int, td: int, e: int, v: int, last: bool)
    requires 1 <= z && 10000 <= d3 && 0 <= td && v < 117 * e
    requires z * d3 <= 10000 * e < z * (d3 + 1) && 100 * z * td <= 10000 * v < 100 * z * (td + 1)
    ensures var est := Estimate(td, d3, last); GoodDigit(v, e, last, est.0, est.1)
  {
    EstimateBounds(z, d3, td, 10000 * e, 10000 * v, last);
    var est := Estimate(td, d3, last);
    Unscale(v, e, last, est.0, est.1);
  }

  lemma UnitBounds(divd: seq<int>, divr: seq<int>, offset: nat, e: int, z: int)
    requires Divisible(divr) && Loose(divd) && |divd| == offset + |divr| + 1
    requires e == Val(divr) * Pow(offset) && z == Pow(offset + |divr| - 1)
    ensures z * Top3(divr) <= 10000 * e < z * (Top3(divr) + 1)
    ensures 100 * z * Top3(divd) <= 10000 * Val(divd) < 100 * z * (Top3(divd) + 1)
  {
    PowAdd(offset, |divr| - 1);
    Top3Bounds(divr);
    ScaleBounds(Pow(offset), Pow(|divr| - 1), Top3(divr), Val(divr));
    Top3Bounds(divd);
    assert Pow(|divd| - 1) == 100 * z;
  }

  lemma ScaleBounds(po: int, pl: int, t: int, v: int)
    requires 1 <= po && pl * t <= 10000 * v < pl * (t + 1)
    ensures po * pl * t <= 10000 * (v * po) < po * pl * (t + 1)
  {
    MulLe(po, pl * t, 10000 * v);
    MulLt(po, 10000 * v, pl * (t + 1));
    Assoc(po, pl, t);
    Assoc(po, pl, t + 1);
    Assoc(10000, v, po);
  }

  /** The shape and value of divd after the subtraction. */
  lemma SubtractShape(s: seq<int>, xs: seq<int>, l: nat, offset: nat)
    requires Loose(s) && |s| == offset + l + 1 && |xs| > l && Digits(xs[..l])
    ensures var diff := Diff(s[offset..], xs, l + 1);
            var r := s[..offset] + diff.0;
            && |r| == |s| && Digits(r[..offset + l])
            && Val(r) == Val(s) - Pow(offset) * Val(xs[..l + 1]) + Pow(|s|) * diff.1
            && (diff.1 == 1 <==> r[offset + l] - 100 * diff.1 < 0)
  {
    var win, m := s[offset..], |s| - 1;
    var diff := Diff(win, xs, l + 1);
    var r := s[..offset] + diff.0;
    assert win[..l] == s[..m][offset..];
    DiffDigits(win, xs, l);
    assert diff.0[..l] == Diff(win, xs, l).0;
    assert r[..m] == s[..offset] + diff.0[..l];
    assert s[..offset] == s[..m][..offset];
    DiffVal(win, xs, l + 1);
    assert win[..l + 1] == win;
    ValSplit(s, offset);
    ValConcat(s[..offset], diff.0);
    PowAdd(offset, l + 1);
    SubtractScaled(Pow(offset), Val(win), Val(xs[..l + 1]), Pow(l + 1), diff.1, Val(diff.0));
  }

  lemma SubtractScaled(po: int, w: int, x: int, pl: int, carry: int, diff: int)
    requires diff == w - x + pl * carry
    ensures po * diff == po * w - po * x + po * pl * carry
  {
    Assoc(po, pl, carry);
    assert po * diff == po * w - po * x + po * (pl * carry);
  }

  /** The borrow and the top byte tell the sign of the remainder w that r stands for. */
  lemma SubtractTop(r: seq<int>, m: nat, carry: int, w: int)
    requires |r| == m + 1 && Digits(r[..m]) && (carry == 0 || carry == 1)
    requires carry == 1 <==> r[m] - 100 * carry < 0
    requires Val(r) == w + Pow(m + 1) * carry
    ensures w >= 0 ==> carry == 0 && r[m] >= 0 && Val(r) == w
    ensures -Pow(m) <= w < 0 ==> carry == 1 && r[m] == 99 && Val(r[..m] + [-1]) == w
  {
    ValTop(r);
    DigitsBound(r[..m]);
    ValSnoc(r[..m], -1);
    var raw := r[m] - 100 * carry;
    assert Pow(m) * r[m] == Pow(m) * raw + Pow(m) * (100 * carry);
    TopByte(Pow(m), raw, Val(r[..m]), w);
  }

  lemma TopByte(p: int, raw: int, low: int, w: int)
    requires 1 <= p && 0 <= low < p && w == low + p * raw
    ensures w >= 0 ==> raw >= 0
    ensures -p <= w < 0 ==> raw == -1
  {
    if raw >= 0 {
      MulLe(p, 0, raw);
    } else if raw <= -2 {
      MulLe(p, raw, -2);
    }
  }

  ghost function Folded(r: seq<int>): seq<int>
    requires |r| >= 2
  {
    var m := |r| - 1;
    if r[m] != 0 then r[..m - 1] + [r[m - 1] + 100] else r[..m]
  }

  /** Folding a top 1 into the byte below it keeps the value and the byte within a char. */
  lemma Fold(r: seq<int>, e: int)
    requires |r| >= 2 && Digits(r[..|r| - 1]) && r[|r| - 1] >= 0
    requires Val(r) < 117 * e && e <= Pow(|r| - 2)
    ensures Loose(Folded(r)) && Val(Folded(r)) == Val(r)
  {
    var m := |r| - 1;
    TopTwo(r, m);
    FoldParts(r[..m - 1], r[m - 1], r[m], e, r[..m], r);
  }

  lemma TopTwo(r: seq<int>, m: nat)
    requires |r| == m + 1 >= 2 && Digits(r[..m])
    ensures r[..m] == r[..m - 1] + [r[m - 1]] && r == r[..m] + [r[m]]
    ensures Digits(r[..m - 1]) && 0 <= r[m - 1] < 100
  {
    assert r[..m][m - 1] == r[m - 1] && r[..m - 1] == r[..m][..m - 1];
  }

  lemma FoldParts(low: seq<int>, x: int, top: int, e: int, mid: seq<int>, r: seq<int>)
    requires Digits(low) && 0 <= x < 100 && 0 <= top && e <= Pow(|low|)
    requires mid == low + [x] && r == mid + [top] && Val(r) < 117 * e
    ensures Loose(Folded(r)) && Val(Folded(r)) == Val(r)
  {
    var p := Pow(|low|);
    ValSnoc(mid, top);
    ValSnoc(low, x);
    PowTwice(|low|);
    assert mid[..|low|] == low && r[..|low|] == low && r[..|mid|] == mid;
    if top != 0 {
      var f := low + [x + 100];
      assert Folded(r) == f && f[..|low|] == low;
      DigitsBound(low);
      ValSnoc(low, x + 100);
      TopIsOne(p, top, x, Val(low), Val(r));
    }
  }

  lemma TopIsOne(p: int, top: int, x: int, low: int, v: int)
    requires 1 <= p && top >= 1 && 0 <= x && 0 <= low && v == low + p * x + 100 * p * top && v < 117 * p
    ensures top == 1 && x + 100 < 117 && v == low + p * (x + 100)
  {
    MulLe(p, 0, x);
    if top >= 2 {
      MulLe(100 * p, 2, top);
    }
    Cancel(x + 100, 117, p);
  }

  /** divd represents w: as it stands, or with a borrow out of its top byte. */
  ghost predicate Represents(r: seq<int>, carry: int, w: int) {
    && r != [] && var m := |r| - 1;
    && Digits(r[..m])
    && (w >= 0 ==> carry == 0 && r[m] >= 0 && Val(r) == w)
    && (w < 0 ==> carry == 1 && r[m] == 99 && Val(r[..m] + [-1]) == w)
  }

  lemma SubtractRepresents(s: seq<int>, xs: seq<int>, l: nat, offset: nat, w: int)
    requires Loose(s) && |s| == offset + l + 1 && |xs| > l && Digits(xs[..l])
    requires w == Val(s) - Pow(offset) * Val(xs[..l + 1]) && -Pow(offset + l) <= w
    ensures var diff := Diff(s[offset..], xs, l + 1);
            Represents(s[..offset] + diff.0, diff.1, w)
  {
    SubtractShape(s, xs, l, offset);
    var diff := Diff(s[offset..], xs, l + 1);
    SubtractTop(s[..offset] + diff.0, offset + l, diff.1, w);
  }

  lemma ScaledTimes(po: int, d: int, dig: int, e: int, x: int)
    requires x == d * dig && e == d * po
    ensures po * x == e * dig
  {
    Assoc(po, d, dig);
    assert po * d == d * po;
  }

  lemma ShiftedBelow(divr: seq<int>, offset: nat)
    requires Divisible(divr)
    ensures 1 <= Val(divr) * Pow(offset) < Pow(|divr| + offset)
  {
    DivisorBounds(divr);
    PowAdd(|divr|, offset);
    MulLt(Pow(offset), Val(divr), Pow(|divr|));
    MulLe(Pow(offset), 1, Val(divr));
  }

  /**
    Estimate one quotient digit and subtract that many divisors, leaving in divd
    the remainder w = v - e * dig, where e is the divisor shifted by offset.
   */
  method QuotientDigit(divd: Blk, divr: Blk, divxyz: Blk, offset: nat, c: int, magic: bool, ghost e: int)
    returns (dig: int, under: bool, carry: int, ghost w: int)
    requires divd != divr && divd != divxyz && divr != divxyz
    requires Divisible(divr.d) && (c, magic) == Divisor(Top3(divr.d))
    requires Loose(divd.d) && |divd.d| == offset + |divr.d| + 1
    requires e == Val(divr.d) * Pow(offset) && Val(divd.d) < 117 * e
    modifies divd, divr`rd, divxyz
    ensures |divd.d| == |old(divd.d)| && 0 <= dig <= 117
    ensures w == Val(old(divd.d)) - e * dig && (w < 0 ==> dig >= 1)
    ensures Within(w, e, offset == 0, under) && Represents(divd.d, carry, w)
  {
    ghost var s, l := divd.d, |divr.d|;
    dig, under := EstimateDigit(divd, c, magic, offset, divr.d, e);
    w := Val(s) - e * dig;
    ScaleDivisor(divr, dig, divxyz);
    assert DigitRange(s, 117) && DigitRange(divxyz.d[..l + 1], 118) by {
      assert s == s[..|s| - 1] + [s[|s| - 1]];
      assert divxyz.d[..l + 1] == divxyz.d[..l] + [divxyz.d[l]];
    }
    ScaledTimes(Pow(offset), Val(divr.d), dig, e, Val(divxyz.d[..l + 1]));
    ShiftedBelow(divr.d, offset);
    SubtractRepresents(s, divxyz.d, l, offset, w);
    carry := SubtractAt(divd, divxyz, offset);
  }

  lemma Accumulate(n: int, v: int, w: int, d: int, e: int, po: int, dig: int, q: int)
    requires e == d * po && w == v - e * dig && n == v + d * (100 * po * q)
    ensures n == w + d * (po * (dig + 100 * q))
  {
    assert po * (dig + 100 * q) == po * dig + 100 * po * q;
    assert d * (po * dig + 100 * po * q) == d * (po * dig) + d * (100 * po * q);
    Assoc(d, po, dig);
  }

  /** A digit before the last leaves a dividend that is again short enough for the next. */
  lemma NextDividend(r: seq<int>, carry: int, w: int, divr: seq<int>, offset: nat, e: int)
    requires Divisible(divr) && offset > 0 && |r| == offset + |divr| + 1
    requires e == Val(divr) * Pow(offset) && Within(w, e, false, false) && Represents(r, carry, w)
    ensures var f := Folded(r);
            Loose(f) && Val(f) == w < 117 * (Val(divr) * Pow(offset - 1))
  {
    var e' := Val(divr) * Pow(offset - 1);
    assert e == 100 * e' by { Assoc(100, Val(divr), Pow(offset - 1)); }
    ShiftedBelow(divr, offset - 1);
    Fold(r, e');
  }

  /** The last digit leaves a remainder within one divisor of the true one. */
  lemma LastRemainder(r: seq<int>, carry: int, w: int, divr: seq<int>, p: seq<int>, under: bool, n: int)
    requires Divisible(divr) && |r| == |divr| + 1 && p != [] && RawQuotient(p) && p[0] <= 117
    requires Within(w, Val(divr), true, under) && Represents(r, carry, w) && (w < 0 ==> p[0] >= 1)
    requires n == w + Val(divr) * Val(p)
    ensures Finished(r, p, divr, n, under, carry)
  {
    DivisorBounds(divr);
    if w >= 0 {
      TopBound(r);
      SmallTop(Pow(|divr|), r[|divr|], w, Val(divr));
    }
    assert r == r[..|divr|] + [r[|divr|]];
  }

  lemma SmallTop(p: int, top: int, w: int, d: int)
    requires 1 <= p && 0 <= top && p * top <= w < 2 * d && d < p
    ensures top < 100
  {
    if top >= 2 {
      MulLe(p, 2, top);
    }
  }

  /** Absorb a top 1 of divd into the byte below it and drop the top byte, except at the last digit. */
  method DropTop(divd: Blk, offset: nat)
    requires |divd.d| >= 2 && (offset > 0 && divd.d[|divd.d| - 1] != 0 ==> IsChar(divd.d[|divd.d| - 2] + 100))
    modifies divd
    ensures divd.d == if offset > 0 then Folded(old(divd.d)) else old(divd.d)
    ensures offset == 0 ==> divd.rd == |divd.d| - 1
  {
    divd.Fsfile();
    var d := divd.Sbackc();
    if d != 0 && offset != 0 {
      d := divd.Sbackc();
      divd.Salterc(d + 100);
    }
    if offset - 1 >= 0 {
      divd.d := divd.d[..|divd.d| - 1];
    }
  }

  /** Putting the digit into p accounts for the part of the dividend that was subtracted. */
  lemma StoreDigit(n: int, v: int, w: int, divr: seq<int>, p: seq<int>, offset: nat, e: int, dig: int)
    requires offset < |p| && e == Val(divr) * Pow(offset) && w == v - e * dig
    requires n == v + Val(divr) * (Pow(offset + 1) * Val(p[offset + 1..]))
    ensures n == w + Val(divr) * (Pow(offset) * Val(p[offset := dig][offset..]))
    ensures RawQuotient(p[offset + 1..]) && 0 <= dig <= 118 ==> RawQuotient(p[offset := dig][offset..])
  {
    var q := p[offset + 1..];
    assert p[offset := dig][offset..] == [dig] + q && ([dig] + q)[1..] == q;
    Accumulate(n, v, w, Val(divr), e, Pow(offset), dig, Val(q));
  }

  /** One turn of the division loop. */
  method DivStep(divd: Blk, divr: Blk, divxyz: Blk, p: Blk, offset: nat, c: int, magic: bool, ghost n: int)
    returns (dig: int, under: bool, carry: int)
    requires p != divd && p != divr && p != divxyz && divd != divr && divd != divxyz && divr != divxyz
    requires Divisible(divr.d) && (c, magic) == Divisor(Top3(divr.d))
    requires Running(divd.d, p.d, divr.d, n, offset) && p.rd == offset + 1
    modifies divd, divr`rd, divxyz, p
    ensures p.rd == offset && |p.d| == |old(p.d)|
    ensures offset > 0 ==> Running(divd.d, p.d, divr.d, n, offset - 1)
    ensures offset == 0 ==> Finished(divd.d, p.d, divr.d, n, under, carry) && p.d[0] == dig && divd.rd == |divr.d|
  {
    ghost var v, e, q := Val(divd.d), Val(divr.d) * Pow(offset), p.d;
    ghost var w: int;
    dig, under, carry, w := QuotientDigit(divd, divr, divxyz, offset, c, magic, e);
    p.Backc();
    p.Salterc(dig);
    p.Backc();
    StoreDigit(n, v, w, divr.d, q, offset, e, dig);
    if offset > 0 {
      StepRunning(n, w, divr.d, p.d, offset, e, divd.d, carry);
    } else {
      StepFinished(n, w, divr.d, p.d, divd.d, carry, under);
    }
    DropTop(divd, offset);
  }

  lemma StepFinished(n: int, w: int, divr: seq<int>, q: seq<int>, r: seq<int>, carry: int, under: bool)
    requires Divisible(divr) && q != [] && |r| == |divr| + 1 && RawQuotient(q[0..]) && q[0] <= 117
    requires Within(w, Val(divr) * Pow(0), true, under) && Represents(r, carry, w) && (w < 0 ==> q[0] >= 1)
    requires n == w + Val(divr) * (Pow(0) * Val(q[0..]))
    ensures Finished(r, q, divr, n, under, carry)
  {
    assert q[0..] == q;
    OnceOver(Val(divr), Val(q));
    LastRemainder(r, carry, w, divr, q, under, n);
  }

  lemma OnceOver(d: int, q: int)
    ensures d * Pow(0) == d && d * (Pow(0) * q) == d * q
  {
  }

  lemma StepRunning(n: int, w: int, divr: seq<int>, q: seq<int>, offset: nat, e: int, r: seq<int>, carry: int)
    requires Divisible(divr) && 0 < offset < |q| && |r| == offset + |divr| + 1 && RawQuotient(q[offset..])
    requires e == Val(divr) * Pow(offset) && Within(w, e, false, false) && Represents(r, carry, w)
    requires n == w + Val(divr) * (Pow(offset) * Val(q[offset..]))
    ensures Running(Folded(r), q, divr, n, offset - 1)
    ensures r[|r| - 1] != 0 ==> IsChar(r[|r| - 2] + 100)
  {
    NextDividend(r, carry, w, divr, offset, e);
  }

  // ----- the fix-ups after the loop

  /** With the last digit corrected, n == divr * p + divd and 0 <= divd < divr. */
  ghost predicate Settled(divd: seq<int>, p: seq<int>, divr: seq<int>, n: int) {
    WellFormed(divd) && RawQuotient(p) && n == Val(divr) * Val(p) + Val(divd) && 0 <= Val(divd) < Val(divr)
  }

  lemma BumpDigit(p: seq<int>, x: int)
    requires p != []
    ensures Val(p[0 := x]) == Val(p) - p[0] + x
  {
    assert p[0 := x][1..] == p[1..];
  }

  method FixLast(divd: Blk, p: Blk, divr: Blk, dig: int, under: bool, carry: int, ghost n: int) returns (r: Blk)
    requires p != divd && p != divr && divd != divr
    requires Divisible(divr.d) && Finished(divd.d, p.d, divr.d, n, under, carry)
    requires p.d[0] == dig && p.rd == 0 && divd.rd == |divr.d|
    modifies divd, divr`rd, p
    ensures r == divd || fresh(r)
    ensures Settled(r.d, p.d, divr.d, n)
  {
    ghost var d, s := Val(divr.d), p.d;
    r := divd;
    if under {
      var px := new Blk(divr.d);
      Chsign(px);
      var ps := Add(px, divd);
      NormalSign(ps.d);
      ps.Fsfile();
      var top := 0;
      if |ps.d| > 0 { top := ps.Sbackc(); }
      if !(|ps.d| > 0 && top < 0) {
        BumpDigit(s, dig + 1);
        DistributeRight(d, Val(s), 1);
        p.Salterc(dig + 1);
        r := ps;
      }
    }
    if carry != 0 {
      BumpDigit(s, dig - 1);
      DistributeRight(d, Val(s), -1);
      p.Salterc(dig - 1);
      assert divd.d[..|divr.d|] + [-1] == divd.d[|divr.d| := -1];
      divd.Salterc(-1);
      r := Add(divr, divd);
    }
  }

  ghost function Carried(p: seq<int>): (r: (seq<int>, int))
    ensures |r.0| == |p| && (r.1 == 0 || r.1 == 1)
    ensures RawQuotient(p) ==> Digits(r.0)
  {
    if p == [] then ([], 0)
    else
      var r := Carried(p[..|p| - 1]);
      var d := p[|p| - 1] + r.1;
      if d >= 100 then (r.0 + [d - 100], 1) else (r.0 + [d], 0)
  }

  lemma CarriedSnoc(t: seq<int>, x: int)
    ensures var (c, carry) := Carried(t);
            Carried(t + [x]) == if x + carry >= 100 then (c + [x + carry - 100], 1) else (c + [x + carry], 0)
  {
    assert (t + [x])[..|t|] == t;
  }

  lemma {:induction false} CarriedVal(p: seq<int>)
    ensures Val(Carried(p).0) + Pow(|p|) * Carried(p).1 == Val(p)
  {
    if p != [] {
      var n := |p| - 1;
      var r, r' := Carried(p[..n]), Carried(p);
      var x := p[n] + r.1 - 100 * r'.1;
      assert r'.0 == r.0 + [x];
      ValSnoc(r.0, x);
      Distribute(Pow(n), x, p[n], 0, r.1, r'.1);
      CarriedVal(p[..n]);
      ValTop(p);
    }
  }

  method CarryLoop(p: Blk) returns (carry: int)
    requires RawQuotient(p.d)
    modifies p
    ensures (p.d, carry) == Carried(old(p.d)) && p.rd == |p.d|
  {
    ghost var s := p.d;
    p.Rewind();
    carry := 0;
    while !p.Sfeof()
      invariant p.rd <= |p.d| == |s|
      invariant p.d[p.rd..] == s[p.rd..]
      invariant (p.d[..p.rd], carry) == Carried(s[..p.rd])
      decreases |p.d| - p.rd
    {
      ghost var i, before := p.rd, p.d;
      CarriedPass(before, s, i, carry);
      var d := p.Slookc() + carry;
      carry := 0;
      if d >= 100 {
        d := d - 100;
        carry := 1;
      }
      p.Salterc(d);
    }
    assert s[..|s|] == s && p.d[..|s|] == p.d;
  }

  /** One byte of the pass that carries in place. */
  lemma CarriedPass(now: seq<int>, s: seq<int>, i: nat, carry: int)
    requires i < |now| == |s| && now[i..] == s[i..] && (now[..i], carry) == Carried(s[..i]) && RawQuotient(s)
    ensures now[i] == s[i] && 0 <= s[i] <= 118 && (carry == 0 || carry == 1)
    ensures var d := s[i] + carry;
            var x, carry' := if d >= 100 then d - 100 else d, if d >= 100 then 1 else 0;
            && (now[i := x][..i + 1], carry') == Carried(s[..i + 1]) && now[i := x][i + 1..] == s[i + 1..]
  {
    var d := s[i] + carry;
    PassAt(now, s, i);
    PassStep(now, s, i, if d >= 100 then d - 100 else d);
    CarriedSnoc(s[..i], s[i]);
  }

  /** The carry pass over the quotient: bytes above 99 become ordinary digits. */
  method CarryPass(p: Blk)
    requires RawQuotient(p.d)
    modifies p
    ensures Digits(p.d) && Val(p.d) == Val(old(p.d))
  {
    CarriedVal(p.d);
    var divcarry := CarryLoop(p);
    if divcarry != 0 {
      ValSnoc(p.d, divcarry);
      p.Salterc(divcarry);
    }
  }


  /** The zero-stripping loop that ends `div`. */
  method StripZeros(p: Blk)
    modifies p
    ensures p.d == TrimZeros(old(p.d)) && p.rd <= |p.d|
  {
    p.Fsfile();
    while !p.Sfbeg()
      invariant p.rd == |p.d| && TrimZeros(p.d) == TrimZeros(old(p.d))
      decreases p.rd
    {
      var c := p.Sbackc();
      if c != 0 {
        break;
      }
      p.Truncate();
    }
  }

  // ----- the whole division

  /** Truncated division: q and r for dividend n and divisor d. */
  ghost predicate Divides(n: int, d: int, q: int, r: int) {
    && n == q * d + r
    && (-d < r < d || d < r < -d)
    && (r == 0 || (r < 0 <==> n < 0))
  }

  /** The digit loop, on a nonnegative dividend with its extra top zero already in place. */
  method DivLoop(divd: Blk, divr: Blk, divxyz: Blk, p: Blk) returns (r: Blk)
    requires p != divd && p != divr && p != divxyz && divd != divr && divd != divxyz && divr != divxyz
    requires Digits(divd.d) && Divisible(divr.d) && |divd.d| > |divr.d| && divd.d[|divd.d| - 1] == 0
    requires |p.d| == p.rd == |divd.d| - |divr.d|
    modifies divd, divr`rd, divxyz, p
    ensures r == divd || fresh(r)
    ensures Settled(r.d, p.d, divr.d, Val(old(divd.d)))
  {
    ghost var n := Val(divd.d);
    var c, magic := DivisorScale(divr);
    var offset := |divd.d| - |divr.d| - 1;
    var dig, under, divcarry := 0, false, 0;
    FirstDividend(divd.d, divr.d, p.d, offset);
    while offset >= 0
      invariant -1 <= offset < |p.d|
      invariant p.rd == if offset >= 0 then offset + 1 else 0
      invariant offset >= 0 ==> Running(divd.d, p.d, divr.d, n, offset)
      invariant offset < 0 ==> Finished(divd.d, p.d, divr.d, n, under, divcarry) && p.d[0] == dig && divd.rd == |divr.d|
    {
      dig, under, divcarry := DivStep(divd, divr, divxyz, p, offset, c, magic, n);
      offset := offset - 1;
    }
    r := FixLast(divd, p, divr, dig, under, divcarry, n);
  }

  lemma FirstDividend(divd: seq<int>, divr: seq<int>, p: seq<int>, offset: nat)
    requires Digits(divd) && Divisible(divr) && |p| == offset + 1
    requires |divd| == offset + |divr| + 1 && divd[|divd| - 1] == 0
    ensures Running(divd, p, divr, Val(divd), offset)
  {
    var m := |divd| - 1;
    ValTop(divd);
    DigitsBound(divd[..m]);
    DivisorBounds(divr);
    FewDivisors(Val(divd), Val(divr), Pow(|divr| - 1), Pow(offset), |divr| - 1, offset);
    assert p[offset + 1..] == [];
  }

  lemma FewDivisors(v: int, d: int, pl: int, po: int, l: nat, offset: nat)
    requires pl == Pow(l) && po == Pow(offset) && pl <= d && v < Pow(l + 1 + offset)
    ensures v < 117 * (d * po)
  {
    PowAdd(l, offset);
    MulLe(po, pl, d);
    assert Pow(l + 1 + offset) == 100 * (pl * po);
    assert d * po >= 1;
  }

  lemma ShorterIsLess(divd: seq<int>, divr: seq<int>)
    requires Digits(divd) && Divisible(divr) && |divd| < |divr|
    ensures Val(divd) < Val(divr)
  {
    DigitsBound(divd);
    DivisorBounds(divr);
    PowMono(|divd|, |divr| - 1);
  }

  /** The division of nonnegative operands, from the offset test to the stripping of zeros. */
  method DivAbs(divd: Blk, divr: Blk, divxyz: Blk, p: Blk) returns (r: Blk)
    requires p != divd && p != divr && p != divxyz && divd != divr && divd != divxyz && divr != divxyz
    requires Digits(divd.d) && Divisible(divr.d) && p.d == []
    modifies divd, divr`rd, divxyz, p
    ensures r == divd || fresh(r)
    ensures Val(old(divd.d)) == Val(divr.d) * Val(p.d) + Val(r.d) && 0 <= Val(r.d) < Val(divr.d)
    ensures Normal(p.d) && Digits(p.d) && WellFormed(r.d)
    ensures Normal(old(divd.d)) || |old(divd.d)| >= |divr.d| ==> Normal(r.d)
  {
    ghost var s := divd.d;
    r := divd;
    var offset := |divd.d| - |divr.d|;
    if offset < 0 {
      ShorterIsLess(divd.d, divr.d);
      DigitsBound(divd.d);
      return;
    }
    p.Seekc(offset + 1);
    ValSnoc(s, 0);
    divd.Sputc(0);
    r := DivLoop(divd, divr, divxyz, p);
    CarryPass(p);
    TrimZerosVal(p.d);
    StripZeros(p);
    TrimZerosVal(r.d);
    TrimmedNormal(r.d);
    StripZeros(r);
  }

  lemma TrimmedNormal(s: seq<int>)
    requires WellFormed(s) && Val(s) >= 0
    ensures Normal(TrimZeros(s))
  {
    NormalSign(s);
  }

  lemma QuotientSigns(n: int, d: int, n': int, d': int, q: int, r: int)
    requires d != 0 && n' == (if n < 0 then -n else n) && d' == (if d < 0 then -d else d)
    requires n' == d' * q + r && 0 <= r < d'
    ensures Divides(n, d, if (n < 0) != (d < 0) then -q else q, if n < 0 then -r else r)
  {
    MulSigns(d, q);
    assert d' * q == q * d' && (-q) * d == -(q * d);
  }

  /**
    `div`. For every dividend and every normal-form divisor but zero, quotient and
    remainder satisfy the division law with truncation toward zero; dividing by
    zero returns an empty quotient and no remainder. Every byte stored on the way
    fits a signed char, since each store demands it.
   */
  method Div(ddivd: Blk, ddivr: Blk, divxyz: Blk) returns (p: Blk, rem: Blk?)
    requires ddivr != divxyz && ddivd != divxyz
    requires WellFormed(ddivd.d) && Normal(ddivr.d)
    modifies ddivr`rd, divxyz
    ensures fresh(p) && p.rd <= |p.d| && Normal(p.d)
    ensures ddivr.d == [] ==> rem == null && p.d == []
    ensures ddivr.d != [] ==> rem != null && fresh(rem) && rem != p && WellFormed(rem.d)
    ensures ddivr.d != [] ==> Divides(Val(ddivd.d), Val(ddivr.d), Val(p.d), Val(rem.d))
    ensures ddivr.d != [] && Normal(ddivd.d) ==> Normal(rem.d)
    ensures ddivr.d != [] && Digits(ddivd.d) && Digits(ddivr.d) && |ddivd.d| >= |ddivr.d| ==> Normal(rem.d)
  {
    p := new Blk([]);
    rem := null;
    if |ddivr.d| == 0 {
      return;
    }
    rem := DivSigned(ddivd, ddivr, divxyz, p);
    p.Rewind();
  }

  method DivSigned(ddivd: Blk, ddivr: Blk, divxyz: Blk, p: Blk) returns (rem: Blk)
    requires ddivr != divxyz && ddivd != divxyz && p != ddivd && p != ddivr && p != divxyz && p.d == []
    requires WellFormed(ddivd.d) && Normal(ddivr.d) && ddivr.d != []
    modifies ddivr`rd, divxyz, p
    ensures Normal(p.d) && fresh(rem) && WellFormed(rem.d)
    ensures Divides(Val(ddivd.d), Val(ddivr.d), Val(p.d), Val(rem.d))
    ensures Normal(ddivd.d) ==> Normal(rem.d)
    ensures Digits(ddivd.d) && Digits(ddivr.d) && |ddivd.d| >= |ddivr.d| ==> Normal(rem.d)
  {
    var divr, negr := PositiveDivisor(ddivr);
    var divd, remsign := PositiveDividend(ddivd);
    ghost var n', d' := Val(divd.d), Val(divr.d);
    rem := DivAbs(divd, divr, divxyz, p);
    GiveSigns(p, rem, negr != remsign, remsign, Val(ddivd.d), Val(ddivr.d), n', d');
  }

  method GiveSigns(p: Blk, rem: Blk, negq: bool, negr: bool, ghost n: int, ghost d: int, ghost n': int, ghost d': int)
    requires p != rem && Normal(p.d) && Digits(p.d) && WellFormed(rem.d)
    requires d != 0 && n' == (if n < 0 then -n else n) && d' == (if d < 0 then -d else d)
    requires n' == d' * Val(p.d) + Val(rem.d) && 0 <= Val(rem.d) < d'
    requires negq == ((n < 0) != (d < 0)) && negr == (n < 0)
    modifies p, rem
    ensures Normal(p.d) && WellFormed(rem.d) && (Normal(old(rem.d)) ==> Normal(rem.d))
    ensures Divides(n, d, Val(p.d), Val(rem.d))
  {
    QuotientSigns(n, d, n', d', Val(p.d), Val(rem.d));
    GiveSign(p, negq);
    GiveSign(rem, negr);
  }

  method GiveSign(p: Blk, neg: bool)
    requires WellFormed(p.d) && Signed(p.d)
    modifies p
    ensures WellFormed(p.d) && (Normal(old(p.d)) ==> Normal(p.d))
    ensures Val(p.d) == if neg then -Val(old(p.d)) else Val(old(p.d))
  {
    if neg {
      Chsign(p);
    }
  }

  /** The divisor itself, or a negated copy when its top byte is -1. */
  method PositiveDivisor(ddivr: Blk) returns (divr: Blk, neg: bool)
    requires Normal(ddivr.d) && ddivr.d != []
    modifies ddivr`rd
    ensures (divr == ddivr || fresh(divr)) && Divisible(divr.d)
    ensures Digits(ddivr.d) ==> divr == ddivr
    ensures neg == (Val(ddivr.d) < 0) && Val(divr.d) == if neg then -Val(ddivr.d) else Val(ddivr.d)
  {
    NormalSign(ddivr.d);
    neg := false;
    divr := ddivr;
    divr.Fsfile();
    var top := divr.Sbackc();
    if top == -1 {
      divr := AbsCopy(ddivr);
      neg := true;
    }
    NormalSign(divr.d);
  }

  /** A copy of the dividend, negated when its top byte is -1. */
  method PositiveDividend(ddivd: Blk) returns (divd: Blk, neg: bool)
    requires WellFormed(ddivd.d)
    ensures fresh(divd) && Digits(divd.d) && (Normal(ddivd.d) ==> Normal(divd.d))
    ensures Digits(ddivd.d) ==> divd.d == ddivd.d
    ensures neg == (Val(ddivd.d) < 0) && Val(divd.d) == if neg then -Val(ddivd.d) else Val(ddivd.d)
  {
    NormalSign(ddivd.d);
    neg := false;
    divd := new Blk(ddivd.d);
    divd.Fsfile();
    if !divd.Sfbeg() {
      var top := divd.Sbackc();
      if top == -1 {
        Chsign(divd);
        neg := true;
      }
    }
    NormalSign(divd.d);
  }
}
