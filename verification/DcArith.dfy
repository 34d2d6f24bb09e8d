/** dc's sign change, addition and multiplication (dc.c: chsign, add, mult). */
module DcArith {
  import opened Radix
  import opened Blocks

  // ----- chsign

  /** Digit strings as `chsign` meets them: a -1 may sit anywhere, not only on top. */
  predicate Signed(s: seq<int>) {
    forall i :: 0 <= i < |s| ==> -1 <= s[i] < 100
  }

  /** Digit-wise complement of s, with the borrow left after its top byte. */
  ghost function Complement(s: seq<int>): (r: (seq<int>, int))
    ensures |r.0| == |s| && (r.1 == 0 || r.1 == 1)
    ensures Signed(s) ==> Digits(r.0)
  {
    if s == [] then ([], 0)
    else
      var r := Complement(s[..|s| - 1]);
      var ct := 100 - s[|s| - 1] - r.1;
      if ct >= 100 then (r.0 + [ct - 100], 0) else (r.0 + [ct], 1)
  }

  lemma ComplementSnoc(t: seq<int>, x: int)
    ensures var (c, borrow) := Complement(t);
            var ct := 100 - x - borrow;
            Complement(t + [x]) == if ct >= 100 then (c + [ct - 100], 0) else (c + [ct], 1)
  {
    assert (t + [x])[..|t|] == t;
  }

  lemma {:induction false} ComplementVal(s: seq<int>)
    ensures Val(Complement(s).0) == Pow(|s|) * Complement(s).1 - Val(s)
  {
    if s != [] {
      var n := |s| - 1;
      var r, r' := Complement(s[..n]), Complement(s);
      var x := 100 * r'.1 - s[n] - r.1;
      assert r'.0 == r.0 + [x];
      calc {
        Val(r'.0);
        { ValSnoc(r.0, x); }
        Val(r.0) + Pow(n) * x;
        { ComplementVal(s[..n]); }
        Pow(n) * r.1 - Val(s[..n]) + Pow(n) * x;
        { Mul4(Pow(n), x, r'.1, s[n], r.1); }
        Pow(n) * 100 * r'.1 - (Val(s[..n]) + Pow(n) * s[n]);
        { ValTop(s); }
        Pow(n + 1) * r'.1 - Val(s);
      }
    }
  }

  lemma Mul4(p: int, x: int, b': int, d: int, b: int)
    requires x == 100 * b' - d - b
    ensures p * x == p * 100 * b' - p * d - p * b
  {
  }

  /** Without negative bytes there is a borrow exactly when some byte is not zero. */
  lemma {:induction false} ComplementBorrow(s: seq<int>)
    requires Digits(s)
    ensures Complement(s).1 == 0 ==> Complement(s).0 == s && forall i :: 0 <= i < |s| ==> s[i] == 0
    ensures Complement(s).1 == 1 ==> exists i :: 0 <= i < |s| && s[i] != 0
  {
    if s != [] {
      var n := |s| - 1;
      ComplementBorrow(s[..n]);
      if Complement(s[..n]).1 == 1 {
        var i :| 0 <= i < |s[..n]| && s[..n][i] != 0;
        assert s[i] != 0;
      }
    }
  }

  /** What `chsign` makes of a block: the complement, with one redundant top byte dropped. */
  ghost function Negated(s: seq<int>): seq<int> {
    var (c, borrow) := Complement(s);
    var n := |s|;
    if borrow != 0 then
      if c[n - 1] == 99 then c[..n - 1] + [-1] else c + [-1]
    else if n > 0 && c[n - 1] == 0 then c[..n - 1]
    else c
  }

  lemma NegatedVal(s: seq<int>)
    requires Signed(s)
    ensures Val(Negated(s)) == -Val(s) && WellFormed(Negated(s))
  {
    if s != [] {
      ComplementVal(s);
      var (c, borrow) := Complement(s);
      var n := |s| - 1;
      assert c == c[..n] + [c[n]];
      assert Pow(|s|) * borrow == if borrow == 1 then Pow(|s|) else 0;
      DropTopByte(c[..n], c[n], c, borrow, Val(s));
    }
  }

  /** A 99 below the borrow, or a zero on top, adds nothing. */
  lemma DropTopByte(low: seq<int>, top: int, c: seq<int>, borrow: int, v: int)
    requires c == low + [top] && Digits(c) && (borrow == 0 || borrow == 1)
    requires Val(c) == (if borrow == 1 then Pow(|c|) else 0) - v
    ensures borrow == 0 ==> Val(c) == -v && (top == 0 ==> Val(low) == -v)
    ensures borrow == 1 ==> Val(c + [-1]) == -v && (top == 99 ==> Val(low + [-1]) == -v)
  {
    var p := Pow(|low|);
    ValSnoc(low, top);
    ValSnoc(low, -1);
    ValSnoc(c, -1);
    assert Pow(|c|) == 100 * p;
    TimesTop(p, top);
  }

  lemma TimesTop(p: int, top: int)
    ensures top == 0 ==> p * top == 0
    ensures top == 99 ==> p * top == 99 * p
    ensures p * -1 == -p && 100 * p * -1 == -100 * p
  {
  }

  /** `chsign` on digits below a top byte, spelled out. */
  lemma NegatedParts(low: seq<int>, top: int, s: seq<int>)
    requires s == low + [top] && Digits(low) && -1 <= top < 100 && top != 0
    ensures var (c, borrow) := Complement(low);
            Negated(s) ==
            if top == -1 then (if borrow == 1 then c else c + [1])
            else if top + borrow == 1 then c + [-1]
            else c + [100 - top - borrow] + [-1]
  {
    var (c, borrow) := Complement(low);
    ComplementSnoc(low, top);
    if top == -1 {
      NegatedOf(s, c, 1 - borrow, 0);
    } else {
      NegatedOf(s, c, 100 - top - borrow, 1);
    }
  }

  lemma NegatedOf(s: seq<int>, c: seq<int>, d: int, borrow: int)
    requires s != [] && Complement(s) == (c + [d], borrow)
    ensures Negated(s) ==
            if borrow != 0 then (if d == 99 then c + [-1] else c + [d] + [-1])
            else if d == 0 then c
            else c + [d]
  {
    assert (c + [d])[..|c|] == c;
  }

  lemma NegatedNormal(s: seq<int>)
    requires Normal(s)
    ensures Normal(Negated(s))
  {
    if s != [] {
      var n := |s| - 1;
      WellFormedBelow(s);
      assert s == s[..n] + [s[n]];
      NegatedNormalParts(s[..n], s[n], s);
    }
  }

  lemma NegatedNormalParts(low: seq<int>, top: int, s: seq<int>)
    requires Normal(s) && s == low + [top] && Digits(low)
    ensures Normal(Negated(s))
  {
    NegatedParts(low, top, s);
    ComplementBorrow(low);
    if top == -1 && low != [] {
      var m := |low| - 1;
      assert low == low[..m] + [low[m]];
      LowNotZero(low[..m], low[m], low);
    }
    var (c, borrow) := Complement(low);
    NormalForms(c, top, borrow);
  }

  /** With a borrow, the complement has a top digit, unless 99 stood there. */
  lemma LowNotZero(t: seq<int>, x: int, low: seq<int>)
    requires low == t + [x] && 0 <= x < 100 && (t != [] ==> x != 99)
    ensures var (c, borrow) := Complement(low); borrow == 1 ==> c[|t|] != 0
  {
    ComplementSnoc(t, x);
  }

  lemma NormalForms(c: seq<int>, top: int, borrow: int)
    requires Digits(c) && -1 <= top < 100 && top != 0 && (borrow == 0 || borrow == 1)
    requires borrow == 0 ==> forall i :: 0 <= i < |c| ==> c[i] == 0
    requires top == -1 && borrow == 1 && c != [] ==> c[|c| - 1] != 0
    ensures top == -1 && borrow == 1 ==> Normal(c)
    ensures top == -1 && borrow == 0 ==> Normal(c + [1])
    ensures top > 0 && top + borrow == 1 ==> Normal(c + [-1])
    ensures top > 0 && top + borrow != 1 ==> Normal(c + [100 - top - borrow] + [-1])
  {
  }

  /**
    Hundred's complement in place: negates the value of every signed digit string
    and keeps normal form.
   */
  method Chsign(p: Blk)
    requires Signed(p.d)
    modifies p
    ensures Val(p.d) == -Val(old(p.d)) && WellFormed(p.d)
    ensures Normal(old(p.d)) ==> Normal(p.d)
    ensures p.rd <= |p.d|
  {
    ghost var s := p.d;
    NegatedVal(s);
    if Normal(s) {
      NegatedNormal(s);
    }
    var carry := ComplementInPlace(p);
    if carry != 0 {
      p.Sputc(-1);
      p.Fsfile();
      p.Backc();
      var ct := p.Sbackc();
      if ct == 100 - 1 {
        p.Truncate();
        p.Sputc(-1);
      }
    } else {
      p.Fsfile();
      var ct := p.Sbackc();
      if ct == 0 {
        p.Truncate();
      }
    }
    assert p.d == Negated(s);
  }

  /** One byte of the pass that complements s in place. */
  lemma ComplementPass(now: seq<int>, s: seq<int>, i: nat, carry: int)
    requires i < |now| == |s| && now[i..] == s[i..] && (now[..i], carry) == Complement(s[..i]) && Signed(s)
    ensures now[i] == s[i] && -1 <= s[i] < 100 && (carry == 0 || carry == 1)
    ensures var ct := 100 - s[i] - carry;
            var x, carry' := if ct >= 100 then ct - 100 else ct, if ct >= 100 then 0 else 1;
            && (now[i := x][..i + 1], carry') == Complement(s[..i + 1]) && now[i := x][i + 1..] == s[i + 1..]
  {
    var ct := 100 - s[i] - carry;
    PassAt(now, s, i);
    PassStep(now, s, i, if ct >= 100 then ct - 100 else ct);
    ComplementSnoc(s[..i], s[i]);
  }

  /** The digit loop of `chsign`. */
  method ComplementInPlace(p: Blk) returns (carry: int)
    requires Signed(p.d)
    modifies p
    ensures (p.d, carry) == Complement(old(p.d))
  {
    ghost var s := p.d;
    carry := 0;
    p.Rewind();
    while !p.Sfeof()
      invariant p.rd <= |s| == |p.d| && p.d[p.rd..] == s[p.rd..]
      invariant (p.d[..p.rd], carry) == Complement(s[..p.rd])
      decreases |p.d| - p.rd
    {
      ghost var i, before := p.rd, p.d;
      ComplementPass(before, s, i, carry);
      var ct := 100 - p.Slookc() - carry;
      carry := 1;
      if ct >= 100 {
        ct := ct - 100;
        carry := 0;
      }
      p.Salterc(ct);
    }
    assert s[..|s|] == s && p.d[..|p.d|] == p.d;
  }

  // ----- add

  /** Byte i of a block, zero past its end. */
  function At(s: seq<int>, i: nat): int {
    if i < |s| then s[i] else 0
  }

  function Prefix(s: seq<int>, n: nat): seq<int> {
    if n <= |s| then s[..n] else s
  }

  lemma PrefixStep(s: seq<int>, n: nat)
    ensures Val(Prefix(s, n + 1)) == Val(Prefix(s, n)) + Pow(n) * At(s, n)
  {
    if n < |s| {
      ValTake(s, n);
    } else {
      assert Prefix(s, n + 1) == Prefix(s, n);
    }
  }

  /** The low n digits of a + b, with the carry out of them. */
  ghost function Sum(a: seq<int>, b: seq<int>, n: nat): (r: (seq<int>, int))
    ensures |r.0| == n && -1 <= r.1 <= 1
    ensures Signed(a) && Signed(b) ==> Digits(r.0)
  {
    if n == 0 then ([], 0)
    else
      var r := Sum(a, b, n - 1);
      var t := At(a, n - 1) + At(b, n - 1) + r.1;
      if t >= 100 then (r.0 + [t - 100], 1)
      else if t < 0 then (r.0 + [t + 100], -1)
      else (r.0 + [t], 0)
  }

  lemma {:induction false} SumVal(a: seq<int>, b: seq<int>, n: nat)
    ensures Val(Sum(a, b, n).0) + Pow(n) * Sum(a, b, n).1 == Val(Prefix(a, n)) + Val(Prefix(b, n))
  {
    if n > 0 {
      var p, r, r' := Pow(n - 1), Sum(a, b, n - 1), Sum(a, b, n);
      var u, v := At(a, n - 1), At(b, n - 1);
      var x := u + v + r.1 - 100 * r'.1;
      assert r'.0 == r.0 + [x];
      ValSnoc(r.0, x);
      Distribute(p, x, u, v, r.1, r'.1);
      SumVal(a, b, n - 1);
      PrefixStep(a, n - 1);
      PrefixStep(b, n - 1);
    }
  }

  lemma Distribute(p: int, x: int, u: int, v: int, c: int, c': int)
    requires x == u + v + c - 100 * c'
    ensures p * x == p * u + p * v + p * c - 100 * p * c'
  {
  }

  /** Drop leading zeros. */
  ghost function TrimZeros(s: seq<int>): (r: seq<int>)
    ensures r <= s && (r != [] ==> r[|r| - 1] != 0)
  {
    if s != [] && s[|s| - 1] == 0 then TrimZeros(s[..|s| - 1]) else s
  }

  lemma {:induction false} TrimZerosVal(s: seq<int>)
    ensures Val(TrimZeros(s)) == Val(s)
  {
    if s != [] && s[|s| - 1] == 0 {
      TrimZerosVal(s[..|s| - 1]);
      ValTop(s);
    }
  }

  /** How many bytes `add` keeps below a top -1: all but the 99s that only repeat the sign. */
  ghost function Kept(s: seq<int>, n: nat): (r: nat)
    requires n <= |s|
    ensures r <= n && (n >= 1 ==> r >= 1) && (r >= 2 ==> s[r - 1] != 99)
  {
    if n >= 2 && s[n - 1] == 99 then Kept(s, n - 1) else n
  }

  lemma {:induction false} KeptVal(s: seq<int>, n: nat)
    requires n <= |s|
    ensures Val(s[..Kept(s, n)] + [-1]) == Val(s[..n] + [-1])
  {
    if n >= 2 && s[n - 1] == 99 {
      KeptVal(s, n - 1);
      ValSnoc(s[..n], -1);
      ValTake(s, n - 1);
      ValSnoc(s[..n - 1], -1);
    }
  }

  /** All of a + b: the digits with the carry byte on top. */
  ghost function SumBytes(a: seq<int>, b: seq<int>): seq<int> {
    var r := Sum(a, b, if |a| > |b| then |a| else |b|);
    if r.1 != 0 then r.0 + [r.1] else r.0
  }

  lemma SumBytesVal(a: seq<int>, b: seq<int>)
    requires Signed(a) && Signed(b)
    ensures var s := SumBytes(a, b);
            && WellFormed(s) && (s != [] && s[|s| - 1] == -1 ==> |s| >= 2)
            && Val(s) == Val(a) + Val(b)
  {
    var size := if |a| > |b| then |a| else |b|;
    SumVal(a, b, size);
    var r := Sum(a, b, size);
    assert Prefix(a, size) == a && Prefix(b, size) == b;
    assert size == 0 ==> r == ([], 0);
    SumTop(r.0, r.1, SumBytes(a, b));
  }

  /** Digits with a carry of -1, 0 or 1 above them. */
  lemma SumTop(d: seq<int>, carry: int, s: seq<int>)
    requires Digits(d) && -1 <= carry <= 1 && (d == [] ==> carry == 0) && s == if carry != 0 then d + [carry] else d
    ensures WellFormed(s) && (s != [] && s[|s| - 1] == -1 ==> |s| >= 2) && Val(s) == Val(d) + Pow(|d|) * carry
  {
    ValSnoc(d, carry);
  }

  /** `add` computes the sum and returns it in normal form. */
  method Add(a1: Blk, a2: Blk) returns (p: Blk)
    requires a1 != a2 && Signed(a1.d) && Signed(a2.d)
    modifies a1`rd, a2`rd
    ensures fresh(p) && p.rd <= |p.d|
    ensures Normal(p.d) && Val(p.d) == Val(a1.d) + Val(a2.d)
  {
    SumBytesVal(a1.d, a2.d);
    p := AddDigits(a1, a2);
    TrimZerosVal(p.d);
    p.Fsfile();
    if !p.Sfbeg() {
      TrimTopZeros(p);
    }
    p.Fsfile();
    if !p.Sfbeg() {
      var top := p.Sbackc();
      if top == -1 {
        TrimTopNines(p);
      }
    }
  }

  /** The digit loop of `add`, and the carry byte after it. */
  method AddDigits(a1: Blk, a2: Blk) returns (p: Blk)
    requires a1 != a2 && Signed(a1.d) && Signed(a2.d)
    modifies a1`rd, a2`rd
    ensures fresh(p) && p.d == SumBytes(a1.d, a2.d)
  {
    var carry;
    p, carry := AddLoop(a1, a2);
    if carry != 0 {
      p.Sputc(carry);
    }
  }

  method AddLoop(a1: Blk, a2: Blk) returns (p: Blk, carry: int)
    requires a1 != a2 && Signed(a1.d) && Signed(a2.d)
    modifies a1`rd, a2`rd
    ensures fresh(p) && (p.d, carry) == Sum(a1.d, a2.d, if |a1.d| > |a2.d| then |a1.d| else |a2.d|)
  {
    var size := if |a1.d| > |a2.d| then |a1.d| else |a2.d|;
    p := new Blk([]);
    a1.Rewind();
    a2.Rewind();
    carry := 0;
    var i := 0;
    while i < size
      invariant i <= size
      invariant a1.rd == (if i <= |a1.d| then i else |a1.d|)
      invariant a2.rd == (if i <= |a2.d| then i else |a2.d|)
      invariant (p.d, carry) == Sum(a1.d, a2.d, i)
    {
      var n1 := ByteOrZero(a1, i);
      var n2 := ByteOrZero(a2, i);
      var n;
      n, carry := SplitDigit(n1 + n2 + carry);
      p.Sputc(n);
      i := i + 1;
    }
  }

  /** A digit and the carry out of it. */
  method SplitDigit(sum: int) returns (n: int, carry: int)
    requires -100 <= sum < 200
    ensures sum == n + 100 * carry && 0 <= n < 100
    ensures carry == if sum >= 100 then 1 else if sum < 0 then -1 else 0
  {
    n := sum;
    if n >= 100 {
      carry := 1;
      n := n - 100;
    } else if n < 0 {
      carry := -1;
      n := n + 100;
    } else {
      carry := 0;
    }
  }

  /** The next byte of a block, or zero past its end. */
  method ByteOrZero(a: Blk, i: nat) returns (n: int)
    requires a.rd == if i <= |a.d| then i else |a.d|
    modifies a`rd
    ensures n == At(a.d, i) && a.rd == if i + 1 <= |a.d| then i + 1 else |a.d|
  {
    n := 0;
    if !a.Sfeof() {
      n := a.Sgetc();
    }
  }

  /** The zero-stripping loop of `add`. */
  method TrimTopZeros(p: Blk)
    requires p.rd == |p.d| > 0 && forall i :: 0 <= i < |p.d| ==> IsChar(p.d[i])
    modifies p
    ensures p.d == TrimZeros(old(p.d))
  {
    var c := p.Sbackc();
    assert p.d[..p.rd + 1] == p.d;
    while c == 0 && !p.Sfbeg()
      invariant p.rd < |p.d| && c == p.d[p.rd]
      invariant p.d == old(p.d) && TrimZeros(p.d) == TrimZeros(p.d[..p.rd + 1])
      decreases p.rd
    {
      assert p.d[..p.rd + 1][..p.rd] == p.d[..p.rd];
      c := p.Sbackc();
    }
    if c != 0 {
      p.Salterc(c);
    }
    assert p.d == old(p.d);
    p.Truncate();
  }

  /** The 99-stripping loop of `add`, entered with the cursor on the top -1. */
  method TrimTopNines(p: Blk)
    requires |p.d| >= 2 && p.rd == |p.d| - 1 && p.d[p.rd] == -1 && WellFormed(p.d)
    modifies p
    ensures Normal(p.d) && Val(p.d) == Val(old(p.d)) && p.rd <= |p.d|
  {
    ghost var s, n := p.d, |p.d| - 1;
    assert s[..n] + [-1] == s;
    KeptVal(s, n);
    var c := p.Sbackc();
    while c == 100 - 1
      invariant p.rd < n && p.d == s
      invariant c == s[p.rd] || (c == EOF && p.rd == 0)
      invariant Kept(s, n) == Kept(s, p.rd + 1)
      decreases p.rd, c
    {
      c := p.Sbackc();
    }
    assert Kept(s, n) == p.rd + 1;
    p.Skipc();
    p.Salterc(-1);
    p.Truncate();
    assert p.d == s[..Kept(s, n)] + [-1];
  }

  // ----- mult

  /** A copy of p with its sign removed, as `mult` and `div` make for a negative operand. */
  method AbsCopy(p: Blk) returns (q: Blk)
    requires WellFormed(p.d)
    ensures fresh(q)
    ensures Digits(q.d) && (Normal(p.d) ==> Normal(q.d))
    ensures Val(q.d) == if Val(p.d) < 0 then -Val(p.d) else Val(p.d)
  {
    NormalSign(p.d);
    q := new Blk(p.d);
    if p.d != [] && p.d[|p.d| - 1] < 0 {
      Chsign(q);
      NormalSign(q.d);
    }
  }

  /** `mult` computes the product; a product of normal forms is in normal form. */
  method Mult(p: Blk, q: Blk) returns (mr: Blk)
    requires p != q && WellFormed(p.d) && WellFormed(q.d)
    modifies p`rd, q`rd
    ensures fresh(mr) && mr.rd <= |mr.d|
    ensures WellFormed(mr.d) && Val(mr.d) == Val(p.d) * Val(q.d)
    ensures Normal(p.d) && Normal(q.d) ==> Normal(mr.d)
  {
    NormalSign(p.d);
    NormalSign(q.d);
    var sign := false;
    p.Fsfile();
    var mp := p;
    if !p.Sfbeg() {
      var top := p.Sbackc();
      if top < 0 {
        mp := AbsCopy(p);
        sign := !sign;
      }
    }
    q.Fsfile();
    var mq := q;
    if !q.Sfbeg() {
      var top := q.Sbackc();
      if top < 0 {
        mq := AbsCopy(q);
        sign := !sign;
      }
    }
    assert Digits(mp.d) && Digits(mq.d);
    mr := MultDigits(mp, mq);
    MulSigns(Val(p.d), Val(q.d));
    if sign {
      Chsign(mr);
    }
    mr.Rewind();
  }

  lemma MulSigns(x: int, y: int)
    ensures -x * y == -(x * y) && x * -y == -(x * y) && -x * -y == x * y
  {
  }

  /** The row loop of `mult`, on two nonnegative operands. */
  method MultDigits(mp: Blk, mq: Blk) returns (mr: Blk)
    requires mp != mq && Digits(mp.d) && Digits(mq.d)
    modifies mp`rd, mq`rd
    ensures fresh(mr) && Digits(mr.d)
    ensures Val(mr.d) == Val(mp.d) * Val(mq.d)
    ensures Normal(mp.d) && Normal(mq.d) ==> Normal(mr.d)
  {
    mr := new Blk([]);
    mq.Rewind();
    var offset := 0;
    while !mq.Sfeof()
      invariant mq.rd == offset <= |mq.d|
      invariant Digits(mr.d)
      invariant Val(mr.d) == Val(mp.d) * Val(mq.d[..offset])
      invariant mp.d == [] || offset == 0 ==> mr.d == []
      invariant mp.d != [] && offset > 0 ==>
        |mr.d| == |mp.d| + offset - 1 || (|mr.d| == |mp.d| + offset && mr.d[|mr.d| - 1] != 0)
      decreases |mq.d| - mq.rd
    {
      ValTake(mq.d, offset);
      var cq := mq.Sgetc();
      DistributeRow(Val(mp.d), Val(mq.d[..offset]), Pow(offset), cq);
      if mp.d != [] {  // an empty mp gives the row loop no turn
        MultRow(mp, cq, mr, offset);
      }
      offset := offset + 1;
    }
    assert mq.d[..|mq.d|] == mq.d;
    if Normal(mp.d) && Normal(mq.d) {
      ProductNormal(mp.d, mq.d, mr.d);
    }
  }

  lemma DistributeRow(v: int, w: int, p: int, c: int)
    ensures v * (w + p * c) == v * w + p * c * v
  {
  }

  lemma ProductNormal(a: seq<int>, b: seq<int>, r: seq<int>)
    requires Normal(a) && Normal(b) && Digits(a) && Digits(b) && Digits(r)
    requires Val(r) == Val(a) * Val(b)
    requires a == [] || b == [] ==> r == []
    requires a != [] && b != [] ==>
      |r| == |a| + |b| - 1 || (|r| == |a| + |b| && r[|r| - 1] != 0)
    ensures Normal(r)
  {
    if a != [] && b != [] && |r| == |a| + |b| - 1 {
      BothTops(a, b, |a| - 1, |b| - 1);
      TopNotZero(r, |r| - 1);
    }
  }

  lemma BothTops(a: seq<int>, b: seq<int>, m: nat, n: nat)
    requires |a| == m + 1 && |b| == n + 1 && Digits(a) && Digits(b) && a[m] != 0 && b[n] != 0
    ensures Pow(m + n) <= Val(a) * Val(b)
  {
    AtLeastTop(a, m);
    AtLeastTop(b, n);
    MulAtLeast(Pow(m), Pow(n), 1, 1, Val(a), Val(b));
    PowAdd(m, n);
  }

  lemma TopNotZero(r: seq<int>, m: nat)
    requires |r| == m + 1 && Digits(r) && Pow(m) <= Val(r)
    ensures r[m] != 0
  {
    TopBound(r);
  }

  lemma AtLeastTop(s: seq<int>, m: nat)
    requires |s| == m + 1 && Digits(s) && s[m] != 0
    ensures Pow(m) * 1 <= Val(s)
  {
    TopBound(s);
    TimesOne(Pow(m), s[m]);
  }

  lemma TimesOne(p: int, x: int)
    requires p >= 0 && x >= 1
    ensures p * 1 <= p * x
  {
  }

  lemma MulAtLeast(p: int, q: int, s: int, t: int, a: int, b: int)
    requires p >= 1 && q >= 1 && s >= 1 && t >= 1 && p * s <= a && q * t <= b
    ensures p * q <= a * b
  {
    assert p <= p * s && q <= q * t;
    assert p * q <= a * q <= a * b;
  }

  /** One row: mr += mp * cq * 100^offset, where mr has no byte past the row. */
  method MultRow(mp: Blk, cq: int, mr: Blk, offset: nat)
    requires mp != mr && mp.d != [] && Digits(mp.d) && Digits(mr.d) && 0 <= cq < 100
    requires offset <= |mr.d| <= |mp.d| + offset
    modifies mp`rd, mr
    ensures Digits(mr.d)
    ensures Val(mr.d) == Val(old(mr.d)) + Pow(offset) * cq * Val(mp.d)
    ensures |mr.d| == |mp.d| + offset || (|mr.d| == |mp.d| + offset + 1 && mr.d[|mr.d| - 1] != 0)
  {
    var carry := RowLoop(mp, cq, mr, offset);
    if carry != 0 {
      var mcr := if mr.Sfeof() then 0 else mr.Slookc();
      ValSnoc(mr.d, mcr + carry);
      mr.Salterc(mcr + carry);
    }
  }

  /** The digits of the row, with the carry out of it. */
  method RowLoop(mp: Blk, cq: int, mr: Blk, offset: nat) returns (carry: int)
    requires mp != mr && mp.d != [] && Digits(mp.d) && Digits(mr.d) && 0 <= cq < 100
    requires offset <= |mr.d| <= |mp.d| + offset
    modifies mp`rd, mr
    ensures Digits(mr.d) && |mr.d| == mr.rd == |mp.d| + offset && 0 <= carry < 100
    ensures Val(mr.d) + Pow(|mr.d|) * carry == Val(old(mr.d)) + Pow(offset) * cq * Val(mp.d)
  {
    ghost var s := mr.d;
    mp.Rewind();
    mr.rd := offset;
    carry := 0;
    assert mr.d[..offset] == Prefix(s, offset);
    while !mp.Sfeof()
      invariant mp.rd <= |mp.d| && mr.rd == offset + mp.rd && 0 <= carry < 100
      invariant |mr.d| == if |s| > mr.rd then |s| else mr.rd
      invariant Digits(mr.d) && forall j :: mr.rd <= j < |s| ==> mr.d[j] == s[j]
      invariant Val(mr.d[..mr.rd]) + Pow(mr.rd) * carry
             == Val(Prefix(s, mr.rd)) + Pow(offset) * cq * Val(mp.d[..mp.rd])
      decreases |mp.d| - mp.rd
    {
      ghost var i, j, c, before := mp.rd, mr.rd, carry, mr.d;
      var cp := mp.Sgetc();
      var mcr := if mr.Sfeof() then 0 else mr.Slookc();
      DigitProduct(cp, cq, carry, mcr);
      var mt := cp * cq + carry + mcr;
      carry := mt / 100;
      mr.Salterc(mt % 100);
      RowStep(s, mp.d, before[..j], offset, cq, i, c, mcr, mt);
      assert mr.d[..j + 1] == before[..j] + [mt % 100];
    }
    assert mp.d[..|mp.d|] == mp.d && Prefix(s, mr.rd) == s && mr.d[..mr.rd] == mr.d;
  }

  lemma DigitProduct(x: int, y: int, c: int, m: int)
    requires 0 <= x < 100 && 0 <= y < 100 && 0 <= c < 100 && 0 <= m < 100
    ensures 0 <= x * y + c + m < 10000
  {
    assert x * y <= 99 * y;
  }

  lemma RowStep(s: seq<int>, a: seq<int>, done: seq<int>, offset: nat, cq: int, i: nat, c: int, mcr: int, mt: int)
    requires i < |a| && |done| == offset + i && mcr == At(s, offset + i)
    requires mt == a[i] * cq + c + mcr
    requires Val(done) + Pow(offset + i) * c == Val(Prefix(s, offset + i)) + Pow(offset) * cq * Val(a[..i])
    ensures Val(done + [mt % 100]) + Pow(offset + i + 1) * (mt / 100)
         == Val(Prefix(s, offset + i + 1)) + Pow(offset) * cq * Val(a[..i + 1])
  {
    var p, po, pi := Pow(offset + i), Pow(offset), Pow(i);
    ValSnoc(done, mt % 100);
    PrefixStep(s, offset + i);
    ValTake(a, i);
    PowAdd(offset, i);
    CarryOut(p, mt, a[i] * cq, c, mcr);
    Shuffle(po, pi, a[i], cq);
    DistributeRight(po * cq, Val(a[..i]), pi * a[i]);
  }

  lemma CarryOut(p: int, mt: int, x: int, c: int, m: int)
    requires mt == x + c + m
    ensures p * (mt % 100) + 100 * p * (mt / 100) == p * x + p * c + p * m
  {
    var hi, lo := mt / 100, mt % 100;
    assert mt == 100 * hi + lo;
    assert p * lo + p * (100 * hi) == p * (x + c + m);
  }

  lemma Shuffle(a: int, b: int, x: int, y: int)
    ensures a * b * (x * y) == a * y * (b * x)
  {
    assert a * b * (x * y) == a * (b * (x * y)) == a * (y * (b * x)) == a * y * (b * x);
  }

  lemma DistributeRight(k: int, u: int, v: int)
    ensures k * (u + v) == k * u + k * v
  {
  }
}
