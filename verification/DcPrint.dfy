/** dc's decimal printer (dc.c: tenot and the macros OUTC and TEST2), at output base 10. */
module DcPrint {
  import opened Radix
  import opened Blocks
  import opened DcOps

  // ----- numerals

  function Digit(d: int): char
    requires 0 <= d < 10
  {
    ('0' as int + d) as char
  }

  /** The last k decimal digits of x. */
  function Decimals(x: int, k: nat): (s: string)
    ensures |s| == k
    decreases k
  {
    if k == 0 then "" else Decimals(x / 10, k - 1) + [Digit(x % 10)]
  }

  /** x without its last k decimal digits. */
  function Drop(x: int, k: nat): int
    decreases k
  {
    if k == 0 then x else Drop(x / 10, k - 1)
  }

  /** The decimal numeral, which begins with no zero; empty for nothing. */
  function Numeral(n: nat): string {
    if n == 0 then "" else Numeral(n / 10) + [Digit(n % 10)]
  }

  lemma {:induction false} DropIsQuotient(x: int, k: nat)
    requires x >= 0
    ensures Power(10, k) >= 1 && Drop(x, k) == x / Power(10, k) && Drop(x, k) >= 0
  {
    if k == 0 {
      assert Power(10, 0) == 1;
    } else {
      DropIsQuotient(x / 10, k - 1);
      TwoQuotients(x, Power(10, k - 1));
    }
  }

  lemma TwoQuotients(x: int, p: int)
    requires x >= 0 && p >= 1
    ensures x / 10 / p == x / (10 * p)
  {
    var q := x / (10 * p);
    var r := x % (10 * p);
    assert x == 10 * (q * p) + r;
    var s := r / 10;
    assert s < p;
    assert x / 10 == q * p + s;
    QuotientIs(x / 10, p, q, s);
  }

  lemma MulFar(d: int, p: int)
    requires d != 0 && p >= 1
    ensures d * p >= p || d * p <= -p
  {
  }

  lemma QuotientIs(n: int, p: int, q: int, s: int)
    requires p >= 1 && n == q * p + s && 0 <= s < p
    ensures n / p == q
  {
    var d := n / p - q;
    assert n == (n / p) * p + n % p;
    assert d * p == s - n % p;
    if d != 0 { MulFar(d, p); }
  }

  /** A number with all its digits and none in front is printed as its numeral. */
  lemma {:induction false} NumeralIs(n: nat, k: nat)
    requires Drop(n, k) == 0 && (k > 0 ==> Drop(n, k - 1) > 0)
    ensures Decimals(n, k) == Numeral(n)
    decreases k
  {
    if k > 0 {
      assert n == 0 ==> Drop(0, k - 1) == 0 by { DropZero(k - 1); }
      NumeralIs(n / 10, k - 1);
    }
  }

  lemma {:induction false} DropZero(k: nat)
    ensures Drop(0, k) == 0
  {
    if k > 0 { DropZero(k - 1); }
  }

  lemma DecimalsTwo(x: int, c: int, k: nat)
    requires 0 <= c < 100
    ensures Decimals(x * 100 + c, k + 2) == Decimals(x, k) + [Digit(c / 10), Digit(c % 10)]
    ensures Drop(x * 100 + c, k + 2) == Drop(x, k)
  {
    var y := x * 10 + c / 10;
    assert (x * 100 + c) / 10 == y && (x * 100 + c) % 10 == c % 10 && y / 10 == x && y % 10 == c / 10;
    assert Decimals(y, k + 1) == Decimals(x, k) + [Digit(c / 10)];
    assert Drop(y, k + 1) == Drop(x, k);
  }

  lemma DecimalsOne(x: int, e: int, k: nat)
    requires 0 <= e < 10
    ensures Decimals(x * 10 + e, k + 1) == Decimals(x, k) + [Digit(e)]
    ensures Drop(x * 10 + e, k + 1) == Drop(x, k)
  {
    assert (x * 10 + e) / 10 == x && (x * 10 + e) % 10 == e;
  }

  // ----- what is printed

  /** The bytes above place i, in columns; the topmost byte goes without a leading zero. */
  function Columns(d: seq<int>, i: nat): nat
    requires i <= |d|
  {
    if i == |d| then 0 else 2 * (|d| - i) - if d[|d| - 1] < 10 then 1 else 0
  }

  /**
    The digits in front of the point. A byte that straddles the point gives one, and so a
    number below one that starts right behind the point has a zero there.
   */
  function IntWidth(d: seq<int>, sc: nat): nat {
    if 2 * |d| <= sc then 0 else if Columns(d, 0) <= sc then 1 else Columns(d, 0) - sc
  }

  /** The number with sc decimals. */
  function Printed(d: seq<int>, sc: nat): string {
    Decimals(Drop(Val(d), sc), IntWidth(d, sc)) + if sc > 0 then "." + Decimals(Val(d), sc) else ""
  }

  // ----- lines

  /** Lines put together with the backslash-newline that dc breaks a long number with. */
  function Join(lines: seq<string>): string {
    if |lines| == 0 then "" else if |lines| == 1 then lines[0]
    else Join(lines[..|lines| - 1]) + "\\\n" + lines[|lines| - 1]
  }

  function Text(lines: seq<string>): string {
    if lines == [] then "" else Text(lines[..|lines| - 1]) + lines[|lines| - 1]
  }

  /** The columns of a line as they are counted; extra is 1 when the first byte had one column but counted two. */
  function Width(lines: seq<string>, extra: nat, i: nat): nat
    requires i < |lines|
  {
    |lines[i]| + if i == 0 then extra else 0
  }

  const LL := 70

  /** A line is broken as soon as it has LL columns, which with a pair of characters may make LL + 1. */
  predicate Broken(lines: seq<string>, extra: nat) {
    && lines != []
    && (forall i :: 0 <= i < |lines| - 1 ==> LL <= Width(lines, extra, i) <= LL + 1)
    && Width(lines, extra, |lines| - 1) < LL
  }

  function More(lines: seq<string>, t: string): (r: seq<string>)
    requires lines != []
    ensures |r| == |lines|
  {
    lines[|lines| - 1 := lines[|lines| - 1] + t]
  }

  lemma MoreText(lines: seq<string>, t: string)
    requires lines != []
    ensures Join(More(lines, t)) == Join(lines) + t && Text(More(lines, t)) == Text(lines) + t
  {
    var n := |lines| - 1;
    assert More(lines, t)[..n] == lines[..n];
    if n > 0 {
      assert Join(lines[..n]) + "\\\n" + (lines[n] + t) == Join(lines[..n]) + "\\\n" + lines[n] + t;
    }
    assert Text(lines[..n]) + (lines[n] + t) == Text(lines[..n]) + lines[n] + t;
  }

  lemma MoreWidths(lines: seq<string>, t: string, extra: nat)
    requires lines != []
    ensures forall i :: 0 <= i < |lines| - 1 ==> Width(More(lines, t), extra, i) == Width(lines, extra, i)
    ensures var n := |lines| - 1; Width(More(lines, t), extra, n) == Width(lines, extra, n) + |t|
  {
  }

  lemma NewLineWidths(lines: seq<string>, extra: nat)
    ensures forall i :: 0 <= i < |lines| ==> Width(lines + [""], extra, i) == Width(lines, extra, i)
  {
  }

  lemma NewLine(lines: seq<string>)
    requires lines != []
    ensures Join(lines + [""]) == Join(lines) + "\\\n" && Text(lines + [""]) == Text(lines)
  {
    assert (lines + [""])[..|lines|] == lines;
    assert Join(lines) + "\\\n" + "" == Join(lines) + "\\\n";
    assert Text(lines) + "" == Text(lines);
  }

  /** dc's output line: the text so far and the room left before a continuation. */
  class Printer {
    var out: string
    var count: int
    ghost var lines: seq<string>
    ghost var extra: nat

    ghost predicate Valid()
      reads this
    {
      && Broken(lines, extra) && extra <= 1 && out == Join(lines)
      && count == LL - Width(lines, extra, |lines| - 1)
    }

    constructor ()
      ensures Valid() && lines == [""] && extra == 0
    {
      out, count, lines, extra := [], LL, [""], 0;
    }

    /** Both macros, once the characters are out: a new line exactly when there is no more room. */
    method Continue(ghost full: seq<string>)
      requires full != [] && out == Join(full) && extra <= 1
      requires forall i :: 0 <= i < |full| - 1 ==> LL <= Width(full, extra, i) <= LL + 1
      requires count == LL - Width(full, extra, |full| - 1) >= -1
      modifies `out, `count, `lines
      ensures Valid() && lines == if old(count) <= 0 then full + [""] else full
      ensures Text(lines) == Text(full)
    {
      lines := full;
      if count <= 0 {
        NewLine(full);
        NewLineWidths(full, extra);
        out := out + "\\\n";
        count := LL;
        lines := full + [""];
      }
    }

    /** OUTC: one column. */
    method Outc(c: char)
      requires Valid()
      modifies `out, `count, `lines
      ensures Valid()
      ensures lines == More(old(lines), [c]) + if old(count) == 1 then [""] else []
      ensures Text(lines) == Text(old(lines)) + [c]
    {
      MoreText(lines, [c]);
      MoreWidths(lines, [c], extra);
      out := out + [c];
      count := count - 1;
      Continue(More(lines, [c]));
    }

    /** Print two characters and TEST2. */
    method Out2(c: char, e: char)
      requires Valid()
      modifies `out, `count, `lines
      ensures Valid()
      ensures lines == More(old(lines), [c, e]) + if old(count) <= 2 then [""] else []
      ensures Text(lines) == Text(old(lines)) + [c, e]
    {
      MoreText(lines, [c, e]);
      MoreWidths(lines, [c, e], extra);
      out := out + [c, e];
      count := count - 2;
      Continue(More(lines, [c, e]));
    }

    /** TEST2 after one character only, which counts for two. */
    method OutShort(c: char)
      requires Valid() && |lines| == 1 && extra == 0
      modifies this
      ensures Valid() && extra == 1
      ensures lines == More(old(lines), [c]) + if old(count) <= 2 then [""] else []
      ensures Text(lines) == Text(old(lines)) + [c]
    {
      MoreText(lines, [c]);
      out := out + [c];
      count := count - 2;
      extra := 1;
      Continue(More(lines, [c]));
    }

    /** A byte as two digits; the very first byte goes without a leading zero. */
    method OutByte(c: int, first: bool)
      requires Valid() && 0 <= c < 100 && (first ==> |lines| == 1 && extra == 0)
      modifies this
      ensures Valid() && extra == if c < 10 && first then 1 else old(extra)
      ensures Text(lines) == Text(old(lines)) + if c < 10 && first then [Digit(c)] else [Digit(c / 10), Digit(c % 10)]
    {
      if c < 10 && first {
        OutShort(Digit(c));
      } else {
        Out2(Digit(c / 10), Digit(c % 10));
      }
    }
  }

  // ----- tenot

  /** Taking the next byte down. */
  lemma NextByte(d: seq<int>, rd: nat)
    requires rd < |d| && Digits(d)
    ensures Val(d[rd..]) == Val(d[rd + 1..]) * 100 + d[rd] && 0 <= d[rd] < 100
  {
    assert d[rd..][1..] == d[rd + 1..];
  }

  /** The first byte printed takes one column when it is below ten, and every other takes two. */
  lemma OneMore(d: seq<int>, rd: nat, text: string)
    requires rd < |d| && Digits(d) && Drop(Val(d[rd + 1..]), Columns(d, rd + 1)) == 0
    ensures var c, first := d[rd], rd + 1 == |d|;
            var t := if c < 10 && first then [Digit(c)] else [Digit(c / 10), Digit(c % 10)];
            text + Decimals(Val(d[rd..]), Columns(d, rd)) == text + Decimals(Val(d[rd + 1..]), Columns(d, rd + 1)) + t
            && Drop(Val(d[rd..]), Columns(d, rd)) == 0
  {
    NextByte(d, rd);
    var c := d[rd];
    if rd + 1 == |d| {
      assert d[rd + 1..] == [];
      if c < 10 { DecimalsOne(0, c, 0); }
    }
    if !(rd + 1 == |d| && c < 10) {
      DecimalsTwo(Val(d[rd + 1..]), c, Columns(d, rd + 1));
    }
  }

  /** The whole bytes left of the point. */
  method PrintInteger(p: Blk, sc: nat, pr: Printer)
    requires Digits(p.d) && pr.Valid() && |pr.lines| == 1 && pr.extra == 0
    modifies p`rd, pr
    ensures p.rd <= |p.d| && (p.rd == 0 || (p.rd - 1) * 2 < sc) && (p.rd < |p.d| ==> p.rd * 2 >= sc)
    ensures pr.Valid() && Drop(Val(p.d[p.rd..]), Columns(p.d, p.rd)) == 0
    ensures Text(pr.lines) == Text(old(pr.lines)) + Decimals(Val(p.d[p.rd..]), Columns(p.d, p.rd))
    ensures pr.extra == if p.rd < |p.d| && p.d[|p.d| - 1] < 10 then 1 else 0
  {
    ghost var before := Text(pr.lines);
    p.Fsfile();
    assert p.d[|p.d|..] == [] && before + Decimals(0, 0) == before;
    var first := true;
    while !p.Sfbeg() && (p.rd - 1) * 2 >= sc
      invariant p.rd <= |p.d| && (p.rd < |p.d| ==> p.rd * 2 >= sc) && (first <==> p.rd == |p.d|)
      invariant pr.Valid() && (first ==> |pr.lines| == 1)
      invariant pr.extra == if !first && p.d[|p.d| - 1] < 10 then 1 else 0
      invariant Drop(Val(p.d[p.rd..]), Columns(p.d, p.rd)) == 0
      invariant Text(pr.lines) == before + Decimals(Val(p.d[p.rd..]), Columns(p.d, p.rd))
      decreases p.rd
    {
      OneMore(p.d, p.rd - 1, before);
      var c := p.Sbackc();
      pr.OutByte(c, first);
      first := false;
    }
  }

  /** The columns in front of the point, from those above it. */
  lemma WidthAtPoint(d: seq<int>, sc: nat, rd: nat)
    requires rd <= |d| && (rd == 0 || (rd - 1) * 2 < sc) && (rd < |d| ==> rd * 2 >= sc)
    ensures IntWidth(d, sc) == Columns(d, rd) + if rd * 2 > sc then 1 else 0
  {
  }

  /** The text in front, the point, and k of the decimals. */
  function Pointed(x: int, k: nat, m: nat): string { Decimals(Drop(x, k), m) + "." + Decimals(x, k) }

  /** A byte whose tens stand in front of the point. */
  lemma Straddle(v: int, c: int, w: nat, head: string)
    requires 0 <= c < 100
    ensures head + Decimals(v, w) + [Digit(c / 10), '.'] + [Digit(c % 10)] == head + Pointed(v * 100 + c, 1, w + 1)
  {
    var a, t, e := Decimals(v, w), Digit(c / 10), Digit(c % 10);
    StraddleDigits(v, c, w);
    Joined(head, a, t, e);
  }

  lemma StraddleDigits(v: int, c: int, w: nat)
    requires 0 <= c < 100
    ensures Pointed(v * 100 + c, 1, w + 1) == Decimals(v, w) + [Digit(c / 10)] + "." + [Digit(c % 10)]
  {
    var x, y := v * 100 + c, v * 10 + c / 10;
    assert x / 10 == y && x % 10 == c % 10;
    DecimalsOne(v, c / 10, w);
    assert Drop(x, 1) == Drop(y, 0) == y;
    assert Decimals(x, 1) == Decimals(y, 0) + [Digit(c % 10)] == [Digit(c % 10)];
  }

  lemma Joined(head: string, a: string, t: char, e: char)
    ensures head + a + [t, '.'] + [e] == head + (a + [t] + "." + [e])
  {
  }

  lemma PointOnly(v: int, w: nat, head: string)
    ensures head + Decimals(v, w) + ['.'] == head + Pointed(v, 0, w)
  {
  }

  /** One more zero behind the point of nothing. */
  lemma ZeroMore(k: nat, head: string)
    ensures head + Pointed(0, k, 0) + [Digit(0)] == head + Pointed(0, k + 1, 0)
  {
    DropZero(k);
    DropZero(k + 1);
    DecimalsOne(0, 0, k);
  }

  lemma PairMore(x: int, c: int, k: nat, m: nat, head: string)
    requires 0 <= c < 100
    ensures head + Pointed(x, k, m) + [Digit(c / 10), Digit(c % 10)] == head + Pointed(x * 100 + c, k + 2, m)
    ensures Drop(x * 100 + c, k + 2) == Drop(x, k)
  {
    DecimalsTwo(x, c, k);
  }

  /** The point, with the byte that straddles it or the zeros right after it. */
  method PrintPoint(p: Blk, sc: nat, pr: Printer, ghost head: string, ghost m: nat) returns (left: nat)
    requires m == IntWidth(p.d, sc) && Digits(p.d) && p.rd <= |p.d| && 0 < sc && pr.Valid()
    requires (p.rd == 0 || (p.rd - 1) * 2 < sc) && (p.rd < |p.d| ==> p.rd * 2 >= sc)
    requires Text(pr.lines) == head + Decimals(Val(p.d[p.rd..]), Columns(p.d, p.rd))
    modifies p`rd, pr`out, pr`count, pr`lines
    ensures pr.Valid() && p.rd <= |p.d| && left == p.rd * 2 <= sc
    ensures Text(pr.lines) == head + Pointed(Val(p.d[p.rd..]), sc - p.rd * 2, m)
  {
    ghost var v, w := Val(p.d[p.rd..]), Columns(p.d, p.rd);
    WidthAtPoint(p.d, sc, p.rd);
    if p.rd * 2 > sc {
      left := PrintStraddle(p, sc, pr, v, w, head);
    } else {
      left := PrintPlain(p.rd, sc, v, w, pr, head);
    }
  }

  /** The point between two bytes, with the zeros that follow it. */
  method PrintPlain(rd: nat, sc: nat, ghost v: int, ghost w: nat, pr: Printer, ghost head: string)
    returns (left: nat)
    requires rd * 2 <= sc && (rd * 2 < sc ==> v == 0 && w == 0)
    requires pr.Valid() && Text(pr.lines) == head + Decimals(v, w)
    modifies pr`out, pr`count, pr`lines
    ensures pr.Valid() && left == rd * 2 && Text(pr.lines) == head + Pointed(v, sc - rd * 2, w)
  {
    pr.Outc('.');
    PointOnly(v, w, head);
    left := PrintZeros(rd, sc, v, w, pr, head);
  }

  method PrintStraddle(p: Blk, sc: nat, pr: Printer, ghost v: int, ghost w: nat, ghost head: string)
    returns (left: nat)
    requires Digits(p.d) && 0 < p.rd <= |p.d| && sc == p.rd * 2 - 1 && pr.Valid()
    requires v == Val(p.d[p.rd..]) && Text(pr.lines) == head + Decimals(v, w)
    modifies p`rd, pr`out, pr`count, pr`lines
    ensures pr.Valid() && p.rd < |p.d| && left == p.rd * 2 == sc - 1
    ensures Text(pr.lines) == head + Pointed(Val(p.d[p.rd..]), 1, w + 1)
  {
    NextByte(p.d, p.rd - 1);
    var c := p.Sbackc();
    OutStraddle(c, pr, v, w, head);
    left := sc - 1;
  }

  method OutStraddle(c: int, pr: Printer, ghost v: int, ghost w: nat, ghost head: string)
    requires 0 <= c < 100 && pr.Valid() && Text(pr.lines) == head + Decimals(v, w)
    modifies pr`out, pr`count, pr`lines
    ensures pr.Valid() && Text(pr.lines) == head + Pointed(v * 100 + c, 1, w + 1)
  {
    Straddle(v, c, w, head);
    pr.Out2(Digit(c / 10), '.');
    pr.Outc(Digit(c % 10));
  }

  /** The zeros behind the point that are above the topmost byte. */
  method PrintZeros(rd: nat, sc: nat, ghost v: int, ghost w: nat, pr: Printer, ghost head: string)
    returns (left: nat)
    requires rd * 2 <= sc && (rd * 2 < sc ==> v == 0 && w == 0)
    requires pr.Valid() && Text(pr.lines) == head + Pointed(v, 0, w)
    modifies pr`out, pr`count, pr`lines
    ensures pr.Valid() && left == rd * 2 && Text(pr.lines) == head + Pointed(v, sc - rd * 2, w)
  {
    left := sc;
    while left > rd * 2
      invariant rd * 2 <= left <= sc && pr.Valid()
      invariant Text(pr.lines) == head + Pointed(v, sc - left, w)
    {
      ZeroMore(sc - left, head);
      pr.Outc('0');
      left := left - 1;
    }
  }

  /** The bytes behind the point, of which an even number of digits is left. */
  method PrintDecimals(p: Blk, sc: nat, start: nat, pr: Printer, ghost head: string, ghost m: nat)
    requires Digits(p.d) && p.rd <= |p.d| && start == p.rd * 2 <= sc && pr.Valid()
    requires Text(pr.lines) == head + Pointed(Val(p.d[p.rd..]), sc - start, m)
    modifies p`rd, pr
    ensures pr.Valid() && pr.extra == old(pr.extra) && Text(pr.lines) == head + Pointed(Val(p.d), sc, m)
  {
    var left := start;
    while left > 1
      invariant p.rd <= |p.d| && left == p.rd * 2 <= sc && pr.Valid() && pr.extra == old(pr.extra)
      invariant Text(pr.lines) == head + Pointed(Val(p.d[p.rd..]), sc - left, m)
      decreases p.rd
    {
      NextByte(p.d, p.rd - 1);
      PairMore(Val(p.d[p.rd..]), p.d[p.rd - 1], sc - left, m, head);
      var c := p.Sbackc();
      pr.OutByte(c, false);
      left := left - 2;
    }
    // left is even throughout, so the routine's last half byte never occurs
    assert p.d[0..] == p.d;
  }

  /** The point and everything behind it. */
  method PrintFraction(p: Blk, sc: nat, pr: Printer, ghost head: string)
    requires Digits(p.d) && p.rd <= |p.d| && 0 < sc && pr.Valid()
    requires (p.rd == 0 || (p.rd - 1) * 2 < sc) && (p.rd < |p.d| ==> p.rd * 2 >= sc)
    requires Text(pr.lines) == head + Decimals(Val(p.d[p.rd..]), Columns(p.d, p.rd))
    modifies p`rd, pr
    ensures pr.Valid() && pr.extra == old(pr.extra) && Text(pr.lines) == head + Printed(p.d, sc)
  {
    ghost var m := IntWidth(p.d, sc);
    var left := PrintPoint(p, sc, pr, head, m);
    PrintDecimals(p, sc, left, pr, head, m);
    PointedIs(p.d, sc);
  }

  lemma PointedIs(d: seq<int>, sc: nat)
    requires sc > 0
    ensures Pointed(Val(d), sc, IntWidth(d, sc)) == Printed(d, sc)
  {
  }

  /**
    tenot prints the number with its decimals, in lines broken where they are full. It is
    given the line so far, which is nothing or the sign.
   */
  method Tenot(p: Blk, sc: nat, pr: Printer)
    requires Digits(p.d) && pr.Valid() && |pr.lines| == 1 && pr.extra == 0
    modifies p`rd, pr
    ensures pr.out == Join(pr.lines) + "\n" && Text(pr.lines) == Text(old(pr.lines)) + Printed(p.d, sc)
    ensures Broken(pr.lines, pr.extra)
    ensures pr.extra == if p.d != [] && (|p.d| - 1) * 2 >= sc && p.d[|p.d| - 1] < 10 then 1 else 0
  {
    ghost var head := Text(pr.lines);
    PrintInteger(p, sc, pr);
    if sc == 0 {
      WholeOnly(p.d);
    } else {
      PrintFraction(p, sc, pr, head);
    }
    pr.out := pr.out + "\n";
  }

  lemma WholeOnly(d: seq<int>)
    ensures d[0..] == d && Printed(d, 0) == Decimals(Val(d), Columns(d, 0))
  {
    WidthAtPoint(d, 0, 0);
    assert d[0..] == d;
  }

  // ----- the numeral

  lemma {:induction false} DropDrop(x: int, a: nat, b: nat)
    ensures Drop(Drop(x, a), b) == Drop(x, a + b)
    decreases a
  {
    if a > 0 { DropDrop(x / 10, a - 1, b); }
  }

  lemma {:induction false} DropMore(x: int, a: nat, b: nat)
    requires a <= b && x >= 0
    ensures 0 <= Drop(x, b) <= Drop(x, a)
    decreases b
  {
    if a > 0 {
      DropMore(x / 10, a - 1, b - 1);
    } else if b > 0 {
      DropMore(x / 10, 0, b - 1);
    }
  }

  /** The columns are as many as there are digits, if the topmost byte is not zero. */
  lemma {:induction false} ColumnsHold(d: seq<int>, rd: nat)
    requires rd <= |d| && Digits(d)
    ensures Drop(Val(d[rd..]), Columns(d, rd)) == 0
    ensures rd < |d| && d[|d| - 1] > 0 ==> Drop(Val(d[rd..]), Columns(d, rd) - 1) > 0
    decreases |d| - rd
  {
    if rd == |d| {
      assert d[rd..] == [];
    } else {
      ColumnsHold(d, rd + 1);
      OneMore(d, rd, "");
      NextByte(d, rd);
      var k := Columns(d, rd + 1);
      if k > 0 {
        DecimalsTwo(Val(d[rd + 1..]), d[rd], k - 1);
      } else {
        assert d[rd + 1..] == [];
        assert Drop(d[rd], 1) == Drop(d[rd] / 10, 0);
      }
    }
  }

  /** All digits in front of the point are printed. */
  lemma WidthHolds(d: seq<int>, sc: nat)
    requires Digits(d)
    ensures Drop(Drop(Val(d), sc), IntWidth(d, sc)) == 0
  {
    DigitsBound(d);
    ColumnsHold(d, 0);
    assert d[0..] == d;
    DropDrop(Val(d), sc, IntWidth(d, sc));
    DropMore(Val(d), Columns(d, 0), sc + IntWidth(d, sc));
  }

  /**
    A normal number is printed as the numeral of its whole part and then, if it has decimals,
    the point and exactly as many. A whole part of zero is left out, except that 0 is printed
    when the number of decimals is odd and the first of them is not zero.
   */
  lemma PrintedIs(d: seq<int>, sc: nat)
    requires Normal(d) && Digits(d)
    ensures Power(10, sc) >= 1 && (sc > 0 ==> Power(10, sc - 1) >= 1) && Val(d) >= 0
    ensures var n := Val(d) / Power(10, sc);
            Printed(d, sc) ==
            (if n > 0 then Numeral(n) else if sc % 2 == 1 && Val(d) / Power(10, sc - 1) > 0 then "0" else "")
            + if sc > 0 then "." + Decimals(Val(d), sc) else ""
  {
    DigitsBound(d);
    DropIsQuotient(Val(d), sc);
    if sc > 0 { DropIsQuotient(Val(d), sc - 1); }
    WholePart(d, sc);
  }

  lemma WholePart(d: seq<int>, sc: nat)
    requires Normal(d) && Digits(d)
    ensures var n := Drop(Val(d), sc);
            && n >= 0
            && Decimals(n, IntWidth(d, sc)) ==
               if n > 0 then Numeral(n) else if sc % 2 == 1 && Drop(Val(d), sc - 1) > 0 then "0" else ""
  {
    DigitsBound(d);
    ColumnsHold(d, 0);
    assert d[0..] == d;
    var v, m, c := Val(d), IntWidth(d, sc), Columns(d, 0);
    DropMore(v, 0, sc);
    if Drop(v, sc) > 0 {
      if c <= sc { DropMore(v, c, sc); }
      DropDrop(v, sc, m);
      DropDrop(v, sc, m - 1);
      NumeralIs(Drop(v, sc), m);
    } else {
      if d != [] && c - 1 >= sc { DropMore(v, sc, c - 1); }
      if sc % 2 == 1 && c <= sc - 1 { DropMore(v, c, sc - 1); }
      assert Decimals(0, 1) == "0";
    }
  }
}
