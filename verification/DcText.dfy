/** dc's reader (dc.c: readin, scale) at input base 10, and what it makes of a line that dc prints. */
module DcText {
  import opened Radix
  import opened Blocks
  import opened DcArith
  import opened DcDiv
  import opened DcEstimate
  import opened DcOps
  import opened DcPrint

  // ----- what the reader makes of a text, character by character

  /** The reader's progress: number so far, point seen, decimals counted, next character skipped. */
  datatype Reading = Reading(v: int, dp: bool, dpct: nat, skip: bool)

  const START := Reading(0, false, 0, false)

  function DigitOf(c: char): int {
    if 'A' <= c <= 'F' then c as int - 'A' as int + 10
    else if '0' <= c <= '9' then c as int - '0' as int
    else -1
  }

  /** Does this character end the number? */
  predicate Ends(st: Reading, c: char) {
    !st.skip && if c == '.' then st.dp else c != '\\' && DigitOf(c) < 0
  }

  function Read1(st: Reading, c: char): Reading {
    if st.skip then st.(skip := false)
    else if c == '.' then st.(dp := true)
    else if c == '\\' then st.(skip := true)
    else if !st.dp then st.(v := st.v * 10 + DigitOf(c))
    else if st.dpct >= 100 - 1 then st
    else st.(v := st.v * 10 + DigitOf(c), dpct := st.dpct + 1)
  }

  /** The state after a text none of whose characters ends the number, if there is one. */
  predicate Accepts(st: Reading, s: string)
    decreases s
  {
    s == [] || (!Ends(st, s[0]) && Accepts(Read1(st, s[0]), s[1..]))
  }

  function Read(st: Reading, s: string): Reading
    decreases s
  {
    if s == [] then st else Read(Read1(st, s[0]), s[1..])
  }

  lemma {:induction false} ReadConcat(st: Reading, a: string, b: string)
    ensures Read(st, a + b) == Read(Read(st, a), b)
    ensures Accepts(st, a + b) <==> Accepts(st, a) && Accepts(Read(st, a), b)
    decreases a
  {
    if a == [] {
      assert a + b == b;
    } else {
      assert (a + b)[0] == a[0] && (a + b)[1..] == a[1..] + b;
      ReadConcat(Read1(st, a[0]), a[1..], b);
    }
  }

  /** A text that takes the reader from st to st'. */
  predicate Leads(st: Reading, s: string, st': Reading) {
    Accepts(st, s) && Read(st, s) == st'
  }

  lemma LeadsConcat(st: Reading, a: string, st': Reading, b: string, st'': Reading)
    requires Leads(st, a, st') && Leads(st', b, st'')
    ensures Leads(st, a + b, st'')
  {
    ReadConcat(st, a, b);
  }

  /** Where a digit takes the reader, while there is room for decimals. */
  function After(st: Reading, d: int): Reading {
    Reading(st.v * 10 + d, st.dp, if st.dp then st.dpct + 1 else st.dpct, false)
  }

  lemma LeadsDigit(st: Reading, d: int)
    requires 0 <= d < 10 && !st.skip && (st.dp ==> st.dpct < 99)
    ensures Leads(st, [Digit(d)], After(st, d))
  {
    assert [Digit(d)][1..] == [];
  }

  lemma LeadsContinuation(st: Reading)
    requires !st.skip
    ensures Leads(st, "\\\n", st)
  {
    assert "\\\n"[1..] == "\n" && "\n"[1..] == "";
    assert Read(st, "\\\n") == Read(Read1(st, '\\'), "\n");
  }

  lemma LeadsPoint(st: Reading)
    requires !st.skip && !st.dp
    ensures Leads(st, ".", st.(dp := true))
  {
    assert "."[1..] == "";
  }

  // ----- what a text stands for

  const NUMERALS := "0123456789ABCDEF"

  /** The sixteen digits are digits in any base; no other character is. */
  lemma DigitsAre(c: char)
    ensures DigitOf(c) == -1 || (0 <= DigitOf(c) < 16 && NUMERALS[DigitOf(c)] == c)
    ensures forall i :: 0 <= i < 16 ==> DigitOf(NUMERALS[i]) == i
  {
  }

  function Numerals(ds: seq<nat>): (s: string)
    requires forall i :: 0 <= i < |ds| ==> ds[i] < 16
    ensures |s| == |ds|
  {
    seq(|ds|, i requires 0 <= i < |ds| => NUMERALS[ds[i]])
  }

  /** Each digit counts ten times less than the one before it. */
  function Positional(v: int, ds: seq<nat>): int {
    if ds == [] then v else Positional(v, ds[..|ds| - 1]) * 10 + ds[|ds| - 1]
  }

  /** Of n decimals, 99 are kept. */
  function Kept(n: nat): nat { if n <= 99 then n else 99 }

  lemma {:induction false} ReadsDigits(st: Reading, ds: seq<nat>)
    requires !st.skip && (st.dp ==> st.dpct == 0) && forall i :: 0 <= i < |ds| ==> ds[i] < 16
    ensures Leads(st, Numerals(ds),
                  if st.dp then st.(v := Positional(st.v, ds[..Kept(|ds|)]), dpct := Kept(|ds|))
                  else st.(v := Positional(st.v, ds)))
    decreases |ds|
  {
    if ds != [] {
      var n := |ds| - 1;
      var front, c := ds[..n], NUMERALS[ds[n]];
      ReadsDigits(st, front);
      DigitsAre(c);
      var mid := Read(st, Numerals(front));
      assert [c][1..] == [] && Numerals(ds) == Numerals(front) + [c];
      LeadsConcat(st, Numerals(front), mid, [c], Read1(mid, c));
      assert front[..Kept(n)] == ds[..Kept(n)];
      assert n < 99 ==> ds[..n + 1][..n] == ds[..n];
      assert ds[..|ds|] == ds;
    }
  }

  /** Digits, a point and digits are read as the number they stand for, with at most 99 decimals. */
  lemma ReadsNumber(whole: seq<nat>, decimals: seq<nat>)
    requires forall i :: 0 <= i < |whole| ==> whole[i] < 16
    requires forall i :: 0 <= i < |decimals| ==> decimals[i] < 16
    ensures var n := Kept(|decimals|);
            Leads(START, Numerals(whole) + "." + Numerals(decimals),
                  Reading(Positional(Positional(0, whole), decimals[..n]), true, n, false))
  {
    var st := Reading(Positional(0, whole), false, 0, false);
    ReadsDigits(START, whole);
    LeadsPoint(st);
    ReadsDigits(st.(dp := true), decimals);
    LeadsConcat(START, Numerals(whole), st, ".", st.(dp := true));
    LeadsConcat(START, Numerals(whole) + ".", st.(dp := true), Numerals(decimals),
                Read(st.(dp := true), Numerals(decimals)));
  }

  // ----- what is printed, as the reader takes it

  /** The last k digits of x, read behind the others. */
  lemma {:induction false} LeadsDecimals(st: Reading, x: int, k: nat)
    requires st.v == Drop(x, k) && !st.skip && (st.dp ==> st.dpct + k <= 99)
    ensures Leads(st, Decimals(x, k), Reading(x, st.dp, if st.dp then st.dpct + k else st.dpct, false))
    decreases k
  {
    if k > 0 {
      LeadsDecimals(st, x / 10, k - 1);
      var mid := Reading(x / 10, st.dp, if st.dp then st.dpct + k - 1 else st.dpct, false);
      LeadsDigit(mid, x % 10);
      LeadsConcat(st, Decimals(x / 10, k - 1), mid, [Digit(x % 10)], After(mid, x % 10));
    }
  }

  /** Whatever is printed is read as the number with its scale. */
  lemma LeadsPrinted(d: seq<int>, sc: nat)
    requires Digits(d) && sc <= 99
    ensures Leads(START, Printed(d, sc), Reading(Val(d), sc > 0, sc, false))
  {
    var n, m := Drop(Val(d), sc), IntWidth(d, sc);
    var whole := Reading(n, false, 0, false);
    WidthHolds(d, sc);
    LeadsDecimals(START, n, m);
    if sc > 0 {
      LeadsPoint(whole);
      LeadsDecimals(whole.(dp := true), Val(d), sc);
      LeadsConcat(START, Decimals(n, m), whole, ".", whole.(dp := true));
      LeadsConcat(START, Decimals(n, m) + ".", whole.(dp := true), Decimals(Val(d), sc),
                  Reading(Val(d), true, sc, false));
      assert Printed(d, sc) == Decimals(n, m) + "." + Decimals(Val(d), sc);
    } else {
      assert Printed(d, 0) == Decimals(n, m);
    }
  }

  /** A text without a backslash leaves nothing to be skipped. */
  lemma {:induction false} NoSkip(st: Reading, s: string)
    requires !st.skip && '\\' !in s
    ensures !Read(st, s).skip
    decreases s
  {
    if s != [] { NoSkip(Read1(st, s[0]), s[1..]); }
  }

  /** Breaking a number into lines changes nothing for the reader. */
  lemma {:induction false} LeadsLines(st: Reading, lines: seq<string>, st': Reading)
    requires Leads(st, Text(lines), st') && !st.skip && '\\' !in Text(lines)
    ensures Leads(st, Join(lines), st')
    decreases |lines|
  {
    if lines != [] {
      var n := |lines| - 1;
      var front, last := lines[..n], lines[n];
      var mid := Read(st, Text(front));
      ReadConcat(st, Text(front), last);
      NoSkip(st, Text(front));
      if n == 0 {
        assert Text(front) == "" && "" + last == last;
      } else {
        LeadsLines(st, front, mid);
        LeadsContinuation(mid);
        LeadsConcat(st, Join(front), mid, "\\\n", mid);
        LeadsConcat(st, Join(front) + "\\\n", mid, last, st');
      }
    }
  }

  lemma {:induction false} DecimalsPlain(x: int, k: nat)
    ensures '\\' !in Decimals(x, k)
    decreases k
  {
    if k > 0 { DecimalsPlain(x / 10, k - 1); }
  }

  lemma LeadsBroken(d: seq<int>, sc: nat, lines: seq<string>)
    requires Digits(d) && sc <= 99 && Text(lines) == Printed(d, sc)
    ensures Leads(START, Join(lines), Reading(Val(d), sc > 0, sc, false))
  {
    DecimalsPlain(Drop(Val(d), sc), IntWidth(d, sc));
    DecimalsPlain(Val(d), sc);
    LeadsPrinted(d, sc);
    LeadsLines(START, lines, Reading(Val(d), sc > 0, sc, false));
  }

  // ----- the reader

  /** `scale`: p with n decimals, computed as p * 10^n / 10^n. */
  method Scale(p: Blk, n: nat, sqtemp: Blk, divxyz: Blk) returns (q: Blk)
    requires sqtemp != divxyz && sqtemp.d == [2] && p != divxyz
    requires Normal(p.d) && Digits(p.d) && n <= 99
    modifies p`rd, sqtemp`rd, divxyz
    ensures fresh(q) && q.d == p.d + [n]
  {
    ghost var v := Val(p.d);
    DigitsBound(p.d);
    var t := Add0(p, n);
    var ex := new Blk([n]);
    assert Val([n]) == n;
    var inbas := new Blk([10]);
    assert Val([10]) == 10;
    var s := Dcexp(inbas, ex, sqtemp, divxyz);
    PowerPositive(n);
    NormalSign(s.d);
    var rem;
    q, rem := Div(t, s, divxyz);
    ExactQuotient(v, Power(10, n), Val(q.d), Val(rem.d));
    NormalUnique(q.d, p.d);
    q.Sputc(n);
  }

  lemma ExactQuotient(v: int, p: int, q: int, r: int)
    requires p >= 1 && v >= 0 && Divides(v * p, p, q, r)
    ensures q == v
  {
    if v > q {
      MulLe(p, q + 1, v);
    } else if v < q {
      MulLe(p, v, q - 1);
    }
  }

  /** One more digit: p * 10 + c. */
  method AppendDigit(p: Blk, c: int) returns (r: Blk)
    requires Normal(p.d) && Digits(p.d) && 0 <= c < 16
    modifies p`rd
    ensures fresh(r) && Normal(r.d) && Digits(r.d) && Val(r.d) == Val(p.d) * 10 + c
  {
    DigitsBound(p.d);
    var chptr := new Blk([]);
    if c != 0 {
      chptr.Sputc(c);
    }
    assert Val([c]) == c;
    var inbas := new Blk([10]);
    assert Val([10]) == 10;
    var q := Mult(p, inbas);
    r := Add(chptr, q);
    NormalSign(r.d);
  }

  /** The reader is in state st with number p and the counters of its loop. */
  ghost predicate InState(st: Reading, p: seq<int>, dp: bool, dpct: int) {
    Normal(p) && Digits(p) && !st.skip && st.v == Val(p) && st.dp == dp && st.dpct == dpct <= 99
  }

  /**
    `readin` consumes the longest text that is still a number and returns its
    value with the count of decimals as scale byte.
   */
  method Readin(input: string, sqtemp: Blk, divxyz: Blk) returns (q: Blk, pos: nat)
    requires sqtemp != divxyz && sqtemp.d == [2]
    modifies sqtemp`rd, divxyz
    ensures pos <= |input| && Accepts(START, input[..pos])
    ensures var st := Read(START, input[..pos]);
            && (pos < |input| ==> Ends(st, input[pos]))
            && (!st.skip ==> q.d != [] && Normal(q.d[..|q.d| - 1]) && Val(q.d[..|q.d| - 1]) == st.v
                             && q.d[|q.d| - 1] == if st.dp then st.dpct else 0)
  {
    var dp, dpct := false, 0;
    var p := new Blk([]);
    pos := 0;
    while pos < |input|
      invariant pos <= |input| && fresh(p)
      invariant Accepts(START, input[..pos]) && InState(Read(START, input[..pos]), p.d, dp, dpct)
    {
      ghost var st := Read(START, input[..pos]);
      var c := input[pos];
      if (c == '.' && dp) || (c != '.' && c != '\\' && DigitOf(c) < 0) {
        break;
      }
      ReadStep(input, pos);
      if c == '.' {
        dp := true;
      } else if c == '\\' {
        pos := pos + 1;
        if pos < |input| {
          ReadStep(input, pos);
        } else {
          assert input[..pos] == input;
          return p, pos;
        }
      } else if !dp {
        p := AppendDigit(p, DigitOf(c));
      } else if dpct < 100 - 1 {
        dpct := dpct + 1;
        p := AppendDigit(p, DigitOf(c));
      }
      pos := pos + 1;
    }
    if !dp {
      q := new Blk(p.d + [0]);
    } else {
      q := Scale(p, dpct, sqtemp, divxyz);
    }
    assert q.d[..|q.d| - 1] == p.d;
  }

  lemma ReadStep(input: string, pos: nat)
    requires pos < |input|
    ensures var st := Read(START, input[..pos]);
            && Read(START, input[..pos + 1]) == Read1(st, input[pos])
            && (Accepts(START, input[..pos]) && !Ends(st, input[pos]) ==> Accepts(START, input[..pos + 1]))
  {
    assert input[..pos + 1] == input[..pos] + [input[pos]];
    ReadConcat(START, input[..pos], [input[pos]]);
    assert [input[pos]][1..] == [];
  }

  /** A text followed by a newline is read up to the newline. */
  lemma StopsAtNewline(body: string, st: Reading, pos: nat)
    requires Leads(START, body, st) && !st.skip
    requires var input := body + "\n";
             && pos <= |input| && Accepts(START, input[..pos])
             && (pos < |input| ==> Ends(Read(START, input[..pos]), input[pos]))
    ensures pos == |body|
  {
    var input := body + "\n";
    if pos < |body| {
      assert input[..pos] == body[..pos] && body == body[..pos] + body[pos..];
      assert body[pos..][0] == input[pos];
      ReadConcat(START, body[..pos], body[pos..]);
      assert false;
    } else if pos > |body| {
      assert input[..pos] == body + "\n";
      ReadConcat(START, body, "\n");
      assert false;
    }
  }

  /**
    Printing a positive number and reading the line back gives the same digits and
    the same scale.
   */
  method PrintThenRead(p: Blk, sc: nat, sqtemp: Blk, divxyz: Blk) returns (q: Blk)
    requires sqtemp != divxyz && sqtemp.d == [2] && p != divxyz
    requires Normal(p.d) && Val(p.d) > 0 && sc <= 99
    modifies p`rd, sqtemp`rd, divxyz
    ensures q.d == p.d + [sc]
  {
    NormalSign(p.d);
    var pr := new Printer();
    assert Text([""]) == "" && "" + Printed(p.d, sc) == Printed(p.d, sc);
    Tenot(p, sc, pr);
    LeadsBroken(p.d, sc, pr.lines);
    var pos;
    q, pos := Readin(pr.out, sqtemp, divxyz);
    StopsAtNewline(Join(pr.lines), Reading(Val(p.d), sc > 0, sc, false), pos);
    assert pr.out[..pos] == Join(pr.lines);
    NormalUnique(q.d[..|q.d| - 1], p.d);
    assert q.d == q.d[..|q.d| - 1] + [q.d[|q.d| - 1]];
  }
}
