/**
  ed's `g` (ed.c: global): a mark bit in the handle of every matching line, then the
  command list once for each marked line, each time starting over at line zero.
 */
module EdGlobal {
  import opened EdLines

  // ----- what a command list may do to the buffer

  /**
    The effects of editing commands on the handle array: append (a, i, c, r, t and
    the extra lines of s), rdelete (d, c, j), storing a line anew (s, j, u), move,
    and starting over (e).
   */
  datatype Edit = Insert(after: nat, h: int) | Delete(lo: nat, hi: nat) | Replace(at: nat, h: int)
                | MoveBlock(lo: nat, hi: nat, to: nat) | Reset

  /** Addresses are in range, and handles come from putline, whose results are even. */
  predicate Legal(s: seq<int>, e: Edit) {
    match e
    case Insert(after, h) => after < |s| && !Marked(h)
    case Delete(lo, hi) => 0 < lo <= hi < |s|
    case Replace(at, h) => 0 < at < |s| && !Marked(h)
    case MoveBlock(lo, hi, to) => 0 < lo < hi <= |s| && to < |s|
    case Reset => s != []
  }

  function Apply(s: seq<int>, e: Edit): seq<int>
    requires Legal(s, e)
  {
    match e
    case Insert(after, h) => s[..after + 1] + [h] + s[after + 1..]
    case Delete(lo, hi) => s[..lo] + s[hi + 1..]
    case Replace(at, h) => s[at := h]
    case MoveBlock(lo, hi, to) => AfterMove(s, lo, hi, to)
    case Reset => s[..1]
  }

  /** The lines, and whether no edit was refused. */
  datatype Outcome = Outcome(lines: seq<int>, ok: bool)

  /** A move into its own block is found out only after its marks have been cleared. */
  predicate TooLate(e: Edit) { e.MoveBlock? && e.lo <= e.to < e.hi }

  /** Edits one after the other. One that ed refuses is an error, which ends the whole command. */
  function Run(s: seq<int>, es: seq<Edit>): Outcome
    decreases |es|
  {
    if es == [] then Outcome(s, true)
    else if !Legal(s, es[0]) then Outcome(s, false)
    else if TooLate(es[0]) then Outcome(Apply(s, es[0]), false)
    else Run(Apply(s, es[0]), es[1..])
  }

  // ----- counting marks

  /** How many of the first n cells are marked. */
  function MarksUpTo(s: seq<int>, n: nat): nat
    requires n <= |s|
  {
    if n == 0 then 0 else MarksUpTo(s, n - 1) + (if Marked(s[n - 1]) then 1 else 0)
  }

  function Marks(s: seq<int>): nat { MarksUpTo(s, |s|) }

  lemma {:induction false} MarksUpToConcat(s: seq<int>, t: seq<int>, n: nat)
    requires n <= |s| + |t|
    ensures MarksUpTo(s + t, n) == if n <= |s| then MarksUpTo(s, n) else Marks(s) + MarksUpTo(t, n - |s|)
  {
    if n > 0 {
      MarksUpToConcat(s, t, n - 1);
    }
  }

  lemma MarksConcat(s: seq<int>, t: seq<int>)
    ensures Marks(s + t) == Marks(s) + Marks(t)
  {
    MarksUpToConcat(s, t, |s| + |t|);
  }

  lemma MarksOne(h: int)
    ensures Marks([h]) == if Marked(h) then 1 else 0
  {
    assert MarksUpTo([h], 0) == 0;
  }

  lemma MarksSplit(s: seq<int>, n: nat)
    requires n <= |s|
    ensures Marks(s) == Marks(s[..n]) + Marks(s[n..])
  {
    assert s == s[..n] + s[n..];
    MarksConcat(s[..n], s[n..]);
  }

  lemma MarksUpdate(s: seq<int>, i: nat, h: int)
    requires i < |s|
    ensures Marks(s[i := h]) == Marks(s) - (if Marked(s[i]) then 1 else 0) + (if Marked(h) then 1 else 0)
  {
    MarksSplit(s, i);
    MarksSplit(s[i..], 1);
    assert s[i..][..1] == [s[i]] && s[i..][1..] == s[i + 1..];
    assert s[i := h] == s[..i] + ([h] + s[i + 1..]);
    MarksConcat(s[..i], [h] + s[i + 1..]);
    MarksConcat([h], s[i + 1..]);
    MarksOne(h);
    MarksOne(s[i]);
  }

  lemma MarksCleared(s: seq<int>, lo: nat, hi: nat)
    requires lo <= hi <= |s|
    ensures Marks(Cleared(s, lo, hi)) <= Marks(s)
  {
    MarksFewer(s, Cleared(s, lo, hi), |s|);
  }

  lemma {:induction false} MarksFewer(s: seq<int>, r: seq<int>, n: nat)
    requires n <= |s| == |r| && forall i :: 0 <= i < |s| ==> Marked(r[i]) ==> Marked(s[i])
    ensures MarksUpTo(r, n) <= MarksUpTo(s, n)
  {
    if n > 0 {
      MarksFewer(s, r, n - 1);
    }
  }

  /** Exchanging two neighbouring parts keeps the count. */
  lemma MarksSwap(s: seq<int>, r: seq<int>, a: seq<int>, b: seq<int>, c: seq<int>, d: seq<int>)
    requires s == a + b + c + d && r == a + c + b + d
    ensures Marks(r) == Marks(s)
  {
    MarksFour(s, a, b, c, d);
    MarksFour(r, a, c, b, d);
  }

  lemma MarksFour(s: seq<int>, a: seq<int>, b: seq<int>, c: seq<int>, d: seq<int>)
    requires s == a + b + c + d
    ensures Marks(s) == Marks(a) + Marks(b) + Marks(c) + Marks(d)
  {
    var ab := a + b;
    var abc := ab + c;
    MarksConcat(abc, d);
    MarksConcat(ab, c);
    MarksConcat(a, b);
  }

  lemma InsertMakesNoMark(s: seq<int>, after: nat, h: int)
    requires after < |s| && !Marked(h)
    ensures Marks(s[..after + 1] + [h] + s[after + 1..]) == Marks(s)
  {
    MarksSplit(s, after + 1);
    MarksConcat(s[..after + 1] + [h], s[after + 1..]);
    MarksConcat(s[..after + 1], [h]);
    MarksOne(h);
  }

  lemma DeleteMakesNoMark(s: seq<int>, lo: nat, hi: nat)
    requires lo <= hi < |s|
    ensures Marks(s[..lo] + s[hi + 1..]) <= Marks(s)
  {
    MarksSplit(s, lo);
    MarksSplit(s[lo..], hi + 1 - lo);
    assert s[lo..][hi + 1 - lo..] == s[hi + 1..];
    MarksConcat(s[..lo], s[hi + 1..]);
  }

  lemma MoveMakesNoMark(s: seq<int>, lo: nat, hi: nat, to: nat)
    requires 0 < lo < hi <= |s| && to < |s|
    ensures Marks(AfterMove(s, lo, hi, to)) <= Marks(s)
    ensures AfterMove(s, lo, hi, to) != [] && AfterMove(s, lo, hi, to)[0] == s[0]
  {
    var c := Cleared(s, lo, hi);
    MarksCleared(s, lo, hi);
    if to < lo || hi <= to {
      MovedMakesNoMark(c, lo, hi, to);
    }
  }

  lemma MovedMakesNoMark(c: seq<int>, lo: nat, hi: nat, to: nat)
    requires 0 < lo < hi <= |c| && to < |c| && (to < lo || hi <= to)
    ensures var r := Moved(c, lo, hi, to); Marks(r) == Marks(c) && r != [] && r[0] == c[0]
  {
    if to < lo {
      ExchangeMakesNoMark(c, to + 1, lo, hi);
    } else {
      ExchangeMakesNoMark(c, lo, hi, to + 1);
    }
  }

  lemma ExchangeMakesNoMark(s: seq<int>, i: nat, j: nat, k: nat)
    requires 0 < i <= j <= k <= |s|
    ensures var r := Exchanged(s, i, j, k); Marks(r) == Marks(s) && r != [] && r[0] == s[0]
  {
    var a, b, c, d := s[..i], s[i..j], s[j..k], s[k..];
    var r := Exchanged(s, i, j, k);
    assert s == a + b + c + d;
    MarksSwap(s, r, a, b, c, d);
    ExchangedAt(s, i, j, k, 0);
  }

  /** No editing command creates a mark or copies one. */
  lemma EditMakesNoMark(s: seq<int>, e: Edit)
    requires Legal(s, e)
    ensures Marks(Apply(s, e)) <= Marks(s) && s != [] && Apply(s, e) != [] && Apply(s, e)[0] == s[0]
  {
    match e {
      case Insert(after, h) => InsertMakesNoMark(s, after, h);
      case Delete(lo, hi) => DeleteMakesNoMark(s, lo, hi);
      case Replace(at, h) => MarksUpdate(s, at, h);
      case MoveBlock(lo, hi, to) => MoveMakesNoMark(s, lo, hi, to);
      case Reset => MarksSplit(s, 1);
    }
  }

  lemma {:induction false} EditsMakeNoMark(s: seq<int>, es: seq<Edit>)
    ensures Marks(Run(s, es).lines) <= Marks(s)
    ensures s != [] ==> Run(s, es).lines != [] && Run(s, es).lines[0] == s[0]
    decreases |es|
  {
    if es != [] && Legal(s, es[0]) {
      EditMakesNoMark(s, es[0]);
      EditsMakeNoMark(Apply(s, es[0]), es[1..]);
    }
  }

  // ----- the loop

  /** A command list: what it does depends on the lines and on dot. */
  type Commands = (seq<int>, nat) -> seq<Edit>

  function Round(s: seq<int>, a1: nat, cmd: Commands): (r: Outcome)
    requires a1 < |s| && Marked(s[a1])
    ensures Marks(r.lines) < Marks(s) && r.lines != [] && r.lines[0] == if a1 == 0 then Clear(s[0]) else s[0]
  {
    var c := s[a1 := Clear(s[a1])];
    MarksUpdate(s, a1, Clear(s[a1]));
    EditsMakeNoMark(c, cmd(c, a1));
    Run(c, cmd(c, a1))
  }

  /** What `global` leaves from a1 on, by recursion. */
  ghost function GlobalFrom(s: seq<int>, a1: nat, cmd: Commands): Outcome
    decreases Marks(s), |s| - a1
  {
    if a1 >= |s| then Outcome(s, true)
    else if Marked(s[a1]) then
      var r := Round(s, a1, cmd);
      if r.ok then GlobalFrom(r.lines, 1, cmd) else r
    else GlobalFrom(s, a1 + 1, cmd)
  }

  lemma GlobalStep(s: seq<int>, a1: nat, cmd: Commands)
    requires a1 < |s|
    ensures GlobalFrom(s, a1, cmd) ==
            if !Marked(s[a1]) then GlobalFrom(s, a1 + 1, cmd)
            else if Round(s, a1, cmd).ok then GlobalFrom(Round(s, a1, cmd).lines, 1, cmd)
            else Round(s, a1, cmd)
  {
  }

  /**
    `global` ends for every buffer and every command list: each round takes at least
    one mark away, so there are at most as many rounds as marks, and none is left
    unless an error ended it.
   */
  method Global(s: seq<int>, cmd: Commands) returns (r: seq<int>, ok: bool, rounds: nat)
    requires s != []
    ensures Outcome(r, ok) == GlobalFrom(s, 0, cmd) && rounds <= Marks(s)
    ensures ok ==> forall i :: 0 <= i < |r| ==> !Marked(r[i])
  {
    r, ok, rounds := s, true, 0;
    var a1: nat := 0;
    ghost var want := GlobalFrom(s, 0, cmd);
    while a1 < |r|
      invariant GlobalFrom(r, a1, cmd) == want && r != [] && ok
      invariant rounds + Marks(r) <= Marks(s) && Clean(r, a1)
      decreases Marks(r), |r| - a1
    {
      var ran;
      r, ok, a1, ran := Turn(r, a1, cmd, want);
      if ran {
        rounds := rounds + 1;
      }
      if !ok {
        return;
      }
    }
  }

  predicate Clean(s: seq<int>, n: nat) { forall i :: 0 <= i < n && i < |s| ==> !Marked(s[i]) }

  /** One turn of the loop: pass an unmarked line, or run the commands and start over. */
  method Turn(s: seq<int>, a1: nat, cmd: Commands, ghost want: Outcome)
    returns (r: seq<int>, ok: bool, a2: nat, ran: bool)
    requires a1 < |s| && GlobalFrom(s, a1, cmd) == want && Clean(s, a1)
    ensures r != [] && (if ok then GlobalFrom(r, a2, cmd) == want && Clean(r, a2) else Outcome(r, false) == want)
    ensures if ran then Marks(r) < Marks(s) else ok && r == s && a2 == a1 + 1
  {
    GlobalStep(s, a1, cmd);
    r, ok, a2, ran := s, true, a1 + 1, false;
    if Marked(s[a1]) {
      RoundKeepsZero(s, a1, cmd);
      var o := Round(s, a1, cmd);
      r, ok, a2, ran := o.lines, o.ok, 1, true;
    }
  }

  lemma RoundKeepsZero(s: seq<int>, a1: nat, cmd: Commands)
    requires a1 < |s| && Marked(s[a1]) && Clean(s, a1)
    ensures Clean(Round(s, a1, cmd).lines, 1)
  {
    var r := Round(s, a1, cmd);
    assert r.lines[0] == if a1 == 0 then Clear(s[0]) else s[0];
  }

  // ----- g/re/d

  /** The command list "d". */
  function DeleteDot(s: seq<int>, dot: nat): seq<Edit> { [Delete(dot, dot)] }

  lemma RunOne(s: seq<int>, e: Edit)
    ensures Run(s, [e]) == if Legal(s, e) then Outcome(Apply(s, e), !TooLate(e)) else Outcome(s, false)
  {
    assert [e][1..] == [];
  }

  lemma {:induction false} DeleteEachMarked(s: seq<int>, a1: nat)
    requires s != [] && !Marked(s[0]) && forall i :: 0 <= i < a1 && i < |s| ==> !Marked(s[i])
    ensures GlobalFrom(s, a1, DeleteDot) == Outcome(Unmarked(s), true)
    decreases Marks(s), |s| - a1
  {
    if a1 >= |s| {
      UnmarkedAll(s);
    } else if Marked(s[a1]) {
      var c := s[a1 := Clear(s[a1])];
      var r := Round(s, a1, DeleteDot);
      RunOne(c, Delete(a1, a1));
      assert r.lines == c[..a1] + c[a1 + 1..] == s[..a1] + s[a1 + 1..];
      DeleteEachMarked(r.lines, 1);
      WithoutMarked(s, a1);
    } else {
      DeleteEachMarked(s, a1 + 1);
    }
  }

  lemma WithoutMarked(s: seq<int>, a1: nat)
    requires a1 < |s| && Marked(s[a1])
    ensures Unmarked(s[..a1] + s[a1 + 1..]) == Unmarked(s)
  {
    var a, b := s[..a1], s[a1 + 1..];
    assert s == a + [s[a1]] + b;
    UnmarkedConcat(a + [s[a1]], b);
    UnmarkedConcat(a, [s[a1]]);
    UnmarkedConcat(a, b);
    UnmarkedOne(s[a1]);
  }

  /** On marked lines: d refuses line zero, gdelete does not. */
  lemma FastPathOnMarks(s: seq<int>)
    requires s != []
    ensures GlobalFrom(s, 0, DeleteDot) == Outcome(Unmarked(s), true) <==> !Marked(s[0])
    ensures Marked(s[0]) ==> GlobalFrom(s, 0, DeleteDot) == Outcome(s[0 := Clear(s[0])], false)
  {
    if Marked(s[0]) {
      RunOne(s[0 := Clear(s[0])], Delete(0, 0));
    } else {
      DeleteEachMarked(s, 0);
    }
  }

  // ----- a substitution on each line

  /** The command list that stores dot's line anew. */
  function ReplaceDot(f: int -> int): Commands {
    (s: seq<int>, dot: nat) => if dot < |s| then [Replace(dot, f(s[dot]))] else []
  }

  /** Every marked line has a new handle and no mark, the others are as they were. */
  function Renewed(s: seq<int>, f: int -> int): seq<int> {
    seq(|s|, i requires 0 <= i < |s| => if Marked(s[i]) then f(Clear(s[i])) else s[i])
  }

  lemma {:induction false} RenewEachMarked(s: seq<int>, a1: nat, f: int -> int)
    requires s != [] && !Marked(s[0]) && forall i :: 0 <= i < a1 && i < |s| ==> !Marked(s[i])
    requires forall h :: !Marked(f(h))
    ensures GlobalFrom(s, a1, ReplaceDot(f)) == Outcome(Renewed(s, f), true)
    decreases Marks(s), |s| - a1
  {
    if a1 >= |s| {
      assert Renewed(s, f) == s;
    } else if Marked(s[a1]) {
      var h := f(Clear(s[a1]));
      var c := s[a1 := Clear(s[a1])];
      var r := Round(s, a1, ReplaceDot(f));
      RunOne(c, Replace(a1, h));
      assert r.lines == c[a1 := h] == s[a1 := h];
      RenewEachMarked(r.lines, 1, f);
      assert Renewed(s[a1 := h], f) == Renewed(s, f);
    } else {
      RenewEachMarked(s, a1 + 1, f);
    }
  }

  /**
    With a command list that replaces dot by a new handle, the loop replaces each marked
    line and keeps all the others in order, exactly when line zero is not marked.
   */
  lemma SubstituteOnMarks(s: seq<int>, f: int -> int)
    requires s != [] && forall h :: !Marked(f(h))
    ensures GlobalFrom(s, 0, ReplaceDot(f)) == Outcome(Renewed(s, f), true) <==> !Marked(s[0])
    ensures Marked(s[0]) ==> GlobalFrom(s, 0, ReplaceDot(f)) == Outcome(s[0 := Clear(s[0])], false)
  {
    if Marked(s[0]) {
      var c := s[0 := Clear(s[0])];
      RunOne(c, Replace(0, f(c[0])));
    } else {
      RenewEachMarked(s, 0, f);
    }
  }

  // ----- marking

  /** What address the command was given, counted from line zero; ed fills in the whole buffer. */
  datatype Range = Whole | Given(lo: int, hi: int)

  /** setwide, for a buffer of n lines. */
  function Wide(r: Range, n: nat): (int, int) {
    match r
    case Whole => (if n > 0 then 1 else 0, n)
    case Given(lo, hi) => (lo, hi)
  }

  /** squeeze: line zero is allowed only in an empty buffer. */
  predicate Squeezed(lo: int, hi: int, n: nat) {
    (if n > 0 then 1 else 0) <= lo <= hi <= n
  }

  /** match, for any regular expression: it does not match at line zero. */
  predicate Matches(re: int -> bool, i: nat, h: int) { i != 0 && re(h) }

  function Mark(s: seq<int>, lo: int, hi: int, k: bool, re: int -> bool, i: nat): int
    requires i < |s|
  {
    var h := Clear(s[i]);
    if lo <= i <= hi && Matches(re, i, h) == k then h + 1 else h
  }

  /** The lines after the marking loop. */
  function MarkedFor(s: seq<int>, lo: int, hi: int, k: bool, re: int -> bool): seq<int> {
    seq(|s|, i requires 0 <= i < |s| => Mark(s, lo, hi, k, re, i))
  }

  method MarkLines(a: array<int>, dol: nat, lo: int, hi: int, k: bool, re: int -> bool)
    requires dol < a.Length
    modifies a
    ensures a[..dol + 1] == MarkedFor(old(a[..dol + 1]), lo, hi, k, re)
  {
    ghost var s := a[..dol + 1];
    var a1 := 0;
    while a1 <= dol
      invariant 0 <= a1 <= dol + 1
      invariant forall i :: 0 <= i < a1 ==> a[i] == Mark(s, lo, hi, k, re, i)
      invariant forall i :: a1 <= i <= dol ==> a[i] == s[i]
    {
      a[a1] := Clear(a[a1]);
      if lo <= a1 <= hi && Matches(re, a1, a[a1]) == k {
        a[a1] := a[a1] + 1;
      }
      a1 := a1 + 1;
    }
  }

  /** A line is marked exactly when it is in range and matches as asked; what it names does not change. */
  lemma MarksExactly(s: seq<int>, lo: int, hi: int, k: bool, re: int -> bool, i: nat)
    requires i < |s|
    ensures var m := MarkedFor(s, lo, hi, k, re);
            && Clear(m[i]) == Clear(s[i])
            && (Marked(m[i]) <==> lo <= i <= hi && ((i > 0 && re(Clear(s[i]))) <==> k))
  {
    assert Clear(s[i]) % 2 == 0;
  }

  /** Of the first n lines, those that are out of range or do not match as asked, unmarked. */
  function Left(s: seq<int>, lo: int, hi: int, k: bool, re: int -> bool, n: nat): seq<int>
    requires n <= |s|
  {
    if n == 0 then []
    else
      var h := Clear(s[n - 1]);
      Left(s, lo, hi, k, re, n - 1) + if lo <= n - 1 <= hi && ((n - 1 > 0 && re(h)) <==> k) then [] else [h]
  }

  lemma {:induction false} UnmarkedIsLeft(s: seq<int>, lo: int, hi: int, k: bool, re: int -> bool, n: nat)
    requires n <= |s|
    ensures UnmarkedUpTo(MarkedFor(s, lo, hi, k, re), n) == Left(s, lo, hi, k, re, n)
  {
    if n > 0 {
      UnmarkedIsLeft(s, lo, hi, k, re, n - 1);
      MarksExactly(s, lo, hi, k, re, n - 1);
    }
  }

  /** g/re/ with a substitution, on the lines before marking. */
  lemma SubstituteMatching(s: seq<int>, range: Range, k: bool, re: int -> bool, f: int -> int)
    requires s != [] && Squeezed(Wide(range, |s| - 1).0, Wide(range, |s| - 1).1, |s| - 1)
    requires !(|s| == 1 && !k) && forall h :: !Marked(f(h))
    ensures var (lo, hi) := Wide(range, |s| - 1);
            var r := GlobalFrom(MarkedFor(s, lo, hi, k, re), 0, ReplaceDot(f));
            && r.ok && |r.lines| == |s|
            && forall i :: 0 <= i < |s| ==>
                 var h := Clear(s[i]);
                 r.lines[i] == if lo <= i <= hi && ((i > 0 && re(h)) <==> k) then f(h) else h
  {
    var (lo, hi) := Wide(range, |s| - 1);
    var m := MarkedFor(s, lo, hi, k, re);
    MarksExactly(s, lo, hi, k, re, 0);
    SubstituteOnMarks(m, f);
    forall i | 0 <= i < |s|
      ensures var h := Clear(s[i]);
              Renewed(m, f)[i] == if lo <= i <= hi && ((i > 0 && re(h)) <==> k) then f(h) else h
    {
      MarksExactly(s, lo, hi, k, re, i);
    }
  }

  /** Line zero gets a mark exactly when v is used on an empty buffer. */
  lemma ZeroGetsMark(s: seq<int>, lo: int, hi: int, k: bool, re: int -> bool)
    requires s != [] && Squeezed(lo, hi, |s| - 1)
    ensures Marked(MarkedFor(s, lo, hi, k, re)[0]) <==> |s| == 1 && !k
  {
  }

  /**
    g/re/d and v/re/d: for every buffer, address and expression, the fast path and the
    general loop leave the same lines exactly when it is not v on an empty buffer. There
    the general loop ends in an error and gdelete takes away line zero itself.
   */
  lemma FastPathAgrees(s: seq<int>, range: Range, k: bool, re: int -> bool)
    requires s != [] && Squeezed(Wide(range, |s| - 1).0, Wide(range, |s| - 1).1, |s| - 1)
    ensures var (lo, hi) := Wide(range, |s| - 1);
            var m := MarkedFor(s, lo, hi, k, re);
            && (GlobalFrom(m, 0, DeleteDot) == Outcome(Unmarked(m), true) <==> !(|s| == 1 && !k))
            && (|s| == 1 && !k ==> GlobalFrom(m, 0, DeleteDot) == Outcome([Clear(s[0])], false) && Unmarked(m) == [])
  {
    var (lo, hi) := Wide(range, |s| - 1);
    var m := MarkedFor(s, lo, hi, k, re);
    ZeroGetsMark(s, lo, hi, k, re);
    FastPathOnMarks(m);
    if |s| == 1 && !k {
      UnmarkedOne(m[0]);
      assert m == [m[0]] && m[0 := Clear(m[0])] == [Clear(s[0])];
    }
  }

  /**
    The whole of g/re/d on the handle array: refused on a bad address, and dol is left
    before line zero exactly by v on an empty buffer.
   */
  method GlobalDelete(a: array<int>, dol: nat, range: Range, k: bool, re: int -> bool) returns (ok: bool, dol': int)
    requires dol < a.Length
    modifies a
    ensures ok == Squeezed(Wide(range, dol).0, Wide(range, dol).1, dol)
    ensures !ok ==> a[..] == old(a[..]) && dol' == dol
    ensures ok ==> -1 <= dol' <= dol && a[..dol' + 1] ==
                   Left(old(a[..dol + 1]), Wide(range, dol).0, Wide(range, dol).1, k, re, dol + 1)
    ensures ok ==> (dol' == -1 <==> dol == 0 && !k)
  {
    var (lo, hi) := Wide(range, dol);
    ok, dol' := Squeezed(lo, hi, dol), dol;
    if !ok {
      return;
    }
    ghost var s := a[..dol + 1];
    MarkLines(a, dol, lo, hi, k, re);
    ghost var m := a[..dol + 1];
    ZeroGetsMark(s, lo, hi, k, re);
    dol' := Gdelete(a, dol);
    UnmarkedIsLeft(s, lo, hi, k, re, dol + 1);
    ZeroStays(m);
  }

  lemma ZeroStays(m: seq<int>)
    requires m != []
    ensures !Marked(m[0]) ==> Unmarked(m) != []
    ensures |m| == 1 && Marked(m[0]) ==> Unmarked(m) == []
  {
    assert m == [m[0]] + m[1..];
    UnmarkedConcat([m[0]], m[1..]);
    UnmarkedOne(m[0]);
    assert |m| == 1 ==> m[1..] == [];
  }
}
