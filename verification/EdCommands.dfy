/**
  The commands of ed as edits: what they leave in the buffer is what a legal list of edits
  leaves, because the handles they bring in come from putline.
 */
module EdCommands {
  import opened EdStore
  import opened EdLines
  import opened EdBuffer
  import opened EdGlobal

  /** A handle that putline returned carries no mark. */
  lemma StoredUnmarked(st: Store, h: int)
    requires st.Valid() && h in st.lines
    ensures !Marked(h)
  {
  }

  /** m is one edit. */
  lemma MoveIsEdit(s: seq<int>, lo: nat, hi: nat, t: nat)
    requires 0 < lo < hi <= |s| && t < |s|
    ensures Run(s, [MoveBlock(lo, hi, t)]) == Outcome(AfterMove(s, lo, hi, t), t < lo || hi <= t)
  {
    RunOne(s, MoveBlock(lo, hi, t));
  }

  /** The edits that put the handles fs after line t, one after the other. */
  function Inserts(t: nat, fs: seq<int>): seq<Edit>
    decreases |fs|
  {
    if fs == [] then [] else [Insert(t, fs[0])] + Inserts(t + 1, fs[1..])
  }

  lemma {:induction false} InsertsBetween(a: seq<int>, b: seq<int>, fs: seq<int>, s: seq<int>, t: nat)
    requires t + 1 == |a| && s == a + b && forall i :: 0 <= i < |fs| ==> !Marked(fs[i])
    ensures Run(s, Inserts(t, fs)) == Outcome(a + fs + b, true)
    decreases |fs|
  {
    if fs == [] {
      assert a + fs + b == s;
    } else {
      var x, rest := fs[0], fs[1..];
      Split(s, a, b);
      InsertsBetween(a + [x], b, rest, a + [x] + b, t + 1);
      FirstThenRest(a, fs, b);
    }
  }

  lemma FirstThenRest(a: seq<int>, fs: seq<int>, b: seq<int>)
    requires fs != []
    ensures a + [fs[0]] + fs[1..] + b == a + fs + b
  {
    assert [fs[0]] + fs[1..] == fs;
  }

  lemma Split(s: seq<int>, a: seq<int>, b: seq<int>)
    requires s == a + b
    ensures s[..|a|] == a && s[|a|..] == b
  {
  }

  /** The t command on a buffer, as edits that insert the handles of the copies. */
  method Copy(b: Buffer, adt0: int, ghost t: nat, ghost block: seq<int>) returns (ok: bool, ghost fs: seq<int>)
    requires b.Valid() && b.zero < b.addr1 <= b.addr2 <= b.dol && b.zero <= adt0 <= b.dol && t == adt0 - b.zero
    requires block == b.cells[b.addr1 - b.zero..b.addr2 + 1 - b.zero] && AllReadable(b.store.lines, block)
    modifies b, b.mem, b.store, b.store.ibuff, b.store.obuff
    ensures ok <==> Room(old(b.store.tline), old(b.store.lines), block)
    ensures ok ==> b.Valid() && Outcome(b.cells, true) == Run(old(b.cells), Inserts(t, fs))
  {
    ghost var s := b.cells;
    ok, fs := b.CopyLines(adt0, t, block);
    if ok {
      forall i | 0 <= i < |fs| ensures !Marked(fs[i]) {
        StoredUnmarked(b.store, fs[i]);
      }
      assert s == s[..t + 1] + s[t + 1..];
      InsertsBetween(s[..t + 1], s[t + 1..], fs, s, t);
    }
  }

  // ----- one edit each

  /** rdelete after nonzero, as d and c use it: an address out of range is an error. */
  method DeleteLines(b: Buffer) returns (ok: bool)
    requires b.Valid()
    modifies b`dol, b`dot, b`cells, b.mem
    ensures b.Valid() && ok == (b.zero < b.addr1 <= b.addr2 <= old(b.dol))
    ensures var lo, hi := b.addr1 - b.zero, b.addr2 - b.zero;
            if ok then Outcome(b.cells, true) == Run(old(b.cells), [Delete(lo, hi)])
                       && b.dot == (if b.addr2 < old(b.dol) then b.addr1 else b.dol)
            else b.cells == old(b.cells) && b.dot == old(b.dot)
  {
    ok := b.zero < b.addr1 <= b.addr2 <= b.dol;
    if ok {
      RunOne(b.cells, Delete(b.addr1 - b.zero, b.addr2 - b.zero));
      DeleteRange(b, b.addr1 - b.zero, b.addr2 - b.zero);
    }
  }

  method DeleteRange(b: Buffer, lo: nat, hi: nat)
    requires b.Valid() && 0 < lo <= hi < |b.cells|
    modifies b`dol, b`dot, b`cells, b.mem
    ensures b.Valid() && b.cells == Apply(old(b.cells), Delete(lo, hi))
    ensures b.dot == if b.zero + hi < old(b.dol) then b.zero + lo else b.dol
  {
    var dol, dot := DeleteCells(b.mem, lo, hi, b.dol - b.zero, b.cells);
    b.dol, b.dot := b.zero + dol, b.zero + dot;
    b.cells := b.mem[..dol + 1];
  }

  method DeleteCells(a: array<int>, lo: nat, hi: nat, dol: nat, ghost s: seq<int>) returns (dol': nat, dot: nat)
    requires 0 < lo <= hi <= dol && dol + 1 < a.Length && s == a[..dol + 1]
    modifies a
    ensures dol' == dol - (hi - lo + 1) && a[..dol' + 1] == Apply(s, Delete(lo, hi))
    ensures dot == if hi < dol then lo else dol'
  {
    PartsOf(a[..], s, lo, hi + 1);
    dol', dot := Rdelete(a, lo, hi, dol);
  }

  lemma PartsOf(mem: seq<int>, s: seq<int>, lo: nat, hi: nat)
    requires lo <= hi <= |s| <= |mem| && s == mem[..|s|]
    ensures mem[..lo] == s[..lo] && mem[hi..|s|] == s[hi..]
  {
  }

  /** s, j and u: a line is stored and its handle takes the place of another. */
  method StoreLine(b: Buffer, at: int, line: seq<int>) returns (ok: bool, ghost h: int)
    requires b.Valid() && b.zero < at <= b.dol && 0 !in line
    modifies b`cells, b.mem, b.store, b.store.ibuff, b.store.obuff
    ensures ok == (old(b.store.tline) + |FirstLine(line)| < NBLK * RPB)
    ensures ok ==> b.Valid() && b.store.lines == old(b.store.lines)[h := FirstLine(line)]
    ensures ok ==> h !in old(b.store.lines) && Outcome(b.cells, true) == Run(old(b.cells), [Replace(at - b.zero, h)])
    ensures !ok ==> b.cells == old(b.cells)
  {
    var tl;
    ok, tl := b.store.PutLine(line);
    h := tl;
    if ok {
      StoredUnmarked(b.store, tl);
      PutHandle(b, at, tl);
    }
  }

  method PutHandle(b: Buffer, at: int, h: int)
    requires b.Valid() && b.zero < at <= b.dol && !Marked(h)
    modifies b`cells, b.mem
    ensures b.Valid() && Outcome(b.cells, true) == Run(old(b.cells), [Replace(at - b.zero, h)])
  {
    RunOne(b.cells, Replace(at - b.zero, h));
    b.mem[at - b.zero] := h;
    b.cells := b.mem[..b.dol - b.zero + 1];
  }

  /** One turn of append, once there is room: a line is stored and put after dot. */
  method AppendLine(b: Buffer, line: seq<int>) returns (ok: bool, ghost h: int)
    requires b.Valid() && b.zero <= b.dot <= b.dol && b.dol - b.zero < b.nlall && 0 !in line
    modifies b`dol, b`dot, b`cells, b.mem, b.store, b.store.ibuff, b.store.obuff
    ensures ok == (old(b.store.tline) + |FirstLine(line)| < NBLK * RPB)
    ensures ok ==> b.Valid() && b.store.lines == old(b.store.lines)[h := FirstLine(line)]
    ensures ok ==> h !in old(b.store.lines)
                   && Outcome(b.cells, true) == Run(old(b.cells), [Insert(old(b.dot) - b.zero, h)])
                   && b.dot == old(b.dot) + 1
    ensures !ok ==> b.cells == old(b.cells)
  {
    var tl;
    ok, tl := b.store.PutLine(line);
    h := tl;
    if ok {
      StoredUnmarked(b.store, tl);
      InsertHandle(b, tl);
    }
  }

  method InsertHandle(b: Buffer, h: int)
    requires b.Valid() && b.zero <= b.dot <= b.dol && b.dol - b.zero < b.nlall && !Marked(h)
    modifies b`dol, b`dot, b`cells, b.mem
    ensures b.Valid() && b.dot == old(b.dot) + 1
    ensures Outcome(b.cells, true) == Run(old(b.cells), [Insert(old(b.dot) - b.zero, h)])
  {
    RunOne(b.cells, Insert(b.dot - b.zero, h));
    b.Insert(h);
  }

  /** init, for e: only line zero is left. */
  method StartOver(b: Buffer)
    requires b.Valid()
    modifies b`dol, b`dot, b`cells
    ensures b.Valid() && b.dot == b.dol == b.zero && Outcome(b.cells, true) == Run(old(b.cells), [Reset])
  {
    RunOne(b.cells, Reset);
    b.dol, b.dot := b.zero, b.zero;
    b.cells := b.mem[..1];
  }

  // ----- j

  const LBSIZE := 8192

  /** The texts that the handles read, one behind the other. */
  function Joined(lines: map<int, seq<int>>, hs: seq<int>): seq<int>
    requires AllReadable(lines, hs)
  {
    if hs == [] then [] else Joined(lines, hs[..|hs| - 1]) + ReadsAs(lines, hs[|hs| - 1])
  }

  /** The edits of j: the first line is stored anew and the others go. */
  function Joins(lo: nat, hi: nat, h: int): seq<Edit> {
    [Replace(lo, h)] + if lo < hi then [Delete(lo + 1, hi)] else []
  }

  /**
    `j`: an error exactly when the line gets too long or the store is full; otherwise a
    line that reads as the addressed ones together takes their place.
   */
  method JoinLines(b: Buffer, ghost s: seq<int>, ghost lo: nat, ghost hi: nat)
    returns (ok: bool, ghost h: int, ghost text: seq<int>)
    requires b.Valid() && b.zero < b.addr1 <= b.addr2 <= b.dol
    requires s == b.cells && lo == b.addr1 - b.zero && hi == b.addr2 - b.zero
    requires AllReadable(b.store.lines, s[lo..hi + 1])
    modifies b`dol, b`dot, b`cells, b.mem, b.store, b.store.ibuff, b.store.obuff
    ensures text == Joined(old(b.store.lines), s[lo..hi + 1])
    ensures ok == (|text| <= LBSIZE - 4 && old(b.store.tline) + |text| < NBLK * RPB)
    ensures ok ==> b.Valid() && b.store.lines == old(b.store.lines)[h := text] && b.dot == b.addr1
    ensures ok ==> h !in old(b.store.lines) && Outcome(b.cells, true) == Run(s, Joins(lo, hi, h))
    ensures !ok ==> b.cells == s
  {
    text := Joined(b.store.lines, s[lo..hi + 1]);
    var line;
    ok, line := Addressed(b, s[lo..hi + 1], text);
    h := 0;
    if ok {
      ok, h := PutJoined(b, line, text, s, lo, hi);
    }
  }

  /** The joined line takes the place of the first, and the others are deleted. */
  method PutJoined(b: Buffer, line: seq<int>, ghost text: seq<int>, ghost s: seq<int>, ghost lo: nat, ghost hi: nat)
    returns (ok: bool, ghost h: int)
    requires b.Valid() && b.zero < b.addr1 <= b.addr2 <= b.dol && OneLine(line) && line == text
    requires s == b.cells && lo == b.addr1 - b.zero && hi == b.addr2 - b.zero
    modifies b`dol, b`dot, b`cells, b.mem, b.store, b.store.ibuff, b.store.obuff
    ensures ok == (old(b.store.tline) + |text| < NBLK * RPB)
    ensures ok ==> b.Valid() && b.store.lines == old(b.store.lines)[h := text] && b.dot == b.addr1
    ensures ok ==> h !in old(b.store.lines) && Outcome(b.cells, true) == Run(s, Joins(lo, hi, h))
    ensures !ok ==> b.cells == s
  {
    FirstLineWhole(line);
    ok, h := StoreLine(b, b.addr1, line);
    if ok {
      DropRest(b, s, lo, hi, h);
    }
  }

  method DropRest(b: Buffer, ghost s: seq<int>, ghost lo: nat, ghost hi: nat, ghost h: int)
    requires b.Valid() && b.zero < b.addr1 <= b.addr2 <= b.dol && |s| == |b.cells|
    requires lo == b.addr1 - b.zero && hi == b.addr2 - b.zero && Outcome(b.cells, true) == Run(s, [Replace(lo, h)])
    modifies b`dol, b`dot, b`cells, b.mem
    ensures b.Valid() && b.dot == b.addr1 && Outcome(b.cells, true) == Run(s, Joins(lo, hi, h))
  {
    RunOne(s, Replace(lo, h));
    if b.addr1 < b.addr2 {
      DeleteRange(b, b.addr1 + 1 - b.zero, b.addr2 - b.zero);
      RunTwo(s, Replace(lo, h), Delete(lo + 1, hi));
    } else {
      assert Joins(lo, hi, h) == [Replace(lo, h)];
    }
    b.dot := b.addr1;
  }

  lemma RunTwo(s: seq<int>, e: Edit, f: Edit)
    requires Legal(s, e) && !TooLate(e) && Legal(Apply(s, e), f) && !TooLate(f)
    ensures Run(s, [e] + [f]) == Outcome(Apply(Apply(s, e), f), true)
  {
    assert ([e] + [f])[1..] == [f];
    RunOne(Apply(s, e), f);
  }

  /** A text that putline stores whole. */
  predicate OneLine(line: seq<int>) { 0 !in line && NEWLINE !in line }

  /** Read the lines of the handles into one. */
  method Gather(st: Store, hs: seq<int>) returns (ok: bool, line: seq<int>)
    requires st.Valid() && AllReadable(st.lines, hs)
    modifies st`iblock, st`oblock, st`ichanged, st`disk, st`flat, st.ibuff
    ensures st.Valid() && ok == (|Joined(st.lines, hs)| <= LBSIZE - 4)
    ensures ok ==> line == Joined(st.lines, hs) && OneLine(line)
  {
    ok, line := true, [];
    var n := 0;
    while ok && n < |hs|
      invariant 0 <= n <= |hs| && st.Valid()
      invariant ok == (|Joined(st.lines, hs[..n])| <= LBSIZE - 4)
      invariant ok ==> line == Joined(st.lines, hs[..n]) && OneLine(line)
    {
      var more := ReadLine(st, hs[n]);
      JoinedStep(st.lines, hs, n);
      line := line + more;
      ok := |line| <= LBSIZE - 4;
      n := n + 1;
    }
    assert hs[..|hs|] == hs;
    JoinedGrows(st.lines, hs, n);
  }

  method ReadLine(st: Store, h: int) returns (line: seq<int>)
    requires st.Valid() && CanRead(st.lines, h)
    modifies st`iblock, st`oblock, st`ichanged, st`disk, st`flat, st.ibuff
    ensures st.Valid() && line == ReadsAs(st.lines, h) && OneLine(line)
  {
    var ok;
    ok, line := st.GetLine(h);
  }

  method Addressed(b: Buffer, ghost block: seq<int>, ghost text: seq<int>) returns (ok: bool, line: seq<int>)
    requires b.Valid() && b.zero < b.addr1 <= b.addr2 <= b.dol
    requires block == b.cells[b.addr1 - b.zero..b.addr2 + 1 - b.zero] && AllReadable(b.store.lines, block)
    requires text == Joined(b.store.lines, block)
    modifies b.store`iblock, b.store`oblock, b.store`ichanged, b.store`disk, b.store`flat, b.store.ibuff
    ensures b.Valid() && ok == (|text| <= LBSIZE - 4)
    ensures ok ==> line == text && OneLine(line)
  {
    var hs := b.mem[b.addr1 - b.zero..b.addr2 + 1 - b.zero];
    assert hs == block;
    ok, line := Gather(b.store, hs);
  }

  lemma JoinedStep(lines: map<int, seq<int>>, hs: seq<int>, n: nat)
    requires n < |hs| && AllReadable(lines, hs)
    ensures Joined(lines, hs[..n + 1]) == Joined(lines, hs[..n]) + ReadsAs(lines, hs[n])
  {
    assert hs[..n + 1][..n] == hs[..n];
  }

  lemma {:induction false} JoinedGrows(lines: map<int, seq<int>>, hs: seq<int>, n: nat)
    requires n <= |hs| && AllReadable(lines, hs)
    ensures |Joined(lines, hs[..n])| <= |Joined(lines, hs)|
    decreases |hs| - n
  {
    if n < |hs| {
      JoinedStep(lines, hs, n);
      JoinedGrows(lines, hs, n + 1);
    } else {
      assert hs[..n] == hs;
    }
  }
}
