/**
  ed's buffer of line handles and the commands m and t (ed.c: append, getcopy, move).
  Positions are addresses, as in the program: cell p is `mem[p - zero]`, and growing
  the buffer may give it any other base address.
 */
module EdBuffer {
  import opened EdLines
  import opened EdStore

  class Buffer {
    var mem: array<int>
    var nlall: nat
    var zero: int
    var dol: int
    var dot: int
    var addr1: int
    var addr2: int
    const store: Store
    ghost var cells: seq<int> // line zero and the lines of the buffer

    ghost predicate Valid()
      reads this`mem, this`nlall, this`zero, this`dol, this`cells, mem, store, store.ibuff, store.obuff
    {
      && store.Valid() && mem != store.ibuff && mem != store.obuff
      && zero <= dol && dol - zero <= nlall && nlall + 5 <= mem.Length
      && cells == mem[..dol - zero + 1]
    }

    /** An empty buffer at some address. */
    constructor (s: Store, base: int)
      requires s.Valid()
      ensures Valid() && store == s && fresh(mem) && dol == dot == zero
    {
      store := s;
      nlall := 128;
      mem := new int[128 + 5];
      zero, dol, dot, addr1, addr2 := base, base, base, base, base;
      new;
      cells := mem[..1];
    }

    // ----- m

    /**
      `m`: refused exactly when the target lies in the block; otherwise the block,
      its marks cleared, stands after the target and dot is on its last line.
     */
    method MoveLines(adt0: int) returns (ok: bool)
      requires Valid() && zero < addr1 <= addr2 <= dol && zero <= adt0 <= dol
      modifies this`dot, this`cells, mem
      ensures Valid() && ok == (adt0 < addr1 || addr2 < adt0)
      ensures cells == old(AfterMove(cells, addr1 - zero, addr2 + 1 - zero, adt0 - zero))
      ensures ok ==> dot == old(zero + Landing(addr1 - zero, addr2 + 1 - zero, adt0 - zero))
    {
      var from, past, to := addr1 - zero, addr2 + 1 - zero, adt0 - zero;
      var at;
      ok, at := MoveAt(from, past, to, AfterMove(cells, from, past, to));
      if ok {
        dot := zero + at;
      }
    }

    method MoveAt(from: nat, past: nat, to: nat, ghost want: seq<int>) returns (ok: bool, at: nat)
      requires Valid() && from < past <= |cells| && to < |cells| && want == AfterMove(cells, from, past, to)
      modifies this`cells, mem
      ensures Valid() && ok == (to < from || past <= to) && cells == want
      ensures ok ==> at == Landing(from, past, to)
    {
      var n := dol - zero + 1;
      assert cells == mem[..n];
      ok, at := MoveCells(mem, n, from, past, to, cells);
      cells := mem[..n];
    }

    // ----- append

    /** Make room: a larger array at another address, all pointers moved along. */
    method Grow()
      requires Valid()
      modifies this
      ensures Valid() && fresh(mem) && nlall == old(nlall) + 512
      ensures cells == old(cells)
      ensures dol - zero == old(dol - zero) && dot - zero == old(dot - zero)
      ensures addr1 - zero == old(addr1 - zero) && addr2 - zero == old(addr2 - zero)
    {
      nlall := nlall + 512;
      var a1: int := *;
      var bigger := new int[nlall + 8];
      var n := dol - zero + 1;
      forall i | 0 <= i < n { bigger[i] := mem[i]; }
      mem := bigger;
      var tl := a1 - zero;
      zero := zero + tl;
      addr1 := addr1 + tl;
      addr2 := addr2 + tl;
      dol := dol + tl;
      dot := dot + tl;
    }

    /** One turn of `append` after putline: handle tl becomes the line after dot, and dot. */
    method Insert(tl: int)
      requires Valid() && zero <= dot <= dol && dol - zero < nlall
      modifies this`dol, this`dot, this`cells, mem
      ensures Valid() && dol == old(dol) + 1 && dot == old(dot) + 1
      ensures cells == old(cells)[..dot - zero] + [tl] + old(cells)[dot - zero..]
    {
      ghost var s := cells;
      var at := dot - zero + 1;
      InsertCell(mem, dol - zero + 1, at, tl);
      dol := dol + 1;
      cells := s[..at] + [tl] + s[at..];
      dot := dot + 1;
    }

    // ----- t

    /** One line of `append(getcopy, ...)`: read the line at addr1, store it again, put it after dot. */
    method AppendCopy(ghost from: int, ghost t: seq<int>) returns (ok: bool, ghost h: int)
      requires Valid() && zero <= addr1 <= dol == dot && mem[addr1 - zero] == from
      requires CanRead(store.lines, from) && t == ReadsAs(store.lines, from)
      modifies this, mem, store, store.ibuff, store.obuff
      ensures ok == Fits(old(store.tline), t)
      ensures ok ==> Valid() && (mem == old(mem) || fresh(mem))
      ensures ok ==> dol - zero == old(dol - zero) + 1 && dot == dol
      ensures ok ==> addr1 - zero == old(addr1 - zero) + 1 && addr2 - zero == old(addr2 - zero)
      ensures ok ==> h !in old(store.lines) && cells == old(cells) + [h] && Even(store.lines)
      ensures ok ==> store.lines == old(store.lines)[h := t] && store.tline == NextLine(old(store.tline), t)
    {
      var line := FetchCopy();
      ghost var s := cells;
      var tl;
      ok, tl := store.PutLine(line);
      h := tl;
      if !ok {
        return;
      }
      Insert(tl);
      assert cells == s + [tl];
    }

    /** Read the line at addr1 and step on, then make room for one more line. */
    method FetchCopy() returns (line: seq<int>)
      requires Valid() && zero <= addr1 <= dol == dot && CanRead(store.lines, mem[addr1 - zero])
      modifies this, store, store.ibuff
      ensures Valid() && (mem == old(mem) || fresh(mem)) && dol - zero < nlall
      ensures cells == old(cells) && store.lines == old(store.lines) && store.tline == old(store.tline) && dot == dol
      ensures dol - zero == old(dol - zero) && addr1 - zero == old(addr1 - zero) + 1
              && addr2 - zero == old(addr2 - zero)
      ensures line == ReadsAs(store.lines, old(mem[addr1 - zero])) && FirstLine(line) == line && 0 !in line
    {
      var ok;
      ok, line := store.GetLine(mem[addr1 - zero]);
      FirstLineWhole(line);
      addr1 := addr1 + 1;
      if dol - zero >= nlall {
        Grow();
      }
    }

    /** After n copies fs of lines of the block, which starts at place lo of s. */
    ghost predicate Copied(tline0: int, lines0: map<int, seq<int>>, block: seq<int>, s: seq<int>, lo: nat,
                           fs: seq<int>, n: nat)
      reads this, mem, store, store.ibuff, store.obuff
    {
      && Valid() && dot == dol && |fs| == n && addr1 - zero == lo + n && addr2 + 1 - zero == lo + |block|
      && SoFar(tline0, lines0, block, s, lo, fs, cells, store.lines, store.tline)
    }

    /** The same. The quantifier keeps the verifier from unfolding it where it is only passed on. */
    ghost predicate Copying(tline0: int, lines0: map<int, seq<int>>, block: seq<int>, s: seq<int>, lo: nat,
                            fs: seq<int>)
      reads this, mem, store, store.ibuff, store.obuff
    {
      forall n: nat :: n == |fs| ==> Copied(tline0, lines0, block, s, lo, fs, n)
    }

    lemma CellAt(i: nat)
      requires Valid() && i < |cells|
      ensures i < mem.Length && mem[i] == cells[i]
    {
    }

    lemma EvenHandles()
      requires Valid()
      ensures Even(store.lines)
    {
    }

    /** The line at addr1 is the next of the block. */
    lemma NextCell(tline0: int, lines0: map<int, seq<int>>, block: seq<int>, s: seq<int>, lo: nat, fs: seq<int>)
      requires Copying(tline0, lines0, block, s, lo, fs) && |fs| < |block| && AllReadable(lines0, block)
      ensures Valid() && zero <= addr1 <= dol == dot && addr1 - zero == lo + |fs| && addr2 + 1 - zero == lo + |block|
      ensures mem[addr1 - zero] == block[|fs|] && Even(store.lines)
      ensures SoFar(tline0, lines0, block, s, lo, fs, cells, store.lines, store.tline)
    {
      assert Copied(tline0, lines0, block, s, lo, fs, |fs|);
      NextIn(tline0, lines0, block, s, lo, fs, cells, store.lines, store.tline, addr1 - zero);
      CellAt(addr1 - zero);
      EvenHandles();
    }

    method CopyNext(ghost tline0: int, ghost lines0: map<int, seq<int>>, ghost block: seq<int>, ghost s: seq<int>,
                    ghost lo: nat, ghost fs: seq<int>)
      returns (ok: bool, ghost h: int)
      requires Copying(tline0, lines0, block, s, lo, fs) && |fs| < |block| && AllReadable(lines0, block)
      modifies this, mem, store, store.ibuff, store.obuff
      ensures ok == FitsAt(tline0, lines0, block, |fs|)
      ensures ok ==> Copying(tline0, lines0, block, s, lo, fs + [h]) && (mem == old(mem) || fresh(mem))
      ensures ok ==> addr2 + 1 - addr1 == |block| - |fs| - 1
    {
      ghost var n, t := |fs|, ReadsAs(lines0, block[|fs|]);
      ghost var cells1, lines1, tline1 := cells, store.lines, store.tline;
      NextCell(tline0, lines0, block, s, lo, fs);
      NextRead(tline0, lines0, block, s, lo, fs, cells1, lines1, tline1);
      ok, h := AppendCopy(block[n], t);
      if ok {
        NextCopied(tline0, lines0, block, s, lo, fs, cells1, lines1, tline1, cells, store.lines, store.tline, h);
        assert Copied(tline0, lines0, block, s, lo, fs + [h], n + 1);
      }
    }

    method CopyEach(ghost tline0: int, ghost lines0: map<int, seq<int>>, ghost block: seq<int>, ghost s: seq<int>,
                    ghost lo: nat)
      returns (ok: bool, ghost fs: seq<int>)
      requires Copying(tline0, lines0, block, s, lo, []) && AllReadable(lines0, block)
      requires addr2 + 1 - addr1 == |block|
      modifies this, mem, store, store.ibuff, store.obuff
      ensures ok <==> Room(tline0, lines0, block)
      ensures ok ==> Copying(tline0, lines0, block, s, lo, fs) && (mem == old(mem) || fresh(mem)) && |fs| == |block|
    {
      fs := [];
      ok := true;
      while addr1 <= addr2
        invariant ok && Copying(tline0, lines0, block, s, lo, fs) && (mem == old(mem) || fresh(mem))
        invariant addr2 + 1 - addr1 == |block| - |fs| >= 0
        invariant forall k: nat :: k < |fs| ==> FitsAt(tline0, lines0, block, k)
        decreases addr2 - addr1
      {
        ghost var h: int;
        ok, h := CopyNext(tline0, lines0, block, s, lo, fs);
        if !ok {
          return;
        }
        fs := fs + [h];
      }
    }

    /** `append(getcopy, dol)`: copies of the addressed lines, with handles of their own, at the end. */
    method AppendCopies(ghost block: seq<int>) returns (ok: bool, ghost fs: seq<int>)
      requires Valid() && zero < addr1 <= addr2 <= dol == dot && block == cells[addr1 - zero..addr2 + 1 - zero]
      requires AllReadable(store.lines, block)
      modifies this, mem, store, store.ibuff, store.obuff
      ensures ok <==> Room(old(store.tline), old(store.lines), block)
      ensures ok ==> Valid() && (mem == old(mem) || fresh(mem)) && dot == dol
      ensures ok ==> cells == old(cells) + fs
      ensures ok ==> Grows(old(store.lines), store.lines) && Copies(old(store.lines), block, store.lines, fs)
    {
      ghost var s, lo, lines0, tline0 := cells, addr1 - zero, store.lines, store.tline;
      assert s + [] == s && block[..0] == [];
      assert CopiedSo(tline0, lines0, block, s, lo, [], cells, lines0, tline0, 0);
      assert Copied(tline0, lines0, block, s, lo, [], 0);
      ok, fs := CopyEach(tline0, lines0, block, s, lo);
      assert ok ==> Copied(tline0, lines0, block, s, lo, fs, |block|);
      assert ok ==> CopiedSo(tline0, lines0, block, s, lo, fs, cells, store.lines, store.tline, |block|);
      assert block[..|block|] == block;
    }

    /**
      `t`: the lines stay as they are, with new lines after the target that read as
      the addressed ones did, and dot on the last of them.
     */
    method CopyLines(adt0: int, ghost t: nat, ghost block: seq<int>) returns (ok: bool, ghost fs: seq<int>)
      requires Valid() && zero < addr1 <= addr2 <= dol && zero <= adt0 <= dol && t == adt0 - zero
      requires block == cells[addr1 - zero..addr2 + 1 - zero] && AllReadable(store.lines, block)
      modifies this, mem, store, store.ibuff, store.obuff
      ensures ok <==> Room(old(store.tline), old(store.lines), block)
      ensures ok ==> Valid() && cells == old(cells)[..t + 1] + fs + old(cells)[t + 1..]
      ensures ok ==> Grows(old(store.lines), store.lines) && Copies(old(store.lines), block, store.lines, fs)
      ensures ok ==> dot == zero + t + |fs|
    {
      ghost var s := cells;
      var ad1, adt, ozero := dol, adt0, zero;
      dot := ad1;
      ad1 := ad1 + 1;
      ok, fs := AppendCopies(block);
      if !ok {
        return;
      }
      var ad2 := dol + 1;
      var delta := zero - ozero;
      ad1 := ad1 + delta;
      adt := adt + delta;
      dot := adt + (ad2 - ad1);
      PlaceCopies(adt - zero, ad1 - zero, s, fs);
    }

    /** Rotate the copies, which start at ad1, into place after line t. */
    method PlaceCopies(t: nat, ad1: nat, ghost s: seq<int>, ghost fs: seq<int>)
      requires Valid() && cells == s + fs && t < |s| == ad1 && fs != []
      modifies this`cells, mem
      ensures Valid() && cells == s[..t + 1] + fs + s[t + 1..]
    {
      CopiesMoved(s, fs, t);
      var n := dol - zero + 1;
      assert mem[..n] == s + fs;
      Relocate(mem, n, ad1, n, t);
      cells := mem[..n];
    }
  }

  // ----- room in the store

  /** A line fits when its end does not fall beyond the last block. */
  predicate Fits(tline: int, t: seq<int>) { tline + |t| < NBLK * RPB }

  function NextLine(tline: int, t: seq<int>): int { tline + (|t| + 4) / 2 * 2 }

  /** Where the copy of line n goes. */
  function LineAt(tline: int, lines: map<int, seq<int>>, hs: seq<int>, n: nat): int
    requires n <= |hs| && AllReadable(lines, hs)
  {
    if n == 0 then tline else NextLine(LineAt(tline, lines, hs, n - 1), ReadsAs(lines, hs[n - 1]))
  }

  predicate FitsAt(tline: int, lines: map<int, seq<int>>, hs: seq<int>, n: nat)
    requires n < |hs| && AllReadable(lines, hs)
  {
    Fits(LineAt(tline, lines, hs, n), ReadsAs(lines, hs[n]))
  }

  /** The store takes a copy of each line. */
  predicate Room(tline: int, lines: map<int, seq<int>>, hs: seq<int>)
    requires AllReadable(lines, hs)
  {
    forall n: nat :: n < |hs| ==> FitsAt(tline, lines, hs, n)
  }

  predicate AllReadable(lines: map<int, seq<int>>, hs: seq<int>) {
    forall i :: 0 <= i < |hs| ==> CanRead(lines, hs[i])
  }

  /** The handles fs name stored lines with the texts that the handles hs read as before. */
  predicate Copies(lines: map<int, seq<int>>, hs: seq<int>, lines': map<int, seq<int>>, fs: seq<int>)
    requires AllReadable(lines, hs)
  {
    |fs| == |hs| && forall i :: 0 <= i < |fs| ==> fs[i] in lines' && lines'[fs[i]] == ReadsAs(lines, hs[i])
  }

  /** Copies fs of the first lines of the block, which starts at place lo of s, stand at the end. */
  predicate CopiedSo(tline0: int, lines0: map<int, seq<int>>, block: seq<int>, s: seq<int>, lo: nat, fs: seq<int>,
                     cells: seq<int>, lines: map<int, seq<int>>, tline: int, n: nat)
  {
    && n == |fs| <= |block| && lo + |block| <= |s| && block == s[lo..lo + |block|] && AllReadable(lines0, block)
    && cells == s + fs && Grows(lines0, lines) && Copies(lines0, block[..|fs|], lines, fs)
    && tline == LineAt(tline0, lines0, block, |fs|)
  }

  ghost predicate SoFar(tline0: int, lines0: map<int, seq<int>>, block: seq<int>, s: seq<int>, lo: nat, fs: seq<int>,
                        cells: seq<int>, lines: map<int, seq<int>>, tline: int)
  {
    forall n: nat :: n == |fs| ==> CopiedSo(tline0, lines0, block, s, lo, fs, cells, lines, tline, n)
  }

  lemma NextIn(tline0: int, lines0: map<int, seq<int>>, block: seq<int>, s: seq<int>, lo: nat, fs: seq<int>,
               cells: seq<int>, lines: map<int, seq<int>>, tline: int, i: nat)
    requires SoFar(tline0, lines0, block, s, lo, fs, cells, lines, tline) && |fs| < |block| && i == lo + |fs|
    ensures i < |cells| && cells[i] == block[|fs|]
  {
    assert CopiedSo(tline0, lines0, block, s, lo, fs, cells, lines, tline, |fs|);
    assert s[i] == block[|fs|];
  }

  lemma NextRead(tline0: int, lines0: map<int, seq<int>>, block: seq<int>, s: seq<int>, lo: nat, fs: seq<int>,
                 cells: seq<int>, lines: map<int, seq<int>>, tline: int)
    requires SoFar(tline0, lines0, block, s, lo, fs, cells, lines, tline) && |fs| < |block| && Even(lines)
    requires AllReadable(lines0, block)
    ensures CanRead(lines, block[|fs|]) && tline == LineAt(tline0, lines0, block, |fs|)
    ensures ReadsAs(lines, block[|fs|]) == ReadsAs(lines0, block[|fs|])
  {
    assert CopiedSo(tline0, lines0, block, s, lo, fs, cells, lines, tline, |fs|);
    SameReads(lines0, lines, block[|fs|]);
  }

  lemma NextCopied(tline0: int, lines0: map<int, seq<int>>, block: seq<int>, s: seq<int>, lo: nat, fs: seq<int>,
                   cells: seq<int>, lines: map<int, seq<int>>, tline: int,
                   cells': seq<int>, lines': map<int, seq<int>>, tline': int, h: int)
    requires SoFar(tline0, lines0, block, s, lo, fs, cells, lines, tline)
    requires |fs| < |block| && AllReadable(lines0, block)
    requires cells' == cells + [h] && h !in lines && lines' == lines[h := ReadsAs(lines0, block[|fs|])]
    requires tline' == NextLine(tline, ReadsAs(lines0, block[|fs|]))
    ensures SoFar(tline0, lines0, block, s, lo, fs + [h], cells', lines', tline')
  {
    assert CopiedSo(tline0, lines0, block, s, lo, fs, cells, lines, tline, |fs|);
    OneMore(lines0, block, |fs|, lines, fs, lines', h);
  }

  lemma OneMore(lines: map<int, seq<int>>, hs: seq<int>, n: nat, lines1: map<int, seq<int>>, fs: seq<int>,
                lines2: map<int, seq<int>>, h: int)
    requires n < |hs| && AllReadable(lines, hs) && Grows(lines, lines1) && Copies(lines, hs[..n], lines1, fs)
    requires h !in lines1 && lines2 == lines1[h := ReadsAs(lines, hs[n])]
    ensures Grows(lines, lines2) && Copies(lines, hs[..n + 1], lines2, fs + [h])
  {
  }

  lemma CopiesMoved(s: seq<int>, fs: seq<int>, t: nat)
    requires t < |s| && fs != []
    ensures Moved(s + fs, |s|, |s + fs|, t) == s[..t + 1] + fs + s[t + 1..]
  {
    var r := s + fs;
    assert r[..t + 1] == s[..t + 1] && r[|s|..] == fs && r[t + 1..|s|] == s[t + 1..];
  }
}
