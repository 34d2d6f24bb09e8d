/**
  ed's line store (ed.c: getblock, blkio, getline, putline): an append-only temporary
  file of runes reached through one read block and one write block.
 */
module EdStore {
  /** Runes per block: BLKSIZE / sizeof(Rune). */
  const RPB := 2048
  const NBLK := 0x8000_0000 / 8192 - 1
  const NEWLINE := 10

  /** The text t, ended by a zero rune, lies at position h of the flat store. */
  predicate HasText(flat: seq<int>, h: int, t: seq<int>) {
    0 <= h && h + |t| < |flat| && flat[h..h + |t|] == t && flat[h + |t|] == 0 && 0 !in t
  }

  /** The part of the line buffer that `putline` stores: up to a newline or the end. */
  function FirstLine(s: seq<int>): (r: seq<int>)
    ensures |r| <= |s| && r <= s && NEWLINE !in r
    ensures |r| < |s| ==> s[|r|] == NEWLINE
  {
    if s == [] || s[0] == NEWLINE then [] else [s[0]] + FirstLine(s[1..])
  }

  lemma {:induction false} FirstLineWhole(s: seq<int>)
    requires NEWLINE !in s
    ensures FirstLine(s) == s
  {
    if s != [] {
      FirstLineWhole(s[1..]);
      assert s == [s[0]] + s[1..];
    }
  }

  /** t is what the line buffer s holds up to its first newline or its end. */
  predicate LineOf(s: seq<int>, t: seq<int>) {
    t <= s && 0 !in s && NEWLINE !in t && 0 !in t && (|t| < |s| ==> s[|t|] == NEWLINE)
  }

  lemma FirstLineIs(s: seq<int>)
    requires 0 !in s
    ensures LineOf(s, FirstLine(s))
  {
    var t := FirstLine(s);
    forall i | 0 <= i < |t| ensures t[i] != 0 {
      assert s[i] in s;
    }
  }

  lemma LineStops(s: seq<int>, t: seq<int>, len: nat, c: int)
    requires LineOf(s, t) && len <= |t| && c == if len < |s| then s[len] else 0
    ensures (c == 0 || c == NEWLINE) <==> len == |t|
    ensures len < |t| ==> t[len] == c
  {
    if len < |t| {
      assert t[len] == s[len] && t[len] in t && s[len] in s;
    }
  }

  /** Bit 0 of a handle is the mark that `global` sets; handles of stored lines are even. */
  predicate CanRead(lines: map<int, seq<int>>, h: int) {
    h in lines || (h - 1 in lines && lines[h - 1] != [])
  }

  /** What `getline` yields for a handle: a mark bit moves the start by one rune. */
  function ReadsAs(lines: map<int, seq<int>>, h: int): seq<int>
    requires CanRead(lines, h)
  {
    if h in lines then lines[h] else lines[h - 1][1..]
  }

  predicate Even(lines: map<int, seq<int>>) {
    forall h :: h in lines ==> h % 2 == 0
  }

  /** More lines are stored, none has changed. */
  predicate Grows(lines: map<int, seq<int>>, lines': map<int, seq<int>>) {
    forall h :: h in lines ==> h in lines' && lines'[h] == lines[h]
  }

  /** Storing more lines does not change what an old handle reads. */
  lemma SameReads(lines: map<int, seq<int>>, lines': map<int, seq<int>>, h: int)
    requires Grows(lines, lines') && Even(lines') && CanRead(lines, h)
    ensures CanRead(lines', h) && ReadsAs(lines', h) == ReadsAs(lines, h)
  {
  }

  class Store {
    const ibuff: array<int>
    const obuff: array<int>
    var iblock: int
    var oblock: int
    var ichanged: bool
    var disk: map<int, seq<int>>
    var tline: int

    /** The one flat array of runes that the disk and the two cached blocks stand for. */
    ghost var flat: seq<int>
    /** The lines stored so far, by handle. */
    ghost var lines: map<int, seq<int>>

    ghost function Block(b: int): seq<int>
      requires 0 <= b && (b + 1) * RPB <= |flat|
      reads this`flat
    {
      flat[b * RPB..(b + 1) * RPB]
    }

    /** Disk and cache agree with the flat array; only a changed read block may differ from its copy on disk. */
    ghost predicate CacheValid()
      reads this`iblock, this`oblock, this`ichanged, this`disk, this`flat, ibuff, obuff
    {
      && ibuff != obuff && ibuff.Length == RPB && obuff.Length == RPB
      && -1 <= oblock && |flat| == (oblock + 1) * RPB
      && (oblock >= 0 ==> obuff[..] == Block(oblock))
      && (forall b :: 0 <= b < oblock ==> b in disk && (disk[b] == Block(b) || (ichanged && b == iblock)))
      && (iblock == -1 || (0 <= iblock < oblock && ibuff[..] == Block(iblock)))
    }

    /** Every handle is even and names its line in the flat array, below end. */
    static ghost predicate Stored(flat: seq<int>, lines: map<int, seq<int>>, end: int) {
      forall h :: h in lines ==>
        h % 2 == 0 && 2 <= h && h + |lines[h]| < end && NEWLINE !in lines[h] && HasText(flat, h, lines[h])
    }

    ghost predicate Valid()
      reads this, ibuff, obuff
    {
      && CacheValid()
      && tline % 2 == 0 && 2 <= tline && oblock * RPB <= tline < (oblock + 2) * RPB && oblock < NBLK
      && Stored(flat, lines, tline)
    }

    constructor ()
      ensures Valid() && lines == map[] && tline == 2
      ensures fresh(ibuff) && fresh(obuff)
    {
      ibuff := new int[RPB];
      obuff := new int[RPB];
      iblock, oblock, ichanged, disk, tline := -1, -1, false, map[], 2;
      flat, lines := [], map[];
    }

    /** The cache lookup: the buffer holding the block bno of position atl, and the offset in it. */
    method GetBlock(atl: int, write: bool) returns (ok: bool, buf: array<int>, off: nat, bno: int)
      requires CacheValid() && 0 <= atl
      requires if write then oblock * RPB <= atl < (oblock + 2) * RPB else atl < |flat|
      modifies `iblock, `oblock, `ichanged, `disk, `flat, ibuff
      ensures CacheValid() && off < RPB && atl == bno * RPB + off && ok == (bno < NBLK)
      ensures old(flat) <= flat
      ensures ok && write ==> oblock == bno && buf == obuff
      ensures ok && !write ==> flat == old(flat) && oblock == old(oblock)
      ensures ok && !write ==> (buf == ibuff || buf == obuff) && buf[..] == Block(bno)
      ensures !ok ==> flat == old(flat) && oblock == old(oblock)
    {
      bno := atl / RPB;
      off := atl % RPB;
      buf := ibuff;
      ok := true;
      if bno >= NBLK {
        ok := false;
        return;
      }
      if bno == iblock {
        ichanged := ichanged || write;
        return;
      }
      if bno == oblock {
        buf := obuff;
        return;
      }
      if !write {
        if ichanged {
          disk := disk[iblock := ibuff[..]];
        }
        ichanged := false;
        iblock := bno;
        var block := disk[bno];
        forall i | 0 <= i < RPB { ibuff[i] := block[i]; }
        assert ibuff[..] == block;
        return;
      }
      if oblock >= 0 {
        disk := disk[oblock := obuff[..]];
      }
      oblock := bno;
      buf := obuff;
      flat := flat + obuff[..];
    }

    /** Write one rune at position pos, in the write block. */
    method PutRune(buf: array<int>, off: nat, pos: int, c: int)
      requires CacheValid() && buf == obuff && off < RPB && 0 <= oblock && pos == oblock * RPB + off
      modifies obuff, `flat
      ensures CacheValid() && flat == old(flat)[pos := c]
    {
      buf[off] := c;
      flat := flat[pos := c];
      assert obuff[..] == Block(oblock);
      forall b | 0 <= b < oblock ensures Block(b) == old(Block(b)) {
      }
    }

    /**
      `putline`: append the first line of the line buffer s. It fails exactly when the
      line's end falls beyond the last block; otherwise the new handle names the
      stored line and every line stored before keeps its text.
     */
    method PutLine(s: seq<int>) returns (ok: bool, h: int)
      requires Valid() && 0 !in s
      modifies this, ibuff, obuff
      ensures ok == (old(tline) + |FirstLine(s)| < NBLK * RPB)
      ensures ok ==> Valid() && h == old(tline) && h !in old(lines) && lines == old(lines)[h := FirstLine(s)]
      ensures ok ==> tline == h + (|FirstLine(s)| + 4) / 2 * 2
    {
      FirstLineIs(s);
      ok, h := PutText(s, FirstLine(s));
    }

    static lemma NextHandle(h: int, n: nat, len: nat, next: int)
      requires len == n + 1 && next == h + (len + 3) / 2 * 2 && h % 2 == 0
      ensures next % 2 == 0 && h + n < next <= h + n + 4 && next == h + (n + 4) / 2 * 2
    {
    }

    method PutText(s: seq<int>, ghost t: seq<int>) returns (ok: bool, h: int)
      requires Valid() && LineOf(s, t)
      modifies this, ibuff, obuff
      ensures ok == (old(tline) + |t| < NBLK * RPB)
      ensures ok ==> Valid() && h == old(tline) && h !in old(lines) && lines == old(lines)[h := t]
      ensures ok ==> tline == h + (|t| + 4) / 2 * 2
    {
      h := tline;
      ghost var flat0, lines0 := flat, lines;
      var len;
      ok, len := StoreRunes(h, s, t);
      if ok {
        var next := h + (len + 3) / 2 * 2;
        NextHandle(h, |t|, len, next);
        StoredMore(flat0, flat, if h <= |flat0| then h else |flat0|, lines0, h, t, next);
        tline := next;
        lines := lines0[h := t];
      }
    }

    /** The copying loop of `putline`; len counts the runes taken from the line buffer, with its end. */
    method StoreRunes(h: int, s: seq<int>, ghost t: seq<int>) returns (ok: bool, len: nat)
      requires CacheValid() && LineOf(s, t) && 0 <= h && oblock * RPB <= h < (oblock + 2) * RPB
      modifies `iblock, `oblock, `ichanged, `disk, `flat, ibuff, obuff
      ensures ok == (h + |t| < NBLK * RPB)
      ensures ok ==> CacheValid() && oblock < NBLK && oblock * RPB <= h + |t| < (oblock + 1) * RPB && len == |t| + 1
      ensures ok ==> HasText(flat, h, t) && |old(flat)| <= |flat|
      ensures ok ==> var keep := if h <= |old(flat)| then h else |old(flat)|; flat[..keep] == old(flat)[..keep]
    {
      ghost var flat0, keep := flat, if h <= |flat| then h else |flat|;
      var buf, off;
      ok, buf, off := FirstBlock(h, keep);
      if !ok {
        return false, 0;
      }
      ok, len := StoreLoop(h, s, t, buf, off, flat0, keep);
      if ok {
        WrittenText(flat0, flat, keep, h, t);
      }
    }

    /** The runes of the line and its end, block after block. */
    method StoreLoop(h: int, s: seq<int>, ghost t: seq<int>, buf0: array<int>, off0: nat,
                     ghost flat0: seq<int>, ghost keep: nat)
      returns (ok: bool, len: nat)
      requires CacheValid() && LineOf(s, t) && buf0 == obuff && off0 < RPB && 0 <= oblock < NBLK
      requires h == oblock * RPB + off0 && Written(flat0, flat, keep, h, [])
      modifies `iblock, `oblock, `ichanged, `disk, `flat, ibuff, obuff
      ensures ok == (h + |t| < NBLK * RPB)
      ensures ok ==> CacheValid() && oblock < NBLK && oblock * RPB <= h + |t| < (oblock + 1) * RPB && len == |t| + 1
      ensures ok ==> Written(flat0, flat, keep, h, t + [0])
    {
      var buf, off, tl := buf0, off0, h - off0;
      ok, len := true, 0;
      while true
        invariant CacheValid() && buf == obuff && ok
        invariant len <= |t| && 0 <= off < RPB && h + len == tl + off && tl == oblock * RPB && 0 <= oblock < NBLK
        invariant Written(flat0, flat, keep, h, t[..len])
        decreases |t| - len
      {
        var c := if len < |s| then s[len] else 0;
        LineStops(s, t, len, c);
        StoreOne(buf, off, h + len, if c == NEWLINE then 0 else c, flat0, keep, h, t[..len]);
        if c == 0 || c == NEWLINE {
          break;
        }
        assert t[..len] + [c] == t[..len + 1];
        len := len + 1;
        off := off + 1;
        if RPB - off == 0 {
          tl := tl + RPB;
          ok, buf, off := NextBlock(tl, flat0, keep, h, t[..len]);
          if !ok {
            return false, len;
          }
        }
      }
      assert t[..len] == t;
      len := len + 1;
    }

    static lemma WrittenText(flat0: seq<int>, flat: seq<int>, keep: nat, h: int, t: seq<int>)
      requires Written(flat0, flat, keep, h, t + [0]) && 0 !in t && 0 <= h
      ensures HasText(flat, h, t)
    {
      var w := flat[h..h + |t| + 1];
      assert flat[h..h + |t|] == w[..|t|] == t;
      assert flat[h + |t|] == w[|t|];
    }

    /** One rune of the line. */
    method StoreOne(buf: array<int>, off: nat, pos: int, c: int,
                    ghost flat0: seq<int>, ghost keep: nat, ghost h: int, ghost w: seq<int>)
      requires CacheValid() && buf == obuff && off < RPB && 0 <= oblock && pos == oblock * RPB + off == h + |w|
      requires Written(flat0, flat, keep, h, w)
      modifies obuff, `flat
      ensures CacheValid() && Written(flat0, flat, keep, h, w + [c])
    {
      ghost var before := flat;
      PutRune(buf, off, pos, c);
      WriteOne(flat0, before, flat, keep, h, w, c);
    }

    /** The block of a new line's first rune. */
    method FirstBlock(h: int, ghost keep: nat) returns (ok: bool, buf: array<int>, off: nat)
      requires CacheValid() && 0 <= h && oblock * RPB <= h < (oblock + 2) * RPB
               && keep == if h <= |flat| then h else |flat|
      modifies `iblock, `oblock, `ichanged, `disk, `flat, ibuff
      ensures CacheValid() && ok == (h < NBLK * RPB)
      ensures ok ==> Written(old(flat), flat, keep, h, []) && buf == obuff && off < RPB
      ensures ok ==> h == oblock * RPB + off && 0 <= oblock < NBLK
    {
      ghost var before := flat;
      var bno;
      ok, buf, off, bno := GetBlock(h, true);
      assert flat[..keep] == before[..keep];
    }

    /** The block after the one just filled; what was written stays. */
    method NextBlock(tl: int, ghost flat0: seq<int>, ghost keep: nat, ghost h: int, ghost w: seq<int>)
      returns (ok: bool, buf: array<int>, off: nat)
      requires CacheValid() && 0 <= oblock && tl == (oblock + 1) * RPB && Written(flat0, flat, keep, h, w)
      modifies `iblock, `oblock, `ichanged, `disk, `flat, ibuff
      ensures CacheValid() && ok == (tl < NBLK * RPB) && Written(flat0, flat, keep, h, w)
      ensures ok ==> buf == obuff && off == 0 && tl == oblock * RPB && oblock < NBLK
    {
      ghost var before := flat;
      var bno;
      ok, buf, off, bno := GetBlock(tl, true);
      Grown(flat0, before, flat, keep, h, w);
    }

    /** What the copying loop has done so far: w stands at h, and nothing below was touched. */
    static ghost predicate Written(flat0: seq<int>, flat: seq<int>, keep: nat, h: int, w: seq<int>) {
      keep <= |flat0| <= |flat| && keep <= h && h + |w| <= |flat| && flat[..keep] == flat0[..keep]
        && flat[h..h + |w|] == w
    }

    static lemma WriteOne(flat0: seq<int>, f: seq<int>, f': seq<int>, keep: nat, h: int, w: seq<int>, c: int)
      requires Written(flat0, f, keep, h, w) && h + |w| < |f| && f' == f[h + |w| := c]
      ensures Written(flat0, f', keep, h, w + [c])
      ensures f'[h..h + |w|] == w && f'[h + |w|] == c
    {
      assert f'[..keep] == f[..keep];
      assert f'[h..h + |w| + 1] == f[h..h + |w|] + [c];
    }

    static lemma Grown(flat0: seq<int>, f: seq<int>, f': seq<int>, keep: nat, h: int, w: seq<int>)
      requires Written(flat0, f, keep, h, w) && f <= f'
      ensures Written(flat0, f', keep, h, w)
    {
      assert f'[..|f|] == f;
      assert f'[..keep] == f[..keep] && f'[h..h + |w|] == f[h..h + |w|];
    }

    /** One more line at the end of the others. */
    static lemma StoredMore(flat0: seq<int>, flat1: seq<int>, keep: nat, lines: map<int, seq<int>>, end: int,
                            t: seq<int>, end': int)
      requires keep <= |flat0| <= |flat1| && flat1[..keep] == flat0[..keep] && (keep == |flat0| || keep == end)
      requires Stored(flat0, lines, end) && HasText(flat1, end, t) && NEWLINE !in t
      requires end % 2 == 0 && 2 <= end && end + |t| < end'
      ensures end !in lines && Stored(flat1, lines[end := t], end')
    {
      StillThere(flat0, flat1, keep, lines, end);
    }

    /** Texts below an unchanged prefix of the flat array stay where they are. */
    static lemma StillThere(flat0: seq<int>, flat1: seq<int>, keep: nat, lines: map<int, seq<int>>, end: int)
      requires keep <= |flat0| <= |flat1| && flat1[..keep] == flat0[..keep] && (keep == |flat0| || keep == end)
      requires forall h :: h in lines ==> h + |lines[h]| < end && HasText(flat0, h, lines[h])
      ensures forall h :: h in lines ==> HasText(flat1, h, lines[h])
    {
      forall h | h in lines ensures HasText(flat1, h, lines[h]) {
        var e := h + |lines[h]|;
        forall i | h <= i <= e ensures flat1[i] == flat0[i] {
          assert flat1[..keep][i] == flat0[..keep][i];
        }
        assert flat1[h..e] == flat0[h..e];
      }
    }

    /**
      `getline`: copy the runes from position tl up to the zero rune. With the flat
      array holding text t there, that is t, wherever block boundaries fall.
     */
    method GetLineAt(tl0: int, ghost t: seq<int>) returns (ok: bool, linebuf: seq<int>)
      requires CacheValid() && HasText(flat, tl0, t) && oblock < NBLK
      modifies `iblock, `oblock, `ichanged, `disk, `flat, ibuff
      ensures CacheValid() && flat == old(flat) && oblock == old(oblock)
      ensures ok && linebuf == t
    {
      linebuf := [];
      var buf, off, bno;
      ok, buf, off, bno := GetBlock(tl0, false);
      var tl := tl0 - off;
      while true
        invariant CacheValid() && flat == old(flat) && oblock == old(oblock) && ok
        invariant |linebuf| <= |t| && linebuf == t[..|linebuf|]
        invariant 0 <= off < RPB && tl0 + |linebuf| == tl + off && tl == bno * RPB && 0 <= bno <= oblock
        invariant (buf == ibuff || buf == obuff) && buf[..] == Block(bno)
        decreases |t| - |linebuf|
      {
        ghost var i := |linebuf|;
        var c := buf[off];
        assert c == buf[..][off] == flat[tl0 + i];
        assert i < |t| ==> t[i] == flat[tl0..tl0 + |t|][i];
        if c == 0 {
          break;
        }
        linebuf := linebuf + [c];
        off := off + 1;
        if RPB - off == 0 {
          tl := tl + RPB;
          ok, buf, off, bno := GetBlock(tl, false);
        }
      }
    }

    /** A handle from `putline`, or a marked one whose line is not empty. */
    ghost predicate Readable(h: int)
      reads this
    {
      CanRead(lines, h)
    }

    ghost function Reads(h: int): seq<int>
      requires Readable(h)
      reads this
    {
      ReadsAs(lines, h)
    }

    /** `getline` of a handle; the cache may change, the stored lines do not. */
    method GetLine(h: int) returns (ok: bool, linebuf: seq<int>)
      requires Valid() && Readable(h)
      modifies `iblock, `oblock, `ichanged, `disk, `flat, ibuff
      ensures Valid() && ok && linebuf == Reads(h)
    {
      ghost var t := Reads(h);
      if h !in lines {
        TailText(flat, h - 1, lines[h - 1]);
      }
      ok, linebuf := GetLineAt(h, t);
    }

    static lemma TailText(flat: seq<int>, h: int, t: seq<int>)
      requires HasText(flat, h, t) && t != []
      ensures HasText(flat, h + 1, t[1..])
    {
      assert flat[h + 1..h + |t|] == flat[h..h + |t|][1..];
    }

    /** Reading back a stored line works exactly for a handle without mark. */
    lemma ReadsStoredLine(h: int)
      requires Valid() && Readable(h)
      ensures var stored := if h % 2 == 1 then h - 1 else h;
              stored in lines && (Reads(h) == lines[stored] <==> h % 2 == 0)
    {
    }
  }
}
