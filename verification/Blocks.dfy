/**
  dc's byte block with its two cursors. `d` holds the bytes from beg up to wt and
  `rd` is the distance of the read cursor from beg; the spare capacity up to
  `last` carries no meaning and is not represented.

  Every byte is a signed char: the writers demand `IsChar` of what they store, so
  a verified caller never stores a digit that the block would truncate.
 */
module Blocks {
  const EOF := -1

  predicate IsChar(c: int) { -128 <= c < 128 }

  class Blk {
    var d: seq<int>
    var rd: nat

    constructor (s: seq<int>)
      ensures d == s && rd == 0
    {
      d, rd := s, 0;
    }

    predicate Sfeof() reads this { rd >= |d| }

    predicate Sfbeg() reads this { rd <= 0 }

    function Slookc(): int reads this
    {
      if rd >= |d| then EOF else d[rd]
    }

    method Rewind()
      modifies `rd
      ensures rd == 0
    {
      rd := 0;
    }

    method Fsfile()
      modifies `rd
      ensures rd == |d|
    {
      rd := |d|;
    }

    method Truncate()
      requires rd <= |d|
      modifies `d
      ensures d == old(d)[..rd]
    {
      d := d[..rd];
    }

    method Sgetc() returns (c: int)
      requires rd <= |d|
      modifies `rd
      ensures old(rd) == |d| ==> c == EOF && rd == old(rd)
      ensures old(rd) < |d| ==> c == d[old(rd)] && rd == old(rd) + 1
    {
      if rd == |d| {
        c := EOF;
      } else {
        c := d[rd];
        rd := rd + 1;
      }
    }

    method Sbackc() returns (c: int)
      requires rd <= |d|
      modifies `rd
      ensures old(rd) == 0 ==> c == EOF && rd == 0
      ensures old(rd) > 0 ==> rd == old(rd) - 1 && c == d[rd]
    {
      if rd == 0 {
        c := EOF;
      } else {
        rd := rd - 1;
        c := d[rd];
      }
    }

    method Backc()
      modifies `rd
      ensures rd == if old(rd) > 0 then old(rd) - 1 else 0
    {
      if rd > 0 { rd := rd - 1; }
    }

    method Skipc()
      modifies `rd
      ensures rd == if old(rd) < |d| then old(rd) + 1 else old(rd)
    {
      if rd < |d| { rd := rd + 1; }
    }

    method Sputc(c: int)
      requires IsChar(c)
      modifies `d
      ensures d == old(d) + [c]
    {
      d := d + [c];
    }

    method Salterc(c: int)
      requires IsChar(c) && rd <= |d|
      modifies this
      ensures rd == old(rd) + 1
      ensures d == if old(rd) == |old(d)| then old(d) + [c] else old(d)[old(rd) := c]
    {
      d := if rd == |d| then d + [c] else d[rd := c];
      rd := rd + 1;
    }

    /** Drop the last byte and return it: how a number sheds its trailing scale byte. */
    method Sunputc() returns (c: int)
      requires d != []
      modifies this
      ensures c == old(d)[|old(d)| - 1]
      ensures d == old(d)[..|old(d)| - 1] && rd == |d|
    {
      c := d[|d| - 1];
      d := d[..|d| - 1];
      rd := |d|;
    }

    /** Move the read cursor; a block that is too short grows by bytes of unknown content. */
    method Seekc(n: nat)
      modifies this
      ensures rd == n
      ensures |d| == if n <= |old(d)| then |old(d)| else n
      ensures old(d) <= d
    {
      if n > |d| {
        d := d + seq(n - |d|, i => 0);
      }
      rd := n;
    }
  }
}
