/**
  The member queues of ar (ar.c: arinsert, page, arstream, arcopy, objsym's chain). A
  queue is a temporary file followed by a chain of members still in memory; page moves
  the head of the chain to the file.
 */
module ArQueue {
  import opened ArFormat

  class Armember {
    const rec: Record
    var next: Armember?

    constructor (rec: Record)
      ensures this.rec == rec && next == null
    {
      this.rec := rec;
      next := null;
    }
  }

  /** A symbol and the offset in its queue of the member that defines it. */
  datatype Symref = Symref(kind: char, name: string, offset: nat)

  function Records(chain: seq<Armember>): seq<Record> { seq(|chain|, i requires 0 <= i < |chain| => chain[i].rec) }

  lemma RecordsSnoc(chain: seq<Armember>, bp: Armember)
    ensures Records(chain + [bp]) == Records(chain) + [bp.rec]
  {
  }

  lemma ChainStep(spilled: seq<Record>, chain: seq<Armember>, i: nat)
    requires i < |chain|
    ensures spilled + Records(chain[..i + 1]) == spilled + Records(chain[..i]) + [chain[i].rec]
  {
    assert chain[..i + 1] == chain[..i] + [chain[i]];
    RecordsSnoc(chain[..i], chain[i]);
  }

  lemma SpillOne(spilled: seq<Record>, chain: seq<Armember>)
    requires chain != []
    ensures (spilled + [chain[0].rec]) + Records(chain[1..]) == spilled + Records(chain)
    ensures EncodeAll(spilled + [chain[0].rec]) == EncodeAll(spilled) + Encode(chain[0].rec)
  {
    EncodeSnoc(spilled, chain[0].rec);
  }

  class Arfile {
    var paged: bool
    var disk: string
    var size: nat
    var head: Armember?
    var tail: Armember?
    var sym: seq<Symref>
    ghost var members: seq<Record> // everything inserted so far, in order
    ghost var spilled: seq<Record>
    ghost var chain: seq<Armember>
    ghost var repr: set<object>

    /** The chain from head to tail, each member once. */
    ghost predicate Linked()
      reads this, repr
    {
      && this in repr
      && (forall i :: 0 <= i < |chain| ==> chain[i] in repr)
      && (forall i, j :: 0 <= i < j < |chain| ==> chain[i] != chain[j])
      && (forall i :: 0 <= i < |chain| - 1 ==> chain[i].next == chain[i + 1])
      && (if chain == [] then head == null && tail == null
          else head == chain[0] && tail == chain[|chain| - 1] && chain[|chain| - 1].next == null)
    }

    ghost predicate Valid()
      reads this, repr
    {
      && Linked() && members == spilled + Records(chain)
      && disk == EncodeAll(spilled) && (!paged ==> disk == "") && size == |EncodeAll(members)|
    }

    constructor ()
      ensures Valid() && fresh(repr) && members == [] && sym == [] && chain == []
    {
      paged, disk, size, head, tail, sym := false, "", 0, null, null, [];
      members, spilled, chain, repr := [], [], [], {this};
    }

    method Arinsert(bp: Armember)
      requires Linked() && bp !in repr
      modifies this, repr, bp
      ensures Linked() && repr == old(repr) + {bp}
      ensures chain == old(chain) + [bp]
      ensures disk == old(disk) && spilled == old(spilled) && members == old(members) && paged == old(paged)
              && size == old(size) && sym == old(sym)
    {
      bp.next := null;
      if tail == null {
        head := bp;
      } else {
        tail.next := bp;
      }
      tail := bp;
      chain := chain + [bp];
      repr := repr + {bp};
    }

    /** arcopy: the queue grows by the header and the padded body. */
    method Arcopy(bp: Armember)
      requires Valid() && bp !in repr && Sound(bp.rec)
      modifies this, repr, bp
      ensures Valid() && repr == old(repr) + {bp} && sym == old(sym)
      ensures members == old(members) + [bp.rec] && chain == old(chain) + [bp]
    {
      ghost var c := chain;
      Arinsert(bp);
      RecordsSnoc(c, bp);
      EncodeSnoc(members, bp.rec);
      EncodeLength(bp.rec);
      members := members + [bp.rec];
      var n := bp.rec.size;
      if n % 2 == 1 {
        n := n + 1;
      }
      size := size + n + SAR_HDR;
    }

    method Push(r: Symref)
      requires Valid()
      modifies this`sym
      ensures Valid() && sym == [r] + old(sym)
    {
      sym := [r] + sym;
    }

    /** Spill the head of the chain. What was inserted, the size and the symbols do not change. */
    method Page()
      requires Valid() && head != null
      modifies this`paged, this`disk, this`head, this`tail, this`spilled, this`chain
      ensures Valid() && |chain| == |old(chain)| - 1
    {
      ghost var first := head.rec;
      var bp := head;
      paged := true;
      disk := disk + Encode(bp.rec);
      head := bp.next;
      if tail == bp {
        tail := bp.next;
      }
      SpillOne(spilled, chain);
      spilled, chain := spilled + [first], chain[1..];
    }

    /** The spilled bytes and then the chain are the members in the order they were inserted. */
    method Arstream() returns (out: string)
      requires Valid()
      ensures out == EncodeAll(members)
    {
      out := "";
      if paged {
        out := disk;
      }
      var bp := head;
      ghost var i, sofar := 0, spilled;
      assert Records(chain[..0]) == [];
      while bp != null
        invariant 0 <= i <= |chain|
        invariant bp == if i < |chain| then chain[i] else null
        invariant sofar == spilled + Records(chain[..i]) && out == EncodeAll(sofar)
        decreases |chain| - i
      {
        ChainStep(spilled, chain, i);
        EncodeSnoc(sofar, bp.rec);
        sofar := sofar + [bp.rec];
        out := out + Encode(bp.rec);
        bp := bp.next;
        i := i + 1;
      }
      assert chain[..i] == chain;
    }
  }
}
