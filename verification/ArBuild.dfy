/**
  ar at work (ar.c: armalloc, getspace, objsym, scanobj, rl, install). Any allocation may
  fail and be repaired by spilling a member, so a spill can fall between any two steps;
  ar stops exactly when one fails more often than there are members in memory.
 */
module ArBuild {
  import opened ArFormat
  import opened ArQueue
  import opened ArSymdef
  import opened ArArchive
  import opened ArScan

  const START := 0
  const MIDDLE := 1
  const END := 2

  /** Every chain is complete, and size is what the table will take. */
  predicate Complete(scan: Record -> Scan, qs: seq<Queue>, size: nat)
    requires |qs| == 3
  {
    && (forall q {:trigger Refs(scan, qs[q].members)} :: 0 <= q < 3 ==> qs[q].sym == Refs(scan, qs[q].members))
    && size == TableSize(qs[START].sym) + TableSize(qs[MIDDLE].sym) + TableSize(qs[END].sym)
  }

  /** The queue after a member and its symbols. */
  function Grown(scan: Record -> Scan, q: Queue, rec: Record): Queue {
    Queue(q.members + [rec], PushAll(q.sym, Syms(scan(rec)), q.Length()))
  }

  lemma CompleteStep(scan: Record -> Scan, qs: seq<Queue>, size: nat, q: nat, rec: Record, size': nat)
    requires |qs| == 3 && q < 3 && Complete(scan, qs, size)
    requires size' + TableSize(qs[q].sym) == size + TableSize(Grown(scan, qs[q], rec).sym)
    ensures Complete(scan, qs[q := Grown(scan, qs[q], rec)], size')
  {
    var ms, qs' := qs[q].members, qs[q := Grown(scan, qs[q], rec)];
    assert (ms + [rec])[..|ms|] == ms;
    forall p | 0 <= p < 3 ensures qs'[p].sym == Refs(scan, qs'[p].members) {
      assert qs[p].sym == Refs(scan, qs[p].members);
    }
  }

  lemma TakeContents(qs: seq<Queue>, qs1: seq<Queue>, qs2: seq<Queue>, q: nat, rec: Record)
    requires |qs| == |qs1| == |qs2| == 3 && q < 3
    requires qs1 == qs[q := Queue(qs[q].members, qs1[q].sym)]
    requires qs2 == qs1[q := Queue(qs1[q].members + [rec], qs1[q].sym)]
    ensures qs2 == qs[q := Queue(qs[q].members + [rec], qs1[q].sym)]
  {
  }

  lemma TakeComplete(scan: Record -> Scan, qs: seq<Queue>, qs1: seq<Queue>, qs2: seq<Queue>, size: nat, q: nat,
                     rec: Record, size': nat)
    requires |qs| == |qs1| == |qs2| == 3 && q < 3 && Complete(scan, qs, size)
    requires qs1[q].sym == PushAll(qs[q].sym, Syms(scan(rec)), qs[q].Length())
    requires size' + TableSize(qs[q].sym) == size + TableSize(qs1[q].sym)
    requires qs2 == qs[q := Queue(qs[q].members + [rec], qs1[q].sym)]
    ensures Complete(scan, qs2, size')
  {
    CompleteStep(scan, qs, size, q, rec, size');
  }

  function LayoutOf(qs: seq<Queue>): Layout
    requires |qs| == 3
  {
    Layout(qs[START], qs[MIDDLE], qs[END])
  }

  /** What objsym counts and collects. */
  datatype Tally = Tally(asks: nat, texts: set<string>, dupfound: bool, chain: seq<Symref>, size: nat)

  /** After the first k symbols of a member for the queue was. */
  ghost predicate Tallied(t: Tally, syms: seq<Sym>, names: seq<string>, was: Queue, base: nat, size: nat, dup: bool,
                          k: nat)
    requires k <= |syms|
  {
    var known := names + TextNames(syms[..k]);
    && t.asks == base + SymsAsks(syms[..k], names)
    && (forall x :: x in t.texts <==> x in known) && (t.dupfound <==> HasRepeat(known)) && (dup ==> t.dupfound)
    && (!t.dupfound ==>
          t.chain == PushAll(was.sym, syms[..k], was.Length())
          && t.size + TableSize(was.sym) == size + TableSize(t.chain))
  }

  /** One symbol more. */
  lemma TallyStep(t: Tally, t': Tally, syms: seq<Sym>, names: seq<string>, was: Queue, base: nat, size: nat,
                  dup: bool, k: nat)
    requires k < |syms| && Tallied(t, syms, names, was, base, size, dup, k)
    requires var s := syms[k];
             && t'.asks == t.asks + SymAsks(s, names + TextNames(syms[..k]))
             && t'.texts == t.texts + (if s.kind == 'T' then {s.name} else {})
             && (t'.dupfound <==> t.dupfound || (s.kind == 'T' && s.name in t.texts))
             && (if Exported(s) && !(s.kind == 'T' && s.name in t.texts) then
                   t'.size == t.size + 4 + (|s.name| + 1) + 1
                   && t'.chain == [Symref(s.kind, s.name, was.Length())] + t.chain
                 else t'.size == t.size && t'.chain == t.chain)
    ensures Tallied(t', syms, names, was, base, size, dup, k + 1)
  {
    TextStep(names, syms, k);
    AsksStep([], syms, names, k, base);
    PushStep(was.sym, syms, k, was.Length());
  }

  datatype Outcome = Unchanged | Written(bytes: string)

  class Builder {
    const scan: Record -> Scan
    const queue: seq<Arfile>
    var allobj: bool
    var lastobj: int
    var symdefsize: nat
    var dupfound: bool
    var texts: set<string> // the names in the hash table
    var memory: seq<nat>   // how often each coming malloc fails before it succeeds

    ghost var contents: seq<Queue> // what the three queues hold
    ghost var cores: seq<nat>      // how many members of each are in memory
    ghost var repr: set<object>

    ghost const supply: seq<nat> // memory at the start
    ghost var asks: nat          // the allocations so far
    ghost var copied: nat        // the members copied so far

    /** Queue q belongs to the builder and holds what contents says. */
    ghost predicate Holds(q: nat)
      requires q < |queue| && q < |contents| && q < |cores|
      reads this`contents, this`cores, this`repr, repr
    {
      && queue[q] in repr && queue[q].repr <= repr && queue[q].Valid()
      && contents[q] == Queue(queue[q].members, queue[q].sym) && cores[q] == |queue[q].chain|
    }

    ghost predicate Apart(p: nat, q: nat)
      requires p < |queue| && q < |queue|
      reads queue
    {
      queue[p].repr !! queue[q].repr
    }

    ghost predicate Valid()
      reads this`contents, this`cores, this`repr, queue, repr
    {
      && |queue| == 3 && |contents| == 3 && |cores| == 3 && this !in repr
      && (forall q :: 0 <= q < 3 ==> Holds(q))
      && (forall p, q :: 0 <= p < 3 && 0 <= q < 3 && p != q ==> Apart(p, q))
    }

    constructor (scan: Record -> Scan, memory: seq<nat>)
      ensures Valid() && fresh(repr) && this.scan == scan
      ensures contents == [Queue([], []), Queue([], []), Queue([], [])]
      ensures allobj && lastobj == -1 && symdefsize == 0 && !dupfound && texts == {}
      ensures Fed() && supply == memory && asks == copied == 0
    {
      this.scan, this.memory, supply := scan, memory, memory;
      allobj, lastobj, symdefsize, dupfound, texts := true, -1, 0, false, {};
      var files;
      ghost var all;
      files, all := NewTempFiles();
      queue, repr, asks, copied := files, all, 0, 0;
      contents, cores := seq(3, _ => Queue([], [])), seq(3, _ => 0);
    }

    static method NewTempFiles() returns (files: seq<Arfile>, ghost all: set<object>)
      ensures |files| == 3 && fresh(all)
      ensures forall q :: 0 <= q < 3 ==> Empty(files[q], all)
      ensures forall p, q :: 0 <= p < 3 && 0 <= q < 3 && p != q ==> files[p].repr !! files[q].repr
    {
      var a := new Arfile();
      var b := new Arfile();
      var c := new Arfile();
      files, all := [a, b, c], a.repr + b.repr + c.repr;
    }

    /** A new file, all of it in this set. */
    static ghost predicate Empty(file: Arfile, all: set<object>)
      reads file, file.repr
    {
      file in all && file.repr <= all && file.Valid() && file.members == [] && file.sym == [] && file.chain == []
    }

    /** How many members are still in memory. */
    ghost function InCore(): nat
      requires |cores| == 3
      reads this`cores
    {
      cores[START] + cores[MIDDLE] + cores[END]
    }

    /** Every failure so far has been made good by spilling a member that was copied. */
    ghost predicate Fed()
      requires |cores| == 3
      reads this`memory, this`cores, this`asks, this`copied
    {
      memory == Coming(supply, asks) && InCore() + Fails(supply, asks) == copied
    }

    method PageFrom(q: nat)
      requires Valid() && q < 3 && queue[q].head != null
      modifies this`cores, repr
      ensures Valid() && InCore() == old(InCore()) - 1
    {
      assert Holds(q);
      queue[q].Page();
      cores := cores[q := cores[q] - 1];
      forall p | 0 <= p < 3 ensures Holds(p) {
        assert old(Holds(p)) && (p != q ==> old(Apart(p, q)));
      }
      forall p, r | 0 <= p < 3 && 0 <= r < 3 && p != r ensures Apart(p, r) {
        assert old(Apart(p, r)) && old(Holds(p)) && old(Holds(r));
      }
    }

    /** Spill from the first queue that has a member in memory; it fails when none has. */
    method Getspace() returns (ok: bool)
      requires Valid()
      modifies this`cores, repr
      ensures Valid() && ok == (old(InCore()) > 0) && InCore() == old(InCore()) - if ok then 1 else 0
    {
      assert Holds(START) && Holds(MIDDLE) && Holds(END);
      if queue[START].head != null {
        PageFrom(START);
        return true;
      }
      if queue[MIDDLE].head != null {
        PageFrom(MIDDLE);
        return true;
      }
      if queue[END].head != null {
        PageFrom(END);
        return true;
      }
      return false;
    }

    /**
      Allocate: spilling changes neither what the queues hold nor any count, and it gives up
      exactly when malloc fails more often than there are members to spill.
     */
    method Armalloc() returns (ok: bool)
      requires Valid() && Fed()
      modifies this`memory, this`cores, this`asks, repr
      ensures Valid() && ok == (old(memory) == [] || old(memory)[0] <= old(InCore()))
      ensures ok <==> Fails(supply, old(asks) + 1) <= copied
      ensures ok ==> Fed() && asks == old(asks) + 1
    {
      var fails: nat := 0;
      asks := asks + 1;
      if memory != [] {
        fails, memory := memory[0], memory[1..];
      }
      while fails > 0
        invariant Valid() && asks == old(asks) + 1 && memory == Coming(supply, asks)
        invariant fails + old(InCore()) == InCore() + if old(memory) == [] then 0 else old(memory)[0]
      {
        ok := Getspace();
        if !ok {
          return false;
        }
        fails := fails - 1;
      }
      return true;
    }

    /** Is the name in the table? If not, it is now. */
    method Duplicate(name: string) returns (ok: bool, dup: bool)
      requires Valid() && Fed()
      modifies this`memory, this`cores, this`asks, this`texts, this`dupfound, repr
      ensures Valid()
      ensures ok <==> Fails(supply, old(asks) + if dup then 0 else 1) <= copied
      ensures ok ==> Fed() && asks == old(asks) + if dup then 0 else 1
      ensures dup == (name in old(texts)) && (ok ==> texts == old(texts) + {name}) && dupfound == (old(dupfound) || dup)
    {
      dup := name in texts;
      if dup {
        dupfound := true;
        return true, true;
      }
      ok := Armalloc();
      if ok {
        texts := texts + {name};
      }
    }

    /** Room for a symbol and its name; its offset is the size of the queue by then. */
    method NewSymref(q: nat) returns (ok: bool, offset: nat)
      requires Valid() && Fed() && q < 3
      modifies this`memory, this`cores, this`asks, repr
      ensures Valid()
      ensures offset == contents[q].Length()
      ensures ok <==> Fails(supply, old(asks) + 2) <= copied
      ensures ok ==> Fed() && asks == old(asks) + 2
    {
      FailsGrow(supply, asks + 1, asks + 2);
      ok := Armalloc();
      assert Holds(q);
      offset := queue[q].size;
      assert offset == contents[q].Length();
      if ok {
        ok := Armalloc();
      }
    }

    method PushSym(q: nat, r: Symref)
      requires Valid() && q < 3
      modifies this`symdefsize, this`contents, repr
      ensures Valid() && symdefsize == old(symdefsize) + 4 + (|r.name| + 1) + 1
      ensures contents == old(contents)[q := Queue(old(contents)[q].members, [r] + old(contents)[q].sym)]
    {
      symdefsize := symdefsize + 4 + (|r.name| + 1) + 1;
      assert Holds(q);
      queue[q].Push(r);
      contents := contents[q := Queue(contents[q].members, [r] + contents[q].sym)];
      forall p | 0 <= p < 3 ensures Holds(p) {
        assert old(Holds(p)) && (p != q ==> old(Apart(p, q)));
      }
      forall p, t | 0 <= p < 3 && 0 <= t < 3 && p != t ensures Apart(p, t) {
        assert old(Apart(p, t)) && old(Holds(p)) && old(Holds(t));
      }
    }

    /** Add one symbol to the chain of queue q; a text symbol must be new. */
    method Objsym(q: nat, s: Sym, ghost names: seq<string>) returns (ok: bool)
      requires Valid() && Fed() && q < 3 && Knows(names)
      modifies this`memory, this`cores, this`asks, this`symdefsize, this`dupfound, this`texts, this`contents, repr
      ensures Valid()
      ensures ok <==> Fails(supply, old(asks) + SymAsks(s, names)) <= copied
      ensures ok ==> Fed() && asks == old(asks) + SymAsks(s, names)
      ensures ok ==> texts == old(texts) + (if s.kind == 'T' then {s.name} else {})
      ensures ok ==> (dupfound <==> old(dupfound) || (s.kind == 'T' && s.name in old(texts)))
      ensures var was := old(contents)[q];
              if ok && Exported(s) && !(s.kind == 'T' && s.name in old(texts)) then
                symdefsize == old(symdefsize) + 4 + (|s.name| + 1) + 1
                && contents == old(contents)[q := Queue(was.members, [Symref(s.kind, s.name, was.Length())] + was.sym)]
              else symdefsize == old(symdefsize) && contents == old(contents)
    {
      if !Exported(s) {
        return true;
      }
      var offset;
      FailsGrow(supply, asks + 2, asks + SymAsks(s, names));
      ok, offset := NewSymref(q);
      if !ok {
        return;
      }
      var dup := false;
      if s.kind == 'T' {
        ok, dup := Duplicate(s.name);
      }
      if ok && !dup {
        PushSym(q, Symref(s.kind, s.name, offset));
      }
    }

    /** The hash table holds the names of a list, and a repeated one has been noticed. */
    ghost predicate Knows(names: seq<string>)
      reads this`texts, this`dupfound
    {
      (forall x :: x in texts <==> x in names) && (dupfound <==> HasRepeat(names))
    }

    /** objsym over the symbols of one member. */
    method Objtraverse(q: nat, syms: seq<Sym>, ghost names: seq<string>) returns (ok: bool)
      requires Valid() && Fed() && q < 3 && Knows(names)
      modifies this`memory, this`cores, this`asks, this`symdefsize, this`dupfound, this`texts, this`contents, repr
      ensures Valid()
      ensures ok <==> Fails(supply, old(asks) + SymsAsks(syms, names)) <= copied
      ensures ok ==> Fed() && asks == old(asks) + SymsAsks(syms, names)
      ensures ok ==> Knows(names + TextNames(syms)) && (old(dupfound) ==> dupfound)
      ensures contents == old(contents)[q := Queue(old(contents)[q].members, contents[q].sym)]
      ensures var was := old(contents)[q];
              ok && !dupfound ==>
                contents[q].sym == PushAll(was.sym, syms, was.Length())
                && symdefsize + TableSize(was.sym) == old(symdefsize) + TableSize(contents[q].sym)
    {
      ok := true;
      ghost var qs, base, size, dup := contents, asks, symdefsize, dupfound;
      assert syms[..0] == [] && names + [] == names;
      assert Traversed(q, syms, names, qs, base, size, dup, 0);
      for k := 0 to |syms|
        invariant Valid() && ok && Fed() && Traversing(q, syms, names, qs, base, size, dup, k)
        invariant contents == qs[q := Queue(qs[q].members, contents[q].sym)]
      {
        AsksStep(supply, syms, names, k, base);
        ok := ObjsymAt(q, syms, k, names, qs, base, size, dup, base + SymsAsks(syms[..k + 1], names));
        if !ok {
          return;
        }
      }
      assert Traversed(q, syms, names, qs, base, size, dup, |syms|);
      assert syms[..|syms|] == syms;
    }

    /** After the first k symbols, from queues qs and counts as they were then. */
    ghost predicate Traversed(q: nat, syms: seq<Sym>, names: seq<string>, qs: seq<Queue>, base: nat, size: nat,
                              dup: bool, k: nat)
      requires q < 3 && |qs| == 3 && k <= |syms|
      reads this`asks, this`texts, this`dupfound, this`contents, this`symdefsize
    {
      |contents| == 3
      && Tallied(Tally(asks, texts, dupfound, contents[q].sym, symdefsize), syms, names, qs[q], base, size, dup, k)
    }

    /** The same. The quantifier keeps the verifier from unfolding it where it is only passed on. */
    ghost predicate Traversing(q: nat, syms: seq<Sym>, names: seq<string>, qs: seq<Queue>, base: nat, size: nat,
                               dup: bool, k: nat)
      requires q < 3 && |qs| == 3 && k <= |syms|
      reads this`asks, this`texts, this`dupfound, this`contents, this`symdefsize
    {
      forall j :: j == k ==> Traversed(q, syms, names, qs, base, size, dup, j)
    }

    method ObjsymAt(q: nat, syms: seq<Sym>, k: nat, ghost names: seq<string>, ghost qs: seq<Queue>, ghost base: nat,
                    ghost size: nat, ghost dup: bool, ghost n: nat)
      returns (ok: bool)
      requires Valid() && Fed() && q < 3 && |qs| == 3 && k < |syms| && n == base + SymsAsks(syms[..k + 1], names)
      requires Traversing(q, syms, names, qs, base, size, dup, k)
      requires contents == qs[q := Queue(qs[q].members, contents[q].sym)]
      modifies this`memory, this`cores, this`asks, this`symdefsize, this`dupfound, this`texts, this`contents, repr
      ensures Valid() && contents == qs[q := Queue(qs[q].members, contents[q].sym)]
      ensures ok <==> Fails(supply, n) <= copied
      ensures ok ==> Fed() && Traversing(q, syms, names, qs, base, size, dup, k + 1)
    {
      ghost var known := names + TextNames(syms[..k]);
      ghost var t := Tally(asks, texts, dupfound, contents[q].sym, symdefsize);
      TalliedNow(q, syms, names, qs, base, size, dup, k, t, known, n);
      ok := Objsym(q, syms[k], known);
      if ok {
        TallyStep(t, Tally(asks, texts, dupfound, contents[q].sym, symdefsize), syms, names, qs[q], base, size, dup, k);
        assert Traversed(q, syms, names, qs, base, size, dup, k + 1);
      }
    }

    lemma TalliedNow(q: nat, syms: seq<Sym>, names: seq<string>, qs: seq<Queue>, base: nat, size: nat, dup: bool,
                     k: nat, t: Tally, known: seq<string>, n: nat)
      requires q < 3 && |qs| == 3 && k < |syms| && Traversing(q, syms, names, qs, base, size, dup, k)
      requires |contents| == 3 && t == Tally(asks, texts, dupfound, contents[q].sym, symdefsize)
      requires known == names + TextNames(syms[..k]) && n == base + SymsAsks(syms[..k + 1], names)
      ensures Tallied(t, syms, names, qs[q], base, size, dup, k)
      ensures Knows(known) && n == asks + SymAsks(syms[k], known)
    {
      assert Traversed(q, syms, names, qs, base, size, dup, k);
      AsksStep(supply, syms, names, k, base);
    }

    /** What has been learnt from the members taken so far. */
    ghost predicate Scanned(taken: seq<Record>)
      reads this`allobj, this`lastobj, this`texts, this`dupfound
    {
      && (allobj <==> Uniform(scan, taken))
      && (allobj ==> lastobj == (if taken == [] then -1 else Arch(scan(taken[0]))) && Knows(AllTexts(scan, taken)))
    }

    method Scanobj(q: nat, rec: Record, ghost taken: seq<Record>) returns (ok: bool)
      requires Valid() && Fed() && q < 3 && Scanned(taken)
      modifies this`allobj, this`lastobj, this`memory, this`cores, this`asks, this`symdefsize, this`dupfound,
               this`texts, this`contents, repr
      ensures Valid()
      ensures ok <==> Fails(supply, old(asks) + ScanAsks(scan, taken, rec)) <= copied
      ensures ok ==> Fed() && asks == old(asks) + ScanAsks(scan, taken, rec)
      ensures ok ==> Scanned(taken + [rec]) && (allobj && !dupfound ==> old(allobj && !dupfound))
      ensures contents == old(contents)[q := Queue(old(contents)[q].members, contents[q].sym)]
      ensures var was := old(contents)[q];
              ok && allobj && !dupfound ==>
                contents[q].sym == PushAll(was.sym, Syms(scan(rec)), was.Length())
                && symdefsize + TableSize(was.sym) == old(symdefsize) + TableSize(contents[q].sym)
    {
      UniformSnoc(scan, taken, rec);
      if !allobj {
        return true;
      }
      var obj := Arch(scan(rec));
      if obj < 0 {
        allobj := false;
        return true;
      }
      if lastobj >= 0 && obj != lastobj {
        allobj := false;
        return true;
      }
      lastobj := obj;
      ok := Objtraverse(q, Syms(scan(rec)), AllTexts(scan, taken));
      assert (taken + [rec])[..|taken|] == taken;
    }

    method Insert(q: nat, bp: Armember)
      requires Valid() && q < 3 && Sound(bp.rec) && bp !in repr
      modifies this`contents, this`cores, this`repr, queue[q], queue[q].repr, bp
      ensures Valid() && repr == old(repr) + {bp} && InCore() == old(InCore()) + 1
      ensures contents == old(contents)[q := Queue(old(contents)[q].members + [bp.rec], old(contents)[q].sym)]
    {
      assert Holds(q);
      queue[q].Arcopy(bp);
      contents := contents[q := Queue(contents[q].members + [bp.rec], contents[q].sym)];
      cores := cores[q := cores[q] + 1];
      repr := repr + {bp};
      forall p | 0 <= p < 3 ensures Holds(p) {
        assert old(Holds(p)) && (p != q ==> old(Apart(p, q)));
      }
      forall p, r | 0 <= p < 3 && 0 <= r < 3 && p != r ensures Apart(p, r) {
        assert old(Apart(p, r)) && old(Holds(p)) && old(Holds(r));
        assert (p != q ==> old(Apart(p, q))) && (r != q ==> old(Apart(r, q)));
      }
    }

    /** arcopy into queue q. */
    method Add(q: nat, rec: Record) returns (ok: bool)
      requires Valid() && Fed() && q < 3 && Sound(rec)
      modifies this`memory, this`cores, this`asks, this`copied, this`contents, this`repr, repr
      ensures Valid() && fresh(repr - old(repr))
      ensures ok <==> Fails(supply, old(asks) + 1) <= old(copied)
      ensures ok ==> Fed() && asks == old(asks) + 1 && copied == old(copied) + 1
      ensures ok ==> contents == old(contents)[q := Queue(old(contents)[q].members + [rec], old(contents)[q].sym)]
    {
      ok := Armalloc();
      if ok {
        var bp := new Armember(rec);
        assert Holds(q);
        Insert(q, bp);
        copied := copied + 1;
      }
    }

    /** While all members are objects and no name is repeated, the chains and the size are complete. */
    ghost predicate Ready()
      requires |contents| == 3
      reads this`allobj, this`dupfound, this`contents, this`symdefsize
    {
      allobj && !dupfound ==> Complete(scan, contents, symdefsize)
    }

    /** Scan a member for queue q and copy it there. */
    method Take(q: nat, rec: Record, ghost taken: seq<Record>) returns (ok: bool)
      requires Valid() && Fed() && q < 3 && Sound(rec) && Scanned(taken) && Ready()
      modifies this, repr
      ensures Valid() && fresh(repr - old(repr))
      ensures ok <==> Fails(supply, old(asks) + ScanAsks(scan, taken, rec) + 1) <= old(copied)
      ensures ok ==> Fed() && asks == old(asks) + ScanAsks(scan, taken, rec) + 1 && copied == old(copied) + 1
      ensures ok ==> Scanned(taken + [rec]) && Ready()
      ensures ok ==> contents == old(contents)[q := Queue(old(contents)[q].members + [rec], contents[q].sym)]
    {
      ghost var qs, size := contents, symdefsize;
      ghost var n := asks + ScanAsks(scan, taken, rec);
      FailsGrow(supply, n, n + 1);
      ok := Scanobj(q, rec, taken);
      if ok {
        ok := AddScanned(q, rec, taken + [rec], qs, size);
      }
    }

    /** The copy, after the scan has brought the queues qs and the size up to date. */
    method AddScanned(q: nat, rec: Record, ghost taken: seq<Record>, ghost qs: seq<Queue>, ghost size: nat)
      returns (ok: bool)
      requires Valid() && Fed() && q < 3 && Sound(rec) && Scanned(taken) && |qs| == 3
      requires contents == qs[q := Queue(qs[q].members, contents[q].sym)]
      requires allobj && !dupfound ==>
                 Complete(scan, qs, size) && contents[q].sym == PushAll(qs[q].sym, Syms(scan(rec)), qs[q].Length())
                 && symdefsize + TableSize(qs[q].sym) == size + TableSize(contents[q].sym)
      modifies this`memory, this`cores, this`asks, this`copied, this`contents, this`repr, repr
      ensures Valid() && fresh(repr - old(repr)) && Scanned(taken)
      ensures ok <==> Fails(supply, old(asks) + 1) <= old(copied)
      ensures ok ==> Fed() && asks == old(asks) + 1 && copied == old(copied) + 1 && Ready()
      ensures ok ==> contents == qs[q := Queue(qs[q].members + [rec], contents[q].sym)]
    {
      ghost var qs1 := contents;
      ok := Add(q, rec);
      if ok {
        TakeContents(qs, qs1, contents, q, rec);
        if allobj && !dupfound {
          TakeComplete(scan, qs, qs1, contents, size, q, rec, symdefsize);
        }
      }
    }

    /** The symbol table, sized before it is written and with offsets for members not yet written. */
    method Rl(date: nat) returns (out: string)
      requires Valid() && symdefsize == LayoutOf(contents).SymdefSize()
      ensures out == Encode(SymdefRecord(Tables(LayoutOf(contents)), date))
    {
      var len := symdefsize;
      if len % 2 == 1 {
        len := len + 1;
      }
      var t := WriteTables(len + |ARMAG| + SAR_HDR);
      out := SymdefBytes(symdefsize, len, date, t, LayoutOf(contents));
    }

    /** The header, the entries and the pad byte. */
    static method SymdefBytes(size: nat, len: nat, date: nat, t: string, ghost l: Layout) returns (out: string)
      requires size == l.SymdefSize() && len == Even(size) && t == Tables(l)
      ensures out == Encode(SymdefRecord(Tables(l), date))
    {
      var a := Header(Field(SYMDEF, 16), Field(Decimal(date), 12), Field("0", 6), Field("0", 6),
                      Field(Octal(SYMDEF_MODE), 8), Field(Decimal(len), 10), ARFMAG);
      var pad := "";
      if size % 2 == 1 {
        pad := "\0";
      }
      out := a.Bytes() + (t + pad);
      SymdefLayout(l, date, pad, len);
    }

    /** The entries of each queue, which starts where the one before it ends. */
    method WriteTables(base: nat) returns (out: string)
      requires Valid()
      ensures out == TablesFrom(LayoutOf(contents), base, contents[START].Length(), contents[MIDDLE].Length())
    {
      assert Holds(START) && Holds(MIDDLE) && Holds(END);
      var a, b, c := queue[START], queue[MIDDLE], queue[END];
      assert a.size == contents[START].Length() && b.size == contents[MIDDLE].Length();
      assert a.sym == contents[START].sym && b.sym == contents[MIDDLE].sym && c.sym == contents[END].sym;
      out := ThreeTables(base, a.size, b.size, a.sym, b.sym, c.sym, LayoutOf(contents));
    }

    static method ThreeTables(base: nat, n1: nat, n2: nat, s1: seq<Symref>, s2: seq<Symref>, s3: seq<Symref>,
                              ghost l: Layout)
      returns (out: string)
      requires s1 == l.start.sym && s2 == l.middle.sym && s3 == l.end.sym
      ensures out == TablesFrom(l, base, n1, n2)
    {
      var len := base;
      var t1 := Wrsym(len, s1);
      len := len + n1;
      var t2 := Wrsym(len, s2);
      len := len + n2;
      var t3 := Wrsym(len, s3);
      out := t1 + t2 + t3;
    }

    /** Nothing is written when all members are objects and a text symbol is defined twice. */
    method Install(date: nat, ghost taken: seq<Record>) returns (out: Outcome)
      requires Valid() && Ready() && Scanned(taken)
      ensures out == if Uniform(scan, taken) && HasRepeat(AllTexts(scan, taken)) then Unchanged
                     else Written(Archive(LayoutOf(contents), date, Uniform(scan, taken)))
    {
      if allobj && dupfound {
        return Unchanged;
      }
      var bytes := ARMAG;
      if allobj {
        var table := Rl(date);
        bytes := bytes + table;
      }
      ghost var l := LayoutOf(contents);
      assert Holds(START) && Holds(MIDDLE) && Holds(END);
      var s := queue[START].Arstream();
      var m := queue[MIDDLE].Arstream();
      var e := queue[END].Arstream();
      EncodeConcat(l.start.members, l.middle.members);
      EncodeConcat(l.start.members + l.middle.members, l.end.members);
      Regroup(bytes, s, m);
      Regroup(bytes, s + m, e);
      return Written(bytes + s + m + e);
    }
  }

  lemma SymdefLayout(l: Layout, date: nat, pad: string, size: nat)
    requires pad == Pad(l.SymdefSize()) && size == Even(l.SymdefSize())
    ensures SymdefRecord(Tables(l), date).hdr ==
            Header(Field(SYMDEF, 16), Field(Decimal(date), 12), Field("0", 6), Field("0", 6),
                   Field(Octal(SYMDEF_MODE), 8), Field(Decimal(size), 10), ARFMAG)
    ensures SymdefRecord(Tables(l), date).member == Tables(l) + pad
  {
    TablesLength(l);
    var body := Tables(l) + pad;
    assert |body| == size && size % 2 == 0;
    assert body + "" == body;
  }
}
