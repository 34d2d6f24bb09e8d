/**
  fcp, the parallel file copy (fcp.c: copy1, worker, nextoff), as a step system over
  the workers. A worker claims the block at the shared offset, then reads and writes
  until it has moved the whole block or a read returns nothing.
 */
module Fcp {
  const DEFB := 16 * 1024

  /**
    A worker between two calls: about to take an offset; about to read up to len
    bytes at o into the rest of its buffer; about to write n bytes at o; or gone.
    buf is what the block starting at base has filled of the buffer.
   */
  datatype Worker =
    | Claiming
    | Reading(base: nat, o: nat, len: nat, buf: seq<int>)
    | Writing(base: nat, o: nat, len: nat, buf: seq<int>, n: nat)
    | Gone

  /** The shared offset, the workers, and the bytes written to the destination so far. */
  datatype State = State(off: nat, workers: seq<Worker>, dst: map<nat, int>)

  datatype Event = Claim(w: nat) | Read(w: nat, n: nat) | Write(w: nat)

  /** pread returns between 1 and len bytes below end of file, and nothing at or past it. */
  predicate Can(src: seq<int>, s: State, ev: Event) {
    ev.w < |s.workers| &&
    var wk := s.workers[ev.w];
    match ev
    case Claim(_) => wk.Claiming?
    case Read(_, n) => wk.Reading? && (if wk.o < |src| then 0 < n <= wk.len && wk.o + n <= |src| else n == 0)
    case Write(_) => wk.Writing? && wk.n <= |wk.buf|
  }

  /** pwrite: the bytes land at o, o + 1, ... and nothing else changes. */
  function Put(dst: map<nat, int>, o: nat, bytes: seq<int>): (r: map<nat, int>)
    ensures forall p :: p in r <==> p in dst || o <= p < o + |bytes|
    ensures forall p :: p in r ==> r[p] == if o <= p < o + |bytes| then bytes[p - o] else dst[p]
  {
    if bytes == [] then dst
    else
      var n := |bytes| - 1;
      Put(dst, o, bytes[..n])[o + n := bytes[n]]
  }

  function Next(src: seq<int>, s: State, ev: Event): State
    requires Can(src, s, ev)
  {
    var wk := s.workers[ev.w];
    match ev
    case Claim(w) => s.(off := s.off + DEFB, workers := s.workers[w := Reading(s.off, s.off, DEFB, [])])
    case Read(w, n) =>
      var next := if n == 0 then Gone else Writing(wk.base, wk.o, wk.len, wk.buf + src[wk.o..wk.o + n], n);
      s.(workers := s.workers[w := next])
    case Write(w) =>
      // the source of the write is the start of the buffer, not the place just read into
      State(s.off,
            s.workers[w := if wk.len <= wk.n then Claiming else Reading(wk.base, wk.o + wk.n, wk.len - wk.n, wk.buf)],
            Put(s.dst, wk.o, wk.buf[..wk.n]))
  }

  /** A read is short only when it reaches end of file. */
  predicate Full(src: seq<int>, s: State, ev: Event)
    requires Can(src, s, ev)
  {
    ev.Read? && ev.n > 0 ==> ev.n == s.workers[ev.w].len || s.workers[ev.w].o + ev.n == |src|
  }

  function Start(workers: nat): State { State(0, seq(workers, i => Claiming), map[]) }

  /** The interleavings of a given number of workers. */
  predicate Possible(src: seq<int>, workers: nat, run: seq<Event>)
    decreases |run|, 0
  {
    run == [] ||
    (var p := run[..|run| - 1];
     Possible(src, workers, p) && Can(src, After(src, workers, p), run[|run| - 1]))
  }

  function After(src: seq<int>, workers: nat, run: seq<Event>): (r: State)
    requires Possible(src, workers, run)
    ensures |r.workers| == workers
    decreases |run|, 1
  {
    if run == [] then Start(workers) else Next(src, After(src, workers, run[..|run| - 1]), run[|run| - 1])
  }

  /** Those in which every read is full. */
  predicate FullReads(src: seq<int>, workers: nat, run: seq<Event>)
    requires Possible(src, workers, run)
    decreases |run|
  {
    run == [] ||
    (var p := run[..|run| - 1];
     FullReads(src, workers, p) && Full(src, After(src, workers, p), run[|run| - 1]))
  }

  // ----- the invariant of every run

  predicate Holds(wk: Worker, b: nat) { (wk.Reading? || wk.Writing?) && wk.base == b }

  /** The worker has position p still before it. */
  predicate Owes(wk: Worker, p: nat) { (wk.Reading? || wk.Writing?) && wk.o <= p < wk.base + DEFB }

  /** The buffer holds what has been read of the block so far, however short the reads were. */
  predicate WorkerOk(src: seq<int>, off: nat, wk: Worker) {
    match wk
    case Claiming => true
    case Reading(base, o, len, buf) =>
      && base % DEFB == 0 && base < off && base <= o && o + len == base + DEFB && 0 < len
      && (if o == base then buf == [] else o <= |src| && buf == src[base..o])
    case Writing(base, o, len, buf, n) =>
      && base % DEFB == 0 && base < off && base <= o && o + len == base + DEFB && 0 < n <= len
      && o + n <= |src| && buf == src[base..o + n]
    case Gone => |src| <= off
  }

  predicate SomeOwes(workers: seq<Worker>, p: nat) {
    exists i :: 0 <= i < |workers| && Owes(workers[i], p)
  }

  /** One worker for a block, and the bytes written are those claimed that no worker still has before it. */
  ghost predicate Inv(src: seq<int>, s: State) {
    && s.off % DEFB == 0
    && (forall i :: 0 <= i < |s.workers| ==> WorkerOk(src, s.off, s.workers[i]))
    && (forall i, j, b :: 0 <= i < j < |s.workers| && Holds(s.workers[i], b) ==> !Holds(s.workers[j], b))
    && (forall p: nat :: p in s.dst <==> p < |src| && p < s.off && !SomeOwes(s.workers, p))
  }

  lemma Aligned(base: nat, off: nat)
    requires base % DEFB == 0 && off % DEFB == 0 && base < off
    ensures base + DEFB <= off
  {
  }

  /** Two workers that have the same position before them hold the same block. */
  lemma SameBlock(x: Worker, y: Worker, p: nat, src: seq<int>, off: nat)
    requires WorkerOk(src, off, x) && WorkerOk(src, off, y) && Owes(x, p) && Owes(y, p)
    ensures x.base == y.base
  {
  }

  /** What another worker owes is not changed by a step of worker w. */
  lemma OwesAfter(workers: seq<Worker>, w: nat, wk: Worker, p: nat)
    requires w < |workers|
    ensures SomeOwes(workers[w := wk], p) <==>
            Owes(wk, p) || exists i :: 0 <= i < |workers| && i != w && Owes(workers[i], p)
  {
    var after := workers[w := wk];
    if SomeOwes(after, p) {
      var i :| 0 <= i < |after| && Owes(after[i], p);
      assert i != w ==> Owes(workers[i], p);
    }
    if i :| 0 <= i < |workers| && i != w && Owes(workers[i], p) {
      assert Owes(after[i], p);
    }
    if Owes(wk, p) {
      assert Owes(after[w], p);
    }
  }

  lemma ClaimInv(src: seq<int>, s: State, w: nat)
    requires Inv(src, s) && Can(src, s, Claim(w))
    ensures Inv(src, Next(src, s, Claim(w)))
  {
    var s' := Next(src, s, Claim(w));
    forall p: nat ensures p in s'.dst <==> p < |src| && p < s'.off && !SomeOwes(s'.workers, p) {
      OwesAfter(s.workers, w, s'.workers[w], p);
      OwesAfter(s.workers, w, s.workers[w], p);
      assert s.workers[w := s.workers[w]] == s.workers;
      OwesBelow(src, s, p);
    }
    assert forall i, b: nat :: 0 <= i < |s.workers| && Holds(s.workers[i], b) ==> b < s.off;
  }

  lemma OwesBelow(src: seq<int>, s: State, p: nat)
    requires Inv(src, s)
    ensures SomeOwes(s.workers, p) ==> p < s.off
  {
    if i :| 0 <= i < |s.workers| && Owes(s.workers[i], p) {
      assert WorkerOk(src, s.off, s.workers[i]);
      Aligned(s.workers[i].base, s.off);
    }
  }

  lemma ReadOk(src: seq<int>, s: State, w: nat, n: nat)
    requires Inv(src, s) && Can(src, s, Read(w, n))
    ensures WorkerOk(src, s.off, Next(src, s, Read(w, n)).workers[w])
  {
    var wk := s.workers[w];
    assert WorkerOk(src, s.off, wk);
    Aligned(wk.base, s.off);
    if n > 0 {
      assert wk.buf + src[wk.o..wk.o + n] == src[wk.base..wk.o + n];
    }
  }

  /** A step of worker w that changes neither its block nor, below end of file, what it owes. */
  lemma ReadInv(src: seq<int>, s: State, w: nat, n: nat)
    requires Inv(src, s) && Can(src, s, Read(w, n))
    ensures Inv(src, Next(src, s, Read(w, n)))
  {
    var s' := Next(src, s, Read(w, n));
    var wk, wk' := s.workers[w], s'.workers[w];
    assert WorkerOk(src, s.off, wk);
    ReadOk(src, s, w, n);
    assert forall b: nat :: Holds(wk', b) ==> Holds(wk, b);
    assert s.workers[w := wk] == s.workers;
    forall p: nat ensures p in s'.dst <==> p < |src| && p < s'.off && !SomeOwes(s'.workers, p) {
      OwesAfter(s.workers, w, wk', p);
      OwesAfter(s.workers, w, wk, p);
      assert p < |src| ==> (Owes(wk', p) <==> Owes(wk, p));
    }
  }

  /** What a write puts is before its worker and nobody else, so it is new. */
  lemma WriteIsNew(src: seq<int>, s: State, w: nat, p: nat)
    requires Inv(src, s) && Can(src, s, Write(w))
    ensures var wk := s.workers[w];
            && (wk.o <= p < wk.o + wk.n ==>
                  && p < |src| && p < s.off && p !in s.dst
                  && forall i :: 0 <= i < |s.workers| && i != w ==> !Owes(s.workers[i], p))
  {
    var wk := s.workers[w];
    assert WorkerOk(src, s.off, wk);
    Aligned(wk.base, s.off);
    if wk.o <= p < wk.o + wk.n {
      assert Owes(wk, p);
      forall i | 0 <= i < |s.workers| && i != w ensures !Owes(s.workers[i], p) {
        if Owes(s.workers[i], p) {
          SameBlock(wk, s.workers[i], p, src, s.off);
          assert Holds(wk, wk.base) && Holds(s.workers[i], wk.base);
        }
      }
    }
  }

  lemma WriteInv(src: seq<int>, s: State, w: nat)
    requires Inv(src, s) && Can(src, s, Write(w))
    ensures Inv(src, Next(src, s, Write(w)))
  {
    var s' := Next(src, s, Write(w));
    var wk, wk' := s.workers[w], s'.workers[w];
    assert WorkerOk(src, s.off, wk);
    assert forall b: nat :: Holds(wk', b) ==> Holds(wk, b);
    assert s.workers[w := wk] == s.workers;
    forall p: nat ensures p in s'.dst <==> p < |src| && p < s'.off && !SomeOwes(s'.workers, p) {
      OwesAfter(s.workers, w, wk', p);
      OwesAfter(s.workers, w, wk, p);
      WriteIsNew(src, s, w, p);
      assert Owes(wk, p) <==> Owes(wk', p) || wk.o <= p < wk.o + wk.n;
    }
  }

  /** In every run, with reads as short as they like. */
  lemma {:induction false} RunInv(src: seq<int>, workers: nat, run: seq<Event>)
    requires Possible(src, workers, run)
    ensures Inv(src, After(src, workers, run))
    decreases |run|
  {
    if run != [] {
      var p, ev := run[..|run| - 1], run[|run| - 1];
      RunInv(src, workers, p);
      var s := After(src, workers, p);
      match ev {
        case Claim(w) => ClaimInv(src, s, w);
        case Read(w, n) => ReadInv(src, s, w, n);
        case Write(w) => WriteInv(src, s, w);
      }
    }
  }

  lemma {:induction false} OffsetOnlyGrows(src: seq<int>, workers: nat, run: seq<Event>, i: nat)
    requires Possible(src, workers, run) && i <= |run|
    ensures Possible(src, workers, run[..i])
    ensures After(src, workers, run[..i]).off <= After(src, workers, run).off
    decreases |run|
  {
    if i == |run| {
      assert run[..i] == run;
    } else {
      var p := run[..|run| - 1];
      OffsetOnlyGrows(src, workers, p, i);
      assert p[..i] == run[..i];
    }
  }

  /** Two claims anywhere in a run, by the same worker or by two, take blocks that do not overlap. */
  lemma BlocksDisjoint(src: seq<int>, workers: nat, run: seq<Event>, i: nat, j: nat)
    requires Possible(src, workers, run) && i < j < |run| && run[i].Claim? && run[j].Claim?
    ensures Possible(src, workers, run[..i]) && Possible(src, workers, run[..j])
    ensures After(src, workers, run[..i]).off + DEFB <= After(src, workers, run[..j]).off
  {
    OffsetOnlyGrows(src, workers, run, j);
    OffsetOnlyGrows(src, workers, run[..j], i + 1);
    assert run[..j][..i + 1] == run[..i + 1];
    OffsetOnlyGrows(src, workers, run[..i + 1], i);
    assert run[..i + 1][..i] == run[..i];
  }

  /** The destination file is the source file. */
  predicate Copied(src: seq<int>, dst: map<nat, int>) {
    && (forall p :: p in dst ==> p < |src|)
    && (forall p :: 0 <= p < |src| ==> p in dst && dst[p] == src[p])
  }


  // ----- when the copy is exact

  /** The bytes at the start of the block are also those at o: what a write puts is then what belongs there. */
  predicate Repeats(src: seq<int>, s: State, ev: Event)
    requires Can(src, s, ev)
  {
    ev.Write? ==>
      var wk := s.workers[ev.w];
      wk.base <= wk.o && wk.o + wk.n <= |src| && src[wk.base..wk.base + wk.n] == src[wk.o..wk.o + wk.n]
  }

  /** So it is at every write of the run. */
  predicate WritesRepeat(src: seq<int>, workers: nat, run: seq<Event>)
    requires Possible(src, workers, run)
    decreases |run|
  {
    run == [] ||
    (var p := run[..|run| - 1];
     WritesRepeat(src, workers, p) && Repeats(src, After(src, workers, p), run[|run| - 1]))
  }

  /** Every byte written so far is the source's. */
  predicate Right(src: seq<int>, dst: map<nat, int>) {
    forall p :: p in dst ==> p < |src| && dst[p] == src[p]
  }

  lemma FrontOf(src: seq<int>, lo: nat, hi: nat, n: nat)
    requires lo + n <= hi <= |src|
    ensures src[lo..hi][..n] == src[lo..lo + n]
  {
  }

  /** Bytes put where nothing was: right after exactly when right before and rightly put. */
  lemma PutRight(src: seq<int>, dst: map<nat, int>, o: nat, put: seq<int>)
    requires o + |put| <= |src| && forall p :: p in dst ==> p < o || o + |put| <= p
    ensures Right(src, Put(dst, o, put)) <==> Right(src, dst) && put == src[o..o + |put|]
  {
    var r := Put(dst, o, put);
    if Right(src, r) {
      forall k | 0 <= k < |put| ensures put[k] == src[o..o + |put|][k] {
        assert o + k in r && r[o + k] == put[k];
      }
      forall p | p in dst ensures p < |src| && dst[p] == src[p] {
        assert p in r && r[p] == dst[p];
      }
    }
  }

  /** A write keeps all bytes right exactly when the block's first bytes repeat where it puts them. */
  lemma WriteRight(src: seq<int>, s: State, w: nat)
    requires Inv(src, s) && Can(src, s, Write(w))
    ensures Right(src, Next(src, s, Write(w)).dst) <==> Right(src, s.dst) && Repeats(src, s, Write(w))
  {
    var wk := s.workers[w];
    assert WorkerOk(src, s.off, wk);
    forall p | p in s.dst ensures p < wk.o || wk.o + wk.n <= p {
      WriteIsNew(src, s, w, p);
    }
    NewWriteRight(src, s, w);
  }

  lemma NewWriteRight(src: seq<int>, s: State, w: nat)
    requires Can(src, s, Write(w)) && WorkerOk(src, s.off, s.workers[w])
    requires forall p :: p in s.dst ==> p < s.workers[w].o || s.workers[w].o + s.workers[w].n <= p
    ensures Right(src, Next(src, s, Write(w)).dst) <==> Right(src, s.dst) && Repeats(src, s, Write(w))
  {
    var wk := s.workers[w];
    PutFront(src, s.dst, wk.base, wk.o, wk.n, wk.buf);
  }

  lemma PutFront(src: seq<int>, dst: map<nat, int>, base: nat, o: nat, n: nat, buf: seq<int>)
    requires base <= o && o + n <= |src| && buf == src[base..o + n]
    requires forall p :: p in dst ==> p < o || o + n <= p
    ensures Right(src, Put(dst, o, buf[..n])) <==> Right(src, dst) && src[base..base + n] == src[o..o + n]
  {
    FrontOf(src, base, o + n, n);
    PutRight(src, dst, o, buf[..n]);
  }

  lemma {:induction false} RunRight(src: seq<int>, workers: nat, run: seq<Event>)
    requires Possible(src, workers, run)
    ensures Right(src, After(src, workers, run).dst) <==> WritesRepeat(src, workers, run)
    decreases |run|
  {
    if run != [] {
      var p, ev := run[..|run| - 1], run[|run| - 1];
      RunRight(src, workers, p);
      RunInv(src, workers, p);
      if ev.Write? {
        WriteRight(src, After(src, workers, p), ev.w);
      }
    }
  }

  /**
    When all workers have gone, every byte of the file has been written, once, and the
    destination is the source if and only if every write put bytes that repeat.
   */
  lemma CopiedExactly(src: seq<int>, workers: nat, run: seq<Event>)
    requires workers > 0 && Possible(src, workers, run)
    requires forall i :: 0 <= i < workers ==> After(src, workers, run).workers[i].Gone?
    ensures var dst := After(src, workers, run).dst;
            && (forall p: nat :: p in dst <==> p < |src|)
            && (Copied(src, dst) <==> WritesRepeat(src, workers, run))
  {
    RunInv(src, workers, run);
    RunRight(src, workers, run);
    var s := After(src, workers, run);
    assert WorkerOk(src, s.off, s.workers[0]);
    assert forall p: nat :: !SomeOwes(s.workers, p);
  }

  // ----- full reads

  /** With full reads a worker is at the start of its block or at end of file. */
  predicate AtStart(src: seq<int>, wk: Worker) {
    && (wk.Reading? ==> wk.o == wk.base || wk.o >= |src|)
    && (wk.Writing? ==> wk.o == wk.base && (wk.n == wk.len || wk.o + wk.n == |src|))
  }

  lemma {:induction false} FullReadsStart(src: seq<int>, workers: nat, run: seq<Event>)
    requires Possible(src, workers, run) && FullReads(src, workers, run)
    ensures forall i :: 0 <= i < workers ==> AtStart(src, After(src, workers, run).workers[i])
    ensures WritesRepeat(src, workers, run)
    decreases |run|
  {
    if run != [] {
      var p, ev := run[..|run| - 1], run[|run| - 1];
      FullReadsStart(src, workers, p);
      RunInv(src, workers, p);
      FullStep(src, After(src, workers, p), ev);
    }
  }

  lemma FullStep(src: seq<int>, s: State, ev: Event)
    requires Inv(src, s) && Can(src, s, ev) && Full(src, s, ev) && AtStart(src, s.workers[ev.w])
    ensures Repeats(src, s, ev) && AtStart(src, Next(src, s, ev).workers[ev.w])
  {
    assert WorkerOk(src, s.off, s.workers[ev.w]);
  }

  /** When every read is short only at end of file, the destination is the source. */
  lemma CopyIsExact(src: seq<int>, workers: nat, run: seq<Event>)
    requires workers > 0 && Possible(src, workers, run) && FullReads(src, workers, run)
    requires forall i :: 0 <= i < workers ==> After(src, workers, run).workers[i].Gone?
    ensures Copied(src, After(src, workers, run).dst)
  {
    FullReadsStart(src, workers, run);
    CopiedExactly(src, workers, run);
  }

  // ----- a short read in the middle

  lemma Extend(src: seq<int>, run: seq<Event>, ev: Event)
    requires Possible(src, 1, run) && Can(src, After(src, 1, run), ev)
    ensures Possible(src, 1, run + [ev]) && After(src, 1, run + [ev]) == Next(src, After(src, 1, run), ev)
  {
    assert (run + [ev])[..|run|] == run;
  }

  /** Two reads of one byte each: both writes put the first byte, and every worker leaves content. */
  lemma ShortReadsCorrupt() returns (src: seq<int>, run: seq<Event>)
    ensures Possible(src, 1, run) && After(src, 1, run).workers == [Gone] && !Copied(src, After(src, 1, run).dst)
  {
    src, run := [1, 2], [];
    Extend(src, run, Claim(0)); run := run + [Claim(0)];
    assert After(src, 1, run).workers == [Reading(0, 0, DEFB, [])];
    assert [] + src[0..1] == [1] && [1] + src[1..2] == [1, 2];
    Extend(src, run, Read(0, 1)); run := run + [Read(0, 1)];
    assert After(src, 1, run).workers == [Writing(0, 0, DEFB, [1], 1)];
    Extend(src, run, Write(0)); run := run + [Write(0)];
    assert After(src, 1, run).workers == [Reading(0, 1, DEFB - 1, [1])];
    Extend(src, run, Read(0, 1)); run := run + [Read(0, 1)];
    assert After(src, 1, run).workers == [Writing(0, 1, DEFB - 1, [1, 2], 1)];
    Extend(src, run, Write(0)); run := run + [Write(0)];
    assert After(src, 1, run).workers == [Reading(0, 2, DEFB - 2, [1, 2])];
    assert After(src, 1, run).dst[1] == 1;
    Extend(src, run, Read(0, 0)); run := run + [Read(0, 0)];
  }
}
