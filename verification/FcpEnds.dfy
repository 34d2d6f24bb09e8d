/** Every run of fcp's workers ends, and it ends only when all of them have gone (fcp.c: worker). */
module FcpEnds {
  import opened Fcp

  /** How many steps a worker still makes if it writes nothing more. */
  function Left(wk: Worker): nat {
    match wk
    case Claiming => 3
    case Reading(_, _, _, _) => 2
    case Writing(_, _, _, _, _) => 1
    case Gone => 0
  }

  function AllLeft(workers: seq<Worker>): nat {
    if workers == [] then 0 else AllLeft(workers[..|workers| - 1]) + Left(workers[|workers| - 1])
  }

  lemma {:induction false} LeftStep(workers: seq<Worker>, w: nat, wk: Worker)
    requires w < |workers|
    ensures AllLeft(workers[w := wk]) + Left(workers[w]) == AllLeft(workers) + Left(wk)
  {
    var n := |workers| - 1;
    var front := workers[..n];
    if w == n {
      assert workers[w := wk][..n] == front;
    } else {
      LeftStep(front, w, wk);
      assert workers[w := wk][..n] == front[w := wk];
    }
  }

  lemma {:induction false} AllClaiming(n: nat)
    ensures AllLeft(seq(n, i => Claiming)) == 3 * n
  {
    if n > 0 {
      assert seq(n, i => Claiming)[..n - 1] == seq(n - 1, i => Claiming);
      AllClaiming(n - 1);
    }
  }

  /** Bytes put where nothing was are that many more. */
  lemma {:induction false} PutSize(dst: map<nat, int>, o: nat, bytes: seq<int>)
    requires forall p :: p in dst ==> p < o || o + |bytes| <= p
    ensures |Put(dst, o, bytes)| == |dst| + |bytes|
  {
    if bytes != [] {
      var n := |bytes| - 1;
      PutSize(dst, o, bytes[..n]);
      var front := Put(dst, o, bytes[..n]);
      assert o + n !in front;
      assert front[o + n := bytes[n]].Keys == front.Keys + {o + n};
    }
  }

  /** A map of numbers below n has at most n of them. */
  lemma {:induction false} SizeBelow(keys: set<nat>, n: nat)
    requires forall p :: p in keys ==> p < n
    ensures |keys| <= n
  {
    if n > 0 { SizeBelow(keys - {n - 1}, n - 1); }
  }

  lemma WriteSize(src: seq<int>, s: State, w: nat)
    requires Inv(src, s) && Can(src, s, Write(w))
    ensures |Next(src, s, Write(w)).dst| >= |s.dst| + 1
  {
    var wk := s.workers[w];
    assert WorkerOk(src, s.off, wk);
    forall p | p in s.dst ensures p < wk.o || wk.o + wk.n <= p {
      WriteIsNew(src, s, w, p);
    }
    PutSize(s.dst, wk.o, wk.buf[..wk.n]);
  }

  /** The steps made so far and those left are paid for by the bytes written. */
  lemma {:induction false} StepsPaid(src: seq<int>, workers: nat, run: seq<Event>)
    requires Possible(src, workers, run)
    ensures var s := After(src, workers, run); |run| + AllLeft(s.workers) <= 3 * workers + 3 * |s.dst|
    decreases |run|
  {
    if run == [] {
      AllClaiming(workers);
    } else {
      var p, ev := run[..|run| - 1], run[|run| - 1];
      var s := After(src, workers, p);
      StepsPaid(src, workers, p);
      RunInv(src, workers, p);
      LeftStep(s.workers, ev.w, Next(src, s, ev).workers[ev.w]);
      if ev.Write? { WriteSize(src, s, ev.w); }
    }
  }

  /** However the workers interleave and however short the reads are, three steps for a byte and a worker are enough. */
  lemma RunsEnd(src: seq<int>, workers: nat, run: seq<Event>)
    requires Possible(src, workers, run)
    ensures |run| <= 3 * (|src| + workers)
  {
    var s := After(src, workers, run);
    StepsPaid(src, workers, run);
    RunInv(src, workers, run);
    SizeBelow(s.dst.Keys, |src|);
    assert |s.dst| == |s.dst.Keys|;
  }

  /** The next step of a worker that has not gone. */
  function StepOf(src: seq<int>, s: State, w: nat): Event
    requires w < |s.workers|
  {
    var wk := s.workers[w];
    match wk
    case Reading(_, o, len, _) => Read(w, if o >= |src| then 0 else if o + len <= |src| then len else |src| - o)
    case Writing(_, _, _, _, _) => Write(w)
    case _ => Claim(w)
  }

  /** No step is possible exactly when all workers have gone. */
  lemma EndsWhenGone(src: seq<int>, workers: nat, run: seq<Event>)
    requires Possible(src, workers, run)
    ensures var s := After(src, workers, run);
            (forall ev :: !Can(src, s, ev)) <==> (forall i :: 0 <= i < workers ==> s.workers[i].Gone?)
  {
    var s := After(src, workers, run);
    RunInv(src, workers, run);
    if forall ev :: !Can(src, s, ev) {
      forall i | 0 <= i < workers ensures s.workers[i].Gone? {
        assert WorkerOk(src, s.off, s.workers[i]);
        assert !Can(src, s, StepOf(src, s, i));
      }
    }
  }
}
