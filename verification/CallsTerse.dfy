/**
  What terse mode of calls can lose: a function first expanded on the last place of the
  active list has its callees cut off as too deep, and when it is met again it is only
  referred to.
 */
module CallsTerse {
  import opened CallsModel
  import opened CallsTheorems
  import opened CallsReach

  const LAST := MAXDEPTH - 1

  /** Functions 0 to 299 call each other in a chain, 299 calls 300, and 0 also calls 299 directly. */
  function Chain(): (g: Graph)
    ensures |g| == MAXDEPTH + 1 && Closed(g)
    ensures g[0] == Defined([1, LAST]) && g[MAXDEPTH] == Defined([])
    ensures forall i :: 0 < i < MAXDEPTH ==> g[i] == Defined([i + 1])
  {
    seq(MAXDEPTH + 1, i requires 0 <= i =>
      if i == 0 then Defined([1, LAST]) else if i < MAXDEPTH then Defined([i + 1]) else Defined([]))
  }

  /** The functions from i on are not marked, the stack holds those below i. */
  predicate Down(s: State, i: nat) {
    && |s.first| == MAXDEPTH + 1 && |s.stack| == i <= MAXDEPTH
    && (forall k :: 0 <= k < i ==> s.stack[k] == k)
    && (forall k :: i <= k <= MAXDEPTH ==> s.first[k] == 0)
  }

  lemma One(fs: seq<nat>, f: nat)
    requires fs == [f]
    ensures fs[..0] == []
  {
  }

  /** The chain is followed to function 299, whose call of 300 is too deep. */
  lemma {:induction false} DownTheChain(o: Options, s: State, i: nat, tabc: nat)
    requires o.ntabs > 0 && o.terse && 0 < i < MAXDEPTH && Down(s, i) && Fits(Chain(), s)
    ensures var r := Output(Chain(), o, s, i, tabc); !Marked(r, MAXDEPTH) && Marked(r, LAST)
    decreases MAXDEPTH - i
  {
    var g := Chain();
    assert KindOf(g, o, s, i) == Expanded;
    var s1 := Opened(g, o, s, i, tabc);
    One(g[i].calls, i + 1);
    assert OutputAll(g, o, s1, [], tabc + 1) == s1;
    var t := OutputAll(g, o, s1, g[i].calls, tabc + 1);
    assert t == Output(g, o, s1, i + 1, tabc + 1);
    assert Output(g, o, s, i, tabc).first == t.first;
    if i < LAST {
      DownTheChain(o, s1, i + 1, tabc + 1);
    }
  }

  /**
    In terse mode function 300 is never expanded, although a chain of three functions
    leads to it; in full mode it is.
   */
  lemma TerseLoses(o: Options)
    requires o.ntabs > 0 && o.terse
    ensures var g := Chain();
            && g[MAXDEPTH].Defined? && ReachAny(g, [0], MAXDEPTH, 3)
            && Expansions(OutputAll(g, o, Start(g), [0], 0).out, MAXDEPTH) == 0
            && Expansions(OutputAll(g, o.(terse := false), Start(g), [0], 0).out, MAXDEPTH) > 0
  {
    var g, p := Chain(), [0, LAST, MAXDEPTH];
    assert CallsTo(g, p[0], p[1]) && CallsTo(g, p[1], p[2]);
    assert Path(g, p) && Reach(g, [0][0], MAXDEPTH, 3);
    assert Reach(g, [0][0], MAXDEPTH, MAXDEPTH);
    ExpandsTheReachable(g, o.(terse := false), [0], MAXDEPTH);
    NotMarked(o);
    MarksAreExpansions(g, o, [0], MAXDEPTH);
  }

  lemma NotMarked(o: Options)
    requires o.ntabs > 0 && o.terse
    ensures !Marked(OutputAll(Chain(), o, Start(Chain()), [0], 0), MAXDEPTH)
  {
    var g := Chain();
    var s := Start(g);
    One([0], 0);
    assert OutputAll(g, o, s, [], 0) == s;
    var s1 := Opened(g, o, s, 0, 0);
    var fs := g[0].calls;
    assert fs[..1] == [1] && [1][..0] == [];
    assert OutputAll(g, o, s1, [], 1) == s1;
    DownTheChain(o, s1, 1, 1);
    var t := OutputAll(g, o, s1, fs[..1], 1);
    assert t == Output(g, o, s1, 1, 1);
    assert KindOf(g, o, t, LAST) != Expanded;
  }
}
