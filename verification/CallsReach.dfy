/**
  Which functions the printer of calls expands. In full mode: the defined functions to
  which a chain of calls leads that fits on the active list. In terse mode, when no chain
  of calls fills the list: all defined functions that can be reached, each once.
 */
module CallsReach {
  import opened CallsModel
  import opened CallsTheorems

  predicate Marked(s: State, x: nat) { x < |s.first| && s.first[x] != 0 }

  predicate NoDeep(out: seq<Event>) { forall k :: 0 <= k < |out| ==> !out[k].TooDeep? }

  predicate CallsTo(g: Graph, x: nat, y: nat) { x < |g| && g[x].Defined? && y in g[x].calls }

  /** A chain of calls from p[0] to its last element. */
  predicate Path(g: Graph, p: seq<nat>) {
    p != [] && p[0] < |g| && forall i :: 0 <= i < |p| - 1 ==> CallsTo(g, p[i], p[i + 1])
  }

  /** A chain of at most d functions leads from f to x. */
  ghost predicate Reach(g: Graph, f: nat, x: nat, d: int) {
    exists p :: Path(g, p) && p[0] == f && p[|p| - 1] == x && |p| <= d
  }

  ghost predicate ReachAny(g: Graph, fs: seq<nat>, x: nat, d: int) {
    exists k :: 0 <= k < |fs| && Reach(g, fs[k], x, d)
  }

  lemma ReachSelf(g: Graph, f: nat, d: int)
    requires f < |g| && d >= 1
    ensures Reach(g, f, f, d)
  {
    assert Path(g, [f]);
  }

  lemma ReachStep(g: Graph, f: nat, h: nat, x: nat, d: int)
    requires CallsTo(g, f, h) && Reach(g, h, x, d - 1)
    ensures Reach(g, f, x, d)
  {
    var p :| Path(g, p) && p[0] == h && p[|p| - 1] == x && |p| <= d - 1;
    var q := [f] + p;
    assert forall i :: 0 < i < |q| ==> q[i] == p[i - 1];
    assert Path(g, q);
  }

  // ----- only what can be reached is expanded

  lemma {:induction false} OutputMarks(g: Graph, o: Options, s: State, f: nat, tabc: nat, x: nat)
    requires o.ntabs > 0 && Closed(g) && Fits(g, s) && f < |g|
    requires !Marked(s, x) && Marked(Output(g, o, s, f, tabc), x)
    ensures Reach(g, f, x, MAXDEPTH - |s.stack|) && g[x].Defined?
    decreases MAXDEPTH - |s.stack|, 0
  {
    var s1, d := Opened(g, o, s, f, tabc), MAXDEPTH - |s.stack|;
    if x == f {
      ReachSelf(g, f, d);
    } else {
      OutputAllMarks(g, o, s1, g[f].calls, tabc + 1, x);
      var k :| 0 <= k < |g[f].calls| && Reach(g, g[f].calls[k], x, d - 1);
      ReachStep(g, f, g[f].calls[k], x, d);
    }
  }

  lemma {:induction false} OutputAllMarks(g: Graph, o: Options, s: State, fs: seq<nat>, tabc: nat, x: nat)
    requires o.ntabs > 0 && Closed(g) && Fits(g, s) && Named(g, fs)
    requires !Marked(s, x) && Marked(OutputAll(g, o, s, fs, tabc), x)
    ensures ReachAny(g, fs, x, MAXDEPTH - |s.stack|) && g[x].Defined?
    decreases MAXDEPTH - |s.stack|, 1, |fs|
  {
    var n, d := |fs| - 1, MAXDEPTH - |s.stack|;
    var t := OutputAll(g, o, s, fs[..n], tabc);
    if Marked(t, x) {
      OutputAllMarks(g, o, s, fs[..n], tabc, x);
      var k :| 0 <= k < n && Reach(g, fs[..n][k], x, d);
      assert fs[..n][k] == fs[k];
    } else {
      OutputMarks(g, o, t, fs[n], tabc, x);
      assert Reach(g, fs[n], x, d);
    }
  }

  // ----- in full mode a chain that fits is followed to its end

  predicate Apart(p: seq<nat>, stack: seq<nat>) { forall i :: 0 <= i < |p| ==> p[i] !in stack }

  /** The functions of p, none of them active and none twice, fit above the stack: the last one is expanded. */
  lemma {:induction false} OutputFollows(g: Graph, o: Options, s: State, p: seq<nat>, tabc: nat)
    requires o.ntabs > 0 && !o.terse && Closed(g) && Fits(g, s)
    requires Path(g, p) && Distinct(p) && Apart(p, s.stack) && |s.stack| + |p| <= MAXDEPTH
    requires p[|p| - 1] < |g| && g[p[|p| - 1]].Defined?
    ensures Marked(Output(g, o, s, p[0], tabc), p[|p| - 1])
    decreases |p|, 0
  {
    var f := p[0];
    assert |p| > 1 ==> CallsTo(g, p[0], p[1]);
    assert KindOf(g, o, s, f) == Expanded;
    var fs, s1 := g[f].calls, Opened(g, o, s, f, tabc);
    if |p| == 1 {
      OutputAllExtends(g, o, s1, fs, tabc + 1);
    } else {
      var q := p[1..];
      assert Path(g, q) by {
        assert forall i :: 0 <= i < |q| ==> q[i] == p[i + 1];
        NamedCallee(g, f, p[1]);
      }
      OutputAllFollows(g, o, s1, fs, q, tabc + 1);
    }
  }

  lemma NamedCallee(g: Graph, f: nat, h: nat)
    requires Closed(g) && CallsTo(g, f, h)
    ensures h < |g|
  {
    var k :| 0 <= k < |g[f].calls| && g[f].calls[k] == h;
  }

  lemma {:induction false} OutputAllFollows(g: Graph, o: Options, s: State, fs: seq<nat>, p: seq<nat>, tabc: nat)
    requires o.ntabs > 0 && !o.terse && Closed(g) && Fits(g, s) && Named(g, fs)
    requires Path(g, p) && p[0] in fs && Distinct(p) && Apart(p, s.stack) && |s.stack| + |p| <= MAXDEPTH
    requires p[|p| - 1] < |g| && g[p[|p| - 1]].Defined?
    ensures Marked(OutputAll(g, o, s, fs, tabc), p[|p| - 1])
    decreases |p|, 1, |fs|
  {
    var n := |fs| - 1;
    var t := OutputAll(g, o, s, fs[..n], tabc);
    if fs[n] == p[0] {
      OutputFollows(g, o, t, p, tabc);
    } else {
      assert p[0] in fs[..n];
      OutputAllFollows(g, o, s, fs[..n], p, tabc);
      OutputExtends(g, o, t, fs[n], tabc);
    }
  }

  /** A chain without repeats that is not longer. */
  lemma {:induction false} Straighten(g: Graph, p: seq<nat>) returns (q: seq<nat>)
    requires Path(g, p)
    ensures Path(g, q) && Distinct(q) && q[0] == p[0] && q[|q| - 1] == p[|p| - 1] && |q| <= |p|
    decreases |p|
  {
    q := p;
    if i, j :| 0 <= i < j < |p| && p[i] == p[j] {
      var cut := p[..i] + p[j..];
      forall k | 0 <= k < |cut| - 1 ensures CallsTo(g, cut[k], cut[k + 1]) {
        if k + 1 < i {
          assert CallsTo(g, p[k], p[k + 1]);
        } else if k + 1 == i {
          assert CallsTo(g, p[i - 1], p[i]);
        } else {
          assert CallsTo(g, p[k + j - i], p[k + j - i + 1]);
        }
      }
      q := Straighten(g, cut);
    }
  }

  // ----- all that can be reached is expanded

  predicate StackMarked(s: State) { forall k :: 0 <= k < |s.stack| ==> Marked(s, s.stack[k]) }

  /** From s to t, whatever got marked has its defined callees marked. */
  ghost predicate Shut(g: Graph, s: State, t: State) {
    forall x, h: nat :: !Marked(s, x) && Marked(t, x) && CallsTo(g, x, h) && h < |g| && g[h].Defined? ==> Marked(t, h)
  }

  predicate AllMarked(g: Graph, s: State, fs: seq<nat>) {
    forall k :: 0 <= k < |fs| && fs[k] < |g| && g[fs[k]].Defined? ==> Marked(s, fs[k])
  }

  lemma NoDeepBefore(s: State, t: State)
    requires Extends(s, t) && NoDeep(t.out)
    ensures NoDeep(s.out)
  {
    assert forall k :: 0 <= k < |s.out| ==> s.out[k] == t.out[..|s.out|][k] == t.out[k];
  }

  lemma DeepShows(g: Graph, o: Options, s: State, f: nat, tabc: nat)
    requires o.ntabs > 0 && Closed(g) && Fits(g, s) && f < |g| && |s.stack| >= MAXDEPTH
    ensures !NoDeep(Output(g, o, s, f, tabc).out)
  {
    assert Output(g, o, s, f, tabc).out[|s.out|].TooDeep?;
  }

  lemma {:induction false} OutputShut(g: Graph, o: Options, s: State, f: nat, tabc: nat)
    requires o.ntabs > 0 && Closed(g) && Fits(g, s) && f < |g| && StackMarked(s)
    requires NoDeep(Output(g, o, s, f, tabc).out)
    ensures Shut(g, s, Output(g, o, s, f, tabc))
    ensures g[f].Defined? ==> Marked(Output(g, o, s, f, tabc), f)
    decreases MAXDEPTH - |s.stack|, 0
  {
    var r := Output(g, o, s, f, tabc);
    if |s.stack| >= MAXDEPTH {
      DeepShows(g, o, s, f, tabc);
    } else if KindOf(g, o, s, f) == Expanded {
      var fs, s1 := g[f].calls, Opened(g, o, s, f, tabc);
      var t := OutputAll(g, o, s1, fs, tabc + 1);
      OutputAllExtends(g, o, s1, fs, tabc + 1);
      assert t.out == r.out[..|t.out|];
      assert StackMarked(s1);
      OutputAllShut(g, o, s1, fs, tabc + 1);
      assert forall x :: Marked(r, x) <==> Marked(t, x);
      assert forall x :: !Marked(s, x) && Marked(s1, x) ==> x == f;
    }
  }

  lemma {:induction false} OutputAllShut(g: Graph, o: Options, s: State, fs: seq<nat>, tabc: nat)
    requires o.ntabs > 0 && Closed(g) && Fits(g, s) && Named(g, fs) && StackMarked(s)
    requires NoDeep(OutputAll(g, o, s, fs, tabc).out)
    ensures Shut(g, s, OutputAll(g, o, s, fs, tabc)) && AllMarked(g, OutputAll(g, o, s, fs, tabc), fs)
    decreases MAXDEPTH - |s.stack|, 1, |fs|
  {
    if fs != [] {
      var n := |fs| - 1;
      var t, u := OutputAll(g, o, s, fs[..n], tabc), OutputAll(g, o, s, fs, tabc);
      OutputAllExtends(g, o, s, fs[..n], tabc);
      OutputExtends(g, o, t, fs[n], tabc);
      NoDeepBefore(t, u);
      OutputAllShut(g, o, s, fs[..n], tabc);
      OutputShut(g, o, t, fs[n], tabc);
      ShutTwice(g, s, t, u);
      assert forall k :: 0 <= k < n ==> fs[k] == fs[..n][k];
    }
  }

  lemma ShutTwice(g: Graph, s: State, t: State, u: State)
    requires Shut(g, s, t) && Shut(g, t, u) && Extends(t, u)
    ensures Shut(g, s, u)
  {
    forall x, h: nat | !Marked(s, x) && Marked(u, x) && CallsTo(g, x, h) && h < |g|
      && g[h].Defined? ensures Marked(u, h) {
      if Marked(t, x) {
        assert Marked(t, h);
      }
    }
  }

  // ----- the theorem

  lemma {:induction false} PathMarked(g: Graph, r: State, p: seq<nat>)
    requires Closed(g) && Shut(g, Start(g), r) && Path(g, p) && Marked(r, p[0])
    requires p[|p| - 1] < |g| && g[p[|p| - 1]].Defined?
    ensures Marked(r, p[|p| - 1])
    decreases |p|
  {
    if |p| > 1 {
      var q := p[..|p| - 1];
      assert CallsTo(g, p[|p| - 2], p[|p| - 1]);
      PathMarked(g, r, q);
    }
  }

  /** In full mode the functions expanded are the defined ones to which a chain of at most 300 functions leads. */
  lemma ExpandsTheReachable(g: Graph, o: Options, roots: seq<nat>, x: nat)
    requires o.ntabs > 0 && !o.terse && Closed(g) && Named(g, roots) && x < |g|
    ensures Expansions(OutputAll(g, o, Start(g), roots, 0).out, x) > 0 <==>
            g[x].Defined? && ReachAny(g, roots, x, MAXDEPTH)
  {
    MarksAreExpansions(g, o, roots, x);
    if Marked(OutputAll(g, o, Start(g), roots, 0), x) {
      OutputAllMarks(g, o, Start(g), roots, 0, x);
    }
    if g[x].Defined? && ReachAny(g, roots, x, MAXDEPTH) {
      var k :| 0 <= k < |roots| && Reach(g, roots[k], x, MAXDEPTH);
      var p :| Path(g, p) && p[0] == roots[k] && p[|p| - 1] == x && |p| <= MAXDEPTH;
      var q := Straighten(g, p);
      OutputAllFollows(g, o, Start(g), roots, q, 0);
    }
  }

  // ----- chains of calls that fill the active list

  /** A chain without repeats from f that fills the active list and then calls on. */
  ghost predicate Fills(g: Graph, f: nat) {
    exists p :: Path(g, p) && p[0] == f && Distinct(p) && |p| == MAXDEPTH && Calls(g, p[|p| - 1])
  }

  predicate Calls(g: Graph, f: nat) { f < |g| && g[f].Defined? && g[f].calls != [] }

  ghost predicate SomeFills(g: Graph, roots: seq<nat>) {
    exists k :: 0 <= k < |roots| && Fills(g, roots[k])
  }

  predicate NoDeepFrom(out: seq<Event>, n: nat) { forall k :: n <= k < |out| ==> !out[k].TooDeep? }

  /** The stack is a chain of calls without repeats from root, and f is called from its top, or is root itself. */
  predicate OnChain(g: Graph, stack: seq<nat>, f: nat, root: nat) {
    Distinct(stack) && Path(g, stack + [f]) && (stack + [f])[0] == root
  }

  lemma {:induction false} OutputNoDeep(g: Graph, o: Options, s: State, f: nat, tabc: nat, root: nat)
    requires o.ntabs > 0 && Closed(g) && Fits(g, s) && f < |g| && OnChain(g, s.stack, f, root) && !Fills(g, root)
    ensures NoDeepFrom(Output(g, o, s, f, tabc).out, |s.out|)
    decreases MAXDEPTH - |s.stack|, 0
  {
    if |s.stack| >= MAXDEPTH {
      FullChain(g, s.stack, f, root);
    } else if KindOf(g, o, s, f) == Expanded {
      var fs, s1 := g[f].calls, Opened(g, o, s, f, tabc);
      forall k | 0 <= k < |fs| ensures OnChain(g, s1.stack, fs[k], root) {
        Lengthen(g, s.stack, f, fs[k], root);
      }
      OutputAllNoDeep(g, o, s1, fs, tabc + 1, root);
      OutputAllExtends(g, o, s1, fs, tabc + 1);
      StillNoDeep(s1.out, OutputAll(g, o, s1, fs, tabc + 1).out, |s.out|);
    }
  }

  lemma StillNoDeep(a: seq<Event>, b: seq<Event>, n: nat)
    requires |a| <= |b| && b[..|a|] == a && NoDeepFrom(a, n) && NoDeepFrom(b, |a|)
    ensures NoDeepFrom(b, n)
  {
    assert forall k :: n <= k < |a| ==> b[k] == b[..|a|][k] == a[k];
  }

  lemma FullChain(g: Graph, stack: seq<nat>, f: nat, root: nat)
    requires OnChain(g, stack, f, root) && |stack| == MAXDEPTH
    ensures Fills(g, root)
  {
    var p := stack + [f];
    assert forall i :: 0 <= i < |stack| ==> p[i] == stack[i];
    assert forall i :: 0 <= i < |stack| - 1 ==> CallsTo(g, p[i], p[i + 1]);
    assert CallsTo(g, p[|stack| - 1], p[|stack|]);
    assert Path(g, stack);
  }

  lemma Lengthen(g: Graph, stack: seq<nat>, f: nat, h: nat, root: nat)
    requires OnChain(g, stack, f, root) && f !in stack && CallsTo(g, f, h)
    ensures OnChain(g, stack + [f], h, root)
  {
    var p, q := stack + [f], stack + [f] + [h];
    assert forall i :: 0 <= i < |p| ==> q[i] == p[i];
    forall i | 0 <= i < |q| - 1 ensures CallsTo(g, q[i], q[i + 1]) {
      if i < |p| - 1 {
        assert CallsTo(g, p[i], p[i + 1]);
      }
    }
  }

  lemma {:induction false} OutputAllNoDeep(g: Graph, o: Options, s: State, fs: seq<nat>, tabc: nat, root: nat)
    requires o.ntabs > 0 && Closed(g) && Fits(g, s) && Named(g, fs) && !Fills(g, root)
    requires forall k :: 0 <= k < |fs| ==> OnChain(g, s.stack, fs[k], root)
    ensures NoDeepFrom(OutputAll(g, o, s, fs, tabc).out, |s.out|)
    decreases MAXDEPTH - |s.stack|, 1, |fs|
  {
    if fs != [] {
      var n := |fs| - 1;
      var t, u := OutputAll(g, o, s, fs[..n], tabc), OutputAll(g, o, s, fs, tabc);
      OutputAllNoDeep(g, o, s, fs[..n], tabc, root);
      OutputNoDeep(g, o, t, fs[n], tabc, root);
      OutputExtends(g, o, t, fs[n], tabc);
      assert u == Output(g, o, t, fs[n], tabc);
      StillNoDeep(t.out, u.out, |s.out|);
    }
  }

  lemma {:induction false} RootsNoDeep(g: Graph, o: Options, roots: seq<nat>)
    requires o.ntabs > 0 && Closed(g) && Named(g, roots) && !SomeFills(g, roots)
    ensures NoDeep(OutputAll(g, o, Start(g), roots, 0).out)
    decreases |roots|
  {
    if roots != [] {
      var n := |roots| - 1;
      var t, u := OutputAll(g, o, Start(g), roots[..n], 0), OutputAll(g, o, Start(g), roots, 0);
      assert !SomeFills(g, roots[..n]) by {
        assert forall k :: 0 <= k < n ==> roots[..n][k] == roots[k];
      }
      RootsNoDeep(g, o, roots[..n]);
      RootNoDeep(g, o, t, roots[n]);
    }
  }

  lemma RootNoDeep(g: Graph, o: Options, t: State, root: nat)
    requires o.ntabs > 0 && Closed(g) && Fits(g, t) && root < |g| && t.stack == [] && NoDeep(t.out) && !Fills(g, root)
    ensures NoDeep(Output(g, o, t, root, 0).out)
  {
    var u := Output(g, o, t, root, 0);
    assert [] + [root] == [root];
    assert Path(g, [root]);
    OutputNoDeep(g, o, t, root, 0, root);
    OutputExtends(g, o, t, root, 0);
    assert forall k :: 0 <= k < |t.out| ==> u.out[k] == u.out[..|t.out|][k] == t.out[k];
  }

  // ----- in full mode such a chain is always noticed

  /** A chain that fills the list is followed to its end, where the next call is too deep. */
  lemma {:induction false} OutputFills(g: Graph, o: Options, s: State, p: seq<nat>, tabc: nat)
    requires o.ntabs > 0 && !o.terse && Closed(g) && Fits(g, s)
    requires Path(g, p) && Distinct(p) && Apart(p, s.stack) && |s.stack| + |p| == MAXDEPTH && Calls(g, p[|p| - 1])
    ensures !NoDeep(Output(g, o, s, p[0], tabc).out)
    decreases |p|, 0
  {
    var f, r := p[0], Output(g, o, s, p[0], tabc);
    assert |p| > 1 ==> CallsTo(g, p[0], p[1]);
    assert KindOf(g, o, s, f) == Expanded;
    var fs, s1 := g[f].calls, Opened(g, o, s, f, tabc);
    var t := OutputAll(g, o, s1, fs, tabc + 1);
    if |p| == 1 {
      DeepShows(g, o, OutputAll(g, o, s1, fs[..|fs| - 1], tabc + 1), fs[|fs| - 1], tabc + 1);
    } else {
      var q := p[1..];
      assert Path(g, q) by {
        assert forall i :: 0 <= i < |q| ==> q[i] == p[i + 1];
        NamedCallee(g, f, p[1]);
      }
      OutputAllFills(g, o, s1, fs, q, tabc + 1);
    }
    var k :| 0 <= k < |t.out| && t.out[k].TooDeep?;
    assert r.out[k] == t.out[k];
  }

  lemma {:induction false} OutputAllFills(g: Graph, o: Options, s: State, fs: seq<nat>, p: seq<nat>, tabc: nat)
    requires o.ntabs > 0 && !o.terse && Closed(g) && Fits(g, s) && Named(g, fs) && Path(g, p) && p[0] in fs
    requires Distinct(p) && Apart(p, s.stack) && |s.stack| + |p| == MAXDEPTH && Calls(g, p[|p| - 1])
    ensures !NoDeep(OutputAll(g, o, s, fs, tabc).out)
    decreases |p|, 1, |fs|
  {
    var n := |fs| - 1;
    var t := OutputAll(g, o, s, fs[..n], tabc);
    if fs[n] == p[0] {
      OutputFills(g, o, t, p, tabc);
    } else {
      assert p[0] in fs[..n];
      OutputAllFills(g, o, s, fs[..n], p, tabc);
      OutputExtends(g, o, t, fs[n], tabc);
      if NoDeep(OutputAll(g, o, s, fs, tabc).out) {
        NoDeepBefore(t, OutputAll(g, o, s, fs, tabc));
      }
    }
  }

  /** In full mode "nesting is too deep" is printed exactly when a chain of calls fills the active list. */
  lemma TooDeepExactly(g: Graph, o: Options, roots: seq<nat>)
    requires o.ntabs > 0 && !o.terse && Closed(g) && Named(g, roots)
    ensures NoDeep(OutputAll(g, o, Start(g), roots, 0).out) <==> !SomeFills(g, roots)
  {
    if k :| 0 <= k < |roots| && Fills(g, roots[k]) {
      var p :| Path(g, p) && p[0] == roots[k] && Distinct(p) && |p| == MAXDEPTH && Calls(g, p[|p| - 1]);
      OutputAllFills(g, o, Start(g), roots, p, 0);
    } else {
      RootsNoDeep(g, o, roots);
    }
  }

  /** A graph with fewer functions than the active list has places has no such chain. */
  lemma SmallGraphsFit(g: Graph, roots: seq<nat>)
    requires Closed(g) && |g| < MAXDEPTH
    ensures !SomeFills(g, roots)
  {
    if k :| 0 <= k < |roots| && Fills(g, roots[k]) {
      var p :| Path(g, p) && p[0] == roots[k] && Distinct(p) && |p| == MAXDEPTH && Calls(g, p[|p| - 1]);
      PathNamed(g, p);
      DistinctBound(g, p);
    }
  }

  lemma PathNamed(g: Graph, p: seq<nat>)
    requires Closed(g) && Path(g, p)
    ensures Named(g, p)
  {
    forall k | 0 <= k < |p| ensures p[k] < |g| {
      if k > 0 {
        assert CallsTo(g, p[k - 1], p[k]);
        NamedCallee(g, p[k - 1], p[k]);
      }
    }
  }

  // ----- marks and expansions agree

  lemma {:induction false} ExpansionAt(out: seq<Event>, x: nat)
    ensures Expansions(out, x) > 0 <==> exists k :: 0 <= k < |out| && Expands(out[k], x)
  {
    if out != [] {
      var n := |out| - 1;
      ExpansionAt(out[..n], x);
      assert forall k :: 0 <= k < n ==> out[k] == out[..n][k];
      assert Expansions(out[..n], x) > 0 ==> exists k :: 0 <= k < n && Expands(out[k], x);
    }
  }

  predicate EventsMarked(s: State) {
    forall k :: 0 <= k < |s.out| && s.out[k].Entry? && s.out[k].kind == Expanded ==> Marked(s, s.out[k].func)
  }

  lemma {:induction false} OutputEventsMarked(g: Graph, o: Options, s: State, f: nat, tabc: nat)
    requires o.ntabs > 0 && Closed(g) && Fits(g, s) && f < |g| && EventsMarked(s)
    ensures EventsMarked(Output(g, o, s, f, tabc))
    decreases MAXDEPTH - |s.stack|, 0
  {
    if |s.stack| < MAXDEPTH && KindOf(g, o, s, f) == Expanded {
      var s1 := Opened(g, o, s, f, tabc);
      assert EventsMarked(s1);
      OutputAllEventsMarked(g, o, s1, g[f].calls, tabc + 1);
    }
  }

  lemma {:induction false} OutputAllEventsMarked(g: Graph, o: Options, s: State, fs: seq<nat>, tabc: nat)
    requires o.ntabs > 0 && Closed(g) && Fits(g, s) && Named(g, fs) && EventsMarked(s)
    ensures EventsMarked(OutputAll(g, o, s, fs, tabc))
    decreases MAXDEPTH - |s.stack|, 1, |fs|
  {
    if fs != [] {
      OutputAllEventsMarked(g, o, s, fs[..|fs| - 1], tabc);
      OutputEventsMarked(g, o, OutputAll(g, o, s, fs[..|fs| - 1], tabc), fs[|fs| - 1], tabc);
    }
  }

  lemma MarksAreExpansions(g: Graph, o: Options, roots: seq<nat>, x: nat)
    requires o.ntabs > 0 && Closed(g) && Named(g, roots) && x < |g|
    ensures var r := OutputAll(g, o, Start(g), roots, 0); Marked(r, x) <==> Expansions(r.out, x) > 0
  {
    var r := OutputAll(g, o, Start(g), roots, 0);
    OutputAllEventsMarked(g, o, Start(g), roots, 0);
    OutputAllRefers(g, o, Start(g), roots, 0);
    ExpansionAt(r.out, x);
    if Marked(r, x) {
      assert ExpandedAt(r.out, |r.out|, x, r.first[x]);
    }
  }

  /** In terse mode, unless a chain of calls fills the active list, each reachable one is expanded exactly once. */
  lemma TerseExpandsOnce(g: Graph, o: Options, roots: seq<nat>, x: nat)
    requires o.ntabs > 0 && o.terse && Closed(g) && Named(g, roots) && x < |g| && !SomeFills(g, roots)
    ensures Expansions(OutputAll(g, o, Start(g), roots, 0).out, x) ==
            if g[x].Defined? && ReachAny(g, roots, x, |g|) then 1 else 0
  {
    var r := OutputAll(g, o, Start(g), roots, 0);
    OutputAllOnce(g, o, Start(g), roots, 0, x);
    MarksAreExpansions(g, o, roots, x);
    RootsNoDeep(g, o, roots);
    if Marked(r, x) {
      OutputAllMarks(g, o, Start(g), roots, 0, x);
      ReachShort(g, roots, x, MAXDEPTH);
    }
    if g[x].Defined? && ReachAny(g, roots, x, |g|) {
      OutputAllShut(g, o, Start(g), roots, 0);
      var k :| 0 <= k < |roots| && Reach(g, roots[k], x, |g|);
      var p :| Path(g, p) && p[0] == roots[k] && p[|p| - 1] == x && |p| <= |g|;
      assert |p| > 1 ==> CallsTo(g, p[0], p[1]);
      PathMarked(g, r, p);
    }
  }

  /** What can be reached at all can be reached through at most as many functions as there are. */
  lemma ReachShort(g: Graph, roots: seq<nat>, x: nat, d: int)
    requires Closed(g) && ReachAny(g, roots, x, d)
    ensures ReachAny(g, roots, x, |g|)
  {
    var k :| 0 <= k < |roots| && Reach(g, roots[k], x, d);
    var p :| Path(g, p) && p[0] == roots[k] && p[|p| - 1] == x && |p| <= d;
    var q := Straighten(g, p);
    PathNamed(g, q);
    DistinctBound(g, q);
    assert Reach(g, roots[k], x, |g|);
  }
}
