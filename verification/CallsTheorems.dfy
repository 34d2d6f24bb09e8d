/**
  What the printer of calls guarantees, for every finite call graph, cyclic ones included,
  and every list of roots.
 */
module CallsTheorems {
  import opened CallsModel

  // ----- nothing active is expanded

  /** An event expands nothing that is active, its stack does not repeat, and a small graph is never too deep. */
  predicate Sane(g: Graph, e: Event) {
    match e
    case TooDeep(_) => MAXDEPTH <= |g|
    case Dashes => true
    case Entry(_, func, _, _, kind, below) => Distinct(below) && (kind == Expanded ==> func !in below)
  }

  predicate SaneFrom(g: Graph, out: seq<Event>, n: nat) { forall k :: n <= k < |out| ==> Sane(g, out[k]) }

  lemma {:induction false} OutputSane(g: Graph, o: Options, s: State, f: nat, tabc: nat)
    requires o.ntabs > 0 && Closed(g) && Fits(g, s) && f < |g| && Distinct(s.stack)
    ensures SaneFrom(g, Output(g, o, s, f, tabc).out, |s.out|)
    decreases MAXDEPTH - |s.stack|, 0
  {
    DistinctBound(g, s.stack);
    if |s.stack| < MAXDEPTH && KindOf(g, o, s, f) == Expanded {
      var s1 := Opened(g, o, s, f, tabc);
      OutputAllSane(g, o, s1, g[f].calls, tabc + 1);
      OutputAllExtends(g, o, s1, g[f].calls, tabc + 1);
      var t := OutputAll(g, o, s1, g[f].calls, tabc + 1);
      assert forall k :: |s.out| <= k < |s1.out| ==> t.out[k] == t.out[..|s1.out|][k] == s1.out[k];
    }
  }

  /** Over a whole list of roots. */
  lemma {:induction false} OutputAllSane(g: Graph, o: Options, s: State, fs: seq<nat>, tabc: nat)
    requires o.ntabs > 0 && Closed(g) && Fits(g, s) && Named(g, fs) && Distinct(s.stack)
    ensures SaneFrom(g, OutputAll(g, o, s, fs, tabc).out, |s.out|)
    decreases MAXDEPTH - |s.stack|, 1, |fs|
  {
    if fs != [] {
      var t := OutputAll(g, o, s, fs[..|fs| - 1], tabc);
      OutputAllSane(g, o, s, fs[..|fs| - 1], tabc);
      OutputSane(g, o, t, fs[|fs| - 1], tabc);
      OutputExtends(g, o, t, fs[|fs| - 1], tabc);
      var u := OutputAll(g, o, s, fs, tabc);
      assert forall k :: |s.out| <= k < |t.out| ==> u.out[k] == u.out[..|t.out|][k] == t.out[k];
    }
  }

  // ----- terse mode expands once

  predicate Expands(e: Event, x: nat) { e.Entry? && e.kind == Expanded && e.func == x }

  function Expansions(out: seq<Event>, x: nat): nat {
    if out == [] then 0
    else Expansions(out[..|out| - 1], x) + if Expands(out[|out| - 1], x) then 1 else 0
  }

  lemma {:induction false} ExpansionsConcat(a: seq<Event>, b: seq<Event>, x: nat)
    ensures Expansions(a + b, x) == Expansions(a, x) + Expansions(b, x)
  {
    if b == [] {
      assert a + b == a;
    } else {
      ExpansionsConcat(a, b[..|b| - 1], x);
      assert (a + b)[..|a + b| - 1] == a + b[..|b| - 1];
    }
  }

  /** Expansions of x are counted by its mark: none before it is set, one since. */
  predicate Once(s: State, x: nat)
    requires x < |s.first|
  {
    Expansions(s.out, x) == if s.first[x] == 0 then 0 else 1
  }

  lemma OnceStep(s: State, e: Event, x: nat)
    ensures Expansions(s.out + [e], x) == Expansions(s.out, x) + if Expands(e, x) then 1 else 0
  {
    assert (s.out + [e])[..|s.out|] == s.out;
  }

  lemma RuleExpandsNone(o: Options, tabc: nat, fs: seq<nat>, x: nat)
    requires o.ntabs > 0
    ensures Expansions(Rule(o, tabc, fs), x) == 0
  {
    assert Rule(o, tabc, fs) == [] || Rule(o, tabc, fs)[..0] == [];
  }

  lemma {:induction false} OutputOnce(g: Graph, o: Options, s: State, f: nat, tabc: nat, x: nat)
    requires o.ntabs > 0 && o.terse && Closed(g) && Fits(g, s) && f < |g| && x < |g| && Once(s, x)
    ensures Once(Output(g, o, s, f, tabc), x)
    decreases MAXDEPTH - |s.stack|, 0
  {
    if |s.stack| >= MAXDEPTH {
      OnceStep(s, TooDeep(s.line + 1), x);
    } else {
      OnceStep(s, Shown(o, s, f, tabc, KindOf(g, o, s, f)), x);
      if KindOf(g, o, s, f) == Expanded {
        var fs, s1 := g[f].calls, Opened(g, o, s, f, tabc);
        var t := OutputAll(g, o, s1, fs, tabc + 1);
        ExpansionsConcat(s.out + [Shown(o, s, f, tabc, Expanded)], Rule(o, tabc + 1, fs), x);
        ExpansionsConcat(t.out, Rule(o, tabc + 1, fs), x);
        RuleExpandsNone(o, tabc + 1, fs, x);
        OutputAllOnce(g, o, s1, fs, tabc + 1, x);
      }
    }
  }

  lemma {:induction false} OutputAllOnce(g: Graph, o: Options, s: State, fs: seq<nat>, tabc: nat, x: nat)
    requires o.ntabs > 0 && o.terse && Closed(g) && Fits(g, s) && Named(g, fs) && x < |g| && Once(s, x)
    ensures Once(OutputAll(g, o, s, fs, tabc), x)
    decreases MAXDEPTH - |s.stack|, 1, |fs|
  {
    if fs != [] {
      OutputAllOnce(g, o, s, fs[..|fs| - 1], tabc, x);
      OutputOnce(g, o, OutputAll(g, o, s, fs[..|fs| - 1], tabc), fs[|fs| - 1], tabc, x);
    }
  }

  // ----- references to earlier lines

  /** The lines before n expand x on the given line. */
  predicate ExpandedAt(out: seq<Event>, n: nat, x: nat, line: nat) {
    exists k :: 0 <= k < n <= |out| && Expands(out[k], x) && out[k].line == line
  }

  /** Every mark is the line of an expansion. */
  predicate MarksShown(s: State) {
    forall x :: 0 <= x < |s.first| && s.first[x] != 0 ==> ExpandedAt(s.out, |s.out|, x, s.first[x])
  }

  /** Every reference is to the line of an earlier expansion. */
  predicate Refers(out: seq<Event>) {
    forall k :: 0 <= k < |out| && out[k].Entry? && out[k].kind.See? ==> ExpandedAt(out, k, out[k].func, out[k].kind.at)
  }

  lemma ExpandedLater(a: seq<Event>, b: seq<Event>, n: nat, x: nat, line: nat)
    requires ExpandedAt(a, n, x, line) && n <= |b|
    requires forall k :: 0 <= k < n ==> b[k] == a[k]
    ensures ExpandedAt(b, n, x, line)
  {
    var k :| 0 <= k < n <= |a| && Expands(a[k], x) && a[k].line == line;
    assert Expands(b[k], x);
  }

  predicate RefersOk(s: State) { MarksShown(s) && Refers(s.out) }

  /** One more event keeps every reference, if it refers rightly itself. */
  lemma RefersStep(s: State, e: Event, t: State)
    requires RefersOk(s) && t.out == s.out + [e] && |t.first| == |s.first|
    requires e.Entry? && e.kind.See? ==> ExpandedAt(s.out, |s.out|, e.func, e.kind.at)
    requires forall x :: 0 <= x < |s.first| && t.first[x] != s.first[x] ==> Expands(e, x) && e.line == t.first[x]
    ensures RefersOk(t)
  {
    forall x | 0 <= x < |t.first| && t.first[x] != 0 ensures ExpandedAt(t.out, |t.out|, x, t.first[x]) {
      if t.first[x] == s.first[x] {
        var k :| 0 <= k < |s.out| && Expands(s.out[k], x) && s.out[k].line == s.first[x];
        assert Expands(t.out[k], x);
      } else {
        assert Expands(t.out[|s.out|], x);
      }
    }
    forall k | 0 <= k < |t.out| && t.out[k].Entry? && t.out[k].kind.See?
      ensures ExpandedAt(t.out, k, t.out[k].func, t.out[k].kind.at)
    {
      ExpandedLater(s.out, t.out, k, t.out[k].func, t.out[k].kind.at);
    }
  }

  lemma RuleRefers(s: State, o: Options, tabc: nat, fs: seq<nat>, t: State)
    requires o.ntabs > 0 && RefersOk(s) && t.out == s.out + Rule(o, tabc, fs) && t.first == s.first
    ensures RefersOk(t)
  {
    if Rule(o, tabc, fs) == [] {
      assert t.out == s.out;
    } else {
      RefersStep(s, Dashes, t);
    }
  }

  /** A line referred to is the line where that function was expanded. */
  lemma {:induction false} OutputRefers(g: Graph, o: Options, s: State, f: nat, tabc: nat)
    requires o.ntabs > 0 && Closed(g) && Fits(g, s) && f < |g| && RefersOk(s)
    ensures RefersOk(Output(g, o, s, f, tabc))
    decreases MAXDEPTH - |s.stack|, 0
  {
    var r := Output(g, o, s, f, tabc);
    if |s.stack| >= MAXDEPTH {
      RefersStep(s, TooDeep(s.line + 1), r);
    } else if KindOf(g, o, s, f) != Expanded {
      RefersStep(s, Shown(o, s, f, tabc, KindOf(g, o, s, f)), r);
    } else {
      var fs, s1 := g[f].calls, Opened(g, o, s, f, tabc);
      var e := Shown(o, s, f, tabc, Expanded);
      var s0 := s1.(out := s.out + [e]);
      RefersStep(s, e, s0);
      RuleRefers(s0, o, tabc + 1, fs, s1);
      OutputAllRefers(g, o, s1, fs, tabc + 1);
      RuleRefers(OutputAll(g, o, s1, fs, tabc + 1), o, tabc + 1, fs, r);
    }
  }

  lemma {:induction false} OutputAllRefers(g: Graph, o: Options, s: State, fs: seq<nat>, tabc: nat)
    requires o.ntabs > 0 && Closed(g) && Fits(g, s) && Named(g, fs) && RefersOk(s)
    ensures RefersOk(OutputAll(g, o, s, fs, tabc))
    decreases MAXDEPTH - |s.stack|, 1, |fs|
  {
    if fs != [] {
      OutputAllRefers(g, o, s, fs[..|fs| - 1], tabc);
      OutputRefers(g, o, OutputAll(g, o, s, fs[..|fs| - 1], tabc), fs[|fs| - 1], tabc);
    }
  }
}
