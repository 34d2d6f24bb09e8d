/**
  The printer of calls (calls.c: output, makeactive, active, backup) as a function from
  state to state. Functions are numbered; a function that is not defined in the input has
  no list of callees.
 */
module CallsModel {
  const MAXDEPTH := 300

  datatype Callees = External | Defined(calls: seq<nat>)

  type Graph = seq<Callees>

  /** Every callee has a name. */
  predicate Closed(g: Graph) {
    forall f, k :: 0 <= f < |g| && g[f].Defined? && 0 <= k < |g[f].calls| ==> g[f].calls[k] < |g|
  }

  predicate Named(g: Graph, fs: seq<nat>) { forall k :: 0 <= k < |fs| ==> fs[k] < |g| }

  datatype Options = Options(terse: bool, ntabs: nat)

  datatype Kind = Recursive | IsExternal | Expanded | See(at: nat) | Repeated

  /**
    What is printed. An entry records its line number, the indentation left after taking
    off as many full widths as there are stars, and the functions active at that point.
   */
  datatype Event =
    | TooDeep(line: nat)
    | Dashes
    | Entry(line: nat, func: nat, stars: nat, tabs: nat, kind: Kind, below: seq<nat>)

  /** stack is activelist[..activep]; first[f] is rnameout, 0 when f has not been expanded. */
  datatype State = State(stack: seq<nat>, line: nat, first: seq<nat>, out: seq<Event>)

  predicate Fits(g: Graph, s: State) { |s.first| == |g| && Named(g, s.stack) && |s.stack| <= MAXDEPTH }

  function Stars(tabc: nat, ntabs: nat): nat
    requires ntabs > 0
  {
    if tabc == 0 then 0 else (tabc - 1) / ntabs
  }

  function Shown(o: Options, s: State, f: nat, tabc: nat, kind: Kind): Event
    requires o.ntabs > 0
  {
    Entry(s.line + 1, f, Stars(tabc, o.ntabs), tabc - Stars(tabc, o.ntabs) * o.ntabs, kind, s.stack)
  }

  /** How a function is shown that is not too deep. */
  function KindOf(g: Graph, o: Options, s: State, f: nat): Kind
    requires Fits(g, s) && f < |g|
  {
    if f in s.stack then Recursive
    else if g[f].External? then IsExternal
    else if !o.terse || s.first[f] == 0 then Expanded
    else if g[f].calls != [] then See(s.first[f])
    else Repeated
  }

  /** A rule before and after a list that starts a new width. */
  function Rule(o: Options, tabc: nat, fs: seq<nat>): seq<Event>
    requires o.ntabs > 0
  {
    if tabc > o.ntabs && tabc % o.ntabs == 1 && fs != [] then [Dashes] else []
  }

  /** The state in which the callees of f are printed. */
  function Opened(g: Graph, o: Options, s: State, f: nat, tabc: nat): (r: State)
    requires o.ntabs > 0 && Fits(g, s) && f < |g| && g[f].Defined? && |s.stack| < MAXDEPTH
    ensures Fits(g, r)
  {
    State(s.stack + [f], s.line + 1, if s.first[f] == 0 then s.first[f := s.line + 1] else s.first,
          s.out + [Shown(o, s, f, tabc, Expanded)] + Rule(o, tabc + 1, g[f].calls))
  }

  /** output */
  function Output(g: Graph, o: Options, s: State, f: nat, tabc: nat): (r: State)
    requires o.ntabs > 0 && Closed(g) && Fits(g, s) && f < |g|
    ensures Fits(g, r) && r.stack == s.stack
    decreases MAXDEPTH - |s.stack|, 0
  {
    if |s.stack| >= MAXDEPTH then s.(line := s.line + 1, out := s.out + [TooDeep(s.line + 1)])
    else
      var kind := KindOf(g, o, s, f);
      if kind != Expanded then s.(line := s.line + 1, out := s.out + [Shown(o, s, f, tabc, kind)])
      else
        var t := OutputAll(g, o, Opened(g, o, s, f, tabc), g[f].calls, tabc + 1);
        t.(stack := s.stack, out := t.out + Rule(o, tabc + 1, g[f].calls))
  }

  /** output of each function of a list in turn */
  function OutputAll(g: Graph, o: Options, s: State, fs: seq<nat>, tabc: nat): (r: State)
    requires o.ntabs > 0 && Closed(g) && Fits(g, s) && Named(g, fs)
    ensures Fits(g, r) && r.stack == s.stack
    decreases MAXDEPTH - |s.stack|, 1, |fs|
  {
    if fs == [] then s
    else Output(g, o, OutputAll(g, o, s, fs[..|fs| - 1], tabc), fs[|fs| - 1], tabc)
  }

  /** Nothing has been printed and nothing is active. */
  function Start(g: Graph): State { State([], 0, seq(|g|, x => 0), []) }

  // ----- stacks without repeats

  predicate Distinct(stack: seq<nat>) { forall i, j :: 0 <= i < j < |stack| ==> stack[i] != stack[j] }

  /** Distinct functions are no more than there are. */
  lemma DistinctBound(g: Graph, stack: seq<nat>)
    requires Named(g, stack) && Distinct(stack)
    ensures |stack| <= |g|
  {
    DistinctBelow(stack, |g|);
  }

  lemma {:induction false} DistinctBelow(stack: seq<nat>, n: nat)
    requires Distinct(stack) && forall k :: 0 <= k < |stack| ==> stack[k] < n
    ensures |stack| <= n
  {
    assert stack != [] ==> stack[0] < n;
    if n > 0 {
      if i :| 0 <= i < |stack| && stack[i] == n - 1 {
        DistinctBelow(stack[..i] + stack[i + 1..], n - 1);
      } else {
        DistinctBelow(stack, n - 1);
      }
    }
  }

  // ----- nothing is taken back

  predicate Extends(s: State, t: State) {
    && s.line <= t.line && |s.out| <= |t.out| && t.out[..|s.out|] == s.out && |s.first| == |t.first|
    && (forall x :: 0 <= x < |s.first| && s.first[x] != 0 ==> t.first[x] == s.first[x])
  }

  lemma ExtendsTwice(s: State, t: State, u: State)
    requires Extends(s, t) && Extends(t, u)
    ensures Extends(s, u)
  {
    assert u.out[..|s.out|] == u.out[..|t.out|][..|s.out|];
  }

  lemma {:induction false} OutputExtends(g: Graph, o: Options, s: State, f: nat, tabc: nat)
    requires o.ntabs > 0 && Closed(g) && Fits(g, s) && f < |g|
    ensures Extends(s, Output(g, o, s, f, tabc))
    decreases MAXDEPTH - |s.stack|, 0
  {
    if |s.stack| < MAXDEPTH && KindOf(g, o, s, f) == Expanded {
      var s1 := Opened(g, o, s, f, tabc);
      var t := OutputAll(g, o, s1, g[f].calls, tabc + 1);
      OutputAllExtends(g, o, s1, g[f].calls, tabc + 1);
      ExtendsTwice(s, s1, t);
      ExtendsTwice(s, t, Output(g, o, s, f, tabc));
    }
  }

  lemma {:induction false} OutputAllExtends(g: Graph, o: Options, s: State, fs: seq<nat>, tabc: nat)
    requires o.ntabs > 0 && Closed(g) && Fits(g, s) && Named(g, fs)
    ensures Extends(s, OutputAll(g, o, s, fs, tabc))
    decreases MAXDEPTH - |s.stack|, 1, |fs|
  {
    if fs != [] {
      var t := OutputAll(g, o, s, fs[..|fs| - 1], tabc);
      OutputAllExtends(g, o, s, fs[..|fs| - 1], tabc);
      OutputExtends(g, o, t, fs[|fs| - 1], tabc);
      ExtendsTwice(s, t, OutputAll(g, o, s, fs, tabc));
    }
  }
}
