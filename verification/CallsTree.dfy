/**
  What calls prints, read as a drawing: each line is a node of a tree, indented by one tab
  for every function above it, with the callees of a function below it in their order.
 */
module CallsTree {
  import opened CallsModel

  /** A line that is cut off because the nesting is too deep, or a function with what is printed below it. */
  datatype Tree = Cut | Node(func: nat, kind: Kind, kids: seq<Tree>)

  // ----- which trees are right

  /** Why a function is shown as it is: active above, undefined, or expanded or, in terse mode, expanded before. */
  predicate KindRight(g: Graph, o: Options, f: nat, kind: Kind, below: seq<nat>)
    requires f < |g|
  {
    match kind
    case Recursive => f in below
    case IsExternal => f !in below && g[f].External?
    case Expanded => f !in below && g[f].Defined?
    case See(_) => f !in below && g[f].Defined? && o.terse && g[f].calls != []
    case Repeated => f !in below && g[f].Defined? && o.terse && g[f].calls == []
  }

  /** t shows f below these functions: an expansion has a line for each callee, in order. */
  predicate Shows(g: Graph, o: Options, t: Tree, f: nat, below: seq<nat>)
    requires Closed(g) && f < |g|
    decreases t
  {
    match t
    case Cut => |below| >= MAXDEPTH
    case Node(func, kind, kids) =>
      && |below| < MAXDEPTH && func == f && KindRight(g, o, f, kind, below)
      && if kind != Expanded then kids == []
         else |kids| == |g[f].calls|
              && forall i :: 0 <= i < |kids| ==> Shows(g, o, kids[i], g[f].calls[i], below + [f])
  }

  // ----- how they are drawn

  /** How many lines a tree takes, rules not counted. */
  function Size(t: Tree): nat
    decreases t, 0
  {
    match t
    case Cut => 1
    case Node(_, _, kids) => 1 + SizeAll(kids, |kids|)
  }

  function SizeAll(kids: seq<Tree>, n: nat): nat
    requires n <= |kids|
    decreases kids, n
  {
    if n == 0 then 0 else SizeAll(kids, n - 1) + Size(kids[n - 1])
  }

  /** Does column c start a new width of the page? */
  predicate NewWidth(o: Options, c: nat)
    requires o.ntabs > 0
  {
    Stars(c, o.ntabs) > 0 && c == Stars(c, o.ntabs) * o.ntabs + 1
  }

  /** A rule before and after the callees where they start a new width; with a width of one tab there is none. */
  function Ruler(o: Options, c: nat, kids: seq<Tree>): seq<Event>
    requires o.ntabs > 0
  {
    if o.ntabs > 1 && NewWidth(o, c) && kids != [] then [Dashes] else []
  }

  /** The lines of a tree, the first with this number. */
  function Draw(o: Options, t: Tree, below: seq<nat>, line: nat): seq<Event>
    requires o.ntabs > 0
    decreases t, 0
  {
    match t
    case Cut => [TooDeep(line)]
    case Node(func, kind, kids) =>
      var c := |below|;
      var stars := Stars(c, o.ntabs);
      var ruler := Ruler(o, c + 1, kids);
      [Entry(line, func, stars, c - stars * o.ntabs, kind, below)]
      + ruler + DrawAll(o, kids, |kids|, below + [func], line + 1) + ruler
  }

  /** The first n trees, one below the other. */
  function DrawAll(o: Options, kids: seq<Tree>, n: nat, below: seq<nat>, line: nat): seq<Event>
    requires o.ntabs > 0 && n <= |kids|
    decreases kids, n
  {
    if n == 0 then []
    else DrawAll(o, kids, n - 1, below, line) + Draw(o, kids[n - 1], below, line + SizeAll(kids, n - 1))
  }

  // ----- what the printer draws

  /** The tree that output draws of f. */
  function TreeOf(g: Graph, o: Options, s: State, f: nat): Tree
    requires o.ntabs > 0 && Closed(g) && Fits(g, s) && f < |g|
    decreases MAXDEPTH - |s.stack|, 0
  {
    if |s.stack| >= MAXDEPTH then Cut
    else
      var c, kind := |s.stack|, KindOf(g, o, s, f);
      Node(f, kind, if kind == Expanded then TreesOf(g, o, Opened(g, o, s, f, c), g[f].calls) else [])
  }

  function TreesOf(g: Graph, o: Options, s: State, fs: seq<nat>): (r: seq<Tree>)
    requires o.ntabs > 0 && Closed(g) && Fits(g, s) && Named(g, fs)
    ensures |r| == |fs|
    decreases MAXDEPTH - |s.stack|, 1, |fs|
  {
    if fs == [] then []
    else
      var n := |fs| - 1;
      TreesOf(g, o, s, fs[..n]) + [TreeOf(g, o, OutputAll(g, o, s, fs[..n], |s.stack|), fs[n])]
  }

  lemma {:induction false} TreeShows(g: Graph, o: Options, s: State, f: nat)
    requires o.ntabs > 0 && Closed(g) && Fits(g, s) && f < |g|
    ensures Shows(g, o, TreeOf(g, o, s, f), f, s.stack)
    decreases MAXDEPTH - |s.stack|, 0
  {
    if |s.stack| < MAXDEPTH && KindOf(g, o, s, f) == Expanded {
      TreesShow(g, o, Opened(g, o, s, f, |s.stack|), g[f].calls);
    }
  }

  lemma {:induction false} TreesShow(g: Graph, o: Options, s: State, fs: seq<nat>)
    requires o.ntabs > 0 && Closed(g) && Fits(g, s) && Named(g, fs)
    ensures forall i :: 0 <= i < |fs| ==> Shows(g, o, TreesOf(g, o, s, fs)[i], fs[i], s.stack)
    decreases MAXDEPTH - |s.stack|, 1, |fs|
  {
    if fs != [] {
      var n := |fs| - 1;
      TreesShow(g, o, s, fs[..n]);
      TreeShows(g, o, OutputAll(g, o, s, fs[..n], |s.stack|), fs[n]);
    }
  }

  lemma RuleIsRuler(o: Options, c: nat, fs: seq<nat>, kids: seq<Tree>)
    requires o.ntabs > 0 && |kids| == |fs|
    ensures Rule(o, c, fs) == Ruler(o, c, kids)
  {
    var q := (if c == 0 then 0 else c - 1) / o.ntabs;
    if c > o.ntabs && o.ntabs > 1 {
      var r := (c - 1) % o.ntabs;
      assert c == q * o.ntabs + (r + 1);
      RestOf(c, q, o.ntabs, r + 1);
    } else if c > 0 {
      assert c <= o.ntabs ==> q == 0;
    }
  }

  /** One past a multiple of n, or not. */
  lemma RestOf(c: nat, q: nat, n: nat, r: nat)
    requires n > 1 && c == q * n + r && 1 <= r <= n
    ensures c % n == 1 <==> r == 1
    ensures c > n ==> q > 0
  {
    var d := c / n - q;
    assert c == (c / n) * n + c % n && (c / n - q) * n == (c / n) * n - q * n;
    assert d * n == r - c % n;
    if d >= 2 || d <= -1 { Far(d, n); }
  }

  lemma Far(d: int, n: nat)
    requires n > 1 && (d >= 2 || d <= -1)
    ensures d * n >= 2 * n || d * n + n <= 0
  {
  }

  lemma {:induction false} PrefixSizes(kids: seq<Tree>, t: Tree, n: nat)
    requires n <= |kids|
    ensures SizeAll(kids + [t], n) == SizeAll(kids, n)
  {
    if n > 0 { PrefixSizes(kids, t, n - 1); }
  }

  lemma {:induction false} PrefixDrawn(o: Options, kids: seq<Tree>, t: Tree, n: nat, below: seq<nat>, line: nat)
    requires o.ntabs > 0 && n <= |kids|
    ensures DrawAll(o, kids + [t], n, below, line) == DrawAll(o, kids, n, below, line)
  {
    if n > 0 {
      PrefixDrawn(o, kids, t, n - 1, below, line);
      PrefixSizes(kids, t, n - 1);
    }
  }

  lemma Pieces(out: seq<Event>, e: seq<Event>, r: seq<Event>, d: seq<Event>)
    ensures out + e + r + d + r == out + (e + r + d + r)
  {
  }

  /** What output prints of f in state s is the drawing of its tree, from the next line on. */
  predicate Drawn(g: Graph, o: Options, s: State, f: nat)
    requires o.ntabs > 0 && Closed(g) && Fits(g, s) && f < |g|
  {
    var t, r := TreeOf(g, o, s, f), Output(g, o, s, f, |s.stack|);
    r.out == s.out + Draw(o, t, s.stack, s.line + 1) && r.line == s.line + Size(t)
  }

  predicate AllDrawn(g: Graph, o: Options, s: State, fs: seq<nat>)
    requires o.ntabs > 0 && Closed(g) && Fits(g, s) && Named(g, fs)
  {
    var kids, r := TreesOf(g, o, s, fs), OutputAll(g, o, s, fs, |s.stack|);
    && r.out == s.out + DrawAll(o, kids, |kids|, s.stack, s.line + 1)
    && r.line == s.line + SizeAll(kids, |kids|)
  }

  lemma {:induction false} OutputDraws(g: Graph, o: Options, s: State, f: nat)
    requires o.ntabs > 0 && Closed(g) && Fits(g, s) && f < |g|
    ensures Drawn(g, o, s, f)
    decreases MAXDEPTH - |s.stack|, 0
  {
    if |s.stack| < MAXDEPTH {
      if KindOf(g, o, s, f) == Expanded {
        ExpandedDraws(g, o, s, f);
      } else {
        ShownDraws(o, s, f, KindOf(g, o, s, f));
      }
    }
  }

  /** A line with nothing below it. */
  lemma ShownDraws(o: Options, s: State, f: nat, kind: Kind)
    requires o.ntabs > 0
    ensures Draw(o, Node(f, kind, []), s.stack, s.line + 1) == [Shown(o, s, f, |s.stack|, kind)]
    ensures Size(Node(f, kind, [])) == 1
  {
    assert DrawAll(o, [], 0, s.stack + [f], s.line + 2) == [];
  }

  lemma {:induction false} ExpandedDraws(g: Graph, o: Options, s: State, f: nat)
    requires o.ntabs > 0 && Closed(g) && Fits(g, s) && f < |g|
    requires |s.stack| < MAXDEPTH && KindOf(g, o, s, f) == Expanded
    ensures Drawn(g, o, s, f)
    decreases MAXDEPTH - |s.stack|, 0, 0
  {
    var c := |s.stack|;
    var s1, fs := Opened(g, o, s, f, c), g[f].calls;
    var kids := TreesOf(g, o, s1, fs);
    OutputAllDraws(g, o, s1, fs);
    RuleIsRuler(o, c + 1, fs, kids);
    assert |s1.stack| == c + 1;
    Pieces(s.out, [Shown(o, s, f, c, Expanded)], Ruler(o, c + 1, kids),
           DrawAll(o, kids, |kids|, s1.stack, s1.line + 1));
  }

  lemma {:induction false} OutputAllDraws(g: Graph, o: Options, s: State, fs: seq<nat>)
    requires o.ntabs > 0 && Closed(g) && Fits(g, s) && Named(g, fs)
    ensures AllDrawn(g, o, s, fs)
    decreases MAXDEPTH - |s.stack|, 1, |fs|
  {
    if fs == [] {
      NoneDrawn(g, o, s);
    } else {
      OutputAllDraws(g, o, s, fs[..|fs| - 1]);
      OutputDraws(g, o, OutputAll(g, o, s, fs[..|fs| - 1], |s.stack|), fs[|fs| - 1]);
      LastDrawn(g, o, s, fs, fs[..|fs| - 1], OutputAll(g, o, s, fs[..|fs| - 1], |s.stack|));
    }
  }

  lemma NoneDrawn(g: Graph, o: Options, s: State)
    requires o.ntabs > 0 && Closed(g) && Fits(g, s)
    ensures AllDrawn(g, o, s, [])
  {
    assert s.out + [] == s.out;
  }

  lemma LastDrawn(g: Graph, o: Options, s: State, fs: seq<nat>, front: seq<nat>, s1: State)
    requires o.ntabs > 0 && Closed(g) && Fits(g, s) && Named(g, fs) && fs != [] && front == fs[..|fs| - 1]
    requires s1 == OutputAll(g, o, s, front, |s.stack|) && AllDrawn(g, o, s, front) && Drawn(g, o, s1, fs[|fs| - 1])
    ensures AllDrawn(g, o, s, fs)
  {
    var kids, t := TreesOf(g, o, s, front), TreeOf(g, o, s1, fs[|fs| - 1]);
    OneMoreDrawn(o, kids, t, s.stack, s.line + 1);
    Regroup(s.out, DrawAll(o, kids, |kids|, s.stack, s.line + 1), Draw(o, t, s.stack, s1.line + 1));
  }

  lemma Regroup(a: seq<Event>, b: seq<Event>, c: seq<Event>)
    ensures a + b + c == a + (b + c)
  {
  }

  lemma OneMoreDrawn(o: Options, kids: seq<Tree>, t: Tree, below: seq<nat>, line: nat)
    requires o.ntabs > 0
    ensures var n := |kids|;
            && DrawAll(o, kids + [t], n + 1, below, line)
               == DrawAll(o, kids, n, below, line) + Draw(o, t, below, line + SizeAll(kids, n))
            && SizeAll(kids + [t], n + 1) == SizeAll(kids, n) + Size(t)
  {
    PrefixDrawn(o, kids, t, |kids|, below, line);
    PrefixSizes(kids, t, |kids|);
  }

  // ----- what is seen on the page

  /** An entry stands one tab to the right for each function above it, full widths shown as stars. */
  predicate InColumn(o: Options, e: Event) {
    e.Entry? ==>
      && e.stars * o.ntabs + e.tabs == |e.below|
      && e.tabs <= o.ntabs && (e.tabs == 0 <==> e.below == [])
  }

  predicate AllInColumn(o: Options, out: seq<Event>) { forall k :: 0 <= k < |out| ==> InColumn(o, out[k]) }

  lemma StarsInColumn(c: nat, ntabs: nat)
    requires ntabs > 0
    ensures var stars := Stars(c, ntabs);
            stars * ntabs <= c <= stars * ntabs + ntabs && (c == stars * ntabs <==> c == 0)
  {
    if c > 0 { assert c - 1 == (c - 1) / ntabs * ntabs + (c - 1) % ntabs; }
  }

  lemma {:induction false} DrawInColumn(o: Options, t: Tree, below: seq<nat>, line: nat)
    requires o.ntabs > 0
    ensures AllInColumn(o, Draw(o, t, below, line))
    decreases t, 0
  {
    if t.Node? {
      StarsInColumn(|below|, o.ntabs);
      DrawAllInColumn(o, t.kids, |t.kids|, below + [t.func], line + 1);
    }
  }

  lemma {:induction false} DrawAllInColumn(o: Options, kids: seq<Tree>, n: nat, below: seq<nat>, line: nat)
    requires o.ntabs > 0 && n <= |kids|
    ensures AllInColumn(o, DrawAll(o, kids, n, below, line))
    decreases kids, n
  {
    if n > 0 {
      DrawAllInColumn(o, kids, n - 1, below, line);
      DrawInColumn(o, kids[n - 1], below, line + SizeAll(kids, n - 1));
    }
  }

  /** The lines count up by one from the first number; rules are not counted. */
  predicate Numbered(out: seq<Event>, line: nat) {
    out == [] ||
    if out[0].Dashes? then Numbered(out[1..], line) else out[0].line == line && Numbered(out[1..], line + 1)
  }

  function Lines(out: seq<Event>): nat {
    if out == [] then 0 else Lines(out[1..]) + if out[0].Dashes? then 0 else 1
  }

  lemma {:induction false} NumberedConcat(a: seq<Event>, b: seq<Event>, line: nat)
    requires Numbered(a, line) && Numbered(b, line + Lines(a))
    ensures Numbered(a + b, line) && Lines(a + b) == Lines(a) + Lines(b)
    decreases a
  {
    if a == [] {
      assert a + b == b;
    } else {
      assert (a + b)[1..] == a[1..] + b;
      NumberedConcat(a[1..], b, if a[0].Dashes? then line else line + 1);
    }
  }

  lemma OneNumbered(e: Event, line: nat)
    requires e.Dashes? || e.line == line
    ensures Numbered([e], line) && Lines([e]) == if e.Dashes? then 0 else 1
  {
    assert [e][1..] == [] && Lines([]) == 0;
  }

  lemma {:induction false} DrawNumbered(o: Options, t: Tree, below: seq<nat>, line: nat)
    requires o.ntabs > 0
    ensures var d := Draw(o, t, below, line); Numbered(d, line) && Lines(d) == Size(t)
    decreases t, 0
  {
    match t {
      case Cut => OneNumbered(TooDeep(line), line);
      case Node(func, kind, kids) =>
        var c := |below|;
        var e := Entry(line, func, Stars(c, o.ntabs), c - Stars(c, o.ntabs) * o.ntabs, kind, below);
        var ruler, all := Ruler(o, c + 1, kids), DrawAll(o, kids, |kids|, below + [func], line + 1);
        OneNumbered(e, line);
        OneNumbered(Dashes, line + 1);
        OneNumbered(Dashes, line + 1 + Lines(all));
        DrawAllNumbered(o, kids, |kids|, below + [func], line + 1);
        NumberedConcat([e], ruler, line);
        NumberedConcat([e] + ruler, all, line);
        NumberedConcat([e] + ruler + all, ruler, line);
    }
  }

  lemma {:induction false} DrawAllNumbered(o: Options, kids: seq<Tree>, n: nat, below: seq<nat>, line: nat)
    requires o.ntabs > 0 && n <= |kids|
    ensures var d := DrawAll(o, kids, n, below, line); Numbered(d, line) && Lines(d) == SizeAll(kids, n)
    decreases kids, n
  {
    if n > 0 {
      var at := line + SizeAll(kids, n - 1);
      DrawAllNumbered(o, kids, n - 1, below, line);
      DrawNumbered(o, kids[n - 1], below, at);
      NumberedConcat(DrawAll(o, kids, n - 1, below, line), Draw(o, kids[n - 1], below, at), line);
    }
  }

  /**
    For every call graph and list of roots, what is printed is the drawing of one tree for
    each root: the callees of every expansion in the order of the program, each line one tab
    further in than the function that calls it, lines numbered from one without gaps, rules
    exactly around callees that start a new width.
   */
  lemma PrintsTrees(g: Graph, o: Options, roots: seq<nat>) returns (forest: seq<Tree>)
    requires o.ntabs > 0 && Closed(g) && Named(g, roots)
    ensures |forest| == |roots| && forall i :: 0 <= i < |roots| ==> Shows(g, o, forest[i], roots[i], [])
    ensures var out := OutputAll(g, o, Start(g), roots, 0).out;
            out == DrawAll(o, forest, |forest|, [], 1) && AllInColumn(o, out) && Numbered(out, 1)
  {
    forest := TreesOf(g, o, Start(g), roots);
    TreesShow(g, o, Start(g), roots);
    OutputAllDraws(g, o, Start(g), roots);
    DrawAllInColumn(o, forest, |forest|, [], 1);
    DrawAllNumbered(o, forest, |forest|, [], 1);
    assert [] + DrawAll(o, forest, |forest|, [], 1) == DrawAll(o, forest, |forest|, [], 1);
  }
}
