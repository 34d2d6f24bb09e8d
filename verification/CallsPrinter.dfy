/** The printer of calls with its active list, counters and marks updated in place. */
module CallsPrinter {
  import opened CallsModel

  datatype Slot = Nil | Func(f: nat)

  lemma StarsAre(tabc: nat, ntabs: nat, stars: nat, tabs: nat)
    requires ntabs > 0 && tabc == stars * ntabs + tabs && tabs <= ntabs && (tabs == 0 ==> tabc == 0)
    ensures stars == Stars(tabc, ntabs)
  {
    if tabc == 0 {
      assert stars == 0 by { assert stars > 0 ==> stars * ntabs >= ntabs; }
    } else {
      QuotientIs(tabc - 1, ntabs, stars, tabs - 1);
    }
  }

  lemma QuotientIs(n: nat, d: nat, q: nat, r: nat)
    requires n == q * d + r && r < d
    ensures q == n / d
  {
    var q', r' := n / d, n % d;
    assert q' * d + r' == n;
    if q != q' {
      var k := if q < q' then q' - q else q - q';
      Times(k, d);
      Apart(q, q', d);
    }
  }

  lemma Times(k: nat, d: nat)
    requires k > 0
    ensures k * d >= d
  {
  }

  lemma Apart(q: nat, q': nat, d: nat)
    ensures (q' - q) * d == q' * d - q * d && (q - q') * d == q * d - q' * d
  {
  }

  /** The callees, between rules. */
  function Between(g: Graph, o: Options, s: State, fs: seq<nat>, tabc: nat): State
    requires o.ntabs > 0 && Closed(g) && Fits(g, s) && Named(g, fs)
  {
    var t := OutputAll(g, o, s.(out := s.out + Rule(o, tabc, fs)), fs, tabc);
    t.(out := t.out + Rule(o, tabc, fs))
  }

  class Printer {
    const g: Graph
    const o: Options
    const activelist: array<Slot>
    const rnameout: array<nat>
    var activep: nat
    var linect: nat
    ghost var out: seq<Event> // what has been printed
    ghost var stack: seq<nat>

    ghost predicate Valid()
      reads this, activelist, rnameout
    {
      && o.ntabs > 0 && Closed(g) && activelist.Length == MAXDEPTH && rnameout.Length == |g|
      && activep == |stack| <= MAXDEPTH && Named(g, stack)
      && (forall k :: 0 <= k < activep ==> activelist[k] == Func(stack[k]))
      && (forall k :: activep <= k < MAXDEPTH ==> activelist[k] == Nil)
    }

    ghost function Abs(): State
      reads this, rnameout
    {
      State(stack, linect, rnameout[..], out)
    }

    constructor (g: Graph, o: Options)
      requires o.ntabs > 0 && Closed(g)
      ensures Valid() && Abs() == State([], 0, seq(|g|, x => 0), []) && fresh(activelist) && fresh(rnameout)
    {
      this.g, this.o := g, o;
      activelist := new Slot[MAXDEPTH](_ => Nil);
      rnameout := new nat[|g|](_ => 0);
      activep, linect, out, stack := 0, 0, [], [];
      new;
      assert rnameout[..] == seq(|g|, x => 0);
    }

    method Makeactive(f: nat) returns (ok: bool)
      requires Valid() && f < |g|
      modifies this`activep, this`stack, activelist
      ensures Valid() && ok == (old(activep) < MAXDEPTH)
      ensures stack == if ok then old(stack) + [f] else old(stack)
    {
      if activep < MAXDEPTH {
        activelist[activep] := Func(f);
        activep := activep + 1;
        stack := stack + [f];
        return true;
      }
      return false;
    }

    method Backup()
      requires Valid()
      modifies this`activep, this`stack, activelist
      ensures Valid() && stack == if old(stack) == [] then [] else old(stack)[..|old(stack)| - 1]
    {
      if activep > 0 {
        activep := activep - 1;
        activelist[activep] := Nil;
        stack := stack[..activep];
      }
    }

    /** Is f active below the top? */
    method Active(f: nat) returns (yes: bool)
      requires Valid() && activep > 0
      ensures yes <==> f in stack[..activep - 1]
    {
      for i := 0 to activep - 1
        invariant f !in stack[..i]
      {
        if activelist[i] == Func(f) {
          assert stack[..activep - 1][i] == f;
          return true;
        }
        assert stack[..i + 1] == stack[..i] + [stack[i]];
      }
      return false;
    }

    method Indent(tabc: nat) returns (stars: nat, tabs: nat)
      requires o.ntabs > 0
      ensures tabc == stars * o.ntabs + tabs && tabs <= o.ntabs && (tabs == 0 <==> tabc == 0)
      ensures stars == Stars(tabc, o.ntabs)
    {
      stars, tabs := 0, tabc;
      while tabs > o.ntabs
        invariant tabc == stars * o.ntabs + tabs && (tabs == 0 <==> tabc == 0)
      {
        assert (stars + 1) * o.ntabs == stars * o.ntabs + o.ntabs;
        tabs := tabs - o.ntabs;
        stars := stars + 1;
      }
      StarsAre(tabc, o.ntabs, stars, tabs);
    }

    /** Print f and, below it, what it calls. The active list is as before afterwards. */
    method Output(f: nat, tabc: nat)
      requires Valid() && f < |g|
      modifies this, activelist, rnameout
      ensures Valid() && Abs() == CallsModel.Output(g, o, old(Abs()), f, tabc)
      ensures activep == old(activep) && activelist[..] == old(activelist[..])
      decreases MAXDEPTH - activep, 0
    {
      ghost var s := Abs();
      var ok, kind := Announce(f, tabc);
      if !ok {
        return;
      }
      if kind == Expanded {
        if rnameout[f] == 0 {
          rnameout[f] := linect;
        }
        Expand(g[f].calls, tabc + 1);
      }
      Backup();
      assert stack == s.stack;
    }

    /** The line for f itself, with f on the active list unless that is full. */
    method Announce(f: nat, tabc: nat) returns (ok: bool, kind: Kind)
      requires Valid() && f < |g|
      modifies this, activelist
      ensures Valid() && ok == (|old(stack)| < MAXDEPTH) && (ok ==> kind == KindOf(g, o, old(Abs()), f))
      ensures var s := old(Abs());
              Abs() == if ok then State(s.stack + [f], s.line + 1, s.first, s.out + [Shown(o, s, f, tabc, kind)])
                       else s.(line := s.line + 1, out := s.out + [TooDeep(s.line + 1)])
      ensures !ok ==> activelist[..] == old(activelist[..])
    {
      ghost var s := Abs();
      linect := linect + 1;
      ok := Makeactive(f);
      if !ok {
        out := out + [TooDeep(linect)];
        return false, Repeated;
      }
      assert stack[..activep - 1] == s.stack;
      var stars, tabs := Indent(tabc);
      var again := Active(f);
      kind :=
        if again then Recursive
        else if g[f].External? then IsExternal
        else if !o.terse || rnameout[f] == 0 then Expanded
        else if g[f].calls != [] then See(rnameout[f])
        else Repeated;
      out := out + [Entry(linect, f, stars, tabs, kind, s.stack)];
    }

    /** The callees, between rules when they start a new width. */
    method Expand(calls: seq<nat>, tabc: nat)
      requires Valid() && Named(g, calls)
      modifies this, activelist, rnameout
      ensures Valid() && Abs() == Between(g, o, old(Abs()), calls, tabc)
      decreases MAXDEPTH - activep, 1
    {
      var rule := tabc > o.ntabs && tabc % o.ntabs == 1 && calls != [];
      if rule {
        out := out + [Dashes];
      }
      ghost var s1 := Abs();
      assert s1.out == old(out) + Rule(o, tabc, calls);
      for k := 0 to |calls|
        invariant Valid() && activep == |s1.stack|
        invariant Abs() == OutputAll(g, o, s1, calls[..k], tabc)
      {
        assert calls[..k + 1][..k] == calls[..k];
        Output(calls[k], tabc);
      }
      assert calls[..|calls|] == calls;
      if rule {
        out := out + [Dashes];
      }
    }
  }
}
