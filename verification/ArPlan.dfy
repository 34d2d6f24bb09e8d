/**
  Where the m command of ar sends each member (ar.c: match, trim, mcmd): the names on the
  command line, each used up by the first member it matches.
 */
module ArPlan {
  import opened ArFormat
  import opened ArBuild
  import opened ArRead

  // ----- the names on the command line

  function AfterSlash(s: string): string {
    if '/' !in s then s else AfterSlash(s[1..])
  }

  function Cut16(s: string): string { if |s| > 16 then s[..16] else s }

  /** trim: trailing slashes and leading directories go, and 16 characters are kept. */
  function Trim(s: string): string {
    if '/' !in s then Cut16(s)
    else if s[|s| - 1] == '/' then Trim(s[..|s| - 1])
    else Cut16(AfterSlash(s))
  }

  lemma {:induction false} AfterSlashPlain(s: string)
    ensures '/' !in AfterSlash(s)
  {
    if '/' in s { AfterSlashPlain(s[1..]); }
  }

  /** What is compared with a member's name is itself a name. */
  lemma {:induction false} TrimPlain(s: string)
    ensures '/' !in Trim(s) && |Trim(s)| <= 16
  {
    AfterSlashPlain(s);
    if '/' in s && s[|s| - 1] == '/' { TrimPlain(s[..|s| - 1]); }
  }

  /** Trailing slashes do not matter, and of the rest the last component counts, its first 16 characters. */
  lemma TrimIs(s: string, base: string)
    requires base != "" && '/' !in base
    ensures Trim(base) == Cut16(base) && Trim(s + "/" + base) == Cut16(base) && Trim(s + "/") == Trim(s)
  {
    assert (s + "/")[..|s + "/"| - 1] == s;
    var path := s + "/" + base;
    assert path[|s|] == '/' && path[|path| - 1] == base[|base| - 1];
    LastComponent(s, base);
  }

  lemma {:induction false} LastComponent(s: string, base: string)
    requires '/' !in base
    ensures AfterSlash(s + "/" + base) == base
    decreases s
  {
    var path := s + "/" + base;
    assert path[|s|] == '/';
    if s == "" {
      assert path[1..] == base;
    } else {
      assert path[1..] == s[1..] + "/" + base;
      LastComponent(s[1..], base);
    }
  }

  datatype Arg = Used | Named(path: string)

  predicate Asks(a: Arg, name: string) { a.Named? && Trim(a.path) == name }

  /** How many of the first n arguments ask for a name and are not used up. */
  function Asked(files: seq<Arg>, n: nat, name: string): nat
    requires n <= |files|
  {
    if n == 0 then 0 else Asked(files, n - 1, name) + if Asks(files[n - 1], name) then 1 else 0
  }

  lemma {:induction false} AskedUse(files: seq<Arg>, i: nat, n: nat, name: string)
    requires i < |files| && n <= |files|
    ensures Asked(files, n, name) == Asked(files[i := Used], n, name) + if i < n && Asks(files[i], name) then 1 else 0
  {
    if n > 0 { AskedUse(files, i, n - 1, name); }
  }

  lemma {:induction false} AskedNone(files: seq<Arg>, n: nat, name: string)
    requires n <= |files| && forall i :: 0 <= i < n ==> !Asks(files[i], name)
    ensures Asked(files, n, name) == 0
  {
    if n > 0 { AskedNone(files, n - 1, name); }
  }

  /** How often each name is still asked for. */
  ghost function Live(files: seq<Arg>): string -> nat { name => Asked(files, |files|, name) }

  /** An argument matches once: the first that asks for the name is used up. */
  method Match(files: array<Arg>, name: string) returns (hit: bool)
    modifies files
    ensures hit <==> old(Live(files[..]))(name) > 0
    ensures forall x :: Live(files[..])(x) == old(Live(files[..]))(x) - if hit && x == name then 1 else 0
  {
    ghost var fs := files[..];
    for i := 0 to files.Length
      invariant files[..] == fs
      invariant forall k :: 0 <= k < i ==> !Asks(fs[k], name)
    {
      if Asks(files[i], name) {
        forall x ensures Asked(fs, |fs|, x) == Asked(fs[i := Used], |fs|, x) + if x == name then 1 else 0 {
          AskedUse(fs, i, |fs|, x);
        }
        files[i] := Used;
        assert files[..] == fs[i := Used];
        return true;
      }
    }
    AskedNone(fs, |fs|, name);
    return false;
  }

  // ----- where each member goes

  /** The names given, with how often, and the position. */
  datatype Command = Command(files: string -> nat, at: Pivot)

  const PITCHED := 3

  /** How many of the first n members have a name. */
  function Before(names: seq<string>, n: nat, name: string): nat
    requires n <= |names|
  {
    if n == 0 then 0 else Before(names, n - 1, name) + if names[n - 1] == name then 1 else 0
  }

  /** A name on the command line moves as many members, the first of that name, as it is given times. */
  predicate Moved(c: Command, names: seq<string>, i: nat)
    requires i < |names|
  {
    Before(names, i, names[i]) < c.files(names[i])
  }

  function PlaceOf(c: Command, names: seq<string>, i: nat): nat
    requires i < |names|
  {
    if Moved(c, names, i) then MIDDLE
    else if Behind(c.at, names, i) then END
    else if i == 0 && names[0] == SYMDEF then PITCHED
    else START
  }

  function PlacesOf(c: Command, names: seq<string>): (r: seq<nat>)
    ensures |r| == |names| && forall i :: 0 <= i < |names| ==> r[i] == PlaceOf(c, names, i) <= PITCHED
  {
    seq(|names|, i requires 0 <= i < |names| => PlaceOf(c, names, i))
  }

  /** What is left of the arguments before member n. */
  ghost predicate Remaining(c: Command, names: seq<string>, n: nat, live: string -> nat)
    requires n <= |names|
  {
    forall x :: live(x) == if Before(names, n, x) < c.files(x) then c.files(x) - Before(names, n, x) else 0
  }

  lemma RemainingStep(c: Command, names: seq<string>, n: nat, live: string -> nat, live': string -> nat)
    requires n < |names| && Remaining(c, names, n, live)
    requires forall x :: live'(x) == live(x) - if live(names[n]) > 0 && x == names[n] then 1 else 0
    ensures live(names[n]) > 0 <==> Moved(c, names, n)
    ensures Remaining(c, names, n + 1, live')
  {
  }

  /** Go through the members in order, matching their names against the arguments. */
  method Plan(files: array<Arg>, p: Pivot, recs: seq<Record>, queues: seq<nat>) returns (places: seq<nat>)
    requires Routed(p, Names(recs), queues)
    modifies files
    ensures places == PlacesOf(Command(old(Live(files[..])), p), Names(recs))
  {
    ghost var c, names := Command(Live(files[..]), p), Names(recs);
    places := [];
    for i := 0 to |recs|
      invariant |places| == i && Remaining(c, names, i, Live(files[..]))
      invariant forall k :: 0 <= k < i ==> places[k] == PlaceOf(c, names, k)
    {
      var name := NameOf(recs[i].hdr);
      var place := PlaceNext(files, c, names, i, name, queues[i]);
      places := places + [place];
    }
  }

  /** match, and the fate of an old symbol table. */
  method PlaceNext(files: array<Arg>, ghost c: Command, ghost names: seq<string>, i: nat, name: string, q: nat)
    returns (place: nat)
    requires i < |names| && names[i] == name && q == Route(c.at, names, i)
    requires Remaining(c, names, i, Live(files[..]))
    modifies files
    ensures place == PlaceOf(c, names, i) && Remaining(c, names, i + 1, Live(files[..]))
  {
    ghost var live := Live(files[..]);
    var hit := Match(files, name);
    RemainingStep(c, names, i, live, Live(files[..]));
    place := if hit then MIDDLE else q;
    if place == START && i == 0 && name == SYMDEF {
      place := PITCHED;
    }
  }

  // ----- sorting by place

  /** Of the first n members, those that go to one place, in order. */
  function Chosen(ms: seq<Record>, places: seq<nat>, n: nat, place: nat): seq<Record>
    requires n <= |ms| && n <= |places|
  {
    if n == 0 then [] else Chosen(ms, places, n - 1, place) + if places[n - 1] == place then [ms[n - 1]] else []
  }

  /** Those that are not thrown away. */
  function Kept(ms: seq<Record>, places: seq<nat>, n: nat): seq<Record>
    requires n <= |ms| && n <= |places|
  {
    if n == 0 then [] else Kept(ms, places, n - 1) + if places[n - 1] == PITCHED then [] else [ms[n - 1]]
  }

  /** The order of the members in the new archive. */
  function Rearranged(ms: seq<Record>, places: seq<nat>): seq<Record>
    requires |places| == |ms|
  {
    Chosen(ms, places, |ms|, START) + Chosen(ms, places, |ms|, MIDDLE) + Chosen(ms, places, |ms|, END)
  }

  ghost function Count(ms: seq<Record>, places: seq<nat>, n: nat, place: nat, x: Record): nat
    requires n <= |ms| && n <= |places|
  {
    if n == 0 then 0 else Count(ms, places, n - 1, place, x) + if places[n - 1] == place && ms[n - 1] == x then 1 else 0
  }

  ghost function Tally(ms: seq<Record>, n: nat, x: Record): nat
    requires n <= |ms|
  {
    if n == 0 then 0 else Tally(ms, n - 1, x) + if ms[n - 1] == x then 1 else 0
  }

  lemma {:induction false} CountIs(ms: seq<Record>, places: seq<nat>, n: nat, place: nat, x: Record)
    requires n <= |ms| && n <= |places|
    ensures Count(ms, places, n, place, x) == multiset(Chosen(ms, places, n, place))[x]
  {
    if n > 0 {
      CountIs(ms, places, n - 1, place, x);
      CountOneMore(Chosen(ms, places, n - 1, place), if places[n - 1] == place then [ms[n - 1]] else [], x);
    }
  }

  lemma CountOneMore(s: seq<Record>, t: seq<Record>, x: Record)
    requires |t| <= 1
    ensures multiset(s + t)[x] == multiset(s)[x] + if t != [] && t[0] == x then 1 else 0
  {
    if t == [] {
      assert s + t == s;
    } else {
      assert t == [t[0]];
    }
  }

  lemma {:induction false} TallyIs(ms: seq<Record>, n: nat, x: Record)
    requires n <= |ms|
    ensures Tally(ms, n, x) == multiset(ms[..n])[x]
  {
    if n > 0 {
      TallyIs(ms, n - 1, x);
      assert ms[..n] == ms[..n - 1] + [ms[n - 1]];
    }
  }

  lemma {:induction false} CountsAdd(ms: seq<Record>, places: seq<nat>, n: nat, x: Record)
    requires n <= |ms| && n <= |places| && forall i :: 0 <= i < n ==> places[i] <= PITCHED
    ensures Count(ms, places, n, START, x) + Count(ms, places, n, MIDDLE, x) + Count(ms, places, n, END, x)
            + Count(ms, places, n, PITCHED, x) == Tally(ms, n, x)
  {
    if n > 0 { CountsAdd(ms, places, n - 1, x); }
  }

  /** No member is lost or repeated, except what is pitched. */
  lemma NoneLost(ms: seq<Record>, places: seq<nat>)
    requires |places| == |ms| && forall i :: 0 <= i < |ms| ==> places[i] <= PITCHED
    ensures multiset(Rearranged(ms, places)) + multiset(Chosen(ms, places, |ms|, PITCHED)) == multiset(ms)
  {
    var all, gone := multiset(Rearranged(ms, places)), multiset(Chosen(ms, places, |ms|, PITCHED));
    forall x ensures all[x] + gone[x] == multiset(ms)[x] {
      CountAll(ms, places, x);
    }
  }

  lemma CountAll(ms: seq<Record>, places: seq<nat>, x: Record)
    requires |places| == |ms| && forall i :: 0 <= i < |ms| ==> places[i] <= PITCHED
    ensures multiset(Rearranged(ms, places))[x] + multiset(Chosen(ms, places, |ms|, PITCHED))[x] == multiset(ms)[x]
  {
    var n := |ms|;
    CountsAdd(ms, places, n, x);
    TallyIs(ms, n, x);
    assert ms[..n] == ms;
    CountIs(ms, places, n, START, x);
    CountIs(ms, places, n, MIDDLE, x);
    CountIs(ms, places, n, END, x);
    CountIs(ms, places, n, PITCHED, x);
    CountOf(Chosen(ms, places, n, START), Chosen(ms, places, n, MIDDLE), Chosen(ms, places, n, END), x);
  }

  lemma CountOf(a: seq<Record>, b: seq<Record>, d: seq<Record>, x: Record)
    ensures multiset(a + b + d)[x] == multiset(a)[x] + multiset(b)[x] + multiset(d)[x]
  {
  }

  /** Only an old symbol table at the very front is pitched. */
  lemma {:induction false} OnlySymdefPitched(c: Command, ms: seq<Record>, places: seq<nat>, n: nat)
    requires places == PlacesOf(c, Names(ms)) && n <= |ms|
    ensures Chosen(ms, places, n, PITCHED) == if n > 0 && places[0] == PITCHED then [ms[0]] else []
    ensures n > 0 && places[0] == PITCHED ==> NameOf(ms[0].hdr) == SYMDEF
  {
    if n > 0 { OnlySymdefPitched(c, ms, places, n - 1); }
  }

  lemma {:induction false} ChosenSound(ms: seq<Record>, places: seq<nat>, n: nat, place: nat)
    requires n <= |ms| && n <= |places| && AllSound(ms)
    ensures AllSound(Chosen(ms, places, n, place))
  {
    if n > 0 { ChosenSound(ms, places, n - 1, place); }
  }
}
