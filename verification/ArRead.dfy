/**
  Reading an archive whatever its bytes are (ar.c: getdir, arread, bamatch): its members,
  and for each the side of the pivot it stands on.
 */
module ArRead {
  import opened ArFormat
  import opened ArBuild

  // ----- the members

  /** A wrong magic stops ar; so does a negative size, for which no allocation succeeds. */
  datatype Ending = AtEof | BadMagic | NegativeSize

  /** The members up to the end, or to what stops ar. */
  datatype Parsed = Parsed(ms: seq<Record>, end: Ending)

  function Zeros(n: nat): (r: string)
    ensures |r| == n
  {
    if n == 0 then "" else Zeros(n - 1) + "\0"
  }

  /** The body with its padding, as arread finds it; what the file lacks stays zero. */
  function BodyOf(b: string, size: nat): (r: string)
    requires |b| >= SAR_HDR
    ensures |r| == Even(size)
  {
    var end := SAR_HDR + Even(size);
    if end <= |b| then b[SAR_HDR..end] else b[SAR_HDR..] + Zeros(end - |b|)
  }

  function Parse(b: string): Parsed
    decreases |b|
  {
    match Getdir(b)
    case Eof => Parsed([], AtEof)
    case Phase => Parsed([], BadMagic)
    case Dir(h, size) =>
      if size < 0 then Parsed([], NegativeSize)
      else Prepend([Record(h, size, BodyOf(b, size))], Parse(Skip(b, size)))
  }

  function Prepend(recs: seq<Record>, p: Parsed): Parsed { p.(ms := recs + p.ms) }

  /** The headers read are good, whatever follows them. */
  lemma DirSound(b: string)
    requires Getdir(b).Dir? && Getdir(b).size >= 0
    ensures Sound(Record(Getdir(b).hdr, Getdir(b).size, BodyOf(b, Getdir(b).size)))
  {
  }

  /** An archive that ar wrote is read back member by member. */
  lemma {:induction false} ParseEncoded(ms: seq<Record>)
    requires AllSound(ms)
    ensures Parse(EncodeAll(ms)) == Parsed(ms, AtEof)
  {
    if ms != [] {
      GetdirEncoded(ms[0], EncodeAll(ms[1..]));
      ParseEncoded(ms[1..]);
      assert [ms[0]] + ms[1..] == ms;
    }
  }

  function Names(ms: seq<Record>): (r: seq<string>)
    ensures |r| == |ms|
  {
    seq(|ms|, i requires 0 <= i < |ms| => NameOf(ms[i].hdr))
  }

  // ----- the pivot

  datatype Pivot = Pivot(aflag: bool, bflag: bool, name: string)

  /** bamatch: the next state, and whether the tail starts with this member. */
  function Bamatch(p: Pivot, state: int, name: string): (int, bool) {
    if state == 0 then
      if p.aflag then (if name == p.name then 1 else 0, false)
      else if p.bflag && name == p.name then (2, true)
      else (0, false)
    else if state == 1 then (2, true)
    else (state, false)
  }

  /** Member i stands behind the pivot, or is the pivot when moving in front of it. */
  predicate Behind(p: Pivot, names: seq<string>, i: nat)
    requires i < |names|
  {
    if p.aflag then p.name in names[..i] else p.bflag && p.name in names[..i + 1]
  }

  function StateBefore(p: Pivot, names: seq<string>, i: nat): int
    requires i <= |names|
  {
    if p.aflag then
      if p.name !in names[..i] then 0 else if p.name !in names[..i - 1] then 1 else 2
    else if p.bflag && p.name in names[..i] then 2
    else 0
  }

  predicate InTail(p: Pivot, names: seq<string>, i: nat)
    requires i <= |names|
  {
    i > 0 && Behind(p, names, i - 1)
  }

  lemma TailStep(p: Pivot, names: seq<string>, i: nat)
    requires i < |names|
    ensures var (state, hit) := Bamatch(p, StateBefore(p, names, i), names[i]);
            state == StateBefore(p, names, i + 1) && (Behind(p, names, i) <==> hit || InTail(p, names, i))
  {
    assert names[..i + 1] == names[..i] + [names[i]];
    if i > 0 { assert names[..i] == names[..i - 1] + [names[i - 1]]; }
  }

  /** The queue for member i unless it is moved. */
  function Route(p: Pivot, names: seq<string>, i: nat): nat
    requires i < |names|
  {
    if Behind(p, names, i) then END else START
  }

  /** The queue in use at each member. */
  function RoutesOf(p: Pivot, names: seq<string>): (r: seq<nat>)
    ensures |r| == |names|
  {
    seq(|names|, i requires 0 <= i < |names| => Route(p, names, i))
  }

  predicate Routed(p: Pivot, names: seq<string>, queues: seq<nat>) {
    |queues| == |names| && forall k :: 0 <= k < |names| ==> queues[k] == Route(p, names, k)
  }

  /** What bamatch remembers after these members, and the queue in use. */
  predicate Tracks(p: Pivot, names: seq<string>, state: int, q: nat) {
    state == StateBefore(p, names, |names|) && q == if InTail(p, names, |names|) then END else START
  }

  /** One more name changes nothing for those before it. */
  lemma TrackStep(p: Pivot, names: seq<string>, name: string, state: int, q: nat, queues: seq<nat>)
    requires Tracks(p, names, state, q) && Routed(p, names, queues)
    ensures var (state', hit) := Bamatch(p, state, name);
            var q' := if hit then END else q;
            Tracks(p, names + [name], state', q') && Routed(p, names + [name], queues + [q'])
  {
    var more, n := names + [name], |names|;
    assert forall k :: 0 <= k <= n ==> more[..k] == names[..k];
    TailStep(p, more, n);
  }

  /** The members of an archive, each with the queue it goes to unless it is moved. */
  method ReadAll(p: Pivot, body: string) returns (r: Parsed, queues: seq<nat>)
    ensures r == Parse(body) && AllSound(r.ms)
    ensures Routed(p, Names(r.ms), queues) && queues == RoutesOf(p, Names(r.ms))
  {
    queues := [];
    var recs, rest, state := [], body, 0;
    var q: nat := START;
    while Getdir(rest).Dir? && Getdir(rest).size >= 0
      invariant Parse(body) == Prepend(recs, Parse(rest)) && AllSound(recs)
      invariant Tracks(p, Names(recs), state, q) && Routed(p, Names(recs), queues)
      decreases |rest|
    {
      var d := Getdir(rest);
      var rec := Record(d.hdr, d.size, BodyOf(rest, d.size));
      DirSound(rest);
      TrackStep(p, Names(recs), NameOf(d.hdr), state, q, queues);
      assert Names(recs + [rec]) == Names(recs) + [NameOf(d.hdr)];
      Onward(recs, rec, Parse(Skip(rest, d.size)));
      var (next, hit) := Bamatch(p, state, NameOf(d.hdr));
      state, q := next, if hit then END else q;
      recs, queues, rest := recs + [rec], queues + [q], Skip(rest, d.size);
    }
    assert recs + [] == recs;
    r := Parsed(recs, if Getdir(rest).Eof? then AtEof else if Getdir(rest).Phase? then BadMagic else NegativeSize);
  }

  lemma Onward(recs: seq<Record>, rec: Record, p: Parsed)
    ensures Prepend(recs, Prepend([rec], p)) == Prepend(recs + [rec], p)
  {
    assert recs + ([rec] + p.ms) == recs + [rec] + p.ms;
  }
}
