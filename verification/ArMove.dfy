/**
  The m command of ar (ar.c: mcmd): named members move behind, or in front of, a pivot
  member, or to the end.
 */
module ArMove {
  import opened ArFormat
  import opened ArQueue
  import opened ArSymdef
  import opened ArArchive
  import opened ArScan
  import opened ArBuild
  import opened ArRead
  import opened ArPlan

  // ----- filling the queues

  /** The three queues after the first n members. */
  predicate Sorted(ms: seq<Record>, places: seq<nat>, n: nat, qs: seq<Queue>)
    requires n <= |ms| && n <= |places| && |qs| == 3
  {
    && qs[START].members == Chosen(ms, places, n, START)
    && qs[MIDDLE].members == Chosen(ms, places, n, MIDDLE)
    && qs[END].members == Chosen(ms, places, n, END)
  }

  lemma SortedStep(ms: seq<Record>, places: seq<nat>, i: nat, qs: seq<Queue>, qs': seq<Queue>)
    requires i < |ms| && i < |places| && places[i] <= PITCHED && |qs| == |qs'| == 3 && Sorted(ms, places, i, qs)
    requires var at := places[i];
             if at == PITCHED then qs' == qs else qs' == qs[at := Queue(qs[at].members + [ms[i]], qs'[at].sym)]
    ensures Sorted(ms, places, i + 1, qs')
    ensures Kept(ms, places, i + 1) ==
            if places[i] == PITCHED then Kept(ms, places, i) else Kept(ms, places, i) + [ms[i]]
  {
  }

  // ----- what it takes

  /** The first member behind the pivot, for which the third temporary file is made. */
  predicate Opens(at: seq<nat>, i: nat)
    requires i < |at|
  {
    at[i] == END && (i == 0 || at[i - 1] != END)
  }

  /** getdir makes a member, newtempfile a file, and arread room for the body. */
  function MemberAsks(scan: Record -> Scan, taken: seq<Record>, rec: Record, opens: bool, pitched: bool): nat {
    1 + (if opens then 1 else 0) + if pitched then 0 else ScanAsks(scan, taken, rec) + 1
  }

  /** The allocations up to the end of the first n members; two files are made at the start. */
  function AllAsks(scan: Record -> Scan, ms: seq<Record>, at: seq<nat>, places: seq<nat>, n: nat): nat
    requires n <= |ms| && n <= |at| && n <= |places|
  {
    if n == 0 then 2
    else
      var i := n - 1;
      AllAsks(scan, ms, at, places, i)
      + MemberAsks(scan, Kept(ms, places, i), ms[i], Opens(at, i), places[i] == PITCHED)
  }

  predicate Fits(scan: Record -> Scan, ms: seq<Record>, at: seq<nat>, places: seq<nat>, memory: seq<nat>, i: nat)
    requires i < |ms| && i < |at| && i < |places|
  {
    Fails(memory, AllAsks(scan, ms, at, places, i + 1)) <= |Kept(ms, places, i)|
  }

  /**
    At each allocation, malloc has failed at most as often as members have been copied
    before. One more is for the getdir that finds no further member.
   */
  predicate Suffices(scan: Record -> Scan, ms: seq<Record>, at: seq<nat>, places: seq<nat>, memory: seq<nat>)
    requires |at| == |places| == |ms|
  {
    && Fails(memory, 2) == 0
    && (forall i: nat :: i < |ms| ==> Fits(scan, ms, at, places, memory, i))
    && Fails(memory, AllAsks(scan, ms, at, places, |ms|) + 1) <= |Kept(ms, places, |ms|)|
  }

  lemma {:induction false} NoFails(memory: seq<nat>, n: nat)
    requires forall i :: 0 <= i < |memory| ==> memory[i] == 0
    ensures Fails(memory, n) == 0
  {
    if n > 0 { NoFails(memory, n - 1); }
  }

  /** When malloc never fails there is enough memory for every archive. */
  lemma MemoryEnough(scan: Record -> Scan, ms: seq<Record>, at: seq<nat>, places: seq<nat>, memory: seq<nat>)
    requires |at| == |places| == |ms| && forall i :: 0 <= i < |memory| ==> memory[i] == 0
    ensures Suffices(scan, ms, at, places, memory)
  {
    forall n ensures Fails(memory, n) == 0 {
      NoFails(memory, n);
    }
  }

  // ----- one member after the other

  ghost predicate Filled(b: Builder, ms: seq<Record>, places: seq<nat>, i: nat)
    requires i <= |ms| && i <= |places|
    reads b, b.queue, b.repr
  {
    b.Valid() && Sorted(ms, places, i, b.contents) && b.Scanned(Kept(ms, places, i)) && b.Ready()
  }

  /** The state before member i. The quantifier keeps the verifier from unfolding it where it is only passed on. */
  ghost predicate Going(b: Builder, ms: seq<Record>, places: seq<nat>, i: nat)
    requires i <= |ms| && i <= |places|
    reads b, b.queue, b.repr
  {
    forall k :: k == i ==> Filled(b, ms, places, k)
  }

  /** The allocations so far were made for the members so far. */
  ghost predicate PaidFor(b: Builder, ms: seq<Record>, at: seq<nat>, places: seq<nat>, i: nat)
    requires i <= |ms| && i <= |at| && i <= |places|
    reads b
  {
    && |b.cores| == 3 && b.Fed()
    && b.asks == AllAsks(b.scan, ms, at, places, i) && b.copied == |Kept(ms, places, i)|
  }

  ghost predicate Paid(b: Builder, ms: seq<Record>, at: seq<nat>, places: seq<nat>, i: nat)
    requires i <= |ms| && i <= |at| && i <= |places|
    reads b
  {
    forall k :: k == i ==> PaidFor(b, ms, at, places, k)
  }

  /** getdir, and a new temporary file at the pivot. */
  method Head(b: Builder, opens: bool, ghost recs: seq<Record>, ghost places: seq<nat>, ghost i: nat)
    returns (ok: bool)
    requires i <= |recs| && i <= |places| && Going(b, recs, places, i) && |b.cores| == 3 && b.Fed()
    modifies b, b.repr
    ensures fresh(b.repr - old(b.repr)) && b.copied == old(b.copied)
    ensures var n := old(b.asks) + if opens then 2 else 1;
            && (ok <==> Fails(b.supply, n) <= b.copied)
            && (ok ==> |b.cores| == 3 && b.Fed() && b.asks == n)
    ensures ok ==> Going(b, recs, places, i)
  {
    assert Filled(b, recs, places, i);
    FailsGrow(b.supply, b.asks + 1, b.asks + 2);
    ok := b.Armalloc();
    if ok && opens {
      ok := b.Armalloc();
    }
    assert ok ==> Filled(b, recs, places, i);
  }

  /** One member: take it to its queue, or skip it. */
  method Place(b: Builder, recs: seq<Record>, at: seq<nat>, places: seq<nat>, i: nat) returns (ok: bool)
    requires i < |recs| && i < |at| && i < |places| && places[i] <= PITCHED && Sound(recs[i])
    requires Going(b, recs, places, i) && Paid(b, recs, at, places, i)
    modifies b, b.repr
    ensures fresh(b.repr - old(b.repr))
    ensures ok <==> Fits(b.scan, recs, at, places, b.supply, i)
    ensures ok ==> Going(b, recs, places, i + 1) && Paid(b, recs, at, places, i + 1)
  {
    PaidSoFar(b, recs, at, places, i);
    ghost var n := b.asks + (if Opens(at, i) then 2 else 1) + BodyAsks(b.scan, recs, places, i);
    FitsIs(b.scan, recs, at, places, b.supply, i, n);
    ok := PlaceNext(b, Opens(at, i), recs, places, i);
    if ok {
      PaidNext(b, recs, at, places, i, n);
    }
  }

  lemma PaidSoFar(b: Builder, ms: seq<Record>, at: seq<nat>, places: seq<nat>, i: nat)
    requires i <= |ms| && i <= |at| && i <= |places| && Paid(b, ms, at, places, i)
    ensures |b.cores| == 3 && b.Fed()
    ensures b.asks == AllAsks(b.scan, ms, at, places, i) && b.copied == |Kept(ms, places, i)|
  {
    assert PaidFor(b, ms, at, places, i);
  }

  lemma PaidNext(b: Builder, ms: seq<Record>, at: seq<nat>, places: seq<nat>, i: nat, n: nat)
    requires i < |ms| && i < |at| && i < |places| && |b.cores| == 3 && b.Fed()
    requires n == AllAsks(b.scan, ms, at, places, i) + (if Opens(at, i) then 2 else 1) + BodyAsks(b.scan, ms, places, i)
    requires b.asks == n && b.copied == |Kept(ms, places, i)| + if places[i] == PITCHED then 0 else 1
    ensures Paid(b, ms, at, places, i + 1)
  {
    MemberPaid(b.scan, ms, at, places, i);
    assert PaidFor(b, ms, at, places, i + 1);
  }

  lemma FitsIs(scan: Record -> Scan, ms: seq<Record>, at: seq<nat>, places: seq<nat>, memory: seq<nat>, i: nat, n: nat)
    requires i < |ms| && i < |at| && i < |places|
    requires n == AllAsks(scan, ms, at, places, i) + (if Opens(at, i) then 2 else 1) + BodyAsks(scan, ms, places, i)
    ensures Fits(scan, ms, at, places, memory, i) <==> Fails(memory, n) <= |Kept(ms, places, i)|
  {
    var all := AllAsks(scan, ms, at, places, i + 1);
    MemberPaid(scan, ms, at, places, i);
    assert all == n;
  }

  /** The same with the allocations as numbers. */
  method PlaceNext(b: Builder, opens: bool, recs: seq<Record>, places: seq<nat>, i: nat) returns (ok: bool)
    requires i < |recs| && i < |places| && places[i] <= PITCHED && Sound(recs[i])
    requires Going(b, recs, places, i) && |b.cores| == 3 && b.Fed()
    modifies b, b.repr
    ensures fresh(b.repr - old(b.repr))
    ensures var n := old(b.asks) + (if opens then 2 else 1) + BodyAsks(b.scan, recs, places, i);
            && (ok <==> Fails(b.supply, n) <= old(b.copied))
            && (ok ==> |b.cores| == 3 && b.Fed() && b.asks == n)
    ensures ok ==> b.copied == old(b.copied) + if places[i] == PITCHED then 0 else 1
    ensures ok ==> Going(b, recs, places, i + 1)
  {
    ghost var head := b.asks + if opens then 2 else 1;
    FailsGrow(b.supply, head, head + BodyAsks(b.scan, recs, places, i));
    ok := Head(b, opens, recs, places, i);
    if ok {
      ok := PlaceBody(b, recs, places, i);
    }
  }

  lemma MemberPaid(scan: Record -> Scan, ms: seq<Record>, at: seq<nat>, places: seq<nat>, i: nat)
    requires i < |ms| && i < |at| && i < |places|
    ensures AllAsks(scan, ms, at, places, i + 1) ==
            AllAsks(scan, ms, at, places, i) + (if Opens(at, i) then 2 else 1) + BodyAsks(scan, ms, places, i)
    ensures |Kept(ms, places, i + 1)| == |Kept(ms, places, i)| + if places[i] == PITCHED then 0 else 1
  {
  }

  /** The allocations for the symbols and the body of a member that is not skipped. */
  function BodyAsks(scan: Record -> Scan, ms: seq<Record>, places: seq<nat>, i: nat): nat
    requires i < |ms| && i < |places|
  {
    if places[i] == PITCHED then 0 else ScanAsks(scan, Kept(ms, places, i), ms[i]) + 1
  }

  method PlaceBody(b: Builder, recs: seq<Record>, places: seq<nat>, i: nat) returns (ok: bool)
    requires i < |recs| && i < |places| && places[i] <= PITCHED && Sound(recs[i])
    requires Going(b, recs, places, i) && |b.cores| == 3 && b.Fed()
    modifies b, b.repr
    ensures fresh(b.repr - old(b.repr))
    ensures var n := old(b.asks) + BodyAsks(b.scan, recs, places, i);
            && (ok <==> Fails(b.supply, n) <= old(b.copied))
            && (ok ==> |b.cores| == 3 && b.Fed() && b.asks == n)
    ensures ok ==> b.copied == old(b.copied) + if places[i] == PITCHED then 0 else 1
    ensures ok ==> Going(b, recs, places, i + 1)
  {
    ok := true;
    if places[i] == PITCHED {
      Pitch(b, recs, places, i);
    } else {
      ok := TakeNext(b, recs, places, i);
    }
  }

  /** A member that is skipped changes no queue. */
  lemma Pitch(b: Builder, recs: seq<Record>, places: seq<nat>, i: nat)
    requires i < |recs| && i < |places| && places[i] == PITCHED && Going(b, recs, places, i)
    ensures Going(b, recs, places, i + 1)
  {
    assert Filled(b, recs, places, i);
    SortedStep(recs, places, i, b.contents, b.contents);
  }

  method TakeNext(b: Builder, recs: seq<Record>, places: seq<nat>, i: nat) returns (ok: bool)
    requires i < |recs| && i < |places| && places[i] < PITCHED && Sound(recs[i])
    requires Going(b, recs, places, i) && |b.cores| == 3 && b.Fed()
    modifies b, b.repr
    ensures fresh(b.repr - old(b.repr))
    ensures var n := old(b.asks) + BodyAsks(b.scan, recs, places, i);
            && (ok <==> Fails(b.supply, n) <= old(b.copied))
            && (ok ==> |b.cores| == 3 && b.Fed() && b.asks == n && b.copied == old(b.copied) + 1)
    ensures ok ==> Going(b, recs, places, i + 1)
  {
    assert Filled(b, recs, places, i);
    ghost var qs, taken := b.contents, Kept(recs, places, i);
    BodyIs(b.scan, recs, places, i, taken);
    ok := b.Take(places[i], recs[i], taken);
    if ok {
      SortedStep(recs, places, i, qs, b.contents);
      assert Filled(b, recs, places, i + 1);
    }
  }

  lemma BodyIs(scan: Record -> Scan, ms: seq<Record>, places: seq<nat>, i: nat, taken: seq<Record>)
    requires i < |ms| && i < |places| && places[i] < PITCHED && taken == Kept(ms, places, i)
    ensures BodyAsks(scan, ms, places, i) == ScanAsks(scan, taken, ms[i]) + 1
    ensures Kept(ms, places, i + 1) == taken + [ms[i]]
  {
  }

  /** The loop over the members, on a new set of queues, until getdir finds no more. */
  method Sweep(scan: Record -> Scan, memory: seq<nat>, recs: seq<Record>, at: seq<nat>, places: seq<nat>)
    returns (b: Builder, ok: bool)
    requires AllSound(recs) && |at| == |places| == |recs| && forall i :: 0 <= i < |recs| ==> places[i] <= PITCHED
    ensures b.scan == scan && (ok ==> Going(b, recs, places, |recs|))
    ensures ok <==> Suffices(scan, recs, at, places, memory)
  {
    b, ok := Begin(scan, memory, recs, at, places);
    var i := 0;
    while ok && i < |recs|
      invariant i <= |recs| && (ok ==> Going(b, recs, places, i) && Paid(b, recs, at, places, i))
      invariant fresh(b) && fresh(b.repr) && b.scan == scan && b.supply == memory
      invariant ok <==> Fails(memory, 2) == 0 && forall k: nat :: k < i ==> Fits(scan, recs, at, places, memory, k)
      decreases |recs| - i
    {
      ok := Place(b, recs, at, places, i);
      i := i + 1;
    }
    if ok {
      assert PaidFor(b, recs, at, places, |recs|);
      ok := Head(b, false, recs, places, |recs|);
    }
  }


  // ----- the command

  function QueueFor(scan: Record -> Scan, ms: seq<Record>): Queue { Queue(ms, Refs(scan, ms)) }

  function NewLayout(scan: Record -> Scan, ms: seq<Record>, places: seq<nat>): Layout
    requires |places| == |ms|
  {
    Layout(QueueFor(scan, Chosen(ms, places, |ms|, START)), QueueFor(scan, Chosen(ms, places, |ms|, MIDDLE)),
           QueueFor(scan, Chosen(ms, places, |ms|, END)))
  }

  /** What m should leave: the rearranged members, behind a symbol table when all are objects. */
  function Expected(scan: Record -> Scan, ms: seq<Record>, places: seq<nat>, date: nat): Outcome
    requires |places| == |ms|
  {
    var kept := Kept(ms, places, |ms|);
    if Uniform(scan, kept) && HasRepeat(AllTexts(scan, kept)) then Unchanged
    else Written(Archive(NewLayout(scan, ms, places), date, Uniform(scan, kept)))
  }

  datatype Result = NoFiles | NoMemory | PhaseError | Finished(outcome: Outcome)

  /**
    Read the old archive and write the new one. body is the archive behind its magic, and
    memory says when allocations fail. Bytes that are not an archive are refused. It gives
    up for want of memory exactly when the sizes read are no sizes or the allocations for
    the members that are read fail more often than there are members to spill.
   */
  method Mcmd(body: string, files: array<Arg>, p: Pivot, scan: Record -> Scan, memory: seq<nat>, date: nat)
    returns (r: Result)
    modifies files
    ensures r == NoFiles <==> files.Length == 0
    ensures var ms, end := Parse(body).ms, Parse(body).end;
            var places := PlacesOf(Command(old(Live(files[..])), p), Names(ms));
            var enough := Suffices(scan, ms, RoutesOf(p, Names(ms)), places, memory);
            && (r == NoMemory <==> files.Length > 0 && (end == NegativeSize || !enough))
            && (r == PhaseError <==> files.Length > 0 && end == BadMagic && enough)
            && (r.Finished? <==> files.Length > 0 && end == AtEof && enough)
            && (r.Finished? ==> r.outcome == Expected(scan, ms, places, date))
    ensures files.Length > 0 && Parse(body).end == AtEof && (forall i :: 0 <= i < |memory| ==> memory[i] == 0) ==>
              r.Finished?
  {
    if files.Length == 0 {
      return NoFiles;
    }
    var found, queues := ReadAll(p, body);
    var places := Plan(files, p, found.ms, queues);
    r := Build(found, queues, places, scan, memory, date);
    if forall i :: 0 <= i < |memory| ==> memory[i] == 0 {
      MemoryEnough(scan, found.ms, queues, places, memory);
    }
  }

  method Build(found: Parsed, at: seq<nat>, places: seq<nat>, scan: Record -> Scan, memory: seq<nat>, date: nat)
    returns (r: Result)
    requires AllSound(found.ms) && |at| == |places| == |found.ms|
    requires forall i :: 0 <= i < |found.ms| ==> places[i] <= PITCHED
    ensures r == if found.end == NegativeSize || !Suffices(scan, found.ms, at, places, memory) then NoMemory
                 else if found.end == BadMagic then PhaseError
                 else Finished(Expected(scan, found.ms, places, date))
  {
    var b, ok := Sweep(scan, memory, found.ms, at, places);
    if !ok || found.end == NegativeSize {
      return NoMemory;
    }
    if found.end == BadMagic {
      return PhaseError;
    }
    var out := Finish(b, found.ms, places, date);
    return Finished(out);
  }

  method Begin(scan: Record -> Scan, memory: seq<nat>, ghost ms: seq<Record>, ghost at: seq<nat>,
               ghost places: seq<nat>)
    returns (b: Builder, ok: bool)
    ensures fresh(b) && fresh(b.repr) && b.scan == scan && b.supply == memory
    ensures ok <==> Fails(memory, 2) == 0
    ensures ok ==> Going(b, ms, places, 0) && Paid(b, ms, at, places, 0)
  {
    b := new Builder(scan, memory);
    NothingYet(scan, ms, places);
    FailsGrow(memory, 1, 2);
    ok := b.Armalloc();
    if ok {
      ok := b.Armalloc();
      assert ok ==> Filled(b, ms, places, 0) && PaidFor(b, ms, at, places, 0);
    }
  }

  lemma NothingYet(scan: Record -> Scan, ms: seq<Record>, places: seq<nat>)
    ensures var qs := [Queue([], []), Queue([], []), Queue([], [])]; Sorted(ms, places, 0, qs) && Complete(scan, qs, 0)
    ensures Kept(ms, places, 0) == [] && Uniform(scan, []) && AllTexts(scan, []) == [] && !HasRepeat([])
  {
  }

  method Finish(b: Builder, ghost ms: seq<Record>, ghost places: seq<nat>, date: nat) returns (out: Outcome)
    requires |places| == |ms| && Going(b, ms, places, |ms|)
    ensures out == Expected(b.scan, ms, places, date)
  {
    assert Filled(b, ms, places, |ms|);
    out := b.Install(date, Kept(ms, places, |ms|));
    LayoutIs(b.scan, ms, places, b.contents, b.symdefsize, date);
  }

  /** The layout that was built; without a symbol table only the members matter. */
  lemma LayoutIs(scan: Record -> Scan, ms: seq<Record>, places: seq<nat>, qs: seq<Queue>, size: nat, date: nat)
    requires |places| == |ms| && |qs| == 3 && Sorted(ms, places, |ms|, qs)
    ensures Archive(LayoutOf(qs), date, false) == Archive(NewLayout(scan, ms, places), date, false)
    ensures Complete(scan, qs, size) ==> LayoutOf(qs) == NewLayout(scan, ms, places)
  {
  }

  // ----- what a reader finds afterwards

  /** Symbol names are C strings. */
  predicate CScan(scan: Record -> Scan, ms: seq<Record>) {
    forall i, s :: 0 <= i < |ms| && s in Syms(scan(ms[i])) ==> '\0' !in s.name
  }

  lemma QueueIndexed(scan: Record -> Scan, ms: seq<Record>)
    requires CScan(scan, ms)
    ensures Indexed(scan, QueueFor(scan, ms))
  {
    var refs := Refs(scan, ms);
    forall r ensures r in refs <==> Located(scan, ms, r) {
      RefsLocated(scan, ms, r);
    }
    forall k | 0 <= k < |refs| ensures '\0' !in refs[k].name {
      assert Located(scan, ms, refs[k]);
      var i: nat :| PointsAt(scan, ms, i, refs[k]);
    }
  }

  lemma {:induction false} ChosenCScan(scan: Record -> Scan, ms: seq<Record>, places: seq<nat>, n: nat, place: nat)
    requires n <= |ms| && n <= |places| && CScan(scan, ms)
    ensures CScan(scan, Chosen(ms, places, n, place))
  {
    if n > 0 { ChosenCScan(scan, ms, places, n - 1, place); }
  }

  lemma NewLayoutIndexed(scan: Record -> Scan, ms: seq<Record>, places: seq<nat>)
    requires |places| == |ms| && CScan(scan, ms)
    ensures AllIndexed(scan, NewLayout(scan, ms, places))
  {
    ChosenCScan(scan, ms, places, |ms|, START);
    ChosenCScan(scan, ms, places, |ms|, MIDDLE);
    ChosenCScan(scan, ms, places, |ms|, END);
    QueueIndexed(scan, Chosen(ms, places, |ms|, START));
    QueueIndexed(scan, Chosen(ms, places, |ms|, MIDDLE));
    QueueIndexed(scan, Chosen(ms, places, |ms|, END));
  }

  lemma NewLayoutSound(scan: Record -> Scan, ms: seq<Record>, places: seq<nat>, l: Layout)
    requires |places| == |ms| && AllSound(ms) && l == NewLayout(scan, ms, places)
    ensures l.All() == Rearranged(ms, places) && AllSound(l.All())
  {
    ChosenSound(ms, places, |ms|, START);
    ChosenSound(ms, places, |ms|, MIDDLE);
    ChosenSound(ms, places, |ms|, END);
  }

  /** The archive a that m writes lists the symbol table and then the members in their new order. */
  lemma MovedListing(scan: Record -> Scan, ms: seq<Record>, places: seq<nat>, date: nat, l: Layout, a: string)
    requires |places| == |ms| && AllSound(ms) && l == NewLayout(scan, ms, places) && l.SymdefSize() < LONG_MAX
    requires Expected(scan, ms, places, date) == Written(a)
    ensures AllSound(Rearranged(ms, places))
    ensures var body := Tables(l) + Pad(l.SymdefSize());
            var table := if Uniform(scan, Kept(ms, places, |ms|)) then [Seen(SYMDEF, |body|, body)] else [];
            Walk(a[|ARMAG|..]) == Listed(table + SeenAll(Rearranged(ms, places)))
  {
    NewLayoutSound(scan, ms, places, l);
    ArchiveListing(l, date, Uniform(scan, Kept(ms, places, |ms|)));
  }

  /**
    Its symbol table holds exactly the exported symbols; for an archive below 2^32 bytes,
    getdir at an entry's offset finds a member that exports it.
   */
  lemma MovedSymbols(scan: Record -> Scan, ms: seq<Record>, places: seq<nat>, date: nat, l: Layout, a: string,
                     e: Symref)
    requires |places| == |ms| && CScan(scan, ms) && AllSound(ms)
    requires l == NewLayout(scan, ms, places) && l.SymdefSize() < LONG_MAX
    requires Uniform(scan, Kept(ms, places, |ms|)) && Expected(scan, ms, places, date) == Written(a)
    requires |a| < 0x1_0000_0000
    ensures e in ParseTable(Tables(l) + Pad(l.SymdefSize())) <==>
            exists i: nat :: Finds(scan, a, Rearranged(ms, places), Base(l.SymdefSize()), i, e)
  {
    NewLayoutIndexed(scan, ms, places);
    NewLayoutSound(scan, ms, places, l);
    EntriesFindMembers(scan, l, date, e);
  }
}
