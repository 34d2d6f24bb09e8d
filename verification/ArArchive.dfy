/**
  The archive that ar's install lays out from its three queues (ar.c: install, rl), and
  what a reader finds in it.
 */
module ArArchive {
  import opened ArFormat
  import opened ArQueue
  import opened ArSymdef

  const SYMDEF_MODE := 420 // 0644

  /** What a queue holds: the members inserted and the chain of their symbols. */
  datatype Queue = Queue(members: seq<Record>, sym: seq<Symref>) {
    function Length(): nat { |EncodeAll(members)| }
  }

  /** The members up to the pivot, the new or moved ones, and those behind the pivot. */
  datatype Layout = Layout(start: Queue, middle: Queue, end: Queue) {
    function All(): seq<Record> { start.members + middle.members + end.members }

    /** symdefsize once every member has been scanned. */
    function SymdefSize(): nat { TableSize(start.sym) + TableSize(middle.sym) + TableSize(end.sym) }
  }

  /** Where the first member behind the symbol table starts. */
  function Base(size: nat): nat { |ARMAG| + SAR_HDR + Even(size) }

  function TablesFrom(l: Layout, b: nat, n1: nat, n2: nat): string {
    Table(l.start.sym, b) + Table(l.middle.sym, b + n1) + Table(l.end.sym, b + n1 + n2)
  }

  function Tables(l: Layout): string {
    TablesFrom(l, Base(l.SymdefSize()), l.start.Length(), l.middle.Length())
  }

  function SymdefRecord(table: string, date: nat): Record {
    Made(File(SYMDEF, date, SYMDEF_MODE, table + Pad(|table|)), '\0')
  }

  function Front(l: Layout, date: nat): string { ARMAG + Encode(SymdefRecord(Tables(l), date)) }

  function Archive(l: Layout, date: nat, allobj: bool): string {
    (if allobj then Front(l, date) else ARMAG) + EncodeAll(l.All())
  }

  // ----- the declared size

  /** The size objsym accumulated is the number of bytes wrsym writes. */
  lemma TablesLength(l: Layout)
    ensures |Tables(l)| == l.SymdefSize()
  {
    TablesFromLength(l, Base(l.SymdefSize()), l.start.Length(), l.middle.Length());
  }

  lemma TablesFromLength(l: Layout, b: nat, n1: nat, n2: nat)
    ensures |TablesFrom(l, b, n1, n2)| == l.SymdefSize()
  {
    TableLength(l.start.sym, b);
    TableLength(l.middle.sym, b + n1);
    TableLength(l.end.sym, b + n1 + n2);
  }

  lemma SymdefRecordSound(t: string, date: nat)
    requires |t| < LONG_MAX
    ensures var r := SymdefRecord(t, date);
            Sound(r) && r.size == Even(|t|) && NameOf(r.hdr) == SYMDEF && r.member == t + Pad(|t|)
  {
    var f := File(SYMDEF, date, SYMDEF_MODE, t + Pad(|t|));
    assert |f.body| == Even(|t|);
    assert |f.body| % 2 == 0;
    MadeSound(f, '\0');
    NameRecovered(f);
    assert f.body + "" == f.body;
  }

  /** The symbol table is a member like any other, and its header declares the bytes written plus pad. */
  lemma SymdefSound(l: Layout, date: nat)
    requires l.SymdefSize() < LONG_MAX
    ensures var r := SymdefRecord(Tables(l), date);
            Sound(r) && r.size == Even(l.SymdefSize()) && NameOf(r.hdr) == SYMDEF
            && r.member == Tables(l) + Pad(l.SymdefSize())
  {
    TablesLength(l);
    SymdefRecordSound(Tables(l), date);
  }

  // ----- the offsets

  /** The chain of a queue holds exactly the exported symbols of its members. */
  ghost predicate Indexed(scan: Record -> Scan, q: Queue) {
    CNames(q.sym) && forall r {:trigger Located(scan, q.members, r)} :: r in q.sym <==> Located(scan, q.members, r)
  }

  ghost predicate AllIndexed(scan: Record -> Scan, l: Layout) {
    Indexed(scan, l.start) && Indexed(scan, l.middle) && Indexed(scan, l.end)
  }

  /** e names a symbol that member i exports, and its offset is where member i stands. */
  predicate Hits(scan: Record -> Scan, ms: seq<Record>, base: nat, i: nat, e: Symref) {
    i < |ms| && e.offset == Low32(base + Position(ms, i)) && PointsAt(scan, ms, i, e.(offset := Position(ms, i)))
  }

  lemma PositionIn(before: seq<Record>, q: seq<Record>, after: seq<Record>, i: nat)
    requires i <= |q|
    ensures Position(before + q + after, |before| + i) == |EncodeAll(before)| + Position(q, i)
  {
    assert (before + q + after)[..|before| + i] == before + q[..i];
    EncodeConcat(before, q[..i]);
  }

  lemma HitsHere(scan: Record -> Scan, before: seq<Record>, q: seq<Record>, after: seq<Record>, base: nat, j: nat,
                 e: Symref)
    requires j < |q|
    ensures Hits(scan, before + q + after, base, |before| + j, e) <==>
            Hits(scan, q, base + |EncodeAll(before)|, j, e)
  {
    PositionIn(before, q, after, j);
    assert (before + q + after)[|before| + j] == q[j];
    assert base + (|EncodeAll(before)| + Position(q, j)) == base + |EncodeAll(before)| + Position(q, j);
  }

  /** e is the entry written for some symbol of the chain. */
  predicate Tabled(refs: seq<Symref>, base: nat, e: Symref) {
    exists k :: 0 <= k < |refs| && e == Shifted(refs[k], base)
  }

  lemma PlacedIs(refs: seq<Symref>, base: nat, e: Symref)
    ensures e in Placed(refs, base) <==> Tabled(refs, base, e)
  {
  }

  lemma TabledHits(scan: Record -> Scan, q: Queue, base: nat, e: Symref) returns (j: nat)
    requires Indexed(scan, q) && Tabled(q.sym, base, e)
    ensures j < |q.members| && Hits(scan, q.members, base, j, e)
  {
    var k :| 0 <= k < |q.sym| && e == Shifted(q.sym[k], base);
    var r := q.sym[k];
    assert Located(scan, q.members, r);
    j :| PointsAt(scan, q.members, j, r);
  }

  lemma HitTabled(scan: Record -> Scan, q: Queue, base: nat, j: nat, e: Symref)
    requires Indexed(scan, q) && Hits(scan, q.members, base, j, e)
    ensures Tabled(q.sym, base, e)
  {
    var r := e.(offset := Position(q.members, j));
    assert Located(scan, q.members, r);
    var k :| 0 <= k < |q.sym| && q.sym[k] == r;
    assert e == Shifted(q.sym[k], base);
  }

  /** e is an entry for a member from lo up to hi. */
  ghost predicate HitsIn(scan: Record -> Scan, ms: seq<Record>, base: nat, lo: nat, hi: nat, e: Symref) {
    exists i: nat :: lo <= i < hi && Hits(scan, ms, base, i, e)
  }

  /** One queue's part of the table, read against the whole archive. */
  lemma QueueHits(scan: Record -> Scan, before: seq<Record>, q: Queue, after: seq<Record>, base: nat, n: nat, e: Symref)
    requires n == |EncodeAll(before)| && Indexed(scan, q)
    ensures Tabled(q.sym, base + n, e) <==>
            HitsIn(scan, before + q.members + after, base, |before|, |before| + |q.members|, e)
  {
    if Tabled(q.sym, base + n, e) {
      var j := TabledHits(scan, q, base + n, e);
      HitsHere(scan, before, q.members, after, base, j, e);
    }
    if i: nat :| |before| <= i < |before| + |q.members| && Hits(scan, before + q.members + after, base, i, e) {
      HitsHere(scan, before, q.members, after, base, i - |before|, e);
      HitTabled(scan, q, base + n, i - |before|, e);
    }
  }

  lemma SplitHits(scan: Record -> Scan, ms: seq<Record>, b: nat, n1: nat, n2: nat, e: Symref)
    requires n1 <= n2 <= |ms|
    ensures HitsIn(scan, ms, b, 0, n1, e) || HitsIn(scan, ms, b, n1, n2, e) || HitsIn(scan, ms, b, n2, |ms|, e)
            <==> HitsIn(scan, ms, b, 0, |ms|, e)
  {
  }

  lemma LayoutHits(scan: Record -> Scan, l: Layout, b: nat, n1: nat, n2: nat, all: seq<Record>, e: Symref)
    requires AllIndexed(scan, l) && n1 == l.start.Length() && n2 == l.middle.Length() && all == l.All()
    ensures Tabled(l.start.sym, b, e) || Tabled(l.middle.sym, b + n1, e) || Tabled(l.end.sym, b + n1 + n2, e)
            <==> HitsIn(scan, all, b, 0, |all|, e)
  {
    var s, m, t := l.start.members, l.middle.members, l.end.members;
    StartHits(scan, l, b, all, e);
    QueueHits(scan, s, l.middle, t, b, n1, e);
    EndHits(scan, l, b, n1, n2, all, e);
    SplitHits(scan, all, b, |s|, |s + m|, e);
  }

  lemma StartHits(scan: Record -> Scan, l: Layout, b: nat, all: seq<Record>, e: Symref)
    requires Indexed(scan, l.start) && all == l.All()
    ensures Tabled(l.start.sym, b, e) <==> HitsIn(scan, all, b, 0, |l.start.members|, e)
  {
    assert [] + l.start.members + (l.middle.members + l.end.members) == all;
    QueueHits(scan, [], l.start, l.middle.members + l.end.members, b, 0, e);
  }

  lemma EndHits(scan: Record -> Scan, l: Layout, b: nat, n1: nat, n2: nat, all: seq<Record>, e: Symref)
    requires Indexed(scan, l.end) && n1 == l.start.Length() && n2 == l.middle.Length() && all == l.All()
    ensures Tabled(l.end.sym, b + n1 + n2, e) <==>
            HitsIn(scan, all, b, |l.start.members + l.middle.members|, |all|, e)
  {
    var front := l.start.members + l.middle.members;
    assert front + l.end.members + [] == all;
    EncodeConcat(l.start.members, l.middle.members);
    QueueHits(scan, front, l.end, [], b, n1 + n2, e);
  }

  lemma InFour(a: seq<Symref>, b: seq<Symref>, c: seq<Symref>, d: seq<Symref>, e: Symref)
    ensures e in a + (b + (c + d)) <==> e in a || e in b || e in c || e in d
  {
  }

  lemma ThreeTables(r1: seq<Symref>, r2: seq<Symref>, r3: seq<Symref>, b1: nat, b2: nat, b3: nat, rest: string,
                    t: string,
                    e: Symref)
    requires CNames(r1) && CNames(r2) && CNames(r3)
    requires t == Table(r1, b1) + Table(r2, b2) + Table(r3, b3) + rest && ParseTable(rest) == []
    ensures e in ParseTable(t) <==> Tabled(r1, b1, e) || Tabled(r2, b2, e) || Tabled(r3, b3, e)
  {
    var t1, t2, t3 := Table(r1, b1), Table(r2, b2), Table(r3, b3);
    Regroup(t1 + t2, t3, rest);
    Regroup(t1, t2, t3 + rest);
    TableRoundTrip(r1, b1, t2 + (t3 + rest));
    TableRoundTrip(r2, b2, t3 + rest);
    TableRoundTrip(r3, b3, rest);
    PlacedIs(r1, b1, e);
    PlacedIs(r2, b2, e);
    PlacedIs(r3, b3, e);
    InFour(Placed(r1, b1), Placed(r2, b2), Placed(r3, b3), ParseTable(rest), e);
  }

  /**
    The entries of the symbol table are exactly the exported symbols of the members, each
    at the place in the archive of a member that defines it, up to the 32 bits written.
   */
  lemma EntriesHitMembers(scan: Record -> Scan, l: Layout, e: Symref)
    requires AllIndexed(scan, l)
    ensures e in ParseTable(Tables(l) + Pad(l.SymdefSize())) <==>
            HitsIn(scan, l.All(), Base(l.SymdefSize()), 0, |l.All()|, e)
  {
    var size, n1, n2 := l.SymdefSize(), l.start.Length(), l.middle.Length();
    TabledEntries(l, Base(size), n1, n2, size, Tables(l) + Pad(size), e);
    LayoutHits(scan, l, Base(size), n1, n2, l.All(), e);
  }

  lemma TabledEntries(l: Layout, b: nat, n1: nat, n2: nat, size: nat, t: string, e: Symref)
    requires CNames(l.start.sym) && CNames(l.middle.sym) && CNames(l.end.sym)
             && t == TablesFrom(l, b, n1, n2) + Pad(size)
    ensures e in ParseTable(t) <==>
            Tabled(l.start.sym, b, e) || Tabled(l.middle.sym, b + n1, e) || Tabled(l.end.sym, b + n1 + n2, e)
  {
    PadParses(size);
    ThreeTables(l.start.sym, l.middle.sym, l.end.sym, b, b + n1, b + n1 + n2, Pad(size), t, e);
  }

  lemma FrontLength(l: Layout, date: nat)
    requires l.SymdefSize() < LONG_MAX
    ensures |Front(l, date)| == Base(l.SymdefSize())
  {
    SymdefSound(l, date);
  }

  lemma SuffixOf(a: string, b: string, c: string)
    ensures (a + (b + c))[|a| + |b|..] == c
  {
  }

  lemma StandsAt(front: string, ms: seq<Record>, i: nat)
    requires i <= |ms|
    ensures |front| + Position(ms, i) <= |front + EncodeAll(ms)|
    ensures (front + EncodeAll(ms))[|front| + Position(ms, i)..] == EncodeAll(ms[i..])
  {
    EncodeConcat(ms[..i], ms[i..]);
    assert ms[..i] + ms[i..] == ms;
    SuffixOf(front, EncodeAll(ms[..i]), EncodeAll(ms[i..]));
  }

  /** The place an entry gives is where the archive holds that member and all that follow it. */
  lemma MemberStandsAt(l: Layout, date: nat, i: nat)
    requires i <= |l.All()| && l.SymdefSize() < LONG_MAX
    ensures var at, a := Base(l.SymdefSize()) + Position(l.All(), i), Archive(l, date, true);
            at <= |a| && a[at..] == EncodeAll(l.All()[i..])
  {
    FrontLength(l, date);
    StandsAt(Front(l, date), l.All(), i);
  }

  /** At e.offset, where member i stands, getdir finds the header of member i, which exports e. */
  predicate Finds(scan: Record -> Scan, a: string, ms: seq<Record>, base: nat, i: nat, e: Symref) {
    && i < |ms| && e.offset == base + Position(ms, i) <= |a|
    && Getdir(a[e.offset..]) == Dir(ms[i].hdr, ms[i].size)
    && Sym(e.kind, e.name) in Syms(scan(ms[i])) && Exported(Sym(e.kind, e.name))
  }

  /** The archive holds member i and all that follow it where the layout puts it. */
  predicate Stands(a: string, ms: seq<Record>, base: nat, i: nat)
    requires i < |ms|
  {
    base + Position(ms, i) <= |a| && a[base + Position(ms, i)..] == EncodeAll(ms[i..])
  }

  lemma HitFinds(scan: Record -> Scan, a: string, ms: seq<Record>, base: nat, i: nat, e: Symref)
    requires AllSound(ms) && |a| < 0x1_0000_0000 && i < |ms| && Stands(a, ms, base, i)
    ensures Hits(scan, ms, base, i, e) <==> Finds(scan, a, ms, base, i, e)
  {
    HeaderAt(ms, i);
    FindsThere(scan, a, ms, base, i, e);
  }

  lemma FindsThere(scan: Record -> Scan, a: string, ms: seq<Record>, base: nat, i: nat, e: Symref)
    requires i < |ms| && base + Position(ms, i) <= |a| < 0x1_0000_0000
    requires Getdir(a[base + Position(ms, i)..]) == Dir(ms[i].hdr, ms[i].size)
    ensures Hits(scan, ms, base, i, e) <==> Finds(scan, a, ms, base, i, e)
  {
    assert Low32(base + Position(ms, i)) == base + Position(ms, i);
  }

  lemma HeaderAt(ms: seq<Record>, i: nat)
    requires AllSound(ms) && i < |ms|
    ensures Getdir(EncodeAll(ms[i..])) == Dir(ms[i].hdr, ms[i].size)
  {
    GetdirEncoded(ms[i], EncodeAll(ms[i..][1..]));
  }

  /**
    In an installed archive below 2^32 bytes the entries of the symbol table are exactly the
    exported symbols, and getdir at an entry's offset finds a member that exports it.
   */
  lemma EntriesFindMembers(scan: Record -> Scan, l: Layout, date: nat, e: Symref)
    requires AllIndexed(scan, l) && AllSound(l.All()) && l.SymdefSize() < LONG_MAX
    requires |Archive(l, date, true)| < 0x1_0000_0000
    ensures e in ParseTable(Tables(l) + Pad(l.SymdefSize())) <==>
            exists i: nat :: Finds(scan, Archive(l, date, true), l.All(), Base(l.SymdefSize()), i, e)
  {
    EntriesHitMembers(scan, l, e);
    AllStand(l, date, Archive(l, date, true), l.All(), Base(l.SymdefSize()));
    HitsFind(scan, Archive(l, date, true), l.All(), Base(l.SymdefSize()), e);
  }

  lemma AllStand(l: Layout, date: nat, a: string, ms: seq<Record>, base: nat)
    requires l.SymdefSize() < LONG_MAX && a == Archive(l, date, true) && ms == l.All() && base == Base(l.SymdefSize())
    ensures forall i: nat :: i < |ms| ==> Stands(a, ms, base, i)
  {
    forall i: nat | i < |ms| ensures Stands(a, ms, base, i) {
      MemberStandsAt(l, date, i);
    }
  }

  lemma HitsFind(scan: Record -> Scan, a: string, ms: seq<Record>, base: nat, e: Symref)
    requires AllSound(ms) && |a| < 0x1_0000_0000 && forall i: nat :: i < |ms| ==> Stands(a, ms, base, i)
    ensures HitsIn(scan, ms, base, 0, |ms|, e) <==> exists i: nat :: Finds(scan, a, ms, base, i, e)
  {
    if i: nat :| 0 <= i < |ms| && Hits(scan, ms, base, i, e) {
      HitFinds(scan, a, ms, base, i, e);
    }
    if i: nat :| Finds(scan, a, ms, base, i, e) {
      HitFinds(scan, a, ms, base, i, e);
    }
  }

  /** Reading the archive shows the symbol table, when there is one, and then every member. */
  lemma ArchiveListing(l: Layout, date: nat, allobj: bool)
    requires AllSound(l.All()) && l.SymdefSize() < LONG_MAX
    ensures var body := Tables(l) + Pad(l.SymdefSize());
            Walk(Archive(l, date, allobj)[|ARMAG|..]) ==
            Listed((if allobj then [Seen(SYMDEF, |body|, body)] else []) + SeenAll(l.All()))
  {
    if allobj {
      var table := SymdefRecord(Tables(l), date);
      SymdefSound(l, date);
      Regroup(ARMAG, Encode(table), EncodeAll(l.All()));
      FrontedListing(table, l.All());
    } else {
      WalkRecovers(l.All());
    }
  }

  lemma FrontedListing(table: Record, ms: seq<Record>)
    requires Sound(table) && AllSound(ms)
    ensures Walk(Encode(table) + EncodeAll(ms)) == Listed([SeenOf(table)] + SeenAll(ms))
  {
    EncodeConcat([table], ms);
    EncodeOne(table);
    WalkRecovers([table] + ms);
    assert ([table] + ms)[1..] == ms;
  }
}
