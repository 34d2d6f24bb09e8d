/**
  The symbol table of an archive (ar.c: objsym, rl, wrsym). Offsets are computed while
  the members are queued, before any of them is placed in the archive.
 */
module ArSymdef {
  import opened ArFormat
  import opened ArQueue

  datatype Sym = Sym(kind: char, name: string)

  /** What the object reader finds in a member. */
  datatype Scan = NotObject | Object(arch: nat, syms: seq<Sym>)

  predicate Exported(s: Sym) { s.kind == 'T' || s.kind == 'D' }

  function Syms(sc: Scan): seq<Sym> { if sc.Object? then sc.syms else [] }

  /** objsym on each symbol in turn: the newest is at the head of the chain. */
  function PushAll(chain: seq<Symref>, syms: seq<Sym>, offset: nat): seq<Symref> {
    if syms == [] then chain
    else
      var s, rest := syms[|syms| - 1], PushAll(chain, syms[..|syms| - 1], offset);
      if Exported(s) then [Symref(s.kind, s.name, offset)] + rest else rest
  }

  lemma PushStep(chain: seq<Symref>, syms: seq<Sym>, k: nat, offset: nat)
    requires k < |syms|
    ensures var s, rest := syms[k], PushAll(chain, syms[..k], offset);
            PushAll(chain, syms[..k + 1], offset) ==
            if Exported(s) then [Symref(s.kind, s.name, offset)] + rest else rest
  {
    assert syms[..k + 1][..k] == syms[..k];
  }

  /** Where member i of a queue starts. */
  function Position(ms: seq<Record>, i: nat): nat
    requires i <= |ms|
  {
    |EncodeAll(ms[..i])|
  }

  /** The symbol chain of a queue holding ms. */
  function Refs(scan: Record -> Scan, ms: seq<Record>): seq<Symref> {
    if ms == [] then []
    else
      var n := |ms| - 1;
      PushAll(Refs(scan, ms[..n]), Syms(scan(ms[n])), Position(ms, n))
  }

  /** r names a symbol that member i exports and gives the place of member i. */
  predicate PointsAt(scan: Record -> Scan, ms: seq<Record>, i: nat, r: Symref) {
    i < |ms| && r.offset == Position(ms, i) && Sym(r.kind, r.name) in Syms(scan(ms[i])) && Exported(Sym(r.kind, r.name))
  }

  ghost predicate Located(scan: Record -> Scan, ms: seq<Record>, r: Symref) {
    exists i: nat :: PointsAt(scan, ms, i, r)
  }

  lemma {:induction false} PushAllHas(chain: seq<Symref>, syms: seq<Sym>, offset: nat, r: Symref)
    ensures r in PushAll(chain, syms, offset) <==>
            r in chain || (r.offset == offset && Sym(r.kind, r.name) in syms && Exported(Sym(r.kind, r.name)))
  {
    if syms != [] {
      var n := |syms| - 1;
      PushAllHas(chain, syms[..n], offset, r);
      assert syms == syms[..n] + [syms[n]];
    }
  }

  lemma PointsAtPrefix(scan: Record -> Scan, ms: seq<Record>, i: nat, n: nat, r: Symref)
    requires i < n <= |ms|
    ensures PointsAt(scan, ms[..n], i, r) <==> PointsAt(scan, ms, i, r)
  {
    assert ms[..n][..i] == ms[..i];
  }

  /** The chain holds exactly the exported symbols, each with the place of a member that defines it. */
  lemma {:induction false} RefsLocated(scan: Record -> Scan, ms: seq<Record>, r: Symref)
    ensures r in Refs(scan, ms) <==> Located(scan, ms, r)
    decreases |ms|
  {
    if ms != [] {
      var n := |ms| - 1;
      var p := ms[..n];
      RefsLocated(scan, p, r);
      PushAllHas(Refs(scan, p), Syms(scan(ms[n])), Position(ms, n), r);
      if Located(scan, p, r) {
        var i: nat :| PointsAt(scan, p, i, r);
        PointsAtPrefix(scan, ms, i, n, r);
      } else if Located(scan, ms, r) {
        var i: nat :| PointsAt(scan, ms, i, r);
        if i < n { PointsAtPrefix(scan, ms, i, n, r); }
      }
      assert PointsAt(scan, ms, n, r) ==> Located(scan, ms, r);
    }
  }

  // ----- the table as bytes

  /** What fits in the four bytes of an entry. */
  function Low32(n: nat): nat { n % 0x1_0000_0000 }

  function Byte(n: nat): char { (n % 256) as char }

  function LittleEndian(off: nat): string {
    [Byte(off), Byte(off / 0x100), Byte(off / 0x1_0000), Byte(off / 0x100_0000)]
  }

  function Word(b: string): nat
    requires |b| == 4
  {
    b[0] as nat + b[1] as nat * 0x100 + b[2] as nat * 0x1_0000 + b[3] as nat * 0x100_0000
  }

  lemma Quotients(off: nat, b: nat, c: nat, d: nat)
    requires b == off / 0x100 && c == b / 0x100 && d == c / 0x100
    ensures off / 0x1_0000 == c && off / 0x100_0000 == d
  {
  }

  lemma Low32Sum(x0: nat, x1: nat, x2: nat, x3: nat, top: nat)
    requires x0 < 0x100 && x1 < 0x100 && x2 < 0x100 && x3 < 0x100
    ensures (x0 + x1 * 0x100 + x2 * 0x1_0000 + x3 * 0x100_0000 + top * 0x1_0000_0000) % 0x1_0000_0000
         == x0 + x1 * 0x100 + x2 * 0x1_0000 + x3 * 0x100_0000
  {
  }

  lemma WordRoundTrip(off: nat)
    ensures Word(LittleEndian(off)) == Low32(off)
  {
    var b := off / 0x100;
    var c := b / 0x100;
    var d := c / 0x100;
    Quotients(off, b, c, d);
    Low32Sum(off % 0x100, b % 0x100, c % 0x100, d % 0x100, d / 0x100);
  }

  function SymBytes(r: Symref, base: nat): string { [r.kind] + LittleEndian(r.offset + base) + r.name + "\0" }

  function Table(refs: seq<Symref>, base: nat): string {
    if refs == [] then "" else SymBytes(refs[0], base) + Table(refs[1..], base)
  }

  /** What objsym adds to symdefsize for these symbols. */
  function TableSize(refs: seq<Symref>): nat {
    if refs == [] then 0 else 4 + (|refs[0].name| + 1) + 1 + TableSize(refs[1..])
  }

  lemma {:induction false} TableLength(refs: seq<Symref>, base: nat)
    ensures |Table(refs, base)| == TableSize(refs)
  {
    if refs != [] { TableLength(refs[1..], base); }
  }

  lemma {:induction false} TableSnoc(refs: seq<Symref>, r: Symref, base: nat)
    ensures Table(refs + [r], base) == Table(refs, base) + SymBytes(r, base)
  {
    if refs == [] {
      assert refs + [r] == [r] && [r][1..] == [];
    } else {
      TableSnoc(refs[1..], r, base);
      assert (refs + [r])[1..] == refs[1..] + [r];
      Regroup(SymBytes(refs[0], base), Table(refs[1..], base), SymBytes(r, base));
    }
  }

  method Wrsym(offset: nat, syms: seq<Symref>) returns (out: string)
    ensures out == Table(syms, offset)
  {
    out := "";
    for k := 0 to |syms|
      invariant out == Table(syms[..k], offset)
    {
      var off := syms[k].offset + offset;
      assert syms[..k + 1] == syms[..k] + [syms[k]];
      TableSnoc(syms[..k], syms[k], offset);
      out := out + ([syms[k].kind] + LittleEndian(off) + syms[k].name + "\0");
    }
    assert syms[..|syms|] == syms;
  }

  function Pad(n: nat): string { if n % 2 == 1 then "\0" else "" }

  /** A reader of the table: entries until fewer bytes are left than an entry needs. */
  function ParseTable(b: string): seq<Symref> {
    if |b| < 6 || '\0' !in b[5..] then []
    else
      var name := CString(b[5..]);
      CStringShort(b[5..]);
      [Symref(b[0], name, Word(b[1..5]))] + ParseTable(b[5 + |name| + 1..])
  }

  lemma {:induction false} CStringShort(s: string)
    ensures '\0' in s ==> |CString(s)| < |s|
  {
    if s != "" && s[0] != '\0' { CStringShort(s[1..]); }
  }

  lemma {:induction false} CStringOf(name: string, rest: string)
    requires '\0' !in name
    ensures CString(name + ("\0" + rest)) == name
  {
    if name != "" {
      CStringOf(name[1..], rest);
      assert (name + ("\0" + rest))[1..] == name[1..] + ("\0" + rest);
    }
  }

  /** A symbol as its entry gives it, when its queue starts at base. */
  function Shifted(r: Symref, base: nat): Symref { r.(offset := Low32(r.offset + base)) }

  function Placed(refs: seq<Symref>, base: nat): (r: seq<Symref>)
    ensures |r| == |refs|
    ensures forall k :: 0 <= k < |refs| ==> r[k] == Shifted(refs[k], base)
  {
    if refs == [] then []
    else [Shifted(refs[0], base)] + Placed(refs[1..], base)
  }

  lemma PadParses(n: nat)
    ensures ParseTable(Pad(n)) == []
  {
  }

  predicate CNames(refs: seq<Symref>) { forall k :: 0 <= k < |refs| ==> '\0' !in refs[k].name }

  lemma ParseParts(b: string, kind: char, w: string, name: string, rest: string)
    requires |w| == 4 && '\0' !in name && b == [kind] + w + (name + ("\0" + rest))
    ensures ParseTable(b) == [Symref(kind, name, Word(w))] + ParseTable(rest)
  {
    var tail := name + ("\0" + rest);
    assert b[5..] == tail && b[1..5] == w && b[0] == kind;
    assert tail[|name|] == '\0';
    CStringOf(name, rest);
    assert b[5 + |name| + 1..] == rest;
  }

  lemma ParseOne(r: Symref, base: nat, rest: string)
    requires '\0' !in r.name
    ensures ParseTable(SymBytes(r, base) + rest) == [Shifted(r, base)] + ParseTable(rest)
  {
    var b, w := SymBytes(r, base) + rest, LittleEndian(r.offset + base);
    assert b == [r.kind] + w + (r.name + ("\0" + rest));
    ParseParts(b, r.kind, w, r.name, rest);
    WordRoundTrip(r.offset + base);
  }

  /** Reading the table back gives every symbol with its offset, modulo the 32 bits written. */
  lemma {:induction false} TableRoundTrip(refs: seq<Symref>, base: nat, rest: string)
    requires CNames(refs)
    ensures ParseTable(Table(refs, base) + rest) == Placed(refs, base) + ParseTable(rest)
  {
    if refs == [] {
      assert Table(refs, base) + rest == rest;
    } else {
      var more := Table(refs[1..], base);
      Regroup(SymBytes(refs[0], base), more, rest);
      ParseOne(refs[0], base, more + rest);
      TableRoundTrip(refs[1..], base, rest);
    }
  }
}
