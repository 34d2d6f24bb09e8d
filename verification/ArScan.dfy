/**
  What ar learns from scanning the members (ar.c: scanobj, objsym, duplicate), and the
  allocations this takes. Each allocation may fail and is tried again while a member in
  memory can be spilled to make room.
 */
module ArScan {
  import opened ArFormat
  import opened ArSymdef

  // ----- what the scan of the members comes to

  function TextNames(syms: seq<Sym>): seq<string> {
    if syms == [] then []
    else
      var s := syms[|syms| - 1];
      TextNames(syms[..|syms| - 1]) + if s.kind == 'T' then [s.name] else []
  }

  function AllTexts(scan: Record -> Scan, ms: seq<Record>): seq<string> {
    if ms == [] then [] else AllTexts(scan, ms[..|ms| - 1]) + TextNames(Syms(scan(ms[|ms| - 1])))
  }

  /** objtype: negative for what is not an object file. */
  function Arch(sc: Scan): int { if sc.Object? then sc.arch else -1 }

  /** Every member is an object, all for the same machine. */
  predicate Uniform(scan: Record -> Scan, ms: seq<Record>) {
    forall i :: 0 <= i < |ms| ==> 0 <= Arch(scan(ms[i])) == Arch(scan(ms[0]))
  }

  predicate HasRepeat(names: seq<string>) {
    exists i, j :: 0 <= i < j < |names| && names[i] == names[j]
  }

  lemma RepeatSnoc(names: seq<string>, x: string)
    ensures HasRepeat(names + [x]) <==> HasRepeat(names) || x in names
  {
    var more := names + [x];
    if HasRepeat(names) {
      var i, j :| 0 <= i < j < |names| && names[i] == names[j];
      assert more[i] == more[j];
    }
    if x in names {
      var i :| 0 <= i < |names| && names[i] == x;
      assert more[i] == more[|names|];
    }
  }

  lemma UniformSnoc(scan: Record -> Scan, ms: seq<Record>, r: Record)
    ensures Uniform(scan, ms + [r]) <==>
            Uniform(scan, ms) && 0 <= Arch(scan(r)) && (ms != [] ==> Arch(scan(r)) == Arch(scan(ms[0])))
  {
    var more := ms + [r];
    assert more[|ms|] == r;
    assert forall i :: 0 <= i < |ms| ==> more[i] == ms[i];
  }

  lemma TextStep(names: seq<string>, syms: seq<Sym>, k: nat)
    requires k < |syms|
    ensures var before, after := names + TextNames(syms[..k]), names + TextNames(syms[..k + 1]);
            if syms[k].kind == 'T' then
              (forall x :: x in after <==> x in before || x == syms[k].name)
              && (HasRepeat(after) <==> HasRepeat(before) || syms[k].name in before)
            else after == before
  {
    var before, after := names + TextNames(syms[..k]), names + TextNames(syms[..k + 1]);
    assert syms[..k + 1][..k] == syms[..k];
    if syms[k].kind == 'T' {
      assert after == before + [syms[k].name];
      RepeatSnoc(before, syms[k].name);
    }
  }

  // ----- allocations

  /** How often the first n allocations fail altogether. */
  function Fails(memory: seq<nat>, n: nat): nat {
    if n == 0 then 0 else Fails(memory, n - 1) + if n <= |memory| then memory[n - 1] else 0
  }

  lemma {:induction false} FailsGrow(memory: seq<nat>, m: nat, n: nat)
    requires m <= n
    ensures Fails(memory, m) <= Fails(memory, n)
  {
    if m < n { FailsGrow(memory, m, n - 1); }
  }

  /** What is left of the failures after n allocations. */
  function Coming(memory: seq<nat>, n: nat): seq<nat> { if n <= |memory| then memory[n..] else [] }

  /** objsym: a symbol and its name, and a place in the hash table for a new text symbol. */
  function SymAsks(s: Sym, known: seq<string>): nat {
    if !Exported(s) then 0 else if s.kind == 'T' && s.name !in known then 3 else 2
  }

  function SymsAsks(syms: seq<Sym>, known: seq<string>): nat {
    if syms == [] then 0
    else
      var n := |syms| - 1;
      SymsAsks(syms[..n], known) + SymAsks(syms[n], known + TextNames(syms[..n]))
  }

  lemma {:induction false} SymsAsksGrow(syms: seq<Sym>, known: seq<string>, n: nat)
    requires n <= |syms|
    ensures SymsAsks(syms[..n], known) <= SymsAsks(syms, known)
  {
    if n == |syms| {
      assert syms[..n] == syms;
    } else {
      SymsAsksGrow(syms[..|syms| - 1], known, n);
      assert syms[..|syms| - 1][..n] == syms[..n];
    }
  }

  lemma AsksStep(memory: seq<nat>, syms: seq<Sym>, known: seq<string>, k: nat, base: nat)
    requires k < |syms|
    ensures SymsAsks(syms[..k + 1], known) ==
            SymsAsks(syms[..k], known) + SymAsks(syms[k], known + TextNames(syms[..k]))
    ensures Fails(memory, base + SymsAsks(syms[..k + 1], known)) <= Fails(memory, base + SymsAsks(syms, known))
  {
    assert syms[..k + 1][..k] == syms[..k];
    SymsAsksGrow(syms, known, k + 1);
    FailsGrow(memory, base + SymsAsks(syms[..k + 1], known), base + SymsAsks(syms, known));
  }

  /** scanobj: nothing is kept of the symbols once a member is no object or one for another machine. */
  function ScanAsks(scan: Record -> Scan, taken: seq<Record>, rec: Record): nat {
    if Uniform(scan, taken + [rec]) then SymsAsks(Syms(scan(rec)), AllTexts(scan, taken)) else 0
  }
}
