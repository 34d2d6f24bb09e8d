/**
  The archive format of ar (ar.c: HEADER_IO, getdir, armove, arwrite, skip). A member
  is a header of fixed text fields, then the body padded to an even length.
  Bytes are chars.
 */
module ArFormat {
  const ARMAG := "!<arch>\n"
  const ARFMAG := "`\n"
  const SYMDEF := "__.SYMDEF"
  const SAR_HDR := 60
  const LONG_MAX := 0x7fff_ffff

  datatype Header =
    Header(name: string, date: string, uid: string, gid: string, mode: string, size: string, fmag: string)
  {
    predicate Valid() {
      |name| == 16 && |date| == 12 && |uid| == 6 && |gid| == 6 && |mode| == 8 && |size| == 10 && fmag == ARFMAG
    }

    function Bytes(): string { name + date + uid + gid + mode + size + fmag }
  }

  /** An Armember: its header, its size, and the bytes held for it. */
  datatype Record = Record(hdr: Header, size: nat, member: string)

  function Even(n: nat): nat { n + n % 2 }

  predicate Sound(r: Record) {
    r.hdr.Valid() && Strtol(r.hdr.size + r.hdr.fmag) == r.size && |r.member| == Even(r.size)
  }

  predicate AllSound(ms: seq<Record>) { forall i {:trigger Sound(ms[i])} :: 0 <= i < |ms| ==> Sound(ms[i]) }

  /** arwrite */
  function Encode(r: Record): string { r.hdr.Bytes() + r.member }

  function EncodeAll(ms: seq<Record>): string {
    if ms == [] then "" else Encode(ms[0]) + EncodeAll(ms[1..])
  }

  lemma Regroup(x: string, y: string, z: string)
    ensures x + (y + z) == (x + y) + z
  {
  }

  lemma {:induction false} EncodeConcat(a: seq<Record>, b: seq<Record>)
    ensures EncodeAll(a + b) == EncodeAll(a) + EncodeAll(b)
  {
    if a == [] {
      assert a + b == b;
    } else {
      var r, rest := a[0], a[1..];
      EncodeConcat(rest, b);
      assert (a + b)[0] == r && (a + b)[1..] == rest + b;
      assert EncodeAll(a + b) == Encode(r) + EncodeAll(rest + b);
      Regroup(Encode(r), EncodeAll(rest), EncodeAll(b));
    }
  }

  lemma EncodeOne(r: Record)
    ensures EncodeAll([r]) == Encode(r)
  {
    assert [r][1..] == [];
  }

  lemma EncodeSnoc(ms: seq<Record>, r: Record)
    ensures EncodeAll(ms + [r]) == EncodeAll(ms) + Encode(r)
  {
    EncodeConcat(ms, [r]);
    EncodeOne(r);
  }

  lemma EncodeLength(r: Record)
    requires Sound(r)
    ensures |Encode(r)| == SAR_HDR + Even(r.size)
  {
  }

  // ----- numbers in the header

  function Decimal(n: nat): string {
    if n < 10 then [DigitChar(n)] else Decimal(n / 10) + [DigitChar(n % 10)]
  }

  function Octal(n: nat): string {
    if n < 8 then [DigitChar(n)] else Octal(n / 8) + [DigitChar(n % 8)]
  }

  function DigitChar(d: nat): char
    requires d < 10
  {
    '0' + d as char
  }

  /** The value of c as a digit, or 36 when it is none. */
  function DigitOf(c: char): nat {
    if '0' <= c <= '9' then (c - '0') as nat
    else if 'a' <= c <= 'z' then (c - 'a') as nat + 10
    else if 'A' <= c <= 'Z' then (c - 'A') as nat + 10
    else 36
  }

  /** The digits of s up to the first that is none, after acc. */
  function Digits(s: string, base: nat, acc: nat): nat {
    if s == "" || DigitOf(s[0]) >= base then acc else Digits(s[1..], base, acc * base + DigitOf(s[0]))
  }

  function Unsigned(s: string): nat {
    if |s| >= 2 && s[0] == '0' && (s[1] == 'x' || s[1] == 'X') then Digits(s[2..], 16, 0)
    else if s != "" && s[0] == '0' then Digits(s, 8, 0)
    else Digits(s, 10, 0)
  }

  function Clamp(n: int): int {
    if n > LONG_MAX then LONG_MAX else if n < -LONG_MAX - 1 then -LONG_MAX - 1 else n
  }

  /** strtol(s, 0, 0), which saturates: a long has 32 bits. */
  function Strtol(s: string): int {
    if s != "" && (s[0] == ' ' || '\t' <= s[0] <= '\r') then Strtol(s[1..])
    else if s != "" && s[0] == '-' then Clamp(0 - Unsigned(s[1..]))
    else if s != "" && s[0] == '+' then Clamp(Unsigned(s[1..]))
    else Clamp(Unsigned(s))
  }

  function Blanks(n: nat): string { if n == 0 then "" else Blanks(n - 1) + " " }

  /** Left-justified in a field of the given width; wider text is cut, as strncpy cuts a name. */
  function Field(s: string, width: nat): (r: string)
    ensures |r| == width
  {
    if |s| >= width then s[..width] else BlanksLength(width - |s|); s + Blanks(width - |s|)
  }

  lemma {:induction false} BlanksLength(n: nat)
    ensures |Blanks(n)| == n && forall i :: 0 <= i < n ==> Blanks(n)[i] == ' '
  {
    if n > 0 { BlanksLength(n - 1); }
  }

  function Power(base: nat, k: nat): nat { if k == 0 then 1 else base * Power(base, k - 1) }

  lemma {:induction false} DecimalDigits(n: nat)
    ensures Decimal(n) != "" && forall i :: 0 <= i < |Decimal(n)| ==> '0' <= Decimal(n)[i] <= '9'
    ensures Decimal(n)[0] == '0' ==> Decimal(n) == "0"
  {
    if n >= 10 { DecimalDigits(n / 10); }
  }

  lemma {:induction false} DecimalWidth(n: nat, k: nat)
    requires n < Power(10, k) && k > 0
    ensures |Decimal(n)| <= k
  {
    if n >= 10 {
      assert k > 1 by { assert Power(10, 1) == 10 * Power(10, 0); }
      DecimalWidth(n / 10, k - 1);
    }
  }

  /** Reading d, a digit string, then rest: the digits of d are the leading ones. */
  lemma {:induction false} DigitsSplit(d: string, rest: string, base: nat, acc: nat)
    requires forall i :: 0 <= i < |d| ==> DigitOf(d[i]) < base
    ensures Digits(d + rest, base, acc) == Digits(rest, base, Digits(d, base, acc))
  {
    if d == "" {
      assert d + rest == rest;
    } else {
      assert (d + rest)[1..] == d[1..] + rest;
      DigitsSplit(d[1..], rest, base, acc * base + DigitOf(d[0]));
    }
  }

  lemma {:induction false} DigitsOfDecimal(n: nat)
    ensures Digits(Decimal(n), 10, 0) == n
  {
    DecimalDigits(n);
    if n < 10 {
      assert Decimal(n)[1..] == "";
    } else {
      var last := [DigitChar(n % 10)];
      DecimalDigits(n / 10);
      DigitsOfDecimal(n / 10);
      DigitsSplit(Decimal(n / 10), last, 10, 0);
      assert last[1..] == "";
    }
  }

  /** What follows the digits in a header field is a blank or the magic, so a field reads back. */
  lemma StrtolDecimal(n: nat, rest: string)
    requires rest == "" || rest[0] == ' ' || rest[0] == '`'
    ensures Strtol(Decimal(n) + rest) == if n > LONG_MAX then LONG_MAX else n
  {
    var d := Decimal(n);
    DecimalDigits(n);
    DigitsOfDecimal(n);
    UnsignedDigits(d, rest, n, d + rest);
    StrtolDigit(d + rest, n);
  }

  lemma UnsignedDigits(d: string, rest: string, n: nat, t: string)
    requires rest == "" || rest[0] == ' ' || rest[0] == '`'
    requires d != "" && (forall i :: 0 <= i < |d| ==> '0' <= d[i] <= '9') && t == d + rest
    requires Digits(d, 10, 0) == n && (d[0] == '0' ==> d == "0")
    ensures Unsigned(t) == n
  {
    if d[0] == '0' {
      assert t[1..] == rest;
      assert Digits(t, 8, 0) == Digits(rest, 8, 0) == 0;
    } else {
      DigitsSplit(d, rest, 10, 0);
    }
  }

  lemma StrtolDigit(t: string, n: nat)
    requires t != "" && '0' <= t[0] <= '9' && Unsigned(t) == n
    ensures Strtol(t) == Clamp(n)
  {
  }

  // ----- names

  /** getdir drops trailing blanks and slashes. */
  function Strip(s: string): string {
    if s != "" && (s[|s| - 1] == ' ' || s[|s| - 1] == '/') then Strip(s[..|s| - 1]) else s
  }

  predicate NoTail(s: string) { s != "" ==> s[|s| - 1] != ' ' && s[|s| - 1] != '/' }

  function CString(s: string): string {
    if s == "" || s[0] == '\0' then "" else [s[0]] + CString(s[1..])
  }

  /** The name found in a header: a NUL ends it and keeps its blanks. */
  function NameOf(h: Header): string { if '\0' in h.name then CString(h.name) else Strip(h.name) }

  lemma {:induction false} StripBlanks(s: string, k: nat)
    ensures Strip(s + Blanks(k)) == Strip(s)
  {
    if k == 0 {
      assert s + Blanks(0) == s;
    } else {
      var t := s + Blanks(k);
      assert t[..|t| - 1] == s + Blanks(k - 1);
      StripBlanks(s, k - 1);
    }
  }

  lemma {:induction false} StripLast(s: string)
    ensures NoTail(Strip(s)) && |Strip(s)| <= |s|
  {
    if s != "" && (s[|s| - 1] == ' ' || s[|s| - 1] == '/') { StripLast(s[..|s| - 1]); }
  }

  // ----- making a header

  /** The file that a member is made from. */
  datatype File = File(name: string, date: nat, mode: nat, body: string)

  /** armove's header: the modification time is 32 bits wide, so every field fits. */
  function HeaderOf(f: File): Header {
    Header(Field(f.name, 16), Field(Decimal(f.date), 12), Field("0", 6), Field("0", 6),
           Field(Octal(f.mode), 8), Field(Decimal(|f.body|), 10), ARFMAG)
  }

  /** armove reads exactly the body; the pad byte is whatever lies behind it. */
  function Made(f: File, pad: char): Record {
    Record(HeaderOf(f), |f.body|, f.body + if |f.body| % 2 == 1 then [pad] else "")
  }

  lemma MadeSound(f: File, pad: char)
    requires |f.body| <= LONG_MAX
    ensures Sound(Made(f, pad))
  {
    var h, n := HeaderOf(f), |f.body|;
    assert Power(10, 10) == 10_000_000_000;
    DecimalWidth(n, 10);
    var d := Decimal(n);
    DecimalDigits(n);
    if |d| == 10 {
      assert h.size + h.fmag == d + ARFMAG;
      StrtolDecimal(n, ARFMAG);
    } else {
      var k := 10 - |d|;
      BlanksLength(k);
      assert h.size + h.fmag == d + (Blanks(k) + ARFMAG);
      StrtolDecimal(n, Blanks(k) + ARFMAG);
    }
  }

  /** A name of up to 16 characters is found again exactly when it does not end in a blank or a slash. */
  lemma NameRecovered(f: File)
    requires |f.name| <= 16 && '\0' !in f.name
    ensures NameOf(HeaderOf(f)) == f.name <==> NoTail(f.name)
  {
    var k := 16 - |f.name|;
    BlanksLength(k);
    assert Field(f.name, 16) == f.name + Blanks(k) by {
      if k == 0 { assert f.name + Blanks(0) == f.name[..16]; }
    }
    assert '\0' !in f.name + Blanks(k);
    StripBlanks(f.name, k);
    StripLast(f.name);
  }

  // ----- reading an archive back

  datatype Entry = Eof | Phase | Dir(hdr: Header, size: int)

  /** getdir at the start of b. */
  function Getdir(b: string): Entry {
    if |b| < SAR_HDR then Eof
    else
      var h := Header(b[..16], b[16..28], b[28..34], b[34..40], b[40..48], b[48..58], b[58..60]);
      if h.fmag != ARFMAG then Phase else Dir(h, Strtol(h.size + h.fmag))
  }

  /** skip: past the body and its padding, or to the end. */
  function Skip(b: string, size: nat): string
    requires |b| >= SAR_HDR
  {
    if SAR_HDR + Even(size) <= |b| then b[SAR_HDR + Even(size)..] else ""
  }

  /** A member as a reader of the archive sees it. */
  datatype Seen = Seen(name: string, size: nat, body: string)

  function SeenOf(r: Record): Seen
    requires Sound(r)
  {
    Seen(NameOf(r.hdr), r.size, r.member[..r.size])
  }

  datatype Listing = Bad | Listed(seen: seq<Seen>)

  /** getdir and skip to the end; a wrong magic, a short body or a negative size is not an archive. */
  function Walk(b: string): Listing
    decreases |b|
  {
    match Getdir(b)
    case Eof => Listed([])
    case Phase => Bad
    case Dir(h, size) =>
      if size < 0 || SAR_HDR + size > |b| then Bad
      else
        match Walk(Skip(b, size))
        case Bad => Bad
        case Listed(seen) => Listed([Seen(NameOf(h), size, b[SAR_HDR..SAR_HDR + size])] + seen)
  }

  /** getdir finds the header that arwrite wrote, and skip lands on what follows the member. */
  lemma GetdirEncoded(r: Record, rest: string)
    requires Sound(r)
    ensures Getdir(Encode(r) + rest) == Dir(r.hdr, r.size)
    ensures Skip(Encode(r) + rest, r.size) == rest
    ensures (Encode(r) + rest)[SAR_HDR..SAR_HDR + Even(r.size)] == r.member
  {
    var b, h := Encode(r) + rest, r.hdr;
    assert b == h.name + (h.date + (h.uid + (h.gid + (h.mode + (h.size + (h.fmag + (r.member + rest)))))));
    assert b[..16] == h.name;
    assert b[16..28] == h.date;
    assert b[28..34] == h.uid;
    assert b[34..40] == h.gid;
    assert b[40..48] == h.mode;
    assert b[48..58] == h.size;
    assert b[58..60] == h.fmag;
  }

  function SeenAll(ms: seq<Record>): (r: seq<Seen>)
    requires AllSound(ms)
    ensures |r| == |ms| && forall i :: 0 <= i < |ms| ==> r[i] == SeenOf(ms[i])
  {
    if ms == [] then [] else [SeenOf(ms[0])] + SeenAll(ms[1..])
  }

  /** Walking what was written shows every member's name, size and body, in order. */
  lemma {:induction false} WalkRecovers(ms: seq<Record>)
    requires AllSound(ms)
    ensures Walk(EncodeAll(ms)) == Listed(SeenAll(ms))
  {
    if ms != [] {
      var r, rest := ms[0], EncodeAll(ms[1..]);
      GetdirEncoded(r, rest);
      WalkRecovers(ms[1..]);
      var b := Encode(r) + rest;
      assert b[SAR_HDR..SAR_HDR + r.size] == b[SAR_HDR..SAR_HDR + Even(r.size)][..r.size];
    }
  }
}
