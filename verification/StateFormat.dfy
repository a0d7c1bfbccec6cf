/**
 The plugin's saved-state format: two strings, then five optional sections, each absent exactly when the stream ends
 where it would begin.
 */
module StateFormat {
  import opened Wrappers

  type Byte = x: int | 0 <= x < 256

  type Bytes = seq<Byte>

  type U32 = x: int | 0 <= x < 0x1_0000_0000

  function ToU32(n: nat): U32 {
    n % 0x1_0000_0000
  }

  // ── Words and strings ──

  function PrintU32(n: U32): (b: Bytes)
    ensures |b| == 4
  {
    [n % 256, n / 256 % 256, n / 65536 % 256, n / 16777216]
  }

  /** Little-endian value of the first four bytes. */
  function U32At(b: Bytes): U32
    requires |b| >= 4
  {
    b[0] as int + 256 * b[1] as int + 65536 * b[2] as int + 16777216 * b[3] as int
  }

  /** Digit `i` of `n` to base 256, the lowest first. */
  function Digit256(n: nat, i: nat): Byte
    decreases i
  {
    if i == 0 then n % 256 else Digit256(n / 256, i - 1)
  }

  /** The four lowest digits, lowest first. */
  function LittleEndian(n: nat): (b: Bytes)
    ensures |b| == 4 && b[0] == n % 256
  {
    seq(4, i requires 0 <= i < 4 => Digit256(n, i))
  }

  /** The number whose digits to base 256 are `b`, lowest first. */
  function ValueOf(b: Bytes): nat {
    if b == [] then 0 else b[0] + 256 * ValueOf(b[1..])
  }

  /** Words are printed little-endian, and numbers that do not fit lose their higher digits. */
  lemma PrintIsLittleEndian(n: nat)
    ensures PrintU32(ToU32(n)) == LittleEndian(n)
  {
    var m := ToU32(n);
    assert Digit256(n, 1) == Digit256(n / 256, 0) && Digit256(n, 2) == Digit256(n / 256 / 256, 0);
    assert Digit256(n, 3) == Digit256(n / 256 / 256, 1) == n / 256 / 256 / 256 % 256;
    LowDigits(n);
    assert forall i :: 0 <= i < 4 ==> PrintU32(m)[i] == LittleEndian(n)[i];
  }

  lemma LowDigits(n: nat)
    ensures var m := n % 0x1_0000_0000;
            && m % 256 == n % 256 && m / 256 % 256 == n / 256 % 256
            && m / 65536 % 256 == n / 256 / 256 % 256 && m / 16777216 == n / 256 / 256 / 256 % 256
  {
    var m, n1, n2, n3 := n % 0x1_0000_0000, n / 256, n / 256 / 256, n / 256 / 256 / 256;
    var b0, b1, b2, b3, q := n % 256, n1 % 256, n2 % 256, n3 % 256, n3 / 256;
    assert n == 256 * n1 + b0 && n1 == 256 * n2 + b1 && n2 == 256 * n3 + b2 && n3 == 256 * q + b3;
    WholeWord(n, b0 + 256 * b1 + 65536 * b2 + 16777216 * b3, q);
    DigitsOf(m, b0, b1, b2, b3);
  }

  lemma WholeWord(n: nat, m: nat, q: nat)
    requires m < 0x1_0000_0000 && n == m + 0x1_0000_0000 * q
    ensures n % 0x1_0000_0000 == m
  {}

  lemma DigitsOf(m: nat, b0: nat, b1: nat, b2: nat, b3: nat)
    requires b0 < 256 && b1 < 256 && b2 < 256 && b3 < 256 && m == b0 + 256 * b1 + 65536 * b2 + 16777216 * b3
    ensures m % 256 == b0 && m / 256 % 256 == b1 && m / 65536 % 256 == b2 && m / 16777216 == b3
  {
    assert m / 256 == b1 + 256 * b2 + 65536 * b3 && m / 65536 == b2 + 256 * b3;
  }

  /** And read back little-endian. */
  lemma ReadIsLittleEndian(b: Bytes)
    requires |b| >= 4
    ensures U32At(b) == ValueOf(b[..4])
  {
    var w := b[..4];
    assert w[1..][1..][1..] == [b[3]] && w[1..][1..] == [b[2], b[3]] && w[1..] == [b[1], b[2], b[3]];
    assert [b[3]][1..] == [];
    assert ValueOf([b[3]]) == b[3] as int && ValueOf([b[2], b[3]]) == b[2] as int + 256 * b[3] as int;
  }

  lemma U32RoundTrip(n: U32, rest: Bytes)
    ensures U32At(PrintU32(n) + rest) == n && (PrintU32(n) + rest)[4..] == rest
  {
    assert n / 65536 == n / 256 / 256 && n / 16777216 == n / 256 / 256 / 256;
  }

  function PrintWords(ws: seq<U32>): (b: Bytes)
    ensures |b| == 4 * |ws|
  {
    if ws == [] then [] else PrintU32(ws[0]) + PrintWords(ws[1..])
  }

  datatype Parse<+T> = Parse(value: T, rest: Bytes)

  function ParseWords(b: Bytes, m: nat): (r: Option<Parse<seq<U32>>>)
    ensures r.Some? <==> |b| >= 4 * m
    ensures r.Some? ==> |r.value.value| == m && r.value.rest == b[4 * m..]
    decreases m
  {
    if m == 0 then Some(Parse([], b))
    else if |b| < 4 then None
    else
      match ParseWords(b[4..], m - 1)
      case None => None
      case Some(Parse(ws, rest)) => Some(Parse([U32At(b)] + ws, rest))
  }

  lemma {:induction false} WordsRoundTrip(ws: seq<U32>, rest: Bytes)
    ensures ParseWords(PrintWords(ws) + rest, |ws|) == Some(Parse(ws, rest))
  {
    if ws != [] {
      var b := PrintWords(ws) + rest;
      assert b == PrintU32(ws[0]) + (PrintWords(ws[1..]) + rest);
      U32RoundTrip(ws[0], PrintWords(ws[1..]) + rest);
      WordsRoundTrip(ws[1..], rest);
      assert [ws[0]] + ws[1..] == ws;
    } else {
      assert PrintWords(ws) + rest == rest;
    }
  }

  function PrintString(s: Bytes): (b: Bytes)
    ensures |b| == 4 + |s|
  {
    PrintU32(ToU32(|s|)) + s
  }

  /** Which byte strings decode as text. */
  type Utf8 = Bytes -> bool

  function ParseString(b: Bytes, utf8: Utf8): Option<Parse<Bytes>> {
    if |b| < 4 || |b| < 4 + U32At(b) then None
    else
      var s := b[4..4 + U32At(b)];
      if utf8(s) then Some(Parse(s, b[4 + U32At(b)..])) else None
  }

  predicate ShortText(s: Bytes, utf8: Utf8) {
    |s| < 0x1_0000_0000 && utf8(s)
  }

  lemma StringRoundTrip(s: Bytes, rest: Bytes, utf8: Utf8)
    requires ShortText(s, utf8)
    ensures ParseString(PrintString(s) + rest, utf8) == Some(Parse(s, rest))
  {
    var b := PrintString(s) + rest;
    assert b == PrintU32(|s|) + (s + rest);
    U32RoundTrip(|s|, s + rest);
    assert b[4..] == s + rest;
    assert b[4..4 + |s|] == s && b[4 + |s|..] == rest;
  }

  lemma StringPrefix(s: Bytes, k: nat, utf8: Utf8)
    requires ShortText(s, utf8) && k < |PrintString(s)|
    ensures ParseString(PrintString(s)[..k], utf8) == None
  {
    hide U32At, PrintU32;
    if k >= 4 {
      assert PrintString(s)[..k] == PrintU32(|s|) + s[..k - 4];
      U32RoundTrip(|s|, s[..k - 4]);
    }
  }

  // ── Records: a name and a fixed number of words ──

  datatype Record = Record(name: Bytes, words: seq<U32>)

  function PrintRecord(r: Record): (b: Bytes)
    ensures |b| == 4 + |r.name| + 4 * |r.words|
  {
    PrintString(r.name) + PrintWords(r.words)
  }

  function ParseRecord(b: Bytes, m: nat, utf8: Utf8): Option<Parse<Record>> {
    match ParseString(b, utf8)
    case None => None
    case Some(Parse(name, rest)) =>
      match ParseWords(rest, m)
      case None => None
      case Some(Parse(ws, rest')) => Some(Parse(Record(name, ws), rest'))
  }

  predicate GoodRecord(r: Record, m: nat, utf8: Utf8) {
    ShortText(r.name, utf8) && |r.words| == m
  }

  lemma RecordRoundTrip(r: Record, rest: Bytes, m: nat, utf8: Utf8)
    requires GoodRecord(r, m, utf8)
    ensures ParseRecord(PrintRecord(r) + rest, m, utf8) == Some(Parse(r, rest))
  {
    hide PrintString, PrintWords, ParseString, ParseWords;
    assert PrintRecord(r) + rest == PrintString(r.name) + (PrintWords(r.words) + rest);
    StringRoundTrip(r.name, PrintWords(r.words) + rest, utf8);
    WordsRoundTrip(r.words, rest);
  }

  lemma RecordPrefix(r: Record, k: nat, m: nat, utf8: Utf8)
    requires GoodRecord(r, m, utf8) && k < |PrintRecord(r)|
    ensures ParseRecord(PrintRecord(r)[..k], m, utf8) == None
  {
    hide PrintString, PrintWords, ParseString, ParseWords;
    var n := |PrintString(r.name)|;
    if k < n {
      assert PrintRecord(r)[..k] == PrintString(r.name)[..k];
      StringPrefix(r.name, k, utf8);
    } else {
      assert PrintRecord(r)[..k] == PrintString(r.name) + PrintWords(r.words)[..k - n];
      StringRoundTrip(r.name, PrintWords(r.words)[..k - n], utf8);
    }
  }

  function PrintRecords(rs: seq<Record>): Bytes {
    if rs == [] then [] else PrintRecord(rs[0]) + PrintRecords(rs[1..])
  }

  function ParseRecords(b: Bytes, count: nat, m: nat, utf8: Utf8, done: seq<Record>): Option<Parse<seq<Record>>>
    decreases count
  {
    if count == 0 then Some(Parse(done, b))
    else
      match ParseRecord(b, m, utf8)
      case None => None
      case Some(Parse(r, rest)) => ParseRecords(rest, count - 1, m, utf8, done + [r])
  }

  predicate GoodRecords(rs: seq<Record>, m: nat, utf8: Utf8) {
    |rs| < 0x1_0000_0000 && forall i :: 0 <= i < |rs| ==> GoodRecord(rs[i], m, utf8)
  }

  lemma {:induction false} RecordsRoundTrip(rs: seq<Record>, rest: Bytes, m: nat, utf8: Utf8, done: seq<Record>)
    requires GoodRecords(rs, m, utf8)
    ensures ParseRecords(PrintRecords(rs) + rest, |rs|, m, utf8, done) == Some(Parse(done + rs, rest))
    decreases |rs|
  {
    hide ParseRecord, PrintRecord;
    if rs == [] {
      assert PrintRecords(rs) + rest == rest && done + rs == done;
    } else {
      assert PrintRecords(rs) + rest == PrintRecord(rs[0]) + (PrintRecords(rs[1..]) + rest);
      RecordRoundTrip(rs[0], PrintRecords(rs[1..]) + rest, m, utf8);
      RecordsRoundTrip(rs[1..], rest, m, utf8, done + [rs[0]]);
      assert done + [rs[0]] + rs[1..] == done + rs;
    }
  }

  lemma {:induction false} RecordsPrefix(rs: seq<Record>, k: nat, m: nat, utf8: Utf8, done: seq<Record>)
    requires GoodRecords(rs, m, utf8) && k < |PrintRecords(rs)|
    ensures ParseRecords(PrintRecords(rs)[..k], |rs|, m, utf8, done) == None
    decreases |rs|
  {
    hide ParseRecord, PrintRecord;
    var n := |PrintRecord(rs[0])|;
    var b := PrintRecords(rs);
    if k < n {
      assert b[..k] == PrintRecord(rs[0])[..k];
      RecordPrefix(rs[0], k, m, utf8);
    } else {
      assert b[..k] == PrintRecord(rs[0]) + PrintRecords(rs[1..])[..k - n];
      RecordRoundTrip(rs[0], PrintRecords(rs[1..])[..k - n], m, utf8);
      RecordsPrefix(rs[1..], k - n, m, utf8, done + [rs[0]]);
    }
  }

  // ── Sections ──

  /** A counted list of records with `m` words each, or the two words of the window size. */
  datatype Kind = Listed(m: nat) | Window

  datatype Section = Absent | Records(rs: seq<Record>) | Size(width: U32, height: U32)

  predicate Fits(s: Section, kind: Kind, utf8: Utf8) {
    match kind
    case Listed(m) => s.Records? && GoodRecords(s.rs, m, utf8)
    case Window => s.Size?
  }

  function PrintSection(s: Section): Bytes {
    match s
    case Absent => []
    case Records(rs) => PrintU32(ToU32(|rs|)) + PrintRecords(rs)
    case Size(w, h) => PrintU32(w) + PrintU32(h)
  }

  /** Nothing left at the start of a section means that it is absent; anything short of a whole section is an error. */
  function ParseSection(b: Bytes, kind: Kind, utf8: Utf8): Option<Parse<Section>> {
    if b == [] then Some(Parse(Absent, []))
    else
      match kind
      case Listed(m) =>
        (if |b| < 4 then None
         else
           match ParseRecords(b[4..], U32At(b), m, utf8, [])
           case None => None
           case Some(Parse(rs, rest)) => Some(Parse(Records(rs), rest)))
      case Window => if |b| < 8 then None else Some(Parse(Size(U32At(b), U32At(b[4..])), b[8..]))
  }

  lemma SectionRoundTrip(s: Section, rest: Bytes, kind: Kind, utf8: Utf8)
    requires Fits(s, kind, utf8)
    ensures ParseSection(PrintSection(s) + rest, kind, utf8) == Some(Parse(s, rest)) && |PrintSection(s)| >= 4
  {
    hide U32At, PrintU32, ParseRecords, PrintRecords;
    var b := PrintSection(s) + rest;
    match s {
      case Records(rs) =>
        assert b == PrintU32(|rs|) + (PrintRecords(rs) + rest);
        U32RoundTrip(|rs|, PrintRecords(rs) + rest);
        RecordsRoundTrip(rs, rest, kind.m, utf8, []);
        assert [] + rs == rs;
      case Size(w, h) =>
        assert b == PrintU32(w) + (PrintU32(h) + rest);
        U32RoundTrip(w, PrintU32(h) + rest);
        U32RoundTrip(h, rest);
        assert b[8..] == b[4..][4..];
    }
  }

  lemma SectionPrefix(s: Section, k: nat, kind: Kind, utf8: Utf8)
    requires Fits(s, kind, utf8) && 0 < k < |PrintSection(s)|
    ensures ParseSection(PrintSection(s)[..k], kind, utf8) == None
  {
    hide U32At, PrintU32, ParseRecords, PrintRecords;
    var b := PrintSection(s);
    if k >= 4 && s.Records? {
      var rs := s.rs;
      assert b[..k] == PrintU32(|rs|) + PrintRecords(rs)[..k - 4];
      U32RoundTrip(|rs|, PrintRecords(rs)[..k - 4]);
      RecordsPrefix(rs, k - 4, kind.m, utf8, []);
    }
  }

  function PrintSections(ss: seq<Section>): Bytes {
    if ss == [] then [] else PrintSection(ss[0]) + PrintSections(ss[1..])
  }

  function ParseSections(b: Bytes, kinds: seq<Kind>, utf8: Utf8): (r: Option<seq<Section>>)
    ensures r.Some? ==> |r.value| == |kinds|
    decreases |kinds|
  {
    if kinds == [] then Some([])
    else
      match ParseSection(b, kinds[0], utf8)
      case None => None
      case Some(Parse(s, rest)) =>
        match ParseSections(rest, kinds[1..], utf8)
        case None => None
        case Some(ss) => Some([s] + ss)
  }

  predicate AllFit(ss: seq<Section>, kinds: seq<Kind>, utf8: Utf8) {
    |ss| == |kinds| && forall i :: 0 <= i < |ss| ==> Fits(ss[i], kinds[i], utf8)
  }

  /** The first `j` sections as they are, the others absent. */
  function Upto(ss: seq<Section>, j: nat): (r: seq<Section>)
    requires j <= |ss|
    ensures |r| == |ss|
  {
    seq(|ss|, i requires 0 <= i < |ss| => if i < j then ss[i] else Absent)
  }

  lemma {:induction false} AllAbsent(kinds: seq<Kind>, utf8: Utf8, ss: seq<Section>)
    requires |ss| == |kinds|
    ensures ParseSections([], kinds, utf8) == Some(Upto(ss, 0))
    decreases |kinds|
  {
    if kinds != [] {
      AllAbsent(kinds[1..], utf8, ss[1..]);
      assert [Absent] + Upto(ss[1..], 0) == Upto(ss, 0);
    } else {
      assert Upto(ss, 0) == [];
    }
  }

  /** Sections cut off at a boundary, then possibly followed by more bytes that nothing reads. */
  lemma {:induction false} SectionsRoundTrip(ss: seq<Section>, kinds: seq<Kind>, utf8: Utf8, j: nat)
    requires AllFit(ss, kinds, utf8) && j <= |ss|
    ensures ParseSections(PrintSections(ss[..j]), kinds, utf8) == Some(Upto(ss, j))
    decreases |ss|
  {
    hide ParseSection, PrintSection, Fits;
    if j == 0 {
      AllAbsent(kinds, utf8, ss);
    } else {
      assert ss[..j][0] == ss[0] && ss[..j][1..] == ss[1..][..j - 1];
      SectionRoundTrip(ss[0], PrintSections(ss[1..][..j - 1]), kinds[0], utf8);
      SectionsRoundTrip(ss[1..], kinds[1..], utf8, j - 1);
      assert [ss[0]] + Upto(ss[1..], j - 1) == Upto(ss, j);
    }
  }

  /** The number of bytes before section `j`. */
  function Boundary(ss: seq<Section>, j: nat): nat
    requires j <= |ss|
  {
    |PrintSections(ss[..j])|
  }

  lemma BoundaryStep(ss: seq<Section>, j: nat)
    requires 0 < j <= |ss|
    ensures Boundary(ss, j) == |PrintSection(ss[0])| + Boundary(ss[1..], j - 1)
  {
    assert ss[..j][0] == ss[0] && ss[..j][1..] == ss[1..][..j - 1];
  }

  lemma {:induction false} BoundaryCuts(ss: seq<Section>, j: nat)
    requires j <= |ss|
    ensures Boundary(ss, j) <= |PrintSections(ss)| && PrintSections(ss)[..Boundary(ss, j)] == PrintSections(ss[..j])
    decreases |ss|
  {
    if j > 0 {
      BoundaryStep(ss, j);
      BoundaryCuts(ss[1..], j - 1);
      assert ss[..j][0] == ss[0] && ss[..j][1..] == ss[1..][..j - 1];
    }
  }

  /** A proper prefix that ends inside a section is rejected. */
  lemma {:induction false} SectionsPrefix(ss: seq<Section>, kinds: seq<Kind>, utf8: Utf8, k: nat)
    requires AllFit(ss, kinds, utf8) && k <= |PrintSections(ss)|
    requires forall j :: 0 <= j <= |ss| ==> k != Boundary(ss, j)
    ensures ParseSections(PrintSections(ss)[..k], kinds, utf8) == None
    decreases |ss|
  {
    hide ParseSection, PrintSection, Fits;
    assert Boundary(ss, 0) == 0;
    if ss != [] {
      var n := |PrintSection(ss[0])|;
      var b := PrintSections(ss);
      if k < n {
        assert b[..k] == PrintSection(ss[0])[..k];
        SectionPrefix(ss[0], k, kinds[0], utf8);
      } else {
        assert b[..k] == PrintSection(ss[0]) + PrintSections(ss[1..])[..k - n];
        SectionRoundTrip(ss[0], PrintSections(ss[1..])[..k - n], kinds[0], utf8);
        forall j | 0 <= j <= |ss| - 1 ensures k - n != Boundary(ss[1..], j) {
          BoundaryStep(ss, j + 1);
          assert k != Boundary(ss, j + 1);
        }
        SectionsPrefix(ss[1..], kinds[1..], utf8, k - n);
      }
    }
  }
}
