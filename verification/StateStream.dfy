/** Saving to and loading from host streams that split, stall or fail as they please. */
module StateStream {
  import opened Wrappers
  import opened StateFormat
  import opened StateCodec

  /** The host's output stream: takes any positive part of what is offered, stalls, or fails. */
  class OutStream {
    var written: Bytes
    /** Zero returns since the last progress; the host never makes more than `maxStalls` in a row. */
    var stalls: nat
    const maxStalls: nat
    /** The host never reports a fatal error. */
    const reliable: bool

    constructor (reliable: bool, maxStalls: nat)
      ensures written == [] && stalls == 0 && this.reliable == reliable && this.maxStalls == maxStalls
    {
      this.reliable, this.maxStalls := reliable, maxStalls;
      written, stalls := [], 0;
    }

    predicate Patient() {
      reliable && maxStalls <= 16
    }

    method Write(data: Bytes, offset: nat) returns (n: int)
      requires offset < |data|
      modifies this
      ensures n <= |data| - offset
      ensures written == old(written) + data[offset..offset + if n > 0 then n else 0]
      ensures n > 0 ==> stalls == 0
      ensures n == 0 ==> stalls == old(stalls) + 1 <= maxStalls
      ensures reliable ==> n >= 0
    {
      var stall: bool, fail: bool := *, *;
      if stall && stalls < maxStalls {
        stalls := stalls + 1;
        return 0;
      }
      if fail && !reliable {
        return -1;
      }
      n :| 0 < n <= |data| - offset;
      written := written + data[offset..offset + n];
      stalls := 0;
    }
  }

  /** All of `data`, whatever the splits; a patient host always gets it. */
  method StreamWriteAll(stream: OutStream, data: Bytes) returns (ok: bool)
    requires stream.stalls == 0
    modifies stream
    ensures ok ==> stream.written == old(stream.written) + data && stream.stalls == 0
    ensures stream.Patient() ==> ok
  {
    var offset, zeroRetries := 0, 0;
    while offset < |data|
      invariant offset <= |data| && stream.stalls == zeroRetries <= 16
      invariant offset == |data| ==> zeroRetries == 0
      invariant stream.written == old(stream.written) + data[..offset]
      decreases |data| - offset, 17 - zeroRetries
    {
      var n := stream.Write(data, offset);
      if n < 0 {
        return false;
      }
      if n == 0 {
        zeroRetries := zeroRetries + 1;
        if zeroRetries > 16 {
          return false;
        }
        assert data[offset..offset + 0] == [];
        continue;
      }
      assert data[..offset + n] == data[..offset] + data[offset..offset + n];
      zeroRetries := 0;
      offset := offset + n;
    }
    assert data[..offset] == data;
    ok := true;
  }

  method WriteLengthPrefixed(stream: OutStream, data: Bytes) returns (ok: bool)
    requires stream.stalls == 0
    modifies stream
    ensures ok ==> stream.written == old(stream.written) + PrintString(data) && stream.stalls == 0
    ensures ok ==> stream.written == old(stream.written) + LittleEndian(|data|) + data
    ensures stream.Patient() ==> ok
  {
    hide PrintU32, ToU32, LittleEndian;
    PrintIsLittleEndian(|data|);
    ok := StreamWriteAll(stream, PrintU32(ToU32(|data|)));
    if !ok {
      return false;
    }
    if |data| != 0 {
      ok := StreamWriteAll(stream, data);
    }
  }

  /** One name with its words, as each loop body of the save writes it. */
  method WriteRecord(stream: OutStream, name: Bytes, words: seq<U32>) returns (ok: bool)
    requires stream.stalls == 0
    modifies stream
    ensures ok ==> stream.written == old(stream.written) + PrintRecord(Record(name, words)) && stream.stalls == 0
    ensures stream.Patient() ==> ok
  {
    hide PrintU32, PrintString;
    ok := WriteLengthPrefixed(stream, name);
    if !ok {
      return false;
    }
    for i := 0 to |words|
      invariant stream.written + PrintWords(words[i..]) == old(stream.written) + PrintRecord(Record(name, words))
      invariant stream.stalls == 0
    {
      assert words[i..][1..] == words[i + 1..];
      ok := StreamWriteAll(stream, PrintU32(words[i]));
      if !ok {
        return false;
      }
    }
    assert words[|words|..] == [];
    ok := true;
  }

  method WriteSection(stream: OutStream, rs: seq<Record>) returns (ok: bool)
    requires stream.stalls == 0
    modifies stream
    ensures ok ==> stream.written == old(stream.written) + PrintSection(Records(rs)) && stream.stalls == 0
    ensures stream.Patient() ==> ok
  {
    hide PrintU32, PrintRecord, PrintRecords, ToU32;
    ok := StreamWriteAll(stream, PrintU32(ToU32(|rs|)));
    if !ok {
      return false;
    }
    ghost var target := stream.written + PrintRecords(rs);
    assert rs[0..] == rs;
    for i := 0 to |rs|
      invariant stream.written + PrintRecords(rs[i..]) == target && stream.stalls == 0
    {
      RecordsFrom(stream.written, rs, i);
      ok := WriteRecord(stream, rs[i].name, rs[i].words);
      if !ok {
        return false;
      }
    }
    RecordsEnd(stream.written, rs);
    ok := true;
  }

  lemma RecordsFrom(start: Bytes, rs: seq<Record>, i: nat)
    requires i < |rs|
    ensures start + PrintRecords(rs[i..])
            == start + PrintRecord(Record(rs[i].name, rs[i].words)) + PrintRecords(rs[i + 1..])
  {
    hide PrintRecord;
    assert rs[i..][1..] == rs[i + 1..] && Record(rs[i].name, rs[i].words) == rs[i];
    assert PrintRecords(rs[i..]) == PrintRecord(rs[i]) + PrintRecords(rs[i + 1..]);
  }

  lemma RecordsEnd(start: Bytes, rs: seq<Record>)
    ensures start + PrintRecords(rs[|rs|..]) == start
  {
    assert rs[|rs|..] == [];
  }

  // ── Saving ──

  /** The cached host-control values with the live ones over them. */
  function Merged(cache: map<Bytes, U32>, live: seq<(Bytes, U32)>): map<Bytes, U32> {
    if live == [] then cache
    else Merged(cache, live[..|live| - 1])[live[|live| - 1].0 := live[|live| - 1].1]
  }

  /** The state as it is saved: its host controls are the cached and the live ones. */
  function WithLive(s: State, live: seq<(Bytes, U32)>): State {
    s.(hostControls := Merged(s.hostControls, live))
  }

  /** Live values win; a control that is not live keeps its cached value; there are no others. */
  lemma {:induction false} LiveWins(cache: map<Bytes, U32>, live: seq<(Bytes, U32)>)
    requires forall i, j :: 0 <= i < j < |live| ==> live[i].0 != live[j].0
    ensures forall i :: 0 <= i < |live| ==>
              live[i].0 in Merged(cache, live) && Merged(cache, live)[live[i].0] == live[i].1
    ensures forall k :: k in Merged(cache, live) <==> k in cache || exists i :: 0 <= i < |live| && live[i].0 == k
    ensures forall k :: k in cache && (forall i :: 0 <= i < |live| ==> live[i].0 != k) ==>
              Merged(cache, live)[k] == cache[k]
  {
    if live != [] {
      LiveWins(cache, live[..|live| - 1]);
    }
  }

  method CollectHostControlsForSave(cache: map<Bytes, U32>, live: seq<(Bytes, U32)>) returns (hc: map<Bytes, U32>)
    ensures hc == Merged(cache, live)
  {
    hc := cache;
    for i := 0 to |live|
      invariant hc == Merged(cache, live[..i])
    {
      assert live[..i + 1][..i] == live[..i];
      hc := hc[live[i].0 := live[i].1];
    }
    assert live[..|live|] == live;
  }

  /** A save that reports success has written exactly the serialised state, and a patient host always gets it. */
  method StateSave(s: State, live: seq<(Bytes, U32)>, stream: OutStream, tapOrder: seq<Bytes>, hostOrder: seq<Bytes>)
    returns (ok: bool)
    requires stream.stalls == 0 && Orders(WithLive(s, live), tapOrder, hostOrder)
    modifies stream
    ensures ok ==>
              && stream.written == old(stream.written) + Serialize(WithLive(s, live), tapOrder, hostOrder)
              && stream.stalls == 0
    ensures stream.Patient() ==> ok
  {
    hide PrintString, PrintU32, PrintSection, PathRecords, TapRecords, ModeRecords, HostRecords, Serialize, Then, Unset,
         Merged;
    ghost var start, path, size := stream.written, Unset(s.filePath, []), Unset(s.windowSize, (GUI_WIDTH, GUI_HEIGHT));
    ok := WriteLengthPrefixed(stream, Unset(s.filePath, []));
    if !ok { return false; }
    ghost var done := PrintString(path);
    ok := WriteLengthPrefixed(stream, s.source);
    if !ok { return false; }
    done := Then(start, done, PrintString(s.source));
    ok := WriteSection(stream, PathRecords(s.modulePaths));
    if !ok { return false; }
    done := Then(start, done, PrintSection(Records(PathRecords(s.modulePaths))));
    ok := WriteSection(stream, TapRecords(tapOrder, s.tapOpts));
    if !ok { return false; }
    done := Then(start, done, PrintSection(Records(TapRecords(tapOrder, s.tapOpts))));
    var windowSize := Unset(s.windowSize, (GUI_WIDTH, GUI_HEIGHT));
    ok := StreamWriteAll(stream, PrintU32(windowSize.0));
    if !ok { return false; }
    done := Then(start, done, PrintU32(size.0));
    ok := StreamWriteAll(stream, PrintU32(windowSize.1));
    if !ok { return false; }
    done := Then(start, done, PrintU32(size.1));
    ok := WriteSection(stream, ModeRecords(tapOrder, s.tapOpts));
    if !ok { return false; }
    done := Then(start, done, PrintSection(Records(ModeRecords(tapOrder, s.tapOpts))));
    var hc := CollectHostControlsForSave(s.hostControls, live);
    ok := WriteSection(stream, HostRecords(hostOrder, hc));
    if !ok { return false; }
    done := Then(start, done, PrintSection(Records(HostRecords(hostOrder, hc))));
    SerializeParts(WithLive(s, live), tapOrder, hostOrder);
  }

  ghost function Then(start: Bytes, done: Bytes, more: Bytes): (r: Bytes)
    ensures r == done + more && start + done + more == start + r
  {
    done + more
  }

  lemma SerializeParts(s: State, tapOrder: seq<Bytes>, hostOrder: seq<Bytes>)
    requires Orders(s, tapOrder, hostOrder)
    ensures var size := Unset(s.windowSize, (GUI_WIDTH, GUI_HEIGHT));
            Serialize(s, tapOrder, hostOrder)
            == PrintString(Unset(s.filePath, [])) + PrintString(s.source)
               + PrintSection(Records(PathRecords(s.modulePaths)))
               + PrintSection(Records(TapRecords(tapOrder, s.tapOpts))) + PrintU32(size.0) + PrintU32(size.1)
               + PrintSection(Records(ModeRecords(tapOrder, s.tapOpts)))
               + PrintSection(Records(HostRecords(hostOrder, s.hostControls)))
  {
    hide PrintSections, PrintString, PrintRecords, PrintU32, ToU32, PathRecords, TapRecords, ModeRecords, HostRecords;
    var ss := SectionsOf(s, tapOrder, hostOrder);
    FiveSections(ss);
    SixParts(PrintString(Unset(s.filePath, [])) + PrintString(s.source), PrintSection(ss[0]), PrintSection(ss[1]),
             PrintU32(ss[2].width), PrintU32(ss[2].height), PrintSection(ss[3]), PrintSection(ss[4]));
  }

  // ── The layout of a save, byte by byte ──

  /** A text: how many bytes, and the bytes. */
  function Text(s: Bytes): Bytes {
    LittleEndian(|s|) + s
  }

  function PathsLayout(paths: seq<Bytes>): Bytes {
    if paths == [] then [] else Text(paths[0]) + PathsLayout(paths[1..])
  }

  /** Each tap's name, and its spectrum size, its decimation and its window. */
  function NumbersLayout(order: seq<Bytes>, taps: map<Bytes, TapDisplayOpts>): Bytes
    requires forall k :: k in order ==> k in taps
  {
    if order == [] then []
    else
      var o := taps[order[0]];
      Text(order[0]) + LittleEndian(o.fftSize) + LittleEndian(o.decimation) + LittleEndian(o.windowSamples)
      + NumbersLayout(order[1..], taps)
  }

  /** Each tap's name, and 1 or 0 for a snapping scope and for a heatmap. */
  function ModesLayout(order: seq<Bytes>, taps: map<Bytes, TapDisplayOpts>): Bytes
    requires forall k :: k in order ==> k in taps
  {
    if order == [] then []
    else
      var o := taps[order[0]];
      Text(order[0]) + LittleEndian(if o.snap == Snap then 1 else 0)
      + LittleEndian(if o.heatmap == Heatmap then 1 else 0)
      + ModesLayout(order[1..], taps)
  }

  function HostsLayout(order: seq<Bytes>, hosts: map<Bytes, U32>): Bytes
    requires forall k :: k in order ==> k in hosts
  {
    if order == [] then [] else Text(order[0]) + LittleEndian(hosts[order[0]]) + HostsLayout(order[1..], hosts)
  }

  lemma TextIs(s: Bytes)
    ensures PrintString(s) == Text(s)
  {
    PrintIsLittleEndian(|s|);
  }

  lemma WordIs(n: U32)
    ensures PrintU32(n) == LittleEndian(n)
  {
    PrintIsLittleEndian(n);
  }

  lemma WordsAre(ws: seq<U32>)
    ensures |ws| == 0 ==> PrintWords(ws) == []
    ensures |ws| == 1 ==> PrintWords(ws) == PrintU32(ws[0])
    ensures |ws| == 2 ==> PrintWords(ws) == PrintU32(ws[0]) + PrintU32(ws[1])
    ensures |ws| == 3 ==> PrintWords(ws) == PrintU32(ws[0]) + PrintU32(ws[1]) + PrintU32(ws[2])
  {
    hide PrintU32;
    if |ws| > 0 {
      assert PrintWords(ws) == PrintU32(ws[0]) + PrintWords(ws[1..]);
      if |ws| > 1 {
        assert PrintWords(ws[1..]) == PrintU32(ws[1]) + PrintWords(ws[2..]) by { assert ws[1..][1..] == ws[2..]; }
        if |ws| > 2 {
          assert PrintWords(ws[2..]) == PrintU32(ws[2]) + PrintWords(ws[3..]) by { assert ws[2..][1..] == ws[3..]; }
        }
      }
    }
  }

  lemma {:induction false} PathsLaidOut(paths: seq<Bytes>)
    ensures PrintRecords(PathRecords(paths)) == PathsLayout(paths)
  {
    hide PrintString, PrintU32, LittleEndian;
    if paths != [] {
      var rs := PathRecords(paths);
      assert rs[1..] == PathRecords(paths[1..]);
      PathsLaidOut(paths[1..]);
      TextIs(paths[0]);
      WordsAre(rs[0].words);
      assert PrintString(paths[0]) + [] == PrintString(paths[0]);
    }
  }

  lemma {:induction false} NumbersLaidOut(order: seq<Bytes>, taps: map<Bytes, TapDisplayOpts>)
    requires forall k :: k in order ==> k in taps
    ensures PrintRecords(TapRecords(order, taps)) == NumbersLayout(order, taps)
  {
    hide PrintString, PrintU32, LittleEndian, ToU32, PrintWords;
    if order != [] {
      var rs, o := TapRecords(order, taps), taps[order[0]];
      assert rs[1..] == TapRecords(order[1..], taps);
      NumbersLaidOut(order[1..], taps);
      TextIs(order[0]);
      WordsAre(rs[0].words);
      PrintIsLittleEndian(o.fftSize);
      PrintIsLittleEndian(o.decimation);
      PrintIsLittleEndian(o.windowSamples);
    }
  }

  lemma {:induction false} ModesLaidOut(order: seq<Bytes>, taps: map<Bytes, TapDisplayOpts>)
    requires forall k :: k in order ==> k in taps
    ensures PrintRecords(ModeRecords(order, taps)) == ModesLayout(order, taps)
  {
    hide PrintString, PrintU32, LittleEndian, PrintWords;
    if order != [] {
      var rs, o := ModeRecords(order, taps), taps[order[0]];
      assert rs[1..] == ModeRecords(order[1..], taps);
      ModesLaidOut(order[1..], taps);
      TextIs(order[0]);
      WordsAre(rs[0].words);
      WordIs(o.snap.ToWire());
      WordIs(o.heatmap.ToWire());
    }
  }

  lemma {:induction false} HostsLaidOut(order: seq<Bytes>, hosts: map<Bytes, U32>)
    requires forall k :: k in order ==> k in hosts
    ensures PrintRecords(HostRecords(order, hosts)) == HostsLayout(order, hosts)
  {
    hide PrintString, PrintU32, LittleEndian, PrintWords;
    if order != [] {
      var rs := HostRecords(order, hosts);
      assert rs[1..] == HostRecords(order[1..], hosts);
      HostsLaidOut(order[1..], hosts);
      TextIs(order[0]);
      WordsAre(rs[0].words);
      WordIs(hosts[order[0]]);
    }
  }

  /**
     What a save consists of, in order: path, source, the paths of the modules, the numbers of the taps, the width and
     the height, the modes of the taps, and the host controls. Lists begin with their lengths; every word is
     little-endian.
     */
  lemma SaveLayout(s: State, tapOrder: seq<Bytes>, hostOrder: seq<Bytes>)
    requires Orders(s, tapOrder, hostOrder)
    ensures Serialize(s, tapOrder, hostOrder)
            == Text(if s.filePath.Some? then s.filePath.value else []) + Text(s.source)
               + (LittleEndian(|s.modulePaths|) + PathsLayout(s.modulePaths))
               + (LittleEndian(|tapOrder|) + NumbersLayout(tapOrder, s.tapOpts))
               + LittleEndian(if s.windowSize.Some? then s.windowSize.value.0 else 800)
               + LittleEndian(if s.windowSize.Some? then s.windowSize.value.1 else 600)
               + (LittleEndian(|tapOrder|) + ModesLayout(tapOrder, s.tapOpts))
               + (LittleEndian(|hostOrder|) + HostsLayout(hostOrder, s.hostControls))
  {
    hide Serialize, PrintString, PrintRecords, PrintU32, ToU32, LittleEndian, PathRecords, TapRecords, ModeRecords,
         HostRecords, Text, PathsLayout, NumbersLayout, ModesLayout, HostsLayout;
    SerializeParts(s, tapOrder, hostOrder);
    TextIs(Unset(s.filePath, []));
    TextIs(s.source);
    PathsLaidOut(s.modulePaths);
    NumbersLaidOut(tapOrder, s.tapOpts);
    ModesLaidOut(tapOrder, s.tapOpts);
    HostsLaidOut(hostOrder, s.hostControls);
    PrintIsLittleEndian(|s.modulePaths|);
    PrintIsLittleEndian(|tapOrder|);
    PrintIsLittleEndian(|hostOrder|);
    var size := Unset(s.windowSize, (GUI_WIDTH, GUI_HEIGHT));
    WordIs(size.0);
    WordIs(size.1);
  }

  lemma SixParts(h: Bytes, a: Bytes, b: Bytes, c: Bytes, d: Bytes, e: Bytes, f: Bytes)
    ensures h + (a + (b + ((c + d) + (e + f)))) == h + a + b + c + d + e + f
  {}

  lemma FiveSections(ss: seq<Section>)
    requires |ss| == 5
    ensures PrintSections(ss)
            == PrintSection(ss[0])
               + (PrintSection(ss[1]) + (PrintSection(ss[2]) + (PrintSection(ss[3]) + PrintSection(ss[4]))))
  {
    hide PrintSection;
    assert PrintSections(ss[4..]) == PrintSection(ss[4]) by {
      assert ss[4..][1..] == [];
    }
    PrintFrom(ss, 3);
    PrintFrom(ss, 2);
    PrintFrom(ss, 1);
    PrintFrom(ss, 0);
    assert ss[0..] == ss;
  }

  lemma PrintFrom(ss: seq<Section>, i: nat)
    requires i < |ss|
    ensures PrintSections(ss[i..]) == PrintSection(ss[i]) + PrintSections(ss[i + 1..])
  {
    assert ss[i..][1..] == ss[i + 1..];
  }

  // ── Loading ──

  /** The host's input stream: gives a positive part of what is asked, stalls, or fails; at the end it returns zero. */
  class InStream {
    var unread: Bytes
    var stalls: nat
    const maxStalls: nat
    const reliable: bool

    constructor (data: Bytes, reliable: bool, maxStalls: nat)
      ensures unread == data && stalls == 0 && this.reliable == reliable && this.maxStalls == maxStalls
    {
      this.reliable, this.maxStalls := reliable, maxStalls;
      unread, stalls := data, 0;
    }

    predicate Patient() {
      reliable && maxStalls <= 16
    }

    /** Every read before the end makes progress. */
    predicate Steady() {
      reliable && maxStalls == 0
    }

    /** A retrying read is sure to get what is left. */
    predicate Ready()
      reads this
    {
      Steady() || (Patient() && stalls == 0)
    }

    method Read(buf: array<Byte>, offset: nat) returns (n: int)
      requires offset < buf.Length
      modifies this, buf
      ensures n <= buf.Length - offset && n <= |old(unread)|
      ensures n <= 0 ==> unread == old(unread) && buf[..] == old(buf[..])
      ensures n > 0 ==> unread == old(unread)[n..] && stalls == 0
      ensures n > 0 ==> buf[..offset] == old(buf[..offset]) && buf[offset..offset + n] == old(unread)[..n]
      ensures n == 0 ==> unread == [] || stalls == old(stalls) + 1 <= maxStalls
      ensures reliable ==> n >= 0
    {
      var stall: bool, fail: bool := *, *;
      if fail && !reliable {
        return -1;
      }
      if unread == [] {
        return 0;
      }
      if stall && stalls < maxStalls {
        stalls := stalls + 1;
        return 0;
      }
      n :| 0 < n <= buf.Length - offset && n <= |unread|;
      forall i | offset <= i < offset + n {
        buf[i] := unread[i - offset];
      }
      unread := unread[n..];
      stalls := 0;
    }
  }

  /** Fills `buf` with the next bytes, whatever the splits; fails on a short stream, never on a patient host. */
  method StreamReadAll(stream: InStream, buf: array<Byte>) returns (ok: bool)
    modifies stream, buf
    ensures ok ==> buf.Length <= |old(stream.unread)| && buf[..] == old(stream.unread)[..buf.Length]
    ensures ok ==> stream.unread == old(stream.unread)[buf.Length..]
    ensures ok && buf.Length > 0 ==> stream.stalls == 0
    ensures old(stream.Ready()) ==> (ok <==> buf.Length <= |old(stream.unread)|)
  {
    ghost var all := stream.unread;
    var offset, zeroRetries := 0, 0;
    while offset < buf.Length
      invariant offset <= buf.Length && offset <= |all| && zeroRetries <= 16
      invariant offset == buf.Length ==> zeroRetries == 0
      invariant stream.unread == all[offset..] && buf[..offset] == all[..offset]
      invariant offset > 0 && zeroRetries == 0 ==> stream.stalls == 0
      invariant buf.Length <= |all| && old(stream.stalls) == 0 ==> stream.stalls == zeroRetries
      decreases buf.Length - offset, 17 - zeroRetries
    {
      var n := stream.Read(buf, offset);
      if n < 0 {
        return false;
      }
      if n == 0 {
        zeroRetries := zeroRetries + 1;
        if zeroRetries > 16 {
          return false;
        }
        continue;
      }
      assert buf[..offset + n] == buf[..offset] + buf[offset..offset + n];
      assert all[..offset + n] == all[..offset] + all[offset..][..n];
      zeroRetries := 0;
      offset := offset + n;
    }
    assert buf[..] == buf[..offset];
    ok := true;
  }

  datatype ReadU32 = Read(value: U32) | Eof | Err

  /** What a tolerant word read finds at the front of `b`. */
  function WordAt(b: Bytes): ReadU32 {
    if b == [] then Eof else if |b| < 4 then Err else Read(U32At(b))
  }

  /** Tells a clean end from a broken word: end of stream only when the very first read gives nothing. */
  method TryReadU32(stream: InStream) returns (r: ReadU32)
    modifies stream
    ensures stream.Steady() ==> r == WordAt(old(stream.unread))
    ensures r.Read? ==>
              r == WordAt(old(stream.unread)) && stream.unread == old(stream.unread)[4..] && stream.stalls == 0
    ensures r.Read? ==> |old(stream.unread)| >= 4 && r.value == ValueOf(old(stream.unread)[..4])
    ensures r.Eof? ==> stream.unread == old(stream.unread)
  {
    hide U32At, ValueOf;
    ghost var all := stream.unread;
    var buf := new Byte[4](_ => 0);
    var offset := 0;
    while offset < 4
      invariant offset <= 4 && offset <= |all|
      invariant stream.unread == all[offset..] && buf[..offset] == all[..offset]
      invariant offset > 0 ==> stream.stalls == 0
      decreases 4 - offset
    {
      var n := stream.Read(buf, offset);
      if n == 0 && offset == 0 {
        return Eof;
      }
      if n <= 0 {
        return Err;
      }
      assert buf[..offset + n] == buf[..offset] + buf[offset..offset + n];
      assert all[..offset + n] == all[..offset] + all[offset..][..n];
      offset := offset + n;
    }
    assert buf[..] == all[..4];
    U32Front(all);
    ReadIsLittleEndian(all);
    r := Read(U32At(buf[..]));
  }

  /** The bytes a length word announces: those and no others, and always if the host is ready and they are there. */
  method ReadLengthPrefixed(stream: InStream) returns (r: Option<Bytes>)
    modifies stream
    ensures r.Some? ==> r == TextAt(old(stream.unread)) && stream.stalls == 0
    ensures r.Some? ==> stream.unread == old(stream.unread)[4 + |r.value|..]
    ensures r.Some? ==> |old(stream.unread)| >= 4 && |r.value| == ValueOf(old(stream.unread)[..4])
    ensures old(stream.Ready()) ==> r == TextAt(old(stream.unread))
  {
    hide U32At, ValueOf;
    ghost var all := stream.unread;
    var lenBytes := new Byte[4](_ => 0);
    var ok := StreamReadAll(stream, lenBytes);
    if !ok {
      return None;
    }
    var len := U32At(lenBytes[..]);
    U32Front(all);
    ReadIsLittleEndian(all);
    assert all[4..4] == [];
    if len == 0 {
      return Some([]);
    }
    var buf := new Byte[len](_ => 0);
    ok := StreamReadAll(stream, buf);
    if !ok {
      return None;
    }
    assert buf[..] == all[4..4 + len];
    r := Some(buf[..]);
  }

  lemma U32Front(b: Bytes)
    requires |b| >= 4
    ensures U32At(b[..4]) == U32At(b)
  {}

  /** The length-prefixed bytes at the front of `b`. */
  function TextAt(b: Bytes): Option<Bytes> {
    if |b| < 4 || |b| < 4 + U32At(b) then None else Some(b[4..4 + U32At(b)])
  }

  method ReadText(stream: InStream, utf8: Utf8) returns (r: Option<Bytes>)
    modifies stream
    ensures r.Some? ==>
              ParseString(old(stream.unread), utf8) == Some(Parse(r.value, stream.unread)) && stream.stalls == 0
    ensures r.None? && old(stream.Ready()) ==> ParseString(old(stream.unread), utf8) == None
  {
    hide U32At;
    r := ReadLengthPrefixed(stream);
    if r.Some? && !utf8(r.value) {
      r := None;
    }
  }

  /** A name and its words, each word read so that a stall before it is an error. */
  method ReadRecord(stream: InStream, m: nat, utf8: Utf8) returns (r: Option<Record>)
    modifies stream
    ensures r.Some? ==> ParseRecord(old(stream.unread), m, utf8) == Some(Parse(r.value, stream.unread))
    ensures r.None? && stream.Steady() ==> ParseRecord(old(stream.unread), m, utf8) == None
  {
    hide U32At, ParseString;
    var name := ReadText(stream, utf8);
    if name.None? {
      return None;
    }
    ghost var start := stream.unread;
    var words: seq<U32> := [];
    AfterNothing(start, m);
    for i := 0 to m
      invariant ParseWords(start, m) == After(words, ParseWords(stream.unread, m - i))
    {
      ghost var was := stream.unread;
      var w := TryReadU32(stream);
      AfterOne(words, was, m - i);
      if !w.Read? {
        return None;
      }
      words := words + [w.value];
    }
    AfterAll(words, stream.unread);
    r := Some(Record(name.value, words));
  }

  /** A host control's name and value; here stalls are retried throughout. */
  method ReadHostRecord(stream: InStream, utf8: Utf8) returns (r: Option<Record>)
    modifies stream
    ensures r.Some? ==>
              ParseRecord(old(stream.unread), 1, utf8) == Some(Parse(r.value, stream.unread)) && stream.stalls == 0
    ensures r.None? && old(stream.Ready()) ==> ParseRecord(old(stream.unread), 1, utf8) == None
  {
    hide U32At, ParseString;
    var name := ReadText(stream, utf8);
    if name.None? {
      return None;
    }
    ghost var start := stream.unread;
    OneWord(start);
    var buf := new Byte[4](_ => 0);
    var ok := StreamReadAll(stream, buf);
    if !ok {
      return None;
    }
    U32Front(start);
    r := Some(Record(name.value, [U32At(buf[..])]));
  }

  lemma OneWord(b: Bytes)
    ensures ParseWords(b, 1) == if |b| < 4 then None else Some(Parse([U32At(b)], b[4..]))
  {
    hide U32At;
    if |b| >= 4 {
      assert [U32At(b)] + [] == [U32At(b)];
    }
  }

  /** The words `ws` parsed before `r`. */
  ghost function After(ws: seq<U32>, r: Option<Parse<seq<U32>>>): Option<Parse<seq<U32>>> {
    match r
    case None => None
    case Some(Parse(v, rest)) => Some(Parse(ws + v, rest))
  }

  lemma AfterNothing(b: Bytes, m: nat)
    ensures After([], ParseWords(b, m)) == ParseWords(b, m)
  {
    hide U32At;
    if ParseWords(b, m).Some? {
      assert [] + ParseWords(b, m).value.value == ParseWords(b, m).value.value;
    }
  }

  lemma AfterAll(ws: seq<U32>, b: Bytes)
    ensures After(ws, ParseWords(b, 0)) == Some(Parse(ws, b))
  {
    assert ws + [] == ws;
  }

  lemma AfterOne(ws: seq<U32>, b: Bytes, m: nat)
    requires m > 0
    ensures |b| < 4 ==> ParseWords(b, m) == None
    ensures |b| >= 4 ==> After(ws, ParseWords(b, m)) == After(ws + [U32At(b)], ParseWords(b[4..], m - 1))
  {
    hide U32At;
    if |b| >= 4 && ParseWords(b[4..], m - 1).Some? {
      var v := ParseWords(b[4..], m - 1).value.value;
      assert ws + ([U32At(b)] + v) == ws + [U32At(b)] + v;
    }
  }

  // ── What a host may make of the sections ──

  /** A section as the load takes it: one whose first word it did not get is taken for absent. */
  function HeardSection(b: Bytes, kind: Kind, utf8: Utf8, heard: bool): Option<Parse<Section>> {
    if heard then ParseSection(b, kind, utf8) else Some(Parse(Absent, b))
  }

  function HeardSections(b: Bytes, kinds: seq<Kind>, utf8: Utf8, heard: seq<bool>): (r: Option<seq<Section>>)
    requires |heard| == |kinds|
    ensures r.Some? ==> |r.value| == |kinds|
    decreases |kinds|
  {
    if kinds == [] then Some([])
    else
      match HeardSection(b, kinds[0], utf8, heard[0])
      case None => None
      case Some(Parse(s, rest)) =>
        match HeardSections(rest, kinds[1..], utf8, heard[1..])
        case None => None
        case Some(ss) => Some([s] + ss)
  }

  /** The state that loads if only the sections marked in `heard` are noticed. */
  function LoadHeard(b: Bytes, utf8: Utf8, heard: seq<bool>): Option<State>
    requires |heard| == 5
  {
    match ParseString(b, utf8)
    case None => None
    case Some(Parse(path, rest)) =>
      match ParseString(rest, utf8)
      case None => None
      case Some(Parse(source, rest')) =>
        match HeardSections(rest', KINDS, utf8, heard)
        case None => None
        case Some(ss) => Some(Interpret(path, source, ss))
  }

  lemma {:induction false} AllHeard(b: Bytes, kinds: seq<Kind>, utf8: Utf8, heard: seq<bool>)
    requires |heard| == |kinds| && forall i :: 0 <= i < |heard| ==> heard[i]
    ensures HeardSections(b, kinds, utf8, heard) == ParseSections(b, kinds, utf8)
    decreases |kinds|
  {
    hide ParseSection;
    if kinds != [] {
      var p := ParseSection(b, kinds[0], utf8);
      if p.Some? {
        AllHeard(p.value.rest, kinds[1..], utf8, heard[1..]);
      }
    }
  }

  /** A section noticed whole, with `rest` after it. */
  predicate SectionRead(b: Bytes, kind: Kind, utf8: Utf8, heard: bool, rest: Bytes) {
    var p := HeardSection(b, kind, utf8, heard);
    p.Some? && p.value.rest == rest
  }

  function SectionHere(b: Bytes, kind: Kind, utf8: Utf8, heard: bool): Section {
    var p := HeardSection(b, kind, utf8, heard);
    if p.Some? then p.value.value else Absent
  }

  /** The module paths, each appended in turn. */
  method ReadModulePaths(stream: InStream, utf8: Utf8) returns (r: Option<seq<Bytes>>, ghost heard: bool)
    modifies stream
    ensures r.Some? ==> SectionRead(old(stream.unread), Listed(0), utf8, heard, stream.unread)
    ensures r.Some? ==> r.value == Names(RecordsOf(SectionHere(old(stream.unread), Listed(0), utf8, heard)))
    ensures stream.Steady() ==> heard && (r.None? ==> ParseSection(old(stream.unread), Listed(0), utf8) == None)
  {
    hide U32At, ParseRecord;
    ghost var b := stream.unread;
    assert Names([]) == [];
    var count := TryReadU32(stream);
    match count
    case Eof => return Some([]), b == [];
    case Err => return None, true;
    case Read(n) =>
      var out: seq<Bytes> := [];
      ghost var done: seq<Record> := [];
      for i := 0 to n
        invariant out == Names(done)
        invariant ParseRecords(b[4..], n, 0, utf8, []) == ParseRecords(stream.unread, n - i, 0, utf8, done)
      {
        var record := ReadRecord(stream, 0, utf8);
        if record.None? {
          return None, true;
        }
        done := done + [record.value];
        out := out + [record.value.name];
      }
      return Some(out), true;
  }

  /** The numeric display options, keyed by tap name. */
  method ReadTapOpts(stream: InStream, utf8: Utf8) returns (r: Option<map<Bytes, TapDisplayOpts>>, ghost heard: bool)
    modifies stream
    ensures r.Some? ==> SectionRead(old(stream.unread), Listed(3), utf8, heard, stream.unread)
    ensures r.Some? ==>
              r.value == AddAll(AddTap, map[], RecordsOf(SectionHere(old(stream.unread), Listed(3), utf8, heard)))
    ensures stream.Steady() ==> heard && (r.None? ==> ParseSection(old(stream.unread), Listed(3), utf8) == None)
  {
    hide U32At, ParseRecord, AddTap, AddAll;
    ghost var b := stream.unread;
    AddNothing(AddTap, map[]);
    var count := TryReadU32(stream);
    match count
    case Eof => return Some(map[]), b == [];
    case Err => return None, true;
    case Read(n) =>
      var out: map<Bytes, TapDisplayOpts> := map[];
      ghost var done: seq<Record> := [];
      for i := 0 to n
        invariant out == AddAll(AddTap, map[], done)
        invariant ParseRecords(b[4..], n, 3, utf8, []) == ParseRecords(stream.unread, n - i, 3, utf8, done)
      {
        var record := ReadRecord(stream, 3, utf8);
        if record.None? {
          return None, true;
        }
        AddLast(AddTap, map[], done, record.value);
        done := done + [record.value];
        out := AddTap(out, record.value);
      }
      return Some(out), true;
  }

  /** The display modes, merged into the options read before. */
  method ReadTapModes(stream: InStream, utf8: Utf8, start: map<Bytes, TapDisplayOpts>)
    returns (r: Option<map<Bytes, TapDisplayOpts>>, ghost heard: bool)
    modifies stream
    ensures r.Some? ==> SectionRead(old(stream.unread), Listed(2), utf8, heard, stream.unread)
    ensures r.Some? ==>
              r.value == AddAll(AddMode, start, RecordsOf(SectionHere(old(stream.unread), Listed(2), utf8, heard)))
    ensures stream.Steady() ==> heard && (r.None? ==> ParseSection(old(stream.unread), Listed(2), utf8) == None)
  {
    hide U32At, ParseRecord, AddMode, AddAll;
    ghost var b := stream.unread;
    AddNothing(AddMode, start);
    var count := TryReadU32(stream);
    match count
    case Eof => return Some(start), b == [];
    case Err => return None, true;
    case Read(n) =>
      var out: map<Bytes, TapDisplayOpts> := start;
      ghost var done: seq<Record> := [];
      for i := 0 to n
        invariant out == AddAll(AddMode, start, done)
        invariant ParseRecords(b[4..], n, 2, utf8, []) == ParseRecords(stream.unread, n - i, 2, utf8, done)
      {
        var record := ReadRecord(stream, 2, utf8);
        if record.None? {
          return None, true;
        }
        AddLast(AddMode, start, done, record.value);
        done := done + [record.value];
        out := AddMode(out, record.value);
      }
      return Some(out), true;
  }

  /** The host-control values, keyed by name. */
  method ReadHostControls(stream: InStream, utf8: Utf8) returns (r: Option<map<Bytes, U32>>, ghost heard: bool)
    modifies stream
    ensures r.Some? ==> SectionRead(old(stream.unread), Listed(1), utf8, heard, stream.unread)
    ensures r.Some? ==>
              r.value == AddAll(AddHost, map[], RecordsOf(SectionHere(old(stream.unread), Listed(1), utf8, heard)))
    ensures stream.Steady() ==> heard && (r.None? ==> ParseSection(old(stream.unread), Listed(1), utf8) == None)
  {
    hide U32At, ParseRecord, AddHost, AddAll;
    ghost var b := stream.unread;
    AddNothing(AddHost, map[]);
    var count := TryReadU32(stream);
    match count
    case Eof => return Some(map[]), b == [];
    case Err => return None, true;
    case Read(n) =>
      var out: map<Bytes, U32> := map[];
      ghost var done: seq<Record> := [];
      for i := 0 to n
        invariant out == AddAll(AddHost, map[], done)
        invariant ParseRecords(b[4..], n, 1, utf8, []) == ParseRecords(stream.unread, n - i, 1, utf8, done)
      {
        var record := ReadHostRecord(stream, utf8);
        if record.None? {
          return None, true;
        }
        AddLast(AddHost, map[], done, record.value);
        done := done + [record.value];
        out := AddHost(out, record.value);
      }
      return Some(out), true;
  }

  /** The window size: two words, or nothing at all. */
  method ReadWindowSize(stream: InStream, utf8: Utf8) returns (ok: bool, size: Option<(U32, U32)>, ghost heard: bool)
    modifies stream
    ensures ok ==> SectionRead(old(stream.unread), Window, utf8, heard, stream.unread)
    ensures ok ==>
              var s := SectionHere(old(stream.unread), Window, utf8, heard);
              size == if s.Size? then Some((s.width, s.height)) else None
    ensures stream.Steady() ==> heard && (!ok ==> ParseSection(old(stream.unread), Window, utf8) == None)
  {
    hide U32At;
    ghost var b := stream.unread;
    var width := TryReadU32(stream);
    match width
    case Eof => return true, None, b == [];
    case Err => return false, None, true;
    case Read(w) =>
      var height := TryReadU32(stream);
      match height
      case Read(h) => return true, Some((w, h)), true;
      case _ => return false, None, true;
  }

  /** The half of the state that the optional sections carry. */
  datatype Settings = Settings(modulePaths: seq<Bytes>, tapOpts: map<Bytes, TapDisplayOpts>,
                               windowSize: Option<(U32, U32)>, hostControls: map<Bytes, U32>)

  function SettingsOf(ss: seq<Section>): Settings
    requires |ss| == 5
  {
    Settings(Names(RecordsOf(ss[0])), AddAll(AddMode, AddAll(AddTap, map[], RecordsOf(ss[1])), RecordsOf(ss[3])),
             if ss[2].Size? then Some((ss[2].width, ss[2].height)) else None, AddAll(AddHost, map[], RecordsOf(ss[4])))
  }

  /** The optional sections, in the order of the format. */
  method ReadSections(stream: InStream, utf8: Utf8) returns (r: Option<Settings>, ghost heard: seq<bool>)
    modifies stream
    ensures |heard| == 5
    ensures r.Some? ==>
              var ss := HeardSections(old(stream.unread), KINDS, utf8, heard);
              ss.Some? && r.value == SettingsOf(ss.value)
    ensures stream.Steady() ==> heard == [true, true, true, true, true]
    ensures stream.Steady() && r.None? ==> ParseSections(old(stream.unread), KINDS, utf8) == None
  {
    hide ParseSection, AddAll, Names, HeardSections, ParseSections, SectionRead, SectionHere, RecordsOf;
    heard := [true, true, true, true, true];
    r := None;
    ghost var b := stream.unread;
    var modulePaths, h0 := ReadModulePaths(stream, utf8);
    if modulePaths.None? { FailsHere(stream.Steady(), [b], utf8); return; }
    ghost var b1 := stream.unread;
    var tapOpts, h1 := ReadTapOpts(stream, utf8);
    if tapOpts.None? { FailsHere(stream.Steady(), [b, b1], utf8); return; }
    ghost var b2 := stream.unread;
    var ok, windowSize, h2 := ReadWindowSize(stream, utf8);
    if !ok { FailsHere(stream.Steady(), [b, b1, b2], utf8); return; }
    ghost var b3 := stream.unread;
    var withModes, h3 := ReadTapModes(stream, utf8, tapOpts.value);
    if withModes.None? { FailsHere(stream.Steady(), [b, b1, b2, b3], utf8); return; }
    ghost var b4 := stream.unread;
    var hostControls, h4 := ReadHostControls(stream, utf8);
    if hostControls.None? { FailsHere(stream.Steady(), [b, b1, b2, b3, b4], utf8); return; }
    heard := [h0, h1, h2, h3, h4];
    ReadsAll(KINDS, utf8, heard, [b, b1, b2, b3, b4, stream.unread]);
    r := Some(Settings(modulePaths.value, withModes.value, windowSize, hostControls.value));
  }

  /**
     Whatever the host does, a load that succeeds is exactly what the bytes mean, except that sections before whose
     first word the host stalled are taken for absent. From a host whose every read makes progress it is exactly what
     the bytes mean, and fails only if they mean nothing.
     */
  method DeserializeState(stream: InStream, utf8: Utf8) returns (r: Option<State>, ghost heard: seq<bool>)
    modifies stream
    ensures |heard| == 5 && (r.Some? ==> r == LoadHeard(old(stream.unread), utf8, heard))
    ensures stream.Steady() ==> r == Deserialize(old(stream.unread), utf8)
  {
    hide ParseString, AddAll, Names, HeardSections, ParseSections, RecordsOf;
    heard := [true, true, true, true, true];
    var path := ReadText(stream, utf8);
    if path.None? { return None, heard; }
    var source := ReadText(stream, utf8);
    if source.None? { return None, heard; }
    ghost var b := stream.unread;
    var settings, noticed := ReadSections(stream, utf8);
    if settings.None? { return None, heard; }
    AllHeard(b, KINDS, utf8, [true, true, true, true, true]);
    var Settings(modulePaths, tapOpts, windowSize, hostControls) := settings.value;
    var filePath := if path.value == [] then None else Some(path.value);
    return Some(State(filePath, source.value, modulePaths, tapOpts, windowSize, hostControls)), noticed;
  }

  /** Saved through any patient host and loaded through any steady one, a state comes back in canonical form. */
  method SaveThenLoad(s: State, live: seq<(Bytes, U32)>, out: OutStream, tapOrder: seq<Bytes>, hostOrder: seq<Bytes>,
                      utf8: Utf8)
    returns (r: Option<State>)
    requires Storable(WithLive(s, live), utf8) && Orders(WithLive(s, live), tapOrder, hostOrder)
    requires out.Patient() && out.written == [] && out.stalls == 0
    modifies out
    ensures r == Some(Canonical(WithLive(s, live)))
  {
    hide Serialize, Deserialize, Canonical, Storable, Orders, WithLive;
    var saved := StateSave(s, live, out, tapOrder, hostOrder);
    ghost var bytes := Serialize(WithLive(s, live), tapOrder, hostOrder);
    assert [] + bytes == bytes;
    var back := new InStream(out.written, true, 0);
    RoundTrip(WithLive(s, live), tapOrder, hostOrder, utf8);
    ghost var heard: seq<bool>;
    r, heard := DeserializeState(back, utf8);
  }

  /** The load of one section after another fails where one of them does not parse. */
  lemma {:induction false} FailsAt(kinds: seq<Kind>, utf8: Utf8, rests: seq<Bytes>)
    requires 0 < |rests| <= |kinds|
    requires forall i :: 0 <= i < |rests| - 1 ==> SectionRead(rests[i], kinds[i], utf8, true, rests[i + 1])
    requires ParseSection(rests[|rests| - 1], kinds[|rests| - 1], utf8) == None
    ensures ParseSections(rests[0], kinds, utf8) == None
    decreases |rests|
  {
    hide ParseSection;
    if |rests| > 1 {
      FailsAt(kinds[1..], utf8, rests[1..]);
    }
  }

  lemma FailsHere(steady: bool, rests: seq<Bytes>, utf8: Utf8)
    requires 0 < |rests| <= |KINDS|
    requires steady ==> forall i :: 0 <= i < |rests| - 1 ==> SectionRead(rests[i], KINDS[i], utf8, true, rests[i + 1])
    requires steady ==> ParseSection(rests[|rests| - 1], KINDS[|rests| - 1], utf8) == None
    ensures steady ==> ParseSections(rests[0], KINDS, utf8) == None
  {
    hide ParseSection, SectionRead;
    if steady { FailsAt(KINDS, utf8, rests); }
  }

  /** Sections read one after another are the sections of the whole. */
  lemma {:induction false} ReadsAll(kinds: seq<Kind>, utf8: Utf8, heard: seq<bool>, rests: seq<Bytes>)
    requires |heard| == |kinds| == |rests| - 1
    requires forall i :: 0 <= i < |kinds| ==> SectionRead(rests[i], kinds[i], utf8, heard[i], rests[i + 1])
    ensures var ss := HeardSections(rests[0], kinds, utf8, heard);
            && ss.Some?
            && forall i :: 0 <= i < |kinds| ==> ss.value[i] == SectionHere(rests[i], kinds[i], utf8, heard[i])
    decreases |kinds|
  {
    hide HeardSection;
    if kinds != [] {
      ReadsAll(kinds[1..], utf8, heard[1..], rests[1..]);
    }
  }

  /** A host that stalls before every section loses them all, and the load still succeeds. */
  lemma StalledSectionsLost(s: State, tapOrder: seq<Bytes>, hostOrder: seq<Bytes>, utf8: Utf8)
    requires Storable(s, utf8) && Orders(s, tapOrder, hostOrder)
    ensures LoadHeard(Serialize(s, tapOrder, hostOrder), utf8, [false, false, false, false, false])
            == Some(FirstSections(s, 0))
  {
    hide ParseString, SectionsOf, PrintSections, PrintString, Storable, Orders;
    var path, rest := Unset(s.filePath, []), PrintSections(SectionsOf(s, tapOrder, hostOrder));
    StorableHeader(s, utf8);
    StringRoundTrip(path, PrintString(s.source) + rest, utf8);
    StringRoundTrip(s.source, rest, utf8);
    assert Serialize(s, tapOrder, hostOrder) == PrintString(path) + (PrintString(s.source) + rest);
    NothingHeard(rest, KINDS, utf8, [false, false, false, false, false]);
    InterpretNothing(path, s.source, HeardSections(rest, KINDS, utf8, [false, false, false, false, false]).value);
  }

  lemma InterpretNothing(path: Bytes, source: Bytes, ss: seq<Section>)
    requires |ss| == 5 && forall i :: 0 <= i < 5 ==> ss[i] == Absent
    ensures Interpret(path, source, ss)
            == State(if path == [] then None else Some(path), source, [], map[], None, map[])
  {
    AddNothing(AddTap, map[]);
    AddNothing(AddMode, AddAll(AddTap, map[], []));
    AddNothing(AddHost, map[]);
  }

  lemma {:induction false} NothingHeard(b: Bytes, kinds: seq<Kind>, utf8: Utf8, heard: seq<bool>)
    requires |heard| == |kinds| && forall i :: 0 <= i < |heard| ==> !heard[i]
    ensures var ss := HeardSections(b, kinds, utf8, heard);
            ss.Some? && forall i :: 0 <= i < |kinds| ==> ss.value[i] == Absent
    decreases |kinds|
  {
    if kinds != [] {
      NothingHeard(b, kinds[1..], utf8, heard[1..]);
    }
  }
}
