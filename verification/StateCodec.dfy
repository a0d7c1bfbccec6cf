/** What the saved state means, and the round trip through it. */
module StateCodec {
  import opened Wrappers
  import opened StateFormat

  const GUI_WIDTH: U32 := 800
  const GUI_HEIGHT: U32 := 600

  datatype ScopeMode = Free | Snap {
    function ToWire(): U32 { if Snap? then 1 else 0 }
    static function FromWire(n: U32): ScopeMode { if n == 1 then Snap else Free }
  }

  datatype SpectrumRender = Curves | Heatmap {
    function ToWire(): U32 { if Heatmap? then 1 else 0 }
    static function FromWire(n: U32): SpectrumRender { if n == 1 then Heatmap else Curves }
  }

  datatype TapDisplayOpts = TapDisplayOpts(fftSize: nat, decimation: nat, windowSamples: nat,
                                           snap: ScopeMode, heatmap: SpectrumRender)

  const DEFAULT_OPTS := TapDisplayOpts(1024, 16, 512, Free, Curves)

  /** The persisted state; a host-control value is the bit pattern of its float, and text is its bytes. */
  datatype State = State(filePath: Option<Bytes>, source: Bytes, modulePaths: seq<Bytes>,
                         tapOpts: map<Bytes, TapDisplayOpts>, windowSize: Option<(U32, U32)>,
                         hostControls: map<Bytes, U32>)

  const EMPTY: Bytes := []

  // ── Saving ──

  /** An order in which a hash map's entries may be visited. */
  ghost predicate IsOrder(order: seq<Bytes>, keys: set<Bytes>) {
    && (forall k :: k in order <==> k in keys)
    && (forall i, j :: 0 <= i < j < |order| ==> order[i] != order[j])
  }

  function PathRecords(paths: seq<Bytes>): (rs: seq<Record>)
    ensures |rs| == |paths|
  {
    seq(|paths|, i requires 0 <= i < |paths| => Record(paths[i], []))
  }

  function TapRecords(order: seq<Bytes>, taps: map<Bytes, TapDisplayOpts>): (rs: seq<Record>)
    requires forall k :: k in order ==> k in taps
    ensures |rs| == |order|
  {
    seq(|order|, i requires 0 <= i < |order| => TapRecord(order[i], taps[order[i]]))
  }

  function TapRecord(name: Bytes, o: TapDisplayOpts): Record {
    Record(name, [ToU32(o.fftSize), ToU32(o.decimation), ToU32(o.windowSamples)])
  }

  function ModeRecords(order: seq<Bytes>, taps: map<Bytes, TapDisplayOpts>): (rs: seq<Record>)
    requires forall k :: k in order ==> k in taps
    ensures |rs| == |order|
  {
    seq(|order|, i requires 0 <= i < |order| => ModeRecord(order[i], taps[order[i]]))
  }

  function ModeRecord(name: Bytes, o: TapDisplayOpts): Record {
    Record(name, [o.snap.ToWire(), o.heatmap.ToWire()])
  }

  function HostRecords(order: seq<Bytes>, hosts: map<Bytes, U32>): (rs: seq<Record>)
    requires forall k :: k in order ==> k in hosts
    ensures |rs| == |order|
  {
    seq(|order|, i requires 0 <= i < |order| => Record(order[i], [hosts[order[i]]]))
  }

  ghost predicate Orders(s: State, tapOrder: seq<Bytes>, hostOrder: seq<Bytes>) {
    IsOrder(tapOrder, s.tapOpts.Keys) && IsOrder(hostOrder, s.hostControls.Keys)
  }

  function Unset<T>(o: Option<T>, default: T): T {
    if o.Some? then o.value else default
  }

  const KINDS: seq<Kind> := [Listed(0), Listed(3), Window, Listed(2), Listed(1)]

  ghost function SectionsOf(s: State, tapOrder: seq<Bytes>, hostOrder: seq<Bytes>): (ss: seq<Section>)
    requires Orders(s, tapOrder, hostOrder)
    ensures |ss| == 5
  {
    var size := Unset(s.windowSize, (GUI_WIDTH, GUI_HEIGHT));
    [Records(PathRecords(s.modulePaths)), Records(TapRecords(tapOrder, s.tapOpts)), Size(size.0, size.1),
     Records(ModeRecords(tapOrder, s.tapOpts)), Records(HostRecords(hostOrder, s.hostControls))]
  }

  ghost function Serialize(s: State, tapOrder: seq<Bytes>, hostOrder: seq<Bytes>): Bytes
    requires Orders(s, tapOrder, hostOrder)
  {
    PrintString(Unset(s.filePath, [])) + PrintString(s.source) + PrintSections(SectionsOf(s, tapOrder, hostOrder))
  }

  // ── Loading ──

  function Names(rs: seq<Record>): seq<Bytes> {
    seq(|rs|, i requires 0 <= i < |rs| => rs[i].name)
  }

  function Word(r: Record, i: nat): U32 {
    if i < |r.words| then r.words[i] else 0
  }

  function AddTap(taps: map<Bytes, TapDisplayOpts>, r: Record): map<Bytes, TapDisplayOpts> {
    if r.name == [] then taps
    else taps[r.name := DEFAULT_OPTS.(fftSize := Word(r, 0), decimation := Word(r, 1), windowSamples := Word(r, 2))]
  }

  function AddMode(taps: map<Bytes, TapDisplayOpts>, r: Record): map<Bytes, TapDisplayOpts> {
    if r.name == [] then taps
    else
      var entry := if r.name in taps then taps[r.name] else DEFAULT_OPTS;
      taps[r.name := entry.(snap := ScopeMode.FromWire(Word(r, 0)), heatmap := SpectrumRender.FromWire(Word(r, 1)))]
  }

  /** What one record of a load sets, spelled out; names left empty set nothing. */
  lemma RecordMeans(taps: map<Bytes, TapDisplayOpts>, hosts: map<Bytes, U32>, name: Bytes, a: U32, b: U32, c: U32)
    ensures name != [] ==>
              AddTap(taps, Record(name, [a, b, c])) == taps[name := TapDisplayOpts(a, b, c, Free, Curves)]
    ensures name != [] ==>
              var snap, heatmap := if a == 1 then Snap else Free, if b == 1 then Heatmap else Curves;
              AddMode(taps, Record(name, [a, b]))
              == taps[name := if name in taps then taps[name].(snap := snap, heatmap := heatmap)
                              else TapDisplayOpts(1024, 16, 512, snap, heatmap)]
    ensures name != [] ==> AddHost(hosts, Record(name, [a])) == hosts[name := a]
    ensures AddTap(taps, Record([], [a, b, c])) == taps && AddMode(taps, Record([], [a, b])) == taps
    ensures AddHost(hosts, Record([], [a])) == hosts
  {}

  function AddHost(hosts: map<Bytes, U32>, r: Record): map<Bytes, U32> {
    if r.name == [] then hosts else hosts[r.name := Word(r, 0)]
  }

  function AddAll<M>(add: (M, Record) -> M, start: M, rs: seq<Record>): M {
    if rs == [] then start else add(AddAll(add, start, rs[..|rs| - 1]), rs[|rs| - 1])
  }

  function RecordsOf(s: Section): seq<Record> {
    if s.Records? then s.rs else []
  }

  function Interpret(path: Bytes, source: Bytes, ss: seq<Section>): State
    requires |ss| == 5
  {
    State(if path == [] then None else Some(path), source, Names(RecordsOf(ss[0])),
          AddAll(AddMode, AddAll(AddTap, map[], RecordsOf(ss[1])), RecordsOf(ss[3])),
          if ss[2].Size? then Some((ss[2].width, ss[2].height)) else None,
          AddAll(AddHost, map[], RecordsOf(ss[4])))
  }

  function Deserialize(b: Bytes, utf8: Utf8): Option<State> {
    match ParseString(b, utf8)
    case None => None
    case Some(Parse(path, rest)) =>
      match ParseString(rest, utf8)
      case None => None
      case Some(Parse(source, rest')) =>
        match ParseSections(rest', KINDS, utf8)
        case None => None
        case Some(ss) => Some(Interpret(path, source, ss))
  }

  // ── Round trip ──

  predicate SmallNumbers(o: TapDisplayOpts) {
    o.fftSize < 0x1_0000_0000 && o.decimation < 0x1_0000_0000 && o.windowSamples < 0x1_0000_0000
  }

  /** Text decodes, and every length and number fits its four bytes. */
  ghost predicate Storable(s: State, utf8: Utf8) {
    && utf8([]) && (s.filePath.Some? ==> ShortText(s.filePath.value, utf8)) && ShortText(s.source, utf8)
    && |s.modulePaths| < 0x1_0000_0000 && (forall p :: p in s.modulePaths ==> ShortText(p, utf8))
    && |s.tapOpts.Keys| < 0x1_0000_0000 && |s.hostControls.Keys| < 0x1_0000_0000
    && (forall k :: k in s.tapOpts ==> ShortText(k, utf8) && SmallNumbers(s.tapOpts[k]))
    && (forall k :: k in s.hostControls ==> ShortText(k, utf8))
  }

  /** What comes back: an empty path is no path, empty names are dropped, an unset window size takes the default. */
  function Canonical(s: State): State {
    State(if s.filePath == Some([]) then None else s.filePath, s.source, s.modulePaths,
          map k | k in s.tapOpts && k != [] :: s.tapOpts[k], Some(Unset(s.windowSize, (GUI_WIDTH, GUI_HEIGHT))),
          map k | k in s.hostControls && k != [] :: s.hostControls[k])
  }

  /** The state that loads when only the first `j` of the five sections were saved. */
  function FirstSections(s: State, j: nat): State {
    var c := Canonical(s);
    State(c.filePath, c.source, if j >= 1 then c.modulePaths else [],
          if j >= 4 then c.tapOpts
          else if j >= 2 then map k | k in c.tapOpts :: c.tapOpts[k].(snap := Free, heatmap := Curves)
          else map[],
          if j >= 3 then c.windowSize else None,
          if j >= 5 then c.hostControls else map[])
  }

  lemma {:induction false} OrderLength(order: seq<Bytes>, keys: set<Bytes>)
    requires IsOrder(order, keys)
    ensures |order| == |keys|
    decreases |order|
  {
    if order == [] {
      assert keys == {};
    } else {
      var n := |order| - 1;
      assert order[n] in order;
      forall k ensures k in order[..n] <==> k in keys - {order[n]} {
        if k in order && k != order[n] {
          var i :| 0 <= i < |order| && order[i] == k;
          assert order[..n][i] == k;
        }
      }
      OrderLength(order[..n], keys - {order[n]});
    }
  }

  function NumbersOnly(o: TapDisplayOpts): TapDisplayOpts {
    o.(snap := Free, heatmap := Curves)
  }

  lemma AddNothing<M>(add: (M, Record) -> M, start: M)
    ensures AddAll(add, start, []) == start
  {}

  lemma AddLast<M>(add: (M, Record) -> M, start: M, rs: seq<Record>, r: Record)
    ensures AddAll(add, start, rs + [r]) == add(AddAll(add, start, rs), r)
  {
    assert (rs + [r])[..|rs|] == rs;
  }

  lemma LastKey(order: seq<Bytes>)
    requires order != []
    ensures order == order[..|order| - 1] + [order[|order| - 1]]
    ensures forall k :: k in order <==> k in order[..|order| - 1] || k == order[|order| - 1]
  {
    assert order == order[..|order| - 1] + [order[|order| - 1]];
  }

  lemma LastRecords(order: seq<Bytes>, last: Bytes, taps: map<Bytes, TapDisplayOpts>)
    requires last in taps && forall k :: k in order ==> k in taps
    ensures TapRecords(order + [last], taps) == TapRecords(order, taps) + [TapRecord(last, taps[last])]
    ensures ModeRecords(order + [last], taps) == ModeRecords(order, taps) + [ModeRecord(last, taps[last])]
  {}

  lemma OneTap(m: map<Bytes, TapDisplayOpts>, name: Bytes, o: TapDisplayOpts)
    requires SmallNumbers(o)
    ensures AddTap(m, TapRecord(name, o)) == if name == [] then m else m[name := NumbersOnly(o)]
  {}

  /** The numeric section restores every named tap's numbers, with default modes. */
  lemma {:induction false} TapsBack(order: seq<Bytes>, taps: map<Bytes, TapDisplayOpts>)
    requires forall k :: k in order ==> k in taps && SmallNumbers(taps[k])
    ensures AddAll(AddTap, map[], TapRecords(order, taps))
            == map k | k in order && k != [] :: if k in taps then NumbersOnly(taps[k]) else DEFAULT_OPTS
    decreases |order|
  {
    hide AddAll, AddTap, SmallNumbers, NumbersOnly, TapRecords, ModeRecords;
    if order == [] {
      AddNothing(AddTap, map[]);
      assert TapRecords(order, taps) == [];
    } else {
      var front, last := order[..|order| - 1], order[|order| - 1];
      LastKey(order);
      TapsBack(front, taps);
      LastRecords(front, last, taps);
      AddLast(AddTap, map[], TapRecords(front, taps), TapRecord(last, taps[last]));
      OneTap(AddAll(AddTap, map[], TapRecords(front, taps)), last, taps[last]);
    }
  }

  lemma OneMode(m: map<Bytes, TapDisplayOpts>, name: Bytes, o: TapDisplayOpts)
    requires name != [] ==> name in m && NumbersOnly(m[name]) == NumbersOnly(o)
    ensures AddMode(m, ModeRecord(name, o)) == if name == [] then m else m[name := o]
  {}

  /** The mode section restores the modes of the taps it names. */
  lemma {:induction false} ModesBack(order: seq<Bytes>, taps: map<Bytes, TapDisplayOpts>, start: map<Bytes,
                                     TapDisplayOpts>)
    requires forall k :: k in order ==> k in taps
    requires forall k :: k in order && k != [] ==> k in start && start[k] == NumbersOnly(taps[k])
    ensures AddAll(AddMode, start, ModeRecords(order, taps))
            == map k | k in start :: if k in order && k != [] && k in taps then taps[k] else start[k]
    decreases |order|
  {
    NumbersTwice();
    hide AddAll, AddMode, NumbersOnly, TapRecords, ModeRecords;
    if order == [] {
      AddNothing(AddMode, start);
      assert ModeRecords(order, taps) == [];
    } else {
      var front, last := order[..|order| - 1], order[|order| - 1];
      LastKey(order);
      ModesBack(front, taps, start);
      LastRecords(front, last, taps);
      AddLast(AddMode, start, ModeRecords(front, taps), ModeRecord(last, taps[last]));
      OneMode(AddAll(AddMode, start, ModeRecords(front, taps)), last, taps[last]);
    }
  }

  lemma NumbersTwice()
    ensures forall o :: NumbersOnly(NumbersOnly(o)) == NumbersOnly(o)
  {}

  lemma {:induction false} HostsBack(order: seq<Bytes>, hosts: map<Bytes, U32>)
    requires forall k :: k in order ==> k in hosts
    ensures AddAll(AddHost, map[], HostRecords(order, hosts))
            == map k | k in order && k != [] :: if k in hosts then hosts[k] else 0
    decreases |order|
  {
    if order != [] {
      var n := |order| - 1;
      LastKey(order);
      HostsBack(order[..n], hosts);
      assert HostRecords(order, hosts)[..n] == HostRecords(order[..n], hosts);
    }
  }

  lemma SectionsFit(s: State, tapOrder: seq<Bytes>, hostOrder: seq<Bytes>, utf8: Utf8)
    requires Storable(s, utf8) && Orders(s, tapOrder, hostOrder)
    ensures AllFit(SectionsOf(s, tapOrder, hostOrder), KINDS, utf8)
  {
    OrderLength(tapOrder, s.tapOpts.Keys);
    OrderLength(hostOrder, s.hostControls.Keys);
    PathsFit(s.modulePaths, utf8);
    TapsFit(tapOrder, s.tapOpts, utf8);
    HostsFit(hostOrder, s.hostControls, utf8);
    hide GoodRecords;
  }

  lemma PathsFit(paths: seq<Bytes>, utf8: Utf8)
    requires |paths| < 0x1_0000_0000 && forall p :: p in paths ==> ShortText(p, utf8)
    ensures GoodRecords(PathRecords(paths), 0, utf8)
  {}

  lemma TapsFit(order: seq<Bytes>, taps: map<Bytes, TapDisplayOpts>, utf8: Utf8)
    requires |order| < 0x1_0000_0000 && forall k :: k in order ==> k in taps && ShortText(k, utf8)
    ensures GoodRecords(TapRecords(order, taps), 3, utf8) && GoodRecords(ModeRecords(order, taps), 2, utf8)
  {}

  lemma HostsFit(order: seq<Bytes>, hosts: map<Bytes, U32>, utf8: Utf8)
    requires |order| < 0x1_0000_0000 && forall k :: k in order ==> k in hosts && ShortText(k, utf8)
    ensures GoodRecords(HostRecords(order, hosts), 1, utf8)
  {}

  /** What the first `j` sections mean. */
  lemma InterpretUpto(s: State, tapOrder: seq<Bytes>, hostOrder: seq<Bytes>, utf8: Utf8, j: nat)
    requires Storable(s, utf8) && Orders(s, tapOrder, hostOrder) && j <= 5
    ensures Interpret(Unset(s.filePath, []), s.source, Upto(SectionsOf(s, tapOrder, hostOrder), j))
            == FirstSections(s, j)
  {
    hide AddAll, ShortText, TapRecords, ModeRecords, HostRecords, PathRecords;
    var ss := SectionsOf(s, tapOrder, hostOrder);
    assert Names(PathRecords(s.modulePaths)) == s.modulePaths by {
      PathNames(s.modulePaths);
    }
    assert Names([]) == [];
    TapSections(s, tapOrder, utf8);
    HostsBack(hostOrder, s.hostControls);
    AddNothing(AddTap, map[]);
    AddNothing(AddHost, map[]);
    AddNothing(AddMode, map[]);
    AddNothing(AddMode, NamedNumbers(s));
    var r, f := Interpret(Unset(s.filePath, []), s.source, Upto(ss, j)), FirstSections(s, j);
    assert r.modulePaths == f.modulePaths && r.windowSize == f.windowSize;
    assert r.hostControls == f.hostControls;
    assert r.tapOpts == f.tapOpts;
  }

  lemma PathNames(paths: seq<Bytes>)
    ensures Names(PathRecords(paths)) == paths
  {}

  function NamedNumbers(s: State): map<Bytes, TapDisplayOpts> {
    map k | k in s.tapOpts && k != [] :: NumbersOnly(s.tapOpts[k])
  }

  lemma TapSections(s: State, order: seq<Bytes>, utf8: Utf8)
    requires IsOrder(order, s.tapOpts.Keys) && forall k :: k in s.tapOpts ==> SmallNumbers(s.tapOpts[k])
    ensures AddAll(AddTap, map[], TapRecords(order, s.tapOpts)) == NamedNumbers(s)
    ensures AddAll(AddMode, NamedNumbers(s), ModeRecords(order, s.tapOpts)) == Canonical(s).tapOpts
  {
    hide AddAll, AddTap, AddMode, TapRecords, ModeRecords;
    TapsBack(order, s.tapOpts);
    ModesBack(order, s.tapOpts, NamedNumbers(s));
  }

  function Header(s: State): Bytes {
    PrintString(Unset(s.filePath, [])) + PrintString(s.source)
  }

  /** The bytes saved before section `j`. */
  ghost function Cut(s: State, tapOrder: seq<Bytes>, hostOrder: seq<Bytes>, j: nat): nat
    requires Orders(s, tapOrder, hostOrder) && j <= 5
  {
    |Header(s)| + Boundary(SectionsOf(s, tapOrder, hostOrder), j)
  }

  lemma ParseHeader(s: State, rest: Bytes, utf8: Utf8)
    requires ShortText(Unset(s.filePath, []), utf8) && ShortText(s.source, utf8)
    ensures Deserialize(Header(s) + rest, utf8)
            == match ParseSections(rest, KINDS, utf8)
               case None => None
               case Some(ss) => Some(Interpret(Unset(s.filePath, []), s.source, ss))
  {
    hide PrintString, ParseString, ParseSections, Interpret, ShortText;
    var path := Unset(s.filePath, []);
    assert Header(s) + rest == PrintString(path) + (PrintString(s.source) + rest);
    StringRoundTrip(path, PrintString(s.source) + rest, utf8);
    StringRoundTrip(s.source, rest, utf8);
  }

  lemma HeaderPrefix(s: State, k: nat, utf8: Utf8)
    requires ShortText(Unset(s.filePath, []), utf8) && ShortText(s.source, utf8) && k < |Header(s)|
    ensures Deserialize(Header(s)[..k], utf8) == None
  {
    hide PrintString, ParseString, ParseSections, Interpret, ShortText;
    var path := PrintString(Unset(s.filePath, []));
    if k < |path| {
      assert Header(s)[..k] == path[..k];
      StringPrefix(Unset(s.filePath, []), k, utf8);
    } else {
      assert Header(s)[..k] == path + PrintString(s.source)[..k - |path|];
      StringRoundTrip(Unset(s.filePath, []), PrintString(s.source)[..k - |path|], utf8);
      StringPrefix(s.source, k - |path|, utf8);
    }
  }

  lemma LoadAtCut(s: State, tapOrder: seq<Bytes>, hostOrder: seq<Bytes>, utf8: Utf8, j: nat)
    requires Storable(s, utf8) && Orders(s, tapOrder, hostOrder) && j <= 5
    ensures Cut(s, tapOrder, hostOrder, j) <= |Serialize(s, tapOrder, hostOrder)|
    ensures Deserialize(Serialize(s, tapOrder, hostOrder)[..Cut(s, tapOrder, hostOrder, j)], utf8)
            == Some(FirstSections(s, j))
  {
    hide Deserialize, ParseSections, Interpret, SectionsOf, PrintSections, PrintString, AllFit, FirstSections, Boundary,
         Storable, Orders, Header;
    var ss := SectionsOf(s, tapOrder, hostOrder);
    var rest := PrintSections(ss[..j]);
    SectionsFit(s, tapOrder, hostOrder, utf8);
    StorableHeader(s, utf8);
    BoundaryCuts(ss, j);
    SerializeSplit(s, tapOrder, hostOrder);
    assert Serialize(s, tapOrder, hostOrder)[..Cut(s, tapOrder, hostOrder, j)] == Header(s) + rest;
    ParseHeader(s, rest, utf8);
    SectionsRoundTrip(ss, KINDS, utf8, j);
    InterpretUpto(s, tapOrder, hostOrder, utf8, j);
  }

  lemma StorableHeader(s: State, utf8: Utf8)
    requires Storable(s, utf8)
    ensures ShortText(Unset(s.filePath, []), utf8) && ShortText(s.source, utf8)
  {}

  lemma SerializeSplit(s: State, tapOrder: seq<Bytes>, hostOrder: seq<Bytes>)
    requires Orders(s, tapOrder, hostOrder)
    ensures Serialize(s, tapOrder, hostOrder) == Header(s) + PrintSections(SectionsOf(s, tapOrder, hostOrder))
  {}

  lemma RejectElsewhere(s: State, tapOrder: seq<Bytes>, hostOrder: seq<Bytes>, utf8: Utf8, k: nat)
    requires Storable(s, utf8) && Orders(s, tapOrder, hostOrder) && k <= |Serialize(s, tapOrder, hostOrder)|
    requires forall j :: 0 <= j <= 5 ==> k != Cut(s, tapOrder, hostOrder, j)
    ensures Deserialize(Serialize(s, tapOrder, hostOrder)[..k], utf8) == None
  {
    hide Deserialize, ParseSections, Interpret, SectionsOf, PrintSections, PrintString, AllFit, Boundary, Storable,
         Orders, Header;
    var ss := SectionsOf(s, tapOrder, hostOrder);
    var b := Serialize(s, tapOrder, hostOrder);
    var n := |Header(s)|;
    StorableHeader(s, utf8);
    SerializeSplit(s, tapOrder, hostOrder);
    if k < n {
      assert b[..k] == Header(s)[..k];
      HeaderPrefix(s, k, utf8);
    } else {
      var rest := PrintSections(ss)[..k - n];
      assert b[..k] == Header(s) + rest;
      ParseHeader(s, rest, utf8);
      SectionsFit(s, tapOrder, hostOrder, utf8);
      forall j | 0 <= j <= 5 ensures k - n != Boundary(ss, j) {
        assert k != Cut(s, tapOrder, hostOrder, j);
      }
      SectionsPrefix(ss, KINDS, utf8, k - n);
    }
  }

  /**
     Every prefix of a saved state: cut exactly where a section begins, it loads as the sections before the cut with
     the later ones at their defaults; cut anywhere else, it is rejected.
     */
  lemma LoadPrefix(s: State, tapOrder: seq<Bytes>, hostOrder: seq<Bytes>, utf8: Utf8, k: nat)
    requires Storable(s, utf8) && Orders(s, tapOrder, hostOrder) && k <= |Serialize(s, tapOrder, hostOrder)|
    ensures forall j :: 0 <= j <= 5 && k == Cut(s, tapOrder, hostOrder, j) ==>
              Deserialize(Serialize(s, tapOrder, hostOrder)[..k], utf8) == Some(FirstSections(s, j))
    ensures (forall j :: 0 <= j <= 5 ==> k != Cut(s, tapOrder, hostOrder, j)) ==>
              Deserialize(Serialize(s, tapOrder, hostOrder)[..k], utf8) == None
  {
    hide Deserialize, Serialize, Cut, FirstSections, Storable, Orders;
    forall j | 0 <= j <= 5 && k == Cut(s, tapOrder, hostOrder, j)
      ensures Deserialize(Serialize(s, tapOrder, hostOrder)[..k], utf8) == Some(FirstSections(s, j))
    {
      LoadAtCut(s, tapOrder, hostOrder, utf8, j);
    }
    if forall j :: 0 <= j <= 5 ==> k != Cut(s, tapOrder, hostOrder, j) {
      RejectElsewhere(s, tapOrder, hostOrder, utf8, k);
    }
  }

  /** Saving and loading gives the state back, up to its canonical form. */
  lemma RoundTrip(s: State, tapOrder: seq<Bytes>, hostOrder: seq<Bytes>, utf8: Utf8)
    requires Storable(s, utf8) && Orders(s, tapOrder, hostOrder)
    ensures Deserialize(Serialize(s, tapOrder, hostOrder), utf8) == Some(Canonical(s))
  {
    hide Deserialize, SectionsOf, Boundary, PrintString;
    WholeBoundary(SectionsOf(s, tapOrder, hostOrder));
    LoadAtCut(s, tapOrder, hostOrder, utf8, 5);
    var b := Serialize(s, tapOrder, hostOrder);
    assert b[..|b|] == b;
    assert FirstSections(s, 5) == Canonical(s);
  }

  lemma WholeBoundary(ss: seq<Section>)
    ensures Boundary(ss, |ss|) == |PrintSections(ss)|
  {
    assert ss[..|ss|] == ss;
  }

  /** Exactly which states come back unchanged. */
  lemma RoundTripExact(s: State, tapOrder: seq<Bytes>, hostOrder: seq<Bytes>, utf8: Utf8)
    requires Storable(s, utf8) && Orders(s, tapOrder, hostOrder)
    ensures Deserialize(Serialize(s, tapOrder, hostOrder), utf8) == Some(s)
            <==> s.filePath != Some([]) && EMPTY !in s.tapOpts && EMPTY !in s.hostControls && s.windowSize.Some?
  {
    hide Deserialize, Serialize;
    RoundTrip(s, tapOrder, hostOrder, utf8);
    assert Canonical(s).tapOpts == s.tapOpts <==> EMPTY !in s.tapOpts;
    assert Canonical(s).hostControls == s.hostControls <==> EMPTY !in s.hostControls;
  }

  /** A state as a host first saves it: no path, no size and nothing else. */
  const BLANK := State(None, [], [], map[], None, map[])

  /** Inputs that do not come back: an unset size, an empty path, a host control with an empty name. */
  lemma RoundTripFails(utf8: Utf8)
    requires utf8([])
    ensures Deserialize(Serialize(BLANK, [], []), utf8) == Some(BLANK.(windowSize := Some((GUI_WIDTH, GUI_HEIGHT))))
    ensures var sized := BLANK.(windowSize := Some((1, 2)));
            Deserialize(Serialize(sized.(filePath := Some([])), [], []), utf8) == Some(sized)
    ensures var sized := BLANK.(windowSize := Some((1, 2)));
            Deserialize(Serialize(sized.(hostControls := map[EMPTY := 7]), [], [EMPTY]), utf8) == Some(sized)
  {
    hide Deserialize, Serialize;
    var sized := BLANK.(windowSize := Some((1, 2)));
    RoundTrip(BLANK, [], [], utf8);
    RoundTrip(sized.(filePath := Some([])), [], [], utf8);
    RoundTrip(sized.(hostControls := map[EMPTY := 7]), [], [EMPTY], utf8);
  }
}
