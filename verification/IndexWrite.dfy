/** `Index::write`: the filters of a manifest, inverted into a sorted index. */
module IndexWrite {
  import opened ByteStrings
  import opened IndexFormat
  import opened LogOrder
  import opened Revocation

  // What the index of a list of filters holds

  function Names(files: seq<ManifestFile>): (ns: seq<Name>)
    ensures |ns| == |files|
  {
    seq(|files|, i requires 0 <= i < |files| => files[i].filename)
  }

  /** Every file named is short enough for a slot, present, and decodes. */
  predicate Readable(files: seq<ManifestFile>, dir: Files, p: Platform) {
    forall i :: 0 <= i < |files| ==> ReadableFile(files[i], dir, p)
  }

  predicate ReadableFile(file: ManifestFile, dir: Files, p: Platform) {
    |file.filename| <= FILENAME_SIZE && file.filename in dir && p.decode(dir[file.filename]).Some?
  }

  function Cards(files: seq<ManifestFile>, dir: Files, p: Platform): (cs: seq<Clubcard>)
    requires Readable(files, dir, p)
    ensures |cs| == |files|
  {
    seq(|files|, i requires 0 <= i < |files| => p.decode(dir[files[i].filename]).value)
  }

  function Ids(cards: seq<Clubcard>): set<LogId> {
    if cards == [] then {} else Ids(cards[..|cards| - 1]) + cards[|cards| - 1].universe.Keys
  }

  /** The entries of one log: the filters that cover it, in manifest order, with their intervals.
      A filter index is cast to 16 bits. */
  function EntriesFor(cards: seq<Clubcard>, id: LogId): seq<Entry> {
    if cards == [] then [] else EntriesFor(cards[..|cards| - 1], id) + OwnEntry(cards[|cards| - 1], |cards| - 1, id)
  }

  function OwnEntry(card: Clubcard, i: nat, id: LogId): seq<Entry> {
    if id in card.universe then [Entry(i % U16_LIMIT, card.universe[id].low, card.universe[id].high)] else []
  }

  predicate IsLeast(m: LogId, s: set<LogId>) {
    m in s && forall x | x in s :: x == m || Lt(m, x)
  }

  lemma {:induction false} HasLeast(s: set<LogId>)
    requires s != {}
    ensures exists m: LogId :: IsLeast(m, s)
  {
    hide Lt;
    var a: LogId :| a in s;
    if s == {a} {
      assert IsLeast(a, s);
    } else {
      HasLeast(s - {a});
      var m: LogId :| IsLeast(m, s - {a});
      LtTotal(a, m);
      if Lt(a, m) {
        forall x: LogId | x in s - {a} && x != m
          ensures Lt(a, x)
        {
          LtTransitive(a, m, x);
        }
        assert IsLeast(a, s);
      } else {
        assert IsLeast(m, s);
      }
    }
  }

  ghost function Least(s: set<LogId>): (m: LogId)
    requires s != {}
    ensures IsLeast(m, s)
  {
    HasLeast(s);
    var m: LogId :| IsLeast(m, s);
    m
  }

  /** The iteration order of an ordered map with these keys. */
  ghost function Listing(s: set<LogId>): seq<LogId> {
    if s == {} then [] else [Least(s)] + Listing(s - {Least(s)})
  }

  lemma {:induction false} ListingStrict(s: set<LogId>)
    ensures StrictlySorted(Listing(s))
    ensures forall x :: x in Listing(s) <==> x in s
    ensures |Listing(s)| == |s|
  {
    if s != {} {
      hide Lt;
      var m, rest := Least(s), Listing(s - {Least(s)});
      ListingStrict(s - {m});
      assert forall x :: x in [m] + rest <==> x == m || x in rest;
      assert |s - {m}| == |s| - 1;
      assert forall i :: 0 <= i < |rest| ==> rest[i] in rest;
    }
  }

  /** The keys of an ordered map come each once, ascending as byte strings. */
  lemma ListingSorted(s: set<LogId>)
    ensures forall i, j :: 0 <= i < j < |Listing(s)| ==> Precedes(Listing(s)[i], Listing(s)[j])
    ensures forall x :: x in Listing(s) <==> x in s
    ensures |Listing(s)| == |s|
  {
    ListingStrict(s);
    hide Listing, Lt, Precedes;
    forall i, j | 0 <= i < j < |Listing(s)|
      ensures Precedes(Listing(s)[i], Listing(s)[j])
    {
      LtIsPrecedes(Listing(s)[i], Listing(s)[j]);
    }
  }

  ghost function SectionsOf(cards: seq<Clubcard>): seq<Section>
  {
    var ids := Listing(Ids(cards));
    seq(|ids|, k requires 0 <= k < |ids| => Section(ids[k], EntriesFor(cards, ids[k])))
  }

  /** The index of a list of filters. */
  ghost function Inversion(names: seq<Name>, cards: seq<Clubcard>): Logical {
    Logical(names, SectionsOf(cards))
  }

  /** What `Index::write` returns. */
  ghost function IndexBytes(files: seq<ManifestFile>, dir: Files, p: Platform): Option<Bytes> {
    if Readable(files, dir, p) then Some(Encode(V1, Inversion(Names(files), Cards(files, dir, p)))) else None
  }

  /** A file that is there and decodes keeps an index from being built if its name has 33 bytes or more. */
  lemma LongNameNoIndex(name: Name, size: u64, content: Bytes, p: Platform)
    requires |name| > FILENAME_SIZE && p.decode(content).Some?
    ensures var files, dir := [ManifestFile(name, size, [])], map[name := content];
      name in dir && p.decode(dir[name]).Some? && IndexBytes(files, dir, p) == None
  {
    assert !ReadableFile([ManifestFile(name, size, [])][0], map[name := content], p);
  }

  // The writer

  function Get(m: map<LogId, seq<Entry>>, id: LogId): seq<Entry> {
    if id in m then m[id] else []
  }

  ghost predicate Holds(m: map<LogId, seq<Entry>>, cards: seq<Clubcard>) {
    m.Keys == Ids(cards) && forall id :: id in m ==> m[id] == EntriesFor(cards, id)
  }

  lemma {:induction false} NoEntries(cards: seq<Clubcard>, id: LogId)
    requires id !in Ids(cards)
    ensures EntriesFor(cards, id) == []
  {
    if cards != [] {
      NoEntries(cards[..|cards| - 1], id);
    }
  }

  /** Push the intervals of one filter, in whatever order its universe is iterated. */
  method PushUniverse(byLogId: map<LogId, seq<Entry>>, card: Clubcard, filterIdx: nat, ghost cards: seq<Clubcard>)
    returns (m: map<LogId, seq<Entry>>)
    requires |cards| == filterIdx && Holds(byLogId, cards)
    ensures Holds(m, cards + [card])
  {
    ghost var all := cards + [card];
    assert all[..|all| - 1] == cards;
    m := byLogId;
    var remaining := card.universe.Keys;
    while remaining != {}
      invariant remaining <= card.universe.Keys
      invariant m.Keys == byLogId.Keys + (card.universe.Keys - remaining)
      invariant forall id :: id in m && id !in remaining ==> m[id] == EntriesFor(all, id)
      invariant forall id :: id in m && id in remaining ==> id in byLogId && m[id] == byLogId[id]
      decreases remaining
    {
      var id :| id in remaining;
      if id !in m { NoEntries(cards, id); }
      var interval := card.universe[id];
      m := m[id := Get(m, id) + [Entry(filterIdx % U16_LIMIT, interval.low, interval.high)]];
      remaining := remaining - {id};
    }
  }

  lemma ListingStep(s: set<LogId>, m: LogId)
    requires IsLeast(m, s)
    ensures Listing(s) == [m] + Listing(s - {m})
  {
    hide Lt;
    LtTotal(m, Least(s));
  }

  /** The keys of an ordered map, as its iterator yields them. */
  method Iterate(s: set<LogId>) returns (ks: seq<LogId>)
    ensures ks == Listing(s)
  {
    hide Lt;
    ks := [];
    var remaining := s;
    assert Listing({}) == [];
    hide Listing;
    while remaining != {}
      invariant remaining <= s
      invariant Listing(s) == ks + Listing(remaining)
      decreases remaining
    {
      HasLeast(remaining);
      var m: LogId :| IsLeast(m, remaining);
      ListingStep(remaining, m);
      ks := ks + [m];
      remaining := remaining - {m};
    }
  }

  method WriteNames(prefix: Bytes, files: seq<ManifestFile>) returns (buf: Bytes)
    requires NamesFit(Names(files))
    ensures buf == prefix + NameTable(Names(files))
  {
    buf := prefix;
    ghost var names := Names(files);
    for i := 0 to |files|
      invariant buf == prefix + NameTable(names[..i])
    {
      assert files[i].filename == names[i];
      assert names[..i + 1][..i] == names[..i];
      buf := buf + (files[i].filename + Zeros(FILENAME_SIZE - |files[i].filename|));
    }
    assert names[..|files|] == names;
  }

  /** `ss` are the entries of `byLogId` in the order of `ids`. */
  ghost predicate Collected(ids: seq<LogId>, byLogId: map<LogId, seq<Entry>>, ss: seq<Section>) {
    |ss| == |ids| && forall k :: 0 <= k < |ids| ==> ids[k] in byLogId && ss[k] == Section(ids[k], byLogId[ids[k]])
  }

  lemma OneMoreSection(ss: seq<Section>, k: nat)
    requires k < |ss|
    ensures |EncodeSections(V1, ss[..k + 1])| == |EncodeSections(V1, ss[..k])| + |ss[k].entries| * 18
  {
    hide EncodeEntries;
    assert ss[..k + 1][..k] == ss[..k];
  }

  datatype Slotted = Slotted(logId: LogId, offset: nat, count: nat)

  /** Each section with the offset at which it will start. */
  function Placed(ss: seq<Section>, base: nat): (d: seq<Slotted>)
    ensures |d| == |ss|
  {
    if ss == [] then [] else
      var front := ss[..|ss| - 1];
      Placed(front, base) + [Slotted(ss[|ss| - 1].logId, base + |EncodeSections(V1, front)|, |ss[|ss| - 1].entries|)]
  }

  /** The offset of each section, computed before any is written. */
  method PlaceSections(ids: seq<LogId>, byLogId: map<LogId, seq<Entry>>, headerSize: nat, ghost ss: seq<Section>)
    returns (dirEntries: seq<Slotted>)
    requires Collected(ids, byLogId, ss)
    ensures dirEntries == Placed(ss, headerSize)
  {
    assert |EncodeSections(V1, ss[..0])| == 0;
    hide EncodeSections;
    var currentOffset := headerSize;
    dirEntries := [];
    for k := 0 to |ids|
      invariant currentOffset == headerSize + |EncodeSections(V1, ss[..k])|
      invariant dirEntries == Placed(ss[..k], headerSize)
    {
      OneMoreSection(ss, k);
      assert ss[..k + 1][..k] == ss[..k];
      var entries := byLogId[ids[k]];
      dirEntries := dirEntries + [Slotted(ids[k], currentOffset, |entries|)];
      currentOffset := currentOffset + |entries| * 18;
    }
    assert ss[..|ids|] == ss;
  }

  method WriteDirectory(prefix: Bytes, dirEntries: seq<Slotted>, ghost base: nat, ghost ss: seq<Section>)
    returns (buf: Bytes)
    requires dirEntries == Placed(ss, base)
    ensures buf == prefix + DirTable(V1, ss, base)
  {
    hide EncodeSections, BeBytes;
    buf := prefix;
    for k := 0 to |dirEntries|
      invariant buf == prefix + DirTable(V1, ss[..k], base)
    {
      assert ss[..k + 1][..k] == ss[..k];
      PlacedAt(ss, base, k);
      var slot := dirEntries[k];
      buf := buf + (slot.logId + BeBytes(slot.offset, 8) + BeBytes(slot.count, 2));
    }
    assert ss[..|ss|] == ss;
  }

  lemma {:induction false} PlacedAt(ss: seq<Section>, base: nat, k: nat)
    requires k < |ss|
    ensures Placed(ss, base)[k] == Slotted(ss[k].logId, base + |EncodeSections(V1, ss[..k])|, |ss[k].entries|)
  {
    hide EncodeSections;
    var front := ss[..|ss| - 1];
    if k < |front| {
      PlacedAt(front, base, k);
      assert front[..k] == ss[..k];
    } else {
      assert ss[..k] == front;
    }
  }

  method WriteEntries(prefix: Bytes, entries: seq<Entry>) returns (buf: Bytes)
    ensures buf == prefix + EncodeEntries(V1, entries)
  {
    hide BeBytes;
    buf := prefix;
    for j := 0 to |entries|
      invariant buf == prefix + EncodeEntries(V1, entries[..j])
    {
      assert entries[..j + 1][..j] == entries[..j];
      buf := buf + (BeBytes(entries[j].filter, 2) + BeBytes(entries[j].low, 8) + BeBytes(entries[j].high, 8));
    }
    assert entries[..|entries|] == entries;
  }

  method WriteSections(prefix: Bytes, ids: seq<LogId>, byLogId: map<LogId, seq<Entry>>, ghost ss: seq<Section>)
    returns (buf: Bytes)
    requires Collected(ids, byLogId, ss)
    ensures buf == prefix + EncodeSections(V1, ss)
  {
    hide EncodeEntries;
    buf := prefix;
    for k := 0 to |ids|
      invariant buf == prefix + EncodeSections(V1, ss[..k])
    {
      assert ss[..k + 1][..k] == ss[..k];
      buf := WriteEntries(buf, byLogId[ids[k]]);
    }
    assert ss[..|ids|] == ss;
  }

  /** Read and invert the filters, or give up at the first that cannot be used. */
  method Collect(files: seq<ManifestFile>, dir: Files, p: Platform) returns (byLogId: Option<map<LogId, seq<Entry>>>)
    ensures byLogId.Some? <==> Readable(files, dir, p)
    ensures byLogId.Some? ==> Holds(byLogId.value, Cards(files, dir, p))
  {
    var m: map<LogId, seq<Entry>> := map[];
    ghost var cards: seq<Clubcard> := [];
    for i := 0 to |files|
      invariant Readable(files[..i], dir, p)
      invariant cards == Cards(files[..i], dir, p)
      invariant Holds(m, cards)
    {
      if |files[i].filename| > FILENAME_SIZE || files[i].filename !in dir {
        return None;
      }
      var clubcard := p.decode(dir[files[i].filename]);
      if clubcard.None? {
        return None;
      }
      m := PushUniverse(m, clubcard.value, i, cards);
      cards := cards + [clubcard.value];
    }
    assert files[..|files|] == files;
    byLogId := Some(m);
  }

  method Assemble(files: seq<ManifestFile>, ids: seq<LogId>, byLogId: map<LogId, seq<Entry>>, ghost ix: Logical)
    returns (buf: Bytes)
    requires ix.names == Names(files) && NamesFit(ix.names)
    requires Collected(ids, byLogId, ix.sections) && |byLogId| == |ids|
    ensures buf == Encode(V1, ix)
  {
    hide EncodeSections, DirTable, NameTable, BeBytes;
    var headerSize := 14 + |files| * 32 + |byLogId| * 42;
    buf := Magic(V1) + BeBytes(|files|, 2) + BeBytes(|byLogId|, 4);
    assert buf == Header(V1, ix) && headerSize == TablesEnd(V1, ix);
    buf := WriteNames(buf, files);
    var dirEntries := PlaceSections(ids, byLogId, headerSize, ix.sections);
    buf := WriteDirectory(buf, dirEntries, headerSize, ix.sections);
    buf := WriteSections(buf, ids, byLogId, ix.sections);
  }

  method Write(files: seq<ManifestFile>, dir: Files, p: Platform) returns (r: Option<Bytes>)
    ensures r == IndexBytes(files, dir, p)
  {
    hide Encode, EntriesFor, Ids, Listing;
    var collected := Collect(files, dir, p);
    if collected.None? {
      return None;
    }
    var byLogId := collected.value;
    var ids := Iterate(byLogId.Keys);
    ListingSorted(byLogId.Keys);
    ghost var ix := Inversion(Names(files), Cards(files, dir, p));
    assert Collected(ids, byLogId, ix.sections);
    var buf := Assemble(files, ids, byLogId, ix);
    r := Some(buf);
  }
}
