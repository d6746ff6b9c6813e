/** The byte format of `index.bin` (upki/src/revocation/index.rs): the layout that is written,
    the fields that are read back, and the proof that reading undoes writing. */
module IndexFormat {
  import opened ByteStrings

  type LogId = s: Bytes | |s| == 32 witness Zeros(32)
  type Name = Bytes

  const FILENAME_SIZE := 32
  const LOG_DIR_ENTRY_SIZE := 42

  datatype Version = V0 | V1

  // "upkiidx0" and "upkiidx1"
  function Magic(v: Version): (m: Bytes)
    ensures |m| == 8
  {
    [0x75, 0x70, 0x6b, 0x69, 0x69, 0x64, 0x78, if v.V0? then 0x30 else 0x31]
  }

  /** The width of the filename count and of a filter index. */
  function IndexWidth(v: Version): nat { if v.V0? then 1 else 2 }
  function HeaderSize(v: Version): nat { if v.V0? then 13 else 14 }
  function EntrySize(v: Version): nat { if v.V0? then 17 else 18 }

  datatype Entry = Entry(filter: nat, low: u64, high: u64)
  datatype Section = Section(logId: LogId, entries: seq<Entry>)
  datatype Logical = Logical(names: seq<Name>, sections: seq<Section>)

  // Writing

  function Slot(name: Name): (s: Bytes)
    requires |name| <= FILENAME_SIZE
    ensures |s| == FILENAME_SIZE
  {
    name + Zeros(FILENAME_SIZE - |name|)
  }

  predicate NamesFit(names: seq<Name>) {
    forall i :: 0 <= i < |names| ==> |names[i]| <= FILENAME_SIZE
  }

  function NameTable(names: seq<Name>): (s: Bytes)
    requires NamesFit(names)
    ensures |s| == 32 * |names|
  {
    if names == [] then [] else NameTable(names[..|names| - 1]) + Slot(names[|names| - 1])
  }

  function EncodeEntry(v: Version, e: Entry): (s: Bytes)
    ensures |s| == EntrySize(v)
  {
    BeBytes(e.filter, IndexWidth(v)) + BeBytes(e.low, 8) + BeBytes(e.high, 8)
  }

  function EncodeEntries(v: Version, es: seq<Entry>): (s: Bytes)
    ensures |s| == |es| * EntrySize(v)
  {
    if es == [] then [] else
      var front := EncodeEntries(v, es[..|es| - 1]);
      assert (|es| - 1) * EntrySize(v) + EntrySize(v) == |es| * EntrySize(v);
      front + EncodeEntry(v, es[|es| - 1])
  }

  function EncodeSections(v: Version, ss: seq<Section>): Bytes {
    if ss == [] then [] else EncodeSections(v, ss[..|ss| - 1]) + EncodeEntries(v, ss[|ss| - 1].entries)
  }

  function DirEntry(s: Section, offset: nat): (d: Bytes)
    ensures |d| == LOG_DIR_ENTRY_SIZE
  {
    s.logId + BeBytes(offset, 8) + BeBytes(|s.entries|, 2)
  }

  /** The directory, each entry pointing at the section that starts where the previous one ends. */
  function DirTable(v: Version, ss: seq<Section>, base: nat): (s: Bytes)
    ensures |s| == 42 * |ss|
  {
    if ss == [] then [] else
      DirTable(v, ss[..|ss| - 1], base) +
      DirEntry(ss[|ss| - 1], base + |EncodeSections(v, ss[..|ss| - 1])|)
  }

  function Header(v: Version, ix: Logical): (s: Bytes)
    ensures |s| == HeaderSize(v)
  {
    Magic(v) + BeBytes(|ix.names|, IndexWidth(v)) + BeBytes(|ix.sections|, 4)
  }

  function TablesEnd(v: Version, ix: Logical): nat {
    HeaderSize(v) + 32 * |ix.names| + 42 * |ix.sections|
  }

  function Encode(v: Version, ix: Logical): Bytes
    requires NamesFit(ix.names)
  {
    Header(v, ix) + NameTable(ix.names) + DirTable(v, ix.sections, TablesEnd(v, ix)) + EncodeSections(v, ix.sections)
  }

  // Reading

  /** What `from_cache` keeps of an index file, with the content of the file it leaves open. */
  datatype Image = Image(numFilenames: nat, numLogs: nat, entrySize: nat, tables: Bytes, content: Bytes)

  predicate ImageOk(img: Image) {
    |img.tables| == 32 * img.numFilenames + 42 * img.numLogs && (img.entrySize == 17 || img.entrySize == 18)
  }

  function MagicVersion(content: Bytes): Option<Version> {
    if |content| < 8 then None
    else if content[..8] == Magic(V1) then Some(V1)
    else if content[..8] == Magic(V0) then Some(V0)
    else None
  }

  /** The files `from_cache` accepts, and what it makes of them. */
  function Open(content: Bytes): (r: Option<Image>)
    ensures r.Some? ==> ImageOk(r.value) && r.value.content == content
    ensures r.Some? ==> |r.value.tables| < |content|
  {
    match MagicVersion(content)
    case None => None
    case Some(v) =>
      if |content| < HeaderSize(v) then None else
        var names := BeValue(content[8..8 + IndexWidth(v)]);
        var logs := BeValue(content[8 + IndexWidth(v)..HeaderSize(v)]);
        var end := HeaderSize(v) + (32 * names + 42 * logs);
        if end > |content| then None
        else Some(Image(names, logs, EntrySize(v), content[HeaderSize(v)..end], content))
  }

  function DirLogId(img: Image, k: nat): (id: LogId)
    requires ImageOk(img) && k < img.numLogs
  {
    var at := 32 * img.numFilenames + 42 * k;
    img.tables[at..at + 32]
  }

  function DirOffset(img: Image, k: nat): nat
    requires ImageOk(img) && k < img.numLogs
  {
    var at := 32 * img.numFilenames + 42 * k;
    BeValue(img.tables[at + 32..at + 40])
  }

  function DirCount(img: Image, k: nat): nat
    requires ImageOk(img) && k < img.numLogs
  {
    var at := 32 * img.numFilenames + 42 * k;
    BeValue(img.tables[at + 40..at + 42])
  }

  function DecodeEntry(size: nat, s: Bytes): Entry
    requires (size == 17 || size == 18) && |s| >= size
  {
    Pow256Widths();
    Entry(BeValue(s[..size - 16]), BeValue(s[size - 16..size - 8]), BeValue(s[size - 8..size]))
  }

  function DecodeEntries(size: nat, s: Bytes): seq<Entry>
    requires size == 17 || size == 18
  {
    if |s| < size then [] else [DecodeEntry(size, s)] + DecodeEntries(size, s[size..])
  }

  /** Seek, then read exactly `len` bytes. A seek beyond a signed 64-bit offset fails. */
  function ReadAt(content: Bytes, offset: nat, len: nat): (r: Option<Bytes>)
    ensures r.Some? ==> |r.value| == len
  {
    if offset >= U63_LIMIT then None
    else if len == 0 then Some([])
    else if offset + len > |content| then None
    else Some(content[offset..offset + len])
  }

  /** The entries of directory slot `k`, or `None` when its section cannot be read. */
  function SectionAt(img: Image, k: nat): Option<seq<Entry>>
    requires ImageOk(img) && k < img.numLogs
  {
    match ReadAt(img.content, DirOffset(img, k), DirCount(img, k) * img.entrySize)
    case None => None
    case Some(s) => Some(DecodeEntries(img.entrySize, s))
  }

  /** The part of a slot before its first NUL byte. */
  function UpToNul(s: Bytes): (n: Bytes)
  {
    if s == [] || s[0] == 0 then [] else [s[0]] + UpToNul(s[1..])
  }

  lemma {:induction false} UpToNulEnds(s: Bytes, end: nat)
    requires end <= |s| && (forall j :: 0 <= j < end ==> s[j] != 0) && (end < |s| ==> s[end] == 0)
    ensures UpToNul(s) == s[..end]
  {
    if end > 0 {
      UpToNulEnds(s[1..], end - 1);
      assert s[..end] == [s[0]] + s[1..][..end - 1];
    }
  }

  function NameAt(img: Image, i: nat): Name
    requires ImageOk(img) && i < img.numFilenames
  {
    UpToNul(img.tables[32 * i..32 * i + 32])
  }

  // Reading undoes writing

  lemma {:induction false} NameTableAt(names: seq<Name>, i: nat)
    requires NamesFit(names) && i < |names|
    ensures NameTable(names)[32 * i..32 * i + 32] == Slot(names[i])
  {
    var front := names[..|names| - 1];
    if i < |names| - 1 {
      NameTableAt(front, i);
      assert NameTable(names)[32 * i..32 * i + 32] == NameTable(front)[32 * i..32 * i + 32];
    }
  }

  lemma {:induction false} DirTableAt(v: Version, ss: seq<Section>, base: nat, k: nat)
    requires k < |ss|
    ensures DirTable(v, ss, base)[42 * k..42 * k + 42] == DirEntry(ss[k], base + |EncodeSections(v, ss[..k])|)
  {
    hide EncodeSections, DirEntry;
    var front := ss[..|ss| - 1];
    if k < |ss| - 1 {
      DirTableAt(v, front, base, k);
      assert front[..k] == ss[..k];
      assert DirTable(v, ss, base)[42 * k..42 * k + 42] == DirTable(v, front, base)[42 * k..42 * k + 42];
    } else {
      assert ss[..k] == front;
    }
  }

  /** Sections follow one another without gap or overlap, and nothing follows the last. */
  lemma {:induction false} SectionsAt(v: Version, ss: seq<Section>, k: nat)
    requires k < |ss|
    ensures |EncodeSections(v, ss[..k + 1])| == |EncodeSections(v, ss[..k])| + |EncodeEntries(v, ss[k].entries)|
    ensures |EncodeSections(v, ss[..k + 1])| <= |EncodeSections(v, ss)|
    ensures EncodeSections(v, ss)[|EncodeSections(v, ss[..k])|..|EncodeSections(v, ss[..k + 1])|]
         == EncodeEntries(v, ss[k].entries)
  {
    hide EncodeEntries;
    var front := ss[..|ss| - 1];
    assert ss[..k + 1][..k] == ss[..k];
    if k < |ss| - 1 {
      SectionsAt(v, front, k);
      assert front[..k] == ss[..k] && front[..k + 1] == ss[..k + 1];
      var a, b, all := |EncodeSections(v, ss[..k])|, |EncodeSections(v, ss[..k + 1])|, EncodeSections(v, ss);
      assert all == EncodeSections(v, front) + EncodeEntries(v, ss[|ss| - 1].entries);
      assert all[a..b] == EncodeSections(v, front)[a..b];
    } else {
      assert ss[..k] == front && ss[..k + 1] == ss;
    }
  }

  lemma {:induction false} UpToNulOfSlot(name: Name, zeros: nat)
    requires 0 !in name
    ensures UpToNul(name + Zeros(zeros)) == name
  {
    if name != [] {
      assert (name + Zeros(zeros))[1..] == name[1..] + Zeros(zeros);
      UpToNulOfSlot(name[1..], zeros);
    }
  }

  predicate EntryFits(v: Version, e: Entry) {
    e.filter < Pow256(IndexWidth(v))
  }

  lemma EntryRoundTrip(v: Version, e: Entry, rest: Bytes)
    requires EntryFits(v, e)
    ensures DecodeEntry(EntrySize(v), EncodeEntry(v, e) + rest) == e
  {
    Pow256Widths();
    var w := IndexWidth(v);
    var a, b, c := BeBytes(e.filter, w), BeBytes(e.low, 8), BeBytes(e.high, 8);
    BeRoundTrip(e.filter, w);
    BeRoundTrip(e.low, 8);
    BeRoundTrip(e.high, 8);
    ThreeParts(a, b, c);
    var s := a + b + c + rest;
    assert s[..w] == a && s[w..w + 8] == b && s[w + 8..w + 16] == c;
  }

  lemma {:induction false} EncodeEntriesFront(v: Version, es: seq<Entry>)
    requires es != []
    ensures EncodeEntries(v, es) == EncodeEntry(v, es[0]) + EncodeEntries(v, es[1..])
  {
    hide EncodeEntry;
    if |es| > 1 {
      var front := es[..|es| - 1];
      EncodeEntriesFront(v, front);
      assert front[1..] == es[1..][..|es| - 2];
    } else {
      assert es[..0] == [] && es[1..] == [];
    }
  }

  lemma {:induction false} EntriesRoundTrip(v: Version, es: seq<Entry>)
    requires forall i :: 0 <= i < |es| ==> EntryFits(v, es[i])
    ensures DecodeEntries(EntrySize(v), EncodeEntries(v, es)) == es
  {
    if es != [] {
      hide EncodeEntry, DecodeEntry;
      var rest := EncodeEntries(v, es[1..]);
      EncodeEntriesFront(v, es);
      EntryRoundTrip(v, es[0], rest);
      EntriesRoundTrip(v, es[1..]);
      assert (EncodeEntry(v, es[0]) + rest)[EntrySize(v)..] == rest;
      assert es == [es[0]] + es[1..];
    }
  }
}
