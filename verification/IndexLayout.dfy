/** The bytes of `index.bin`, position by position, as the format is published: what a reader takes
    from any file, and what the writer puts where. Nothing here uses the encoder or the decoder. */
module IndexLayout {
  import opened ByteStrings
  import opened IndexFormat
  import opened IndexRoundTrip
  import opened LogOrder
  import opened Revocation
  import opened IndexWrite
  import opened IndexMeaning
  import opened IndexAgreement

  // Reading any file

  /** The file has this magic, its counts are `names` and `logs`, and it is long enough for the tables. */
  ghost predicate HasTables(content: Bytes, magic: string, header: nat, names: nat, logs: nat)
    requires forall i :: 0 <= i < |magic| ==> magic[i] < 128 as char
  {
    |content| >= header + 32 * names + 42 * logs && Ascii(magic) <= content
  }

  lemma OpenExactly(content: Bytes)
    ensures Open(content).Some? <==>
      (|content| >= 14 && HasTables(content, "upkiidx1", 14, BeValue(content[8..10]), BeValue(content[10..14]))) ||
      (|content| >= 13 && HasTables(content, "upkiidx0", 13, content[8], BeValue(content[9..13])))
  {
    MagicIsAscii();
    hide BeValue;
    OneByte(content);
    assert forall m: Bytes | |m| == 8 :: m <= content <==> |content| >= 8 && content[..8] == m;
    assert Magic(V0)[7] != Magic(V1)[7];
  }

  lemma OneByte(content: Bytes)
    ensures |content| > 8 ==> BeValue(content[8..9]) == content[8]
  {
    if |content| > 8 {
      assert content[8..9][..0] == [];
      assert content[8..9] == [content[8]];
    }
  }

  lemma MagicIsAscii()
    ensures Magic(V1) == Ascii("upkiidx1") && Magic(V0) == Ascii("upkiidx0")
  {
  }

  /** `header` is where the tables start. */
  ghost predicate Opens(content: Bytes, img: Image, header: nat) {
    Open(content) == Some(img) && header == (if img.entrySize == 18 then 14 else 13)
  }

  /** The counts, by version. */
  lemma CountsExactly(content: Bytes, img: Image, header: nat)
    requires Opens(content, img, header)
    ensures if img.entrySize == 18
      then |content| >= 14 && img.numFilenames == BeValue(content[8..10]) && img.numLogs == BeValue(content[10..14])
      else |content| >= 13 && img.numFilenames == content[8] && img.numLogs == BeValue(content[9..13])
    ensures img.entrySize == 18 <==> Ascii("upkiidx1") <= content
    ensures img.content == content && |content| >= header + |img.tables|
    ensures img.tables == content[header..header + |img.tables|]
  {
    MagicIsAscii();
    OneByte(content);
    hide BeValue;
    assert forall m: Bytes | |m| == 8 :: m <= content <==> |content| >= 8 && content[..8] == m;
    assert Magic(V0)[7] != Magic(V1)[7];
  }

  lemma TableSlice(content: Bytes, img: Image, header: nat, a: nat, b: nat)
    requires Opens(content, img, header) && a <= b <= |img.tables|
    ensures header + b <= |content| && img.tables[a..b] == content[header + a..header + b]
  {
    CountsExactly(content, img, header);
    hide Opens;
    SliceOfSlice(content, header, header + |img.tables|, a, b);
  }

  /** A name is the part of its 32-byte slot before the first NUL, or all of it. */
  lemma NameExactly(content: Bytes, img: Image, header: nat, i: nat)
    requires Opens(content, img, header) && i < img.numFilenames
    ensures var at, name := header + 32 * i, NameAt(img, i);
      |name| <= 32 && at + 32 <= |content| && name == content[at..at + |name|] && 0 !in name &&
      (|name| < 32 ==> content[at + |name|] == 0)
  {
    assert ImageOk(img);
    hide Opens, UpToNul;
    TableSlice(content, img, header, 32 * i, 32 * i + 32);
    var slot := img.tables[32 * i..32 * i + 32];
    UpToNulExactly(slot);
    var at, name := header + 32 * i, NameAt(img, i);
    assert slot == content[at..at + 32];
    assert forall n: nat | n < 32 :: slot[n] == content[at + n];
    assert slot[..|name|] == content[at..at + |name|];
  }

  lemma {:induction false} UpToNulExactly(s: Bytes)
    ensures |UpToNul(s)| <= |s| && UpToNul(s) == s[..|UpToNul(s)|] && 0 !in UpToNul(s)
    ensures |UpToNul(s)| < |s| ==> s[|UpToNul(s)|] == 0
  {
    if s != [] && s[0] != 0 {
      UpToNulExactly(s[1..]);
    }
  }

  /** Directory slot `k`: log ID, offset and count. */
  lemma DirExactly(content: Bytes, img: Image, header: nat, k: nat)
    requires Opens(content, img, header) && k < img.numLogs
    ensures var at := header + 32 * img.numFilenames + 42 * k;
      at + 42 <= |content| && DirLogId(img, k) == content[at..at + 32] &&
      DirOffset(img, k) == BeValue(content[at + 32..at + 40]) && DirCount(img, k) == BeValue(content[at + 40..at + 42])
  {
    assert ImageOk(img);
    hide Opens, BeValue;
    var at := 32 * img.numFilenames + 42 * k;
    TableSlice(content, img, header, at, at + 32);
    TableSlice(content, img, header, at + 32, at + 40);
    TableSlice(content, img, header, at + 40, at + 42);
  }

  /** The section of slot `k` can be read exactly if its offset is one a file can have and its bytes are
      there; it has as many entries as the directory says, each of three big-endian integers. */
  lemma SectionExactly(content: Bytes, img: Image, header: nat, k: nat)
    requires Opens(content, img, header) && k < img.numLogs
    ensures var offset, count, size := DirOffset(img, k), DirCount(img, k), img.entrySize;
      (SectionAt(img, k).Some? <==>
        offset < 0x8000_0000_0000_0000 && (count == 0 || offset + count * size <= |content|)) &&
      (SectionAt(img, k).Some? ==>
        |SectionAt(img, k).value| == count &&
        forall j :: 0 <= j < count ==> EntryStands(content, offset + j * size, size, SectionAt(img, k).value[j]))
  {
    var offset, count, size := DirOffset(img, k), DirCount(img, k), img.entrySize;
    assert content == img.content && (size == 17 || size == 18);
    hide Open, Opens, DirOffset, DirCount, BeValue, EntryStands, DecodeEntries;
    SizePositive(count, size);
    if SectionAt(img, k).Some? {
      EntriesStand(content, offset, count, size);
    }
  }

  lemma EntriesStand(content: Bytes, offset: nat, count: nat, size: nat)
    requires (size == 17 || size == 18) && ReadAt(content, offset, count * size).Some?
    ensures var es := DecodeEntries(size, ReadAt(content, offset, count * size).value);
      |es| == count && forall j :: 0 <= j < count ==> EntryStands(content, offset + j * size, size, es[j])
  {
    var s := ReadAt(content, offset, count * size).value;
    hide EntryStands, DecodeEntries, DecodeEntry;
    DecodeCount(size, s, count);
    SizePositive(count, size);
    forall j | 0 <= j < count
      ensures EntryStands(content, offset + j * size, size, DecodeEntries(size, s)[j])
    {
      DecodeAt(size, s, count, j);
      EntryMoves(content, offset, count, size, j, s);
    }
  }

  /** The entry of `size` bytes at `at`: filter index, low and high timestamp. */
  ghost predicate EntryStands(content: Bytes, at: nat, size: nat, e: Entry) {
    16 < size <= 18 && at + size <= |content| &&
    e.filter == BeValue(content[at..at + size - 16]) &&
    e.low == BeValue(content[at + size - 16..at + size - 8]) && e.high == BeValue(content[at + size - 8..at + size])
  }

  lemma SizePositive(count: nat, size: nat)
    requires size > 0
    ensures count * size == 0 <==> count == 0
  {
  }

  lemma InSize(count: nat, size: nat, j: nat)
    requires j < count
    ensures j * size + size <= count * size
  {
    var d := count - j - 1;
    assert count == j + 1 + d;
    Distributes(j, 1 + d, size);
    Distributes(1, d, size);
    ProductNonNegative(d, size);
  }

  lemma Distributes(a: nat, b: nat, c: nat)
    ensures (a + b) * c == a * c + b * c
  {
  }

  lemma EntryShifts(content: Bytes, offset: nat, s: Bytes, at: nat, a: nat, b: nat)
    requires offset + |s| <= |content| && s == content[offset..offset + |s|] && at + b <= |s| && a <= b
    ensures s[at..][a..b] == content[offset + at + a..offset + at + b]
  {
    assert s[at..] == s[at..|s|];
    SliceOfSlice(s, at, |s|, a, b);
    SliceOfSlice(content, offset, offset + |s|, at + a, at + b);
    assert content[offset + (at + a)..offset + (at + b)] == content[offset + at + a..offset + at + b];
  }

  lemma EntryMoves(content: Bytes, offset: nat, count: nat, size: nat, j: nat, s: Bytes)
    requires (size == 17 || size == 18) && j < count && offset + count * size <= |content|
    requires s == content[offset..offset + count * size]
    ensures j * size + size <= |s|
    ensures EntryStands(content, offset + j * size, size, DecodeEntry(size, s[j * size..]))
  {
    hide BeValue;
    InSize(count, size, j);
    EntryShifts(content, offset, s, j * size, 0, size - 16);
    EntryShifts(content, offset, s, j * size, size - 16, size - 8);
    EntryShifts(content, offset, s, j * size, size - 8, size);
  }

  lemma {:induction false} DecodeCount(size: nat, s: Bytes, count: nat)
    requires (size == 17 || size == 18) && |s| == count * size
    ensures |DecodeEntries(size, s)| == count
    decreases count
  {
    hide DecodeEntry;
    if count > 0 {
      InSize(count, size, 0);
      assert (count - 1) * size == count * size - size;
      DecodeCount(size, s[size..], count - 1);
    }
  }

  lemma {:induction false} DecodeAt(size: nat, s: Bytes, count: nat, j: nat)
    requires (size == 17 || size == 18) && |s| == count * size && j < count
    ensures j * size + size <= |s| && |DecodeEntries(size, s)| == count
    ensures DecodeEntries(size, s)[j] == DecodeEntry(size, s[j * size..])
    decreases j
  {
    DecodeCount(size, s, count);
    InSize(count, size, j);
    InSize(count, size, 0);
    hide DecodeEntry;
    if j > 0 {
      assert (count - 1) * size == count * size - size && (j - 1) * size == j * size - size;
      DecodeAt(size, s[size..], count - 1, j - 1);
      assert s[size..][(j - 1) * size..] == s[j * size..];
    }
  }

  // What the writer writes

  /** The start of directory slot `k` in a version 1 file of `n` names. */
  function SlotStart(n: nat, k: nat): nat { 14 + 32 * n + 42 * k }

  /** The fields of directory slot `k`, wherever the file has that slot. */
  function IdIn(data: Bytes, n: nat, k: nat): LogId {
    var at := SlotStart(n, k);
    if at + 42 <= |data| then data[at..at + 32] else Zeros(32)
  }

  function OffsetIn(data: Bytes, n: nat, k: nat): nat {
    var at := SlotStart(n, k);
    if at + 42 <= |data| then BeValue(data[at + 32..at + 40]) else 0
  }

  function CountIn(data: Bytes, n: nat, k: nat): nat {
    var at := SlotStart(n, k);
    if at + 42 <= |data| then BeValue(data[at + 40..at + 42]) else 0
  }

  /** `data` is the version 1 file of `ix`, and `img` what is opened of it. */
  ghost predicate IsFileOf(data: Bytes, img: Image, ix: Logical) {
    Fits(V1, ix) && data == Encode(V1, ix) && img == Written(V1, ix) && Opens(data, img, 14) && Shows(img, ix)
  }

  /** There is an index exactly if every file has a name of at most 32 bytes, is there and decodes. */
  lemma BuiltExactly(files: seq<ManifestFile>, dir: Files, p: Platform)
    ensures IndexBytes(files, dir, p).Some? <==>
      forall i :: 0 <= i < |files| ==>
        |files[i].filename| <= 32 && files[i].filename in dir && p.decode(dir[files[i].filename]).Some?
    ensures IndexBytes(files, dir, p).Some? ==>
      |Cards(files, dir, p)| == |files| &&
      forall i :: 0 <= i < |files| ==> p.decode(dir[files[i].filename]) == Some(Cards(files, dir, p)[i])
  {
    hide Encode, SectionsOf;
    assert Readable(files, dir, p) <==> forall i :: 0 <= i < |files| ==> ReadableFile(files[i], dir, p);
  }

  lemma WrittenOpens(files: seq<ManifestFile>, dir: Files, p: Platform) returns (img: Image)
    requires Indexable(files, dir, p)
    ensures IndexBytes(files, dir, p).Some?
    ensures IsFileOf(IndexBytes(files, dir, p).value, img, Inversion(Names(files), Cards(files, dir, p)))
  {
    var ix := Inversion(Names(files), Cards(files, dir, p));
    InversionSound(files, dir, p);
    RoundTrip(V1, ix);
    img := Written(V1, ix);
    hide Encode, Open, Shows, Fits, Inversion, NameTable, DirTable;
  }

  lemma SlotIs(data: Bytes, img: Image, ix: Logical, i: nat)
    requires IsFileOf(data, img, ix) && i < |ix.names|
    ensures |ix.names[i]| <= 32 && 14 + 32 * i + 32 <= |data|
    ensures data[14 + 32 * i..14 + 32 * i + 32] == ix.names[i] + Zeros(32 - |ix.names[i]|)
  {
    hide Opens, NameTable, DirTable, Shows, Encode;
    assert NamesFit(ix.names);
    var table, rest := NameTable(ix.names), DirTable(V1, ix.sections, TablesEnd(V1, ix));
    assert img.tables == table + rest && |table| == 32 * |ix.names|;
    NameTableAt(ix.names, i);
    hide Written, IsFileOf, Fits, TablesEnd;
    assert img.tables[32 * i..32 * i + 32] == table[32 * i..32 * i + 32];
    TableSlice(data, img, 14, 32 * i, 32 * i + 32);
  }

  lemma DirSlotRaw(data: Bytes, img: Image, k: nat)
    requires Opens(data, img, 14) && k < img.numLogs
    ensures |data| >= SlotStart(img.numFilenames, img.numLogs) >= SlotStart(img.numFilenames, k) + 42
    ensures IdIn(data, img.numFilenames, k) == DirLogId(img, k)
    ensures OffsetIn(data, img.numFilenames, k) == DirOffset(img, k)
    ensures CountIn(data, img.numFilenames, k) == DirCount(img, k)
  {
    CountsExactly(data, img, 14);
    DirExactly(data, img, 14, k);
    assert ImageOk(img);
    hide Opens, DirLogId, DirOffset, DirCount, BeValue;
  }

  lemma FileFacts(data: Bytes, img: Image, ix: Logical)
    requires IsFileOf(data, img, ix)
    ensures Opens(data, img, 14) && Shows(img, ix) && Fits(V1, ix)
    ensures img == Written(V1, ix) && |data| == |Encode(V1, ix)|
    ensures img.numFilenames == |ix.names| && img.numLogs == |ix.sections| && img.entrySize == 18 && ImageOk(img)
    ensures TablesEnd(V1, ix) == SlotStart(|ix.names|, |ix.sections|)
  {
    hide Encode, Opens, Fits, Shows, NameTable, DirTable;
  }

  /** What directory slot `k` holds, and where its section ends. */
  lemma DirSlotIs(data: Bytes, img: Image, ix: Logical, k: nat)
    requires IsFileOf(data, img, ix) && k < |ix.sections| == img.numLogs && ImageOk(img)
    ensures |data| >= SlotStart(|ix.names|, |ix.sections|) >= SlotStart(|ix.names|, k) + 42
    ensures IdIn(data, |ix.names|, k) == ix.sections[k].logId
    ensures CountIn(data, |ix.names|, k) == |ix.sections[k].entries|
    ensures OffsetIn(data, |ix.names|, k) == DirOffset(img, k)
    ensures DirOffset(img, k) + 18 * |ix.sections[k].entries|
         == if k + 1 < |ix.sections| then DirOffset(img, k + 1) else |data|
    ensures DirOffset(img, 0) == SlotStart(|ix.names|, |ix.sections|)
  {
    FileFacts(data, img, ix);
    hide IsFileOf, Opens, Shows, Fits, Encode, EncodeSections, DirOffset, DirCount, DirLogId, Written, TablesEnd,
      IdIn, OffsetIn, CountIn, SlotStart;
    DirSlotRaw(data, img, k);
    SectionPlacement(V1, ix, k);
    WrittenDirEntry(V1, ix, k);
  }

  /** Entry `j` of section `k`. */
  lemma EntryIs(data: Bytes, img: Image, ix: Logical, k: nat, j: nat)
    requires IsFileOf(data, img, ix) && ImageOk(img)
    requires k < |ix.sections| == img.numLogs && j < |ix.sections[k].entries|
    ensures SlotStart(|ix.names|, k) + 42 <= |data|
    ensures EntryStands(data, OffsetIn(data, |ix.names|, k) + 18 * j, 18, ix.sections[k].entries[j])
  {
    FileFacts(data, img, ix);
    hide IsFileOf, Opens, Fits, Encode, DirOffset, DirCount, DirLogId, NameAt, SectionAt, EntryStands, OffsetIn,
      CountIn, IdIn, Written, TablesEnd, SlotStart;
    DirSlotIs(data, img, ix, k);
    assert SectionAt(img, k) == Some(ix.sections[k].entries);
    SectionExactly(data, img, 14, k);
  }

  /** Magic and counts, and the names in order, each padded with NULs to 32 bytes. */
  ghost predicate HeaderStands(data: Bytes, names: seq<Name>, logs: nat) {
    |data| >= SlotStart(|names|, logs) && Ascii("upkiidx1") <= data &&
    BeValue(data[8..10]) == |names| && BeValue(data[10..14]) == logs &&
    forall i :: 0 <= i < |names| ==> NameStands(data, 14 + 32 * i, names[i])
  }

  lemma HeaderOf(data: Bytes, img: Image, ix: Logical)
    requires IsFileOf(data, img, ix)
    ensures HeaderStands(data, ix.names, |ix.sections|)
  {
    hide IsFileOf, Opens, Shows, Fits, Encode, Written, BeValue;
    FileFacts(data, img, ix);
    LargeEnough(data, img, ix);
    CountsExactly(data, img, 14);
    forall i | 0 <= i < |ix.names|
      ensures NameStands(data, 14 + 32 * i, ix.names[i])
    {
      SlotIs(data, img, ix, i);
    }
  }

  lemma WrittenHeader(files: seq<ManifestFile>, dir: Files, p: Platform)
    requires Indexable(files, dir, p)
    ensures IndexBytes(files, dir, p).Some?
    ensures HeaderStands(IndexBytes(files, dir, p).value, Names(files), |Ids(Cards(files, dir, p))|)
  {
    var img := WrittenOpens(files, dir, p);
    var cards := Cards(files, dir, p);
    SectionsSorted(Names(files), cards);
    hide IndexBytes, Ids, Cards, Indexable, IsFileOf, SectionsOf, HeaderStands;
    HeaderOf(IndexBytes(files, dir, p).value, img, Inversion(Names(files), cards));
  }

  ghost predicate NameStands(data: Bytes, at: nat, name: Name) {
    |name| <= 32 && at + 32 <= |data| && data[at..at + 32] == name + Zeros(32 - |name|)
  }

  lemma LargeEnough(data: Bytes, img: Image, ix: Logical)
    requires IsFileOf(data, img, ix)
    ensures |data| >= SlotStart(|ix.names|, |ix.sections|)
  {
    FileFacts(data, img, ix);
    assert ImageOk(img);
    hide IsFileOf, Opens, Shows, Fits, Encode, Written, TablesEnd;
    CountsExactly(data, img, 14);
  }

  lemma IdsOf(data: Bytes, img: Image, ix: Logical)
    requires IsFileOf(data, img, ix) && |data| >= SlotStart(|ix.names|, |ix.sections|)
    ensures forall k :: 0 <= k < |ix.sections| ==> IdIn(data, |ix.names|, k) == ix.sections[k].logId
  {
    hide IsFileOf, Opens, Shows, Fits, Encode, Written, TablesEnd, IdIn, ImageOk;
    FileFacts(data, img, ix);
    forall k | 0 <= k < |ix.sections|
      ensures IdIn(data, |ix.names|, k) == ix.sections[k].logId
    {
      DirSlotIs(data, img, ix, k);
    }
  }

  lemma SectionsFollow(data: Bytes, img: Image, ix: Logical, k: nat)
    requires IsFileOf(data, img, ix) && |data| >= SlotStart(|ix.names|, |ix.sections|) && k < |ix.sections|
    ensures OffsetIn(data, |ix.names|, k) + 18 * CountIn(data, |ix.names|, k) ==
      if k + 1 < |ix.sections| then OffsetIn(data, |ix.names|, k + 1) else |data|
    ensures OffsetIn(data, |ix.names|, 0) == SlotStart(|ix.names|, |ix.sections|)
  {
    hide IsFileOf, Opens, Shows, Fits, Encode, Written, TablesEnd, IdIn, OffsetIn, CountIn, DirOffset, SlotStart,
      ImageOk;
    FileFacts(data, img, ix);
    DirSlotIs(data, img, ix, k);
    DirSlotIs(data, img, ix, 0);
    if k + 1 < |ix.sections| {
      DirSlotIs(data, img, ix, k + 1);
    }
  }

  lemma SectionIds(cards: seq<Clubcard>, id: LogId)
    ensures (exists k :: 0 <= k < |SectionsOf(cards)| && SectionsOf(cards)[k].logId == id) <==> LogCovered(cards, id)
  {
    IdsExactly(cards, id);
    hide SectionsOf, Ids;
    if id in Ids(cards) {
      SectionExists(cards, id);
    }
    if k :| 0 <= k < |SectionsOf(cards)| && SectionsOf(cards)[k].logId == id {
      SectionsAre(cards, k);
    }
  }

  /** Directory: the logs covered, each once, ascending as byte strings; the first section starts where
      the directory ends, each other where the one before it ends, and the last ends the file. */
  ghost predicate DirectoryStands(data: Bytes, n: nat, logs: nat, cards: seq<Clubcard>) {
    |data| >= SlotStart(n, logs) &&
    (forall k, l :: 0 <= k < l < logs ==> Precedes(IdIn(data, n, k), IdIn(data, n, l))) &&
    (forall id: LogId :: LogListed(data, n, logs, id) <==> LogCovered(cards, id)) &&
    (forall k :: 0 <= k < logs ==>
      OffsetIn(data, n, k) + 18 * CountIn(data, n, k) == if k + 1 < logs then OffsetIn(data, n, k + 1) else |data|) &&
    (if logs > 0 then OffsetIn(data, n, 0) == SlotStart(n, logs) else |data| == SlotStart(n, 0))
  }

  lemma DirectoryOf(data: Bytes, img: Image, ix: Logical, cards: seq<Clubcard>)
    requires IsFileOf(data, img, ix) && SortedSections(ix) && ix.sections == SectionsOf(cards)
    ensures DirectoryStands(data, |ix.names|, |ix.sections|, cards)
  {
    hide IsFileOf, SectionsOf, Precedes, IdIn, OffsetIn, CountIn, SlotStart, LogCovered;
    LargeEnough(data, img, ix);
    IdsOf(data, img, ix);
    if |ix.sections| == 0 {
      EndsWithTables(data, img, ix);
    }
    forall k | 0 <= k < |ix.sections|
      ensures OffsetIn(data, |ix.names|, k) + 18 * CountIn(data, |ix.names|, k) ==
        if k + 1 < |ix.sections| then OffsetIn(data, |ix.names|, k + 1) else |data|
    {
      SectionsFollow(data, img, ix, k);
    }
    if |ix.sections| > 0 {
      SectionsFollow(data, img, ix, 0);
    }
    forall id: LogId
      ensures LogListed(data, |ix.names|, |ix.sections|, id) <==> LogCovered(cards, id)
    {
      SectionIds(cards, id);
    }
  }

  lemma EndsWithTables(data: Bytes, img: Image, ix: Logical)
    requires IsFileOf(data, img, ix) && ix.sections == []
    ensures |data| == SlotStart(|ix.names|, 0)
  {
    hide Opens, Shows, Fits, Written, BeBytes, NameTable;
  }

  lemma WrittenDirectory(files: seq<ManifestFile>, dir: Files, p: Platform)
    requires Indexable(files, dir, p)
    ensures IndexBytes(files, dir, p).Some?
    ensures var cards := Cards(files, dir, p);
      DirectoryStands(IndexBytes(files, dir, p).value, |files|, |Ids(cards)|, cards)
  {
    var img := WrittenOpens(files, dir, p);
    var cards := Cards(files, dir, p);
    SectionsSorted(Names(files), cards);
    hide IndexBytes, Ids, Cards, Indexable, IsFileOf, SectionsOf, DirectoryStands;
    DirectoryOf(IndexBytes(files, dir, p).value, img, Inversion(Names(files), cards), cards);
  }

  ghost predicate LogListed(data: Bytes, n: nat, logs: nat, id: LogId) {
    exists k :: 0 <= k < logs && IdIn(data, n, k) == id
  }

  ghost predicate LogCovered(cards: seq<Clubcard>, id: LogId) {
    exists card :: card in cards && id in card.universe
  }

  lemma {:induction false} IdsExactly(cards: seq<Clubcard>, id: LogId)
    ensures id in Ids(cards) <==> LogCovered(cards, id)
  {
    if cards != [] {
      IdsExactly(cards[..|cards| - 1], id);
      assert forall card :: card in cards <==> card in cards[..|cards| - 1] || card == cards[|cards| - 1];
    }
  }

  /** Entries: section `k` has one for each filter that covers its log, in manifest order, with the
      interval of that filter. */
  ghost predicate SectionStands(data: Bytes, n: nat, k: nat, cards: seq<Clubcard>) {
    |data| >= SlotStart(n, k) + 42 &&
    exists es: seq<Entry> :: |es| == CountIn(data, n, k) && EntriesOfLog(cards, IdIn(data, n, k), es) &&
      forall j :: 0 <= j < |es| ==> EntryStands(data, OffsetIn(data, n, k) + 18 * j, 18, es[j])
  }

  lemma SectionOf(data: Bytes, img: Image, ix: Logical, cards: seq<Clubcard>, k: nat)
    requires IsFileOf(data, img, ix) && |cards| < U16_LIMIT && ix.sections == SectionsOf(cards)
    requires k < |ix.sections| == img.numLogs && ImageOk(img)
    ensures SectionStands(data, |ix.names|, k, cards)
  {
    hide IdIn, OffsetIn, CountIn, IsFileOf, SectionsOf, DirOffset, EntryStands, EntriesOfLog, EntriesFor, SlotStart,
      Ids, LogCovered;
    var es := ix.sections[k].entries;
    SectionsAre(cards, k);
    EntriesAre(cards, ix.sections[k].logId);
    DirSlotIs(data, img, ix, k);
    forall j | 0 <= j < |es|
      ensures EntryStands(data, OffsetIn(data, |ix.names|, k) + 18 * j, 18, es[j])
    {
      EntryIs(data, img, ix, k, j);
    }
  }

  lemma WrittenEntries(files: seq<ManifestFile>, dir: Files, p: Platform, k: nat)
    requires Indexable(files, dir, p) && k < |Ids(Cards(files, dir, p))|
    ensures IndexBytes(files, dir, p).Some?
    ensures SectionStands(IndexBytes(files, dir, p).value, |files|, k, Cards(files, dir, p))
  {
    var img := WrittenOpens(files, dir, p);
    var data, cards := IndexBytes(files, dir, p).value, Cards(files, dir, p);
    var ix := Inversion(Names(files), cards);
    SectionsSorted(Names(files), cards);
    FileFacts(data, img, ix);
    hide IndexBytes, Ids, Cards, Indexable, IsFileOf, SectionsOf, SectionStands, Opens, Shows, Fits, Encode, Written;
    SectionOf(data, img, ix, cards, k);
  }

  /** The entries of one log: filter indexes ascend, and each filter is there exactly if it covers the
      log, with its own interval. */
  ghost predicate EntriesOfLog(cards: seq<Clubcard>, id: LogId, es: seq<Entry>) {
    FiltersAscend(es) && forall e :: e in es <==> EntryOfLog(cards, id, e)
  }

  ghost predicate EntryOfLog(cards: seq<Clubcard>, id: LogId, e: Entry) {
    e.filter < |cards| && id in cards[e.filter].universe && cards[e.filter].universe[id] == Interval(e.low, e.high)
  }

  ghost predicate FiltersAscend(es: seq<Entry>) {
    forall i, j :: 0 <= i < j < |es| ==> es[i].filter < es[j].filter
  }

  lemma OneMoreFilter(front: seq<Entry>, last: seq<Entry>, n: nat)
    requires FiltersAscend(front) && forall e :: e in front ==> e.filter < n
    requires |last| <= 1 && forall e :: e in last ==> e.filter == n
    ensures FiltersAscend(front + last)
  {
    assert forall i :: 0 <= i < |front| ==> front[i] in front;
  }

  lemma {:induction false} EntriesAscend(cards: seq<Clubcard>, id: LogId)
    requires |cards| < U16_LIMIT
    ensures FiltersAscend(EntriesFor(cards, id))
  {
    if cards != [] {
      var n := |cards| - 1;
      var front, last := EntriesFor(cards[..n], id), OwnEntry(cards[n], n, id);
      assert EntriesFor(cards, id) == front + last;
      EntriesForAre(cards[..n], id);
      EntriesAscend(cards[..n], id);
      hide EntriesFor, FiltersAscend;
      OneMoreFilter(front, last, n);
    }
  }

  lemma EntriesAre(cards: seq<Clubcard>, id: LogId)
    requires |cards| < U16_LIMIT
    ensures EntriesOfLog(cards, id, EntriesFor(cards, id))
  {
    hide EntriesFor, OwnEntry;
    EntriesAscend(cards, id);
    EntriesForAre(cards, id);
    forall e
      ensures e in EntriesFor(cards, id) <==> EntryOfLog(cards, id, e)
    {
      if e.filter < |cards| {
        OwnEntryIs(cards[e.filter], id, e);
      }
    }
  }

  lemma OwnEntryIs(card: Clubcard, id: LogId, e: Entry)
    requires e.filter < U16_LIMIT
    ensures e in OwnEntry(card, e.filter, id) <==> id in card.universe && card.universe[id] == Interval(e.low, e.high)
  {
  }
}
