/** `Index::from_cache` and `Index::check`, on any bytes and any cache directory. */
module IndexCheck {
  import opened ByteStrings
  import opened IndexFormat
  import opened LogOrder
  import opened Revocation

  datatype Error = FileRead | FileDecode | IndexDecode
  datatype Result<+T> = Ok(value: T) | Err(error: Error)

  // What a check means: every entry that covers an SCT has its filter asked, in order,
  // and a filter is asked again each time it comes up.

  /** Everything a check depends on. */
  datatype Query = Query(img: Image, input: RevocationCheckInput, dir: Files, p: Platform)

  /** One encounter with a covering entry: its filter is asked, or its file name is unusable. */
  datatype Step = Consult(filter: nat) | Fail

  function Search(img: Image, id: Bytes, lo: nat, hi: nat): (r: Option<nat>)
    requires ImageOk(img) && lo <= hi <= img.numLogs
    ensures r.Some? ==> lo <= r.value < hi
    decreases hi - lo
  {
    if lo >= hi then None else
      var mid := lo + (hi - lo) / 2;
      match Compare(DirLogId(img, mid), id)
      case Less => Search(img, id, mid + 1, hi)
      case Equal => Some(mid)
      case Greater => Search(img, id, lo, mid)
  }

  /** The log IDs of the directory ascend, as byte strings. */
  ghost predicate SortedDirectory(img: Image)
    requires ImageOk(img)
  {
    forall i, j :: 0 <= i < j < img.numLogs ==> Precedes(DirLogId(img, i), DirLogId(img, j))
  }

  /** What is found is there, on any directory; what is there is found, on a sorted one. */
  lemma {:induction false} SearchExact(img: Image, id: LogId, lo: nat, hi: nat)
    requires ImageOk(img) && lo <= hi <= img.numLogs
    ensures Search(img, id, lo, hi).Some? ==> DirLogId(img, Search(img, id, lo, hi).value) == id
    ensures SortedDirectory(img) ==>
      forall k :: lo <= k < hi && DirLogId(img, k) == id ==> Search(img, id, lo, hi) == Some(k)
    decreases hi - lo
  {
    hide DirLogId, Compare, Precedes;
    if lo < hi {
      var mid := lo + (hi - lo) / 2;
      var at := DirLogId(img, mid);
      CompareEqual(at, id);
      CompareFlips(at, id);
      CompareFlips(id, at);
      LtIsPrecedes(at, id);
      LtIsPrecedes(id, at);
      SearchExact(img, id, mid + 1, hi);
      SearchExact(img, id, lo, mid);
      if SortedDirectory(img) {
        forall k | lo <= k < hi && DirLogId(img, k) == id
          ensures Search(img, id, lo, hi) == Some(k)
        {
          LtTotal(at, id);
          if k < mid {
            assert Precedes(DirLogId(img, k), DirLogId(img, mid));
          } else if k > mid {
            assert Precedes(DirLogId(img, mid), DirLogId(img, k));
          }
        }
      }
    }
  }

  predicate Covers(e: Entry, timestamp: u64) { e.low <= timestamp <= e.high }

  function StepOf(q: Query, i: nat): Step
    requires ImageOk(q.img)
  {
    if i < q.img.numFilenames && q.p.utf8(NameAt(q.img, i)) then Consult(i) else Fail
  }

  function StepsOf(q: Query, e: Entry, timestamp: u64): seq<Step>
    requires ImageOk(q.img)
  {
    if Covers(e, timestamp) then [StepOf(q, e.filter)] else []
  }

  function EntrySteps(q: Query, es: seq<Entry>, timestamp: u64): seq<Step>
    requires ImageOk(q.img)
  {
    if es == [] then []
    else StepsOf(q, es[0], timestamp) + EntrySteps(q, es[1..], timestamp)
  }

  function SctSteps(q: Query, sct: Sct): seq<Step>
    requires ImageOk(q.img)
  {
    match Search(q.img, sct.logId, 0, q.img.numLogs)
    case None => []
    case Some(k) =>
      match SectionAt(q.img, k)
      case None => [Fail]
      case Some(es) => EntrySteps(q, es, sct.timestamp)
  }

  function Steps(q: Query, scts: seq<Sct>): seq<Step>
    requires ImageOk(q.img)
  {
    if scts == [] then [] else SctSteps(q, scts[0]) + Steps(q, scts[1..])
  }

  /** The answer of the filter in slot `i`, always to the whole list of SCTs. */
  function Answer(q: Query, i: nat): Result<CRLiteStatus>
    requires ImageOk(q.img) && i < q.img.numFilenames
  {
    match ContentOf(q.dir, NameAt(q.img, i))
    case None => Err(FileRead)
    case Some(data) =>
      match q.p.decode(data)
      case None => Err(FileDecode)
      case Some(card) => Ok(card.contains(q.input.Key(), q.input.sctTimestamps))
  }

  function Fold(q: Query, steps: seq<Step>, good: bool): Result<RevocationStatus>
    requires ImageOk(q.img)
  {
    if steps == [] then Ok(if good then NotRevoked else NotCoveredByRevocationData)
    else match steps[0]
      case Fail => Err(IndexDecode)
      case Consult(i) =>
        if i >= q.img.numFilenames then Err(IndexDecode)
        else match Answer(q, i)
          case Err(e) => Err(e)
          case Ok(Revoked) => Ok(CertainlyRevoked)
          case Ok(Good) => Fold(q, steps[1..], true)
          case Ok(_) => Fold(q, steps[1..], good)
  }

  function Verdict(q: Query): Result<RevocationStatus>
    requires ImageOk(q.img)
  {
    Fold(q, Steps(q, q.input.sctTimestamps), false)
  }

  /** Opening an index file with this content and checking against it. */
  function CheckBytes(content: Bytes, input: RevocationCheckInput, dir: Files, p: Platform): Result<RevocationStatus> {
    match Open(content)
    case None => Err(IndexDecode)
    case Some(img) => Verdict(Query(img, input, dir, p))
  }

  // Reading

  /** `read_be`: the next big-endian integer, and the cursor after it. */
  function ReadBe(data: Bytes, n: nat): Option<(nat, Bytes)> {
    if |data| < n then None else Some((BeValue(data[..n]), data[n..]))
  }

  /** What goes wrong outside the program while the index file is used: seeks and reads that fail, and
      metadata that cannot be had. */
  class Disk {
    ghost var faults: nat
    ghost var metadataFaults: nat

    constructor ()
      ensures faults == 0 && metadataFaults == 0
    {
      faults, metadataFaults := 0, 0;
    }
  }

  /** The open index file. Its content cannot change: a new index replaces the file. */
  class IndexFile {
    const content: Bytes
    const disk: Disk
    var pos: nat

    constructor (content: Bytes, disk: Disk)
      ensures this.content == content && this.disk == disk && pos == 0
    {
      this.content := content;
      this.disk := disk;
      pos := 0;
    }

    method Seek(offset: nat) returns (ok: bool)
      modifies this, disk`faults
      ensures ok ==> pos == offset
      ensures ok <==> disk.faults == old(disk.faults) && offset < U63_LIMIT
      ensures disk.faults == old(disk.faults) || disk.faults == old(disk.faults) + 1
    {
      if * {
        disk.faults := disk.faults + 1;
        return false;
      }
      ok := offset < U63_LIMIT;
      if ok {
        pos := offset;
      }
    }

    method ReadExact(n: nat) returns (r: Option<Bytes>)
      modifies this, disk`faults
      ensures r.Some? <==> disk.faults == old(disk.faults) && (n == 0 || old(pos) + n <= |content|)
      ensures r.Some? ==> pos == old(pos) + n
      ensures r.Some? && n > 0 ==> r.value == content[old(pos)..old(pos) + n]
      ensures r.Some? && n == 0 ==> r.value == []
      ensures disk.faults == old(disk.faults) || disk.faults == old(disk.faults) + 1
    {
      if n == 0 {
        return Some([]);
      }
      if * {
        disk.faults := disk.faults + 1;
        return None;
      }
      if pos + n <= |content| {
        r := Some(content[pos..pos + n]);
        pos := pos + n;
      } else {
        return None;
      }
    }

    /** The length in the metadata of the file. */
    method Length() returns (n: Option<nat>)
      modifies disk`metadataFaults
      ensures n == if disk.metadataFaults == old(disk.metadataFaults) then Some(|content|) else None
      ensures disk.metadataFaults == old(disk.metadataFaults) || disk.metadataFaults == old(disk.metadataFaults) + 1
    {
      if * {
        disk.metadataFaults := disk.metadataFaults + 1;
        return None;
      }
      n := Some(|content|);
    }
  }

  /** One read of a filter file, with the content found, or `None` if it could not be read. */
  datatype Load = Load(name: Name, content: Option<Bytes>)

  /** The cache directory as a check sees it. `Read` is the only way to the content of a filter file
      and logs every read. What a read finds is up to the file system, and may change between two. */
  class FilterDir {
    ghost var loads: seq<Load>

    ghost constructor ()
      ensures loads == []
    {
      loads := [];
    }

    method Read(name: Name) returns (content: Option<Bytes>)
      modifies this
      ensures loads == old(loads) + [Load(name, content)]
    {
      content := *;
      loads := loads + [Load(name, content)];
    }
  }

  /** The reads from number `from` on found what `dir` holds. */
  ghost predicate Sees(loads: seq<Load>, from: nat, dir: Files) {
    forall k :: from <= k < |loads| ==> loads[k].content == ContentOf(dir, loads[k].name)
  }

  /** The reads from number `from` on are one for each filter in `asked`, in that order, and no filter
      is in `asked` twice. */
  ghost predicate LoadedOnce(img: Image, loads: seq<Load>, from: nat, asked: seq<nat>)
    requires ImageOk(img)
  {
    DistinctBelow(asked, img.numFilenames) && |loads| == from + |asked| &&
    forall k :: 0 <= k < |asked| ==> asked[k] < img.numFilenames && loads[from + k].name == NameAt(img, asked[k])
  }

  /** Between `asked` and `asked'` only filters of `steps` are added: all of them if `all` is true. */
  ghost predicate AskedFor(steps: seq<Step>, asked: seq<nat>, asked': seq<nat>, all: bool) {
    asked <= asked' &&
    (forall i :: i in asked' ==> i in asked || Consult(i) in steps) &&
    (all ==> forall i :: Consult(i) in steps ==> i in asked')
  }

  /** The same part of the way, with the steps `left` still to come. */
  ghost predicate AskedUpTo(steps: seq<Step>, left: seq<Step>, asked: seq<nat>, asked': seq<nat>) {
    AskedFor(steps, asked, asked', false) &&
    (forall s :: s in left ==> s in steps) &&
    (forall i :: Consult(i) in steps ==> i in asked' || Consult(i) in left)
  }

  lemma AskedMore(steps: seq<Step>, head: seq<Step>, left: seq<Step>, asked: seq<nat>, mid: seq<nat>,
                  asked': seq<nat>, all: bool)
    requires AskedUpTo(steps, head + left, asked, mid) && AskedFor(head, mid, asked', all)
    ensures AskedFor(steps, asked, asked', false) && (all ==> AskedUpTo(steps, left, asked, asked'))
  {
    assert forall s :: s in head + left <==> s in head || s in left;
    assert forall i :: i in mid ==> i in asked';
  }

  /** The version that the first eight bytes stand for, if they can be read and stand for one. */
  method ReadMagic(file: IndexFile) returns (version: Option<Version>)
    requires file.pos == 0
    modifies file, file.disk`faults
    ensures file.disk.faults >= old(file.disk.faults)
    ensures version == if file.disk.faults == old(file.disk.faults) then MagicVersion(file.content) else None
    ensures version.Some? ==> file.pos == 8 <= |file.content|
  {
    var magic := file.ReadExact(8);
    if magic.None? {
      return None;
    }
    version := MagicVersion(magic.value);
    assert magic.value[..8] == file.content[..8];
  }

  /** The two counts that follow the magic. */
  method ReadCounts(v: Version, header: Bytes, ghost content: Bytes) returns (numFilenames: nat, numLogs: nat)
    requires |content| >= HeaderSize(v) && header == content[8..HeaderSize(v)]
    ensures numFilenames == BeValue(content[8..8 + IndexWidth(v)])
    ensures numLogs == BeValue(content[8 + IndexWidth(v)..HeaderSize(v)])
  {
    hide BeValue;
    var first := ReadBe(header, IndexWidth(v));
    var second := ReadBe(first.value.1, 4);
    numFilenames, numLogs := first.value.0, second.value.0;
    assert header[..IndexWidth(v)] == content[8..8 + IndexWidth(v)];
    assert header[IndexWidth(v)..][..4] == content[8 + IndexWidth(v)..HeaderSize(v)];
  }

  class Index {
    const numFilenames: nat
    const numLogs: nat
    const logsOffset: nat
    const entrySize: nat
    const tables: Bytes
    const file: IndexFile

    ghost predicate Valid() {
      ImageOk(View()) && logsOffset == 32 * numFilenames
    }

    function View(): Image {
      Image(numFilenames, numLogs, entrySize, tables, file.content)
    }

    constructor (numFilenames: nat, numLogs: nat, logsOffset: nat, entrySize: nat, tables: Bytes, file: IndexFile)
      requires |tables| == logsOffset + 42 * numLogs && logsOffset == 32 * numFilenames
      requires entrySize == 17 || entrySize == 18
      ensures Valid() && this.file == file
      ensures View() == Image(numFilenames, numLogs, entrySize, tables, file.content)
    {
      this.numFilenames := numFilenames;
      this.numLogs := numLogs;
      this.logsOffset := logsOffset;
      this.entrySize := entrySize;
      this.tables := tables;
      this.file := file;
    }

    /** Without a fault it accepts exactly the files `Open` does; a missing file and missing metadata are
        a different error from a bad file. The tables kept are shorter than the file. */
    static method FromCache(indexBin: Option<IndexFile>) returns (r: Result<Index>)
      requires indexBin.Some? ==> indexBin.value.pos == 0
      modifies if indexBin.Some? then {indexBin.value, indexBin.value.disk} else {}
      ensures indexBin.None? ==> r == Err(FileRead)
      ensures indexBin.Some? ==>
        var file, disk := indexBin.value, indexBin.value.disk;
        disk.faults >= old(disk.faults) && (disk.faults > old(disk.faults) ==> r == Err(IndexDecode)) &&
        disk.metadataFaults >= old(disk.metadataFaults) &&
        (disk.metadataFaults > old(disk.metadataFaults) ==> r == Err(FileRead)) &&
        (disk.faults == old(disk.faults) && disk.metadataFaults == old(disk.metadataFaults) ==>
          if Open(file.content).None? then r == Err(IndexDecode)
          else r.Ok? && r.value.View() == Open(file.content).value)
      ensures r.Ok? ==> indexBin.Some? && r.value.file == indexBin.value && r.value.Valid() && fresh(r.value)
      ensures r.Ok? ==> |r.value.tables| < |indexBin.value.content|
    {
      if indexBin.None? {
        return Err(FileRead);
      }
      hide BeValue, MagicVersion;
      var file := indexBin.value;
      var version := ReadMagic(file);
      if version.None? {
        return Err(IndexDecode);
      }
      var v := version.value;
      var header := file.ReadExact(HeaderSize(v) - 8);
      if header.None? {
        return Err(IndexDecode);
      }
      var numFilenames, numLogs := ReadCounts(v, header.value, file.content);
      var logsOffset := numFilenames * 32;
      var tablesLen := logsOffset + numLogs * 42;
      var fileLen := file.Length();
      if fileLen.None? {
        return Err(FileRead);
      }
      if HeaderSize(v) + tablesLen > fileLen.value {
        return Err(IndexDecode);
      }
      var tables := file.ReadExact(tablesLen);
      if tables.None? {
        return Err(IndexDecode);
      }
      assert tables.value == file.content[HeaderSize(v)..HeaderSize(v) + tablesLen];
      var index := new Index(numFilenames, numLogs, logsOffset, EntrySize(v), tables.value, file);
      r := Ok(index);
    }

    /** The binary search of the log directory; it ends on any directory, sorted or not. What it finds is
        there, and in a sorted directory it finds what is there. */
    method Find(id: LogId) returns (k: Option<nat>)
      requires Valid()
      ensures k == Search(View(), id, 0, numLogs)
      ensures k.Some? ==> k.value < numLogs && DirLogId(View(), k.value) == id
      ensures SortedDirectory(View()) ==> forall i :: 0 <= i < numLogs && DirLogId(View(), i) == id ==> k == Some(i)
    {
      hide Compare, SortedDirectory;
      ghost var img := View();
      var lo, hi := 0, numLogs;
      while true
        invariant 0 <= lo <= hi <= numLogs
        invariant Search(img, id, lo, hi) == Search(img, id, 0, numLogs)
        decreases hi - lo
      {
        if lo >= hi {
          k := None;
          break;
        }
        var mid := lo + (hi - lo) / 2;
        var offset := logsOffset + mid * 42;
        assert tables[offset..offset + 32] == DirLogId(img, mid);
        match Compare(tables[offset..offset + 32], id)
        case Less => lo := mid + 1;
        case Equal =>
          k := Some(mid);
          break;
        case Greater => hi := mid;
      }
      SearchExact(View(), id, 0, numLogs);
    }

    /** Seek to the section of slot `k` and read it. */
    method ReadSection(k: nat) returns (count: nat, section: Option<Bytes>)
      requires Valid() && k < numLogs
      modifies file, file.disk`faults
      ensures count == DirCount(View(), k)
      ensures file.disk.faults == old(file.disk.faults) ==>
        section == ReadAt(file.content, DirOffset(View(), k), count * entrySize)
      ensures file.disk.faults >= old(file.disk.faults)
      ensures file.disk.faults > old(file.disk.faults) ==> section == None
      ensures section.Some? ==> |section.value| == count * entrySize
    {
      hide BeValue;
      var at := logsOffset + k * 42;
      var entryData := tables[at + 32..];
      var offset := ReadBe(entryData, 8).value;
      assert entryData[..8] == tables[at + 32..at + 40];
      assert entryData[8..][..2] == tables[at + 40..at + 42];
      count := ReadBe(offset.1, 2).value.0;
      var ok := file.Seek(offset.0);
      if !ok {
        return count, None;
      }
      section := file.ReadExact(count * entrySize);
    }

    /** `filename`: the only error other than invalid UTF-8 is an index past the table. */
    method FileName(i: nat, p: Platform) returns (name: Option<Name>)
      requires Valid()
      ensures name.Some? <==> i < numFilenames && p.utf8(NameAt(View(), i))
      ensures name.Some? ==> name.value == NameAt(View(), i)
    {
      if i >= numFilenames {
        return None;
      }
      var start := i * 32;
      var slot := tables[start..start + 32];
      var end := 0;
      while end < 32 && slot[end] != 0
        invariant 0 <= end <= 32
        invariant forall j :: 0 <= j < end ==> slot[j] != 0
      {
        end := end + 1;
      }
      UpToNulEnds(slot, end);
      name := if p.utf8(slot[..end]) then Some(slot[..end]) else None;
    }

    /** Only an error or "revoked" ends a check early. */
    ghost predicate Early(done: Option<Result<RevocationStatus>>) {
      done.Some? ==> done.value.Err? || done.value == Ok(CertainlyRevoked)
    }

    ghost predicate Poses(q: Query, input: RevocationCheckInput, p: Platform) {
      q.img == View() && q.input == input && q.p == p
    }

    /** One entry, for one SCT. `asked` lists the filters loaded so far by this check, the first of
        them by read number `from`; `later` are the steps that follow. */
    method CheckEntry(input: RevocationCheckInput, fd: FilterDir, p: Platform, e: Entry, timestamp: u64,
                      maybeGood: bool, seen: array<bool>,
                      ghost q: Query, ghost from: nat, ghost asked: seq<nat>, ghost later: seq<Step>)
      returns (done: Option<Result<RevocationStatus>>, good: bool, ghost asked': seq<nat>)
      requires Valid() && Poses(q, input, p)
      requires LoadedOnce(q.img, fd.loads, from, asked) && Marks(seen[..], asked, numFilenames)
      requires Sees(fd.loads, from, q.dir) ==> Remembered(q, asked, maybeGood)
      modifies seen, fd
      ensures LoadedOnce(q.img, fd.loads, from, asked') && Marks(seen[..], asked', numFilenames)
      ensures old(fd.loads) <= fd.loads && AskedFor(StepsOf(q, e, timestamp), asked, asked', done.None?)
      ensures Early(done)
      ensures Sees(fd.loads, from, q.dir) ==>
        Settles(q, StepsOf(q, e, timestamp), later, maybeGood, done, good) &&
        (done.None? ==> Remembered(q, asked', good))
    {
      hide NameAt;
      good, asked' := maybeGood, asked;
      assert [] + later == later;
      if e.low > timestamp || timestamp > e.high {
        return None, good, asked';
      }
      ghost var steps := StepsOf(q, e, timestamp) + later;
      assert steps[0] == StepOf(q, e.filter) && steps[1..] == later;
      var filename := FileName(e.filter, p);
      if filename.None? {
        return Some(Err(IndexDecode)), good, asked';
      }
      ghost var answer := Answer(q, e.filter);
      if seen[e.filter] {
        return None, good, asked';
      }
      ghost var before := seen[..];
      seen[e.filter] := true;
      assert seen[..] == before[e.filter := true];
      asked' := asked + [e.filter];
      var bytes := fd.Read(filename.value);
      assert Sees(fd.loads, from, q.dir) ==> bytes == ContentOf(q.dir, filename.value) by {
        assert fd.loads[from + |asked|] == Load(filename.value, bytes);
      }
      if bytes.None? {
        return Some(Err(FileRead)), good, asked';
      }
      var filter := p.decode(bytes.value);
      if filter.None? {
        return Some(Err(FileDecode)), good, asked';
      }
      var status := filter.value.contains(input.Key(), input.sctTimestamps);
      assert Sees(fd.loads, from, q.dir) ==> answer == Ok(status);
      match status
      case Revoked => return Some(Ok(CertainlyRevoked)), good, asked';
      case Good => return None, true, asked';
      case NotEnrolled => return None, good, asked';
      case NotCovered => return None, good, asked';
    }

    /** The entries of one section, for one SCT; `rest` are the steps of the later SCTs. */
    method CheckEntries(input: RevocationCheckInput, fd: FilterDir, p: Platform, section: Bytes, count: nat,
                        timestamp: u64, maybeGood: bool, seen: array<bool>,
                        ghost q: Query, ghost from: nat, ghost asked: seq<nat>, ghost rest: seq<Step>)
      returns (done: Option<Result<RevocationStatus>>, good: bool, ghost asked': seq<nat>)
      requires Valid() && Poses(q, input, p) && |section| == count * entrySize
      requires LoadedOnce(q.img, fd.loads, from, asked) && Marks(seen[..], asked, numFilenames)
      requires Sees(fd.loads, from, q.dir) ==> Remembered(q, asked, maybeGood)
      modifies seen, fd
      ensures LoadedOnce(q.img, fd.loads, from, asked') && Marks(seen[..], asked', numFilenames)
      ensures old(fd.loads) <= fd.loads
      ensures AskedFor(EntrySteps(q, DecodeEntries(entrySize, section), timestamp), asked, asked', done.None?)
      ensures Early(done)
      ensures Sees(fd.loads, from, q.dir) ==>
        Settles(q, EntrySteps(q, DecodeEntries(entrySize, section), timestamp), rest, maybeGood, done, good) &&
        (done.None? ==> Remembered(q, asked', good))
    {
      hide Fold, DecodeEntries, EntrySteps, DecodeEntry, Remembered, LoadedOnce, StepsOf, BeValue, Marks;
      ghost var steps := EntrySteps(q, DecodeEntries(entrySize, section), timestamp);
      ghost var whole := Fold(q, steps + rest, maybeGood);
      var data := section;
      good, asked' := maybeGood, asked;
      for i := 0 to count
        invariant |data| == (count - i) * entrySize
        invariant LoadedOnce(q.img, fd.loads, from, asked') && Marks(seen[..], asked', numFilenames)
        invariant old(fd.loads) <= fd.loads
        invariant AskedUpTo(steps, EntrySteps(q, DecodeEntries(entrySize, data), timestamp), asked, asked')
        invariant Sees(fd.loads, from, q.dir) ==>
          Fold(q, EntrySteps(q, DecodeEntries(entrySize, data), timestamp) + rest, good) == whole &&
          Remembered(q, asked', good)
      {
        StepFits(count - i, entrySize);
        var e, next := ReadEntry(entrySize, data);
        FirstEntry(q, data, timestamp, rest);
        data := next;
        ghost var mid, left := asked', EntrySteps(q, DecodeEntries(entrySize, data), timestamp);
        done, good, asked' := CheckEntry(input, fd, p, e, timestamp, good, seen, q, from, asked', left + rest);
        AskedMore(steps, StepsOf(q, e, timestamp), left, asked, mid, asked', done.None?);
        if done.Some? {
          return;
        }
      }
      NoEntriesLeft(q, data, timestamp, rest);
      done := None;
    }

    /** One SCT: find its log, read its section, go through the entries. */
    method CheckSct(input: RevocationCheckInput, fd: FilterDir, p: Platform, sct: Sct,
                    maybeGood: bool, seen: array<bool>,
                    ghost q: Query, ghost from: nat, ghost asked: seq<nat>, ghost rest: seq<Step>)
      returns (done: Option<Result<RevocationStatus>>, good: bool, ghost asked': seq<nat>)
      requires Valid() && Poses(q, input, p)
      requires LoadedOnce(q.img, fd.loads, from, asked) && Marks(seen[..], asked, numFilenames)
      requires Sees(fd.loads, from, q.dir) ==> Remembered(q, asked, maybeGood)
      modifies seen, file, file.disk`faults, fd
      ensures LoadedOnce(q.img, fd.loads, from, asked') && Marks(seen[..], asked', numFilenames)
      ensures old(fd.loads) <= fd.loads && AskedFor(SctSteps(q, sct), asked, asked', done.None?)
      ensures Early(done)
      ensures file.disk.faults >= old(file.disk.faults)
      ensures file.disk.faults > old(file.disk.faults) ==> done == Some(Err(IndexDecode))
      ensures file.disk.faults == old(file.disk.faults) && Sees(fd.loads, from, q.dir) ==>
        Settles(q, SctSteps(q, sct), rest, maybeGood, done, good) && (done.None? ==> Remembered(q, asked', good))
    {
      FoldFails(q, [Fail] + rest, maybeGood);
      hide Fold, EntrySteps, DecodeEntries, Search, DirOffset, DirCount, Remembered, LoadedOnce;
      var k := Find(sct.logId);
      if k.None? {
        assert [] + rest == rest;
        return None, maybeGood, asked;
      }
      var count, section := ReadSection(k.value);
      if section.None? {
        return Some(Err(IndexDecode)), maybeGood, asked;
      }
      done, good, asked' := CheckEntries(input, fd, p, section.value, count, sct.timestamp, maybeGood, seen,
                                         q, from, asked, rest);
    }

    /** The whole check. `asked` lists the filters it read, none twice, and none but those of covering
        entries; it read all of those unless it returned early. For any directory `dir` that holds what
        the reads found, the verdict or error is that of asking a filter for every covering SCT. */
    method Check(input: RevocationCheckInput, fd: FilterDir, p: Platform, ghost dir: Files)
      returns (r: Result<RevocationStatus>, ghost asked: seq<nat>)
      requires Valid()
      modifies file, file.disk`faults, fd
      ensures old(fd.loads) <= fd.loads && LoadedOnce(View(), fd.loads, |old(fd.loads)|, asked)
      ensures |fd.loads| <= |old(fd.loads)| + numFilenames
      ensures AskedFor(Steps(Query(View(), input, dir, p), input.sctTimestamps), [], asked,
                       r == Ok(NotRevoked) || r == Ok(NotCoveredByRevocationData))
      ensures file.disk.faults >= old(file.disk.faults)
      ensures file.disk.faults > old(file.disk.faults) ==> r == Err(IndexDecode)
      ensures file.disk.faults == old(file.disk.faults) && Sees(fd.loads, |old(fd.loads)|, dir) ==>
        r == Verdict(Query(View(), input, dir, p))
    {
      ghost var q := Query(View(), input, dir, p);
      ghost var from := |fd.loads|;
      var maybeGood := false;
      var seen := new bool[numFilenames](_ => false);
      var scts := input.sctTimestamps;
      ghost var steps := Steps(q, scts);
      asked := [];
      FoldDone(q);
      assert LoadedOnce(q.img, fd.loads, from, asked) && Marks(seen[..], asked, numFilenames);
      assert Remembered(q, asked, maybeGood);
      hide Fold, SctSteps, Remembered, LoadedOnce, Marks;
      for i := 0 to |scts|
        invariant LoadedOnce(q.img, fd.loads, from, asked) && Marks(seen[..], asked, numFilenames)
        invariant old(fd.loads) <= fd.loads && AskedUpTo(steps, Steps(q, scts[i..]), [], asked)
        invariant file.disk.faults == old(file.disk.faults)
        invariant Sees(fd.loads, from, q.dir) ==>
          Fold(q, Steps(q, scts[i..]), maybeGood) == Verdict(q) && Remembered(q, asked, maybeGood)
      {
        assert scts[i..][1..] == scts[i + 1..];
        var done;
        ghost var mid, left := asked, Steps(q, scts[i + 1..]);
        done, maybeGood, asked := CheckSct(input, fd, p, scts[i], maybeGood, seen, q, from, asked, left);
        AskedMore(steps, SctSteps(q, scts[i]), left, [], mid, asked, done.None?);
        if done.Some? {
          AtMostLoads(q.img, fd.loads, from, asked);
          return done.value, asked;
        }
      }
      AtMostLoads(q.img, fd.loads, from, asked);
      r := Ok(if maybeGood then NotRevoked else NotCoveredByRevocationData);
    }
  }

  lemma AtMostLoads(img: Image, loads: seq<Load>, from: nat, asked: seq<nat>)
    requires ImageOk(img) && LoadedOnce(img, loads, from, asked)
    ensures |loads| <= from + img.numFilenames
  {
    AtMost(asked, img.numFilenames);
  }

  /** Three integers read off the front of the section data. */
  method ReadEntry(size: nat, data: Bytes) returns (e: Entry, next: Bytes)
    requires (size == 17 || size == 18) && |data| >= size
    ensures e == DecodeEntry(size, data) && next == data[size..]
  {
    Pow256Widths();
    hide BeValue;
    var a := ReadBe(data, size - 16).value;
    var b := ReadBe(a.1, 8).value;
    var c := ReadBe(b.1, 8).value;
    assert a.1[..8] == data[size - 16..size - 8];
    assert b.1[..8] == data[size - 8..size];
    e, next := Entry(a.0, b.0, c.0), c.1;
  }

  lemma StepFits(n: nat, size: nat)
    requires n > 0
    ensures n * size >= size && (n - 1) * size == n * size - size
  {
  }

  /** The filters marked as seen are those in `asked`. */
  ghost predicate Marks(seen: seq<bool>, asked: seq<nat>, n: nat) {
    |seen| == n && forall i :: 0 <= i < n ==> (seen[i] <==> i in asked)
  }

  /** Each filter asked has answered, none with "revoked", and `good` reflects their answers. */
  ghost predicate Remembered(q: Query, asked: seq<nat>, good: bool)
    requires ImageOk(q.img)
  {
    forall i :: i in asked ==> i < q.img.numFilenames && Harmless(q, i, good)
  }

  /** `done` is the final result, if `steps` decide it; otherwise `later` fold, from `good`, to what
      all of them would have. */
  ghost predicate Settles(q: Query, steps: seq<Step>, later: seq<Step>, maybeGood: bool,
                          done: Option<Result<RevocationStatus>>, good: bool)
    requires ImageOk(q.img)
  {
    Fold(q, steps + later, maybeGood) == if done.Some? then done.value else Fold(q, later, good)
  }

  ghost predicate Harmless(q: Query, i: nat, good: bool)
    requires ImageOk(q.img) && i < q.img.numFilenames
  {
    Answer(q, i).Ok? && Answer(q, i).value != Revoked && (Answer(q, i).value == Good ==> good)
  }

  lemma FoldDone(q: Query)
    requires ImageOk(q.img)
    ensures forall good :: Fold(q, [], good) == Ok(if good then NotRevoked else NotCoveredByRevocationData)
  {
  }

  lemma FoldFails(q: Query, steps: seq<Step>, good: bool)
    requires ImageOk(q.img) && steps != [] && steps[0] == Fail
    ensures Fold(q, steps, good) == Err(IndexDecode)
  {
  }

  lemma FirstEntry(q: Query, data: Bytes, timestamp: u64, rest: seq<Step>)
    requires ImageOk(q.img) && |data| >= q.img.entrySize
    ensures var size := q.img.entrySize;
      var head, left := StepsOf(q, DecodeEntry(size, data), timestamp),
                        EntrySteps(q, DecodeEntries(size, data[size..]), timestamp);
      EntrySteps(q, DecodeEntries(size, data), timestamp) == head + left &&
      EntrySteps(q, DecodeEntries(size, data), timestamp) + rest == head + (left + rest)
  {
    hide DecodeEntry, StepsOf, EntrySteps;
    var size := q.img.entrySize;
    var es, e, later := DecodeEntries(size, data), DecodeEntry(size, data), DecodeEntries(size, data[size..]);
    assert es == [e] + later;
    hide DecodeEntries;
    FirstSteps(q, e, later, timestamp);
    var head, left := StepsOf(q, e, timestamp), EntrySteps(q, later, timestamp);
    assert head + left + rest == head + (left + rest);
  }

  lemma FirstSteps(q: Query, e: Entry, later: seq<Entry>, timestamp: u64)
    requires ImageOk(q.img)
    ensures EntrySteps(q, [e] + later, timestamp) == StepsOf(q, e, timestamp) + EntrySteps(q, later, timestamp)
  {
    hide StepsOf;
    assert ([e] + later)[1..] == later;
  }

  lemma NoEntriesLeft(q: Query, data: Bytes, timestamp: u64, rest: seq<Step>)
    requires ImageOk(q.img) && |data| < q.img.entrySize
    ensures EntrySteps(q, DecodeEntries(q.img.entrySize, data), timestamp) == []
    ensures EntrySteps(q, DecodeEntries(q.img.entrySize, data), timestamp) + rest == rest
  {
  }
}
