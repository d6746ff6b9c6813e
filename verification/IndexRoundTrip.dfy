/** Opening a written index gives back exactly what was written, in either version. */
module IndexRoundTrip {
  import opened ByteStrings
  import opened IndexFormat
  import opened LogOrder

  /** The values an index of version `v` can represent: every count and filter index fits its
      field, and no file name holds a NUL byte. */
  ghost predicate Fits(v: Version, ix: Logical) {
    NamesFit(ix.names) &&
    (forall i :: 0 <= i < |ix.names| ==> 0 !in ix.names[i]) &&
    |ix.names| < Pow256(IndexWidth(v)) &&
    |ix.sections| < U32_LIMIT &&
    (forall k :: 0 <= k < |ix.sections| ==> SectionFits(v, ix.sections[k]))
  }

  ghost predicate SectionFits(v: Version, s: Section) {
    |s.entries| < U16_LIMIT && forall i :: 0 <= i < |s.entries| ==> EntryFits(v, s.entries[i])
  }

  /** `img` shows exactly the names and sections of `ix`. */
  ghost predicate Shows(img: Image, ix: Logical) {
    ImageOk(img) && img.numFilenames == |ix.names| && img.numLogs == |ix.sections| &&
    (forall i :: 0 <= i < |ix.names| ==> NameAt(img, i) == ix.names[i]) &&
    (forall k :: 0 <= k < |ix.sections| ==> DirLogId(img, k) == ix.sections[k].logId) &&
    (forall k :: 0 <= k < |ix.sections| ==> SectionAt(img, k) == Some(ix.sections[k].entries))
  }

  /** The image of a written index. */
  function Written(v: Version, ix: Logical): (img: Image)
    requires NamesFit(ix.names)
    ensures ImageOk(img)
  {
    Image(|ix.names|, |ix.sections|, EntrySize(v),
          NameTable(ix.names) + DirTable(v, ix.sections, TablesEnd(v, ix)), Encode(v, ix))
  }

  lemma Pieces(h: Bytes, n: Bytes, d: Bytes, s: Bytes)
    ensures (h + n + d + s)[..|h|] == h
    ensures (h + n + d + s)[|h|..|h| + (|n| + |d|)] == n + d
    ensures (h + n + d + s)[|h| + (|n| + |d|)..] == s
    ensures |h + n + d + s| == |h| + |n| + |d| + |s|
  {
  }

  lemma HeaderFields(v: Version, ix: Logical)
    requires |ix.names| < Pow256(IndexWidth(v)) && |ix.sections| < U32_LIMIT
    ensures BeValue(Header(v, ix)[8..8 + IndexWidth(v)]) == |ix.names|
    ensures BeValue(Header(v, ix)[8 + IndexWidth(v)..HeaderSize(v)]) == |ix.sections|
  {
    Pow256Widths();
    BeRoundTrip(|ix.names|, IndexWidth(v));
    BeRoundTrip(|ix.sections|, 4);
    var m, c, l := Magic(v), BeBytes(|ix.names|, IndexWidth(v)), BeBytes(|ix.sections|, 4);
    ThreeParts(m, c, l);
  }

  lemma OpenWritten(v: Version, ix: Logical)
    requires Fits(v, ix)
    ensures Open(Encode(v, ix)) == Some(Written(v, ix))
  {
    hide NameTable, DirTable, EncodeSections, BeBytes, BeValue;
    var h, n := Header(v, ix), NameTable(ix.names);
    var d, s := DirTable(v, ix.sections, TablesEnd(v, ix)), EncodeSections(v, ix.sections);
    var content := Encode(v, ix);
    Pieces(h, n, d, s);
    HeaderFields(v, ix);
    assert h[..8] == Magic(v);
    assert content[..8] == h[..8];
    assert content[8..8 + IndexWidth(v)] == h[8..8 + IndexWidth(v)];
    assert content[8 + IndexWidth(v)..HeaderSize(v)] == h[8 + IndexWidth(v)..HeaderSize(v)];
    assert Magic(V0)[7] != Magic(V1)[7];
  }

  lemma WrittenName(v: Version, ix: Logical, i: nat)
    requires Fits(v, ix) && i < |ix.names|
    ensures NameAt(Written(v, ix), i) == ix.names[i]
  {
    hide NameTable, DirTable;
    NameTableAt(ix.names, i);
    var n, d := NameTable(ix.names), DirTable(v, ix.sections, TablesEnd(v, ix));
    assert (n + d)[32 * i..32 * i + 32] == n[32 * i..32 * i + 32];
    UpToNulOfSlot(ix.names[i], FILENAME_SIZE - |ix.names[i]|);
  }

  lemma WrittenDirEntry(v: Version, ix: Logical, k: nat)
    requires Fits(v, ix) && k < |ix.sections|
    ensures DirLogId(Written(v, ix), k) == ix.sections[k].logId
    ensures DirCount(Written(v, ix), k) == |ix.sections[k].entries|
    ensures TablesEnd(v, ix) + |EncodeSections(v, ix.sections[..k])| < U64_LIMIT ==>
      DirOffset(Written(v, ix), k) == TablesEnd(v, ix) + |EncodeSections(v, ix.sections[..k])|
  {
    hide NameTable, DirTable, EncodeSections, BeBytes, BeValue;
    var section := ix.sections[k];
    var offset := TablesEnd(v, ix) + |EncodeSections(v, ix.sections[..k])|;
    DirTableAt(v, ix.sections, TablesEnd(v, ix), k);
    var n, d := NameTable(ix.names), DirTable(v, ix.sections, TablesEnd(v, ix));
    var at := 32 * |ix.names| + 42 * k;
    assert (n + d)[at..at + 42] == d[42 * k..42 * k + 42] == DirEntry(section, offset);
    var t := n + d;
    ThreeParts(section.logId, BeBytes(offset, 8), BeBytes(|section.entries|, 2));
    SliceOfSlice(t, at, at + 42, 0, 32);
    SliceOfSlice(t, at, at + 42, 32, 40);
    SliceOfSlice(t, at, at + 42, 40, 42);
    Pow256Widths();
    BeRoundTrip(|section.entries|, 2);
    if offset < U64_LIMIT {
      BeRoundTrip(offset, 8);
    }
  }

  /** No representable index comes near the limits of a file offset. */
  lemma {:induction false} SectionsBound(v: Version, ss: seq<Section>)
    requires forall k :: 0 <= k < |ss| ==> SectionFits(v, ss[k])
    ensures |EncodeSections(v, ss)| <= |ss| * 0x12_0000
  {
    if ss != [] {
      hide EncodeEntries;
      var front := ss[..|ss| - 1];
      assert forall k :: 0 <= k < |front| ==> front[k] == ss[k];
      SectionsBound(v, front);
      assert SectionFits(v, ss[|ss| - 1]);
    }
  }

  /** The section of slot `k` starts where the tables and the earlier sections end; it ends inside
      the file, and the last section ends the file. */
  lemma SectionPlacement(v: Version, ix: Logical, k: nat)
    requires Fits(v, ix) && k < |ix.sections|
    ensures DirOffset(Written(v, ix), k) == TablesEnd(v, ix) + |EncodeSections(v, ix.sections[..k])| < U63_LIMIT
    ensures DirOffset(Written(v, ix), k) + DirCount(Written(v, ix), k) * EntrySize(v)
         == if k + 1 < |ix.sections| then DirOffset(Written(v, ix), k + 1) else |Encode(v, ix)|
    ensures DirOffset(Written(v, ix), 0) == TablesEnd(v, ix)
  {
    var ss := ix.sections;
    SectionOffset(v, ix, k);
    SectionOffset(v, ix, 0);
    assert ss[..0] == [];
    WrittenDirEntry(v, ix, k);
    SectionsAt(v, ss, k);
    if k + 1 < |ss| {
      SectionOffset(v, ix, k + 1);
    } else {
      assert ss[..k + 1] == ss;
    }
  }

  lemma SectionOffset(v: Version, ix: Logical, k: nat)
    requires Fits(v, ix) && k < |ix.sections|
    ensures DirOffset(Written(v, ix), k) == TablesEnd(v, ix) + |EncodeSections(v, ix.sections[..k])| < U63_LIMIT
  {
    hide DirTable, NameTable, EncodeSections;
    Pow256Widths();
    SectionsBound(v, ix.sections[..k]);
    WrittenDirEntry(v, ix, k);
  }

  lemma WrittenSection(v: Version, ix: Logical, k: nat)
    requires Fits(v, ix) && k < |ix.sections|
    ensures SectionAt(Written(v, ix), k) == Some(ix.sections[k].entries)
  {
    hide NameTable, DirTable, EncodeSections, EncodeEntries, DecodeEntries, Header;
    var img, ss := Written(v, ix), ix.sections;
    var start, len := |EncodeSections(v, ss[..k])|, |EncodeEntries(v, ss[k].entries)|;
    SectionOffset(v, ix, k);
    WrittenDirEntry(v, ix, k);
    SectionsAt(v, ss, k);
    EntriesRoundTrip(v, ss[k].entries);
    var h, n := Header(v, ix), NameTable(ix.names);
    var d, s := DirTable(v, ss, TablesEnd(v, ix)), EncodeSections(v, ss);
    Pieces(h, n, d, s);
    var end := |h| + (|n| + |d|);
    assert end == TablesEnd(v, ix);
    assert img.content[end..] == s;
    assert img.content[end + start..end + start + len] == s[start..start + len];
  }

  /** Reading undoes writing: names, log directory and entries, in order and in full. */
  lemma RoundTrip(v: Version, ix: Logical)
    requires Fits(v, ix)
    ensures Open(Encode(v, ix)) == Some(Written(v, ix))
    ensures Shows(Written(v, ix), ix)
  {
    hide NameAt, DirLogId, SectionAt, Encode, NameTable, DirTable;
    OpenWritten(v, ix);
    forall i | 0 <= i < |ix.names|
      ensures NameAt(Written(v, ix), i) == ix.names[i]
    {
      WrittenName(v, ix, i);
    }
    forall k | 0 <= k < |ix.sections|
      ensures DirLogId(Written(v, ix), k) == ix.sections[k].logId
      ensures SectionAt(Written(v, ix), k) == Some(ix.sections[k].entries)
    {
      WrittenDirEntry(v, ix, k);
      WrittenSection(v, ix, k);
    }
  }
}
