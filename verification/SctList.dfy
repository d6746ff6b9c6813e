/** The hand-written DER and SCT-list parser of revoke-test/src/lib.rs. */
module SctList {
  import opened ByteStrings

  /** The two fields taken from a record: 32 bytes of log ID and a signed 64-bit timestamp. */
  datatype SctFields = SctFields(logId: Bytes, timestamp: int)

  function SignedValue(s: Bytes): int {
    var v := BeValue(s);
    if v >= U63_LIMIT then v - U64_LIMIT else v
  }

  function FieldsOf(record: Bytes): SctFields
    requires |record| >= 41
  {
    SctFields(record[1..33], SignedValue(record[33..41]))
  }

  // DER lengths and octet strings: X.690, section 8.1.3

  /** The value and width of a length: a short form below 128, or up to four length octets.
      No octets at all (the indefinite form) reads as zero. */
  function DerLength(data: Bytes): (r: Option<(nat, nat)>)
    ensures r.Some? ==> 1 <= r.value.1 <= 5 && r.value.1 <= |data|
  {
    if data == [] then None
    else if data[0] < 128 then Some((data[0], 1))
    else
      var n := data[0] - 128;
      if n > 4 || |data| < 1 + n then None else Some((BeValue(data[1..1 + n]), 1 + n))
  }

  method ParseAsn1Length(data: Bytes) returns (r: Option<(nat, nat)>)
    ensures r == DerLength(data)
  {
    if data == [] {
      return None;
    } else if data[0] < 128 {
      return Some((data[0], 1));
    }
    var numOctets := data[0] - 128;
    if numOctets > 4 || |data| < 1 + numOctets {
      return None;
    }
    var length: nat := 0;
    assert data[1..1] == [];
    for i := 0 to numOctets
      invariant length == BeValue(data[1..1 + i])
    {
      assert data[1..1 + (i + 1)][..i] == data[1..1 + i];
      length := length * 256 + data[1 + i];
    }
    r := Some((length, 1 + numOctets));
  }

  /** X.690, sections 8.1.3.4 and 8.1.3.5: a definite length and its width. The first octet of the
      long form is neither 0x80, which begins the indefinite form, nor 0xff, which is reserved. */
  function DefiniteLength(data: Bytes): Option<(nat, nat)> {
    if data == [] || data[0] == 0x80 || data[0] == 0xff then None
    else if data[0] < 0x80 then Some((data[0], 1))
    else
      var n := data[0] - 0x80;
      if |data| <= n then None else Some((BeValue(data[1..n + 1]), n + 1))
  }

  /** The program agrees with the standard exactly when the first octet is not 0x80, which it reads as
      the length zero, and does not begin a complete length of more than four octets, which it rejects. */
  lemma LengthExact(data: Bytes)
    ensures DerLength(data) == DefiniteLength(data) <==>
      data == [] || (data[0] != 0x80 && (data[0] <= 0x84 || data[0] == 0xff || |data| <= data[0] - 0x80))
    ensures data != [] && data[0] == 0x80 ==> DerLength(data) == Some((0, 1))
    ensures data != [] && data[0] > 0x84 ==> DerLength(data) == None
  {
  }

  function OctetString(data: Bytes): Option<Bytes> {
    if data == [] || data[0] != 4 then None
    else match DerLength(data[1..])
      case None => None
      case Some(l) => if 1 + l.1 + l.0 > |data| then None else Some(data[1 + l.1..1 + l.1 + l.0])
  }

  // The list of records: RFC 6962, section 3.3

  function ShortAt(list: Bytes, offset: nat): nat
    requires offset + 2 <= |list|
  {
    BeValue(list[offset..offset + 2])
  }

  /** The record at `offset` is complete and long enough. */
  predicate GoodRecord(list: Bytes, offset: nat)
    requires offset + 2 <= |list|
  {
    offset + 2 + ShortAt(list, offset) <= |list| && ShortAt(list, offset) >= 41
  }

  /** The records from `offset` on, until the declared or the actual end of the list. */
  function Scan(list: Bytes, listLen: nat, offset: nat): Option<seq<SctFields>>
    decreases |list| - offset
  {
    if offset >= |list| || offset >= listLen + 2 || offset + 2 > |list| then Some([])
    else if !GoodRecord(list, offset) then None
    else
      var end := offset + 2 + ShortAt(list, offset);
      match Scan(list, listLen, end)
      case None => None
      case Some(rest) => Some([FieldsOf(list[offset + 2..end])] + rest)
  }

  /** `Sct::from_der`: the offset moves past the record, and is in bounds when it succeeds. */
  method FromDer(list: Bytes, offset: nat) returns (sct: Option<SctFields>, offset': nat)
    requires offset + 2 <= |list|
    ensures sct.Some? <==> GoodRecord(list, offset)
    ensures sct.Some? ==> offset' == offset + 2 + ShortAt(list, offset) <= |list|
    ensures sct.Some? ==> sct.value == FieldsOf(list[offset + 2..offset'])
    ensures sct.Some? ==> sct.value.logId == list[offset + 3..offset + 35]
    ensures sct.Some? ==> -0x8000_0000_0000_0000 <= sct.value.timestamp < 0x8000_0000_0000_0000
    ensures sct.Some? ==>
      sct.value.timestamp == BeValue(list[offset + 35..offset + 43]) ||
      sct.value.timestamp == BeValue(list[offset + 35..offset + 43]) - 0x1_0000_0000_0000_0000
    ensures offset < offset'
  {
    Pow256Widths();
    hide BeValue;
    var sctLen := BeValue(list[offset..offset + 2]);
    offset' := offset + 2;
    if offset' + sctLen > |list| {
      return None, offset';
    }
    var sctData := list[offset'..offset' + sctLen];
    if |sctData| < 41 {
      return None, offset';
    }
    offset' := offset' + sctLen;
    SliceOfSlice(list, offset + 2, offset + 2 + sctLen, 1, 33);
    SliceOfSlice(list, offset + 2, offset + 2 + sctLen, 33, 41);
    sct := Some(SctFields(sctData[1..33], SignedValue(sctData[33..41])));
  }

  /** The parse of an SCT extension value, from `parse_octet_string` to the end of the list. */
  function Extension(value: Bytes): Option<seq<SctFields>> {
    match OctetString(value)
    case None => None
    case Some(list) => if |list| < 2 then None else Scan(list, ShortAt(list, 0), 2)
  }

  method ParseExtension(value: Bytes) returns (scts: Option<seq<SctFields>>)
    ensures scts == Extension(value)
  {
    hide BeValue, FieldsOf;
    if value == [] || value[0] != 4 {
      return None;
    }
    var length := ParseAsn1Length(value[1..]);
    if length.None? {
      return None;
    }
    var contentStart := 1 + length.value.1;
    if contentStart + length.value.0 > |value| {
      return None;
    }
    var list := value[contentStart..contentStart + length.value.0];
    if |list| < 2 {
      return None;
    }
    var listLen := BeValue(list[0..2]);
    var offset := 2;
    var found: seq<SctFields> := [];
    assert forall rest: seq<SctFields> :: [] + rest == rest;
    while offset < |list| && offset < listLen + 2
      invariant 2 <= offset <= |list|
      invariant Scan(list, listLen, 2) ==
        match Scan(list, listLen, offset) case None => None case Some(rest) => Some(found + rest)
      decreases |list| - offset
    {
      if offset + 2 > |list| {
        break;
      }
      var sct, next := FromDer(list, offset);
      if sct.None? {
        return None;
      }
      assert forall rest :: found + ([sct.value] + rest) == found + [sct.value] + rest;
      found := found + [sct.value];
      offset := next;
    }
    assert found + [] == found;
    scts := Some(found);
  }

  // Round trip

  function MinOctets(n: nat): (k: nat)
    ensures n < Pow256(k)
    ensures n < U32_LIMIT ==> k <= 4
    decreases n
  {
    Pow256Widths();
    assert Pow256(3) == 256 * Pow256(2);
    if n == 0 then 0 else if n < 256 then 1 else if n < 0x1_0000 then 2 else if n < 0x100_0000 then 3
    else if n < U32_LIMIT then 4 else 1 + MinOctets(n / 256)
  }

  /** The definite-length encoding of an OCTET STRING with the least number of length octets. */
  function EncodeOctetString(content: Bytes): Bytes
    requires |content| < U32_LIMIT
  {
    [4] + EncodeLength(|content|) + content
  }

  function EncodeLength(n: nat): Bytes
    requires n < U32_LIMIT
  {
    if n < 128 then [n] else [128 + MinOctets(n)] + BeBytes(n, MinOctets(n))
  }

  lemma LengthRoundTrip(n: nat, rest: Bytes)
    requires n < U32_LIMIT
    ensures DerLength(EncodeLength(n) + rest) == Some((n, |EncodeLength(n)|))
  {
    if n >= 128 {
      var k := MinOctets(n);
      BeRoundTrip(n, k);
      var s := [128 + k] + BeBytes(n, k) + rest;
      assert s[1..1 + k] == BeBytes(n, k);
    }
  }

  /** A length that is read need not have the least number of octets, which X.690, section 10.1 asks
      for; it has exactly when it is as wide as its encoding. */
  lemma LengthMinimal(data: Bytes)
    requires DerLength(data).Some? && data[0] != 0x80
    ensures var n, w := DerLength(data).value.0, DerLength(data).value.1;
      n < U32_LIMIT && (data[..w] == EncodeLength(n) <==> w == |EncodeLength(n)|)
  {
    var n, w := DerLength(data).value.0, DerLength(data).value.1;
    LengthBound(data);
    if w == |EncodeLength(n)| && data[0] > 0x80 {
      BeBytesOfValue(data[1..w]);
      assert data[..w] == [data[0]] + data[1..w];
    }
  }

  lemma LengthBound(data: Bytes)
    requires DerLength(data).Some?
    ensures DerLength(data).value.0 < U32_LIMIT
  {
    Pow256Widths();
    if data[0] > 0x80 {
      var n := data[0] - 0x80;
      assert BeValue(data[1..1 + n]) < Pow256(n);
      assert Pow256(3) == 256 * Pow256(2);
    }
  }

  /** An octet string has the tag 4; one with a single octet is four, one, and that octet. */
  lemma OctetStringTag(data: Bytes, b: byte)
    ensures OctetString(data).Some? ==> data != [] && data[0] == 0x04
    ensures OctetString([0x04, 0x01, b]) == Some([b]) && EncodeOctetString([b]) == [0x04, 0x01, b]
  {
    var s: Bytes := [0x04, 0x01, b];
    assert s[1..] == [0x01, b] && s[2..3] == [b];
  }

  /** Whatever follows the octet string is ignored. */
  lemma OctetStringRoundTrip(content: Bytes, rest: Bytes)
    requires |content| < U32_LIMIT
    ensures OctetString(EncodeOctetString(content) + rest) == Some(content)
  {
    hide DerLength, EncodeLength;
    var l := EncodeLength(|content|);
    LengthRoundTrip(|content|, content + rest);
    var data := EncodeOctetString(content) + rest;
    assert data[1..] == l + (content + rest);
    assert data[1 + |l|..1 + |l| + |content|] == content;
  }

  function EncodeRecords(records: seq<Bytes>): Bytes {
    if records == [] then [] else BeBytes(|records[0]|, 2) + records[0] + EncodeRecords(records[1..])
  }

  /** RFC 6962, section 3.3: the list prefixed with its length. */
  function EncodeList(records: seq<Bytes>): Bytes {
    BeBytes(|EncodeRecords(records)|, 2) + EncodeRecords(records)
  }

  function AllFields(records: seq<Bytes>): seq<SctFields>
    requires forall r :: r in records ==> |r| >= 41
  {
    if records == [] then [] else [FieldsOf(records[0])] + AllFields(records[1..])
  }

  /** From `offset` on the list holds these records, each begun before the declared end, and no
      further record begins after them. */
  ghost predicate Holds(list: Bytes, listLen: nat, offset: nat, records: seq<Bytes>) {
    var end := offset + |EncodeRecords(records)|;
    (forall r :: r in records ==> 41 <= |r| < U16_LIMIT) &&
    end <= |list| && list[offset..end] == EncodeRecords(records) &&
    (records != [] ==> offset + |EncodeRecords(records[..|records| - 1])| < listLen + 2) &&
    (end >= listLen + 2 || |list| - end < 2)
  }

  lemma JoinSlices(list: Bytes, offset: nat, next: nat, end: nat)
    requires offset + 2 <= next <= end <= |list|
    ensures list[offset..end] == list[offset..offset + 2] + list[offset + 2..next] + list[next..end]
  {
  }

  /** Where the last record of a list begins. */
  lemma FrontStarts(r: Bytes, later: seq<Bytes>)
    ensures var records := [r] + later;
      |EncodeRecords(records[..|records| - 1])| ==
        if later == [] then 0 else 2 + |r| + |EncodeRecords(later[..|later| - 1])|
  {
    var records := [r] + later;
    if later != [] {
      var front := records[..|records| - 1];
      assert front[0] == r && front[1..] == later[..|later| - 1];
    }
  }

  /** The list has the record `r` at `offset`. */
  ghost predicate RecordStands(list: Bytes, offset: nat, r: Bytes) {
    offset + 2 + |r| <= |list| && list[offset..offset + 2] == BeBytes(|r|, 2) &&
    list[offset + 2..offset + 2 + |r|] == r
  }

  lemma FirstRecord(r: Bytes, later: seq<Bytes>)
    ensures EncodeRecords([r] + later) == BeBytes(|r|, 2) + r + EncodeRecords(later)
  {
    assert ([r] + later)[1..] == later;
  }

  /** Three parts in a row stand at `offset` exactly if each stands where the ones before it end. */
  lemma StandInRow(list: Bytes, offset: nat, l: Bytes, r: Bytes, rest: Bytes)
    requires |l| == 2 && offset + 2 + |r| + |rest| <= |list|
    ensures var next := offset + 2 + |r|;
      list[offset..next + |rest|] == l + r + rest <==>
        list[offset..offset + 2] == l && list[offset + 2..next] == r && list[next..next + |rest|] == rest
  {
    var next := offset + 2 + |r|;
    var end := next + |rest|;
    JoinSlices(list, offset, next, end);
    var a, b, c := list[offset..offset + 2], list[offset + 2..next], list[next..end];
    ThreeParts(a, b, c);
    ThreeParts(l, r, rest);
  }

  lemma HoldsMore(list: Bytes, listLen: nat, offset: nat, r: Bytes, later: seq<Bytes>)
    requires Holds(list, listLen, offset + 2 + |r|, later)
    requires 41 <= |r| < U16_LIMIT && offset < listLen + 2 && RecordStands(list, offset, r)
    ensures Holds(list, listLen, offset, [r] + later)
  {
    hide EncodeRecords, BeBytes;
    FirstRecord(r, later);
    FrontStarts(r, later);
    StandInRow(list, offset, BeBytes(|r|, 2), r, EncodeRecords(later));
  }

  lemma HoldsLess(list: Bytes, listLen: nat, offset: nat, r: Bytes, later: seq<Bytes>)
    requires Holds(list, listLen, offset, [r] + later)
    ensures Holds(list, listLen, offset + 2 + |r|, later)
    ensures 41 <= |r| < U16_LIMIT && offset < listLen + 2 && RecordStands(list, offset, r)
  {
    hide EncodeRecords, BeBytes;
    FirstRecord(r, later);
    FrontStarts(r, later);
    StandInRow(list, offset, BeBytes(|r|, 2), r, EncodeRecords(later));
    assert r in [r] + later;
  }

  lemma HoldsNone(list: Bytes, listLen: nat, offset: nat)
    requires offset <= |list|
    ensures Holds(list, listLen, offset, []) <==> offset >= listLen + 2 || |list| - offset < 2
  {
    assert list[offset..offset] == [];
  }

  /** What is accepted holds records, and the fields found are theirs. */
  lemma {:induction false} ScanSound(list: Bytes, listLen: nat, offset: nat) returns (records: seq<Bytes>)
    requires offset <= |list| && Scan(list, listLen, offset).Some?
    ensures Holds(list, listLen, offset, records) && Scan(list, listLen, offset) == Some(AllFields(records))
    decreases |list| - offset
  {
    hide FieldsOf, BeBytes, BeValue, Holds;
    if offset >= |list| || offset >= listLen + 2 || offset + 2 > |list| {
      HoldsNone(list, listLen, offset);
      return [];
    }
    Pow256Widths();
    var next := offset + 2 + ShortAt(list, offset);
    var later := ScanSound(list, listLen, next);
    var r := list[offset + 2..next];
    BeBytesOfValue(list[offset..offset + 2]);
    HoldsMore(list, listLen, offset, r, later);
    records := [r] + later;
    assert records[1..] == later;
  }

  /** What holds records is accepted. */
  lemma {:induction false} ScanComplete(list: Bytes, listLen: nat, offset: nat, records: seq<Bytes>)
    requires offset <= |list| && Holds(list, listLen, offset, records)
    ensures Scan(list, listLen, offset) == Some(AllFields(records))
    decreases |records|
  {
    hide BeBytes, BeValue, FieldsOf, Holds;
    if records == [] {
      HoldsNone(list, listLen, offset);
    } else {
      var r, later := records[0], records[1..];
      assert records == [r] + later;
      HoldsLess(list, listLen, offset, r, later);
      ScanComplete(list, listLen, offset + 2 + |r|, later);
      Pow256Widths();
      BeRoundTrip(|r|, 2);
      assert GoodRecord(list, offset) && ShortAt(list, offset) == |r|;
    }
  }

  /** A list is accepted if and only if, from the start, it holds records of at least 41 bytes, each
      begun before the declared end, and then ends or reaches the declared end. */
  lemma ScanExact(list: Bytes, listLen: nat, offset: nat)
    requires offset <= |list|
    ensures Scan(list, listLen, offset).Some? <==> exists records :: Holds(list, listLen, offset, records)
  {
    hide Scan, Holds, AllFields;
    if Scan(list, listLen, offset).Some? {
      var records := ScanSound(list, listLen, offset);
    }
    if records: seq<Bytes> :| Holds(list, listLen, offset, records) {
      ScanComplete(list, listLen, offset, records);
    }
  }

  lemma {:induction false} AllButLast(records: seq<Bytes>)
    ensures records != [] ==> |EncodeRecords(records[..|records| - 1])| < |EncodeRecords(records)|
  {
    hide BeBytes;
    if |records| > 1 {
      AllButLast(records[1..]);
      FrontStarts(records[0], records[1..]);
      assert records == [records[0]] + records[1..];
    }
  }

  /** Parsing an encoded list finds every record, in order. */
  lemma RecordsRoundTrip(records: seq<Bytes>, rest: Bytes)
    requires forall r :: r in records ==> 41 <= |r| < U16_LIMIT
    requires |EncodeRecords(records)| < U16_LIMIT
    ensures Extension(EncodeOctetString(EncodeList(records)) + rest) == Some(AllFields(records))
  {
    AllButLast(records);
    hide EncodeRecords, BeBytes, BeValue, OctetString, Scan, EncodeOctetString;
    Pow256Widths();
    var list, l := EncodeList(records), BeBytes(|EncodeRecords(records)|, 2);
    OctetStringRoundTrip(list, rest);
    BeRoundTrip(|EncodeRecords(records)|, 2);
    assert list[0..2] == l;
    assert list[2..|list|] == EncodeRecords(records);
    ScanComplete(list, |EncodeRecords(records)|, 2, records);
  }

  /** RFC 6962, section 3.3: at least one record, and all of them fit the length that precedes them. */
  ghost predicate IsSctList(list: Bytes, records: seq<Bytes>) {
    records != [] && |EncodeRecords(records)| < U16_LIMIT && list == EncodeList(records)
  }

  // RFC 6962, section 3.2: version, log ID, timestamp, and the rest (extensions and signature)

  datatype SctRecord = SctRecord(version: byte, logId: Bytes, timestamp: int, rest: Bytes)

  ghost predicate IsSct(s: SctRecord) {
    |s.logId| == 32 && -0x8000_0000_0000_0000 <= s.timestamp < 0x8000_0000_0000_0000 && 41 + |s.rest| < U16_LIMIT
  }

  /** The timestamp is a 64-bit number in two's complement, most significant byte first. */
  function EncodeSct(s: SctRecord): Bytes {
    [s.version] + s.logId + BeBytes(s.timestamp % 0x1_0000_0000_0000_0000, 8) + s.rest
  }

  lemma SctGivesFields(s: SctRecord)
    requires IsSct(s)
    ensures 41 <= |EncodeSct(s)| < U16_LIMIT
    ensures FieldsOf(EncodeSct(s)) == SctFields(s.logId, s.timestamp)
  {
    Pow256Widths();
    var v := s.timestamp % 0x1_0000_0000_0000_0000;
    var t, record := BeBytes(v, 8), EncodeSct(s);
    BeRoundTrip(v, 8);
    assert record[1..33] == s.logId && record[33..41] == t;
  }

  function EncodeScts(scts: seq<SctRecord>): seq<Bytes> {
    if scts == [] then [] else [EncodeSct(scts[0])] + EncodeScts(scts[1..])
  }

  function FieldsOfScts(scts: seq<SctRecord>): seq<SctFields> {
    if scts == [] then [] else [SctFields(scts[0].logId, scts[0].timestamp)] + FieldsOfScts(scts[1..])
  }

  lemma {:induction false} AllSctFields(scts: seq<SctRecord>)
    requires forall s :: s in scts ==> IsSct(s)
    ensures forall r :: r in EncodeScts(scts) ==> 41 <= |r| < U16_LIMIT
    ensures AllFields(EncodeScts(scts)) == FieldsOfScts(scts)
  {
    if scts != [] {
      assert scts[0] in scts;
      SctGivesFields(scts[0]);
      AllSctFields(scts[1..]);
      hide EncodeSct, FieldsOf;
      var records := EncodeScts(scts);
      assert records[1..] == EncodeScts(scts[1..]);
    }
  }

  /** Parsing an encoded list of SCTs gives back the log ID and the timestamp of each, in order. */
  lemma ExtensionRoundTrip(scts: seq<SctRecord>, rest: Bytes)
    requires forall s :: s in scts ==> IsSct(s)
    requires |EncodeRecords(EncodeScts(scts))| < U16_LIMIT
    ensures Extension(EncodeOctetString(EncodeList(EncodeScts(scts))) + rest) == Some(FieldsOfScts(scts))
  {
    AllSctFields(scts);
    hide EncodeRecords, EncodeScts, FieldsOfScts, AllFields, Extension, EncodeOctetString, EncodeList;
    RecordsRoundTrip(EncodeScts(scts), rest);
  }

  lemma DeclaredLength(list: Bytes, records: seq<Bytes>)
    ensures IsSctList(list, records) ==> |list| >= 2 && ShortAt(list, 0) == |EncodeRecords(records)| > 0
  {
    if IsSctList(list, records) {
      Pow256Widths();
      AllButLast(records);
      hide BeBytes, BeValue;
      BeRoundTrip(|EncodeRecords(records)|, 2);
      assert list[0..2] == BeBytes(|EncodeRecords(records)|, 2);
    }
  }

  /** An accepted list is one of section 3.3 exactly when its records end where it declares, it ends
      there too, and it does not declare the length zero. */
  lemma ListExact(list: Bytes, records: seq<Bytes>)
    requires |list| >= 2 && Holds(list, ShortAt(list, 0), 2, records)
    ensures IsSctList(list, records) <==>
      2 + |EncodeRecords(records)| == |list| == ShortAt(list, 0) + 2 && ShortAt(list, 0) != 0
  {
    Pow256Widths();
    var l, body := list[..2], EncodeRecords(records);
    DeclaredLength(list, records);
    BeBytesOfValue(l);
    assert list[0..2] == l;
    hide BeBytes, BeValue;
    if 2 + |body| == |list| == ShortAt(list, 0) + 2 {
      assert list == l + list[2..|list|];
    }
  }

  /** Whatever follows a list is ignored. */
  lemma TailIsIgnored(records: seq<Bytes>, tail: Bytes)
    requires forall r :: r in records ==> 41 <= |r| < U16_LIMIT
    requires IsSctList(EncodeList(records), records) && tail != []
    ensures var list := EncodeList(records) + tail;
      Scan(list, ShortAt(list, 0), 2) == Some(AllFields(records)) && !IsSctList(list, records)
  {
    AllButLast(records);
    Pow256Widths();
    var body := EncodeRecords(records);
    var list := EncodeList(records) + tail;
    BeRoundTrip(|body|, 2);
    hide BeBytes, BeValue, EncodeRecords, Scan, AllFields;
    assert list[0..2] == BeBytes(|body|, 2) && list[2..2 + |body|] == body;
    ScanComplete(list, |body|, 2, records);
    assert |list| > |EncodeList(records)|;
  }

  /** A declared length of zero is accepted, with anything after it, although no list has it. */
  lemma ZeroLengthAccepted(tail: Bytes)
    ensures Scan([0, 0] + tail, ShortAt([0, 0] + tail, 0), 2) == Some([])
    ensures forall records :: !IsSctList([0, 0] + tail, records)
  {
    var list, l: Bytes := [0, 0] + tail, [0, 0];
    assert list[0..2] == l && l[..1] == [0] && l[..1][..0] == [];
    assert BeValue(l) == BeValue(l[..1]) * 256 == 0;
    hide IsSctList, BeValue;
    forall records
      ensures !IsSctList(list, records)
    {
      DeclaredLength(list, records);
    }
  }

  lemma OneRecord(r: Bytes)
    requires |r| >= 41
    ensures AllFields([r]) == [FieldsOf(r)]
  {
    assert [FieldsOf(r)] + [] == [FieldsOf(r)];
  }

  lemma OneRecordStands(l: Bytes, r: Bytes)
    requires |l| == 2
    ensures var list := l + BeBytes(|r|, 2) + r;
      |list| == 4 + |r| && list[0..2] == l && RecordStands(list, 2, r)
  {
    ThreeParts(l, BeBytes(|r|, 2), r);
    hide BeBytes;
  }

  /** A record may run past any declared length `l` but zero. */
  lemma RecordMayOverrun(l: Bytes, r: Bytes)
    requires |l| == 2 && 41 <= |r| < U16_LIMIT && 0 < BeValue(l) < 2 + |r|
    ensures var list := l + BeBytes(|r|, 2) + r;
      Scan(list, ShortAt(list, 0), 2) == Some([FieldsOf(r)]) && |list| > ShortAt(list, 0) + 2
  {
    var list := l + BeBytes(|r|, 2) + r;
    OneRecord(r);
    OneRecordStands(l, r);
    hide BeBytes, BeValue, FieldsOf, AllFields, Scan, Holds, RecordStands;
    HoldsNone(list, ShortAt(list, 0), 4 + |r|);
    HoldsMore(list, ShortAt(list, 0), 2, r, []);
    assert [r] + [] == [r];
    ScanComplete(list, ShortAt(list, 0), 2, [r]);
  }

  /** The list may end at once, or after one stray byte, whatever length it declares. */
  lemma ListMayStopShort(l: Bytes, tail: Bytes)
    requires |l| == 2 && |tail| < 2
    ensures Scan(l + tail, ShortAt(l + tail, 0), 2) == Some([])
  {
  }
}
