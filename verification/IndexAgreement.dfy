/** The index agrees with the simple thing it speeds up: asking the filters directly. */
module IndexAgreement {
  import opened ByteStrings
  import opened IndexFormat
  import opened IndexRoundTrip
  import opened LogOrder
  import opened Revocation
  import opened IndexWrite
  import opened IndexCheck
  import opened IndexMeaning

  // Asking the filters directly

  predicate CoversSct(card: Clubcard, sct: Sct) {
    sct.logId in card.universe && card.universe[sct.logId].low <= sct.timestamp <= card.universe[sct.logId].high
  }

  ghost predicate CoversSome(card: Clubcard, scts: seq<Sct>) {
    exists sct :: sct in scts && CoversSct(card, sct)
  }

  function Opinion(card: Clubcard, input: RevocationCheckInput): CRLiteStatus {
    card.contains(input.Key(), input.sctTimestamps)
  }

  /** Some filter whose universe covers an SCT of the certificate gives this answer. */
  ghost predicate SomeSays(cards: seq<Clubcard>, input: RevocationCheckInput, status: CRLiteStatus) {
    exists i :: 0 <= i < |cards| && CoversSome(cards[i], input.sctTimestamps) && Opinion(cards[i], input) == status
  }

  /** Revoked if any covering filter says so, else not revoked if any says "good", else not covered. */
  ghost function Ask(cards: seq<Clubcard>, input: RevocationCheckInput): RevocationStatus {
    if SomeSays(cards, input, Revoked) then CertainlyRevoked
    else if SomeSays(cards, input, Good) then NotRevoked
    else NotCoveredByRevocationData
  }

  ghost predicate AnySays(cards: seq<Clubcard>, input: RevocationCheckInput, status: CRLiteStatus) {
    exists i :: 0 <= i < |cards| && Opinion(cards[i], input) == status
  }

  /** The same without looking at any universe. */
  ghost function AskEveryFilter(cards: seq<Clubcard>, input: RevocationCheckInput): RevocationStatus {
    if AnySays(cards, input, Revoked) then CertainlyRevoked
    else if AnySays(cards, input, Good) then NotRevoked
    else NotCoveredByRevocationData
  }

  // The side conditions

  /** What the casts of the writer assume, and what the operating system and the type of file
      names guarantee of the names of files that could be read. */
  ghost predicate Indexable(files: seq<ManifestFile>, dir: Files, p: Platform) {
    Readable(files, dir, p) && |files| < U16_LIMIT && |Ids(Cards(files, dir, p))| < U32_LIMIT &&
    forall i :: 0 <= i < |files| ==> 0 !in files[i].filename && p.utf8(files[i].filename)
  }

  /** Every file listed still has the content it had in `dir`. */
  ghost predicate Unchanged(files: seq<ManifestFile>, dir: Files, dir': Files) {
    forall i :: 0 <= i < |files| && files[i].filename in dir ==>
      files[i].filename in dir' && dir'[files[i].filename] == dir[files[i].filename]
  }

  // What the inversion lists

  lemma {:induction false} EntriesForAre(cards: seq<Clubcard>, id: LogId)
    requires |cards| < U16_LIMIT
    ensures |EntriesFor(cards, id)| <= |cards|
    ensures forall e :: e in EntriesFor(cards, id) <==>
      e.filter < |cards| && e in OwnEntry(cards[e.filter], e.filter, id)
  {
    if cards != [] {
      var n := |cards| - 1;
      var front, last := EntriesFor(cards[..n], id), OwnEntry(cards[n], n, id);
      EntriesForAre(cards[..n], id);
      assert |last| <= 1;
      assert forall e :: e in last ==> e.filter == n;
      hide OwnEntry;
      assert forall e :: e in EntriesFor(cards, id) <==> e in front || e in last;
    }
  }

  lemma SectionsAre(cards: seq<Clubcard>, k: nat)
    requires k < |SectionsOf(cards)|
    ensures SectionsOf(cards)[k].logId in Ids(cards)
    ensures SectionsOf(cards)[k].entries == EntriesFor(cards, SectionsOf(cards)[k].logId)
  {
    hide Listing, EntriesFor, Ids;
    ListingSorted(Ids(cards));
    assert Listing(Ids(cards))[k] in Listing(Ids(cards));
  }

  lemma SectionExists(cards: seq<Clubcard>, id: LogId)
    requires id in Ids(cards)
    ensures exists k :: 0 <= k < |SectionsOf(cards)| && SectionsOf(cards)[k].logId == id
  {
    hide Listing, EntriesFor, Ids;
    ListingSorted(Ids(cards));
    var k :| 0 <= k < |Listing(Ids(cards))| && Listing(Ids(cards))[k] == id;
    assert SectionsOf(cards)[k].logId == id;
  }

  lemma ListedIsCovering(names: seq<Name>, cards: seq<Clubcard>, sct: Sct, i: nat)
    requires |cards| < U16_LIMIT && Listed(Inversion(names, cards), sct, i)
    ensures i < |cards| && CoversSct(cards[i], sct)
  {
    hide EntriesFor, SectionsOf;
    var ss := SectionsOf(cards);
    var k, e :| 0 <= k < |ss| && ss[k].logId == sct.logId && e in ss[k].entries &&
      Covers(e, sct.timestamp) && e.filter == i;
    SectionsAre(cards, k);
    EntriesForAre(cards, sct.logId);
    assert e in OwnEntry(cards[i], i, sct.logId);
  }

  lemma CoveringIsListed(names: seq<Name>, cards: seq<Clubcard>, sct: Sct, i: nat)
    requires |cards| < U16_LIMIT && i < |cards| && CoversSct(cards[i], sct)
    ensures Listed(Inversion(names, cards), sct, i)
  {
    hide EntriesFor, SectionsOf;
    var ss := SectionsOf(cards);
    InIds(cards, i, sct.logId);
    SectionExists(cards, sct.logId);
    var k :| 0 <= k < |ss| && ss[k].logId == sct.logId;
    SectionsAre(cards, k);
    var e := OwnEntry(cards[i], i, sct.logId)[0];
    assert e.filter == i && Covers(e, sct.timestamp);
    EntriesForAre(cards, sct.logId);
    assert e in OwnEntry(cards[i], i, sct.logId);
  }

  lemma InversionListed(names: seq<Name>, cards: seq<Clubcard>, sct: Sct, i: nat)
    requires |cards| < U16_LIMIT
    ensures Listed(Inversion(names, cards), sct, i) <==> i < |cards| && CoversSct(cards[i], sct)
  {
    hide Listed, Inversion, CoversSct;
    if Listed(Inversion(names, cards), sct, i) {
      ListedIsCovering(names, cards, sct, i);
    }
    if i < |cards| && CoversSct(cards[i], sct) {
      CoveringIsListed(names, cards, sct, i);
    }
  }

  lemma {:induction false} InIds(cards: seq<Clubcard>, i: nat, id: LogId)
    requires i < |cards| && id in cards[i].universe
    ensures id in Ids(cards)
  {
    if i < |cards| - 1 {
      InIds(cards[..|cards| - 1], i, id);
    }
  }

  lemma SectionSound(cards: seq<Clubcard>, k: nat)
    requires |cards| < U16_LIMIT && k < |SectionsOf(cards)|
    ensures SectionFits(V1, SectionsOf(cards)[k])
    ensures forall e :: e in SectionsOf(cards)[k].entries ==> e.filter < |cards|
  {
    Pow256Widths();
    hide SectionsOf, EntriesFor, OwnEntry, Pow256;
    SectionsAre(cards, k);
    EntriesForAre(cards, SectionsOf(cards)[k].logId);
    var es := SectionsOf(cards)[k].entries;
    assert forall i :: 0 <= i < |es| ==> es[i] in es;
  }

  lemma SectionsSorted(names: seq<Name>, cards: seq<Clubcard>)
    ensures SortedSections(Inversion(names, cards)) && |SectionsOf(cards)| == |Ids(cards)|
  {
    hide Listing, EntriesFor, Ids, Precedes;
    ListingSorted(Ids(cards));
  }

  lemma InversionSound(files: seq<ManifestFile>, dir: Files, p: Platform)
    requires Indexable(files, dir, p)
    ensures var ix := Inversion(Names(files), Cards(files, dir, p));
      Fits(V1, ix) && SortedSections(ix) && NamesUsable(ix, p)
  {
    var cards := Cards(files, dir, p);
    var ix := Inversion(Names(files), cards);
    SectionsSorted(Names(files), cards);
    Pow256Widths();
    hide SectionsOf, SectionFits, SortedSections, Ids, Cards, Pow256;
    forall k | 0 <= k < |ix.sections|
      ensures SectionFits(V1, ix.sections[k])
      ensures forall e :: e in ix.sections[k].entries ==> e.filter < |ix.names|
    {
      SectionSound(cards, k);
    }
    assert forall i :: 0 <= i < |files| ==> ix.names[i] == files[i].filename;
  }

  /** Nothing is left open: an index with these names whose sections are strictly sorted, are those
      of the logs covered, and hold the entries of their logs, is the one that is written. */
  lemma InversionUnique(ix: Logical, cards: seq<Clubcard>)
    requires SortedSections(ix)
    requires forall id: LogId :: id in Ids(cards) <==> exists k :: 0 <= k < |ix.sections| && ix.sections[k].logId == id
    requires forall k :: 0 <= k < |ix.sections| ==> ix.sections[k].entries == EntriesFor(cards, ix.sections[k].logId)
    ensures ix == Inversion(ix.names, cards)
  {
    hide Listing, EntriesFor, Ids, Precedes, Lt;
    var ids := seq(|ix.sections|, k requires 0 <= k < |ix.sections| => ix.sections[k].logId);
    ListingSorted(Ids(cards));
    var listing := Listing(Ids(cards));
    forall x: Bytes
      ensures x in ids <==> x in listing
    {
      if x in ids {
        var k :| 0 <= k < |ids| && ids[k] == x;
        assert ix.sections[k].logId in Ids(cards);
      }
      if x in listing {
        var k :| 0 <= k < |ix.sections| && ix.sections[k].logId == x;
        assert ids[k] == x;
      }
    }
    forall i, j | 0 <= i < j < |ids|
      ensures Lt(ids[i], ids[j])
    {
      LtIsPrecedes(ids[i], ids[j]);
    }
    ListingStrict(Ids(cards));
    SortedUnique(ids, listing);
    assert ix.sections == SectionsOf(cards) by {
      forall k | 0 <= k < |ix.sections|
        ensures ix.sections[k] == SectionsOf(cards)[k]
      {
        assert ids[k] == listing[k];
      }
    }
  }

  // Agreement

  /** The answers at check time are those of the filters the index was built from. */
  lemma AnswerIs(q: Query, files: seq<ManifestFile>, dir: Files, i: nat)
    requires Indexable(files, dir, q.p) && Unchanged(files, dir, q.dir)
    requires Shows(q.img, Inversion(Names(files), Cards(files, dir, q.p))) && i < |files|
    ensures Answer(q, i) == Ok(Opinion(Cards(files, dir, q.p)[i], q.input))
  {
    hide NameAt, DirLogId, SectionAt;
    assert NameAt(q.img, i) == Names(files)[i] == files[i].filename;
  }

  /** The filters consulted are exactly those whose universe covers an SCT. */
  lemma ConsultedAre(q: Query, files: seq<ManifestFile>, dir: Files)
    requires Indexable(files, dir, q.p)
    requires Shows(q.img, Inversion(Names(files), Cards(files, dir, q.p)))
    ensures var cards, scts := Cards(files, dir, q.p), q.input.sctTimestamps;
      forall s :: s in Steps(q, scts) <==> s.Consult? && s.filter < |cards| && CoversSome(cards[s.filter], scts)
  {
    var cards, scts := Cards(files, dir, q.p), q.input.sctTimestamps;
    var ix := Inversion(Names(files), cards);
    InversionSound(files, dir, q.p);
    StepsAre(q, ix, scts);
    hide Steps, Shows, Fits, SortedSections, NamesUsable, Inversion, Listed, Cards, CoversSct;
    forall sct, i: nat
      ensures Listed(ix, sct, i) <==> i < |cards| && CoversSct(cards[i], sct)
    {
      InversionListed(Names(files), cards, sct, i);
    }
  }

  /** Consulting exactly the covering filters, each with its own answer, is asking them. */
  lemma FoldIsAsk(q: Query, steps: seq<Step>, cards: seq<Clubcard>)
    requires ImageOk(q.img) && |cards| == q.img.numFilenames
    requires forall s :: s in steps <==>
      s.Consult? && s.filter < |cards| && CoversSome(cards[s.filter], q.input.sctTimestamps)
    requires forall i :: 0 <= i < |cards| ==> Answer(q, i) == Ok(Opinion(cards[i], q.input))
    ensures Fold(q, steps, false) == Ok(Ask(cards, q.input))
  {
    hide Fold, Answer, Opinion, CoversSome;
    forall s | s in steps
      ensures exists status :: Answers(q, s, status)
    {
      assert Answers(q, s, Opinion(cards[s.filter], q.input));
    }
    FoldBySet(q, steps);
    forall status
      ensures (exists s :: s in steps && Answers(q, s, status)) <==> SomeSays(cards, q.input, status)
    {
      if SomeSays(cards, q.input, status) {
        var i :| 0 <= i < |cards| && CoversSome(cards[i], q.input.sctTimestamps) &&
          Opinion(cards[i], q.input) == status;
        assert Consult(i) in steps && Answers(q, Consult(i), status);
      }
    }
    assert (exists s :: s in steps && Revokes(q, s)) <==> (exists s :: s in steps && Answers(q, s, Revoked));
  }

  /** What is opened after writing shows the inversion of the filters. */
  lemma OpenedShows(files: seq<ManifestFile>, dir: Files, p: Platform)
    requires Indexable(files, dir, p)
    ensures IndexBytes(files, dir, p).Some? && Open(IndexBytes(files, dir, p).value).Some?
    ensures Shows(Open(IndexBytes(files, dir, p).value).value, Inversion(Names(files), Cards(files, dir, p)))
  {
    InversionSound(files, dir, p);
    RoundTrip(V1, Inversion(Names(files), Cards(files, dir, p)));
    hide Encode, Written, Fits, Shows, Inversion, Cards, Names;
  }

  /** The reads from number `from` on are of the listed files in `asked`, none twice. */
  ghost predicate ReadsOf(files: seq<ManifestFile>, loads: seq<Load>, from: nat, asked: seq<nat>) {
    DistinctBelow(asked, |files|) && |loads| == from + |asked| &&
    forall k :: 0 <= k < |asked| ==> asked[k] < |files| && loads[from + k].name == files[asked[k]].filename
  }

  lemma NothingChanged(files: seq<ManifestFile>, dir: Files)
    ensures Unchanged(files, dir, dir)
  {
  }

  lemma NoReads(files: seq<ManifestFile>, loads: seq<Load>)
    ensures ReadsOf(files, loads, |loads|, [])
  {
  }

  /** A check reads listed files whose universe covers an SCT, each at most once. */
  lemma ChecksRead(q: Query, files: seq<ManifestFile>, dir: Files, loads: seq<Load>, from: nat,
                   asked: seq<nat>, all: bool)
    requires Indexable(files, dir, q.p)
    requires Shows(q.img, Inversion(Names(files), Cards(files, dir, q.p)))
    requires LoadedOnce(q.img, loads, from, asked)
    requires AskedFor(Steps(q, q.input.sctTimestamps), [], asked, all)
    ensures ReadsOf(files, loads, from, asked)
    ensures forall i :: i in asked ==> CoversSome(Cards(files, dir, q.p)[i], q.input.sctTimestamps)
  {
    ConsultedAre(q, files, dir);
    hide NameAt, DirLogId, SectionAt, Steps, CoversSome;
    assert forall i :: 0 <= i < |files| ==> NameAt(q.img, i) == Names(files)[i] == files[i].filename;
  }

  /** So a manifest that lists a covering filter twice has it read twice. */
  lemma ListedTwice(q: Query, files: seq<ManifestFile>, dir: Files, loads: seq<Load>, from: nat,
                    asked: seq<nat>, i: nat, j: nat)
    requires Indexable(files, dir, q.p)
    requires Shows(q.img, Inversion(Names(files), Cards(files, dir, q.p)))
    requires LoadedOnce(q.img, loads, from, asked)
    requires AskedFor(Steps(q, q.input.sctTimestamps), [], asked, true)
    requires i < j < |files| && files[i].filename == files[j].filename
    requires CoversSome(Cards(files, dir, q.p)[i], q.input.sctTimestamps)
    ensures ReadTwice(loads, from)
  {
    ConsultedAre(q, files, dir);
    hide NameAt, DirLogId, SectionAt, Steps, CoversSome;
    var steps := Steps(q, q.input.sctTimestamps);
    assert Consult(i) in steps && Consult(j) in steps;
    assert NameAt(q.img, i) == Names(files)[i] && NameAt(q.img, j) == Names(files)[j];
    ReadTwiceExact(q, steps, loads, from, asked, true);
  }

  lemma ShownAgrees(q: Query, files: seq<ManifestFile>, dir: Files)
    requires Indexable(files, dir, q.p) && Unchanged(files, dir, q.dir)
    requires Shows(q.img, Inversion(Names(files), Cards(files, dir, q.p)))
    ensures Verdict(q) == Ok(Ask(Cards(files, dir, q.p), q.input))
  {
    var cards := Cards(files, dir, q.p);
    ConsultedAre(q, files, dir);
    forall i: nat | i < |cards|
      ensures Answer(q, i) == Ok(Opinion(cards[i], q.input))
    {
      AnswerIs(q, files, dir, i);
    }
    FoldIsAsk(q, Steps(q, q.input.sctTimestamps), cards);
  }

  lemma OpenedAgrees(files: seq<ManifestFile>, dir: Files, dir': Files, p: Platform, input: RevocationCheckInput)
    requires Indexable(files, dir, p) && Unchanged(files, dir, dir')
    ensures IndexBytes(files, dir, p).Some? && Open(IndexBytes(files, dir, p).value).Some?
    ensures Verdict(Query(Open(IndexBytes(files, dir, p).value).value, input, dir', p))
         == Ok(Ask(Cards(files, dir, p), input))
  {
    OpenedShows(files, dir, p);
    hide Open, Shows, Inversion, Cards, Names, IndexBytes;
    ShownAgrees(Query(Open(IndexBytes(files, dir, p).value).value, input, dir', p), files, dir);
  }

  /** Write, open, check: the verdict of asking each covering filter directly. */
  lemma Agreement(files: seq<ManifestFile>, dir: Files, dir': Files, p: Platform, input: RevocationCheckInput)
    requires Indexable(files, dir, p) && Unchanged(files, dir, dir')
    ensures IndexBytes(files, dir, p).Some?
    ensures CheckBytes(IndexBytes(files, dir, p).value, input, dir', p) == Ok(Ask(Cards(files, dir, p), input))
  {
    OpenedAgrees(files, dir, dir', p, input);
    hide Verdict, Ask, Cards, IndexBytes, Open;
  }

  /** If filters that cover no SCT have no opinion, it is the verdict of asking every filter. */
  lemma AskingEveryFilter(cards: seq<Clubcard>, input: RevocationCheckInput)
    requires forall i :: 0 <= i < |cards| && !CoversSome(cards[i], input.sctTimestamps) ==>
      Opinion(cards[i], input) == NotCovered
    ensures Ask(cards, input) == AskEveryFilter(cards, input)
  {
    hide Opinion, CoversSome;
    forall status | status != NotCovered
      ensures SomeSays(cards, input, status) <==> AnySays(cards, input, status)
    {
    }
  }

  /** So, under that condition, do write, open and check. */
  lemma AgreementEveryFilter(files: seq<ManifestFile>, dir: Files, dir': Files, p: Platform,
                             input: RevocationCheckInput)
    requires Indexable(files, dir, p) && Unchanged(files, dir, dir')
    requires forall card :: card in Cards(files, dir, p) && !CoversSome(card, input.sctTimestamps) ==>
      Opinion(card, input) == NotCovered
    ensures CheckBytes(IndexBytes(files, dir, p).value, input, dir', p)
         == Ok(AskEveryFilter(Cards(files, dir, p), input))
  {
    Agreement(files, dir, dir', p, input);
    hide CheckBytes, IndexBytes, Cards;
    AskingEveryFilter(Cards(files, dir, p), input);
  }

  // The same as a run of the three operations

  /** Unless the disk fails under the index file, the result is the verdict of asking the covering
      filters, provided the check finds them as they were when the index was written. It reads only
      covering filters, and each at most once. */
  method WriteOpenCheck(files: seq<ManifestFile>, dir: Files, p: Platform, input: RevocationCheckInput,
                        disk: Disk, fd: FilterDir)
    returns (r: Result<RevocationStatus>, ghost asked: seq<nat>)
    requires Indexable(files, dir, p)
    modifies disk, fd
    ensures disk.faults >= old(disk.faults) && (disk.faults > old(disk.faults) ==> r == Err(IndexDecode))
    ensures disk.metadataFaults >= old(disk.metadataFaults)
    ensures disk.metadataFaults > old(disk.metadataFaults) ==> r == Err(FileRead)
    ensures disk.faults == old(disk.faults) && disk.metadataFaults == old(disk.metadataFaults) ==>
      Sees(fd.loads, |old(fd.loads)|, dir) ==> r == Ok(Ask(Cards(files, dir, p), input))
    ensures ReadsOf(files, fd.loads, |old(fd.loads)|, asked)
    ensures forall i :: i in asked ==> CoversSome(Cards(files, dir, p)[i], input.sctTimestamps)
  {
    hide *;
    NothingChanged(files, dir);
    OpenedShows(files, dir, p);
    OpenedAgrees(files, dir, dir, p, input);
    NoReads(files, fd.loads);
    asked := [];
    var bytes := Write(files, dir, p);
    var file := new IndexFile(bytes.value, disk);
    var loaded := Index.FromCache(Some(file));
    if loaded.Err? {
      return Err(loaded.error), asked;
    }
    var index := loaded.value;
    ghost var q := Query(index.View(), input, dir, p);
    r, asked := index.Check(input, fd, p, dir);
    ghost var all := r == Ok(NotRevoked) || r == Ok(NotCoveredByRevocationData);
    ChecksRead(q, files, dir, fd.loads, |old(fd.loads)|, asked, all);
  }

  // Order and growth

  /** The answer to a key depends on which SCTs there are, not on their order or number. */
  ghost predicate OrderFree(card: Clubcard) {
    forall key, scts, scts' ::
      (forall sct :: sct in scts <==> sct in scts') ==> card.contains(key, scts) == card.contains(key, scts')
  }

  ghost predicate SameMembers<T(!new)>(a: seq<T>, b: seq<T>) {
    forall x :: x in a <==> x in b
  }

  function Rank(s: RevocationStatus): nat {
    match s
    case NotCoveredByRevocationData => 0
    case NotRevoked => 1
    case CertainlyRevoked => 2
  }

  /** Filters may be listed in any order and any number of times, and so may SCTs; more filters
      only move the verdict up. */
  lemma AskMonotone(cards: seq<Clubcard>, cards': seq<Clubcard>,
                    input: RevocationCheckInput, input': RevocationCheckInput)
    requires forall card :: card in cards ==> card in cards' && OrderFree(card)
    requires SameMembers(input.sctTimestamps, input'.sctTimestamps) && input.Key() == input'.Key()
    ensures Rank(Ask(cards, input)) <= Rank(Ask(cards', input'))
  {
    forall status | SomeSays(cards, input, status)
      ensures SomeSays(cards', input', status)
    {
      var i :| 0 <= i < |cards| && CoversSome(cards[i], input.sctTimestamps) && Opinion(cards[i], input) == status;
      assert cards[i] in cards;
      var j :| 0 <= j < |cards'| && cards'[j] == cards[i];
      assert OrderFree(cards[i]);
      assert Opinion(cards'[j], input') == status;
      var sct :| sct in input.sctTimestamps && CoversSct(cards[i], sct);
      assert sct in input'.sctTimestamps;
    }
  }

  /** The same for the whole of write, open and check: with the filters of another manifest among
      its own and the SCTs in any order, a check says no less. */
  lemma VerdictMonotone(files: seq<ManifestFile>, files': seq<ManifestFile>, dir: Files, p: Platform,
                        input: RevocationCheckInput, input': RevocationCheckInput)
    requires Indexable(files, dir, p) && Indexable(files', dir, p)
    requires forall card :: card in Cards(files, dir, p) ==> card in Cards(files', dir, p) && OrderFree(card)
    requires SameMembers(input.sctTimestamps, input'.sctTimestamps) && input.Key() == input'.Key()
    ensures var r, r' := CheckBytes(IndexBytes(files, dir, p).value, input, dir, p),
                         CheckBytes(IndexBytes(files', dir, p).value, input', dir, p);
      r.Ok? && r'.Ok? && Rank(r.value) <= Rank(r'.value)
  {
    hide CheckBytes, Ask, Cards, OrderFree, IndexBytes;
    Agreement(files, dir, dir, p, input);
    Agreement(files', dir, dir, p, input');
    AskMonotone(Cards(files, dir, p), Cards(files', dir, p), input, input');
  }

  /** So manifests that list the same filters, in any order, give the same verdict. */
  lemma VerdictOrderFree(files: seq<ManifestFile>, files': seq<ManifestFile>, dir: Files, p: Platform,
                         input: RevocationCheckInput, input': RevocationCheckInput)
    requires Indexable(files, dir, p) && Indexable(files', dir, p)
    requires SameMembers(Cards(files, dir, p), Cards(files', dir, p))
    requires forall card :: card in Cards(files, dir, p) ==> OrderFree(card)
    requires SameMembers(input.sctTimestamps, input'.sctTimestamps) && input.Key() == input'.Key()
    ensures CheckBytes(IndexBytes(files, dir, p).value, input, dir, p)
         == CheckBytes(IndexBytes(files', dir, p).value, input', dir, p)
  {
    hide CheckBytes, Ask, Cards, OrderFree, IndexBytes;
    VerdictMonotone(files, files', dir, p, input, input');
    VerdictMonotone(files', files, dir, p, input', input);
  }
}
