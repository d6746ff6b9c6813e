/** What a check returns, on any bytes, said of the entries and the files themselves: of sections,
    time stamps, file names and decoded filters. */
module IndexVerdict {
  import opened ByteStrings
  import opened IndexFormat
  import opened Revocation
  import opened IndexCheck
  import opened IndexMeaning

  /** The entry is one that the check comes to for this SCT: it is in the section of its log, and its
      interval holds the timestamp. */
  ghost predicate MetAt(q: Query, sct: Sct, e: Entry)
    requires ImageOk(q.img)
  {
    exists k :: Search(q.img, sct.logId, 0, q.img.numLogs) == Some(k) && SectionAt(q.img, k).Some? &&
      e in SectionAt(q.img, k).value && e.low <= sct.timestamp <= e.high
  }

  /** Its slot exists and holds valid UTF-8. */
  ghost predicate Named(q: Query, e: Entry)
    requires ImageOk(q.img)
  {
    e.filter < q.img.numFilenames && q.p.utf8(NameAt(q.img, e.filter))
  }

  ghost predicate There(q: Query, e: Entry)
    requires ImageOk(q.img)
  {
    Named(q, e) && NameAt(q.img, e.filter) in q.dir
  }

  ghost predicate Decodes(q: Query, e: Entry)
    requires ImageOk(q.img)
  {
    There(q, e) && q.p.decode(q.dir[NameAt(q.img, e.filter)]).Some?
  }

  /** Its filter, asked about the certificate and all of its SCTs, says this. */
  ghost predicate Says(q: Query, e: Entry, status: CRLiteStatus)
    requires ImageOk(q.img)
  {
    Decodes(q, e) &&
    var key := CRLiteKey(q.input.issuerSpkiHash, q.input.certSerial, q.input.issuerSerialHash);
    q.p.decode(q.dir[NameAt(q.img, e.filter)]).value.contains(key, q.input.sctTimestamps) == status
  }

  ghost predicate EntryFine(q: Query, e: Entry)
    requires ImageOk(q.img)
  {
    Decodes(q, e) && !Says(q, e, Revoked)
  }

  /** The log is not listed, or its section can be read and every entry met has a filter that is there,
      decodes, and does not say "revoked". */
  ghost predicate SctFine(q: Query, sct: Sct)
    requires ImageOk(q.img)
  {
    (forall k :: Search(q.img, sct.logId, 0, q.img.numLogs) == Some(k) ==> SectionAt(q.img, k).Some?) &&
    (forall e :: MetAt(q, sct, e) ==> EntryFine(q, e))
  }

  // Steps and entries

  lemma StepMeans(q: Query, e: Entry)
    requires ImageOk(q.img)
    ensures var s := StepOf(q, e.filter);
      (Passes(q, s) <==> EntryFine(q, e)) && (forall status :: Answers(q, s, status) <==> Says(q, e, status)) &&
      (Breaks(q, s, IndexDecode) <==> !Named(q, e)) &&
      (Breaks(q, s, FileRead) <==> Named(q, e) && !There(q, e)) &&
      (Breaks(q, s, FileDecode) <==> There(q, e) && !Decodes(q, e))
  {
    hide NameAt;
  }

  lemma HeadMeans(q: Query, e: Entry, timestamp: u64)
    requires ImageOk(q.img)
    ensures AllPass(q, StepsOf(q, e, timestamp)) <==> (e.low <= timestamp <= e.high ==> EntryFine(q, e))
    ensures SomeGood(q, StepsOf(q, e, timestamp)) <==> e.low <= timestamp <= e.high && Says(q, e, Good)
  {
    StepMeans(q, e);
    hide StepOf, Passes, Answers, EntryFine, Says;
    if Covers(e, timestamp) {
      assert StepsOf(q, e, timestamp)[0] == StepOf(q, e.filter);
    }
  }

  lemma {:induction false} EntryStepsMean(q: Query, es: seq<Entry>, timestamp: u64)
    requires ImageOk(q.img)
    ensures var steps := EntrySteps(q, es, timestamp);
      (AllPass(q, steps) <==> forall e :: e in es && e.low <= timestamp <= e.high ==> EntryFine(q, e)) &&
      (SomeGood(q, steps) <==> exists e :: e in es && e.low <= timestamp <= e.high && Says(q, e, Good))
  {
    if es != [] {
      var head, rest := StepsOf(q, es[0], timestamp), EntrySteps(q, es[1..], timestamp);
      EntryStepsMean(q, es[1..], timestamp);
      HeadMeans(q, es[0], timestamp);
      hide StepsOf, AllPass, SomeGood, EntryFine, Says;
      AllPassJoin(q, head, rest);
      assert forall e :: e in es <==> e == es[0] || e in es[1..];
    }
  }

  lemma AllPassJoin(q: Query, a: seq<Step>, b: seq<Step>)
    requires ImageOk(q.img)
    ensures AllPass(q, a + b) <==> AllPass(q, a) && AllPass(q, b)
    ensures SomeGood(q, a + b) <==> SomeGood(q, a) || SomeGood(q, b)
  {
    hide Passes, Answers;
    assert forall i :: 0 <= i < |b| ==> (a + b)[|a| + i] == b[i];
    assert forall i :: 0 <= i < |a| ==> (a + b)[i] == a[i];
  }

  lemma SctStepsMean(q: Query, sct: Sct)
    requires ImageOk(q.img)
    ensures AllPass(q, SctSteps(q, sct)) <==> SctFine(q, sct)
    ensures SomeGood(q, SctSteps(q, sct)) <==> exists e :: MetAt(q, sct, e) && Says(q, e, Good)
  {
    var k := Search(q.img, sct.logId, 0, q.img.numLogs);
    hide Search, SectionAt, EntrySteps, EntryFine, Says;
    if k.Some? && SectionAt(q.img, k.value).Some? {
      EntryStepsMean(q, SectionAt(q.img, k.value).value, sct.timestamp);
      assert forall e :: MetAt(q, sct, e) <==>
        e in SectionAt(q.img, k.value).value && e.low <= sct.timestamp <= e.high;
    } else if k.Some? {
      assert SctSteps(q, sct) == [Fail] && !Passes(q, [Fail][0]) && !Answers(q, [Fail][0], Good);
    }
  }

  lemma {:induction false} StepsMean(q: Query, scts: seq<Sct>)
    requires ImageOk(q.img)
    ensures AllPass(q, Steps(q, scts)) <==> forall sct :: sct in scts ==> SctFine(q, sct)
    ensures SomeGood(q, Steps(q, scts)) <==> exists sct, e :: sct in scts && MetAt(q, sct, e) && Says(q, e, Good)
  {
    if scts != [] {
      StepsMean(q, scts[1..]);
      SctStepsMean(q, scts[0]);
      hide SctSteps, AllPass, SomeGood, SctFine, MetAt, Says;
      AllPassJoin(q, SctSteps(q, scts[0]), Steps(q, scts[1..]));
      assert forall sct :: sct in scts <==> sct == scts[0] || sct in scts[1..];
    }
  }

  // What is consulted

  lemma {:induction false} EntryConsults(q: Query, es: seq<Entry>, timestamp: u64, i: nat)
    requires ImageOk(q.img)
    ensures Consult(i) in EntrySteps(q, es, timestamp) <==>
      exists e :: e in es && e.low <= timestamp <= e.high && Named(q, e) && e.filter == i
  {
    hide NameAt;
    if es != [] {
      EntryConsults(q, es[1..], timestamp, i);
      assert Consult(i) in StepsOf(q, es[0], timestamp) <==>
        es[0].low <= timestamp <= es[0].high && Named(q, es[0]) && es[0].filter == i;
      hide StepsOf, Named;
      assert forall e :: e in es <==> e == es[0] || e in es[1..];
    }
  }

  lemma SctConsults(q: Query, sct: Sct, i: nat)
    requires ImageOk(q.img)
    ensures Consult(i) in SctSteps(q, sct) <==> exists e :: MetAt(q, sct, e) && Named(q, e) && e.filter == i
  {
    var k := Search(q.img, sct.logId, 0, q.img.numLogs);
    hide Search, SectionAt, EntrySteps, Named;
    if k.Some? && SectionAt(q.img, k.value).Some? {
      EntryConsults(q, SectionAt(q.img, k.value).value, sct.timestamp, i);
      assert forall e :: MetAt(q, sct, e) <==>
        e in SectionAt(q.img, k.value).value && e.low <= sct.timestamp <= e.high;
    }
  }

  /** The filters consulted are those of the entries met whose slot and name are good. */
  lemma {:induction false} ConsultedExactly(q: Query, scts: seq<Sct>, i: nat)
    requires ImageOk(q.img)
    ensures Consult(i) in Steps(q, scts) <==>
      exists sct, e :: sct in scts && MetAt(q, sct, e) && Named(q, e) && e.filter == i
  {
    if scts != [] {
      ConsultedExactly(q, scts[1..], i);
      SctConsults(q, scts[0], i);
      hide SctSteps, MetAt, Named;
      assert forall sct :: sct in scts <==> sct == scts[0] || sct in scts[1..];
    }
  }

  // The verdict

  /** A check ends without "revoked" and without an error if and only if every SCT is fine, and then says
      "not revoked" exactly if the filter of some entry met says "good". */
  lemma VerdictExact(q: Query)
    requires ImageOk(q.img)
    ensures var scts := q.input.sctTimestamps;
      (Verdict(q) == Ok(NotRevoked) <==>
        (forall sct :: sct in scts ==> SctFine(q, sct)) &&
        exists sct, e :: sct in scts && MetAt(q, sct, e) && Says(q, e, Good)) &&
      (Verdict(q) == Ok(NotCoveredByRevocationData) <==>
        (forall sct :: sct in scts ==> SctFine(q, sct)) &&
        !exists sct, e :: sct in scts && MetAt(q, sct, e) && Says(q, e, Good))
  {
    var scts := q.input.sctTimestamps;
    var steps := Steps(q, scts);
    FoldMeaning(q, steps, false);
    StepsMean(q, scts);
    hide Steps, Fold, Passes, SomeGood, SctFine, MetAt, Says;
    assert steps[..|steps|] == steps;
  }

  lemma {:induction false} FoldSkips(q: Query, a: seq<Step>, b: seq<Step>, good: bool) returns (good': bool)
    requires ImageOk(q.img) && AllPass(q, a)
    ensures Fold(q, a + b, good) == Fold(q, b, good')
  {
    if a == [] {
      assert a + b == b;
      good' := good;
    } else {
      hide Answer;
      assert (a + b)[1..] == a[1..] + b;
      assert Passes(q, a[0]);
      good' := FoldSkips(q, a[1..], b, good || Answers(q, a[0], Good));
    }
  }

  lemma {:induction false} StepsJoin(q: Query, a: seq<Sct>, b: seq<Sct>)
    requires ImageOk(q.img)
    ensures Steps(q, a + b) == Steps(q, a) + Steps(q, b)
  {
    hide SctSteps;
    if a == [] {
      assert a + b == b;
    } else {
      assert (a + b)[1..] == a[1..] + b;
      StepsJoin(q, a[1..], b);
    }
  }

  lemma {:induction false} EntryStepsJoin(q: Query, a: seq<Entry>, b: seq<Entry>, timestamp: u64)
    requires ImageOk(q.img)
    ensures EntrySteps(q, a + b, timestamp) == EntrySteps(q, a, timestamp) + EntrySteps(q, b, timestamp)
  {
    hide StepsOf;
    if a == [] {
      assert a + b == b;
    } else {
      assert (a + b)[1..] == a[1..] + b;
      EntryStepsJoin(q, a[1..], b, timestamp);
    }
  }

  /** The verdict is what the steps of SCT `i` and the later ones fold to, if the earlier SCTs are fine. */
  lemma FromSct(q: Query, i: nat) returns (rest: seq<Step>, good: bool)
    requires ImageOk(q.img) && i < |q.input.sctTimestamps|
    requires forall j :: 0 <= j < i ==> SctFine(q, q.input.sctTimestamps[j])
    ensures Verdict(q) == Fold(q, SctSteps(q, q.input.sctTimestamps[i]) + rest, good)
  {
    var scts := q.input.sctTimestamps;
    hide SctSteps, SctFine, Fold, AllPass, SomeGood, MetAt, Says;
    assert forall sct :: sct in scts[..i] ==> SctFine(q, sct);
    StepsMean(q, scts[..i]);
    assert scts == scts[..i] + scts[i..] && scts[i..][0] == scts[i];
    StepsJoin(q, scts[..i], scts[i..]);
    rest := Steps(q, scts[i..][1..]);
    assert Steps(q, scts[i..]) == SctSteps(q, scts[i]) + rest;
    hide Steps;
    good := FoldSkips(q, Steps(q, scts[..i]), SctSteps(q, scts[i]) + rest, false);
  }

  /** The first SCT whose section cannot be read makes the check fail. */
  lemma FirstUnreadable(q: Query, i: nat, k: nat)
    requires ImageOk(q.img) && i < |q.input.sctTimestamps|
    requires forall j :: 0 <= j < i ==> SctFine(q, q.input.sctTimestamps[j])
    requires Search(q.img, q.input.sctTimestamps[i].logId, 0, q.img.numLogs) == Some(k)
    requires SectionAt(q.img, k) == None
    ensures Verdict(q) == Err(IndexDecode)
  {
    var rest, good := FromSct(q, i);
    hide Search, SectionAt, Verdict;
    assert SctSteps(q, q.input.sctTimestamps[i]) == [Fail];
  }

  /** The first entry met that is not fine decides: a bad slot or name, a missing file and an undecodable
      one each have their error, and otherwise the certificate is revoked. */
  lemma FirstEntryDecides(q: Query, i: nat, k: nat, j: nat)
    requires ImageOk(q.img) && i < |q.input.sctTimestamps|
    requires forall i' :: 0 <= i' < i ==> SctFine(q, q.input.sctTimestamps[i'])
    requires Search(q.img, q.input.sctTimestamps[i].logId, 0, q.img.numLogs) == Some(k)
    requires SectionAt(q.img, k).Some? && j < |SectionAt(q.img, k).value|
    requires var es, t := SectionAt(q.img, k).value, q.input.sctTimestamps[i].timestamp;
      es[j].low <= t <= es[j].high && !EntryFine(q, es[j]) &&
      forall j' :: 0 <= j' < j && es[j'].low <= t <= es[j'].high ==> EntryFine(q, es[j'])
    ensures var e := SectionAt(q.img, k).value[j];
      Verdict(q) ==
        if !Named(q, e) then Err(IndexDecode)
        else if !There(q, e) then Err(FileRead)
        else if !Decodes(q, e) then Err(FileDecode)
        else Ok(CertainlyRevoked)
  {
    var rest, good := FromSct(q, i);
    var es, t := SectionAt(q.img, k).value, q.input.sctTimestamps[i].timestamp;
    hide Search, SectionAt, Verdict, SctFine;
    assert SctSteps(q, q.input.sctTimestamps[i]) == EntrySteps(q, es, t);
    InSection(q, es, j, t, rest, good);
  }

  lemma InSection(q: Query, es: seq<Entry>, j: nat, t: u64, rest: seq<Step>, good: bool)
    requires ImageOk(q.img) && j < |es|
    requires es[j].low <= t <= es[j].high && !EntryFine(q, es[j])
    requires forall j' :: 0 <= j' < j && es[j'].low <= t <= es[j'].high ==> EntryFine(q, es[j'])
    ensures Fold(q, EntrySteps(q, es, t) + rest, good) ==
      if !Named(q, es[j]) then Err(IndexDecode)
      else if !There(q, es[j]) then Err(FileRead)
      else if !Decodes(q, es[j]) then Err(FileDecode)
      else Ok(CertainlyRevoked)
  {
    EntryStepsMean(q, es[..j], t);
    StepMeans(q, es[j]);
    hide EntryFine, Fold, StepOf, Passes, Named, There, Decodes, Says;
    assert es == es[..j] + es[j..] && es[j..][0] == es[j];
    EntryStepsJoin(q, es[..j], es[j..], t);
    var head, later := EntrySteps(q, es[..j], t), EntrySteps(q, es[j..][1..], t);
    assert EntrySteps(q, es[j..], t) == [StepOf(q, es[j].filter)] + later;
    hide EntrySteps;
    var last := [StepOf(q, es[j].filter)] + (later + rest);
    assert head + ([StepOf(q, es[j].filter)] + later) + rest == head + last;
    var good' := FoldSkips(q, head, last, good);
    LastStep(q, es[j], last, good');
  }

  lemma LastStep(q: Query, e: Entry, steps: seq<Step>, good: bool)
    requires ImageOk(q.img) && steps != [] && steps[0] == StepOf(q, e.filter) && !EntryFine(q, e)
    ensures Fold(q, steps, good) ==
      if !Named(q, e) then Err(IndexDecode)
      else if !There(q, e) then Err(FileRead)
      else if !Decodes(q, e) then Err(FileDecode)
      else Ok(CertainlyRevoked)
  {
    hide NameAt;
  }
}
