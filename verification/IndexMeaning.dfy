/** What a verdict says: the fold over the steps, the search of the directory, and the steps
    that an index showing given names and sections gives rise to. */
module IndexMeaning {
  import opened ByteStrings
  import opened IndexFormat
  import opened IndexRoundTrip
  import opened LogOrder
  import opened Revocation
  import opened IndexCheck

  // The fold, on any index and any directory

  ghost predicate Answers(q: Query, s: Step, status: CRLiteStatus)
    requires ImageOk(q.img)
  {
    s.Consult? && s.filter < q.img.numFilenames && Answer(q, s.filter) == Ok(status)
  }

  ghost predicate Revokes(q: Query, s: Step)
    requires ImageOk(q.img)
  {
    Answers(q, s, Revoked)
  }

  ghost predicate Breaks(q: Query, s: Step, e: Error)
    requires ImageOk(q.img)
  {
    if s.Consult? && s.filter < q.img.numFilenames then Answer(q, s.filter) == Err(e) else e == IndexDecode
  }

  /** The step neither decides nor fails. */
  ghost predicate Passes(q: Query, s: Step)
    requires ImageOk(q.img)
  {
    Answers(q, s, Good) || Answers(q, s, NotCovered) || Answers(q, s, NotEnrolled)
  }

  ghost predicate AllPass(q: Query, steps: seq<Step>)
    requires ImageOk(q.img)
  {
    forall i :: 0 <= i < |steps| ==> Passes(q, steps[i])
  }

  ghost predicate SomeGood(q: Query, steps: seq<Step>)
    requires ImageOk(q.img)
  {
    exists i :: 0 <= i < |steps| && Answers(q, steps[i], Good)
  }

  /** The first step that does not pass, or the number of steps. */
  ghost function Passed(q: Query, steps: seq<Step>): (n: nat)
    requires ImageOk(q.img)
    ensures n <= |steps| && AllPass(q, steps[..n])
    ensures n < |steps| ==> !Passes(q, steps[n])
  {
    if steps == [] || !Passes(q, steps[0]) then 0 else
      var n := Passed(q, steps[1..]);
      assert steps[..n + 1] == [steps[0]] + steps[1..][..n];
      n + 1
  }

  /** A verdict is decided by the first step that does not pass: "revoked" or an error. Without
      one it is "not revoked" exactly when some filter says "good". */
  lemma {:induction false} FoldMeaning(q: Query, steps: seq<Step>, good: bool)
    requires ImageOk(q.img)
    ensures var n, r := Passed(q, steps), Fold(q, steps, good);
      (r == Ok(NotRevoked) <==> n == |steps| && (good || SomeGood(q, steps))) &&
      (r == Ok(NotCoveredByRevocationData) <==> n == |steps| && !good && !SomeGood(q, steps)) &&
      (r == Ok(CertainlyRevoked) <==> n < |steps| && Revokes(q, steps[n])) &&
      (forall e :: r == Err(e) <==> n < |steps| && Breaks(q, steps[n], e))
  {
    hide Answer;
    if steps != [] && Passes(q, steps[0]) {
      var rest := steps[1..];
      var good' := good || Answers(q, steps[0], Good);
      FoldMeaning(q, rest, good');
      assert Fold(q, steps, good) == Fold(q, rest, good');
      assert SomeGood(q, steps) <==> Answers(q, steps[0], Good) || SomeGood(q, rest) by {
        assert forall i :: 0 <= i < |rest| ==> rest[i] == steps[i + 1];
        if SomeGood(q, rest) {
          var i :| 0 <= i < |rest| && Answers(q, rest[i], Good);
          assert Answers(q, steps[i + 1], Good);
        }
      }
    }
  }

  /** When every filter consulted can be read, the verdict depends on the set of steps alone. */
  lemma FoldBySet(q: Query, steps: seq<Step>)
    requires ImageOk(q.img)
    requires forall s :: s in steps ==> exists status :: Answers(q, s, status)
    ensures Fold(q, steps, false) == Ok(
      if exists s :: s in steps && Revokes(q, s) then CertainlyRevoked
      else if exists s :: s in steps && Answers(q, s, Good) then NotRevoked
      else NotCoveredByRevocationData)
  {
    FoldMeaning(q, steps, false);
    var n := Passed(q, steps);
    if n < |steps| {
      assert steps[n] in steps;
      var status :| Answers(q, steps[n], status);
      assert status == Revoked;
    } else {
      assert steps[..n] == steps;
      assert forall s :: s in steps ==> Passes(q, s);
    }
  }

  /** On any bytes at all, a verdict is some filter's own: "revoked" or "not revoked" is never
      returned unless a file of the directory decodes to a filter that gives that answer. */
  lemma NoInventedVerdict(content: Bytes, input: RevocationCheckInput, dir: Files, p: Platform)
    ensures CheckBytes(content, input, dir, p) == Ok(CertainlyRevoked) ==> SomeFileSays(input, dir, p, Revoked)
    ensures CheckBytes(content, input, dir, p) == Ok(NotRevoked) ==> SomeFileSays(input, dir, p, Good)
  {
    if Open(content).Some? {
      var q := Query(Open(content).value, input, dir, p);
      hide Open, Steps, NameAt;
      var steps := Steps(q, input.sctTimestamps);
      FoldMeaning(q, steps, false);
    }
  }

  ghost predicate SomeFileSays(input: RevocationCheckInput, dir: Files, p: Platform, status: CRLiteStatus) {
    exists name :: name in dir && p.decode(dir[name]).Some? &&
      p.decode(dir[name]).value.contains(input.Key(), input.sctTimestamps) == status
  }

  // What is read

  /** Some two of the filters consulted stand in slots with one file name. */
  ghost predicate SharedName(q: Query, steps: seq<Step>)
    requires ImageOk(q.img)
  {
    exists i: nat, j: nat :: i < j < q.img.numFilenames && Consult(i) in steps && Consult(j) in steps &&
      NameAt(q.img, i) == NameAt(q.img, j)
  }

  ghost predicate ReadTwice(loads: seq<Load>, from: nat) {
    exists k, l :: from <= k < l < |loads| && loads[k].name == loads[l].name
  }

  /** A check loads no slot twice, but a file that stands in two: it reads a file twice only if two of
      the filters consulted have its name, and then it does, unless it ends early. */
  lemma ReadTwiceExact(q: Query, steps: seq<Step>, loads: seq<Load>, from: nat, asked: seq<nat>, all: bool)
    requires ImageOk(q.img) && LoadedOnce(q.img, loads, from, asked) && AskedFor(steps, [], asked, all)
    ensures ReadTwice(loads, from) ==> SharedName(q, steps)
    ensures all && SharedName(q, steps) ==> ReadTwice(loads, from)
  {
    hide NameAt;
    if ReadTwice(loads, from) {
      var k, l :| from <= k < l < |loads| && loads[k].name == loads[l].name;
      var i, j := asked[k - from], asked[l - from];
      assert loads[from + (k - from)].name == NameAt(q.img, i);
      assert loads[from + (l - from)].name == NameAt(q.img, j);
      assert i in asked && j in asked && i != j;
      if i < j {
        assert Consult(i) in steps && Consult(j) in steps;
      } else {
        assert Consult(j) in steps && Consult(i) in steps;
      }
    }
    if all && SharedName(q, steps) {
      var i: nat, j: nat :| i < j < q.img.numFilenames && Consult(i) in steps && Consult(j) in steps &&
        NameAt(q.img, i) == NameAt(q.img, j);
      var k :| 0 <= k < |asked| && asked[k] == i;
      var l :| 0 <= l < |asked| && asked[l] == j;
      assert loads[from + k].name == loads[from + l].name;
      assert k != l;
    }
  }

  // Images that show the same index

  lemma {:induction false} SameSearch(a: Image, b: Image, ix: Logical, id: LogId, lo: nat, hi: nat)
    requires Shows(a, ix) && Shows(b, ix) && lo <= hi <= |ix.sections|
    ensures Search(a, id, lo, hi) == Search(b, id, lo, hi)
    decreases hi - lo
  {
    hide DirLogId, SectionAt, NameAt, Compare;
    if lo < hi {
      var mid := lo + (hi - lo) / 2;
      assert DirLogId(a, mid) == DirLogId(b, mid) == ix.sections[mid].logId;
      SameSearch(a, b, ix, id, mid + 1, hi);
      SameSearch(a, b, ix, id, lo, mid);
    }
  }

  lemma {:induction false} SameEntrySteps(q: Query, q': Query, ix: Logical, es: seq<Entry>, timestamp: u64)
    requires Shows(q.img, ix) && Shows(q'.img, ix) && q' == q.(img := q'.img)
    ensures EntrySteps(q, es, timestamp) == EntrySteps(q', es, timestamp)
  {
    if es != [] {
      SameEntrySteps(q, q', ix, es[1..], timestamp);
      hide NameAt;
      var i := es[0].filter;
      assert i < |ix.names| ==> NameAt(q.img, i) == NameAt(q'.img, i) == ix.names[i];
    }
  }

  lemma {:induction false} SameSteps(q: Query, q': Query, ix: Logical, scts: seq<Sct>)
    requires Shows(q.img, ix) && Shows(q'.img, ix) && q' == q.(img := q'.img)
    ensures Steps(q, scts) == Steps(q', scts)
  {
    if scts != [] {
      SameSteps(q, q', ix, scts[1..]);
      SameSearch(q.img, q'.img, ix, scts[0].logId, 0, |ix.sections|);
      var k := Search(q.img, scts[0].logId, 0, |ix.sections|);
      if k.Some? {
        assert SectionAt(q.img, k.value) == SectionAt(q'.img, k.value) == Some(ix.sections[k.value].entries);
        SameEntrySteps(q, q', ix, ix.sections[k.value].entries, scts[0].timestamp);
      }
    }
  }

  lemma {:induction false} SameFold(q: Query, q': Query, ix: Logical, steps: seq<Step>, good: bool)
    requires Shows(q.img, ix) && Shows(q'.img, ix) && q' == q.(img := q'.img)
    ensures Fold(q, steps, good) == Fold(q', steps, good)
  {
    if steps != [] {
      hide NameAt;
      var rest := steps[1..];
      SameFold(q, q', ix, rest, true);
      SameFold(q, q', ix, rest, good);
      if steps[0].Consult? && steps[0].filter < |ix.names| {
        var i := steps[0].filter;
        assert NameAt(q.img, i) == NameAt(q'.img, i) == ix.names[i];
      }
    }
  }

  /** The two versions of the format are the same index: header sizes, entry sizes and every
      offset differ, and no check can tell, in its verdict or in its error. */
  lemma VersionEquivalence(ix: Logical, input: RevocationCheckInput, dir: Files, p: Platform)
    requires Fits(V0, ix)
    ensures Open(Encode(V0, ix)).Some? && Open(Encode(V1, ix)).Some?
    ensures CheckBytes(Encode(V0, ix), input, dir, p) == CheckBytes(Encode(V1, ix), input, dir, p)
  {
    FitsV1(ix);
    RoundTrip(V0, ix);
    RoundTrip(V1, ix);
    hide Encode, Written, Fits, Shows;
    var q := Query(Written(V0, ix), input, dir, p);
    var q' := Query(Written(V1, ix), input, dir, p);
    SameSteps(q, q', ix, input.sctTimestamps);
    SameFold(q, q', ix, Steps(q, input.sctTimestamps), false);
  }

  lemma FitsV1(ix: Logical)
    requires Fits(V0, ix)
    ensures Fits(V1, ix)
  {
    Pow256Widths();
    forall k | 0 <= k < |ix.sections|
      ensures SectionFits(V1, ix.sections[k])
    {
      assert SectionFits(V0, ix.sections[k]);
    }
  }

  // The steps of an index that shows given names and sections

  /** Filter `i` has an entry in a section of the log of `sct` that covers its timestamp. */
  ghost predicate Listed(ix: Logical, sct: Sct, i: nat) {
    exists k, e :: 0 <= k < |ix.sections| && ix.sections[k].logId == sct.logId &&
      e in ix.sections[k].entries && Covers(e, sct.timestamp) && e.filter == i
  }

  ghost predicate NamesUsable(ix: Logical, p: Platform) {
    (forall i :: 0 <= i < |ix.names| ==> p.utf8(ix.names[i])) &&
    (forall k, e :: 0 <= k < |ix.sections| && e in ix.sections[k].entries ==> e.filter < |ix.names|)
  }

  ghost predicate SortedSections(ix: Logical) {
    forall i, j :: 0 <= i < j < |ix.sections| ==> Precedes(ix.sections[i].logId, ix.sections[j].logId)
  }

  lemma {:induction false} EntryStepsAre(q: Query, es: seq<Entry>, timestamp: u64)
    requires ImageOk(q.img)
    requires forall e :: e in es ==> StepOf(q, e.filter) == Consult(e.filter)
    ensures forall s :: s in EntrySteps(q, es, timestamp) <==>
      s.Consult? && exists e :: e in es && Covers(e, timestamp) && e.filter == s.filter
  {
    if es != [] {
      hide StepOf;
      var rest := EntrySteps(q, es[1..], timestamp);
      EntryStepsAre(q, es[1..], timestamp);
      assert forall e :: e in es <==> e == es[0] || e in es[1..];
      assert forall s :: s in EntrySteps(q, es, timestamp) <==> s in StepsOf(q, es[0], timestamp) || s in rest;
    }
  }

  lemma SctStepsAre(q: Query, ix: Logical, sct: Sct)
    requires Shows(q.img, ix) && NamesUsable(ix, q.p) && SortedSections(ix)
    ensures forall s :: s in SctSteps(q, sct) <==> s.Consult? && Listed(ix, sct, s.filter)
  {
    var img := q.img;
    assert SortedDirectory(img) by {
      hide Precedes;
    }
    SearchExact(img, sct.logId, 0, img.numLogs);
    var found := Search(img, sct.logId, 0, img.numLogs);
    hide Search, DirLogId, SectionAt, NameAt;
    if found.Some? {
      var k := found.value;
      var es := ix.sections[k].entries;
      assert ix.sections[k].logId == sct.logId;
      forall e | e in es
        ensures StepOf(q, e.filter) == Consult(e.filter)
      {
        assert NameAt(img, e.filter) == ix.names[e.filter];
      }
      EntryStepsAre(q, es, sct.timestamp);
      assert forall j :: 0 <= j < |ix.sections| && ix.sections[j].logId == sct.logId ==> j == k;
    }
  }

  lemma {:induction false} StepsAre(q: Query, ix: Logical, scts: seq<Sct>)
    requires Shows(q.img, ix) && NamesUsable(ix, q.p) && SortedSections(ix)
    ensures forall s :: s in Steps(q, scts) <==>
      s.Consult? && exists sct :: sct in scts && Listed(ix, sct, s.filter)
  {
    if scts != [] {
      hide Shows, NamesUsable, SortedSections, Listed, SctSteps;
      SctStepsAre(q, ix, scts[0]);
      StepsAre(q, ix, scts[1..]);
      assert forall sct :: sct in scts <==> sct == scts[0] || sct in scts[1..];
      assert forall s :: s in Steps(q, scts) <==> s in SctSteps(q, scts[0]) || s in Steps(q, scts[1..]);
    }
  }
}
