/** Fetches as a state machine over the cache directory: any number of fetches, each of which may
    fail or be cut short after any step, with readers that hold an index already opened. */
module FetchRuns {
  import opened ByteStrings
  import opened IndexFormat
  import opened IndexRoundTrip
  import opened Revocation
  import opened IndexWrite
  import opened IndexCheck
  import opened IndexAgreement
  import opened Fetch
  import opened FetchResult
  import F = Fips180

  datatype Phase = Idle | Running(manifest: Manifest, rest: seq<PlanStep>)
  datatype State = State(dir: Dir, phase: Phase)

  /** A fetch begins: a plan is made for the manifest the server sent. */
  ghost predicate Starts(env: Env, s: State, s': State) {
    s.phase.Idle? && s'.phase.Running? && s'.dir == s.dir &&
    exists order :: DeletionOrder(order, s'.phase.manifest, OldManifest(env, s.dir), s.dir) &&
      s'.phase.rest == PlanOf(s'.phase.manifest, s.dir, order)
  }

  ghost predicate Advances(env: Env, s: State, s': State) {
    s.phase.Running? && s.phase.rest != [] && StepOk(env, s.dir, s.phase.rest[0], s'.dir) &&
    s'.phase == Running(s.phase.manifest, s.phase.rest[1..])
  }

  ghost predicate Fails(s: State, s': State) {
    s.phase.Running? && s.phase.rest != [] && StepFailed(s.dir, s.phase.rest[0], s'.dir) && s'.phase == Idle
  }

  /** The fetch is done, or is cut short. */
  ghost predicate Stops(s: State, s': State) {
    s.phase.Running? && s' == State(s.dir, Idle)
  }

  ghost predicate Next(env: Env, s: State, s': State) {
    Starts(env, s, s') || Advances(env, s, s') || Fails(s, s') || Stops(s, s')
  }

  ghost predicate Path(env: Env, run: seq<State>) {
    run != [] && forall i :: 0 <= i < |run| - 1 ==> Next(env, run[i], run[i + 1])
  }

  /** A path that does not begin in the middle of a fetch. */
  ghost predicate Run(env: Env, run: seq<State>) {
    Path(env, run) && run[0].phase.Idle?
  }

  /** File names hold no NUL byte and are not those of the index and the manifest. */
  ghost predicate PlainNames(m: Manifest) {
    forall i :: 0 <= i < |m.files| ==>
      0 !in m.files[i].filename && m.files[i].filename != INDEX_BIN && m.files[i].filename != MANIFEST_JSON
  }

  ghost predicate PlainPhase(s: State) {
    s.phase.Running? ==> PlainNames(s.phase.manifest)
  }

  // The names in the index on disk

  ghost predicate InIndex(d: Dir, name: Name) {
    Lookup(d, INDEX_BIN).Some? && InIndexBytes(Lookup(d, INDEX_BIN).value, name)
  }

  ghost predicate InIndexBytes(data: Bytes, name: Name) {
    Open(data).Some? && exists i :: 0 <= i < Open(data).value.numFilenames && NameAt(Open(data).value, i) == name
  }

  /** Every file the index names is there. */
  ghost predicate Safe(d: Dir) {
    forall name :: InIndex(d, name) ==> Lookup(d, name).Some?
  }

  lemma WrittenVersion(ix: Logical)
    requires NamesFit(ix.names)
    ensures MagicVersion(Encode(V1, ix)) == Some(V1)
  {
    hide NameTable, DirTable, EncodeSections, BeBytes;
    var h := Header(V1, ix);
    Pieces(h, NameTable(ix.names), DirTable(V1, ix.sections, TablesEnd(V1, ix)), EncodeSections(V1, ix.sections));
    assert h[..8] == Magic(V1);
    assert Encode(V1, ix)[..8] == h[..8];
  }

  lemma WrittenCount(ix: Logical)
    requires NamesFit(ix.names) && Open(Encode(V1, ix)).Some?
    ensures Open(Encode(V1, ix)).value.numFilenames <= |ix.names|
  {
    WrittenVersion(ix);
    CountField(ix);
    hide DirTable, EncodeSections, BeBytes, BeValue, NameTable, Magic, MagicVersion, NamesFit;
    var h := Header(V1, ix);
    assert Encode(V1, ix)[8..10] == h[8..10];
  }

  lemma WrittenSlot(ix: Logical, i: nat)
    requires NamesFit(ix.names) && Open(Encode(V1, ix)).Some?
    requires i < Open(Encode(V1, ix)).value.numFilenames && i < |ix.names|
    ensures Open(Encode(V1, ix)).value.tables[32 * i..32 * i + 32] == Slot(ix.names[i])
  {
    WrittenVersion(ix);
    hide DirTable, EncodeSections, NameTable, NamesFit, Header, Slot;
    var h, n := Header(V1, ix), NameTable(ix.names);
    var d, s := DirTable(V1, ix.sections, TablesEnd(V1, ix)), EncodeSections(V1, ix.sections);
    var content := Encode(V1, ix);
    var tables := Open(content).value.tables;
    NameTableAt(ix.names, i);
    SlotSlice(h, n, d, s, i);
    assert content == h + n + d + s;
    TablesAre(content);
    hide Open, Encode;
    SliceOfSlice(content, 14, 14 + |tables|, 32 * i, 32 * i + 32);
  }

  /** However many files there are, the names read back are names that were written. */
  lemma WrittenNames(ix: Logical, i: nat)
    requires NamesFit(ix.names) && (forall j :: 0 <= j < |ix.names| ==> 0 !in ix.names[j])
    requires Open(Encode(V1, ix)).Some? && i < Open(Encode(V1, ix)).value.numFilenames
    ensures i < |ix.names| && NameAt(Open(Encode(V1, ix)).value, i) == ix.names[i]
  {
    hide Open, Encode, UpToNul;
    WrittenCount(ix);
    WrittenSlot(ix, i);
    UpToNulOfSlot(ix.names[i], FILENAME_SIZE - |ix.names[i]|);
  }

  lemma TablesAre(content: Bytes)
    requires MagicVersion(content) == Some(V1) && Open(content).Some?
    ensures var tables := Open(content).value.tables;
      14 + |tables| <= |content| && tables == content[14..14 + |tables|]
  {
    hide BeValue, MagicVersion;
  }

  lemma SlotSlice(h: Bytes, n: Bytes, d: Bytes, s: Bytes, i: nat)
    requires |h| == 14 && 32 * i + 32 <= |n|
    ensures (h + n + d + s)[14 + 32 * i..14 + (32 * i + 32)] == n[32 * i..32 * i + 32]
  {
  }

  /** The count field holds the number of names modulo 2^16, so it is right exactly below that. */
  lemma CountField(ix: Logical)
    ensures BeValue(Header(V1, ix)[8..10]) == |ix.names| % U16_LIMIT <= |ix.names|
    ensures BeValue(Header(V1, ix)[8..10]) == |ix.names| <==> |ix.names| < U16_LIMIT
  {
    Pow256Widths();
    BeValueOfBytes(|ix.names|, 2);
    ThreeParts(Magic(V1), BeBytes(|ix.names|, 2), BeBytes(|ix.sections|, 4));
  }

  /** An index that was built names only files of its manifest, and those could be read. */
  lemma BuiltNames(m: Manifest, files: Files, p: Platform, name: Name)
    requires PlainNames(m) && IndexBytes(m.files, files, p).Some?
    requires InIndexBytes(IndexBytes(m.files, files, p).value, name)
    ensures Lists(m.files, name) && name in files
  {
    hide Encode, Open, SectionsOf, NameAt;
    var ix := Inversion(Names(m.files), Cards(m.files, files, p));
    var data := Encode(V1, ix);
    var i :| 0 <= i < Open(data).value.numFilenames && NameAt(Open(data).value, i) == name;
    WrittenNames(ix, i);
    assert m.files[i].filename == name;
    assert ReadableFile(m.files[i], files, p);
  }

  // Safety over whole runs

  ghost function IndexSet(d: Dir): iset<Name> { iset name | InIndex(d, name) }
  ghost function ListedSet(m: Manifest): iset<Name> { iset name | Lists(m.files, name) }
  ghost function PriorSet(env: Env, d: Dir): iset<Name> { iset name | OldLists(OldManifest(env, d), name) }

  /** These steps delete files other than the index, and none in `names`. */
  ghost predicate OnlyDeletes(names: iset<Name>, rest: seq<PlanStep>) {
    forall step :: step in rest ==> step.Delete? && step.name !in names && step.name != INDEX_BIN
  }

  /** Running the steps deletes no name of the index there is at the time, if that is now `names` and
      the manifest on disk lists `prior`; the index step may keep it if it names no more than those. */
  ghost predicate Guarded(names: iset<Name>, prior: iset<Name>, rest: seq<PlanStep>) {
    rest == [] ||
    match rest[0]
    case CreateDir => Guarded(names, prior, rest[1..])
    case Download(f) =>
      f.filename != INDEX_BIN && f.filename != MANIFEST_JSON && Guarded(names, prior, rest[1..])
    case SaveIndex(m) => PlainNames(m) && Guarded(ListedSet(m) + prior, prior, rest[1..])
    case SaveManifest(_) => OnlyDeletes(names, rest[1..])
    case Delete(_) => OnlyDeletes(names, rest)
  }

  lemma {:induction false} GuardedFewer(names: iset<Name>, prior: iset<Name>, names': iset<Name>, prior': iset<Name>,
                                        rest: seq<PlanStep>)
    requires Guarded(names, prior, rest) && names' <= names && prior' <= prior
    ensures Guarded(names', prior', rest)
  {
    hide PlainNames, ListedSet;
    if rest != [] {
      match rest[0]
      case CreateDir => GuardedFewer(names, prior, names', prior', rest[1..]);
      case Download(_) => GuardedFewer(names, prior, names', prior', rest[1..]);
      case SaveIndex(m) => GuardedFewer(ListedSet(m) + prior, prior, ListedSet(m) + prior', prior', rest[1..]);
      case SaveManifest(_) =>
      case Delete(_) =>
    }
  }

  lemma {:induction false} GuardedDownloads(names: iset<Name>, prior: iset<Name>, a: seq<PlanStep>, b: seq<PlanStep>)
    requires forall s :: s in a ==>
      s.CreateDir? || (s.Download? && s.file.filename != INDEX_BIN && s.file.filename != MANIFEST_JSON)
    requires Guarded(names, prior, b)
    ensures Guarded(names, prior, a + b)
  {
    if a == [] {
      assert a + b == b;
    } else {
      GuardedDownloads(names, prior, a[1..], b);
      assert (a + b)[1..] == a[1..] + b;
      assert a[0] in a;
    }
  }

  lemma GuardedTail(names: iset<Name>, prior: iset<Name>, m: Manifest, order: seq<Name>)
    requires PlainNames(m)
    requires forall name :: name in order ==> name !in ListedSet(m) && name !in prior && name != INDEX_BIN
    ensures Guarded(names, prior, [SaveIndex(m), SaveManifest(m)] + Deletes(order))
  {
    DeletesAre(order);
    hide PlainNames, ListedSet, Deletes;
    var saves := [SaveManifest(m)] + Deletes(order);
    assert saves[1..] == Deletes(order);
    assert Guarded(ListedSet(m) + prior, prior, saves);
    var tail := [SaveIndex(m), SaveManifest(m)] + Deletes(order);
    assert tail[1..] == saves;
  }

  lemma GuardedPlan(names: iset<Name>, env: Env, m: Manifest, d: Dir, order: seq<Name>)
    requires PlainNames(m) && DeletionOrder(order, m, OldManifest(env, d), d)
    ensures Guarded(names, PriorSet(env, d), PlanOf(m, d, order))
  {
    SpecialNames();
    var prior := PriorSet(env, d);
    hide IsFilterName, HasFile, OldManifest;
    assert forall name :: name in order ==> name !in ListedSet(m) && name !in prior && name != INDEX_BIN;
    DownloadsAre(m.files, d);
    GuardedTail(names, prior, m, order);
    assert forall f :: f in m.files ==> f.filename != INDEX_BIN && f.filename != MANIFEST_JSON;
    hide DeletionOrder, ListedSet, PriorSet, Downloads, Deletes, Guarded, PlainNames;
    var before := (if d.Absent? then [CreateDir] else []) + Downloads(m.files, d);
    var saves := [SaveIndex(m), SaveManifest(m)];
    GuardedDownloads(names, prior, before, saves + Deletes(order));
    assert before + (saves + Deletes(order)) == before + saves + Deletes(order);
  }

  /** The index step of a fetch finds an index that can be built, or else the index on disk names only
      files that the manifest on disk or the new one lists. */
  ghost predicate IndexHeld(env: Env, s: State) {
    s.phase.Running? && s.phase.rest != [] && s.phase.rest[0].SaveIndex? && s.dir.Present? ==>
      var m := s.phase.rest[0].manifest;
      IndexBytes(m.files, s.dir.files, env.p).Some? || IndexSet(s.dir) <= ListedSet(m) + PriorSet(env, s.dir)
  }

  ghost predicate SafeState(env: Env, s: State) {
    Safe(s.dir) && (s.phase.Running? ==> Guarded(IndexSet(s.dir), PriorSet(env, s.dir), s.phase.rest))
  }

  lemma SameIndex(d: Dir, d': Dir)
    requires Lookup(d', INDEX_BIN) == Lookup(d, INDEX_BIN)
    ensures IndexSet(d') == IndexSet(d)
    ensures forall name :: InIndex(d', name) <==> InIndex(d, name)
  {
  }

  lemma SamePrior(env: Env, d: Dir, d': Dir)
    requires Lookup(d', MANIFEST_JSON) == Lookup(d, MANIFEST_JSON)
    ensures PriorSet(env, d') == PriorSet(env, d)
  {
  }

  lemma BuiltStepSafe(env: Env, m: Manifest, d: Dir, data: Bytes)
    requires d.Present? && PlainNames(m) && IndexBytes(m.files, d.files, env.p) == Some(data)
    ensures Safe(Put(d, INDEX_BIN, data)) && IndexSet(Put(d, INDEX_BIN, data)) <= ListedSet(m)
  {
    var d' := Put(d, INDEX_BIN, data);
    hide IndexBytes, InIndexBytes;
    forall name | InIndex(d', name)
      ensures Lists(m.files, name) && Lookup(d', name).Some?
    {
      BuiltNames(m, d.files, env.p, name);
    }
  }

  /** The index step leaves an index that names only files of the two manifests, and all are there. */
  lemma IndexStepSafe(env: Env, m: Manifest, d: Dir, d': Dir)
    requires Safe(d) && PlainNames(m) && StepOk(env, d, SaveIndex(m), d')
    requires IndexBytes(m.files, d.files, env.p).Some? || IndexSet(d) <= ListedSet(m) + PriorSet(env, d)
    ensures Safe(d') && PriorSet(env, d') == PriorSet(env, d) && IndexSet(d') <= ListedSet(m) + PriorSet(env, d)
  {
    SpecialNames();
    hide IsFilterName, IndexBytes, PriorSet, IndexSet, ListedSet, Safe, PlainNames, Lookup, Put, HasFile;
    StepFrame(env, d, SaveIndex(m), d', MANIFEST_JSON);
    SamePrior(env, d, d');
    var data := IndexBytes(m.files, d.files, env.p);
    if data.Some? {
      BuiltStepSafe(env, m, d, data.value);
    }
  }

  /** Any other step that deletes no file of the index. */
  lemma OtherStepSafe(env: Env, d: Dir, step: PlanStep, d': Dir)
    requires Safe(d) && StepOk(env, d, step, d') && !Touches(step, INDEX_BIN)
    requires step.Delete? ==> step.name !in IndexSet(d)
    ensures Safe(d') && IndexSet(d') == IndexSet(d)
    ensures !Touches(step, MANIFEST_JSON) ==> PriorSet(env, d') == PriorSet(env, d)
  {
    StepFrame(env, d, step, d', INDEX_BIN);
    SameIndex(d, d');
    if !Touches(step, MANIFEST_JSON) {
      StepFrame(env, d, step, d', MANIFEST_JSON);
      SamePrior(env, d, d');
    }
    hide F.Sha256, InIndexBytes, PriorSet, IndexBytes;
  }

  lemma AdvanceSafe(env: Env, s: State, s': State)
    requires SafeState(env, s) && IndexHeld(env, s) && Advances(env, s, s')
    ensures SafeState(env, s')
  {
    SpecialNames();
    var names, prior, rest := IndexSet(s.dir), PriorSet(env, s.dir), s.phase.rest;
    hide StepOk, IsFilterName, IndexBytes, PriorSet, IndexSet, ListedSet, PlainNames, Safe;
    assert StepOk(env, s.dir, rest[0], s'.dir);
    if rest[0].SaveIndex? {
      var m := rest[0].manifest;
      IndexHeldHere(env, m, s);
      IndexStepSafe(env, m, s.dir, s'.dir);
      GuardedFewer(ListedSet(m) + prior, prior, IndexSet(s'.dir), prior, rest[1..]);
    } else {
      assert rest[0] in rest;
      OtherStepSafe(env, s.dir, rest[0], s'.dir);
      if rest[0].SaveManifest? || rest[0].Delete? {
        OnlyDeletesGuarded(names, PriorSet(env, s'.dir), rest[1..]);
      }
    }
  }

  lemma IndexHeldHere(env: Env, m: Manifest, s: State)
    requires IndexHeld(env, s) && s.phase.Running? && s.phase.rest != [] && s.phase.rest[0] == SaveIndex(m)
    ensures s.dir.Present? ==>
      IndexBytes(m.files, s.dir.files, env.p).Some? || IndexSet(s.dir) <= ListedSet(m) + PriorSet(env, s.dir)
  {
  }

  lemma OnlyDeletesGuarded(names: iset<Name>, prior: iset<Name>, rest: seq<PlanStep>)
    requires OnlyDeletes(names, rest)
    ensures Guarded(names, prior, rest)
  {
    assert rest != [] ==> rest[0] in rest;
  }

  lemma FailSafe(env: Env, s: State, s': State)
    requires SafeState(env, s) && Fails(s, s')
    ensures SafeState(env, s')
  {
    hide F.Sha256, InIndexBytes, PriorSet;
    SameIndex(s.dir, s'.dir);
  }

  lemma NextSafe(env: Env, s: State, s': State)
    requires SafeState(env, s) && Next(env, s, s') && IndexHeld(env, s) && PlainPhase(s')
    ensures SafeState(env, s')
  {
    hide Safe, StepOk, StepFailed, DeletionOrder, PriorSet, Guarded;
    if Advances(env, s, s') {
      AdvanceSafe(env, s, s');
    } else if Fails(s, s') {
      FailSafe(env, s, s');
    } else if Starts(env, s, s') {
      var order :| DeletionOrder(order, s'.phase.manifest, OldManifest(env, s.dir), s.dir) &&
        s'.phase.rest == PlanOf(s'.phase.manifest, s.dir, order);
      GuardedPlan(IndexSet(s.dir), env, s'.phase.manifest, s.dir, order);
    }
  }

  /** In every run of fetches, cut short or failing anywhere, in which every index step can build an
      index or finds one that names only files of the manifests on disk and served: after every
      single step, every file the index on disk names exists. */
  lemma {:induction false} CacheSafety(env: Env, run: seq<State>)
    requires Run(env, run) && Safe(run[0].dir)
    requires forall i :: 0 <= i < |run| ==> IndexHeld(env, run[i]) && PlainPhase(run[i])
    ensures forall i :: 0 <= i < |run| ==> Safe(run[i].dir)
    ensures SafeState(env, run[|run| - 1])
  {
    hide Safe, IndexHeld, PlainPhase, Guarded, Next, PriorSet;
    if |run| > 1 {
      var front := run[..|run| - 1];
      CacheSafety(env, front);
      assert Next(env, run[|run| - 2], run[|run| - 1]);
      NextSafe(env, run[|run| - 2], run[|run| - 1]);
      forall i | 0 <= i < |run|
        ensures Safe(run[i].dir)
      {
        if i < |run| - 1 { assert front[i] == run[i]; }
      }
    }
  }

  // When an index cannot be built the old one stays. Then the cache need not stay safe.

  /** The next step deletes a file that the index on disk names. */
  ghost predicate DeletesIndexed(s: State) {
    s.phase.Running? && s.phase.rest != [] && s.phase.rest[0].Delete? && InIndex(s.dir, s.phase.rest[0].name)
  }

  ghost predicate Shaped(s: State) {
    s.phase.Running? ==> Guarded(iset{}, iset{}, s.phase.rest)
  }

  lemma AdvanceShaped(env: Env, s: State, s': State)
    requires Shaped(s) && Advances(env, s, s')
    ensures Shaped(s')
  {
    hide StepOk, ListedSet;
    var rest := s.phase.rest;
    match rest[0]
    case SaveIndex(m) => GuardedFewer(ListedSet(m) + iset{}, iset{}, iset{}, iset{}, rest[1..]);
    case CreateDir =>
    case Download(_) =>
    case SaveManifest(_) => OnlyDeletesGuarded(iset{}, iset{}, rest[1..]);
    case Delete(_) => OnlyDeletesGuarded(iset{}, iset{}, rest[1..]);
  }

  lemma NextShaped(env: Env, s: State, s': State)
    requires Shaped(s) && Next(env, s, s') && PlainPhase(s')
    ensures Shaped(s')
  {
    hide StepOk, StepFailed, DeletionOrder, PriorSet, Guarded;
    if Advances(env, s, s') {
      AdvanceShaped(env, s, s');
    } else if Starts(env, s, s') {
      var order :| DeletionOrder(order, s'.phase.manifest, OldManifest(env, s.dir), s.dir) &&
        s'.phase.rest == PlanOf(s'.phase.manifest, s.dir, order);
      GuardedPlan(iset{}, env, s'.phase.manifest, s.dir, order);
      GuardedFewer(iset{}, PriorSet(env, s.dir), iset{}, iset{}, s'.phase.rest);
    }
  }

  lemma AdvanceExact(env: Env, s: State, s': State)
    requires Shaped(s) && Safe(s.dir) && Advances(env, s, s')
    ensures Safe(s'.dir) <==> !DeletesIndexed(s)
  {
    SpecialNames();
    var step := s.phase.rest[0];
    assert step in s.phase.rest;
    if step.SaveIndex? {
      hide F.Sha256, IsFilterName, IndexBytes, PlainNames, Safe;
      var data := IndexBytes(step.manifest.files, s.dir.files, env.p);
      if data.Some? {
        BuiltStepSafe(env, step.manifest, s.dir, data.value);
      }
    } else if DeletesIndexed(s) {
      hide IsFilterName, InIndexBytes;
      SameIndex(s.dir, s'.dir);
    } else {
      hide StepOk, IsFilterName, Safe, InIndex;
      OtherStepSafe(env, s.dir, step, s'.dir);
    }
  }

  lemma NextExact(env: Env, s: State, s': State)
    requires Shaped(s) && Safe(s.dir) && Next(env, s, s')
    ensures Safe(s'.dir) <==> !(Advances(env, s, s') && DeletesIndexed(s))
  {
    hide Safe, StepOk, StepFailed, DeletionOrder, DeletesIndexed;
    if Advances(env, s, s') {
      AdvanceExact(env, s, s');
    } else if Fails(s, s') {
      FailExact(s, s');
    }
  }

  lemma FailExact(s: State, s': State)
    requires Shaped(s) && Safe(s.dir) && Fails(s, s')
    ensures Safe(s'.dir)
  {
    hide F.Sha256, InIndexBytes;
    SameIndex(s.dir, s'.dir);
  }

  ghost predicate AlwaysSafe(run: seq<State>) {
    forall i :: 0 <= i < |run| ==> Safe(run[i].dir)
  }

  /** No step of the run deletes a file that the index on disk names at that moment. */
  ghost predicate NeverDeletesIndexed(env: Env, run: seq<State>) {
    forall i :: 0 <= i < |run| - 1 ==> !(Advances(env, run[i], run[i + 1]) && DeletesIndexed(run[i]))
  }

  lemma AlwaysSafeStep(run: seq<State>)
    requires |run| > 1
    ensures AlwaysSafe(run) <==> AlwaysSafe(run[..|run| - 1]) && Safe(run[|run| - 1].dir)
  {
    hide Safe;
    var front := run[..|run| - 1];
    assert forall i :: 0 <= i < |front| ==> front[i] == run[i];
  }

  lemma NeverDeletesStep(env: Env, run: seq<State>)
    requires |run| > 1
    ensures NeverDeletesIndexed(env, run) <==>
      NeverDeletesIndexed(env, run[..|run| - 1]) &&
      !(Advances(env, run[|run| - 2], run[|run| - 1]) && DeletesIndexed(run[|run| - 2]))
  {
    hide Advances, DeletesIndexed;
    var front := run[..|run| - 1];
    assert forall i :: 0 <= i < |front| ==> front[i] == run[i];
  }

  /** A run keeps the cache safe throughout if and only if no step of it deletes a file that the index
      on disk names at that moment, whatever could or could not be built. */
  lemma {:induction false} RunSafetyExact(env: Env, run: seq<State>)
    requires Run(env, run) && Safe(run[0].dir)
    requires forall i :: 0 <= i < |run| ==> PlainPhase(run[i])
    ensures AlwaysSafe(run) <==> NeverDeletesIndexed(env, run)
    ensures Shaped(run[|run| - 1])
  {
    hide Safe, Advances, DeletesIndexed, PlainPhase, Guarded, Next, Run, Shaped, Starts;
    if |run| > 1 {
      var s, s', front := run[|run| - 2], run[|run| - 1], run[..|run| - 1];
      RunFront(env, run);
      RunSafetyExact(env, front);
      AlwaysSafeStep(run);
      NeverDeletesStep(env, run);
      hide AlwaysSafe, NeverDeletesIndexed;
      NextShaped(env, s, s');
      if AlwaysSafe(front) {
        LastSafe(front);
        NextExact(env, s, s');
      }
    } else {
      OneStateShaped(env, run);
    }
  }

  lemma RunFront(env: Env, run: seq<State>)
    requires Run(env, run) && |run| > 1
    ensures Run(env, run[..|run| - 1]) && Next(env, run[|run| - 2], run[|run| - 1])
  {
    hide Next;
    assert forall i :: 0 <= i < |run| - 1 ==> run[..|run| - 1][i] == run[i];
  }

  lemma OneStateShaped(env: Env, run: seq<State>)
    requires Run(env, run)
    ensures run != [] && Shaped(run[0])
  {
    hide Next;
  }

  lemma LastSafe(run: seq<State>)
    requires run != [] && AlwaysSafe(run)
    ensures Safe(run[|run| - 1].dir)
  {
    hide Safe;
  }

  /** For one fetch that succeeds: it keeps the cache safe exactly if an index could be built or it
      deletes no file that the old index names. */
  lemma SafetyExact(env: Env, m: Manifest, d: Dir, order: seq<Name>, dirs: seq<Dir>)
    requires Plain(m) && PlainNames(m) && Complete(env, m, d, order, dirs) && Safe(d)
    ensures var d' := dirs[|dirs| - 1];
      d'.Present? &&
      (Safe(d') <==> IndexBytes(m.files, d'.files, env.p).Some? ||
                     forall name :: InIndex(d, name) ==> !Unwanted(m, OldManifest(env, d), d, name))
  {
    var d' := dirs[|dirs| - 1];
    FetchPostcondition(env, m, d, order, dirs);
    hide Complete, HasFile, Unwanted, IndexBytes, InIndexBytes, Plain;
    if IndexBytes(m.files, d'.files, env.p).Some? {
      forall name | InIndex(d', name)
        ensures Lookup(d', name).Some?
      {
        BuiltNames(m, d'.files, env.p, name);
      }
    } else {
      SameIndex(d, d');
      forall name | InIndex(d, name)
        ensures InIndex(d', name)
        ensures Lookup(d', name).Some? <==> !Unwanted(m, OldManifest(env, d), d, name)
      {
        StillThere(env, m, d, d', name);
      }
    }
  }

  lemma StillThere(env: Env, m: Manifest, d: Dir, d': Dir, name: Name)
    requires Lookup(d, name).Some? && (name == INDEX_BIN ==> Lookup(d', name) == Lookup(d, name))
    requires forall f :: f in m.files ==> HasFile(d', f)
    requires Lookup(d', MANIFEST_JSON) == Some(env.encode(m))
    requires Unwanted(m, OldManifest(env, d), d, name) ==> !Exists(d', name)
    requires Unmentioned(env, m, d, name) ==> Same(d, d', name)
    ensures Lookup(d', name).Some? <==> !Unwanted(m, OldManifest(env, d), d, name)
  {
    hide F.Sha256, IsFilterName;
    if Lists(m.files, name) {
      var i :| 0 <= i < |m.files| && m.files[i].filename == name;
      assert HasFile(d', m.files[i]);
    }
  }

  /** One manifest whose index cannot be built is harmless while the index on disk names only files
      of the manifest on disk. */
  lemma OneUnbuildable(env: Env, m: Manifest, m': Manifest, d: Dir, order: seq<Name>, dirs: seq<Dir>)
    requires Plain(m) && PlainNames(m) && Complete(env, m, d, order, dirs) && Safe(d)
    requires OldManifest(env, d) == Some(m') && forall name :: InIndex(d, name) ==> Lists(m'.files, name)
    ensures Safe(dirs[|dirs| - 1])
  {
    SafetyExact(env, m, d, order, dirs);
    hide Complete, IsFilterName, InIndex;
  }

  /** Two in a row, from a directory whose index names only files of its manifest, are harmless exactly
      if every filter file of that index is listed by one of the two manifests. */
  lemma TwoUnbuildableExact(env: Env, d: Dir, m: Manifest, order: seq<Name>, dirs: seq<Dir>,
                            m': Manifest, order': seq<Name>, dirs': seq<Dir>)
    requires EncodingOf(env, m) && Plain(m) && PlainNames(m) && Plain(m') && PlainNames(m')
    requires Complete(env, m, d, order, dirs) && Complete(env, m', dirs[|dirs| - 1], order', dirs')
    requires Safe(d) && IndexSet(d) <= PriorSet(env, d)
    requires Unbuildable(env, m, dirs[|dirs| - 1]) && Unbuildable(env, m', dirs'[|dirs'| - 1])
    ensures Safe(dirs[|dirs| - 1])
    ensures Safe(dirs'[|dirs'| - 1]) <==>
      forall name :: InIndex(d, name) && IsFilterName(name) ==> Lists(m.files, name) || Lists(m'.files, name)
  {
    var d1 := dirs[|dirs| - 1];
    SafetyExact(env, m, d, order, dirs);
    assert forall name :: InIndex(d, name) ==> name in PriorSet(env, d);
    FetchPostcondition(env, m, d, order, dirs);
    hide Complete, IsFilterName, InIndexBytes, IndexBytes, HasFile, Plain, PlainNames, Safe;
    SameIndex(d, d1);
    assert OldManifest(env, d1) == Some(m);
    SafetyExact(env, m', d1, order', dirs');
    IndexedThere(d1);
  }

  ghost predicate EncodingOf(env: Env, m: Manifest) { env.decode(env.encode(m)) == Some(m) }

  ghost predicate Unbuildable(env: Env, m: Manifest, d: Dir) {
    d.Present? && IndexBytes(m.files, d.files, env.p) == None
  }

  lemma IndexedThere(d: Dir)
    requires Safe(d)
    ensures forall name :: InIndex(d, name) ==> Exists(d, name)
  {
    hide InIndex;
  }

  const B_FILTER: Name := [0x62] + FILTER_SUFFIX

  function NextFilter(content: Bytes): Manifest {
    Manifest(0, "", [ManifestFile(B_FILTER, 0, F.Sha256(content))])
  }

  /** Index and manifest name "a.filter"; "b.filter" has been downloaded. */
  ghost function BeforeUnbuildable(env: Env, content: Bytes): Dir {
    SpecialNames();
    WitnessNames();
    FourFiles(INDEX_BIN, Encode(V1, Logical([A_FILTER], [])), MANIFEST_JSON, env.encode(OneFilter()),
              A_FILTER, [], B_FILTER, content)
  }

  ghost function FourFiles(n0: Name, c0: Bytes, n1: Name, c1: Bytes, n2: Name, c2: Bytes, n3: Name, c3: Bytes): (d: Dir)
    requires n0 != n1 && n0 != n2 && n0 != n3 && n1 != n2 && n1 != n3 && n2 != n3
    ensures d.Present? && Lookup(d, n0) == Some(c0) && Lookup(d, n1) == Some(c1)
    ensures Lookup(d, n2) == Some(c2) && Lookup(d, n3) == Some(c3)
  {
    Present(map[n0 := c0, n1 := c1, n2 := c2, n3 := c3], {})
  }

  lemma WitnessNames()
    ensures IsFilterName(A_FILTER) && IsFilterName(B_FILTER) && A_FILTER != B_FILTER
    ensures 0 !in A_FILTER && 0 !in B_FILTER && |A_FILTER| <= FILENAME_SIZE
  {
    assert A_FILTER[|A_FILTER| - |FILTER_SUFFIX|..] == FILTER_SUFFIX;
    assert B_FILTER[|B_FILTER| - |FILTER_SUFFIX|..] == FILTER_SUFFIX;
    assert A_FILTER[0] != B_FILTER[0];
  }

  lemma OneNameIndex(n: Name)
    requires 0 !in n && |n| <= FILENAME_SIZE
    ensures forall name :: InIndexBytes(Encode(V1, Logical([n], [])), name) <==> name == n
  {
    var ix := Logical([n], []);
    Pow256Widths();
    RoundTrip(V1, ix);
    hide Encode, Open, NameAt, DirLogId, SectionAt;
    var img := Open(Encode(V1, ix)).value;
    assert NameAt(img, 0) == ix.names[0] == n && img.numFilenames == 1;
  }

  lemma WitnessStart(env: Env, content: Bytes)
    requires EncodingOf(env, OneFilter())
    ensures var d := BeforeUnbuildable(env, content);
      Safe(d) && IndexSet(d) == iset{A_FILTER} <= PriorSet(env, d) && HasFile(d, NextFilter(content).files[0])
  {
    SpecialNames();
    WitnessNames();
    OneNameIndex(A_FILTER);
    hide InIndexBytes, IsFilterName, Encode, FourFiles, F.Sha256;
    assert OneFilter().files[0].filename == A_FILTER;
    assert Lists(OneFilter().files, A_FILTER);
  }

  /** A fetch that finds "b.filter" in place keeps it, and if it is no filter no index can be built. */
  lemma StaysUnbuildable(env: Env, content: Bytes, d: Dir, order: seq<Name>, dirs: seq<Dir>)
    requires env.p.decode(content) == None && Lookup(d, B_FILTER) == Some(content)
    requires Complete(env, NextFilter(content), d, order, dirs) && Plain(NextFilter(content))
    ensures Unbuildable(env, NextFilter(content), dirs[|dirs| - 1])
    ensures Lookup(dirs[|dirs| - 1], B_FILTER) == Some(content)
  {
    var m, d' := NextFilter(content), dirs[|dirs| - 1];
    FetchPostcondition(env, m, d, order, dirs);
    hide Complete, F.Sha256, Encode, Plain;
    assert m.files[0] in m.files && HasFile(d, m.files[0]);
    assert !ReadableFile(m.files[0], d'.files, env.p);
  }

  lemma WitnessPlain(content: Bytes)
    ensures Plain(NextFilter(content)) && PlainNames(NextFilter(content))
    ensures forall f :: f in NextFilter(content).files ==> f == NextFilter(content).files[0] && f.filename == B_FILTER
  {
    SpecialNames();
    WitnessNames();
    hide IsFilterName, F.Sha256;
  }

  /** So two may do harm: two fetches of one manifest, one after the other, each successful; no index
      can be built in either. The second deletes a file that the index on disk names. */
  lemma TwoUnbuildable(env: Env, content: Bytes)
    returns (order: seq<Name>, dirs: seq<Dir>, order': seq<Name>, dirs': seq<Dir>)
    requires EncodingOf(env, OneFilter()) && EncodingOf(env, NextFilter(content)) && env.p.decode(content) == None
    ensures var d, m := BeforeUnbuildable(env, content), NextFilter(content);
      Complete(env, m, d, order, dirs) && Complete(env, m, dirs[|dirs| - 1], order', dirs') &&
      Safe(d) && Safe(dirs[|dirs| - 1]) && !Safe(dirs'[|dirs'| - 1])
  {
    var d, m := BeforeUnbuildable(env, content), NextFilter(content);
    WitnessNames();
    WitnessStart(env, content);
    WitnessPlain(content);
    assert Lookup(d, B_FILTER) == Some(content);
    hide Complete, BeforeUnbuildable, IsFilterName, F.Sha256, Safe, Plain, PlainNames, HasFile, Unbuildable;
    order, dirs := FetchInPlace(env, m, d);
    StaysUnbuildable(env, content, d, order, dirs);
    var d1 := dirs[|dirs| - 1];
    FetchPostcondition(env, m, d, order, dirs);
    order', dirs' := FetchInPlace(env, m, d1);
    StaysUnbuildable(env, content, d1, order', dirs');
    TwoUnbuildableExact(env, d, m, order, dirs, m, order', dirs');
    assert A_FILTER in IndexSet(d);
  }

  // Readers

  /** Every fetch of the run begins while `m` is still the manifest on disk. */
  ghost predicate BeginsWith(env: Env, run: seq<State>, m: Manifest) {
    forall i :: 0 <= i < |run| - 1 && run[i].phase.Idle? && run[i + 1].phase.Running? ==>
      OldManifest(env, run[i].dir) == Some(m)
  }

  /** No fetch of the run lists `name` with another hash than that of `content`. */
  ghost predicate HashKept(run: seq<State>, name: Name, content: Bytes) {
    forall i, f :: 0 <= i < |run| && run[i].phase.Running? && f in run[i].phase.manifest.files && f.filename == name ==>
      f.hash == F.Sha256(content)
  }

  ghost predicate Kept(s: State, name: Name) {
    Lookup(s.dir, name).Some? && (s.phase.Running? ==> Delete(name) !in s.phase.rest)
  }

  lemma NextKept(env: Env, s: State, s': State, m: Manifest, name: Name)
    requires Kept(s, name) && Next(env, s, s') && Lists(m.files, name)
    requires s.phase.Idle? && s'.phase.Running? ==> OldManifest(env, s.dir) == Some(m)
    ensures Kept(s', name)
  {
    hide F.Sha256, IsFilterName, IndexBytes;
    if Starts(env, s, s') {
      var order :| DeletionOrder(order, s'.phase.manifest, OldManifest(env, s.dir), s.dir) &&
        s'.phase.rest == PlanOf(s'.phase.manifest, s.dir, order);
      DownloadsAre(s'.phase.manifest.files, s.dir);
      DeletesAre(order);
      hide Downloads;
    } else if Advances(env, s, s') {
      assert s.phase.rest[0] in s.phase.rest;
    }
  }

  lemma DeletesAre(order: seq<Name>)
    ensures forall s :: s in Deletes(order) <==> s.Delete? && s.name in order
  {
    assert forall i :: 0 <= i < |order| ==> Deletes(order)[i] == Delete(order[i]);
  }

  /** One generation of grace: while `m` is the saved manifest when each fetch begins, no file it
      lists is ever deleted, however the fetches go. The path may begin in the middle of a fetch. */
  lemma {:induction false} ReaderGrace(env: Env, run: seq<State>, m: Manifest, name: Name)
    requires Path(env, run) && BeginsWith(env, run, m)
    requires Lists(m.files, name) && Kept(run[0], name)
    ensures forall i :: 0 <= i < |run| ==> Lookup(run[i].dir, name).Some?
    ensures Kept(run[|run| - 1], name)
  {
    hide Next, OldManifest, Lists;
    if |run| > 1 {
      var front := run[..|run| - 1];
      ReaderGrace(env, front, m, name);
      assert Next(env, run[|run| - 2], run[|run| - 1]);
      NextKept(env, run[|run| - 2], run[|run| - 1], m, name);
      forall i | 0 <= i < |run|
        ensures Lookup(run[i].dir, name).Some?
      {
        if i < |run| - 1 { assert front[i] == run[i]; }
      }
    }
  }

  lemma {:induction false} GuardedKeeps(names: iset<Name>, prior: iset<Name>, rest: seq<PlanStep>, name: Name)
    requires Guarded(names, prior, rest) && name in names
    requires name in prior || forall step :: step in rest ==> !step.SaveIndex?
    ensures Delete(name) !in rest
  {
    hide PlainNames, ListedSet;
    if rest != [] {
      assert rest == [rest[0]] + rest[1..];
      match rest[0]
      case CreateDir => GuardedKeeps(names, prior, rest[1..], name);
      case Download(_) => GuardedKeeps(names, prior, rest[1..], name);
      case SaveIndex(m) =>
        assert rest[0] in rest;
        GuardedKeeps(ListedSet(m) + prior, prior, rest[1..], name);
      case SaveManifest(_) =>
      case Delete(_) =>
    }
  }

  /** The fetch under way when a reader opens the index deletes no file of that index, if its index step
      is done or the manifest on disk lists the file. */
  lemma OpenedIsKept(env: Env, s: State, name: Name)
    requires SafeState(env, s) && InIndex(s.dir, name)
    requires s.phase.Running? ==>
      OldLists(OldManifest(env, s.dir), name) || forall step :: step in s.phase.rest ==> !step.SaveIndex?
    ensures Kept(s, name)
  {
    hide Guarded, InIndexBytes, OldManifest;
    if s.phase.Running? {
      GuardedKeeps(IndexSet(s.dir), PriorSet(env, s.dir), s.phase.rest, name);
    }
  }

  /** So a reader that opens the index at any such moment of a safe run has every file of it, for as
      long as fetches begin while a manifest that lists it is the one on disk. */
  lemma OpenedGrace(env: Env, run: seq<State>, m: Manifest, name: Name)
    requires Path(env, run) && BeginsWith(env, run, m) && Lists(m.files, name)
    requires SafeState(env, run[0]) && InIndex(run[0].dir, name)
    requires run[0].phase.Running? ==>
      OldLists(OldManifest(env, run[0].dir), name) || forall step :: step in run[0].phase.rest ==> !step.SaveIndex?
    ensures forall i :: 0 <= i < |run| ==> Lookup(run[i].dir, name).Some?
  {
    OpenedIsKept(env, run[0], name);
    hide Kept, SafeState, InIndex, Path, BeginsWith, Lists, OldManifest;
    ReaderGrace(env, run, m, name);
  }

  /** A fetch of `m` that begins at `d`, complete or cut short. */
  ghost predicate Fetching(env: Env, m: Manifest, d: Dir, order: seq<Name>, dirs: seq<Dir>) {
    DeletionOrder(order, m, OldManifest(env, d), d) && Trace(env, PlanOf(m, d, order), dirs) && dirs[0] == d
  }

  /** Whatever the next fetch from `d` is, and wherever it stops, no file of the index in `d` goes missing. */
  ghost predicate Graced(env: Env, d: Dir) {
    forall m, order, dirs :: Fetching(env, m, d, order, dirs) ==>
      forall i, name :: 0 <= i < |dirs| && InIndex(d, name) ==> Lookup(dirs[i], name).Some?
  }

  lemma {:induction false} TraceKeeps(env: Env, steps: seq<PlanStep>, dirs: seq<Dir>, i: nat, name: Name)
    requires Trace(env, steps, dirs) && i < |dirs| && Lookup(dirs[0], name).Some? && Delete(name) !in steps
    ensures Lookup(dirs[i], name).Some?
  {
    hide F.Sha256, IndexBytes;
    if i > 0 {
      TraceKeeps(env, steps, dirs, i - 1, name);
      assert StepOk(env, dirs[i - 1], steps[i - 1], dirs[i]);
      assert steps[i - 1] in steps;
    }
  }

  lemma PlanDeletesOnly(m: Manifest, d: Dir, order: seq<Name>, name: Name)
    ensures Delete(name) in PlanOf(m, d, order) <==> name in order
  {
    DownloadsAre(m.files, d);
    DeletesAre(order);
    hide Downloads, Deletes, HasFile;
    assert Delete(name) in Deletes(order) <==> name in order;
  }

  /** Which opening states have that grace: those in which the manifest on disk lists every filter file
      of the index. */
  lemma GraceExact(env: Env, d: Dir)
    requires Safe(d)
    ensures Graced(env, d) <==>
      forall name :: InIndex(d, name) && IsFilterName(name) ==> OldLists(OldManifest(env, d), name)
  {
    hide IsFilterName, InIndex, OldManifest;
    if forall name :: InIndex(d, name) && IsFilterName(name) ==> OldLists(OldManifest(env, d), name) {
      forall m, order, dirs, i, name | Fetching(env, m, d, order, dirs) && 0 <= i < |dirs| && InIndex(d, name)
        ensures Lookup(dirs[i], name).Some?
      {
        PlanDeletesOnly(m, d, order, name);
        TraceKeeps(env, PlanOf(m, d, order), dirs, i, name);
      }
    } else {
      var name :| InIndex(d, name) && IsFilterName(name) && !OldLists(OldManifest(env, d), name);
      NoGrace(env, d, name);
    }
  }

  lemma NoGrace(env: Env, d: Dir, name: Name)
    requires Safe(d) && InIndex(d, name) && IsFilterName(name) && !OldLists(OldManifest(env, d), name)
    ensures !Graced(env, d)
  {
    var m := NoFilters();
    hide IsFilterName, InIndexBytes, OldManifest, HasFile;
    assert Unwanted(m, OldManifest(env, d), d, name);
    var order, dirs := FetchInPlace(env, m, d);
    UnwantedFile(env, m, d, order, dirs, name);
    assert Fetching(env, m, d, order, dirs);
    hide Graced, Complete, Fetching, PlanOf, Safe, Unwanted;
    NotGraced(env, m, d, order, dirs, name);
  }

  lemma NotGraced(env: Env, m: Manifest, d: Dir, order: seq<Name>, dirs: seq<Dir>, name: Name)
    requires Fetching(env, m, d, order, dirs) && InIndex(d, name) && !Exists(dirs[|dirs| - 1], name)
    ensures !Graced(env, d)
  {
    hide InIndex, DeletionOrder;
    assert Lookup(dirs[|dirs| - 1], name).None?;
  }

  /** A fetch that succeeds and builds its index leaves such a state. */
  lemma FetchLeavesGrace(env: Env, m: Manifest, d: Dir, order: seq<Name>, dirs: seq<Dir>)
    requires EncodingOf(env, m) && Plain(m) && PlainNames(m) && Complete(env, m, d, order, dirs)
    requires !Unbuildable(env, m, dirs[|dirs| - 1])
    ensures Safe(dirs[|dirs| - 1]) && Graced(env, dirs[|dirs| - 1])
  {
    var d' := dirs[|dirs| - 1];
    FetchPostcondition(env, m, d, order, dirs);
    hide Complete, IsFilterName, InIndexBytes, IndexBytes, HasFile, Plain, Unwanted, PlainNames;
    assert OldManifest(env, d') == Some(m);
    forall name | InIndex(d', name)
      ensures Lists(m.files, name) && Lookup(d', name).Some?
    {
      BuiltNames(m, d'.files, env.p, name);
    }
    GraceExact(env, d');
  }

  function FirstFilter(content: Bytes): Manifest {
    Manifest(0, "", [ManifestFile(A_FILTER, 0, F.Sha256(content))])
  }

  /** A state without it: the first fetch of all stops between its index step and its manifest step.
      The index names "a.filter", no manifest is on disk, and the next fetch may delete the file. */
  lemma GapHasNoGrace(env: Env, content: Bytes) returns (dirs: seq<Dir>)
    requires Indexable(FirstFilter(content).files, map[A_FILTER := content], env.p)
    ensures Fetching(env, FirstFilter(content), Absent, [], dirs) && |dirs| == 4
    ensures PlanOf(FirstFilter(content), Absent, [])[3] == SaveManifest(FirstFilter(content))
    ensures Safe(dirs[3]) && InIndex(dirs[3], A_FILTER) && !Graced(env, dirs[3])
  {
    var m, files := FirstFilter(content), map[A_FILTER := content];
    SpecialNames();
    WitnessNames();
    hide IsFilterName, F.Sha256, IndexBytes, Indexable, InIndexBytes;
    FirstPlan(content);
    FirstIndex(env, content);
    var data := IndexBytes(m.files, files, env.p).value;
    var d1 := Present(map[], {});
    var d2 := Put(d1, A_FILTER, content);
    assert d2.files == files && HasFile(d2, m.files[0]);
    var d3 := Put(d2, INDEX_BIN, data);
    dirs := [Absent, d1, d2, d3];
    assert InIndex(d3, A_FILTER) && OldManifest(env, d3) == None;
    assert Safe(d3);
    NoGrace(env, d3, A_FILTER);
  }

  lemma FirstPlan(content: Bytes)
    ensures var m := FirstFilter(content);
      PlanOf(m, Absent, []) == [CreateDir, Download(m.files[0]), SaveIndex(m), SaveManifest(m)]
  {
    var m := FirstFilter(content);
    hide F.Sha256;
    assert m.files[..0] == [];
    assert Downloads(m.files[..0], Absent) == [];
  }

  lemma FirstIndex(env: Env, content: Bytes)
    requires Indexable(FirstFilter(content).files, map[A_FILTER := content], env.p)
    ensures var data := IndexBytes(FirstFilter(content).files, map[A_FILTER := content], env.p);
      data.Some? && forall name :: InIndexBytes(data.value, name) <==> name == A_FILTER
  {
    var m, files := FirstFilter(content), map[A_FILTER := content];
    OpenedShows(m.files, files, env.p);
    hide F.Sha256, IndexBytes, Open, NameAt, DirLogId, SectionAt, SectionsOf;
    var img := Open(IndexBytes(m.files, files, env.p).value).value;
    assert NameAt(img, 0) == Names(m.files)[0] == A_FILTER && img.numFilenames == 1;
  }

  ghost predicate Untouched(s: State, name: Name, content: Bytes) {
    Lookup(s.dir, name) == Some(content) &&
    (s.phase.Running? ==> forall step :: step in s.phase.rest ==> !Touches(step, name))
  }

  lemma NextUntouched(env: Env, s: State, s': State, m: Manifest, name: Name, content: Bytes)
    requires Untouched(s, name, content) && Next(env, s, s') && Lists(m.files, name)
    requires name != INDEX_BIN && name != MANIFEST_JSON
    requires s.phase.Idle? && s'.phase.Running? ==> OldManifest(env, s.dir) == Some(m)
    requires s'.phase.Running? ==>
      forall f :: f in s'.phase.manifest.files && f.filename == name ==> f.hash == F.Sha256(content)
    ensures Untouched(s', name, content)
  {
    hide F.Sha256, IsFilterName, IndexBytes;
    if Starts(env, s, s') {
      var order :| DeletionOrder(order, s'.phase.manifest, OldManifest(env, s.dir), s.dir) &&
        s'.phase.rest == PlanOf(s'.phase.manifest, s.dir, order);
      DownloadsAre(s'.phase.manifest.files, s.dir);
      DeletesAre(order);
      hide Downloads;
    } else if s.phase.rest != [] {
      assert s.phase.rest[0] in s.phase.rest;
      if Advances(env, s, s') {
        StepFrame(env, s.dir, s.phase.rest[0], s'.dir, name);
      }
    }
  }

  /** If its hash is not changed, its content is the same after every step. */
  lemma {:induction false} ReaderContents(env: Env, run: seq<State>, m: Manifest, name: Name, content: Bytes)
    requires Run(env, run) && BeginsWith(env, run, m) && HashKept(run, name, content)
    requires Lists(m.files, name) && name != INDEX_BIN && name != MANIFEST_JSON
    requires Lookup(run[0].dir, name) == Some(content)
    ensures forall i :: 0 <= i < |run| ==> Lookup(run[i].dir, name) == Some(content)
    ensures Untouched(run[|run| - 1], name, content)
  {
    hide Next, OldManifest, Lists, F.Sha256;
    if |run| > 1 {
      var front := run[..|run| - 1];
      assert HashKept(front, name, content) by {
        assert forall i :: 0 <= i < |front| ==> front[i] == run[i];
      }
      ReaderContents(env, front, m, name, content);
      assert Next(env, run[|run| - 2], run[|run| - 1]);
      NextUntouched(env, run[|run| - 2], run[|run| - 1], m, name, content);
      forall i | 0 <= i < |run|
        ensures Lookup(run[i].dir, name) == Some(content)
      {
        if i < |run| - 1 { assert front[i] == run[i]; }
      }
    }
  }

  /** No fetch of the run changes the hash of a file that `m` lists. */
  ghost predicate HashesKept(run: seq<State>, m: Manifest) {
    forall f :: f in m.files ==> FileHashKept(run, f)
  }

  ghost predicate FileHashKept(run: seq<State>, f: ManifestFile) {
    forall i, f' :: 0 <= i < |run| && run[i].phase.Running? && f' in run[i].phase.manifest.files ==>
      f'.filename == f.filename ==> f'.hash == f.hash
  }

  /** Every file of `m` is in place, and the index on disk is theirs. */
  ghost predicate Installed(env: Env, m: Manifest, d: Dir) {
    d.Present? && Indexable(m.files, d.files, env.p) && Lookup(d, INDEX_BIN) == IndexBytes(m.files, d.files, env.p) &&
    forall f :: f in m.files ==> HasFile(d, f)
  }

  lemma InstalledFile(env: Env, run: seq<State>, m: Manifest, f: ManifestFile, i: nat)
    requires Run(env, run) && BeginsWith(env, run, m) && HashesKept(run, m) && i < |run|
    requires PlainNames(m) && f in m.files && HasFile(run[0].dir, f)
    ensures Lookup(run[i].dir, f.filename) == Lookup(run[0].dir, f.filename)
  {
    hide Run, BeginsWith, F.Sha256;
    var j :| 0 <= j < |m.files| && m.files[j] == f;
    var content := Lookup(run[0].dir, f.filename).value;
    assert FileHashKept(run, f);
    assert HashKept(run, f.filename, content);
    ReaderContents(env, run, m, f.filename, content);
  }

  /** What each read from number `from` on found is what the directory held at some state of the run. */
  ghost predicate ReadDuring(loads: seq<Load>, from: nat, run: seq<State>) {
    forall k :: from <= k < |loads| ==>
      exists i :: 0 <= i < |run| && loads[k].content == Lookup(run[i].dir, loads[k].name)
  }

  /** Reads of files of `m`, spread over the run, find what was there at its start. */
  lemma ReadsSee(env: Env, run: seq<State>, m: Manifest, loads: seq<Load>, from: nat, asked: seq<nat>)
    requires Run(env, run) && BeginsWith(env, run, m) && HashesKept(run, m)
    requires PlainNames(m) && Installed(env, m, run[0].dir)
    requires ReadsOf(m.files, loads, from, asked) && ReadDuring(loads, from, run)
    ensures Sees(loads, from, run[0].dir.files)
  {
    hide Run, BeginsWith, HashesKept, Indexable, HasFile, IndexBytes, PlainNames;
    forall k | from <= k < |loads|
      ensures loads[k].content == ContentOf(run[0].dir.files, loads[k].name)
    {
      var f := m.files[asked[k - from]];
      assert loads[from + (k - from)].name == f.filename;
      var i :| 0 <= i < |run| && loads[k].content == Lookup(run[i].dir, loads[k].name);
      InstalledFile(env, run, m, f, i);
    }
  }

  /** A reader that opened the index of `m` gets the verdict of the filters of `m`, even if fetches run
      while it checks and it reads each filter at any moment of theirs: as long as every fetch begins
      while `m` is the manifest on disk and listed files keep their hashes, nothing it needs is missing
      or changed. */
  method ReaderCheck(index: Index, input: RevocationCheckInput, fd: FilterDir, p: Platform,
                     ghost env: Env, ghost run: seq<State>, ghost m: Manifest)
    returns (r: Result<RevocationStatus>)
    requires Run(env, run) && BeginsWith(env, run, m) && HashesKept(run, m)
    requires PlainNames(m) && Installed(env, m, run[0].dir) && p == env.p
    requires index.Valid() && Some(index.View()) == Open(IndexBytes(m.files, run[0].dir.files, p).value)
    modifies index.file, index.file.disk`faults, fd
    ensures index.file.disk.faults > old(index.file.disk.faults) ==> r == Err(IndexDecode)
    ensures index.file.disk.faults == old(index.file.disk.faults) && ReadDuring(fd.loads, |old(fd.loads)|, run) ==>
      r == Ok(Ask(Cards(m.files, run[0].dir.files, p), input))
  {
    ghost var dir, from := run[0].dir.files, |fd.loads|;
    assert Indexable(m.files, dir, p);
    hide *;
    NothingChanged(m.files, dir);
    OpenedShows(m.files, dir, p);
    OpenedAgrees(m.files, dir, dir, p, input);
    ghost var q := Query(index.View(), input, dir, p);
    ghost var asked;
    r, asked := index.Check(input, fd, p, dir);
    ghost var all := r == Ok(NotRevoked) || r == Ok(NotCoveredByRevocationData);
    ChecksRead(q, m.files, dir, fd.loads, from, asked, all);
    if ReadDuring(fd.loads, from, run) {
      ReadsSee(env, run, m, fd.loads, from, asked);
    }
  }

  /** The fetch that built the index leaves a directory in which such a reader can start, so it is
      served until the end of the next fetch. */
  lemma FetchInstalls(env: Env, m: Manifest, d: Dir, order: seq<Name>, dirs: seq<Dir>)
    requires EncodingOk(env) && Plain(m) && Complete(env, m, d, order, dirs)
    requires dirs[|dirs| - 1].Present? ==> Indexable(m.files, dirs[|dirs| - 1].files, env.p)
    ensures Installed(env, m, dirs[|dirs| - 1]) && OldManifest(env, dirs[|dirs| - 1]) == Some(m)
  {
    FetchPostcondition(env, m, d, order, dirs);
    hide Complete, HasFile, Unwanted, SectionsOf, Encode;
  }

  // The executor stays within these runs

  ghost function RunOf(m: Manifest, plan: seq<PlanStep>, dirs: seq<Dir>): seq<State>
    requires 0 < |dirs| <= |plan| + 1
  {
    [State(dirs[0], Idle)] + seq(|dirs|, i requires 0 <= i < |dirs| => State(dirs[i], Running(m, plan[i..])))
  }

  lemma StepIsNext(env: Env, m: Manifest, order: seq<Name>, dirs: seq<Dir>, i: nat)
    requires dirs != [] && DeletionOrder(order, m, OldManifest(env, dirs[0]), dirs[0])
    requires Trace(env, PlanOf(m, dirs[0], order), dirs) && i < |dirs|
    ensures var run := RunOf(m, PlanOf(m, dirs[0], order), dirs);
      Next(env, run[i], run[i + 1])
  {
    var plan := PlanOf(m, dirs[0], order);
    var run := RunOf(m, plan, dirs);
    hide StepOk, DeletionOrder, PlanOf;
    if i == 0 {
      assert plan[0..] == plan;
      assert Starts(env, run[0], run[1]);
    } else {
      assert plan[i - 1..][0] == plan[i - 1] && plan[i - 1..][1..] == plan[i..];
      assert StepOk(env, dirs[i - 1], plan[i - 1], dirs[i]);
      assert Advances(env, run[i], run[i + 1]);
    }
  }

  /** Whatever a fetch does, complete or not, is a run of the state machine. */
  lemma FetchIsRun(env: Env, m: Manifest, order: seq<Name>, dirs: seq<Dir>)
    requires dirs != [] && DeletionOrder(order, m, OldManifest(env, dirs[0]), dirs[0])
    requires Trace(env, PlanOf(m, dirs[0], order), dirs)
    ensures Run(env, RunOf(m, PlanOf(m, dirs[0], order), dirs))
  {
    var run := RunOf(m, PlanOf(m, dirs[0], order), dirs);
    hide Trace, Next, DeletionOrder, PlanOf;
    forall i | 0 <= i < |run| - 1
      ensures Next(env, run[i], run[i + 1])
    {
      StepIsNext(env, m, order, dirs, i);
    }
  }

  /** And so it is with the step that fails at its end. */
  lemma FailureIsRun(env: Env, m: Manifest, plan: seq<PlanStep>, dirs: seq<Dir>, d: Dir)
    requires 0 < |dirs| <= |plan| && Run(env, RunOf(m, plan, dirs))
    requires StepFailed(dirs[|dirs| - 1], plan[|dirs| - 1], d)
    ensures Run(env, RunOf(m, plan, dirs) + [State(d, Idle)])
  {
    var run := RunOf(m, plan, dirs);
    hide StepFailed, StepOk, DeletionOrder;
    assert plan[|dirs| - 1..][0] == plan[|dirs| - 1];
    assert Fails(run[|run| - 1], State(d, Idle));
    hide Next, Fails;
    var longer := run + [State(d, Idle)];
    assert forall i :: 0 <= i < |run| ==> longer[i] == run[i];
  }

  // Fetches one after the other

  /** The states of two runs, the second of which begins where the first one left the directory. */
  ghost function Join(a: seq<State>, b: seq<State>): seq<State>
    requires a != [] && b != []
  {
    if a[|a| - 1].phase.Idle? then a + b[1..] else a + b
  }

  /** So fetches that follow one another are one run. */
  lemma JoinIsRun(env: Env, a: seq<State>, b: seq<State>)
    requires Run(env, a) && Run(env, b) && a[|a| - 1].dir == b[0].dir
    ensures Run(env, Join(a, b))
    ensures Join(a, b)[0] == a[0] && Join(a, b)[|Join(a, b)| - 1].dir == b[|b| - 1].dir
    ensures forall s :: s in Join(a, b) <==> s in a || s in b
  {
    var joined, last := Join(a, b), a[|a| - 1];
    hide Starts, Advances, Fails;
    forall i | 0 <= i < |joined| - 1
      ensures Next(env, joined[i], joined[i + 1])
    {
      if i + 1 < |a| {
        assert joined[i] == a[i] && joined[i + 1] == a[i + 1];
      } else if last.phase.Idle? {
        assert b[0] == last;
        assert joined[i] == b[i - (|a| - 1)] && joined[i + 1] == b[i - (|a| - 1) + 1];
      } else if i + 1 == |a| {
        assert Stops(joined[i], joined[i + 1]);
      } else {
        assert joined[i] == b[i - |a|] && joined[i + 1] == b[i - |a| + 1];
      }
    }
    assert b == [b[0]] + b[1..];
  }

  /** `run` is what one call of the program did to a directory `d`, if it was served `served`. */
  ghost predicate CallRun(env: Env, run: seq<State>, d: Dir, served: Option<Manifest>) {
    Run(env, run) && run[0] == State(d, Idle) &&
    forall s :: s in run && s.phase.Running? ==> served == Some(s.phase.manifest)
  }

  lemma FetchRunIs(env: Env, m: Manifest, order: seq<Name>, dirs: seq<Dir>)
    requires dirs != [] && DeletionOrder(order, m, OldManifest(env, dirs[0]), dirs[0])
    requires Trace(env, PlanOf(m, dirs[0], order), dirs)
    ensures var plan := PlanOf(m, dirs[0], order);
      var run := RunOf(m, plan, dirs);
      CallRun(env, run, dirs[0], Some(m)) &&
      run[|run| - 1] == State(dirs[|dirs| - 1], Running(m, plan[|dirs| - 1..]))
  {
    FetchIsRun(env, m, order, dirs);
    hide Trace, Run, DeletionOrder, PlanOf;
  }

  /** One call of the program is a run from the directory it finds to the one it leaves. */
  method FetchAsRun(cache: CacheDir, env: Env, dryRun: bool, served: Option<Manifest>)
    returns (ok: bool, ghost run: seq<State>)
    modifies cache
    ensures CallRun(env, run, old(cache.View()), served) && run[|run| - 1].dir == cache.View()
    ensures ok && !dryRun ==> served.Some? && run[|run| - 1].phase == Running(served.value, [])
  {
    ghost var plan, order, dirs;
    ghost var before := cache.View();
    hide PlanOf, DeletionOrder, OldManifest, StepOk, StepFailed, Run;
    ok, plan, order, dirs := cache.FetchManifest(env, dryRun, served);
    if plan == [] {
      run := [State(before, Idle)];
      OneState(env, before);
    } else {
      FetchRunIs(env, served.value, order, dirs);
      run := RunOf(served.value, plan, dirs);
      if !ok && |dirs| <= |plan| {
        FailureIsRun(env, served.value, plan, dirs, cache.View());
        run := run + [State(cache.View(), Idle)];
      }
    }
  }

  lemma OneState(env: Env, d: Dir)
    ensures Run(env, [State(d, Idle)])
  {
  }

  /** So a call of the program that finds the cache safe leaves it safe, and it is safe after every
      step in between, if its index step can build an index or finds one it may keep. */
  method FetchStaysSafe(cache: CacheDir, env: Env, dryRun: bool, served: Option<Manifest>)
    returns (ok: bool, ghost run: seq<State>)
    requires Safe(cache.View()) && (served.Some? ==> PlainNames(served.value))
    modifies cache
    ensures CallRun(env, run, old(cache.View()), served) && run[|run| - 1].dir == cache.View()
    ensures (forall s :: s in run ==> IndexHeld(env, s)) ==> Safe(cache.View()) && forall s :: s in run ==> Safe(s.dir)
  {
    ok, run := FetchAsRun(cache, env, dryRun, served);
    if forall s :: s in run ==> IndexHeld(env, s) {
      hide Run, Safe, IndexHeld, PlainNames;
      assert forall i :: 0 <= i < |run| ==> run[i] in run;
      CacheSafety(env, run);
    }
  }
}
