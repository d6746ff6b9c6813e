/** The fetch planner and executor of upki/src/revocation/fetch.rs over a cache directory, and
    `Manifest::verify`. */
module Fetch {
  import opened ByteStrings
  import opened IndexFormat
  import opened Revocation
  import opened IndexWrite
  import F = Fips180

  // "index.bin", "manifest.json", ".filter", ".delta"
  const INDEX_BIN: Name := [0x69, 0x6e, 0x64, 0x65, 0x78, 0x2e, 0x62, 0x69, 0x6e]
  const MANIFEST_JSON: Name := [0x6d, 0x61, 0x6e, 0x69, 0x66, 0x65, 0x73, 0x74, 0x2e, 0x6a, 0x73, 0x6f, 0x6e]
  const FILTER_SUFFIX: Name := [0x2e, 0x66, 0x69, 0x6c, 0x74, 0x65, 0x72]
  const DELTA_SUFFIX: Name := [0x2e, 0x64, 0x65, 0x6c, 0x74, 0x61]

  /** The cache directory: it may not exist yet. Besides its readable files it may have entries that
      cannot be read. Every change to it is one atomic step. */
  datatype Dir = Absent | Present(files: Files, unreadable: set<Name>)

  /** What the code takes from outside: the manifest encoding and its timestamp test, and the filters. */
  datatype Env = Env(
    encode: Manifest -> Bytes, decode: Bytes -> Option<Manifest>, timestampOk: u64 -> bool, p: Platform)

  ghost predicate EncodingOk(env: Env) {
    forall m :: env.decode(env.encode(m)) == Some(m)
  }

  function Lookup(d: Dir, name: Name): Option<Bytes> {
    if d.Present? then ContentOf(d.files, name) else None
  }

  /** The directory has an entry with this name, readable or not. */
  predicate Exists(d: Dir, name: Name) {
    d.Present? && (name in d.files || name in d.unreadable)
  }

  /** Writing a file replaces whatever entry had its name. */
  function Put(d: Dir, name: Name, data: Bytes): Dir
    requires d.Present?
  {
    Present(d.files[name := data], d.unreadable - {name})
  }

  function Remove(d: Dir, name: Name): Dir
    requires d.Present?
  {
    Present(d.files - {name}, d.unreadable - {name})
  }

  predicate HasFile(d: Dir, file: ManifestFile) {
    Lookup(d, file.filename).Some? && F.Sha256(Lookup(d, file.filename).value) == file.hash
  }

  lemma HasFileMeans(d: Dir, f: ManifestFile)
    ensures HasFile(d, f) <==> d.Present? && f.filename in d.files && F.Sha256(d.files[f.filename]) == f.hash
    ensures HasFile(d, f) <==> HasListedHash(d, f)
  {
    hide F.Sha256;
  }

  function OldManifest(env: Env, d: Dir): Option<Manifest> {
    match Lookup(d, MANIFEST_JSON)
    case None => None
    case Some(data) => env.decode(data)
  }

  predicate EndsWith(name: Name, suffix: Name) {
    |suffix| <= |name| && name[|name| - |suffix|..] == suffix
  }

  predicate IsFilterName(name: Name) {
    EndsWith(name, FILTER_SUFFIX) || EndsWith(name, DELTA_SUFFIX)
  }

  predicate Lists(files: seq<ManifestFile>, name: Name) {
    exists i :: 0 <= i < |files| && files[i].filename == name
  }

  predicate OldLists(prior: Option<Manifest>, name: Name) {
    prior.Some? && Lists(prior.value.files, name)
  }

  // Planning

  datatype PlanStep =
    | CreateDir
    | Download(file: ManifestFile)
    | Delete(name: Name)
    | SaveIndex(manifest: Manifest)
    | SaveManifest(manifest: Manifest)

  /** A download for each file that is missing, cannot be read, or has the wrong hash. */
  function Downloads(files: seq<ManifestFile>, d: Dir): seq<PlanStep> {
    if files == [] then [] else
      var last := files[|files| - 1];
      Downloads(files[..|files| - 1], d) + if HasFile(d, last) then [] else [Download(last)]
  }

  /** The filter files that neither manifest lists. */
  predicate Unwanted(m: Manifest, prior: Option<Manifest>, d: Dir, name: Name) {
    Exists(d, name) && IsFilterName(name) && !Lists(m.files, name) && !OldLists(prior, name)
  }

  function Deletes(order: seq<Name>): (steps: seq<PlanStep>)
    ensures |steps| == |order|
  {
    seq(|order|, i requires 0 <= i < |order| => Delete(order[i]))
  }

  /** `order` lists the unwanted files, each once, in the arbitrary order of a hash set. */
  ghost predicate DeletionOrder(order: seq<Name>, m: Manifest, prior: Option<Manifest>, d: Dir) {
    (forall name :: name in order <==> Unwanted(m, prior, d, name)) &&
    (forall i, j :: 0 <= i < j < |order| ==> order[i] != order[j])
  }

  /** The plan: downloads, then the index, then the manifest, then the deletions. */
  function PlanOf(m: Manifest, d: Dir, order: seq<Name>): seq<PlanStep> {
    (if d.Absent? then [CreateDir] else []) + Downloads(m.files, d) + [SaveIndex(m), SaveManifest(m)] + Deletes(order)
  }

  /** A file is downloaded exactly if it is listed and no readable file of its name has its hash. */
  lemma DownloadsExactly(m: Manifest, d: Dir, order: seq<Name>)
    ensures forall f ::
      Download(f) in PlanOf(m, d, order) <==>
        f in m.files && !(d.Present? && f.filename in d.files && F.Sha256(d.files[f.filename]) == f.hash)
  {
    DownloadsAre(m.files, d);
    assert forall i :: 0 <= i < |order| ==> Deletes(order)[i] == Delete(order[i]);
    hide Downloads, Deletes, F.Sha256;
    var plan := PlanOf(m, d, order);
    forall f
      ensures Download(f) in plan <==> Download(f) in Downloads(m.files, d)
    {
      InParts(Download(f), if d.Absent? then [CreateDir] else [], Downloads(m.files, d),
              [SaveIndex(m), SaveManifest(m)], Deletes(order));
    }
  }

  lemma InParts(step: PlanStep, a: seq<PlanStep>, b: seq<PlanStep>, c: seq<PlanStep>, e: seq<PlanStep>)
    ensures step in a + b + c + e <==> step in a || step in b || step in c || step in e
  {
  }

  lemma {:induction false} DownloadsAre(files: seq<ManifestFile>, d: Dir)
    ensures forall s :: s in Downloads(files, d) <==> s.Download? && s.file in files && !HasFile(d, s.file)
  {
    hide HasFile;
    if files != [] {
      var front, last := files[..|files| - 1], files[|files| - 1];
      DownloadsAre(front, d);
      assert forall f :: f in files <==> f in front || f == last;
    }
  }

  /** The names a manifest keeps out of the deletion set. */
  method KeepListed(unwanted: set<Name>, files: seq<ManifestFile>) returns (rest: set<Name>)
    ensures forall name :: name in rest <==> name in unwanted && !Lists(files, name)
  {
    rest := unwanted;
    for i := 0 to |files|
      invariant forall name :: name in rest <==> name in unwanted && !Lists(files[..i], name)
    {
      ghost var before := rest;
      rest := rest - {files[i].filename};
      forall name
        ensures Lists(files[..i + 1], name) <==> Lists(files[..i], name) || name == files[i].filename
      {
        assert files[..i + 1] == files[..i] + [files[i]];
        if Lists(files[..i], name) {
          var j :| 0 <= j < i && files[..i][j].filename == name;
          assert files[..i + 1][j].filename == name;
        }
        if name == files[i].filename {
          assert files[..i + 1][i].filename == name;
        }
      }
    }
    assert files[..|files|] == files;
  }

  method PlanDeletes(ghost m: Manifest, ghost prior: Option<Manifest>, ghost d: Dir, unwanted: set<Name>)
    returns (steps: seq<PlanStep>, ghost order: seq<Name>)
    requires forall name :: name in unwanted <==> Unwanted(m, prior, d, name)
    ensures DeletionOrder(order, m, prior, d) && steps == Deletes(order)
  {
    hide Unwanted;
    steps, order := [], [];
    var remaining := unwanted;
    while remaining != {}
      invariant remaining <= unwanted
      invariant forall name :: name in order <==> name in unwanted - remaining
      invariant forall i, j :: 0 <= i < j < |order| ==> order[i] != order[j]
      invariant steps == Deletes(order)
      decreases remaining
    {
      var name :| name in remaining;
      assert forall i :: 0 <= i < |order| ==> order[i] in order;
      steps, order := steps + [Delete(name)], order + [name];
      remaining := remaining - {name};
    }
  }

  /** `download_bytes`: the sum of the sizes as 64-bit addition wraps it. */
  function DownloadBytes(steps: seq<PlanStep>): u64 {
    if steps == [] then 0 else
      var last := steps[|steps| - 1];
      (DownloadBytes(steps[..|steps| - 1]) + if last.Download? then last.file.size else 0) % U64_LIMIT
  }

  // Executing

  /** What a step that succeeds does. A downloaded file is whatever the server sent, provided its
      hash is the listed one; an index that cannot be built leaves the old one in place. */
  ghost predicate StepOk(env: Env, d: Dir, step: PlanStep, d': Dir) {
    match step
    case CreateDir => d' == (if d.Absent? then Present(map[], {}) else d)
    case Download(f) =>
      d.Present? && HasFile(d', f) && d' == Put(d, f.filename, Lookup(d', f.filename).value)
    case Delete(name) => Exists(d, name) && d' == Remove(d, name)
    case SaveIndex(m) => d.Present? &&
      (match IndexBytes(m.files, d.files, env.p)
       case None => d' == d
       case Some(data) => d' == Put(d, INDEX_BIN, data))
    case SaveManifest(m) => d.Present? && d' == Put(d, MANIFEST_JSON, env.encode(m))
  }

  /** What a step that fails may leave: nothing changed, or, for a download, whatever was written
      before its hash turned out wrong or could not be taken. */
  ghost predicate StepFailed(d: Dir, step: PlanStep, d': Dir) {
    d' == d ||
    (step.Download? && d.Present? && Lookup(d', step.file.filename).Some? &&
     d' == Put(d, step.file.filename, Lookup(d', step.file.filename).value))
  }

  /** Why a step fails when nothing goes wrong outside the program: there is no directory, there is
      nothing to delete, or the server did not send the file that is listed. */
  ghost predicate StepRefused(d: Dir, step: PlanStep, d': Dir) {
    match step
    case CreateDir => false
    case Download(f) => d.Absent? || (Lookup(d', f.filename).Some? && !HasFile(d', f))
    case Delete(name) => !Exists(d, name)
    case SaveIndex(_) => d.Absent?
    case SaveManifest(_) => d.Absent?
  }

  /** `dirs` are the directories seen while the first steps ran, one more than steps completed. */
  ghost predicate Trace(env: Env, steps: seq<PlanStep>, dirs: seq<Dir>) {
    0 < |dirs| <= |steps| + 1 &&
    forall i :: 0 <= i < |dirs| - 1 ==> StepOk(env, dirs[i], steps[i], dirs[i + 1])
  }

  /** A fetch of `m` that began at `d` and ran all its steps, passing through `dirs`. */
  ghost predicate Complete(env: Env, m: Manifest, d: Dir, order: seq<Name>, dirs: seq<Dir>) {
    var plan := PlanOf(m, d, order);
    DeletionOrder(order, m, OldManifest(env, d), d) && Trace(env, plan, dirs) && |dirs| == |plan| + 1 && dirs[0] == d
  }

  /** The directory on disk; `faults` counts what went wrong outside the program. */
  class CacheDir {
    var present: bool
    var files: Files
    var unreadable: set<Name>
    ghost var faults: nat

    function View(): Dir
      reads this`present, this`files, this`unreadable
    {
      if present then Present(files, unreadable) else Absent
    }

    constructor (d: Dir)
      ensures View() == d && faults == 0
    {
      faults := 0;
      present := d.Present?;
      files := if d.Present? then d.files else map[];
      unreadable := if d.Present? then d.unreadable else {};
    }

    method Write(name: Name, data: Bytes)
      requires present
      modifies `files, `unreadable
      ensures View() == Put(old(View()), name, data)
    {
      files := files[name := data];
      unreadable := unreadable - {name};
    }

    /** A directory that exists is listed unless that fails; then there is no plan. */
    method Construct(m: Manifest, prior: Option<Manifest>) returns (plan: Option<seq<PlanStep>>, ghost order: seq<Name>)
      modifies `faults
      ensures faults >= old(faults) && (plan.None? <==> faults > old(faults))
      ensures plan.None? ==> View().Present?
      ensures plan.Some? ==> DeletionOrder(order, m, prior, View()) && plan.value == PlanOf(m, View(), order)
      ensures plan.Some? ==> forall f ::
        Download(f) in plan.value <==>
          f in m.files && !(present && f.filename in files && F.Sha256(files[f.filename]) == f.hash)
    {
      hide F.Sha256, IsFilterName, DeletionOrder;
      var d := View();
      var steps: seq<PlanStep> := [];
      var unwanted: set<Name> := {};
      order := [];
      if present {
        if * {
          faults := faults + 1;
          return None, order;
        }
        unwanted := set name | name in files.Keys + unreadable && IsFilterName(name);
      } else {
        steps := [CreateDir];
      }
      ghost var start := steps;

      unwanted := KeepListed(unwanted, m.files);
      for i := 0 to |m.files|
        invariant steps == start + Downloads(m.files[..i], d)
      {
        assert m.files[..i + 1][..i] == m.files[..i];
        if !HasFile(d, m.files[i]) {
          steps := steps + [Download(m.files[i])];
        }
      }
      assert m.files[..|m.files|] == m.files;
      if prior.Some? {
        unwanted := KeepListed(unwanted, prior.value.files);
      }
      assert forall name :: name in unwanted <==> Unwanted(m, prior, d, name);
      steps := steps + [SaveIndex(m), SaveManifest(m)];
      var deletes;
      deletes, order := PlanDeletes(m, prior, d, unwanted);
      plan := Some(steps + deletes);
      DownloadsExactly(m, d, order);
    }

    /** The bytes the server sends, and whether an operation on the file system fails, are arbitrary.
        Without a fault only the step itself can be refused. */
    method Execute(env: Env, step: PlanStep) returns (ok: bool)
      modifies this
      ensures faults >= old(faults) && (ok ==> faults == old(faults))
      ensures ok ==> StepOk(env, old(View()), step, View())
      ensures ok && step.Download? ==>
        step.file.filename in files && F.Sha256(files[step.file.filename]) == step.file.hash
      ensures !ok ==> StepFailed(old(View()), step, View())
      ensures !ok && faults == old(faults) ==> StepRefused(old(View()), step, View())
    {
      hide F.Sha256, IndexBytes;
      if step.CreateDir? {
        if * {
          faults := faults + 1;
          return false;
        }
        files := if present then files else map[];
        unreadable := if present then unreadable else {};
        present := true;
        return true;
      }
      if !present {
        return false;
      }
      if * {
        faults := faults + 1;
        return false;
      }
      match step
      case CreateDir =>
        return true;
      case Download(f) =>
        var bytes: Bytes := *;
        Write(f.filename, bytes);
        if * {
          faults := faults + 1;
          return false;
        }
        ok := F.Sha256(bytes) == f.hash;
      case Delete(name) =>
        if name !in files && name !in unreadable {
          return false;
        }
        files := files - {name};
        unreadable := unreadable - {name};
        ok := true;
      case SaveIndex(m) =>
        var data := IndexWrite.Write(m.files, files, env.p);
        if data.Some? {
          Write(INDEX_BIN, data.value);
        }
        ok := true;
      case SaveManifest(m) =>
        Write(MANIFEST_JSON, env.encode(m));
        ok := true;
    }

    /** `fetch`, with what the server sent as its manifest. On success every step of a plan for it
        has run; otherwise the first steps have, and perhaps one has failed. Without a fault it fails
        only for want of a good manifest or because a step is refused. */
    method FetchManifest(env: Env, dryRun: bool, served: Option<Manifest>)
      returns (ok: bool, ghost plan: seq<PlanStep>, ghost order: seq<Name>, ghost dirs: seq<Dir>)
      modifies this
      ensures faults >= old(faults) && (ok ==> faults == old(faults))
      ensures served.None? || dryRun ==> View() == old(View()) && plan == []
      ensures ok ==> served.Some? && env.timestampOk(served.value.generatedAt)
      ensures ok && !dryRun ==> Complete(env, served.value, old(View()), order, dirs) && View() == dirs[|dirs| - 1]
      ensures ok && !dryRun ==> plan != []
      ensures Trace(env, plan, dirs) && dirs[0] == old(View())
      ensures plan != [] ==> served.Some? && plan == PlanOf(served.value, old(View()), order)
      ensures plan != [] ==> DeletionOrder(order, served.value, OldManifest(env, old(View())), old(View()))
      ensures !ok && |dirs| > |plan| ==> View() == dirs[|dirs| - 1]
      ensures !ok && |dirs| <= |plan| ==> StepFailed(dirs[|dirs| - 1], plan[|dirs| - 1], View())
      ensures !ok && faults == old(faults) && served.Some? && env.timestampOk(served.value.generatedAt) ==>
        |dirs| <= |plan| && StepRefused(dirs[|dirs| - 1], plan[|dirs| - 1], View())
    {
      plan, order, dirs := [], [], [View()];
      if served.None? || !env.timestampOk(served.value.generatedAt) {
        return false, plan, order, dirs;
      }
      var oldManifest := OldManifest(env, View());
      var steps;
      steps, order := Construct(served.value, oldManifest);
      if steps.None? {
        return false, plan, order, dirs;
      }
      if dryRun {
        return true, plan, order, dirs;
      }
      hide StepOk, StepFailed, StepRefused, DeletionOrder, OldManifest;
      plan := steps.value;
      assert plan != [] by {
        assert SaveIndex(served.value) in plan;
      }
      for i := 0 to |steps.value|
        invariant |dirs| == i + 1 && dirs[i] == View() && dirs[0] == old(View())
        invariant faults == old(faults)
        invariant Trace(env, plan, dirs)
      {
        var done := Execute(env, steps.value[i]);
        if !done {
          return false, plan, order, dirs;
        }
        dirs := dirs + [View()];
      }
      ok := true;
    }
  }

  // Verifying

  datatype Verification = UpToDate | Outdated(bytes: nat) | InvalidTimestamp | ListingFailed

  /** The total size of the listed files that are missing, cannot be read, or have the wrong hash. */
  function BadBytes(files: seq<ManifestFile>, d: Dir): nat {
    if files == [] then 0 else
      var last := files[|files| - 1];
      BadBytes(files[..|files| - 1], d) + if HasFile(d, last) then 0 else last.size
  }

  /** Every bad file is listed with size zero. */
  ghost predicate NothingToGet(files: seq<ManifestFile>, d: Dir) {
    forall i :: 0 <= i < |files| ==> HasFile(d, files[i]) || files[i].size == 0
  }

  /** The total is a positive multiple of 2^64, which 64-bit addition makes zero. */
  ghost predicate WrapsToZero(files: seq<ManifestFile>, d: Dir) {
    BadBytes(files, d) > 0 && BadBytes(files, d) % U64_LIMIT == 0
  }

  lemma {:induction false} BadBytesZero(files: seq<ManifestFile>, d: Dir)
    ensures BadBytes(files, d) == 0 <==> NothingToGet(files, d)
  {
    hide HasFile;
    if files != [] {
      BadBytesZero(files[..|files| - 1], d);
    }
  }

  /** The sum of the sizes without a limit. */
  function PlanTotal(steps: seq<PlanStep>): nat {
    if steps == [] then 0 else
      var last := steps[|steps| - 1];
      PlanTotal(steps[..|steps| - 1]) + if last.Download? then last.file.size else 0
  }

  lemma AddModulo(a: nat, b: nat)
    ensures (a % U64_LIMIT + b) % U64_LIMIT == (a + b) % U64_LIMIT
  {
  }

  lemma {:induction false} DownloadBytesWrap(steps: seq<PlanStep>)
    ensures DownloadBytes(steps) == PlanTotal(steps) % U64_LIMIT
  {
    if steps != [] {
      DownloadBytesWrap(steps[..|steps| - 1]);
      var size := if steps[|steps| - 1].Download? then steps[|steps| - 1].file.size else 0;
      AddModulo(PlanTotal(steps[..|steps| - 1]), size);
    }
  }

  lemma {:induction false} PlanTotalAppend(a: seq<PlanStep>, b: seq<PlanStep>)
    ensures PlanTotal(a + b) == PlanTotal(a) + PlanTotal(b)
  {
    if b == [] {
      assert a + b == a;
    } else {
      PlanTotalAppend(a, b[..|b| - 1]);
      assert (a + b)[..|a + b| - 1] == a + b[..|b| - 1];
    }
  }

  lemma {:induction false} NoDownloads(steps: seq<PlanStep>)
    requires forall i :: 0 <= i < |steps| ==> !steps[i].Download?
    ensures PlanTotal(steps) == 0
  {
    if steps != [] {
      NoDownloads(steps[..|steps| - 1]);
    }
  }

  lemma {:induction false} DownloadsTotal(files: seq<ManifestFile>, d: Dir)
    ensures PlanTotal(Downloads(files, d)) == BadBytes(files, d)
  {
    hide HasFile;
    if files != [] {
      var front, last := files[..|files| - 1], files[|files| - 1];
      DownloadsTotal(front, d);
      PlanTotalAppend(Downloads(front, d), [Download(last)]);
      assert [Download(last)][..0] == [];
      assert Downloads(front, d) + [] == Downloads(front, d);
    }
  }

  lemma PlanBytes(m: Manifest, d: Dir, order: seq<Name>)
    ensures DownloadBytes(PlanOf(m, d, order)) == BadBytes(m.files, d) % U64_LIMIT
  {
    var a := if d.Absent? then [CreateDir] else [];
    var b, c, e := Downloads(m.files, d), [SaveIndex(m), SaveManifest(m)], Deletes(order);
    hide PlanTotal, DownloadBytes, BadBytes, Downloads;
    NoDownloads(a);
    NoDownloads(c);
    NoDownloads(e);
    hide Deletes;
    PlanTotalAppend(a + b + c, e);
    PlanTotalAppend(a + b, c);
    PlanTotalAppend(a, b);
    DownloadsTotal(m.files, d);
    DownloadBytesWrap(PlanOf(m, d, order));
  }

  /** `Manifest::verify`: up to date exactly when every bad file is listed with size zero or the sizes
      of the bad files add up to a multiple of 2^64; otherwise their sum, modulo 2^64. It gives neither
      exactly for a bad timestamp and when listing the directory fails. */
  method Verify(env: Env, m: Manifest, cache: CacheDir) returns (r: Verification)
    modifies cache`faults
    ensures cache.faults >= old(cache.faults)
    ensures r.InvalidTimestamp? <==> !env.timestampOk(m.generatedAt)
    ensures r.ListingFailed? <==> cache.faults > old(cache.faults)
    ensures !r.InvalidTimestamp? && !r.ListingFailed? ==>
      (r.UpToDate? <==> NothingToGet(m.files, cache.View()) || WrapsToZero(m.files, cache.View()))
    ensures r.Outdated? ==> r.bytes == BadBytes(m.files, cache.View()) % U64_LIMIT
  {
    if !env.timestampOk(m.generatedAt) {
      return InvalidTimestamp;
    }
    ghost var order;
    var plan;
    plan, order := cache.Construct(m, None);
    if plan.None? {
      return ListingFailed;
    }
    PlanBytes(m, cache.View(), order);
    BadBytesZero(m.files, cache.View());
    var bytes := DownloadBytes(plan.value);
    r := if bytes == 0 then UpToDate else Outdated(bytes);
  }

  function TotalSize(files: seq<ManifestFile>): nat {
    if files == [] then 0 else TotalSize(files[..|files| - 1]) + files[|files| - 1].size
  }

  lemma {:induction false} BadBytesBound(files: seq<ManifestFile>, d: Dir)
    ensures BadBytes(files, d) <= TotalSize(files)
  {
    hide HasFile;
    if files != [] {
      BadBytesBound(files[..|files| - 1], d);
    }
  }

  /** A readable file of its name has its hash. */
  ghost predicate HasListedHash(d: Dir, f: ManifestFile) {
    d.Present? && f.filename in d.files && F.Sha256(d.files[f.filename]) == f.hash
  }

  /** So "up to date" can be trusted, in every directory, when all sizes are positive and their sum fits:
      it means that for every listed file a readable file of its name has its hash. */
  lemma VerifyTrusted(files: seq<ManifestFile>, d: Dir)
    requires TotalSize(files) < U64_LIMIT && forall i :: 0 <= i < |files| ==> files[i].size > 0
    ensures NothingToGet(files, d) || WrapsToZero(files, d) <==>
      forall i :: 0 <= i < |files| ==> HasListedHash(d, files[i])
  {
    BadBytesBound(files, d);
    hide BadBytes, TotalSize, F.Sha256, HasFile, HasListedHash;
    assert !WrapsToZero(files, d);
    forall i | 0 <= i < |files|
      ensures HasFile(d, files[i]) <==> HasListedHash(d, files[i])
    {
      HasFileMeans(d, files[i]);
    }
  }

  /** The bad bytes of a list are those of its parts, and those of one file its size, unless a readable
      file of its name has its hash. */
  lemma {:induction false} BadBytesExactly(a: seq<ManifestFile>, b: seq<ManifestFile>, f: ManifestFile, d: Dir)
    ensures BadBytes(a + b, d) == BadBytes(a, d) + BadBytes(b, d)
    ensures BadBytes([f], d) ==
      if d.Present? && f.filename in d.files && F.Sha256(d.files[f.filename]) == f.hash then 0 else f.size
  {
    assert [f][..0] == [];
    hide F.Sha256;
    if b == [] {
      assert a + b == a;
    } else {
      BadBytesExactly(a, b[..|b| - 1], f, d);
      assert (a + b)[..|a + b| - 1] == a + b[..|b| - 1];
    }
  }

  /** It cannot be trusted otherwise: two files of 2^63 bytes, both missing, are up to date. */
  lemma MissingButUpToDate(a: ManifestFile, b: ManifestFile)
    requires a.size == U63_LIMIT && b.size == U63_LIMIT
    ensures WrapsToZero([a, b], Absent) && !HasFile(Absent, a) && !HasFile(Absent, b)
  {
    assert [a, b][..1] == [a];
    assert [a][..0] == [];
    assert BadBytes([a], Absent) == U63_LIMIT;
  }
}
