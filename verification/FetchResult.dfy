/** What a fetch that succeeds leaves in the cache directory, file by file, and where repeated
    fetches lead. */
module FetchResult {
  import opened ByteStrings
  import opened IndexFormat
  import opened Revocation
  import opened IndexWrite
  import opened Fetch
  import F = Fips180

  /** Manifest names are distinct and are not the names of the index or the manifest. */
  ghost predicate Plain(m: Manifest) {
    (forall i, j :: 0 <= i < j < |m.files| ==> m.files[i].filename != m.files[j].filename) &&
    (forall i :: 0 <= i < |m.files| ==> m.files[i].filename != INDEX_BIN && m.files[i].filename != MANIFEST_JSON)
  }

  // Steps change one name each

  predicate Touches(step: PlanStep, name: Name) {
    match step
    case CreateDir => false
    case Download(f) => f.filename == name
    case Delete(n) => n == name
    case SaveIndex(_) => name == INDEX_BIN
    case SaveManifest(_) => name == MANIFEST_JSON
  }

  /** The name has the same entry, or none, in both. */
  ghost predicate Same(d: Dir, d': Dir, name: Name) {
    Lookup(d', name) == Lookup(d, name) && (Exists(d', name) <==> Exists(d, name))
  }

  lemma StepFrame(env: Env, d: Dir, step: PlanStep, d': Dir, name: Name)
    requires StepOk(env, d, step, d') && !Touches(step, name)
    ensures Same(d, d', name)
  {
  }

  lemma {:induction false} TraceFrame(env: Env, steps: seq<PlanStep>, dirs: seq<Dir>, i: nat, j: nat, name: Name)
    requires Trace(env, steps, dirs) && i <= j < |dirs|
    requires forall k :: i <= k < j ==> !Touches(steps[k], name)
    ensures Same(dirs[i], dirs[j], name)
    decreases j
  {
    if i < j {
      hide StepOk, Touches;
      TraceFrame(env, steps, dirs, i, j - 1, name);
      StepFrame(env, dirs[j - 1], steps[j - 1], dirs[j], name);
    }
  }

  lemma RightStep(env: Env, d: Dir, step: PlanStep, d': Dir, f: ManifestFile)
    requires StepOk(env, d, step, d') && HasFile(d, f)
    requires Touches(step, f.filename) ==> step == Download(f)
    ensures HasFile(d', f)
  {
    if !Touches(step, f.filename) {
      StepFrame(env, d, step, d', f.filename);
    }
  }

  /** A file that is right stays right while only its own download touches it. */
  lemma {:induction false} StaysRight(env: Env, steps: seq<PlanStep>, dirs: seq<Dir>, i: nat, j: nat, f: ManifestFile)
    requires Trace(env, steps, dirs) && i <= j < |dirs| && HasFile(dirs[i], f)
    requires forall k :: i <= k < j && Touches(steps[k], f.filename) ==> steps[k] == Download(f)
    ensures HasFile(dirs[j], f)
    decreases j
  {
    hide StepOk, Touches, HasFile;
    if i < j {
      StaysRight(env, steps, dirs, i, j - 1, f);
      assert StepOk(env, dirs[j - 1], steps[j - 1], dirs[j]);
      RightStep(env, dirs[j - 1], steps[j - 1], dirs[j], f);
    }
  }

  // The shape of a plan

  /** The position of the index step: everything before it creates or downloads. */
  function IndexStep(m: Manifest, d: Dir): nat {
    (if d.Absent? then 1 else 0) + |Downloads(m.files, d)|
  }

  lemma PlanShape(m: Manifest, d: Dir, order: seq<Name>)
    ensures var plan, at := PlanOf(m, d, order), IndexStep(m, d);
      |plan| == at + 2 + |order| && plan[at] == SaveIndex(m) && plan[at + 1] == SaveManifest(m) &&
      (forall k :: 0 <= k < at ==>
        plan[k] == CreateDir || (plan[k].Download? && plan[k].file in m.files && !HasFile(d, plan[k].file))) &&
      (forall k :: 0 <= k < |order| ==> plan[at + 2 + k] == Delete(order[k]))
  {
    DownloadsAre(m.files, d);
    hide Downloads, HasFile;
    var a, b := if d.Absent? then [CreateDir] else [], Downloads(m.files, d);
    assert forall k :: 0 <= k < |b| ==> b[k] in b;
  }

  lemma DownloadPlanned(m: Manifest, d: Dir, order: seq<Name>, f: ManifestFile) returns (k: nat)
    requires f in m.files && !HasFile(d, f)
    ensures k < IndexStep(m, d) <= |PlanOf(m, d, order)| && PlanOf(m, d, order)[k] == Download(f)
  {
    DownloadsAre(m.files, d);
    var b := Downloads(m.files, d);
    assert Download(f) in b;
    var j :| 0 <= j < |b| && b[j] == Download(f);
    k := (if d.Absent? then 1 else 0) + j;
  }

  lemma LastOfSuffix(name: Name, suffix: Name)
    requires EndsWith(name, suffix) && suffix != []
    ensures name != [] && name[|name| - 1] == suffix[|suffix| - 1]
  {
    assert name[|name| - |suffix|..][|suffix| - 1] == name[|name| - 1];
  }

  lemma SpecialNames()
    ensures !IsFilterName(INDEX_BIN) && !IsFilterName(MANIFEST_JSON) && INDEX_BIN != MANIFEST_JSON
  {
    assert |INDEX_BIN| == 9 && |MANIFEST_JSON| == 13;
    forall name, suffix | name in [INDEX_BIN, MANIFEST_JSON] && suffix in [FILTER_SUFFIX, DELTA_SUFFIX]
      ensures !EndsWith(name, suffix)
    {
      if EndsWith(name, suffix) {
        LastOfSuffix(name, suffix);
      }
    }
    assert INDEX_BIN in [INDEX_BIN, MANIFEST_JSON] && MANIFEST_JSON in [INDEX_BIN, MANIFEST_JSON];
    assert FILTER_SUFFIX in [FILTER_SUFFIX, DELTA_SUFFIX] && DELTA_SUFFIX in [FILTER_SUFFIX, DELTA_SUFFIX];
  }

  // The result of a complete fetch

  /** No step of the plan but its own download touches a listed file. */
  lemma ListedTouched(m: Manifest, env: Env, d: Dir, order: seq<Name>, f: ManifestFile, k: nat)
    requires Plain(m) && f in m.files && DeletionOrder(order, m, OldManifest(env, d), d)
    requires k < |PlanOf(m, d, order)|
    ensures Touches(PlanOf(m, d, order)[k], f.filename) ==> PlanOf(m, d, order)[k] == Download(f) && !HasFile(d, f)
  {
    var plan, at := PlanOf(m, d, order), IndexStep(m, d);
    PlanShape(m, d, order);
    hide PlanOf, HasFile, IsFilterName;
    if k >= at + 2 {
      assert plan[at + 2 + (k - at - 2)] == Delete(order[k - at - 2]);
      assert order[k - at - 2] in order;
    }
  }

  /** Every listed file is present with its listed hash; one that was already right is untouched. */
  lemma ListedFile(env: Env, m: Manifest, d: Dir, order: seq<Name>, dirs: seq<Dir>, f: ManifestFile)
    requires Plain(m) && Complete(env, m, d, order, dirs) && f in m.files
    ensures forall j :: IndexStep(m, d) <= j < |dirs| ==> HasFile(dirs[j], f)
    ensures HasFile(d, f) ==> forall j :: 0 <= j < |dirs| ==> Same(d, dirs[j], f.filename)
  {
    var plan := PlanOf(m, d, order);
    forall k | 0 <= k < |plan|
      ensures Touches(plan[k], f.filename) ==> plan[k] == Download(f) && !HasFile(d, f)
    {
      ListedTouched(m, env, d, order, f, k);
    }
    if HasFile(d, f) {
      hide PlanOf, HasFile;
      forall j | 0 <= j < |dirs|
        ensures Same(d, dirs[j], f.filename)
      {
        TraceFrame(env, plan, dirs, 0, j, f.filename);
      }
    } else {
      var k := DownloadPlanned(m, d, order, f);
      assert StepOk(env, dirs[k], plan[k], dirs[k + 1]);
      assert HasFile(dirs[k + 1], f);
      hide PlanOf, HasFile, StepOk;
      forall j | IndexStep(m, d) <= j < |dirs|
        ensures HasFile(dirs[j], f)
      {
        StaysRight(env, plan, dirs, k + 1, j, f);
      }
    }
  }

  ghost predicate Unmentioned(env: Env, m: Manifest, d: Dir, name: Name) {
    !Lists(m.files, name) && !Unwanted(m, OldManifest(env, d), d, name) && name != INDEX_BIN && name != MANIFEST_JSON
  }

  /** A name that is not listed, not unwanted and not special keeps its file, or its absence. */
  lemma OtherFile(env: Env, m: Manifest, d: Dir, order: seq<Name>, dirs: seq<Dir>, name: Name, j: nat)
    requires Complete(env, m, d, order, dirs) && j < |dirs|
    requires Unmentioned(env, m, d, name)
    ensures Same(d, dirs[j], name)
  {
    var plan, at := PlanOf(m, d, order), IndexStep(m, d);
    PlanShape(m, d, order);
    hide PlanOf, HasFile, Unwanted;
    forall k | 0 <= k < |plan|
      ensures !Touches(plan[k], name)
    {
      if k >= at + 2 {
        assert plan[at + 2 + (k - at - 2)] == Delete(order[k - at - 2]);
        assert order[k - at - 2] in order;
      } else if k < at && plan[k].Download? {
        var i :| 0 <= i < |m.files| && m.files[i] == plan[k].file;
        assert plan[k].file.filename == name ==> Lists(m.files, name);
      }
    }
    TraceFrame(env, plan, dirs, 0, j, name);
  }

  /** Every unwanted file is gone. */
  lemma UnwantedFile(env: Env, m: Manifest, d: Dir, order: seq<Name>, dirs: seq<Dir>, name: Name)
    requires Complete(env, m, d, order, dirs)
    requires Unwanted(m, OldManifest(env, d), d, name)
    ensures !Exists(dirs[|dirs| - 1], name)
  {
    var plan, at := PlanOf(m, d, order), IndexStep(m, d);
    PlanShape(m, d, order);
    SpecialNames();
    hide PlanOf, HasFile, IsFilterName;
    assert name in order;
    var k :| 0 <= k < |order| && order[k] == name;
    assert plan[at + 2 + k] == Delete(name);
    assert StepOk(env, dirs[at + 2 + k], Delete(name), dirs[at + 3 + k]);
    assert !Exists(dirs[at + 3 + k], name);
    forall l | at + 3 + k <= l < |plan|
      ensures !Touches(plan[l], name)
    {
      assert plan[at + 2 + (l - at - 2)] == Delete(order[l - at - 2]);
    }
    hide StepOk;
    TraceFrame(env, plan, dirs, at + 3 + k, |plan|, name);
  }

  /** The new manifest is saved, and stays. */
  lemma ManifestFileSaved(env: Env, m: Manifest, d: Dir, order: seq<Name>, dirs: seq<Dir>)
    requires Plain(m) && Complete(env, m, d, order, dirs)
    ensures Lookup(dirs[|dirs| - 1], MANIFEST_JSON) == Some(env.encode(m))
  {
    var plan, at := PlanOf(m, d, order), IndexStep(m, d);
    PlanShape(m, d, order);
    SpecialNames();
    hide PlanOf, HasFile, IsFilterName;
    assert StepOk(env, dirs[at + 1], plan[at + 1], dirs[at + 2]);
    forall l | at + 2 <= l < |plan|
      ensures !Touches(plan[l], MANIFEST_JSON)
    {
      assert plan[at + 2 + (l - at - 2)] == Delete(order[l - at - 2]);
      assert order[l - at - 2] in order;
    }
    hide StepOk;
    TraceFrame(env, plan, dirs, at + 2, |plan|, MANIFEST_JSON);
  }

  /** The index depends only on the files listed. */
  lemma IndexDependsOnListed(files: seq<ManifestFile>, d: Files, d': Files, p: Platform)
    requires forall i :: 0 <= i < |files| ==>
      ContentOf(d, files[i].filename) == ContentOf(d', files[i].filename)
    ensures Readable(files, d, p) <==> Readable(files, d', p)
    ensures Readable(files, d, p) ==> Cards(files, d, p) == Cards(files, d', p)
    ensures IndexBytes(files, d, p) == IndexBytes(files, d', p)
  {
    hide Encode, SectionsOf;
    forall i | 0 <= i < |files|
      ensures ReadableFile(files[i], d, p) <==> ReadableFile(files[i], d', p)
      ensures files[i].filename in d ==> files[i].filename in d' && d[files[i].filename] == d'[files[i].filename]
    {
      assert ContentOf(d, files[i].filename) == ContentOf(d', files[i].filename);
    }
    assert Readable(files, d, p) <==> Readable(files, d', p);
  }

  /** The index is that of the files as the fetch leaves them, or the old one if none can be built. */
  lemma IndexSaved(env: Env, m: Manifest, d: Dir, order: seq<Name>, dirs: seq<Dir>)
    requires Plain(m) && Complete(env, m, d, order, dirs)
    ensures var d' := dirs[|dirs| - 1];
      d'.Present? && Lookup(d', INDEX_BIN) ==
        match IndexBytes(m.files, d'.files, env.p) case None => Lookup(d, INDEX_BIN) case Some(data) => Some(data)
  {
    var plan, at := PlanOf(m, d, order), IndexStep(m, d);
    var d' := dirs[|dirs| - 1];
    PlanShape(m, d, order);
    SpecialNames();
    assert StepOk(env, dirs[at], plan[at], dirs[at + 1]);
    ManifestFileSaved(env, m, d, order, dirs);
    hide PlanOf, HasFile, IsFilterName, IndexBytes;
    forall k | 0 <= k < |plan| && k != at
      ensures !Touches(plan[k], INDEX_BIN)
    {
      if k >= at + 2 {
        assert plan[at + 2 + (k - at - 2)] == Delete(order[k - at - 2]);
        assert order[k - at - 2] in order;
      }
    }
    hide StepOk;
    TraceFrame(env, plan, dirs, 0, at, INDEX_BIN);
    TraceFrame(env, plan, dirs, at + 1, |plan|, INDEX_BIN);
    forall i | 0 <= i < |m.files|
      ensures Lookup(dirs[at], m.files[i].filename) == Lookup(d', m.files[i].filename)
    {
      forall k | at <= k < |plan|
        ensures !Touches(plan[k], m.files[i].filename)
      {
        ListedTouched(m, env, d, order, m.files[i], k);
      }
      TraceFrame(env, plan, dirs, at, |plan|, m.files[i].filename);
    }
    IndexDependsOnListed(m.files, dirs[at].files, d'.files, env.p);
  }

  lemma EndsAfterIndex(env: Env, m: Manifest, d: Dir, order: seq<Name>, dirs: seq<Dir>)
    requires Complete(env, m, d, order, dirs)
    ensures IndexStep(m, d) < |dirs|
  {
    PlanShape(m, d, order);
    hide PlanOf, HasFile;
  }

  /** A fetch that succeeds leaves: every listed file present with its hash, untouched if it was
      right before; the new manifest; the index of those files if it can be built; none of the
      filter files that neither manifest lists; and every other name exactly as it was. */
  lemma FetchPostcondition(env: Env, m: Manifest, d: Dir, order: seq<Name>, dirs: seq<Dir>)
    requires Plain(m) && Complete(env, m, d, order, dirs)
    ensures var d' := dirs[|dirs| - 1];
      d'.Present? &&
      (forall f :: f in m.files ==> HasFile(d', f)) &&
      (forall f :: f in m.files && HasFile(d, f) ==> Same(d, d', f.filename)) &&
      Lookup(d', MANIFEST_JSON) == Some(env.encode(m)) &&
      (Lookup(d', INDEX_BIN) ==
        match IndexBytes(m.files, d'.files, env.p) case None => Lookup(d, INDEX_BIN) case Some(data) => Some(data)) &&
      (forall name :: Unwanted(m, OldManifest(env, d), d, name) ==> !Exists(d', name)) &&
      (forall name :: Unmentioned(env, m, d, name) ==> Same(d, d', name))
  {
    var d' := dirs[|dirs| - 1];
    hide Complete, HasFile, Unwanted, IndexBytes, Plain, Unmentioned, Same, IndexStep, OldManifest;
    ManifestFileSaved(env, m, d, order, dirs);
    IndexSaved(env, m, d, order, dirs);
    EndsAfterIndex(env, m, d, order, dirs);
    forall f | f in m.files
      ensures HasFile(d', f) && (HasFile(d, f) ==> Same(d, d', f.filename))
    {
      ListedFile(env, m, d, order, dirs, f);
    }
    forall name | Unwanted(m, OldManifest(env, d), d, name)
      ensures !Exists(d', name)
    {
      UnwantedFile(env, m, d, order, dirs, name);
    }
    forall name | Unmentioned(env, m, d, name)
      ensures Same(d, d', name)
    {
      OtherFile(env, m, d, order, dirs, name, |dirs| - 1);
    }
  }

  // When a fetch can fail

  lemma DeletedUntouched(m: Manifest, env: Env, d: Dir, order: seq<Name>, k: nat, j: nat)
    requires DeletionOrder(order, m, OldManifest(env, d), d) && k < |order| && j < IndexStep(m, d) + 2 + k
    ensures j < |PlanOf(m, d, order)| && !Touches(PlanOf(m, d, order)[j], order[k])
  {
    var plan, at := PlanOf(m, d, order), IndexStep(m, d);
    PlanShape(m, d, order);
    SpecialNames();
    assert order[k] in order;
    hide PlanOf, HasFile, IsFilterName;
    if j >= at + 2 {
      assert plan[at + 2 + (j - at - 2)] == Delete(order[j - at - 2]);
    } else if j < at && plan[j].Download? {
      var i :| 0 <= i < |m.files| && m.files[i] == plan[j].file;
      assert Lists(m.files, plan[j].file.filename);
    }
  }

  /** A file that is to be deleted is still there when its turn comes. */
  lemma DeletedThere(env: Env, m: Manifest, order: seq<Name>, dirs: seq<Dir>, k: nat)
    requires dirs != [] && DeletionOrder(order, m, OldManifest(env, dirs[0]), dirs[0])
    requires Trace(env, PlanOf(m, dirs[0], order), dirs)
    requires k < |order| && |dirs| == IndexStep(m, dirs[0]) + 3 + k
    ensures Exists(dirs[|dirs| - 1], order[k])
  {
    var plan, n := PlanOf(m, dirs[0], order), |dirs| - 1;
    assert order[k] in order;
    forall j | 0 <= j < n
      ensures !Touches(plan[j], order[k])
    {
      DeletedUntouched(m, env, dirs[0], order, k, j);
    }
    hide PlanOf, IsFilterName;
    TraceFrame(env, plan, dirs, 0, n, order[k]);
  }

  /** The one step of a plan that can be refused is a download, when the server sends other bytes than
      the manifest lists. */
  lemma OnlyDownloadsRefused(env: Env, m: Manifest, order: seq<Name>, dirs: seq<Dir>, d': Dir)
    requires dirs != [] && DeletionOrder(order, m, OldManifest(env, dirs[0]), dirs[0])
    requires Trace(env, PlanOf(m, dirs[0], order), dirs) && |dirs| <= |PlanOf(m, dirs[0], order)|
    requires StepRefused(dirs[|dirs| - 1], PlanOf(m, dirs[0], order)[|dirs| - 1], d')
    ensures var step := PlanOf(m, dirs[0], order)[|dirs| - 1];
      step.Download? && step.file in m.files && Lookup(d', step.file.filename).Some? && !HasFile(d', step.file)
  {
    var plan, at, k := PlanOf(m, dirs[0], order), IndexStep(m, dirs[0]), |dirs| - 1;
    PlanShape(m, dirs[0], order);
    FirstStep(m, dirs[0], order);
    hide HasFile, DeletionOrder;
    if k > 0 {
      assert StepOk(env, dirs[k - 1], plan[k - 1], dirs[k]);
    }
    if k >= at + 2 {
      assert plan[at + 2 + (k - at - 2)] == Delete(order[k - at - 2]);
      DeletedThere(env, m, order, dirs, k - at - 2);
    }
  }

  lemma FirstStep(m: Manifest, d: Dir, order: seq<Name>)
    ensures PlanOf(m, d, order) != [] && (d.Absent? ==> PlanOf(m, d, order)[0] == CreateDir)
  {
  }

  // Where repeated fetches lead

  /** Local contents match the manifest, and nothing is left over. */
  ghost predicate Converged(env: Env, m: Manifest, d: Dir) {
    d.Present? && OldManifest(env, d) == Some(m) && (forall f :: f in m.files ==> HasFile(d, f)) &&
    (forall name :: IsFilterName(name) && Exists(d, name) ==> Lists(m.files, name))
  }

  lemma SecondFetch(env: Env, m: Manifest, d: Dir, order: seq<Name>, dirs: seq<Dir>)
    requires EncodingOk(env) && Plain(m) && Complete(env, m, d, order, dirs)
    requires OldManifest(env, d) == Some(m)
    ensures Converged(env, m, dirs[|dirs| - 1])
  {
    var d' := dirs[|dirs| - 1];
    FetchPostcondition(env, m, d, order, dirs);
    SpecialNames();
    hide Complete, HasFile, IsFilterName, IndexBytes, Plain;
    forall name | IsFilterName(name) && Exists(d', name)
      ensures Lists(m.files, name)
    {
      assert Lists(m.files, name) || Unmentioned(env, m, d, name) || Unwanted(m, OldManifest(env, d), d, name);
    }
  }

  /** One successful fetch makes local contents match exactly when every filter file that only the
      previous manifest lists was already gone: such files are kept for one more generation. */
  lemma OneFetchExact(env: Env, m: Manifest, d: Dir, order: seq<Name>, dirs: seq<Dir>)
    requires EncodingOk(env) && Plain(m) && Complete(env, m, d, order, dirs)
    ensures Converged(env, m, dirs[|dirs| - 1]) <==>
      forall name :: IsFilterName(name) && Exists(d, name) && OldLists(OldManifest(env, d), name) ==>
        Lists(m.files, name)
  {
    var d' := dirs[|dirs| - 1];
    FetchPostcondition(env, m, d, order, dirs);
    SpecialNames();
    hide Complete, HasFile, IsFilterName, IndexBytes, Plain;
    forall name | IsFilterName(name) && !Lists(m.files, name)
      ensures Exists(d', name) <==> Exists(d, name) && OldLists(OldManifest(env, d), name)
    {
      assert Unmentioned(env, m, d, name) || Unwanted(m, OldManifest(env, d), d, name);
    }
  }

  function NoFilters(): Manifest { Manifest(0, "", []) }

  /** Names of entries that are there, none twice, can be deleted one after the other. */
  lemma {:induction false} DeletesRun(env: Env, d: Dir, order: seq<Name>) returns (dirs: seq<Dir>)
    requires forall i :: 0 <= i < |order| ==> Exists(d, order[i])
    requires forall i, j :: 0 <= i < j < |order| ==> order[i] != order[j]
    ensures Trace(env, Deletes(order), dirs) && |dirs| == |order| + 1 && dirs[0] == d
    decreases |order|
  {
    if order == [] {
      return [d];
    }
    var d' := Remove(d, order[0]);
    assert forall i :: 0 <= i < |order| - 1 ==> order[1..][i] == order[i + 1];
    var rest := DeletesRun(env, d', order[1..]);
    dirs := [d] + rest;
    hide Remove, Exists;
    forall i | 0 <= i < |dirs| - 1
      ensures StepOk(env, dirs[i], Deletes(order)[i], dirs[i + 1])
    {
      if i > 0 {
        assert Deletes(order)[i] == Deletes(order[1..])[i - 1];
      }
    }
  }

  /** Some order in which the unwanted files could be deleted. */
  lemma {:induction false} SomeOrder(names: set<Name>) returns (order: seq<Name>)
    ensures forall name :: name in order <==> name in names
    ensures forall i, j :: 0 <= i < j < |order| ==> order[i] != order[j]
    decreases names
  {
    if names == {} {
      return [];
    }
    var name :| name in names;
    var rest := SomeOrder(names - {name});
    order := [name] + rest;
    assert forall i :: 0 <= i < |rest| ==> rest[i] in rest;
  }

  lemma UnwantedOrder(m: Manifest, prior: Option<Manifest>, d: Dir) returns (order: seq<Name>)
    requires d.Present?
    ensures DeletionOrder(order, m, prior, d)
  {
    hide IsFilterName;
    order := SomeOrder(set name | name in d.files.Keys + d.unreadable && Unwanted(m, prior, d, name));
  }

  /** Where every listed file is in place a fetch can run to its end. */
  lemma FetchInPlace(env: Env, m: Manifest, d: Dir) returns (order: seq<Name>, dirs: seq<Dir>)
    requires d.Present? && forall f :: f in m.files ==> HasFile(d, f)
    ensures Complete(env, m, d, order, dirs)
  {
    order := UnwantedOrder(m, OldManifest(env, d), d);
    SpecialNames();
    NoDownloadsInPlace(m, d);
    hide IsFilterName, IndexBytes, OldManifest, HasFile, Downloads;
    var data := IndexBytes(m.files, d.files, env.p);
    var d1 := if data.Some? then Put(d, INDEX_BIN, data.value) else d;
    var d2 := Put(d1, MANIFEST_JSON, env.encode(m));
    forall i | 0 <= i < |order|
      ensures Exists(d2, order[i])
    {
      assert order[i] in order;
    }
    var rest := DeletesRun(env, d2, order);
    dirs := [d, d1] + rest;
    JoinSaves(env, m, d, d1, order, rest);
  }

  lemma NoDownloadsInPlace(m: Manifest, d: Dir)
    requires forall f :: f in m.files ==> HasFile(d, f)
    ensures Downloads(m.files, d) == []
  {
    hide HasFile;
    DownloadsAre(m.files, d);
    FirstMember(Downloads(m.files, d));
  }

  lemma JoinSaves(env: Env, m: Manifest, d: Dir, d1: Dir, order: seq<Name>, rest: seq<Dir>)
    requires d.Present? && Downloads(m.files, d) == []
    requires Trace(env, Deletes(order), rest) && |rest| == |order| + 1
    requires StepOk(env, d, SaveIndex(m), d1) && StepOk(env, d1, SaveManifest(m), rest[0])
    ensures Trace(env, PlanOf(m, d, order), [d, d1] + rest) && |PlanOf(m, d, order)| == |order| + 2
  {
    var plan, dirs := PlanOf(m, d, order), [d, d1] + rest;
    hide StepOk, Deletes, Downloads;
    assert plan == [SaveIndex(m), SaveManifest(m)] + Deletes(order);
    hide PlanOf;
    forall i | 0 <= i < |dirs| - 1
      ensures StepOk(env, dirs[i], plan[i], dirs[i + 1])
    {
      if i >= 2 {
        assert dirs[i] == rest[i - 2] && dirs[i + 1] == rest[i - 1] && plan[i] == Deletes(order)[i - 2];
      }
    }
  }

  const A_FILTER: Name := [0x61] + FILTER_SUFFIX

  function OneFilter(): Manifest { Manifest(0, "", [ManifestFile(A_FILTER, 0, [])]) }

  /** Such a file does keep one fetch from being enough: the manifest on disk lists "a.filter", the
      one served lists nothing. */
  lemma OneFetchNotEnough(env: Env) returns (d: Dir, order: seq<Name>, dirs: seq<Dir>)
    requires env.decode(env.encode(OneFilter())) == Some(OneFilter())
    ensures Plain(NoFilters()) && Complete(env, NoFilters(), d, order, dirs)
    ensures !Converged(env, NoFilters(), dirs[|dirs| - 1])
  {
    var m, kept := NoFilters(), OneFilter();
    SpecialNames();
    assert A_FILTER[|A_FILTER| - |FILTER_SUFFIX|..] == FILTER_SUFFIX;
    assert IsFilterName(A_FILTER) && kept.files[0].filename == A_FILTER;
    hide IsFilterName, IndexBytes, HasFile, Complete, TwoFiles, OneFilter;
    d := TwoFiles(MANIFEST_JSON, env.encode(kept), A_FILTER, []);
    assert OldManifest(env, d) == Some(kept);
    order, dirs := FetchInPlace(env, m, d);
    FetchPostcondition(env, m, d, order, dirs);
    assert Unmentioned(env, m, d, A_FILTER);
  }

  function TwoFiles(n0: Name, c0: Bytes, n1: Name, c1: Bytes): (d: Dir)
    requires n0 != n1
    ensures d.Present? && Lookup(d, n0) == Some(c0) && Lookup(d, n1) == Some(c1)
    ensures forall name :: Exists(d, name) <==> name == n0 || name == n1
  {
    Present(map[n0 := c0, n1 := c1], {})
  }

  /** From any directory at all, two successful fetches of one manifest converge on it. */
  lemma TwoFetchesConverge(env: Env, m: Manifest, d: Dir, order: seq<Name>, dirs: seq<Dir>,
                           order': seq<Name>, dirs': seq<Dir>)
    requires EncodingOk(env) && Plain(m)
    requires Complete(env, m, d, order, dirs) && Complete(env, m, dirs[|dirs| - 1], order', dirs')
    ensures Converged(env, m, dirs'[|dirs'| - 1])
    ensures forall name :: IsFilterName(name) ==>
      (Exists(dirs'[|dirs'| - 1], name) <==> Lists(m.files, name))
  {
    FetchPostcondition(env, m, d, order, dirs);
    SecondFetch(env, m, dirs[|dirs| - 1], order', dirs');
    hide Complete, HasFile, IsFilterName, IndexBytes, Plain;
    var d' := dirs'[|dirs'| - 1];
    forall name | Lists(m.files, name)
      ensures Exists(d', name)
    {
      var i :| 0 <= i < |m.files| && m.files[i].filename == name;
      HasFileIsThere(d', m.files[i]);
    }
  }

  lemma HasFileIsThere(d: Dir, f: ManifestFile)
    requires HasFile(d, f)
    ensures Exists(d, f.filename)
  {
  }

  lemma ConvergedPlan(env: Env, m: Manifest, d: Dir, order: seq<Name>)
    requires Converged(env, m, d) && DeletionOrder(order, m, OldManifest(env, d), d)
    ensures PlanOf(m, d, order) == [SaveIndex(m), SaveManifest(m)]
  {
    hide HasFile, IsFilterName;
    DownloadsAre(m.files, d);
    FirstMember(Downloads(m.files, d));
    FirstMember(order);
    assert Downloads(m.files, d) == [] && order == [];
  }

  lemma FirstMember<T>(s: seq<T>)
    ensures s == [] || s[0] in s
  {
  }

  /** After that nothing is downloaded or deleted: a plan only rewrites the index and the manifest,
      and running it leaves all this as it is. */
  lemma ConvergedStays(env: Env, m: Manifest, d: Dir, order: seq<Name>, dirs: seq<Dir>)
    requires EncodingOk(env) && Plain(m) && Converged(env, m, d) && Complete(env, m, d, order, dirs)
    ensures PlanOf(m, d, order) == [SaveIndex(m), SaveManifest(m)]
    ensures Converged(env, m, dirs[|dirs| - 1])
  {
    ConvergedPlan(env, m, d, order);
    SecondFetch(env, m, d, order, dirs);
  }
}
