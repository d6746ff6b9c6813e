/** Plans, steps and results of fetches, said of file contents, hashes and names themselves. */
module FetchInFull {
  import opened ByteStrings
  import opened IndexFormat
  import opened Revocation
  import opened IndexWrite
  import opened Fetch
  import opened FetchResult
  import F = Fips180

  // Names

  lemma SpecialNamesAre()
    ensures INDEX_BIN == Ascii("index.bin") && MANIFEST_JSON == Ascii("manifest.json")
    ensures FILTER_SUFFIX == Ascii(".filter") && DELTA_SUFFIX == Ascii(".delta")
  {
  }

  /** The old manifest is what the readable file "manifest.json" decodes to, if anything. */
  lemma OldManifestExactly(env: Env, d: Dir)
    ensures OldManifest(env, d) ==
      if d.Present? && Ascii("manifest.json") in d.files then env.decode(d.files[Ascii("manifest.json")]) else None
  {
    SpecialNamesAre();
  }

  /** Filter files are those whose names end in ".filter" or ".delta". */
  lemma FilterNamesExactly(name: Name)
    ensures IsFilterName(name) <==>
      (exists x: Bytes :: name == x + Ascii(".filter")) || (exists x: Bytes :: name == x + Ascii(".delta"))
  {
    SpecialNamesAre();
    EndsExactly(name, FILTER_SUFFIX);
    EndsExactly(name, DELTA_SUFFIX);
    hide EndsWith;
  }

  lemma EndsExactly(name: Name, suffix: Name)
    ensures EndsWith(name, suffix) <==> exists x: Bytes :: name == x + suffix
  {
    if EndsWith(name, suffix) {
      assert name == name[..|name| - |suffix|] + suffix;
    }
    if x: Bytes :| name == x + suffix {
      assert name[|name| - |suffix|..] == suffix;
    }
  }

  /** No file of the manifest has this name. */
  ghost predicate ListedNowhere(files: seq<ManifestFile>, name: Name) {
    forall f :: f in files ==> f.filename != name
  }

  lemma ListsExactly(files: seq<ManifestFile>, name: Name)
    ensures Lists(files, name) <==> !ListedNowhere(files, name)
  {
    if !ListedNowhere(files, name) {
      var f :| f in files && f.filename == name;
      var i :| 0 <= i < |files| && files[i] == f;
      assert files[i].filename == name;
    }
    if Lists(files, name) {
      var i :| 0 <= i < |files| && files[i].filename == name;
      assert files[i] in files;
    }
  }

  ghost predicate NamedAsFilter(name: Name) {
    (exists x: Bytes :: name == x + Ascii(".filter")) || (exists x: Bytes :: name == x + Ascii(".delta"))
  }

  // Plans

  /** What is deleted: entries named as filters that neither manifest lists. What is created: the
      directory, if there is none. (What is downloaded: `Fetch.DownloadsExactly`.) */
  lemma PlanExactly(env: Env, m: Manifest, d: Dir, order: seq<Name>)
    requires DeletionOrder(order, m, OldManifest(env, d), d)
    ensures var plan := PlanOf(m, d, order);
      (CreateDir in plan <==> d.Absent?) &&
      forall name :: Delete(name) in plan <==>
        d.Present? && (name in d.files || name in d.unreadable) && NamedAsFilter(name) &&
        ListedNowhere(m.files, name) &&
        (OldManifest(env, d).Some? ==> ListedNowhere(OldManifest(env, d).value.files, name))
  {
    var plan := PlanOf(m, d, order);
    DownloadsAre(m.files, d);
    DeletesAreOrder(order);
    hide Downloads, Deletes, OldManifest, IsFilterName, HasFile, NamedAsFilter, ListedNowhere, Lists;
    forall name
      ensures Delete(name) in plan <==>
        Exists(d, name) && NamedAsFilter(name) && ListedNowhere(m.files, name) &&
        (OldManifest(env, d).Some? ==> ListedNowhere(OldManifest(env, d).value.files, name))
    {
      InParts(Delete(name), if d.Absent? then [CreateDir] else [], Downloads(m.files, d),
              [SaveIndex(m), SaveManifest(m)], Deletes(order));
      NamedExactly(name);
      ListsExactly(m.files, name);
      if OldManifest(env, d).Some? {
        ListsExactly(OldManifest(env, d).value.files, name);
      }
    }
    InParts(CreateDir, if d.Absent? then [CreateDir] else [], Downloads(m.files, d),
            [SaveIndex(m), SaveManifest(m)], Deletes(order));
  }

  lemma NamedExactly(name: Name)
    ensures IsFilterName(name) <==> NamedAsFilter(name)
  {
    FilterNamesExactly(name);
    hide IsFilterName;
  }

  lemma DeletesAreOrder(order: seq<Name>)
    ensures forall s :: s in Deletes(order) <==> s.Delete? && s.name in order
  {
    assert forall i :: 0 <= i < |order| ==> Deletes(order)[i] == Delete(order[i]);
  }

  /** The order of the steps: the directory and the downloads, then index and manifest, each once, and
      then the deletions. */
  lemma PlanOrder(m: Manifest, d: Dir, order: seq<Name>) returns (at: nat)
    ensures var plan := PlanOf(m, d, order);
      at + 2 <= |plan| && plan[at] == SaveIndex(m) && plan[at + 1] == SaveManifest(m) &&
      (d.Absent? ==> plan[0] == CreateDir) &&
      (forall k :: 0 <= k < at ==> plan[k].CreateDir? || plan[k].Download?) &&
      (forall k :: at + 2 <= k < |plan| ==> plan[k].Delete?)
  {
    at := IndexStep(m, d);
    PlanShape(m, d, order);
    FirstStep(m, d, order);
    hide PlanOf, HasFile;
    var plan := PlanOf(m, d, order);
    forall k | at + 2 <= k < |plan|
      ensures plan[k].Delete?
    {
      assert plan[at + 2 + (k - at - 2)] == Delete(order[k - at - 2]);
    }
  }

  // Results

  /** After a fetch that succeeds every listed file is there with its listed hash, untouched if it was
      there with that hash before; the manifest is saved; entries named as filters that neither manifest
      lists are gone; and any other entry but the index is exactly as it was. */
  lemma FetchLeaves(env: Env, m: Manifest, d: Dir, order: seq<Name>, dirs: seq<Dir>)
    requires Plain(m) && Complete(env, m, d, order, dirs)
    ensures var d' := dirs[|dirs| - 1];
      d'.Present? &&
      (forall f :: f in m.files ==> f.filename in d'.files && F.Sha256(d'.files[f.filename]) == f.hash) &&
      (forall f :: f in m.files && d.Present? && f.filename in d.files && F.Sha256(d.files[f.filename]) == f.hash ==>
        d'.files[f.filename] == d.files[f.filename]) &&
      MANIFEST_JSON in d'.files && d'.files[MANIFEST_JSON] == env.encode(m)
  {
    var d' := dirs[|dirs| - 1];
    FetchPostcondition(env, m, d, order, dirs);
    hide Complete, HasFile, Unwanted, Unmentioned, IndexBytes, Plain, F.Sha256;
    forall f | f in m.files
      ensures f.filename in d'.files && F.Sha256(d'.files[f.filename]) == f.hash
      ensures d.Present? && f.filename in d.files && F.Sha256(d.files[f.filename]) == f.hash ==>
        d'.files[f.filename] == d.files[f.filename]
    {
      HasFileMeans(d, f);
      HasFileMeans(d', f);
    }
  }

  /** The name is neither listed by the manifest fetched nor special. */
  lemma FetchKeepsRest(env: Env, m: Manifest, d: Dir, order: seq<Name>, dirs: seq<Dir>, name: Name)
    requires Plain(m) && Complete(env, m, d, order, dirs)
    requires ListedNowhere(m.files, name) && name != Ascii("index.bin") && name != Ascii("manifest.json")
    ensures var d' := dirs[|dirs| - 1];
      var kept := !NamedAsFilter(name) ||
        (OldManifest(env, d).Some? && !ListedNowhere(OldManifest(env, d).value.files, name));
      d'.Present? &&
      (name in d'.files <==> kept && d.Present? && name in d.files) &&
      (name in d'.files ==> d'.files[name] == d.files[name]) &&
      (name in d'.files || name in d'.unreadable <==>
        kept && d.Present? && (name in d.files || name in d.unreadable))
  {
    FetchPostcondition(env, m, d, order, dirs);
    SpecialNamesAre();
    NamedExactly(name);
    ListsExactly(m.files, name);
    if OldManifest(env, d).Some? {
      ListsExactly(OldManifest(env, d).value.files, name);
    }
    hide Complete, HasFile, IndexBytes, Plain, F.Sha256, NamedAsFilter, ListedNowhere, Lists, IsFilterName, OldManifest;
    assert Unmentioned(env, m, d, name) || Unwanted(m, OldManifest(env, d), d, name);
  }
}
