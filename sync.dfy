/** One run of `main`: load the prior manifest, crawl, key the crawl by
    `str(id)`, diff the two catalogs, process the new images in the pool,
    archive the successes and save the current catalog as the next manifest.
    Of the reports only the keys they read are modelled: a missing one raises
    KeyError before any image is processed. Of the directories only whether
    the output directory exists when the manifest is saved is modelled.
    Logging produces no state the run reads back. */
module Sync {
  import opened Entries
  import opened Catalogs
  import opened Crawler
  import opened Pipeline
  import opened Archiver

  /** The four ways a run ends before saving anything: `json.load` failing
      on the prior manifest, a crawled item without `id` making the keying
      raise KeyError, `generate_reports` raising KeyError on an entry it
      lists without the key it prints, and `open(manifest_path, 'w')` raising
      FileNotFoundError because nothing created the output directory. */
  datatype RunError = ManifestCorrupt | ItemWithoutId | ReportFieldMissing | ManifestUnwritable

  /** The summary lists a new image by `img['id']` and `img['url']`. */
  predicate NewReportable(e: Entry)
  {
    e.id.Some? && e.url.Some?
  }

  /** The summary lists a deleted image by `img['id']` and `img['username']`. */
  predicate DeletedReportable(e: Entry)
  {
    e.id.Some? && e.username.Some?
  }

  /** The reports of a diff between `prior` and `current` can be written:
      every added entry and every removed entry carries the keys printed for it. */
  predicate ReportsWritable(prior: Catalog, current: Catalog)
  {
    && (forall k :: k in current && k !in prior ==> NewReportable(current[k]))
    && (forall k :: k in prior && k !in current ==> DeletedReportable(prior[k]))
  }

  /** `generate_reports`, as far as the run can observe it: its loops over the
      new and the deleted images complete exactly when every entry has the
      keys they read; the first entry lacking one raises KeyError, which
      nothing in `main` catches. */
  method GenerateReports(newImages: seq<Entry>, deletedImages: seq<Entry>) returns (completed: bool)
    ensures completed <==>
              (forall i :: 0 <= i < |newImages| ==> NewReportable(newImages[i])) &&
              (forall i :: 0 <= i < |deletedImages| ==> DeletedReportable(deletedImages[i]))
  {
    for i := 0 to |newImages|
      invariant forall j :: 0 <= j < i ==> NewReportable(newImages[j])
    {
      if !NewReportable(newImages[i]) {
        return false;
      }
    }
    for i := 0 to |deletedImages|
      invariant forall j :: 0 <= j < i ==> DeletedReportable(deletedImages[j])
    {
      if !DeletedReportable(deletedImages[i]) {
        return false;
      }
    }
    return true;
  }

  /** Whether the reports can be written does not depend on the order in
      which the two sets were iterated: it is a property of the two catalogs. */
  lemma ReportableInAnyOrder(prior: Catalog, current: Catalog, newOrder: seq<string>, deletedOrder: seq<string>)
    requires Enumerates(newOrder, DiffIds(prior, current).newIds)
    requires Enumerates(deletedOrder, DiffIds(prior, current).deletedIds)
    ensures forall i :: 0 <= i < |newOrder| ==> newOrder[i] in current
    ensures forall i :: 0 <= i < |deletedOrder| ==> deletedOrder[i] in prior
    ensures ReportsWritable(prior, current) <==>
              (forall i :: 0 <= i < |newOrder| ==> NewReportable(Lookup(current, newOrder)[i])) &&
              (forall i :: 0 <= i < |deletedOrder| ==> DeletedReportable(Lookup(prior, deletedOrder)[i]))
  {
    var added, removed := Lookup(current, newOrder), Lookup(prior, deletedOrder);
    if forall i :: 0 <= i < |newOrder| ==> NewReportable(added[i]) {
      forall k | k in current && k !in prior ensures NewReportable(current[k]) {
        var i :| 0 <= i < |newOrder| && newOrder[i] == k;
        assert added[i] == current[k];
      }
    }
    if forall i :: 0 <= i < |deletedOrder| ==> DeletedReportable(removed[i]) {
      forall k | k in prior && k !in current ensures DeletedReportable(prior[k]) {
        var i :| 0 <= i < |deletedOrder| && deletedOrder[i] == k;
        assert removed[i] == prior[k];
      }
    }
  }

  /** A removed entry without `username` (one the worker would have saved as
      `unknown_<id>.jpeg`) stops the reports, so while it stays in the saved
      manifest and out of the crawl, no run gets to save a new manifest. */
  lemma RemovedUnnamedEntryBlocksReports(prior: Catalog, current: Catalog, k: string)
    requires k in prior && k !in current && prior[k].username.None?
    ensures !ReportsWritable(prior, current)
  {
  }

  /** What a run produced: the diff, the two entry lists with the set
      iteration orders that built them, the collected file names, the archive
      members (when an archive was written) and the manifest file after the run. */
  datatype RunReport = RunReport(
    diff: Diff,
    newOrder: seq<string>,
    newImages: seq<Entry>,
    deletedOrder: seq<string>,
    deletedImages: seq<Entry>,
    downloadedFilenames: seq<string>,
    archive: Option<seq<string>>,
    manifest: ManifestFile)

  /** The jobs submitted to the pool, one per new image in list order;
      `codec` says what fetching and converting each image yields. */
  function JobsFor(images: seq<Entry>, codec: Entry -> Outcome): seq<Job>
  {
    seq(|images|, i requires 0 <= i < |images| => Job(images[i], codec(images[i])))
  }

  /** Lines 187-213 of `main`: run the pool over the new images, collect the
      names of the successes and, if there are any, archive them from the
      working area, where each successful worker has written its file. */
  method ProcessNewImages(newImages: seq<Entry>, codec: Entry -> Outcome, workArea: set<string>)
    returns (downloaded: seq<string>, archive: Option<seq<string>>)
    ensures multiset(downloaded) == multiset(Collected(JobsFor(newImages, codec)))
    ensures forall n :: n in downloaded <==> n in WrittenFiles(JobsFor(newImages, codec))
    ensures archive.Some? <==> downloaded != []
    ensures archive.Some? ==> archive.value == downloaded
  {
    var jobs := JobsFor(newImages, codec);
    downloaded, archive := [], None;
    if newImages == [] {
      return;
    }
    var done := CompleteInAnyOrder(jobs);
    downloaded := CollectResults(done);
    CollectedPermutation(done, jobs);
    CollectedMembers(done);
    assert forall j :: j in done <==> j in jobs by {
      forall j ensures j in done <==> j in jobs {
        assert j in done <==> j in multiset(done);
        assert j in jobs <==> j in multiset(jobs);
      }
    }
    assert forall n :: n in downloaded <==> n in WrittenFiles(jobs) by {
      forall n ensures n in downloaded <==> n in WrittenFiles(jobs) {
        if n in downloaded {
          var j :| j in done && Succeeds(j) && WrittenName(j) == n;
          assert j in jobs;
        }
        if n in WrittenFiles(jobs) {
          var j :| j in jobs && Succeeds(j) && WrittenName(j) == n;
          assert j in done;
        }
      }
    }
    var present := workArea + WrittenFiles(jobs);
    if downloaded != [] {
      var members := CreateZipArchive(present, downloaded);
      SelectedAllPresent(present, downloaded);
      archive := Some(members);
    }
  }

  /** `main`, with the service's listing answers as `script`, the per-image
      processing outcome as `codec` and the names already in the working
      area as `workArea`; `outputDirExists` says whether the output
      directory is there before the run. Every error leaves the manifest
      file as it was. */
  method Run(stored: ManifestFile, script: seq<Response>, codec: Entry -> Outcome, workArea: set<string>, outputDirExists: bool)
    returns (r: Result<RunReport, RunError>)
    ensures stored.Unreadable? ==> r == Err(ManifestCorrupt)
    ensures !stored.Unreadable? && CatalogOf(Crawled(script)).None? ==> r == Err(ItemWithoutId)
    ensures (!stored.Unreadable? && CatalogOf(Crawled(script)).Some? &&
             !ReportsWritable(LoadManifest(stored).value, CatalogOf(Crawled(script)).value))
            ==> r == Err(ReportFieldMissing)
    ensures stored.Missing? && !outputDirExists && Crawled(script) == [] ==> r == Err(ManifestUnwritable)
    ensures r.Ok? <==>
              && !stored.Unreadable?
              && CatalogOf(Crawled(script)).Some?
              && ReportsWritable(LoadManifest(stored).value, CatalogOf(Crawled(script)).value)
              && !(stored.Missing? && !outputDirExists && Crawled(script) == [])
    ensures r.Ok? ==>
              var prior, current := LoadManifest(stored).value, CatalogOf(Crawled(script)).value;
              var rep := r.value;
              && rep.manifest == SaveManifest(current)
              && rep.diff == DiffIds(prior, current)
              && Enumerates(rep.newOrder, rep.diff.newIds)
              && rep.newImages == Lookup(current, rep.newOrder)
              && Enumerates(rep.deletedOrder, rep.diff.deletedIds)
              && rep.deletedImages == Lookup(prior, rep.deletedOrder)
              && multiset(rep.downloadedFilenames) == multiset(Collected(JobsFor(rep.newImages, codec)))
              && (forall n :: n in rep.downloadedFilenames <==> n in WrittenFiles(JobsFor(rep.newImages, codec)))
              && (rep.archive.Some? <==> rep.downloadedFilenames != [])
              && (rep.archive.Some? ==> rep.archive.value == rep.downloadedFilenames)
  {
    var loaded := LoadManifest(stored);
    if loaded.None? {
      return Err(ManifestCorrupt);
    }
    var prior := loaded.value;
    var items, _ := FetchAllImageMetadata(script);
    var keyed := CatalogOf(items);
    if keyed.None? {
      return Err(ItemWithoutId);
    }
    var current := keyed.value;
    var diff := DiffIds(prior, current);
    var newOrder := IterationOrder(diff.newIds);
    var newImages := Lookup(current, newOrder);
    var deletedOrder := IterationOrder(diff.deletedIds);
    var deletedImages := Lookup(prior, deletedOrder);
    ReportableInAnyOrder(prior, current, newOrder, deletedOrder);
    if newImages != [] || deletedImages != [] {
      var completed := GenerateReports(newImages, deletedImages);
      if !completed {
        return Err(ReportFieldMissing);
      }
    }
    var downloaded, archive := ProcessNewImages(newImages, codec, workArea);
    // The manifest sits in the output directory; `makedirs` of the reports
    // directory (line 115) and of the download directory (line 190) create
    // it too, and they run exactly when there is something to report.
    AddedEntries(items, current, prior, newOrder);
    RemovedEntries(prior, current, deletedOrder);
    CatalogKeys(items);
    if items != [] {
      assert Key(items[0]) in KeysOf(items);
    }
    var outputDirMade := outputDirExists || !stored.Missing? || newImages != [] || deletedImages != [];
    if !outputDirMade {
      return Err(ManifestUnwritable);
    }
    r := Ok(RunReport(diff, newOrder, newImages, deletedOrder, deletedImages, downloaded, archive, SaveManifest(current)));
  }
}
