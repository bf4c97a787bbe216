# Civitai creator sync — a Dafny model of its bookkeeping

`sync_and_report.py` keeps a local manifest of one creator's images on the
Civitai service up to date. Each run loads the previous manifest, crawls the
paginated image listing, keys the crawl by `str(id)`, and diffs it by identifier
against the manifest. It then downloads and converts the new images in a thread
pool, zips the successful ones, and saves the current catalog as the next
manifest. This project models that bookkeeping and proves its properties. The
network, the image codec, the thread pool and the file system are abstracted
into values.

Modules, one per stage:

- `Entries` (`entries.dfy`): the listing item `Entry`, with `id`, `url` and `username` as optional fields and the other fields kept opaque. It also holds identifiers as integers or strings, Python's `str()` of an integer written out in decimal, and Python truthiness.
- `Catalogs` (`catalogs.dfy`): the dict comprehension that keys the crawl, the two set differences, the `new_images` / `deleted_images_data` lists, and `load_manifest` / `save_manifest`. A Python set iterates in hash order, so the model picks an arbitrary order for it (`IterationOrder`).
- `Crawler` (`crawler.dfy`): the `while next_url` loop of `fetch_all_image_metadata`. The server's successive answers form a finite script of `Page(items, nextPage)` or `RequestFailed`.
- `Pipeline` (`pipeline.dfy`): the worker's guard and output name. Fetching, decoding and saving collapse into one `Outcome` per entry. This module also holds the pool returning jobs in any order, and the loop that collects `downloaded_filenames`.
- `Archiver` (`archiver.dfy`): the loop of `create_zip_archive` over a working area modelled as a set of names.
- `Sync` (`sync.dfy`): `main` composed from the stages above, including the keys that `generate_reports` reads: a new image without `url`, or a deleted entry without `id` or `username`, raises KeyError there before any image is processed and before the manifest is saved. It also covers the first run with an empty crawl, where nothing creates the output directory and saving the manifest fails.

## Model

| member | source | states |
|---|---|---|
| `Entries.IntTextInjective` | sync_and_report.py:169 | two integer ids produce the same `str(id)` key only when they are the same number, so "ids repeat" means the same id |
| `Catalogs.CatalogOf` | sync_and_report.py:169 | keying fails (KeyError) exactly when some crawled item has no `id`; otherwise every value is a crawled item, stored under its own `str(id)` |
| `Catalogs.CatalogKeys` | sync_and_report.py:169-170 | the current map's key set equals the set of `str(id)` over the crawled list |
| `Catalogs.CatalogLastWins` | sync_and_report.py:169 | when keys repeat, the item kept is the last one in the crawled list |
| `Catalogs.DiffIds` | sync_and_report.py:157-174 | new ids are current ids and deleted ids are prior ids; the two are disjoint; an id in both catalogs is in neither; every current id is new or prior, and every prior id is deleted or current |
| `Catalogs.DiffIgnoresPayload` | sync_and_report.py:173-174 | the diff depends only on the two key sets, never on payloads |
| `Catalogs.DiffSameKeys` | sync_and_report.py:173-174 | catalogs with the same key set give no additions and no removals |
| `Catalogs.IterationOrder` | sync_and_report.py:176-177 | iterating a set lists each of its elements exactly once, in some order |
| `Catalogs.EnumerationLength` | sync_and_report.py:176-177 | a list built by iterating a set is exactly as long as the set |
| `Catalogs.AddedEntries` | sync_and_report.py:176 | every entry of `new_images` is a crawled item whose key is not in the prior manifest, and the count equals the number of new ids |
| `Catalogs.AddedCoversNewIds` | sync_and_report.py:173-176 | each crawled key absent from the prior manifest has an entry in `new_images`, only such keys do, and no entry appears twice |
| `Catalogs.RemovedEntries` | sync_and_report.py:177 | `deleted_images_data` holds the prior manifest's entry for each deleted id, one per id, and the ids are not current |
| `Catalogs.LoadManifest` | sync_and_report.py:101-107 | a missing manifest loads as the empty map; an unreadable one is an error, never an empty map |
| `Catalogs.ManifestRoundTrip` | sync_and_report.py:101-111 | saving a catalog and loading it back gives the same catalog; this holds by construction of the manifest-file value, and says nothing about `json.dump` / `json.load` themselves |
| `Catalogs.SecondRunReportsNothing` | sync_and_report.py:156-174 | once the first run has saved `current_images_map`, a second run over the same crawl reports nothing new and nothing deleted; it follows directly from the manifest-file value and the two set differences |
| `Catalogs.FirstRunAddsEverything` | sync_and_report.py:106-107 | with no manifest, every current id is new and none is deleted; it follows directly from the manifest-file value and the two set differences |
| `Crawler.FetchAllImageMetadata` | sync_and_report.py:18-49 | returns `Crawled(script)`; the first request carries the query parameters; every later request follows the cursor of a non-empty previous page and carries none, and the crawl asks again after every such page; there are at most one more requests than answers |
| `Crawler.CrawledPrefix` | sync_and_report.py:25-43 | pages that lead on put their items, in page order, ahead of whatever the rest of the crawl returns |
| `Crawler.CrawlStops` | sync_and_report.py:25-46 | the crawl stops at an empty page, at an absent or empty `nextPage`, or at the first failed request; the items already gathered are kept |
| `Crawler.FailedSecondPageKeepsFirst` | sync_and_report.py:40-46 | a first page (of 200 items or any other number) whose follow-up request fails still yields exactly its items |
| `Pipeline.DownloadAndConvert` | sync_and_report.py:55-84 | an entry without a truthy `id` or `url` gets a message and writes no file; a file is written, and `None` returned, exactly when the entry is complete and conversion succeeds; the file is named `username_id.jpeg`, with `unknown` for a missing username |
| `Pipeline.DistinctKeysDistinctNames` | sync_and_report.py:72 | under one username, different ids give different file names |
| `Pipeline.NameInjective` | sync_and_report.py:72 | a name determines its username and id text when the id text has no `_` |
| `Pipeline.IntIdNamesInjective` | sync_and_report.py:72 | with integer ids, different (username, id) pairs never share a file name |
| `Pipeline.CompleteInAnyOrder` | sync_and_report.py:195-199 | `as_completed` yields every submitted job exactly once, in an order of its choosing |
| `Pipeline.CollectResults` | sync_and_report.py:198-208 | the collecting loop appends, in completion order, the file name of each job whose worker returned `None`, and nothing for the others (corrected collection, see Findings) |
| `Pipeline.CollectedMembers` | sync_and_report.py:199-206 | the collected names are exactly the names of the files that successful workers wrote |
| `Pipeline.CollectedPermutation` | sync_and_report.py:195-208 | any two completion orders of the same jobs collect the same names, each the same number of times |
| `Pipeline.FailureIsolated` | sync_and_report.py:201-208 | a failing job adds nothing and does not stop the jobs completed after it |
| `Pipeline.AsWrittenDropsUnnamedSuccess` | sync_and_report.py:199-208 | the code as written drops the file `unknown_5.jpeg` of a converted entry with no username (see Findings) |
| `Pipeline.AsWrittenAgreesWithUsernames` | sync_and_report.py:206 | when every entry has a username, the loop as written and the corrected loop collect the same list |
| `Archiver.CreateZipArchive` | sync_and_report.py:86-94 | the archive members are the listed names that exist in the working area, in list order, each under its bare name |
| `Archiver.SelectedMembers` | sync_and_report.py:91-94 | a name is in the archive exactly when it is listed and exists, and the archive never has more members than names listed |
| `Archiver.SelectedAllPresent` | sync_and_report.py:91-94 | when every listed file exists, the archive holds the whole list |
| `Sync.ProcessNewImages` | sync_and_report.py:187-213 | the collected names are the files the workers wrote, each as often as some completion order gives it; an archive exists exactly when that list is non-empty, and it then holds exactly the list (corrected collection, see Findings) |
| `Sync.GenerateReports` | sync_and_report.py:114-144 | the report loops complete exactly when every new image has `id` and `url` and every deleted entry has `id` and `username`; otherwise they raise KeyError |
| `Sync.ReportableInAnyOrder` | sync_and_report.py:176-183 | whether the reports can be written depends only on the prior and current catalogs, not on the order in which the id sets were iterated |
| `Sync.RemovedUnnamedEntryBlocksReports` | sync_and_report.py:133 | a removed manifest entry without `username` makes the reports raise, so while it stays in the manifest and out of the crawl no run saves a new manifest |
| `Sync.Run` | sync_and_report.py:146-222 | the run ends with an error exactly when the manifest is unreadable, a crawled item has no `id`, an added or removed entry lacks a key the reports print, or a first run with an empty crawl finds no output directory to save the manifest in; otherwise the new manifest is the current catalog, the diff and the two entry lists are as above, and the download and archive results are those of `ProcessNewImages` (corrected collection, see Findings) |

## Findings

| source | as written | input that shows it | evidently intended | confidence | as-written member | corrected member |
|---|---|---|---|---|---|---|
| sync_and_report.py:206 | builds the name from `img_data['username']`. An entry without `username` raises KeyError there, caught at line 207, so nothing is appended. Yet its worker (lines 57, 72) has already written `unknown_<id>.jpeg` and returned `None` | entry `{id: 5, url: "https://image.example/5"}` with no `username`, conversion succeeds; `Pipeline.AsWrittenDropsUnnamedSuccess` | the collected name is the worker's own file name `unknown_5.jpeg`, so the converted image reaches the archive | medium; not executed | `Pipeline.CollectedAsWritten` | `Pipeline.Collected` |

`Pipeline.CollectResults` and `Sync.ProcessNewImages` use the corrected collection. `Pipeline.AsWrittenAgreesWithUsernames` proves that the two versions differ only for entries without a username.

Two consequences of the report loops come with this. First, a new image without a `url` key makes `generate_reports` raise at line 126 before the pool starts, so the worker's `url` guard (line 59) only ever sees a `url` that is present but falsy (empty, or null). Second, an entry without `username` that was saved and later disappears from the crawl makes every later run raise at line 133, because no manifest is saved again (`Sync.RemovedUnnamedEntryBlocksReports`). These are stated as the code behaves; the intended behaviour is not evident from the code, so no corrected variant is modelled.

## Left out

- HTTP requests, `raise_for_status` and decoding the JSON body (lines 31-33, 63-64). Each listing answer is a `Response` value and each image's processing is an `Outcome` value. A body that is not JSON counts as `RequestFailed`, since it raises `requests`' JSONDecodeError, a RequestException (requests 2.27 and later); with older versions the plain ValueError escapes the handler at line 44 and ends the run, which is not modelled. A JSON body that is not an object is not modelled.
- Crawler termination. The source has no cap on iterations. A server that kept sending non-empty pages with a cursor would keep it looping forever. The model's answers are a finite script, and a request past its end fails.
- PIL decoding, RGBA-to-RGB flattening and JPEG encoding at a quality (lines 66-74). These are a foreign image codec, folded into `Outcome`. A file left half-written by a failed save is not modelled.
- `ThreadPoolExecutor`, `progress_lock` and the `download_progress` counter (lines 11-16, 76-84, 192-196). These are concurrency and progress output. Only the completion order is modelled, as an arbitrary permutation. A worker raising something other than `Exception` through `future.result()` is not modelled; the modelled raise is the KeyError at line 206.
- `zipfile` compression, file contents and `os.path.join` (lines 90-94). The working area is a set of names, and an archive is its list of member names. The exception that `create_zip_archive` catches and prints (lines 98-99) is not modelled.
- `json.dump` / `json.load` (lines 101-111). The manifest file is a value: missing, holding a catalog, or unreadable. Both this code and the model overwrite the manifest directly; writing it atomically is not modelled.
- The text that `generate_reports` writes, `datetime.utcnow` and the zip file name (lines 114-144, 181-185, 211). These produce output only; the KeyError the reports raise on a missing key is modelled in `Sync.GenerateReports`.
- Cleanup of the temporary directory (lines 215-218). This is file-system housekeeping after the archive is built.
- Directories are reduced to one fact: whether the output directory exists when the manifest is saved. The `os.makedirs` calls at lines 115 and 190 create it; `Sync.Run` takes whether it existed before the run as a parameter.
- Sync.Run: the only failed write it models is the manifest's `open` at line 110 raising FileNotFoundError when no output directory exists and nothing was reported (a first run whose crawl is empty). Failures from permissions, a full disk or a path that is not a directory, in the manifest, the reports, the downloads or the archive, are not modelled.
- `argparse`, the manifest file name and all `print` logging, including the request URL printed at line 28 (lines 149-154, 227-239).
- Identifier values other than integers and strings (JSON null, booleans, floats), a `username` key present with a null value, and a `url` key present with a null value (which the worker's guard would reject like an empty one). The service sends integer ids and string usernames and urls.
- A missing manifest and an unparseable one are kept apart, because `json.load` raises on the latter and the run stops.
