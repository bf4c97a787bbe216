/** The catalog bookkeeping of one run: keying the crawled list by `str(id)`,
    the identifier-based diff against the prior manifest, the lists of added
    and removed entries, and loading and saving the manifest. */
module Catalogs {
  import opened Entries

  /** A catalog maps the text of an identifier to its entry. */
  type Catalog = map<string, Entry>

  /** The catalog key of an entry that has an id: `str(img['id'])`. */
  function Key(e: Entry): string
    requires e.id.Some?
  {
    IdText(e.id.value)
  }

  /** Every key the crawled items carry. */
  ghost function KeysOf(items: seq<Entry>): set<string>
  {
    set e | e in items && e.id.Some? :: Key(e)
  }

  /** `{str(img['id']): img for img in items}`, built left to right so that a
      later item with the same key replaces an earlier one. `None` is the
      KeyError that an item without an `id` raises, which ends the run. */
  function CatalogOf(items: seq<Entry>): (r: Option<Catalog>)
    ensures r.Some? <==> forall i :: 0 <= i < |items| ==> items[i].id.Some?
    ensures r.Some? ==> forall k :: k in r.value ==> r.value[k] in items
    ensures r.Some? ==> forall k :: k in r.value ==> r.value[k].id.Some? && Key(r.value[k]) == k
    decreases |items|
  {
    if items == [] then Some(map[])
    else
      var last := items[|items| - 1];
      match CatalogOf(items[..|items| - 1])
      case None => None
      case Some(m) => if last.id.None? then None else Some(m[Key(last) := last])
  }

  /** The key set of the current catalog is exactly the set of `str(id)` over the crawled list. */
  lemma {:induction false} CatalogKeys(items: seq<Entry>)
    requires CatalogOf(items).Some?
    ensures CatalogOf(items).value.Keys == KeysOf(items)
    decreases |items|
  {
    if items != [] {
      var init, last := items[..|items| - 1], items[|items| - 1];
      assert items == init + [last];
      CatalogKeys(init);
      assert KeysOf(items) == KeysOf(init) + {Key(last)};
    }
  }

  /** When keys repeat, the item that comes last in the crawled list is the one kept. */
  lemma {:induction false} CatalogLastWins(items: seq<Entry>, i: nat)
    requires forall j :: 0 <= j < |items| ==> items[j].id.Some?
    requires i < |items|
    requires forall j :: i < j < |items| ==> Key(items[j]) != Key(items[i])
    ensures CatalogOf(items).Some?
    ensures Key(items[i]) in CatalogOf(items).value
    ensures CatalogOf(items).value[Key(items[i])] == items[i]
    decreases |items|
  {
    var init := items[..|items| - 1];
    if i < |items| - 1 {
      CatalogLastWins(init, i);
    }
  }

  /** The identifiers that are new in `current` and those gone from it. */
  datatype Diff = Diff(newIds: set<string>, deletedIds: set<string>)

  /** `current_image_ids - old_image_ids` and `old_image_ids - current_image_ids`:
      the added ids are current ids not known before, the deleted ids are
      known ids no longer current; an id present in both catalogs is in
      neither, whatever its payload. */
  function DiffIds(prior: Catalog, current: Catalog): (d: Diff)
    ensures d.newIds <= current.Keys && d.deletedIds <= prior.Keys
    ensures d.newIds !! d.deletedIds
    ensures forall k :: k in prior && k in current ==> k !in d.newIds && k !in d.deletedIds
    ensures current.Keys <= d.newIds + prior.Keys && prior.Keys <= d.deletedIds + current.Keys
  {
    Diff(current.Keys - prior.Keys, prior.Keys - current.Keys)
  }

  /** The diff looks at identifiers only: changing payloads changes nothing. */
  lemma DiffIgnoresPayload(prior: Catalog, current: Catalog, prior': Catalog, current': Catalog)
    requires prior.Keys == prior'.Keys && current.Keys == current'.Keys
    ensures DiffIds(prior, current) == DiffIds(prior', current')
  {
  }

  /** Two catalogs with the same identifiers differ by nothing. */
  lemma DiffSameKeys(prior: Catalog, current: Catalog)
    requires prior.Keys == current.Keys
    ensures DiffIds(prior, current) == Diff({}, {})
  {
  }

  /** `ids` lists every element of `s` once: one iteration order of a Python set. */
  ghost predicate Enumerates(ids: seq<string>, s: set<string>)
  {
    && (forall i, j :: 0 <= i < j < |ids| ==> ids[i] != ids[j])
    && (forall k :: k in s <==> k in ids)
  }

  /** A list that enumerates a set is as long as the set is large. */
  lemma {:induction false} EnumerationLength(ids: seq<string>, s: set<string>)
    requires Enumerates(ids, s)
    ensures |ids| == |s|
    decreases |ids|
  {
    if ids != [] {
      var init, last := ids[..|ids| - 1], ids[|ids| - 1];
      assert last !in init by {
        forall j | 0 <= j < |init| ensures init[j] != last {
          assert ids[j] == init[j];
        }
      }
      assert Enumerates(init, s - {last}) by {
        forall k ensures k in s - {last} <==> k in init {
          assert k in ids <==> k in init || k == last by { assert ids == init + [last]; }
        }
      }
      EnumerationLength(init, s - {last});
    }
  }

  /** Iterating over a Python set: the order is whatever the hash table
      gives, so the model picks any order. */
  method IterationOrder(s: set<string>) returns (ids: seq<string>)
    ensures Enumerates(ids, s)
  {
    ids := [];
    var rest := s;
    while rest != {}
      invariant rest <= s
      invariant forall k :: k in s <==> k in rest || k in ids
      invariant forall k :: k in ids ==> k !in rest
      invariant forall i, j :: 0 <= i < j < |ids| ==> ids[i] != ids[j]
      decreases |rest|
    {
      var k :| k in rest;
      ids := ids + [k];
      rest := rest - {k};
    }
  }

  /** `[catalog[id] for id in ids]`. */
  function Lookup(catalog: Catalog, ids: seq<string>): seq<Entry>
    requires forall i :: 0 <= i < |ids| ==> ids[i] in catalog
  {
    seq(|ids|, i requires 0 <= i < |ids| => catalog[ids[i]])
  }

  /** `new_images`: every added entry is a crawled item whose key is not in
      the prior manifest, and the list is as long as the set of new ids. */
  lemma AddedEntries(items: seq<Entry>, current: Catalog, prior: Catalog, order: seq<string>)
    requires CatalogOf(items) == Some(current)
    requires Enumerates(order, DiffIds(prior, current).newIds)
    ensures forall i :: 0 <= i < |order| ==> order[i] in current
    ensures |Lookup(current, order)| == |DiffIds(prior, current).newIds|
    ensures forall e :: e in Lookup(current, order) ==> e in items && e.id.Some? && Key(e) !in prior
  {
    var added := Lookup(current, order);
    assert |added| == |order|;
    EnumerationLength(order, DiffIds(prior, current).newIds);
    forall e | e in added ensures e in items && e.id.Some? && Key(e) !in prior {
      var i :| 0 <= i < |added| && added[i] == e;
      assert e == current[order[i]];
      assert Key(e) == order[i];
    }
  }

  /** Each crawled key that the prior manifest lacks has exactly one entry in
      `new_images`: one entry per new id, no two entries alike. */
  lemma AddedCoversNewIds(items: seq<Entry>, current: Catalog, prior: Catalog, order: seq<string>)
    requires CatalogOf(items) == Some(current)
    requires Enumerates(order, DiffIds(prior, current).newIds)
    ensures forall i :: 0 <= i < |order| ==> order[i] in current
    ensures forall k :: k in KeysOf(items) && k !in prior <==> exists i :: 0 <= i < |order| && Key(Lookup(current, order)[i]) == k
    ensures forall i, j :: 0 <= i < j < |order| ==> Lookup(current, order)[i] != Lookup(current, order)[j]
  {
    var added := Lookup(current, order);
    CatalogKeys(items);
    assert forall i :: 0 <= i < |order| ==> Key(added[i]) == order[i];
  }

  /** `deleted_images_data`: one entry of the prior manifest per deleted id. */
  lemma RemovedEntries(prior: Catalog, current: Catalog, order: seq<string>)
    requires Enumerates(order, DiffIds(prior, current).deletedIds)
    ensures forall i :: 0 <= i < |order| ==> order[i] in prior && order[i] !in current
    ensures |Lookup(prior, order)| == |DiffIds(prior, current).deletedIds|
    ensures forall i :: 0 <= i < |order| ==> Lookup(prior, order)[i] == prior[order[i]]
  {
    EnumerationLength(order, DiffIds(prior, current).deletedIds);
  }

  /** What the manifest path holds before the run. */
  datatype ManifestFile = Missing | Stored(catalog: Catalog) | Unreadable

  /** `load_manifest`: no file is a first run with an empty catalog; a file
      that does not parse makes `json.load` raise, which ends the run. */
  function LoadManifest(f: ManifestFile): (r: Option<Catalog>)
    ensures f.Missing? ==> r == Some(map[])
    ensures r.None? <==> f.Unreadable?
  {
    match f
    case Missing => Some(map[])
    case Stored(c) => Some(c)
    case Unreadable => None
  }

  /** `save_manifest`: the file then holds exactly the given catalog. */
  function SaveManifest(c: Catalog): ManifestFile
  {
    Stored(c)
  }

  /** Saving then loading gives back the same catalog. */
  lemma ManifestRoundTrip(c: Catalog)
    ensures LoadManifest(SaveManifest(c)) == Some(c)
  {
  }

  /** A second run against an unchanged catalog reports nothing new and
      nothing deleted, because the manifest saved by the first run is
      exactly its current catalog. */
  lemma SecondRunReportsNothing(items: seq<Entry>)
    requires CatalogOf(items).Some?
    ensures LoadManifest(SaveManifest(CatalogOf(items).value)).Some?
    ensures DiffIds(LoadManifest(SaveManifest(CatalogOf(items).value)).value, CatalogOf(items).value) == Diff({}, {})
  {
    ManifestRoundTrip(CatalogOf(items).value);
  }

  /** A first run, with no manifest yet, reports every current id as new and none as deleted. */
  lemma FirstRunAddsEverything(current: Catalog)
    ensures LoadManifest(Missing) == Some(map[])
    ensures DiffIds(LoadManifest(Missing).value, current) == Diff(current.Keys, {})
  {
  }
}
