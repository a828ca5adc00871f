/** The bulk downloader (`download_images.py`): sort the catalog by file
    name, resume at a start name, and fetch every item's chosen URL into
    `<filename>.jpg` unless the field is missing or the file exists. */
module DownloadImages {
  import opened Lists
  import opened Records
  import opened Catalog

  datatype DownloadError = StartNameNotFound(name: string) // `ValueError("start_name ... not found")`

  /** `load_images`: the catalog sorted by `filename`, stably. */
  function LoadImages(catalog: seq<CatalogItem>): (r: seq<CatalogItem>)
    ensures multiset(r) == multiset(catalog)
    ensures SortedBy(r, FilenameOf)
    ensures forall name :: WithKey(r, FilenameOf, name) == WithKey(catalog, FilenameOf, name)
  {
    SortByStable(catalog, FilenameOf);
    SortBy(catalog, FilenameOf)
  }

  /** `[img["filename"] for img in images]`. */
  function Filenames(images: seq<CatalogItem>): (names: seq<string>)
    ensures |names| == |images| && forall k :: 0 <= k < |images| ==> names[k] == images[k].filename
  {
    seq(|images|, k requires 0 <= k < |images| => images[k].filename)
  }

  /** `i` is the first position of an item named `name`. */
  ghost predicate FirstNamed(images: seq<CatalogItem>, i: int, name: string)
  {
    0 <= i < |images| && images[i].filename == name
    && forall j :: 0 <= j < i ==> images[j].filename != name
  }

  /** `slice_from_start_name`: the items from the first one named
      `startName` on; an unknown name is an error. */
  function SliceFromStartName(images: seq<CatalogItem>, startName: string): (r: Result<seq<CatalogItem>, DownloadError>)
    ensures r.Err? <==> forall k :: 0 <= k < |images| ==> images[k].filename != startName
    ensures r.Err? ==> r.error == StartNameNotFound(startName)
    ensures r.Ok? ==> exists i :: FirstNamed(images, i, startName) && r.value == images[i..]
    ensures r.Ok? ==> r.value != [] && r.value[0].filename == startName
  {
    var names := Filenames(images);
    if startName !in names then Err(StartNameNotFound(startName))
    else
      var i := IndexOf(names, startName);
      assert FirstNamed(images, i, startName);
      Ok(images[i..])
  }

  /** `download_image(item, out_dir, img_type)`: the destination is
      `<filename>.jpg`, checked only once the field is known to be there. */
  function DownloadImage(item: CatalogItem, res: Resolution, existing: set<string>): (d: Decision)
    ensures res !in item.urls ==> d == NoField
    ensures d.Fetch? <==> res in item.urls && item.filename + ".jpg" !in existing
    ensures d.Fetch? ==> d == Fetch(item.urls[res], item.filename + ".jpg")
    ensures d != NotInSource
  {
    FieldThenDestination(item, res, item.filename + ".jpg", existing)
  }

  /** The decisions of one run, each taken against the files present when
      the run starts. */
  function Plan(images: seq<CatalogItem>, res: Resolution, existing: set<string>): (plan: seq<Decision>)
    ensures |plan| == |images|
    ensures forall k :: 0 <= k < |images| ==> plan[k] == DownloadImage(images[k], res, existing)
  {
    seq(|images|, k requires 0 <= k < |images| => DownloadImage(images[k], res, existing))
  }

  /** `main`: load, slice, then one decision per remaining item. */
  function DownloadMain(catalog: seq<CatalogItem>, startName: string, res: Resolution, existing: set<string>)
    : (r: Result<seq<Decision>, DownloadError>)
    ensures r.Err? <==> forall k :: 0 <= k < |catalog| ==> catalog[k].filename != startName
    ensures r.Ok? ==> SliceFromStartName(LoadImages(catalog), startName).Ok?
    ensures r.Ok? ==> var images := SliceFromStartName(LoadImages(catalog), startName).value;
                      r.value == Plan(images, res, existing)
  {
    var sorted := LoadImages(catalog);
    SameFilenames(catalog, sorted, startName);
    match SliceFromStartName(sorted, startName)
    case Err(e) => Err(e)
    case Ok(images) => Ok(Plan(images, res, existing))
  }

  lemma SameFilenames(a: seq<CatalogItem>, b: seq<CatalogItem>, name: string)
    requires multiset(a) == multiset(b)
    ensures (exists k :: 0 <= k < |a| && a[k].filename == name) <==> (exists k :: 0 <= k < |b| && b[k].filename == name)
  {
    forall k | 0 <= k < |a| && a[k].filename == name
      ensures exists m :: 0 <= m < |b| && b[m].filename == name
    {
      assert a[k] in multiset(b);
    }
    forall k | 0 <= k < |b| && b[k].filename == name
      ensures exists m :: 0 <= m < |a| && a[m].filename == name
    {
      assert b[k] in multiset(a);
    }
  }

  /** Running again over the same items after a run: an image whose fetch
      succeeded is now skipped as existing, and the only fetches left are the
      first run's fetches that failed. */
  lemma RerunFetchesOnlyFailures(images: seq<CatalogItem>, res: Resolution, existing: set<string>, fetched: string -> bool)
    ensures var first := Plan(images, res, existing);
            var second := Plan(images, res, existing + Written(first, fetched));
            forall k :: 0 <= k < |images| ==>
              && (first[k].Fetch? && fetched(first[k].url) ==> second[k] == Exists)
              && (second[k].Fetch? ==> second[k] == first[k] && !fetched(first[k].url))
  {
    var first := Plan(images, res, existing);
    var written := Written(first, fetched);
    forall k | 0 <= k < |images|
      ensures first[k].Fetch? && fetched(first[k].url) ==> first[k].dest in written
    {
    }
    forall k | 0 <= k < |images|
      ensures var d := DownloadImage(images[k], res, existing + written);
              d.Fetch? ==> d == first[k] && d.dest !in written
    {
      FetchOnlyIfStillMissing(images[k], res, images[k].filename + ".jpg", existing, written);
    }
  }
}
