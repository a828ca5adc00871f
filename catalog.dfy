/** The image catalog (`images_source.json`) and the skip-or-fetch decision
    that both downloaders take for one image. */
module Catalog {

  /** The `--type` choice: which URL of a catalog item to fetch. */
  datatype Resolution = Original | Thumb

  /** One catalog item: its `filename` and the URL fields it carries
      (`original`, `thumb`, either of which may be absent). */
  datatype CatalogItem = CatalogItem(filename: string, urls: map<Resolution, string>)

  function FilenameOf(item: CatalogItem): string
  {
    item.filename
  }

  /** What a download task does with one image; the message it returns is
      named in each case. */
  datatype Decision =
    | NotInSource                      // "[SKIP] <name> not found in images_source"
    | NoField                          // "[SKIP] <name> has no '<type>'"
    | Exists                           // "[SKIP] <name> exists"
    | Fetch(url: string, dest: string) // `requests.get(url)`, written to `dest`

  /** The checks both downloaders make on a catalog item, in this order: the
      item lacks the requested field; the destination file already exists;
      otherwise fetch. */
  function FieldThenDestination(item: CatalogItem, res: Resolution, dest: string, existing: set<string>): (d: Decision)
    ensures d.Fetch? <==> res in item.urls && dest !in existing
    ensures d.Fetch? ==> d.url == item.urls[res] && d.dest == dest
    ensures res !in item.urls ==> d == NoField
    ensures res in item.urls && dest in existing ==> d == Exists
  {
    if res !in item.urls then NoField
    else if dest in existing then Exists
    else Fetch(item.urls[res], dest)
  }

  /** The destinations a run writes: those of the fetches that succeed.
      `fetched(url)` stands for the network answering and the write
      succeeding. */
  ghost function Written(plan: seq<Decision>, fetched: string -> bool): set<string>
  {
    set k | 0 <= k < |plan| && plan[k].Fetch? && fetched(plan[k].url) :: plan[k].dest
  }

  /** With more files present a decision can only turn from a fetch into a
      skip: a fetch under the larger set is the same fetch under the smaller
      one, for a destination that was not added. */
  lemma FetchOnlyIfStillMissing(item: CatalogItem, res: Resolution, dest: string, existing: set<string>, added: set<string>)
    ensures FieldThenDestination(item, res, dest, existing + added).Fetch? ==>
              FieldThenDestination(item, res, dest, existing + added) == FieldThenDestination(item, res, dest, existing)
              && dest !in added
  {
  }
}
