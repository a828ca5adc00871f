/** The selective matcher (`select_images.py`): one reference embedding from
    a directory of reference photos, the sorted names of the stored images
    with a face scoring at least the threshold against it, and the download
    of those names from the catalog. */
module SelectImages {
  import opened Strings
  import opened Lists
  import opened Records
  import opened Catalog

  /** The default of `--threshold`. */
  const DEFAULT_THRESHOLD: real := 0.8

  /** What `mtcnn(img)` (single face) and the embedder give for one
      reference photo: it raised, no face, or the embedding of its face. */
  datatype RefDetection =
    | DetectRaised(reason: string)
    | NoRefFace
    | RefFace(embedding: Vector)

  datatype SelectError =
    | ReferenceRaised(reason: string) // an exception out of a reference photo
    | NoReferenceFace                 // `RuntimeError("No face detected in reference images")`

  // ---------------------------------------------------------------------
  // Reference faces

  /** The embeddings `build_reference_embedding` collects from the directory
      entries, in directory order, or the first exception. */
  function ReferenceScan(entries: seq<string>, detect: string -> RefDetection): Result<seq<Vector>, string>
  {
    if entries == [] then Ok([])
    else if !HasImageSuffix(entries[0]) then ReferenceScan(entries[1..], detect)
    else
      match detect(entries[0])
      case DetectRaised(reason) => Err(reason)
      case NoRefFace => ReferenceScan(entries[1..], detect)
      case RefFace(v) => Prepend([v], ReferenceScan(entries[1..], detect))
  }

  function Prepend(vs: seq<Vector>, r: Result<seq<Vector>, string>): Result<seq<Vector>, string>
  {
    match r
    case Err(reason) => Err(reason)
    case Ok(ws) => Ok(vs + ws)
  }

  lemma PrependNothing(r: Result<seq<Vector>, string>)
    ensures Prepend([], r) == r
  {
    if r.Ok? {
      assert [] + r.value == r.value;
    }
  }

  lemma PrependTwice(us: seq<Vector>, vs: seq<Vector>, r: Result<seq<Vector>, string>)
    ensures Prepend(us, Prepend(vs, r)) == Prepend(us + vs, r)
  {
    if r.Ok? {
      assert us + (vs + r.value) == (us + vs) + r.value;
    }
  }

  /** The loop of `build_reference_embedding` and its empty check; the mean of
      the collected embeddings is left to the caller. */
  method BuildReference(entries: seq<string>, detect: string -> RefDetection) returns (r: Result<seq<Vector>, SelectError>)
    ensures ReferenceScan(entries, detect).Err? ==> r == Err(ReferenceRaised(ReferenceScan(entries, detect).error))
    ensures ReferenceScan(entries, detect) == Ok([]) ==> r == Err(NoReferenceFace)
    ensures r.Ok? ==> r.value != [] && ReferenceScan(entries, detect) == Ok(r.value)
    ensures ReferenceScan(entries, detect).Ok? && ReferenceScan(entries, detect).value != [] ==>
              r == Ok(ReferenceScan(entries, detect).value)
  {
    var embeddings: seq<Vector> := [];
    assert entries[0..] == entries;
    PrependNothing(ReferenceScan(entries, detect));
    for k := 0 to |entries|
      invariant ReferenceScan(entries, detect) == Prepend(embeddings, ReferenceScan(entries[k..], detect))
    {
      assert entries[k..][1..] == entries[k + 1..];
      var path := entries[k];
      if HasImageSuffix(path) {
        var face := detect(path);
        if face.DetectRaised? {
          return Err(ReferenceRaised(face.reason));
        } else if face.RefFace? {
          PrependTwice(embeddings, [face.embedding], ReferenceScan(entries[k + 1..], detect));
          embeddings := embeddings + [face.embedding];
        }
      }
    }
    assert entries[|entries|..] == [];
    assert embeddings + [] == embeddings;
    if embeddings == [] {
      return Err(NoReferenceFace);
    }
    r := Ok(embeddings);
  }

  /** Files without an image extension play no part: the scan of a directory
      is the scan of its image entries. */
  lemma {:induction false} ReferenceScanImagesOnly(entries: seq<string>, detect: string -> RefDetection)
    ensures ReferenceScan(entries, detect) == ReferenceScan(ImageEntries(entries), detect)
  {
    if entries != [] {
      ReferenceScanImagesOnly(entries[1..], detect);
      if HasImageSuffix(entries[0]) {
        assert ImageEntries(entries)[0] == entries[0];
        assert ImageEntries(entries)[1..] == ImageEntries(entries[1..]);
      } else {
        assert ImageEntries(entries) == ImageEntries(entries[1..]);
      }
    }
  }

  /** Photos without a face are skipped: unless an exception occurred, no
      reference embedding is collected exactly when no image entry shows a
      face. */
  lemma {:induction false} NoFaceCollectedIff(entries: seq<string>, detect: string -> RefDetection)
    requires ReferenceScan(entries, detect).Ok?
    ensures ReferenceScan(entries, detect).value == [] <==>
              forall k :: 0 <= k < |entries| && HasImageSuffix(entries[k]) ==> !detect(entries[k]).RefFace?
  {
    if entries != [] {
      ReferenceScanImagesOnly(entries, detect);
      if !HasImageSuffix(entries[0]) || detect(entries[0]).NoRefFace? {
        NoFaceCollectedIff(entries[1..], detect);
        forall k | 1 <= k < |entries|
          ensures entries[k] == entries[1..][k - 1]
        {
        }
      }
    }
  }

  // ---------------------------------------------------------------------
  // Matching

  /** Stored face `i` belongs to image `name` and scores at least the
      threshold against the reference. */
  ghost predicate MatchAt(items: seq<FaceEntry>, reference: Vector, score: Score, threshold: real, i: int, name: string)
  {
    0 <= i < |items| && items[i].name == name && score(reference, items[i].embedding) >= threshold
  }

  /** No stored face reaches the threshold against the reference. */
  ghost predicate NoneMatch(items: seq<FaceEntry>, reference: Vector, score: Score, threshold: real)
  {
    forall i :: 0 <= i < |items| ==> score(reference, items[i].embedding) < threshold
  }

  /** `names` is the answer of `find_matching_images`: ascending, each once,
      exactly the images with a face reaching the threshold. */
  ghost predicate Selected(names: seq<string>, items: seq<FaceEntry>, reference: Vector, score: Score, threshold: real)
  {
    && StrictlyAscending(names)
    && forall n :: n in names <==> exists i :: MatchAt(items, reference, score, threshold, i, n)
  }

  /** The selection is empty exactly when no stored face reaches the
      threshold, so "No matches found." is printed in that case only. */
  lemma NoneMatchIff(names: seq<string>, items: seq<FaceEntry>, reference: Vector, score: Score, threshold: real)
    requires Selected(names, items, reference, score, threshold)
    ensures names == [] <==> NoneMatch(items, reference, score, threshold)
  {
    if names == [] {
      forall i | 0 <= i < |items|
        ensures !MatchAt(items, reference, score, threshold, i, items[i].name)
      {
        assert items[i].name !in names;
      }
    } else {
      assert names[0] in names;
      var i :| MatchAt(items, reference, score, threshold, i, names[0]);
    }
  }

  /** With the default `--threshold`, an image with a face scoring exactly 0.8
      is selected (`sim >= threshold`), and one whose faces all score below
      it is not. */
  lemma DefaultThresholdInclusive(names: seq<string>, items: seq<FaceEntry>, reference: Vector, score: Score, i: int)
    requires Selected(names, items, reference, score, DEFAULT_THRESHOLD)
    requires 0 <= i < |items|
    ensures score(reference, items[i].embedding) == DEFAULT_THRESHOLD ==> items[i].name in names
    ensures (forall j :: 0 <= j < |items| && items[j].name == items[i].name ==>
               score(reference, items[j].embedding) < DEFAULT_THRESHOLD) ==> items[i].name !in names
  {
    if score(reference, items[i].embedding) == DEFAULT_THRESHOLD {
      assert MatchAt(items, reference, score, DEFAULT_THRESHOLD, i, items[i].name);
    }
  }

  /** The iteration `sorted` makes over a set: every element once. */
  method ListSet(m: set<string>) returns (s: seq<string>)
    ensures multiset(s) == multiset(m)
  {
    s := [];
    var rest := m;
    while rest != {}
      invariant multiset(s) + multiset(rest) == multiset(m)
      decreases rest
    {
      var x :| x in rest;
      assert rest == (rest - {x}) + {x};
      s := s + [x];
      rest := rest - {x};
    }
  }

  /** `find_matching_images`: the names of the images having at least one
      stored face that scores at least the threshold, ascending, each once. */
  method FindMatchingImages(items: seq<FaceEntry>, reference: Vector, score: Score, threshold: real)
    returns (names: seq<string>)
    ensures Selected(names, items, reference, score, threshold)
  {
    var matched: set<string> := {};
    for i := 0 to |items|
      invariant forall n :: n in matched <==> exists j :: j < i && MatchAt(items, reference, score, threshold, j, n)
    {
      if score(reference, items[i].embedding) >= threshold {
        assert MatchAt(items, reference, score, threshold, i, items[i].name);
        matched := matched + {items[i].name};
      }
      assert forall n :: (exists j :: j < i + 1 && MatchAt(items, reference, score, threshold, j, n)) <==>
                         (exists j :: j < i && MatchAt(items, reference, score, threshold, j, n))
                         || MatchAt(items, reference, score, threshold, i, n);
    }
    var listed := ListSet(matched);
    names := SortBy(listed, Id);
    assert forall x :: multiset(names)[x] <= 1;
    CountsOnceDistinct(names);
    SortedDistinctAscending(names);
    assert forall n :: n in names <==> n in multiset(matched);
  }

  // ---------------------------------------------------------------------
  // Download

  /** The key of a catalog item in the index: `item["filename"] + ".jpg"`. */
  function JpgName(item: CatalogItem): string
  {
    item.filename + ".jpg"
  }

  /** `index = {item["filename"] + ".jpg": item for item in source}`. */
  function IndexByJpgName(source: seq<CatalogItem>): map<string, CatalogItem>
  {
    if source == [] then map[]
    else IndexByJpgName(source[..|source| - 1])[JpgName(source[|source| - 1]) := source[|source| - 1]]
  }

  /** Every item of the catalog is reachable under its `.jpg` name, and only
      those names are keys. */
  lemma {:induction false} IndexKeys(source: seq<CatalogItem>)
    ensures forall i :: 0 <= i < |source| ==> JpgName(source[i]) in IndexByJpgName(source)
    ensures forall name :: name in IndexByJpgName(source) ==> exists i :: 0 <= i < |source| && JpgName(source[i]) == name
  {
    if source != [] {
      var init := source[..|source| - 1];
      IndexKeys(init);
      forall i | 0 <= i < |init|
        ensures JpgName(source[i]) in IndexByJpgName(source)
      {
        assert source[i] == init[i];
      }
      forall name | name in IndexByJpgName(source)
        ensures exists i :: 0 <= i < |source| && JpgName(source[i]) == name
      {
        if name != JpgName(source[|source| - 1]) {
          assert name in IndexByJpgName(init);
          var i :| 0 <= i < |init| && JpgName(init[i]) == name;
          assert source[i] == init[i];
        }
      }
    }
  }

  /** Of items sharing a file name the later one wins, as in a dictionary
      comprehension. */
  lemma {:induction false} IndexKeepsLast(source: seq<CatalogItem>)
    ensures forall name :: name in IndexByJpgName(source) ==>
              exists i :: LastNamed(source, i, name) && IndexByJpgName(source)[name] == source[i]
  {
    if source != [] {
      var init := source[..|source| - 1];
      var last := source[|source| - 1];
      IndexKeepsLast(init);
      forall name | name in IndexByJpgName(source)
        ensures exists i :: LastNamed(source, i, name) && IndexByJpgName(source)[name] == source[i]
      {
        if name == JpgName(last) {
          assert LastNamed(source, |source| - 1, name);
        } else {
          assert name in IndexByJpgName(init);
          var i :| LastNamed(init, i, name) && IndexByJpgName(init)[name] == init[i];
          assert LastNamed(source, i, name);
        }
      }
    }
  }

  /** Item `i` is the last of `source` whose key `filename + ".jpg"` is `name`:
      the dictionary comprehension keeps the later of repeated keys. */
  ghost predicate LastNamed(source: seq<CatalogItem>, i: int, name: string)
  {
    0 <= i < |source| && JpgName(source[i]) == name
    && forall j :: i < j < |source| ==> JpgName(source[j]) != name
  }

  /** `download(name)`: not in the index; then no such field; then the
      destination `<output_dir>/<name>` exists; only then fetch. */
  function Download(name: string, index: map<string, CatalogItem>, res: Resolution, existing: set<string>): (d: Decision)
    ensures name !in index ==> d == NotInSource
    ensures name in index && res !in index[name].urls ==> d == NoField
    ensures name in index && res in index[name].urls && name in existing ==> d == Exists
    ensures d.Fetch? <==> name in index && res in index[name].urls && name !in existing
    ensures d.Fetch? ==> d == Fetch(index[name].urls[res], name)
  {
    if name !in index then NotInSource
    else FieldThenDestination(index[name], res, name, existing)
  }

  /** The decisions of `download_images` for the selected names, each taken
      against the files present when the run starts. */
  function Plan(names: seq<string>, index: map<string, CatalogItem>, res: Resolution, existing: set<string>): (plan: seq<Decision>)
    ensures |plan| == |names|
    ensures forall k :: 0 <= k < |names| ==> plan[k] == Download(names[k], index, res, existing)
  {
    seq(|names|, k requires 0 <= k < |names| => Download(names[k], index, res, existing))
  }

  /** A second download of the same selection fetches only what the first one
      failed to fetch. */
  lemma RerunFetchesOnlyFailures(names: seq<string>, index: map<string, CatalogItem>, res: Resolution,
                                 existing: set<string>, fetched: string -> bool)
    ensures var first := Plan(names, index, res, existing);
            var second := Plan(names, index, res, existing + Written(first, fetched));
            forall k :: 0 <= k < |names| ==>
              && (first[k].Fetch? && fetched(first[k].url) ==> second[k] == Exists)
              && (second[k].Fetch? ==> second[k] == first[k] && !fetched(first[k].url))
  {
    var first := Plan(names, index, res, existing);
    var written := Written(first, fetched);
    forall k | 0 <= k < |names|
      ensures first[k].Fetch? && fetched(first[k].url) ==> first[k].dest in written
    {
    }
    forall k | 0 <= k < |names| && names[k] in index
      ensures var d := Download(names[k], index, res, existing + written);
              d.Fetch? ==> d == first[k] && d.dest !in written
    {
      FetchOnlyIfStillMissing(index[names[k]], res, names[k], existing, written);
    }
  }

  // ---------------------------------------------------------------------
  // The whole script

  datatype SelectRun =
    | NoMatches                                             // "No matches found."
    | Downloaded(matched: seq<string>, plan: seq<Decision>)

  /** `main`, with the store read as evidently intended (error rows passed
      over) and `mean` standing for `np.mean(embeddings, axis=0)`: build the
      reference, match, and return before any download when nothing
      matched. */
  method SelectMain(refEntries: seq<string>, detect: string -> RefDetection, mean: seq<Vector> -> Vector,
                    stored: seq<Record>, score: Score, threshold: real,
                    source: seq<CatalogItem>, res: Resolution, existing: set<string>)
    returns (r: Result<SelectRun, SelectError>)
    ensures ReferenceScan(refEntries, detect).Err? ==> r == Err(ReferenceRaised(ReferenceScan(refEntries, detect).error))
    ensures ReferenceScan(refEntries, detect) == Ok([]) ==> r == Err(NoReferenceFace)
    ensures r.Ok? <==> ReferenceScan(refEntries, detect).Ok? && ReferenceScan(refEntries, detect).value != []
    ensures r.Ok? ==>
              (r.value.NoMatches? <==>
                 NoneMatch(FaceEntries(stored), mean(ReferenceScan(refEntries, detect).value), score, threshold))
    ensures r.Ok? && r.value.Downloaded? ==>
              && Selected(r.value.matched, FaceEntries(stored), mean(ReferenceScan(refEntries, detect).value), score, threshold)
              && r.value.plan == Plan(r.value.matched, IndexByJpgName(source), res, existing)
  {
    var refs := BuildReference(refEntries, detect);
    if refs.Err? {
      return Err(refs.error);
    }
    var reference := mean(refs.value);
    var items := FaceEntries(stored);
    var matched := FindMatchingImages(items, reference, score, threshold);
    NoneMatchIff(matched, items, reference, score, threshold);
    if matched == [] {
      return Ok(NoMatches);
    }
    r := Ok(Downloaded(matched, Plan(matched, IndexByJpgName(source), res, existing)));
  }
}
