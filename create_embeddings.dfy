/** The batch extractor (`create_embeddings.py`): enumerate the corpus, cut
    the work list at the resume name, turn each image into store rows, and
    append the rows to the store as the workers complete, rewriting the store
    file after every image that produced rows. */
module CreateEmbeddings {
  import opened Strings
  import opened Lists
  import opened Records

  /** `load_image`'s default `max_size`. */
  const MAX_SIZE: nat := 1600

  datatype ExtractError =
    | NoImagesFound                  // `RuntimeError("No images found")`
    | StartNameNotFound(name: string) // `ValueError("start_name ... not found")`

  // ---------------------------------------------------------------------
  // Corpus enumeration and resume slicing

  /** `list_images(input_dir)`, the directory given by its entry names. */
  function ListImages(entries: seq<string>): (r: Result<seq<string>, ExtractError>)
    ensures r.Err? <==> forall x :: x in entries ==> !HasImageSuffix(x)
    ensures r.Err? ==> r.error == NoImagesFound
    ensures r.Ok? ==> r.value != []
    ensures r.Ok? ==> forall x :: x in r.value <==> x in entries && HasImageSuffix(x)
    ensures r.Ok? ==> multiset(r.value) == multiset(ImageEntries(entries))
    ensures r.Ok? ==> SortedBy(r.value, Id)
  {
    var filtered := ImageEntries(entries);
    var files := SortBy(filtered, Id);
    assert |files| == |multiset(files)| == |multiset(filtered)| == |filtered|;
    assert forall x :: x in files <==> x in multiset(filtered);
    if files == [] then Err(NoImagesFound)
    else
      assert files[0] in multiset(filtered);
      assert files[0] in filtered;
      assert files[0] in entries && HasImageSuffix(files[0]);
      Ok(files)
  }

  /** A directory never lists a name twice, so the sorted list is strictly
      ascending. */
  lemma ListImagesStrictlyAscending(entries: seq<string>)
    requires Distinct(entries)
    requires ListImages(entries).Ok?
    ensures StrictlyAscending(ListImages(entries).value)
  {
    var files := ListImages(entries).value;
    FilterDistinct(entries);
    DistinctCountsOnce(ImageEntries(entries));
    CountsOnceDistinct(files);
    SortedDistinctAscending(files);
  }

  lemma {:induction false} FilterDistinct(entries: seq<string>)
    requires Distinct(entries)
    ensures Distinct(ImageEntries(entries))
  {
    if entries != [] {
      FilterDistinct(entries[1..]);
      var rest := ImageEntries(entries[1..]);
      if HasImageSuffix(entries[0]) {
        assert ImageEntries(entries) == [entries[0]] + rest;
        assert entries[0] !in rest by {
          assert entries[0] !in entries[1..];
        }
        ConsDistinct(entries[0], rest);
      } else {
        assert ImageEntries(entries) == rest;
      }
    }
  }

  /** The resume step of `main`: with a start name (an empty one counts as
      none, as `if args.start_name:` reads it), the work list starts at its
      first occurrence; a name that is not listed is an error. */
  function ResumeFrom(files: seq<string>, startName: Option<string>): (r: Result<seq<string>, ExtractError>)
    ensures (startName.None? || startName.value == "") ==> r == Ok(files)
    ensures startName.Some? && startName.value != "" && startName.value !in files
            ==> r == Err(StartNameNotFound(startName.value))
    ensures startName.Some? && startName.value != "" && startName.value in files
            ==> r.Ok? && exists i :: FirstAt(files, i, startName.value) && r.value == files[i..]
  {
    if startName.None? || startName.value == "" then Ok(files)
    else if startName.value !in files then Err(StartNameNotFound(startName.value))
    else Ok(files[IndexOf(files, startName.value)..])
  }

  /** `i` is the first position of `name` in `files`. */
  ghost predicate FirstAt(files: seq<string>, i: int, name: string)
  {
    0 <= i < |files| && files[i] == name && forall j :: 0 <= j < i ==> files[j] != name
  }

  /** The work list of `main`: `list_images`, then the resume step. */
  function WorkList(entries: seq<string>, startName: Option<string>): Result<seq<string>, ExtractError>
  {
    match ListImages(entries)
    case Err(e) => Err(e)
    case Ok(files) => ResumeFrom(files, startName)
  }

  /** `work` is a non-empty tail of `files`. */
  ghost predicate NonEmptyTail(work: seq<string>, files: seq<string>)
  {
    work != [] && |work| <= |files| && work == files[|files| - |work|..]
  }

  /** Resuming keeps a non-empty tail of a non-empty list, and that tail
      starts with the start name when one is given. */
  lemma ResumeFromTail(files: seq<string>, startName: Option<string>)
    requires files != [] && ResumeFrom(files, startName).Ok?
    ensures NonEmptyTail(ResumeFrom(files, startName).value, files)
    ensures startName.Some? && startName.value != "" ==> ResumeFrom(files, startName).value[0] == startName.value
  {
    var work := ResumeFrom(files, startName).value;
    if startName.None? || startName.value == "" {
      assert files[|files| - |work|..] == files;
    } else {
      var i :| FirstAt(files, i, startName.value) && work == files[i..];
      assert |files| - |work| == i;
    }
  }

  /** Whatever the start name, a work list that exists is a non-empty tail of
      the sorted corpus whose first name is the start name when one is given
      (so `files[0]` in `main` never fails). */
  lemma WorkListIsSortedTail(entries: seq<string>, startName: Option<string>)
    requires WorkList(entries, startName).Ok?
    ensures ListImages(entries).Ok?
    ensures NonEmptyTail(WorkList(entries, startName).value, ListImages(entries).value)
    ensures startName.Some? && startName.value != "" ==> WorkList(entries, startName).value[0] == startName.value
  {
    var listed := ListImages(entries);
    assert listed.Ok?;
    assert WorkList(entries, startName) == ResumeFrom(listed.value, startName);
    ResumeFromTail(listed.value, startName);
  }

  // ---------------------------------------------------------------------
  // Image size decision of `load_image`

  /** The size `load_image` asks PIL to resize to: unchanged unless the
      longer side exceeds `maxSize`, else scaled so that the longer side
      becomes `maxSize` (exact arithmetic, `int()` as the floor). A side
      scaled to 0 is the size PIL's `resize` rejects with `ValueError`, which
      `process_image` records as an error row: it happens exactly when the
      shorter side times `maxSize` is below the longer side. */
  function LoadImageSize(w: nat, h: nat, maxSize: nat): (r: (nat, nat))
    ensures (w <= maxSize && h <= maxSize) ==> r == (w, h)
    ensures (w > maxSize || h > maxSize) ==>
              r.0 <= w && r.1 <= h && r.0 <= maxSize && r.1 <= maxSize
              && (r.0 == maxSize || r.1 == maxSize)
    ensures (w > maxSize || h > maxSize) ==>
              ((r.0 == 0 || r.1 == 0) <==> (if w >= h then h else w) * maxSize < (if w >= h then w else h))
  {
    var longer := if w >= h then w else h;
    if longer > maxSize then (Scaled(w, longer, maxSize), Scaled(h, longer, maxSize))
    else (w, h)
  }

  /** `load_image` as `process_image` calls it, with the default `max_size`:
      no side of the image handed to the detector exceeds 1600 pixels, and an
      image already within that bound is not resized. */
  lemma DefaultSizeFits(w: nat, h: nat)
    ensures LoadImageSize(w, h, MAX_SIZE).0 <= MAX_SIZE && LoadImageSize(w, h, MAX_SIZE).1 <= MAX_SIZE
    ensures w <= MAX_SIZE && h <= MAX_SIZE ==> LoadImageSize(w, h, MAX_SIZE) == (w, h)
  {
  }

  /** A 1x1601 image asks for a 0-pixel width at the default `max_size`, so
      PIL's `resize` raises and the image ends up as an error row. */
  lemma ThinImageScalesToZero()
    ensures LoadImageSize(1, 1601, MAX_SIZE) == (0, 1600)
  {
    assert Scaled(1, 1601, MAX_SIZE) == 0;
    assert Scaled(1601, 1601, MAX_SIZE) == 1600;
  }

  /** `int(side * (maxSize / longer))` in exact arithmetic. */
  function Scaled(side: nat, longer: nat, maxSize: nat): (r: nat)
    requires side <= longer && maxSize < longer
    ensures r <= side && r <= maxSize
    ensures side == longer ==> r == maxSize
    ensures r == 0 <==> side * maxSize < longer
  {
    ScaleDown(side, longer, maxSize);
    DivZero(side * maxSize, longer);
    side * maxSize / longer
  }

  /** Integer division gives 0 exactly on a numerator below the divisor. */
  lemma DivZero(n: nat, d: nat)
    requires d > 0
    ensures n / d == 0 <==> n < d
  {
    if n >= d {
      DivBelow(d, n / d, d);
    }
  }

  lemma ScaleDown(side: nat, longer: nat, maxSize: nat)
    requires side <= longer && maxSize < longer
    ensures side * maxSize / longer <= side
    ensures side * maxSize / longer <= maxSize
    ensures side == longer ==> side * maxSize / longer == maxSize
  {
    MulMonotone(maxSize, longer, side);
    MulMonotone(side, longer, maxSize);
    DivBelow(side * maxSize, side, longer);
    DivBelow(side * maxSize, maxSize, longer);
    if side == longer {
      DivExact(maxSize, longer);
    }
  }

  lemma MulMonotone(a: nat, b: nat, k: nat)
    requires a <= b
    ensures a * k <= b * k
  {
  }

  /** `n <= m * d` gives `n / d <= m`. */
  lemma DivBelow(n: nat, m: nat, d: nat)
    requires d > 0 && n <= m * d
    ensures n / d <= m
  {
  }

  lemma DivExact(m: nat, d: nat)
    requires d > 0
    ensures d * m / d == m
  {
    var q := d * m / d;
    DivBelow(d * m, m, d);
    if q < m {
      MulMonotone(q + 1, m, d);
    }
  }

  // ---------------------------------------------------------------------
  // Rows of one image (`process_image`)

  /** `faces[:max_faces]`, with Python's reading of a negative bound (drop
      that many from the end). */
  function Capped<T>(s: seq<T>, n: int): seq<T>
  {
    if n >= 0 then s[..if n < |s| then n else |s|]
    else s[..if |s| + n > 0 then |s| + n else 0]
  }

  /** The rows `process_image` returns for one image. */
  function ImageRecords(name: string, maxFaces: int, outcome: Extraction): (r: seq<Record>)
    ensures outcome.NoFace? ==> r == []
    ensures outcome.Raised? ==> r == [ErrorRecord(name, outcome.reason)]
    ensures outcome.Faces? ==>
              && (maxFaces >= 0 ==> |r| == if maxFaces < |outcome.vectors| then maxFaces else |outcome.vectors|)
              && (maxFaces < 0 ==> |r| == if |outcome.vectors| + maxFaces > 0 then |outcome.vectors| + maxFaces else 0)
              && forall i :: 0 <= i < |r| ==> r[i] == FaceRecord(name, i, outcome.vectors[i])
    ensures maxFaces >= 0 ==> |r| <= maxFaces || outcome.Raised?
    ensures forall i :: 0 <= i < |r| ==> r[i].image == name
  {
    match outcome
    case Raised(reason) => [ErrorRecord(name, reason)]
    case NoFace => []
    case Faces(vectors) =>
      var emb := Capped(vectors, maxFaces);
      seq(|emb|, i requires 0 <= i < |emb| => FaceRecord(name, i, emb[i]))
  }

  /** `process_image((image_path, max_faces))`, the detector's outcome for the
      image given. */
  method ProcessImage(name: string, maxFaces: int, outcome: Extraction) returns (results: seq<Record>)
    ensures results == ImageRecords(name, maxFaces, outcome)
  {
    match outcome
    case Raised(reason) =>
      results := [ErrorRecord(name, reason)];
    case NoFace =>
      results := [];
    case Faces(vectors) =>
      var emb := Capped(vectors, maxFaces);
      results := [];
      for idx := 0 to |emb|
        invariant |results| == idx
        invariant forall i :: 0 <= i < idx ==> results[i] == FaceRecord(name, i, emb[i])
      {
        results := results + [FaceRecord(name, idx, emb[idx])];
      }
  }

  // ---------------------------------------------------------------------
  // Accumulation in completion order

  /** The rows of the images of `order`, image after image. */
  function Collected(order: seq<string>, maxFaces: int, extract: string -> Extraction): seq<Record>
  {
    if order == [] then []
    else
      var last := order[|order| - 1];
      Collected(order[..|order| - 1], maxFaces, extract) + ImageRecords(last, maxFaces, extract(last))
  }

  /** The successive contents written to the store file when the images of
      `order` complete in that order: one write per image that produced rows,
      each the whole list accumulated so far. */
  function Snapshots(loaded: seq<Record>, order: seq<string>, maxFaces: int, extract: string -> Extraction): seq<seq<Record>>
  {
    if order == [] then []
    else
      var last := order[|order| - 1];
      var before := Snapshots(loaded, order[..|order| - 1], maxFaces, extract);
      if ImageRecords(last, maxFaces, extract(last)) == [] then before
      else before + [loaded + Collected(order, maxFaces, extract)]
  }

  /** The completion loop of `main`: `results` starts as the loaded store;
      each completed image's rows, when there are any, extend it and the whole
      list is written out. `writes` lists the file contents written. */
  method AccumulateResults(loaded: seq<Record>, completion: seq<string>, maxFaces: int, extract: string -> Extraction)
    returns (results: seq<Record>, writes: seq<seq<Record>>)
    ensures results == loaded + Collected(completion, maxFaces, extract)
    ensures writes == Snapshots(loaded, completion, maxFaces, extract)
  {
    results := loaded;
    writes := [];
    for k := 0 to |completion|
      invariant results == loaded + Collected(completion[..k], maxFaces, extract)
      invariant writes == Snapshots(loaded, completion[..k], maxFaces, extract)
    {
      var res := ProcessImage(completion[k], maxFaces, extract(completion[k]));
      ghost var before := Collected(completion[..k], maxFaces, extract);
      PrefixStep(loaded, completion, k, maxFaces, extract);
      if res != [] {
        assert (loaded + before) + res == loaded + (before + res);
        results := results + res;
        writes := writes + [results];
      }
    }
    assert completion[..|completion|] == completion;
  }

  /** `CompletionStep` for the prefixes of one completion order. */
  lemma PrefixStep(loaded: seq<Record>, completion: seq<string>, k: nat, maxFaces: int, extract: string -> Extraction)
    requires k < |completion|
    ensures var rows := ImageRecords(completion[k], maxFaces, extract(completion[k]));
            && Collected(completion[..k + 1], maxFaces, extract) == Collected(completion[..k], maxFaces, extract) + rows
            && (rows == [] ==> Snapshots(loaded, completion[..k + 1], maxFaces, extract) == Snapshots(loaded, completion[..k], maxFaces, extract))
            && (rows != [] ==>
                  Snapshots(loaded, completion[..k + 1], maxFaces, extract)
                  == Snapshots(loaded, completion[..k], maxFaces, extract) + [loaded + Collected(completion[..k + 1], maxFaces, extract)])
  {
    assert completion[..k + 1] == completion[..k] + [completion[k]];
    CompletionStep(loaded, completion[..k], completion[k], maxFaces, extract);
  }

  /** One completion: the rows of the image are appended; an image with no
      rows changes neither the list nor the file. */
  lemma CompletionStep(loaded: seq<Record>, order: seq<string>, x: string, maxFaces: int, extract: string -> Extraction)
    ensures Collected(order + [x], maxFaces, extract)
            == Collected(order, maxFaces, extract) + ImageRecords(x, maxFaces, extract(x))
    ensures ImageRecords(x, maxFaces, extract(x)) == [] ==>
              Snapshots(loaded, order + [x], maxFaces, extract) == Snapshots(loaded, order, maxFaces, extract)
    ensures ImageRecords(x, maxFaces, extract(x)) != [] ==>
              Snapshots(loaded, order + [x], maxFaces, extract)
              == Snapshots(loaded, order, maxFaces, extract) + [loaded + Collected(order + [x], maxFaces, extract)]
  {
    assert (order + [x])[..|order|] == order;
  }

  /** The store only grows: every written content starts with the loaded
      rows, and each one is a prefix of the next. */
  lemma {:induction false} SnapshotsAppendOnly(loaded: seq<Record>, order: seq<string>, maxFaces: int, extract: string -> Extraction)
    ensures var s := Snapshots(loaded, order, maxFaces, extract);
            (forall j :: 0 <= j < |s| ==> loaded <= s[j] && s[j] <= loaded + Collected(order, maxFaces, extract))
            && (forall j :: 0 <= j < |s| - 1 ==> s[j] <= s[j + 1])
  {
    if order != [] {
      var init := order[..|order| - 1];
      var last := order[|order| - 1];
      SnapshotsAppendOnly(loaded, init, maxFaces, extract);
      assert order == init + [last];
      CompletionStep(loaded, init, last, maxFaces, extract);
      var s := Snapshots(loaded, order, maxFaces, extract);
      var before := Snapshots(loaded, init, maxFaces, extract);
      var all := loaded + Collected(order, maxFaces, extract);
      assert loaded + Collected(init, maxFaces, extract) <= all;
      forall j | 0 <= j < |s|
        ensures loaded <= s[j] && s[j] <= all
      {
        if j < |before| {
          assert s[j] == before[j];
          PrefixTrans(s[j], loaded + Collected(init, maxFaces, extract), all);
        }
      }
      forall j | 0 <= j < |s| - 1
        ensures s[j] <= s[j + 1]
      {
        if j + 1 < |before| {
          assert s[j] == before[j] && s[j + 1] == before[j + 1];
        } else {
          assert s[j] == before[j];
        }
      }
    }
  }

  lemma PrefixTrans<T>(a: seq<T>, b: seq<T>, c: seq<T>)
    requires a <= b && b <= c
    ensures a <= c
  {
    assert c[..|a|] == b[..|a|];
  }

  /** After any number of completions the store file holds exactly the
      in-memory list: the last write is the full list, and when nothing has
      been written no image has produced a row yet. */
  lemma {:induction false} DiskMatchesMemory(loaded: seq<Record>, order: seq<string>, maxFaces: int, extract: string -> Extraction)
    ensures var s := Snapshots(loaded, order, maxFaces, extract);
            (s != [] ==> s[|s| - 1] == loaded + Collected(order, maxFaces, extract))
            && (s == [] ==> Collected(order, maxFaces, extract) == [])
  {
    if order != [] {
      var init := order[..|order| - 1];
      var last := order[|order| - 1];
      DiskMatchesMemory(loaded, init, maxFaces, extract);
      assert order == init + [last];
      CompletionStep(loaded, init, last, maxFaces, extract);
    }
  }

  lemma {:induction false} CollectedAppend(a: seq<string>, b: seq<string>, maxFaces: int, extract: string -> Extraction)
    ensures Collected(a + b, maxFaces, extract) == Collected(a, maxFaces, extract) + Collected(b, maxFaces, extract)
  {
    if b != [] {
      var init, last := b[..|b| - 1], b[|b| - 1];
      var rows := ImageRecords(last, maxFaces, extract(last));
      CollectedAppend(a, init, maxFaces, extract);
      assert Collected(a + b, maxFaces, extract) == Collected(a + init, maxFaces, extract) + rows by {
        assert (a + b)[..|a + b| - 1] == a + init;
        assert (a + b)[|a + b| - 1] == last;
      }
      assert Collected(b, maxFaces, extract) == Collected(init, maxFaces, extract) + rows;
    } else {
      assert a + b == a;
    }
  }

  /** The rows gathered do not depend on the order in which the workers
      complete: any two completion orders of the same images give the same
      rows, each as often. */
  lemma {:induction false} CompletionOrderIrrelevant(order1: seq<string>, order2: seq<string>, maxFaces: int, extract: string -> Extraction)
    requires multiset(order1) == multiset(order2)
    ensures multiset(Collected(order1, maxFaces, extract)) == multiset(Collected(order2, maxFaces, extract))
    decreases |order1|
  {
    if order1 == [] {
      assert order2 == [];
    } else {
      var init := order1[..|order1| - 1];
      var x := order1[|order1| - 1];
      var j := PickSame(order1, order2);
      var front, back := order2[..j], order2[j + 1..];
      CompletionOrderIrrelevant(init, front + back, maxFaces, extract);
      LastRows(order1, maxFaces, extract);
      RowsOfPicked(order2, j, maxFaces, extract);
    }
  }

  /** A position of `order2` holding the last element of `order1`, whose
      removal leaves the same multiset as `order1` without its last element. */
  lemma PickSame(order1: seq<string>, order2: seq<string>) returns (j: nat)
    requires order1 != [] && multiset(order1) == multiset(order2)
    ensures j < |order2| && order2[j] == order1[|order1| - 1]
    ensures multiset(order1[..|order1| - 1]) == multiset(order2[..j] + order2[j + 1..])
  {
    var init := order1[..|order1| - 1];
    var x := order1[|order1| - 1];
    assert x in order2 by {
      assert x in multiset(order1);
    }
    j := IndexOf(order2, x);
    RemoveAt(order2, j);
    RemoveAt(order1, |order1| - 1);
    assert order1[|order1| - 1 + 1..] == [];
    assert order1[..|order1| - 1] + [] == init;
    Cancel(multiset(init), multiset(order2[..j] + order2[j + 1..]), x);
  }

  lemma RemoveAt(s: seq<string>, j: nat)
    requires j < |s|
    ensures multiset(s) == multiset(s[..j] + s[j + 1..]) + multiset{s[j]}
  {
    assert s == s[..j] + [s[j]] + s[j + 1..];
  }

  lemma Cancel(a: multiset<string>, b: multiset<string>, x: string)
    requires a + multiset{x} == b + multiset{x}
    ensures a == b
  {
    assert a == (a + multiset{x}) - multiset{x};
    assert b == (b + multiset{x}) - multiset{x};
  }

  /** The rows of `order` are those of all but its last image, then those of
      the last. */
  lemma LastRows(order: seq<string>, maxFaces: int, extract: string -> Extraction)
    requires order != []
    ensures multiset(Collected(order, maxFaces, extract))
            == multiset(Collected(order[..|order| - 1], maxFaces, extract))
               + multiset(ImageRecords(order[|order| - 1], maxFaces, extract(order[|order| - 1])))
  {
  }

  /** The rows of `order` are, as a multiset, those without image `j` plus
      those of image `j`. */
  lemma RowsOfPicked(order: seq<string>, j: nat, maxFaces: int, extract: string -> Extraction)
    requires j < |order|
    ensures multiset(Collected(order, maxFaces, extract))
            == multiset(Collected(order[..j] + order[j + 1..], maxFaces, extract))
               + multiset(ImageRecords(order[j], maxFaces, extract(order[j])))
  {
    var front, x, back := order[..j], order[j], order[j + 1..];
    assert order == (front + [x]) + back;
    var rows := ImageRecords(x, maxFaces, extract(x));
    CollectedAppend(front + [x], back, maxFaces, extract);
    CollectedAppend(front, [x], maxFaces, extract);
    CollectedAppend(front, back, maxFaces, extract);
    assert Collected([x], maxFaces, extract) == rows;
    var cf, cb := Collected(front, maxFaces, extract), Collected(back, maxFaces, extract);
    assert Collected(order, maxFaces, extract) == (cf + rows) + cb;
    assert Collected(front + back, maxFaces, extract) == cf + cb;
  }

  // ---------------------------------------------------------------------
  // The whole run

  datatype ExtractionRun = ExtractionRun(work: seq<string>, results: seq<Record>, writes: seq<seq<Record>>)

  /** `main` of the extractor. `existing` is the store file's content if it
      exists; `completion` is the order in which the workers finish, a
      permutation of the work list. */
  method RunExtraction(entries: seq<string>, startName: Option<string>, maxFaces: int,
                       existing: Option<seq<Record>>, extract: string -> Extraction, completion: seq<string>)
    returns (r: Result<ExtractionRun, ExtractError>)
    requires WorkList(entries, startName).Ok? ==> multiset(completion) == multiset(WorkList(entries, startName).value)
    ensures r.Err? <==> WorkList(entries, startName).Err?
    ensures r.Err? ==> r.error == WorkList(entries, startName).error
    ensures r.Ok? ==>
              var loaded := if existing.Some? then existing.value else [];
              && r.value.work == WorkList(entries, startName).value
              && r.value.results == loaded + Collected(completion, maxFaces, extract)
              && multiset(r.value.results) == multiset(loaded) + multiset(Collected(r.value.work, maxFaces, extract))
              && r.value.writes == Snapshots(loaded, completion, maxFaces, extract)
  {
    var listed := ListImages(entries);
    if listed.Err? {
      return Err(listed.error);
    }
    var work := ResumeFrom(listed.value, startName);
    if work.Err? {
      return Err(work.error);
    }
    var loaded := if existing.Some? then existing.value else [];
    var results, writes := AccumulateResults(loaded, completion, maxFaces, extract);
    CompletionOrderIrrelevant(completion, work.value, maxFaces, extract);
    r := Ok(ExtractionRun(work.value, results, writes));
  }

  /** Nothing de-duplicates on resume: running again over the same images,
      from the store a run left, stores every new row once more. */
  lemma RerunDuplicates(loaded: seq<Record>, order: seq<string>, maxFaces: int, extract: string -> Extraction)
    ensures var once := loaded + Collected(order, maxFaces, extract);
            var twice := once + Collected(order, maxFaces, extract);
            forall rec :: multiset(twice)[rec] == multiset(loaded)[rec] + 2 * multiset(Collected(order, maxFaces, extract))[rec]
  {
  }
}
