/** The per-face matcher (`find_images.py`): every face found in the
    reference image is compared with every stored face; an image that scores
    at least the threshold against reference face `r` is copied once into
    `output/ref_face_<r>/`, when its source file is still in the corpus. */
module FindImages {
  import opened Lists
  import opened Records
  import opened CreateEmbeddings

  /** `SIMILARITY_THRESHOLD`. */
  const SIMILARITY_THRESHOLD: real := 0.7

  /** The member of `saved`: `(ref_idx, src.name)`. A copy of key `Key(r, n)`
      goes to `output/ref_face_<r>/<n>`. */
  datatype Key = Key(ref: nat, name: string)

  /** The directories the script creates. */
  datatype Dir = OutputRoot | RefFaceDir(ref: nat)

  datatype FindError =
    | MissingEmbedding(row: nat) // `KeyError: 'embedding'` on an error row
    | EmptyStore                 // `IndexError` from `stored[-1]`
    | NoReferenceFace            // `RuntimeError("No face detected in reference image")`

  /** What one scan works on: the reference faces, the stored faces, the
      score, the threshold, and which corpus files exist. */
  datatype Scan = Scan(refs: seq<Vector>, items: seq<FaceEntry>, score: Score, threshold: real, present: string -> bool)

  /** Reference face `r` and stored face `i` pass the threshold (inclusive)
      and the stored face's file exists. */
  ghost predicate Hit(s: Scan, r: int, i: int)
  {
    0 <= r < |s.refs| && 0 <= i < |s.items|
    && s.score(s.refs[r], s.items[i].embedding) >= s.threshold
    && s.present(s.items[i].name)
  }

  /** Key `k` is earned by the pair `(r, i)`. */
  ghost predicate Earns(s: Scan, k: Key, r: int, i: int)
  {
    Hit(s, r, i) && k == Key(r, s.items[i].name)
  }

  /** The keys the scan earns: `(r, name)` for every reference face `r` and
      every stored face of image `name` that is a hit. */
  ghost function Matched(s: Scan): set<Key>
  {
    set r: nat, i: nat | r < |s.refs| && i < |s.items| && Hit(s, r, i) :: Key(r, s.items[i].name)
  }

  /** Pair `(r', i')` comes before pair `(r, i)` in the scan order. */
  ghost predicate Before(r': int, i': int, r: int, i: int)
  {
    r' < r || (r' == r && i' < i)
  }

  /** `saved` holds exactly the keys earned by the pairs scanned before
      `(r, i)`. */
  ghost predicate SavedSoFar(s: Scan, saved: set<Key>, r: int, i: int)
  {
    && (forall k :: k in saved ==> exists r', i' :: Before(r', i', r, i) && Earns(s, k, r', i'))
    && (forall r', i' :: Before(r', i', r, i) && Hit(s, r', i') ==> Key(r', s.items[i'].name) in saved)
  }

  /** One copy per saved key, none repeated. */
  ghost predicate CopiedOnce(saved: set<Key>, copies: seq<Key>)
  {
    Distinct(copies) && |copies| == |saved| && forall k :: k in copies <==> k in saved
  }

  /** The inner loop for reference face `r`: pass over a face below the
      threshold, a face whose file is missing, and a key already saved; copy
      otherwise. */
  method SaveUnder(s: Scan, r: nat, saved0: set<Key>, copies0: seq<Key>) returns (saved: set<Key>, copies: seq<Key>)
    requires r < |s.refs|
    requires SavedSoFar(s, saved0, r, 0) && CopiedOnce(saved0, copies0)
    ensures SavedSoFar(s, saved, r + 1, 0) && CopiedOnce(saved, copies)
  {
    saved, copies := saved0, copies0;
    for i := 0 to |s.items|
      invariant SavedSoFar(s, saved, r, i) && CopiedOnce(saved, copies)
    {
      var item := s.items[i];
      if s.score(s.refs[r], item.embedding) >= s.threshold {
        if !s.present(item.name) {
          PassOver(s, saved, r, i);
          continue;
        }
        var key := Key(r, item.name);
        if key in saved {
          PassOver(s, saved, r, i);
          continue;
        }
        SaveStep(s, saved, r, i);
        CopyStep(saved, copies, key);
        copies := copies + [key];
        saved := saved + {key};
      } else {
        PassOver(s, saved, r, i);
      }
    }
    NextReference(s, saved, r);
  }

  /** A pair that is no hit, or whose key is already saved, leaves `saved`
      as it is. */
  lemma PassOver(s: Scan, saved: set<Key>, r: nat, i: nat)
    requires r < |s.refs| && i < |s.items|
    requires SavedSoFar(s, saved, r, i)
    requires Hit(s, r, i) ==> Key(r, s.items[i].name) in saved
    ensures SavedSoFar(s, saved, r, i + 1)
  {
    forall k | k in saved
      ensures exists r', i' :: Before(r', i', r, i + 1) && Earns(s, k, r', i')
    {
      var r', i' :| Before(r', i', r, i) && Earns(s, k, r', i');
      assert Before(r', i', r, i + 1);
    }
  }

  /** A hit adds its key. */
  lemma SaveStep(s: Scan, saved: set<Key>, r: nat, i: nat)
    requires r < |s.refs| && i < |s.items|
    requires SavedSoFar(s, saved, r, i)
    requires s.score(s.refs[r], s.items[i].embedding) >= s.threshold && s.present(s.items[i].name)
    ensures SavedSoFar(s, saved + {Key(r, s.items[i].name)}, r, i + 1)
  {
    var key := Key(r, s.items[i].name);
    assert Earns(s, key, r, i);
    forall k | k in saved + {key}
      ensures exists r', i' :: Before(r', i', r, i + 1) && Earns(s, k, r', i')
    {
      if k != key {
        var r', i' :| Before(r', i', r, i) && Earns(s, k, r', i');
        assert Before(r', i', r, i + 1);
      } else {
        assert Before(r, i, r, i + 1);
      }
    }
  }

  /** Saving a new key with one more copy keeps one copy per key. */
  lemma CopyStep(saved: set<Key>, copies: seq<Key>, key: Key)
    requires CopiedOnce(saved, copies) && key !in saved
    ensures CopiedOnce(saved + {key}, copies + [key])
  {
    assert |saved + {key}| == |saved| + 1;
  }

  /** Having scanned all stored faces for reference face `r` is having
      scanned everything before reference face `r + 1`. */
  lemma NextReference(s: Scan, saved: set<Key>, r: nat)
    requires SavedSoFar(s, saved, r, |s.items|)
    ensures SavedSoFar(s, saved, r + 1, 0)
  {
    forall k | k in saved
      ensures exists r', i' :: Before(r', i', r + 1, 0) && Earns(s, k, r', i')
    {
      var r', i' :| Before(r', i', r, |s.items|) && Earns(s, k, r', i');
      assert Before(r', i', r + 1, 0);
    }
    forall r', i' | Before(r', i', r + 1, 0) && Hit(s, r', i')
      ensures Before(r', i', r, |s.items|)
    {
    }
  }

  /** The nested loop of the script: for each reference face, create its
      directory, then scan the stored faces. */
  method SearchAndSave(s: Scan) returns (saved: set<Key>, copies: seq<Key>, dirs: seq<Dir>)
    ensures saved == Matched(s)
    ensures Distinct(copies) && |copies| == |saved|
    ensures forall k :: k in copies <==> k in saved
    ensures |dirs| == |s.refs| && forall r :: 0 <= r < |dirs| ==> dirs[r] == RefFaceDir(r)
  {
    saved := {};
    copies := [];
    dirs := [];
    for r := 0 to |s.refs|
      invariant SavedSoFar(s, saved, r, 0) && CopiedOnce(saved, copies)
      invariant |dirs| == r && forall r' :: 0 <= r' < r ==> dirs[r'] == RefFaceDir(r')
    {
      dirs := dirs + [RefFaceDir(r)];
      saved, copies := SaveUnder(s, r, saved, copies);
    }
    forall k | k in saved
      ensures k in Matched(s)
    {
      var r', i' :| Before(r', i', |s.refs|, 0) && Earns(s, k, r', i');
    }
    forall k | k in Matched(s)
      ensures k in saved
    {
      var r: nat, i: nat :| r < |s.refs| && i < |s.items| && Hit(s, r, i) && k == Key(r, s.items[i].name);
      assert Before(r, i, |s.refs|, 0);
    }
  }

  /** The threshold is inclusive: a face scoring exactly the threshold
      against reference face `r` is saved under `r` when its file exists. */
  lemma ThresholdInclusive(s: Scan, r: nat, i: nat)
    requires r < |s.refs| && i < |s.items|
    requires s.score(s.refs[r], s.items[i].embedding) == s.threshold
    requires s.present(s.items[i].name)
    ensures Key(r, s.items[i].name) in Matched(s)
  {
    assert Hit(s, r, i);
  }

  /** A key is earned only by a face whose file exists and which scores at
      least the threshold: a missing file is never saved. */
  lemma SavedOnlyPresentAbove(s: Scan, k: Key)
    requires k in Matched(s)
    ensures k.ref < |s.refs| && s.present(k.name)
    ensures exists i :: 0 <= i < |s.items| && s.items[i].name == k.name
                        && s.score(s.refs[k.ref], s.items[i].embedding) >= s.threshold
  {
    var r: nat, i: nat :| r < |s.refs| && i < |s.items| && Hit(s, r, i) && k == Key(r, s.items[i].name);
  }

  /** The same image may be saved once under each reference face it matches. */
  lemma SavedUnderEachReference(s: Scan, r1: nat, r2: nat, i: nat)
    requires Hit(s, r1, i) && Hit(s, r2, i)
    ensures Key(r1, s.items[i].name) in Matched(s) && Key(r2, s.items[i].name) in Matched(s)
  {
  }

  // ---------------------------------------------------------------------
  // The bound on the number of copies

  /** The image names of the stored faces. */
  function Names(items: seq<FaceEntry>): set<string>
  {
    set i | 0 <= i < |items| :: items[i].name
  }

  ghost function Row(r: nat, names: set<string>): set<Key>
  {
    set n | n in names :: Key(r, n)
  }

  ghost function Grid(refCount: nat, names: set<string>): set<Key>
  {
    set r: nat, n | r < refCount && n in names :: Key(r, n)
  }

  lemma {:induction false} RowSize(r: nat, names: set<string>)
    ensures |Row(r, names)| == |names|
    decreases names
  {
    if names != {} {
      var n :| n in names;
      RowSize(r, names - {n});
      assert Row(r, names) == Row(r, names - {n}) + {Key(r, n)};
    } else {
      assert Row(r, names) == {};
    }
  }

  lemma {:induction false} GridSize(refCount: nat, names: set<string>)
    ensures |Grid(refCount, names)| == refCount * |names|
  {
    if refCount == 0 {
      assert Grid(refCount, names) == {};
    } else {
      GridSize(refCount - 1, names);
      RowSize(refCount - 1, names);
      GridSplit(refCount, names);
      DisjointUnionSize(Grid(refCount - 1, names), Row(refCount - 1, names));
      MulStep(refCount, |names|);
    }
  }

  /** The grid of `n` rows is the grid of `n - 1` rows plus the last row,
      which it does not overlap. */
  lemma GridSplit(n: nat, names: set<string>)
    requires n > 0
    ensures Grid(n, names) == Grid(n - 1, names) + Row(n - 1, names)
    ensures Grid(n - 1, names) * Row(n - 1, names) == {}
  {
  }

  lemma DisjointUnionSize<T>(a: set<T>, b: set<T>)
    requires a * b == {}
    ensures |a + b| == |a| + |b|
  {
  }

  lemma MulStep(n: nat, m: nat)
    requires n > 0
    ensures n * m == (n - 1) * m + m
  {
  }

  lemma SubsetSize<T>(a: set<T>, b: set<T>)
    requires a <= b
    ensures |a| <= |b|
    decreases b
  {
    if a != {} {
      var x :| x in a;
      SubsetSize(a - {x}, b - {x});
    }
  }

  /** At most one copy per reference face and image name:
      `len(saved) <= #references * #distinct image names`. */
  lemma SavedBound(s: Scan)
    ensures |Matched(s)| <= |s.refs| * |Names(s.items)|
  {
    var grid := Grid(|s.refs|, Names(s.items));
    forall k | k in Matched(s)
      ensures k in grid
    {
      var r: nat, i: nat :| r < |s.refs| && i < |s.items| && Hit(s, r, i) && k == Key(r, s.items[i].name);
      assert s.items[i].name in Names(s.items);
    }
    SubsetSize(Matched(s), grid);
    GridSize(|s.refs|, Names(s.items));
  }

  // ---------------------------------------------------------------------
  // The whole script

  datatype FindRun = FindRun(saved: set<Key>, copies: seq<Key>, dirs: seq<Dir>)

  /** The store as the script reads it AS WRITTEN, then the two checks that
      precede any directory: `stored[-1]` on the store and the empty
      reference. */
  function SearchInputAsWritten(stored: seq<Record>, refs: seq<Vector>): (r: Result<seq<FaceEntry>, FindError>)
    ensures r.Ok? ==> stored != [] && refs != [] && r.value == FaceEntries(stored)
    ensures (exists i :: 0 <= i < |stored| && stored[i].ErrorRecord?) ==> r.Err? && r.error.MissingEmbedding?
    ensures EmbeddingColumn(stored).Err? ==> r == Err(MissingEmbedding(EmbeddingColumn(stored).error))
    ensures stored == [] ==> r == Err(EmptyStore)
    ensures EmbeddingColumn(stored).Ok? && stored != [] && refs == [] ==> r == Err(NoReferenceFace)
    ensures EmbeddingColumn(stored).Ok? && stored != [] && refs != [] ==> r == Ok(FaceEntries(stored))
  {
    match EmbeddingColumn(stored)
    case Err(i) => Err(MissingEmbedding(i))
    case Ok(items) =>
      FaceEntriesAgree(stored);
      if stored == [] then Err(EmptyStore)
      else if refs == [] then Err(NoReferenceFace)
      else Ok(items)
  }

  /** A single image whose extraction raised leaves an error row in the
      store, and the script as written then stops with `KeyError` before
      comparing anything. */
  lemma FailedImageAbortsSearch(name: string, reason: string, maxFaces: int, rest: seq<Record>, refs: seq<Vector>)
    ensures SearchInputAsWritten(ImageRecords(name, maxFaces, Raised(reason)) + rest, refs) == Err(MissingEmbedding(0))
  {
    var stored := ImageRecords(name, maxFaces, Raised(reason)) + rest;
    assert stored[0] == ErrorRecord(name, reason);
  }

  /** The script with the store read as evidently intended (error rows passed
      over): fail on an empty store, then on a reference image without a
      face, and only then create `output/` and run the search. */
  method FindMain(stored: seq<Record>, refs: seq<Vector>, score: Score, present: string -> bool)
    returns (r: Result<FindRun, FindError>)
    ensures stored == [] ==> r == Err(EmptyStore)
    ensures stored != [] && refs == [] ==> r == Err(NoReferenceFace)
    ensures r.Ok? ==>
              var s := Scan(refs, FaceEntries(stored), score, SIMILARITY_THRESHOLD, present);
              && r.value.saved == Matched(s)
              && |r.value.copies| == |r.value.saved|
              && (forall k :: k in r.value.copies <==> k in r.value.saved)
              && |r.value.dirs| == |refs| + 1
              && r.value.dirs[0] == OutputRoot
              && (forall k :: 0 <= k < |refs| ==> r.value.dirs[k + 1] == RefFaceDir(k))
    ensures stored != [] && refs != [] ==> r.Ok?
  {
    var items := FaceEntries(stored);
    if stored == [] {
      return Err(EmptyStore);
    }
    if |refs| == 0 {
      return Err(NoReferenceFace);
    }
    var s := Scan(refs, items, score, SIMILARITY_THRESHOLD, present);
    var saved, copies, refDirs := SearchAndSave(s);
    r := Ok(FindRun(saved, copies, [OutputRoot] + refDirs));
  }
}
