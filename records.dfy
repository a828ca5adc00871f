/** The values shared by the four scripts: the rows of the embeddings store
    (`embeddings.json`), the abstract face detector, and the error plumbing. */
module Records {

  datatype Option<T> = None | Some(value: T)

  /** A Python function that either returns a value or raises. */
  datatype Result<T, E> = Ok(value: T) | Err(error: E)

  /** A face embedding. Its numbers are never computed on here: the similarity
      score is a parameter of every matcher. */
  type Vector = seq<real>

  /** A similarity score, standing for `cosine_similarity(a, b)`. */
  type Score = (Vector, Vector) -> real

  /** One row of the store: `{"image", "face_index", "embedding"}` for a face,
      `{"image", "error"}` for an image whose extraction raised. */
  datatype Record =
    | FaceRecord(image: string, faceIndex: nat, embedding: Vector)
    | ErrorRecord(image: string, error: string)

  /** What loading, detecting and embedding one image amounts to: it raised,
      it found no face (`mtcnn(img)` is `None`), or it found faces whose
      embeddings come in the detector's order. */
  datatype Extraction =
    | Raised(reason: string)
    | NoFace
    | Faces(vectors: seq<Vector>)

  /** A stored face as the matchers read it: `item["image"]` and
      `item["embedding"]`. */
  datatype FaceEntry = FaceEntry(name: string, embedding: Vector)

  /** The matchers' reading of the store AS WRITTEN
      (`[item["embedding"] for item in stored]`): an error row has no
      "embedding" key, so the first one raises `KeyError`; the result names
      its position. */
  function EmbeddingColumn(stored: seq<Record>): (r: Result<seq<FaceEntry>, nat>)
    ensures r.Err? <==> exists i :: 0 <= i < |stored| && stored[i].ErrorRecord?
    ensures r.Err? ==> r.error < |stored| && stored[r.error].ErrorRecord?
                       && forall j :: 0 <= j < r.error ==> stored[j].FaceRecord?
    ensures r.Ok? ==> |r.value| == |stored|
  {
    if stored == [] then Ok([])
    else if stored[0].ErrorRecord? then Err(0)
    else
      match EmbeddingColumn(stored[1..])
      case Err(i) => Err(i + 1)
      case Ok(rest) => Ok([FaceEntry(stored[0].image, stored[0].embedding)] + rest)
  }

  /** The reading the matchers evidently intend: rows that carry an embedding,
      in store order, with the error rows passed over. */
  function FaceEntries(stored: seq<Record>): (r: seq<FaceEntry>)
    ensures |r| <= |stored|
  {
    if stored == [] then []
    else if stored[0].ErrorRecord? then FaceEntries(stored[1..])
    else [FaceEntry(stored[0].image, stored[0].embedding)] + FaceEntries(stored[1..])
  }

  /** Row `i` of the store is a face row read as `e`. */
  ghost predicate FaceAt(stored: seq<Record>, i: int, e: FaceEntry)
  {
    0 <= i < |stored| && stored[i].FaceRecord?
    && e == FaceEntry(stored[i].image, stored[i].embedding)
  }

  /** Every face row of the store, and nothing else, reaches the matchers. */
  lemma {:induction false} FaceEntriesComplete(stored: seq<Record>)
    ensures forall e :: e in FaceEntries(stored) <==> exists i :: FaceAt(stored, i, e)
  {
    if stored != [] {
      FaceEntriesComplete(stored[1..]);
      forall e | e in FaceEntries(stored)
        ensures exists i :: FaceAt(stored, i, e)
      {
        if FaceAt(stored, 0, e) {
        } else {
          var i :| FaceAt(stored[1..], i, e);
          assert FaceAt(stored, i + 1, e);
        }
      }
      forall e, i | FaceAt(stored, i, e)
        ensures e in FaceEntries(stored)
      {
        if i > 0 {
          assert FaceAt(stored[1..], i - 1, e);
        }
      }
    }
  }

  /** Where the as-written reading succeeds, the intended one agrees with it. */
  lemma {:induction false} FaceEntriesAgree(stored: seq<Record>)
    requires EmbeddingColumn(stored).Ok?
    ensures FaceEntries(stored) == EmbeddingColumn(stored).value
  {
    if stored != [] {
      FaceEntriesAgree(stored[1..]);
    }
  }
}
