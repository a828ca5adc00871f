# find_photos — a Dafny model of the face-search pipeline's bookkeeping

The repository is four Python scripts around a face detector and embedder:

- `create_embeddings.py` extracts one embedding per detected face of every corpus image. It appends the results to a JSON store, which it rewrites after each image.
- `find_images.py` compares every face of one reference image with every stored face. It copies each matching image once per reference face.
- `select_images.py` averages the faces of a reference directory into one embedding. It selects the images that match that embedding and downloads them from a catalog.
- `download_images.py` bulk-downloads the catalog from a start name on.

This project models the discrete logic between the model calls:

- enumerating the corpus, filtering by extension and sorting;
- slicing from a resume name;
- the resize decision;
- turning a detection outcome into store rows;
- accumulating rows in completion order, with one file write per productive image;
- the threshold search, deduplicated per reference face;
- the set-and-sort matcher;
- the catalog index;
- the skip/fetch decision chain of both downloaders.

The detector, embedder, similarity score, the mean of embeddings, file existence and network success are parameters of the model.

Modules, one per file:

| module | file | models |
|---|---|---|
| `Strings` | `strings.dfy` | Python `str` ordering, ASCII `lower()`, `PurePath.suffix`, the image-extension test |
| `Lists` | `lists.dfy` | stable `sorted(key=…)`, `list.index`, distinctness |
| `Records` | `records.dfy` | store rows (face row or error row), detector outcome, the two readings of the store's `"embedding"` column |
| `Catalog` | `catalog.dfy` | catalog items, download decisions, the shared field-then-destination check |
| `CreateEmbeddings` | `create_embeddings.dfy` | `create_embeddings.py` |
| `FindImages` | `find_images.dfy` | `find_images.py` |
| `SelectImages` | `select_images.dfy` | `select_images.py` |
| `DownloadImages` | `download_images.dfy` | `download_images.py` |

Conventions:

- A directory is given by the names of its entries.
- A detection by the `Extraction` value (`Raised`, `NoFace`, `Faces(vectors)`) or, for the single-face reference detector, by a `RefDetection` value.
- The similarity by a function `Score = (Vector, Vector) -> real` compared with `>=`.
- The files already present by a set of names or a predicate.
- The order in which pool workers complete by a sequence that is a permutation of the submitted work.

## Model

| member | source | states |
|---|---|---|
| Strings.Lower | create_embeddings.py:80 | `lower()` keeps the length and lower-cases each ASCII letter, leaving every other character |
| Strings.RFind | create_embeddings.py:80 | the position of the last occurrence of a character, or -1 when there is none (the basis of `PurePath.suffix`) |
| Strings.HasImageSuffixIff | create_embeddings.py:79-80 | `p.suffix.lower() in {".jpg", ".jpeg", ".png"}` holds exactly when the name, lower-cased, ends in `.jpg`/`.png` after at least one character, or in `.jpeg` after at least one character |
| Strings.ImageEntries | select_images.py:33-35 | the entries kept by the extension filter are exactly the entries with an image suffix |
| Lists.SortBy | download_images.py:22 | `sorted(key=…)` returns a permutation of its input, ordered by key |
| Lists.SortByStable | download_images.py:22 | the sort is stable: for every key, the elements with that key keep their input order |
| Lists.IndexOf | create_embeddings.py:107 | `list.index(x)` is the first position holding `x` |
| Lists.SortedDistinctAscending | select_images.py:69 | a sorted list without repeats is strictly ascending |
| Records.EmbeddingColumn | find_images.py:66 | reading `item["embedding"]` from every row fails exactly when some row is an error row, at the first such row; otherwise it yields one entry per row |
| Records.FaceEntries | select_images.py:62-67 | the store read with error rows passed over has at most as many entries as rows |
| Records.FaceEntriesComplete | create_embeddings.py:61-66 | the entries read are exactly the `(image, embedding)` pairs of the face rows |
| Records.FaceEntriesAgree | find_images.py:66 | on a store without error rows the corrected reading equals the as-written one |
| CreateEmbeddings.ListImages | create_embeddings.py:77-87 | `list_images` fails with "No images found" exactly when no entry has an image suffix; otherwise it returns a non-empty permutation of the image entries, sorted by name |
| CreateEmbeddings.ListImagesStrictlyAscending | create_embeddings.py:78-82 | for a directory listing (no repeated names) the image list is strictly ascending |
| CreateEmbeddings.ResumeFrom | create_embeddings.py:102-109 | no start name (or an empty one) keeps the whole list; an unknown name is an error; a known name gives `files[i:]` for its first position `i` |
| CreateEmbeddings.ResumeFromTail | create_embeddings.py:102-110 | resuming a non-empty list keeps a non-empty tail of it, which starts with the start name when one is given |
| CreateEmbeddings.WorkListIsSortedTail | create_embeddings.py:100-110 | the work list is a non-empty tail of the sorted image list, starting with the start name when one is given |
| CreateEmbeddings.DefaultSizeFits | create_embeddings.py:19-27 | with the default `max_size` of 1600, neither side of the image handed to the detector exceeds 1600, and an image within that bound is kept as is |
| CreateEmbeddings.LoadImageSize | create_embeddings.py:19-27 | the size is unchanged when neither side exceeds `max_size`; otherwise the size asked of `resize` has both sides shrunk, neither above `max_size`, and the longer one equal to `max_size`; one of its sides is 0 (PIL then raises `ValueError`, and `process_image` records an error row) exactly when the shorter side times `max_size` is below the longer side |
| CreateEmbeddings.ThinImageScalesToZero | create_embeddings.py:23-25 | a 1×1601 image at the default `max_size` asks for the size (0, 1600), which PIL rejects |
| CreateEmbeddings.ImageRecords | create_embeddings.py:48-74 | no face gives no row; an exception gives exactly one error row; faces give rows numbered 0..k-1 in order, with k the `faces[:max_faces]` count (at most `max_faces`), all naming the image |
| CreateEmbeddings.ProcessImage | create_embeddings.py:29-74 | the append loop of `process_image` produces `ImageRecords` |
| CreateEmbeddings.AccumulateResults | create_embeddings.py:116-129 | the final list is the loaded rows followed by each completed image's rows in completion order; each write holds the list accumulated so far, one per image that produced rows |
| CreateEmbeddings.CompletionStep | create_embeddings.py:124-129 | an image with no rows changes neither the list nor the file; otherwise its rows are appended and one more write occurs |
| CreateEmbeddings.SnapshotsAppendOnly | create_embeddings.py:116-129 | every write starts with the loaded rows and is a prefix of the next write and of the final list |
| CreateEmbeddings.DiskMatchesMemory | create_embeddings.py:125-129 | the last write equals the final list; when nothing was written no image produced a row |
| CreateEmbeddings.CompletionOrderIrrelevant | create_embeddings.py:120-126 | any two completion orders of the same images gather the same rows with the same multiplicities |
| CreateEmbeddings.RunExtraction | create_embeddings.py:96-131 | `main` fails exactly when enumeration or resume fails, with that error; otherwise it processes the work list, and the rows stored are the loaded ones plus those of the work list whatever the completion order |
| CreateEmbeddings.RerunDuplicates | create_embeddings.py:116-126 | nothing de-duplicates: running the same images again from the resulting store counts every new row twice |
| FindImages.SearchAndSave | find_images.py:83-106 | the nested loop ends with `saved` exactly the `(r, name)` keys of present images scoring at least the threshold against reference face `r`; one copy per key, never repeated; one directory per reference face |
| FindImages.SaveUnder | find_images.py:89-106 | the inner loop for reference face `r` adds exactly the keys `(r, name)` of present faces at or above the threshold, copying each new key once |
| FindImages.ThresholdInclusive | find_images.py:92 | a face scoring exactly the threshold is saved when its file exists |
| FindImages.SavedOnlyPresentAbove | find_images.py:92-96 | every saved key names a present file with a face at or above the threshold for that reference face |
| FindImages.SavedUnderEachReference | find_images.py:86-103 | an image matching two reference faces is saved under each of them |
| FindImages.SavedBound | find_images.py:83-113 | `len(saved)` is at most the number of reference faces times the number of distinct stored image names |
| FindImages.SearchInputAsWritten | find_images.py:63-75 | as written, the script fails with `KeyError` at the first error row when there is one; then an empty store fails (`stored[-1]`); then a reference image without faces fails; when all three checks pass it goes on with exactly the face rows |
| FindImages.FailedImageAbortsSearch | find_images.py:66 | a store whose first image's extraction raised makes the script stop at row 0 before comparing anything |
| FindImages.FindMain | find_images.py:62-113 | on the corrected store reading (see Findings): an empty store fails, then an empty reference fails before any directory is made; otherwise `output/` and one directory per reference face are made and `saved` is the matched key set |
| SelectImages.BuildReference | select_images.py:27-53 | the loop collects the embeddings of image entries in directory order; it fails with the first exception, or with "No face detected" when none was collected, and otherwise succeeds with exactly the collected embeddings |
| SelectImages.ReferenceScanImagesOnly | select_images.py:33-35 | non-image entries play no part: the scan of the directory is the scan of its image entries |
| SelectImages.NoFaceCollectedIff | select_images.py:38-51 | when nothing raised, no embedding is collected exactly when no image entry shows a face |
| SelectImages.FindMatchingImages | select_images.py:56-69 | the result is strictly ascending and holds exactly the names having a row that scores at least the threshold |
| SelectImages.ListSet | select_images.py:69 | listing the matched set yields each member exactly once |
| SelectImages.NoneMatchIff | select_images.py:124-126 | the match list is empty exactly when no stored face reaches the threshold |
| SelectImages.IndexKeys | select_images.py:78 | every catalog item's `filename + ".jpg"` is a key of the index, and only such names are keys (which item a repeated key holds is `IndexKeepsLast`) |
| SelectImages.IndexKeepsLast | select_images.py:78 | a repeated key maps to the last item carrying it |
| SelectImages.Download | select_images.py:81-100 | the checks run in order: a name not in the index, then a missing field, then an existing destination; a fetch is attempted only when all three pass, and it fetches that field's URL into `<name>` |
| SelectImages.Plan | select_images.py:102-105 | one decision per selected name, each taken by `download` |
| SelectImages.RerunFetchesOnlyFailures | select_images.py:90-98 | downloading the same selection again skips what the first run wrote; it fetches only names whose first fetch failed, in the same way |
| SelectImages.SelectMain | select_images.py:107-137 | on the corrected store reading (see Findings): reference failures propagate, and the run succeeds exactly when the reference scan collected a face; "No matches found." (no download) exactly when no stored face reaches the threshold; otherwise the ascending match list is downloaded |
| SelectImages.DefaultThresholdInclusive | select_images.py:66 | with the default `--threshold` of 0.8 (line 17), an image with a face scoring exactly 0.8 is selected, and one whose faces all score below it is not |
| Catalog.FieldThenDestination | download_images.py:45-50 | a missing field is skipped before the destination is looked at; an existing destination is skipped; a fetch happens exactly when the field is present and the destination is absent |
| Catalog.FetchOnlyIfStillMissing | download_images.py:48-50 | with more files present a fetch can only become a skip; a remaining fetch is the same fetch, for a file not added |
| DownloadImages.LoadImages | download_images.py:18-22 | the catalog sorted by `filename`: a permutation, ordered, and stable among equal names |
| DownloadImages.SliceFromStartName | download_images.py:25-35 | fails exactly when no item has the start name; otherwise `images[i:]` for the first such `i`, non-empty and starting with that name |
| DownloadImages.DownloadImage | download_images.py:42-62 | the destination is `<filename>.jpg`; a missing field is skipped first; the fetch happens exactly when the field is present and the destination absent |
| DownloadImages.Plan | download_images.py:65-75 | one `download_image` decision per remaining item |
| DownloadImages.DownloadMain | download_images.py:78-94 | `main` fails exactly when no catalog item has the start name; otherwise it decides for the sorted catalog from that name on |
| DownloadImages.RerunFetchesOnlyFailures | download_images.py:48-57 | a second run over the same items skips every file the first run wrote and fetches only what the first run failed to fetch |

## Left out

- Face detection and embedding (MTCNN, InceptionResnetV1) are opaque model calls. They are the `Extraction`/`RefDetection` parameters. An exception inside the `try` of `process_image` (create_embeddings.py:48-74), including an unreadable image, is the `Raised` case; an exception in the reference loop of `select_images.py` is the `DetectRaised` case.
- CreateEmbeddings.RunExtraction: an exception while `process_image` builds MTCNN or InceptionResnetV1 (create_embeddings.py:35-46, before the `try`) is not turned into an error row. `future.result()` (line 124) re-raises it in `main`, which stops after the writes already made. The model has no such abort: it takes every submitted image to finish with an `Extraction`.
- Cosine similarity is floating-point arithmetic. It is the abstract `Score`, compared with `>=`. Zero-norm vectors are not handled by the source and not modelled.
- `np.mean` over the reference embeddings is floating-point arithmetic. It is a parameter of `SelectImages.SelectMain`.
- CreateEmbeddings.LoadImageSize: uses exact integer arithmetic, with `int()` as the floor. Floating-point rounding of `scale` and the PIL resize itself are not modelled. The function returns the requested size even when a side is 0. The `ValueError` that PIL's `resize` raises for such a size is not produced by the function. Its contract states exactly when it happens, and the error row that `process_image` writes for it is the `Raised` case of the detection parameter.
- The reference images of `select_images.py` and `find_images.py` are not resized by the model. Only the store extractor's resize decision is modelled.
- `find_images.py` gets its reference faces from `get_embeddings`, which can also raise. The model takes the reference faces as an input sequence.
- `ProcessPoolExecutor`, `ThreadPoolExecutor` and `as_completed` are concurrency. Completion order is an arbitrary permutation of the work list. For the downloaders, every decision is taken against the files present when the run starts; a concurrent download of the same destination is not modelled.
- HTTP (`requests.get`, `raise_for_status`, timeouts) is I/O. A fetch's success is the `fetched` parameter.
- JSON load and dump, `shutil.copy2`, `mkdir`, `argparse` and printing are I/O plumbing. Copies and directories are returned as lists of keys and directory names; file existence is a set or predicate.
- The store file is rewritten in place with no atomic replace, no de-duplication and no corrupt-store error. The source has none of these, so the model claims none; `CreateEmbeddings.RerunDuplicates` states the duplication.
- `lower()` is modelled on ASCII letters only. No non-ASCII character lowers to any letter of `jpg`, `jpeg` or `png`, so the extension test is unaffected.
- Names are modelled as plain strings. `image_path.name` and `src.name` are taken to be the stored name, so a stored name containing a path separator is not modelled.
- A `max_faces` of 0 or less: the model gives the rows of the `faces[:max_faces]` slice. What the embedder does with an empty batch is outside the model.
- The store as the matchers read it: `FindMain` and `SelectMain` use the corrected reading (error rows passed over); the as-written reading is modelled separately (see Findings).

## Findings

| source | as written | input that shows it | evidently intended | confidence | as-written member | corrected member |
|---|---|---|---|---|---|---|
| find_images.py:66 and select_images.py:63, reading rows written by create_embeddings.py:70-74 | every store row is read as `item["embedding"]`, but an image whose extraction raised leaves a row with only `image` and `error` | a store whose first row comes from an image that raised (any exception inside the `try` of `process_image`): both matchers stop with `KeyError: 'embedding'` before any comparison | error rows are skipped, and only face rows are compared | high, not executed | Records.EmbeddingColumn, FindImages.FailedImageAbortsSearch | Records.FaceEntries, Records.FaceEntriesComplete |
