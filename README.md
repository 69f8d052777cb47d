# Vehicle image services — decision logic in Dafny

This project models the decision logic of seven Flask services. The services keep car and
scooter image URLs in SQL tables. There are two families:

- **Scratch/difference services** (scratchfabric.py, ishu.py, scooterscratchfabric.py,
  scooterscratch.py). Each compares a newly supplied image with the image stored for every
  matching vehicle row. For each `(column, image)` pair it decides, row by row, whether to
  upload the new image and `UPDATE` the column. It returns one status entry per row it
  reports on.
- **Registration services** (john.py, ika.py, scooterfabric.py). Each validates a
  registration request, uploads its images, and runs a check-then-insert on a
  `(segment_id, segment_name, model_type)` key.

Everything outside this logic is an input. That covers OpenCV's pixel work, Cloudinary, S3,
`urlopen`, `os.path.exists` and the database drivers:

- An image fetch or decode is an `ImageRead`.
- The contours OpenCV finds are a sequence of `Contour(area, width, height)`.
- ORB's output is a keypoint and match count.
- An upload is the `secure_url` it returns, or nothing.
- A database statement either commits or raises.

Each vehicle row or column carries the answers the world would give for it. The model reads
an answer only where the code would make that call.

Module layout, one module per source file:

- `Values` (values.dfy): request values with Python truthiness, image evidence, the write
  log, and `AreaVerdict`. `AreaVerdict` is the decode-then-threshold rule three detectors
  share; their contracts are stated against it.
- `ScratchFabric`, `Ishu`, `ScooterScratchFabric` and `ScooterScratch`. Each has its
  detector. Each has its update loop as a method with nested `while` loops, proved equal to
  a fold (`Step` / `RunCars` / `RunColumns`). Lemmas over the fold cover three things:
  - writes happen only for detected changes, and every detected change is written;
  - the number of entries;
  - the position of each row's entry.
- `CarRegistration` (car_registration.dfy): the parts john.py and ika.py share line for line.
  These are the required-field check, the `cars` table as a class with the check-then-insert
  `InsertCarDetails`, the `try` block `SaveCar`, and the status mapping.
- `John`, `Ika` and `ScooterFabric`: the three registration handlers and their upload loops.
  `ScooterFabric` also holds the `scooter_ev` table class. That class's invariant is the
  table's UNIQUE constraint.

Three points of the code worth keeping in mind when reading the contracts:

- The scratch band is strict at both ends, `5 < area < 1500` (scooterscratch.py:138), so
  areas of exactly 5 or 1500 are not scratches.
- Every detector turns a failed fetch or analysis into the plain verdict `False`; there is
  no separate "could not run" outcome.
- The ORB gate blocks updates for dissimilar images (scooterscratch.py:190-191).

The duplicate checks compare keys as SQL does (`Values.KeyMatches`): a NULL part of the key
equals nothing, so a key with a JSON `null` in it is never found and is always inserted.

## Model

| member | source | states |
|---|---|---|
| ScratchFabric.DetectScratchesOrDifferences | scratchfabric.py:106-173 | A new image that does not load gives False. A stored image that does not decode gives True. An unreachable stored URL or a raised analysis gives False. Otherwise True iff some contour's area is strictly above 30; the verdict is `AreaVerdict(obs, 30)`. |
| ScratchFabric.UpdateImagesForSegment | scratchfabric.py:176-211 | The result list and the committed UPDATEs of the nested loop are exactly those of the column-by-column, row-by-row fold `RunColumns`. |
| ScratchFabric.Post | scratchfabric.py:216-226 | A falsy `segment_id`, a falsy `model_type`, or an empty `image_paths` gives 400 with nothing looked up or written. Otherwise the answer is 200 with the update loop's result. |
| ScratchFabric.WritesOnlyForDetectedChanges | scratchfabric.py:183-206 | Every committed UPDATE writes the uploaded URL into its own column. It comes from a car row with a stored URL, a change verdict, a URL from the upload, and a committed statement. |
| ScratchFabric.DetectedChangesAreWritten | scratchfabric.py:183-206 | Every car row with a stored URL, a change verdict, a URL from the upload and a committed UPDATE writes that URL to its column. |
| ScratchFabric.RowEntry | scratchfabric.py:186-210 | A car row adds an entry iff it has a stored URL and either shows no change or its upload returns a URL. "No change" exactly when the stored image shows no change. "scratch detected and image updated" exactly when the row leads to a committed UPDATE. An error entry exactly when that UPDATE fails. |
| ScratchFabric.EntryOfRow | scratchfabric.py:180-211 | Entries come column by column, then row by row. A reported row `j` of column `i` has its `RowEntry` at the position after the reported rows of the earlier columns and of the earlier rows of its own column. |
| ScratchFabric.OneEntryPerReportedRow | scratchfabric.py:183-210 | The result has one entry per car row that has a stored URL and is either unchanged or had its upload succeed. A row without a URL adds no entry, and neither does a changed row whose upload fails. |
| Ishu.AnyAreaAbove | ishu.py:101 | The `any(...)` over contours is True iff some contour's area is strictly above the threshold. |
| Ishu.DetectScratchesOrDifferences | ishu.py:57-112 | A new image that does not decode gives False. A stored image that does not decode gives True. A raised fetch or analysis gives False. Otherwise True iff some contour's area is strictly above 10; the verdict is `AreaVerdict(obs, 10)`. |
| Ishu.CarEntry | ishu.py:154-182 | A car row's entry names its column. A row with a None or empty stored URL is still compared; the fetch raises, so its entry is "No scratch detected, no update made". "No scratch detected" exactly when the verdict is no change. "Updated with scratches detected" exactly when the verdict is a change and the UPDATE commits. "Error updating DB" exactly when the verdict is a change and the UPDATE fails. |
| Ishu.UpdateImagesForSegment | ishu.py:140-184 | The result list and the committed UPDATEs of the loop (with its `continue` on a failed upload) equal those of the fold `RunColumns`. |
| Ishu.EntriesPerColumn | ishu.py:145-184 | A column whose upload succeeds gives one entry per fetched car row. A column whose upload fails gives exactly one entry. |
| Ishu.EntryOfFailedUpload | ishu.py:147-150 | A column whose upload fails contributes "Failed to upload to Cloudinary" at its place in the result, and nothing else. |
| Ishu.EntryOfRow | ishu.py:145-184 | The entry of row `j` of column `i` sits at the number of entries of the earlier columns plus `j`. So entries are ordered by column and then by row. |
| Ishu.WritesOnlyForDetectedChanges | ishu.py:154-178 | Every committed UPDATE writes the column's uploaded URL for a car row with a change verdict whose UPDATE commits. |
| Ishu.DetectedChangesAreWritten | ishu.py:154-178 | Every car row with a change verdict and a committed UPDATE, in a column whose upload succeeded, writes that column's URL. |
| ScooterScratchFabric.DetectScratchesOrDifferences | scooterscratchfabric.py:83-118 | A new image that does not load gives False. A stored image that does not decode gives True. A raised fetch or analysis gives False. Otherwise the early-return loop gives True iff some contour's area is strictly above 10. |
| ScooterScratchFabric.UpdateScooters | scooterscratchfabric.py:132-175 | The responses and the committed UPDATEs of the nested loop equal those of the fold `RunColumns`. |
| ScooterScratchFabric.UploadImages | scooterscratchfabric.py:122-181 | A missing `model_type`, `segment_id` or `image_paths` key raises and gives 500. A falsy value gives 400. Either way nothing is written. Otherwise the answer is 200 with the loop's responses. |
| ScooterScratchFabric.OneResponsePerRow | scooterscratchfabric.py:137-175 | There is exactly one response per fetched scooter row. |
| ScooterScratchFabric.ResponseOfRow | scooterscratchfabric.py:137-175 | Row `j` of column `i` has its response at its place. That response is "File not found: <path>" when the new file is missing. It is "No scratches detected, image retained" when the stored URL is empty or nothing changed. It carries no status when the upload fails. |
| ScooterScratchFabric.WritesOnlyForDetectedChanges | scooterscratchfabric.py:141-168 | Every committed UPDATE writes the uploaded URL to its column. It comes from a row whose file exists, whose stored URL is set, whose verdict is True and whose upload returned a URL. |
| ScooterScratchFabric.DetectedChangesAreWritten | scooterscratchfabric.py:141-168 | Every such row whose UPDATE commits writes its uploaded URL. |
| ScooterScratch.RatioAboveCutoff | scooterscratch.py:89-90 | For a positive maximum keypoint count, `matches / max > 0.7` holds iff `10 * matches > 7 * max`. |
| ScooterScratch.CompareImagesForSimilarity | scooterscratch.py:77-94 | Similar iff both images decoded and ORB found descriptors. The larger keypoint count must also be positive, and matches must be strictly above 0.7 of it. No descriptors, a raise, and zero keypoints all give False. |
| ScooterScratch.AspectInBand | scooterscratch.py:133-138 | With `w/h` taken as 0 when `h == 0`, `0.5 < aspect < 10.0` holds iff `0 < h`, `h < 2w` and `w < 10h`. So zero-height boxes never qualify. |
| ScooterScratch.DetectScratches | scooterscratch.py:98-150 | A raised analysis gives False. Otherwise the loop with `break` answers True iff some contour has `5 < area < 1500` and an aspect ratio strictly between 0.5 and 10. |
| ScooterScratch.ProcessImages | scooterscratch.py:155-224 | A falsy `model_type`, `segment_id` or `files` gives 400. Otherwise the UPDATEs committed are those of the fold. The answer is 500 with no results when an image fetch raises, and 200 with the fold's responses otherwise. |
| ScooterScratch.AbortsIffSomeFetchRaises | scooterscratch.py:165-186 | The request ends in 500 exactly when some uploaded column has a scooter row with a stored URL whose new or stored image cannot be fetched. |
| ScooterScratch.OneResponsePerUploadedRow | scooterscratch.py:165-218 | Unless the request aborts, there is one response per scooter row of each column whose upload succeeded. A column whose upload fails contributes none. |
| ScooterScratch.ResponseOfRow | scooterscratch.py:173-218 | Unless the request aborts (some fetch raises), row `j` of an uploaded column `i` has its response at its place. That response is "No existing image found, no update made." for an empty stored URL and "Images are different, no update made." for dissimilar images. Otherwise it follows the scratch check and the UPDATE outcome. |
| ScooterScratch.WritesOnlyForSimilarScratchedImages | scooterscratch.py:188-209 | Every committed UPDATE writes the column's uploaded URL. It comes from a row whose images are similar, which has a scratch, and whose UPDATE commits. |
| ScooterScratch.SimilarScratchedImagesAreWritten | scooterscratch.py:188-209 | Unless the request aborts (some fetch raises), every row whose images are similar, which has a scratch, and whose UPDATE commits writes the column's uploaded URL. |
| CarRegistration.FirstMissing | john.py:102-105 | The answer is None iff every required field is present. Otherwise it is the first required field, in list order, that is absent. |
| CarRegistration.FindMissingField | ika.py:82-85 | The loop returns the first absent required field in list order, or None when all are present. |
| CarRegistration.CarsTable.InsertCarDetails | john.py:71-95 | A database error gives None and no change. A row the SELECT on `(segment_id, segment_name, model_type)` finds gives "already exists" and no INSERT. The SELECT compares as SQL does, so a key with a NULL part is never found and is always inserted. Otherwise exactly one row is appended. Its image columns are `image_urls.get(...)`: absent keys are NULL and extra keys are ignored. The duplicate check then finds that key exactly once (never, for a key with a NULL part). A table in which no row finds another stays that way. |
| CarRegistration.CarsTable.SaveCar | john.py:135-159 | No connection gives 500 "Database error occurred". A None result gives 500, "already exists" gives 200, and an insert gives 201. The table changes only by that insert. |
| CarRegistration.UniqueKeysCountAtMostOne | ika.py:53-59 | In a table in which no row finds another, the duplicate check finds at most one row for any key. |
| CarRegistration.InsertAbsentKey | ika.py:53-71 | Appending a row whose key the duplicate check does not find leaves exactly one row it finds (none when part of the key is NULL), and keeps no row finding another. |
| John.CollectUploads | john.py:117-130 | Every column is tried. A column that is accessible and uploads goes to `image_urls` with its URL. Every other column goes to `errors`: "not accessible" when the HEAD check fails, "Failed to upload" otherwise. The errors are empty iff every image uploads. |
| John.UrlFor | john.py:81-90 | The URL of the `image_paths` entry of a column, or None when there is no such column. |
| John.UploadCar | john.py:97-164 | A missing field gives 400 naming the first one missing. Any upload error gives 207, and no insert. The details hold exactly the failed columns, each with its error. Otherwise the `try` block runs with the row built from the uploaded URLs. |
| Ika.CollectImageFields | ika.py:98-113 | Only the five fixed fields are looked at. Each ends with a URL or an error. The error is "File not found" when the form has no file for the field and "Failed to upload" when the upload returns nothing. The errors are empty iff all five upload. |
| Ika.UploadedRecord | ika.py:116-131 | Once all five fields upload, the inserted row carries each field's URL, and all five image columns are set. |
| Ika.UploadCar | ika.py:77-148 | A missing field gives 400 naming the first one missing. Any image error gives 207, and no insert. The details hold exactly the failed image fields, each with its error ("File not found" or "Failed to upload"). Otherwise the `try` block runs. A 201 always leaves one new row with all five image columns set. |
| ScooterFabric.FirstRaised | scooterfabric.py:85-91 | The number of images before the first upload that raises. All earlier uploads succeed. |
| ScooterFabric.UploadImages | scooterfabric.py:84-91 | Images are uploaded in order, and each `secure_url` (possibly None) is stored under its column. The loop stops at the first raising upload, and no later image is handed to the uploader. |
| ScooterFabric.UrlFor | scooterfabric.py:114-118 | The `secure_url` of the image of a column, or None when there is no such column. |
| ScooterFabric.ScooterTable.SaveScooter | scooterfabric.py:93-123 | A database error before the INSERT gives 500 and no change. A key the SELECT finds (compared as SQL does) gives 409 and no change. An error at the INSERT gives 500 and no change. Otherwise one row is appended with 201. The UNIQUE-key invariant is kept. |
| ScooterFabric.UploadScooter | scooterfabric.py:67-123 | Any falsy one of the nine inputs gives 400 with nothing uploaded. The first raising upload gives 500 naming its column, with only the images up to it uploaded. Otherwise the `try` block runs with the row whose image columns are the uploaded URLs (absent gives NULL), and the table keeps its UNIQUE invariant. |

## Left out

- OpenCV's pixel work is not modelled: decoding, resizing, CLAHE, `absdiff`, normalisation,
  blur, Canny, morphology, contour finding, ORB and BFMatcher. These are foreign
  floating-point routines. The model takes their outcome as input: the decode results, the
  contour list (area and bounding box) and the ORB counts.
- The debug `cv2.imwrite` calls (scratchfabric.py:137-150, scooterscratch.py:143-144) are
  left out. They never affect a verdict.
- Network and storage are answers, not calls: `urlopen`, `requests.head`, Cloudinary, the S3
  client, `os.path.exists`. So are the database drivers and connection strings. Persistence
  in the scratch services is a log of committed `(column, url)` writes. In the registration
  services it is a table of rows.
- ScooterScratchFabric.UpdateScooters: `os.path.exists(new_image_path)` is called once per
  scooter row. It is modelled as one answer per column, because the path is the same for
  every row of a column.
- The `create_table` DDL (scooterfabric.py:40-64) is left out. Its UNIQUE constraint is kept
  as the table's invariant, and a failure while creating the table is one of the database
  errors before the INSERT.
- Races between the SELECT and the INSERT or UPDATE are out. The code is treated as
  single-threaded.
- The `finally` blocks that close cursors are not modelled. In scooterfabric.py:124-128 a
  failed connection leaves `cursor` unbound, and Flask then answers 500 as well.
- The lookup functions (`retrieve_image_url_from_db`) are not modelled as code. Their answer
  is the list of rows given for each column, and a lookup error is an empty list.
- Response bodies are tags. Where the source's text is fixed, a `Message()` function gives
  it. ScooterFabric's replies, the "already exists" text (which embeds the request's values)
  and exception texts stay as tags or detail strings.
- CarRegistration.InsertStatus: the test `"already exists" in result` is modelled as a test
  of the outcome tag. The success text never contains that phrase, and the duplicate text
  always does.
- A request body that is not a JSON object, and an `image_paths` that is not a dictionary,
  are out. So are the ishu.py `post` wrapper (ishu.py:187-211) and the Flask, flask_restx,
  CORS, dotenv and logging set-up.
- Only `pyodbc.Error` and `pymssql.Error` are modelled as database errors. Any other
  exception inside a handler's `try` is not.
- Request values are `Value`s with Python truthiness. Numbers are reals, and text is compared
  as character sequences without any normalisation.
- CarRegistration.CarsTable.InsertCarDetails: key parts are compared by `Values.SqlEq`, i.e.
  NULL matches nothing and other values match only a value of the same kind. The server's
  implicit conversions are not modelled: a text `"5"` against a numeric column, or
  collation rules such as case-insensitive or trailing-space-insensitive text comparison.
  The `cars` column types are not part of this model.
- ScooterFabric.ScooterTable.SaveScooter: the same comparison is used. `segment_id` is an
  `INT` column (scooterfabric.py:48), so the server converts a text `"5"` to 5. The model
  instead treats `"5"` and `5` as different keys and answers 201 where the server answers 409.
  A text the server cannot convert raises a database error (500), which the model does not
  produce either. A float `segment_id` is truncated on INSERT, and that is not modelled.
