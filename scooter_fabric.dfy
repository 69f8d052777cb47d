/** The scooter registration service (scooterfabric.py): truthiness validation of the nine
    inputs, the upload loop that stops at the first failure, and the check-then-insert into
    `scooter_ev`, whose `UNIQUE (segment_id, segment_name, model_type)` constraint is the
    table's invariant. */
module ScooterFabric {
  import opened Values

  /** The eight scalar fields of the request; with `image_paths` they are the nine inputs that
      must all be truthy. */
  const ScalarFields: seq<string> :=
    ["scooter_name", "segment_id", "segment_name", "model_type", "year", "motor_type", "battery_type", "price"]

  /** What `cloudinary.uploader.upload` does for one image: return a response whose
      `secure_url` may be missing, or raise. */
  datatype UploadOutcome = Uploaded(secureUrl: Option<string>) | UploadRaised(detail: string)

  /** One `column: image_path` item of `image_paths`, with the outcome of its upload. */
  datatype ImagePath = ImagePath(column: string, path: string, upload: UploadOutcome)

  /** `image_paths` is a dictionary: no column twice. */
  predicate DistinctColumns(paths: seq<ImagePath>) {
    forall i, j :: 0 <= i < j < |paths| ==> paths[i].column != paths[j].column
  }

  /** The nine inputs are all truthy; a missing or empty `image_paths` arrives as no paths. */
  predicate Complete(data: map<string, Value>, paths: seq<ImagePath>) {
    (forall i :: 0 <= i < |ScalarFields| ==> Truthy(Get(data, ScalarFields[i]))) && paths != []
  }

  /** The number of images before the first one whose upload raises. */
  function FirstRaised(paths: seq<ImagePath>): (n: nat)
    ensures n <= |paths|
    ensures forall k :: 0 <= k < n ==> paths[k].upload.Uploaded?
    ensures n < |paths| ==> paths[n].upload.UploadRaised?
    decreases |paths|
  {
    if paths == [] || paths[0].upload.UploadRaised? then 0
    else
      var rest := paths[1..];
      assert forall k :: 1 <= k < |paths| ==> paths[k] == rest[k - 1];
      1 + FirstRaised(rest)
  }

  /** The local path of each image, in order. */
  function PathsOf(paths: seq<ImagePath>): (r: seq<string>)
    ensures |r| == |paths| && forall k :: 0 <= k < |paths| ==> r[k] == paths[k].path
  {
    seq(|paths|, k requires 0 <= k < |paths| => paths[k].path)
  }

  /** The first `n` uploads succeeded, and `imageUrls` holds their URLs and nothing else. */
  ghost predicate UploadedSoFar(paths: seq<ImagePath>, n: nat, imageUrls: map<string, Option<string>>)
    requires n <= |paths|
  {
    && (forall k :: 0 <= k < n ==> paths[k].upload.Uploaded?)
    && (forall k :: 0 <= k < n ==>
          paths[k].column in imageUrls && imageUrls[paths[k].column] == paths[k].upload.secureUrl)
    && (forall c :: c in imageUrls ==> exists k :: 0 <= k < n && paths[k].column == c)
  }

  /** Storing one more successful upload keeps the earlier ones, as its column is new. */
  lemma UploadStep(paths: seq<ImagePath>, n: nat, imageUrls: map<string, Option<string>>)
    requires DistinctColumns(paths) && n < |paths| && paths[n].upload.Uploaded?
    requires UploadedSoFar(paths, n, imageUrls)
    ensures UploadedSoFar(paths, n + 1, imageUrls[paths[n].column := paths[n].upload.secureUrl])
  {
  }

  /** The upload loop: images are uploaded in order and each `secure_url` (possibly None) is
      stored under its column, until an upload raises; the images after that one are not
      uploaded. `calls` lists the paths handed to the uploader, in order. */
  method UploadImages(paths: seq<ImagePath>)
    returns (imageUrls: map<string, Option<string>>, uploaded: nat, calls: seq<string>)
    requires DistinctColumns(paths)
    ensures uploaded == FirstRaised(paths)
    ensures UploadedSoFar(paths, uploaded, imageUrls)
    ensures calls == PathsOf(paths)[..if uploaded < |paths| then uploaded + 1 else uploaded]
  {
    imageUrls, calls := map[], [];
    var i := 0;
    while i < |paths|
      invariant 0 <= i <= |paths|
      invariant UploadedSoFar(paths, i, imageUrls)
      invariant calls == PathsOf(paths)[..i]
    {
      var image := paths[i];
      assert PathsOf(paths)[..i + 1] == PathsOf(paths)[..i] + [image.path];
      calls := calls + [image.path];
      match image.upload {
        case UploadRaised(_) =>
          FirstRaisedAt(paths, i);
          return imageUrls, i, calls;
        case Uploaded(secureUrl) =>
          UploadStep(paths, i, imageUrls);
          imageUrls := imageUrls[image.column := secureUrl];
      }
      i := i + 1;
    }
    FirstRaisedAt(paths, i);
    uploaded := i;
  }

  /** The first `n` uploads succeed and the next one raises (or there is none): then `n` is
      where the loop stops. */
  lemma {:induction false} FirstRaisedAt(paths: seq<ImagePath>, n: nat)
    requires n <= |paths|
    requires forall k :: 0 <= k < n ==> paths[k].upload.Uploaded?
    requires n < |paths| ==> paths[n].upload.UploadRaised?
    ensures FirstRaised(paths) == n
    decreases n
  {
    if n > 0 {
      var rest := paths[1..];
      assert forall k :: 1 <= k < |paths| ==> paths[k] == rest[k - 1];
      FirstRaisedAt(rest, n - 1);
    }
  }

  datatype ScooterDetails = ScooterDetails(scooterName: Value, segmentId: Value, segmentName: Value,
                                           modelType: Value, year: Value, motorType: Value,
                                           batteryType: Value, price: Value)

  /** The eight `data.get(...)` reads of `upload_scooter`. */
  function DetailsOf(data: map<string, Value>): ScooterDetails {
    ScooterDetails(Get(data, "scooter_name"), Get(data, "segment_id"), Get(data, "segment_name"),
                   Get(data, "model_type"), Get(data, "year"), Get(data, "motor_type"),
                   Get(data, "battery_type"), Get(data, "price"))
  }

  function KeyOf(d: ScooterDetails): Key {
    Key(d.segmentId, d.segmentName, d.modelType)
  }

  /** A `scooter_ev` row; an image column is NULL (`None`) or a URL. */
  datatype ScooterRecord = ScooterRecord(details: ScooterDetails, imageData: Option<string>,
                                         frontView: Option<string>, backView: Option<string>,
                                         leftSideView: Option<string>, rightSideView: Option<string>)

  /** `image_urls.get(column)`: NULL when the column was not uploaded or had no `secure_url`. */
  function UrlOf(imageUrls: map<string, Option<string>>, column: string): Option<string> {
    if column in imageUrls then imageUrls[column] else None
  }

  /** The row the INSERT adds. */
  function NewRecord(details: ScooterDetails, imageUrls: map<string, Option<string>>): ScooterRecord {
    ScooterRecord(details, UrlOf(imageUrls, "image_data"), UrlOf(imageUrls, "front_view"),
                  UrlOf(imageUrls, "back_view"), UrlOf(imageUrls, "left_side_view"),
                  UrlOf(imageUrls, "right_side_view"))
  }

  /** The `secure_url` the upload of the image of `column` returns; None when `image_paths` has
      no such column or its upload returns no URL. */
  function UrlFor(paths: seq<ImagePath>, column: string): (url: Option<string>)
    requires DistinctColumns(paths)
    ensures forall k :: 0 <= k < |paths| && paths[k].column == column && paths[k].upload.Uploaded? ==>
      url == paths[k].upload.secureUrl
    ensures (forall k :: 0 <= k < |paths| ==> paths[k].column != column) ==> url == None
    decreases |paths|
  {
    if paths == [] then None
    else if paths[0].column == column then
      (match paths[0].upload case Uploaded(u) => u case UploadRaised(_) => None)
    else
      var rest := paths[1..];
      assert forall k :: 1 <= k < |paths| ==> paths[k] == rest[k - 1];
      UrlFor(rest, column)
  }

  /** The row `upload_scooter` inserts once every image has uploaded. */
  function InsertedRecord(data: map<string, Value>, paths: seq<ImagePath>): ScooterRecord
    requires DistinctColumns(paths)
  {
    ScooterRecord(DetailsOf(data), UrlFor(paths, "image_data"), UrlFor(paths, "front_view"),
                  UrlFor(paths, "back_view"), UrlFor(paths, "left_side_view"), UrlFor(paths, "right_side_view"))
  }

  /** Once every image uploads, looking a column up in the collected URLs gives the URL of
      that column's image. */
  lemma CollectedUrl(paths: seq<ImagePath>, imageUrls: map<string, Option<string>>, column: string)
    requires DistinctColumns(paths)
    requires UploadedSoFar(paths, |paths|, imageUrls)
    ensures UrlOf(imageUrls, column) == UrlFor(paths, column)
  {
    if k :| 0 <= k < |paths| && paths[k].column == column {
    } else {
      assert column !in imageUrls;
    }
  }

  /** The SELECT of the duplicate check finds a row. */
  predicate HasKey(rows: seq<ScooterRecord>, k: Key) {
    exists i :: 0 <= i < |rows| && KeyMatches(KeyOf(rows[i].details), k)
  }

  /** The UNIQUE constraint on `(segment_id, segment_name, model_type)`: no two rows agree on
      the key. */
  ghost predicate UniqueKeys(rows: seq<ScooterRecord>) {
    forall i, j :: 0 <= i < j < |rows| ==> !KeyMatches(KeyOf(rows[i].details), KeyOf(rows[j].details))
  }

  /** Where a `pyodbc.Error` interrupts the `try` block: while connecting, creating the table
      or running the SELECT, or at the INSERT. */
  datatype StoreFault = NoStoreFault | FaultBeforeInsert | FaultOnInsert

  /** The body of each response of `upload_scooter`. */
  datatype Reply =
    | MissingRequiredFields
    | UploadFailed(column: string, detail: string)
    | ModelAlreadyExists
    | ScooterUploaded(scooterName: Value)
    | DatabaseError

  /** How the `try` block ends, given the table before and after: a database error is 500
      and no change, an existing key is 409 and no change, otherwise the row is added and the
      answer is 201. */
  ghost predicate Stored(before: seq<ScooterRecord>, after: seq<ScooterRecord>, record: ScooterRecord,
                         fault: StoreFault, status: int, reply: Reply)
  {
    var key := KeyOf(record.details);
    && (fault == FaultBeforeInsert ==> status == 500 && reply == DatabaseError && after == before)
    && (fault != FaultBeforeInsert && HasKey(before, key) ==>
          status == 409 && reply == ModelAlreadyExists && after == before)
    && (fault == FaultOnInsert && !HasKey(before, key) ==>
          status == 500 && reply == DatabaseError && after == before)
    && (fault == NoStoreFault && !HasKey(before, key) ==>
          status == 201 && reply == ScooterUploaded(record.details.scooterName) && after == before + [record])
  }

  /** The `scooter_ev` table. */
  class ScooterTable {
    var rows: seq<ScooterRecord>

    ghost predicate Valid()
      reads this
    {
      UniqueKeys(rows)
    }

    constructor (initial: seq<ScooterRecord>)
      requires UniqueKeys(initial)
      ensures Valid() && rows == initial
    {
      rows := initial;
    }

    /** The `try` block of `upload_scooter`: connect, create the table if needed, look the key
        up, and insert when it is new. */
    method SaveScooter(details: ScooterDetails, imageUrls: map<string, Option<string>>, fault: StoreFault)
      returns (status: int, reply: Reply)
      requires Valid()
      modifies this
      ensures Valid()
      ensures Stored(old(rows), rows, NewRecord(details, imageUrls), fault, status, reply)
    {
      if fault == FaultBeforeInsert {
        return 500, DatabaseError;
      }
      if HasKey(rows, KeyOf(details)) {
        return 409, ModelAlreadyExists;
      }
      if fault == FaultOnInsert {
        return 500, DatabaseError;
      }
      rows := rows + [NewRecord(details, imageUrls)];
      return 201, ScooterUploaded(details.scooterName);
    }
  }

  /** The `/upload-scooter` handler. `data` is the JSON body's scalar fields, `paths` the items
      of its `image_paths`; `calls` lists the paths handed to the uploader. */
  method UploadScooter(table: ScooterTable, data: map<string, Value>, paths: seq<ImagePath>, fault: StoreFault)
    returns (status: int, reply: Reply, calls: seq<string>)
    requires table.Valid() && DistinctColumns(paths)
    modifies table
    ensures table.Valid()
    ensures !Complete(data, paths) ==>
      status == 400 && reply == MissingRequiredFields && calls == [] && table.rows == old(table.rows)
    ensures Complete(data, paths) && FirstRaised(paths) < |paths| ==>
      var failed := paths[FirstRaised(paths)];
      && status == 500 && reply == UploadFailed(failed.column, failed.upload.detail)
      && calls == PathsOf(paths)[..FirstRaised(paths) + 1] && table.rows == old(table.rows)
    ensures Complete(data, paths) && FirstRaised(paths) == |paths| ==>
      calls == PathsOf(paths) && Stored(old(table.rows), table.rows, InsertedRecord(data, paths), fault, status, reply)
  {
    if !Complete(data, paths) {
      return 400, MissingRequiredFields, [];
    }
    var imageUrls, uploaded;
    imageUrls, uploaded, calls := UploadImages(paths);
    assert PathsOf(paths)[..|paths|] == PathsOf(paths);
    if uploaded < |paths| {
      var failed := paths[uploaded];
      return 500, UploadFailed(failed.column, failed.upload.detail), calls;
    }
    assert NewRecord(DetailsOf(data), imageUrls) == InsertedRecord(data, paths) by {
      CollectedUrl(paths, imageUrls, "image_data");
      CollectedUrl(paths, imageUrls, "front_view");
      CollectedUrl(paths, imageUrls, "back_view");
      CollectedUrl(paths, imageUrls, "left_side_view");
      CollectedUrl(paths, imageUrls, "right_side_view");
    }
    status, reply := table.SaveScooter(DetailsOf(data), imageUrls, fault);
  }
}
