/** The car registration service that pulls images from S3 URLs (john.py): required-field
    validation, the upload loop that collects URLs and errors per column, and the
    check-then-insert into `cars`. */
module John {
  import opened Values
  import opened CarRegistration

  /** The nine fields `upload_car` demands, in the order it checks them. */
  const RequiredFields: seq<string> :=
    ["car_name", "segment_id", "segment_name", "model_type", "year", "engine_type", "fuel_type",
     "price", "image_paths"]

  /** One `column: s3_url` item of `image_paths`, with what the world answers for it: whether
      the HEAD request returns 200, and the `secure_url` the upload returns (None when it
      raises or returns nothing). */
  datatype S3Image = S3Image(column: string, s3Url: string, accessible: bool, upload: Option<string>)

  /** `image_paths` is a dictionary: no column twice. */
  predicate DistinctColumns(images: seq<S3Image>) {
    forall i, j :: 0 <= i < j < |images| ==> images[i].column != images[j].column
  }

  /** The image reaches Cloudinary and yields a URL. */
  predicate Uploads(im: S3Image) {
    im.accessible && Present(im.upload)
  }

  datatype UploadError = NotAccessible | UploadFailed
  {
    function Message(column: string): string {
      match this
      case NotAccessible => "S3 URL for " + column + " is not accessible"
      case UploadFailed => "Failed to upload image for " + column
    }
  }

  /** The error recorded for an image that does not upload: an inaccessible URL is not
      uploaded at all. */
  function ErrorOf(im: S3Image): UploadError {
    if !im.accessible then NotAccessible else UploadFailed
  }

  /** Of the first `n` images, exactly those that upload have their URL in `imageUrls`. */
  ghost predicate UrlsCollected(images: seq<S3Image>, n: nat, imageUrls: map<string, string>)
    requires n <= |images|
  {
    && (forall k :: 0 <= k < n ==> (images[k].column in imageUrls <==> Uploads(images[k])))
    && (forall k :: 0 <= k < n && Uploads(images[k]) ==> imageUrls[images[k].column] == images[k].upload.value)
    && (forall c :: c in imageUrls ==> exists k :: 0 <= k < n && images[k].column == c)
  }

  /** Of the first `n` images, exactly those that do not upload have their error in `errors`. */
  ghost predicate ErrorsCollected(images: seq<S3Image>, n: nat, errors: map<string, UploadError>)
    requires n <= |images|
  {
    && (forall k :: 0 <= k < n ==> (images[k].column in errors <==> !Uploads(images[k])))
    && (forall k :: 0 <= k < n && !Uploads(images[k]) ==> errors[images[k].column] == ErrorOf(images[k]))
    && (forall c :: c in errors ==> exists k :: 0 <= k < n && images[k].column == c)
  }

  /** The first `n` images are sorted into `imageUrls` and `errors`, and nothing else is. */
  ghost predicate Collected(images: seq<S3Image>, n: nat, imageUrls: map<string, string>, errors: map<string, UploadError>)
    requires n <= |images|
  {
    UrlsCollected(images, n, imageUrls) && ErrorsCollected(images, n, errors)
  }

  /** Sorting one more image keeps the earlier URLs where they are, as its column is new. */
  lemma UrlsStep(images: seq<S3Image>, n: nat, imageUrls: map<string, string>)
    requires DistinctColumns(images) && n < |images| && UrlsCollected(images, n, imageUrls)
    ensures var im := images[n];
      UrlsCollected(images, n + 1, if Uploads(im) then imageUrls[im.column := im.upload.value] else imageUrls)
  {
    var im := images[n];
    assert forall k :: 0 <= k < n ==> images[k].column != im.column;
    if !Uploads(im) {
      assert im.column !in imageUrls;
    }
  }

  /** Sorting one more image keeps the earlier errors where they are, as its column is new. */
  lemma ErrorsStep(images: seq<S3Image>, n: nat, errors: map<string, UploadError>)
    requires DistinctColumns(images) && n < |images| && ErrorsCollected(images, n, errors)
    ensures var im := images[n];
      ErrorsCollected(images, n + 1, if Uploads(im) then errors else errors[im.column := ErrorOf(im)])
  {
    var im := images[n];
    assert forall k :: 0 <= k < n ==> images[k].column != im.column;
    if Uploads(im) {
      assert im.column !in errors;
    }
  }

  /** The upload loop: every column is tried; one that uploads goes to `imageUrls`, one that
      does not goes to `errors`, and a failure does not stop the loop. */
  method CollectUploads(images: seq<S3Image>) returns (imageUrls: map<string, string>, errors: map<string, UploadError>)
    requires DistinctColumns(images)
    ensures Collected(images, |images|, imageUrls, errors)
    ensures errors == map[] <==> forall k :: 0 <= k < |images| ==> Uploads(images[k])
  {
    imageUrls, errors := map[], map[];
    var i := 0;
    while i < |images|
      invariant 0 <= i <= |images|
      invariant Collected(images, i, imageUrls, errors)
    {
      var im := images[i];
      UrlsStep(images, i, imageUrls);
      ErrorsStep(images, i, errors);
      if !im.accessible {
        errors := errors[im.column := NotAccessible];
      } else if Present(im.upload) {
        imageUrls := imageUrls[im.column := im.upload.value];
      } else {
        errors := errors[im.column := UploadFailed];
      }
      i := i + 1;
    }
    if errors == map[] {
      forall k | 0 <= k < |images| ensures Uploads(images[k]) {
        assert images[k].column !in errors;
      }
    } else {
      var c :| c in errors;
      var k :| 0 <= k < |images| && images[k].column == c;
      assert !Uploads(images[k]);
    }
  }

  /** The `secure_url` of the image of `column`, None when `image_paths` has no such column. */
  function UrlFor(images: seq<S3Image>, column: string): (url: Option<string>)
    requires DistinctColumns(images)
    ensures forall k :: 0 <= k < |images| && images[k].column == column ==> url == images[k].upload
    ensures (forall k :: 0 <= k < |images| ==> images[k].column != column) ==> url == None
    decreases |images|
  {
    if images == [] then None
    else if images[0].column == column then images[0].upload
    else
      var rest := images[1..];
      assert forall k :: 1 <= k < |images| ==> images[k] == rest[k - 1];
      UrlFor(rest, column)
  }

  /** The row `upload_car` inserts: the request's fields, and the URL of each of the five
      image columns (NULL when `image_paths` has no such column). */
  function InsertedRecord(data: map<string, Value>, images: seq<S3Image>): CarRecord
    requires DistinctColumns(images)
  {
    CarRecord(DetailsOf(data), UrlFor(images, "image_data"), UrlFor(images, "front_view"),
              UrlFor(images, "back_view"), UrlFor(images, "left_side_view"), UrlFor(images, "right_side_view"))
  }

  /** Once every image uploads, looking a column up in the collected URLs gives the URL of
      that column's image. */
  lemma CollectedUrl(images: seq<S3Image>, imageUrls: map<string, string>, column: string)
    requires DistinctColumns(images)
    requires forall k :: 0 <= k < |images| ==> Uploads(images[k])
    requires Collected(images, |images|, imageUrls, map[])
    ensures Lookup(imageUrls, column) == UrlFor(images, column)
  {
    if k :| 0 <= k < |images| && images[k].column == column {
      assert Uploads(images[k]);
    } else {
      assert column !in imageUrls;
    }
  }

  /** The `/upload_car` handler. `data` is the JSON body's scalar fields, `images` the items of
      its `image_paths`; `connects` says whether the database connection opens and `fault`
      where `insert_car_details` meets a database error. */
  method UploadCar(table: CarsTable, data: map<string, Value>, images: seq<S3Image>, connects: bool, fault: DbFault)
    returns (status: int, reply: Reply<UploadError>)
    requires DistinctColumns(images)
    modifies table
    ensures FirstMissing(RequiredFields, data.Keys).Some? ==>
      status == 400 && reply == MissingField(FirstMissing(RequiredFields, data.Keys).value)
      && table.rows == old(table.rows)
    ensures FirstMissing(RequiredFields, data.Keys) == None && (exists k :: 0 <= k < |images| && !Uploads(images[k])) ==>
      status == 207 && reply.SomeImagesFailed? && table.rows == old(table.rows)
      && ErrorsCollected(images, |images|, reply.details)
    ensures FirstMissing(RequiredFields, data.Keys) == None && (forall k :: 0 <= k < |images| ==> Uploads(images[k])) ==>
      Saved(old(table.rows), table.rows, InsertedRecord(data, images), connects, fault, status, reply)
    ensures UniqueKeys(old(table.rows)) ==> UniqueKeys(table.rows)
  {
    var missing := FindMissingField(RequiredFields, data.Keys);
    if missing.Some? {
      return 400, MissingField(missing.value);
    }
    var imageUrls, errors := CollectUploads(images);
    if errors != map[] {
      return 207, SomeImagesFailed(errors);
    }
    assert NewRecord(DetailsOf(data), imageUrls) == InsertedRecord(data, images) by {
      CollectedUrl(images, imageUrls, "image_data");
      CollectedUrl(images, imageUrls, "front_view");
      CollectedUrl(images, imageUrls, "back_view");
      CollectedUrl(images, imageUrls, "left_side_view");
      CollectedUrl(images, imageUrls, "right_side_view");
    }
    status, reply := table.SaveCar(DetailsOf(data), imageUrls, connects, fault);
  }
}
