/** The car registration service that takes image files in a form (ika.py): required-field
    validation, the loop over the five fixed image fields, and the check-then-insert into
    `cars`. */
module Ika {
  import opened Values
  import opened CarRegistration

  /** The eight form fields `upload_car` demands, in the order it checks them. */
  const RequiredFields: seq<string> :=
    ["car_name", "segment_id", "segment_name", "model_type", "year", "engine_type", "fuel_type", "price"]

  /** The five image fields, each of which must come with a file. */
  const ImageFields: seq<string> := ["image_data", "front_view", "back_view", "left_side_view", "right_side_view"]

  datatype FileError = FileNotFound | UploadFailed
  {
    function Message(field: string): string {
      match this
      case FileNotFound => "File not found for " + field
      case UploadFailed => "Failed to upload image for " + field
    }
  }

  /** The file of `field` is in the form and its upload returns a URL. */
  predicate Uploads(files: map<string, Option<string>>, field: string) {
    field in files && Present(files[field])
  }

  /** Every one of the five image fields comes with a file whose upload returns a URL. */
  predicate AllUploaded(files: map<string, Option<string>>) {
    forall i :: 0 <= i < |ImageFields| ==> Uploads(files, ImageFields[i])
  }

  /** Every image field that does not upload has its error: "File not found" when the form
      has no such file, "Failed to upload" when it has one. */
  predicate ErrorsReported(files: map<string, Option<string>>, errors: map<string, FileError>) {
    forall i :: 0 <= i < |ImageFields| && !Uploads(files, ImageFields[i]) ==>
      ImageFields[i] in errors && errors[ImageFields[i]] == (if ImageFields[i] in files then UploadFailed else FileNotFound)
  }

  /** The image loop. `files` maps each file field of the form to the `secure_url` its upload
      returns (None when the upload raises). Every one of the five fields ends up either with
      a URL or with an error, and only those five are looked at. */
  method CollectImageFields(files: map<string, Option<string>>)
    returns (imageUrls: map<string, string>, errors: map<string, FileError>)
    ensures forall f :: f in imageUrls ==> f in ImageFields
    ensures forall f :: f in errors ==> f in ImageFields
    ensures forall i :: 0 <= i < |ImageFields| ==> (ImageFields[i] in imageUrls <==> Uploads(files, ImageFields[i]))
    ensures forall i :: 0 <= i < |ImageFields| ==> (ImageFields[i] in errors <==> !Uploads(files, ImageFields[i]))
    ensures forall f :: f in imageUrls ==> Uploads(files, f) && imageUrls[f] == files[f].value
    ensures forall f :: f in errors ==> errors[f] == (if f in files then UploadFailed else FileNotFound)
    ensures ErrorsReported(files, errors)
    ensures errors == map[] <==> AllUploaded(files)
  {
    imageUrls, errors := map[], map[];
    var i := 0;
    while i < |ImageFields|
      invariant 0 <= i <= |ImageFields|
      invariant forall f :: f in imageUrls ==> f in ImageFields[..i]
      invariant forall f :: f in errors ==> f in ImageFields[..i]
      invariant forall k :: 0 <= k < i ==> (ImageFields[k] in imageUrls <==> Uploads(files, ImageFields[k]))
      invariant forall k :: 0 <= k < i ==> (ImageFields[k] in errors <==> !Uploads(files, ImageFields[k]))
      invariant forall f :: f in imageUrls ==> Uploads(files, f) && imageUrls[f] == files[f].value
      invariant forall f :: f in errors ==> errors[f] == (if f in files then UploadFailed else FileNotFound)
    {
      var field := ImageFields[i];
      assert ImageFields[..i + 1] == ImageFields[..i] + [field];
      if field in files {
        var imageUrl := files[field];
        if Present(imageUrl) {
          imageUrls := imageUrls[field := imageUrl.value];
        } else {
          errors := errors[field := UploadFailed];
        }
      } else {
        errors := errors[field := FileNotFound];
      }
      i := i + 1;
    }
    assert ImageFields[..i] == ImageFields;
    if errors != map[] {
      var f :| f in errors;
      var k :| 0 <= k < |ImageFields| && ImageFields[k] == f;
      assert !Uploads(files, ImageFields[k]);
    }
  }

  /** The URL the upload of the file of `field` returns; None when the form has no such file. */
  function FileUrl(files: map<string, Option<string>>, field: string): Option<string> {
    if field in files then files[field] else None
  }

  /** The row `upload_car` inserts: the form's fields, and the URL of each image field. */
  function InsertedRecord(data: map<string, Value>, files: map<string, Option<string>>): CarRecord {
    CarRecord(DetailsOf(data), FileUrl(files, "image_data"), FileUrl(files, "front_view"),
              FileUrl(files, "back_view"), FileUrl(files, "left_side_view"), FileUrl(files, "right_side_view"))
  }

  /** All five image columns of the row are set. */
  predicate AllImagesSet(r: CarRecord) {
    Present(r.imageData) && Present(r.frontView) && Present(r.backView)
    && Present(r.leftSideView) && Present(r.rightSideView)
  }

  /** Once all five fields upload, the row built from the collected URLs is the row of the
      form's files, and all its image columns are set. */
  lemma UploadedRecord(data: map<string, Value>, files: map<string, Option<string>>, imageUrls: map<string, string>)
    requires AllUploaded(files)
    requires forall i :: 0 <= i < |ImageFields| ==> (ImageFields[i] in imageUrls <==> Uploads(files, ImageFields[i]))
    requires forall f :: f in imageUrls ==> Uploads(files, f) && imageUrls[f] == files[f].value
    ensures NewRecord(DetailsOf(data), imageUrls) == InsertedRecord(data, files)
    ensures AllImagesSet(InsertedRecord(data, files))
  {
    assert Lookup(imageUrls, ImageFields[0]) == FileUrl(files, ImageFields[0]);
    assert Lookup(imageUrls, ImageFields[1]) == FileUrl(files, ImageFields[1]);
    assert Lookup(imageUrls, ImageFields[2]) == FileUrl(files, ImageFields[2]);
    assert Lookup(imageUrls, ImageFields[3]) == FileUrl(files, ImageFields[3]);
    assert Lookup(imageUrls, ImageFields[4]) == FileUrl(files, ImageFields[4]);
  }

  /** The `/upload_car` handler. `data` is the form's text fields, `files` its file fields with
      their upload answers; `connects` says whether the database connection opens and `fault`
      where `insert_car_details` meets a database error. */
  method UploadCar(table: CarsTable, data: map<string, Value>, files: map<string, Option<string>>,
                   connects: bool, fault: DbFault)
    returns (status: int, reply: Reply<FileError>)
    modifies table
    ensures FirstMissing(RequiredFields, data.Keys).Some? ==>
      status == 400 && reply == MissingField(FirstMissing(RequiredFields, data.Keys).value)
      && table.rows == old(table.rows)
    ensures FirstMissing(RequiredFields, data.Keys) == None && !AllUploaded(files) ==>
      status == 207 && reply.SomeImagesFailed? && table.rows == old(table.rows)
      && ErrorsReported(files, reply.details)
      && (forall f :: f in reply.details ==> f in ImageFields && !Uploads(files, f))
    ensures FirstMissing(RequiredFields, data.Keys) == None && AllUploaded(files) ==>
      Saved(old(table.rows), table.rows, InsertedRecord(data, files), connects, fault, status, reply)
    ensures status == 201 ==>
      |table.rows| == |old(table.rows)| + 1 && AllImagesSet(table.rows[|table.rows| - 1])
    ensures UniqueKeys(old(table.rows)) ==> UniqueKeys(table.rows)
  {
    var missing := FindMissingField(RequiredFields, data.Keys);
    if missing.Some? {
      return 400, MissingField(missing.value);
    }
    var imageUrls, errors := CollectImageFields(files);
    if errors != map[] {
      return 207, SomeImagesFailed(errors);
    }
    UploadedRecord(data, files, imageUrls);
    status, reply := table.SaveCar(DetailsOf(data), imageUrls, connects, fault);
  }
}
