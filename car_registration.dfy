/** What john.py and ika.py share word for word: the required-field check at the top of
    `upload_car`, the check-then-insert `insert_car_details` on the `cars` table, and the
    mapping of its outcome to an HTTP status. */
module CarRegistration {
  import opened Values

  /** The first field of `required`, in list order, that the request does not carry. */
  function FirstMissing(required: seq<string>, present: set<string>): (missing: Option<string>)
    ensures missing == None <==> forall k :: 0 <= k < |required| ==> required[k] in present
    ensures missing.Some? ==>
      exists k :: (0 <= k < |required| && required[k] == missing.value && missing.value !in present
                   && forall m :: 0 <= m < k ==> required[m] in present)
    decreases |required|
  {
    if required == [] then None
    else if required[0] !in present then Some(required[0])
    else
      var rest := FirstMissing(required[1..], present);
      assert forall m :: 1 <= m < |required| ==> required[m] == required[1..][m - 1];
      rest
  }

  /** `for field in required_fields: if field not in data: return ... 400`. */
  method FindMissingField(required: seq<string>, present: set<string>) returns (missing: Option<string>)
    ensures missing == FirstMissing(required, present)
    ensures missing.Some? ==> missing.value in required && missing.value !in present
  {
    var i := 0;
    while i < |required|
      invariant 0 <= i <= |required|
      invariant FirstMissing(required[i..], present) == FirstMissing(required, present)
    {
      assert required[i..][1..] == required[i + 1..];
      if required[i] !in present {
        return Some(required[i]);
      }
      i := i + 1;
    }
    return None;
  }

  /** The eight scalar columns of a `cars` row, as the request carries them. */
  datatype CarDetails = CarDetails(carName: Value, segmentId: Value, segmentName: Value, modelType: Value,
                                   year: Value, engineType: Value, fuelType: Value, price: Value)

  /** The eight `data[...]` reads of `upload_car`, once every required field is present. */
  function DetailsOf(data: map<string, Value>): CarDetails {
    CarDetails(Get(data, "car_name"), Get(data, "segment_id"), Get(data, "segment_name"),
               Get(data, "model_type"), Get(data, "year"), Get(data, "engine_type"),
               Get(data, "fuel_type"), Get(data, "price"))
  }

  function KeyOf(d: CarDetails): Key {
    Key(d.segmentId, d.segmentName, d.modelType)
  }

  /** A `cars` row; an image column is NULL (`None`) or a URL. */
  datatype CarRecord = CarRecord(details: CarDetails, imageData: Option<string>, frontView: Option<string>,
                                 backView: Option<string>, leftSideView: Option<string>, rightSideView: Option<string>)

  /** The row the INSERT adds: its five image columns come from `image_urls.get(...)`, so a
      missing key is NULL and keys other than the five are ignored. */
  function NewRecord(details: CarDetails, imageUrls: map<string, string>): CarRecord {
    CarRecord(details, Lookup(imageUrls, "image_data"), Lookup(imageUrls, "front_view"),
              Lookup(imageUrls, "back_view"), Lookup(imageUrls, "left_side_view"),
              Lookup(imageUrls, "right_side_view"))
  }

  /** The SELECT of the duplicate check finds a row. */
  predicate HasKey(rows: seq<CarRecord>, k: Key) {
    exists i :: 0 <= i < |rows| && KeyMatches(KeyOf(rows[i].details), k)
  }

  /** No row would find another in the duplicate check. */
  ghost predicate UniqueKeys(rows: seq<CarRecord>) {
    forall i, j :: 0 <= i < j < |rows| ==> !KeyMatches(KeyOf(rows[i].details), KeyOf(rows[j].details))
  }

  /** The number of rows the duplicate check for `k` selects. */
  function CountKey(rows: seq<CarRecord>, k: Key): nat
    decreases |rows|
  {
    if rows == [] then 0
    else CountKey(rows[..|rows| - 1], k) + (if KeyMatches(KeyOf(rows[|rows| - 1].details), k) then 1 else 0)
  }

  lemma {:induction false} AbsentKeyCountsZero(rows: seq<CarRecord>, k: Key)
    requires !HasKey(rows, k)
    ensures CountKey(rows, k) == 0
  {
    if rows != [] {
      var prefix := rows[..|rows| - 1];
      assert !HasKey(prefix, k) by {
        forall i | 0 <= i < |prefix| ensures !KeyMatches(KeyOf(prefix[i].details), k) {
          assert prefix[i] == rows[i];
        }
      }
      AbsentKeyCountsZero(prefix, k);
    }
  }

  /** In a table with at most one row per key, every key is counted at most once. */
  lemma {:induction false} UniqueKeysCountAtMostOne(rows: seq<CarRecord>, k: Key)
    requires UniqueKeys(rows)
    ensures CountKey(rows, k) <= 1
  {
    if rows != [] {
      var prefix, last := rows[..|rows| - 1], rows[|rows| - 1];
      assert UniqueKeys(prefix) by {
        forall i, j | 0 <= i < j < |prefix| ensures !KeyMatches(KeyOf(prefix[i].details), KeyOf(prefix[j].details)) {
          assert prefix[i] == rows[i] && prefix[j] == rows[j];
        }
      }
      UniqueKeysCountAtMostOne(prefix, k);
      if KeyMatches(KeyOf(last.details), k) {
        assert !HasKey(prefix, k) by {
          forall i | 0 <= i < |prefix| ensures !KeyMatches(KeyOf(prefix[i].details), k) {
            assert prefix[i] == rows[i];
          }
        }
        AbsentKeyCountsZero(prefix, k);
      }
    }
  }

  /** Adding a row whose key is absent leaves exactly one row the duplicate check finds (none
      when part of the key is NULL), and keeps no row finding another. */
  lemma {:induction false} InsertAbsentKey(rows: seq<CarRecord>, r: CarRecord)
    requires !HasKey(rows, KeyOf(r.details))
    ensures CountKey(rows + [r], KeyOf(r.details)) == if Comparable(KeyOf(r.details)) then 1 else 0
    ensures UniqueKeys(rows) ==> UniqueKeys(rows + [r])
  {
    assert (rows + [r])[..|rows|] == rows;
    AbsentKeyCountsZero(rows, KeyOf(r.details));
  }

  /** Where `insert_car_details` raises `pyodbc.Error`, if anywhere. */
  datatype DbFault = NoFault | FaultOnSelect | FaultOnInsert

  /** The two messages `insert_car_details` returns; `None` stands for a database error. */
  datatype InsertOutcome = AlreadyExists | Inserted

  /** The HTTP status `upload_car` gives the outcome: None (falsy) is 500, a message
      containing "already exists" is 200, the success message is 201. */
  function InsertStatus(result: Option<InsertOutcome>): int {
    match result
    case None => 500
    case Some(AlreadyExists) => 200
    case Some(Inserted) => 201
  }

  /** The body of each response of `upload_car`; `E` is the kind of upload error. */
  datatype Reply<E> =
    | MissingField(field: string)
    | SomeImagesFailed(details: map<string, E>)
    | InsertFailed
    | DatabaseErrorOccurred
    | Message(outcome: InsertOutcome)

  /** How the `try` block of `upload_car` ends, given the table before and after: no
      connection is "Database error occurred" with 500; otherwise the outcome of
      `insert_car_details` and its status, and the table changes only by adding `record`
      when the key is new and no database error occurs. */
  ghost predicate Saved<E>(before: seq<CarRecord>, after: seq<CarRecord>, record: CarRecord,
                           connects: bool, fault: DbFault, status: int, reply: Reply<E>)
  {
    var key := KeyOf(record.details);
    && (!connects ==> status == 500 && reply == DatabaseErrorOccurred && after == before)
    && (connects && fault == FaultOnSelect ==> status == 500 && reply == InsertFailed && after == before)
    && (connects && fault != FaultOnSelect && HasKey(before, key) ==>
          status == 200 && reply == Message(AlreadyExists) && after == before)
    && (connects && fault == FaultOnInsert && !HasKey(before, key) ==>
          status == 500 && reply == InsertFailed && after == before)
    && (connects && fault == NoFault && !HasKey(before, key) ==>
          status == 201 && reply == Message(Inserted) && after == before + [record]
          && CountKey(after, key) == if Comparable(key) then 1 else 0)
  }

  /** The `cars` table, as the SELECT and the INSERT of `insert_car_details` see it. */
  class CarsTable {
    var rows: seq<CarRecord>

    constructor (initial: seq<CarRecord>)
      ensures rows == initial
    {
      rows := initial;
    }

    /** Check-then-insert: a row the SELECT finds means "already exists" and no INSERT; a
        database error means None and no change; otherwise exactly one row is added. A key with
        a NULL part is never found, so it is always inserted. */
    method InsertCarDetails(details: CarDetails, imageUrls: map<string, string>, fault: DbFault)
      returns (result: Option<InsertOutcome>)
      modifies this
      ensures fault == FaultOnSelect ==> result == None && rows == old(rows)
      ensures fault != FaultOnSelect && HasKey(old(rows), KeyOf(details)) ==>
        result == Some(AlreadyExists) && rows == old(rows)
      ensures fault == FaultOnInsert && !HasKey(old(rows), KeyOf(details)) ==>
        result == None && rows == old(rows)
      ensures fault == NoFault && !HasKey(old(rows), KeyOf(details)) ==>
        && result == Some(Inserted)
        && rows == old(rows) + [NewRecord(details, imageUrls)]
        && CountKey(rows, KeyOf(details)) == if Comparable(KeyOf(details)) then 1 else 0
      ensures fault == NoFault && !Comparable(KeyOf(details)) ==>
        result == Some(Inserted) && rows == old(rows) + [NewRecord(details, imageUrls)]
      ensures UniqueKeys(old(rows)) ==> UniqueKeys(rows)
    {
      if fault == FaultOnSelect {
        return None;
      }
      if HasKey(rows, KeyOf(details)) {
        return Some(AlreadyExists);
      }
      if fault == FaultOnInsert {
        return None;
      }
      InsertAbsentKey(rows, NewRecord(details, imageUrls));
      rows := rows + [NewRecord(details, imageUrls)];
      return Some(Inserted);
    }

    /** The `try` block of `upload_car`: connect, `insert_car_details`, and the status of its
        outcome. */
    method SaveCar<E>(details: CarDetails, imageUrls: map<string, string>, connects: bool, fault: DbFault)
      returns (status: int, reply: Reply<E>)
      modifies this
      ensures Saved(old(rows), rows, NewRecord(details, imageUrls), connects, fault, status, reply)
      ensures UniqueKeys(old(rows)) ==> UniqueKeys(rows)
    {
      if !connects {
        return 500, DatabaseErrorOccurred;
      }
      var result := InsertCarDetails(details, imageUrls, fault);
      status := InsertStatus(result);
      if result.None? {
        reply := InsertFailed;
      } else {
        reply := Message(result.value);
      }
    }
  }
}
