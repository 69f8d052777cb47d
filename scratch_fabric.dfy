/** The car service that takes local image paths (scratchfabric.py): an area-threshold
    detector with a flag loop, and the per-column update of every matching car row. */
module ScratchFabric {
  import opened Values

  /** A contour counts as a scratch when its area is strictly above this. */
  const AreaThreshold: real := 30.0

  /** The detector: a new image that does not load means "no change", a stored image that
      does not decode means "changed", any exception means "no change"; otherwise the flag
      loop sets the verdict when some contour's area is strictly above 30. */
  method DetectScratchesOrDifferences(obs: Observation) returns (detected: bool)
    ensures obs.newImage != Decoded ==> !detected
    ensures obs.newImage == Decoded && obs.existingImage == Undecodable ==> detected
    ensures obs.existingImage == Unreachable ==> !detected
    ensures obs.existingImage == Decoded && obs.analysis == AnalysisRaised ==> !detected
    ensures obs.newImage == Decoded && obs.existingImage == Decoded && obs.analysis.Contours? ==>
      (detected <==> exists k :: 0 <= k < |obs.analysis.found| && obs.analysis.found[k].area > 30.0)
    ensures detected == AreaVerdict(obs, AreaThreshold)
  {
    if obs.newImage != Decoded {
      return false;
    }
    if obs.existingImage == Unreachable {
      // urlopen raised inside the try block
      return false;
    }
    if obs.existingImage == Undecodable {
      return true;
    }
    match obs.analysis {
      case AnalysisRaised =>
        return false;
      case Contours(cs) =>
        var scratchDetected := false;
        var i := 0;
        while i < |cs|
          invariant 0 <= i <= |cs|
          invariant scratchDetected <==> exists k :: 0 <= k < i && cs[k].area > AreaThreshold
        {
          if cs[i].area > AreaThreshold {
            scratchDetected := true;
          }
          i := i + 1;
        }
        return scratchDetected;
    }
  }

  /** One car row fetched for a column, with the answers the collaborators give for it:
      the stored URL, what the detector observes, what the upload returns and what the
      UPDATE does. An answer is used only when the code asks for it. */
  datatype CarRow = CarRow(imageUrl: Option<string>, evidence: Observation,
                           upload: Option<string>, update: DbOutcome)

  /** One `(column, new image path)` item of `image_paths`, with the car rows the lookup
      returns for that column (none when the lookup fails). */
  datatype Column = Column(name: string, newImagePath: string, cars: seq<CarRow>)

  datatype Status = ImageUpdated | UpdateError(detail: string) | NoChange
  {
    function Message(): string {
      match this
      case ImageUpdated => "scratch detected and image updated"
      case UpdateError(e) => "Error: " + e
      case NoChange => "No change"
    }
  }

  datatype Entry = Entry(column: string, status: Status)

  /** The result list built so far and the UPDATEs committed so far. */
  datatype Run = Run(result: seq<Entry>, writes: seq<Write>)

  /** The car row is compared and shows a change. */
  predicate Detected(car: CarRow) {
    Present(car.imageUrl) && AreaVerdict(car.evidence, AreaThreshold)
  }

  /** The car row leads to a committed UPDATE. */
  predicate Updates(car: CarRow) {
    Detected(car) && Present(car.upload) && car.update == Committed
  }

  /** The car row puts an entry in the result list. */
  predicate Reported(car: CarRow) {
    Present(car.imageUrl) && (!Detected(car) || Present(car.upload))
  }

  /** The entry the inner loop appends for one car row, if any: "No change" for a stored
      image that shows no change, the UPDATE's outcome for a changed row whose upload returns
      a URL, and nothing for a row without a stored URL or a changed row whose upload fails. */
  function RowEntry(column: string, car: CarRow): (e: Option<Entry>)
    ensures e.Some? <==> Reported(car)
    ensures e.Some? ==> e.value.column == column
    ensures e == Some(Entry(column, NoChange)) <==> Present(car.imageUrl) && !Detected(car)
    ensures e == Some(Entry(column, ImageUpdated)) <==> Updates(car)
    ensures e.Some? && e.value.status.UpdateError? <==>
      Detected(car) && Present(car.upload) && car.update.DbError?
  {
    if !Present(car.imageUrl) then None
    else if !AreaVerdict(car.evidence, AreaThreshold) then Some(Entry(column, NoChange))
    else if !Present(car.upload) then None
    else match car.update
      case Committed => Some(Entry(column, ImageUpdated))
      case DbError(e) => Some(Entry(column, UpdateError(e)))
  }

  /** The body of the inner loop, for one car row. */
  function Step(run: Run, column: string, car: CarRow): Run {
    var entry := RowEntry(column, car);
    Run(if entry.Some? then run.result + [entry.value] else run.result,
        if Updates(car) then run.writes + [Write(column, car.upload.value)] else run.writes)
  }

  /** The run after the first `n` car rows of column `c`. */
  function RunCars(run: Run, c: Column, n: nat): Run
    requires n <= |c.cars|
    decreases n
  {
    if n == 0 then run else Step(RunCars(run, c, n - 1), c.name, c.cars[n - 1])
  }

  /** The run after every car row of every column, columns in order. */
  function RunColumns(cols: seq<Column>): Run
    decreases |cols|
  {
    if cols == [] then Run([], [])
    else
      var last := cols[|cols| - 1];
      RunCars(RunColumns(cols[..|cols| - 1]), last, |last.cars|)
  }

  method UpdateImagesForSegment(columns: seq<Column>) returns (result: seq<Entry>, writes: seq<Write>)
    ensures Run(result, writes) == RunColumns(columns)
  {
    result, writes := [], [];
    var i := 0;
    while i < |columns|
      invariant 0 <= i <= |columns|
      invariant Run(result, writes) == RunColumns(columns[..i])
    {
      var column := columns[i];
      var j := 0;
      while j < |column.cars|
        invariant 0 <= j <= |column.cars|
        invariant Run(result, writes) == RunCars(RunColumns(columns[..i]), column, j)
      {
        var car := column.cars[j];
        if Present(car.imageUrl) {
          var issuesDetected := DetectScratchesOrDifferences(car.evidence);
          if issuesDetected {
            if Present(car.upload) {
              match car.update {
                case Committed =>
                  writes := writes + [Write(column.name, car.upload.value)];
                  result := result + [Entry(column.name, ImageUpdated)];
                case DbError(e) =>
                  result := result + [Entry(column.name, UpdateError(e))];
              }
            }
          } else {
            result := result + [Entry(column.name, NoChange)];
          }
        }
        j := j + 1;
      }
      assert columns[..i + 1][..i] == columns[..i];
      i := i + 1;
    }
    assert columns[..|columns|] == columns;
  }

  /** The `/upload-images` handler: falsy `segment_id`, `model_type` or `image_paths`
      answers 400 before anything is looked up; otherwise the result list, with 200. */
  method Post(segmentId: Value, modelType: Value, imagePaths: seq<Column>)
    returns (status: int, result: seq<Entry>, writes: seq<Write>)
    ensures !Truthy(segmentId) || !Truthy(modelType) || imagePaths == [] ==>
      status == 400 && result == [] && writes == []
    ensures Truthy(segmentId) && Truthy(modelType) && imagePaths != [] ==>
      status == 200 && Run(result, writes) == RunColumns(imagePaths)
  {
    if !Truthy(segmentId) || !Truthy(modelType) || imagePaths == [] {
      return 400, [], [];
    }
    result, writes := UpdateImagesForSegment(imagePaths);
    status := 200;
  }

  // ---------------------------------------------------------------------------
  // Properties of the update loop

  /** `w` is the uploaded URL of some car row that leads to a committed UPDATE, written to its column. */
  ghost predicate FromUpdatingRow(cols: seq<Column>, w: Write) {
    exists i, j :: 0 <= i < |cols| && 0 <= j < |cols[i].cars| && Updates(cols[i].cars[j])
      && w == Write(cols[i].name, cols[i].cars[j].upload.value)
  }

  lemma {:induction false} RunCarsWritesFrom(run: Run, c: Column, n: nat)
    requires n <= |c.cars|
    ensures forall w :: w in RunCars(run, c, n).writes ==>
      w in run.writes ||
      exists j :: 0 <= j < n && Updates(c.cars[j]) && w == Write(c.name, c.cars[j].upload.value)
  {
    if n > 0 {
      RunCarsWritesFrom(run, c, n - 1);
    }
  }

  /** An UPDATE of a column happens only for a car row whose stored URL is set, whose
      images differ, and whose upload returned a URL; the value written is that URL. */
  lemma {:induction false} WritesOnlyForDetectedChanges(cols: seq<Column>)
    ensures forall w :: w in RunColumns(cols).writes ==> FromUpdatingRow(cols, w)
  {
    if cols != [] {
      var prefix, last := cols[..|cols| - 1], cols[|cols| - 1];
      WritesOnlyForDetectedChanges(prefix);
      RunCarsWritesFrom(RunColumns(prefix), last, |last.cars|);
      forall w | w in RunColumns(cols).writes
        ensures FromUpdatingRow(cols, w)
      {
        if w in RunColumns(prefix).writes {
          var i, j :| 0 <= i < |prefix| && 0 <= j < |prefix[i].cars| && Updates(prefix[i].cars[j])
            && w == Write(prefix[i].name, prefix[i].cars[j].upload.value);
          assert cols[i] == prefix[i];
        } else {
          var j :| 0 <= j < |last.cars| && Updates(last.cars[j]) && w == Write(last.name, last.cars[j].upload.value);
          assert cols[|cols| - 1] == last;
        }
      }
    }
  }

  lemma {:induction false} RunCarsKeepsWrites(run: Run, c: Column, n: nat)
    requires n <= |c.cars|
    ensures forall w :: w in run.writes ==> w in RunCars(run, c, n).writes
  {
    if n > 0 {
      RunCarsKeepsWrites(run, c, n - 1);
    }
  }

  lemma {:induction false} RunCarsWritesRow(run: Run, c: Column, j: nat, n: nat)
    requires j < n <= |c.cars| && Updates(c.cars[j])
    ensures Write(c.name, c.cars[j].upload.value) in RunCars(run, c, n).writes
  {
    if n - 1 == j {
    } else {
      RunCarsWritesRow(run, c, j, n - 1);
    }
  }

  /** Every car row whose images differ, whose upload succeeds and whose UPDATE commits
      writes its uploaded URL to its column. */
  lemma {:induction false} DetectedChangesAreWritten(cols: seq<Column>, i: nat, j: nat)
    requires i < |cols| && j < |cols[i].cars| && Updates(cols[i].cars[j])
    ensures Write(cols[i].name, cols[i].cars[j].upload.value) in RunColumns(cols).writes
  {
    var prefix, last := cols[..|cols| - 1], cols[|cols| - 1];
    if i == |cols| - 1 {
      RunCarsWritesRow(RunColumns(prefix), last, j, |last.cars|);
    } else {
      assert prefix[i] == cols[i];
      DetectedChangesAreWritten(prefix, i, j);
      RunCarsKeepsWrites(RunColumns(prefix), last, |last.cars|);
    }
  }

  /** The number of the first `n` car rows that put an entry in the result. */
  function CountReported(cars: seq<CarRow>, n: nat): nat
    requires n <= |cars|
    decreases n
  {
    if n == 0 then 0 else CountReported(cars, n - 1) + (if Reported(cars[n - 1]) then 1 else 0)
  }

  /** The number of car rows, over all columns, that put an entry in the result. */
  function ReportedRows(cols: seq<Column>): nat
    decreases |cols|
  {
    if cols == [] then 0
    else
      var last := cols[|cols| - 1];
      ReportedRows(cols[..|cols| - 1]) + CountReported(last.cars, |last.cars|)
  }

  lemma {:induction false} RunCarsLength(run: Run, c: Column, n: nat)
    requires n <= |c.cars|
    ensures var r := RunCars(run, c, n).result;
      |r| == |run.result| + CountReported(c.cars, n) && r[..|run.result|] == run.result
  {
    if n > 0 {
      RunCarsLength(run, c, n - 1);
      var prev := RunCars(run, c, n - 1).result;
      assert RunCars(run, c, n).result[..|prev|] == prev;
    }
  }

  /** Later car rows only append: the entries after `m` rows begin the entries after `n`. */
  lemma {:induction false} RunCarsGrows(run: Run, c: Column, m: nat, n: nat)
    requires m <= n <= |c.cars|
    ensures var part := RunCars(run, c, m).result; var whole := RunCars(run, c, n).result;
      |part| <= |whole| && whole[..|part|] == part
    decreases n
  {
    if m < n {
      RunCarsGrows(run, c, m, n - 1);
      var prev := RunCars(run, c, n - 1).result;
      assert RunCars(run, c, n).result[..|prev|] == prev;
    }
  }

  lemma {:induction false} RunCarsEntry(run: Run, c: Column, n: nat, k: nat)
    requires k < n <= |c.cars| && Reported(c.cars[k])
    ensures var r := RunCars(run, c, n).result;
      |run.result| + CountReported(c.cars, k) < |r|
      && r[|run.result| + CountReported(c.cars, k)] == RowEntry(c.name, c.cars[k]).value
  {
    var pos := |run.result| + CountReported(c.cars, k);
    var upTo := RunCars(run, c, k + 1).result;
    assert pos < |upTo| && upTo[pos] == RowEntry(c.name, c.cars[k]).value by {
      RunCarsLength(run, c, k);
      assert upTo == RunCars(run, c, k).result + [RowEntry(c.name, c.cars[k]).value];
    }
    RunCarsGrows(run, c, k + 1, n);
    assert RunCars(run, c, n).result[..|upTo|][pos] == upTo[pos];
  }

  /** One entry per car row whose stored URL is set, except a changed row whose upload
      fails: a row with no stored URL, and a changed row whose upload fails, add nothing. */
  lemma {:induction false} OneEntryPerReportedRow(cols: seq<Column>)
    ensures |RunColumns(cols).result| == ReportedRows(cols)
  {
    if cols != [] {
      var prefix, last := cols[..|cols| - 1], cols[|cols| - 1];
      OneEntryPerReportedRow(prefix);
      RunCarsLength(RunColumns(prefix), last, |last.cars|);
    }
  }

  lemma {:induction false} ResultGrows(cols: seq<Column>, k: nat)
    requires k <= |cols|
    ensures var whole := RunColumns(cols).result; var part := RunColumns(cols[..k]).result;
      |part| <= |whole| && whole[..|part|] == part
    decreases |cols| - k
  {
    if k < |cols| {
      var prefix, last := cols[..|cols| - 1], cols[|cols| - 1];
      assert prefix[..k] == cols[..k];
      ResultGrows(prefix, k);
      RunCarsLength(RunColumns(prefix), last, |last.cars|);
    } else {
      assert cols[..k] == cols;
    }
  }

  /** Entries come column by column and, inside a column, car row by car row: the entry of
      a reported row `j` of column `i` sits right after the entries of the reported rows
      before it, and is that row's entry. */
  lemma {:induction false} EntryOfRow(cols: seq<Column>, i: nat, j: nat)
    requires i < |cols| && j < |cols[i].cars| && Reported(cols[i].cars[j])
    ensures ReportedRows(cols[..i]) + CountReported(cols[i].cars, j) < |RunColumns(cols).result|
    ensures RunColumns(cols).result[ReportedRows(cols[..i]) + CountReported(cols[i].cars, j)]
         == RowEntry(cols[i].name, cols[i].cars[j]).value
  {
    var upTo := cols[..i + 1];
    assert upTo[..i] == cols[..i] && upTo[i] == cols[i];
    var pos := ReportedRows(cols[..i]) + CountReported(cols[i].cars, j);
    var part := RunColumns(upTo).result;
    assert pos < |part| && part[pos] == RowEntry(cols[i].name, cols[i].cars[j]).value by {
      var before := RunColumns(cols[..i]);
      assert RunColumns(upTo) == RunCars(before, cols[i], |cols[i].cars|);
      OneEntryPerReportedRow(cols[..i]);
      RunCarsEntry(before, cols[i], |cols[i].cars|, j);
    }
    ResultGrows(cols, i + 1);
    assert RunColumns(cols).result[pos] == RunColumns(cols).result[..|part|][pos];
  }
}
