/** The car service that takes uploaded files (ishu.py): an area-threshold detector written
    as `any(...)` over the contours, and the per-column update that uploads first and then
    compares against every stored car image of that column. */
module Ishu {
  import opened Values

  /** A contour counts as a scratch when its area is strictly above this. */
  const AreaThreshold: real := 10.0

  /** Python's `any(contourArea(c) > threshold for c in contours)`. */
  function AnyAreaAbove(cs: seq<Contour>, threshold: real): (found: bool)
    ensures found <==> exists k :: 0 <= k < |cs| && cs[k].area > threshold
    decreases |cs|
  {
    if cs == [] then false
    else cs[0].area > threshold || AnyAreaAbove(cs[1..], threshold)
  }

  /** The detector: a new image that does not decode means "no change", a stored image that
      does not decode means "changed", any exception (an unreachable URL among them) means
      "no change"; otherwise "changed" iff some contour's area is strictly above 10. */
  function DetectScratchesOrDifferences(obs: Observation): (detected: bool)
    ensures obs.newImage != Decoded ==> !detected
    ensures obs.newImage == Decoded && obs.existingImage == Undecodable ==> detected
    ensures obs.existingImage == Unreachable ==> !detected
    ensures obs.existingImage == Decoded && obs.analysis == AnalysisRaised ==> !detected
    ensures obs.newImage == Decoded && obs.existingImage == Decoded && obs.analysis.Contours? ==>
      (detected <==> exists k :: 0 <= k < |obs.analysis.found| && obs.analysis.found[k].area > 10.0)
    ensures detected == AreaVerdict(obs, AreaThreshold)
  {
    if obs.newImage != Decoded then false
    else if obs.existingImage == Unreachable then false
    else if obs.existingImage == Undecodable then true
    else match obs.analysis
      case AnalysisRaised => false
      case Contours(cs) => AnyAreaAbove(cs, AreaThreshold)
  }

  /** One car row fetched for a column, with the answers the collaborators give for it:
      the stored URL, what the detector observes when the URL can be fetched, and what
      the UPDATE does. */
  datatype CarRow = CarRow(imageUrl: Option<string>, evidence: Observation, update: DbOutcome)

  /** One `(column, file)` item of the uploaded files: what the upload returns, and the car
      rows the lookup returns for that column (none when it fails). */
  datatype Column = Column(name: string, upload: Option<string>, cars: seq<CarRow>)

  datatype Status = UploadFailed | UpdatedWithScratches | UpdateError(detail: string) | NoScratch
  {
    function Message(): string {
      match this
      case UploadFailed => "Failed to upload to Cloudinary"
      case UpdatedWithScratches => "Updated with scratches detected"
      case UpdateError(e) => "Error updating DB: " + e
      case NoScratch => "No scratch detected, no update made"
    }
  }

  datatype Entry = Entry(column: string, status: Status)

  /** The result list built so far and the UPDATEs committed so far. */
  datatype Run = Run(result: seq<Entry>, writes: seq<Write>)

  /** What the detector sees for a car row: the stored URL is fetched without a check
      first, so a None or empty one makes `urlopen` raise. */
  function Seen(car: CarRow): Observation {
    Observation(car.evidence.newImage, FetchStored(car.imageUrl, car.evidence.existingImage), car.evidence.analysis)
  }

  /** The entry appended for one car row of a column whose upload succeeded. */
  function CarEntry(column: string, car: CarRow): (e: Entry)
    ensures e.column == column
    ensures !Present(car.imageUrl) ==> e.status == NoScratch
    ensures e.status == NoScratch <==> !DetectScratchesOrDifferences(Seen(car))
    ensures e.status == UpdatedWithScratches <==> Updates(car)
    ensures e.status.UpdateError? <==> DetectScratchesOrDifferences(Seen(car)) && car.update.DbError?
    ensures e.status == UpdatedWithScratches ==> AreaVerdict(car.evidence, AreaThreshold)
  {
    if DetectScratchesOrDifferences(Seen(car)) then
      match car.update
      case Committed => Entry(column, UpdatedWithScratches)
      case DbError(e) => Entry(column, UpdateError(e))
    else Entry(column, NoScratch)
  }

  /** The car row leads to a committed UPDATE. */
  predicate Updates(car: CarRow) {
    DetectScratchesOrDifferences(Seen(car)) && car.update == Committed
  }

  /** The body of the inner loop, for one car row; `url` is the column's uploaded URL. */
  function Step(run: Run, column: string, url: string, car: CarRow): Run {
    Run(run.result + [CarEntry(column, car)],
        if Updates(car) then run.writes + [Write(column, url)] else run.writes)
  }

  /** The run after the first `n` car rows of column `c`, whose upload returned a URL. */
  function RunCars(run: Run, c: Column, n: nat): Run
    requires c.upload.Some? && n <= |c.cars|
    decreases n
  {
    if n == 0 then run else Step(RunCars(run, c, n - 1), c.name, c.upload.value, c.cars[n - 1])
  }

  /** The body of the outer loop, for one column. */
  function ColumnStep(run: Run, c: Column): Run {
    if !Present(c.upload) then Run(run.result + [Entry(c.name, UploadFailed)], run.writes)
    else RunCars(run, c, |c.cars|)
  }

  /** The run after every column, in order. */
  function RunColumns(cols: seq<Column>): Run
    decreases |cols|
  {
    if cols == [] then Run([], []) else ColumnStep(RunColumns(cols[..|cols| - 1]), cols[|cols| - 1])
  }

  method UpdateImagesForSegment(files: seq<Column>) returns (result: seq<Entry>, writes: seq<Write>)
    ensures Run(result, writes) == RunColumns(files)
  {
    result, writes := [], [];
    var i := 0;
    while i < |files|
      invariant 0 <= i <= |files|
      invariant Run(result, writes) == RunColumns(files[..i])
    {
      assert files[..i + 1][..i] == files[..i];
      var column := files[i];
      var cloudinaryUrl := column.upload;
      if !Present(cloudinaryUrl) {
        result := result + [Entry(column.name, UploadFailed)];
        i := i + 1;
        continue;
      }
      var j := 0;
      while j < |column.cars|
        invariant 0 <= j <= |column.cars|
        invariant Run(result, writes) == RunCars(RunColumns(files[..i]), column, j)
      {
        var car := column.cars[j];
        var scratchDetected := DetectScratchesOrDifferences(Seen(car));
        if scratchDetected {
          match car.update {
            case Committed =>
              writes := writes + [Write(column.name, cloudinaryUrl.value)];
              result := result + [Entry(column.name, UpdatedWithScratches)];
            case DbError(e) =>
              result := result + [Entry(column.name, UpdateError(e))];
          }
        } else {
          result := result + [Entry(column.name, NoScratch)];
        }
        j := j + 1;
      }
      i := i + 1;
    }
    assert files[..|files|] == files;
  }

  // ---------------------------------------------------------------------------
  // Properties of the update loop

  /** The number of entries a column contributes: one per car row after a successful
      upload, and the single upload failure entry otherwise. */
  function ColumnEntries(c: Column): nat {
    if Present(c.upload) then |c.cars| else 1
  }

  /** The number of entries the columns contribute together. */
  function EntryCount(cols: seq<Column>): nat
    decreases |cols|
  {
    if cols == [] then 0 else EntryCount(cols[..|cols| - 1]) + ColumnEntries(cols[|cols| - 1])
  }

  lemma {:induction false} RunCarsResult(run: Run, c: Column, n: nat)
    requires c.upload.Some? && n <= |c.cars|
    ensures var r := RunCars(run, c, n).result;
      && |r| == |run.result| + n
      && r[..|run.result|] == run.result
      && forall k :: 0 <= k < n ==> r[|run.result| + k] == CarEntry(c.name, c.cars[k])
  {
    if n > 0 {
      RunCarsResult(run, c, n - 1);
    }
  }

  lemma ColumnStepResult(run: Run, c: Column)
    ensures var r := ColumnStep(run, c).result;
      |r| == |run.result| + ColumnEntries(c) && r[..|run.result|] == run.result
  {
    if Present(c.upload) {
      RunCarsResult(run, c, |c.cars|);
    }
  }

  /** One entry per car row for a column whose upload succeeded, one entry for a column
      whose upload failed. */
  lemma {:induction false} EntriesPerColumn(cols: seq<Column>)
    ensures |RunColumns(cols).result| == EntryCount(cols)
  {
    if cols != [] {
      EntriesPerColumn(cols[..|cols| - 1]);
      ColumnStepResult(RunColumns(cols[..|cols| - 1]), cols[|cols| - 1]);
    }
  }

  lemma {:induction false} ResultGrows(cols: seq<Column>, k: nat)
    requires k <= |cols|
    ensures var whole := RunColumns(cols).result; var part := RunColumns(cols[..k]).result;
      |part| <= |whole| && whole[..|part|] == part
    decreases |cols| - k
  {
    if k < |cols| {
      var prefix := cols[..|cols| - 1];
      assert prefix[..k] == cols[..k];
      ResultGrows(prefix, k);
      ColumnStepResult(RunColumns(prefix), cols[|cols| - 1]);
    } else {
      assert cols[..k] == cols;
    }
  }

  /** A column whose upload fails contributes exactly the upload failure entry, in its
      place, and its stored images are not looked at. */
  lemma {:induction false} EntryOfFailedUpload(cols: seq<Column>, i: nat)
    requires i < |cols| && !Present(cols[i].upload)
    ensures EntryCount(cols[..i]) < |RunColumns(cols).result|
    ensures RunColumns(cols).result[EntryCount(cols[..i])] == Entry(cols[i].name, UploadFailed)
  {
    var upTo := cols[..i + 1];
    assert upTo[..i] == cols[..i] && upTo[i] == cols[i];
    EntriesPerColumn(cols[..i]);
    ResultGrows(cols, i + 1);
  }

  /** Entries come in column order and, inside a column whose upload succeeded, in car row
      order: the entry of row `j` of column `i` sits right after those before it. */
  lemma {:induction false} EntryOfRow(cols: seq<Column>, i: nat, j: nat)
    requires i < |cols| && Present(cols[i].upload) && j < |cols[i].cars|
    ensures EntryCount(cols[..i]) + j < |RunColumns(cols).result|
    ensures RunColumns(cols).result[EntryCount(cols[..i]) + j] == CarEntry(cols[i].name, cols[i].cars[j])
  {
    var upTo := cols[..i + 1];
    assert upTo[..i] == cols[..i] && upTo[i] == cols[i];
    var pos := EntryCount(cols[..i]) + j;
    assert pos < |RunColumns(upTo).result| && RunColumns(upTo).result[pos] == CarEntry(cols[i].name, cols[i].cars[j]) by {
      var before := RunColumns(cols[..i]);
      assert RunColumns(upTo) == RunCars(before, cols[i], |cols[i].cars|);
      EntriesPerColumn(cols[..i]);
      RunCarsResult(before, cols[i], |cols[i].cars|);
    }
    ResultGrows(cols, i + 1);
  }

  /** `w` is the uploaded URL of a column, written for one of its car rows that leads to a committed UPDATE. */
  ghost predicate FromUpdatingRow(cols: seq<Column>, w: Write) {
    exists i, j :: 0 <= i < |cols| && 0 <= j < |cols[i].cars| && Present(cols[i].upload)
      && Updates(cols[i].cars[j]) && w == Write(cols[i].name, cols[i].upload.value)
  }

  lemma {:induction false} RunCarsWritesFrom(run: Run, c: Column, n: nat)
    requires c.upload.Some? && n <= |c.cars|
    ensures forall w :: w in RunCars(run, c, n).writes ==>
      w in run.writes || (w == Write(c.name, c.upload.value) && exists j :: 0 <= j < n && Updates(c.cars[j]))
  {
    if n > 0 {
      RunCarsWritesFrom(run, c, n - 1);
    }
  }

  /** An UPDATE of a column happens only after its upload returned a URL and for a car row
      whose images differ; the value written is the uploaded URL. */
  lemma {:induction false} WritesOnlyForDetectedChanges(cols: seq<Column>)
    ensures forall w :: w in RunColumns(cols).writes ==> FromUpdatingRow(cols, w)
  {
    if cols != [] {
      var prefix, last := cols[..|cols| - 1], cols[|cols| - 1];
      WritesOnlyForDetectedChanges(prefix);
      if Present(last.upload) {
        RunCarsWritesFrom(RunColumns(prefix), last, |last.cars|);
      }
      forall w | w in RunColumns(cols).writes
        ensures FromUpdatingRow(cols, w)
      {
        if w in RunColumns(prefix).writes {
          var i, j :| 0 <= i < |prefix| && 0 <= j < |prefix[i].cars| && Present(prefix[i].upload)
            && Updates(prefix[i].cars[j]) && w == Write(prefix[i].name, prefix[i].upload.value);
          assert cols[i] == prefix[i];
        } else {
          var j :| 0 <= j < |last.cars| && Updates(last.cars[j]);
          assert cols[|cols| - 1] == last;
        }
      }
    }
  }

  lemma {:induction false} RunCarsKeepsWrites(run: Run, c: Column, n: nat)
    requires c.upload.Some? && n <= |c.cars|
    ensures forall w :: w in run.writes ==> w in RunCars(run, c, n).writes
  {
    if n > 0 {
      RunCarsKeepsWrites(run, c, n - 1);
    }
  }

  lemma {:induction false} RunCarsWritesRow(run: Run, c: Column, j: nat, n: nat)
    requires c.upload.Some? && j < n <= |c.cars| && Updates(c.cars[j])
    ensures Write(c.name, c.upload.value) in RunCars(run, c, n).writes
  {
    if n - 1 != j {
      RunCarsWritesRow(run, c, j, n - 1);
    }
  }

  /** A column whose upload succeeded and which has a car row whose images differ and whose
      UPDATE commits gets the uploaded URL written. */
  lemma {:induction false} DetectedChangesAreWritten(cols: seq<Column>, i: nat, j: nat)
    requires i < |cols| && Present(cols[i].upload) && j < |cols[i].cars| && Updates(cols[i].cars[j])
    ensures Write(cols[i].name, cols[i].upload.value) in RunColumns(cols).writes
  {
    var prefix, last := cols[..|cols| - 1], cols[|cols| - 1];
    if i == |cols| - 1 {
      RunCarsWritesRow(RunColumns(prefix), last, j, |last.cars|);
    } else {
      assert prefix[i] == cols[i];
      DetectedChangesAreWritten(prefix, i, j);
      if Present(last.upload) {
        RunCarsKeepsWrites(RunColumns(prefix), last, |last.cars|);
      }
    }
  }
}
