/** The scooter service that takes local image paths (scooterscratchfabric.py): an
    area-threshold detector that returns at the first large contour, and the per-scooter
    loop of the `/upload-images` handler. */
module ScooterScratchFabric {
  import opened Values

  /** A contour counts as a scratch when its area is strictly above this. */
  const AreaThreshold: real := 10.0

  /** The detector: a new image that does not load means "no change", a stored image that
      does not decode means "changed", any exception means "no change"; otherwise it answers
      "changed" at the first contour whose area is strictly above 10, and "no change" when
      there is none. */
  method DetectScratchesOrDifferences(obs: Observation) returns (detected: bool)
    ensures obs.newImage != Decoded ==> !detected
    ensures obs.newImage == Decoded && obs.existingImage == Undecodable ==> detected
    ensures obs.existingImage == Unreachable ==> !detected
    ensures obs.existingImage == Decoded && obs.analysis == AnalysisRaised ==> !detected
    ensures obs.newImage == Decoded && obs.existingImage == Decoded && obs.analysis.Contours? ==>
      (detected <==> exists k :: 0 <= k < |obs.analysis.found| && obs.analysis.found[k].area > 10.0)
    ensures detected == AreaVerdict(obs, AreaThreshold)
  {
    if obs.newImage != Decoded {
      return false;
    }
    if obs.existingImage == Unreachable {
      // urlopen raised inside the try block
      return false;
    }
    if obs.existingImage == Undecodable {
      return true;
    }
    match obs.analysis {
      case AnalysisRaised =>
        return false;
      case Contours(cs) =>
        var i := 0;
        while i < |cs|
          invariant 0 <= i <= |cs|
          invariant forall k :: 0 <= k < i ==> cs[k].area <= AreaThreshold
        {
          if cs[i].area > AreaThreshold {
            return true;
          }
          i := i + 1;
        }
        return false;
    }
  }

  /** One scooter row fetched for a column, with the answers the collaborators give for it:
      the stored URL, what the detector observes, what the upload returns and what the
      UPDATE does. An answer is used only when the code asks for it. */
  datatype ScooterRow = ScooterRow(imageUrl: Option<string>, evidence: Observation,
                                   upload: Option<string>, update: DbOutcome)

  /** One `(column, new image path)` item of `image_paths`: whether the path exists on
      disk, and the scooter rows the lookup returns for that column (none when it fails). */
  datatype Column = Column(name: string, newImagePath: string, fileExists: bool,
                           scooters: seq<ScooterRow>)

  datatype Status = FileNotFound(path: string) | ScratchesUpdated | DatabaseError(detail: string) | NoScratches
  {
    function Message(): string {
      match this
      case FileNotFound(p) => "File not found: " + p
      case ScratchesUpdated => "Scratches detected, image updated"
      case DatabaseError(e) => "Database error: " + e
      case NoScratches => "No scratches detected, image retained"
    }
  }

  /** The `response` dict of one scooter row: its column, its `status` (absent when the
      upload failed) and its `new_image_url` (present only after a committed UPDATE). */
  datatype Response = Response(column: string, status: Option<Status>, newImageUrl: Option<string>)

  /** The results list built so far and the UPDATEs committed so far. */
  datatype Run = Run(results: seq<Response>, writes: seq<Write>)

  /** The scooter row is compared and shows a change. */
  predicate Detected(row: ScooterRow) {
    Present(row.imageUrl) && AreaVerdict(row.evidence, AreaThreshold)
  }

  /** The scooter row of column `c` leads to a committed UPDATE. */
  predicate Updates(c: Column, row: ScooterRow) {
    c.fileExists && Detected(row) && Present(row.upload) && row.update == Committed
  }

  /** The response the inner loop appends for one scooter row. */
  function RowResponse(c: Column, row: ScooterRow): Response {
    if !c.fileExists then Response(c.name, Some(FileNotFound(c.newImagePath)), None)
    else if !Detected(row) then Response(c.name, Some(NoScratches), None)
    else if !Present(row.upload) then Response(c.name, None, None)
    else match row.update
      case Committed => Response(c.name, Some(ScratchesUpdated), Some(row.upload.value))
      case DbError(e) => Response(c.name, Some(DatabaseError(e)), None)
  }

  /** The body of the inner loop, for one scooter row. */
  function Step(run: Run, c: Column, row: ScooterRow): Run {
    Run(run.results + [RowResponse(c, row)],
        if Updates(c, row) then run.writes + [Write(c.name, row.upload.value)] else run.writes)
  }

  /** The run after the first `n` scooter rows of column `c`. */
  function RunScooters(run: Run, c: Column, n: nat): Run
    requires n <= |c.scooters|
    decreases n
  {
    if n == 0 then run else Step(RunScooters(run, c, n - 1), c, c.scooters[n - 1])
  }

  /** The run after every scooter row of every column, columns in order. */
  function RunColumns(cols: seq<Column>): Run
    decreases |cols|
  {
    if cols == [] then Run([], [])
    else
      var last := cols[|cols| - 1];
      RunScooters(RunColumns(cols[..|cols| - 1]), last, |last.scooters|)
  }

  /** The loop over `image_paths` and, for each column, over the scooter rows found. */
  method UpdateScooters(columns: seq<Column>) returns (results: seq<Response>, writes: seq<Write>)
    ensures Run(results, writes) == RunColumns(columns)
  {
    results, writes := [], [];
    var i := 0;
    while i < |columns|
      invariant 0 <= i <= |columns|
      invariant Run(results, writes) == RunColumns(columns[..i])
    {
      var column := columns[i];
      var j := 0;
      while j < |column.scooters|
        invariant 0 <= j <= |column.scooters|
        invariant Run(results, writes) == RunScooters(RunColumns(columns[..i]), column, j)
      {
        var scooter := column.scooters[j];
        var response;
        if !column.fileExists {
          response := Response(column.name, Some(FileNotFound(column.newImagePath)), None);
          results := results + [response];
          j := j + 1;
          continue;
        }
        var detected := false;
        if Present(scooter.imageUrl) {
          detected := DetectScratchesOrDifferences(scooter.evidence);
        }
        if detected {
          response := Response(column.name, None, None);
          if Present(scooter.upload) {
            match scooter.update {
              case Committed =>
                writes := writes + [Write(column.name, scooter.upload.value)];
                response := Response(column.name, Some(ScratchesUpdated), Some(scooter.upload.value));
              case DbError(e) =>
                response := Response(column.name, Some(DatabaseError(e)), None);
            }
          }
        } else {
          response := Response(column.name, Some(NoScratches), None);
        }
        results := results + [response];
        j := j + 1;
      }
      assert columns[..i + 1][..i] == columns[..i];
      i := i + 1;
    }
    assert columns[..|columns|] == columns;
  }

  /** The `/upload-images` handler. `None` stands for a key missing from the JSON body,
      whose `data[...]` raises and is answered 500; a falsy value is answered 400;
      otherwise the results list, with 200. A null or empty `image_paths` arrives as `Some([])`. */
  method UploadImages(modelType: Option<Value>, segmentId: Option<Value>, imagePaths: Option<seq<Column>>)
    returns (status: int, results: seq<Response>, writes: seq<Write>)
    ensures modelType == None || segmentId == None || imagePaths == None ==>
      status == 500 && results == [] && writes == []
    ensures modelType.Some? && segmentId.Some? && imagePaths.Some? ==>
      if !Truthy(modelType.value) || !Truthy(segmentId.value) || imagePaths.value == [] then
        status == 400 && results == [] && writes == []
      else
        status == 200 && Run(results, writes) == RunColumns(imagePaths.value)
  {
    if modelType == None || segmentId == None || imagePaths == None {
      return 500, [], [];
    }
    if !Truthy(modelType.value) || !Truthy(segmentId.value) || imagePaths.value == [] {
      return 400, [], [];
    }
    results, writes := UpdateScooters(imagePaths.value);
    status := 200;
  }

  // ---------------------------------------------------------------------------
  // Properties of the update loop

  /** The number of scooter rows over all columns. */
  function TotalRows(cols: seq<Column>): nat
    decreases |cols|
  {
    if cols == [] then 0 else TotalRows(cols[..|cols| - 1]) + |cols[|cols| - 1].scooters|
  }

  lemma {:induction false} RunScootersResults(run: Run, c: Column, n: nat)
    requires n <= |c.scooters|
    ensures var r := RunScooters(run, c, n).results;
      && |r| == |run.results| + n
      && r[..|run.results|] == run.results
      && forall k :: 0 <= k < n ==> r[|run.results| + k] == RowResponse(c, c.scooters[k])
  {
    if n > 0 {
      RunScootersResults(run, c, n - 1);
    }
  }

  /** Exactly one response per scooter row fetched, over all columns. */
  lemma {:induction false} OneResponsePerRow(cols: seq<Column>)
    ensures |RunColumns(cols).results| == TotalRows(cols)
  {
    if cols != [] {
      var prefix, last := cols[..|cols| - 1], cols[|cols| - 1];
      OneResponsePerRow(prefix);
      RunScootersResults(RunColumns(prefix), last, |last.scooters|);
    }
  }

  lemma {:induction false} ResultsGrow(cols: seq<Column>, k: nat)
    requires k <= |cols|
    ensures var whole := RunColumns(cols).results; var part := RunColumns(cols[..k]).results;
      |part| <= |whole| && whole[..|part|] == part
    decreases |cols| - k
  {
    if k < |cols| {
      var prefix, last := cols[..|cols| - 1], cols[|cols| - 1];
      assert prefix[..k] == cols[..k];
      ResultsGrow(prefix, k);
      RunScootersResults(RunColumns(prefix), last, |last.scooters|);
    } else {
      assert cols[..k] == cols;
    }
  }

  /** Responses come column by column and, inside a column, row by row: the response of
      row `j` of column `i` sits right after those of the rows before it. */
  lemma {:induction false} ResponseOfRow(cols: seq<Column>, i: nat, j: nat)
    requires i < |cols| && j < |cols[i].scooters|
    ensures TotalRows(cols[..i]) + j < |RunColumns(cols).results|
    ensures RunColumns(cols).results[TotalRows(cols[..i]) + j] == RowResponse(cols[i], cols[i].scooters[j])
  {
    var upTo := cols[..i + 1];
    assert upTo[..i] == cols[..i] && upTo[i] == cols[i];
    var pos := TotalRows(cols[..i]) + j;
    assert pos < |RunColumns(upTo).results|
        && RunColumns(upTo).results[pos] == RowResponse(cols[i], cols[i].scooters[j]) by {
      var before := RunColumns(cols[..i]);
      assert RunColumns(upTo) == RunScooters(before, cols[i], |cols[i].scooters|);
      OneResponsePerRow(cols[..i]);
      RunScootersResults(before, cols[i], |cols[i].scooters|);
    }
    ResultsGrow(cols, i + 1);
  }

  /** `w` is the uploaded URL of some scooter row that leads to a committed UPDATE, written to its column. */
  ghost predicate FromUpdatingRow(cols: seq<Column>, w: Write) {
    exists i, j :: 0 <= i < |cols| && 0 <= j < |cols[i].scooters| && Updates(cols[i], cols[i].scooters[j])
      && w == Write(cols[i].name, cols[i].scooters[j].upload.value)
  }

  lemma {:induction false} RunScootersWritesFrom(run: Run, c: Column, n: nat)
    requires n <= |c.scooters|
    ensures forall w :: w in RunScooters(run, c, n).writes ==>
      w in run.writes ||
      exists j :: 0 <= j < n && Updates(c, c.scooters[j]) && w == Write(c.name, c.scooters[j].upload.value)
  {
    if n > 0 {
      RunScootersWritesFrom(run, c, n - 1);
    }
  }

  /** A write happens only for a scooter row whose new image file exists, whose stored URL
      is set, whose images differ and whose upload returned a URL; the value written is that URL. */
  lemma {:induction false} WritesOnlyForDetectedChanges(cols: seq<Column>)
    ensures forall w :: w in RunColumns(cols).writes ==> FromUpdatingRow(cols, w)
  {
    if cols != [] {
      var prefix, last := cols[..|cols| - 1], cols[|cols| - 1];
      WritesOnlyForDetectedChanges(prefix);
      RunScootersWritesFrom(RunColumns(prefix), last, |last.scooters|);
      forall w | w in RunColumns(cols).writes
        ensures FromUpdatingRow(cols, w)
      {
        if w in RunColumns(prefix).writes {
          var i, j :| 0 <= i < |prefix| && 0 <= j < |prefix[i].scooters| && Updates(prefix[i], prefix[i].scooters[j])
            && w == Write(prefix[i].name, prefix[i].scooters[j].upload.value);
          assert cols[i] == prefix[i];
        } else {
          var j :| 0 <= j < |last.scooters| && Updates(last, last.scooters[j])
            && w == Write(last.name, last.scooters[j].upload.value);
          assert cols[|cols| - 1] == last;
        }
      }
    }
  }

  lemma {:induction false} RunScootersKeepsWrites(run: Run, c: Column, n: nat)
    requires n <= |c.scooters|
    ensures forall w :: w in run.writes ==> w in RunScooters(run, c, n).writes
  {
    if n > 0 {
      RunScootersKeepsWrites(run, c, n - 1);
    }
  }

  lemma {:induction false} RunScootersWritesRow(run: Run, c: Column, j: nat, n: nat)
    requires j < n <= |c.scooters| && Updates(c, c.scooters[j])
    ensures Write(c.name, c.scooters[j].upload.value) in RunScooters(run, c, n).writes
  {
    if n - 1 != j {
      RunScootersWritesRow(run, c, j, n - 1);
    }
  }

  /** Every scooter row whose images differ, whose upload succeeds and whose UPDATE commits
      writes its uploaded URL to its column. */
  lemma {:induction false} DetectedChangesAreWritten(cols: seq<Column>, i: nat, j: nat)
    requires i < |cols| && j < |cols[i].scooters| && Updates(cols[i], cols[i].scooters[j])
    ensures Write(cols[i].name, cols[i].scooters[j].upload.value) in RunColumns(cols).writes
  {
    var prefix, last := cols[..|cols| - 1], cols[|cols| - 1];
    if i == |cols| - 1 {
      RunScootersWritesRow(RunColumns(prefix), last, j, |last.scooters|);
    } else {
      assert prefix[i] == cols[i];
      DetectedChangesAreWritten(prefix, i, j);
      RunScootersKeepsWrites(RunColumns(prefix), last, |last.scooters|);
    }
  }
}
