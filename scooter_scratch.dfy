/** The scooter service that takes uploaded files (scooterscratch.py): an ORB similarity
    gate, a scratch detector that looks for a contour inside an area band and an aspect
    band, and the `/process-images` handler that updates a column only when the images are
    similar and a scratch is found. */
module ScooterScratch {
  import opened Values

  /** What ORB and the cross-checked brute-force matcher report for the two images: no
      descriptors for one of them, the keypoint counts and the number of matches, or an
      exception. */
  datatype OrbOutcome =
    | NoDescriptors
    | Matched(newKeypoints: nat, existingKeypoints: nat, matches: nat)
    | OrbRaised

  function Max(a: nat, b: nat): nat {
    if a < b then b else a
  }

  /** Multiplying both sides by a positive number keeps a strict comparison. */
  lemma ScaleByPositive(a: real, b: real, k: real)
    requires k > 0.0
    ensures a < b <==> a * k < b * k
  {
    if a < b {
      assert (b - a) * k > 0.0;
    } else {
      assert (a - b) * k >= 0.0;
    }
  }

  /** The similarity cutoff `> 0.7` on a ratio of counts, in whole numbers. */
  lemma RatioAboveCutoff(matches: nat, most: nat)
    requires most > 0
    ensures (matches as real) / (most as real) > 0.7 <==> 10 * matches > 7 * most
  {
    var ratio := (matches as real) / (most as real);
    assert ratio * (most as real) == matches as real;
    ScaleByPositive(0.7, ratio, most as real);
  }

  /** The similarity gate: "similar" iff `matches / max(kp1, kp2) > 0.7`, strictly. For an
      image that did not decode ORB gives no descriptors or raises; no descriptors, a raise
      and zero keypoints (an undefined ratio) all mean "not similar". */
  function CompareImagesForSimilarity(newDecoded: bool, existingDecoded: bool, orb: OrbOutcome): (similar: bool)
    ensures similar <==>
      && newDecoded && existingDecoded && orb.Matched?
      && Max(orb.newKeypoints, orb.existingKeypoints) > 0
      && 10 * orb.matches > 7 * Max(orb.newKeypoints, orb.existingKeypoints)
  {
    if !newDecoded || !existingDecoded then false
    else match orb
      case NoDescriptors => false
      case OrbRaised => false
      case Matched(kp1, kp2, matches) =>
        var most := Max(kp1, kp2);
        if most == 0 then false
        else
          RatioAboveCutoff(matches, most);
          (matches as real) / (most as real) > 0.7
  }

  /** `w / h`, or 0 for a box of zero height. */
  function AspectRatio(c: Contour): real {
    if c.height != 0 then (c.width as real) / (c.height as real) else 0.0
  }

  /** The aspect band `0.5 < w / h < 10.0` in whole numbers: a zero-height box never fits. */
  lemma AspectInBand(c: Contour)
    ensures 0.5 < AspectRatio(c) < 10.0 <==> 0 < c.height && c.height < 2 * c.width && c.width < 10 * c.height
  {
    if c.height != 0 {
      var h, w := c.height as real, c.width as real;
      QuotientBetween(w, h, 0.5, 10.0);
      assert 0.5 * h < w <==> c.height < 2 * c.width;
      assert w < 10.0 * h <==> c.width < 10 * c.height;
    }
  }

  /** A quotient by a positive number lies strictly between two bounds iff the dividend lies
      strictly between the bounds scaled by it. */
  lemma QuotientBetween(w: real, h: real, lo: real, hi: real)
    requires h > 0.0
    ensures lo < w / h < hi <==> lo * h < w < hi * h
  {
    var ratio := w / h;
    assert ratio * h == w;
    ScaleByPositive(lo, ratio, h);
    ScaleByPositive(ratio, hi, h);
  }

  /** A contour shaped like a scratch: area strictly between 5 and 1500, and a bounding
      box of non-zero height whose width is more than half and less than ten times it. */
  predicate ScratchShaped(c: Contour) {
    5.0 < c.area < 1500.0 && 0 < c.height && c.height < 2 * c.width && c.width < 10 * c.height
  }

  /** The detector: an exception means "no scratch"; otherwise the loop stops at the first
      scratch-shaped contour, which answers the same as asking whether there is one. */
  method DetectScratches(analysis: Analysis) returns (detected: bool)
    ensures analysis == AnalysisRaised ==> !detected
    ensures analysis.Contours? ==>
      (detected <==> exists k :: 0 <= k < |analysis.found| && ScratchShaped(analysis.found[k]))
  {
    match analysis {
      case AnalysisRaised =>
        return false;
      case Contours(cs) =>
        detected := false;
        var i := 0;
        while i < |cs|
          invariant 0 <= i <= |cs|
          invariant !detected
          invariant forall k :: 0 <= k < i ==> !ScratchShaped(cs[k])
        {
          var c := cs[i];
          var aspectRatio := if c.height != 0 then (c.width as real) / (c.height as real) else 0.0;
          AspectInBand(c);
          if 5.0 < c.area < 1500.0 && 0.5 < aspectRatio < 10.0 {
            detected := true;
            break;
          }
          i := i + 1;
        }
    }
  }

  /** The analysis finds a scratch-shaped contour. */
  predicate HasScratch(analysis: Analysis) {
    analysis.Contours? && exists k :: 0 <= k < |analysis.found| && ScratchShaped(analysis.found[k])
  }

  /** Fetching an image by URL: `urlopen` raised, or the bytes arrived and did or did not decode. */
  datatype Fetch = Fetched(decoded: bool) | FetchRaised

  /** One scooter row fetched for a column, with the answers the collaborators give for it:
      the stored URL, the fetches of the new and the stored image, what ORB reports, what the
      scratch analysis finds and what the UPDATE does. */
  datatype ScooterRow = ScooterRow(imageUrl: Option<string>, newFetch: Fetch, existingFetch: Fetch,
                                   orb: OrbOutcome, analysis: Analysis, update: DbOutcome)

  /** One `(column, file)` item of the uploaded files: what the upload returns, and the
      scooter rows the lookup returns for that column (none when it fails). */
  datatype Column = Column(name: string, upload: Option<string>, scooters: seq<ScooterRow>)

  datatype Status = ImagesDifferent | ScratchesUpdated | DatabaseError(detail: string) | NoScratches | NoExistingImage
  {
    function Message(): string {
      match this
      case ImagesDifferent => "Images are different, no update made."
      case ScratchesUpdated => "Scratches detected, image updated"
      case DatabaseError(e) => "Database error: " + e
      case NoScratches => "No scratches detected, image retained."
      case NoExistingImage => "No existing image found, no update made."
    }
  }

  /** The `response` dict of one scooter row; `new_image_url` only after a committed UPDATE. */
  datatype Response = Response(column: string, status: Status, newImageUrl: Option<string>)

  /** The results built so far, the UPDATEs committed so far, and whether a fetch raised,
      which ends the request with 500. */
  datatype Run = Run(results: seq<Response>, writes: seq<Write>, aborted: bool)

  /** The row has a stored URL and one of the two fetches raises. */
  predicate Raises(row: ScooterRow) {
    Present(row.imageUrl) && (row.newFetch.FetchRaised? || row.existingFetch.FetchRaised?)
  }

  /** The row has a stored URL, both fetches succeed and the gate finds the images similar. */
  predicate Similar(row: ScooterRow) {
    && Present(row.imageUrl) && row.newFetch.Fetched? && row.existingFetch.Fetched?
    && CompareImagesForSimilarity(row.newFetch.decoded, row.existingFetch.decoded, row.orb)
  }

  /** The row leads to a committed UPDATE. */
  predicate Updates(row: ScooterRow) {
    Similar(row) && HasScratch(row.analysis) && row.update == Committed
  }

  /** The response appended for a row that does not raise; `url` is the column's uploaded URL. */
  function RowResponse(column: string, url: string, row: ScooterRow): Response {
    if !Present(row.imageUrl) then Response(column, NoExistingImage, None)
    else if !Similar(row) then Response(column, ImagesDifferent, None)
    else if !HasScratch(row.analysis) then Response(column, NoScratches, None)
    else match row.update
      case Committed => Response(column, ScratchesUpdated, Some(url))
      case DbError(e) => Response(column, DatabaseError(e), None)
  }

  /** The body of the inner loop, for one scooter row. */
  function Step(run: Run, column: string, url: string, row: ScooterRow): Run {
    if run.aborted then run
    else if Raises(row) then Run(run.results, run.writes, true)
    else Run(run.results + [RowResponse(column, url, row)],
             if Updates(row) then run.writes + [Write(column, url)] else run.writes, false)
  }

  /** The run after the first `n` scooter rows of column `c`, whose upload returned a URL. */
  function RunScooters(run: Run, c: Column, n: nat): Run
    requires c.upload.Some? && n <= |c.scooters|
    decreases n
  {
    if n == 0 then run else Step(RunScooters(run, c, n - 1), c.name, c.upload.value, c.scooters[n - 1])
  }

  /** The body of the outer loop: a column whose upload fails adds nothing. */
  function ColumnStep(run: Run, c: Column): Run {
    if !Present(c.upload) then run else RunScooters(run, c, |c.scooters|)
  }

  /** The run after every column, in order. */
  function RunColumns(cols: seq<Column>): Run
    decreases |cols|
  {
    if cols == [] then Run([], [], false) else ColumnStep(RunColumns(cols[..|cols| - 1]), cols[|cols| - 1])
  }

  /** The `/process-images` handler: falsy `model_type`, `segment_id` or files answer 400
      before any upload; a fetch that raises answers 500, and the UPDATEs committed before
      it stay; otherwise the results, with 200. */
  method ProcessImages(modelType: Value, segmentId: Value, files: seq<Column>)
    returns (status: int, results: seq<Response>, writes: seq<Write>)
    ensures !Truthy(modelType) || !Truthy(segmentId) || files == [] ==>
      status == 400 && results == [] && writes == []
    ensures Truthy(modelType) && Truthy(segmentId) && files != [] ==>
      var run := RunColumns(files);
      && writes == run.writes
      && (if run.aborted then status == 500 && results == [] else status == 200 && results == run.results)
  {
    if !Truthy(modelType) || !Truthy(segmentId) || files == [] {
      return 400, [], [];
    }
    results, writes := [], [];
    var i := 0;
    while i < |files|
      invariant 0 <= i <= |files|
      invariant Run(results, writes, false) == RunColumns(files[..i])
    {
      assert files[..i + 1][..i] == files[..i];
      var column := files[i];
      var newImageUrl := column.upload;
      if Present(newImageUrl) {
        var j := 0;
        while j < |column.scooters|
          invariant 0 <= j <= |column.scooters|
          invariant Run(results, writes, false) == RunScooters(RunColumns(files[..i]), column, j)
        {
          var scooter := column.scooters[j];
          var response;
          if Present(scooter.imageUrl) {
            if scooter.newFetch.FetchRaised? || scooter.existingFetch.FetchRaised? {
              AbortedScootersStay(RunColumns(files[..i]), column, j + 1, |column.scooters|);
              AbortedColumnsStay(files, i + 1);
              return 500, [], writes;
            }
            var isSimilar := CompareImagesForSimilarity(scooter.newFetch.decoded, scooter.existingFetch.decoded, scooter.orb);
            if !isSimilar {
              response := Response(column.name, ImagesDifferent, None);
            } else {
              var scratchDetected := DetectScratches(scooter.analysis);
              if scratchDetected {
                match scooter.update {
                  case Committed =>
                    writes := writes + [Write(column.name, newImageUrl.value)];
                    response := Response(column.name, ScratchesUpdated, Some(newImageUrl.value));
                  case DbError(e) =>
                    response := Response(column.name, DatabaseError(e), None);
                }
              } else {
                response := Response(column.name, NoScratches, None);
              }
            }
          } else {
            response := Response(column.name, NoExistingImage, None);
          }
          results := results + [response];
          j := j + 1;
        }
      }
      i := i + 1;
    }
    assert files[..|files|] == files;
    return 200, results, writes;
  }

  // ---------------------------------------------------------------------------
  // Properties of the handler's loop

  lemma {:induction false} AbortedRunStays(run: Run, c: Column, n: nat)
    requires c.upload.Some? && n <= |c.scooters| && run.aborted
    ensures RunScooters(run, c, n) == run
  {
    if n > 0 {
      AbortedRunStays(run, c, n - 1);
    }
  }

  lemma {:induction false} AbortedScootersStay(run: Run, c: Column, j: nat, n: nat)
    requires c.upload.Some? && j <= n <= |c.scooters| && RunScooters(run, c, j).aborted
    ensures RunScooters(run, c, n) == RunScooters(run, c, j)
    decreases n - j
  {
    if j < n {
      AbortedScootersStay(run, c, j, n - 1);
    }
  }

  lemma {:induction false} AbortedColumnsStay(cols: seq<Column>, k: nat)
    requires k <= |cols| && RunColumns(cols[..k]).aborted
    ensures RunColumns(cols) == RunColumns(cols[..k])
    decreases |cols| - k
  {
    if k < |cols| {
      var prefix, last := cols[..|cols| - 1], cols[|cols| - 1];
      assert prefix[..k] == cols[..k];
      AbortedColumnsStay(prefix, k);
      if Present(last.upload) {
        AbortedRunStays(RunColumns(prefix), last, |last.scooters|);
      }
    } else {
      assert cols[..k] == cols;
    }
  }

  /** Some column whose upload succeeded has a row whose fetch raises. */
  ghost predicate SomeFetchRaises(cols: seq<Column>) {
    exists i, j :: 0 <= i < |cols| && 0 <= j < |cols[i].scooters| && Present(cols[i].upload)
      && Raises(cols[i].scooters[j])
  }

  lemma {:induction false} ScootersAbortIff(run: Run, c: Column, n: nat)
    requires c.upload.Some? && n <= |c.scooters|
    ensures RunScooters(run, c, n).aborted <==> run.aborted || exists j :: 0 <= j < n && Raises(c.scooters[j])
  {
    if n > 0 {
      ScootersAbortIff(run, c, n - 1);
    }
  }

  /** The request ends with 500 exactly when some uploaded column has a scooter row with a
      stored URL whose new or stored image cannot be fetched. */
  lemma {:induction false} AbortsIffSomeFetchRaises(cols: seq<Column>)
    ensures RunColumns(cols).aborted <==> SomeFetchRaises(cols)
  {
    if cols != [] {
      var prefix, last := cols[..|cols| - 1], cols[|cols| - 1];
      AbortsIffSomeFetchRaises(prefix);
      if Present(last.upload) {
        ScootersAbortIff(RunColumns(prefix), last, |last.scooters|);
      }
      if SomeFetchRaises(prefix) {
        var i, j :| 0 <= i < |prefix| && 0 <= j < |prefix[i].scooters| && Present(prefix[i].upload)
          && Raises(prefix[i].scooters[j]);
        assert cols[i] == prefix[i];
      }
      if SomeFetchRaises(cols) {
        var i, j :| 0 <= i < |cols| && 0 <= j < |cols[i].scooters| && Present(cols[i].upload)
          && Raises(cols[i].scooters[j]);
        if i < |cols| - 1 {
          assert prefix[i] == cols[i];
        }
      }
    }
  }

  /** The number of scooter rows of the columns whose upload returned a URL. */
  function UploadedRows(cols: seq<Column>): nat
    decreases |cols|
  {
    if cols == [] then 0
    else
      var last := cols[|cols| - 1];
      UploadedRows(cols[..|cols| - 1]) + (if Present(last.upload) then |last.scooters| else 0)
  }

  lemma {:induction false} RunScootersResults(run: Run, c: Column, n: nat)
    requires c.upload.Some? && n <= |c.scooters| && !RunScooters(run, c, n).aborted
    ensures !run.aborted
    ensures var r := RunScooters(run, c, n).results;
      && |r| == |run.results| + n
      && r[..|run.results|] == run.results
      && forall k :: 0 <= k < n ==> r[|run.results| + k] == RowResponse(c.name, c.upload.value, c.scooters[k])
  {
    if n > 0 {
      RunScootersResults(run, c, n - 1);
    }
  }

  lemma {:induction false} ColumnStepResults(run: Run, c: Column)
    requires !ColumnStep(run, c).aborted
    ensures !run.aborted
    ensures var r := ColumnStep(run, c).results;
      && |r| == |run.results| + (if Present(c.upload) then |c.scooters| else 0)
      && r[..|run.results|] == run.results
  {
    if Present(c.upload) {
      RunScootersResults(run, c, |c.scooters|);
    }
  }

  /** When no fetch raises, exactly one response per scooter row of every column whose
      upload succeeded; a column whose upload fails adds none. */
  lemma {:induction false} OneResponsePerUploadedRow(cols: seq<Column>)
    requires !RunColumns(cols).aborted
    ensures |RunColumns(cols).results| == UploadedRows(cols)
  {
    if cols != [] {
      ColumnStepResults(RunColumns(cols[..|cols| - 1]), cols[|cols| - 1]);
      OneResponsePerUploadedRow(cols[..|cols| - 1]);
    }
  }

  lemma {:induction false} ResultsGrow(cols: seq<Column>, k: nat)
    requires k <= |cols| && !RunColumns(cols).aborted
    ensures !RunColumns(cols[..k]).aborted
    ensures var whole := RunColumns(cols).results; var part := RunColumns(cols[..k]).results;
      |part| <= |whole| && whole[..|part|] == part
    decreases |cols| - k
  {
    if k < |cols| {
      var prefix := cols[..|cols| - 1];
      assert prefix[..k] == cols[..k];
      ColumnStepResults(RunColumns(prefix), cols[|cols| - 1]);
      ResultsGrow(prefix, k);
    } else {
      assert cols[..k] == cols;
    }
  }

  /** When no fetch raises, responses come column by column and row by row: the response of
      row `j` of an uploaded column `i` sits right after those of the rows before it. */
  lemma {:induction false} ResponseOfRow(cols: seq<Column>, i: nat, j: nat)
    requires !RunColumns(cols).aborted
    requires i < |cols| && Present(cols[i].upload) && j < |cols[i].scooters|
    ensures UploadedRows(cols[..i]) + j < |RunColumns(cols).results|
    ensures RunColumns(cols).results[UploadedRows(cols[..i]) + j]
         == RowResponse(cols[i].name, cols[i].upload.value, cols[i].scooters[j])
  {
    var upTo := cols[..i + 1];
    assert upTo[..i] == cols[..i] && upTo[i] == cols[i];
    ResultsGrow(cols, i + 1);
    RunScootersResults(RunColumns(cols[..i]), cols[i], |cols[i].scooters|);
    OneResponsePerUploadedRow(cols[..i]);
  }

  /** `w` is the uploaded URL of a column, written for one of its rows that leads to a committed UPDATE. */
  ghost predicate FromUpdatingRow(cols: seq<Column>, w: Write) {
    exists i, j :: 0 <= i < |cols| && 0 <= j < |cols[i].scooters| && Present(cols[i].upload)
      && Updates(cols[i].scooters[j]) && w == Write(cols[i].name, cols[i].upload.value)
  }

  lemma {:induction false} RunScootersWritesFrom(run: Run, c: Column, n: nat)
    requires c.upload.Some? && n <= |c.scooters|
    ensures forall w :: w in RunScooters(run, c, n).writes ==>
      w in run.writes || (w == Write(c.name, c.upload.value) && exists j :: 0 <= j < n && Updates(c.scooters[j]))
  {
    if n > 0 {
      RunScootersWritesFrom(run, c, n - 1);
    }
  }

  /** A column is written only with its own uploaded URL, and only for a row whose images
      are similar AND show a scratch; dissimilar images never lead to a write. This holds
      for the UPDATEs committed before a 500 as well. */
  lemma {:induction false} WritesOnlyForSimilarScratchedImages(cols: seq<Column>)
    ensures forall w :: w in RunColumns(cols).writes ==> FromUpdatingRow(cols, w)
  {
    if cols != [] {
      var prefix, last := cols[..|cols| - 1], cols[|cols| - 1];
      WritesOnlyForSimilarScratchedImages(prefix);
      if Present(last.upload) {
        RunScootersWritesFrom(RunColumns(prefix), last, |last.scooters|);
      }
      forall w | w in RunColumns(cols).writes
        ensures FromUpdatingRow(cols, w)
      {
        if w in RunColumns(prefix).writes {
          var i, j :| 0 <= i < |prefix| && 0 <= j < |prefix[i].scooters| && Present(prefix[i].upload)
            && Updates(prefix[i].scooters[j]) && w == Write(prefix[i].name, prefix[i].upload.value);
          assert cols[i] == prefix[i];
        } else {
          var j :| 0 <= j < |last.scooters| && Updates(last.scooters[j]);
          assert cols[|cols| - 1] == last;
        }
      }
    }
  }

  lemma {:induction false} RunScootersKeepsWrites(run: Run, c: Column, n: nat)
    requires c.upload.Some? && n <= |c.scooters|
    ensures forall w :: w in run.writes ==> w in RunScooters(run, c, n).writes
  {
    if n > 0 {
      RunScootersKeepsWrites(run, c, n - 1);
    }
  }

  lemma {:induction false} RunScootersWritesRow(run: Run, c: Column, j: nat, n: nat)
    requires c.upload.Some? && j < n <= |c.scooters| && Updates(c.scooters[j])
    requires !RunScooters(run, c, n).aborted
    ensures Write(c.name, c.upload.value) in RunScooters(run, c, n).writes
  {
    if n - 1 != j {
      RunScootersWritesRow(run, c, j, n - 1);
    }
  }

  /** When no fetch raises, a column whose upload succeeded and which has a row with similar,
      scratched images and a committing UPDATE gets its uploaded URL written. */
  lemma {:induction false} SimilarScratchedImagesAreWritten(cols: seq<Column>, i: nat, j: nat)
    requires !RunColumns(cols).aborted
    requires i < |cols| && Present(cols[i].upload) && j < |cols[i].scooters| && Updates(cols[i].scooters[j])
    ensures Write(cols[i].name, cols[i].upload.value) in RunColumns(cols).writes
  {
    var prefix, last := cols[..|cols| - 1], cols[|cols| - 1];
    ColumnStepResults(RunColumns(prefix), last);
    if i == |cols| - 1 {
      RunScootersWritesRow(RunColumns(prefix), last, j, |last.scooters|);
    } else {
      assert prefix[i] == cols[i];
      SimilarScratchedImagesAreWritten(prefix, i, j);
      if Present(last.upload) {
        RunScootersKeepsWrites(RunColumns(prefix), last, |last.scooters|);
      }
    }
  }
}
