/** Values shared by every service: optional values, request fields with Python's
    truthiness, the evidence an image comparison works from, and the write log. */
module Values {

  datatype Option<T> = None | Some(value: T)

  /** A URL or path handed back by a collaborator (`None` or a string). Python's
      `if url:` accepts it only when it is present and non-empty. */
  predicate Present(u: Option<string>) {
    u.Some? && u.value != ""
  }

  /** `d.get(k)` on a Python dict. */
  function Lookup<K, V>(d: map<K, V>, k: K): Option<V> {
    if k in d then Some(d[k]) else None
  }

  /** A scalar read from a JSON body or a form; `Collection(n)` is a dict or list of `n` items. */
  datatype Value = Null | Bool(b: bool) | Number(x: real) | Text(s: string) | Collection(size: nat)

  /** Python's truthiness: None, False, 0, "" and empty collections are falsy. */
  predicate Truthy(v: Value) {
    match v
    case Null => false
    case Bool(b) => b
    case Number(x) => x != 0.0
    case Text(s) => s != ""
    case Collection(n) => n > 0
  }

  /** `data.get(k)`: a missing key reads as None. */
  function Get(data: map<string, Value>, k: string): Value {
    if k in data then data[k] else Null
  }

  /** SQL's `column = ?` between a stored value and a parameter: NULL equals nothing, not even
      NULL, so a comparison with it never selects a row. */
  predicate SqlEq(stored: Value, param: Value) {
    stored != Null && param != Null && stored == param
  }

  /** The key of the duplicate checks: `(segment_id, segment_name, model_type)`. */
  datatype Key = Key(segmentId: Value, segmentName: Value, modelType: Value)

  /** `WHERE segment_id = ? AND segment_name = ? AND model_type = ?` selects a stored row of key
      `stored` when it looks up `k`. */
  predicate KeyMatches(stored: Key, k: Key) {
    SqlEq(stored.segmentId, k.segmentId) && SqlEq(stored.segmentName, k.segmentName)
    && SqlEq(stored.modelType, k.modelType)
  }

  /** No part of the key is NULL, so the duplicate check can find it. */
  predicate Comparable(k: Key) {
    k.segmentId != Null && k.segmentName != Null && k.modelType != Null
  }

  /** One committed `UPDATE ... SET <column> = <url>` for the requested segment and model. */
  datatype Write = Write(column: string, url: string)

  /** What the database answers to an UPDATE: committed, or a driver error with its text. */
  datatype DbOutcome = Committed | DbError(detail: string)

  /** How one image arrived: decoded, read but not decodable (`imread`/`imdecode` gave None),
      or not reachable at all (the read raised). */
  datatype ImageRead = Decoded | Undecodable | Unreachable

  /** What `contourArea` and `boundingRect` report for one contour. */
  datatype Contour = Contour(area: real, width: nat, height: nat)

  /** The outcome of the pixel pipeline after both images decoded: the external contours
      of the edge map, or an exception somewhere in resize/equalize/blur/Canny/findContours. */
  datatype Analysis = Contours(found: seq<Contour>) | AnalysisRaised

  /** Everything a detector observes for one (new image, stored image) pair. */
  datatype Observation = Observation(newImage: ImageRead, existingImage: ImageRead, analysis: Analysis)

  /** Fetching a stored image: `urlopen` raises for None and for "", whatever the server holds. */
  function FetchStored(url: Option<string>, answer: ImageRead): ImageRead {
    if Present(url) then answer else Unreachable
  }

  /** Some contour's area is strictly above `threshold`. */
  predicate SomeAreaAbove(cs: seq<Contour>, threshold: real) {
    exists i :: 0 <= i < |cs| && cs[i].area > threshold
  }

  /** The verdict policy of the area-threshold detectors: an unreadable new image means
      "no change", an undecodable stored image means "changed", any exception means
      "no change", otherwise "changed" iff some contour is strictly larger than the threshold. */
  predicate AreaVerdict(obs: Observation, threshold: real) {
    && obs.newImage == Decoded
    && (|| obs.existingImage == Undecodable
        || (obs.existingImage == Decoded && obs.analysis.Contours?
            && SomeAreaAbove(obs.analysis.found, threshold)))
  }
}
