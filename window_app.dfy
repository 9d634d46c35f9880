/**
 * The window program's recognition: the per-face label of `open_camera` and the
 * per-face display loop of `recognize_faces_from_file`, both guarded by
 * `distances.any()`. Distances come from the `face_distance` oracle `dist`, called with
 * the gallery's encodings in key order and the probe, which
 * gives one distance per stored encoding, in key order.
 */
module WindowApp {
  import opened Gallery
  import opened Matcher
  import opened Wrappers
  import opened Recognition
  import opened Enrollment

  /** The label the window program draws or displays for a probe with these distances. */
  function WindowLabel(d: Directory, distances: seq<real>): (shown: string)
    requires |distances| == |d.names|
    ensures shown == UnknownLabel || shown in d.names
  {
    Label(d.names, GuardedMatch(distances, Tolerance))
  }

  /** What `recognize_faces_from_file` displays for one probe. */
  function WindowOutcome(d: Directory, distances: seq<real>): (o: Outcome)
    requires WellFormed(d)
    requires |distances| == |d.names|
    ensures o.ShowDetails? ==> o.name != UnknownLabel && o.name in d.records && o.record == d.records[o.name]
  {
    Report(d, WindowLabel(d, distances))
  }

  /**
   * A probe's details are displayed exactly when some distance is non-zero, the first
   * position of the smallest distance has a distance below the threshold, and the key there
   * is not the literal "Unknown"; the displayed record is the one under that key, and its
   * encoding is the one at that position of the list handed to `face_distance`, i.e. the
   * stored encoding nearest to the probe.
   */
  lemma WindowShowsIff(d: Directory, dist: DistanceOracle, probe: Descriptor, name: Name, record: Record)
    requires WellFormed(d)
    requires |dist(Encodings(d), probe)| == |d.names|
    ensures WindowOutcome(d, dist(Encodings(d), probe)) == ShowDetails(name, record) <==>
            exists k :: 0 <= k < |d.names|
              && AnyNonZero(dist(Encodings(d), probe))
              && IsFirstMin(dist(Encodings(d), probe), k) && dist(Encodings(d), probe)[k] < Tolerance
              && d.names[k] == name && name != UnknownLabel
              && record == d.records[name] && record.encoding == Encodings(d)[k]
  {
    var distances := dist(Encodings(d), probe);
    var m := GuardedMatch(distances, Tolerance);
    if m.Some? {
      GuardedAcceptIff(distances, Tolerance, m.value);
      ReportOfAccepted(d, m.value);
    }
    forall k | 0 <= k < |d.names| && AnyNonZero(distances) && IsFirstMin(distances, k) && distances[k] < Tolerance
      ensures m == Some(k)
    {
      GuardedAcceptIff(distances, Tolerance, k);
    }
  }

  /** The labels `open_camera` draws for the faces found in one frame, one per face, in order. */
  method CameraFrameLabels(faces: KnownFaces, probes: seq<Descriptor>, dist: DistanceOracle)
    returns (labels: seq<string>)
    requires faces.Valid()
    requires forall i :: 0 <= i < |probes| ==> |dist(Encodings(faces.Value()), probes[i])| == |faces.names|
    ensures |labels| == |probes|
    ensures forall i :: 0 <= i < |probes| ==> labels[i] == WindowLabel(faces.Value(), dist(Encodings(faces.Value()), probes[i]))
  {
    labels := [];
    for i := 0 to |probes|
      invariant |labels| == i
      invariant forall j :: 0 <= j < i ==> labels[j] == WindowLabel(faces.Value(), dist(Encodings(faces.Value()), probes[j]))
    {
      var distances := dist(Encodings(faces.Value()), probes[i]);
      var name := UnknownLabel;
      var best: Option<nat> := None;
      if AnyNonZero(distances) {
        best := Some(FirstArgMin(distances));
      }
      if best.Some? && distances[best.value] < Tolerance {
        name := faces.names[best.value];
      }
      labels := labels + [name];
    }
  }

  /**
   * `recognize_faces_from_file`: a load failure is caught and reported; otherwise every
   * face in the image gets exactly one outcome, in the order the faces were found.
   */
  method RecognizeFromFile(faces: KnownFaces, image: Embedding, dist: DistanceOracle)
    returns (report: FileReport)
    requires faces.Valid()
    requires image.Faces? ==> forall i :: 0 <= i < |image.encodings| ==> |dist(Encodings(faces.Value()), image.encodings[i])| == |faces.names|
    ensures report.failed <==> image.LoadFailed?
    ensures image.LoadFailed? ==> report.outcomes == []
    ensures image.Faces? ==> |report.outcomes| == |image.encodings|
    ensures image.Faces? ==> forall i :: 0 <= i < |image.encodings| ==>
              report.outcomes[i] == WindowOutcome(faces.Value(), dist(Encodings(faces.Value()), image.encodings[i]))
  {
    if image.LoadFailed? {
      return FileReport([], true);
    }
    var probes := image.encodings;
    var outcomes: seq<Outcome> := [];
    for i := 0 to |probes|
      invariant |outcomes| == i
      invariant forall j :: 0 <= j < i ==> outcomes[j] == WindowOutcome(faces.Value(), dist(Encodings(faces.Value()), probes[j]))
    {
      var distances := dist(Encodings(faces.Value()), probes[i]);
      var name := UnknownLabel;
      var best := if AnyNonZero(distances) then Some(FirstArgMin(distances)) else None;
      if best.Some? && distances[best.value] < Tolerance {
        name := faces.names[best.value];
      }
      if name != UnknownLabel {
        assert name in faces.names;
        outcomes := outcomes + [ShowDetails(name, faces.records[name])];
      } else {
        outcomes := outcomes + [NotRecognized];
      }
    }
    report := FileReport(outcomes, false);
  }
}
