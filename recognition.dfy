/**
 * What both programs do with a probe's label in file mode:
 * `if name != "Unknown"` the matched person's record is displayed
 * (`known_faces[name]`), otherwise "Face not recognized" is reported.
 */
module Recognition {
  import opened Gallery
  import opened Matcher
  import opened Wrappers

  /**
   * `face_distance(known_encodings, face_encoding)`: the distance from the probe to each
   * encoding of the list it is given, in that list's order.
   */
  type DistanceOracle = (seq<Descriptor>, Descriptor) -> seq<real>

  /** One displayed result per probe face. */
  datatype Outcome = ShowDetails(name: Name, record: Record) | NotRecognized

  /** The result of one file recognition: the outcomes displayed, and whether an exception ended it. */
  datatype FileReport = FileReport(outcomes: seq<Outcome>, failed: bool)

  /** The display step for one label. */
  function Report(d: Directory, shown: string): (o: Outcome)
    requires shown != UnknownLabel ==> shown in d.records
    ensures o.ShowDetails? <==> shown != UnknownLabel
    ensures o.ShowDetails? ==> o.name == shown && o.record == d.records[shown]
  {
    if shown != UnknownLabel then ShowDetails(shown, d.records[shown]) else NotRecognized
  }

  /**
   * The display step after an accepted position: the record shown is the one stored
   * under the key at that position, so its encoding is the one at that position of the
   * encodings list (`Encodings`) that both programs hand to `face_distance`.
   */
  lemma {:induction false} ReportOfAccepted(d: Directory, k: nat)
    requires WellFormed(d)
    requires k < |d.names|
    ensures d.names[k] in d.records
    ensures var o := Report(d, Label(d.names, Some(k)));
            o.ShowDetails? ==> o.record.encoding == Encodings(d)[k]
  {
    assert d.names[k] in d.names;
  }
}
