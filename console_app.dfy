/**
 * The console program's recognition and menu: the per-face label of
 * `recognize_faces_from_camera`, the per-face display loop of
 * `recognize_faces_from_file`, both calling `np.argmin` without a guard, and
 * the `while True` menu of `main`.
 */
module ConsoleApp {
  import opened Wrappers
  import opened Gallery
  import opened Matcher
  import opened Recognition
  import opened Enrollment
  import WindowApp

  /** The label for a probe, or the exception `np.argmin` raises on an empty gallery. */
  function ConsoleLabel(d: Directory, distances: seq<real>): (r: Result<string, MatchError>)
    requires |distances| == |d.names|
    ensures r.Failure? <==> |d.names| == 0
    ensures r.Success? ==> r.value == UnknownLabel || r.value in d.names
  {
    match UnguardedMatch(distances, Tolerance)
    case Failure(e) => Failure(e)
    case Success(m) => Success(Label(d.names, m))
  }

  /** What `recognize_faces_from_file` displays for one probe, on a non-empty gallery. */
  function ConsoleOutcome(d: Directory, distances: seq<real>): (o: Outcome)
    requires WellFormed(d)
    requires |distances| == |d.names| > 0
    ensures o.ShowDetails? ==> o.name != UnknownLabel && o.name in d.records && o.record == d.records[o.name]
  {
    Report(d, ConsoleLabel(d, distances).value)
  }

  /**
   * On a non-empty gallery a probe's details are displayed exactly when the first position
   * of the smallest distance has a distance below the threshold and the key there is not the
   * literal "Unknown"; an exact match (distance 0) is accepted like any other. The displayed
   * record's encoding is the one at that position of the list handed to `face_distance`.
   */
  lemma ConsoleShowsIff(d: Directory, dist: DistanceOracle, probe: Descriptor, name: Name, record: Record)
    requires WellFormed(d)
    requires |dist(Encodings(d), probe)| == |d.names| > 0
    ensures ConsoleOutcome(d, dist(Encodings(d), probe)) == ShowDetails(name, record) <==>
            exists k :: 0 <= k < |d.names|
              && IsFirstMin(dist(Encodings(d), probe), k) && dist(Encodings(d), probe)[k] < Tolerance
              && d.names[k] == name && name != UnknownLabel
              && record == d.records[name] && record.encoding == Encodings(d)[k]
  {
    var distances := dist(Encodings(d), probe);
    var m := UnguardedMatch(distances, Tolerance).value;
    if m.Some? {
      UnguardedIff(distances, Tolerance, m.value);
      ReportOfAccepted(d, m.value);
    }
    forall k | 0 <= k < |d.names| && IsFirstMin(distances, k) && distances[k] < Tolerance
      ensures m == Some(k)
    {
      UnguardedIff(distances, Tolerance, k);
    }
  }

  /**
   * Probing a one-person gallery with that person's own enrollment encoding (distance 0):
   * the console program displays the person, the window program reports "Face not recognized".
   */
  lemma SelfProbeOfSoleEnrollee(d: Directory, name: Name)
    requires WellFormed(d)
    requires d.names == [name] && name != UnknownLabel
    ensures ConsoleOutcome(d, [0.0]) == ShowDetails(name, d.records[name])
    ensures WindowApp.WindowOutcome(d, [0.0]) == NotRecognized
  {
    AllZeroDistancesDiverge([0.0], Tolerance);
  }

  /**
   * The labels `recognize_faces_from_camera` draws for the faces of one frame. On an empty
   * gallery the first face raises, which nothing in the program catches.
   */
  method CameraFrameLabels(faces: KnownFaces, probes: seq<Descriptor>, dist: DistanceOracle)
    returns (labels: seq<string>, raised: Option<MatchError>)
    requires faces.Valid()
    requires forall i :: 0 <= i < |probes| ==> |dist(Encodings(faces.Value()), probes[i])| == |faces.names|
    ensures raised.Some? <==> |faces.names| == 0 && |probes| > 0
    ensures raised.Some? ==> labels == []
    ensures raised.None? ==> |labels| == |probes|
    ensures raised.None? ==> forall i :: 0 <= i < |probes| ==>
              Success(labels[i]) == ConsoleLabel(faces.Value(), dist(Encodings(faces.Value()), probes[i]))
  {
    labels := [];
    raised := None;
    for i := 0 to |probes|
      invariant |labels| == i
      invariant forall j :: 0 <= j < i ==> Success(labels[j]) == ConsoleLabel(faces.Value(), dist(Encodings(faces.Value()), probes[j]))
      invariant |faces.names| == 0 ==> i == 0
    {
      var distances := dist(Encodings(faces.Value()), probes[i]);
      if |distances| == 0 {
        raised := Some(EmptyArgMin);
        labels := [];
        return;
      }
      var name := UnknownLabel;
      var best := FirstArgMin(distances);
      if distances[best] < Tolerance {
        name := faces.names[best];
      }
      labels := labels + [name];
    }
  }

  /**
   * `recognize_faces_from_file`: every face in the image gets exactly one outcome, in order,
   * unless an exception ends the loop: a load failure, or `np.argmin` on an empty gallery,
   * which the `except` catches at the first face so that no face is processed.
   */
  method RecognizeFromFile(faces: KnownFaces, image: Embedding, dist: DistanceOracle)
    returns (report: FileReport)
    requires faces.Valid()
    requires image.Faces? ==> forall i :: 0 <= i < |image.encodings| ==> |dist(Encodings(faces.Value()), image.encodings[i])| == |faces.names|
    ensures report.failed <==> image.LoadFailed? || (|faces.names| == 0 && |image.encodings| > 0)
    ensures report.failed ==> report.outcomes == []
    ensures !report.failed ==> |report.outcomes| == |image.encodings|
    ensures !report.failed && |faces.names| > 0 ==> forall i :: 0 <= i < |image.encodings| ==>
              report.outcomes[i] == ConsoleOutcome(faces.Value(), dist(Encodings(faces.Value()), image.encodings[i]))
  {
    if image.LoadFailed? {
      return FileReport([], true);
    }
    var probes := image.encodings;
    var outcomes: seq<Outcome> := [];
    for i := 0 to |probes|
      invariant |outcomes| == i
      invariant |faces.names| == 0 ==> i == 0
      invariant |faces.names| > 0 ==> forall j :: 0 <= j < i ==>
                  outcomes[j] == ConsoleOutcome(faces.Value(), dist(Encodings(faces.Value()), probes[j]))
    {
      var distances := dist(Encodings(faces.Value()), probes[i]);
      if |distances| == 0 {
        return FileReport([], true);
      }
      var name := UnknownLabel;
      var best := FirstArgMin(distances);
      if distances[best] < Tolerance {
        name := faces.names[best];
      }
      if name != UnknownLabel {
        assert name in faces.names;
        outcomes := outcomes + [ShowDetails(name, faces.records[name])];
      } else {
        outcomes := outcomes + [NotRecognized];
      }
    }
    report := FileReport(outcomes, false);
  }

  /** What the menu does with one choice. */
  datatype Command = Camera | ImportImage | Quit | Invalid

  /** `if choice == '1' ... elif choice == '2' ... elif choice == '3' ... else`. */
  function Dispatch(choice: string): (c: Command)
    ensures c == Camera <==> choice == "1"
    ensures c == ImportImage <==> choice == "2"
    ensures c == Quit <==> choice == "3"
    ensures c == Invalid <==> choice !in {"1", "2", "3"}
  {
    if choice == "1" then Camera
    else if choice == "2" then ImportImage
    else if choice == "3" then Quit
    else Invalid
  }

  /** What the menu loop does in one round. */
  datatype MenuAction = OpenCamera | ImportFile(path: string) | ExitProgram | InvalidChoice

  /** The rounds a session performs, and whether it ended through option 3 (false: ended by the uncaught EOFError). */
  datatype MenuRun = MenuRun(actions: seq<MenuAction>, exited: bool)

  /**
   * The menu session over the lines typed at the prompts: option 2 reads one more line,
   * the image path. When the lines run out, `input()` raises EOFError, which nothing
   * catches: the program stops with a traceback instead of the exit message. Such a
   * session is the one whose `exited` is false.
   */
  function Session(inputs: seq<string>): (r: MenuRun)
    ensures |r.actions| <= |inputs|
    decreases |inputs|
  {
    if inputs == [] then MenuRun([], false)
    else match Dispatch(inputs[0])
      case Camera => Then(OpenCamera, Session(inputs[1..]))
      case ImportImage =>
        if |inputs| == 1 then MenuRun([], false)
        else Then(ImportFile(inputs[1]), Session(inputs[2..]))
      case Quit => MenuRun([ExitProgram], true)
      case Invalid => Then(InvalidChoice, Session(inputs[1..]))
  }

  function Then(a: MenuAction, rest: MenuRun): MenuRun
  {
    MenuRun([a] + rest.actions, rest.exited)
  }

  /** The rounds already performed, followed by the rest of the session. */
  function After(done: seq<MenuAction>, rest: MenuRun): MenuRun
  {
    MenuRun(done + rest.actions, rest.exited)
  }

  lemma AfterThen(done: seq<MenuAction>, a: MenuAction, rest: MenuRun)
    ensures After(done + [a], rest) == After(done, Then(a, rest))
  {
    assert done + [a] + rest.actions == done + ([a] + rest.actions);
  }

  /**
   * `main`'s loop: options 1 and 2 run recognition, option 3 prints the exit message and
   * leaves the loop, anything else is reported as an invalid choice and the menu is shown again.
   */
  method RunMenu(inputs: seq<string>) returns (actions: seq<MenuAction>, exited: bool)
    ensures MenuRun(actions, exited) == Session(inputs)
  {
    actions := [];
    exited := false;
    var pos := 0;
    while pos < |inputs|
      invariant 0 <= pos <= |inputs|
      invariant Session(inputs) == After(actions, Session(inputs[pos..]))
      invariant !exited
      decreases |inputs| - pos
    {
      var rest := inputs[pos..];
      assert rest[0] == inputs[pos];
      match Dispatch(inputs[pos])
      case Camera =>
        assert rest[1..] == inputs[pos + 1..];
        AfterThen(actions, OpenCamera, Session(inputs[pos + 1..]));
        actions := actions + [OpenCamera];
        pos := pos + 1;
      case ImportImage =>
        if pos + 1 == |inputs| {
          assert Session(rest) == MenuRun([], false);
          return;
        }
        assert rest[1] == inputs[pos + 1] && rest[2..] == inputs[pos + 2..];
        AfterThen(actions, ImportFile(inputs[pos + 1]), Session(inputs[pos + 2..]));
        actions := actions + [ImportFile(inputs[pos + 1])];
        pos := pos + 2;
      case Quit =>
        assert Session(rest) == MenuRun([ExitProgram], true);
        actions := actions + [ExitProgram];
        exited := true;
        return;
      case Invalid =>
        assert rest[1..] == inputs[pos + 1..];
        AfterThen(actions, InvalidChoice, Session(inputs[pos + 1..]));
        actions := actions + [InvalidChoice];
        pos := pos + 1;
    }
  }

  /**
   * The session ends through option 3 exactly when its last round is the exit, and no
   * earlier round exits.
   */
  lemma {:induction false} ExitIsLastRound(inputs: seq<string>)
    ensures Session(inputs).exited <==>
            |Session(inputs).actions| > 0 && Session(inputs).actions[|Session(inputs).actions| - 1] == ExitProgram
    ensures forall i :: 0 <= i < |Session(inputs).actions| - 1 ==> Session(inputs).actions[i] != ExitProgram
    decreases |inputs|
  {
    if inputs != [] {
      match Dispatch(inputs[0])
      case Camera => ExitIsLastRound(inputs[1..]);
      case ImportImage => if |inputs| > 1 { ExitIsLastRound(inputs[2..]); }
      case Quit =>
      case Invalid => ExitIsLastRound(inputs[1..]);
    }
  }

  /** Once option 3 is chosen the program stops reading: later input changes nothing. */
  lemma {:induction false} NothingReadAfterExit(inputs: seq<string>, later: seq<string>)
    requires Session(inputs).exited
    ensures Session(inputs + later) == Session(inputs)
    decreases |inputs|
  {
    assert (inputs + later)[0] == inputs[0];
    match Dispatch(inputs[0])
    case Camera =>
      assert (inputs + later)[1..] == inputs[1..] + later;
      NothingReadAfterExit(inputs[1..], later);
    case ImportImage =>
      assert (inputs + later)[1] == inputs[1];
      assert (inputs + later)[2..] == inputs[2..] + later;
      NothingReadAfterExit(inputs[2..], later);
    case Quit =>
    case Invalid =>
      assert (inputs + later)[1..] == inputs[1..] + later;
      NothingReadAfterExit(inputs[1..], later);
  }
}
