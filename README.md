# Identity matching engine of the face-recognition front-ends

The repository has two front-ends: a window program (`interface.py`) and a console
program (`terminal.py`). Each one builds an in-memory gallery, `known_faces`, when it
starts. The gallery maps a person's name to a record: the first face encoding found in
that person's portrait, the person's metadata row and the portrait's path. The program
then labels every face it sees with the gallery entry whose encoding is nearest to it,
or with "Unknown" when that entry is not near enough.

This project models that engine in Dafny and proves what it does:

- **Gallery** (`gallery.dfy`). The Python dict is a class `KnownFaces` with two fields:
  the key order (`names`) and the key-to-record map (`records`). `Insert` is the value
  semantics of `known_faces[name] = record`. The last write wins, a new key is appended,
  and an existing key keeps its position.
- **Image paths** (`image_paths.dfy`). This is the row-to-image pairing
  `image/{index + 1}.jpg`. Its decimal rendering is written out and read back.
- **Enrollment** (`enrollment.dfy`). This is `add_person` and the loop over the
  metadata rows. The loop is a method proved against the fold `EnrolledAfter`. The
  lemmas cover membership, provenance of each record, last-write-wins, stable key
  positions and the gallery's size.
- **Matcher** (`matcher.dfy`). This is the per-probe rule: first position of the
  smallest distance, accepted only strictly below the threshold. It comes in two
  variants:
  - `GuardedMatch`, the window program's `distances.any()` guard;
  - `UnguardedMatch`, the console program's bare `np.argmin`, which raises on an empty
    gallery.

  Both are compared against `FollowsPolicy`, a reference statement of the intended
  policy that does not use `argmin`.
- **Sessions** (`recognition.dfy`, `window_app.dfy`, `console_app.dfy`). These are the
  per-face loops of camera mode and file mode in both programs, and the console
  program's menu.

External calls are oracles:

- `load_image_file` followed by `face_encodings` is a function from an image path to
  `Embedding`. An `Embedding` is either `LoadFailed` (the call raised) or the list of
  encodings found.
- `face_distance` is a function `dist` of a list of encodings and a probe encoding. It
  gives one distance per encoding of the list, in the list's order. Both programs call it
  with the gallery's encodings in key order (`Gallery.Encodings`), and so does the model.

Encodings are opaque sequences of reals. Only comparisons are made on distances, so no
floating-point arithmetic is modelled. The threshold is a parameter of the matcher.
Both programs write it as the float literal `0.6`. That float is the real number
0.59999999999999997779553950749686919152736663818359375, just below 0.6, and
`Matcher.Tolerance` is exactly that value. So a distance equal to the float is rejected,
as in the programs (`FloatLiteralRejected`).

Enrollment is the same logic in both programs (`interface.py:19-56`,
`terminal.py:30-71`), apart from the messages printed: the console program also prints
each stored encoding (`terminal.py:50`). So it is modelled once. The table cites the window program's
lines.

The intended behaviour of the engine differs from what the code does in a few places.
The model follows the code:

- A probe identical to an enrolled encoding is meant to be matched always. In the
  window program this fails when every distance is exactly 0, for
  example in a one-person gallery probed with that person's own encoding. The
  `any()` guard then yields "Unknown" (`AllZeroDistancesDiverge`,
  `GuardedFollowsPolicyIff`, `SelfProbeOfSoleEnrollee`).
- An empty gallery is meant to give "not recognised" and never to raise. The console program's
  `np.argmin` raises on it:
  - in file mode the `except` ends the loop before any face is handled;
  - in camera mode nothing catches it (`ConsoleApp.RecognizeFromFile`,
    `ConsoleApp.CameraFrameLabels`).
- Enrollment failures are meant to be collected in a warning list. The code prints
  one message per failed row. The model returns one `AddStatus` per row.
- The label is a string whose sentinel is "Unknown", as in the code. So a person
  enrolled under the literal name "Unknown" is reported as "Face not recognized" even
  when matched (`WindowShowsIff`, `ConsoleShowsIff`).

## Model

| member | source | states |
|---|---|---|
| Gallery.MakeRecord | interface.py:27-37 | the stored record holds the given first encoding, every metadata field of the row verbatim, and the image path |
| Gallery.Insert | interface.py:27 | dict assignment: the key maps to the new record (last write wins); other keys keep their records; an existing key keeps its position; a new key is appended; no key is listed twice |
| Gallery.Encodings | interface.py:79 | the encodings list handed to `face_distance` has one entry per key, and entry i is the encoding stored under the i-th key |
| Gallery.KnownFaces.constructor | interface.py:19 | `known_faces = {}` starts with no keys and no records |
| Gallery.KnownFaces.Put | interface.py:27-37 | in-place assignment: the dict's new value is `Insert` of its old value, and the dict stays well formed |
| ImagePaths.Decimal | interface.py:55 | `str(n)` of a natural is a non-empty string of decimal digits with no leading zero (unless it is "0") |
| ImagePaths.DecimalRoundTrip | interface.py:55 | reading the decimal rendering back gives the number |
| ImagePaths.ImagePath | interface.py:55 | the path of a row has the shape `image/<...>.jpg`; `ImagePathNumber` and `ImagePathInjective` characterise it fully |
| ImagePaths.ImagePathNumber | interface.py:55 | the row at 0-based position i is paired with the file `image/<i+1>.jpg`, and the number i+1 can be read back from the path |
| ImagePaths.ImagePathInjective | interface.py:46-56 | two different rows are never paired with the same image file |
| Enrollment.StatusOf | interface.py:26-41 | a row is stored iff its image yields at least one encoding; a raised exception is reported as a load error, and no faces as "No face found" |
| Enrollment.AddPersonTo | interface.py:22-41 | `add_person` on the dict's value: with a face found, the row's name maps to the record built from the first encoding; otherwise the dict is unchanged; the key order only grows, by at most one name, and stays well formed |
| Enrollment.AddPerson | interface.py:22-41 | stores the row under its name with the first encoding when one is found; otherwise the dict is left unchanged and only a status is reported |
| Enrollment.LoadPeople | interface.py:44-56 | visits every row in order with image `image/{i+1}.jpg`; the dict ends as the fold `EnrolledAfter` over all rows, with one status per row and no row's failure stopping the loop |
| Enrollment.EnrolledAfter | interface.py:46-56 | the row loop as a fold: after n rows the gallery has at most n names; `EnrolledWellFormed`, `EnrolledIff`, `LastWriteWins`, `RecordProvenance`, `NamesOnlyGrow` and `EnrolledSize` characterise it |
| Enrollment.EnrolledWellFormed | interface.py:27 | the enrolled gallery never lists a name twice, and its key order lists exactly its keys |
| Enrollment.EnrolledIff | interface.py:46-56 | a name is in the gallery iff some processed row with that name yielded a face |
| Enrollment.LastWriteWins | interface.py:27-37 | the record under a name is built from the last processed row with that name that yielded a face: its first encoding, its fields, its image path |
| Enrollment.RecordProvenance | interface.py:27-37 | every stored record comes from a row with that name that yielded a face, and no later row with that name yielded one |
| Enrollment.NamesOnlyGrow | interface.py:27 | the key order after n rows is a prefix of the key order after any later row, so re-enrolling a name keeps its position |
| Enrollment.EnrolledSize | interface.py:27 | the gallery has at most one entry per admitted row, and exactly one when the row names are distinct (duplicates do not grow it) |
| Enrollment.OneFacelessRow | interface.py:38-39 | N rows with distinct names where only row k shows no face give N-1 people, and row k's name is absent |
| Matcher.FirstArgMin | interface.py:83 | `argmin` returns the first position of the minimum: no distance is smaller, and every earlier one is strictly larger |
| Matcher.FirstMinUnique | interface.py:83 | the first position of the minimum is unique |
| Matcher.Label | interface.py:78-86 | the label is the key at the accepted position, or "Unknown" when nothing is accepted |
| Matcher.GuardedMatch | interface.py:81-85 | the window rule as written: an accepted position needs some non-zero distance, is the first minimum, and its distance is strictly below the threshold; `GuardedAcceptIff`, `GuardedRejectIff` and `GuardedFollowsPolicyIff` characterise it exactly |
| Matcher.UnguardedMatch | terminal.py:97-99 | the console rule as written: it fails iff the distance list is empty; an accepted position is the first minimum and strictly below the threshold; `UnguardedIff` and `UnguardedFollowsPolicy` characterise it exactly |
| Matcher.GuardedAcceptIff | interface.py:81-86 | window program: position k is accepted iff some distance is non-zero, k is the first minimum, and its distance is strictly below the threshold |
| Matcher.GuardedRejectIff | interface.py:81-85 | window program: "Unknown" iff the gallery is empty, every distance is exactly 0, or no distance is below the threshold |
| Matcher.UnguardedIff | terminal.py:97-100 | console program: raises iff the gallery is empty; otherwise accepts k iff k is the first minimum with distance strictly below the threshold, and rejects iff no distance is below it |
| Matcher.UnguardedFollowsPolicy | terminal.py:124-127 | on a non-empty gallery the console rule follows the reference policy |
| Matcher.GuardedFollowsPolicyIff | interface.py:82 | the window rule follows the reference policy in every case except a non-empty, all-zero distance list under a positive threshold |
| Matcher.VariantsAgree | interface.py:81-86 | whenever some distance is non-zero, both programs accept the same position |
| Matcher.UnguardedAcceptsExactMatch | terminal.py:124-127 | with non-negative distances, a distance of 0 is accepted by the console rule under any positive threshold, at the first zero |
| Matcher.AllZeroDistancesDiverge | interface.py:82 | when every distance is 0, the window rule gives "Unknown" while the console rule accepts position 0 |
| Matcher.AtThresholdRejected | interface.py:85 | the threshold is strict: when no distance is below it (a distance equal to it included) both rules reject |
| Matcher.FloatLiteralRejected | interface.py:85 | the threshold is the float written `0.6`, which is below the real 0.6, and a distance equal to it is rejected by both rules |
| Matcher.EmptyGallery | interface.py:163 | an empty gallery gives "Unknown" in the window program and the `argmin` exception in the console program |
| Recognition.Report | interface.py:168-172 | details are shown iff the label is not "Unknown", and they are the record stored under that label |
| Recognition.ReportOfAccepted | interface.py:161-170 | the record displayed for an accepted position is stored under the key at that position, and its encoding is the encoding at that position of the key-ordered list handed to `face_distance` |
| WindowApp.WindowLabel | interface.py:77-86 | the window program's label is "Unknown" or a stored name |
| WindowApp.WindowOutcome | interface.py:168-172 | a detail display always shows a stored name other than "Unknown" with the record stored under it; `WindowShowsIff` says exactly when it happens |
| WindowApp.WindowShowsIff | interface.py:159-172 | with the distances computed by `face_distance` from the gallery's key-ordered encodings, details of (name, record) are shown iff some distance is non-zero, the first minimum is strictly below the threshold, the key there is this name and not "Unknown", and the record is stored under it; its encoding is the list entry at the minimum |
| WindowApp.CameraFrameLabels | interface.py:77-90 | one label per face in the frame, in order, each the window rule's label for the distances from the gallery's encodings |
| WindowApp.RecognizeFromFile | interface.py:154-174 | a load failure is caught and nothing is displayed; otherwise each face gets exactly one outcome, in order, the window rule's outcome |
| ConsoleApp.ConsoleLabel | terminal.py:92-100 | the console label raises iff the gallery is empty, and otherwise is "Unknown" or a stored name |
| ConsoleApp.ConsoleOutcome | terminal.py:130-152 | a detail display always shows a stored name other than "Unknown" with the record stored under it; `ConsoleShowsIff` says exactly when it happens |
| ConsoleApp.ConsoleShowsIff | terminal.py:120-152 | on a non-empty gallery, with the distances computed by `face_distance` from the gallery's key-ordered encodings, details of (name, record) are shown iff the first minimum is strictly below the threshold (0 included), the key there is this name and not "Unknown", and the record is stored under it; its encoding is the list entry at the minimum |
| ConsoleApp.SelfProbeOfSoleEnrollee | terminal.py:124-127 | a one-person gallery probed at distance 0 is displayed by the console program and reported as not recognised by the window program |
| ConsoleApp.CameraFrameLabels | terminal.py:92-104 | the frame raises iff the gallery is empty and the frame has a face; otherwise one label per face, in order, each the console rule's label for the distances from the gallery's encodings |
| ConsoleApp.RecognizeFromFile | terminal.py:115-155 | the call fails iff the image fails to load, or the gallery is empty and a face is found; a failure displays nothing; otherwise each face gets exactly one outcome, in order |
| ConsoleApp.Dispatch | terminal.py:169-178 | '1' runs the camera, '2' imports a file, '3' quits; any other input is an invalid choice |
| ConsoleApp.Session | terminal.py:161-178 | the menu over the typed lines performs at most one round per line; `RunMenu`, `ExitIsLastRound` and `NothingReadAfterExit` characterise it |
| ConsoleApp.RunMenu | terminal.py:161-178 | the loop performs exactly the rounds of `Session`: '1' and '2' recognise ('2' reads a path), '3' exits, anything else is invalid and re-prompts |
| ConsoleApp.ExitIsLastRound | terminal.py:174-176 | the menu ends through '3' iff its last round is the exit, and no earlier round exits |
| ConsoleApp.NothingReadAfterExit | terminal.py:174-176 | after '3' no further input is read: appending input does not change the session |

## Left out

- Reading the CSV (`pd.read_csv`) and the `exit()` when it is missing. The rows are an input sequence, and a missing table is outside the model.
- Image decoding, face detection, face encoding and `face_distance`. These are foreign library calls, modelled as the oracles `embed` and `dist`; the Euclidean distance itself is not modelled.
- The dimension check between encodings. It happens inside `face_distance`, which is an oracle here.
- Camera capture and the frame loop (`VideoCapture`, `read`, `imshow`, `waitKey`, `release`). These are device I/O; only the labels computed for one frame are modelled.
- Drawing, windows, tables and plots (tkinter, ttkbootstrap, PrettyTable, matplotlib, colorama, pyfiglet). These are presentation.
- Failures inside the display of a matched record. These are `Image.open` in the window program and `cv2.imread`/`plt` in the console program, which would end the file loop early. They are presentation I/O.
- The EOFError that `input()` raises when the menu's input runs out. It is uncaught and ends the program with a traceback. The model ends such a session with `exited` false and does not model the traceback.
- The menu's recognition calls themselves. `RunMenu` records which action each round runs. An exception escaping the camera mode, which would end the whole program, is not fed back into the menu loop.
- The window program's `upload_image`, `enter_image_path`, `capture_image` and `quit_app`. These are file dialogs, a placeholder message and window teardown around `recognize_faces_from_file`.
