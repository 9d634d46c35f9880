/**
 * Enrollment: `add_person` and the loop over the metadata rows that fills
 * `known_faces` once at start-up. The two front-ends carry identical copies of
 * this code. The embedder (`load_image_file` followed by `face_encodings`) is an
 * oracle from image path to either a raised exception or the encodings found.
 */
module Enrollment {
  import opened Gallery
  import opened ImagePaths

  /** What loading and encoding one image gives: an exception, or the encodings of the faces found. */
  datatype Embedding = LoadFailed | Faces(encodings: seq<Descriptor>)

  /** The outcome `add_person` reports for one row: stored, "No face found", or "Error loading image". */
  datatype AddStatus = Added | NoFaceFound | LoadError

  predicate HasFace(e: Embedding)
  {
    e.Faces? && |e.encodings| > 0
  }

  function StatusOf(e: Embedding): (s: AddStatus)
    ensures s == Added <==> HasFace(e)
    ensures s == LoadError <==> e.LoadFailed?
  {
    match e
    case LoadFailed => LoadError
    case Faces(encodings) => if |encodings| > 0 then Added else NoFaceFound
  }

  /** `add_person` on the dict's value: store the row under its name with the first encoding, or change nothing. */
  function AddPersonTo(d: Directory, row: Row, imagePath: string, e: Embedding): (r: Directory)
    ensures WellFormed(d) ==> WellFormed(r)
    ensures d.names <= r.names && |r.names| <= |d.names| + 1
    ensures HasFace(e) ==> row.name in r.records && r.records[row.name] == MakeRecord(row, e.encodings[0], imagePath)
    ensures !HasFace(e) ==> r == d
  {
    if HasFace(e) then Insert(d, row.name, MakeRecord(row, e.encodings[0], imagePath)) else d
  }

  /** The row at 0-based position `i` gets a face stored, i.e. its image yields at least one encoding. */
  predicate Admitted(rows: seq<Row>, embed: string -> Embedding, i: nat)
  {
    i < |rows| && HasFace(embed(ImagePath(i)))
  }

  /** The dict after the loop has processed the first `n` rows. */
  function EnrolledAfter(rows: seq<Row>, embed: string -> Embedding, n: nat): (r: Directory)
    requires n <= |rows|
    ensures |r.names| <= n
  {
    if n == 0 then Empty
    else AddPersonTo(EnrolledAfter(rows, embed, n - 1), rows[n - 1], ImagePath(n - 1), embed(ImagePath(n - 1)))
  }

  /** How many of the first `n` rows are admitted. */
  function AdmittedCount(rows: seq<Row>, embed: string -> Embedding, n: nat): nat
    requires n <= |rows|
  {
    if n == 0 then 0
    else AdmittedCount(rows, embed, n - 1) + (if Admitted(rows, embed, n - 1) then 1 else 0)
  }

  /**
   * `add_person(name, image_path, ...)`: stores a record only when the image
   * yields an encoding and keeps only the first one; a face-less image or a
   * raised exception leaves the dict untouched and is only reported.
   */
  method AddPerson(faces: KnownFaces, row: Row, imagePath: string, e: Embedding) returns (status: AddStatus)
    requires faces.Valid()
    modifies faces
    ensures faces.Valid()
    ensures status == StatusOf(e)
    ensures status == Added ==>
      faces.Value() == Insert(old(faces.Value()), row.name, MakeRecord(row, e.encodings[0], imagePath))
    ensures status != Added ==> faces.Value() == old(faces.Value())
    ensures faces.Value() == AddPersonTo(old(faces.Value()), row, imagePath, e)
  {
    match e
    case LoadFailed =>
      status := LoadError;
    case Faces(encodings) =>
      if |encodings| > 0 {
        faces.Put(row.name, MakeRecord(row, encodings[0], imagePath));
        status := Added;
      } else {
        status := NoFaceFound;
      }
  }

  /**
   * `known_faces = {}` followed by `for index, row in data.iterrows(): ... add_person(...)`.
   * Every row is visited in order, with image `image/{index + 1}.jpg`; no row's failure stops the loop.
   */
  method LoadPeople(rows: seq<Row>, embed: string -> Embedding) returns (faces: KnownFaces, statuses: seq<AddStatus>)
    ensures fresh(faces) && faces.Valid()
    ensures faces.Value() == EnrolledAfter(rows, embed, |rows|)
    ensures |statuses| == |rows|
    ensures forall i :: 0 <= i < |rows| ==> statuses[i] == StatusOf(embed(ImagePath(i)))
  {
    faces := new KnownFaces();
    statuses := [];
    for index := 0 to |rows|
      invariant faces.Valid()
      invariant faces.Value() == EnrolledAfter(rows, embed, index)
      invariant |statuses| == index
      invariant forall i :: 0 <= i < index ==> statuses[i] == StatusOf(embed(ImagePath(i)))
    {
      var imagePath := ImagePath(index);
      ghost var before := faces.Value();
      var status := AddPerson(faces, rows[index], imagePath, embed(imagePath));
      assert EnrolledAfter(rows, embed, index + 1) == AddPersonTo(before, rows[index], imagePath, embed(imagePath));
      statuses := statuses + [status];
      assert statuses[index] == StatusOf(embed(ImagePath(index)));
    }
  }

  /** The gallery built by enrollment never lists a name twice and lists exactly its keys. */
  lemma {:induction false} EnrolledWellFormed(rows: seq<Row>, embed: string -> Embedding, n: nat)
    requires n <= |rows|
    ensures WellFormed(EnrolledAfter(rows, embed, n))
  {
    if n > 0 {
      EnrolledWellFormed(rows, embed, n - 1);
    }
  }

  /** A name is in the gallery exactly when some processed row with that name yielded a face. */
  lemma {:induction false} EnrolledIff(rows: seq<Row>, embed: string -> Embedding, n: nat, name: Name)
    requires n <= |rows|
    ensures name in EnrolledAfter(rows, embed, n).records <==>
            exists i :: 0 <= i < n && Admitted(rows, embed, i) && rows[i].name == name
  {
    if n > 0 {
      EnrolledIff(rows, embed, n - 1, name);
      if Admitted(rows, embed, n - 1) && rows[n - 1].name == name {
        assert 0 <= n - 1 < n && Admitted(rows, embed, n - 1) && rows[n - 1].name == name;
      }
    }
  }

  /**
   * Last write wins: the record under a name comes from the last processed row with
   * that name that yielded a face, built from its first encoding, its fields and its image path.
   */
  lemma {:induction false} LastWriteWins(rows: seq<Row>, embed: string -> Embedding, n: nat, i: nat)
    requires i < n <= |rows|
    requires Admitted(rows, embed, i)
    requires forall j :: i < j < n && Admitted(rows, embed, j) ==> rows[j].name != rows[i].name
    ensures rows[i].name in EnrolledAfter(rows, embed, n).records
    ensures EnrolledAfter(rows, embed, n).records[rows[i].name] ==
            MakeRecord(rows[i], embed(ImagePath(i)).encodings[0], ImagePath(i))
  {
    if i < n - 1 {
      LastWriteWins(rows, embed, n - 1, i);
    }
  }

  /** Row `i` is the last of the first `n` rows that stored a record under `name`. */
  ghost predicate LastAdmittedFor(rows: seq<Row>, embed: string -> Embedding, n: nat, i: nat, name: Name)
    requires n <= |rows|
  {
    && i < n && Admitted(rows, embed, i) && rows[i].name == name
    && forall j :: i < j < n && Admitted(rows, embed, j) ==> rows[j].name != name
  }

  /** Every stored record was built from the last processed row with that name that yielded a face. */
  lemma {:induction false} RecordProvenance(rows: seq<Row>, embed: string -> Embedding, n: nat, name: Name)
    returns (i: nat)
    requires n <= |rows|
    requires name in EnrolledAfter(rows, embed, n).records
    ensures LastAdmittedFor(rows, embed, n, i, name)
    ensures EnrolledAfter(rows, embed, n).records[name] ==
            MakeRecord(rows[i], embed(ImagePath(i)).encodings[0], ImagePath(i))
  {
    if Admitted(rows, embed, n - 1) && rows[n - 1].name == name {
      i := n - 1;
    } else {
      var before := EnrolledAfter(rows, embed, n - 1);
      var e := embed(ImagePath(n - 1));
      if HasFace(e) {
        assert EnrolledAfter(rows, embed, n) == Insert(before, rows[n - 1].name, MakeRecord(rows[n - 1], e.encodings[0], ImagePath(n - 1)));
      } else {
        assert EnrolledAfter(rows, embed, n) == before;
      }
      i := RecordProvenance(rows, embed, n - 1, name);
      forall j | i < j < n && Admitted(rows, embed, j) ensures rows[j].name != name {
        if j < n - 1 {
          assert LastAdmittedFor(rows, embed, n - 1, i, name);
        }
      }
    }
  }

  /**
   * Positions are stable: a name keeps the position it got when first stored,
   * later rows (including re-enrollments of the same name) only append new names.
   */
  lemma {:induction false} NamesOnlyGrow(rows: seq<Row>, embed: string -> Embedding, n: nat, m: nat)
    requires n <= m <= |rows|
    ensures EnrolledAfter(rows, embed, n).names <= EnrolledAfter(rows, embed, m).names
  {
    if n < m {
      NamesOnlyGrow(rows, embed, n, m - 1);
    }
  }

  /**
   * The gallery holds at most one entry per admitted row; when the rows' names are
   * pairwise distinct it holds exactly one per admitted row.
   */
  lemma {:induction false} EnrolledSize(rows: seq<Row>, embed: string -> Embedding, n: nat)
    requires n <= |rows|
    ensures |EnrolledAfter(rows, embed, n).names| <= AdmittedCount(rows, embed, n)
    ensures (forall i, j :: 0 <= i < j < n ==> rows[i].name != rows[j].name) ==>
            |EnrolledAfter(rows, embed, n).names| == AdmittedCount(rows, embed, n)
  {
    if n > 0 {
      EnrolledSize(rows, embed, n - 1);
      if (forall i, j :: 0 <= i < j < n ==> rows[i].name != rows[j].name) && Admitted(rows, embed, n - 1) {
        EnrolledIff(rows, embed, n - 1, rows[n - 1].name);
      }
    }
  }

  lemma {:induction false} AdmittedCountAllBut(rows: seq<Row>, embed: string -> Embedding, n: nat, k: nat)
    requires n <= |rows|
    requires forall i :: 0 <= i < n && i != k ==> Admitted(rows, embed, i)
    requires !Admitted(rows, embed, k)
    ensures AdmittedCount(rows, embed, n) == if k < n then n - 1 else n
  {
    if n > 0 {
      AdmittedCountAllBut(rows, embed, n - 1, k);
    }
  }

  /**
   * N rows with distinct names of which only row `k` shows no face give a gallery of
   * N - 1 people, and row `k`'s name is not among them.
   */
  lemma OneFacelessRow(rows: seq<Row>, embed: string -> Embedding, k: nat)
    requires k < |rows|
    requires forall i, j :: 0 <= i < j < |rows| ==> rows[i].name != rows[j].name
    requires forall i :: 0 <= i < |rows| && i != k ==> Admitted(rows, embed, i)
    requires !Admitted(rows, embed, k)
    ensures |EnrolledAfter(rows, embed, |rows|).names| == |rows| - 1
    ensures rows[k].name !in EnrolledAfter(rows, embed, |rows|).records
  {
    EnrolledSize(rows, embed, |rows|);
    AdmittedCountAllBut(rows, embed, |rows|, k);
    EnrolledIff(rows, embed, |rows|, rows[k].name);
  }
}
