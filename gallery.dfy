/**
 * The in-memory gallery `known_faces`: a Python dict from a person's name to
 * the record built at enrollment. A Python dict iterates in insertion order,
 * and assigning to a key already present replaces the value in place, so the
 * key keeps its original position. The model keeps that order explicitly as
 * the sequence `names` beside the map `records`.
 */
module Gallery {

  /** A face encoding: the 128 floats returned by the embedder, compared only through given distances. */
  type Descriptor = seq<real>

  type Name = string

  /** One CSV cell; the program stores cells verbatim and never interprets them. */
  type Cell = string

  /** One row of the metadata table, with the columns the enrollment loop reads. */
  datatype Row = Row(
    name: Name,
    age: Cell,
    university: Cell,
    major: Cell,
    idNumber: Cell,
    maritalStatus: Cell,
    surname: Cell,
    level: Cell)

  /** The value stored under a name: the first face encoding, the row's fields and the portrait path. */
  datatype Record = Record(
    encoding: Descriptor,
    age: Cell,
    university: Cell,
    major: Cell,
    idNumber: Cell,
    maritalStatus: Cell,
    surname: Cell,
    level: Cell,
    imagePath: string)

  /** The dict as a value: keys in iteration order and the key-to-record map. */
  datatype Directory = Directory(names: seq<Name>, records: map<Name, Record>)

  const Empty := Directory([], map[])

  /** No name appears twice in the key order, and the key order lists exactly the map's keys. */
  ghost predicate WellFormed(d: Directory)
  {
    && (forall i, j :: 0 <= i < j < |d.names| ==> d.names[i] != d.names[j])
    && (forall n :: n in d.records <==> n in d.names)
  }

  /** The record the program builds from a row, its first encoding and its image path. */
  function MakeRecord(row: Row, encoding: Descriptor, imagePath: string): (r: Record)
    ensures r.encoding == encoding && r.imagePath == imagePath
    ensures r.age == row.age && r.university == row.university && r.major == row.major
    ensures r.idNumber == row.idNumber && r.maritalStatus == row.maritalStatus
    ensures r.surname == row.surname && r.level == row.level
  {
    Record(encoding, row.age, row.university, row.major, row.idNumber,
           row.maritalStatus, row.surname, row.level, imagePath)
  }

  /**
   * `known_faces[name] = record`: last write wins, a new key goes to the end
   * of the iteration order, an existing key keeps its position, and every
   * other key keeps its record.
   */
  function Insert(d: Directory, name: Name, record: Record): (r: Directory)
    ensures WellFormed(d) ==> WellFormed(r)
    ensures name in r.records && r.records[name] == record
    ensures forall n :: n != name ==> (n in r.records <==> n in d.records)
    ensures forall n :: n != name && n in d.records ==> r.records[n] == d.records[n]
    ensures name in d.records ==> r.names == d.names
    ensures name !in d.records ==> r.names == d.names + [name]
  {
    Directory(if name in d.records then d.names else d.names + [name], d.records[name := record])
  }

  /** `[data['encoding'] for data in known_faces.values()]`: the encodings in key order. */
  function Encodings(d: Directory): (e: seq<Descriptor>)
    requires WellFormed(d)
    ensures |e| == |d.names|
    ensures forall i :: 0 <= i < |d.names| ==> e[i] == d.records[d.names[i]].encoding
  {
    seq(|d.names|, i requires 0 <= i < |d.names| => d.records[d.names[i]].encoding)
  }

  /** The module-level dict that enrollment fills in place and recognition reads. */
  class KnownFaces {
    var names: seq<Name>
    var records: map<Name, Record>

    ghost predicate Valid()
      reads this
    {
      WellFormed(Value())
    }

    function Value(): Directory
      reads this
    {
      Directory(names, records)
    }

    /** `known_faces = {}` */
    constructor ()
      ensures Valid() && Value() == Empty
    {
      names := [];
      records := map[];
    }

    /** `known_faces[name] = record`, in place. */
    method Put(name: Name, record: Record)
      requires Valid()
      modifies this
      ensures Valid()
      ensures Value() == Insert(old(Value()), name, record)
    {
      if name !in records {
        names := names + [name];
      }
      records := records[name := record];
    }
  }
}
