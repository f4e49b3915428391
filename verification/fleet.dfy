/**
 * The garage's in-memory tables. Python dicts iterate in insertion order, and
 * that order decides which alerts the dashboard shows, so the vehicle table
 * carries its key order explicitly.
 */
module Fleet {
  import opened Wrappers

  /** A row of `vehicles`, keyed by its registration number. */
  datatype Vehicle = Vehicle(
    make: string,
    model: string,
    year: int,
    regNo: string,
    color: string,
    odo: real,
    desc: string,
    createdDate: string,
    garage: string,
    thumbnailUrl: Option<string>)

  /** A row of `assignments`: `driver` has `carId` from `startDate` to `endDate`, both inclusive. */
  datatype Assignment = Assignment(carId: string, driver: string, startDate: string, endDate: string)

  /** A row of `documents[car_id]`; `expiry` is whatever the upload form sent, possibly nothing. */
  datatype Document = Document(
    docType: string,
    expiry: Option<string>,
    uploadedDate: string,
    driveLink: Option<string>,
    documentUrl: string,
    originalFilename: string)

  /** A row of `users`; the password is only ever held as an opaque hash. */
  datatype User = User(passwordHash: string, role: string, createdDate: string)

  datatype Store = Store(
    users: map<string, User>,
    order: seq<string>,
    vehicles: map<string, Vehicle>,
    assignments: seq<Assignment>,
    documents: map<string, seq<Document>>)

  predicate NoDuplicates<T(==)>(s: seq<T>)
  {
    forall i, j :: 0 <= i < j < |s| ==> s[i] != s[j]
  }

  /** `order` lists every vehicle key exactly once, as a dict's iteration does. */
  predicate Ordered(s: Store)
  {
    && NoDuplicates(s.order)
    && (forall i :: 0 <= i < |s.order| ==> s.order[i] in s.vehicles)
    && (forall v :: v in s.vehicles ==> v in s.order)
  }

  /** `documents.get(car_id, [])`. */
  function DocsOf(documents: map<string, seq<Document>>, carId: string): seq<Document>
  {
    if carId in documents then documents[carId] else []
  }

  /** The members of a non-empty sequence are those of its front part and its last entry. */
  lemma MembersOfSnoc<T>(s: seq<T>)
    requires |s| > 0
    ensures forall v :: v in s <==> v in s[..|s| - 1] || v == s[|s| - 1]
  {
    assert s == s[..|s| - 1] + [s[|s| - 1]];
  }

  /** A duplicate-free sequence has as many distinct elements as entries. */
  lemma {:induction false} DistinctCount<T>(s: seq<T>)
    requires NoDuplicates(s)
    ensures |set x | x in s| == |s|
  {
    if |s| > 0 {
      var init := s[..|s| - 1];
      var last := s[|s| - 1];
      DistinctCount(init);
      assert (set x | x in s) == (set x | x in init) + {last};
      assert last !in (set x | x in init);
    }
  }

  /** An ordered store has as many vehicles as its order has entries. */
  lemma OrderedSize(s: Store)
    requires Ordered(s)
    ensures |s.vehicles| == |s.order|
  {
    DistinctCount(s.order);
    assert s.vehicles.Keys == set x | x in s.order;
  }
}
