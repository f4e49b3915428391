/**
 * The form handlers that change the tables (`add_vehicle`, `add_user`,
 * `upload_document`) and the first-run seeding done by `load_data`, each as a
 * pure transition from one store to the next. Files, hashing and clocks are
 * inputs: the saved file's URL, the Drive link, the password hash and the
 * current timestamp are handed in.
 */
module Handlers {
  import opened Wrappers
  import opened Text
  import opened IsoDate
  import opened Fleet
  import opened Dashboard

  /** What became of a submitted form. */
  datatype Outcome =
    | Saved                       // the tables changed and were saved
    | Rejected(message: string)   // an error was flashed and the form shown again
    | Raised                      // a conversion raised before anything changed

  datatype Step = Step(store: Store, outcome: Outcome)

  /** Python truthiness of an optional form field: missing or empty is false. */
  predicate Present(field: Option<string>)
  {
    field.Some? && field.value != ""
  }

  // ------------------------------------------------------------ add_vehicle

  /** The name vehicles are filed under is fixed for every new vehicle. */
  const GarageName: string := "Inanis Garage"

  /** `reg_no.strip().upper()`: the key a new vehicle is filed under. */
  function VehicleKey(regNo: string): (k: string)
    ensures |k| <= |regNo|
    ensures |k| > 0 ==> !IsSpace(k[0]) && !IsSpace(k[|k| - 1])
    ensures forall i :: 0 <= i < |k| ==> !('a' <= k[i] <= 'z')
  {
    UpperKeepsShape(Strip(regNo));
    Upper(Strip(regNo))
  }

  /** Normalising a normalised key changes nothing, so a stored key is found again as itself. */
  lemma VehicleKeyIdempotent(regNo: string)
    ensures VehicleKey(VehicleKey(regNo)) == VehicleKey(regNo)
  {
    var k := VehicleKey(regNo);
    StripTrimmed(k);
    UpperKeepsShape(Strip(regNo));
  }

  /**
   * The add-vehicle form. `year` and `odo` are what `int()` and `float()` made
   * of their fields, `None` where the conversion raised.
   */
  datatype VehicleForm = VehicleForm(
    regNo: string,
    make: string,
    model: string,
    year: Option<int>,
    color: string,
    odo: Option<real>,
    desc: string)

  /**
   * A POST to `add_vehicle`: a normalised key already in use is refused, a
   * failed number conversion changes nothing, and otherwise exactly one vehicle
   * is added, last in iteration order, under its normalised key.
   */
  function AddVehicle(s: Store, form: VehicleForm, thumbnailUrl: Option<string>, now: string): (r: Step)
    ensures VehicleKey(form.regNo) in s.vehicles ==> r == Step(s, Rejected("Exists"))
    ensures VehicleKey(form.regNo) !in s.vehicles && (form.odo.None? || form.year.None?) ==> r == Step(s, Raised)
    ensures VehicleKey(form.regNo) !in s.vehicles && form.odo.Some? && form.year.Some? ==> r.outcome == Saved
    ensures r.outcome != Saved ==> r.store == s
    ensures r.outcome == Saved ==>
      var vid := VehicleKey(form.regNo);
      && vid !in s.vehicles
      && r.store.vehicles.Keys == s.vehicles.Keys + {vid}
      && (forall k :: k in s.vehicles ==> r.store.vehicles[k] == s.vehicles[k])
      && r.store.order == s.order + [vid]
      && r.store.users == s.users
      && r.store.assignments == s.assignments
      && r.store.documents == s.documents
    ensures r.outcome == Saved ==>
      var v := r.store.vehicles[VehicleKey(form.regNo)];
      && v.regNo == VehicleKey(form.regNo)
      && v.make == Strip(form.make) && v.model == Strip(form.model) && v.color == Strip(form.color)
      && v.desc == Strip(form.desc) && v.year == form.year.value && v.odo == form.odo.value
      && v.garage == GarageName && v.createdDate == now && v.thumbnailUrl == thumbnailUrl
  {
    var vid := VehicleKey(form.regNo);
    if vid in s.vehicles then Step(s, Rejected("Exists"))
    else if form.odo.None? || form.year.None? then Step(s, Raised)
    else
      var v := Vehicle(Strip(form.make), Strip(form.model), form.year.value, vid, Strip(form.color),
                       form.odo.value, Strip(form.desc), now, GarageName, thumbnailUrl);
      Step(s.(order := s.order + [vid], vehicles := s.vehicles[vid := v]), Saved)
  }

  /** Adding a vehicle keeps the order listing every vehicle once, and grows the table by one. */
  lemma AddVehicleKeepsOrder(s: Store, form: VehicleForm, thumbnailUrl: Option<string>, now: string)
    requires Ordered(s)
    ensures var r := AddVehicle(s, form, thumbnailUrl, now);
      && Ordered(r.store)
      && |r.store.vehicles| == |s.vehicles| + (if r.outcome == Saved then 1 else 0)
  {
    var r := AddVehicle(s, form, thumbnailUrl, now);
    if r.outcome == Saved {
      var vid := VehicleKey(form.regNo);
      assert vid !in s.order;
      var o := r.store.order;
      assert o == s.order + [vid];
      forall i, j | 0 <= i < j < |o|
        ensures o[i] != o[j]
      {
        if j == |s.order| {
          assert o[i] == s.order[i];
        }
      }
      assert forall i :: 0 <= i < |o| ==> o[i] in r.store.vehicles;
      assert r.store.vehicles.Keys == s.vehicles.Keys + {vid};
    }
  }

  // ------------------------------------------------------------ add_user

  /**
   * A POST to `add_user`: a taken username is refused; otherwise exactly one
   * account is added with the given role and password hash, and no existing
   * account changes.
   */
  function AddUser(s: Store, username: string, passwordHash: string, role: string, now: string): (r: Step)
    ensures username in s.users ==> r == Step(s, Rejected("Exists"))
    ensures username !in s.users ==>
      && r.outcome == Saved
      && r.store.users.Keys == s.users.Keys + {username}
      && |r.store.users| == |s.users| + 1
      && (forall u :: u in s.users ==> r.store.users[u] == s.users[u])
      && r.store.users[username].role == role
      && r.store.users[username].passwordHash == passwordHash
      && r.store.users[username].createdDate == now
      && r.store == s.(users := r.store.users)
  {
    if username in s.users then Step(s, Rejected("Exists"))
    else Step(s.(users := s.users[username := User(passwordHash, role, now)]), Saved)
  }

  // ------------------------------------------------------------ upload_document

  /** An uploaded file; werkzeug treats one without a file name as no file at all. */
  datatype Upload = Upload(filename: string)

  /** `not f`: no file part, or one with an empty file name. */
  predicate NoFile(file: Option<Upload>)
  {
    file.None? || file.value.filename == ""
  }

  /**
   * A POST to `upload_document/<carId>`: without a file or a type nothing
   * changes; otherwise one record is appended to the end of `carId`'s document
   * list, created empty if absent, and no other list changes. Neither `carId`
   * nor `expiry` is checked.
   */
  function UploadDocument(s: Store, carId: string, file: Option<Upload>, docType: Option<string>,
                          expiry: Option<string>, documentUrl: string, driveLink: Option<string>,
                          now: string): (r: Step)
    ensures NoFile(file) || !Present(docType) ==> r == Step(s, Rejected("Select file&type"))
    ensures !NoFile(file) && Present(docType) ==>
      && r.outcome == Saved
      && r.store.documents.Keys == s.documents.Keys + {carId}
      && |r.store.documents[carId]| == |DocsOf(s.documents, carId)| + 1
      && r.store.documents[carId][..|DocsOf(s.documents, carId)|] == DocsOf(s.documents, carId)
      && (forall k :: k in s.documents && k != carId ==> r.store.documents[k] == s.documents[k])
      && r.store == s.(documents := r.store.documents)
    ensures !NoFile(file) && Present(docType) ==>
      var d := r.store.documents[carId][|DocsOf(s.documents, carId)|];
      && d.docType == docType.value && d.expiry == expiry && d.originalFilename == file.value.filename
      && d.documentUrl == documentUrl && d.driveLink == driveLink && d.uploadedDate == now
  {
    if NoFile(file) || !Present(docType) then Step(s, Rejected("Select file&type"))
    else
      var d := Document(docType.value, expiry, now, driveLink, documentUrl, file.value.filename);
      Step(s.(documents := s.documents[carId := DocsOf(s.documents, carId) + [d]]), Saved)
  }

  /**
   * After an upload the dashboard can still read every listed vehicle's
   * documents exactly when the new expiry is absent, empty or a well-formed
   * date, or the upload went to a key that is not a listed vehicle (an
   * unreadable one makes every later dashboard view raise).
   */
  lemma UploadKeepsDashboardReadable(s: Store, carId: string, file: Option<Upload>, docType: Option<string>,
                                     expiry: Option<string>, documentUrl: string, driveLink: Option<string>,
                                     now: string)
    requires Readable(s.order, s.documents)
    requires !NoFile(file) && Present(docType)
    ensures var r := UploadDocument(s, carId, file, docType, expiry, documentUrl, driveLink, now);
      Readable(r.store.order, r.store.documents) <==> carId !in s.order || !Present(expiry) || WellFormed(expiry.value)
  {
    var r := UploadDocument(s, carId, file, docType, expiry, documentUrl, driveLink, now);
    var old' := DocsOf(s.documents, carId);
    var d := r.store.documents[carId][|old'|];
    assert r.store.documents[carId] == old' + [d];
    assert forall v :: v != carId ==> DocsOf(r.store.documents, v) == DocsOf(s.documents, v);
    assert ReadableExpiry(d) <==> !Present(expiry) || WellFormed(expiry.value);
    if carId in s.order {
      var i :| 0 <= i < |s.order| && s.order[i] == carId;
      assert VehicleReadable(s.documents, carId);
      if !ReadableExpiry(d) {
        assert d in DocsOf(r.store.documents, carId);
        assert !VehicleReadable(r.store.documents, s.order[i]);
      }
    }
  }

  /** A document filed under a key that is not a listed vehicle leaves the alert panel as it was. */
  lemma UploadToUnlistedKeepsAlerts(s: Store, carId: string, file: Option<Upload>, docType: Option<string>,
                                    expiry: Option<string>, documentUrl: string, driveLink: Option<string>,
                                    now: string, today: Date)
    requires Valid(today) && Readable(s.order, s.documents) && carId !in s.order
    ensures var r := UploadDocument(s, carId, file, docType, expiry, documentUrl, driveLink, now);
      && Readable(r.store.order, r.store.documents)
      && Alerts(r.store.order, r.store.documents, today) == Alerts(s.order, s.documents, today)
  {
    if !NoFile(file) && Present(docType) {
      var d := Document(docType.value, expiry, now, driveLink, documentUrl, file.value.filename);
      AlertsIgnoreUnlisted(s.order, s.documents, carId, DocsOf(s.documents, carId) + [d], today);
    }
  }

  /**
   * A document uploaded for a vehicle adds its alert, if it is alerting, after
   * the alerts of that vehicle's earlier documents.
   */
  lemma UploadAppendsAlert(s: Store, carId: string, file: Option<Upload>, docType: Option<string>,
                           expiry: Option<string>, documentUrl: string, driveLink: Option<string>,
                           now: string, today: Date)
    requires Valid(today) && VehicleReadable(s.documents, carId)
    requires !NoFile(file) && Present(docType) && (!Present(expiry) || WellFormed(expiry.value))
    ensures var r := UploadDocument(s, carId, file, docType, expiry, documentUrl, driveLink, now);
      var d := Document(docType.value, expiry, now, driveLink, documentUrl, file.value.filename);
      && VehicleReadable(r.store.documents, carId)
      && DocAlerts(carId, DocsOf(r.store.documents, carId), today) ==
         DocAlerts(carId, DocsOf(s.documents, carId), today)
         + (if Alerting(d, today) then [Alert(carId, docType.value, DaysLeft(d, today))] else [])
  {
    var d := Document(docType.value, expiry, now, driveLink, documentUrl, file.value.filename);
    var before := DocsOf(s.documents, carId);
    assert DocsOf(UploadDocument(s, carId, file, docType, expiry, documentUrl, driveLink, now).store.documents, carId) == before + [d];
    DocAlertsAppend(carId, before, [d], today);
    assert [d][..0] == [];
  }

  // ------------------------------------------------------------ load_data

  /** The account created on first run; its password is "adminpass", whose hash is a parameter. */
  const BootstrapUser: string := "admin"
  const AdminRole: string := "admin"

  /**
   * The seeding step of `load_data`: an empty user table gets the single
   * bootstrap administrator; a non-empty one is kept as it is.
   */
  function SeedUsers(users: map<string, User>, adminHash: string, now: string): (r: map<string, User>)
    ensures |r| > 0
    ensures |users| == 0 ==> r.Keys == {BootstrapUser} && r[BootstrapUser] == User(adminHash, AdminRole, now)
    ensures |users| > 0 ==> r == users
  {
    if |users| == 0 then map[BootstrapUser := User(adminHash, AdminRole, now)] else users
  }

  /**
   * `load_data`: the persisted snapshot if one could be read, else the tables
   * as they were, then seeded. Nothing but the user table is touched by seeding.
   */
  function LoadData(persisted: Option<Store>, current: Store, adminHash: string, now: string): (s: Store)
    ensures |s.users| > 0
    ensures s == persisted.GetOr(current).(users := s.users)
    ensures |persisted.GetOr(current).users| > 0 ==> s == persisted.GetOr(current)
    ensures |persisted.GetOr(current).users| == 0 ==> s.users.Keys == {BootstrapUser} && s.users[BootstrapUser].role == AdminRole
  {
    var base := persisted.GetOr(current);
    base.(users := SeedUsers(base.users, adminHash, now))
  }

  /** Loading twice seeds at most once: a seeded store is loaded back unchanged. */
  lemma LoadDataIdempotent(persisted: Option<Store>, current: Store, adminHash: string, now: string,
                           adminHash': string, now': string)
    ensures var s := LoadData(persisted, current, adminHash, now);
      LoadData(Some(s), current, adminHash', now') == s
  {
  }
}
