/**
 * The computation behind the dashboard (`index` route): who holds each vehicle
 * today, how many vehicles are free, and which documents expire soon.
 */
module Dashboard {
  import opened Wrappers
  import opened Text
  import opened IsoDate
  import opened Fleet

  /** The status of a vehicle nobody holds today. */
  const Available: string := "Available"

  /** At most this many expiring documents are shown. */
  const AlertLimit: nat := 5

  /** A document alerts from 30 days before its expiry until 7 days after it. */
  const WindowStart: int := -7
  const WindowEnd: int := 30

  // ------------------------------------------------------------ availability

  /**
   * `a` names `vid` and its date range contains `today`, both ends compared as
   * strings; only a range whose start is not after its end can cover a day.
   */
  predicate Covers(a: Assignment, vid: string, today: string): (c: bool)
    ensures c ==> a.carId == vid && LexLe(a.startDate, a.endDate)
  {
    if a.carId == vid && LexLe(a.startDate, today) && LexLe(today, a.endDate) then
      LexLeTransitive(a.startDate, today, a.endDate);
      true
    else
      false
  }

  predicate NoCover(assignments: seq<Assignment>, vid: string, today: string)
  {
    forall j :: 0 <= j < |assignments| ==> !Covers(assignments[j], vid, today)
  }

  /** `assignments[j]` is the earliest entry of the list that covers `vid` today. */
  predicate IsFirstCover(assignments: seq<Assignment>, vid: string, today: string, j: int)
  {
    && 0 <= j < |assignments|
    && Covers(assignments[j], vid, today)
    && forall k :: 0 <= k < j ==> !Covers(assignments[k], vid, today)
  }

  /**
   * The status of `vid`: the driver of the first assignment in list order that
   * covers it today, or `Available` when none does.
   */
  function Occupant(vid: string, assignments: seq<Assignment>, today: string): (who: string)
    ensures NoCover(assignments, vid, today) ==> who == Available
    ensures forall j :: IsFirstCover(assignments, vid, today, j) ==> who == assignments[j].driver
    decreases |assignments|
  {
    if |assignments| == 0 then Available
    else if Covers(assignments[0], vid, today) then assignments[0].driver
    else
      assert forall j :: IsFirstCover(assignments, vid, today, j) ==> IsFirstCover(assignments[1..], vid, today, j - 1);
      Occupant(vid, assignments[1..], today)
  }

  /** Unless no assignment covers `vid`, one of them is the first to. */
  lemma {:induction false} FirstCoverExists(assignments: seq<Assignment>, vid: string, today: string)
    requires !NoCover(assignments, vid, today)
    ensures exists j :: IsFirstCover(assignments, vid, today, j)
    decreases |assignments|
  {
    if Covers(assignments[0], vid, today) {
      assert IsFirstCover(assignments, vid, today, 0);
    } else {
      assert !NoCover(assignments[1..], vid, today) by {
        var j :| 0 <= j < |assignments| && Covers(assignments[j], vid, today);
        assert assignments[1..][j - 1] == assignments[j];
      }
      FirstCoverExists(assignments[1..], vid, today);
      var j :| IsFirstCover(assignments[1..], vid, today, j);
      assert IsFirstCover(assignments, vid, today, j + 1);
    }
  }

  /**
   * A vehicle shows as `Available` exactly when no assignment covers it today,
   * provided no driver is literally called "Available" (such a driver would be
   * shown, and counted, as a free vehicle).
   */
  lemma AvailableIffUncovered(vid: string, assignments: seq<Assignment>, today: string)
    requires forall j :: 0 <= j < |assignments| ==> assignments[j].driver != Available
    ensures Occupant(vid, assignments, today) == Available <==> NoCover(assignments, vid, today)
  {
    if !NoCover(assignments, vid, today) {
      FirstCoverExists(assignments, vid, today);
    }
  }

  /**
   * For well-formed dates the string comparisons of the cover test are the
   * calendar comparisons: the range includes both of its end days.
   */
  lemma CoversChronological(a: Assignment, vid: string, today: Date)
    requires Valid(today) && WellFormed(a.startDate) && WellFormed(a.endDate)
    ensures Covers(a, vid, Format(today)) <==>
      && a.carId == vid
      && Ordinal(Parse(a.startDate).value) <= Ordinal(today)
      && Ordinal(today) <= Ordinal(Parse(a.endDate).value)
  {
    ParseFormat(today);
    LexLeOfWellFormed(a.startDate, Format(today));
    LexLeOfWellFormed(Format(today), a.endDate);
  }

  /** An assignment that ends before it starts never covers any day. */
  lemma InvertedRangeNeverCovers(a: Assignment, vid: string, today: Date)
    requires Valid(today) && WellFormed(a.startDate) && WellFormed(a.endDate)
    requires Ordinal(Parse(a.endDate).value) < Ordinal(Parse(a.startDate).value)
    ensures !Covers(a, vid, Format(today))
  {
    CoversChronological(a, vid, today);
  }

  /**
   * A vehicle all of whose assignments lie wholly before or wholly after
   * `today` is available.
   */
  lemma OutOfRangeIsAvailable(vid: string, assignments: seq<Assignment>, today: Date)
    requires Valid(today)
    requires forall j :: 0 <= j < |assignments| && assignments[j].carId == vid ==>
      && WellFormed(assignments[j].startDate) && WellFormed(assignments[j].endDate)
      && (Ordinal(Parse(assignments[j].endDate).value) < Ordinal(today)
          || Ordinal(today) < Ordinal(Parse(assignments[j].startDate).value))
    ensures Occupant(vid, assignments, Format(today)) == Available
  {
    forall j | 0 <= j < |assignments|
      ensures !Covers(assignments[j], vid, Format(today))
    {
      if assignments[j].carId == vid {
        CoversChronological(assignments[j], vid, today);
      }
    }
  }

  /** The status table and the two counters the dashboard shows. */
  datatype Tally = Tally(status: map<string, string>, availableCount: nat, assignedCount: nat)

  /** The vehicle loop of `index`, over the vehicles in iteration order. */
  function Resolve(order: seq<string>, assignments: seq<Assignment>, today: string): (t: Tally)
    ensures forall v :: v in t.status <==> v in order
    ensures forall v :: v in t.status ==> t.status[v] == Occupant(v, assignments, today)
    ensures t.availableCount + t.assignedCount == |order|
    decreases |order|
  {
    if |order| == 0 then Tally(map[], 0, 0)
    else
      var init := order[..|order| - 1];
      var t := Resolve(init, assignments, today);
      var vid := order[|order| - 1];
      var who := Occupant(vid, assignments, today);
      MembersOfSnoc(order);
      Tally(t.status[vid := who],
            t.availableCount + (if who == Available then 1 else 0),
            t.assignedCount + (if who == Available then 0 else 1))
  }

  /** The vehicles a status table shows as free. */
  function FreeVehicles(status: map<string, string>): set<string>
  {
    set v | v in status && status[v] == Available
  }

  /** Adding a vehicle to a status table adds it to the free ones exactly when it is free. */
  lemma FreeVehiclesAdd(status: map<string, string>, vid: string, who: string)
    requires vid !in status
    ensures |status[vid := who]| == |status| + 1
    ensures who == Available ==> FreeVehicles(status[vid := who]) == FreeVehicles(status) + {vid}
    ensures who == Available ==> |FreeVehicles(status[vid := who])| == |FreeVehicles(status)| + 1
    ensures who != Available ==> FreeVehicles(status[vid := who]) == FreeVehicles(status)
  {
    if who == Available {
      assert FreeVehicles(status[vid := who]) == FreeVehicles(status) + {vid};
    } else {
      assert FreeVehicles(status[vid := who]) == FreeVehicles(status);
    }
  }

  /**
   * Over duplicate-free vehicle keys the counters count the status table:
   * `availableCount` is the number of free vehicles, `assignedCount` the number of the rest.
   */
  lemma {:induction false} CountersCountStatus(order: seq<string>, assignments: seq<Assignment>, today: string)
    requires NoDuplicates(order)
    ensures var t := Resolve(order, assignments, today);
      && |t.status| == |order|
      && t.availableCount == |FreeVehicles(t.status)|
      && t.assignedCount == |t.status| - |FreeVehicles(t.status)|
    decreases |order|
  {
    DistinctCount(order);
    if |order| > 0 {
      var init := order[..|order| - 1];
      var vid := order[|order| - 1];
      var t' := Resolve(init, assignments, today);
      var t := Resolve(order, assignments, today);
      var who := Occupant(vid, assignments, today);
      CountersCountStatus(init, assignments, today);
      assert vid !in t'.status;
      assert t.status == t'.status[vid := who];
      FreeVehiclesAdd(t'.status, vid, who);
    }
  }

  // ------------------------------------------------------------ expiry alerts

  /** One line of the "expiring documents" panel. */
  datatype Alert = Alert(carId: string, doc: string, days: int)

  /** `d.get('expiry')` is truthy: present and not the empty string. */
  predicate HasExpiry(d: Document)
  {
    d.expiry.Some? && d.expiry.value != ""
  }

  /** If `d` has an expiry, the dashboard can read it as a date. */
  predicate ReadableExpiry(d: Document)
  {
    HasExpiry(d) ==> WellFormed(d.expiry.value)
  }

  /** Every document filed under `vid` is readable. */
  predicate VehicleReadable(documents: map<string, seq<Document>>, vid: string)
  {
    forall d | d in DocsOf(documents, vid) :: ReadableExpiry(d)
  }

  /** Every document the dashboard looks at, those of the listed vehicles, is readable. */
  predicate Readable(order: seq<string>, documents: map<string, seq<Document>>)
  {
    forall i :: 0 <= i < |order| ==> VehicleReadable(documents, order[i])
  }

  predicate InWindow(days: int)
  {
    WindowStart <= days <= WindowEnd
  }

  /** Whole days from `today` to the expiry of `d`; negative once it has expired. */
  function DaysLeft(d: Document, today: Date): int
    requires Valid(today) && HasExpiry(d) && ReadableExpiry(d)
  {
    DaysBetween(Parse(d.expiry.value).value, today)
  }

  /** `d` belongs on the panel: it has an expiry, at most 30 days ahead and at most 7 days past. */
  predicate Alerting(d: Document, today: Date)
    requires Valid(today) && ReadableExpiry(d)
  {
    HasExpiry(d) && InWindow(DaysLeft(d, today))
  }

  /** The document loop of `index` for one vehicle, in list order. */
  function DocAlerts(vid: string, docs: seq<Document>, today: Date): (r: seq<Alert>)
    requires Valid(today) && forall d | d in docs :: ReadableExpiry(d)
    ensures |r| <= |docs|
    ensures forall a | a in r :: a.carId == vid && InWindow(a.days)
    decreases |docs|
  {
    if |docs| == 0 then []
    else
      var init := DocAlerts(vid, docs[..|docs| - 1], today);
      var d := docs[|docs| - 1];
      if Alerting(d, today) then init + [Alert(vid, d.docType, DaysLeft(d, today))] else init
  }

  /** The alerts of a concatenation are the alerts of its parts, in order. */
  lemma {:induction false} DocAlertsAppend(vid: string, x: seq<Document>, y: seq<Document>, today: Date)
    requires Valid(today)
    requires forall d | d in x :: ReadableExpiry(d)
    requires forall d | d in y :: ReadableExpiry(d)
    ensures DocAlerts(vid, x + y, today) == DocAlerts(vid, x, today) + DocAlerts(vid, y, today)
    decreases |y|
  {
    if |y| > 0 {
      var y' := y[..|y| - 1];
      assert (x + y)[..|x + y| - 1] == x + y';
      assert (x + y)[|x + y| - 1] == y[|y| - 1];
      DocAlertsAppend(vid, x, y', today);
    } else {
      assert x + y == x;
    }
  }

  /**
   * Each document contributes exactly one alert, at its own position, when it
   * is alerting, and nothing otherwise.
   */
  lemma DocumentContributes(vid: string, docs: seq<Document>, k: int, today: Date)
    requires Valid(today) && forall d | d in docs :: ReadableExpiry(d)
    requires 0 <= k < |docs|
    ensures DocAlerts(vid, docs, today) ==
      DocAlerts(vid, docs[..k], today)
      + (if Alerting(docs[k], today) then [Alert(vid, docs[k].docType, DaysLeft(docs[k], today))] else [])
      + DocAlerts(vid, docs[k + 1..], today)
  {
    assert docs == docs[..k] + [docs[k]] + docs[k + 1..];
    DocAlertsAppend(vid, docs[..k] + [docs[k]], docs[k + 1..], today);
    DocAlertsAppend(vid, docs[..k], [docs[k]], today);
    assert [docs[k]][..0] == [];
  }

  /** The alerts of all listed vehicles: vehicle order first, then document order. */
  function Alerts(order: seq<string>, documents: map<string, seq<Document>>, today: Date): (r: seq<Alert>)
    requires Valid(today) && Readable(order, documents)
    ensures forall a | a in r :: a.carId in order && InWindow(a.days)
    decreases |order|
  {
    if |order| == 0 then []
    else
      var vid := order[|order| - 1];
      assert Readable(order[..|order| - 1], documents);
      Alerts(order[..|order| - 1], documents, today) + DocAlerts(vid, DocsOf(documents, vid), today)
  }

  /** Every part of a readable vehicle list is readable. */
  lemma ReadableParts(x: seq<string>, y: seq<string>, documents: map<string, seq<Document>>)
    requires Readable(x + y, documents)
    ensures Readable(x, documents) && Readable(y, documents)
  {
    forall i | 0 <= i < |x|
      ensures VehicleReadable(documents, x[i])
    {
      assert (x + y)[i] == x[i];
    }
    forall i | 0 <= i < |y|
      ensures VehicleReadable(documents, y[i])
    {
      assert (x + y)[|x| + i] == y[i];
    }
  }

  /** The alerts of a concatenated vehicle list are the alerts of its parts, in order. */
  lemma {:induction false} AlertsAppend(x: seq<string>, y: seq<string>, documents: map<string, seq<Document>>, today: Date)
    requires Valid(today) && Readable(x + y, documents)
    ensures Readable(x, documents) && Readable(y, documents)
    ensures Alerts(x + y, documents, today) == Alerts(x, documents, today) + Alerts(y, documents, today)
    decreases |y|
  {
    ReadableParts(x, y, documents);
    if |y| > 0 {
      var y' := y[..|y| - 1];
      var vid := y[|y| - 1];
      assert x + y == (x + y') + [vid];
      ReadableParts(x + y', [vid], documents);
      ReadableParts(y', [vid], documents);
      AlertsAppend(x, y', documents, today);
      var tail := DocAlerts(vid, DocsOf(documents, vid), today);
      assert Alerts(x + y, documents, today) == Alerts(x + y', documents, today) + tail;
      assert Alerts(y, documents, today) == Alerts(y', documents, today) + tail;
    } else {
      assert x + y == x;
    }
  }

  /** Documents filed under a key that is not a listed vehicle never reach the panel. */
  lemma {:induction false} AlertsIgnoreUnlisted(order: seq<string>, documents: map<string, seq<Document>>,
                                                key: string, docs: seq<Document>, today: Date)
    requires Valid(today) && Readable(order, documents) && key !in order
    ensures Readable(order, documents[key := docs])
    ensures Alerts(order, documents[key := docs], today) == Alerts(order, documents, today)
    decreases |order|
  {
    var documents' := documents[key := docs];
    assert forall v :: v != key ==> DocsOf(documents', v) == DocsOf(documents, v);
    if |order| > 0 {
      AlertsIgnoreUnlisted(order[..|order| - 1], documents, key, docs, today);
    }
  }

  // ------------------------------------------------------------ the dashboard

  /** What `index` renders from the tables. */
  datatype View = View(status: map<string, string>, availableCount: nat, assignedCount: nat, expiringDocs: seq<Alert>)

  function Min(a: int, b: int): int
  {
    if a <= b then a else b
  }

  /**
   * The dashboard for `today`: statuses and counters from the assignments, and
   * the first `AlertLimit` alerts in iteration order (not sorted by urgency).
   */
  function Index(s: Store, today: Date): (v: View)
    requires Valid(today) && Readable(s.order, s.documents)
    ensures forall x :: x in v.status <==> x in s.order
    ensures forall x :: x in v.status ==> v.status[x] == Occupant(x, s.assignments, Format(today))
    ensures v.availableCount + v.assignedCount == |s.order|
    ensures var all := Alerts(s.order, s.documents, today);
      |v.expiringDocs| == Min(AlertLimit, |all|) && v.expiringDocs <= all
  {
    var t := Resolve(s.order, s.assignments, Format(today));
    var all := Alerts(s.order, s.documents, today);
    View(t.status, t.availableCount, t.assignedCount, all[..Min(AlertLimit, |all|)])
  }

  /**
   * On a store whose order lists each vehicle once, the dashboard has one
   * status per vehicle and its counters split the vehicles into free and held.
   */
  lemma IndexOfOrderedStore(s: Store, today: Date)
    requires Ordered(s) && Valid(today) && Readable(s.order, s.documents)
    ensures var v := Index(s, today);
      && v.status.Keys == s.vehicles.Keys
      && v.availableCount + v.assignedCount == |s.vehicles|
      && v.availableCount == |FreeVehicles(v.status)|
  {
    OrderedSize(s);
    CountersCountStatus(s.order, s.assignments, Format(today));
  }

  /**
   * The assignment scan of `index` for one vehicle: stop at the first
   * assignment that covers it today.
   */
  method FindOccupant(vid: string, assignments: seq<Assignment>, today: string) returns (who: string)
    ensures who == Occupant(vid, assignments, today)
  {
    who := Available;
    var j := 0;
    while j < |assignments|
      invariant 0 <= j <= |assignments|
      invariant who == Available
      invariant forall k :: 0 <= k < j ==> !Covers(assignments[k], vid, today)
    {
      if Covers(assignments[j], vid, today) {
        assert IsFirstCover(assignments, vid, today, j);
        who := assignments[j].driver;
        return;
      }
      j := j + 1;
    }
  }

  /** Scanning one more document appends its alert, if it is alerting. */
  lemma DocAlertsStep(vid: string, docs: seq<Document>, k: int, today: Date)
    requires Valid(today) && 0 <= k < |docs|
    requires forall d | d in docs[..k] :: ReadableExpiry(d)
    requires ReadableExpiry(docs[k])
    ensures forall d | d in docs[..k + 1] :: ReadableExpiry(d)
    ensures DocAlerts(vid, docs[..k + 1], today) ==
      DocAlerts(vid, docs[..k], today)
      + (if Alerting(docs[k], today) then [Alert(vid, docs[k].docType, DaysLeft(docs[k], today))] else [])
  {
    assert docs[..k + 1] == docs[..k] + [docs[k]];
    assert docs[..k + 1][..k] == docs[..k];
  }

  /**
   * The body of the document loop of `index`: the alert of one document, if
   * any; `readable` is false where `strptime` raised on its expiry.
   */
  method CheckDocument(vid: string, d: Document, today: Date) returns (found: seq<Alert>, readable: bool)
    requires Valid(today)
    ensures readable <==> ReadableExpiry(d)
    ensures readable ==> found == if Alerting(d, today) then [Alert(vid, d.docType, DaysLeft(d, today))] else []
  {
    found, readable := [], true;
    if HasExpiry(d) {
      var expiry := Parse(d.expiry.value);
      if expiry.None? {
        return [], false;
      }
      var days := DaysBetween(expiry.value, today);
      if WindowStart <= days <= WindowEnd {
        found := [Alert(vid, d.docType, days)];
      }
    }
  }

  /**
   * The document scan of `index` for one vehicle: append its alerts to
   * `expiring`. `ok` is false where `strptime` raised on an expiry that is not
   * a date, which aborts the whole page.
   */
  method CollectAlerts(vid: string, docs: seq<Document>, today: Date, expiring: seq<Alert>)
    returns (expiring': seq<Alert>, ok: bool)
    requires Valid(today)
    ensures ok <==> forall d | d in docs :: ReadableExpiry(d)
    ensures ok ==> expiring' == expiring + DocAlerts(vid, docs, today)
  {
    expiring' := expiring;
    var k := 0;
    while k < |docs|
      invariant 0 <= k <= |docs|
      invariant forall d | d in docs[..k] :: ReadableExpiry(d)
      invariant expiring' == expiring + DocAlerts(vid, docs[..k], today)
    {
      var found, readable := CheckDocument(vid, docs[k], today);
      if !readable {
        assert docs[k] in docs;
        return expiring', false;
      }
      DocAlertsStep(vid, docs, k, today);
      assert expiring' + found == expiring + (DocAlerts(vid, docs[..k], today) + found);
      expiring' := expiring' + found;
      k := k + 1;
    }
    assert docs[..k] == docs;
    ok := true;
  }

  /**
   * The state of `index` after its first `i` vehicles: the status table and
   * counters of those vehicles and their alerts so far.
   */
  predicate Progress(s: Store, today: Date, i: int, status: map<string, string>, avail: nat, assign: nat,
                     expiring: seq<Alert>)
    requires Valid(today)
  {
    && 0 <= i <= |s.order|
    && Resolve(s.order[..i], s.assignments, Format(today)) == Tally(status, avail, assign)
    && Readable(s.order[..i], s.documents)
    && expiring == Alerts(s.order[..i], s.documents, today)
  }

  /** Extending a prefix by one element keeps the shorter prefix in front. */
  lemma PrefixStep<T>(s: seq<T>, i: int)
    requires 0 <= i < |s|
    ensures |s[..i + 1]| == i + 1 && s[..i + 1][..i] == s[..i] && s[..i + 1][i] == s[i]
  {
  }

  /** Resolving one more vehicle adds its status and bumps one counter. */
  lemma ResolveStep(order: seq<string>, assignments: seq<Assignment>, today: string, i: int)
    requires 0 <= i < |order|
    ensures var t := Resolve(order[..i], assignments, today);
      var who := Occupant(order[i], assignments, today);
      Resolve(order[..i + 1], assignments, today) ==
        Tally(t.status[order[i] := who],
              t.availableCount + (if who == Available then 1 else 0),
              t.assignedCount + (if who == Available then 0 else 1))
  {
    PrefixStep(order, i);
  }

  /** Scanning one more vehicle appends its document alerts. */
  lemma AlertsStep(order: seq<string>, documents: map<string, seq<Document>>, today: Date, i: int)
    requires Valid(today) && 0 <= i < |order|
    requires Readable(order[..i], documents) && VehicleReadable(documents, order[i])
    ensures Readable(order[..i + 1], documents)
    ensures Alerts(order[..i + 1], documents, today) ==
      Alerts(order[..i], documents, today) + DocAlerts(order[i], DocsOf(documents, order[i]), today)
  {
    PrefixStep(order, i);
    assert forall k :: 0 <= k < i ==> order[..i + 1][k] == order[..i][k];
  }

  /** One pass of the vehicle loop takes `Progress` from `i` vehicles to `i + 1`. */
  lemma ProgressStep(s: Store, today: Date, i: int, status: map<string, string>, avail: nat, assign: nat,
                     expiring: seq<Alert>, who: string,
                     status': map<string, string>, avail': nat, assign': nat, expiring': seq<Alert>)
    requires Valid(today)
    requires Progress(s, today, i, status, avail, assign, expiring) && i < |s.order|
    requires who == Occupant(s.order[i], s.assignments, Format(today))
    requires VehicleReadable(s.documents, s.order[i])
    requires status' == status[s.order[i] := who]
    requires avail' == avail + (if who == Available then 1 else 0)
    requires assign' == assign + (if who == Available then 0 else 1)
    requires expiring' == expiring + DocAlerts(s.order[i], DocsOf(s.documents, s.order[i]), today)
    ensures Progress(s, today, i + 1, status', avail', assign', expiring')
  {
    ResolveStep(s.order, s.assignments, Format(today), i);
    AlertsStep(s.order, s.documents, today, i);
  }

  /** After the last vehicle, `Progress` describes the whole dashboard. */
  lemma ProgressDone(s: Store, today: Date, status: map<string, string>, avail: nat, assign: nat,
                     expiring: seq<Alert>)
    requires Valid(today)
    requires Progress(s, today, |s.order|, status, avail, assign, expiring)
    ensures Readable(s.order, s.documents)
    ensures View(status, avail, assign, expiring[..Min(AlertLimit, |expiring|)]) == Index(s, today)
  {
    assert s.order[..|s.order|] == s.order;
  }

  /**
   * One pass of the vehicle loop of `index`: resolve vehicle `i`, bump the
   * matching counter and collect its alerts; `ok` is false where a document
   * of the vehicle made the page raise.
   */
  method VisitVehicle(s: Store, today: Date, todayText: string, i: int, status: map<string, string>,
                      avail: nat, assign: nat, expiring: seq<Alert>)
    returns (status': map<string, string>, avail': nat, assign': nat, expiring': seq<Alert>, ok: bool)
    requires Valid(today) && todayText == Format(today)
    requires Progress(s, today, i, status, avail, assign, expiring) && i < |s.order|
    ensures ok <==> VehicleReadable(s.documents, s.order[i])
    ensures ok ==> Progress(s, today, i + 1, status', avail', assign', expiring')
  {
    var vid := s.order[i];
    var who := FindOccupant(vid, s.assignments, todayText);
    expiring', ok := CollectAlerts(vid, DocsOf(s.documents, vid), today, expiring);
    status', avail', assign' := status[vid := who], avail, assign;
    if who == Available {
      avail' := avail + 1;
    } else {
      assign' := assign + 1;
    }
    if ok {
      ProgressStep(s, today, i, status, avail, assign, expiring, who, status', avail', assign', expiring');
    }
  }

  /**
   * The `index` route as written: one pass over the vehicles that resolves each
   * status, bumps a counter and collects alerts, then the slice `expiring[:5]`.
   * The page fails, `None`, exactly when a listed vehicle has a document whose
   * expiry is not a date.
   */
  method RenderIndex(s: Store, today: Date) returns (v: Option<View>)
    requires Valid(today)
    ensures v.None? <==> !Readable(s.order, s.documents)
    ensures v.Some? ==> Readable(s.order, s.documents) && v.value == Index(s, today)
  {
    var todayText := Format(today);
    var avail, assign := 0, 0;
    var status: map<string, string> := map[];
    var expiring: seq<Alert> := [];
    var i := 0;
    assert s.order[..0] == [];
    while i < |s.order|
      invariant Progress(s, today, i, status, avail, assign, expiring)
    {
      var ok;
      status, avail, assign, expiring, ok := VisitVehicle(s, today, todayText, i, status, avail, assign, expiring);
      if !ok {
        assert !VehicleReadable(s.documents, s.order[i]);
        return None;
      }
      i := i + 1;
    }
    assert i == |s.order|;
    ProgressDone(s, today, status, avail, assign, expiring);
    v := Some(View(status, avail, assign, expiring[..Min(AlertLimit, |expiring|)]));
  }
}
