/** Worked dashboard cases: window edges, calendar edges, first match, truncation. */
module Scenarios {
  import opened Wrappers
  import opened Text
  import opened IsoDate
  import opened Fleet
  import opened Dashboard

  function Doc(docType: string, expiry: string): Document
  {
    Document(docType, Some(expiry), "2025-08-01T09:00:00", None, "/static/documents/doc.pdf", "doc.pdf")
  }

  /** The alerts of one document, given its expiry as a date. */
  lemma OneDocument(vid: string, d: Document, e: Date, today: Date)
    requires Valid(e) && Valid(today) && d.expiry == Some(Format(e))
    ensures ReadableExpiry(d)
    ensures DocAlerts(vid, [d], today) ==
      if InWindow(DaysBetween(e, today)) then [Alert(vid, d.docType, DaysBetween(e, today))] else []
  {
    ParseFormat(e);
    assert [d][..0] == [];
  }

  /** The alerts of two documents are those of each in turn. */
  lemma TwoDocuments(vid: string, d1: Document, d2: Document, today: Date)
    requires Valid(today) && ReadableExpiry(d1) && ReadableExpiry(d2)
    ensures DocAlerts(vid, [d1, d2], today) == DocAlerts(vid, [d1], today) + DocAlerts(vid, [d2], today)
  {
    assert [d1] + [d2] == [d1, d2];
    DocAlertsAppend(vid, [d1], [d2], today);
  }

  /** The upper edge: a document due in 30 days alerts, one due in 31 days does not. */
  lemma UpperEdge(vid: string, today: Date, d1: Document, d2: Document, e1: Date, e2: Date)
    requires Valid(today) && Valid(e1) && Valid(e2)
    requires d1.expiry == Some(Format(e1)) && DaysBetween(e1, today) == 30
    requires d2.expiry == Some(Format(e2)) && DaysBetween(e2, today) == 31
    ensures ReadableExpiry(d1) && ReadableExpiry(d2)
    ensures DocAlerts(vid, [d1, d2], today) == [Alert(vid, d1.docType, 30)]
  {
    OneDocument(vid, d1, e1, today);
    OneDocument(vid, d2, e2, today);
    TwoDocuments(vid, d1, d2, today);
  }

  /** The lower edge: a document 7 days past expiry alerts, one 8 days past does not. */
  lemma LowerEdge(vid: string, today: Date, d3: Document, d4: Document, e3: Date, e4: Date)
    requires Valid(today) && Valid(e3) && Valid(e4)
    requires d3.expiry == Some(Format(e3)) && DaysBetween(e3, today) == -7
    requires d4.expiry == Some(Format(e4)) && DaysBetween(e4, today) == -8
    ensures ReadableExpiry(d3) && ReadableExpiry(d4)
    ensures DocAlerts(vid, [d3, d4], today) == [Alert(vid, d3.docType, -7)]
  {
    OneDocument(vid, d3, e3, today);
    OneDocument(vid, d4, e4, today);
    TwoDocuments(vid, d3, d4, today);
  }

  /**
   * Both edges on any day: of four documents expiring 30 and 31 days ahead
   * and 7 and 8 days past, the 30-days-ahead and the 7-days-past ones alert,
   * in list order.
   */
  lemma WindowEdges(vid: string, today: Date, d1: Document, d2: Document, d3: Document, d4: Document,
                    e1: Date, e2: Date, e3: Date, e4: Date)
    requires Valid(today) && Valid(e1) && Valid(e2) && Valid(e3) && Valid(e4)
    requires d1.expiry == Some(Format(e1)) && DaysBetween(e1, today) == 30
    requires d2.expiry == Some(Format(e2)) && DaysBetween(e2, today) == 31
    requires d3.expiry == Some(Format(e3)) && DaysBetween(e3, today) == -7
    requires d4.expiry == Some(Format(e4)) && DaysBetween(e4, today) == -8
    ensures ReadableExpiry(d1) && ReadableExpiry(d2) && ReadableExpiry(d3) && ReadableExpiry(d4)
    ensures DocAlerts(vid, [d1, d2, d3, d4], today) ==
      [Alert(vid, d1.docType, 30), Alert(vid, d3.docType, -7)]
  {
    UpperEdge(vid, today, d1, d2, e1, e2);
    LowerEdge(vid, today, d3, d4, e3, e4);
    JoinPairs(vid, today, d1, d2, d3, d4, Alert(vid, d1.docType, 30), Alert(vid, d3.docType, -7));
  }

  /** Two pairs of documents with one alert each give both alerts, in order. */
  lemma JoinPairs(vid: string, today: Date, d1: Document, d2: Document, d3: Document, d4: Document,
                  a1: Alert, a3: Alert)
    requires Valid(today)
    requires ReadableExpiry(d1) && ReadableExpiry(d2) && ReadableExpiry(d3) && ReadableExpiry(d4)
    requires DocAlerts(vid, [d1, d2], today) == [a1] && DocAlerts(vid, [d3, d4], today) == [a3]
    ensures DocAlerts(vid, [d1, d2, d3, d4], today) == [a1, a3]
  {
    var x, y := [d1, d2], [d3, d4];
    assert |x + y| == 4 && (x + y)[0] == d1 && (x + y)[1] == d2 && (x + y)[2] == d3 && (x + y)[3] == d4;
    assert x + y == [d1, d2, d3, d4];
    DocAlertsAppend(vid, x, y, today);
    assert [a1] + [a3] == [a1, a3];
  }

  /** The edge dates around 2025-08-23: 2025-09-22, 2025-09-23, 2025-08-16 and 2025-08-15. */
  lemma EdgeDays()
    ensures DaysBetween(Date(2025, 9, 22), Date(2025, 8, 23)) == 30
    ensures DaysBetween(Date(2025, 9, 23), Date(2025, 8, 23)) == 31
    ensures DaysBetween(Date(2025, 8, 16), Date(2025, 8, 23)) == -7
    ensures DaysBetween(Date(2025, 8, 15), Date(2025, 8, 23)) == -8
  {
  }

  /** Day counts run across a leap day and across a new year. */
  lemma CalendarEdges()
    ensures DaysBetween(Date(2024, 3, 21), Date(2024, 2, 20)) == 30
    ensures DaysBetween(Date(2025, 3, 22), Date(2025, 2, 20)) == 30
    ensures DaysBetween(Date(2026, 1, 27), Date(2025, 12, 28)) == 30
    ensures DaysBetween(Date(2000, 3, 1), Date(2000, 2, 28)) == 2
  {
  }

  /** 1900 is not a leap year: its February has 28 days. */
  lemma CenturyNotLeap()
    ensures DaysBetween(Date(1900, 3, 1), Date(1900, 2, 28)) == 1
  {
    assert !IsLeap(1900);
    assert DaysBeforeMonth(1900, 3) == 59 && DaysBeforeMonth(1900, 2) == 31;
  }

  /** The date texts of the sample assignment, compared as strings. */
  lemma AugustTextOrder()
    ensures LexLe("2025-08-01", "2025-08-23") && LexLe("2025-08-23", "2025-08-31")
  {
  }

  /**
   * Of two overlapping assignments that both cover the day, the earlier list
   * entry names the driver.
   */
  lemma FirstAssignmentWins(vid: string)
    ensures var assignments := [Assignment(vid, "Ravi", "2025-08-01", "2025-08-31"),
                                Assignment(vid, "Meera", "2025-08-20", "2025-08-25")];
      Occupant(vid, assignments, "2025-08-23") == "Ravi"
  {
    var assignments := [Assignment(vid, "Ravi", "2025-08-01", "2025-08-31"),
                        Assignment(vid, "Meera", "2025-08-20", "2025-08-25")];
    AugustTextOrder();
    assert Covers(assignments[0], vid, "2025-08-23");
    assert IsFirstCover(assignments, vid, "2025-08-23", 0);
  }

  /** When every listed vehicle has one document, and it alerts, each vehicle gives one alert. */
  lemma {:induction false} OneAlertPerVehicle(order: seq<string>, documents: map<string, seq<Document>>,
                                              d: Document, today: Date)
    requires Valid(today) && ReadableExpiry(d) && Alerting(d, today)
    requires forall i :: 0 <= i < |order| ==> DocsOf(documents, order[i]) == [d]
    ensures Readable(order, documents)
    ensures |Alerts(order, documents, today)| == |order|
    decreases |order|
  {
    if |order| > 0 {
      var init := order[..|order| - 1];
      assert [d][..0] == [];
      OneAlertPerVehicle(init, documents, d, today);
    }
  }

  /** A vehicle filed under `vid`, as `add_vehicle` would store it. */
  function Car(vid: string): Vehicle
  {
    Vehicle("Maruti", "Swift", 2020, vid, "White", 12000.0, "", "2025-08-01T09:00:00", "Inanis Garage", None)
  }

  /** Seven vehicles, each with one insurance document expiring on 2025-09-01. */
  function SevenVehicles(): (s: Store)
    ensures Ordered(s)
  {
    var order := ["A1", "B2", "C3", "D4", "E5", "F6", "G7"];
    Store(map[], order, map v | v in order :: Car(v), [], map v | v in order :: [Doc("Insurance", "2025-09-01")])
  }

  /** On 2025-08-23 each of the seven vehicles has one alert. */
  lemma SevenAlerts()
    ensures Readable(SevenVehicles().order, SevenVehicles().documents)
    ensures |Alerts(SevenVehicles().order, SevenVehicles().documents, Date(2025, 8, 23))| == 7
  {
    var s := SevenVehicles();
    var d := Doc("Insurance", "2025-09-01");
    var today := Date(2025, 8, 23);
    assert Format(Date(2025, 9, 1)) == "2025-09-01";
    ParseFormat(Date(2025, 9, 1));
    assert Alerting(d, today);
    forall i | 0 <= i < |s.order|
      ensures DocsOf(s.documents, s.order[i]) == [d]
    {
      assert s.order[i] in s.order;
    }
    OneAlertPerVehicle(s.order, s.documents, d, today);
  }

  /** Seven vehicles with a document expiring soon each: the panel shows the first five. */
  lemma SevenExpiringShowFive()
    ensures Readable(SevenVehicles().order, SevenVehicles().documents)
    ensures var v := Index(SevenVehicles(), Date(2025, 8, 23));
      && |v.expiringDocs| == AlertLimit
      && v.expiringDocs == Alerts(SevenVehicles().order, SevenVehicles().documents, Date(2025, 8, 23))[..AlertLimit]
  {
    SevenAlerts();
  }
}
