/** The specification of the useful-service-ID computation: the date window
    spanned by the calendars running today, and the set of 6-character
    service-ID prefixes of the rows that fall in that window. */
module ServiceWindow {
  import opened Gtfs
  import opened PrefixFilter

  /** Length of the service-ID prefix kept as a filter. */
  const PrefixLength: nat := 6

  /** The calendar row's service runs on `today`. */
  predicate IsActive(c: Calendar, today: int)
  {
    c.startDate <= today <= c.endDate
  }

  /** The smallest start date among the rows active on `today`; None when no row is active. */
  function MinActiveStart(cs: seq<Calendar>, today: int): Option<int>
  {
    if cs == [] then None
    else
      var m := MinActiveStart(cs[..|cs| - 1], today);
      var c := cs[|cs| - 1];
      if IsActive(c, today) && (m.None? || c.startDate < m.value) then Some(c.startDate) else m
  }

  /** The largest end date among the rows active on `today`; None when no row is active. */
  function MaxActiveEnd(cs: seq<Calendar>, today: int): Option<int>
  {
    if cs == [] then None
    else
      var m := MaxActiveEnd(cs[..|cs| - 1], today);
      var c := cs[|cs| - 1];
      if IsActive(c, today) && (m.None? || c.endDate > m.value) then Some(c.endDate) else m
  }

  /** A closed range of YYYYMMDD dates. */
  datatype Window = Window(first: int, last: int)
  {
    predicate Contains(d: int)
    {
      first <= d <= last
    }
  }

  /** The schedule window: from the earliest start to the latest end of the
      calendars running today; None when none is running. */
  function ActiveWindow(cs: seq<Calendar>, today: int): Option<Window>
  {
    match (MinActiveStart(cs, today), MaxActiveEnd(cs, today))
    case (Some(lo), Some(hi)) => Some(Window(lo, hi))
    case _ => None
  }

  /** The test a calendar row must pass to contribute its prefix: its start
      or its end lies in the window. */
  predicate CalendarQualifies(c: Calendar, w: Window)
  {
    w.Contains(c.startDate) || w.Contains(c.endDate)
  }

  /** The test a calendar-date row must pass: its date lies in the window. */
  predicate DateQualifies(d: CalendarDate, w: Window)
  {
    w.Contains(d.date)
  }

  predicate HasServicePrefix(id: string)
  {
    |id| >= PrefixLength
  }

  /** Java's `id.substring(0, 6)`. */
  function ServicePrefix(id: string): (p: string)
    requires HasServicePrefix(id)
    ensures |p| == PrefixLength && StartsWith(id, p)
  {
    id[..PrefixLength]
  }

  /** Every calendar row that passes the window test has a service ID long enough to cut. */
  predicate CalendarIdsLongEnough(cs: seq<Calendar>, w: Window)
  {
    forall j | 0 <= j < |cs| :: CalendarQualifies(cs[j], w) ==> HasServicePrefix(cs[j].serviceId)
  }

  /** Every calendar-date row that passes the window test has a service ID long enough to cut. */
  predicate DateIdsLongEnough(ds: seq<CalendarDate>, w: Window)
  {
    forall j | 0 <= j < |ds| :: DateQualifies(ds[j], w) ==> HasServicePrefix(ds[j].serviceId)
  }

  /** Index of the first calendar row whose prefix cannot be taken
      (it qualifies but its service ID is too short), or |cs| when there is none. */
  function FirstShortCalendar(cs: seq<Calendar>, w: Window): (k: nat)
    ensures k <= |cs|
    ensures CalendarIdsLongEnough(cs[..k], w)
    ensures k < |cs| ==> CalendarQualifies(cs[k], w) && !HasServicePrefix(cs[k].serviceId)
  {
    if cs == [] then 0
    else if CalendarQualifies(cs[0], w) && !HasServicePrefix(cs[0].serviceId) then 0
    else
      var k := 1 + FirstShortCalendar(cs[1..], w);
      assert forall j | 1 <= j < k :: cs[..k][j] == cs[1..][..k - 1][j - 1];
      k
  }

  /** Scanning on from row i, not yet past the first short row: row i is that row exactly when it is short and qualifies. */
  lemma FirstShortCalendarStep(cs: seq<Calendar>, w: Window, i: nat)
    requires i < |cs| && i <= FirstShortCalendar(cs, w)
    ensures FirstShortCalendar(cs, w) == i <==> CalendarQualifies(cs[i], w) && !HasServicePrefix(cs[i].serviceId)
  {
  }

  /** Index of the first calendar-date row whose prefix cannot be taken, or |ds|. */
  function FirstShortDate(ds: seq<CalendarDate>, w: Window): (k: nat)
    ensures k <= |ds|
    ensures DateIdsLongEnough(ds[..k], w)
    ensures k < |ds| ==> DateQualifies(ds[k], w) && !HasServicePrefix(ds[k].serviceId)
  {
    if ds == [] then 0
    else if DateQualifies(ds[0], w) && !HasServicePrefix(ds[0].serviceId) then 0
    else
      var k := 1 + FirstShortDate(ds[1..], w);
      assert forall j | 1 <= j < k :: ds[..k][j] == ds[1..][..k - 1][j - 1];
      k
  }

  /** Scanning on from row i, not yet past the first short row: row i is that row exactly when it is short and qualifies. */
  lemma FirstShortDateStep(ds: seq<CalendarDate>, w: Window, i: nat)
    requires i < |ds| && i <= FirstShortDate(ds, w)
    ensures FirstShortDate(ds, w) == i <==> DateQualifies(ds[i], w) && !HasServicePrefix(ds[i].serviceId)
  {
  }

  /** The prefixes contributed by the calendar rows, accumulated in row order. */
  function CalendarPrefixes(cs: seq<Calendar>, w: Window): set<string>
    requires CalendarIdsLongEnough(cs, w)
  {
    if cs == [] then {}
    else
      var c := cs[|cs| - 1];
      CalendarPrefixes(cs[..|cs| - 1], w)
        + (if CalendarQualifies(c, w) then {ServicePrefix(c.serviceId)} else {})
  }

  /** The prefixes contributed by the calendar-date rows, accumulated in row order. */
  function DatePrefixes(ds: seq<CalendarDate>, w: Window): set<string>
    requires DateIdsLongEnough(ds, w)
  {
    if ds == [] then {}
    else
      var d := ds[|ds| - 1];
      DatePrefixes(ds[..|ds| - 1], w)
        + (if DateQualifies(d, w) then {ServicePrefix(d.serviceId)} else {})
  }

  /** The useful-service-ID filter set for window `w`. */
  function UsefulPrefixes(cs: seq<Calendar>, ds: seq<CalendarDate>, w: Window): set<string>
    requires CalendarIdsLongEnough(cs, w) && DateIdsLongEnough(ds, w)
  {
    CalendarPrefixes(cs, w) + DatePrefixes(ds, w)
  }

  // ---------------------------------------------------------------------------
  // One row more: how each accumulator grows when the scan moves past row i

  lemma WindowBoundsStep(cs: seq<Calendar>, i: nat, today: int)
    requires i < |cs|
    ensures MinActiveStart(cs[..i + 1], today) ==
      var m := MinActiveStart(cs[..i], today);
      if IsActive(cs[i], today) && (m.None? || cs[i].startDate < m.value) then Some(cs[i].startDate) else m
    ensures MaxActiveEnd(cs[..i + 1], today) ==
      var m := MaxActiveEnd(cs[..i], today);
      if IsActive(cs[i], today) && (m.None? || cs[i].endDate > m.value) then Some(cs[i].endDate) else m
  {
    assert cs[..i + 1][..i] == cs[..i];
  }

  lemma CalendarPrefixesStep(cs: seq<Calendar>, i: nat, w: Window)
    requires i < |cs| && CalendarIdsLongEnough(cs[..i], w)
    requires CalendarQualifies(cs[i], w) ==> HasServicePrefix(cs[i].serviceId)
    ensures CalendarIdsLongEnough(cs[..i + 1], w)
    ensures CalendarPrefixes(cs[..i + 1], w) ==
      CalendarPrefixes(cs[..i], w) + (if CalendarQualifies(cs[i], w) then {ServicePrefix(cs[i].serviceId)} else {})
  {
    assert cs[..i + 1][..i] == cs[..i];
  }

  lemma DatePrefixesStep(ds: seq<CalendarDate>, i: nat, w: Window)
    requires i < |ds| && DateIdsLongEnough(ds[..i], w)
    requires DateQualifies(ds[i], w) ==> HasServicePrefix(ds[i].serviceId)
    ensures DateIdsLongEnough(ds[..i + 1], w)
    ensures DatePrefixes(ds[..i + 1], w) ==
      DatePrefixes(ds[..i], w) + (if DateQualifies(ds[i], w) then {ServicePrefix(ds[i].serviceId)} else {})
  {
    assert ds[..i + 1][..i] == ds[..i];
  }

  // ---------------------------------------------------------------------------
  // The window

  /** MinActiveStart is the least start date of the active rows, and exists exactly when one is active. */
  lemma {:induction false} MinActiveStartIsLeast(cs: seq<Calendar>, today: int)
    ensures MinActiveStart(cs, today).None? <==> forall c | c in cs :: !IsActive(c, today)
    ensures MinActiveStart(cs, today).Some? ==>
      (exists c | c in cs && IsActive(c, today) :: c.startDate == MinActiveStart(cs, today).value)
      && forall c | c in cs && IsActive(c, today) :: MinActiveStart(cs, today).value <= c.startDate
  {
    if cs != [] {
      var init := cs[..|cs| - 1];
      MinActiveStartIsLeast(init, today);
      assert cs == init + [cs[|cs| - 1]];
    }
  }

  /** MaxActiveEnd is the greatest end date of the active rows, and exists exactly when one is active. */
  lemma {:induction false} MaxActiveEndIsGreatest(cs: seq<Calendar>, today: int)
    ensures MaxActiveEnd(cs, today).None? <==> forall c | c in cs :: !IsActive(c, today)
    ensures MaxActiveEnd(cs, today).Some? ==>
      (exists c | c in cs && IsActive(c, today) :: c.endDate == MaxActiveEnd(cs, today).value)
      && forall c | c in cs && IsActive(c, today) :: c.endDate <= MaxActiveEnd(cs, today).value
  {
    if cs != [] {
      var init := cs[..|cs| - 1];
      MaxActiveEndIsGreatest(init, today);
      assert cs == init + [cs[|cs| - 1]];
    }
  }

  /** The window exists exactly when some row is active on `today`; it then runs
      from the least active start to the greatest active end, contains `today`,
      and encloses every active row. */
  lemma ActiveWindowIsTightest(cs: seq<Calendar>, today: int)
    ensures ActiveWindow(cs, today).None? <==> forall c | c in cs :: !IsActive(c, today)
    ensures ActiveWindow(cs, today).Some? ==>
      var w := ActiveWindow(cs, today).value;
      && w.Contains(today)
      && (forall c | c in cs && IsActive(c, today) :: w.first <= c.startDate && c.endDate <= w.last)
      && (exists c | c in cs && IsActive(c, today) :: c.startDate == w.first)
      && (exists c | c in cs && IsActive(c, today) :: c.endDate == w.last)
  {
    MinActiveStartIsLeast(cs, today);
    MaxActiveEndIsGreatest(cs, today);
  }

  /** The window depends only on the set of rows active on `today`: rows that are
      not active never move a bound, and the order of the rows does not matter. */
  lemma ActiveWindowDependsOnActiveRowsOnly(cs: seq<Calendar>, cs': seq<Calendar>, today: int)
    requires forall c :: (c in cs && IsActive(c, today)) <==> (c in cs' && IsActive(c, today))
    ensures ActiveWindow(cs, today) == ActiveWindow(cs', today)
  {
    ActiveWindowIsTightest(cs, today);
    ActiveWindowIsTightest(cs', today);
    if ActiveWindow(cs, today).Some? {
      var w, w' := ActiveWindow(cs, today).value, ActiveWindow(cs', today).value;
      var a :| a in cs && IsActive(a, today) && a.startDate == w.first;
      var a' :| a' in cs' && IsActive(a', today) && a'.startDate == w'.first;
      var b :| b in cs && IsActive(b, today) && b.endDate == w.last;
      var b' :| b' in cs' && IsActive(b', today) && b'.endDate == w'.last;
      assert w.first <= a'.startDate && w'.first <= a.startDate;
      assert b'.endDate <= w.last && b.endDate <= w'.last;
    }
  }

  /** With exactly one row active on `today`, the window is that row's own interval. */
  lemma ActiveWindowOfSingleActiveRow(cs: seq<Calendar>, k: nat, today: int)
    requires k < |cs| && IsActive(cs[k], today)
    requires forall j | 0 <= j < |cs| && j != k :: !IsActive(cs[j], today)
    ensures ActiveWindow(cs, today) == Some(Window(cs[k].startDate, cs[k].endDate))
  {
    ActiveWindowIsTightest(cs, today);
    assert forall c | c in cs && IsActive(c, today) :: c == cs[k];
  }

  /** Every row active on `today` passes the window test, so it contributes its prefix. */
  lemma ActiveRowQualifies(cs: seq<Calendar>, today: int, c: Calendar)
    requires c in cs && IsActive(c, today)
    ensures ActiveWindow(cs, today).Some?
    ensures CalendarQualifies(c, ActiveWindow(cs, today).value)
  {
    ActiveWindowIsTightest(cs, today);
  }

  /** For a well-formed row of the feed (start not after end), the start-or-end test
      accepts exactly the rows whose interval meets the window: a row strictly
      containing the window would contain today, hence be active and inside the window. */
  lemma CalendarQualifiesIffIntersects(cs: seq<Calendar>, today: int, c: Calendar)
    requires ActiveWindow(cs, today).Some?
    requires c in cs && c.startDate <= c.endDate
    ensures var w := ActiveWindow(cs, today).value;
      CalendarQualifies(c, w) <==> c.startDate <= w.last && w.first <= c.endDate
  {
    ActiveWindowIsTightest(cs, today);
  }

  // ---------------------------------------------------------------------------
  // The prefix set

  /** A prefix comes from the calendar rows exactly when some qualifying row has it. */
  lemma {:induction false} CalendarPrefixesMembers(cs: seq<Calendar>, w: Window, p: string)
    requires CalendarIdsLongEnough(cs, w)
    ensures p in CalendarPrefixes(cs, w) <==>
      exists j | 0 <= j < |cs| :: CalendarQualifies(cs[j], w) && ServicePrefix(cs[j].serviceId) == p
  {
    if cs != [] {
      var init := cs[..|cs| - 1];
      CalendarPrefixesMembers(init, w, p);
      assert forall j | 0 <= j < |init| :: init[j] == cs[j];
    }
  }

  /** A prefix comes from the calendar-date rows exactly when some qualifying row has it. */
  lemma {:induction false} DatePrefixesMembers(ds: seq<CalendarDate>, w: Window, p: string)
    requires DateIdsLongEnough(ds, w)
    ensures p in DatePrefixes(ds, w) <==>
      exists j | 0 <= j < |ds| :: DateQualifies(ds[j], w) && ServicePrefix(ds[j].serviceId) == p
  {
    if ds != [] {
      var init := ds[..|ds| - 1];
      DatePrefixesMembers(init, w, p);
      assert forall j | 0 <= j < |init| :: init[j] == ds[j];
    }
  }

  /** Every filter is the first six characters of the service ID of a qualifying
      calendar or calendar-date row, and every qualifying row contributes one. */
  lemma UsefulPrefixesMembers(cs: seq<Calendar>, ds: seq<CalendarDate>, w: Window, p: string)
    requires CalendarIdsLongEnough(cs, w) && DateIdsLongEnough(ds, w)
    ensures p in UsefulPrefixes(cs, ds, w) <==>
      (exists j | 0 <= j < |cs| :: CalendarQualifies(cs[j], w) && ServicePrefix(cs[j].serviceId) == p)
      || (exists j | 0 <= j < |ds| :: DateQualifies(ds[j], w) && ServicePrefix(ds[j].serviceId) == p)
  {
    CalendarPrefixesMembers(cs, w, p);
    DatePrefixesMembers(ds, w, p);
  }

  /** A calendar-date row whose date lies outside the window contributes nothing:
      removing it leaves the filter set unchanged. */
  lemma DateOutsideWindowContributesNothing(cs: seq<Calendar>, ds: seq<CalendarDate>, w: Window, k: nat)
    requires CalendarIdsLongEnough(cs, w) && DateIdsLongEnough(ds, w)
    requires k < |ds| && !DateQualifies(ds[k], w)
    ensures DateIdsLongEnough(ds[..k] + ds[k + 1..], w)
    ensures UsefulPrefixes(cs, ds[..k] + ds[k + 1..], w) == UsefulPrefixes(cs, ds, w)
  {
    var rest := ds[..k] + ds[k + 1..];
    assert forall j | 0 <= j < |rest| :: rest[j] == ds[if j < k then j else j + 1];
    forall p
      ensures p in DatePrefixes(rest, w) <==> p in DatePrefixes(ds, w)
    {
      DatePrefixesMembers(rest, w, p);
      DatePrefixesMembers(ds, w, p);
      if j :| 0 <= j < |ds| && DateQualifies(ds[j], w) && ServicePrefix(ds[j].serviceId) == p {
        assert j != k;
        var i := if j < k then j else j - 1;
        assert rest[i] == ds[j];
      }
    }
  }

  /** The example schedule: two calendars both running on 2024-02-20 give the window
      2024-01-01 to 2024-04-15 and the filters "A1B2C3" and "E5F6G7". */
  lemma TwoActiveCalendarsExample()
    ensures var cs := [Calendar("A1B2C3D4", 20240101, 20240301), Calendar("E5F6G7H8", 20240215, 20240415)];
      && ActiveWindow(cs, 20240220) == Some(Window(20240101, 20240415))
      && CalendarIdsLongEnough(cs, Window(20240101, 20240415))
      && UsefulPrefixes(cs, [], Window(20240101, 20240415)) == {"A1B2C3", "E5F6G7"}
  {
    var cs := [Calendar("A1B2C3D4", 20240101, 20240301), Calendar("E5F6G7H8", 20240215, 20240415)];
    var w := Window(20240101, 20240415);
    assert cs[..1] == [cs[0]] && cs[..1][..0] == [] && cs[..|cs| - 1] == cs[..1];
    assert MinActiveStart(cs[..1], 20240220) == Some(20240101);
    assert MaxActiveEnd(cs[..1], 20240220) == Some(20240301);
    assert ServicePrefix("A1B2C3D4") == "A1B2C3" && ServicePrefix("E5F6G7H8") == "E5F6G7";
    assert CalendarPrefixes(cs[..1], w) == {"A1B2C3"};
  }
}
