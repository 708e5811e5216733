/** The Laval STL bus adapter: it computes the useful service-ID prefixes once,
    then keeps a route, trip, stop, calendar or calendar-date record only if its
    identifier starts with one of them. */
module LavalStlBus {
  import opened Gtfs
  import opened PrefixFilter
  import opened ServiceWindow
  import opened JavaInteger

  /** Only bus routes (GTFS route_type 3) are kept. */
  const RouteTypeFilter: string := "3"

  /** The bounds of the schedule window, scanning the calendars in order: the
      smallest start and the largest end of the rows running `today`, both None
      when no row runs today. */
  method ScheduleBounds(calendars: seq<Calendar>, today: int) returns (startDate: Option<int>, endDate: Option<int>)
    ensures startDate == MinActiveStart(calendars, today)
    ensures endDate == MaxActiveEnd(calendars, today)
  {
    startDate, endDate := None, None;
    for i := 0 to |calendars|
      invariant startDate == MinActiveStart(calendars[..i], today)
      invariant endDate == MaxActiveEnd(calendars[..i], today)
    {
      var c := calendars[i];
      WindowBoundsStep(calendars, i, today);
      if c.startDate <= today && c.endDate >= today {
        if startDate.None? || c.startDate < startDate.value {
          startDate := Some(c.startDate);
        }
        if endDate.None? || c.endDate > endDate.value {
          endDate := Some(c.endDate);
        }
      }
    }
    assert calendars[..|calendars|] == calendars;
  }

  class AgencyTools {
    /** The useful service-ID prefixes; None until they are computed. */
    var startWithFilters: Option<set<string>>

    constructor ()
      ensures startWithFilters == None
    {
      startWithFilters := None;
    }

    /** Computes the schedule window of the calendars running `today` and the
        prefixes of the rows falling in it. When no calendar runs today the
        first bound comparison dereferences a null bound; a qualifying row
        whose service ID is shorter than six characters stops the scan. In
        both cases the field keeps the set built so far. */
    method ExtractUsefulServiceIds(calendars: seq<Calendar>, calendarDates: seq<CalendarDate>, today: int)
      returns (thrown: Option<Fault>)
      modifies this
      ensures startWithFilters.Some?
      ensures ActiveWindow(calendars, today).None? ==>
        && startWithFilters == Some({})
        && thrown == (if calendars == [] && calendarDates == [] then None else Some(NullPointer))
      ensures ActiveWindow(calendars, today).Some? ==>
        var w := ActiveWindow(calendars, today).value;
        var k := FirstShortCalendar(calendars, w);
        var l := FirstShortDate(calendarDates, w);
        if k < |calendars| then
          && thrown == Some(StringIndexOutOfBounds(calendars[k].serviceId))
          && startWithFilters == Some(CalendarPrefixes(calendars[..k], w))
        else if l < |calendarDates| then
          && thrown == Some(StringIndexOutOfBounds(calendarDates[l].serviceId))
          && startWithFilters == Some(CalendarPrefixes(calendars, w) + DatePrefixes(calendarDates[..l], w))
        else
          && thrown == None
          && startWithFilters == Some(UsefulPrefixes(calendars, calendarDates, w))
    {
      var startDate, endDate := ScheduleBounds(calendars, today);
      startWithFilters := Some({});
      if startDate.None? || endDate.None? {
        assert ActiveWindow(calendars, today).None?;
        // the first row of either loop unboxes a null bound
        if calendars != [] || calendarDates != [] {
          return Some(NullPointer);
        }
        return None;
      }
      var w := Window(startDate.value, endDate.value);
      assert ActiveWindow(calendars, today) == Some(w);
      for i := 0 to |calendars|
        invariant i <= FirstShortCalendar(calendars, w)
        invariant CalendarIdsLongEnough(calendars[..i], w)
        invariant startWithFilters.Some? && startWithFilters.value == CalendarPrefixes(calendars[..i], w)
      {
        var c := calendars[i];
        FirstShortCalendarStep(calendars, w, i);
        if (c.startDate >= w.first && c.startDate <= w.last)
          || (c.endDate >= w.first && c.endDate <= w.last)
        {
          if |c.serviceId| < PrefixLength {
            return Some(StringIndexOutOfBounds(c.serviceId));
          }
          startWithFilters := Some(startWithFilters.value + {ServicePrefix(c.serviceId)});
        }
        CalendarPrefixesStep(calendars, i, w);
        assert startWithFilters.value == CalendarPrefixes(calendars[..i + 1], w);
      }
      assert calendars[..|calendars|] == calendars;
      assert FirstShortCalendar(calendars, w) == |calendars|;
      ghost var fromCalendars := CalendarPrefixes(calendars, w);
      assert calendarDates[..0] == [];
      assert fromCalendars + DatePrefixes(calendarDates[..0], w) == fromCalendars;
      for i := 0 to |calendarDates|
        invariant i <= FirstShortDate(calendarDates, w)
        invariant DateIdsLongEnough(calendarDates[..i], w)
        invariant startWithFilters.Some? && startWithFilters.value == fromCalendars + DatePrefixes(calendarDates[..i], w)
      {
        var d := calendarDates[i];
        FirstShortDateStep(calendarDates, w, i);
        if d.date >= w.first && d.date <= w.last {
          if |d.serviceId| < PrefixLength {
            return Some(StringIndexOutOfBounds(d.serviceId));
          }
          startWithFilters := Some(startWithFilters.value + {ServicePrefix(d.serviceId)});
        }
        DatePrefixesStep(calendarDates, i, w);
        assert fromCalendars + DatePrefixes(calendarDates[..i + 1], w) ==
          fromCalendars + DatePrefixes(calendarDates[..i], w)
          + (if DateQualifies(d, w) then {ServicePrefix(d.serviceId)} else {});
        assert startWithFilters.value == fromCalendars + DatePrefixes(calendarDates[..i + 1], w);
      }
      assert calendarDates[..|calendarDates|] == calendarDates;
      return None;
    }

    /** Scans the filters, stopping at the first one that `id` starts with. */
    method StartsWithSomeFilter(id: string) returns (found: bool)
      requires startWithFilters.Some?
      ensures found == StartsWithAny(startWithFilters.value, id)
    {
      var rest := startWithFilters.value;
      while rest != {}
        invariant rest <= startWithFilters.value
        invariant forall f | f in startWithFilters.value - rest :: !StartsWith(id, f)
        decreases rest
      {
        var f :| f in rest;
        if StartsWith(id, f) {
          return true;
        }
        rest := rest - {f};
      }
      return false;
    }

    /** Drops every non-bus route; otherwise keeps a route whose ID starts with a
        filter, or defers to the framework's verdict when there are no filters. */
    method ExcludeRoute(route: Route, frameworkExcludes: bool) returns (exclude: bool)
      ensures route.routeType != RouteTypeFilter ==> exclude
      ensures route.routeType == RouteTypeFilter && startWithFilters.Some? ==>
        (exclude <==> !StartsWithAny(startWithFilters.value, route.routeId))
      ensures route.routeType == RouteTypeFilter && startWithFilters.None? ==> exclude == frameworkExcludes
    {
      if route.routeType != RouteTypeFilter {
        return true;
      }
      if startWithFilters.Some? {
        var keep := StartsWithSomeFilter(route.routeId);
        return !keep;
      }
      return frameworkExcludes;
    }

    /** Keeps a trip whose service ID starts with a filter. */
    method ExcludeTrip(trip: Trip, frameworkExcludes: bool) returns (exclude: bool)
      ensures startWithFilters.Some? ==> (exclude <==> !StartsWithAny(startWithFilters.value, trip.serviceId))
      ensures startWithFilters.None? ==> exclude == frameworkExcludes
    {
      if startWithFilters.Some? {
        var keep := StartsWithSomeFilter(trip.serviceId);
        return !keep;
      }
      return frameworkExcludes;
    }

    /** Keeps a stop whose stop ID starts with a filter. */
    method ExcludeStop(stop: Stop, frameworkExcludes: bool) returns (exclude: bool)
      ensures startWithFilters.Some? ==> (exclude <==> !StartsWithAny(startWithFilters.value, stop.stopId))
      ensures startWithFilters.None? ==> exclude == frameworkExcludes
    {
      if startWithFilters.Some? {
        var keep := StartsWithSomeFilter(stop.stopId);
        return !keep;
      }
      return frameworkExcludes;
    }

    /** Keeps a calendar-date row whose service ID starts with a filter. */
    method ExcludeCalendarDate(calendarDate: CalendarDate, frameworkExcludes: bool) returns (exclude: bool)
      ensures startWithFilters.Some? ==> (exclude <==> !StartsWithAny(startWithFilters.value, calendarDate.serviceId))
      ensures startWithFilters.None? ==> exclude == frameworkExcludes
    {
      if startWithFilters.Some? {
        var keep := StartsWithSomeFilter(calendarDate.serviceId);
        return !keep;
      }
      return frameworkExcludes;
    }

    /** Keeps a calendar row whose service ID starts with a filter. */
    method ExcludeCalendar(calendar: Calendar, frameworkExcludes: bool) returns (exclude: bool)
      ensures startWithFilters.Some? ==> (exclude <==> !StartsWithAny(startWithFilters.value, calendar.serviceId))
      ensures startWithFilters.None? ==> exclude == frameworkExcludes
    {
      if startWithFilters.Some? {
        var keep := StartsWithSomeFilter(calendar.serviceId);
        return !keep;
      }
      return frameworkExcludes;
    }
  }

  /** After a successful extraction, an identifier is kept exactly when it is at
      least six characters long and its first six characters are the prefix of
      the service ID of some qualifying calendar or calendar-date row. */
  lemma KeptIffSharesQualifyingPrefix(cs: seq<Calendar>, ds: seq<CalendarDate>, w: Window, id: string)
    requires CalendarIdsLongEnough(cs, w) && DateIdsLongEnough(ds, w)
    ensures StartsWithAny(UsefulPrefixes(cs, ds, w), id) <==>
      && HasServicePrefix(id)
      && ((exists j | 0 <= j < |cs| :: CalendarQualifies(cs[j], w) && ServicePrefix(cs[j].serviceId) == ServicePrefix(id))
       || (exists j | 0 <= j < |ds| :: DateQualifies(ds[j], w) && ServicePrefix(ds[j].serviceId) == ServicePrefix(id)))
  {
    if StartsWithAny(UsefulPrefixes(cs, ds, w), id) {
      var f :| f in UsefulPrefixes(cs, ds, w) && StartsWith(id, f);
      UsefulPrefixesMembers(cs, ds, w, f);
      assert |f| == PrefixLength;
      assert ServicePrefix(id) == f;
    }
    if HasServicePrefix(id) {
      UsefulPrefixesMembers(cs, ds, w, ServicePrefix(id));
    }
  }

  /** Every record whose identifier is the service ID of a calendar running
      `today` is kept once the filters are computed. */
  lemma ActiveServiceIsKept(cs: seq<Calendar>, ds: seq<CalendarDate>, today: int, c: Calendar)
    requires c in cs && IsActive(c, today)
    requires var w := ActiveWindow(cs, today);
      w.Some? && CalendarIdsLongEnough(cs, w.value) && DateIdsLongEnough(ds, w.value)
    ensures StartsWithAny(UsefulPrefixes(cs, ds, ActiveWindow(cs, today).value), c.serviceId)
  {
    var w := ActiveWindow(cs, today).value;
    ActiveRowQualifies(cs, today, c);
    var j :| 0 <= j < |cs| && cs[j] == c;
    KeptIffSharesQualifyingPrefix(cs, ds, w, c.serviceId);
  }

  /** The direction code of a trip is the last character of its route ID;
      None where Java's substring throws on an empty route ID. */
  function HeadsignDirectionId(trip: Trip): (r: Option<string>)
    ensures r.None? <==> trip.routeId == []
    ensures r.Some? ==> |r.value| == 1 && trip.routeId == trip.routeId[..|trip.routeId| - 1] + r.value
  {
    if trip.routeId == [] then None else Some(trip.routeId[|trip.routeId| - 1..])
  }

  /** The route's numeric ID is its short name read as a decimal integer. */
  function RouteId(route: Route): (r: Option<int>)
    ensures r.Some? ==> MinInt <= r.value <= MaxInt
    ensures forall n | MinInt <= n <= MaxInt && route.routeShortName == Decimal(n) :: r == Some(n)
  {
    assert forall n | MinInt <= n <= MaxInt && route.routeShortName == Decimal(n) :: ValueOf(route.routeShortName) == Some(n) by {
      forall n | MinInt <= n <= MaxInt && route.routeShortName == Decimal(n)
        ensures ValueOf(route.routeShortName) == Some(n)
      {
        ValueOfDecimal(n);
      }
    }
    ValueOf(route.routeShortName)
  }

  /** The stop's numeric ID is its stop code read as a decimal integer. */
  function StopId(stop: Stop): (r: Option<int>)
    ensures r.Some? ==> MinInt <= r.value <= MaxInt
    ensures forall n | MinInt <= n <= MaxInt && stop.stopCode == Decimal(n) :: r == Some(n)
  {
    assert forall n | MinInt <= n <= MaxInt && stop.stopCode == Decimal(n) :: ValueOf(stop.stopCode) == Some(n) by {
      forall n | MinInt <= n <= MaxInt && stop.stopCode == Decimal(n)
        ensures ValueOf(stop.stopCode) == Some(n)
      {
        ValueOfDecimal(n);
      }
    }
    ValueOf(stop.stopCode)
  }
}
