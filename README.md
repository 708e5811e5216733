# Laval STL bus adapter: the useful-service-ID filter

This project models the one piece of real logic in the STL (Société de transport
de Laval) GTFS adapter `LavalSTLBusAgencyTools`: the **useful-service-ID filter**.
It works in two phases.

1. **Compute** (`extractUsefulServiceIds`). The calendars running on "today" (an
   integer of the form YYYYMMDD) span a schedule window, from their earliest
   `start_date` to their latest `end_date`. A calendar row whose start or end lies
   in that window contributes the first six characters of its `service_id` to
   the filter set `startWithFilters`. So does a calendar-date row whose date
   lies in it.
2. **Query** (the `exclude*` overrides). A route, trip, stop, calendar or
   calendar-date record is kept exactly when its identifier starts with some
   filter. `excludeRoute` first drops every route whose `route_type` is not
   `"3"` (bus). While the filter set has not been computed, every override
   otherwise returns the framework's own verdict.

Beside the filter the model covers two small pure pieces. The first is the
direction code that `setTripHeadsign` takes from the last character of the
route ID. The second is the decimal re-keying of routes and stops by
`Integer.valueOf`.

Files and modules:

- `gtfs.dfy` (`Gtfs`): the feed rows reduced to the fields the adapter reads,
  `Option`, and `Fault`, the two Java exceptions the computation can throw.
- `service_window.dfy` (`ServiceWindow`): the specification of phase 1 as
  functions. `MinActiveStart` and `MaxActiveEnd` give the window bounds.
  `CalendarPrefixes`, `DatePrefixes` and `UsefulPrefixes` give the filter set.
  `FirstShortCalendar` and `FirstShortDate` locate the first row whose
  `substring(0, 6)` throws. The lemmas state what these mean.
- `prefix_filter.dfy` (`PrefixFilter`): `startsWith` and the filter-set predicate
  `StartsWithAny`.
- `java_integer.dfy` (`JavaInteger`): `Integer.valueOf` on decimal strings.
- `agency_tools.dfy` (`LavalStlBus`): the class `AgencyTools`, whose field
  `startWithFilters: Option<set<string>>` stands for the nullable `HashSet`.
  `ExtractUsefulServiceIds` assigns the field and then adds to it in the
  source's two loops. The exclude methods scan the set with an early return.
  The window loop of `extractUsefulServiceIds` (lines 57-66) is the method
  `ScheduleBounds`, which `ExtractUsefulServiceIds` calls first.

Inputs that the Java adapter obtains from outside become parameters. "Today",
which Java computes from the system clock, is the `today` argument. The parsed
feed is passed as the sequences `calendars` and `calendarDates`. The verdict
of the framework's `super.exclude*` method is the boolean `frameworkExcludes`.

Exceptions are modelled as the out-parameter `thrown` of
`ExtractUsefulServiceIds`:

- `NullPointer`: no calendar runs today, so both bounds stay `null`. The first
  row of either later loop then unboxes a null bound (lines 70 and 76). When
  both tables are empty no row is visited, nothing is thrown, and the filter set
  is empty, so every record is excluded.
- `StringIndexOutOfBounds(id)`: the first qualifying row, in scan order, whose
  service ID is shorter than six characters. Calendars are scanned before
  calendar dates.

On an exception the field keeps the set built so far, because line 68 assigns
it before the loops. The method's postcondition states that set exactly.

Two observations about the Java adapter's behaviour:

- The "start in window or end in window" test looks looser than interval
  intersection. `ServiceWindow.CalendarQualifiesIffIntersects` proves it is
  not, for a row of the same feed whose start is not after its end. A row that
  contains the window without touching its bounds would contain today. It would
  then be one of the active rows that define the window.
- The code raises no explicit "no active calendar" error. It fails only by
  unboxing a null bound. When there is no calendar row and no calendar-date
  row at all, it fails nowhere and leaves an empty filter set.

The prefix test reads as in the code: the record's identifier starts with the
stored filter.

## Model

| member | source | states |
|---|---|---|
| `ServiceWindow.MinActiveStartIsLeast` | src/org/mtransit/parser/ca_laval_stl_bus/LavalSTLBusAgencyTools.java:57-66 | the start bound is null exactly when no calendar is active today; otherwise it is the start date of some active row and no active row starts earlier |
| `ServiceWindow.MaxActiveEndIsGreatest` | src/org/mtransit/parser/ca_laval_stl_bus/LavalSTLBusAgencyTools.java:57-66 | the end bound is null exactly when no calendar is active today; otherwise it is the end date of some active row and no active row ends later |
| `ServiceWindow.ActiveWindowIsTightest` | src/org/mtransit/parser/ca_laval_stl_bus/LavalSTLBusAgencyTools.java:54-66 | the window exists iff some row is active; it then contains today, encloses every active row, and both bounds are attained by active rows |
| `ServiceWindow.ActiveWindowDependsOnActiveRowsOnly` | src/org/mtransit/parser/ca_laval_stl_bus/LavalSTLBusAgencyTools.java:57-66 | two feeds with the same active rows have the same window: inactive rows never move a bound and row order does not matter |
| `ServiceWindow.ActiveWindowOfSingleActiveRow` | src/org/mtransit/parser/ca_laval_stl_bus/LavalSTLBusAgencyTools.java:57-66 | with exactly one active row, the window is that row's own start and end |
| `ServiceWindow.ServicePrefix` | src/org/mtransit/parser/ca_laval_stl_bus/LavalSTLBusAgencyTools.java:72 | `substring(0, 6)` of a long enough ID has length 6 and is a prefix of the ID |
| `ServiceWindow.FirstShortCalendar` | src/org/mtransit/parser/ca_laval_stl_bus/LavalSTLBusAgencyTools.java:69-74 | the index where the calendar scan throws: every earlier qualifying row has a long enough ID, and the row there qualifies and is too short (or the index is past the end) |
| `ServiceWindow.FirstShortDate` | src/org/mtransit/parser/ca_laval_stl_bus/LavalSTLBusAgencyTools.java:75-79 | the same for the calendar-date scan |
| `ServiceWindow.CalendarPrefixesMembers` | src/org/mtransit/parser/ca_laval_stl_bus/LavalSTLBusAgencyTools.java:69-74 | a prefix is added by the calendar loop iff some calendar row with start or end in the window has it as its first six characters |
| `ServiceWindow.DatePrefixesMembers` | src/org/mtransit/parser/ca_laval_stl_bus/LavalSTLBusAgencyTools.java:75-79 | a prefix is added by the calendar-date loop iff some row dated inside the window has it as its first six characters |
| `ServiceWindow.UsefulPrefixesMembers` | src/org/mtransit/parser/ca_laval_stl_bus/LavalSTLBusAgencyTools.java:68-79 | every filter is the 6-character prefix of a qualifying calendar or calendar-date row, and every qualifying row contributes its prefix |
| `ServiceWindow.ActiveRowQualifies` | src/org/mtransit/parser/ca_laval_stl_bus/LavalSTLBusAgencyTools.java:58-72 | every calendar active today passes the start-or-end window test |
| `ServiceWindow.CalendarQualifiesIffIntersects` | src/org/mtransit/parser/ca_laval_stl_bus/LavalSTLBusAgencyTools.java:70-71 | for a well-formed row of the feed, the start-or-end test holds iff the row's interval meets the window |
| `ServiceWindow.DateOutsideWindowContributesNothing` | src/org/mtransit/parser/ca_laval_stl_bus/LavalSTLBusAgencyTools.java:75-79 | removing a calendar-date row dated outside the window leaves the filter set unchanged |
| `ServiceWindow.TwoActiveCalendarsExample` | src/org/mtransit/parser/ca_laval_stl_bus/LavalSTLBusAgencyTools.java:54-79 | two calendars running on 20240220 give the window 20240101-20240415 and the filters "A1B2C3" and "E5F6G7" |
| `PrefixFilter.StartsWithLength` | src/org/mtransit/parser/ca_laval_stl_bus/LavalSTLBusAgencyTools.java:105 | `id.startsWith(f)` holds iff `f` is no longer than `id` and equals its first `|f|` characters |
| `PrefixFilter.StartsWithAnyMonotone` | src/org/mtransit/parser/ca_laval_stl_bus/LavalSTLBusAgencyTools.java:102-151 | enlarging the filter set can only turn exclude into keep |
| `LavalStlBus.ScheduleBounds` | src/org/mtransit/parser/ca_laval_stl_bus/LavalSTLBusAgencyTools.java:54-66 | the loop leaves the least active start and the greatest active end in the nullable bounds |
| `LavalStlBus.AgencyTools.constructor` | src/org/mtransit/parser/ca_laval_stl_bus/LavalSTLBusAgencyTools.java:40 | the filter set starts out null |
| `LavalStlBus.AgencyTools.ExtractUsefulServiceIds` | src/org/mtransit/parser/ca_laval_stl_bus/LavalSTLBusAgencyTools.java:51-83 | the field holds exactly the useful prefixes of the window's rows; otherwise the exception thrown (null bound, or the first short qualifying ID) and the partial set built before it |
| `LavalStlBus.AgencyTools.StartsWithSomeFilter` | src/org/mtransit/parser/ca_laval_stl_bus/LavalSTLBusAgencyTools.java:104-109 | the early-return scan over the filter set finds a match iff some filter is a prefix of the ID |
| `LavalStlBus.AgencyTools.ExcludeRoute` | src/org/mtransit/parser/ca_laval_stl_bus/LavalSTLBusAgencyTools.java:86-99 | a non-bus route is always excluded; otherwise, with filters, excluded iff no filter prefixes the route ID; without filters, the framework's verdict |
| `LavalStlBus.AgencyTools.ExcludeTrip` | src/org/mtransit/parser/ca_laval_stl_bus/LavalSTLBusAgencyTools.java:102-112 | with filters, a trip is excluded iff no filter prefixes its service ID; without, the framework's verdict |
| `LavalStlBus.AgencyTools.ExcludeStop` | src/org/mtransit/parser/ca_laval_stl_bus/LavalSTLBusAgencyTools.java:115-125 | with filters, a stop is excluded iff no filter prefixes its stop ID; without, the framework's verdict |
| `LavalStlBus.AgencyTools.ExcludeCalendarDate` | src/org/mtransit/parser/ca_laval_stl_bus/LavalSTLBusAgencyTools.java:128-138 | with filters, a calendar date is excluded iff no filter prefixes its service ID; without, the framework's verdict |
| `LavalStlBus.AgencyTools.ExcludeCalendar` | src/org/mtransit/parser/ca_laval_stl_bus/LavalSTLBusAgencyTools.java:141-151 | with filters, a calendar is excluded iff no filter prefixes its service ID; without, the framework's verdict |
| `LavalStlBus.KeptIffSharesQualifyingPrefix` | src/org/mtransit/parser/ca_laval_stl_bus/LavalSTLBusAgencyTools.java:68-79 | after a successful computation an ID is kept iff it has at least six characters and shares its first six with a qualifying calendar or calendar-date row |
| `LavalStlBus.ActiveServiceIsKept` | src/org/mtransit/parser/ca_laval_stl_bus/LavalSTLBusAgencyTools.java:58-72 | a record carrying the service ID of a calendar active today is kept |
| `LavalStlBus.HeadsignDirectionId` | src/org/mtransit/parser/ca_laval_stl_bus/LavalSTLBusAgencyTools.java:204 | the direction code is the one-character suffix of the route ID, so the route ID is the rest followed by it; an empty route ID throws |
| `LavalStlBus.RouteId` | src/org/mtransit/parser/ca_laval_stl_bus/LavalSTLBusAgencyTools.java:155 | the route ID is a 32-bit integer, and a short name spelling an integer in decimal yields that integer |
| `LavalStlBus.StopId` | src/org/mtransit/parser/ca_laval_stl_bus/LavalSTLBusAgencyTools.java:199 | the stop ID is a 32-bit integer, and a stop code spelling an integer in decimal yields that integer |
| `JavaInteger.ValueOf` | src/org/mtransit/parser/ca_laval_stl_bus/LavalSTLBusAgencyTools.java:155 | an accepted string is an optional sign followed by digits, and its value fits in 32 bits |
| `JavaInteger.NatDigitsValue` | src/org/mtransit/parser/ca_laval_stl_bus/LavalSTLBusAgencyTools.java:199 | reading back the decimal digits of a natural number gives the number |
| `JavaInteger.ValueOfDecimal` | src/org/mtransit/parser/ca_laval_stl_bus/LavalSTLBusAgencyTools.java:155 | every 32-bit integer is read back from its decimal spelling |
| `JavaInteger.ValueOfRejectsNonDigit` | src/org/mtransit/parser/ca_laval_stl_bus/LavalSTLBusAgencyTools.java:199 | a string with a non-digit after its first character is rejected |
| `JavaInteger.LeadingZeroValue` | src/org/mtransit/parser/ca_laval_stl_bus/LavalSTLBusAgencyTools.java:155 | a leading zero does not change the value of a digit string |
| `JavaInteger.DigitsValueAppend` | src/org/mtransit/parser/ca_laval_stl_bus/LavalSTLBusAgencyTools.java:155 | appending a digit multiplies the value by ten and adds the digit |
| `JavaInteger.ValueOfSignedDigits` | src/org/mtransit/parser/ca_laval_stl_bus/LavalSTLBusAgencyTools.java:155 | for any digit string, with no sign, '+' or '-': the value is the digits' value (negated after '-') when it fits in 32 bits, and the string is rejected otherwise |
| `JavaInteger.ValueOfRejectsOverflow` | src/org/mtransit/parser/ca_laval_stl_bus/LavalSTLBusAgencyTools.java:155 | a digit string whose value exceeds 2147483647 is rejected unsigned and after '+', and after '-' when it exceeds 2147483648 |
| `JavaInteger.ValueOfSignAndZeroExamples` | src/org/mtransit/parser/ca_laval_stl_bus/LavalSTLBusAgencyTools.java:155 | "+7" and "007" read as 7, and "-0" as 0 |
| `JavaInteger.ValueOfMaxIntPlusOne` | src/org/mtransit/parser/ca_laval_stl_bus/LavalSTLBusAgencyTools.java:155 | "2147483648" is rejected |

## Left out

- `main` and `start` (lines 30-49): argument defaults, console output and timing around the two phases.
- Reading the GTFS zip (line 53) and the progress printing (lines 52, 67, 80, 82): file and console I/O. The parsed calendar rows are parameters instead.
- Today's date from `SimpleDateFormat` and `new Date()` (line 56): it depends on the system clock and locale, so it is the parameter `today`.
- `gtfs = null` (line 81): it releases memory for the garbage collector and changes no modelled state.
- `getRouteLongName` and `cleanRouteLongName` (lines 170-182), and `cleanStopName` (lines 222-230): regular-expression rewriting with `java.util.regex`, completed by framework helpers (`MSpec`, `Utils.replaceAll`, `cleanStopNameFR`) that are not part of this model.
- `getRouteColor` and `getRouteTextColor` (lines 187-195): they return constants.
- The `super.exclude*` fallbacks: they belong to the framework base class, whose code is not part of this model. Their verdict is the parameter `frameworkExcludes`.
- `MDirectionType.parse` and `MTrip.setHeadsignDirection` (line 205): framework code. Only the suffix extraction of line 204 is modelled, as `HeadsignDirectionId`.
- The iteration order of the `HashSet`: the exclude scan picks the filters in an arbitrary order. Its result does not depend on that order.
- Null fields inside feed rows (a null `service_id` or `route_id`): the rows are taken as fully populated.
- `JavaInteger.ValueOf`: accepts only the ASCII digits `0`-`9`. Java's `Character.digit` also accepts the other Unicode decimal digits.
- `ServiceWindow.ServicePrefix`, `ServiceWindow.HasServicePrefix`, `PrefixFilter.StartsWith` and `LavalStlBus.HeadsignDirectionId`: IDs are assumed to lie in the Basic Multilingual Plane. Dafny strings count Unicode scalar values, while Java's `length`, `substring` and `startsWith` count UTF-16 code units, so the two differ only for characters outside that plane. For example, "😀😀😀" is six Java units and passes `substring(0, 6)`, but in the model it has three characters and throws. The last character of "1😀" is a lone surrogate in Java and the whole emoji in the model.
- The later revision of the adapter, src/main/java/org/mtransit/parser/ca_laval_stl_bus/LavalSTLBusAgencyTools.java: it hands its filtering to framework helpers (`excludeUselessTrip` and others), so it is not modelled.
