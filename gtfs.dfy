/** The GTFS records the Laval STL bus adapter reads, reduced to the fields it uses,
    and the runtime failures its filter computation can raise. */
module Gtfs {

  datatype Option<+T> = None | Some(value: T)

  /** A row of calendar.txt: a service running from startDate to endDate,
      both dates being integers of the form YYYYMMDD. */
  datatype Calendar = Calendar(serviceId: string, startDate: int, endDate: int)

  /** A row of calendar_dates.txt: a one-day exception for a service. */
  datatype CalendarDate = CalendarDate(serviceId: string, date: int)

  datatype Route = Route(routeId: string, routeShortName: string, routeType: string)

  datatype Trip = Trip(routeId: string, serviceId: string)

  datatype Stop = Stop(stopId: string, stopCode: string)

  /** The Java exceptions the useful-service-ID computation can throw:
      unboxing a null date bound, and taking a 6-character substring of a
      shorter service ID. */
  datatype Fault = NullPointer | StringIndexOutOfBounds(serviceId: string)
}
