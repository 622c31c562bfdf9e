/** The calendar event record the calendar routes read and write. The
    Calendar schema itself is not part of this model: the fields are the ones
    the routes use, with dates as day numbers. */
module CalendarEvent {
  import opened Wrappers

  datatype Event = Event(
    id: string, title: string, description: Option<string>, startDate: int, endDate: int,
    eventType: string, createdBy: string, isActive: bool)
}
