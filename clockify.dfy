/** The time entries the tracking service returns, already fetched, decoded
    and with their task resolved; only their shape is modelled here. */
module Clockify {
  import opened Time

  datatype Option<+T> = None | Some(value: T)

  datatype Task = Task(id: string, name: string)

  datatype TimeInterval = TimeInterval(start: Timestamp, end: Timestamp)

  /** One tracked interval, with the task it was booked on, if any. The
      entry's billable flag and task id are not read by the timesheet
      pipeline and are not modelled. */
  datatype TimeEntry = TimeEntry(description: string, timeInterval: TimeInterval, task: Option<Task>)
}
