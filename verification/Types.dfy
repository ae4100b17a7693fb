/** The records the planner passes between its components. Their declarations
    live in src/basic/types.ts, which is not part of this model; the fields
    below are the ones the modelled components read. */
module Types {

  datatype Option<+T> = None | Some(value: T)

  /** A catalog entry as fetched from the majors or liberal-arts list.
      `credits` is text (it may carry trailing descriptors) and `schedule`
      is the raw day/period/room text that `parseSchedule` reads. */
  datatype Lecture = Lecture(
    id: string,
    title: string,
    credits: string,
    grade: int,
    major: string,
    schedule: string)

  /** One entry produced by parsing a lecture's raw schedule text. */
  datatype ParsedSchedule = ParsedSchedule(day: string, range: seq<int>, room: string)

  /** A lecture placed on a schedule table on one day over a run of periods. */
  datatype Schedule = Schedule(lecture: Lecture, day: string, range: seq<int>, room: string)

  /** The `{ day, time }` record the grid hands to its click and delete callbacks. */
  datatype TimeInfo = TimeInfo(day: string, time: int)

  /** The search dialog's `searchInfo` prop: the target table and an
      optional day and period to pre-filter on. */
  datatype SearchInfo = SearchInfo(tableId: string, day: Option<string>, time: Option<int>)
}
