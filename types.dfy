/** The records of the chore tracker (chore-app/src/types.ts). Calendar dates are
    day numbers: day 0 is 1970-01-01, and the `yyyy-MM-dd` key that the program
    stores for a date is identified with the day number itself. */
module Types {

  /** `T | null` in the program. */
  datatype Option<T> = None | Some(value: T)

  /** A calendar day, counted from 1970-01-01. */
  type Day = int

  /** Identifiers and timestamps are opaque strings; generating them is left to the caller. */
  type ChoreId = string
  type MemberId = string
  type Timestamp = string

  datatype Category = Cleaning | Admin | Maintenance | Other

  datatype Priority = Low | Medium | High

  /** `'none' | 'daily' | 'weekly'`. */
  datatype RecurrenceType = NotRecurring | Daily | Weekly

  /** A repetition rule: `interval` counts days for Daily and weeks for Weekly;
      `daysOfWeek` holds weekday numbers (0 = Sunday); `endDate` is inclusive. */
  datatype Recurrence = Recurrence(
    kind: RecurrenceType,
    interval: int,
    daysOfWeek: seq<int>,
    endDate: Option<Day>)

  datatype Chore = Chore(
    id: ChoreId,
    title: string,
    description: string,
    assigneeId: Option<MemberId>,
    category: Category,
    priority: Priority,
    dueDate: Day,
    recurrence: Recurrence,
    completedDates: seq<Day>,
    createdAt: Timestamp)

  datatype TeamMember = TeamMember(id: MemberId, name: string, color: string)

  /** One dated occurrence of a chore, derived on every render and never stored. */
  datatype ChoreInstance = ChoreInstance(chore: Chore, date: Day, isCompleted: bool)
}
