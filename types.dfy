// Core records of the Shape Up planner (src/types/index.ts).

module Types {

  /** `T | null` and `T | undefined` in the source. */
  datatype Option<+T> = None | Some(value: T)

  /** At most this many weeks of a year may be vacation. */
  const MAX_VACATION_WEEKS: nat := 5

  /** A sprint claims exactly this many weeks. */
  const WEEKS_PER_SPRINT: nat := 6

  /** A to-do item owned by one week. */
  datatype Task = Task(id: string, title: string, completed: bool, weekId: string)

  /** One calendar week of a year. Dates are the `YYYY-MM-DD` strings the generator writes. */
  datatype Week = Week(
    id: string,
    weekNumber: int,
    year: int,
    startDate: string,
    endDate: string,
    isVacation: bool,
    sprintId: Option<string>,
    tasks: seq<Task>,
    order: int)

  datatype SprintColor = Crimson | Amber | Emerald | Azure | Violet | Slate | Rose | Cyan

  /** The fixed palette, in the order the allocator tries it. */
  const SPRINT_COLORS: seq<SprintColor> := [Crimson, Amber, Emerald, Azure, Violet, Slate, Rose, Cyan]

  /** A six-week bet. */
  datatype Sprint = Sprint(
    id: string,
    title: string,
    goalPitch: string,
    colorTheme: SprintColor,
    weekIds: seq<string>,
    year: int,
    order: int)

  /** Everything stored for one year. */
  datatype YearData = YearData(year: int, weeks: seq<Week>, sprints: seq<Sprint>, vacationWeekIds: seq<string>)

  /** JavaScript truthiness of a `string | null` value: null and the empty string are falsy. */
  predicate Truthy(s: Option<string>)
  {
    s.Some? && s.value != ""
  }
}
