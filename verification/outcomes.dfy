/**
 * The error paths of the habit tracker's operations, as values.
 */
module Outcomes {

  datatype Option<T> = None | Some(value: T)

  /**
   * MissingField: a required field of a creation request is absent.
   * HabitNotFound: the habit identifier does not exist ("Habit not found").
   * InvalidReportType: the report type is not one of the known names
   * ("Invalid report type").
   */
  datatype Error = MissingField(field: string) | HabitNotFound | InvalidReportType

  datatype Result<T> = Ok(value: T) | Err(error: Error)
}
