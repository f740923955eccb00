/**
 * The two stored entities of the habit tracker and the declarations that
 * constrain them: a habit with its frequency choices and defaults, and the
 * per-day completion records of a habit, keyed by (habit, date) and deleted
 * together with their habit.
 */
module HabitModels {

  /** A habit is identified by the primary key the store assigns to it. */
  type HabitId = nat

  /** A calendar date, counted in whole days; the time of day plays no part. */
  type Day = int

  /** The frequency values a habit declares as its choices. */
  const FREQUENCY_CHOICES: seq<string> := ["daily", "weekly", "monthly"]

  /** The frequency a habit gets when none is given. */
  const DEFAULT_FREQUENCY: string := "daily"

  /** A completion record starts out as not completed. */
  const DEFAULT_COMPLETED: bool := false

  /**
   * A stored habit. `frequency` is free text: the store does not check it
   * against FREQUENCY_CHOICES. `createdDay` is set once, on creation.
   */
  datatype Habit = Habit(name: string, description: string, frequency: string, createdDay: Day)

  /**
   * The completion records of all habits: the completed flag of the record
   * for (habit, date). Keying the map by the pair is the uniqueness of
   * (habit, date): there is at most one record per pair.
   */
  type CompletionKey = (HabitId, Day)
  type Completions = map<CompletionKey, bool>

  /** The declared default frequency is one of the declared choices. */
  lemma DefaultFrequencyIsAChoice()
    ensures DEFAULT_FREQUENCY in FREQUENCY_CHOICES
    ensures FREQUENCY_CHOICES[0] == DEFAULT_FREQUENCY
  {
  }

  /**
   * The cascade from a habit to its completion records: deleting habit `id`
   * deletes exactly the records that reference it, and keeps every other
   * record with its flag.
   */
  function CascadeDelete(c: Completions, id: HabitId): (r: Completions)
    ensures forall k :: k in r <==> k in c && k.0 != id
    ensures forall k :: k in r ==> r[k] == c[k]
  {
    map k | k in c && k.0 != id :: c[k]
  }
}
