/**
 * The home page's week navigation: the shown week starts at this week's
 * number and is stepped back and forward by the two arrow buttons, inside a
 * window of `maxWeeks` weeks from this week.
 */
module HomePage {
  import Utils

  /**
   * The back button: only a week after this week's number steps back; inside
   * a window within one year, it moves one week back until this week.
   */
  function Back(week: int, currentWeekNumber: int, maxWeeks: int): (r: int)
    ensures week <= currentWeekNumber ==> r == week
    ensures 1 <= currentWeekNumber && currentWeekNumber + maxWeeks <= Utils.MaxWeeksYear &&
            InWindow(week, currentWeekNumber, maxWeeks) ==>
              r == if currentWeekNumber < week then week - 1 else week
  {
    if currentWeekNumber < week then Utils.PreviousWeek(week, maxWeeks, currentWeekNumber, currentWeekNumber) else week
  }

  /**
   * The forward button: inside a window within one year, it moves one week
   * on until the window's last week.
   */
  function Forward(week: int, currentWeekNumber: int, maxWeeks: int): (r: int)
    ensures 1 <= currentWeekNumber && currentWeekNumber + maxWeeks <= Utils.MaxWeeksYear &&
            InWindow(week, currentWeekNumber, maxWeeks) ==>
              r == if week < currentWeekNumber + maxWeeks then week + 1 else week
  {
    Utils.NextWeek(week, maxWeeks, currentWeekNumber, currentWeekNumber)
  }

  /** The shown week lies between this week and `maxWeeks` weeks ahead. */
  predicate InWindow(week: int, currentWeekNumber: int, maxWeeks: int) {
    currentWeekNumber <= week <= currentWeekNumber + maxWeeks
  }

  /**
   * When the window does not reach past week 52, both buttons keep the shown
   * week inside it: back never goes before this week, forward never past the
   * last week of the window.
   */
  lemma ButtonsKeepWindow(week: int, currentWeekNumber: int, maxWeeks: int)
    requires 1 <= currentWeekNumber && 0 <= maxWeeks && currentWeekNumber + maxWeeks <= Utils.MaxWeeksYear
    requires InWindow(week, currentWeekNumber, maxWeeks)
    ensures InWindow(Back(week, currentWeekNumber, maxWeeks), currentWeekNumber, maxWeeks)
    ensures InWindow(Forward(week, currentWeekNumber, maxWeeks), currentWeekNumber, maxWeeks)
  {
  }

  /** Forward then back returns to the same week, below the window's end. */
  lemma BackUndoesForward(week: int, currentWeekNumber: int, maxWeeks: int)
    requires 1 <= currentWeekNumber && currentWeekNumber + maxWeeks <= Utils.MaxWeeksYear
    requires currentWeekNumber <= week < currentWeekNumber + maxWeeks
    ensures Back(Forward(week, currentWeekNumber, maxWeeks), currentWeekNumber, maxWeeks) == week
  {
    Utils.PreviousUndoesNext(week, maxWeeks, currentWeekNumber, currentWeekNumber);
  }

  /** Back then forward returns to the same week, after this week. */
  lemma ForwardUndoesBack(week: int, currentWeekNumber: int, maxWeeks: int)
    requires 1 <= currentWeekNumber && 0 < maxWeeks && currentWeekNumber + maxWeeks <= Utils.MaxWeeksYear
    requires currentWeekNumber < week <= currentWeekNumber + maxWeeks
    ensures Forward(Back(week, currentWeekNumber, maxWeeks), currentWeekNumber, maxWeeks) == week
  {
  }

  /**
   * Once forward wraps from week 52 to week 1, back is stuck: week 1 is never
   * after this week's number.
   */
  lemma WrapBlocksBack(currentWeekNumber: int, maxWeeks: int)
    requires 1 <= currentWeekNumber && 0 < maxWeeks && Utils.MaxWeeksYear < currentWeekNumber + maxWeeks
    ensures Forward(Utils.MaxWeeksYear, currentWeekNumber, maxWeeks) == 1
    ensures Back(1, currentWeekNumber, maxWeeks) == 1
  {
  }

  /** `Home`'s week state; `currentWeekNumber` and `maxWeeks` are fixed for the page's life. */
  class WeekNavigator {
    const currentWeekNumber: int
    const maxWeeks: int
    var currentWeek: int

    /** The shown week starts at this week's number. */
    constructor(currentWeekNumber: int, maxWeeks: int)
      ensures this.currentWeekNumber == currentWeekNumber && this.maxWeeks == maxWeeks
      ensures currentWeek == currentWeekNumber
    {
      this.currentWeekNumber := currentWeekNumber;
      this.maxWeeks := maxWeeks;
      currentWeek := currentWeekNumber;
    }

    /** The window the buttons keep the week in, when the window lies inside one year. */
    predicate Valid()
      reads this
    {
      1 <= currentWeekNumber && 0 <= maxWeeks && currentWeekNumber + maxWeeks <= Utils.MaxWeeksYear &&
      InWindow(currentWeek, currentWeekNumber, maxWeeks)
    }

    /** The left arrow. */
    method StepBack()
      modifies this
      ensures currentWeek == Back(old(currentWeek), currentWeekNumber, maxWeeks)
      ensures old(Valid()) ==> Valid()
      ensures old(Valid()) ==> currentWeek == if currentWeekNumber < old(currentWeek) then old(currentWeek) - 1 else old(currentWeek)
    {
      if Valid() {
        ButtonsKeepWindow(currentWeek, currentWeekNumber, maxWeeks);
      }
      if currentWeekNumber < currentWeek {
        currentWeek := Utils.PreviousWeek(currentWeek, maxWeeks, currentWeekNumber, currentWeekNumber);
      }
    }

    /** The right arrow. */
    method StepForward()
      modifies this
      ensures currentWeek == Forward(old(currentWeek), currentWeekNumber, maxWeeks)
      ensures old(Valid()) ==> Valid()
      ensures old(Valid()) ==>
                currentWeek == if old(currentWeek) < currentWeekNumber + maxWeeks then old(currentWeek) + 1 else old(currentWeek)
    {
      if Valid() {
        ButtonsKeepWindow(currentWeek, currentWeekNumber, maxWeeks);
      }
      currentWeek := Utils.NextWeek(currentWeek, maxWeeks, currentWeekNumber, currentWeekNumber);
    }
  }
}
