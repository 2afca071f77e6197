/** The page count of a category, read from its landing page. */
module Pagination {
  import opened Wrappers

  /** The "last page" pagination control as the bounded wait finds it:
      absent, or present with a text that `int()` parses (`Some(n)`) or
      rejects (`None`). */
  datatype LastPageControl = Absent | Present(number: Option<int>)

  /** `request_page_count` as written: without a driver it raises
      `ValueError`; the only `return` sits inside the `except` branch, so a
      control that parses falls off the end of the function and yields
      `None`. */
  function PageCountAsWritten(hasDriver: bool, control: LastPageControl): Result<Option<int>, Exception> {
    if !hasDriver then
      Failure(ValueError)
    else
      match control
      case Present(Some(_)) => Success(None)
      case _ => Success(Some(1))
  }

  /** The page count the function evidently means to return: the number the
      control shows, or 1 when the control is missing or unreadable. */
  function PageCount(hasDriver: bool, control: LastPageControl): Result<int, Exception> {
    if !hasDriver then
      Failure(ValueError)
    else
      match control
      case Present(Some(n)) => Success(n)
      case _ => Success(1)
  }

  /** A landing page whose control shows a page number makes the function as
      written return `None` instead of that number. */
  lemma AsWrittenDropsPageNumber(n: int)
    ensures PageCountAsWritten(true, Present(Some(n))) == Success(None)
    ensures PageCount(true, Present(Some(n))) == Success(n)
  {
  }

  /** The corrected count always answers with an integer once a driver is
      set, defaulting to 1 exactly when no number could be read; it agrees
      with the function as written wherever that one returns a number. */
  lemma PageCountContract(hasDriver: bool, control: LastPageControl)
    ensures PageCount(hasDriver, control).Success? <==> hasDriver
    ensures PageCountAsWritten(hasDriver, control).Success? <==> hasDriver
    ensures !hasDriver ==>
      PageCount(hasDriver, control) == Failure(ValueError)
      && PageCountAsWritten(hasDriver, control) == Failure(ValueError)
    ensures hasDriver && !(control.Present? && control.number.Some?) ==> PageCount(hasDriver, control) == Success(1)
    ensures hasDriver && control.Present? && control.number.Some?
      ==> PageCount(hasDriver, control) == Success(control.number.value)
    ensures PageCountAsWritten(hasDriver, control) == Success(None)
      <==> hasDriver && control.Present? && control.number.Some?
    ensures PageCountAsWritten(hasDriver, control).Success? && PageCountAsWritten(hasDriver, control).value.Some?
      ==> PageCount(hasDriver, control) == Success(PageCountAsWritten(hasDriver, control).value.value)
  {
  }
}
