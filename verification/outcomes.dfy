/** Shared result shapes of the kiosk's operations.

    Every user action of the kiosk either replaces the session state or shows a
    short status message and leaves the state as it was. The model returns the
    new state as `Ok` and the reason for leaving it alone as `Rejected`.
 */
module Outcomes {

  /** A value that may be missing (a `null` timestamp, a failed lookup). */
  datatype Option<+T> = None | Some(value: T)

  /** Why an operation left the night unchanged. */
  datatype Rejection =
    | BlankName      // the trimmed name is empty
    | NoGender       // no gender option was chosen
    | Throttled      // the sign-up cooldown has not yet run out
    | DuplicateName  // the normalized name is already taken in the relevant scope
    | CapReached     // a male-ish replacement would exceed the window's cap
    | NoCandidates   // no signup survives the reroll filter
    | EmptyPool      // nobody is available for a draw
    | EmptyWindow    // a reroll was asked of a window with no assignments

  /** The outcome of an operation on the session state. */
  datatype Result<+T> = Ok(value: T) | Rejected(why: Rejection) {

    /** The new state, or `fallback` (the unchanged state) on a rejection. */
    function ValueOr(fallback: T): T {
      match this
      case Ok(v) => v
      case Rejected(_) => fallback
    }
  }

  function Min(a: int, b: int): int {
    if a <= b then a else b
  }

  function Max(a: int, b: int): int {
    if a <= b then b else a
  }
}
