/**
 * What the components report back to the user and what they receive from the
 * hosted store, reduced to success or failure.
 */
module Feedback {

  /** A toast: a success or an error message. */
  datatype Notice = Info(message: string) | Error(message: string)

  /** The store's answer to an insert or a delete request. */
  datatype StoreReply = Done | Failed(message: string)

  /** The error's own message, or the component's default text when that message is empty. */
  function MessageOr(message: string, fallback: string): (r: string)
    ensures message != [] ==> r == message
    ensures message == [] ==> r == fallback
  {
    if message != [] then message else fallback
  }
}
