/** Histories, newest event last. */
module Histories {

  function Last<T>(h: seq<T>): T
    requires h != []
  {
    h[|h| - 1]
  }

  function Before<T>(h: seq<T>): seq<T>
    requires h != []
  {
    h[..|h| - 1]
  }
}
