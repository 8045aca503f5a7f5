/** The two ways a Go call in the server can end: it returns a value, or it
    panics (a slice index out of range, a nil pointer dereference), which
    unwinds the request's goroutine before any further effect. */
module Outcomes {

  datatype Outcome<+T> = Panic | Done(value: T)
}
