/** Contexts and timers: things that end once, at a moment no one here decides. */
module Contexts {

  datatype ContextErr = Open | DeadlineExceeded | Interrupted

  /** A context: at any moment it may end, once and for good, by its deadline or by its caller. */
  class Context {
    var err: ContextErr

    constructor ()
      ensures err == Open
    {
      err := Open;
    }

    method Elapse()
      modifies this
      ensures old(err) != Open ==> err == old(err)
    {
      var next: ContextErr := *;
      if err == Open {
        err := next;
      }
    }

    /** What a blocked wait comes to at the latest. */
    method Expire()
      modifies this
      ensures err == if old(err) == Open then DeadlineExceeded else old(err)
    {
      if err == Open {
        err := DeadlineExceeded;
      }
    }
  }
}
