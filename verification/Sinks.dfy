/** A destination that takes whole items one after another: a file descriptor for packets, a socket for frames. */
module Sinks {

  /** Which write attempts succeed is up to the system, so it is an arbitrary function; none does once closed. */
  class Sink<T> {
    const accepts: nat -> bool
    var attempts: nat
    var written: seq<T>
    var closes: nat    // how often it has been closed

    constructor (accepts: nat -> bool)
      ensures this.accepts == accepts && attempts == 0 && written == [] && closes == 0
    {
      this.accepts, attempts, written, closes := accepts, 0, [], 0;
    }

    method Write(x: T) returns (ok: bool)
      modifies this`attempts, this`written
      ensures ok == (closes == 0 && accepts(old(attempts))) && attempts == old(attempts) + 1
      ensures written == if ok then old(written) + [x] else old(written)
    {
      ok := closes == 0 && accepts(attempts);
      attempts := attempts + 1;
      if ok {
        written := written + [x];
      }
    }

    method Close()
      modifies this`closes
      ensures closes == old(closes) + 1
    {
      closes := closes + 1;
    }
  }
}
