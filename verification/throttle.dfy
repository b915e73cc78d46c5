/**
  The bandwidth throttle of server/server.go: a channel of capacity one
  (`ch := make(chan int, 1)`) that a background goroutine keeps refilling,
  one token per tick, and from which every chunk write takes a token.

  Timing is not part of this model: a tick is a step of the producer, and
  a consumer that finds the channel empty waits for the next tick.
*/
module Throttle {

  /** The channel's capacity. */
  const Capacity: nat := 1

  class TokenChannel {
    /** Tokens in the channel's buffer. */
    var held: nat
    /** Tokens the producer has put in, ever. */
    var produced: nat
    /** Tokens consumers have taken out, ever. */
    var taken: nat
    /** `ff.t`: the producer's sleep between ticks, in microseconds. */
    var intervalMicros: int

    /** The buffer never holds more than one token, and no token is taken twice. */
    ghost predicate Valid()
      reads this
    {
      held <= Capacity && produced == taken + held
    }

    constructor (interval: int)
      ensures Valid() && held == 0 && produced == 0 && taken == 0
      ensures intervalMicros == interval
    {
      held, produced, taken := 0, 0, 0;
      intervalMicros := interval;
    }

    /**
      One step of the producer, `ch <- 0`: a token goes in when the buffer
      is empty; when it is full the send blocks and nothing changes.
    */
    method Tick()
      requires Valid()
      modifies this`held, this`produced
      ensures Valid()
      ensures held == 1
      ensures produced == old(produced) + (1 - old(held))
    {
      if held < Capacity {
        held := held + 1;
        produced := produced + 1;
      }
    }

    /** `<-ch`: wait for a token if there is none, then remove it. */
    method Take()
      requires Valid()
      modifies this`held, this`produced, this`taken
      ensures Valid()
      ensures held == 0
      ensures taken == old(taken) + 1
      ensures produced == old(produced) + (1 - old(held))
    {
      if held == 0 {
        Tick();
      }
      held := held - 1;
      taken := taken + 1;
    }

    /** The assignment to `ff.t` that a rate change makes. */
    method SetInterval(interval: int)
      modifies this`intervalMicros
      ensures intervalMicros == interval
    {
      intervalMicros := interval;
    }
  }
}
