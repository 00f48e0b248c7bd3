/** The retransmission timer (section 5 of RFC 6298). All its times are 64-bit. */
module Timers {
  import opened Widths

  datatype Timer = Timer(running: bool, elapsed: uint64, rto: uint64, initial: uint64) {
    function Start(): Timer {
      if running then this else Timer(true, 0, initial, initial)
    }

    function Stop(): Timer {
      this.(running := false)
    }

    /** Twice the timeout, modulo 2^64, counted from zero again. */
    function BackOff(): Timer {
      this.(rto := rto * 2 % TWO64, elapsed := 0)
    }

    function Reset(rto: uint64): Timer {
      this.(rto := rto, elapsed := 0)
    }

    function Pass(ms: uint64): Timer {
      if running then this.(elapsed := (elapsed + ms) % TWO64) else this
    }

    predicate Expired() {
      running && elapsed >= rto
    }
  }

  function Idle(initial: uint64): Timer {
    Timer(false, 0, initial, initial)
  }

  class RetransmissionTimer {
    var isRunning: bool
    var accumulateTime: uint64
    var rto: uint64
    const initRto: uint64

    ghost function Model(): Timer
      reads this
    {
      Timer(isRunning, accumulateTime, rto, initRto)
    }

    constructor (timeout: uint64)
      ensures Model() == Idle(timeout)
    {
      isRunning, accumulateTime, rto, initRto := false, 0, timeout, timeout;
    }

    method StartTimer()
      modifies this
      ensures Model() == old(Model()).Start()
    {
      if !isRunning {
        isRunning, rto, accumulateTime := true, initRto, 0;
      }
    }

    method StopTimer()
      modifies this
      ensures Model() == old(Model()).Stop()
    {
      if isRunning {
        isRunning := false;
      }
    }

    method HandleTimeout()
      modifies this
      ensures Model() == old(Model()).BackOff()
    {
      rto := rto * 2 % TWO64;
      accumulateTime := 0;
    }

    method CheckTimeout(ms: uint64) returns (expired: bool)
      modifies this
      ensures Model() == old(Model()).Pass(ms)
      ensures expired == Model().Expired()
    {
      if isRunning {
        accumulateTime := (accumulateTime + ms) % TWO64;
        return accumulateTime >= rto;
      }
      return false;
    }

    method SetTimeout(t: uint64)
      modifies this
      ensures Model() == old(Model()).(rto := t)
    {
      rto := t;
    }

    method SetAccumulateTime(t: uint64)
      modifies this
      ensures Model() == old(Model()).(elapsed := t)
    {
      accumulateTime := t;
    }
  }
}
