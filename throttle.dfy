/** The check throttle of the order pages: the session remembers when the
    pending orders were last checked (`orders_checked`), a page visit runs
    the evaluation pass only when more than 120 seconds have passed since
    then, and a visit that runs it stores the visit's time. A session that
    has no stamp yet is given "now - 120", read from the clock just before
    the visit's own reading. */
module Throttle {
  import opened Common

  /** Seconds that must pass between two checks. */
  const CheckInterval: real := 120.0

  /** The stamp a visit compares against: the stored one, or the one a new
      session is given from the clock reading `initNow`. */
  function Stamp(stored: Option<real>, initNow: real): real
  {
    if stored.Some? then stored.value else initNow - CheckInterval
  }

  /** Whether a visit at clock time `now` runs the evaluation pass. */
  predicate Due(stored: Option<real>, initNow: real, now: real)
  {
    now - Stamp(stored, initNow) > CheckInterval
  }

  /** The session's `orders_checked` entry. */
  class SessionClock {
    var ordersChecked: Option<real>

    constructor ()
      ensures ordersChecked == None
    {
      ordersChecked := None;
    }

    /** One page visit: `initNow` is the clock reading used to initialise a
        missing stamp and `now` the reading taken for the comparison. */
    method Poll(initNow: real, now: real) returns (due: bool)
      modifies this
      ensures old(ordersChecked).Some? ==> (due <==> now - old(ordersChecked).value > CheckInterval)
      ensures old(ordersChecked).None? ==> (due <==> now > initNow)
      ensures ordersChecked == Some(if due then now else Stamp(old(ordersChecked), initNow))
    {
      if ordersChecked.None? {
        ordersChecked := Some(initNow - CheckInterval);
      }
      due := now - ordersChecked.value > CheckInterval;
      if due {
        ordersChecked := Some(now);
      }
    }
  }

  /** The clock readings of the visits at which the pass ran, for visits
      at the times `visits`, starting from the stamp `stamp`. */
  function Runs(stamp: real, visits: seq<real>): seq<real>
    decreases |visits|
  {
    if visits == [] then []
    else if visits[0] - stamp > CheckInterval then [visits[0]] + Runs(visits[0], visits[1..])
    else Runs(stamp, visits[1..])
  }

  /** Visits at the clock times `visits`, one `Poll` each, on one session
      clock; `initNow` is the reading that sets up a missing stamp. The
      visits at which the pass runs are `Runs` from the stamp. */
  method Visits(clock: SessionClock, initNow: real, visits: seq<real>) returns (runs: seq<real>)
    modifies clock
    ensures runs == Runs(Stamp(old(clock.ordersChecked), initNow), visits)
  {
    runs := [];
    var i := 0;
    while i < |visits|
      invariant 0 <= i <= |visits|
      invariant runs + Runs(Stamp(clock.ordersChecked, initNow), visits[i..]) == Runs(Stamp(old(clock.ordersChecked), initNow), visits)
    {
      var stamp := Stamp(clock.ordersChecked, initNow);
      assert visits[i..][0] == visits[i] && visits[i..][1..] == visits[i + 1..];
      var due := clock.Poll(initNow, visits[i]);
      if due {
        runs := runs + [visits[i]];
      }
      i := i + 1;
    }
  }

  /** Over any sequence of visits, every run is a visit more than 120 s
      after the previous run (or after the initial stamp), so the pass runs
      at most once in any 120-second window. */
  lemma {:induction false} RunsAreSpaced(stamp: real, visits: seq<real>)
    decreases |visits|
    ensures var r := Runs(stamp, visits);
      && (forall i :: 0 <= i < |r| ==> r[i] in visits)
      && (|r| > 0 ==> r[0] - stamp > CheckInterval)
      && (forall i :: 0 < i < |r| ==> r[i] - r[i - 1] > CheckInterval)
  {
    if visits != [] {
      var r := Runs(stamp, visits);
      if visits[0] - stamp > CheckInterval {
        var rest := Runs(visits[0], visits[1..]);
        RunsAreSpaced(visits[0], visits[1..]);
        assert r == [visits[0]] + rest;
        forall i | 0 < i < |r| ensures r[i] - r[i - 1] > CheckInterval {
          assert r[i] == rest[i - 1];
          if i > 1 {
            assert r[i - 1] == rest[i - 2];
          }
        }
      } else {
        RunsAreSpaced(stamp, visits[1..]);
      }
    }
  }

  /** No late visit is skipped: the first run is the first visit more than
      120 s past the stamp. */
  lemma {:induction false} FirstRunIsFirstLateVisit(stamp: real, visits: seq<real>)
    decreases |visits|
    ensures forall i :: 0 <= i < |visits| && visits[i] - stamp > CheckInterval && (forall k :: 0 <= k < i ==> visits[k] - stamp <= CheckInterval) ==>
      |Runs(stamp, visits)| > 0 && Runs(stamp, visits)[0] == visits[i]
  {
    if visits != [] {
      if visits[0] - stamp <= CheckInterval {
        FirstRunIsFirstLateVisit(stamp, visits[1..]);
        forall i | 0 <= i < |visits| && visits[i] - stamp > CheckInterval && (forall k :: 0 <= k < i ==> visits[k] - stamp <= CheckInterval)
          ensures |Runs(stamp, visits)| > 0 && Runs(stamp, visits)[0] == visits[i]
        {
          assert i > 0;
          assert visits[1..][i - 1] == visits[i];
          forall k | 0 <= k < i - 1 ensures visits[1..][k] - stamp <= CheckInterval {
            assert visits[1..][k] == visits[k + 1];
          }
        }
      }
    }
  }
}
