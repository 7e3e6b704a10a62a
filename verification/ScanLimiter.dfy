/** The rolling-minute limiter of `vars scan` (src/cli/vars.rs, `scan_rate_take`). */
module ScanLimiter {

  const SCAN_MAX_PER_MINUTE: nat := 60
  const WINDOW_MS: int := 60_000

  /** The stamps a decision at `now` still counts. */
  function Recent(stamps: seq<int>, now: int): seq<int> {
    if stamps == [] then []
    else
      var n := |stamps| - 1;
      Recent(stamps[..n], now) + if now - stamps[n] < WINDOW_MS then [stamps[n]] else []
  }

  class RateFile {
    /** The persisted stamps, oldest first. */
    var stamps: seq<int>

    constructor (stamps: seq<int>)
      ensures this.stamps == stamps
    {
      this.stamps := stamps;
    }

    /** `scan_rate_take`: filter, refuse or push, rewrite. */
    method Take(now: int) returns (ok: bool)
      modifies this
      ensures ok == Admits(old(stamps), now)
      ensures stamps == After(old(stamps), now)
    {
      var kept: seq<int> := [];
      for i := 0 to |stamps|
        invariant stamps == old(stamps)
        invariant kept == Recent(stamps[..i], now)
      {
        assert stamps[..i + 1][..i] == stamps[..i];
        if now - stamps[i] < WINDOW_MS {
          kept := kept + [stamps[i]];
        }
      }
      assert stamps[..|stamps|] == stamps;
      if |kept| >= SCAN_MAX_PER_MINUTE {
        return false;
      }
      stamps := kept + [now];
      ok := true;
    }
  }

  predicate Admits(stamps: seq<int>, now: int) {
    |Recent(stamps, now)| < SCAN_MAX_PER_MINUTE
  }

  function After(stamps: seq<int>, now: int): seq<int> {
    if Admits(stamps, now) then Recent(stamps, now) + [now] else stamps
  }

  // ---------------------------------------------------------------------
  // Runs of sequential calls
  // ---------------------------------------------------------------------

  /** The stamps on file after the calls at `times`, from an empty file. */
  function Stored(times: seq<int>): seq<int> {
    if times == [] then [] else After(Stored(times[..|times| - 1]), times[|times| - 1])
  }

  /** The times of the calls that were admitted. */
  function Admitted(times: seq<int>): seq<int> {
    if times == [] then []
    else
      var n := |times| - 1;
      Admitted(times[..n]) + if Admits(Stored(times[..n]), times[n]) then [times[n]] else []
  }

  predicate NonDecreasing(times: seq<int>) {
    forall i, j :: 0 <= i <= j < |times| ==> times[i] <= times[j]
  }

  /** How many of `stamps` fall into the window of one minute from `from`. */
  function InWindow(stamps: seq<int>, from: int): nat {
    if stamps == [] then 0
    else
      var n := |stamps| - 1;
      InWindow(stamps[..n], from) + if from <= stamps[n] < from + 60_000 then 1 else 0
  }

  lemma RecentSnoc(stamps: seq<int>, t: int, now: int)
    ensures Recent(stamps + [t], now) == Recent(stamps, now) + if now - t < WINDOW_MS then [t] else []
  {
    assert (stamps + [t])[..|stamps|] == stamps;
  }

  /** Filtering earlier does not matter to a later filter. */
  lemma {:induction false} RecentOfRecent(stamps: seq<int>, now: int, later: int)
    requires now <= later
    ensures Recent(Recent(stamps, now), later) == Recent(stamps, later)
  {
    if stamps != [] {
      var n := |stamps| - 1;
      RecentOfRecent(stamps[..n], now, later);
      if now - stamps[n] < WINDOW_MS {
        RecentSnoc(Recent(stamps[..n], now), stamps[n], later);
      } else {
        assert Recent(stamps, now) == Recent(stamps[..n], now);
      }
    }
  }

  /** For every later decision the file is as good as the full list of admitted calls. */
  lemma {:induction false} StoredIsSufficient(times: seq<int>, later: int)
    requires NonDecreasing(times)
    requires times != [] ==> times[|times| - 1] <= later
    ensures Recent(Stored(times), later) == Recent(Admitted(times), later)
  {
    if times != [] {
      var n := |times| - 1;
      var before, now := times[..n], times[n];
      assert n > 0 ==> times[n - 1] <= times[n];
      StoredIsSufficient(before, later);
      if Admits(Stored(before), now) {
        RecentSnoc(Recent(Stored(before), now), now, later);
        RecentOfRecent(Stored(before), now, later);
        RecentSnoc(Admitted(before), now, later);
      } else {
        assert Admitted(times) == Admitted(before);
      }
    }
  }

  /** After an admitted call the file holds exactly the admitted calls of the last minute. */
  lemma StoredAfterAdmission(times: seq<int>, now: int)
    requires NonDecreasing(times + [now]) && Admits(Stored(times), now)
    ensures Stored(times + [now]) == Recent(Admitted(times + [now]), now)
  {
    assert (times + [now])[..|times|] == times;
    assert NonDecreasing(times) by {
      assert forall i :: 0 <= i < |times| ==> times[i] == (times + [now])[i];
    }
    assert times != [] ==> (times + [now])[|times| - 1] <= (times + [now])[|times|];
    StoredIsSufficient(times, now);
    RecentSnoc(Admitted(times), now, now);
  }

  lemma {:induction false} AdmittedAreCalls(times: seq<int>, bound: int)
    requires forall i :: 0 <= i < |times| ==> times[i] <= bound
    ensures forall i :: 0 <= i < |Admitted(times)| ==> Admitted(times)[i] <= bound
  {
    if times != [] {
      AdmittedAreCalls(times[..|times| - 1], bound);
    }
  }

  /** A window that reaches up to `now` sees no more than the last minute before `now`. */
  lemma {:induction false} WindowWithinRecent(stamps: seq<int>, from: int, now: int)
    requires from <= now < from + WINDOW_MS
    ensures InWindow(stamps, from) <= |Recent(stamps, now)|
    ensures from == now - WINDOW_MS + 1 && (forall i :: 0 <= i < |stamps| ==> stamps[i] <= now) ==>
              InWindow(stamps, from) == |Recent(stamps, now)|
  {
    if stamps != [] {
      WindowWithinRecent(stamps[..|stamps| - 1], from, now);
    }
  }

  /** A call is admitted exactly when fewer than 60 calls were admitted in the minute that ends with it. */
  lemma AdmissionIsExact(times: seq<int>, now: int)
    requires NonDecreasing(times)
    requires times != [] ==> times[|times| - 1] <= now
    ensures Admits(Stored(times), now) <==> InWindow(Admitted(times), now - 59_999) < 60
  {
    StoredIsSufficient(times, now);
    AdmittedAreCalls(times, now);
    WindowWithinRecent(Admitted(times), now - WINDOW_MS + 1, now);
  }

  /** No window of 60,000 ms ever holds more than 60 admitted calls. */
  lemma {:induction false} AtMostSixtyPerWindow(times: seq<int>, from: int)
    requires NonDecreasing(times)
    ensures InWindow(Admitted(times), from) <= 60
  {
    if times != [] {
      var n := |times| - 1;
      var before, now := times[..n], times[n];
      AtMostSixtyPerWindow(before, from);
      assert n > 0 ==> times[n - 1] <= times[n];
      if Admits(Stored(before), now) {
        assert Admitted(times)[..|Admitted(before)|] == Admitted(before);
        StoredIsSufficient(before, now);
        if from <= now < from + WINDOW_MS {
          WindowWithinRecent(Admitted(before), from, now);
        }
      } else {
        assert Admitted(times) == Admitted(before);
      }
    }
  }
}
