/** The sliding window counter: a pruned list of grant times. */
module SlidingWindow {
  import opened Prelude

  /** The times in the closed interval from `lo` to `hi`. */
  function Inside(times: seq<real>, lo: real, hi: real): seq<real> {
    if times == [] then []
    else (if lo <= times[0] <= hi then [times[0]] else []) + Inside(times[1..], lo, hi)
  }

  /** The times at or after `lo`. */
  function Since(times: seq<real>, lo: real): seq<real> {
    if times == [] then []
    else (if lo <= times[0] then [times[0]] else []) + Since(times[1..], lo)
  }

  /** Drop the leading times before `cutoff`. */
  function Pruned(times: seq<real>, cutoff: real): seq<real> {
    if times != [] && times[0] < cutoff then Pruned(times[1..], cutoff) else times
  }

  datatype Window = Window(maxRequests: int, seconds: real)

  /** One request: the list after it, whether it is granted, and the reported count. */
  function Allow(w: Window, times: seq<real>, now: real): (seq<real>, bool, int) {
    var kept := Pruned(times, now - w.seconds);
    if |kept| >= w.maxRequests then (kept, false, |kept|) else (kept + [now], true, |kept| + 1)
  }

  /** The object, with the history of all its grants as a ghost. */
  class SlidingWindowCounter {
    const w: Window
    var timestamps: seq<real>
    ghost var granted: seq<real>

    constructor (w: Window)
      ensures this.w == w && timestamps == [] && granted == []
    {
      this.w := w;
      timestamps := [];
      granted := [];
    }

    method Ask(now: real) returns (allowed: bool, count: int)
      modifies this
      ensures (timestamps, allowed, count) == Allow(w, old(timestamps), now)
      ensures granted == old(granted) + if allowed then [now] else []
    {
      var cutoff := now - w.seconds;
      while timestamps != [] && timestamps[0] < cutoff
        invariant granted == old(granted)
        invariant Pruned(timestamps, cutoff) == Pruned(old(timestamps), cutoff)
        decreases |timestamps|
      {
        timestamps := timestamps[1..];
      }
      var currentCount := |timestamps|;
      if currentCount >= w.maxRequests {
        return false, currentCount;
      }
      timestamps := timestamps + [now];
      granted := granted + [now];
      return true, currentCount + 1;
    }
  }

  // ----- Runs -----

  /** The list the counter keeps and, as the reference, every grant ever made. */
  datatype State = State(kept: seq<real>, granted: seq<real>)

  function Step(w: Window, st: State, now: real): State {
    var (kept, ok, _) := Allow(w, st.kept, now);
    State(kept, st.granted + if ok then [now] else [])
  }

  function Run(w: Window, asks: seq<real>): State {
    if asks == [] then State([], []) else Step(w, Run(w, asks[..|asks| - 1]), asks[|asks| - 1])
  }

  predicate AllUpTo(times: seq<real>, now: real) {
    forall i | 0 <= i < |times| :: times[i] <= now
  }

  /** What every run keeps: the kept list is sorted and consists of all grants since some time that the window
      has left behind, and every closed window holds at most `maxRequests` grants. */
  ghost predicate Exact(w: Window, st: State, now: real) {
    && Sorted(st.kept) && AllUpTo(st.kept, now) && AllUpTo(st.granted, now)
    && (w.seconds >= 0.0 ==> exists c :: KeptSince(w, st, now, c))
    && Bounded(w, st.granted)
  }

  predicate KeptSince(w: Window, st: State, now: real, c: real) {
    c <= now - w.seconds && st.kept == Since(st.granted, c)
  }

  ghost predicate Bounded(w: Window, granted: seq<real>) {
    forall t :: GrantsEnding(w, granted, t) <= if w.maxRequests > 0 then w.maxRequests else 0
  }

  /** How many grants lie in the closed window of the configured length that ends at `t`. */
  function GrantsEnding(w: Window, granted: seq<real>, t: real): nat {
    |Inside(granted, t - w.seconds, t)|
  }

  // ----- Lists of times -----

  lemma {:induction false} SinceTwice(times: seq<real>, c: real, lo: real)
    requires c <= lo
    ensures Since(Since(times, c), lo) == Since(times, lo)
    decreases |times|
  {
    if times != [] {
      SinceTwice(times[1..], c, lo);
      if c <= times[0] {
        SinceCons(times[0], Since(times[1..], c), lo);
      } else {
        assert [] + Since(times[1..], c) == Since(times[1..], c);
        assert [] + Since(times[1..], lo) == Since(times[1..], lo);
      }
    }
  }

  lemma SinceCons(x: real, rest: seq<real>, lo: real)
    ensures Since([x] + rest, lo) == (if lo <= x then [x] else []) + Since(rest, lo)
  {
    assert ([x] + rest)[1..] == rest;
  }

  lemma {:induction false} SinceAppend(times: seq<real>, x: real, lo: real)
    ensures Since(times + [x], lo) == Since(times, lo) + if lo <= x then [x] else []
    decreases |times|
  {
    if times == [] {
      assert times + [x] == [x] + [];
      SinceCons(x, [], lo);
    } else {
      assert times + [x] == [times[0]] + (times[1..] + [x]);
      SinceCons(times[0], times[1..] + [x], lo);
      SinceAppend(times[1..], x, lo);
    }
  }

  lemma {:induction false} SinceAll(times: seq<real>, lo: real)
    requires forall i | 0 <= i < |times| :: lo <= times[i]
    ensures Since(times, lo) == times
    decreases |times|
  {
    if times != [] {
      SinceAll(times[1..], lo);
    }
  }

  /** Dropping the leading old times of a sorted list drops all old times. */
  lemma {:induction false} PrunedIsSince(times: seq<real>, cutoff: real)
    requires Sorted(times)
    ensures Pruned(times, cutoff) == Since(times, cutoff)
    decreases |times|
  {
    if times != [] {
      if times[0] < cutoff {
        PrunedIsSince(times[1..], cutoff);
      } else {
        SinceAll(times, cutoff);
      }
    }
  }

  lemma {:induction false} PrunedSorted(times: seq<real>, cutoff: real, now: real)
    requires Sorted(times) && AllUpTo(times, now)
    ensures Sorted(Pruned(times, cutoff)) && AllUpTo(Pruned(times, cutoff), now)
    decreases |times|
  {
    if times != [] && times[0] < cutoff {
      PrunedSorted(times[1..], cutoff, now);
    }
  }

  lemma {:induction false} PrunedEverything(times: seq<real>, cutoff: real)
    requires forall i | 0 <= i < |times| :: times[i] < cutoff
    ensures Pruned(times, cutoff) == []
    decreases |times|
  {
    if times != [] {
      PrunedEverything(times[1..], cutoff);
    }
  }

  lemma {:induction false} InsideIsSince(times: seq<real>, lo: real, hi: real)
    requires AllUpTo(times, hi)
    ensures Inside(times, lo, hi) == Since(times, lo)
    decreases |times|
  {
    if times != [] {
      InsideIsSince(times[1..], lo, hi);
    }
  }

  lemma {:induction false} InsideBackwards(times: seq<real>, lo: real, hi: real)
    requires hi < lo
    ensures Inside(times, lo, hi) == []
    decreases |times|
  {
    if times != [] {
      InsideBackwards(times[1..], lo, hi);
    }
  }

  lemma {:induction false} InsideAppend(times: seq<real>, x: real, lo: real, hi: real)
    ensures |Inside(times + [x], lo, hi)| == |Inside(times, lo, hi)| + if lo <= x <= hi then 1 else 0
    decreases |times|
  {
    if times == [] {
      assert (times + [x])[1..] == [];
    } else {
      assert (times + [x])[1..] == times[1..] + [x];
      InsideAppend(times[1..], x, lo, hi);
    }
  }

  /** For a list that ends by `now`, a window reaching past `now` holds no more than the one that ends there
      does, if it starts no earlier. */
  lemma {:induction false} InsideWider(times: seq<real>, lo: real, hi: real, lo': real, now: real)
    requires AllUpTo(times, now) && lo' <= lo
    ensures |Inside(times, lo, hi)| <= |Inside(times, lo', now)|
    decreases |times|
  {
    if times != [] {
      InsideWider(times[1..], lo, hi, lo', now);
    }
  }

  // ----- Every run is exact -----

  /** After pruning, the list is exactly the grants in the window that ends now. */
  lemma PrunedIsWindow(w: Window, st: State, before: real, now: real)
    requires Exact(w, st, before) && before <= now
    ensures Pruned(st.kept, now - w.seconds) == Inside(st.granted, now - w.seconds, now)
  {
    var cutoff := now - w.seconds;
    if w.seconds >= 0.0 {
      var c :| KeptSince(w, st, before, c);
      PrunedIsSince(st.kept, cutoff);
      SinceTwice(st.granted, c, cutoff);
      InsideIsSince(st.granted, cutoff, now);
    } else {
      PrunedEverything(st.kept, cutoff);
      InsideBackwards(st.granted, cutoff, now);
    }
  }

  lemma GrantStaysBounded(w: Window, granted: seq<real>, now: real)
    requires Bounded(w, granted) && AllUpTo(granted, now)
    requires GrantsEnding(w, granted, now) < w.maxRequests
    ensures Bounded(w, granted + [now])
  {
    forall t
      ensures GrantsEnding(w, granted + [now], t) <= w.maxRequests
    {
      assert GrantsEnding(w, granted, t) <= w.maxRequests;
      GrantCounted(w, granted, now, t);
    }
  }

  /** A window that a new grant falls into holds, besides it, no more than the window that ends with it. */
  lemma GrantCounted(w: Window, granted: seq<real>, now: real, t: real)
    requires AllUpTo(granted, now)
    ensures GrantsEnding(w, granted + [now], t)
         <= if t - w.seconds <= now <= t then GrantsEnding(w, granted, now) + 1 else GrantsEnding(w, granted, t)
  {
    InsideAppend(granted, now, t - w.seconds, t);
    if t - w.seconds <= now <= t {
      InsideWider(granted, t - w.seconds, t, now - w.seconds, now);
    }
  }

  lemma DenialStaysExact(w: Window, st: State, before: real, now: real)
    requires Exact(w, st, before) && before <= now
    ensures Exact(w, st.(kept := Pruned(st.kept, now - w.seconds)), now)
  {
    var st' := st.(kept := Pruned(st.kept, now - w.seconds));
    PrunedIsWindow(w, st, before, now);
    PrunedSorted(st.kept, now - w.seconds, now);
    InsideIsSince(st.granted, now - w.seconds, now);
    assert KeptSince(w, st', now, now - w.seconds);
  }

  lemma GrantStaysExact(w: Window, st: State, now: real)
    requires Exact(w, st, now) && GrantsEnding(w, st.granted, now) < w.maxRequests
    ensures Exact(w, State(st.kept + [now], st.granted + [now]), now)
  {
    GrantStaysBounded(w, st.granted, now);
    if w.seconds >= 0.0 {
      var c :| KeptSince(w, st, now, c);
      SinceAppend(st.granted, now, c);
      assert KeptSince(w, State(st.kept + [now], st.granted + [now]), now, c);
    }
  }

  lemma StepStaysExact(w: Window, st: State, before: real, now: real)
    requires Exact(w, st, before) && before <= now
    ensures Exact(w, Step(w, st, now), now)
  {
    var pruned := st.(kept := Pruned(st.kept, now - w.seconds));
    PrunedIsWindow(w, st, before, now);
    DenialStaysExact(w, st, before, now);
    StepIs(w, st, now);
    if GrantsEnding(w, st.granted, now) < w.maxRequests {
      GrantStaysExact(w, pruned, now);
    }
  }

  lemma StepIs(w: Window, st: State, now: real)
    ensures var pruned := Pruned(st.kept, now - w.seconds);
      Step(w, st, now) == if |pruned| < w.maxRequests then State(pruned + [now], st.granted + [now])
                          else st.(kept := pruned)
  {
    assert st.granted + [] == st.granted;
  }

  lemma ExactLater(w: Window, st: State, before: real, now: real)
    requires Exact(w, st, before) && before <= now
    ensures Exact(w, st, now)
  {
    if w.seconds >= 0.0 {
      var c :| KeptSince(w, st, before, c);
      assert KeptSince(w, st, now, c);
    }
  }

  /** On every run with a non-decreasing clock, any closed window holds at most `maxRequests` grants. */
  lemma {:induction false} RunIsExact(w: Window, asks: seq<real>, now: real)
    requires Sorted(asks) && AllUpTo(asks, now)
    ensures Exact(w, Run(w, asks), now)
    decreases |asks|
  {
    if asks == [] {
      EmptyIsExact(w, now);
    } else {
      var n := |asks| - 1;
      RunIsExact(w, asks[..n], asks[n]);
      StepStaysExact(w, Run(w, asks[..n]), asks[n], asks[n]);
      ExactLater(w, Run(w, asks), asks[n], now);
    }
  }

  lemma EmptyIsExact(w: Window, now: real)
    ensures Exact(w, State([], []), now)
  {
    assert KeptSince(w, State([], []), now, now - w.seconds);
  }

  /** The next request is denied exactly when that many grants already lie in the window that ends now; the kept
      list is those grants, the new one included, and the count reported is its length. */
  lemma DenialIsExact(w: Window, asks: seq<real>, now: real)
    requires Sorted(asks) && AllUpTo(asks, now)
    ensures var recent := Inside(Run(w, asks).granted, now - w.seconds, now);
      var (kept, ok, count) := Allow(w, Run(w, asks).kept, now);
      && (ok <==> |recent| < w.maxRequests)
      && kept == recent + (if ok then [now] else [])
      && count == |kept|
  {
    RunIsExact(w, asks, now);
    PrunedIsWindow(w, Run(w, asks), now, now);
    AllowFrom(w, Run(w, asks).kept, now);
  }

  lemma AllowFrom(w: Window, times: seq<real>, now: real)
    ensures var pruned := Pruned(times, now - w.seconds);
      var (kept, ok, count) := Allow(w, times, now);
      && (ok <==> |pruned| < w.maxRequests)
      && kept == pruned + (if ok then [now] else [])
      && count == |kept|
  {
  }
}
