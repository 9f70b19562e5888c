/** What `calculate_rs` reports, in terms of the tasks in the history. */
module ReputationReports {
  import opened Rounding
  import opened Reputation
  import RealFacts

  /** What a record reports. */
  function Reported(d: real, r: Record): real {
    Calculated(d, r.score, Scores(r.history))
  }

  /** The task scores, each worth `d` times what it was worth one task before. */
  function Earned(d: real, history: seq<Task>): real {
    if history == [] then 0.0
    else d * Earned(d, history[..|history| - 1]) + history[|history| - 1].score
  }

  /** What so many tasks could have earned at a score of one. */
  function Possible(d: real, n: nat): real {
    if n == 0 then 0.0 else d * Possible(d, n - 1) + 1.0
  }

  lemma {:induction false} SumsAreEarned(d: real, history: seq<Task>)
    ensures WeightedSum(d, Scores(history)) == Earned(d, history)
    ensures TotalWeight(d, |history|) == Possible(d, |history|)
    decreases |history|
  {
    if history == [] {
      EmptySums(d, 0.0, 0.0);
      assert Scores(history) == [];
    } else {
      var n := |history| - 1;
      assert Scores(history) == Scores(history[..n]) + [history[n].score];
      SumsAreEarned(d, history[..n]);
      Recurrence(d, Scores(history[..n]), history[n].score);
    }
  }

  /** No tasks, or a decay of minus one and an even number of them: there is nothing to average. */
  predicate NothingToAverage(d: real, n: nat) {
    n == 0 || (d == -1.0 && n % 2 == 0)
  }

  /** The report is the standing score when there is nothing to average, and else the earned share of what was
      possible, rounded to the nearest ten-thousandth. */
  lemma ReportIsShare(d: real, r: Record) returns (n: int)
    ensures if NothingToAverage(d, |r.history|) then Reported(d, r) == r.score
      else
        Possible(d, |r.history|) != 0.0
        && var share := Earned(d, r.history) / Possible(d, |r.history|);
        && -0.00005 <= Reported(d, r) - share <= 0.00005
        && Reported(d, r) * 10000.0 == n as real
        && -0.5 <= n as real - share * 10000.0 <= 0.5
  {
    n := 0;
    SumsAreEarned(d, r.history);
    if |r.history| > 0 {
      WeightsCancelIff(d, |r.history|);
    }
    if !NothingToAverage(d, |r.history|) {
      var share := Earned(d, r.history) / Possible(d, |r.history|);
      RoundError(share, 10000.0);
      assert 0.5 / 10000.0 == 0.00005;
      n := RoundIsNearest(share, 10000.0);
    }
  }

  /** The report of a history stays between its lowest and its highest task score, up to rounding. */
  lemma ReportBetween(d: real, r: Record, lo: real, hi: real)
    requires d >= 0.0 && r.history != [] && forall t | t in r.history :: lo <= t.score <= hi
    ensures lo - 0.00005 <= Reported(d, r) <= hi + 0.00005
  {
    assert AllBetween(Scores(r.history), lo, hi) by {
      assert forall i | 0 <= i < |r.history| :: r.history[i] in r.history;
    }
    RsBounded(d, Scores(r.history), lo, hi);
    RoundError(Rs(d, Scores(r.history)), 10000.0);
    assert 0.5 / 10000.0 == 0.00005;
  }

  /** Doing better later never lowers the report. */
  lemma BetterLaterNeverLowersReport(d: real, r: Record, i: nat, j: nat)
    requires 0.0 <= d <= 1.0 && i < j < |r.history| && r.history[i].score >= r.history[j].score
    ensures Reported(d, r.(history := r.history[i := r.history[j]][j := r.history[i]])) >= Reported(d, r)
  {
    var scores := Scores(r.history);
    var swapped := r.history[i := r.history[j]][j := r.history[i]];
    assert Scores(swapped) == scores[i := scores[j]][j := scores[i]];
    BetterLaterNeverLowers(d, scores, i, j);
    RoundMonotone(Rs(d, scores), Rs(d, Scores(swapped)), 10000.0);
  }

  /** Full marks throughout are reported as one. */
  lemma FullMarks(d: real, r: Record)
    requires forall t | t in r.history :: t.score == 1.0
    ensures Reported(d, r) == if NothingToAverage(d, |r.history|) then r.score else 1.0
  {
    EarnsAll(d, r.history);
    var n := ReportIsShare(d, r);
    SumsAreEarned(d, r.history);
    if !NothingToAverage(d, |r.history|) {
      OverItself(Possible(d, |r.history|));
      assert Round(1.0, 10000.0) == 1.0;
    }
  }

  lemma OverItself(x: real)
    requires x != 0.0
    ensures x / x == 1.0
  {
  }

  lemma {:induction false} EarnsAll(d: real, history: seq<Task>)
    requires forall t | t in history :: t.score == 1.0
    ensures Earned(d, history) == Possible(d, |history|)
    decreases |history|
  {
    if history != [] {
      var n := |history| - 1;
      assert history[n] in history && forall t | t in history[..n] :: t in history;
      EarnsAll(d, history[..n]);
    }
  }

  /** Where in a history the tasks of some kind stand. */
  function Where(kind: Task -> bool, history: seq<Task>): set<int> {
    set i | 0 <= i < |history| && kind(history[i])
  }

  lemma WhereStep(kind: Task -> bool, history: seq<Task>)
    requires history != []
    ensures var n := |history| - 1;
      |Where(kind, history)| == |Where(kind, history[..n])| + if kind(history[n]) then 1 else 0
  {
    var n := |history| - 1;
    assert Where(kind, history) == Where(kind, history[..n]) + if kind(history[n]) then {n} else {};
  }

  /** The completed tasks are the undisputed ones scored at least 0.8, and the disputed ones those marked so. */
  lemma {:induction false} CountsAre(history: seq<Task>)
    ensures CompletedIn(history) == |Where((t: Task) => !t.disputed && t.score >= 0.8, history)|
    ensures DisputedIn(history) == |Where((t: Task) => t.disputed, history)|
    decreases |history|
  {
    if history != [] {
      CountsAre(history[..|history| - 1]);
      WhereStep((t: Task) => !t.disputed && t.score >= 0.8, history);
      WhereStep((t: Task) => t.disputed, history);
    }
  }
}
