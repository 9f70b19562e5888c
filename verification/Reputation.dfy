/** Reputation scores: an exponentially weighted average over an unbounded history. */
module Reputation {
  import opened Rounding
  import RealFacts

  datatype Task = Task(score: real, verified: bool, disputed: bool, timestamp: real)

  // ----- The weighted average -----

  function Pow(d: real, k: nat): real {
    if k == 0 then 1.0 else d * Pow(d, k - 1)
  }

  /** The most recent of `n` tasks has weight one, each older one `d` times the next. */
  function Weights(d: real, n: nat): (w: seq<real>)
    ensures |w| == n
  {
    seq(n, i requires 0 <= i < n => Pow(d, n - 1 - i))
  }

  function Sum(xs: seq<real>): real {
    if xs == [] then 0.0 else Sum(xs[..|xs| - 1]) + xs[|xs| - 1]
  }

  function Products(ws: seq<real>, ss: seq<real>): (ps: seq<real>)
    requires |ws| == |ss|
    ensures |ps| == |ws|
  {
    seq(|ws|, i requires 0 <= i < |ws| => ws[i] * ss[i])
  }

  function TotalWeight(d: real, n: nat): real {
    Sum(Weights(d, n))
  }

  function WeightedSum(d: real, scores: seq<real>): real {
    Sum(Products(Weights(d, |scores|), scores))
  }

  /** The score before rounding. */
  function Rs(d: real, scores: seq<real>): real
    requires TotalWeight(d, |scores|) != 0.0
  {
    WeightedSum(d, scores) / TotalWeight(d, |scores|)
  }

  /** `calculate_rs`: the standing score when there is no history, or when the weights cancel. */
  function Calculated(d: real, standing: real, scores: seq<real>): real {
    if scores == [] || TotalWeight(d, |scores|) == 0.0 then standing else Round(Rs(d, scores), 10000.0)
  }

  function Scaled(d: real, xs: seq<real>): (ys: seq<real>)
    ensures |ys| == |xs|
  {
    seq(|xs|, i requires 0 <= i < |xs| => d * xs[i])
  }

  lemma {:induction false} SumScaled(d: real, xs: seq<real>)
    ensures Sum(Scaled(d, xs)) == d * Sum(xs)
    decreases |xs|
  {
    if xs != [] {
      var n := |xs| - 1;
      ScaledPrefix(d, xs);
      SumScaled(d, xs[..n]);
      RealFacts.Distribute(Sum(xs[..n]), xs[n], d);
    }
  }

  lemma ScaledPrefix(d: real, xs: seq<real>)
    requires xs != []
    ensures Scaled(d, xs)[..|xs| - 1] == Scaled(d, xs[..|xs| - 1])
  {
    forall i | 0 <= i < |xs| - 1
      ensures Scaled(d, xs)[i] == Scaled(d, xs[..|xs| - 1])[i]
    {
      assert xs[..|xs| - 1][i] == xs[i];
    }
  }

  lemma SumAppend(xs: seq<real>, x: real)
    ensures Sum(xs + [x]) == Sum(xs) + x
  {
    assert (xs + [x])[..|xs|] == xs;
  }

  lemma OlderWeights(d: real, n: nat)
    ensures Weights(d, n + 1) == Scaled(d, Weights(d, n)) + [1.0]
  {
    var w, w' := Weights(d, n), Weights(d, n + 1);
    forall i | 0 <= i < n
      ensures w'[i] == Scaled(d, w)[i]
    {
      assert w'[i] == Pow(d, n - i) == d * Pow(d, n - 1 - i);
    }
  }

  lemma OlderProducts(d: real, w: seq<real>, scores: seq<real>, s: real)
    requires |w| == |scores|
    ensures Products(Scaled(d, w) + [1.0], scores + [s]) == Scaled(d, Products(w, scores)) + [s]
  {
    forall i | 0 <= i < |w|
      ensures Products(Scaled(d, w) + [1.0], scores + [s])[i] == Scaled(d, Products(w, scores))[i]
    {
      RealFacts.Assoc(d, w[i], scores[i]);
    }
  }

  lemma WeightRecurrence(d: real, n: nat)
    ensures TotalWeight(d, n + 1) == d * TotalWeight(d, n) + 1.0
  {
    var w := Weights(d, n);
    OlderWeights(d, n);
    SumScaled(d, w);
    SumAppend(Scaled(d, w), 1.0);
  }

  lemma SumRecurrence(d: real, w: seq<real>, scores: seq<real>, s: real)
    requires |w| == |scores|
    ensures Sum(Products(Scaled(d, w) + [1.0], scores + [s])) == d * Sum(Products(w, scores)) + s
  {
    var p := Products(w, scores);
    OlderProducts(d, w, scores, s);
    SumScaled(d, p);
    SumAppend(Scaled(d, p), s);
  }

  /** The recomputed sums obey the recurrence: an old total decays once and the new score enters whole. */
  lemma Recurrence(d: real, scores: seq<real>, s: real)
    ensures TotalWeight(d, |scores| + 1) == d * TotalWeight(d, |scores|) + 1.0
    ensures WeightedSum(d, scores + [s]) == d * WeightedSum(d, scores) + s
  {
    WeightRecurrence(d, |scores|);
    OlderWeights(d, |scores|);
    SumRecurrence(d, Weights(d, |scores|), scores, s);
  }

  predicate AllBetween(scores: seq<real>, lo: real, hi: real) {
    forall i | 0 <= i < |scores| :: lo <= scores[i] <= hi
  }

  predicate InBounds(lo: real, hi: real, w: real, x: real) {
    lo * w <= x <= hi * w
  }

  lemma EmptySums(d: real, lo: real, hi: real)
    ensures TotalWeight(d, 0) == 0.0 && InBounds(lo, hi, TotalWeight(d, 0), WeightedSum(d, []))
  {
    assert Weights(d, 0) == [] && Products(Weights(d, 0), []) == [];
  }

  lemma {:induction false} SumsBounded(d: real, scores: seq<real>, lo: real, hi: real)
    requires d >= 0.0 && AllBetween(scores, lo, hi)
    ensures InBounds(lo, hi, TotalWeight(d, |scores|), WeightedSum(d, scores))
    ensures TotalWeight(d, |scores|) >= if scores == [] then 0.0 else 1.0
    decreases |scores|
  {
    if scores == [] {
      EmptySums(d, lo, hi);
    } else {
      var n := |scores| - 1;
      var before, s := scores[..n], scores[n];
      assert before + [s] == scores;
      SumsBounded(d, before, lo, hi);
      Recurrence(d, before, s);
      BoundsCarry(d, TotalWeight(d, n), WeightedSum(d, before), s, lo, hi,
                  TotalWeight(d, n + 1), WeightedSum(d, scores));
    }
  }

  lemma BoundsCarry(d: real, w: real, x: real, s: real, lo: real, hi: real, w': real, x': real)
    requires d >= 0.0 && w >= 0.0 && InBounds(lo, hi, w, x) && lo <= s <= hi
    requires w' == d * w + 1.0 && x' == d * x + s
    ensures w' >= 1.0 && InBounds(lo, hi, w', x')
  {
    RealFacts.NonNegative(d, w);
    RealFacts.NonNegative(d, x - lo * w);
    RealFacts.NonNegative(d, hi * w - x);
    assert lo * (d * w + 1.0) == d * (lo * w) + lo && hi * (d * w + 1.0) == d * (hi * w) + hi;
  }

  /** With a non-negative decay the score stays between the lowest and the highest task score. */
  lemma RsBounded(d: real, scores: seq<real>, lo: real, hi: real)
    requires d >= 0.0 && scores != [] && AllBetween(scores, lo, hi)
    ensures TotalWeight(d, |scores|) >= 1.0
    ensures lo <= Rs(d, scores) <= hi
  {
    SumsBounded(d, scores, lo, hi);
    Divided(lo, WeightedSum(d, scores), hi, TotalWeight(d, |scores|));
  }

  lemma Divided(lo: real, x: real, hi: real, w: real)
    requires w > 0.0 && lo * w <= x <= hi * w
    ensures lo <= x / w <= hi
  {
    RealFacts.Quotient(x, w);
    RealFacts.Ordered(lo, x / w, w);
    RealFacts.Ordered(x / w, hi, w);
  }

  /** So do the reported scores: tasks scored between zero and one never take an agent out of that range. */
  lemma CalculatedInUnitRange(d: real, standing: real, scores: seq<real>)
    requires d >= 0.0 && 0.0 <= standing <= 1.0 && AllBetween(scores, 0.0, 1.0)
    ensures 0.0 <= Calculated(d, standing, scores) <= 1.0
  {
    if scores != [] {
      RsBounded(d, scores, 0.0, 1.0);
      RoundMonotone(0.0, Rs(d, scores), 10000.0);
      RoundMonotone(Rs(d, scores), 1.0, 10000.0);
      assert Round(0.0, 10000.0) == 0.0 && Round(1.0, 10000.0) == 1.0;
    }
  }

  /** A new task moves the score by its distance from it, divided by the new total weight. */
  lemma NewTaskMovesRs(d: real, scores: seq<real>, s: real)
    requires d >= 0.0 && scores != []
    ensures TotalWeight(d, |scores|) >= 1.0 && TotalWeight(d, |scores| + 1) >= 1.0
    ensures Rs(d, scores + [s]) - Rs(d, scores) == (s - Rs(d, scores)) / TotalWeight(d, |scores| + 1)
  {
    WeightsPositive(d, |scores|);
    WeightsPositive(d, |scores| + 1);
    Recurrence(d, scores, s);
    MovedBy(d, WeightedSum(d, scores), TotalWeight(d, |scores|), s);
  }

  lemma MovedBy(d: real, x: real, w: real, s: real)
    requires w > 0.0 && d * w + 1.0 > 0.0
    ensures (d * x + s) / (d * w + 1.0) - x / w == (s - x / w) / (d * w + 1.0)
  {
    var r, w' := x / w, d * w + 1.0;
    RealFacts.Quotient(x, w);
    assert d * x == d * (r * w) == r * (d * w);
    assert d * x + s == r * w' + (s - r);
    SumOverQuotient(r, s - r, w');
  }

  lemma SumOverQuotient(r: real, e: real, w: real)
    requires w > 0.0
    ensures (r * w + e) / w == r + e / w
  {
    RealFacts.Quotient(e, w);
    RealFacts.Distribute(r, e / w, w);
    RealFacts.Quotient(r * w + e, w);
    RealFacts.Ordered((r * w + e) / w, r + e / w, w);
    RealFacts.Ordered(r + e / w, (r * w + e) / w, w);
  }

  lemma {:induction false} WeightsPositive(d: real, n: nat)
    requires d >= 0.0 && n > 0
    ensures TotalWeight(d, n) >= 1.0
  {
    var zeros := seq(n, _ => 0.0);
    SumsBounded(d, zeros, 0.0, 0.0);
  }

  // ----- Recent tasks weigh more -----

  lemma Shrinks(d: real, p: real)
    requires 0.0 <= d <= 1.0 && p >= 0.0
    ensures 0.0 <= d * p <= p
  {
    RealFacts.NonNegative(d, p);
    RealFacts.NonNegative(1.0 - d, p);
    RealFacts.Distribute(1.0, d, p);
  }

  lemma {:induction false} PowUnit(d: real, k: nat)
    requires 0.0 <= d <= 1.0
    ensures 0.0 <= Pow(d, k) <= 1.0
  {
    if k > 0 {
      PowUnit(d, k - 1);
      Shrinks(d, Pow(d, k - 1));
    }
  }

  lemma {:induction false} PowShrinks(d: real, j: nat, k: nat)
    requires 0.0 <= d <= 1.0 && j <= k
    ensures Pow(d, k) <= Pow(d, j)
    decreases k
  {
    if j < k {
      PowShrinks(d, j, k - 1);
      PowUnit(d, k - 1);
      Shrinks(d, Pow(d, k - 1));
    }
  }

  lemma {:induction false} SumUpdated(xs: seq<real>, i: nat, x: real)
    requires i < |xs|
    ensures Sum(xs[i := x]) == Sum(xs) - xs[i] + x
    decreases |xs|
  {
    var n := |xs| - 1;
    if i < n {
      assert xs[i := x][..n] == xs[..n][i := x];
      SumUpdated(xs[..n], i, x);
    } else {
      assert xs[i := x][..n] == xs[..n];
    }
  }

  /** Moving a better score later, swapping it with a worse one, never lowers the weighted average. */
  lemma BetterLaterNeverLowers(d: real, scores: seq<real>, i: nat, j: nat)
    requires 0.0 <= d <= 1.0 && i < j < |scores| && scores[i] >= scores[j]
    ensures TotalWeight(d, |scores|) >= 1.0
    ensures Rs(d, scores[i := scores[j]][j := scores[i]]) >= Rs(d, scores)
  {
    var n := |scores|;
    var w, swapped := Weights(d, n), scores[i := scores[j]][j := scores[i]];
    SwappedSum(w, scores, i, j);
    PowShrinks(d, n - 1 - j, n - 1 - i);
    WeightsPositive(d, n);
    RealFacts.NonNegative(w[j] - w[i], scores[i] - scores[j]);
    Monotone(WeightedSum(d, scores), WeightedSum(d, swapped), TotalWeight(d, n));
  }

  lemma SwappedSum(w: seq<real>, scores: seq<real>, i: nat, j: nat)
    requires |w| == |scores| && i < j < |scores|
    ensures var swapped := scores[i := scores[j]][j := scores[i]];
      Sum(Products(w, swapped)) == Sum(Products(w, scores)) + (w[j] - w[i]) * (scores[i] - scores[j])
  {
    var once := scores[i := scores[j]];
    ProductUpdated(w, scores, i, scores[j]);
    ProductUpdated(w, once, j, scores[i]);
    Crossed(w[i], w[j], scores[i], scores[j]);
  }

  lemma ProductUpdated(w: seq<real>, scores: seq<real>, i: nat, s: real)
    requires |w| == |scores| && i < |scores|
    ensures Sum(Products(w, scores[i := s])) == Sum(Products(w, scores)) - w[i] * scores[i] + w[i] * s
  {
    ProductsUpdated(w, scores, i, s);
    SumUpdated(Products(w, scores), i, w[i] * s);
  }

  lemma ProductsUpdated(w: seq<real>, scores: seq<real>, i: nat, s: real)
    requires |w| == |scores| && i < |scores|
    ensures Products(w, scores[i := s]) == Products(w, scores)[i := w[i] * s]
  {
    var p, p' := Products(w, scores)[i := w[i] * s], Products(w, scores[i := s]);
    forall k | 0 <= k < |w|
      ensures p'[k] == p[k]
    {
      assert scores[i := s][k] == if k == i then s else scores[k];
    }
  }

  lemma Crossed(a: real, b: real, x: real, y: real)
    ensures (b - a) * (x - y) == -(a * x) + a * y - b * y + b * x
  {
  }

  // ----- When the weights cancel -----

  lemma {:induction false} GeometricSum(d: real, n: nat)
    ensures (1.0 - d) * TotalWeight(d, n) == 1.0 - Pow(d, n)
  {
    if n > 0 {
      GeometricSum(d, n - 1);
      WeightRecurrence(d, n - 1);
      GeometricStep(d, TotalWeight(d, n - 1), Pow(d, n - 1), TotalWeight(d, n), Pow(d, n));
    }
  }

  lemma GeometricStep(d: real, w: real, p: real, w': real, p': real)
    requires (1.0 - d) * w == 1.0 - p && w' == d * w + 1.0 && p' == d * p
    ensures (1.0 - d) * w' == 1.0 - p'
  {
    assert (1.0 - d) * (d * w) == d * ((1.0 - d) * w) == d * (1.0 - p);
  }

  lemma Negated(a: real, b: real)
    ensures (-a) * b == -(a * b) && a * (-b) == -(a * b)
  {
  }

  lemma {:induction false} PowOfNegative(d: real, n: nat)
    ensures Pow(d, n) == if n % 2 == 0 then Pow(-d, n) else -Pow(-d, n)
  {
    if n > 0 {
      PowOfNegative(d, n - 1);
      Negated(d, Pow(-d, n - 1));
    }
  }

  lemma {:induction false} PowAwayFromOne(a: real, n: nat)
    requires a >= 0.0 && n > 0
    ensures Pow(a, n) >= 0.0
    ensures if a > 1.0 then Pow(a, n) > 1.0 else if a < 1.0 then Pow(a, n) < 1.0 else Pow(a, n) == 1.0
  {
    if n == 1 {
      assert Pow(a, 1) == a * Pow(a, 0) == a;
    } else {
      PowAwayFromOne(a, n - 1);
      FurtherFromOne(a, Pow(a, n - 1));
    }
  }

  lemma FurtherFromOne(a: real, p: real)
    requires a >= 0.0 && p >= 0.0
    requires if a > 1.0 then p > 1.0 else if a < 1.0 then p < 1.0 else p == 1.0
    ensures a * p >= 0.0
    ensures if a > 1.0 then a * p > 1.0 else if a < 1.0 then a * p < 1.0 else a * p == 1.0
  {
    RealFacts.NonNegative(a, p);
    RealFacts.Distribute(a, 1.0, p);
    if a > 1.0 {
      RealFacts.SameSign(a - 1.0, p);
    } else {
      RealFacts.NonNegative(1.0 - a, p);
      RealFacts.Distribute(1.0, a, p);
    }
  }

  /** The branch for a zero total is taken exactly for a decay of minus one and an even number of tasks. */
  lemma WeightsCancelIff(d: real, n: nat)
    requires n > 0
    ensures TotalWeight(d, n) == 0.0 <==> d == -1.0 && n % 2 == 0
  {
    if d >= 0.0 {
      WeightsPositive(d, n);
    } else {
      GeometricSum(d, n);
      RealFacts.SameSign(TotalWeight(d, n), 1.0 - d);
      RealFacts.SameSign(-TotalWeight(d, n), 1.0 - d);
      Negated(TotalWeight(d, n), 1.0 - d);
      PowOfNegative(d, n);
      PowAwayFromOne(-d, n);
    }
  }

  // ----- The record -----

  datatype Record = Record(
    score: real,
    totalTasks: nat,
    completedTasks: nat,
    disputedCount: nat,
    history: seq<Task>)

  const STARTING_SCORE := 0.5
  const COMPLETED_FROM := 0.8

  const NEWCOMER := Record(STARTING_SCORE, 0, 0, 0, [])

  function Scores(history: seq<Task>): (s: seq<real>)
    ensures |s| == |history|
  {
    seq(|history|, i requires 0 <= i < |history| => history[i].score)
  }

  function Updated(r: Record, t: Task): Record {
    Record(
      r.score,
      r.totalTasks + 1,
      r.completedTasks + if !t.disputed && t.score >= COMPLETED_FROM then 1 else 0,
      r.disputedCount + if t.disputed then 1 else 0,
      r.history + [t])
  }

  function CompletedIn(history: seq<Task>): nat {
    if history == [] then 0
    else
      var t := history[|history| - 1];
      CompletedIn(history[..|history| - 1]) + if !t.disputed && t.score >= COMPLETED_FROM then 1 else 0
  }

  function DisputedIn(history: seq<Task>): nat {
    if history == [] then 0
    else DisputedIn(history[..|history| - 1]) + if history[|history| - 1].disputed then 1 else 0
  }

  /** Each counter equals its count over the history. */
  predicate Counted(r: Record) {
    && r.totalTasks == |r.history|
    && r.completedTasks == CompletedIn(r.history)
    && r.disputedCount == DisputedIn(r.history)
  }

  lemma UpdatedStaysCounted(r: Record, t: Task)
    requires Counted(r)
    ensures Counted(Updated(r, t))
  {
    assert (r.history + [t])[..|r.history|] == r.history;
  }

  class ReputationRecord {
    var score: real
    var totalTasks: nat
    var completedTasks: nat
    var disputedCount: nat
    var history: seq<Task>
    var lastUpdated: real

    function View(): Record
      reads this
    {
      Record(score, totalTasks, completedTasks, disputedCount, history)
    }

    constructor (now: real)
      ensures View() == NEWCOMER && lastUpdated == now
    {
      score := STARTING_SCORE;
      totalTasks, completedTasks, disputedCount := 0, 0, 0;
      history := [];
      lastUpdated := now;
    }

    method CalculateRs(decay: real) returns (rs: real)
      ensures rs == Calculated(decay, score, Scores(history))
    {
      if history == [] {
        return score;
      }
      var weights, scores := [], [];
      var n := |history|;
      for i := 0 to n
        invariant weights == Weights(decay, n)[..i]
        invariant scores == Scores(history)[..i]
      {
        var w := Pow(decay, n - 1 - i);
        weights := weights + [w];
        scores := scores + [history[i].score];
      }
      assert weights == Weights(decay, n) && scores == Scores(history);
      var totalWeight := Sum(weights);
      if totalWeight == 0.0 {
        return score;
      }
      rs := Sum(Products(weights, scores)) / totalWeight;
      rs := Round(rs, 10000.0);
    }

    method Update(taskScore: real, wasVerified: bool, wasDisputed: bool, now: real)
      modifies this
      ensures View() == Updated(old(View()), Task(taskScore, wasVerified, wasDisputed, now))
      ensures lastUpdated == now
    {
      history := history + [Task(taskScore, wasVerified, wasDisputed, now)];
      totalTasks := totalTasks + 1;
      if wasDisputed {
        disputedCount := disputedCount + 1;
      } else if taskScore >= COMPLETED_FROM {
        completedTasks := completedTasks + 1;
      }
      lastUpdated := now;
    }
  }
}
