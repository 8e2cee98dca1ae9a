/** The router calibration grid: the decision rule, the score of one cell, and the choice of the
    recommended cell. Scores and grid values are the finite numbers the program holds; what it
    computes from them, with whatever rounding, is given by an `Arithmetic`. */
module Calibration {
  import opened Options
  import opened Sequences

  /** The floating-point expressions of the calibration, one function for each. */
  datatype Arithmetic = Arithmetic(
    lead: (real, real) -> real,         // the best score less another
    quotient: (nat, nat) -> real,       // correct answers by all answers
    slack: real -> real,                // an accuracy less the tolerance
    distance: (real, real) -> real,     // of a threshold and a band from the recorded default
    steps: (real, real, real) -> real,  // the width of a range in steps
    scaled: (real, int, real) -> real,  // a start and some steps, times ten
    tenth: int -> real)                 // a whole number by ten

  datatype Expected = Primary(workflowId: string) | Candidates | InsufficientSignal | ProductMismatch
  datatype Scored = Scored(workflowId: string, confidence: real)
  datatype Prepared = Prepared(expected: Expected, scored: seq<Scored>)

  datatype Decision = NoSignal | Chosen(workflowId: string) | Tied

  /** The candidates within the band of the best score. */
  function InBand(a: Arithmetic, scored: seq<Scored>, top: real, band: real): seq<Scored> {
    Filter((c: Scored) => a.lead(top, c.confidence) <= band, scored)
  }

  function Decide(a: Arithmetic, p: Prepared, threshold: real, band: real): Decision {
    if p.scored == [] then NoSignal
    else
      var top := p.scored[0];
      if top.confidence >= threshold && |InBand(a, p.scored, top.confidence, band)| <= 1 then Chosen(top.workflowId)
      else Tied
  }

  lemma {:induction false} InBandGrows(a: Arithmetic, scored: seq<Scored>, top: real, band: real, wider: real)
    requires band <= wider
    ensures |InBand(a, scored, top, band)| <= |InBand(a, scored, top, wider)|
    decreases |scored|
  {
    if scored != [] {
      InBandGrows(a, scored[1..], top, band, wider);
    }
  }

  /** Raising the threshold or the band never turns anything into a primary decision. */
  lemma PrimaryIsAntitone(a: Arithmetic, p: Prepared, threshold: real, band: real, threshold': real, band': real)
    requires threshold <= threshold' && band <= band'
    ensures Decide(a, p, threshold', band').Chosen? ==> Decide(a, p, threshold, band) == Decide(a, p, threshold', band')
  {
    if p.scored != [] {
      InBandGrows(a, p.scored, p.scored[0].confidence, band, band');
    }
  }

  /** A decision is primary exactly when the first score reaches the threshold and its computed lead
      over every other exceeds the band. All that is used of the subtraction is x - x = 0. */
  lemma PrimaryMeansClearLead(a: Arithmetic, p: Prepared, threshold: real, band: real)
    requires band >= 0.0 && p.scored != []
    requires a.lead(p.scored[0].confidence, p.scored[0].confidence) == 0.0
    ensures Decide(a, p, threshold, band).Chosen? <==>
      p.scored[0].confidence >= threshold
      && forall i :: 0 < i < |p.scored| ==> a.lead(p.scored[0].confidence, p.scored[i].confidence) > band
  {
    var top, rest := p.scored[0].confidence, p.scored[1..];
    var near := (c: Scored) => a.lead(top, c.confidence) <= band;
    assert InBand(a, p.scored, top, band) == [p.scored[0]] + Filter(near, rest);
    if Filter(near, rest) == [] {
      forall i | 0 < i < |p.scored| ensures a.lead(top, p.scored[i].confidence) > band {
        assert rest[i - 1] in rest && rest[i - 1] !in Filter(near, rest);
      }
    } else {
      assert Filter(near, rest)[0] in Filter(near, rest);
      var c := Filter(near, rest)[0];
      var i :| 0 <= i < |rest| && rest[i] == c;
      assert p.scored[i + 1] == c;
    }
  }

  // ---- one cell -----------------------------------------------------------------------------

  datatype Cell = Cell(threshold: real, band: real, primaryTotal: nat, primaryCorrect: nat, falsePrimaries: nat) {
    function Accuracy(a: Arithmetic): real {
      Share(a, primaryCorrect, primaryTotal)
    }
    predicate Feasible() {
      falsePrimaries == 0
    }
  }

  function Share(a: Arithmetic, correct: nat, total: nat): real {
    if total > 0 then a.quotient(correct, total) else 0.0
  }

  predicate WantsPrimary(p: Prepared) { p.expected.Primary? }

  predicate Correct(a: Arithmetic, p: Prepared, threshold: real, band: real) {
    p.expected.Primary? && Decide(a, p, threshold, band) == Chosen(p.expected.workflowId)
  }

  predicate FalsePrimary(a: Arithmetic, p: Prepared, threshold: real, band: real) {
    (p.expected == Candidates || p.expected == InsufficientSignal) && Decide(a, p, threshold, band).Chosen?
  }

  function Count(f: Prepared -> bool, entries: seq<Prepared>): nat {
    if entries == [] then 0
    else Count(f, entries[..|entries| - 1]) + (if f(entries[|entries| - 1]) then 1 else 0)
  }

  /** What a cell scores on a corpus. */
  function CellOf(a: Arithmetic, entries: seq<Prepared>, threshold: real, band: real): Cell {
    Cell(threshold, band,
         Count((p: Prepared) => WantsPrimary(p), entries),
         Count((p: Prepared) => Correct(a, p, threshold, band), entries),
         Count((p: Prepared) => FalsePrimary(a, p, threshold, band), entries))
  }

  method EvaluateCell(a: Arithmetic, entries: seq<Prepared>, threshold: real, band: real) returns (cell: Cell)
    ensures cell == CellOf(a, entries, threshold, band)
  {
    var primaryTotal, primaryCorrect, falsePrimaries := 0, 0, 0;
    for i := 0 to |entries|
      invariant Cell(threshold, band, primaryTotal, primaryCorrect, falsePrimaries) == CellOf(a, entries[..i], threshold, band)
    {
      var entry := entries[i];
      assert entries[..i + 1][..i] == entries[..i];
      var decision := Decide(a, entry, threshold, band);
      match entry.expected {
        case Primary(workflowId) =>
          primaryTotal := primaryTotal + 1;
          if decision.Chosen? && decision.workflowId == workflowId {
            primaryCorrect := primaryCorrect + 1;
          }
        case Candidates =>
          if decision.Chosen? { falsePrimaries := falsePrimaries + 1; }
        case InsufficientSignal =>
          if decision.Chosen? { falsePrimaries := falsePrimaries + 1; }
        case ProductMismatch =>
      }
    }
    assert entries[..|entries|] == entries;
    cell := Cell(threshold, band, primaryTotal, primaryCorrect, falsePrimaries);
  }

  lemma {:induction false} CountMonotone(f: Prepared -> bool, g: Prepared -> bool, entries: seq<Prepared>)
    requires forall p :: p in entries && f(p) ==> g(p)
    ensures Count(f, entries) <= Count(g, entries) <= |entries|
    decreases |entries|
  {
    if entries != [] {
      var last := entries[|entries| - 1];
      assert last in entries;
      CountMonotone(f, g, entries[..|entries| - 1]);
    }
  }

  /** Raising the threshold or the band lowers both the correct and the false primaries, so the
      feasible region is closed upwards; the number of primary entries never changes. */
  lemma CellIsAntitone(a: Arithmetic, entries: seq<Prepared>, threshold: real, band: real, threshold': real, band': real)
    requires threshold <= threshold' && band <= band'
    ensures
      var low, high := CellOf(a, entries, threshold, band), CellOf(a, entries, threshold', band');
      && high.primaryCorrect <= low.primaryCorrect <= low.primaryTotal
      && high.falsePrimaries <= low.falsePrimaries
      && (low.Feasible() ==> high.Feasible())
      && high.primaryTotal == low.primaryTotal
  {
    forall p ensures Correct(a, p, threshold', band') ==> Correct(a, p, threshold, band)
      ensures FalsePrimary(a, p, threshold', band') ==> FalsePrimary(a, p, threshold, band)
    {
      PrimaryIsAntitone(a, p, threshold, band, threshold', band');
    }
    CountMonotone((p: Prepared) => Correct(a, p, threshold', band'), (p: Prepared) => Correct(a, p, threshold, band), entries);
    CountMonotone((p: Prepared) => Correct(a, p, threshold, band), (p: Prepared) => WantsPrimary(p), entries);
    CountMonotone((p: Prepared) => FalsePrimary(a, p, threshold', band'), (p: Prepared) => FalsePrimary(a, p, threshold, band), entries);
  }

  // ---- the grid -----------------------------------------------------------------------------

  function Round(x: real): int {
    (x + 0.5).Floor
  }

  function GridValues(a: Arithmetic, min: real, max: real, step: real): seq<real> {
    var count := Round(a.steps(min, max, step));
    seq(if count >= 0 then count + 1 else 0, i => a.tenth(Round(a.scaled(min, i, step))))
  }

  function Thresholds(a: Arithmetic): seq<real> { GridValues(a, 1.0, 3.0, 0.1) }
  function Bands(a: Arithmetic): seq<real> { GridValues(a, 0.0, 1.0, 0.1) }

  predicate Near(x: real, y: real) {
    -0.5 < x - y < 0.5
  }

  /** The arithmetic errs by less than a half where a grid value is rounded to a whole number of
      tenths. */
  predicate RoundsSafely(a: Arithmetic) {
    && Near(a.steps(1.0, 3.0, 0.1), 20.0) && Near(a.steps(0.0, 1.0, 0.1), 10.0)
    && (forall i: int :: 0 <= i < 21 ==> Near(a.scaled(1.0, i, 0.1), (10 + i) as real))
    && (forall i: int :: 0 <= i < 11 ==> Near(a.scaled(0.0, i, 0.1), i as real))
  }

  lemma NearRounds(x: real, n: int)
    requires Near(x, n as real)
    ensures Round(x) == n
  {}

  /** Rounding to tenths absorbs the errors of the steps: the grid holds the machine's tenths from
      10/10 to 30/10 and from 0/10 to 10/10, and no others. */
  lemma GridIsExact(a: Arithmetic)
    requires RoundsSafely(a)
    ensures |Thresholds(a)| == 21 && forall i :: 0 <= i < 21 ==> Thresholds(a)[i] == a.tenth(10 + i)
    ensures |Bands(a)| == 11 && forall i :: 0 <= i < 11 ==> Bands(a)[i] == a.tenth(i)
  {
    NearRounds(a.steps(1.0, 3.0, 0.1), 20);
    NearRounds(a.steps(0.0, 1.0, 0.1), 10);
    forall i: int | 0 <= i < 21 ensures Round(a.scaled(1.0, i, 0.1)) == 10 + i {
      NearRounds(a.scaled(1.0, i, 0.1), 10 + i);
    }
    forall i: int | 0 <= i < 11 ensures Round(a.scaled(0.0, i, 0.1)) == i {
      NearRounds(a.scaled(0.0, i, 0.1), i);
    }
  }

  /** The place of a pair in a list of rows. */
  function At(n: nat, i: nat, j: nat): nat {
    i * n + j
  }

  lemma AtFacts(n: nat, i: nat, j: nat)
    ensures At(n, i, j + 1) == At(n, i, j) + 1 && At(n, i, n) == At(n, i + 1, 0) && At(n, 0, 0) == 0
  {}

  predicate HoldsCell(a: Arithmetic, entries: seq<Prepared>, results: seq<Cell>, at: nat, threshold: real, band: real) {
    at < |results| && results[at] == CellOf(a, entries, threshold, band)
  }

  ghost predicate IsCellOf(a: Arithmetic, entries: seq<Prepared>, c: Cell) {
    exists t, b :: t in Thresholds(a) && b in Bands(a) && c == CellOf(a, entries, t, b)
  }

  /** The inner loop: one threshold with every band. */
  method RunRow(a: Arithmetic, entries: seq<Prepared>, threshold: real, results: seq<Cell>) returns (next: seq<Cell>)
    ensures results <= next && |next| == |results| + |Bands(a)|
    ensures forall j :: 0 <= j < |Bands(a)| ==> next[|results| + j] == CellOf(a, entries, threshold, Bands(a)[j])
  {
    var bands := Bands(a);
    hide Bands;
    hide CellOf;
    next := results;
    for j := 0 to |bands|
      invariant results <= next && |next| == |results| + j
      invariant forall l :: 0 <= l < j ==> next[|results| + l] == CellOf(a, entries, threshold, bands[l])
    {
      var cell := EvaluateCell(a, entries, threshold, bands[j]);
      next := next + [cell];
    }
  }

  /** Every cell of the grid, threshold by threshold, and nothing else. */
  method RunGrid(a: Arithmetic, entries: seq<Prepared>) returns (results: seq<Cell>)
    ensures |results| == At(|Bands(a)|, |Thresholds(a)|, 0)
    ensures forall i: nat, j: nat :: i < |Thresholds(a)| && j < |Bands(a)| ==>
      HoldsCell(a, entries, results, At(|Bands(a)|, i, j), Thresholds(a)[i], Bands(a)[j])
    ensures forall c :: c in results ==> IsCellOf(a, entries, c)
  {
    var thresholds, bands := Thresholds(a), Bands(a);
    var n := |bands|;
    AtFacts(n, 0, 0);
    hide Thresholds;
    hide Bands;
    hide CellOf;
    hide At;
    results := [];
    for i := 0 to |thresholds|
      invariant |results| == At(n, i, 0)
      invariant forall k: nat, l: nat :: k < i && l < n ==> HoldsCell(a, entries, results, At(n, k, l), thresholds[k], bands[l])
      invariant forall c :: c in results ==> IsCellOf(a, entries, c)
    {
      var next := RunRow(a, entries, thresholds[i], results);
      RowHolds(a, entries, i, results, next);
      results := next;
    }
  }

  lemma RowHolds(a: Arithmetic, entries: seq<Prepared>, i: nat, results: seq<Cell>, next: seq<Cell>)
    requires i < |Thresholds(a)| && results <= next && |results| == At(|Bands(a)|, i, 0) && |next| == |results| + |Bands(a)|
    requires forall j :: 0 <= j < |Bands(a)| ==> next[|results| + j] == CellOf(a, entries, Thresholds(a)[i], Bands(a)[j])
    requires forall k: nat, l: nat :: k < i && l < |Bands(a)| ==>
      HoldsCell(a, entries, results, At(|Bands(a)|, k, l), Thresholds(a)[k], Bands(a)[l])
    requires forall c :: c in results ==> IsCellOf(a, entries, c)
    ensures |next| == At(|Bands(a)|, i + 1, 0)
    ensures forall k: nat, l: nat :: k < i + 1 && l < |Bands(a)| ==>
      HoldsCell(a, entries, next, At(|Bands(a)|, k, l), Thresholds(a)[k], Bands(a)[l])
    ensures forall c :: c in next ==> IsCellOf(a, entries, c)
  {
    var thresholds, bands := Thresholds(a), Bands(a);
    var n := |bands|;
    hide Thresholds;
    hide Bands;
    hide CellOf;
    AtFacts(n, i, 0);
    forall k: nat, l: nat | k < i + 1 && l < n
      ensures HoldsCell(a, entries, next, At(n, k, l), thresholds[k], bands[l])
    {
      if k < i {
        assert HoldsCell(a, entries, results, At(n, k, l), thresholds[k], bands[l]);
      } else {
        AtOffset(n, i, l);
      }
    }
    forall c | c in next ensures IsCellOf(a, entries, c) {
      if c !in results {
        var row := next[|results|..];
        assert next == results + row;
        var m :| 0 <= m < |row| && row[m] == c;
        assert thresholds[i] in thresholds && bands[m] in bands;
        assert c == CellOf(a, entries, thresholds[i], bands[m]);
      }
    }
  }

  lemma AtOffset(n: nat, i: nat, j: nat)
    ensures At(n, i, j) == At(n, i, 0) + j
  {}

  // ---- the recommendation -------------------------------------------------------------------

  function Feasible(results: seq<Cell>): (r: seq<Cell>)
    ensures forall x :: x in r <==> x in results && x.Feasible()
  {
    Filter((c: Cell) => c.Feasible(), results)
  }

  function Best(a: Arithmetic, cells: seq<Cell>): (best: real)
    requires cells != []
    ensures forall x :: x in cells ==> x.Accuracy(a) <= best
    ensures exists x :: x in cells && x.Accuracy(a) == best
  {
    var last := cells[|cells| - 1];
    if |cells| == 1 then last.Accuracy(a)
    else
      var front := cells[..|cells| - 1];
      assert cells == front + [last];
      if last.Accuracy(a) > Best(a, front) then last.Accuracy(a) else Best(a, front)
  }

  /** The feasible cells whose accuracy is not below the best by more than the tolerance. */
  function Front(a: Arithmetic, results: seq<Cell>): (r: seq<Cell>)
    ensures forall x :: x in r <==>
      x in results && x.Feasible() && x.Accuracy(a) >= a.slack(Best(a, Feasible(results)))
  {
    var feasible := Feasible(results);
    if feasible == [] then []
    else
      var best := Best(a, feasible);
      Filter((c: Cell) => c.Accuracy(a) >= a.slack(best), feasible)
  }

  /** The order of recommendation: distance, then threshold, then band. */
  predicate Before(a: Arithmetic, x: Cell, y: Cell) {
    var dx, dy := a.distance(x.threshold, x.band), a.distance(y.threshold, y.band);
    || dx < dy
    || (dx == dy && (x.threshold < y.threshold || (x.threshold == y.threshold && x.band < y.band)))
  }

  /** The first of a stable sort. */
  function Least(a: Arithmetic, cells: seq<Cell>): (r: Cell)
    requires cells != []
    ensures r in cells && forall x :: x in cells ==> !Before(a, x, r)
  {
    var last := cells[|cells| - 1];
    if |cells| == 1 then last
    else
      var front := cells[..|cells| - 1];
      assert cells == front + [last];
      if Before(a, last, Least(a, front)) then last else Least(a, front)
  }

  function Recommend(a: Arithmetic, results: seq<Cell>): Option<Cell> {
    var front := Front(a, results);
    if front == [] then None else Some(Least(a, front))
  }

  /** Taking the tolerance off never raises an accuracy. */
  ghost predicate Sane(a: Arithmetic) {
    forall x :: a.slack(x) <= x
  }

  lemma BestInFront(a: Arithmetic, results: seq<Cell>) returns (x: Cell)
    requires Sane(a) && Feasible(results) != []
    ensures x in Front(a, results) && x.Accuracy(a) == Best(a, Feasible(results))
  {
    var best := Best(a, Feasible(results));
    x :| x in Feasible(results) && x.Accuracy(a) == best;
  }

  /** Under any arithmetic: there is a recommendation exactly when some cell is feasible; it is
      feasible and within the tolerance of the best, and no feasible cell within the tolerance
      comes before it by distance, threshold and band. */
  lemma RecommendationIsOptimal(a: Arithmetic, results: seq<Cell>)
    requires Sane(a)
    ensures Recommend(a, results).Some? <==> exists c :: c in results && c.Feasible()
    ensures Recommend(a, results).Some? ==>
      var r := Recommend(a, results).value;
      && r in results && r.Feasible()
      && exists best ::
           && best in results && best.Feasible() && r.Accuracy(a) >= a.slack(best.Accuracy(a))
           && (forall c :: c in results && c.Feasible() ==> c.Accuracy(a) <= best.Accuracy(a))
           && (forall c :: c in results && c.Feasible() && c.Accuracy(a) >= a.slack(best.Accuracy(a)) ==> !Before(a, c, r))
  {
    var feasible := Feasible(results);
    if feasible != [] {
      assert feasible[0] in feasible;
      var best := BestInFront(a, results);
      assert Front(a, results) != [];
      var r := Recommend(a, results).value;
      forall c | c in results && c.Feasible() ensures c.Accuracy(a) <= best.Accuracy(a) {
        assert c in feasible;
      }
    }
  }

  ghost predicate DistinctPairs(results: seq<Cell>) {
    forall x, y :: x in results && y in results && x.threshold == y.threshold && x.band == y.band ==> x == y
  }

  lemma SameBest(a: Arithmetic, x: seq<Cell>, y: seq<Cell>)
    requires x != [] && y != [] && forall c :: c in x <==> c in y
    ensures Best(a, x) == Best(a, y)
  {
    var bestX, bestY := Best(a, x), Best(a, y);
    var p :| p in x && p.Accuracy(a) == bestX;
    var q :| q in y && q.Accuracy(a) == bestY;
    assert p in y && q in x;
  }

  /** The recommendation does not depend on the order of the cells, whatever the arithmetic. */
  lemma RecommendationIsOrderFree(a: Arithmetic, results: seq<Cell>, others: seq<Cell>)
    requires DistinctPairs(results) && forall c :: c in results <==> c in others
    ensures Recommend(a, results) == Recommend(a, others)
  {
    var x, y := Feasible(results), Feasible(others);
    FirstIn(x);
    FirstIn(y);
    if x != [] {
      SameBest(a, x, y);
      SameFront(a, results, others);
    }
  }

  lemma SameFront(a: Arithmetic, results: seq<Cell>, others: seq<Cell>)
    requires DistinctPairs(results) && (forall c :: c in results <==> c in others)
    requires Feasible(results) != [] && Feasible(others) != []
    requires Best(a, Feasible(results)) == Best(a, Feasible(others))
    ensures Recommend(a, results) == Recommend(a, others)
  {
    var f, g := Front(a, results), Front(a, others);
    assert forall c :: c in f <==> c in g;
    hide Front;
    hide Best;
    FirstIn(f);
    FirstIn(g);
    if f != [] {
      SameLeast(a, f, g);
    }
  }

  lemma SameLeast(a: Arithmetic, f: seq<Cell>, g: seq<Cell>)
    requires f != [] && g != [] && DistinctPairs(f) && forall c :: c in f <==> c in g
    ensures Least(a, f) == Least(a, g)
  {
    var x, y := Least(a, f), Least(a, g);
    assert x in g && y in f;
    assert !Before(a, x, y) && !Before(a, y, x);
  }

  // ---- what the tolerance costs -------------------------------------------------------------

  /** One corpus gives every cell the same number of primary entries. */
  predicate SameCorpus(results: seq<Cell>, total: nat) {
    forall c :: c in results ==> c.primaryTotal == total && c.primaryCorrect <= total
  }

  /** Two different accuracies over so many entries lie further apart than the tolerance. */
  predicate Separated(a: Arithmetic, total: nat) {
    forall less: nat, more: nat :: less <= total && more <= total && Share(a, less, total) < Share(a, more, total)
      ==> Share(a, less, total) < a.slack(Share(a, more, total))
  }

  predicate MostAccurate(a: Arithmetic, results: seq<Cell>) {
    var r := Recommend(a, results);
    r.Some? ==> forall c :: c in results && c.Feasible() ==> c.Accuracy(a) <= r.value.Accuracy(a)
  }

  /** Over a corpus of a given size every recommendation is the most accurate feasible cell if and
      only if the accuracies of that size are separated. */
  lemma AccuracyIsNeverTraded(a: Arithmetic, total: nat)
    requires Sane(a)
    ensures Separated(a, total) <==>
      forall results :: SameCorpus(results, total) && DistinctPairs(results) ==> MostAccurate(a, results)
  {
    if Separated(a, total) {
      forall results | SameCorpus(results, total) && DistinctPairs(results) ensures MostAccurate(a, results) {
        SeparatedIsAccurate(a, results, total);
      }
    } else {
      var less: nat, more: nat :| less <= total && more <= total && Share(a, less, total) < Share(a, more, total)
        && Share(a, less, total) >= a.slack(Share(a, more, total));
      var results := TradedFor(a, total, less, more);
    }
  }

  lemma SeparatedIsAccurate(a: Arithmetic, results: seq<Cell>, total: nat)
    requires Sane(a) && Separated(a, total) && SameCorpus(results, total)
    ensures MostAccurate(a, results)
  {
    if Recommend(a, results).Some? {
      RecommendationIsOptimal(a, results);
      var r := Recommend(a, results).value;
      forall c | c in results && c.Feasible() ensures c.Accuracy(a) <= r.Accuracy(a) {
        assert c.Accuracy(a) == Share(a, c.primaryCorrect, total) && r.Accuracy(a) == Share(a, r.primaryCorrect, total);
      }
    }
  }

  /** Of two pairs one comes first; given the worse of two unseparated accuracies, it is still the
      one recommended. */
  lemma TradedFor(a: Arithmetic, total: nat, less: nat, more: nat) returns (results: seq<Cell>)
    requires Sane(a) && less <= total && more <= total
    requires a.slack(Share(a, more, total)) <= Share(a, less, total) < Share(a, more, total)
    ensures SameCorpus(results, total) && DistinctPairs(results) && !MostAccurate(a, results)
  {
    var x, y := 1.7, 2.0;
    OneIsBefore(a, Cell(x, 0.2, total, less, 0), Cell(y, 0.2, total, more, 0));
    if Before(a, Cell(x, 0.2, total, less, 0), Cell(y, 0.2, total, more, 0)) {
      results := TradedPair(a, total, less, more, x, y);
    } else {
      results := TradedPair(a, total, less, more, y, x);
    }
  }

  lemma TradedPair(a: Arithmetic, total: nat, less: nat, more: nat, x: real, y: real) returns (results: seq<Cell>)
    requires Sane(a) && less <= total && more <= total && x != y
    requires Before(a, Cell(x, 0.2, total, less, 0), Cell(y, 0.2, total, more, 0))
    requires a.slack(Share(a, more, total)) <= Share(a, less, total) < Share(a, more, total)
    ensures SameCorpus(results, total) && DistinctPairs(results) && !MostAccurate(a, results)
  {
    var near, far := Cell(x, 0.2, total, less, 0), Cell(y, 0.2, total, more, 0);
    results := [near, far];
    TwoPairs(near, far);
    hide Before;
    hide Recommend;
    hide MostAccurate;
    hide Share;
    NearIsTaken(a, near, far);
    NearIsNotMost(a, near, far);
  }

  lemma OneIsBefore(a: Arithmetic, x: Cell, y: Cell)
    requires x.threshold != y.threshold
    ensures Before(a, x, y) || Before(a, y, x)
  {}

  lemma NearIsNotMost(a: Arithmetic, near: Cell, far: Cell)
    requires Recommend(a, [near, far]) == Some(near) && far.Feasible() && near.Accuracy(a) < far.Accuracy(a)
    ensures !MostAccurate(a, [near, far])
  {
    hide Recommend;
    assert far in [near, far];
  }

  lemma TwoPairs(x: Cell, y: Cell)
    requires x.threshold != y.threshold
    ensures DistinctPairs([x, y])
  {}

  lemma NearIsTaken(a: Arithmetic, near: Cell, far: Cell)
    requires Sane(a) && near.Feasible() && far.Feasible() && Before(a, near, far)
    requires a.slack(far.Accuracy(a)) <= near.Accuracy(a) < far.Accuracy(a)
    ensures Recommend(a, [near, far]) == Some(near)
  {
    var results := [near, far];
    assert near in results && far in results;
    var best := BestInFront(a, results);
    assert far in Feasible(results);
    assert best == far;
    assert near in Front(a, results);
    var r := Least(a, Front(a, results));
    assert r in results && !Before(a, near, r);
  }

  /** The cells of a grid are one corpus and have a pair each, as the lemmas above ask. */
  lemma GridIsOneCorpus(a: Arithmetic, entries: seq<Prepared>, results: seq<Cell>)
    requires forall c :: c in results ==> IsCellOf(a, entries, c)
    ensures SameCorpus(results, CellOf(a, entries, 0.0, 0.0).primaryTotal) && DistinctPairs(results)
  {
    forall c | c in results
      ensures c == CellOf(a, entries, c.threshold, c.band)
      ensures c.primaryTotal == CellOf(a, entries, 0.0, 0.0).primaryTotal && c.primaryCorrect <= c.primaryTotal
    {
      var t, b :| t in Thresholds(a) && b in Bands(a) && c == CellOf(a, entries, t, b);
      CellIsAntitone(a, entries, t, b, t, b);
      var low := if t <= 0.0 then t else 0.0;
      var lower := if b <= 0.0 then b else 0.0;
      CellIsAntitone(a, entries, low, lower, t, b);
      CellIsAntitone(a, entries, low, lower, 0.0, 0.0);
    }
  }

  const TOLERANCE := 0.000000001

  /** No rounding anywhere in the accuracies. */
  ghost predicate ExactAccuracy(a: Arithmetic) {
    && (forall n: nat, d: nat :: d > 0 ==> a.quotient(n, d) == n as real / d as real)
    && (forall x :: a.slack(x) == x - TOLERANCE)
  }

  lemma Ratio(less: nat, more: nat, total: nat)
    requires less < more && total > 0
    ensures more as real / total as real - less as real / total as real == (more - less) as real / total as real
    ensures (more - less) as real / total as real >= 1.0 / total as real
  {}

  /** The bound of exact accuracies: fewer than a thousand million primary entries. */
  lemma ExactBound(a: Arithmetic, total: nat)
    requires ExactAccuracy(a)
    ensures Separated(a, total) <==> total < 1_000_000_000
  {
    if total < 1_000_000_000 {
      forall less: nat, more: nat | less <= total && more <= total && Share(a, less, total) < Share(a, more, total)
        ensures Share(a, less, total) < a.slack(Share(a, more, total))
      {
        SmallerShare(less, more, total);
        Ratio(less, more, total);
        ShareOfMany(total);
      }
    } else {
      LastAnswer(a, total);
    }
  }

  /** With as many entries one answer fewer is within the tolerance. */
  lemma LastAnswer(a: Arithmetic, total: nat)
    requires ExactAccuracy(a) && total >= 1_000_000_000
    ensures !Separated(a, total)
  {
    var less := total - 1;
    Ratio(less, total, total);
    SmallShare(total);
    assert Share(a, less, total) < Share(a, total, total);
    assert Share(a, less, total) >= a.slack(Share(a, total, total));
  }

  lemma SmallShare(total: nat)
    requires total >= 1_000_000_000
    ensures 0.0 < 1.0 / total as real <= TOLERANCE
  {
    Inverses(total as real, 1000000000.0);
  }

  lemma ShareOfMany(total: nat)
    requires 0 < total < 1_000_000_000
    ensures 1.0 / total as real > TOLERANCE
  {
    Smaller(TOLERANCE, total as real, 999_999_999.0);
  }

  lemma Inverses(t: real, u: real)
    requires t >= u > 0.0
    ensures 0.0 < 1.0 / t <= 1.0 / u
  {
    assert 1.0 / u - 1.0 / t == (t - u) / (t * u);
  }

  lemma SmallerShare(less: nat, more: nat, total: nat)
    requires total > 0
    ensures less as real / total as real < more as real / total as real ==> less < more
  {
    if less > more {
      Ratio(more, less, total);
    }
  }

  /** Rounded accuracies, as doubles between 0 and 1 are: every result errs by 2^-53 at most. */
  ghost predicate RoundedAccuracy(a: Arithmetic) {
    && (forall n: nat, d: nat :: n <= d && d > 0 ==> -ULP <= a.quotient(n, d) - n as real / d as real <= ULP)
    && (forall x :: 0.0 <= x <= 1.0 ==> -ULP <= a.slack(x) - (x - TOLERANCE) <= ULP)
    && (forall n: nat, d: nat :: n <= d && d > 0 ==> 0.0 <= a.quotient(n, d) <= 1.0)
  }

  const ULP: real := 1.0 / 9007199254740992.0

  lemma SafeStep(total: nat)
    requires 0 < total <= 999_000_000
    ensures 1.0 / total as real > TOLERANCE + 3.0 * ULP
  {
    var t := total as real;
    assert (TOLERANCE + 3.0 * ULP) * 999_000_000.0 < 1.0;
    Smaller(TOLERANCE + 3.0 * ULP, t, 999_000_000.0);
  }

  lemma Divide(x: real, y: real, t: real)
    requires x < y && t > 0.0
    ensures x / t < y / t
  {}

  lemma Smaller(c: real, t: real, max: real)
    requires c > 0.0 && 0.0 < t <= max && c * max < 1.0
    ensures 1.0 / t > c
  {
    var product, bound := c * t, c * max;
    assert bound - product == c * (max - t) >= 0.0;
    Divide(product, 1.0, t);
    assert product / t == c;
  }

  /** With rounded accuracies corpora up to 999 million primary entries are safe. */
  lemma RoundedBound(a: Arithmetic, total: nat)
    requires RoundedAccuracy(a) && total <= 999_000_000
    requires forall n: nat, m: nat :: n <= m <= total && total > 0 ==> a.quotient(n, total) <= a.quotient(m, total)
    ensures Separated(a, total)
  {
    forall less: nat, more: nat | less <= total && more <= total && Share(a, less, total) < Share(a, more, total)
      ensures Share(a, less, total) < a.slack(Share(a, more, total))
    {
      assert less < more;
      RoundedStep(a, less, more, total);
    }
  }

  lemma RoundedStep(a: Arithmetic, less: nat, more: nat, total: nat)
    requires RoundedAccuracy(a) && less < more <= total <= 999_000_000
    ensures a.quotient(less, total) < a.slack(a.quotient(more, total))
  {
    Ratio(less, more, total);
    SafeStep(total);
    var x, y := a.quotient(less, total), a.quotient(more, total);
    var u, v := less as real / total as real, more as real / total as real;
    hide ULP;
    assert x <= u + ULP && y >= v - ULP && a.slack(y) >= y - TOLERANCE - ULP;
  }

  // ---- what is decided, counted and recommended ---------------------------------------------

  /** The first score reaches the threshold and leads every other by more than the band. */
  predicate ClearLead(a: Arithmetic, scored: seq<Scored>, threshold: real, band: real) {
    && scored != [] && scored[0].confidence >= threshold
    && forall i :: 0 < i < |scored| ==> a.lead(scored[0].confidence, scored[i].confidence) > band
  }

  /** A score does not lead itself. */
  ghost predicate Levels(a: Arithmetic) {
    forall x :: a.lead(x, x) == 0.0
  }

  /** There is no signal without scores, the first workflow is named on a clear lead, and otherwise
      nothing is. */
  lemma DecidesExactly(a: Arithmetic, p: Prepared, threshold: real, band: real)
    requires Levels(a) && band >= 0.0
    ensures Decide(a, p, threshold, band) ==
      if p.scored == [] then NoSignal
      else if ClearLead(a, p.scored, threshold, band) then Chosen(p.scored[0].workflowId) else Tied
  {
    if p.scored != [] {
      PrimaryMeansClearLead(a, p, threshold, band);
    }
  }

  lemma {:induction false} CountExactly(f: Prepared -> bool, entries: seq<Prepared>)
    ensures Count(f, entries) == |set i | 0 <= i < |entries| && f(entries[i])|
    decreases |entries|
  {
    if entries != [] {
      var last := |entries| - 1;
      CountExactly(f, entries[..last]);
      var before := set i | 0 <= i < |entries[..last]| && f(entries[..last][i]);
      var all := set i | 0 <= i < |entries| && f(entries[i]);
      assert all == before + (if f(entries[last]) then {last} else {});
    }
  }

  predicate AsksPrimary(p: Prepared) {
    p.expected.Primary?
  }

  predicate GetsPrimary(a: Arithmetic, p: Prepared, threshold: real, band: real) {
    p.expected.Primary? && ClearLead(a, p.scored, threshold, band) && p.scored[0].workflowId == p.expected.workflowId
  }

  /** A primary is false where candidates or nothing were expected; a product mismatch is no part of it. */
  predicate GetsFalsePrimary(a: Arithmetic, p: Prepared, threshold: real, band: real) {
    (p.expected.Candidates? || p.expected.InsufficientSignal?) && ClearLead(a, p.scored, threshold, band)
  }

  /** What a cell counts: the entries that ask for a primary, those of them whose own workflow has a
      clear lead, and those with a clear lead that ask for none; it is feasible without the last. */
  lemma CellExactly(a: Arithmetic, entries: seq<Prepared>, threshold: real, band: real)
    requires Levels(a) && band >= 0.0
    ensures var c := CellOf(a, entries, threshold, band);
      && c.threshold == threshold && c.band == band
      && c.primaryTotal == |set i | 0 <= i < |entries| && AsksPrimary(entries[i])|
      && c.primaryCorrect == |set i | 0 <= i < |entries| && GetsPrimary(a, entries[i], threshold, band)|
      && c.falsePrimaries == |set i | 0 <= i < |entries| && GetsFalsePrimary(a, entries[i], threshold, band)|
      && (c.Feasible() <==> c.falsePrimaries == 0)
      && c.Accuracy(a) == (if c.primaryTotal > 0 then a.quotient(c.primaryCorrect, c.primaryTotal) else 0.0)
  {
    forall p: Prepared
      ensures Correct(a, p, threshold, band) <==> GetsPrimary(a, p, threshold, band)
      ensures FalsePrimary(a, p, threshold, band) <==> GetsFalsePrimary(a, p, threshold, band)
    {
      DecidesExactly(a, p, threshold, band);
    }
    hide Correct;
    hide FalsePrimary;
    hide GetsPrimary;
    hide GetsFalsePrimary;
    var right := (p: Prepared) => Correct(a, p, threshold, band);
    var wrong := (p: Prepared) => FalsePrimary(a, p, threshold, band);
    var asks := (p: Prepared) => WantsPrimary(p);
    CountExactly(asks, entries);
    CountExactly(right, entries);
    CountExactly(wrong, entries);
    assert (set i | 0 <= i < |entries| && asks(entries[i])) == set i | 0 <= i < |entries| && AsksPrimary(entries[i]);
    assert (set i | 0 <= i < |entries| && right(entries[i])) == set i | 0 <= i < |entries| && GetsPrimary(a, entries[i], threshold, band);
    assert (set i | 0 <= i < |entries| && wrong(entries[i])) == set i | 0 <= i < |entries| && GetsFalsePrimary(a, entries[i], threshold, band);
  }

  /** Of all cells that may be recommended it is the nearest to the recorded default, of those the one
      of the lowest threshold, and of those the one of the lowest band. */
  lemma RecommendedIsNearest(a: Arithmetic, results: seq<Cell>, c: Cell)
    requires Recommend(a, results).Some? && c in results && c.falsePrimaries == 0
    requires forall b :: b in results && b.falsePrimaries == 0 ==> c.Accuracy(a) >= a.slack(b.Accuracy(a))
    ensures var r := Recommend(a, results).value;
      var near, far := a.distance(r.threshold, r.band), a.distance(c.threshold, c.band);
      && near <= far
      && (near == far ==> r.threshold <= c.threshold)
      && (near == far && r.threshold == c.threshold ==> r.band <= c.band)
  {
    var feasible := Feasible(results);
    assert c in feasible;
    var best :| best in feasible && best.Accuracy(a) == Best(a, feasible);
    assert c in Front(a, results);
    assert !Before(a, c, Recommend(a, results).value);
  }
}
