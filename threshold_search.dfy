/** Decision-threshold selection over out-of-fold probabilities
    (ml2/src/threshold_search.py): the quota threshold, the max-macro-F1 sweep,
    the quota grid with its best-row choice, and the out-of-fold scatter. */
module ThresholdSearch {
  import opened Common
  import opened Metrics
  import opened OrderStatistics

  datatype Error =
    | EmptyProbabilities  // np.partition on an empty vector raises
    | EmptyGrid           // max() over an empty grid raises

  // Quota threshold ---------------------------------------------------------

  /** `max(1, min(n - 1, quota))`. */
  function EffectiveQuota(n: nat, quota: int): (q: int)
    ensures 1 <= q <= if n >= 2 then n - 1 else 1
    ensures 1 <= quota <= n - 1 ==> q == quota
    ensures quota < 1 ==> q == 1
    ensures n >= 2 && quota > n - 1 ==> q == n - 1
  {
    var upper := if n - 1 < quota then n - 1 else quota;
    if 1 < upper then upper else 1
  }

  /** Clamping keeps the order of the requested quotas. */
  lemma EffectiveQuotaMonotone(n: nat, q1: int, q2: int)
    requires q1 <= q2
    ensures EffectiveQuota(n, q1) <= EffectiveQuota(n, q2)
  {
  }

  /** `positive_quota_threshold`: the q-th largest probability for the clamped
      quota q, so that at least q rows reach it and fewer than q exceed it. */
  function PositiveQuotaThreshold(proba: seq<real>, quota: int): (r: Result<real, Error>)
    ensures r.Failure? <==> proba == []
    ensures r.Success? ==> r.value in proba
    ensures r.Success? ==>
      CountAbove(proba, r.value) < EffectiveQuota(|proba|, quota) <= CountAtLeast(proba, r.value)
  {
    if proba == [] then Failure(EmptyProbabilities)
    else Success(KthLargest(proba, EffectiveQuota(|proba|, quota)))
  }

  /** A larger requested quota never gives a larger threshold. */
  lemma QuotaThresholdAntitone(proba: seq<real>, q1: int, q2: int)
    requires proba != []
    requires q1 <= q2
    ensures PositiveQuotaThreshold(proba, q2).value <= PositiveQuotaThreshold(proba, q1).value
  {
    EffectiveQuotaMonotone(|proba|, q1, q2);
    KthLargestAntitone(proba, EffectiveQuota(|proba|, q1), EffectiveQuota(|proba|, q2));
  }

  /** The rows predicted positive at a threshold are the rows whose probability
      reaches it. */
  lemma {:induction false} PositivesAtThreshold(proba: seq<real>, t: real)
    ensures Positives(Predict(proba, t)) == CountAtLeast(proba, t)
  {
    if proba != [] {
      PositivesAtThreshold(proba[1..], t);
      assert Predict(proba, t)[1..] == Predict(proba[1..], t);
    }
  }

  /** Without ties among the probabilities the quota threshold yields exactly
      the clamped quota of positive predictions. */
  lemma QuotaExactWithoutTies(proba: seq<real>, quota: int)
    requires proba != []
    requires Distinct(proba)
    ensures Positives(Predict(proba, PositiveQuotaThreshold(proba, quota).value))
         == EffectiveQuota(|proba|, quota)
  {
    var t := PositiveQuotaThreshold(proba, quota).value;
    CountEqualDistinct(proba, t);
    PositivesAtThreshold(proba, t);
  }

  // Max-F1 sweep --------------------------------------------------------------

  /** `max_f1_threshold`: sweep the distinct probabilities in ascending order and
      keep the first candidate with a strictly better macro-F1. */
  method MaxF1Threshold(y: seq<bool>, proba: seq<real>) returns (thr: real)
    requires |y| == |proba|
    ensures proba == [] ==> thr == 0.5
    ensures proba != [] ==> thr in proba
    ensures forall t :: t in proba ==> Score(y, proba, t) <= Score(y, proba, thr)
    ensures forall t :: t in proba && Score(y, proba, t) == Score(y, proba, thr) ==> thr <= t
  {
    var thrs := Unique(proba);
    ghost var bestIdx;
    thr, bestIdx := FirstBestCandidate(t => Score(y, proba, t), thrs);
    if thrs != [] {
      SweepIsFirstBest(y, proba, thrs, bestIdx);
    }
  }

  /** The loop of `max_f1_threshold` over a list of candidates: starting from
      0.5 with score -1, a candidate replaces the best only with a strictly
      larger score, so the first maximal candidate is kept. Scores are
      macro-F1 values, never negative, so the first candidate always replaces
      the initial 0.5. */
  method FirstBestCandidate(score: real -> real, thrs: seq<real>) returns (thr: real, ghost bestIdx: nat)
    requires forall t :: 0.0 <= score(t)
    ensures thrs == [] ==> thr == 0.5
    ensures thrs != [] ==> bestIdx < |thrs| && thr == thrs[bestIdx]
    ensures thrs != [] ==> forall j :: 0 <= j < |thrs| ==> score(thrs[j]) <= score(thr)
    ensures thrs != [] ==> forall j :: 0 <= j < bestIdx ==> score(thrs[j]) < score(thr)
  {
    var bestF1 := -1.0;
    thr, bestIdx := 0.5, 0;
    for i := 0 to |thrs|
      invariant i == 0 ==> thr == 0.5 && bestF1 == -1.0
      invariant bestIdx <= i
      invariant i > 0 ==> bestIdx < i && thr == thrs[bestIdx] && bestF1 == score(thr)
      invariant forall j :: 0 <= j < i ==> score(thrs[j]) <= bestF1
      invariant forall j :: 0 <= j < bestIdx ==> score(thrs[j]) < bestF1
    {
      var t := thrs[i];
      var f1 := score(t);
      if f1 > bestF1 {
        bestF1, thr := f1, t;
        bestIdx := i;
      }
    }
  }

  /** Over the distinct probabilities, the first best candidate is a best
      threshold over all probabilities, and the smallest among ties. */
  lemma SweepIsFirstBest(y: seq<bool>, proba: seq<real>, thrs: seq<real>, bestIdx: nat)
    requires |y| == |proba|
    requires Increasing(thrs) && forall z :: z in thrs <==> z in proba
    requires bestIdx < |thrs|
    requires forall j :: 0 <= j < |thrs| ==> Score(y, proba, thrs[j]) <= Score(y, proba, thrs[bestIdx])
    requires forall j :: 0 <= j < bestIdx ==> Score(y, proba, thrs[j]) < Score(y, proba, thrs[bestIdx])
    ensures forall t :: t in proba ==> Score(y, proba, t) <= Score(y, proba, thrs[bestIdx])
    ensures forall t :: t in proba && Score(y, proba, t) == Score(y, proba, thrs[bestIdx]) ==> thrs[bestIdx] <= t
  {
    forall t | t in proba
      ensures Score(y, proba, t) <= Score(y, proba, thrs[bestIdx])
      ensures Score(y, proba, t) == Score(y, proba, thrs[bestIdx]) ==> thrs[bestIdx] <= t
    {
      assert t in thrs;
      var j :| 0 <= j < |thrs| && thrs[j] == t;
      if Score(y, proba, t) == Score(y, proba, thrs[bestIdx]) {
        assert bestIdx <= j;
      }
    }
  }

  /** Smallest entry at or above `a`. */
  function SmallestAtLeast(s: seq<real>, a: real): (r: real)
    requires exists i :: 0 <= i < |s| && s[i] >= a
    ensures r in s && r >= a
    ensures forall i :: 0 <= i < |s| && s[i] >= a ==> r <= s[i]
  {
    if |s| == 1 then s[0]
    else if exists i :: 1 <= i < |s| && s[i] >= a then
      assert exists i :: 0 <= i < |s[1..]| && s[1..][i] >= a by {
        var i :| 1 <= i < |s| && s[i] >= a;
        assert s[1..][i - 1] == s[i];
      }
      var m := SmallestAtLeast(s[1..], a);
      assert forall i :: 1 <= i < |s| ==> s[i] == s[1..][i - 1];
      if s[0] >= a && s[0] < m then s[0] else m
    else s[0]
  }

  /** A best threshold over the candidates does at least as well as the fixed
      reference threshold 0.5, provided some probability reaches 0.5. */
  lemma BestBeatsReference(y: seq<bool>, proba: seq<real>, thr: real)
    requires |y| == |proba|
    requires forall t :: t in proba ==> Score(y, proba, t) <= Score(y, proba, thr)
    requires exists i :: 0 <= i < |proba| && proba[i] >= 0.5
    ensures Score(y, proba, 0.5) <= Score(y, proba, thr)
  {
    var t0 := SmallestAtLeast(proba, 0.5);
    PredictSameClassification(proba, 0.5, t0);
  }

  /** When every probability is below 0.5 the guarantee fails: on two
      legitimate rows scored 0.1 and 0.2, every candidate scores below 0.5. */
  lemma ReferenceCanBeatEveryCandidate()
    ensures var y, proba := [false, false], [0.1, 0.2];
      forall t :: t in proba ==> Score(y, proba, t) < Score(y, proba, 0.5)
  {
    var y, proba := [false, false], [0.1, 0.2];
    assert Predict(proba, 0.5) == [false, false];
    assert Predict(proba, 0.1) == [true, true];
    assert Predict(proba, 0.2) == [false, true];
    assert Tally(y, [false, false]) == Confusion(0, 0, 0, 2);
    assert Tally(y, [true, true]) == Confusion(0, 2, 0, 0);
    assert Tally(y, [false, true]) == Confusion(0, 1, 0, 1);
    assert Score(y, proba, 0.5) == 1.0;
    assert Score(y, proba, 0.1) == 0.0;
    assert Score(y, proba, 0.2) == 1.0 / 3.0;
  }

  // Result grid and selection --------------------------------------------------

  /** One row of `grid_info`; `targetPos` is absent for the max-F1 strategy. */
  datatype GridRow = GridRow(targetPos: Option<int>, thr: real, macroF1: real)

  /** The grid and the row the search selected. */
  datatype Selection = Selection(rows: seq<GridRow>, bestIndex: nat, bestThr: real)

  /** Row `k` has the maximal macro-F1 and every earlier row scores strictly
      less: the first maximal row. */
  predicate IsFirstBest(rows: seq<GridRow>, k: nat) {
    k < |rows| &&
    (forall j :: 0 <= j < |rows| ==> rows[j].macroF1 <= rows[k].macroF1) &&
    (forall j :: 0 <= j < k ==> rows[j].macroF1 < rows[k].macroF1)
  }

  /** `max(grid_info, key=lambda d: d["macro_f1"])`: left to right, a row
      replaces the best only with a strictly larger score, so the first
      maximal row wins. */
  function FirstBest(rows: seq<GridRow>): (k: nat)
    requires |rows| > 0
    ensures IsFirstBest(rows, k)
  {
    if |rows| == 1 then 0
    else
      var last := |rows| - 1;
      var k := FirstBest(rows[..last]);
      assert forall j :: 0 <= j < last ==> rows[..last][j] == rows[j];
      if rows[last].macroF1 > rows[k].macroF1 then last else k
  }

  /** The grid row for one requested quota. */
  function QuotaRow(y: seq<bool>, proba: seq<real>, q: int): GridRow
    requires |y| == |proba|
    requires proba != []
  {
    var thr := PositiveQuotaThreshold(proba, q).value;
    GridRow(Some(q), thr, Score(y, proba, thr))
  }

  /** Proof step for `QuotaGrid`: the row the loop builds field by field is
      the grid row, stated once here so that the loop's check does not unfold
      the macro-F1 behind every row. */
  lemma QuotaRowFields(y: seq<bool>, proba: seq<real>, q: int)
    requires |y| == |proba| && proba != []
    ensures QuotaRow(y, proba, q) ==
      GridRow(Some(q), PositiveQuotaThreshold(proba, q).value, Score(y, proba, PositiveQuotaThreshold(proba, q).value))
  {
  }

  /** A grid row's threshold is one of the probabilities and sits at the
      requested (clamped) quota; without ties it predicts exactly that many
      positives. */
  lemma QuotaRowMeetsQuota(y: seq<bool>, proba: seq<real>, q: int)
    requires |y| == |proba|
    requires proba != []
    ensures QuotaRow(y, proba, q).thr in proba
    ensures CountAbove(proba, QuotaRow(y, proba, q).thr) < EffectiveQuota(|proba|, q)
    ensures EffectiveQuota(|proba|, q) <= CountAtLeast(proba, QuotaRow(y, proba, q).thr)
    ensures Distinct(proba) ==> Positives(Predict(proba, QuotaRow(y, proba, q).thr)) == EffectiveQuota(|proba|, q)
  {
    if Distinct(proba) {
      QuotaExactWithoutTies(proba, q);
    }
  }

  /** The loop over `positive_quota_grid`: one row per requested quota, in grid
      order; the first quota over an empty vector raises. */
  method QuotaGrid(y: seq<bool>, proba: seq<real>, grid: seq<int>) returns (r: Result<seq<GridRow>, Error>)
    requires |y| == |proba|
    ensures r.Failure? <==> grid != [] && proba == []
    ensures r.Failure? ==> r.error == EmptyProbabilities
    ensures r.Success? ==> |r.value| == |grid| && (grid != [] ==> proba != []) &&
                           forall i :: 0 <= i < |grid| ==> r.value[i] == QuotaRow(y, proba, grid[i])
  {
    var gridInfo: seq<GridRow> := [];
    for i := 0 to |grid|
      invariant i > 0 ==> proba != []
      invariant |gridInfo| == i
      invariant forall j :: 0 <= j < i ==> gridInfo[j] == QuotaRow(y, proba, grid[j])
    {
      var thr := PositiveQuotaThreshold(proba, grid[i]);
      if thr.Failure? {
        return Failure(thr.error);
      }
      var f1 := Score(y, proba, thr.value);
      var row := GridRow(Some(grid[i]), thr.value, f1);
      QuotaRowFields(y, proba, grid[i]);
      gridInfo := gridInfo + [row];
    }
    r := Success(gridInfo);
  }

  /** The positive-quota strategy: the grid rows, then the first row with
      maximal macro-F1 and its threshold; `max` over an empty grid raises. */
  method QuotaSearch(y: seq<bool>, proba: seq<real>, grid: seq<int>) returns (r: Result<Selection, Error>)
    requires |y| == |proba|
    ensures grid == [] <==> r == Failure(EmptyGrid)
    ensures grid != [] && proba == [] <==> r == Failure(EmptyProbabilities)
    ensures r.Success? ==> proba != [] && |r.value.rows| == |grid|
    ensures r.Success? ==> forall i :: 0 <= i < |grid| ==> r.value.rows[i] == QuotaRow(y, proba, grid[i])
    ensures r.Success? ==> IsFirstBest(r.value.rows, r.value.bestIndex)
    ensures r.Success? ==> r.value.bestThr == r.value.rows[r.value.bestIndex].thr
  {
    var rows :- QuotaGrid(y, proba, grid);
    if rows == [] {
      return Failure(EmptyGrid);
    }
    var best := FirstBest(rows);
    r := Success(Selection(rows, best, rows[best].thr));
  }

  /** The strategy switch of the search: "max_f1" gives a single row at the
      sweep's threshold, any other strategy runs the quota grid. */
  method SelectThreshold(strategy: string, y: seq<bool>, proba: seq<real>, grid: seq<int>)
    returns (r: Result<Selection, Error>)
    requires |y| == |proba|
    ensures strategy == "max_f1" ==> r.Success? && |r.value.rows| == 1 && r.value.bestIndex == 0
    ensures strategy == "max_f1" ==> var row := r.value.rows[0];
      row.targetPos == None && row.thr == r.value.bestThr && row.macroF1 == Score(y, proba, row.thr) &&
      (proba == [] ==> row.thr == 0.5) &&
      (proba != [] ==> row.thr in proba) &&
      (forall t :: t in proba ==> Score(y, proba, t) <= row.macroF1) &&
      (forall t :: t in proba && Score(y, proba, t) == row.macroF1 ==> row.thr <= t)
    ensures strategy != "max_f1" ==> (r.Failure? <==> grid == [] || proba == [])
    ensures strategy != "max_f1" && r.Success? ==>
      |r.value.rows| == |grid| && proba != [] &&
      (forall i :: 0 <= i < |grid| ==> r.value.rows[i] == QuotaRow(y, proba, grid[i])) &&
      IsFirstBest(r.value.rows, r.value.bestIndex) &&
      r.value.bestThr == r.value.rows[r.value.bestIndex].thr
  {
    if strategy == "max_f1" {
      var best := MaxF1Threshold(y, proba);
      var f1 := Score(y, proba, best);
      r := Success(Selection([GridRow(None, best, f1)], 0, best));
    } else {
      r := QuotaSearch(y, proba, grid);
      assert r.Failure? ==> r.error == EmptyGrid || r.error == EmptyProbabilities;
    }
  }

  // Out-of-fold scatter --------------------------------------------------------

  /** Fold validation index lists that partition `0..n-1`: every index is in
      range, no index is listed twice (within or across folds), and every row
      is listed. */
  predicate IsPartition(folds: seq<seq<int>>, n: nat) {
    (forall k, j :: 0 <= k < |folds| && 0 <= j < |folds[k]| ==> 0 <= folds[k][j] < n) &&
    (forall k1, j1, k2, j2 ::
       (0 <= k1 < |folds| && 0 <= j1 < |folds[k1]| && 0 <= k2 < |folds| && 0 <= j2 < |folds[k2]| &&
        (k1 != k2 || j1 != j2)) ==> folds[k1][j1] != folds[k2][j2]) &&
    (forall i :: 0 <= i < n ==> Listed(folds, i))
  }

  /** Row `i` is in some fold's validation list. */
  predicate Listed(folds: seq<seq<int>>, i: int) {
    exists k, j :: 0 <= k < |folds| && 0 <= j < |folds[k]| && folds[k][j] == i
  }

  /** `oof_proba = np.zeros(n)` followed by `oof_proba[val_idx] = proba` for
      each fold; `preds[k]` is the held-out probability vector of fold k.
      `writes` counts, per row, how many times it was assigned. */
  method CollectOutOfFold(n: nat, folds: seq<seq<int>>, preds: seq<seq<real>>)
    returns (oof: array<real>, ghost writes: seq<nat>)
    requires |preds| == |folds|
    requires forall k :: 0 <= k < |folds| ==> |preds[k]| == |folds[k]|
    requires IsPartition(folds, n)
    ensures fresh(oof) && oof.Length == n
    ensures |writes| == n && forall i :: 0 <= i < n ==> writes[i] == 1
    ensures forall k, j :: 0 <= k < |folds| && 0 <= j < |folds[k]| ==> oof[folds[k][j]] == preds[k][j]
  {
    oof := new real[n](_ => 0.0);
    writes := seq(n, _ => 0);
    for k := 0 to |folds|
      invariant |writes| == n
      invariant forall k', j' :: 0 <= k' < k && 0 <= j' < |folds[k']| ==>
        oof[folds[k'][j']] == preds[k'][j'] && writes[folds[k'][j']] == 1
      invariant forall i :: (0 <= i < n &&
        (forall k', j' :: 0 <= k' < k && 0 <= j' < |folds[k']| ==> folds[k'][j'] != i)) ==>
        writes[i] == 0
    {
      var valIdx := folds[k];
      for j := 0 to |valIdx|
        invariant |writes| == n
        invariant forall k', j' :: 0 <= k' < k && 0 <= j' < |folds[k']| ==>
          oof[folds[k'][j']] == preds[k'][j'] && writes[folds[k'][j']] == 1
        invariant forall j' :: 0 <= j' < j ==> oof[valIdx[j']] == preds[k][j'] && writes[valIdx[j']] == 1
        invariant forall i :: (0 <= i < n &&
          (forall k', j' :: 0 <= k' < k && 0 <= j' < |folds[k']| ==> folds[k'][j'] != i) &&
          (forall j' :: 0 <= j' < j ==> valIdx[j'] != i)) ==>
          writes[i] == 0
      {
        var row := valIdx[j];
        oof[row] := preds[k][j];
        writes := writes[row := writes[row] + 1];
      }
    }
    forall i | 0 <= i < n
      ensures writes[i] == 1
    {
      assert Listed(folds, i);
    }
  }
}
