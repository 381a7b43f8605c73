/** Binarised predictions and the macro-averaged F1 score that the threshold
    search ranks candidates by. Labels and predictions are booleans: `true` is
    the fraud class (label 1), `false` the legitimate class (label 0). */
module Metrics {

  /** Number of `true` entries. */
  function Positives(s: seq<bool>): (r: nat)
    ensures r <= |s|
  {
    if s == [] then 0 else (if s[0] then 1 else 0) + Positives(s[1..])
  }

  /** `(proba >= t).astype(int)`: a row is predicted positive exactly when its
      probability reaches the threshold. */
  function Predict(proba: seq<real>, t: real): (pred: seq<bool>)
    ensures |pred| == |proba|
    ensures forall i :: 0 <= i < |proba| ==> (pred[i] <==> proba[i] >= t)
  {
    if proba == [] then [] else [proba[0] >= t] + Predict(proba[1..], t)
  }

  /** Thresholds that no probability separates give the same predictions. */
  lemma PredictSameClassification(proba: seq<real>, a: real, b: real)
    requires forall i :: 0 <= i < |proba| ==> (proba[i] >= a <==> proba[i] >= b)
    ensures Predict(proba, a) == Predict(proba, b)
  {
  }

  /** Confusion counts, with the fraud class as the positive class. */
  datatype Confusion = Confusion(truePos: nat, falsePos: nat, falseNeg: nat, trueNeg: nat)

  function Tally(y: seq<bool>, pred: seq<bool>): (c: Confusion)
    requires |y| == |pred|
    ensures c.truePos + c.falsePos + c.falseNeg + c.trueNeg == |y|
    ensures c.truePos + c.falseNeg == Positives(y)
    ensures c.truePos + c.falsePos == Positives(pred)
  {
    if y == [] then Confusion(0, 0, 0, 0)
    else
      var c := Tally(y[1..], pred[1..]);
      assert y == [y[0]] + y[1..] && pred == [pred[0]] + pred[1..];
      if y[0] && pred[0] then c.(truePos := c.truePos + 1)
      else if pred[0] then c.(falsePos := c.falsePos + 1)
      else if y[0] then c.(falseNeg := c.falseNeg + 1)
      else c.(trueNeg := c.trueNeg + 1)
  }

  /** The prediction makes no error exactly when it equals the labels. */
  lemma {:induction false} NoErrorsIffExact(y: seq<bool>, pred: seq<bool>)
    requires |y| == |pred|
    ensures Tally(y, pred).falsePos + Tally(y, pred).falseNeg == 0 <==> y == pred
  {
    if y != [] {
      NoErrorsIffExact(y[1..], pred[1..]);
      assert y == [y[0]] + y[1..] && pred == [pred[0]] + pred[1..];
    }
  }

  /** F1 of one class from its true positives, false positives and false
      negatives; a class with an empty denominator scores 0. */
  function ClassF1(tp: nat, fp: nat, fn: nat): (r: real)
    ensures 0.0 <= r <= 1.0
    ensures r == 1.0 <==> tp > 0 && fp == 0 && fn == 0
  {
    var d := 2 * tp + fp + fn;
    if d == 0 then 0.0
    else
      var r := (2 * tp) as real / d as real;
      assert r * d as real == (2 * tp) as real;
      r
  }

  /** `f1_score(y, pred, average='macro')`: the unweighted mean of the per-class
      F1 over the classes that occur in the labels or in the predictions. */
  function MacroF1(y: seq<bool>, pred: seq<bool>): (r: real)
    requires |y| == |pred|
    ensures 0.0 <= r <= 1.0
  {
    var c := Tally(y, pred);
    var fraudPresent := c.truePos + c.falsePos + c.falseNeg > 0;
    var legitPresent := c.trueNeg + c.falsePos + c.falseNeg > 0;
    var fraudF1 := ClassF1(c.truePos, c.falsePos, c.falseNeg);
    var legitF1 := ClassF1(c.trueNeg, c.falseNeg, c.falsePos);
    if fraudPresent && legitPresent then (fraudF1 + legitF1) / 2.0
    else if fraudPresent then fraudF1
    else if legitPresent then legitF1
    else 0.0
  }

  /** On a non-empty set of rows the macro-F1 is perfect exactly when every
      prediction is right. */
  lemma MacroF1PerfectExactly(y: seq<bool>, pred: seq<bool>)
    requires |y| == |pred| && |y| > 0
    ensures MacroF1(y, pred) == 1.0 <==> y == pred
  {
    NoErrorsIffExact(y, pred);
  }

  /** Macro-F1 of the predictions at threshold `t`. */
  function Score(y: seq<bool>, proba: seq<real>, t: real): real
    requires |y| == |proba|
  {
    MacroF1(y, Predict(proba, t))
  }

  /** On a non-empty set of rows a threshold scores a perfect 1 exactly when
      it separates the labels: every fraud reaches it and no legitimate row
      does. */
  lemma ScorePerfectAt(y: seq<bool>, proba: seq<real>, t: real)
    requires |y| == |proba| && |y| > 0
    ensures Score(y, proba, t) == 1.0 <==> forall i :: 0 <= i < |y| ==> (y[i] <==> proba[i] >= t)
  {
    var pred := Predict(proba, t);
    MacroF1PerfectExactly(y, pred);
    if forall i :: 0 <= i < |y| ==> (y[i] <==> proba[i] >= t) {
      assert y == pred;
    }
  }
}
