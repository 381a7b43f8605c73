/** Feature engineering shared by training and inference (ml2/src/features.py).
    A frame is a map from column name to a column; every column holds one cell
    per row, and a cell is `None` where pandas would hold NaN. */
module Features {
  import opened Common

  // Tables ----------------------------------------------------------------------

  /** A numeric column, or an object/category column of strings. */
  datatype Column = Numeric(nums: seq<Option<real>>) | Categorical(strs: seq<Option<string>>) {
    function Length(): nat {
      match this
      case Numeric(c) => |c|
      case Categorical(c) => |c|
    }
  }

  datatype Frame = Frame(height: nat, columns: map<string, Column>) {
    /** Every column has one cell per row. */
    predicate Valid() {
      forall c :: c in columns ==> columns[c].Length() == height
    }
  }

  /** The string in row `i` of a column; a numeric column holds no strings. */
  function StringAt(col: Column, i: nat): Option<string>
    requires i < col.Length()
  {
    if col.Categorical? then col.strs[i] else None
  }

  /** No cell of the column is missing. */
  predicate Complete(col: Column) {
    match col
    case Numeric(c) => forall i :: 0 <= i < |c| ==> c[i].Some?
    case Categorical(c) => forall i :: 0 <= i < |c| ==> c[i].Some?
  }

  /** Row `i` of the column holds a value (is not NaN). */
  predicate Present(col: Column, i: nat)
    requires i < col.Length()
  {
    match col
    case Numeric(c) => c[i].Some?
    case Categorical(c) => c[i].Some?
  }

  /** Some row holds a value in both columns. */
  predicate SharesRow(a: Column, b: Column) {
    exists i :: 0 <= i < a.Length() && i < b.Length() && Present(a, i) && Present(b, i)
  }

  // Calendar lookups ------------------------------------------------------------

  const MonthMap: map<string, int> :=
    map["JAN" := 1, "FEB" := 2, "MAR" := 3, "APR" := 4, "MAY" := 5, "JUN" := 6,
        "JUL" := 7, "AUG" := 8, "SEP" := 9, "OCT" := 10, "NOV" := 11, "DEC" := 12]

  const DowMap: map<string, int> :=
    map["Monday" := 1, "Tuesday" := 2, "Wednesday" := 3, "Thursday" := 4,
        "Friday" := 5, "Saturday" := 6, "Sunday" := 7]

  /** `.map(table).fillna(0)` on one cell: the table's code for a listed name,
      0 for any other value and for a missing cell. */
  function Code(table: map<string, int>, cell: Option<string>): int {
    if cell.Some? && cell.value in table then table[cell.value] else 0
  }

  /** For a table whose codes lie in [1, hi], a cell's code lies in [0, hi]
      and is non-zero exactly when the cell names an entry of the table. */
  lemma CodeRange(table: map<string, int>, cell: Option<string>, hi: int)
    requires 1 <= hi
    requires forall name :: name in table ==> 1 <= table[name] <= hi
    ensures 0 <= Code(table, cell) <= hi
    ensures Code(table, cell) != 0 <==> cell.Some? && cell.value in table
  {
  }

  /** The month encoding lies in [0, 12] and is 0 exactly off the table. */
  function MonthNumber(cell: Option<string>): (r: int)
    ensures 0 <= r <= 12
    ensures r != 0 <==> cell.Some? && cell.value in MonthMap
  {
    Code(MonthMap, cell)
  }

  /** The weekday encoding lies in [0, 7] and is 0 exactly off the table. */
  function DayNumber(cell: Option<string>): (r: int)
    ensures 0 <= r <= 7
    ensures r != 0 <==> cell.Some? && cell.value in DowMap
  {
    Code(DowMap, cell)
  }

  /** No two month names share a code. */
  lemma MonthMapInjective()
    ensures forall a, b :: a in MonthMap && b in MonthMap && MonthMap[a] == MonthMap[b] ==> a == b
  {
  }

  /** Every code 1..12 names a month. */
  lemma MonthMapOnto()
    ensures forall k :: 1 <= k <= 12 ==> k in MonthMap.Values
  {
    assert MonthMap["JAN"] == 1 && MonthMap["FEB"] == 2 && MonthMap["MAR"] == 3;
    assert MonthMap["APR"] == 4 && MonthMap["MAY"] == 5 && MonthMap["JUN"] == 6;
    assert MonthMap["JUL"] == 7 && MonthMap["AUG"] == 8 && MonthMap["SEP"] == 9;
    assert MonthMap["OCT"] == 10 && MonthMap["NOV"] == 11 && MonthMap["DEC"] == 12;
  }

  /** No two weekday names share a code. */
  lemma DowMapInjective()
    ensures forall a, b :: a in DowMap && b in DowMap && DowMap[a] == DowMap[b] ==> a == b
  {
  }

  /** Every code 1..7 names a weekday. */
  lemma DowMapOnto()
    ensures forall k :: 1 <= k <= 7 ==> k in DowMap.Values
  {
    assert DowMap["Monday"] == 1 && DowMap["Tuesday"] == 2 && DowMap["Wednesday"] == 3;
    assert DowMap["Thursday"] == 4 && DowMap["Friday"] == 5 && DowMap["Saturday"] == 6;
    assert DowMap["Sunday"] == 7;
  }

  function EncodeCells(cells: seq<Option<string>>, table: map<string, int>): (r: seq<Option<real>>)
    ensures |r| == |cells|
    ensures forall i :: 0 <= i < |cells| ==> r[i] == Some(Code(table, cells[i]) as real)
  {
    if cells == [] then [] else [Some(Code(table, cells[0]) as real)] + EncodeCells(cells[1..], table)
  }

  /** `col.map(table).fillna(0).astype(int)`: a numeric column matches no name
      and encodes to all zeros. */
  function Encode(col: Column, table: map<string, int>): (r: Column)
    ensures r.Numeric? && r.Length() == col.Length()
    ensures forall i :: 0 <= i < col.Length() ==> r.nums[i] == Some(Code(table, StringAt(col, i)) as real)
  {
    match col
    case Numeric(c) => Numeric(EncodeCells(seq(|c|, _ => None), table))
    case Categorical(c) => Numeric(EncodeCells(c, table))
  }

  /** Adds an encoded calendar column when its source column exists. */
  function WithLookup(t: Frame, source: string, target: string, table: map<string, int>): (r: Frame)
    requires t.Valid()
    ensures r.Valid() && r.height == t.height
  {
    if source in t.columns then t.(columns := t.columns[target := Encode(t.columns[source], table)])
    else t
  }

  function WithCalendar(t: Frame): (r: Frame)
    requires t.Valid()
    ensures r.Valid() && r.height == t.height
  {
    var withMonth := WithLookup(t, "month", "month_num", MonthMap);
    WithLookup(withMonth, "claim_day_of_week", "claim_day_of_week_num", DowMap)
  }

  // Derived arithmetic columns --------------------------------------------------

  datatype Op = Ratio | Difference | Product

  /** One cell of a derived column. The ratio is `safe_ratio`: 0 when the
      denominator is 0 or missing, otherwise the quotient (missing when the
      numerator is). Difference and product are missing when either side is. */
  function ApplyOp(op: Op, a: Option<real>, b: Option<real>): Option<real> {
    match op
    case Ratio =>
      if b == None || b == Some(0.0) then Some(0.0)
      else if a == None then None
      else Some(a.value / b.value)
    case Difference => if a.Some? && b.Some? then Some(a.value - b.value) else None
    case Product => if a.Some? && b.Some? then Some(a.value * b.value) else None
  }

  /** Each defined cell undoes its operation: the ratio times a usable
      denominator gives back the numerator, the difference plus the right
      operand the left one; the product is symmetric in its operands. A
      difference or product cell is defined exactly when both operands are. */
  lemma ApplyOpInverse(a: Option<real>, b: Option<real>)
    ensures ApplyOp(Ratio, a, b).None? <==> a.None? && b.Some? && b.value != 0.0
    ensures ApplyOp(Ratio, a, b).Some? && b.Some? && b.value != 0.0 ==>
      ApplyOp(Ratio, a, b).value * b.value == a.value
    ensures ApplyOp(Difference, a, b).Some? <==> a.Some? && b.Some?
    ensures ApplyOp(Difference, a, b).Some? ==> ApplyOp(Difference, a, b).value + b.value == a.value
    ensures ApplyOp(Product, a, b) == ApplyOp(Product, b, a)
    ensures ApplyOp(Product, a, b).Some? <==> a.Some? && b.Some?
  {
  }

  function Combine(op: Op, a: seq<Option<real>>, b: seq<Option<real>>): (r: seq<Option<real>>)
    requires |a| == |b|
    ensures |r| == |a|
    ensures forall i :: 0 <= i < |a| ==> r[i] == ApplyOp(op, a[i], b[i])
  {
    if a == [] then [] else [ApplyOp(op, a[0], b[0])] + Combine(op, a[1..], b[1..])
  }

  /** `out[target] = op(out[left], out[right])`, guarded by both sources being
      present. */
  datatype Step = Step(left: string, right: string, target: string, op: Op)

  /** Arithmetic on an object column is retried by pandas on the rows where
      both operands hold a value; it raises a TypeError when such a row meets
      a string. */
  datatype Error = NonNumericOperand(target: string)

  const RatioSteps: seq<Step> := [
    Step("claim_est_payout", "annual_income", "payout_income_ratio", Ratio),
    Step("driver_age", "vehicle_age", "driver_vehicle_age_ratio", Ratio)
  ]
  const DiffStep: Step := Step("driver_age", "vehicle_age", "driver_vehicle_age_diff", Difference)
  const ProductStep: Step := Step("liab_prct", "claim_est_payout", "liab_payout", Product)
  const ArithmeticSteps: seq<Step> := RatioSteps + [DiffStep, ProductStep]

  predicate Applies(t: Frame, s: Step) {
    s.left in t.columns && s.right in t.columns
  }

  predicate NumericSources(t: Frame, s: Step)
    requires Applies(t, s)
  {
    t.columns[s.left].Numeric? && t.columns[s.right].Numeric?
  }

  /** The step meets a string: a source is a string column and some row holds
      a value in both sources. */
  predicate Raises(t: Frame, s: Step)
    requires Applies(t, s)
  {
    !NumericSources(t, s) && SharesRow(t.columns[s.left], t.columns[s.right])
  }

  /** The column a step writes when it does not raise: the cell-wise operation
      over two numeric sources; over a string source with no row holding both
      values, pandas' masked retry leaves an object column of NaN. */
  function DerivedColumn(op: Op, a: Column, b: Column, height: nat): (r: Column)
    requires a.Length() == height && b.Length() == height
    ensures r.Length() == height
    ensures r.Numeric? <==> a.Numeric? && b.Numeric?
    ensures r.Categorical? ==> forall i :: 0 <= i < height ==> r.strs[i] == None
  {
    if a.Numeric? && b.Numeric? then Numeric(Combine(op, a.nums, b.nums))
    else Categorical(seq(height, _ => None))
  }

  function Derive(t: Frame, s: Step): (r: Result<Frame, Error>)
    requires t.Valid()
    ensures r.Failure? <==> Applies(t, s) && Raises(t, s)
    ensures r.Success? ==> r.value.Valid() && r.value.height == t.height
  {
    if Applies(t, s) then
      var a, b := t.columns[s.left], t.columns[s.right];
      if Raises(t, s) then Failure(NonNumericOperand(s.target))
      else Success(t.(columns := t.columns[s.target := DerivedColumn(s.op, a, b, t.height)]))
    else Success(t)
  }

  /** The steps applied in order; the first failing step ends the run. */
  function ApplySteps(t: Frame, steps: seq<Step>): (r: Result<Frame, Error>)
    requires t.Valid()
    ensures r.Success? ==> r.value.Valid() && r.value.height == t.height
    decreases |steps|
  {
    if steps == [] then Success(t)
    else
      var before :- ApplySteps(t, steps[..|steps| - 1]);
      Derive(before, steps[|steps| - 1])
  }

  /** A failure is final: later steps do not run. */
  lemma {:induction false} FailurePersists(t: Frame, steps: seq<Step>, more: seq<Step>)
    requires t.Valid()
    requires ApplySteps(t, steps).Failure?
    ensures ApplySteps(t, steps + more) == ApplySteps(t, steps)
    decreases |more|
  {
    if more != [] {
      var shorter := more[..|more| - 1];
      assert (steps + more)[..|steps + more| - 1] == steps + shorter;
      FailurePersists(t, steps, shorter);
    } else {
      assert steps + more == steps;
    }
  }

  // Null-fill pass --------------------------------------------------------------

  /** `fillna(0)` on a numeric column, `fillna('Unknown')` on a string column. */
  function FillColumn(col: Column): (r: Column)
    ensures r.Numeric? == col.Numeric? && r.Length() == col.Length()
    ensures Complete(r)
    ensures r.Numeric? ==> forall i :: 0 <= i < |r.nums| ==>
      r.nums[i] == (if col.nums[i].Some? then col.nums[i] else Some(0.0))
    ensures r.Categorical? ==> forall i :: 0 <= i < |r.strs| ==>
      r.strs[i] == (if col.strs[i].Some? then col.strs[i] else Some("Unknown"))
  {
    match col
    case Numeric(c) => Numeric(seq(|c|, i requires 0 <= i < |c| => Some(c[i].GetOr(0.0))))
    case Categorical(c) => Categorical(seq(|c|, i requires 0 <= i < |c| => Some(c[i].GetOr("Unknown"))))
  }

  /** `fillna` over every column: each column keeps its kind and is left
      with no missing cell. */
  function FillMissing(t: Frame): (r: Frame)
    requires t.Valid()
    ensures r.Valid() && r.height == t.height && r.columns.Keys == t.columns.Keys
    ensures forall c :: c in r.columns ==> Complete(r.columns[c]) && r.columns[c].Numeric? == t.columns[c].Numeric?
    ensures forall c :: c in r.columns ==> r.columns[c] == FillColumn(t.columns[c])
  {
    t.(columns := map c | c in t.columns :: FillColumn(t.columns[c]))
  }

  // The whole transform ----------------------------------------------------------

  /** What `_base` computes: calendar encodings, then the derived arithmetic
      columns, then the null-fill pass. */
  function Engineered(df: Frame): (r: Result<Frame, Error>)
    requires df.Valid()
    ensures r.Success? ==> r.value.Valid() && r.value.height == df.height
  {
    var derived :- ApplySteps(WithCalendar(df), ArithmeticSteps);
    Success(FillMissing(derived))
  }

  /** Names of the columns `_base` adds (or overwrites) for this input. */
  function Introduced(df: Frame): set<string> {
    (if "month" in df.columns then {"month_num"} else {}) +
    (if "claim_day_of_week" in df.columns then {"claim_day_of_week_num"} else {}) +
    AppliedTargets(df, ArithmeticSteps)
  }

  function AppliedTargets(t: Frame, steps: seq<Step>): set<string> {
    set k | 0 <= k < |steps| && Applies(t, steps[k]) :: steps[k].target
  }

  /** Some derived column whose sources exist meets a string. */
  predicate MeetsStringOperand(t: Frame, steps: seq<Step>) {
    exists k :: 0 <= k < |steps| && Applies(t, steps[k]) && Raises(t, steps[k])
  }

  // General facts about a run of steps --------------------------------------------

  /** No step writes a column that some step reads. */
  predicate Separated(steps: seq<Step>) {
    forall k1, k2 :: 0 <= k1 < |steps| && 0 <= k2 < |steps| ==>
      steps[k2].target != steps[k1].left && steps[k2].target != steps[k1].right
  }

  predicate DistinctTargets(steps: seq<Step>) {
    forall k1, k2 :: 0 <= k1 < k2 < |steps| ==> steps[k1].target != steps[k2].target
  }

  lemma AppliedTargetsSnoc(t: Frame, steps: seq<Step>, s: Step)
    ensures AppliedTargets(t, steps + [s]) ==
      AppliedTargets(t, steps) + (if Applies(t, s) then {s.target} else {})
  {
    var all := steps + [s];
    assert forall k :: 0 <= k < |steps| ==> all[k] == steps[k];
    assert all[|steps|] == s;
    if Applies(t, s) {
      assert s.target in AppliedTargets(t, all);
    }
  }

  /** One step adds its target when it applies and touches nothing else. */
  lemma DeriveFacts(t: Frame, s: Step)
    requires t.Valid()
    requires Derive(t, s).Success?
    ensures Derive(t, s).value.columns.Keys == t.columns.Keys + (if Applies(t, s) then {s.target} else {})
    ensures forall c :: c in t.columns && c != s.target ==> Derive(t, s).value.columns[c] == t.columns[c]
    ensures !Applies(t, s) ==> Derive(t, s).value == t
    ensures Applies(t, s) ==>
      Derive(t, s).value.columns[s.target] == DerivedColumn(s.op, t.columns[s.left], t.columns[s.right], t.height)
  {
  }

  /** A successful run of separated steps adds exactly the applicable targets
      and leaves every other column alone. */
  lemma {:induction false} StepsKeepOthers(t: Frame, steps: seq<Step>)
    requires t.Valid()
    requires Separated(steps)
    requires ApplySteps(t, steps).Success?
    ensures ApplySteps(t, steps).value.columns.Keys == t.columns.Keys + AppliedTargets(t, steps)
    ensures forall c :: c in t.columns && c !in AppliedTargets(t, steps) ==>
      ApplySteps(t, steps).value.columns[c] == t.columns[c]
    decreases |steps|
  {
    if steps == [] {
      return;
    }
    var n := |steps|;
    var prefix, s := steps[..n - 1], steps[n - 1];
    SeparatedPrefix(steps, n - 1);
    StepsKeepOthers(t, prefix);
    AppliedTargetsSnoc(t, prefix, s);
    assert prefix + [s] == steps;
    var before := ApplySteps(t, prefix).value;
    assert s.left !in AppliedTargets(t, prefix) && s.right !in AppliedTargets(t, prefix) by {
      forall k | 0 <= k < n - 1 ensures prefix[k].target != s.left && prefix[k].target != s.right {
        assert prefix[k] == steps[k];
      }
    }
    KeepOthersStep(t, before, AppliedTargets(t, prefix), s);
  }

  /** The inductive step of `StepsKeepOthers`, for one step after a prefix that
      added the targets `done`. */
  lemma KeepOthersStep(t: Frame, before: Frame, done: set<string>, s: Step)
    requires t.Valid() && before.Valid()
    requires before.columns.Keys == t.columns.Keys + done
    requires forall c :: c in t.columns && c !in done ==> before.columns[c] == t.columns[c]
    requires s.left !in done && s.right !in done
    requires Derive(before, s).Success?
    ensures Applies(before, s) == Applies(t, s)
    ensures Derive(before, s).value.columns.Keys ==
      t.columns.Keys + done + (if Applies(t, s) then {s.target} else {})
    ensures forall c :: c in t.columns && c !in done && (c != s.target || !Applies(t, s)) ==>
      Derive(before, s).value.columns[c] == t.columns[c]
  {
    DeriveFacts(before, s);
  }

  lemma SeparatedPrefix(steps: seq<Step>, m: nat)
    requires Separated(steps) && m <= |steps|
    ensures Separated(steps[..m])
  {
    var prefix := steps[..m];
    assert forall k :: 0 <= k < m ==> prefix[k] == steps[k];
  }

  /** Dropping the last step keeps the targets distinct, and none of the
      earlier targets is the last step's. */
  lemma DistinctPrefix(steps: seq<Step>, prefix: seq<Step>, s: Step)
    requires DistinctTargets(steps) && steps == prefix + [s]
    ensures DistinctTargets(prefix)
    ensures forall k :: 0 <= k < |prefix| ==> prefix[k].target != s.target
  {
    assert forall k :: 0 <= k < |prefix| ==> prefix[k] == steps[k];
    assert steps[|prefix|] == s;
  }

  /** Before a step of a separated run, its sources are as in the input. */
  lemma SourcesUntouched(t: Frame, steps: seq<Step>, k: nat)
    requires t.Valid()
    requires Separated(steps)
    requires k < |steps|
    requires ApplySteps(t, steps[..k]).Success?
    ensures var before := ApplySteps(t, steps[..k]).value;
      (Applies(before, steps[k]) <==> Applies(t, steps[k])) &&
      (Applies(t, steps[k]) ==>
        before.columns[steps[k].left] == t.columns[steps[k].left] &&
        before.columns[steps[k].right] == t.columns[steps[k].right])
  {
    var prefix := steps[..k];
    assert forall j :: 0 <= j < k ==> prefix[j] == steps[j];
    assert Separated(prefix);
    StepsKeepOthers(t, prefix);
    assert steps[k].left !in AppliedTargets(t, prefix) && steps[k].right !in AppliedTargets(t, prefix);
  }

  /** A separated run fails exactly when one of its applicable steps meets a
      string column. */
  lemma {:induction false} StepsFailExactly(t: Frame, steps: seq<Step>)
    requires t.Valid()
    requires Separated(steps)
    ensures ApplySteps(t, steps).Failure? <==> MeetsStringOperand(t, steps)
    decreases |steps|
  {
    if steps == [] {
      return;
    }
    var n := |steps|;
    var prefix, s := steps[..n - 1], steps[n - 1];
    assert forall k :: 0 <= k < n - 1 ==> prefix[k] == steps[k];
    assert Separated(prefix);
    StepsFailExactly(t, prefix);
    if ApplySteps(t, prefix).Failure? {
      var k :| 0 <= k < n - 1 && Applies(t, prefix[k]) && Raises(t, prefix[k]);
      assert steps[k] == prefix[k];
      return;
    }
    SourcesUntouched(t, steps, n - 1);
    FailStep(t, ApplySteps(t, prefix).value, s);
    if Derive(ApplySteps(t, prefix).value, s).Failure? {
      assert Applies(t, steps[n - 1]) && Raises(t, steps[n - 1]);
      return;
    }
    forall k | 0 <= k < n - 1
      ensures !(Applies(t, steps[k]) && Raises(t, steps[k]))
    {
      assert prefix[k] == steps[k];
    }
  }

  /** One step over a frame whose copies of the step's sources are the input's
      fails exactly when it raises over the input. */
  lemma FailStep(t: Frame, before: Frame, s: Step)
    requires t.Valid() && before.Valid() && before.height == t.height
    requires Applies(before, s) <==> Applies(t, s)
    requires Applies(t, s) ==>
      before.columns[s.left] == t.columns[s.left] && before.columns[s.right] == t.columns[s.right]
    ensures Derive(before, s).Failure? <==> Applies(t, s) && Raises(t, s)
  {
  }

  /** The inductive step of `StepsComputeTargets`: the step writes its column
      over the input's sources and changes no other column. */
  lemma ComputeStep(t: Frame, before: Frame, s: Step)
    requires t.Valid() && before.Valid() && before.height == t.height
    requires Applies(before, s) <==> Applies(t, s)
    requires Applies(t, s) ==>
      before.columns[s.left] == t.columns[s.left] && before.columns[s.right] == t.columns[s.right]
    requires Derive(before, s).Success?
    ensures Applies(t, s) ==>
      (!Raises(t, s) && s.target in Derive(before, s).value.columns &&
       Derive(before, s).value.columns[s.target] == DerivedColumn(s.op, t.columns[s.left], t.columns[s.right], t.height))
    ensures forall c :: c in before.columns && c != s.target ==>
      (c in Derive(before, s).value.columns && Derive(before, s).value.columns[c] == before.columns[c])
  {
    DeriveFacts(before, s);
  }

  /** `out` holds the column of step `s` over the input `t`'s sources, when
      the step applies (and then it did not raise). */
  predicate Computed(t: Frame, out: Frame, s: Step)
    requires t.Valid()
  {
    Applies(t, s) ==>
      !Raises(t, s) && s.target in out.columns &&
      out.columns[s.target] == DerivedColumn(s.op, t.columns[s.left], t.columns[s.right], t.height)
  }

  /** In a successful separated run with distinct targets, each applicable
      step's target holds the step's column over the input's sources. */
  lemma {:induction false} StepsComputeTargets(t: Frame, steps: seq<Step>)
    requires t.Valid()
    requires Separated(steps) && DistinctTargets(steps)
    requires ApplySteps(t, steps).Success?
    ensures forall k :: 0 <= k < |steps| ==> Computed(t, ApplySteps(t, steps).value, steps[k])
    decreases |steps|
  {
    if steps == [] {
      return;
    }
    var n := |steps|;
    var prefix, s := steps[..n - 1], steps[n - 1];
    assert prefix + [s] == steps;
    SeparatedPrefix(steps, n - 1);
    DistinctPrefix(steps, prefix, s);
    StepsComputeTargets(t, prefix);
    var before := ApplySteps(t, prefix).value;
    SourcesUntouched(t, steps, n - 1);
    ComputeStep(t, before, s);
    TargetsSnoc(t, before, ApplySteps(t, steps).value, prefix, s);
  }

  /** The closing step of `StepsComputeTargets`: the targets computed before
      a step survive it, and the step adds its own. */
  lemma TargetsSnoc(t: Frame, before: Frame, after: Frame, done: seq<Step>, s: Step)
    requires t.Valid()
    requires forall k :: 0 <= k < |done| ==> done[k].target != s.target
    requires forall k :: 0 <= k < |done| ==> Computed(t, before, done[k])
    requires Computed(t, after, s)
    requires forall c :: c in before.columns && c != s.target ==>
      (c in after.columns && after.columns[c] == before.columns[c])
    ensures forall k :: 0 <= k < |done + [s]| ==> Computed(t, after, (done + [s])[k])
  {
    var all := done + [s];
    forall k | 0 <= k < |all|
      ensures Computed(t, after, all[k])
    {
      if k < |done| {
        assert all[k] == done[k];
        assert Computed(t, before, done[k]);
      }
    }
  }

  /** The calendar encodings change only their two target columns. */
  lemma CalendarFacts(df: Frame)
    requires df.Valid()
    ensures WithCalendar(df).columns.Keys ==
      df.columns.Keys + (if "month" in df.columns then {"month_num"} else {}) +
      (if "claim_day_of_week" in df.columns then {"claim_day_of_week_num"} else {})
    ensures forall c :: c in df.columns && c != "month_num" && c != "claim_day_of_week_num" ==>
      WithCalendar(df).columns[c] == df.columns[c]
    ensures "month" in df.columns ==> WithCalendar(df).columns["month_num"] == Encode(df.columns["month"], MonthMap)
    ensures "claim_day_of_week" in df.columns ==>
      WithCalendar(df).columns["claim_day_of_week_num"] == Encode(df.columns["claim_day_of_week"], DowMap)
  {
  }

  lemma ArithmeticStepsWellFormed()
    ensures Separated(ArithmeticSteps) && DistinctTargets(ArithmeticSteps)
  {
    var st := ArithmeticSteps;
    assert st[0] == Step("claim_est_payout", "annual_income", "payout_income_ratio", Ratio);
    assert st[1] == Step("driver_age", "vehicle_age", "driver_vehicle_age_ratio", Ratio);
    assert st[2] == DiffStep && st[3] == ProductStep;
  }

  /** The arithmetic steps see the input's own source columns: the calendar
      targets are none of their sources. */
  lemma CalendarKeepsSources(df: Frame)
    requires df.Valid()
    ensures forall k :: 0 <= k < |ArithmeticSteps| ==>
      (Applies(WithCalendar(df), ArithmeticSteps[k]) <==> Applies(df, ArithmeticSteps[k])) &&
      (Applies(df, ArithmeticSteps[k]) ==>
        WithCalendar(df).columns[ArithmeticSteps[k].left] == df.columns[ArithmeticSteps[k].left] &&
        WithCalendar(df).columns[ArithmeticSteps[k].right] == df.columns[ArithmeticSteps[k].right])
    ensures AppliedTargets(WithCalendar(df), ArithmeticSteps) == AppliedTargets(df, ArithmeticSteps)
  {
    CalendarFacts(df);
    CalendarTargetsNotSources();
  }

  /** Neither calendar target is read by an arithmetic step. */
  lemma CalendarTargetsNotSources()
    ensures forall k :: 0 <= k < |ArithmeticSteps| ==>
      ArithmeticSteps[k].left != "month_num" && ArithmeticSteps[k].right != "month_num" &&
      ArithmeticSteps[k].left != "claim_day_of_week_num" && ArithmeticSteps[k].right != "claim_day_of_week_num"
  {
    var st := ArithmeticSteps;
    assert st[0].left == "claim_est_payout" && st[0].right == "annual_income";
    assert st[1].left == "driver_age" && st[1].right == "vehicle_age";
    assert st[2].left == "driver_age" && st[2].right == "vehicle_age";
    assert st[3].left == "liab_prct" && st[3].right == "claim_est_payout";
  }

  // Properties of the transform --------------------------------------------------

  /** The transform raises exactly when a derived column whose sources exist
      meets a string in a row where both sources hold a value; missing source
      columns never raise. */
  lemma EngineeredFailsExactly(df: Frame)
    requires df.Valid()
    ensures Engineered(df).Failure? <==> MeetsStringOperand(df, ArithmeticSteps)
  {
    var cal := WithCalendar(df);
    ArithmeticStepsWellFormed();
    CalendarKeepsSources(df);
    StepsFailExactly(cal, ArithmeticSteps);
    assert MeetsStringOperand(cal, ArithmeticSteps) <==> MeetsStringOperand(df, ArithmeticSteps) by {
      forall k | 0 <= k < |ArithmeticSteps| && Applies(df, ArithmeticSteps[k])
        ensures Raises(cal, ArithmeticSteps[k]) == Raises(df, ArithmeticSteps[k])
      {
      }
    }
  }

  /** A successful transform is a complete derivation followed by the fill. */
  lemma EngineeredUnfold(df: Frame)
    requires df.Valid()
    requires Engineered(df).Success?
    ensures ApplySteps(WithCalendar(df), ArithmeticSteps).Success?
    ensures Engineered(df).value == FillMissing(ApplySteps(WithCalendar(df), ArithmeticSteps).value)
  {
  }

  /** The output keeps the input's rows and has the input's columns plus
      exactly the introduced ones. */
  lemma EngineeredSchema(df: Frame)
    requires df.Valid()
    requires Engineered(df).Success?
    ensures Engineered(df).value.Valid() && Engineered(df).value.height == df.height
    ensures Engineered(df).value.columns.Keys == df.columns.Keys + Introduced(df)
  {
    var cal := WithCalendar(df);
    EngineeredUnfold(df);
    CalendarFacts(df);
    CalendarKeepsSources(df);
    ArithmeticStepsWellFormed();
    StepsKeepOthers(cal, ArithmeticSteps);
  }

  /** After the fill pass no cell of any column is missing. */
  lemma EngineeredComplete(df: Frame)
    requires df.Valid()
    requires Engineered(df).Success?
    ensures forall c :: c in Engineered(df).value.columns ==> Complete(Engineered(df).value.columns[c])
  {
    EngineeredUnfold(df);
  }

  /** Every input column that the transform does not introduce is kept, with
      only its missing cells filled. */
  lemma EngineeredKeepsOriginals(df: Frame)
    requires df.Valid()
    requires Engineered(df).Success?
    ensures forall c :: c in df.columns && c !in Introduced(df) ==>
      c in Engineered(df).value.columns && Engineered(df).value.columns[c] == FillColumn(df.columns[c])
  {
    var cal := WithCalendar(df);
    EngineeredUnfold(df);
    CalendarFacts(df);
    CalendarKeepsSources(df);
    ArithmeticStepsWellFormed();
    StepsKeepOthers(cal, ArithmeticSteps);
    var derived := ApplySteps(cal, ArithmeticSteps).value;
    forall c | c in df.columns && c !in Introduced(df)
      ensures c in derived.columns && derived.columns[c] == df.columns[c]
    {
      assert cal.columns[c] == df.columns[c];
    }
  }

  /** The names the calendar encodings write are none of the derived
      arithmetic columns. */
  lemma CalendarTargetsNotDerived()
    ensures "month_num" !in AppliedTargetsAny(ArithmeticSteps)
    ensures "claim_day_of_week_num" !in AppliedTargetsAny(ArithmeticSteps)
  {
    var st := ArithmeticSteps;
    assert st[0].target == "payout_income_ratio" && st[1].target == "driver_vehicle_age_ratio";
    assert st[2].target == "driver_vehicle_age_diff" && st[3].target == "liab_payout";
  }

  function AppliedTargetsAny(steps: seq<Step>): set<string> {
    set k | 0 <= k < |steps| :: steps[k].target
  }

  /** `month_num` is the month code of each row, in [0, 12]; likewise
      `claim_day_of_week_num` is the weekday code, in [0, 7]. */
  lemma EngineeredCalendar(df: Frame)
    requires df.Valid()
    requires Engineered(df).Success?
    ensures var out := Engineered(df).value;
      "month" in df.columns ==>
        "month_num" in out.columns && out.columns["month_num"].Numeric? &&
        |out.columns["month_num"].nums| == df.height &&
        forall i :: 0 <= i < df.height ==>
          out.columns["month_num"].nums[i] == Some(MonthNumber(StringAt(df.columns["month"], i)) as real) &&
          0 <= MonthNumber(StringAt(df.columns["month"], i)) <= 12
    ensures var out := Engineered(df).value;
      "claim_day_of_week" in df.columns ==>
        "claim_day_of_week_num" in out.columns && out.columns["claim_day_of_week_num"].Numeric? &&
        |out.columns["claim_day_of_week_num"].nums| == df.height &&
        forall i :: 0 <= i < df.height ==>
          out.columns["claim_day_of_week_num"].nums[i] ==
            Some(DayNumber(StringAt(df.columns["claim_day_of_week"], i)) as real) &&
          0 <= DayNumber(StringAt(df.columns["claim_day_of_week"], i)) <= 7
  {
    var cal := WithCalendar(df);
    ArithmeticStepsWellFormed();
    CalendarFacts(df);
    CalendarTargetsNotDerived();
    StepsKeepOthers(cal, ArithmeticSteps);
    assert AppliedTargets(cal, ArithmeticSteps) <= AppliedTargetsAny(ArithmeticSteps);
  }

  /** Each derived column whose sources both exist is the step's column over
      the input's source columns, with missing cells then filled. */
  lemma EngineeredDerived(df: Frame, k: nat)
    requires df.Valid()
    requires Engineered(df).Success?
    requires k < |ArithmeticSteps| && Applies(df, ArithmeticSteps[k])
    ensures var s, out := ArithmeticSteps[k], Engineered(df).value;
      !Raises(df, s) && s.target in out.columns &&
      out.columns[s.target] == FillColumn(DerivedColumn(s.op, df.columns[s.left], df.columns[s.right], df.height))
  {
    var cal := WithCalendar(df);
    ArithmeticStepsWellFormed();
    CalendarKeepsSources(df);
    StepsComputeTargets(cal, ArithmeticSteps);
    assert Computed(cal, ApplySteps(cal, ArithmeticSteps).value, ArithmeticSteps[k]);
  }

  /** A derived column over a string source that did not raise (no row holds
      both values) is an object column of "Unknown" after the fill. */
  lemma EngineeredStringOperand(df: Frame, k: nat)
    requires df.Valid()
    requires Engineered(df).Success?
    requires k < |ArithmeticSteps| && Applies(df, ArithmeticSteps[k])
    requires !NumericSources(df, ArithmeticSteps[k])
    ensures !SharesRow(df.columns[ArithmeticSteps[k].left], df.columns[ArithmeticSteps[k].right])
    ensures var s, out := ArithmeticSteps[k], Engineered(df).value;
      s.target in out.columns && out.columns[s.target].Categorical? &&
      |out.columns[s.target].strs| == df.height &&
      forall i :: 0 <= i < df.height ==> out.columns[s.target].strs[i] == Some("Unknown")
  {
    EngineeredDerived(df, k);
  }

  /** The two ratio columns over numeric sources: 0 where the denominator is 0
      or missing, 0 where only the numerator is missing (after the fill), and
      the quotient elsewhere. */
  lemma EngineeredRatio(df: Frame, k: nat, i: nat)
    requires df.Valid()
    requires Engineered(df).Success?
    requires k < |RatioSteps| && Applies(df, RatioSteps[k])
    requires i < df.height
    ensures var s, out := RatioSteps[k], Engineered(df).value;
      NumericSources(df, s) ==>
        var a, b := df.columns[s.left].nums[i], df.columns[s.right].nums[i];
        s.target in out.columns && out.columns[s.target].Numeric? && i < |out.columns[s.target].nums| &&
        (b == None || b == Some(0.0) ==> out.columns[s.target].nums[i] == Some(0.0)) &&
        (b.Some? && b != Some(0.0) && a == None ==> out.columns[s.target].nums[i] == Some(0.0)) &&
        (b.Some? && b != Some(0.0) && a.Some? ==> out.columns[s.target].nums[i] == Some(a.value / b.value))
  {
    assert ArithmeticSteps[k] == RatioSteps[k];
    assert RatioSteps[k].op == Ratio;
    EngineeredDerived(df, k);
  }

  /** `driver_vehicle_age_diff` over numeric sources: the difference where
      both are present, 0 elsewhere. */
  lemma EngineeredDiff(df: Frame, i: nat)
    requires df.Valid()
    requires Engineered(df).Success?
    requires i < df.height
    ensures Applies(df, DiffStep) && NumericSources(df, DiffStep) ==>
      var out, a, b := Engineered(df).value, df.columns[DiffStep.left].nums[i], df.columns[DiffStep.right].nums[i];
      DiffStep.target in out.columns && out.columns[DiffStep.target].Numeric? &&
      i < |out.columns[DiffStep.target].nums| &&
      out.columns[DiffStep.target].nums[i] == Some(if a.Some? && b.Some? then a.value - b.value else 0.0)
  {
    if Applies(df, DiffStep) {
      assert ArithmeticSteps[2] == DiffStep;
      EngineeredDerived(df, 2);
    }
  }

  /** `liab_payout` over numeric sources: the product where both are present,
      0 elsewhere. */
  lemma EngineeredProduct(df: Frame, i: nat)
    requires df.Valid()
    requires Engineered(df).Success?
    requires i < df.height
    ensures Applies(df, ProductStep) && NumericSources(df, ProductStep) ==>
      var out, a, b := Engineered(df).value, df.columns[ProductStep.left].nums[i], df.columns[ProductStep.right].nums[i];
      ProductStep.target in out.columns && out.columns[ProductStep.target].Numeric? &&
      i < |out.columns[ProductStep.target].nums| &&
      out.columns[ProductStep.target].nums[i] == Some(if a.Some? && b.Some? then a.value * b.value else 0.0)
  {
    if Applies(df, ProductStep) {
      assert ArithmeticSteps[3] == ProductStep;
      EngineeredDerived(df, 3);
    }
  }

  // The builder -----------------------------------------------------------------

  function NumericColumns(t: Frame): set<string> {
    set c | c in t.columns && t.columns[c].Numeric?
  }

  /** The string columns are the rest: together with the numeric ones they
      partition the frame's columns. */
  function CategoricalColumns(t: Frame): (names: set<string>)
    ensures names !! NumericColumns(t)
    ensures names + NumericColumns(t) == t.columns.Keys
  {
    set c | c in t.columns && t.columns[c].Categorical?
  }

  class FeatureBuilder {
    /** `fit_stats`: column-type metadata recorded by `FitTransform`; it never
        affects the values computed. */
    var fitStats: map<string, set<string>>

    constructor (fitStats: Option<map<string, set<string>>>)
      ensures this.fitStats == fitStats.GetOr(map[])
    {
      this.fitStats := fitStats.GetOr(map[]);
    }

    /** `_base`: works on a copy of the input, adds the calendar encodings, the
        ratio columns (one per source pair, in order), the age difference and
        the liability product, then fills what is still missing. */
    method Base(df: Frame) returns (r: Result<Frame, Error>)
      requires df.Valid()
      ensures r == Engineered(df)
    {
      var out := df;
      out := WithLookup(out, "month", "month_num", MonthMap);
      out := WithLookup(out, "claim_day_of_week", "claim_day_of_week_num", DowMap);
      ghost var calendar := out;

      for i := 0 to |RatioSteps|
        invariant out.Valid()
        invariant ApplySteps(calendar, RatioSteps[..i]) == Success(out)
      {
        assert RatioSteps[..i + 1][..i] == RatioSteps[..i];
        var next := Derive(out, RatioSteps[i]);
        if next.Failure? {
          FailurePersists(calendar, RatioSteps[..i + 1], RatioSteps[i + 1..] + [DiffStep, ProductStep]);
          assert RatioSteps[..i + 1] + (RatioSteps[i + 1..] + [DiffStep, ProductStep]) == ArithmeticSteps;
          return Failure(next.error);
        }
        out := next.value;
      }
      assert RatioSteps[..|RatioSteps|] == RatioSteps;

      ghost var withDiff := RatioSteps + [DiffStep];
      assert withDiff[..|withDiff| - 1] == RatioSteps;
      var next := Derive(out, DiffStep);
      if next.Failure? {
        FailurePersists(calendar, withDiff, [ProductStep]);
        assert withDiff + [ProductStep] == ArithmeticSteps;
        return Failure(next.error);
      }
      out := next.value;
      assert ApplySteps(calendar, withDiff) == Success(out);

      assert ArithmeticSteps[..|ArithmeticSteps| - 1] == withDiff;
      next := Derive(out, ProductStep);
      if next.Failure? {
        return Failure(next.error);
      }
      out := next.value;
      assert ApplySteps(calendar, ArithmeticSteps) == Success(out);

      out := FillMissing(out);
      r := Success(out);
    }

    /** `fit_transform`: the transform, then the column-type metadata of its
        output. When the transform raises, the metadata is not touched. */
    method FitTransform(df: Frame) returns (r: Result<Frame, Error>)
      requires df.Valid()
      modifies this
      ensures r == Engineered(df)
      ensures r.Success? ==>
        fitStats == old(fitStats)["num_cols" := NumericColumns(r.value)]["cat_cols" := CategoricalColumns(r.value)]
      ensures r.Failure? ==> fitStats == old(fitStats)
    {
      r := Base(df);
      if r.Failure? {
        return;
      }
      fitStats := fitStats["num_cols" := NumericColumns(r.value)];
      fitStats := fitStats["cat_cols" := CategoricalColumns(r.value)];
    }

    /** `transform`: the same transform, whatever `fitStats` holds. */
    method Transform(df: Frame) returns (r: Result<Frame, Error>)
      requires df.Valid()
      ensures r == Engineered(df)
    {
      r := Base(df);
    }
  }
}
