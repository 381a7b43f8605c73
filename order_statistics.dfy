/** Counting and order statistics over a vector of probabilities: what
    `np.partition(proba, -q)[-q]` and `np.unique(proba)` compute. */
module OrderStatistics {

  /** Number of entries `>= t`. */
  function CountAtLeast(s: seq<real>, t: real): (r: nat)
    ensures r <= |s|
    ensures t in s ==> r >= 1
  {
    if s == [] then 0 else (if s[0] >= t then 1 else 0) + CountAtLeast(s[1..], t)
  }

  /** Number of entries `> t`. */
  function CountAbove(s: seq<real>, t: real): (r: nat)
    ensures r <= CountAtLeast(s, t)
    ensures (forall i :: 0 <= i < |s| ==> s[i] <= t) ==> r == 0
  {
    if s == [] then 0 else (if s[0] > t then 1 else 0) + CountAbove(s[1..], t)
  }

  /** Number of entries equal to `t`. */
  function CountEqual(s: seq<real>, t: real): (r: nat)
    ensures CountAtLeast(s, t) == CountAbove(s, t) + r
  {
    if s == [] then 0 else (if s[0] == t then 1 else 0) + CountEqual(s[1..], t)
  }

  /** The largest entry. */
  function Largest(s: seq<real>): (m: real)
    requires |s| > 0
    ensures m in s
    ensures forall i :: 0 <= i < |s| ==> s[i] <= m
  {
    if |s| == 1 then s[0]
    else
      var m := Largest(s[1..]);
      assert forall i :: 1 <= i < |s| ==> s[i] == s[1..][i - 1];
      if s[0] > m then s[0] else m
  }

  /** The entries strictly below `t`, in their original order. */
  function Below(s: seq<real>, t: real): (r: seq<real>)
    ensures |r| + CountAtLeast(s, t) == |s|
    ensures forall x :: x in r <==> x in s && x < t
  {
    if s == [] then []
    else
      assert s == [s[0]] + s[1..];
      if s[0] < t then [s[0]] + Below(s[1..], t) else Below(s[1..], t)
  }

  /** Raising a threshold past `t1` only loses entries: everything `>= t2`
      is already `> t1`. */
  lemma {:induction false} CountAntitone(s: seq<real>, t1: real, t2: real)
    requires t1 < t2
    ensures CountAtLeast(s, t2) <= CountAbove(s, t1)
  {
    if s != [] {
      CountAntitone(s[1..], t1, t2);
    }
  }

  /** Counting against `t <= m` splits into the entries `>= m` and the entries
      of `Below(s, m)`. */
  lemma {:induction false} CountSplit(s: seq<real>, t: real, m: real)
    requires t <= m
    ensures CountAtLeast(s, t) == CountAtLeast(Below(s, m), t) + CountAtLeast(s, m)
    ensures t < m ==> CountAbove(s, t) == CountAbove(Below(s, m), t) + CountAtLeast(s, m)
  {
    if s != [] {
      CountSplit(s[1..], t, m);
    }
  }

  /** The k-th largest entry (k = 1 is the maximum), counting repeated values
      with their multiplicity. */
  function KthLargest(s: seq<real>, k: nat): (r: real)
    requires 1 <= k <= |s|
    ensures r in s
    ensures CountAbove(s, r) < k <= CountAtLeast(s, r)
    decreases |s|
  {
    var m := Largest(s);
    var c := CountAtLeast(s, m);
    if k <= c then m
    else
      var rest := Below(s, m);
      var r := KthLargest(rest, k - c);
      CountSplit(s, r, m);
      r
  }

  /** The two counting bounds determine the k-th largest value uniquely. */
  lemma KthLargestUnique(s: seq<real>, k: nat, v: real)
    requires 1 <= k <= |s|
    requires CountAbove(s, v) < k <= CountAtLeast(s, v)
    ensures v == KthLargest(s, k)
  {
    var r := KthLargest(s, k);
    if v < r {
      CountAntitone(s, v, r);
    } else if r < v {
      CountAntitone(s, r, v);
    }
  }

  /** Asking for more entries never raises the order statistic. */
  lemma KthLargestAntitone(s: seq<real>, k1: nat, k2: nat)
    requires 1 <= k1 <= k2 <= |s|
    ensures KthLargest(s, k2) <= KthLargest(s, k1)
  {
    var r1, r2 := KthLargest(s, k1), KthLargest(s, k2);
    if r1 < r2 {
      CountAntitone(s, r1, r2);
    }
  }

  /** Entries pairwise distinct. */
  predicate Distinct(s: seq<real>) {
    forall i, j :: 0 <= i < j < |s| ==> s[i] != s[j]
  }

  /** An entry of a vector without repeats occurs exactly once. */
  lemma {:induction false} CountEqualDistinct(s: seq<real>, t: real)
    requires Distinct(s)
    requires t in s
    ensures CountEqual(s, t) == 1
  {
    assert s == [s[0]] + s[1..];
    if s[0] == t {
      CountEqualAbsent(s[1..], t);
    } else {
      CountEqualDistinct(s[1..], t);
    }
  }

  lemma {:induction false} CountEqualAbsent(s: seq<real>, t: real)
    requires t !in s
    ensures CountEqual(s, t) == 0
  {
    if s != [] {
      CountEqualAbsent(s[1..], t);
    }
  }

  /** Strictly increasing, hence sorted and without repeats. */
  predicate Increasing(u: seq<real>) {
    forall i, j :: 0 <= i < j < |u| ==> u[i] < u[j]
  }

  /** Adds `x` at its place in an increasing sequence, unless already there. */
  function Insert(u: seq<real>, x: real): (r: seq<real>)
    requires Increasing(u)
    ensures Increasing(r)
    ensures forall z :: z in r <==> z in u || z == x
  {
    if u == [] then [x]
    else if x < u[0] then [x] + u
    else if x == u[0] then u
    else
      assert forall z :: z in u[1..] ==> u[0] < z;
      var tail := Insert(u[1..], x);
      assert forall j :: 0 <= j < |tail| ==> tail[j] in tail && u[0] < tail[j];
      [u[0]] + tail
  }

  /** `np.unique`: the distinct entries in ascending order. */
  function Unique(s: seq<real>): (u: seq<real>)
    ensures Increasing(u)
    ensures forall z :: z in u <==> z in s
    ensures |u| <= |s|
  {
    if s == [] then []
    else
      var rest := Unique(s[1..]);
      assert s == [s[0]] + s[1..];
      var u := Insert(rest, s[0]);
      UniqueIsShort(rest, s[0]);
      u
  }

  lemma UniqueIsShort(u: seq<real>, x: real)
    requires Increasing(u)
    ensures |Insert(u, x)| <= |u| + 1
  {
    if u != [] && x > u[0] {
      UniqueIsShort(u[1..], x);
    }
  }
}
