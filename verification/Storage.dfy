/** Usable capacity of a storage pool over unequal disks
    (web-platform/backend/resolvers/storage.py).

    The two-copy formula is proved optimal against an allocation model: a
    placement is a list of units, each stored on two different disks, and no
    disk holds more units than its size. */
module Storage {

  function Sum(s: seq<nat>): nat
  {
    if s == [] then 0 else s[0] + Sum(s[1..])
  }

  function Max(s: seq<nat>): (m: nat)
    requires s != []
    ensures m in s
    ensures forall i :: 0 <= i < |s| ==> s[i] <= m
  {
    if |s| == 1 then s[0]
    else
      var r := Max(s[1..]);
      assert forall i :: 1 <= i < |s| ==> s[i] == s[1..][i - 1];
      if s[0] > r then s[0] else r
  }

  function Min(s: seq<nat>): (m: nat)
    requires s != []
    ensures m in s
    ensures forall i :: 0 <= i < |s| ==> m <= s[i]
  {
    if |s| == 1 then s[0]
    else
      var r := Min(s[1..]);
      assert forall i :: 1 <= i < |s| ==> s[i] == s[1..][i - 1];
      if s[0] < r then s[0] else r
  }

  lemma {:induction false} MaxBelowSum(s: seq<nat>)
    requires s != []
    ensures Max(s) <= Sum(s)
  {
    if |s| > 1 {
      MaxBelowSum(s[1..]);
    }
  }

  function Raid1Formula(total: nat, max: nat): nat
    requires max <= total
  {
    if total / 2 <= total - max then total / 2 else total - max
  }

  /** The capacity formula, profile by profile. */
  function UsableBytes(profile: string, sizes: seq<nat>): nat
  {
    if sizes == [] then 0
    else
      var total := Sum(sizes);
      if profile == "single" || profile == "raid0" then total
      else if profile == "raid1" || profile == "raid10" then
        MaxBelowSum(sizes);
        Raid1Formula(total, Max(sizes))
      else if profile == "raid5" || profile == "raid6" then
        var parity := if profile == "raid5" then 1 else 2;
        if |sizes| <= parity then 0 else (|sizes| - parity) * Min(sizes)
      else total
  }

  // -------------------------------------------------------------------- parity

  /** k stripes fit when every disk can hold one unit of each. */
  ghost predicate StripesFit(sizes: seq<nat>, k: nat)
  {
    forall d :: 0 <= d < |sizes| ==> k <= sizes[d]
  }

  /** With one parity unit to a stripe (raid5) or two (raid6), the capacity is the data
      units of as many stripes as fit, and none without a disk to spare for data; without
      redundancy it is all there is. */
  lemma StripedCapacity(sizes: seq<nat>, parity: nat) returns (k: nat)
    requires sizes != [] && (parity == 1 || parity == 2)
    ensures StripesFit(sizes, k) && !StripesFit(sizes, k + 1)
    ensures
      UsableBytes(if parity == 1 then "raid5" else "raid6", sizes) ==
        if |sizes| > parity then (|sizes| - parity) * k else 0
    ensures UsableBytes("single", sizes) == UsableBytes("raid0", sizes) == Sum(sizes)
  {
    k := Min(sizes);
    var d :| 0 <= d < |sizes| && sizes[d] == k;
  }

  // ---------------------------------------------------------------- two copies

  /** One stored unit names the two disks that hold its copies. */
  type Placement = seq<(nat, nat)>

  function Load(p: Placement, disk: nat): nat
  {
    if p == [] then 0
    else (if p[0].0 == disk || p[0].1 == disk then 1 else 0) + Load(p[1..], disk)
  }

  /** Every unit sits on two distinct existing disks and no disk overflows. */
  ghost predicate Mirrored(p: Placement, sizes: seq<nat>)
  {
    && (forall k :: 0 <= k < |p| ==> p[k].0 < |sizes| && p[k].1 < |sizes| && p[k].0 != p[k].1)
    && (forall d :: 0 <= d < |sizes| ==> Load(p, d) <= sizes[d])
  }

  /** The free space left after one unit went to disks a and b. */
  function Spend(free: seq<nat>, a: nat, b: nat): (r: seq<nat>)
    requires a < |free| && b < |free| && a != b && free[a] > 0 && free[b] > 0
    ensures |r| == |free|
    ensures forall d :: 0 <= d < |free| ==>
      r[d] == if d == a || d == b then free[d] - 1 else free[d]
  {
    free[a := free[a] - 1][b := free[b] - 1]
  }

  lemma {:induction false} SumUpdate(s: seq<nat>, i: nat, v: nat)
    requires i < |s|
    ensures Sum(s[i := v]) == Sum(s) - s[i] + v
  {
    if i == 0 {
      assert s[0 := v][1..] == s[1..];
    } else {
      assert s[i := v][1..] == s[1..][i - 1 := v];
      SumUpdate(s[1..], i - 1, v);
    }
  }

  lemma SumSpend(free: seq<nat>, a: nat, b: nat)
    requires a < |free| && b < |free| && a != b && free[a] > 0 && free[b] > 0
    ensures Sum(Spend(free, a, b)) == Sum(free) - 2
  {
    SumUpdate(free, a, free[a] - 1);
    SumUpdate(free[a := free[a] - 1], b, free[b] - 1);
  }

  lemma {:induction false} ElementBelowSum(s: seq<nat>, i: nat)
    requires i < |s|
    ensures s[i] <= Sum(s)
  {
    if i > 0 {
      ElementBelowSum(s[1..], i - 1);
    }
  }

  lemma TwoBelowSum(s: seq<nat>, a: nat, b: nat)
    requires a < |s| && b < |s| && a != b
    ensures s[a] + s[b] <= Sum(s)
  {
    SumUpdate(s, a, 0);
    ElementBelowSum(s[a := 0], b);
  }

  lemma ThreeBelowSum(s: seq<nat>, a: nat, b: nat, c: nat)
    requires a < |s| && b < |s| && c < |s| && a != b && a != c && b != c
    ensures s[a] + s[b] + s[c] <= Sum(s)
  {
    SumUpdate(s, a, 0);
    var t := s[a := 0];
    SumUpdate(t, b, 0);
    ElementBelowSum(t[b := 0], c);
  }

  /** No placement beats either half of the total or the total without one disk. */
  lemma {:induction false} MirroredUpperBound(p: Placement, sizes: seq<nat>)
    requires Mirrored(p, sizes)
    ensures 2 * |p| <= Sum(sizes)
    ensures forall big :: 0 <= big < |sizes| ==> |p| <= Sum(sizes) - sizes[big]
  {
    if p == [] {
      forall big | 0 <= big < |sizes| ensures sizes[big] <= Sum(sizes) {
        ElementBelowSum(sizes, big);
      }
    } else {
      var (a, b) := p[0];
      assert Load(p, a) <= sizes[a] && Load(p, b) <= sizes[b];
      var left := Spend(sizes, a, b);
      forall d | 0 <= d < |left| ensures Load(p[1..], d) <= left[d] {
        assert Load(p, d) <= sizes[d];
      }
      MirroredUpperBound(p[1..], left);
      SumSpend(sizes, a, b);
      forall big | 0 <= big < |sizes| ensures |p| <= Sum(sizes) - sizes[big] {
        assert |p[1..]| <= Sum(left) - left[big];
      }
    }
  }

  /** Index of the fullest-free disk other than `skip`. */
  function Fullest(free: seq<nat>, skip: int, n: nat): (a: nat)
    requires 1 <= n <= |free| && (n == 1 ==> skip != 0)
    ensures a < n && a != skip
    ensures forall i :: 0 <= i < n && i != skip ==> free[i] <= free[a]
  {
    if n == 1 then 0
    else if n == 2 && skip == 0 then 1
    else
      var a := Fullest(free, skip, n - 1);
      if n - 1 != skip && free[n - 1] > free[a] then n - 1 else a
  }

  /** The allocator: every unit goes to the two disks with the most free space. */
  function Greedy(free: seq<nat>): Placement
    decreases Sum(free)
  {
    if |free| < 2 then []
    else
      var a := Fullest(free, -1, |free|);
      var b := Fullest(free, a, |free|);
      if free[b] == 0 then []
      else
        SumSpend(free, a, b);
        [(a, b)] + Greedy(Spend(free, a, b))
  }

  lemma {:induction false} GreedyIsMirrored(free: seq<nat>)
    ensures Mirrored(Greedy(free), free)
    decreases Sum(free)
  {
    if |free| >= 2 {
      var a := Fullest(free, -1, |free|);
      var b := Fullest(free, a, |free|);
      if free[b] > 0 {
        SumSpend(free, a, b);
        var left := Spend(free, a, b);
        GreedyIsMirrored(left);
        var p, q := Greedy(free), Greedy(left);
        assert p == [(a, b)] + q && p[1..] == q;
        forall d | 0 <= d < |free| ensures Load(p, d) <= free[d] {
          assert Load(q, d) <= left[d];
        }
      }
    }
  }

  lemma {:induction false} SumOfSingleton(s: seq<nat>, a: nat)
    requires a < |s| && forall i :: 0 <= i < |s| && i != a ==> s[i] == 0
    ensures Sum(s) == s[a]
  {
    SumUpdate(s, a, 0);
    SumOfZeros(s[a := 0]);
  }

  lemma {:induction false} SumOfZeros(s: seq<nat>)
    requires forall i :: 0 <= i < |s| ==> s[i] == 0
    ensures Sum(s) == 0
  {
    if s != [] {
      SumOfZeros(s[1..]);
    }
  }

  /** The arithmetic of one step: two units of space go, and the largest disk
      shrinks with them unless three disks tie for the maximum. */
  lemma FormulaStep(total: nat, max: nat, left: nat)
    requires total >= 2 && 1 <= max && max < total
    requires left == max - 1 || (left == max && 3 * max <= total)
    ensures Raid1Formula(total, max) == 1 + Raid1Formula(total - 2, left)
  {
  }

  lemma MaxIs(s: seq<nat>, a: nat)
    requires a < |s| && forall i :: 0 <= i < |s| ==> s[i] <= s[a]
    ensures Max(s) == s[a]
  {
    var m := Max(s);
    var i :| 0 <= i < |s| && s[i] == m;
  }

  /** The largest disk shrinks by one, or three disks tied for the maximum. */
  lemma MaxAfterStep(free: seq<nat>, a: nat, b: nat)
    requires a < |free| && b < |free| && a != b && free[a] > 0 && free[b] > 0
    requires forall i :: 0 <= i < |free| ==> free[i] <= free[a]
    requires forall i :: 0 <= i < |free| && i != a ==> free[i] <= free[b]
    ensures
      var left := Max(Spend(free, a, b));
      left == free[a] - 1 || (left == free[a] && 3 * free[a] <= Sum(free))
  {
    var left := Spend(free, a, b);
    if c :| 0 <= c < |free| && c != a && c != b && free[c] == free[a] {
      MaxIs(left, c);
      ThreeBelowSum(free, a, b, c);
    } else {
      MaxIs(left, a);
    }
  }

  lemma Raid1Is(sizes: seq<nat>, total: nat, max: nat)
    requires sizes != [] && total == Sum(sizes) && max == Max(sizes)
    ensures max <= total && UsableBytes("raid1", sizes) == Raid1Formula(total, max)
  {
    MaxBelowSum(sizes);
  }

  /** One greedy unit lowers the formula by exactly one. */
  lemma GreedyStepCostsOne(free: seq<nat>, a: nat, b: nat)
    requires a < |free| && b < |free| && a != b && free[b] > 0
    requires forall i :: 0 <= i < |free| ==> free[i] <= free[a]
    requires forall i :: 0 <= i < |free| && i != a ==> free[i] <= free[b]
    ensures UsableBytes("raid1", free) == 1 + UsableBytes("raid1", Spend(free, a, b))
  {
    MaxIs(free, a);
    TwoBelowSum(free, a, b);
    SumSpend(free, a, b);
    MaxAfterStep(free, a, b);
    var left := Spend(free, a, b);
    var total, max := Sum(left), Max(left);
    Raid1Is(free, total + 2, free[a]);
    Raid1Is(left, total, max);
    FormulaStep(total + 2, free[a], max);
  }

  lemma {:induction false} GreedyReachesFormula(free: seq<nat>)
    ensures |Greedy(free)| == UsableBytes("raid1", free)
    decreases Sum(free)
  {
    if |free| >= 2 {
      var a := Fullest(free, -1, |free|);
      var b := Fullest(free, a, |free|);
      if free[b] > 0 {
        SumSpend(free, a, b);
        GreedyStepCostsOne(free, a, b);
        GreedyReachesFormula(Spend(free, a, b));
      } else {
        SumOfSingleton(free, a);
      }
    }
  }

  /** The raid1 formula is the exact optimum over all two-copy placements. */
  lemma Raid1Optimal(sizes: seq<nat>)
    ensures forall p: Placement :: Mirrored(p, sizes) ==> |p| <= UsableBytes("raid1", sizes)
    ensures Mirrored(Greedy(sizes), sizes) && |Greedy(sizes)| == UsableBytes("raid1", sizes)
  {
    GreedyIsMirrored(sizes);
    GreedyReachesFormula(sizes);
    forall p: Placement | Mirrored(p, sizes) ensures |p| <= UsableBytes("raid1", sizes) {
      MirroredUpperBound(p, sizes);
    }
  }

  /** Adding disks at the end or enlarging any disk never loses capacity. */
  lemma Raid1Monotone(sizes: seq<nat>, larger: seq<nat>)
    requires |sizes| <= |larger|
    requires forall i :: 0 <= i < |sizes| ==> sizes[i] <= larger[i]
    ensures UsableBytes("raid1", sizes) <= UsableBytes("raid1", larger)
  {
    Raid1Optimal(sizes);
    Raid1Optimal(larger);
    var p := Greedy(sizes);
    forall d | 0 <= d < |larger| ensures Load(p, d) <= larger[d] {
      if d < |sizes| {
        assert Load(p, d) <= sizes[d];
      } else {
        NoLoadOutside(p, d);
      }
    }
    assert Mirrored(p, larger);
  }

  lemma {:induction false} NoLoadOutside(p: Placement, d: nat)
    requires forall k :: 0 <= k < |p| ==> p[k].0 != d && p[k].1 != d
    ensures Load(p, d) == 0
  {
    if p != [] {
      NoLoadOutside(p[1..], d);
    }
  }
}
