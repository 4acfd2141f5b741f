/** What the aggregate status means in terms of logical units: the units outside any
    colour pair, and one per pair. */
module LogicalUnits {
  import opened Options
  import opened BlueGreen

  ghost predicate IsLogical(units: seq<Unit>, u: Unit)
  {
    || (u in units && PairOf(units, u.name).None?)
    || exists base :: IsPair(units, base) && u == Verdict(units, base)
  }

  lemma PairsAreMet(units: seq<Unit>, base: string)
    requires IsPair(units, base)
    ensures base in Bases(units, |units|)
  {
    PairOfColour(units, base);
    BasesMet(units, |units|, LastIndex(units, Blue(base)));
  }

  lemma CollapsedHoldsTheLogicalUnits(units: seq<Unit>, u: Unit)
    ensures u in Collapsed(units) <==> IsLogical(units, u)
  {
    InFilter(units, Alone(units), u);
    var bases := Bases(units, |units|);
    if base :| IsPair(units, base) && u == Verdict(units, base) {
      PairsAreMet(units, base);
      var i :| 0 <= i < |bases| && bases[i] == base;
      assert Verdicts(units, bases)[i] == u;
    }
    if u in Verdicts(units, bases) {
      var i :| 0 <= i < |bases| && Verdicts(units, bases)[i] == u;
      assert IsPair(units, bases[i]);
    }
  }

  // --------------------------------------------------------------- counting

  lemma {:induction false} FullFilter(xs: seq<Unit>, p: Unit -> bool)
    ensures |Filter(xs, p)| == |xs| <==> forall x :: x in xs ==> p(x)
  {
    if xs != [] {
      var n := |xs| - 1;
      assert xs == xs[..n] + [xs[n]];
      FullFilter(xs[..n], p);
    }
  }

  lemma NoneOutside(xs: seq<Unit>, p: Unit -> bool)
    ensures Filter(xs, Outside(Filter(xs, p))) == [] <==> |Filter(xs, p)| == |xs|
  {
    FullFilter(xs, p);
    var kept := Filter(xs, p);
    var rest := Filter(xs, Outside(kept));
    if rest == [] {
      forall x | x in xs ensures p(x) {
        InFilter(xs, Outside(kept), x);
        InFilter(xs, p, x);
      }
    } else {
      InFilter(xs, Outside(kept), rest[0]);
      InFilter(xs, p, rest[0]);
    }
  }

  function Both(armed: set<string>): Unit -> bool
  {
    (u: Unit) => IsHealthy(u, armed) && IsStarting(u)
  }

  function Neither(armed: set<string>): Unit -> bool
  {
    (u: Unit) => !IsHealthy(u, armed) && !IsStarting(u)
  }

  lemma {:induction false} Overlap(xs: seq<Unit>, armed: set<string>)
    ensures |Filter(xs, Healthy(armed))| + |Filter(xs, IsStarting)| + |Filter(xs, Neither(armed))|
         == |xs| + |Filter(xs, Both(armed))|
  {
    if xs != [] {
      Overlap(xs[..|xs| - 1], armed);
    }
  }

  lemma CountOneMore(xs: seq<Unit>, x: Unit, p: Unit -> bool)
    ensures |Filter(xs + [x], p)| == |Filter(xs, p)| + if p(x) then 1 else 0
  {
    assert (xs + [x])[..|xs|] == xs;
  }

  lemma CountTwo(a: Unit, b: Unit, p: Unit -> bool)
    ensures |Filter([a, b], p)| == (if p(a) then 1 else 0) + (if p(b) then 1 else 0)
  {
    CountOneMore([], a, p);
    CountOneMore([a], b, p);
    assert [] + [a] == [a] && [a] + [b] == [a, b];
  }

  lemma CountThree(a: Unit, b: Unit, c: Unit, p: Unit -> bool)
    ensures |Filter([a, b, c], p)| == (if p(a) then 1 else 0) + (if p(b) then 1 else 0) + (if p(c) then 1 else 0)
  {
    CountTwo(a, b, p);
    CountOneMore([a, b], c, p);
    assert [a, b] + [c] == [a, b, c];
  }

  /** The aggregate depends on four counts only. */
  function ByCounts(total: nat, healthy: nat, starting: nat, failed: nat): Status
  {
    if healthy == total then Status("active", "running")
    else if starting > 0 && healthy + starting == total then Status("activating", "start")
    else if failed > 0 && failed == total then Status("failed", "failed")
    else if healthy == 0 && starting == 0 then
      if failed > 0 then Status("failed", "failed") else Status("inactive", "dead")
    else Status("active", "degraded")
  }

  lemma AggregateByCounts(xs: seq<Unit>, armed: set<string>)
    ensures Aggregate(xs, armed)
         == ByCounts(|xs|, |Filter(xs, Healthy(armed))|, |Filter(xs, IsStarting)|, |Filter(xs, IsFailed)|)
  {
    NoneOutside(xs, Healthy(armed));
  }

  // ---------------------------------------------------------- what it means

  ghost predicate EveryUnit(units: seq<Unit>, p: Unit -> bool)
  {
    forall u :: IsLogical(units, u) ==> p(u)
  }

  lemma EveryUnitIsFull(units: seq<Unit>, p: Unit -> bool)
    ensures EveryUnit(units, p) <==> |Filter(Collapsed(units), p)| == |Collapsed(units)|
  {
    FullFilter(Collapsed(units), p);
    forall u ensures u in Collapsed(units) <==> IsLogical(units, u) {
      CollapsedHoldsTheLogicalUnits(units, u);
    }
  }

  ghost predicate SomeUnit(units: seq<Unit>, p: Unit -> bool)
  {
    exists u :: IsLogical(units, u) && p(u)
  }

  lemma SomeUnitIsCounted(units: seq<Unit>, p: Unit -> bool)
    ensures SomeUnit(units, p) <==> |Filter(Collapsed(units), p)| > 0
  {
    var kept := Filter(Collapsed(units), p);
    if u :| IsLogical(units, u) && p(u) {
      CollapsedHoldsTheLogicalUnits(units, u);
      InFilter(Collapsed(units), p, u);
    }
    if |kept| > 0 {
      InFilter(Collapsed(units), p, kept[0]);
      CollapsedHoldsTheLogicalUnits(units, kept[0]);
    }
  }

  /** The code's cascade with its counts read as "every" and "some" logical unit. */
  ghost function SimpleStatus(units: seq<Unit>, armed: set<string>): Status
  {
    if EveryUnit(units, Healthy(armed)) then Status("active", "running")
    else if !SomeUnit(units, Neither(armed)) then Status("activating", "start")
    else if EveryUnit(units, IsFailed) && SomeUnit(units, IsFailed) then Status("failed", "failed")
    else if !SomeUnit(units, Healthy(armed)) && !SomeUnit(units, IsStarting) then
      if SomeUnit(units, IsFailed) then Status("failed", "failed") else Status("inactive", "dead")
    else Status("active", "degraded")
  }

  /** Adding the healthy count to the starting count counts a unit that is both twice,
      so as many down units as doubly counted ones go unnoticed. The counted status is
      the uncounted one exactly when that cannot happen; in particular when no
      socket-armed name is a starting logical unit. */
  lemma StatusRefinesLogicalUnits(units: seq<Unit>, armed: set<string>)
    requires units != []
    ensures
      var down, twice := |Filter(Collapsed(units), Neither(armed))|, |Filter(Collapsed(units), Both(armed))|;
      ServiceStatus(units, armed) == SimpleStatus(units, armed)
      <==> EveryUnit(units, Healthy(armed)) || (if down == 0 then twice == 0 else twice != down)
  {
    var collapsed := Collapsed(units);
    AggregateByCounts(collapsed, armed);
    Overlap(collapsed, armed);
    EveryUnitIsFull(units, Healthy(armed));
    EveryUnitIsFull(units, IsFailed);
    SomeUnitIsCounted(units, Healthy(armed));
    SomeUnitIsCounted(units, Neither(armed));
    SomeUnitIsCounted(units, IsStarting);
    SomeUnitIsCounted(units, IsFailed);
  }

  lemma NoStartingUnitIsArmed(units: seq<Unit>, armed: set<string>)
    requires units != []
    requires forall u :: IsLogical(units, u) && IsStarting(u) ==> u.name !in armed
    ensures ServiceStatus(units, armed) == SimpleStatus(units, armed)
  {
    StatusRefinesLogicalUnits(units, armed);
    SomeUnitIsCounted(units, Both(armed));
  }

  /** What arming only inactive units buys: a socket-armed name belongs to a unit that
      is not starting by itself. */
  ghost predicate ArmedAreIdle(units: seq<Unit>, armed: set<string>)
  {
    forall u :: u in units && u.name in armed ==> !IsStarting(u)
  }

  ghost predicate NoArmedPair(units: seq<Unit>, armed: set<string>)
  {
    forall base :: IsPair(units, base) ==> base !in armed
  }

  /** Units read from systemd under distinct names: since only inactive units are armed,
      none of the armed is starting, unless systemd reports an inactive unit in sub-state
      start behind an active trigger. */
  lemma ReadUnitsAreIdle(names: seq<string>, probes: seq<Probe>)
    requires |names| == |probes| && forall i, j :: 0 <= i < j < |names| ==> names[i] != names[j]
    ensures ArmedAreIdle(UnitsOf(names, probes), ArmedOf(names, probes)) <==>
      forall i :: 0 <= i < |names| && IsArmed(names[i], probes[i]) ==> StateOf(names[i], probes[i]).sub != "start"
  {
    var units, armed := UnitsOf(names, probes), ArmedOf(names, probes);
    if forall i :: 0 <= i < |names| && IsArmed(names[i], probes[i]) ==> StateOf(names[i], probes[i]).sub != "start" {
      forall u | u in units && u.name in armed ensures !IsStarting(u) {
        var i :| 0 <= i < |units| && units[i] == u;
        var k :| 0 <= k < |names| && IsArmed(names[k], probes[k]) && names[k] == u.name;
        assert i == k;
      }
    } else {
      var i :| 0 <= i < |names| && IsArmed(names[i], probes[i]) && StateOf(names[i], probes[i]).sub == "start";
      assert units[i] in units && units[i].name in armed;
    }
  }

  lemma StartingIsNotArmed(units: seq<Unit>, armed: set<string>, u: Unit)
    requires ArmedAreIdle(units, armed) && NoArmedPair(units, armed) && IsLogical(units, u) && IsStarting(u)
    ensures u.name !in armed
  {
    if base :| IsPair(units, base) && u == Verdict(units, base) {
      VerdictName(units, base);
    }
  }

  /** So a unit is counted twice only as the verdict of a pair whose base is an armed
      name; without such a pair the counted status is the uncounted one. */
  lemma OnlyArmedPairsMislead(units: seq<Unit>, armed: set<string>)
    requires units != [] && ArmedAreIdle(units, armed) && NoArmedPair(units, armed)
    ensures ServiceStatus(units, armed) == SimpleStatus(units, armed)
  {
    forall u | IsLogical(units, u) && IsStarting(u) ensures u.name !in armed {
      StartingIsNotArmed(units, armed, u);
    }
    NoStartingUnitIsArmed(units, armed);
  }

  /** Then, too, a down pair is never hidden. */
  lemma DownPairShows(units: seq<Unit>, armed: set<string>, base: string)
    requires units != [] && NoArmedPair(units, armed) && IsPair(units, base) && !PairRuns(units, base)
    ensures ServiceStatus(units, armed) != Status("active", "running")
  {
    RunningExactlyWhen(units, armed);
  }

  lemma RunningMeansAllHealthy(units: seq<Unit>, armed: set<string>)
    requires units != []
    ensures ServiceStatus(units, armed) == Status("active", "running") <==> EveryUnit(units, Healthy(armed))
  {
    var collapsed := Collapsed(units);
    EveryUnitIsFull(units, Healthy(armed));
    AggregateByCounts(collapsed, armed);
  }

  ghost predicate UnpairedHealthy(units: seq<Unit>, armed: set<string>)
  {
    forall u :: u in units && PairOf(units, u.name).None? ==> IsHealthy(u, armed)
  }

  ghost predicate PairsServe(units: seq<Unit>, armed: set<string>)
  {
    forall base :: IsPair(units, base) ==> PairRuns(units, base) || base in armed
  }

  lemma VerdictHealth(units: seq<Unit>, base: string, armed: set<string>)
    requires IsPair(units, base)
    ensures IsHealthy(Verdict(units, base), armed) <==> PairRuns(units, base) || base in armed
  {
  }

  /** Running is shown exactly when every unpaired unit is healthy and every pair has
      a running colour or a listening socket under its base name. So a pair that is
      down is hidden only by a socket-armed unit named like the pair. */
  lemma RunningExactlyWhen(units: seq<Unit>, armed: set<string>)
    requires units != []
    ensures ServiceStatus(units, armed) == Status("active", "running")
       <==> UnpairedHealthy(units, armed) && PairsServe(units, armed)
  {
    RunningMeansAllHealthy(units, armed);
    var healthy := Healthy(armed);
    if EveryUnit(units, healthy) {
      forall base | IsPair(units, base) ensures PairRuns(units, base) || base in armed {
        VerdictHealth(units, base, armed);
        assert IsLogical(units, Verdict(units, base));
        assert healthy(Verdict(units, base));
      }
      forall u | u in units && PairOf(units, u.name).None? ensures IsHealthy(u, armed) {
        assert IsLogical(units, u);
        assert healthy(u);
      }
    }
    if UnpairedHealthy(units, armed) && PairsServe(units, armed) {
      forall u | IsLogical(units, u) ensures healthy(u) {
        if !(u in units && PairOf(units, u.name).None?) {
          var base :| IsPair(units, base) && u == Verdict(units, base);
          VerdictHealth(units, base, armed);
        }
      }
    }
  }

  // ------------------------------------------------------- when starting is shown

  /** Starting is shown exactly when some logical unit is starting, not all are healthy,
      and the down units are as many as the doubly counted ones: with none counted
      twice, when every unit is healthy or starting. */
  lemma StartingExactlyWhen(units: seq<Unit>, armed: set<string>)
    requires units != []
    ensures
      var down, twice := |Filter(Collapsed(units), Neither(armed))|, |Filter(Collapsed(units), Both(armed))|;
      ServiceStatus(units, armed) == Status("activating", "start")
      <==> !EveryUnit(units, Healthy(armed)) && SomeUnit(units, IsStarting) && down == twice
  {
    AggregateByCounts(Collapsed(units), armed);
    Overlap(Collapsed(units), armed);
    EveryUnitIsFull(units, Healthy(armed));
    SomeUnitIsCounted(units, IsStarting);
  }

  /** A starting unit beside one that is down, nothing armed: degraded is shown, though
      no unit is active. */
  lemma StartingUnitShowsDegraded()
    ensures ServiceStatus([Unit("a", "activating", "start"), Unit("b", "inactive", "dead")], {})
         == Status("active", "degraded")
  {
    var a, b := Unit("a", "activating", "start"), Unit("b", "inactive", "dead");
    var units := [a, b];
    var alone := Alone(units);
    NextKept(units, alone, 0);
    NextKept(units, alone, 1);
    assert units[..2] == units && units[..0] == [];
    assert Bases(units, 1) == [] && Bases(units, 2) == [];
    assert Collapsed(units) == units;
    CountTwo(a, b, Healthy({}));
    CountTwo(a, b, IsStarting);
    CountTwo(a, b, IsFailed);
    AggregateByCounts(units, {});
  }

  lemma {:induction false} LastIndexIs(units: seq<Unit>, name: string, i: nat)
    requires i < |units| && units[i].name == name
    requires forall k :: i < k < |units| ==> units[k].name != name
    ensures LastIndex(units, name) == i
  {
    if i < |units| - 1 {
      LastIndexIs(units[..|units| - 1], name, i);
    }
  }

  /** The three names a pair and a unit named like its base make. */
  ghost predicate BaseAndColours(units: seq<Unit>, base: string)
  {
    && BgBase(base) == None && |units| == 3
    && units[0].name == base && units[1].name == Blue(base) && units[2].name == Green(base)
  }

  lemma OnlyPair(units: seq<Unit>, base: string, b: string)
    requires BaseAndColours(units, base) && IsPair(units, b)
    ensures b == base
  {
    ColoursShareTheirBase(base);
    ColoursShareTheirBase(b);
    var j := LastIndex(units, Blue(b));
    assert BgBase(units[j].name) == Some(b);
    assert j == 0 || j == 1 || j == 2;
  }

  lemma ColourIndices(units: seq<Unit>, base: string)
    requires BaseAndColours(units, base)
    ensures LastIndex(units, Blue(base)) == 1 && LastIndex(units, Green(base)) == 2
  {
    ColoursShareTheirBase(base);
    LastIndexIs(units, Blue(base), 1);
    LastIndexIs(units, Green(base), 2);
  }

  /** A pair that is down is shown as running when an idle unit behind a listening
      socket carries the pair's base name. */
  lemma ArmedBaseHidesADownPair(base: string, units: seq<Unit>)
    requires BgBase(base) == None
    requires units == [Unit(base, "inactive", "dead"), Unit(Blue(base), "failed", "failed"),
                       Unit(Green(base), "inactive", "dead")]
    ensures IsPair(units, base) && !PairRuns(units, base)
    ensures ServiceStatus(units, {base}) == Status("active", "running")
  {
    ColourIndices(units, base);
    PairOfColour(units, base);
    forall b | IsPair(units, b) ensures b == base {
      OnlyPair(units, base, b);
    }
    RunningExactlyWhen(units, {base});
  }

  // ------------------------------------------------------- counted twice

  /** A starting pair named like an armed unit, and a unit that is down. */
  ghost predicate ArmedPairAndDown(units: seq<Unit>, base: string, other: string)
  {
    && BgBase(base) == None && BgBase(other) == None && base != other
    && units == [Unit(base, "inactive", "dead"), Unit(Blue(base), "activating", "start"),
                 Unit(Green(base), "inactive", "dead"), Unit(other, "inactive", "dead")]
  }

  lemma ArmedPairNames(units: seq<Unit>, base: string, other: string)
    requires ArmedPairAndDown(units, base, other)
    ensures LastIndex(units, Blue(base)) == 1 && LastIndex(units, Green(base)) == 2 && IsPair(units, base)
    ensures PairOf(units, base) == None && PairOf(units, other) == None
    ensures PairOf(units, Blue(base)) == Some(base) == PairOf(units, Green(base))
  {
    ColoursShareTheirBase(base);
    LastIndexIs(units, Blue(base), 1);
    LastIndexIs(units, Green(base), 2);
    PairOfColour(units, base);
  }

  lemma ArmedPairAlone(units: seq<Unit>, base: string, other: string)
    requires ArmedPairAndDown(units, base, other)
    ensures Filter(units, Alone(units)) == [units[0], units[3]]
  {
    ArmedPairNames(units, base, other);
    var alone := Alone(units);
    NextKept(units, alone, 0);
    NextKept(units, alone, 1);
    NextKept(units, alone, 2);
    NextKept(units, alone, 3);
    assert units[..4] == units && units[..0] == [];
  }

  lemma ArmedPairCollapsed(units: seq<Unit>, base: string, other: string)
    requires ArmedPairAndDown(units, base, other)
    ensures Collapsed(units) == [units[0], units[3], Unit(base, "activating", "start")]
  {
    ArmedPairNames(units, base, other);
    ArmedPairAlone(units, base, other);
    assert Bases(units, 1) == [];
    assert Bases(units, 2) == [base];
    assert Bases(units, 3) == [base];
    assert Bases(units, 4) == [base];
    assert Verdicts(units, [base]) == [Unit(base, "activating", "start")];
  }

  lemma ArmedPairCounts(base: string, other: string, xs: seq<Unit>)
    requires base != other
    requires xs == [Unit(base, "inactive", "dead"), Unit(other, "inactive", "dead"), Unit(base, "activating", "start")]
    ensures |Filter(xs, Healthy({base}))| == 2 && |Filter(xs, IsStarting)| == 1
    ensures |Filter(xs, Neither({base}))| == 1 && |Filter(xs, IsFailed)| == 0
  {
    CountThree(xs[0], xs[1], xs[2], Healthy({base}));
    CountThree(xs[0], xs[1], xs[2], IsStarting);
    CountThree(xs[0], xs[1], xs[2], Neither({base}));
    CountThree(xs[0], xs[1], xs[2], IsFailed);
  }

  lemma DegradedByCounts(units: seq<Unit>, armed: set<string>)
    requires 0 < |Filter(Collapsed(units), Healthy(armed))| < |Collapsed(units)|
    requires |Filter(Collapsed(units), Neither(armed))| > 0 && |Filter(Collapsed(units), IsFailed)| == 0
    ensures SimpleStatus(units, armed) == Status("active", "degraded")
  {
    EveryUnitIsFull(units, Healthy(armed));
    SomeUnitIsCounted(units, IsFailed);
    SomeUnitIsCounted(units, Neither(armed));
    SomeUnitIsCounted(units, Healthy(armed));
  }

  lemma ArmedPairIsIdle(units: seq<Unit>, base: string, other: string)
    requires ArmedPairAndDown(units, base, other)
    ensures ArmedAreIdle(units, {base})
  {
    ColoursShareTheirBase(base);
  }

  /** Starting is shown although a unit is down: the pair's verdict is starting and, by
      its name, armed, so it is counted twice and makes up for the unit that is down.
      Only the idle unit of that name is armed. */
  lemma DownUnitIsCountedAway(units: seq<Unit>, base: string, other: string)
    requires ArmedPairAndDown(units, base, other)
    ensures ArmedAreIdle(units, {base})
    ensures ServiceStatus(units, {base}) == Status("activating", "start")
    ensures SimpleStatus(units, {base}) == Status("active", "degraded")
  {
    var collapsed := Collapsed(units);
    ArmedPairIsIdle(units, base, other);
    ArmedPairCollapsed(units, base, other);
    ArmedPairCounts(base, other, collapsed);
    AggregateByCounts(collapsed, {base});
    DegradedByCounts(units, {base});
  }

  // ------------------------------------------------------------------ roles

  /** The unit a name stands for, and whether it runs. */
  predicate Runs(units: seq<Unit>, name: string)
  {
    Listed(units, name) && IsRunning(units[LastIndex(units, name)])
  }

  /** A pair with one running colour shows it as serving and the other as standby;
      every other pair shows no role. */
  lemma RolesOfAPair(units: seq<Unit>, base: string)
    requires IsPair(units, base)
    ensures RoleOf(units, Blue(base)) ==
      if Runs(units, Blue(base)) == Runs(units, Green(base)) then None
      else if Runs(units, Blue(base)) then Some(Serving) else Some(Standby)
    ensures RoleOf(units, Green(base)) ==
      if Runs(units, Blue(base)) == Runs(units, Green(base)) then None
      else if Runs(units, Green(base)) then Some(Serving) else Some(Standby)
  {
    PairOfColour(units, base);
  }

  /** Roles exist exactly inside such pairs. */
  lemma RolesMarkOneRunningColour(units: seq<Unit>, name: string)
    ensures RoleOf(units, name).Some? <==>
      exists base :: (
        && IsPair(units, base) && (name == Blue(base) || name == Green(base))
        && Runs(units, Blue(base)) != Runs(units, Green(base)))
    ensures RoleOf(units, name).Some? ==> (RoleOf(units, name).value == Serving <==> Runs(units, name))
  {
    var base := PairOf(units, name);
    if base.Some? {
      RolesOfAPair(units, base.value);
    }
    forall b | IsPair(units, b) && (name == Blue(b) || name == Green(b)) ensures base == Some(b) {
      PairOfColour(units, b);
    }
  }

  // --------------------------------------------------------- order of units

  ghost predicate DistinctNames(units: seq<Unit>)
  {
    forall i, j :: 0 <= i < j < |units| ==> units[i].name != units[j].name
  }

  ghost predicate Distinct(xs: seq<Unit>)
  {
    forall i, j :: 0 <= i < j < |xs| ==> xs[i] != xs[j]
  }

  ghost predicate SameElements(a: seq<Unit>, b: seq<Unit>)
  {
    forall u :: u in a <==> u in b
  }

  lemma {:induction false} LengthIsCardinality(xs: seq<Unit>)
    requires Distinct(xs)
    ensures |xs| == |set u | u in xs|
  {
    if xs == [] {
      assert (set u | u in xs) == {};
    } else {
      var n := |xs| - 1;
      LengthIsCardinality(xs[..n]);
      assert xs == xs[..n] + [xs[n]];
      assert (set u | u in xs) == (set u | u in xs[..n]) + {xs[n]};
    }
  }

  lemma {:induction false} FilterKeepsDistinct(xs: seq<Unit>, p: Unit -> bool)
    requires Distinct(xs)
    ensures Distinct(Filter(xs, p))
  {
    if xs != [] {
      var n := |xs| - 1;
      FilterKeepsDistinct(xs[..n], p);
      InFilter(xs[..n], p, xs[n]);
    }
  }

  lemma SameElementsSameCount(a: seq<Unit>, b: seq<Unit>, p: Unit -> bool)
    requires Distinct(a) && Distinct(b) && SameElements(a, b)
    ensures |Filter(a, p)| == |Filter(b, p)|
  {
    FilterKeepsDistinct(a, p);
    FilterKeepsDistinct(b, p);
    LengthIsCardinality(Filter(a, p));
    LengthIsCardinality(Filter(b, p));
    forall u ensures u in Filter(a, p) <==> u in Filter(b, p) {
      InFilter(a, p, u);
      InFilter(b, p, u);
    }
    assert (set u | u in Filter(a, p)) == (set u | u in Filter(b, p));
  }

  lemma {:induction false} CountConcat(a: seq<Unit>, b: seq<Unit>, p: Unit -> bool)
    ensures |Filter(a + b, p)| == |Filter(a, p)| + |Filter(b, p)|
  {
    if b == [] {
      assert a + b == a;
    } else {
      var n := |b| - 1;
      assert (a + b)[..|a| + n] == a + b[..n] && (a + b)[|a| + n] == b[n];
      CountConcat(a, b[..n], p);
    }
  }

  /** Two listings of the same distinctly named units find the same unit by name. */
  lemma SameLookup(a: seq<Unit>, b: seq<Unit>, name: string)
    requires DistinctNames(a) && SameElements(a, b)
    ensures Listed(a, name) <==> Listed(b, name)
    ensures Listed(a, name) ==> a[LastIndex(a, name)] == b[LastIndex(b, name)]
  {
    if Listed(b, name) {
      var u := b[LastIndex(b, name)];
      assert u in a;
      var i :| 0 <= i < |a| && a[i] == u;
      LastIndexIs(a, name, i);
    } else if Listed(a, name) {
      var u := a[LastIndex(a, name)];
      assert u in b;
      var i :| 0 <= i < |b| && b[i] == u;
      ListedHere(b, i);
    }
  }

  lemma {:induction false} ListedHere(units: seq<Unit>, i: nat)
    requires i < |units|
    ensures Listed(units, units[i].name)
  {
    if units[|units| - 1].name != units[i].name {
      ListedHere(units[..|units| - 1], i);
    }
  }

  lemma SamePair(a: seq<Unit>, b: seq<Unit>, base: string)
    requires DistinctNames(a) && SameElements(a, b)
    ensures IsPair(a, base) <==> IsPair(b, base)
    ensures IsPair(a, base) ==> Verdict(a, base) == Verdict(b, base)
  {
    SameLookup(a, b, Blue(base));
    SameLookup(a, b, Green(base));
  }

  lemma SamePairOf(a: seq<Unit>, b: seq<Unit>, name: string)
    requires DistinctNames(a) && SameElements(a, b)
    ensures PairOf(a, name) == PairOf(b, name)
  {
    if BgBase(name).Some? {
      SamePair(a, b, BgBase(name).value);
    }
  }

  lemma NamesMakeDistinct(a: seq<Unit>)
    requires DistinctNames(a)
    ensures Distinct(a)
  {
    forall i, j | 0 <= i < j < |a| ensures a[i] != a[j] {
      assert a[i].name != a[j].name;
    }
  }

  lemma VerdictsAreDistinct(a: seq<Unit>, bases: seq<string>)
    requires forall b :: b in bases ==> IsPair(a, b)
    requires forall i, j :: 0 <= i < j < |bases| ==> bases[i] != bases[j]
    ensures Distinct(Verdicts(a, bases))
  {
    var vs := Verdicts(a, bases);
    forall i, j | 0 <= i < j < |vs| ensures vs[i] != vs[j] {
      VerdictName(a, bases[i]);
      VerdictName(a, bases[j]);
    }
  }

  lemma VerdictName(a: seq<Unit>, base: string)
    requires IsPair(a, base)
    ensures Verdict(a, base).name == base
  {
  }

  /** The two parts of the collapsed list, for one listing. */
  lemma PartsAreDistinct(a: seq<Unit>)
    requires DistinctNames(a)
    ensures Distinct(Filter(a, Alone(a))) && Distinct(Verdicts(a, Bases(a, |a|)))
  {
    NamesMakeDistinct(a);
    FilterKeepsDistinct(a, Alone(a));
    BasesDistinct(a, |a|);
    VerdictsAreDistinct(a, Bases(a, |a|));
  }

  lemma SameParts(a: seq<Unit>, b: seq<Unit>)
    requires DistinctNames(a) && DistinctNames(b) && SameElements(a, b)
    ensures SameElements(Filter(a, Alone(a)), Filter(b, Alone(b)))
    ensures SameElements(Verdicts(a, Bases(a, |a|)), Verdicts(b, Bases(b, |b|)))
  {
    forall u ensures u in Filter(a, Alone(a)) <==> u in Filter(b, Alone(b)) {
      InFilter(a, Alone(a), u);
      InFilter(b, Alone(b), u);
      SamePairOf(a, b, u.name);
    }
    forall u | u in Verdicts(a, Bases(a, |a|)) ensures u in Verdicts(b, Bases(b, |b|)) {
      VerdictMoves(a, b, u);
    }
    forall u | u in Verdicts(b, Bases(b, |b|)) ensures u in Verdicts(a, Bases(a, |a|)) {
      VerdictMoves(b, a, u);
    }
  }

  lemma VerdictMoves(a: seq<Unit>, b: seq<Unit>, u: Unit)
    requires DistinctNames(a) && SameElements(a, b) && u in Verdicts(a, Bases(a, |a|))
    ensures u in Verdicts(b, Bases(b, |b|))
  {
    var i :| 0 <= i < |Bases(a, |a|)| && Verdicts(a, Bases(a, |a|))[i] == u;
    var base := Bases(a, |a|)[i];
    SamePair(a, b, base);
    PairsAreMet(b, base);
    var j :| 0 <= j < |Bases(b, |b|)| && Bases(b, |b|)[j] == base;
    assert Verdicts(b, Bases(b, |b|))[j] == u;
  }

  lemma SameCount(a: seq<Unit>, b: seq<Unit>, p: Unit -> bool)
    requires DistinctNames(a) && DistinctNames(b) && SameElements(a, b)
    ensures |Filter(Collapsed(a), p)| == |Filter(Collapsed(b), p)|
  {
    PartsAreDistinct(a);
    PartsAreDistinct(b);
    SameParts(a, b);
    SameElementsSameCount(Filter(a, Alone(a)), Filter(b, Alone(b)), p);
    SameElementsSameCount(Verdicts(a, Bases(a, |a|)), Verdicts(b, Bases(b, |b|)), p);
    CountConcat(Filter(a, Alone(a)), Verdicts(a, Bases(a, |a|)), p);
    CountConcat(Filter(b, Alone(b)), Verdicts(b, Bases(b, |b|)), p);
  }

  lemma SameLength(a: seq<Unit>, b: seq<Unit>, every: Unit -> bool)
    requires DistinctNames(a) && DistinctNames(b) && SameElements(a, b) && forall u :: every(u)
    ensures |a| == |b|
  {
    NamesMakeDistinct(a);
    NamesMakeDistinct(b);
    SameElementsSameCount(a, b, every);
    FullFilter(a, every);
    FullFilter(b, every);
  }

  /** Neither the status nor any unit's role depends on the order in which a service
      lists its units, as long as their names are distinct. */
  lemma OrderDoesNotMatter(a: seq<Unit>, b: seq<Unit>, armed: set<string>)
    requires DistinctNames(a) && DistinctNames(b) && SameElements(a, b)
    ensures ServiceStatus(a, armed) == ServiceStatus(b, armed)
    ensures forall name :: RoleOf(a, name) == RoleOf(b, name)
  {
    var every: Unit -> bool := (u: Unit) => true;
    FullFilter(Collapsed(a), every);
    FullFilter(Collapsed(b), every);
    SameCount(a, b, every);
    SameLength(a, b, every);
    SameCount(a, b, Healthy(armed));
    SameCount(a, b, IsStarting);
    SameCount(a, b, IsFailed);
    AggregateByCounts(Collapsed(a), armed);
    AggregateByCounts(Collapsed(b), armed);
    forall name ensures RoleOf(a, name) == RoleOf(b, name) {
      SameRole(a, b, name);
    }
  }

  lemma SameRole(a: seq<Unit>, b: seq<Unit>, name: string)
    requires DistinctNames(a) && SameElements(a, b)
    ensures RoleOf(a, name) == RoleOf(b, name)
  {
    SamePairOf(a, b, name);
    if PairOf(a, name).Some? {
      var base := PairOf(a, name).value;
      SameLookup(a, b, name);
      SameLookup(a, b, Blue(base));
      SameLookup(a, b, Green(base));
    }
  }
}
