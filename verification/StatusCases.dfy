/** The aggregate status read off the listed units and off systemd's answers, without
    the collapsed list: when failed, stopped and running are shown, and the table of
    cases for units outside colour pairs. */
module StatusCases {
  import opened Options
  import opened BlueGreen
  import opened LogicalUnits

  // ---------------------------------------------------------- every, some unit

  lemma EveryByListing(units: seq<Unit>, p: Unit -> bool)
    ensures EveryUnit(units, p) <==>
      && (forall u :: u in units && PairOf(units, u.name).None? ==> p(u))
      && (forall base :: IsPair(units, base) ==> p(Verdict(units, base)))
  {
    if EveryUnit(units, p) {
      forall u | u in units && PairOf(units, u.name).None? ensures p(u) {
        assert IsLogical(units, u);
      }
      forall base | IsPair(units, base) ensures p(Verdict(units, base)) {
        assert IsLogical(units, Verdict(units, base));
      }
    }
  }

  lemma SomeByListing(units: seq<Unit>, p: Unit -> bool)
    ensures SomeUnit(units, p) <==>
      || (exists u :: u in units && PairOf(units, u.name).None? && p(u))
      || (exists base :: IsPair(units, base) && p(Verdict(units, base)))
  {
    if u :| u in units && PairOf(units, u.name).None? && p(u) {
      assert IsLogical(units, u);
    }
    if base :| IsPair(units, base) && p(Verdict(units, base)) {
      assert IsLogical(units, Verdict(units, base));
    }
  }

  lemma SomeUnitExists(units: seq<Unit>)
    requires units != []
    ensures exists u :: IsLogical(units, u)
  {
    var u := units[0];
    if PairOf(units, u.name).Some? {
      var base := PairOf(units, u.name).value;
      assert IsLogical(units, Verdict(units, base));
    } else {
      assert u in units;
      assert IsLogical(units, u);
    }
  }

  // ------------------------------------------------- what the listing must hold

  /** Nothing serves and nothing is on its way: no unpaired unit is healthy or starting,
      and no pair has a running or starting colour or an armed base. */
  ghost predicate NoneUp(units: seq<Unit>, armed: set<string>)
  {
    && (forall u :: u in units && PairOf(units, u.name).None? ==> !IsHealthy(u, armed) && !IsStarting(u))
    && (forall base :: IsPair(units, base) ==>
          !Either(units, base, IsRunning) && !Either(units, base, IsStarting) && base !in armed)
  }

  /** Some unpaired unit, or some colour of a pair, has failed. */
  ghost predicate SomeFailed(units: seq<Unit>)
  {
    || (exists u :: u in units && PairOf(units, u.name).None? && u.active == "failed")
    || (exists base :: IsPair(units, base) && Either(units, base, (u: Unit) => u.active == "failed"))
  }

  /** Every unpaired unit has failed, and every pair has a failed colour and none that
      runs or starts. */
  ghost predicate AllFailed(units: seq<Unit>)
  {
    && (forall u :: u in units && PairOf(units, u.name).None? ==> u.active == "failed")
    && (forall base :: IsPair(units, base) ==>
          && Either(units, base, (u: Unit) => u.active == "failed")
          && !Either(units, base, IsRunning) && !Either(units, base, IsStarting))
  }

  function Idle(armed: set<string>): Unit -> bool
  {
    (u: Unit) => !IsHealthy(u, armed) && !IsStarting(u)
  }

  lemma NoneUpIsIdle(units: seq<Unit>, armed: set<string>)
    ensures NoneUp(units, armed) <==> EveryUnit(units, Idle(armed))
  {
    var p := Idle(armed);
    EveryByListing(units, p);
    forall base | IsPair(units, base)
      ensures p(Verdict(units, base)) <==>
        !Either(units, base, IsRunning) && !Either(units, base, IsStarting) && base !in armed
    {
    }
    assert forall u :: p(u) <==> !IsHealthy(u, armed) && !IsStarting(u);
  }

  lemma AllFailedIsEvery(units: seq<Unit>)
    ensures AllFailed(units) <==> EveryUnit(units, IsFailed)
  {
    EveryByListing(units, IsFailed);
    forall base | IsPair(units, base)
      ensures IsFailed(Verdict(units, base)) <==>
        && Either(units, base, (u: Unit) => u.active == "failed")
        && !Either(units, base, IsRunning) && !Either(units, base, IsStarting)
    {
    }
  }

  lemma SomeFailedIsSome(units: seq<Unit>, armed: set<string>)
    requires NoneUp(units, armed)
    ensures SomeFailed(units) <==> SomeUnit(units, IsFailed)
  {
    SomeByListing(units, IsFailed);
    forall base | IsPair(units, base)
      ensures IsFailed(Verdict(units, base)) <==> Either(units, base, (u: Unit) => u.active == "failed")
    {
    }
  }

  // ------------------------------------------------------- failed and stopped

  lemma IdleCounts(units: seq<Unit>, armed: set<string>)
    ensures EveryUnit(units, Idle(armed)) <==> !SomeUnit(units, Healthy(armed)) && !SomeUnit(units, IsStarting)
  {
    var p, h := Idle(armed), Healthy(armed);
    assert forall u :: p(u) <==> !h(u) && !IsStarting(u);
    if EveryUnit(units, p) {
      forall u | IsLogical(units, u) ensures !h(u) && !IsStarting(u) {
        assert p(u);
      }
    } else {
      var u :| IsLogical(units, u) && !p(u);
      assert h(u) || IsStarting(u);
    }
  }

  /** The status in terms of every and some logical unit, failed and stopped. */
  lemma DownByUnits(units: seq<Unit>, armed: set<string>)
    requires units != []
    ensures
      var idle, failed := EveryUnit(units, Idle(armed)), SomeUnit(units, IsFailed);
      var status := ServiceStatus(units, armed);
      && (idle ==> status == if failed then Status("failed", "failed") else Status("inactive", "dead"))
      && (!idle ==> status != Status("inactive", "dead"))
      && (!idle ==> (status == Status("failed", "failed") <==>
            && EveryUnit(units, IsFailed) && !EveryUnit(units, Healthy(armed))
            && status != Status("activating", "start")))
  {
    AggregateByCounts(Collapsed(units), armed);
    EveryUnitIsFull(units, Healthy(armed));
    EveryUnitIsFull(units, IsFailed);
    SomeUnitIsCounted(units, Healthy(armed));
    SomeUnitIsCounted(units, IsStarting);
    SomeUnitIsCounted(units, IsFailed);
    IdleCounts(units, armed);
    SomeUnitExists(units);
    var u :| IsLogical(units, u);
    CollapsedHoldsTheLogicalUnits(units, u);
  }

  /** Stopped is shown exactly when nothing is up and nothing has failed. */
  lemma StoppedExactlyWhen(units: seq<Unit>, armed: set<string>)
    requires units != []
    ensures ServiceStatus(units, armed) == Status("inactive", "dead") <==>
      NoneUp(units, armed) && !SomeFailed(units)
  {
    DownByUnits(units, armed);
    NoneUpIsIdle(units, armed);
    if NoneUp(units, armed) {
      SomeFailedIsSome(units, armed);
    }
  }

  /** Failed is shown exactly when nothing is up and something has failed, or when
      everything has failed, some of it behind a listening socket or still in sub-state
      start, and neither running nor starting is shown. */
  lemma FailedExactlyWhen(units: seq<Unit>, armed: set<string>)
    requires units != []
    ensures ServiceStatus(units, armed) == Status("failed", "failed") <==>
      || (NoneUp(units, armed) && SomeFailed(units))
      || (AllFailed(units) && !(UnpairedHealthy(units, armed) && PairsServe(units, armed))
          && ServiceStatus(units, armed) != Status("activating", "start"))
  {
    DownByUnits(units, armed);
    NoneUpIsIdle(units, armed);
    AllFailedIsEvery(units);
    RunningMeansAllHealthy(units, armed);
    RunningExactlyWhen(units, armed);
    if NoneUp(units, armed) {
      SomeFailedIsSome(units, armed);
      FailedMeansSome(units);
    }
  }

  lemma FailedMeansSome(units: seq<Unit>)
    requires units != []
    ensures EveryUnit(units, IsFailed) ==> SomeUnit(units, IsFailed)
  {
    SomeUnitExists(units);
  }

  /** What systemd can report: armed units are inactive, no armed name is a pair's base,
      and no failed unit is in sub-state start. */
  ghost predicate Settled(units: seq<Unit>, armed: set<string>)
  {
    && (forall u :: u in units ==> (u.name in armed ==> u.active == "inactive"))
    && (forall u :: u in units ==> (u.active == "failed" ==> u.sub != "start"))
    && NoArmedPair(units, armed)
  }

  lemma ColourIsListed(units: seq<Unit>, base: string)
    requires IsPair(units, base)
    ensures units[LastIndex(units, Blue(base))] in units && units[LastIndex(units, Green(base))] in units
  {
  }

  lemma AllFailedIsDown(units: seq<Unit>, armed: set<string>)
    requires Settled(units, armed) && AllFailed(units)
    ensures NoneUp(units, armed)
  {
    forall u | u in units && PairOf(units, u.name).None? ensures !IsHealthy(u, armed) && !IsStarting(u) {
      assert u.active == "failed";
    }
  }

  lemma AllFailedHasOne(units: seq<Unit>)
    requires units != [] && AllFailed(units)
    ensures SomeFailed(units)
  {
    var u := units[0];
    assert u in units;
    if PairOf(units, u.name).Some? {
      assert IsPair(units, PairOf(units, u.name).value);
    }
  }

  /** For such units failed is shown exactly when nothing is up and something failed. */
  lemma FailedWhenSettled(units: seq<Unit>, armed: set<string>)
    requires units != [] && Settled(units, armed)
    ensures ServiceStatus(units, armed) == Status("failed", "failed") <==> NoneUp(units, armed) && SomeFailed(units)
  {
    FailedExactlyWhen(units, armed);
    if AllFailed(units) {
      AllFailedIsDown(units, armed);
      AllFailedHasOne(units);
    }
  }

  /** Two colours of one base and nothing else. */
  lemma OnePair(base: string, blue: Unit, green: Unit, units: seq<Unit>)
    requires blue.name == Blue(base) && green.name == Green(base) && units == [blue, green]
    ensures IsPair(units, base) && LastIndex(units, Blue(base)) == 0 && LastIndex(units, Green(base)) == 1
    ensures forall b :: IsPair(units, b) ==> b == base
    ensures forall u :: u in units ==> PairOf(units, u.name).Some?
  {
    ColoursShareTheirBase(base);
    LastIndexIs(units, Blue(base), 0);
    LastIndexIs(units, Green(base), 1);
    PairOfColour(units, base);
    forall b | IsPair(units, b) ensures b == base {
      ColoursShareTheirBase(b);
      assert BgBase(units[LastIndex(units, Blue(b))].name) == Some(b);
    }
  }

  predicate Coming(u: Unit)
  {
    u.active == "activating" || u.active == "reloading" || u.sub == "start"
  }

  predicate Up(u: Unit)
  {
    u.active == "active" && u.sub == "running"
  }

  lemma OnlyVerdict(base: string, units: seq<Unit>)
    requires IsPair(units, base) && forall b :: IsPair(units, b) ==> b == base
    requires forall u :: u in units ==> PairOf(units, u.name).Some?
    ensures forall u :: IsLogical(units, u) <==> u == Verdict(units, base)
  {
  }

  /** What two colours make of their pair. */
  function PairStatus(blue: Unit, green: Unit): Status
  {
    if Up(blue) || Up(green) then Status("active", "running")
    else if Coming(blue) || Coming(green) then Status("activating", "start")
    else if blue.active == "failed" || green.active == "failed" then Status("failed", "failed")
    else Status("inactive", "dead")
  }

  lemma VerdictOfPair(base: string, blue: Unit, green: Unit, units: seq<Unit>)
    requires IsPair(units, base) && LastIndex(units, Blue(base)) == 0 && LastIndex(units, Green(base)) == 1
    requires units == [blue, green]
    ensures
      var s := PairStatus(blue, green);
      Verdict(units, base) == Unit(base, s.active, s.sub)
  {
  }

  /** With one logical unit, in a state that only verdicts have, the status is its state. */
  lemma OneLogicalUnit(units: seq<Unit>, v: Unit)
    requires units != [] && forall u :: IsLogical(units, u) <==> u == v
    requires Status(v.active, v.sub) in {Status("active", "running"), Status("activating", "start"),
                                         Status("failed", "failed"), Status("inactive", "dead")}
    ensures SimpleStatus(units, {}) == Status(v.active, v.sub)
  {
    var h, n := Healthy({}), Neither({});
    assert IsLogical(units, v);
    assert h(v) <==> v.active == "active";
    assert n(v) <==> v.active == "failed" || v.active == "inactive";
  }

  /** One pair alone: up as soon as one colour is active and running, which a colour that
      has exited is not; else starting, failed or stopped as one colour is. */
  lemma PairAlone(base: string, blue: Unit, green: Unit, units: seq<Unit>)
    requires blue.name == Blue(base) && green.name == Green(base) && units == [blue, green]
    ensures ServiceStatus(units, {}) == PairStatus(blue, green)
  {
    OnePair(base, blue, green, units);
    OnlyVerdict(base, units);
    VerdictOfPair(base, blue, green, units);
    OneLogicalUnit(units, Verdict(units, base));
    OnlyArmedPairsMislead(units, {});
  }

  /** A pair whose colours are both down, one of them failed, is a failure that shows:
      alone it makes the service failed. */
  lemma FailedPairShows(base: string, blue: Unit, green: Unit, units: seq<Unit>)
    requires blue.name == Blue(base) && green.name == Green(base) && units == [blue, green]
    requires blue.active == "failed" && (green.active == "failed" || green.active == "inactive")
    requires blue.sub != "start" && green.sub != "start"
    ensures ServiceStatus(units, {}) == Status("failed", "failed")
  {
    OnePair(base, blue, green, units);
    assert Either(units, base, (u: Unit) => u.active == "failed");
    assert NoneUp(units, {});
    FailedExactlyWhen(units, {});
  }

  // ------------------------------------------------------ the documented cases

  /** No colour pairs among the units. */
  ghost predicate Unpaired(units: seq<Unit>)
  {
    forall u :: u in units ==> PairOf(units, u.name).None?
  }

  lemma UnpairedHasNoPair(units: seq<Unit>, base: string)
    requires Unpaired(units)
    ensures !IsPair(units, base)
  {
    if IsPair(units, base) {
      assert units[LastIndex(units, Blue(base))] in units;
      PairOfColour(units, base);
    }
  }

  predicate Served(u: Unit)
  {
    u.active == "active" && (u.sub == "running" || u.sub == "exited")
  }

  /** The status table on the states systemd reports, `armed` naming inactive units behind
      a listening socket. */
  ghost function StatusTable(units: seq<Unit>, armed: set<string>): Status
  {
    if forall u :: u in units ==> Served(u) || u.name in armed then Status("active", "running")
    else if forall u :: u in units ==> Served(u) || u.name in armed || Coming(u) then Status("activating", "start")
    else if forall u :: u in units ==> u.active == "failed" then Status("failed", "failed")
    else if exists u :: u in units && (Served(u) || u.name in armed || Coming(u)) then Status("active", "degraded")
    else if exists u :: u in units && u.active == "failed" then Status("failed", "failed")
    else Status("inactive", "dead")
  }

  lemma CascadeIsTheTable(units: seq<Unit>, armed: set<string>)
    requires units != [] && forall u :: IsLogical(units, u) <==> u in units
    ensures SimpleStatus(units, armed) == StatusTable(units, armed)
  {
    var h, n := Healthy(armed), Neither(armed);
    assert units[0] in units;
    assert forall u :: h(u) <==> Served(u) || u.name in armed;
    assert forall u :: n(u) <==> !h(u) && !Coming(u);
  }

  /** For units without pairs, what all units are decides running, failed and stopped,
      and what some are decides the rest. */
  lemma UnpairedStatus(units: seq<Unit>, armed: set<string>)
    requires units != [] && Unpaired(units)
    requires forall u :: u in units && u.name in armed ==> u.active == "inactive" && !Coming(u)
    ensures ServiceStatus(units, armed) == StatusTable(units, armed)
  {
    forall base ensures !IsPair(units, base) {
      UnpairedHasNoPair(units, base);
    }
    OnlyArmedPairsMislead(units, armed);
    CascadeIsTheTable(units, armed);
  }

  // ------------------------------------------------------- systemd's answers

  /** What systemd must answer for a unit to count as up: found and active, running or
      exited, or inactive or not found with an active trigger. */
  predicate AnswersUp(probe: Probe)
  {
    probe.Shown? && (
      || (probe.load != "not-found" && probe.active == "active" && (probe.sub == "running" || probe.sub == "exited"))
      || ((probe.load == "not-found" || probe.active == "inactive") && true in probe.triggers))
  }

  lemma AnswerIsHealth(names: seq<string>, probes: seq<Probe>, i: nat)
    requires |names| == |probes| && (forall j, k :: 0 <= j < k < |names| ==> names[j] != names[k]) && i < |names|
    ensures IsHealthy(UnitsOf(names, probes)[i], ArmedOf(names, probes)) <==> AnswersUp(probes[i])
  {
    var armed := ArmedOf(names, probes);
    if names[i] in armed {
      var k :| 0 <= k < |names| && IsArmed(names[k], probes[k]) && names[k] == names[i];
      assert k == i;
    }
    if IsArmed(names[i], probes[i]) {
      assert names[i] in armed;
    }
  }

  /** Running is shown for units without pairs exactly when systemd answers so for every
      unit: an error, a timeout, a failed unit behind a socket and an inactive one
      without a trigger all show. */
  lemma RunningByAnswers(names: seq<string>, probes: seq<Probe>)
    requires |names| == |probes| > 0 && forall j, k :: 0 <= j < k < |names| ==> names[j] != names[k]
    requires Unpaired(UnitsOf(names, probes))
    ensures ServiceStatus(UnitsOf(names, probes), ArmedOf(names, probes)) == Status("active", "running") <==>
      forall i :: 0 <= i < |probes| ==> AnswersUp(probes[i])
  {
    var units, armed := UnitsOf(names, probes), ArmedOf(names, probes);
    forall base ensures !IsPair(units, base) {
      UnpairedHasNoPair(units, base);
    }
    forall i | 0 <= i < |names| ensures IsHealthy(units[i], armed) <==> AnswersUp(probes[i]) {
      AnswerIsHealth(names, probes, i);
    }
    forall i | 0 <= i < |units| ensures units[i] in units && PairOf(units, units[i].name).None? {
    }
    RunningExactlyWhen(units, armed);
  }
}
