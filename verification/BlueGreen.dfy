/** The status of a service made of several systemd units, with blue/green colour
    pairs collapsed to one logical unit each: _bg_base, _collapse_blue_green and the
    aggregate part of _get_systemd_status in
    web-platform/backend/resolvers/services.py.

    What systemctl answers for a unit is arbitrary; `armed` is the set of names of
    inactive units whose triggering socket is listening. */
module BlueGreen {
  import opened Options
  import opened Text

  datatype Unit = Unit(name: string, active: string, sub: string)

  datatype Role = Serving | Standby

  datatype Status = Status(active: string, sub: string)

  class UnitState {
    const unit: Unit
    var bgRole: Option<Role>

    constructor (unit: Unit)
      ensures this.unit == unit && bgRole == None
    {
      this.unit := unit;
      bgRole := None;
    }
  }

  function Units(states: seq<UnitState>): (units: seq<Unit>)
    ensures |units| == |states|
    ensures forall i :: 0 <= i < |states| ==> units[i] == states[i].unit
  {
    seq(|states|, i requires 0 <= i < |states| => states[i].unit)
  }

  // ------------------------------------------------------------------- pairs

  function Colour(base: string, colour: string): (name: string)
    ensures EndsWith(name, colour) && name[..|name| - |colour|] == base
  {
    base + colour
  }

  function Blue(base: string): string { Colour(base, "-blue") }

  function Green(base: string): string { Colour(base, "-green") }

  /** The name without its colour suffix. */
  function BgBase(name: string): (base: Option<string>)
    ensures base.Some? ==> name == Blue(base.value) || name == Green(base.value)
  {
    if EndsWith(name, "-blue") then Some(name[..|name| - 5])
    else if EndsWith(name, "-green") then Some(name[..|name| - 6])
    else None
  }

  lemma ColoursShareTheirBase(base: string)
    ensures BgBase(Blue(base)) == Some(base) && BgBase(Green(base)) == Some(base)
    ensures Blue(base) != Green(base)
  {
    var green := Green(base);
    assert green[|green| - 6..][1..] == "green" == green[|green| - 5..];
    assert "green"[0] != "-blue"[0];
  }

  /** Where a name last occurs, -1 when it does not: a dictionary filled in list
      order keeps the last unit of a name. */
  function LastIndex(units: seq<Unit>, name: string): (i: int)
    ensures -1 <= i < |units|
    ensures i >= 0 ==> units[i].name == name
  {
    if units == [] then -1
    else if units[|units| - 1].name == name then |units| - 1
    else LastIndex(units[..|units| - 1], name)
  }

  predicate Listed(units: seq<Unit>, name: string)
  {
    LastIndex(units, name) >= 0
  }

  /** Both colours of the base are listed. */
  predicate IsPair(units: seq<Unit>, base: string)
  {
    Listed(units, Blue(base)) && Listed(units, Green(base))
  }

  /** The base of the pair a name belongs to. */
  function PairOf(units: seq<Unit>, name: string): (base: Option<string>)
    ensures base.Some? ==> IsPair(units, base.value) && (name == Blue(base.value) || name == Green(base.value))
  {
    var base := BgBase(name);
    if base.Some? && IsPair(units, base.value) then base else None
  }

  lemma PairOfColour(units: seq<Unit>, base: string)
    requires IsPair(units, base)
    ensures PairOf(units, Blue(base)) == Some(base) && PairOf(units, Green(base)) == Some(base)
  {
    ColoursShareTheirBase(base);
  }

  predicate IsRunning(u: Unit)
  {
    u.active == "active" && u.sub == "running"
  }

  predicate IsStarting(u: Unit)
  {
    u.active == "activating" || u.active == "reloading" || u.sub == "start"
  }

  predicate IsFailed(u: Unit)
  {
    u.active == "failed"
  }

  predicate Either(units: seq<Unit>, base: string, p: Unit -> bool)
    requires IsPair(units, base)
  {
    p(units[LastIndex(units, Blue(base))]) || p(units[LastIndex(units, Green(base))])
  }

  predicate PairRuns(units: seq<Unit>, base: string)
  {
    IsPair(units, base) && Either(units, base, IsRunning)
  }

  /** The one logical unit a colour pair stands for. */
  function Verdict(units: seq<Unit>, base: string): Unit
    requires IsPair(units, base)
  {
    if Either(units, base, IsRunning) then Unit(base, "active", "running")
    else if Either(units, base, IsStarting) then Unit(base, "activating", "start")
    else if Either(units, base, IsFailed) then Unit(base, "failed", "failed")
    else Unit(base, "inactive", "dead")
  }

  /** The bases of the pairs met among the first k units, each once, in order. */
  function Bases(units: seq<Unit>, k: nat): (bases: seq<string>)
    requires k <= |units|
    ensures forall b :: b in bases ==> IsPair(units, b)
  {
    if k == 0 then []
    else
      var before, base := Bases(units, k - 1), PairOf(units, units[k - 1].name);
      if base.Some? && base.value !in before then before + [base.value] else before
  }

  lemma {:induction false} BasesMet(units: seq<Unit>, k: nat, i: nat)
    requires i < k <= |units| && PairOf(units, units[i].name).Some?
    ensures PairOf(units, units[i].name).value in Bases(units, k)
  {
    if i < k - 1 {
      BasesMet(units, k - 1, i);
    }
  }

  lemma {:induction false} BasesDistinct(units: seq<Unit>, k: nat)
    requires k <= |units|
    ensures forall i, j :: 0 <= i < j < |Bases(units, k)| ==> Bases(units, k)[i] != Bases(units, k)[j]
  {
    if k > 0 {
      BasesDistinct(units, k - 1);
    }
  }

  function Verdicts(units: seq<Unit>, bases: seq<string>): (vs: seq<Unit>)
    requires forall b :: b in bases ==> IsPair(units, b)
    ensures |vs| == |bases| && forall i :: 0 <= i < |bases| ==> vs[i] == Verdict(units, bases[i])
  {
    seq(|bases|, i requires 0 <= i < |bases| => Verdict(units, bases[i]))
  }

  function Filter(xs: seq<Unit>, p: Unit -> bool): (kept: seq<Unit>)
    ensures |kept| <= |xs|
  {
    if xs == [] then []
    else
      var n := |xs| - 1;
      if p(xs[n]) then Filter(xs[..n], p) + [xs[n]] else Filter(xs[..n], p)
  }

  lemma NextKept(xs: seq<Unit>, p: Unit -> bool, i: nat)
    requires i < |xs|
    ensures Filter(xs[..i + 1], p) == if p(xs[i]) then Filter(xs[..i], p) + [xs[i]] else Filter(xs[..i], p)
  {
    assert xs[..i + 1][..i] == xs[..i];
  }

  lemma {:induction false} InFilter(xs: seq<Unit>, p: Unit -> bool, x: Unit)
    ensures x in Filter(xs, p) <==> x in xs && p(x)
  {
    if xs != [] {
      var n := |xs| - 1;
      assert xs == xs[..n] + [xs[n]];
      InFilter(xs[..n], p, x);
    }
  }

  function Alone(units: seq<Unit>): Unit -> bool
  {
    (u: Unit) => PairOf(units, u.name).None?
  }

  function Collapsed(units: seq<Unit>): seq<Unit>
  {
    Filter(units, Alone(units)) + Verdicts(units, Bases(units, |units|))
  }

  /** The role the interface shows for a unit: set only when exactly one colour of its
      pair runs. */
  function RoleOf(units: seq<Unit>, name: string): Option<Role>
  {
    if PairOf(units, name).None? then None
    else
      var base := PairOf(units, name).value;
      var blue, green := units[LastIndex(units, Blue(base))], units[LastIndex(units, Green(base))];
      if IsRunning(blue) == IsRunning(green) then None
      else if IsRunning(units[LastIndex(units, name)]) then Some(Serving)
      else Some(Standby)
  }

  // ------------------------------------------------------------ the collapse

  /** s is the object the by-name dictionary holds for its name. */
  ghost predicate Indexed(states: seq<UnitState>, s: UnitState)
  {
    var i := LastIndex(Units(states), s.unit.name);
    i >= 0 && states[i] == s
  }

  /** The role a unit object carries after the collapse. */
  ghost function RoleAfter(states: seq<UnitState>, s: UnitState, was: Option<Role>): Option<Role>
  {
    var role := RoleOf(Units(states), s.unit.name);
    if Indexed(states, s) && role.Some? then role else was
  }

  /** The by-name dictionary: a name listed twice keeps its last unit. */
  function ByName(states: seq<UnitState>): map<string, UnitState>
  {
    if states == [] then map[]
    else
      var n := |states| - 1;
      ByName(states[..n])[states[n].unit.name := states[n]]
  }

  lemma {:induction false} ByNameHoldsTheLast(states: seq<UnitState>, name: string)
    ensures name in ByName(states) <==> Listed(Units(states), name)
    ensures name in ByName(states) ==> ByName(states)[name] == states[LastIndex(Units(states), name)]
  {
    if states != [] {
      var n := |states| - 1;
      assert Units(states)[..n] == Units(states[..n]);
      ByNameHoldsTheLast(states[..n], name);
    }
  }

  /** Both unit names of every base. */
  function Colours(bases: seq<string>): set<string>
  {
    if bases == [] then {}
    else
      var n := |bases| - 1;
      Colours(bases[..n]) + {Blue(bases[n]), Green(bases[n])}
  }

  lemma {:induction false} ColouredIffPaired(units: seq<Unit>, bases: seq<string>, name: string)
    requires forall b :: b in bases ==> IsPair(units, b)
    ensures name in Colours(bases) <==> PairOf(units, name).Some? && PairOf(units, name).value in bases
  {
    if bases != [] {
      var n := |bases| - 1;
      assert bases == bases[..n] + [bases[n]];
      ColouredIffPaired(units, bases[..n], name);
      PairOfColour(units, bases[n]);
    }
  }

  /** The unit's colour pair is new to the bases met. */
  predicate IsNew(byName: map<string, UnitState>, paired: set<string>, base: Option<string>, name: string)
  {
    base.Some? && name !in paired && Blue(base.value) in byName && Green(base.value) in byName
  }

  lemma NextBase(states: seq<UnitState>, i: nat, bases: seq<string>, name: string, base: Option<string>, isNew: bool)
    requires i < |states| && bases == Bases(Units(states), i) && name == states[i].unit.name && base == BgBase(name)
    requires isNew == IsNew(ByName(states), Colours(bases), base, name)
    ensures isNew ==> bases + [base.value] == Bases(Units(states), i + 1)
    ensures !isNew ==> bases == Bases(Units(states), i + 1)
  {
    ColouredIffPaired(Units(states), bases, name);
    if base.Some? {
      ByNameHoldsTheLast(states, Blue(base.value));
      ByNameHoldsTheLast(states, Green(base.value));
    }
  }

  lemma NextColours(bases: seq<string>, base: string)
    ensures Colours(bases + [base]) == Colours(bases) + {Blue(base), Green(base)}
  {
    assert (bases + [base])[..|bases|] == bases;
  }

  method FindPairs(states: seq<UnitState>, byName: map<string, UnitState>)
    returns (bases: seq<string>, pairedNames: set<string>)
    requires byName == ByName(states)
    ensures bases == Bases(Units(states), |states|) && pairedNames == Colours(bases)
  {
    bases, pairedNames := [], {};
    for i := 0 to |states|
      invariant bases == Bases(Units(states), i) && pairedNames == Colours(bases)
    {
      var name := states[i].unit.name;
      var base := BgBase(name);
      var isNew := IsNew(byName, pairedNames, base, name);
      NextBase(states, i, bases, name, base, isNew);
      if isNew {
        NextColours(bases, base.value);
        bases, pairedNames := bases + [base.value], pairedNames + {Blue(base.value), Green(base.value)};
      }
    }
  }

  /** The two objects the dictionary holds for a pair. */
  ghost predicate AreThePair(states: seq<UnitState>, base: string, blue: UnitState, green: UnitState)
  {
    && IsPair(Units(states), base)
    && blue == states[LastIndex(Units(states), Blue(base))]
    && green == states[LastIndex(Units(states), Green(base))]
  }

  lemma DictionaryHoldsThePair(states: seq<UnitState>, base: string)
    requires IsPair(Units(states), base)
    ensures Blue(base) in ByName(states) && Green(base) in ByName(states)
    ensures AreThePair(states, base, ByName(states)[Blue(base)], ByName(states)[Green(base)])
    ensures ByName(states)[Blue(base)] in states && ByName(states)[Green(base)] in states
  {
    ByNameHoldsTheLast(states, Blue(base));
    ByNameHoldsTheLast(states, Green(base));
  }

  /** One pair's verdict, and the roles of its two units when exactly one runs. */
  method JudgePair(states: seq<UnitState>, base: string, blue: UnitState, green: UnitState)
    returns (verdict: UnitState)
    requires AreThePair(states, base, blue, green)
    modifies blue, green
    ensures fresh(verdict) && verdict.unit == Verdict(Units(states), base)
    ensures blue.bgRole == RoleAfter(states, blue, old(blue.bgRole))
    ensures green.bgRole == RoleAfter(states, green, old(green.bgRole))
  {
    PairOfColour(Units(states), base);
    var blueRuns, greenRuns := IsRunning(blue.unit), IsRunning(green.unit);
    if blueRuns || greenRuns {
      verdict := new UnitState(Unit(base, "active", "running"));
    } else if IsStarting(blue.unit) || IsStarting(green.unit) {
      verdict := new UnitState(Unit(base, "activating", "start"));
    } else if IsFailed(blue.unit) || IsFailed(green.unit) {
      verdict := new UnitState(Unit(base, "failed", "failed"));
    } else {
      verdict := new UnitState(Unit(base, "inactive", "dead"));
    }
    if blueRuns != greenRuns {
      var running, other := if blueRuns then blue else green, if blueRuns then green else blue;
      running.bgRole := Some(Serving);
      other.bgRole := Some(Standby);
    }
  }

  /** Where a unit's role stands once the given pairs are judged. */
  ghost function RoleDuring(states: seq<UnitState>, done: seq<string>, s: UnitState, was: Option<Role>): Option<Role>
  {
    var base := PairOf(Units(states), s.unit.name);
    if base.Some? && base.value in done then RoleAfter(states, s, was) else was
  }

  /** Judging one more pair concerns its two objects only. */
  lemma RoleStep(states: seq<UnitState>, bases: seq<string>, i: nat, s: UnitState, was: Option<Role>,
                 blue: UnitState, green: UnitState)
    requires i < |bases| && bases[i] !in bases[..i] && AreThePair(states, bases[i], blue, green)
    ensures RoleDuring(states, bases[..i + 1], s, was)
         == if s == blue || s == green then RoleAfter(states, s, was) else RoleDuring(states, bases[..i], s, was)
    ensures s == blue || s == green ==> RoleDuring(states, bases[..i], s, was) == was
  {
    assert bases[..i + 1] == bases[..i] + [bases[i]];
    PairOfColour(Units(states), bases[i]);
  }

  lemma NextVerdict(units: seq<Unit>, bases: seq<string>, i: nat, states: seq<UnitState>, s: UnitState)
    requires i < |bases| && forall b :: b in bases ==> IsPair(units, b)
    requires Units(states) == Verdicts(units, bases[..i]) && s.unit == Verdict(units, bases[i])
    ensures Units(states + [s]) == Verdicts(units, bases[..i + 1])
  {
  }

  method JudgePairs(states: seq<UnitState>, byName: map<string, UnitState>, bases: seq<string>)
    returns (verdicts: seq<UnitState>)
    requires byName == ByName(states)
    requires forall b :: b in bases ==> IsPair(Units(states), b)
    requires forall i, j :: 0 <= i < j < |bases| ==> bases[i] != bases[j]
    modifies states
    ensures Units(verdicts) == Verdicts(Units(states), bases)
    ensures forall s :: s in states ==> s.bgRole == RoleDuring(states, bases, s, old(s.bgRole))
  {
    verdicts := [];
    for i := 0 to |bases|
      invariant Units(verdicts) == Verdicts(Units(states), bases[..i])
      invariant forall s :: s in states ==> s.bgRole == RoleDuring(states, bases[..i], s, old(s.bgRole))
    {
      var base := bases[i];
      DictionaryHoldsThePair(states, base);
      var blue, green := byName[Blue(base)], byName[Green(base)];
      forall s | s in states
        ensures RoleDuring(states, bases[..i + 1], s, old(s.bgRole))
             == if s == blue || s == green then RoleAfter(states, s, old(s.bgRole)) else s.bgRole
        ensures s == blue || s == green ==> s.bgRole == old(s.bgRole)
      {
        RoleStep(states, bases, i, s, old(s.bgRole), blue, green);
      }
      var verdict := JudgePair(states, base, blue, green);
      NextVerdict(Units(states), bases, i, verdicts, verdict);
      verdicts := verdicts + [verdict];
    }
    assert bases[..|bases|] == bases;
  }

  method Unpaired(states: seq<UnitState>, pairedNames: set<string>) returns (standalone: seq<UnitState>)
    requires forall s :: s in states ==> (s.unit.name in pairedNames <==> PairOf(Units(states), s.unit.name).Some?)
    ensures Units(standalone) == Filter(Units(states), Alone(Units(states)))
  {
    standalone := [];
    ghost var units, alone := Units(states), Alone(Units(states));
    for i := 0 to |states|
      invariant Units(standalone) == Filter(units[..i], alone)
    {
      NextKept(units, alone, i);
      assert states[i] in states;
      if states[i].unit.name !in pairedNames {
        UnitsConcat(standalone, [states[i]]);
        standalone := standalone + [states[i]];
      }
    }
    assert units[..|units|] == units;
  }

  lemma UnitsConcat(a: seq<UnitState>, b: seq<UnitState>)
    ensures Units(a + b) == Units(a) + Units(b)
  {
  }

  /** Once every pair is judged, every unit has its final role. */
  lemma AllJudged(states: seq<UnitState>, bases: seq<string>, i: nat, was: Option<Role>)
    requires i < |states| && bases == Bases(Units(states), |states|)
    ensures RoleDuring(states, bases, states[i], was) == RoleAfter(states, states[i], was)
    ensures states[i].unit.name in Colours(bases) <==> PairOf(Units(states), states[i].unit.name).Some?
  {
    ColouredIffPaired(Units(states), bases, states[i].unit.name);
    if PairOf(Units(states), states[i].unit.name).Some? {
      BasesMet(Units(states), |states|, i);
    }
  }

  method CollapseBlueGreen(states: seq<UnitState>) returns (collapsed: seq<UnitState>)
    modifies states
    ensures Units(collapsed) == Collapsed(Units(states))
    ensures forall s :: s in states ==> s.bgRole == RoleAfter(states, s, old(s.bgRole))
  {
    ghost var units := Units(states);
    var byName := ByName(states);
    var bases, pairedNames := FindPairs(states, byName);
    BasesDistinct(units, |units|);
    forall s | s in states
      ensures RoleDuring(states, bases, s, s.bgRole) == RoleAfter(states, s, s.bgRole)
      ensures s.unit.name in pairedNames <==> PairOf(units, s.unit.name).Some?
    {
      var i :| 0 <= i < |states| && states[i] == s;
      AllJudged(states, bases, i, s.bgRole);
    }
    var verdicts := JudgePairs(states, byName, bases);
    var standalone := Unpaired(states, pairedNames);
    UnitsConcat(standalone, verdicts);
    collapsed := standalone + verdicts;
  }

  // ----------------------------------------------------------- the aggregate

  /** A finished one-shot and an idle unit behind a listening socket count as up. */
  predicate IsHealthy(u: Unit, armed: set<string>)
  {
    (u.active == "active" && (u.sub == "running" || u.sub == "exited")) || u.name in armed
  }

  function Healthy(armed: set<string>): Unit -> bool
  {
    (u: Unit) => IsHealthy(u, armed)
  }

  function Outside(listed: seq<Unit>): Unit -> bool
  {
    (u: Unit) => u !in listed
  }

  function Aggregate(units: seq<Unit>, armed: set<string>): Status
  {
    var running := Filter(units, Healthy(armed));
    var failed := Filter(units, IsFailed);
    var starting := Filter(units, IsStarting);
    var notRunning := Filter(units, Outside(running));
    var total := |units|;
    if notRunning == [] then Status("active", "running")
    else if starting != [] && |running| + |starting| == total then Status("activating", "start")
    else if failed != [] && |failed| == total then Status("failed", "failed")
    else if |running| == 0 && starting == [] then
      if failed != [] then Status("failed", "failed") else Status("inactive", "dead")
    else Status("active", "degraded")
  }

  function ServiceStatus(units: seq<Unit>, armed: set<string>): Status
  {
    if units == [] then Status("unknown", "unknown") else Aggregate(Collapsed(units), armed)
  }

  method JudgeUnits(states: seq<UnitState>, armed: set<string>) returns (status: Status)
    modifies states
    ensures status == ServiceStatus(Units(states), armed)
    ensures states != [] ==> forall s :: s in states ==> s.bgRole == RoleAfter(states, s, old(s.bgRole))
  {
    if states == [] {
      return Status("unknown", "unknown");
    }
    var collapsed := CollapseBlueGreen(states);
    status := Aggregate(Units(collapsed), armed);
  }

  // ------------------------------------------------------------ asking systemd

  /** The answer about one unit: none on an error or a timeout; `triggers` says of each
      unit that triggers it whether it is active. */
  datatype Probe = NoAnswer | Shown(active: string, sub: string, load: string, triggers: seq<bool>)

  /** A unit that is not found counts as inactive. */
  function StateOf(name: string, probe: Probe): Unit
  {
    match probe
    case NoAnswer => Unit(name, "unknown", "unknown")
    case Shown(active, sub, load, _) =>
      if load == "not-found" then Unit(name, "inactive", "dead") else Unit(name, active, sub)
  }

  /** Only an inactive unit can be armed. */
  predicate IsArmed(name: string, probe: Probe)
  {
    StateOf(name, probe).active == "inactive" && probe.Shown? && true in probe.triggers
  }

  function UnitsOf(names: seq<string>, probes: seq<Probe>): (units: seq<Unit>)
    requires |names| == |probes|
    ensures |units| == |names| && forall i :: 0 <= i < |units| ==> units[i] == StateOf(names[i], probes[i])
  {
    seq(|names|, i requires 0 <= i < |names| => StateOf(names[i], probes[i]))
  }

  function ArmedOf(names: seq<string>, probes: seq<Probe>): set<string>
    requires |names| == |probes|
  {
    set i | 0 <= i < |names| && IsArmed(names[i], probes[i]) :: names[i]
  }

  method ReadUnits(names: seq<string>, probes: seq<Probe>) returns (states: seq<UnitState>, armed: set<string>)
    requires |names| == |probes|
    ensures Units(states) == UnitsOf(names, probes) && armed == ArmedOf(names, probes)
    ensures fresh(states) && forall s :: s in states ==> s.bgRole == None
  {
    states, armed := [], {};
    for i := 0 to |names|
      invariant |states| == i && forall k :: 0 <= k < i ==> states[k].unit == StateOf(names[k], probes[k])
      invariant armed == ArmedOf(names[..i], probes[..i])
      invariant fresh(states) && forall s :: s in states ==> s.bgRole == None
    {
      var active, sub, triggers := "unknown", "unknown", [];
      if probes[i].Shown? {
        active, sub, triggers := probes[i].active, probes[i].sub, probes[i].triggers;
        if probes[i].load == "not-found" {
          active, sub := "inactive", "dead";
        }
      }
      NextArmed(names, probes, i);
      if active == "inactive" && true in triggers {
        armed := armed + {names[i]};
      }
      var state := new UnitState(Unit(names[i], active, sub));
      states := states + [state];
    }
    assert names[..|names|] == names && probes[..|probes|] == probes;
  }

  lemma NextArmed(names: seq<string>, probes: seq<Probe>, i: nat)
    requires |names| == |probes| && i < |names|
    ensures ArmedOf(names[..i + 1], probes[..i + 1])
         == ArmedOf(names[..i], probes[..i]) + if IsArmed(names[i], probes[i]) then {names[i]} else {}
  {
    var now, was := ArmedOf(names[..i + 1], probes[..i + 1]), ArmedOf(names[..i], probes[..i]);
    forall name | name in now ensures name in was || (IsArmed(names[i], probes[i]) && name == names[i]) {
      var k :| 0 <= k < i + 1 && IsArmed(names[..i + 1][k], probes[..i + 1][k]) && names[..i + 1][k] == name;
      if k < i {
        assert IsArmed(names[..i][k], probes[..i][k]);
      }
    }
    forall name | name in was ensures name in now {
      var k :| 0 <= k < i && IsArmed(names[..i][k], probes[..i][k]) && names[..i][k] == name;
      assert IsArmed(names[..i + 1][k], probes[..i + 1][k]) && names[..i + 1][k] == name;
    }
    if IsArmed(names[i], probes[i]) {
      assert IsArmed(names[..i + 1][i], probes[..i + 1][i]);
    }
  }

  /** The status of a service and its units, from what systemd answers about each. */
  method GetStatus(names: seq<string>, probes: seq<Probe>) returns (status: Status, states: seq<UnitState>)
    requires |names| == |probes|
    ensures status == ServiceStatus(UnitsOf(names, probes), ArmedOf(names, probes))
    ensures names == [] ==> status == Status("unknown", "unknown")
    ensures Units(states) == UnitsOf(names, probes)
    ensures forall s :: s in states ==> s.bgRole == RoleAfter(states, s, None)
  {
    var armed: set<string>;
    states, armed := ReadUnits(names, probes);
    status := JudgeUnits(states, armed);
  }
}
