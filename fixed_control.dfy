/** The rule-based HVAC controller of fixed_control.py and the episode
    average it reports. Observations are lists of numbers that the
    controller names by zipping them with the environment's variable and
    actuator names; the environment itself (simulation, logging) is not
    modelled, its answers are parameters. Temperatures and setpoints are
    reals. */
module FixedControl {
  import opened Wrappers

  /** A number read from an observation: `datetime` accepts only the
      integral ones. */
  datatype Scalar = Int(i: int) | Float(f: real)

  function Value(x: Scalar): real
  {
    match x
    case Int(i) => i as real
    case Float(f) => f
  }

  /** A pair of setpoints (heating, cooling); also used for a comfort range,
      whose lower bound is `heat` and upper bound `cool`. */
  datatype Setpoints = Setpoints(heat: real, cool: real)

  /** Why `act` raises: a name missing from the zipped dictionary, a
      non-integral month or day, or a day that is not in the calendar. */
  datatype ActError = MissingKey(key: string) | NotInteger | InvalidDate

  const SummerSetpoints := Setpoints(23.0, 26.0)
  const WinterSetpoints := Setpoints(20.0, 23.5)

  /** One dimension of the action space box. */
  datatype Bounds = Bounds(lo: real, hi: real)

  const HeatBounds := Bounds(18.0, 24.0)
  const CoolBounds := Bounds(22.0, 30.0)

  /** The names the script gives its environment's variables and
      actuators, in order. */
  const ScriptVariables: seq<string> :=
    ["Outdoor Air Temperature", "Zone Mean Air Temperature", "Facility Total HVAC Electricity Demand Rate"]
  const ScriptActuators: seq<string> := ["Heating Setpoint", "Cooling Setpoint"]

  function Min(a: nat, b: nat): nat
  {
    if a <= b then a else b
  }

  /** `dict(zip(keys, values)).get(k)`: pairs up to the shorter list, and a
      key given twice keeps its last value. */
  function ZipGet(keys: seq<string>, values: seq<Scalar>, k: string): (r: Option<Scalar>)
    ensures r.None? <==> forall i :: 0 <= i < Min(|keys|, |values|) ==> keys[i] != k
    ensures r.Some? ==> exists i :: 0 <= i < Min(|keys|, |values|) && keys[i] == k && values[i] == r.value
                                    && forall j :: i < j < Min(|keys|, |values|) ==> keys[j] != k
    decreases |keys|
  {
    var n := Min(|keys|, |values|);
    if n == 0 then None
    else if keys[n - 1] == k then Some(values[n - 1])
    else
      var r := ZipGet(keys[..n - 1], values[..n - 1], k);
      assert Min(|keys[..n - 1]|, |values[..n - 1]|) == n - 1;
      r
  }

  // ---------------------------------------------------------------------
  // Dates of 2024

  /** A day of 2024. */
  datatype Date = Date(month: int, day: int)

  function DaysInMonth(m: int): int
  {
    if m == 2 then 29 else if m == 4 || m == 6 || m == 9 || m == 11 then 30 else 31
  }

  predicate ValidDate(d: Date)
  {
    1 <= d.month <= 12 && 1 <= d.day <= DaysInMonth(d.month)
  }

  /** `datetime(2024, month, day)`: both must be integers, then a day of
      the calendar. */
  function MakeDate(month: Scalar, day: Scalar): (r: Result<Date, ActError>)
    ensures r.Success? <==> month.Int? && day.Int? && ValidDate(Date(month.i, day.i))
    ensures r.Success? ==> r.value == Date(month.i, day.i)
    ensures r == Failure(NotInteger) <==> !(month.Int? && day.Int?)
  {
    if !(month.Int? && day.Int?) then Failure(NotInteger)
    else if !ValidDate(Date(month.i, day.i)) then Failure(InvalidDate)
    else Success(Date(month.i, day.i))
  }

  /** The date `act` builds from an observation: its `month` and
      `day_of_month` entries, each 1 when absent. */
  function ObservedDate(variables: seq<string>, observation: seq<Scalar>): Result<Date, ActError>
  {
    var m := ZipGet(variables, observation, "month");
    var d := ZipGet(variables, observation, "day_of_month");
    MakeDate(if m.Some? then m.value else Int(1), if d.Some? then d.value else Int(1))
  }

  /** Between June 1 and September 30, both included. */
  predicate InSummer(d: Date)
  {
    (d.month > 6 || (d.month == 6 && d.day >= 1)) && (d.month < 9 || (d.month == 9 && d.day <= 30))
  }

  /** On a day of the calendar, summer is the months June to September. */
  lemma SummerMonths(d: Date)
    requires ValidDate(d)
    ensures InSummer(d) <==> 6 <= d.month <= 9
  {
  }

  /** Days of 2024 before the first of month `m`. */
  function DaysBefore(m: int): (n: nat)
    requires 1 <= m <= 13
    ensures n == 0 <==> m == 1
    decreases m
  {
    if m == 1 then 0 else DaysBefore(m - 1) + DaysInMonth(m - 1)
  }

  /** 1 January 2024 was a Monday, so this is `weekday()`: 0 for Monday,
      6 for Sunday. */
  function Weekday(d: Date): (w: int)
    requires ValidDate(d)
    ensures 0 <= w < 7
    ensures d == Date(1, 1) ==> w == 0
  {
    (DaysBefore(d.month) + d.day - 1) % 7
  }

  /** The day after `d` in 2024, which has one unless `d` is 31 December. */
  function NextDay(d: Date): (n: Date)
    requires ValidDate(d) && d != Date(12, 31)
    ensures ValidDate(n)
  {
    if d.day < DaysInMonth(d.month) then Date(d.month, d.day + 1) else Date(d.month + 1, 1)
  }

  /** Weekdays follow one another through the whole year, across the end
      of every month (February having 29 days). */
  lemma NextDayWeekday(d: Date)
    requires ValidDate(d) && d != Date(12, 31)
    ensures Weekday(NextDay(d)) == (Weekday(d) + 1) % 7
  {
    var x := DaysBefore(d.month) + d.day - 1;
    if d.day == DaysInMonth(d.month) {
      assert DaysBefore(d.month + 1) == x + 1;
    }
    ModSucc(x);
  }

  lemma ModSucc(x: nat)
    ensures (x + 1) % 7 == (x % 7 + 1) % 7
  {
  }

  /** Some days of 2024 by the calendar: 29 February was a Thursday,
      25 December a Wednesday and 31 December a Tuesday. */
  lemma KnownWeekdays()
    ensures Weekday(Date(2, 29)) == 3
    ensures Weekday(Date(12, 25)) == 2
    ensures Weekday(Date(12, 31)) == 1
  {
  }

  /** `weekday() > 5` holds on Sundays alone; in January these are the
      multiples of seven. */
  lemma SundaysOfJanuary(d: Date)
    requires ValidDate(d) && d.month == 1
    ensures Weekday(d) > 5 <==> Weekday(d) == 6
    ensures Weekday(d) == 6 <==> d.day % 7 == 0
  {
  }

  // ---------------------------------------------------------------------
  // CustomZone.act

  /** `CustomZone.act`: the summer setpoints on a summer day, the winter
      ones on any other. */
  function CustomZoneAct(variables: seq<string>, observation: seq<Scalar>): (r: Result<Setpoints, ActError>)
    ensures r.Success? <==> ObservedDate(variables, observation).Success?
    ensures r.Success? ==> (r.value == SummerSetpoints <==> 6 <= ObservedDate(variables, observation).value.month <= 9)
    ensures r.Success? ==> (r.value == WinterSetpoints <==> !(6 <= ObservedDate(variables, observation).value.month <= 9))
  {
    var date := ObservedDate(variables, observation);
    if date.Failure? then Failure(date.error)
    else
      SummerMonths(date.value);
      Success(if InSummer(date.value) then SummerSetpoints else WinterSetpoints)
  }

  /** Without a `month` entry the month is January, hence winter. */
  lemma CustomZoneDefaultsToWinter(variables: seq<string>, observation: seq<Scalar>)
    requires forall i :: 0 <= i < |variables| ==> variables[i] != "month"
    requires ObservedDate(variables, observation).Success?
    ensures CustomZoneAct(variables, observation) == Success(WinterSetpoints)
  {
    assert ZipGet(variables, observation, "month").None?;
  }

  // ---------------------------------------------------------------------
  // MyRuleBasedController.act

  /** Both setpoints one degree up when the zone is below the comfort
      range, one degree down when above it, unchanged otherwise. */
  function Adjust(current: Setpoints, inTemp: real, comfort: Setpoints): (r: Setpoints)
    ensures r.cool - r.heat == current.cool - current.heat
    ensures inTemp < comfort.heat ==> r == Setpoints(current.heat + 1.0, current.cool + 1.0)
    ensures !(inTemp < comfort.heat) && inTemp > comfort.cool ==> r == Setpoints(current.heat - 1.0, current.cool - 1.0)
    ensures comfort.heat <= inTemp <= comfort.cool ==> r == current
  {
    if inTemp < comfort.heat then Setpoints(current.heat + 1.0, current.cool + 1.0)
    else if inTemp > comfort.cool then Setpoints(current.heat - 1.0, current.cool - 1.0)
    else current
  }

  /** First lowered to the upper bound, then raised to the lower one. */
  function Clamp(x: real, b: Bounds): (r: real)
    ensures b.lo <= b.hi ==> b.lo <= r <= b.hi
    ensures b.lo <= x <= b.hi ==> r == x
    ensures x < b.lo ==> r == b.lo
    ensures b.lo <= b.hi && x > b.hi ==> r == b.hi
  {
    var y := if x > b.hi then b.hi else x;
    if y < b.lo then b.lo else y
  }

  /** `2 * (x - low) / (high - low) - 1`: `x` scaled so that the box maps to
      [-1, 1]. */
  function Normalize(x: real, b: Bounds): real
    requires b.lo < b.hi
  {
    2.0 * (x - b.lo) / (b.hi - b.lo) - 1.0
  }

  /** The Sunday action: (18.33, 23.33) normalised to the action box. */
  function SundayAction(): (a: Setpoints)
    ensures a == Setpoints(-0.89, -0.6675)
  {
    Setpoints(Normalize(18.33, HeatBounds), Normalize(23.33, CoolBounds))
  }

  /** `MyRuleBasedController.act`. The comfort range is the winter one
      whatever the date: the seasonal choice is overwritten right after it
      is made. The current setpoints are the first observation entries, as
      zipped with the actuator names. */
  function RuleBasedAct(variables: seq<string>, actuators: seq<string>, observation: seq<Scalar>): (r: Result<Setpoints, ActError>)
    ensures r.Success? <==>
              && ZipGet(variables, observation, "Outdoor Air Temperature").Some?
              && ObservedDate(variables, observation).Success?
              && ZipGet(variables, observation, "Zone Mean Air Temperature").Some?
              && ZipGet(actuators, observation, "Heating Setpoint").Some?
              && ZipGet(actuators, observation, "Cooling Setpoint").Some?
    ensures ZipGet(variables, observation, "Outdoor Air Temperature").None? ==>
              r == Failure(MissingKey("Outdoor Air Temperature"))
    ensures ZipGet(variables, observation, "Outdoor Air Temperature").Some? && ObservedDate(variables, observation).Failure? ==>
              r == Failure(ObservedDate(variables, observation).error)
    ensures ZipGet(variables, observation, "Outdoor Air Temperature").Some? && ObservedDate(variables, observation).Success?
            && ZipGet(variables, observation, "Zone Mean Air Temperature").None? ==>
              r == Failure(MissingKey("Zone Mean Air Temperature"))
    ensures ZipGet(variables, observation, "Outdoor Air Temperature").Some? && ObservedDate(variables, observation).Success?
            && ZipGet(variables, observation, "Zone Mean Air Temperature").Some?
            && ZipGet(actuators, observation, "Heating Setpoint").None? ==>
              r == Failure(MissingKey("Heating Setpoint"))
    ensures ZipGet(variables, observation, "Outdoor Air Temperature").Some? && ObservedDate(variables, observation).Success?
            && ZipGet(variables, observation, "Zone Mean Air Temperature").Some?
            && ZipGet(actuators, observation, "Heating Setpoint").Some?
            && ZipGet(actuators, observation, "Cooling Setpoint").None? ==>
              r == Failure(MissingKey("Cooling Setpoint"))
    ensures r.Success? && Weekday(ObservedDate(variables, observation).value) > 5 ==> r.value == SundayAction()
    ensures r.Success? && Weekday(ObservedDate(variables, observation).value) <= 5 ==>
              HeatBounds.lo <= r.value.heat <= HeatBounds.hi && CoolBounds.lo <= r.value.cool <= CoolBounds.hi
  {
    if ZipGet(variables, observation, "Outdoor Air Temperature").None? then Failure(MissingKey("Outdoor Air Temperature"))
    else
      var date := ObservedDate(variables, observation);
      if date.Failure? then Failure(date.error)
      else
        var inTemp := ZipGet(variables, observation, "Zone Mean Air Temperature");
        var heat := ZipGet(actuators, observation, "Heating Setpoint");
        var cool := ZipGet(actuators, observation, "Cooling Setpoint");
        if inTemp.None? then Failure(MissingKey("Zone Mean Air Temperature"))
        else if heat.None? then Failure(MissingKey("Heating Setpoint"))
        else if cool.None? then Failure(MissingKey("Cooling Setpoint"))
        else if Weekday(date.value) > 5 then Success(SundayAction())
        else
          var adjusted := Adjust(Setpoints(Value(heat.value), Value(cool.value)), Value(inTemp.value), WinterSetpoints);
          Success(Setpoints(Clamp(adjusted.heat, HeatBounds), Clamp(adjusted.cool, CoolBounds)))
  }

  /** On a weekday other than Sunday, the action is the current setpoints
      moved by the same step against the winter comfort range (20.0, 23.5),
      each then clipped into its side of the box. */
  lemma RuleBasedActStep(variables: seq<string>, actuators: seq<string>, observation: seq<Scalar>,
                         inTemp: real, heat: real, cool: real)
    requires ZipGet(variables, observation, "Outdoor Air Temperature").Some?
    requires ObservedDate(variables, observation).Success?
    requires Weekday(ObservedDate(variables, observation).value) <= 5
    requires ZipGet(variables, observation, "Zone Mean Air Temperature").Some?
    requires Value(ZipGet(variables, observation, "Zone Mean Air Temperature").value) == inTemp
    requires ZipGet(actuators, observation, "Heating Setpoint").Some?
    requires Value(ZipGet(actuators, observation, "Heating Setpoint").value) == heat
    requires ZipGet(actuators, observation, "Cooling Setpoint").Some?
    requires Value(ZipGet(actuators, observation, "Cooling Setpoint").value) == cool
    ensures var step := if inTemp < 20.0 then 1.0 else if inTemp > 23.5 then -1.0 else 0.0;
            && RuleBasedAct(variables, actuators, observation).Success?
            && RuleBasedAct(variables, actuators, observation).value.heat == Clamp(heat + step, HeatBounds)
            && RuleBasedAct(variables, actuators, observation).value.cool == Clamp(cool + step, CoolBounds)
  {
  }

  /** With the script's names, an observation is read positionally: the
      heating setpoint is the entry named outdoor temperature, the cooling
      setpoint the entry named zone temperature; no `month` entry exists,
      so the date is always Monday 1 January and there is no Sunday
      override. */
  lemma ScriptRuleBasedAct(observation: seq<Scalar>)
    requires |observation| >= 2
    ensures var a := Adjust(Setpoints(Value(observation[0]), Value(observation[1])), Value(observation[1]), WinterSetpoints);
            RuleBasedAct(ScriptVariables, ScriptActuators, observation)
            == Success(Setpoints(Clamp(a.heat, HeatBounds), Clamp(a.cool, CoolBounds)))
  {
    ScriptDate(observation);
    assert Weekday(Date(1, 1)) == 0;
    ScriptVariableReadings(observation);
    ScriptActuatorReadings(observation);
  }

  /** With the script's names `CustomZone.act` always answers winter. */
  lemma ScriptCustomZoneAct(observation: seq<Scalar>)
    ensures CustomZoneAct(ScriptVariables, observation) == Success(WinterSetpoints)
  {
    ScriptDate(observation);
  }

  /** The script's variable names hold no `month` or `day_of_month`. */
  lemma ScriptDate(observation: seq<Scalar>)
    ensures ObservedDate(ScriptVariables, observation) == Success(Date(1, 1))
  {
    assert forall i :: 0 <= i < |ScriptVariables| ==> ScriptVariables[i] != "month" && ScriptVariables[i] != "day_of_month";
  }

  /** The first two entries carry the names of the two temperatures. */
  lemma ScriptVariableReadings(observation: seq<Scalar>)
    requires |observation| >= 2
    ensures ZipGet(ScriptVariables, observation, "Outdoor Air Temperature") == Some(observation[0])
    ensures ZipGet(ScriptVariables, observation, "Zone Mean Air Temperature") == Some(observation[1])
  {
    var v := ScriptVariables;
    assert v[0] == "Outdoor Air Temperature" && v[1] == "Zone Mean Air Temperature";
    assert forall i :: 1 <= i < |v| ==> v[i] != "Outdoor Air Temperature";
    assert forall i :: 2 <= i < |v| ==> v[i] != "Zone Mean Air Temperature";
  }

  /** The same two entries carry the names of the two setpoints. */
  lemma ScriptActuatorReadings(observation: seq<Scalar>)
    requires |observation| >= 2
    ensures ZipGet(ScriptActuators, observation, "Heating Setpoint") == Some(observation[0])
    ensures ZipGet(ScriptActuators, observation, "Cooling Setpoint") == Some(observation[1])
  {
    assert ScriptActuators[1] != "Heating Setpoint";
  }

  // ---------------------------------------------------------------------
  // The episode loop

  /** What `env.step` returns that the loop uses. */
  datatype StepOutcome = StepOutcome(reward: real, demand: real, terminated: bool, truncated: bool)

  predicate Ends(o: StepOutcome)
  {
    o.terminated || o.truncated
  }

  function Sum(s: seq<real>): real
  {
    if s == [] then 0.0 else Sum(s[..|s| - 1]) + s[|s| - 1]
  }

  /** The episode average: total demand over the number of steps, 0 for no
      steps. */
  function MeanDemand(demands: seq<real>): real
  {
    if |demands| > 0 then Sum(demands) / (|demands| as real) else 0.0
  }

  /** The mean lies between any bounds of the demands. */
  lemma {:induction false} SumBounds(demands: seq<real>, lo: real, hi: real)
    requires forall i :: 0 <= i < |demands| ==> lo <= demands[i] <= hi
    ensures (|demands| as real) * lo <= Sum(demands) <= (|demands| as real) * hi
    decreases |demands|
  {
    if demands != [] {
      SumBounds(demands[..|demands| - 1], lo, hi);
    }
  }

  lemma MeanBounds(demands: seq<real>, lo: real, hi: real)
    requires demands != []
    requires forall i :: 0 <= i < |demands| ==> lo <= demands[i] <= hi
    ensures lo <= MeanDemand(demands) <= hi
  {
    SumBounds(demands, lo, hi);
    var n := |demands| as real;
    assert n * lo <= Sum(demands) <= n * hi;
    assert Sum(demands) / n >= lo by {
      assert Sum(demands) / n * n == Sum(demands);
    }
    assert Sum(demands) / n <= hi by {
      assert Sum(demands) / n * n == Sum(demands);
    }
  }

  function Demands(trace: seq<StepOutcome>): (d: seq<real>)
    ensures |d| == |trace| && forall i :: 0 <= i < |trace| ==> d[i] == trace[i].demand
  {
    seq(|trace|, i requires 0 <= i < |trace| => trace[i].demand)
  }

  function Rewards(trace: seq<StepOutcome>): (d: seq<real>)
    ensures |d| == |trace| && forall i :: 0 <= i < |trace| ==> d[i] == trace[i].reward
  {
    seq(|trace|, i requires 0 <= i < |trace| => trace[i].reward)
  }

  /** The number of steps an episode runs: up to and including the first
      step that terminates or truncates it. A trace with no such step is
      cut at its end, where the environment would go on stepping. */
  function EpisodeLength(trace: seq<StepOutcome>): (n: nat)
    ensures n <= |trace|
    ensures trace != [] ==> n >= 1
    ensures forall i :: 0 <= i < n - 1 ==> !Ends(trace[i])
    ensures n < |trace| ==> Ends(trace[n - 1])
    decreases |trace|
  {
    if trace == [] then 0
    else if Ends(trace[0]) then 1
    else 1 + EpisodeLength(trace[1..])
  }

  /** One episode: step until the environment says it is over, collecting
      the rewards and the HVAC demand; returns the rewards, the step count
      and the average demand. */
  method RunEpisode(trace: seq<StepOutcome>) returns (rewards: seq<real>, stepCount: nat, mean: real)
    ensures stepCount == EpisodeLength(trace)
    ensures rewards == Rewards(trace[..stepCount])
    ensures mean == MeanDemand(Demands(trace[..stepCount]))
  {
    rewards := [];
    var terminated, truncated := false, false;
    stepCount := 0;
    var cumHvac := 0.0;
    while !(terminated || truncated) && stepCount < |trace|
      invariant stepCount <= |trace|
      invariant terminated || truncated <==> stepCount > 0 && Ends(trace[stepCount - 1])
      invariant forall i :: 0 <= i < stepCount - 1 ==> !Ends(trace[i])
      invariant rewards == Rewards(trace[..stepCount])
      invariant cumHvac == Sum(Demands(trace[..stepCount]))
      decreases |trace| - stepCount
    {
      var o := trace[stepCount];
      rewards := rewards + [o.reward];
      terminated, truncated := o.terminated, o.truncated;
      assert Demands(trace[..stepCount + 1])[..stepCount] == Demands(trace[..stepCount]);
      cumHvac := cumHvac + o.demand;
      stepCount := stepCount + 1;
    }
    EpisodeLengthIs(trace, stepCount);
    mean := if stepCount > 0 then cumHvac / (stepCount as real) else 0.0;
  }

  /** The step count at which the loop stops is the episode length. */
  lemma {:induction false} EpisodeLengthIs(trace: seq<StepOutcome>, n: nat)
    requires n <= |trace|
    requires forall i :: 0 <= i < n - 1 ==> !Ends(trace[i])
    requires n == |trace| || (n > 0 && Ends(trace[n - 1]))
    ensures EpisodeLength(trace) == n
    decreases |trace|
  {
    if trace != [] && !Ends(trace[0]) {
      if n == 0 {
        assert false;
      }
      EpisodeLengthIs(trace[1..], n - 1);
    }
  }

  /** The episodes one after the other, each from a fresh reset: the
      average demand of each. */
  method RunEpisodes(traces: seq<seq<StepOutcome>>) returns (means: seq<real>)
    ensures |means| == |traces|
    ensures forall e :: 0 <= e < |traces| ==>
              means[e] == MeanDemand(Demands(traces[e][..EpisodeLength(traces[e])]))
  {
    means := [];
    var e := 0;
    while e < |traces|
      invariant 0 <= e <= |traces| && |means| == e
      invariant forall k :: 0 <= k < e ==> means[k] == MeanDemand(Demands(traces[k][..EpisodeLength(traces[k])]))
    {
      var _, _, mean := RunEpisode(traces[e]);
      means := means + [mean];
      e := e + 1;
    }
  }
}
