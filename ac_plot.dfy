/** The automatic-chamber browser: the lists of dates, the measurement cycles built from
    the day × cycle-template product, their grouping by chamber, and the index/chamber
    transitions of the browsing callback. Dates are day numbers and instants are seconds,
    an instant on a day being `day * 86400 + seconds after midnight`. */
module AcPlot {
  import opened Util
  import opened Frame
  import opened Measurement

  const SecondsPerDay: int := 86400

  /** `[(today - timedelta(days=i)).date() for i in range(n)][::-1]`: n consecutive days in
      ascending order ending at `today`. */
  function GenerateDays(today: int, n: nat): (days: seq<int>)
    ensures |days| == n
    ensures forall k :: 0 <= k < n ==> days[k] == today - (n - 1) + k
    ensures n > 0 ==> days[n - 1] == today
  {
    Reverse(seq(n, i => today - i))
  }

  function GenerateYear(today: int): (days: seq<int>)
    ensures |days| == 365 && days[364] == today
    ensures forall k :: 0 <= k < 364 ==> days[k] + 1 == days[k + 1]
  {
    GenerateDays(today, 365)
  }

  function GenerateMonth(today: int): (days: seq<int>)
    ensures |days| == 60 && days[59] == today
    ensures forall k :: 0 <= k < 59 ==> days[k] + 1 == days[k + 1]
  {
    GenerateDays(today, 60)
  }

  function GenerateWeek(today: int): (days: seq<int>)
    ensures |days| == 7 && days[6] == today
    ensures forall k :: 0 <= k < 6 ==> days[k] + 1 == days[k + 1]
  {
    GenerateDays(today, 7)
  }

  function GenerateDay(today: int): (days: seq<int>)
    ensures days == [today]
  {
    GenerateDays(today, 1)
  }

  /** One entry of the cycle file: a chamber id and the START/CLOSE/OPEN/END times of day. */
  datatype CycleTemplate = CycleTemplate(chamber: string, start: int, close: int, open: int, end: int)

  /** A cycle to be created: its chamber id and its four instants. */
  datatype Planned = Planned(chamber: string, times: Times)

  function At(day: int, timeOfDay: int): int
  {
    day * SecondsPerDay + timeOfDay
  }

  /** The cycle a template gives on `day`. */
  function Plan(day: int, t: CycleTemplate): Planned
  {
    Planned(t.chamber, Times(At(day, t.start), At(day, t.close), At(day, t.open), At(day, t.end)))
  }

  /** The cycles of one day in template order, without those starting after `now`. */
  function DayPlan(day: int, templates: seq<CycleTemplate>, now: int): (plan: seq<Planned>)
    ensures forall k :: 0 <= k < |plan| ==> plan[k].times.start <= now
    decreases |templates|
  {
    if templates == [] then []
    else
      var t := templates[|templates| - 1];
      DayPlan(day, templates[..|templates| - 1], now) + (if At(day, t.start) > now then [] else [Plan(day, t)])
  }

  /** The cycles of all `days`, day by day. */
  function Schedule(days: seq<int>, templates: seq<CycleTemplate>, now: int): (plan: seq<Planned>)
    ensures forall k :: 0 <= k < |plan| ==> plan[k].times.start <= now
    decreases |days|
  {
    if days == [] then []
    else Schedule(days[..|days| - 1], templates, now) + DayPlan(days[|days| - 1], templates, now)
  }

  /** A day's cycles are exactly the templates' cycles of that day that do not start after `now`. */
  lemma {:induction false} DayPlanMembers(day: int, templates: seq<CycleTemplate>, now: int, p: Planned)
    ensures p in DayPlan(day, templates, now) <==>
      exists t :: t in templates && At(day, t.start) <= now && p == Plan(day, t)
    decreases |templates|
  {
    if templates != [] {
      var init := templates[..|templates| - 1];
      DayPlanMembers(day, init, now, p);
      assert templates == init + [templates[|templates| - 1]];
    }
  }

  /** The schedule holds exactly the cycles of every (day, template) pair that do not start after `now`. */
  lemma {:induction false} ScheduleMembers(days: seq<int>, templates: seq<CycleTemplate>, now: int, p: Planned)
    ensures p in Schedule(days, templates, now) <==>
      exists d, t :: d in days && t in templates && At(d, t.start) <= now && p == Plan(d, t)
    decreases |days|
  {
    if days != [] {
      var init := days[..|days| - 1];
      var last := days[|days| - 1];
      ScheduleMembers(init, templates, now, p);
      DayPlanMembers(last, templates, now, p);
      assert days == init + [last];
    }
  }

  /** Day-major order: the schedule of two runs of days is the first run's schedule followed by the second's. */
  lemma {:induction false} ScheduleAppend(days1: seq<int>, days2: seq<int>, templates: seq<CycleTemplate>, now: int)
    ensures Schedule(days1 + days2, templates, now) == Schedule(days1, templates, now) + Schedule(days2, templates, now)
    decreases |days2|
  {
    if days2 == [] {
      assert days1 + days2 == days1;
    } else {
      var init := days2[..|days2| - 1];
      assert (days1 + days2)[..|days1 + days2| - 1] == days1 + init;
      ScheduleAppend(days1, init, templates, now);
    }
  }

  /** Template order within a day: the same for two runs of templates. */
  lemma {:induction false} DayPlanAppend(day: int, ts1: seq<CycleTemplate>, ts2: seq<CycleTemplate>, now: int)
    ensures DayPlan(day, ts1 + ts2, now) == DayPlan(day, ts1, now) + DayPlan(day, ts2, now)
    decreases |ts2|
  {
    if ts2 == [] {
      assert ts1 + ts2 == ts1;
    } else {
      var init := ts2[..|ts2| - 1];
      assert (ts1 + ts2)[..|ts1 + ts2| - 1] == ts1 + init;
      DayPlanAppend(day, ts1, init, now);
    }
  }

  /** A cycle object was created for `p`: same chamber and instants. */
  predicate Realises(m: MeasurementCycle, p: Planned)
  {
    m.id == p.chamber && m.Instants() == p.times
  }

  /** The objects in `ms` are pairwise different. */
  predicate Distinct(ms: seq<MeasurementCycle>)
  {
    forall j, k :: 0 <= j < k < |ms| ==> ms[j] != ms[k]
  }

  /** The inner loop over the cycle templates for one day: a new cycle object for every
      template whose start on that day is not after `now`. */
  method PlanDay(day: int, templates: seq<CycleTemplate>, now: int) returns (created: seq<MeasurementCycle>)
    ensures |created| == |DayPlan(day, templates, now)|
    ensures forall k :: 0 <= k < |created| ==> Realises(created[k], DayPlan(day, templates, now)[k])
    ensures forall k :: 0 <= k < |created| ==> fresh(created[k]) && created[k].Valid() && created[k].State() == Initial(None)
    ensures Distinct(created)
  {
    created := [];
    var j := 0;
    while j < |templates|
      invariant 0 <= j <= |templates|
      invariant |created| == |DayPlan(day, templates[..j], now)|
      invariant forall k :: 0 <= k < |created| ==> Realises(created[k], DayPlan(day, templates[..j], now)[k])
      invariant forall k :: 0 <= k < |created| ==> fresh(created[k]) && created[k].Valid() && created[k].State() == Initial(None)
      invariant Distinct(created)
    {
      var cycle := templates[j];
      assert templates[..j + 1][..j] == templates[..j];
      if At(day, cycle.start) <= now {
        var m := new MeasurementCycle(cycle.chamber, At(day, cycle.start), At(day, cycle.close),
          At(day, cycle.open), At(day, cycle.end), None);
        created := created + [m];
      }
      j := j + 1;
    }
    assert templates[..j] == templates;
  }

  /** The loops over `month` and the cycle templates that fill `all_measurements`. */
  method GenerateCycles(month: seq<int>, templates: seq<CycleTemplate>, now: int) returns (all: seq<MeasurementCycle>)
    ensures |all| == |Schedule(month, templates, now)|
    ensures forall k :: 0 <= k < |all| ==> Realises(all[k], Schedule(month, templates, now)[k])
    ensures forall k :: 0 <= k < |all| ==> fresh(all[k]) && all[k].Valid() && all[k].State() == Initial(None)
    ensures Distinct(all)
  {
    all := [];
    var i := 0;
    while i < |month|
      invariant 0 <= i <= |month|
      invariant |all| == |Schedule(month[..i], templates, now)|
      invariant forall k :: 0 <= k < |all| ==> Realises(all[k], Schedule(month[..i], templates, now)[k])
      invariant forall k :: 0 <= k < |all| ==> fresh(all[k]) && all[k].Valid() && all[k].State() == Initial(None)
      invariant Distinct(all)
    {
      ghost var before := Schedule(month[..i], templates, now);
      var created := PlanDay(month[i], templates, now);
      assert month[..i + 1][..i] == month[..i];
      assert Schedule(month[..i + 1], templates, now) == before + DayPlan(month[i], templates, now);
      all := all + created;
      i := i + 1;
    }
    assert month[..i] == month;
  }

  /** The cycles of chamber `c`, in the order of `ms`. */
  function FilterChamber(ms: seq<MeasurementCycle>, c: string): (group: seq<MeasurementCycle>)
    ensures |group| <= |ms|
    decreases |ms|
  {
    if ms == [] then []
    else
      var m := ms[|ms| - 1];
      FilterChamber(ms[..|ms| - 1], c) + (if m.id == c then [m] else [])
  }

  /** A chamber's group holds exactly the cycles of `ms` with that chamber id. */
  lemma {:induction false} FilterChamberMembers(ms: seq<MeasurementCycle>, c: string, m: MeasurementCycle)
    ensures m in FilterChamber(ms, c) <==> m in ms && m.id == c
    decreases |ms|
  {
    if ms != [] {
      var init := ms[..|ms| - 1];
      assert ms == init + [ms[|ms| - 1]];
      FilterChamberMembers(init, c, m);
    }
  }

  /** Grouping keeps order: the group of two runs of cycles is the first run's group followed by the second's. */
  lemma {:induction false} FilterChamberAppend(ms1: seq<MeasurementCycle>, ms2: seq<MeasurementCycle>, c: string)
    ensures FilterChamber(ms1 + ms2, c) == FilterChamber(ms1, c) + FilterChamber(ms2, c)
    decreases |ms2|
  {
    if ms2 == [] {
      assert ms1 + ms2 == ms1;
    } else {
      var init := ms2[..|ms2| - 1];
      assert (ms1 + ms2)[..|ms1 + ms2| - 1] == ms1 + init;
      FilterChamberAppend(ms1, init, c);
    }
  }

  /** The chamber id of every cycle, in order. */
  function Ids(ms: seq<MeasurementCycle>): (ids: seq<string>)
    ensures |ids| == |ms|
    ensures forall k :: 0 <= k < |ms| ==> ids[k] == ms[k].id
  {
    seq(|ms|, k requires 0 <= k < |ms| => ms[k].id)
  }

  /** The chamber ids of `ms` in order of first appearance (the key order of `cycle_dict`). */
  function Chambers(ms: seq<MeasurementCycle>): (keys: seq<string>)
    ensures |keys| <= |ms|
  {
    Unique(Ids(ms))
  }

  lemma ChambersSnoc(ms: seq<MeasurementCycle>, m: MeasurementCycle)
    ensures Chambers(ms + [m]) == Chambers(ms) + (if m.id in Chambers(ms) then [] else [m.id])
  {
    assert Ids(ms + [m]) == Ids(ms) + [m.id];
    UniqueSnoc(Ids(ms), m.id);
  }

  /** No chamber id is listed twice. */
  lemma ChambersDistinct(ms: seq<MeasurementCycle>)
    ensures forall j, k :: 0 <= j < k < |Chambers(ms)| ==> Chambers(ms)[j] != Chambers(ms)[k]
  {
    UniqueDistinct(Ids(ms));
  }

  /** The chamber ids listed are exactly the ids of the cycles. */
  lemma ChambersMembers(ms: seq<MeasurementCycle>, c: string)
    ensures c in Chambers(ms) <==> exists k :: 0 <= k < |ms| && ms[k].id == c
  {
    UniqueMembers(Ids(ms), c);
    if c in Ids(ms) {
      var k :| 0 <= k < |ms| && Ids(ms)[k] == c;
      assert ms[k].id == c;
    }
  }

  lemma FilterChamberSnoc(ms: seq<MeasurementCycle>, m: MeasurementCycle, c: string)
    ensures FilterChamber(ms + [m], c) == FilterChamber(ms, c) + (if m.id == c then [m] else [])
  {
    assert (ms + [m])[..|ms|] == ms;
  }

  /** A chamber id that no cycle of `ms` has has an empty group. */
  lemma {:induction false} FilterChamberAbsent(ms: seq<MeasurementCycle>, c: string)
    requires c !in Chambers(ms)
    ensures FilterChamber(ms, c) == []
    decreases |ms|
  {
    if ms != [] {
      var init := ms[..|ms| - 1];
      assert ms == init + [ms[|ms| - 1]];
      ChambersSnoc(init, ms[|ms| - 1]);
      FilterChamberAbsent(init, c);
    }
  }

  /** Number of cycles in the groups of `keys`. */
  function GroupSizes(ms: seq<MeasurementCycle>, keys: seq<string>): nat
    decreases |keys|
  {
    if keys == [] then 0 else |FilterChamber(ms, keys[0])| + GroupSizes(ms, keys[1..])
  }

  /** Occurrences of `c` in `keys`. */
  function Occurrences(keys: seq<string>, c: string): nat
    decreases |keys|
  {
    if keys == [] then 0 else (if keys[0] == c then 1 else 0) + Occurrences(keys[1..], c)
  }

  lemma {:induction false} GroupSizesSnoc(ms: seq<MeasurementCycle>, m: MeasurementCycle, keys: seq<string>)
    ensures GroupSizes(ms + [m], keys) == GroupSizes(ms, keys) + Occurrences(keys, m.id)
    decreases |keys|
  {
    if keys != [] {
      assert (ms + [m])[..|ms + [m]| - 1] == ms;
      GroupSizesSnoc(ms, m, keys[1..]);
    }
  }

  lemma {:induction false} GroupSizesAppendKey(ms: seq<MeasurementCycle>, keys: seq<string>, c: string)
    ensures GroupSizes(ms, keys + [c]) == GroupSizes(ms, keys) + |FilterChamber(ms, c)|
    decreases |keys|
  {
    if keys == [] {
      assert ([c])[1..] == [];
    } else {
      assert (keys + [c])[1..] == keys[1..] + [c];
      GroupSizesAppendKey(ms, keys[1..], c);
    }
  }

  lemma {:induction false} OccurrencesDistinct(keys: seq<string>, c: string)
    requires forall j, k :: 0 <= j < k < |keys| ==> keys[j] != keys[k]
    ensures Occurrences(keys, c) == if c in keys then 1 else 0
    decreases |keys|
  {
    if keys != [] {
      OccurrencesDistinct(keys[1..], c);
      if keys[0] == c {
        assert c !in keys[1..] by {
          forall k | 0 <= k < |keys| - 1 ensures keys[1..][k] != c {
            assert keys[1..][k] == keys[k + 1];
          }
        }
      }
    }
  }

  /** One more cycle adds one to the total of the group sizes. */
  lemma GroupSizesStep(init: seq<MeasurementCycle>, m: MeasurementCycle)
    ensures GroupSizes(init + [m], Chambers(init + [m])) == GroupSizes(init, Chambers(init)) + 1
  {
    var keys := Chambers(init);
    var keys' := Chambers(init + [m]);
    ChambersSnoc(init, m);
    ChambersDistinct(init + [m]);
    GroupSizesSnoc(init, m, keys');
    OccurrencesDistinct(keys', m.id);
    if m.id !in keys {
      assert keys' == keys + [m.id];
      GroupSizesAppendKey(init, keys, m.id);
      FilterChamberAbsent(init, m.id);
    } else {
      assert keys' == keys;
    }
  }

  /** The group sizes sum to the number of cycles. */
  lemma {:induction false} GroupSizesTotal(ms: seq<MeasurementCycle>)
    ensures GroupSizes(ms, Chambers(ms)) == |ms|
    decreases |ms|
  {
    if ms != [] {
      var init := ms[..|ms| - 1];
      assert ms == init + [ms[|ms| - 1]];
      GroupSizesTotal(init);
      GroupSizesStep(init, ms[|ms| - 1]);
    }
  }

  /** The `setdefault(...).append(...)` loop that builds `cycle_dict`; `keys` is its key order. */
  method GroupByChamber(all: seq<MeasurementCycle>) returns (groups: map<string, seq<MeasurementCycle>>, keys: seq<string>)
    ensures keys == Chambers(all)
    ensures forall c :: c in groups <==> c in keys
    ensures forall c :: c in groups ==> groups[c] == FilterChamber(all, c)
  {
    groups := map[];
    keys := [];
    var i := 0;
    while i < |all|
      invariant 0 <= i <= |all|
      invariant keys == Chambers(all[..i])
      invariant forall c :: c in groups <==> c in keys
      invariant forall c :: c in groups ==> groups[c] == FilterChamber(all[..i], c)
    {
      var m := all[i];
      assert all[..i + 1] == all[..i] + [m];
      ChambersSnoc(all[..i], m);
      forall c {
        FilterChamberSnoc(all[..i], m, c);
      }
      if m.id !in groups {
        FilterChamberAbsent(all[..i], m.id);
        groups := groups[m.id := []];
        keys := keys + [m.id];
      }
      groups := groups[m.id := groups[m.id] + [m]];
      i := i + 1;
    }
    assert all[..i] == all;
  }

  /** What set off the browsing callback. */
  datatype Trigger =
    | NoTrigger
    | PrevButton
    | NextButton
    | FindMaxButton
    | DelLagtimeButton
    | ChamberButton(chamber: string)

  /** The list a chamber selection shows; `None` is the `KeyError` of an unknown chamber. */
  function Selection(all: seq<MeasurementCycle>, groups: map<string, seq<MeasurementCycle>>, chamber: string): (sel: Option<seq<MeasurementCycle>>)
    ensures chamber == "All" ==> sel == Some(all)
    ensures chamber != "All" ==> (sel.Some? <==> chamber in groups)
    ensures chamber != "All" && chamber in groups ==> sel == Some(groups[chamber])
  {
    if chamber == "All" then Some(all) else if chamber in groups then Some(groups[chamber]) else None
  }

  /** The stored index, the stored chamber and the list they select. */
  datatype View = View(index: int, chamber: string, cycles: seq<MeasurementCycle>)

  /** The index/chamber transition of `update_graph`; `None` when the source raises
      (an unknown chamber, or prev/next on an empty list). */
  function Navigate(all: seq<MeasurementCycle>, groups: map<string, seq<MeasurementCycle>>,
                    index: int, chamber: string, trigger: Trigger): Option<View>
  {
    var current := Selection(all, groups, chamber);
    if current.None? then None
    else
      var n := |current.value|;
      match trigger
      case NoTrigger => Some(View(0, "All", all))
      case PrevButton => if n == 0 then None else Some(View((index - 1) % n, chamber, current.value))
      case NextButton => if n == 0 then None else Some(View((index + 1) % n, chamber, current.value))
      case FindMaxButton => Some(View(index, chamber, current.value))
      case DelLagtimeButton => Some(View(index, chamber, current.value))
      case ChamberButton(c) =>
        var chosen := Selection(all, groups, c);
        if chosen.None? then None else Some(View(0, c, chosen.value))
  }

  /** Prev and next keep the index inside the list and the chamber unchanged. */
  lemma StepStaysInRange(all: seq<MeasurementCycle>, groups: map<string, seq<MeasurementCycle>>,
                         index: int, chamber: string, trigger: Trigger)
    requires trigger == PrevButton || trigger == NextButton
    requires Navigate(all, groups, index, chamber, trigger).Some?
    ensures var v := Navigate(all, groups, index, chamber, trigger).value;
      0 <= v.index < |v.cycles| && v.chamber == chamber && Some(v.cycles) == Selection(all, groups, chamber)
  {
  }

  lemma ModSmall(a: int, n: int)
    requires 0 <= a < n
    ensures a % n == a
  {
  }

  lemma ModMinusOne(n: int)
    requires 0 < n
    ensures (-1) % n == n - 1
  {
  }

  lemma ModSelf(n: int)
    requires 0 < n
    ensures n % n == 0
  {
  }

  lemma ModStep(i: int, n: int)
    requires 0 <= i < n
    ensures ((i + 1) % n - 1) % n == i
    ensures ((i - 1) % n + 1) % n == i
  {
    if i + 1 < n {
      ModSmall(i + 1, n);
    } else {
      ModSelf(n);
      ModMinusOne(n);
    }
    ModSmall(i, n);
    if i == 0 {
      ModMinusOne(n);
      ModSelf(n);
    } else {
      ModSmall(i - 1, n);
    }
  }

  /** Next followed by prev (and prev followed by next) restores an index inside the list. */
  lemma NextThenPrev(all: seq<MeasurementCycle>, groups: map<string, seq<MeasurementCycle>>, index: int, chamber: string)
    requires Selection(all, groups, chamber).Some? && 0 <= index < |Selection(all, groups, chamber).value|
    ensures Navigate(all, groups, index, chamber, NextButton).Some?
    ensures Navigate(all, groups, Navigate(all, groups, index, chamber, NextButton).value.index, chamber, PrevButton)
         == Some(View(index, chamber, Selection(all, groups, chamber).value))
    ensures Navigate(all, groups, Navigate(all, groups, index, chamber, PrevButton).value.index, chamber, NextButton)
         == Some(View(index, chamber, Selection(all, groups, chamber).value))
  {
    ModStep(index, |Selection(all, groups, chamber).value|);
  }

  /** A chamber button selects that chamber's group (all cycles for "All") at index 0; with no
      trigger the view is all cycles at index 0. */
  lemma ButtonsReset(all: seq<MeasurementCycle>, groups: map<string, seq<MeasurementCycle>>,
                     index: int, chamber: string, c: string)
    requires Selection(all, groups, chamber).Some?
    ensures Navigate(all, groups, index, chamber, NoTrigger) == Some(View(0, "All", all))
    ensures c == "All" ==> Navigate(all, groups, index, chamber, ChamberButton(c)) == Some(View(0, "All", all))
    ensures c != "All" && c in groups ==>
      Navigate(all, groups, index, chamber, ChamberButton(c)) == Some(View(0, c, groups[c]))
    ensures c != "All" && c !in groups ==> Navigate(all, groups, index, chamber, ChamberButton(c)).None?
  {
  }

  /** `chamber_measurements[index]` with Python's negative indexing; `None` is an `IndexError`. */
  function Pick(v: View): (m: Option<MeasurementCycle>)
    ensures m.Some? <==> -|v.cycles| <= v.index < |v.cycles|
    ensures 0 <= v.index < |v.cycles| ==> m == Some(v.cycles[v.index])
    ensures -|v.cycles| <= v.index < 0 ==> m == Some(v.cycles[|v.cycles| + v.index])
  {
    if 0 <= v.index < |v.cycles| then Some(v.cycles[v.index])
    else if -|v.cycles| <= v.index < 0 then Some(v.cycles[|v.cycles| + v.index])
    else None
  }

  /** What the callback does to the chosen cycle: fetch with `get_data` only when the table is
      absent, then `find_max("CH4")` or `del_lagtime()` for those buttons. The flag is false when
      `find_max` meets a cycle that still has no table (the source raises there). */
  function AfterDispatch(s: CycleState, t: Times, trigger: Trigger, fetched: Option<seq<Row>>): (r: (CycleState, bool))
    requires WellFormed(s) && SortedFetch(fetched)
    ensures s.data.Some? ==> r.0.data == s.data && r.0.calcData == s.calcData && r.0.isValid == s.isValid
    ensures r.0.isValid ==> s.isValid
    ensures !r.1 <==> trigger.FindMaxButton? && AfterGetData(s, t, fetched).data.None?
    ensures r.1 && trigger.FindMaxButton? ==> r.0 == AfterFindMax(AfterGetData(s, t, fetched), t, CH4)
    ensures trigger.DelLagtimeButton? ==> r.0 == AfterDelLagtime(AfterGetData(s, t, fetched))
    ensures !trigger.FindMaxButton? && !trigger.DelLagtimeButton? ==> r.0 == AfterGetData(s, t, fetched)
  {
    var loaded := if s.data.None? then AfterGetData(s, t, fetched) else s;
    match trigger
    case FindMaxButton => if loaded.data.None? then (loaded, false) else (AfterFindMax(loaded, t, CH4), true)
    case DelLagtimeButton => (AfterDelLagtime(loaded), true)
    case _ => (loaded, true)
  }

  /** The `update_graph` steps up to the lag graph: navigate, pick the cycle, fetch if needed and
      dispatch the button. `fetched` is what the source returns for the chosen cycle. */
  method UpdateGraph(all: seq<MeasurementCycle>, groups: map<string, seq<MeasurementCycle>>,
                     index: int, chamber: string, trigger: Trigger, fetched: Option<seq<Row>>)
    returns (view: Option<View>, picked: Option<MeasurementCycle>, ok: bool)
    requires SortedFetch(fetched)
    requires forall k :: 0 <= k < |all| ==> all[k].Valid()
    requires forall c, k :: c in groups && 0 <= k < |groups[c]| ==> groups[c][k] in all
    modifies set m | m in all
    ensures view == Navigate(all, groups, index, chamber, trigger)
    ensures picked == (if view.Some? then Pick(view.value) else None)
    ensures picked.Some? ==> picked.value in all && old(picked.value.Valid())
    ensures forall k :: 0 <= k < |all| ==> all[k].Valid()
    ensures picked.None? ==> !ok && forall k :: 0 <= k < |all| ==> all[k].State() == old(all[k].State())
    ensures picked.Some? ==>
      var r := AfterDispatch(old(picked.value.State()), picked.value.Instants(), trigger, fetched);
      picked.value.State() == r.0 && ok == r.1
    ensures picked.Some? ==> forall k :: 0 <= k < |all| && all[k] != picked.value ==> all[k].State() == old(all[k].State())
  {
    ok := false;
    picked := None;
    view := Navigate(all, groups, index, chamber, trigger);
    if view.None? {
      return;
    }
    picked := Pick(view.value);
    if picked.None? {
      return;
    }
    var measurement := picked.value;
    assert measurement in all by {
      var sel := Selection(all, groups, view.value.chamber);
      assert view.value.cycles == sel.value;
    }
    assert old(measurement.Valid());
    if measurement.data.None? {
      var _ := measurement.GetData(fetched);
    }
    if trigger.FindMaxButton? {
      if measurement.data.None? {
        return;
      }
      measurement.FindMax(CH4);
    }
    if trigger.DelLagtimeButton? {
      measurement.DelLagtime();
    }
    ok := true;
  }
}
