/** Today's status: the first loaded workday dated today, whether the user is
    working and whether on break, and the four action buttons' `disabled`
    expressions derived from those two flags. "Today" is a parameter (the
    page takes the date part of the current ISO timestamp). */
module Status {
  import opened JsValues

  /** A break; an open break has no end. Timestamps are opaque strings. */
  datatype Break = Break(start: Option<string>, end: Option<string>)

  /** A workday record as the server returns it. A missing `breaks` field is
      read as no breaks, which is what `breaks?.some(...)` does. */
  datatype Workday = Workday(
    id: string,
    date: string,
    startTime: Option<string>,
    endTime: Option<string>,
    totalWorkTime: int,
    totalBreakTime: int,
    breaks: seq<Break>)

  /** `b.start && !b.end`. */
  predicate IsOpen(b: Break)
  {
    Truthy(b.start) && !Truthy(b.end)
  }

  /** `i` is the position `find` stops at: dated today, and no earlier one is. */
  ghost predicate IsTodaysIndex(workdays: seq<Workday>, today: string, i: int)
  {
    && 0 <= i < |workdays|
    && workdays[i].date == today
    && forall j :: 0 <= j < i ==> workdays[j].date != today
  }

  /** `workdays.find((wd) => wd.date === today)`. */
  function TodaysEntry(workdays: seq<Workday>, today: string): (r: Option<Workday>)
    ensures r.None? <==> forall i :: 0 <= i < |workdays| ==> workdays[i].date != today
    ensures r.Some? ==> exists i :: IsTodaysIndex(workdays, today, i) && workdays[i] == r.value
  {
    if workdays == [] then None
    else if workdays[0].date == today then
      assert IsTodaysIndex(workdays, today, 0);
      Some(workdays[0])
    else
      var r := TodaysEntry(workdays[1..], today);
      assert forall i :: 1 <= i < |workdays| ==> workdays[i] == workdays[1..][i - 1];
      assert r.Some? ==> exists i :: IsTodaysIndex(workdays, today, i) && workdays[i] == r.value by {
        if r.Some? {
          var i :| IsTodaysIndex(workdays[1..], today, i) && workdays[1..][i] == r.value;
          assert IsTodaysIndex(workdays, today, i + 1);
        }
      }
      r
  }

  /** `breaks.some((b) => b.start && !b.end)`. */
  function HasOpenBreak(breaks: seq<Break>): (r: bool)
    ensures r <==> exists i :: 0 <= i < |breaks| && IsOpen(breaks[i])
  {
    if breaks == [] then false
    else if IsOpen(breaks[0]) then true
    else
      assert forall i :: 1 <= i < |breaks| ==> breaks[i] == breaks[1..][i - 1];
      HasOpenBreak(breaks[1..])
  }

  /** `isWorkingToday`: today's entry has a start time and no end time. */
  predicate IsWorkingToday(workdays: seq<Workday>, today: string)
  {
    match TodaysEntry(workdays, today)
    case None => false
    case Some(e) => Truthy(e.startTime) && !Truthy(e.endTime)
  }

  /** `onBreakToday`: today's entry has a break with a start and no end. */
  predicate OnBreakToday(workdays: seq<Workday>, today: string)
  {
    match TodaysEntry(workdays, today)
    case None => false
    case Some(e) => HasOpenBreak(e.breaks)
  }

  /** The `disabled` attributes of Start Day, Start Break, End Break, End Day. */
  datatype Disabled = Disabled(startDay: bool, startBreak: bool, endBreak: bool, endDay: bool)

  function ButtonsDisabled(working: bool, onBreak: bool): Disabled
  {
    Disabled(working, !working || onBreak, !onBreak, !working)
  }

  /** The buttons as the page renders them for the loaded workdays. */
  function TodaysButtons(workdays: seq<Workday>, today: string): Disabled
  {
    ButtonsDisabled(IsWorkingToday(workdays, today), OnBreakToday(workdays, today))
  }

  /** Working today holds exactly when the entry `find` picks has a start
      time and no end time. */
  lemma WorkingTodayIff(workdays: seq<Workday>, today: string)
    ensures IsWorkingToday(workdays, today) <==>
      exists i :: IsTodaysIndex(workdays, today, i)
        && Truthy(workdays[i].startTime) && !Truthy(workdays[i].endTime)
  {
  }

  /** On break today holds exactly when the entry `find` picks has an open break. */
  lemma OnBreakTodayIff(workdays: seq<Workday>, today: string)
    ensures OnBreakToday(workdays, today) <==>
      exists i, b :: IsTodaysIndex(workdays, today, i)
        && 0 <= b < |workdays[i].breaks| && IsOpen(workdays[i].breaks[b])
  {
  }

  /** Only the first record dated today counts: later duplicates are ignored. */
  lemma LaterDuplicatesIgnored(workdays: seq<Workday>, today: string, extra: seq<Workday>)
    requires exists i :: 0 <= i < |workdays| && workdays[i].date == today
    ensures TodaysEntry(workdays + extra, today) == TodaysEntry(workdays, today)
  {
    var i :| 0 <= i < |workdays| && workdays[i].date == today;
    TodaysEntryPrefix(workdays, today, extra, i);
  }

  lemma {:induction false} TodaysEntryPrefix(workdays: seq<Workday>, today: string, extra: seq<Workday>, i: nat)
    requires i < |workdays| && workdays[i].date == today
    ensures TodaysEntry(workdays + extra, today) == TodaysEntry(workdays, today)
    decreases i
  {
    if workdays[0].date != today {
      assert (workdays + extra)[1..] == workdays[1..] + extra;
      TodaysEntryPrefix(workdays[1..], today, extra, i - 1);
    }
  }

  /** With no record dated today the user is neither working nor on break,
      so only Start Day is enabled. */
  lemma NoEntryMeansNotStarted(workdays: seq<Workday>, today: string)
    requires forall i :: 0 <= i < |workdays| ==> workdays[i].date != today
    ensures !IsWorkingToday(workdays, today) && !OnBreakToday(workdays, today)
    ensures TodaysButtons(workdays, today) == Disabled(false, true, true, true)
  {
  }

  /** The rules the four buttons follow, stated as when each is enabled. This
      is `ButtonsDisabled` read the other way round; what the rules mean for
      the day's phases is `ButtonsByPhase`, and for the loaded workdays
      `Dashboard.DashboardState.StatusButtons`. */
  lemma ButtonRules(working: bool, onBreak: bool)
    ensures var d := ButtonsDisabled(working, onBreak);
      && (!d.startDay <==> !working)
      && (!d.startBreak <==> working && !onBreak)
      && (!d.endBreak <==> onBreak)
      && (!d.endDay <==> working)
  {
  }

  /** The phases of a day the buttons walk through:
      not started -> working -> on break -> working -> ended. */
  datatype Phase = NotStarted | Working | OnBreak | Ended

  /** The phase of today's entry. */
  function PhaseOf(entry: Option<Workday>): Phase
  {
    match entry
    case None => NotStarted
    case Some(e) =>
      if !Truthy(e.startTime) then NotStarted
      else if Truthy(e.endTime) then Ended
      else if HasOpenBreak(e.breaks) then OnBreak
      else Working
  }

  /** The phase of today's entry agrees with the two flags the page computes:
      working and not on break is the Working phase, working and on break is
      OnBreak, and not working is NotStarted or Ended. */
  lemma PhaseMatchesFlags(workdays: seq<Workday>, today: string)
    ensures var p := PhaseOf(TodaysEntry(workdays, today));
      var working, onBreak := IsWorkingToday(workdays, today), OnBreakToday(workdays, today);
      && (p == Working <==> working && !onBreak)
      && (p == OnBreak <==> working && onBreak)
      && (p == NotStarted || p == Ended <==> !working)
  {
  }

  /** Which buttons each phase enables. While working only Start Break and End
      Day are enabled; on break only End Break and End Day (End Day does not
      depend on the break); before the start and after the end, Start Day is
      enabled and End Break follows a break left open. */
  lemma ButtonsByPhase(workdays: seq<Workday>, today: string)
    ensures var entry := TodaysEntry(workdays, today);
      var d := TodaysButtons(workdays, today);
      var open := OnBreakToday(workdays, today);
      match PhaseOf(entry)
      case NotStarted => d == Disabled(false, true, !open, true)
      case Working => d == Disabled(true, false, true, false)
      case OnBreak => d == Disabled(true, true, false, false)
      case Ended => d == Disabled(false, true, !open, true)
  {
  }

  /** A started day with no end and no open break shows Start Day disabled and
      End Day enabled; opening a break disables Start Break and enables End
      Break, and leaves End Day enabled. */
  lemma OpenBreakOverridesStartBreakOnly(day: Workday, rest: seq<Workday>, today: string, b: Break)
    requires day.date == today && Truthy(day.startTime) && !Truthy(day.endTime)
    requires !HasOpenBreak(day.breaks) && IsOpen(b)
    ensures TodaysButtons([day] + rest, today) == Disabled(true, false, true, false)
    ensures TodaysButtons([day.(breaks := day.breaks + [b])] + rest, today)
              == Disabled(true, true, false, false)
  {
    var day' := day.(breaks := day.breaks + [b]);
    assert (day'.breaks)[|day.breaks|] == b;
  }
}
