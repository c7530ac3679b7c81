/** The "Create New Goal" details screen (goaldetails.tsx): the goal name, a
    start date chosen by tab or picker, a finish given either as an end date
    or as a duration in days and months, and the Continue gate that hands
    the name to the task list. "Today" is a parameter: the screen reads it
    from the clock. */
module Schedule {
  import opened Text
  import opened Options
  import opened Calendar

  /** The finish section's mode, `'date'` or `'duration'` in the source. */
  datatype FinishTab = ByDate | ByDuration

  datatype Draft = Draft(
    goalName: string,
    startTab: string,
    startDate: Date,
    showStartPicker: bool,
    finishTab: FinishTab,
    finishDate: Date,
    showFinishPicker: bool,
    days: int,
    months: int)

  /** The labels of the start tabs; the second is spelled as the screen
      spells it. */
  const TodayTab := "Today"
  const TomorrowTab := "Tommorow"
  const SelectDateTab := "Select date"

  /** The labels of the finish tabs. */
  const EndDateTab := "End Date"
  const DurationTab := "Duration"

  const InitialDays: int := 90
  const InitialMonths: int := 0

  /** The screen as it mounts: no name, both dates today, the Today tab and
      the end-date mode selected, no picker open, a 90-day duration. */
  function Init(today: Date): (s: Draft)
    ensures s.goalName == "" && s.startTab == TodayTab
    ensures s.startDate == today && s.finishDate == today
    ensures !s.showStartPicker && !s.showFinishPicker && s.finishTab == ByDate
    ensures s.days == 90 && s.months == 0
  {
    Draft("", TodayTab, today, false, ByDate, today, false, InitialDays, InitialMonths)
  }

  /** The start section and nothing else may differ. */
  predicate SameFinish(s: Draft, r: Draft) {
    && r.goalName == s.goalName && r.finishTab == s.finishTab
    && r.finishDate == s.finishDate && r.showFinishPicker == s.showFinishPicker
    && r.days == s.days && r.months == s.months
  }

  /** `handleStartTabPress`. The tab is always recorded. Today and Tommorow
      set the start date (to today, and to the calendar day after it) and
      close the start picker; Select date opens the picker and keeps the
      date; any other caption changes nothing else. */
  function PressStartTab(s: Draft, tab: string, today: Date): (r: Draft)
    requires Valid(today)
    ensures r.startTab == tab && SameFinish(s, r)
    ensures tab == TodayTab ==> r.startDate == today && !r.showStartPicker
    ensures tab == TomorrowTab ==>
              && Before(today, r.startDate) && Valid(r.startDate)
              && (forall e :: Valid(e) && Before(today, e) ==> NotBefore(e, r.startDate))
              && !r.showStartPicker
    ensures tab == SelectDateTab ==> r.startDate == s.startDate && r.showStartPicker
    ensures tab !in {TodayTab, TomorrowTab, SelectDateTab} ==>
              r.startDate == s.startDate && r.showStartPicker == s.showStartPicker
  {
    var s1 := s.(startTab := tab);
    if tab == TodayTab then s1.(startDate := today, showStartPicker := false)
    else if tab == TomorrowTab then
      s1.(startDate := NextDay(today), showStartPicker := false)
    else if tab == SelectDateTab then s1.(showStartPicker := true)
    else s1
  }

  /** The finish tab press: End Date selects the date mode, any other caption
      the duration mode. Nothing else changes. */
  function PressFinishTab(s: Draft, caption: string): (r: Draft)
    ensures r.finishTab == ByDate <==> caption == EndDateTab
    ensures r.(finishTab := s.finishTab) == s
  {
    s.(finishTab := if caption == EndDateTab then ByDate else ByDuration)
  }

  /** Tapping the finish date box opens the finish picker. */
  function OpenFinishPicker(s: Draft): (r: Draft)
    ensures r.showFinishPicker && r.(showFinishPicker := s.showFinishPicker) == s
  {
    s.(showFinishPicker := true)
  }

  /** The start picker's `onChange`: the picker stays open only on iOS, and
      a picked date, if any, becomes the start date. */
  function StartPickerChange(s: Draft, picked: Option<Date>, isIOS: bool): (r: Draft)
    ensures r.showStartPicker == isIOS
    ensures r.startDate == picked.GetOr(s.startDate)
    ensures r.(showStartPicker := s.showStartPicker, startDate := s.startDate) == s
  {
    var s1 := s.(showStartPicker := isIOS);
    match picked
    case Some(d) => s1.(startDate := d)
    case None => s1
  }

  /** The finish picker's `onChange`, the same rule for the finish date. */
  function FinishPickerChange(s: Draft, picked: Option<Date>, isIOS: bool): (r: Draft)
    ensures r.showFinishPicker == isIOS
    ensures r.finishDate == picked.GetOr(s.finishDate)
    ensures r.(showFinishPicker := s.showFinishPicker, finishDate := s.finishDate) == s
  {
    var s1 := s.(showFinishPicker := isIOS);
    match picked
    case Some(d) => s1.(finishDate := d)
    case None => s1
  }

  // ------------------------------------------------------------- steppers

  /** The "−" button: `Math.max(0, v - 1)`, one less but never below 0. */
  function StepDown(v: int): (r: int)
    ensures r >= 0 && r >= v - 1
    ensures r == 0 || r == v - 1
  {
    if v - 1 > 0 then v - 1 else 0
  }

  /** The "+" button: one more, with no ceiling. */
  function StepUp(v: int): (r: int)
    ensures r > v && r - v == 1
  {
    v + 1
  }

  /** From a non-negative value, "+" then "−" gives the value back. */
  lemma UpThenDownRestores(v: int)
    requires v >= 0
    ensures StepDown(StepUp(v)) == v
  {
  }

  /** "−" at 0 stays at 0, and "−" from a positive value takes one off. */
  lemma DownAtFloor(v: int)
    requires v >= 0
    ensures StepDown(v) == (if v == 0 then 0 else v - 1)
  {
  }

  // ------------------------------------------------------------- Continue

  /** `handleCreate`: nothing is published for a name that trims to the
      empty string; otherwise the name, untrimmed, becomes the
      `newGoalTitle` parameter of the task list screen. */
  function HandleCreate(goalName: string): (r: Option<string>)
    ensures r.Some? <==> exists i :: 0 <= i < |goalName| && !IsWhitespace(goalName[i])
    ensures r.Some? ==> r.value == goalName
  {
    BlankIffAllWhitespace(goalName);
    if IsBlank(goalName) then None else Some(goalName)
  }

  /** The Continue button is disabled for the empty name only. */
  predicate ContinueDisabled(goalName: string) {
    goalName == ""
  }

  /** A press on Continue: nothing while disabled, `handleCreate` otherwise. */
  function PressContinue(goalName: string): (r: Option<string>)
    ensures ContinueDisabled(goalName) ==> r == None
  {
    if ContinueDisabled(goalName) then None else HandleCreate(goalName)
  }

  /** The disabled state adds nothing to the gate: `handleCreate` already
      refuses the empty name, so pressing Continue always acts as
      `handleCreate` does. */
  lemma ContinueIsHandleCreate(goalName: string)
    ensures PressContinue(goalName) == HandleCreate(goalName)
  {
    if goalName == "" {
      assert HandleCreate(goalName).None?;
    }
  }

  /** Names made only of whitespace enable the button but publish nothing. */
  lemma WhitespaceNameEnabledButInert()
    ensures !ContinueDisabled(" ") && PressContinue(" ") == None
  {
    assert IsWhitespace(" "[0]);
  }

  // ---------------------------------------------------------------- runs

  /** What the user can do on the screen. */
  datatype Event =
    | TypeName(text: string)
    | StartTabPress(tab: string)
    | FinishTabPress(caption: string)
    | FinishBoxPress
    | StartPicked(date: Option<Date>)
    | FinishPicked(date: Option<Date>)
    | DaysDown | DaysUp | MonthsDown | MonthsUp

  /** One event. A control acts only while it is on screen: the pickers
      while open (the finish picker in date mode), the finish box in date
      mode, the steppers in duration mode. */
  function Step(s: Draft, e: Event, today: Date, isIOS: bool): (r: Draft)
    requires Valid(today)
    ensures e.StartPicked? && !s.showStartPicker ==> r == s
    ensures e.FinishPicked? && !(s.finishTab == ByDate && s.showFinishPicker) ==> r == s
    ensures e.FinishBoxPress? ==> r.showFinishPicker == (s.finishTab == ByDate || s.showFinishPicker)
    ensures e.FinishBoxPress? ==> r.(showFinishPicker := s.showFinishPicker) == s
    ensures (e.DaysDown? || e.DaysUp? || e.MonthsDown? || e.MonthsUp?) ==>
              && r.(days := s.days, months := s.months) == s
              && (s.finishTab == ByDate ==> r == s)
    ensures s.finishTab == ByDuration ==>
              && (e.DaysDown? ==> r.days == StepDown(s.days) && r.months == s.months)
              && (e.DaysUp? ==> r.days == StepUp(s.days) && r.months == s.months)
              && (e.MonthsDown? ==> r.months == StepDown(s.months) && r.days == s.days)
              && (e.MonthsUp? ==> r.months == StepUp(s.months) && r.days == s.days)
    ensures e.TypeName? ==> r.goalName == e.text && r.(goalName := s.goalName) == s
  {
    match e
    case TypeName(text) => s.(goalName := text)
    case StartTabPress(tab) => PressStartTab(s, tab, today)
    case FinishTabPress(caption) => PressFinishTab(s, caption)
    case FinishBoxPress =>
      if s.finishTab == ByDate then OpenFinishPicker(s) else s
    case StartPicked(d) =>
      if s.showStartPicker then StartPickerChange(s, d, isIOS) else s
    case FinishPicked(d) =>
      if s.finishTab == ByDate && s.showFinishPicker then FinishPickerChange(s, d, isIOS) else s
    case DaysDown => if s.finishTab == ByDuration then s.(days := StepDown(s.days)) else s
    case DaysUp => if s.finishTab == ByDuration then s.(days := StepUp(s.days)) else s
    case MonthsDown => if s.finishTab == ByDuration then s.(months := StepDown(s.months)) else s
    case MonthsUp => if s.finishTab == ByDuration then s.(months := StepUp(s.months)) else s
  }

  function Run(s: Draft, events: seq<Event>, today: Date, isIOS: bool): Draft
    requires Valid(today)
    decreases |events|
  {
    if events == [] then s else Run(Step(s, events[0], today, isIOS), events[1..], today, isIOS)
  }

  /** The pickers keep to their `minimumDate`: the start picker offers no
      day before today, the finish picker none before the start date. This
      is what the native picker is trusted to do. */
  predicate PickersHonest(s: Draft, events: seq<Event>, today: Date, isIOS: bool)
    requires Valid(today)
    decreases |events|
  {
    events == [] ||
    (&& (events[0].StartPicked? && events[0].date.Some? ==>
           Valid(events[0].date.value) && NotBefore(events[0].date.value, today))
     && (events[0].FinishPicked? && events[0].date.Some? ==>
           Valid(events[0].date.value) && NotBefore(events[0].date.value, s.startDate))
     && PickersHonest(Step(s, events[0], today, isIOS), events[1..], today, isIOS))
  }

  /** What the screen keeps true: both dates exist, the start is not in the
      past, and neither counter is negative. */
  predicate Sound(s: Draft, today: Date) {
    && Valid(s.startDate) && NotBefore(s.startDate, today)
    && Valid(s.finishDate)
    && s.days >= 0 && s.months >= 0
  }

  lemma InitSound(today: Date)
    requires Valid(today)
    ensures Sound(Init(today), today)
  {
  }

  /** Soundness survives every run with honest pickers. */
  lemma {:induction false} RunKeepsSound(s: Draft, events: seq<Event>, today: Date, isIOS: bool)
    requires Valid(today) && Sound(s, today)
    requires PickersHonest(s, events, today, isIOS)
    ensures Sound(Run(s, events, today, isIOS), today)
    decreases |events|
  {
    if events != [] {
      var s1 := Step(s, events[0], today, isIOS);
      assert Sound(s1, today);
      RunKeepsSound(s1, events[1..], today, isIOS);
    }
  }

  /** Right after an honest pick the finish date is not before the start
      date. */
  lemma FinishPickRespectsStart(s: Draft, d: Date, isIOS: bool)
    requires NotBefore(d, s.startDate)
    ensures NotBefore(FinishPickerChange(s, Some(d), isIOS).finishDate,
                      FinishPickerChange(s, Some(d), isIOS).startDate)
  {
  }

  /** The order of the two dates is not kept: on a fresh screen, pressing
      Tommorow moves the start past the finish date, which stays today. */
  lemma FinishCanPrecedeStart(today: Date)
    requires Valid(today)
    ensures var s := Run(Init(today), [StartTabPress(TomorrowTab)], today, false);
            Before(s.finishDate, s.startDate)
  {
    assert Run(Init(today), [StartTabPress(TomorrowTab)], today, false)
        == PressStartTab(Init(today), TomorrowTab, today);
  }
}
