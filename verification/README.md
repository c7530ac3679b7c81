# EvolveNote goal composition, modelled in Dafny

This project models the client-side state logic of the EvolveNote mobile app.
Every screen's state is an immutable record. Every handler is a pure
transition function.

- **Task list** (`addgoal.tsx`, module `DraftStore`).
  - The screen holds an ordered list of `{id, text}` tasks, capped at the free tier's limit of three.
  - It watches one navigation parameter, `newGoalTitle`. The parameter is modelled as a single slot: absent, one string, or a list of strings.
  - A non-empty string title is appended as a task while the list is under the cap. After that the slot is cleared to `''`.
  - The delete icon filters the list by id.
  - The drag gesture replaces the list wholesale.
  - Both add controls are disabled at the cap.
- **Goal details** (`goaldetails.tsx`, module `Schedule`, with `Calendar` and `Text`).
  - Start tabs: Today, Tommorow (spelled as in the app) and Select date.
  - The finish mode: end date or duration.
  - The two date pickers' change handlers. A picked date is taken, a dismissal keeps the old date, and the picker stays open only on iOS.
  - Day and month steppers with a floor of 0.
  - `formatDate`, which renders dd/mm/yyyy.
  - The Continue gate. It publishes the untrimmed goal name only when the name has a non-whitespace character.
  - A date is the `(year, monthIndex, day)` triple that `getFullYear`, `getMonth` and `getDate` return. "Today" is a parameter.
- **Hand-off** (module `GoalFlow`). Continue on the details screen feeds the task list's parameter slot.
- **Credential forms** (`index1.tsx` and `register.tsx`, modules `Credentials`, `Login` and `Register`).
  - The ordered validation chains, where the first failure wins.
  - The shared `^[a-zA-Z0-9._%+-]+@gmail\.com$` pattern. It is decided by a string predicate and proved equal to the pattern's meaning.
  - The "Keep me signed in" toggle.
- **Onboarding** (`onboarding.tsx`, module `Onboarding`): the three-slide carousel with NEXT / GET STARTED and SKIP.
- **Home list** (`index.tsx`, module `HomeTasks`): the per-id done toggle.

Two behaviours of the code are worth knowing.

1. **The finish date can fall before the start date.** The finish picker offers no day before the start date. Nothing, however, moves the finish date when the start date changes afterwards. On a fresh screen, pressing Tommorow leaves the finish date on today, one day before the start (`Schedule.FinishCanPrecedeStart`). The model follows the code: only the weaker "right after a finish pick" ordering is proved.
2. **The two forms treat spaces in a password differently.** The registration form checks its passwords for emptiness without trimming. The login form trims. A password made only of spaces therefore registers but cannot log in (`Register.SpacesPasswordRegistersButCannotLogIn`).

## Model

| member | source | states |
|---|---|---|
| DraftStore.Mount | EvolveNoteMobile/app/addgoal.tsx:13-14 | the list starts empty and the slot holds whatever parameter the route delivered |
| DraftStore.Consume | EvolveNoteMobile/app/addgoal.tsx:22-42 | a non-empty string title under the cap appends exactly one task with that text and the supplied id at the end, earlier tasks unchanged; at the cap the list is unchanged; either way the slot becomes `''`; an absent, empty or list parameter changes nothing |
| DraftStore.ConsumeOnce | EvolveNoteMobile/app/addgoal.tsx:25-40 | a second run of the effect with no new publish is a no-op: one publish adds at most one task |
| DraftStore.Delete | EvolveNoteMobile/app/addgoal.tsx:80 | a task is in the result iff it was in the list and its id differs from the argument; the list never grows |
| DraftStore.DeleteAppend | EvolveNoteMobile/app/addgoal.tsx:80 | deletion distributes over concatenation, so relative order is preserved |
| DraftStore.DeleteSingle | EvolveNoteMobile/app/addgoal.tsx:80 | a one-task list keeps its task iff the ids differ; with DeleteAppend this fixes Delete as the order-preserving filter |
| DraftStore.DeleteAbsent | EvolveNoteMobile/app/addgoal.tsx:80 | deleting an id that no task carries is a no-op |
| DraftStore.DeleteIdempotent | EvolveNoteMobile/app/addgoal.tsx:80 | deleting the same id twice equals deleting it once |
| DraftStore.DeleteIdCounts | EvolveNoteMobile/app/addgoal.tsx:80 | after deletion no task carries the id, and every other id is carried as often as before |
| DraftStore.DeleteUnique | EvolveNoteMobile/app/addgoal.tsx:80 | on a list with unique ids, deletion keeps ids unique and removes exactly one task when the id is present |
| DraftStore.Reorder | EvolveNoteMobile/app/addgoal.tsx:117 | the drag result becomes the list as given, and the parameter slot is untouched |
| DraftStore.PermutationKeepsIdCounts | EvolveNoteMobile/app/addgoal.tsx:117 | a permutation of the tasks carries every id equally often (the id multiset is kept) |
| DraftStore.UniqueIffSingleOccurrences | EvolveNoteMobile/app/addgoal.tsx:118 | ids are pairwise distinct, which the list's key extractor relies on, iff no id is carried twice |
| DraftStore.ReorderByPermutation | EvolveNoteMobile/app/addgoal.tsx:115-118 | a drag that permutes the list keeps its length, its per-id counts, the cap and unique ids |
| DraftStore.PressAdd | EvolveNoteMobile/app/addgoal.tsx:106-109 | the "+" control (and Create Goal, gated identically further down) opens the details screen iff fewer than three tasks exist |
| DraftStore.PressAddPredictsAppend | EvolveNoteMobile/app/addgoal.tsx:25-36 | the add controls are enabled exactly when a non-empty title published back to the list would be appended as its last task |
| DraftStore.CapHolds | EvolveNoteMobile/app/addgoal.tsx:18-36 | along any run of arrivals, effects, deletions and permuting drags that starts within the cap, the list never exceeds three tasks |
| DraftStore.IdsStayUnique | EvolveNoteMobile/app/addgoal.tsx:31-36 | ids stay unique along a run when each generated id is new to the list at that moment and drags permute |
| Schedule.Init | EvolveNoteMobile/app/goaldetails.tsx:7-21 | the mounted screen: empty name, Today tab, both dates today, end-date mode, no picker, 90 days and 0 months |
| Schedule.PressStartTab | EvolveNoteMobile/app/goaldetails.tsx:30-44 | every press records the tab; Today sets today and closes the picker; Tommorow sets the first valid date after today and closes the picker; Select date opens the picker and keeps the date; the finish section is untouched |
| Schedule.PressFinishTab | EvolveNoteMobile/app/goaldetails.tsx:109 | the mode becomes end-date iff the label is "End Date"; nothing else changes |
| Schedule.OpenFinishPicker | EvolveNoteMobile/app/goaldetails.tsx:120 | tapping the finish date box opens the finish picker and changes nothing else |
| Schedule.StartPickerChange | EvolveNoteMobile/app/goaldetails.tsx:91-94 | the start picker stays open iff on iOS; a picked date becomes the start date, and a dismissal keeps it |
| Schedule.FinishPickerChange | EvolveNoteMobile/app/goaldetails.tsx:129-132 | the same rule for the finish picker and the finish date |
| Schedule.StepDown | EvolveNoteMobile/app/goaldetails.tsx:141 | "−" yields the larger of 0 and one less: never negative, and never more than one below |
| Schedule.StepUp | EvolveNoteMobile/app/goaldetails.tsx:145 | "+" adds exactly one, with no ceiling |
| Schedule.UpThenDownRestores | EvolveNoteMobile/app/goaldetails.tsx:141-145 | from a non-negative count, "+" then "−" restores it |
| Schedule.DownAtFloor | EvolveNoteMobile/app/goaldetails.tsx:157 | "−" at 0 stays at 0, and "−" on a positive count takes exactly one off |
| Schedule.HandleCreate | EvolveNoteMobile/app/goaldetails.tsx:46-52 | something is published iff the name holds a non-whitespace character, and what is published is the name untrimmed |
| Schedule.PressContinue | EvolveNoteMobile/app/goaldetails.tsx:170-174 | a disabled Continue (empty name) publishes nothing |
| Schedule.ContinueIsHandleCreate | EvolveNoteMobile/app/goaldetails.tsx:171-173 | the disabled state is redundant: pressing Continue always acts as `handleCreate` |
| Schedule.WhitespaceNameEnabledButInert | EvolveNoteMobile/app/goaldetails.tsx:47 | a name of one space enables Continue, yet the press publishes nothing |
| Schedule.Step | EvolveNoteMobile/app/goaldetails.tsx:85-168 | a control acts only while it is on screen: picks are ignored while their picker is closed (the finish picker also outside date mode), the finish box opens the picker only in date mode, and the steppers change only their own counter and only in duration mode; typing sets the name alone |
| Schedule.InitSound | EvolveNoteMobile/app/goaldetails.tsx:11-21 | the mounted screen has valid dates, the start is not before today, and both counters are non-negative |
| Schedule.RunKeepsSound | EvolveNoteMobile/app/goaldetails.tsx:85-96 | along any run whose pickers honour their minimum dates, the dates stay valid, the start never falls before today, and days and months stay non-negative |
| Schedule.FinishPickRespectsStart | EvolveNoteMobile/app/goaldetails.tsx:123-132 | right after an honest finish pick, the finish date is not before the start date |
| Schedule.FinishCanPrecedeStart | EvolveNoteMobile/app/goaldetails.tsx:36-40 | after mount, pressing Tommorow leaves the finish date strictly before the start date |
| Calendar.NextDay | EvolveNoteMobile/app/goaldetails.tsx:37-38 | `setDate(getDate() + 1)` yields a valid date strictly after the given one |
| Calendar.NextDayIsSuccessor | EvolveNoteMobile/app/goaldetails.tsx:37-38 | no valid date lies strictly between a date and its NextDay |
| Calendar.DaysInMonth | EvolveNoteMobile/app/goaldetails.tsx:38 | the month lengths the rollover uses: February has 29 days in a Gregorian leap year and 28 otherwise; among the other months exactly April, June, September and November (indices 3, 5, 8, 10) have 30, the rest 31 |
| Calendar.YearToString | EvolveNoteMobile/app/goaldetails.tsx:26-27 | `String(year)` is the decimal digits of a non-negative year, read back as the year, and a minus sign before the digits of a negative one; no leading zero in either case, and a year from 1000 to 9999 gives four characters |
| Calendar.TwoDigits | EvolveNoteMobile/app/goaldetails.tsx:24-25 | the padded day or month is two digits that read back as the number |
| Calendar.FormatDate | EvolveNoteMobile/app/goaldetails.tsx:23-28 | '/' sits at positions 2 and 5; the first two characters are digits reading back as the day, the next two as the 1-based month, and the rest is `String(year)`; a four-digit year gives length 10 |
| Calendar.FormatDateRoundTrip | EvolveNoteMobile/app/goaldetails.tsx:23-28 | for four-digit years the dd/mm/yyyy text reads back as the same date (1-based month, zero-padded day and month) |
| Text.NatToString | EvolveNoteMobile/app/goaldetails.tsx:24 | `String(n)` is a non-empty run of digits with no leading zero, and has one digit iff n < 10 |
| Text.NatToStringRoundTrip | EvolveNoteMobile/app/goaldetails.tsx:24 | reading the rendered digits gives back n |
| Text.PadStart | EvolveNoteMobile/app/goaldetails.tsx:24 | `padStart` keeps a long enough string, otherwise reaches exactly the width with the fill character in front of the original |
| Text.PadTwoKeepsValue | EvolveNoteMobile/app/goaldetails.tsx:24-25 | zero padding a number below 100 to two characters keeps its value |
| Text.Trim | EvolveNoteMobile/app/goaldetails.tsx:47 | `trim` returns the slice of the input that lies between its leading and its trailing whitespace: everything before and after the slice is whitespace, and the slice starts and ends with a non-whitespace character |
| Text.BlankIffAllWhitespace | EvolveNoteMobile/app/index1.tsx:14 | a string trims to empty iff every character is whitespace |
| Credentials.GmailAddressIffPattern | EvolveNoteMobile/app/index1.tsx:12 | the direct check accepts a string iff it is one or more `[A-Za-z0-9._%+-]` characters followed by exactly `@gmail.com` |
| Credentials.SingleAt | EvolveNoteMobile/app/register.tsx:13 | an accepted address holds exactly one `@`, the one of the suffix |
| Login.ValidateLogin | EvolveNoteMobile/app/index1.tsx:11-16 | the verdict is the first failing check in order (blank email, pattern, blank password), and the request is reached iff the email passes the gmail check and the password is not all whitespace |
| Login.SendLoginIff | EvolveNoteMobile/app/index1.tsx:12-19 | the login request is reached iff the email is one or more `[A-Za-z0-9._%+-]` characters then `@gmail.com`, and the password has a non-whitespace character |
| Login.Alert | EvolveNoteMobile/app/index1.tsx:14-16 | each refusal shows its alert, and a sent request shows none |
| Login.GmailAddressNotBlank | EvolveNoteMobile/app/index1.tsx:14-15 | an address the pattern accepts is never blank, so the blank check only ever refuses what the pattern would |
| Login.PasswordJudgedLast | EvolveNoteMobile/app/index1.tsx:14-16 | the password verdict is reached only once both email checks pass |
| Login.ToggleRemember | EvolveNoteMobile/app/index1.tsx:73 | the flag flips, and email and password are kept |
| Login.ToggleTwiceRestores | EvolveNoteMobile/app/index1.tsx:73 | two presses restore the form |
| Register.ValidateRegister | EvolveNoteMobile/app/register.tsx:12-23 | the first failing check wins: blank name or email, or empty password or confirmation, then the pattern, then password equality; the request is reached iff all pass |
| Register.Alert | EvolveNoteMobile/app/register.tsx:15-23 | each refusal shows its alert, and a sent request shows none |
| Register.SameEmailRule | EvolveNoteMobile/app/register.tsx:18-20 | with the other fields in order, registration and login accept exactly the same email strings |
| Register.SpacesPasswordRegistersButCannotLogIn | EvolveNoteMobile/app/register.tsx:15 | passwords are not trimmed here: a password of spaces registers, while login refuses it as missing |
| Onboarding.Init | EvolveNoteMobile/app/onboarding.tsx:7 | the carousel starts on the first slide, not finished |
| Onboarding.Next | EvolveNoteMobile/app/onboarding.tsx:34-40 | on a non-final slide NEXT moves on by exactly one without finishing; on the last it finishes and stays put |
| Onboarding.Skip | EvolveNoteMobile/app/onboarding.tsx:46 | SKIP finishes from the slide on show |
| Onboarding.ButtonLabel | EvolveNoteMobile/app/onboarding.tsx:59 | "GET STARTED" iff on the last slide, otherwise "NEXT" |
| Onboarding.LabelPredictsFinish | EvolveNoteMobile/app/onboarding.tsx:34-40 | on an unfinished carousel in range, the button reads GET STARTED exactly when pressing it finishes onboarding |
| Onboarding.ProgressText | EvolveNoteMobile/app/onboarding.tsx:45 | the counter reads the 1-based slide number, then "/3" |
| Onboarding.SlideTitle | EvolveNoteMobile/app/onboarding.tsx:9-28 | the slides are titled ACHIEVEMENT, DISCIPLINE and MOTIVATION, in that order |
| Onboarding.RunStaysInRange | EvolveNoteMobile/app/onboarding.tsx:7-40 | the slide index stays within the three slides along any run of presses |
| Onboarding.NextPresses | EvolveNoteMobile/app/onboarding.tsx:34-40 | from the first slide, k ≤ 2 NEXT presses show slide k; the press after the last slide finishes |
| Onboarding.SkipFinishesAnywhere | EvolveNoteMobile/app/onboarding.tsx:30-32 | one SKIP leaves the screen from any slide |
| HomeTasks.InitialTasks | EvolveNoteMobile/app/index.tsx:8-11 | the list starts with two open tasks, ids 1 and 2 |
| HomeTasks.Toggle | EvolveNoteMobile/app/index.tsx:13-15 | done flips on exactly the tasks carrying the id; length, order, ids and texts are kept |
| HomeTasks.ToggleTwice | EvolveNoteMobile/app/index.tsx:14 | toggling the same id twice restores the list |
| HomeTasks.ToggleAbsent | EvolveNoteMobile/app/index.tsx:14 | toggling an id not in the list leaves it unchanged |
| HomeTasks.ToggleCommutes | EvolveNoteMobile/app/index.tsx:14 | toggles on two ids commute |
| HomeTasks.FirstTapOnInitial | EvolveNoteMobile/app/index.tsx:8-14 | on the starting list, a tap on task 1 marks it done and leaves task 2 open |
| GoalFlow.Publish | EvolveNoteMobile/app/goaldetails.tsx:46-52 | Continue never touches the list; a published name arrives as the `newGoalTitle` slot |
| GoalFlow.ContinueAddsTask | EvolveNoteMobile/app/addgoal.tsx:25-40 | a name with a visible character, continued under the cap, ends up as exactly one new last task, spelled as typed, and the slot is cleared |
| GoalFlow.BlankNameAddsNothing | EvolveNoteMobile/app/goaldetails.tsx:47 | a whitespace-only name leaves a list with no pending title exactly as it was |
| GoalFlow.FourthGoalDropped | EvolveNoteMobile/app/addgoal.tsx:25-40 | four goals published onto an empty list keep the first three, in order; the fourth is dropped and its slot still cleared |

## Left out

- Rendering: all JSX, styles, the SVG progress ring and the task-info modal. The modal's state (`selectedTask`, `modalVisible`) is display only. Its dates, and the numbers on the home screen, are static text.
- Navigation: the expo-router stack, BACK, close, and the routes between screens. A navigation is a returned route or a `finished` flag. The parameter hand-off is the single slot of `DraftStore.Param`.
- The network: `fetch`, `Alert.alert`, `process.env`, the server's answers and the backend service. Only each form's verdict, and the text of its alert, is modelled.
- Time: the clock, time of day and time zones. "Today" is a parameter.
  - The two `new Date()` calls of the Tommorow branch are taken to fall on the same day.
  - A picker's `minimumDate` is read as the calendar day.
- Randomness: the `Date.now()`/`Math.random()` task ids are a fresh-id argument of `DraftStore.Consume`.
- DraftStore.IdsStayUnique: uniqueness of ids is proved only under the hypothesis that each supplied id is new, because the source only makes a clash unlikely.
- The native date picker: its inner behaviour is not modelled. That it respects `minimumDate` is a hypothesis on runs (`Schedule.PickersHonest`), not a proved fact.
- The drag gesture: only the sequence handed to `onDragEnd` is modelled. That it permutes the list is a hypothesis on runs (`DraftStore.DragsPermute`).
- Effect scheduling: React runs the effect only when `newGoalTitle` changes. `DraftStore.Observe` lets it run at any time. This only adds behaviours, and `DraftStore.ConsumeOnce` shows that an extra run is harmless.
- GoalFlow.Publish: assumes that `router.push` to `/addgoal` returns to the task list screen already mounted, keeping its tasks. A freshly mounted screen would start from an empty list, so the published title would be its only task. `GoalFlow.ContinueAddsTask` and `GoalFlow.FourthGoalDropped` hold under this assumption. The router's stack behaviour is not part of this model.
- Calendar.FormatDate: the round trip is stated for four-digit years only. Other years render with a different number of digits, and negative years with a minus sign.
- Schedule.RunKeepsSound: does not keep the finish date on or after the start date, because the code does not keep it (see `Schedule.FinishCanPrecedeStart`).
