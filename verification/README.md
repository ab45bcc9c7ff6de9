# University timetabling, modelled in Dafny

This project models the core logic of a university timetabling application.
The application is a FastAPI backend with a Python scheduler and a React
frontend. The model is written as pure functions over immutable sequences,
maps and sets, with one imperative loop per algorithm.

Each module below names the program part it models:

- **Grid**: the scheduler's slot table. There are nine slot ids; slot 4 is the break; the teaching hours are 7 to 14.
- **Schedule**: what a timetable is.
  - Sessions, teachers, subjects and groups.
  - The availability map, with a full-week fallback for a teacher without availability.
  - The hard rules and the ledger: the occupancy maps and the per-day counters the greedy phase keeps.
- **Greedy**: the greedy phase of `generar_horario`.
  - Groups are processed in order; internship terms 6 and 10 and terms without subjects are skipped.
  - Each subject gets a preferred teacher, the qualified teacher with the most unused availability.
  - The slot walk is chronological, over days and non-break slots.
  - In each slot the first placeable subject (most remaining hours first) goes to the first placeable teacher: preferred, then qualified, then anyone.
  - `Greedy.Generate` is a loop whose invariants are the occupancy maps.
- **Gaps**: `contar_huecos` / `huecos_en_dia`. These count the free non-break slots between a day's first and last occupied slot.
- **Passes**: compaction, inter-day balancing and weekly balancing.
  - Each is modelled as its guarded move, applied to a sequence of requested moves.
  - Each move keeps the hard rules and the ledger.
- **Validation**: `validar_horario`. It reports one error per session whose (teacher, day, start hour) occurred before.
- **Engine**: the scheduler end to end. The final timetable keeps every hard rule, and the validator reports nothing.
- **Endpoint**: the pure parts of the generation endpoint.
  - The checks before scheduling.
  - Group counts and group names.
  - The subjects handed to the scheduler.
  - The coverage, completeness and idle-hour warnings, and the response status.
- **Rooms**: the endpoint's first-fit room assignment. Rooms are tried by decreasing capacity. A room is never double-booked, and a teacher teaches one subject per room.
- **Generation**: one run of the endpoint, from the checks to the response. It hands the scheduler the corrected availability described under Findings, which equals the endpoint's own on one-hour rows.
- **Upload**: the `horas_max_semana` and `dias_disponibles` columns of the CSV teacher upload, and the rows it stores.
- **Planner**: the capacity planner of the generation page.
  - `calcularGrupos` and the totals.
  - The term checkboxes: at most four terms, kept sorted, with student counts.
  - The student-count field.
  - The 35-hour check and the request payload.
- **AvailabilityForm**: the teacher availability editor.
  - `SLOT_HOURS`.
  - The cell toggle, the day toggle and the subject toggle.
  - The payload normalisation on submit.
  - The legacy `dias_disponibles` expansion.
- **Seeding**: the availability seeding script.
  - Case-insensitive substring matching of names.
  - The default morning week.
  - Expanding slot lists into hour rows with the script's own slot table.
  - Replacing each teacher's rows.
- **Sessions**, **TeacherView**, **GroupView**: the read-side pages.
  - **TeacherView** is the per-teacher view: name normalisation, filtering, distinct subjects and groups, weekly hours, and the at-most-two-per-day badge.
  - **GroupView** is the per-group view: filtering, the cell index in which the last session wins, and the credit tally sorted by count.
- **Graph**: the validation graph.
  - One node per distinct prefixed key, holding the attributes of the session that created it.
  - Three or four links per session.
  - The counters.
- **Wrappers**, **Text**, **Listing**, **Sorting**: shared helpers.
  - Option and Result.
  - ASCII `lower`/`strip`, `split` and `int()`.
  - `filter`, and `[...new Set(xs)]`.
  - A stable sort.

Three facts about the program that the model makes precise:

- `Planner.ToggleAtLimitRecordsUnselected`: the term handler on its own records a student count for a fifth term while refusing to select it. The click guard on the checkbox is what keeps the page consistent (`Planner.ClickKeepsConsistent`).
- `Seeding.SlotNumberingsDiffer`: the seeding script numbers slots differently from the scheduler. Its slot 4 is the hour 11–12, while the scheduler's slot 4 is the break.
- `Seeding.DefaultMissesLastHour`: the script's default week ends at 14:00, so it never offers the scheduler's last teaching hour.

What the code does not do, and the model therefore leaves out:

- `backend/api/main.py` computes no room conflicts. Its only room rules are the first-fit choice and one subject per teacher and room.
- A session without a room is only displayed as "N/A" in the endpoint's response (`backend/api/main.py:1203`).
- The validation graph draws nodes and links and counts them, and checks nothing else.

## Model

| member | source | states |
|---|---|---|
| Grid.SlotAtHour | backend/scheduler/scheduler_pure.py:10-20 | The teaching slot starting at an hour exists exactly for the teaching hours 7..14 and starts at that hour. |
| Grid.TeachingSlotShape | backend/scheduler/scheduler_pure.py:10-20 | Every teaching slot lasts one hour, starts at a teaching hour and is recovered from its start hour. |
| Grid.SlotStartInjective | backend/scheduler/scheduler_pure.py:10-20 | Two teaching slots with the same start hour are the same slot (the break shares hour 11 with slot 5). |
| Grid.TeachingSlotsSpec | backend/scheduler/scheduler_pure.py:81 | The valid-slot list holds exactly the non-break slots, increasing, the i-th starting at 7 + i. |
| Schedule.FullWeek | backend/scheduler/scheduler_pure.py:47-53 | The fallback availability is exactly every (day 0..4, teaching hour) pair. |
| Schedule.AvailabilityMap | backend/scheduler/scheduler_pure.py:39-54 | The map has one key per teacher id; with distinct ids each teacher maps to its own availability, or to the full week when it has none. |
| Schedule.EmptyLedgerTracks | backend/scheduler/scheduler_pure.py:56-70 | The empty occupancy maps and counters describe the empty timetable. |
| Schedule.NewSession | backend/scheduler/scheduler_pure.py:214-222 | A recorded session is well timed: a non-break slot of a weekday, the slot's start hour, one hour long. |
| Schedule.CountUpdate | backend/scheduler/scheduler_pure.py:485-489 | Replacing a session moves one unit of a per-key count from its old key to its new key. |
| Schedule.RecordTracks | backend/scheduler/scheduler_pure.py:223-230 | Updating occupancy, both day counters and the teacher's subject in the group keeps the ledger in step with the sessions. |
| Schedule.AppendKeepsBookings | backend/scheduler/scheduler_pure.py:144-191 | A session at a (day, slot) free for its teacher and its group leaves no teacher or group double-booked. |
| Schedule.AppendKeepsOneSubject | backend/scheduler/scheduler_pure.py:193-201 | A session whose teacher has no other subject recorded in the group keeps one subject per teacher and group. |
| Schedule.AppendKeepsCaps | backend/scheduler/scheduler_pure.py:159-211 | A session placed below both daily caps of 2 keeps both caps. |
| Schedule.PlaceKeepsRules | backend/scheduler/scheduler_pure.py:181-232 | A session passing every check the generator makes keeps all hard rules and the ledger. |
| Gaps.Present | backend/scheduler/scheduler_pure.py:281-282 | The sorted valid slots of a day are exactly its occupied non-break slots. |
| Gaps.Between | backend/scheduler/scheduler_pure.py:288-292 | The counted slots are exactly the free non-break slots between the bounds. |
| Gaps.GapCountSpan | backend/scheduler/scheduler_pure.py:278-293 | Gaps plus occupied non-break slots equal the non-break slots from the first to the last occupied one. |
| Gaps.GapCountZeroIffContiguous | backend/scheduler/scheduler_pure.py:278-293 | A day has no gap exactly when its occupied non-break slots leave no free non-break slot between two of them. |
| Gaps.GapCountNoClasses | backend/scheduler/scheduler_pure.py:279-284 | An empty day, or a day with only the break, has no gap. |
| Gaps.GapCountAcrossBreak | backend/scheduler/scheduler_pure.py:288-292 | Slots 3 and 5 on either side of the break leave no gap. |
| Gaps.GapCountOneHole | backend/scheduler/scheduler_pure.py:288-292 | Slots 2 and 5 leave exactly one gap (slot 3). |
| Gaps.InnerHole | backend/scheduler/scheduler_pure.py:354-362 | The inner hole, when it exists, is a gap and no earlier non-break slot is one; it is missing exactly when there is no gap. |
| Gaps.GapSlotsAre | backend/scheduler/scheduler_pure.py:285-292 | The counted gaps of a day are exactly the free non-break slots between its first and last occupied slot. |
| Gaps.FillKeepsEnds | backend/scheduler/scheduler_pure.py:353-382 | Occupying the inner hole keeps the day's first and last occupied slots. |
| Gaps.FillGap | backend/scheduler/scheduler_pure.py:278-293 | Occupying any gap of a day lowers its gap count by exactly one. |
| Gaps.FillInnerHole | backend/scheduler/scheduler_pure.py:451-464 | Moving a class into a day's inner hole removes exactly one gap from that day. |
| Validation.ConflictErrors | backend/scheduler/scheduler_pure.py:640-645 | One error per session whose key occurred earlier: the errors plus the distinct keys number the sessions, and there are no errors exactly when the keys are distinct. |
| Validation.Validate | backend/scheduler/scheduler_pure.py:634-647 | The warnings are always empty; the errors are empty exactly when no (teacher, day, start hour) repeats. |
| Validation.HardRulesValidate | backend/scheduler/scheduler_pure.py:634-647 | A timetable keeping the hard rules validates without errors, because start hours identify non-break slots. |
| Greedy.Qualified | backend/scheduler/scheduler_pure.py:73-78 | The candidates for a subject are exactly the teachers listing it. |
| Greedy.MostAvailable | backend/scheduler/scheduler_pure.py:113-122 | The chosen candidate has the highest unused availability, strictly above every earlier one and above -1; none exactly when every score is at most -1. |
| Greedy.PreferredTeacher | backend/scheduler/scheduler_pure.py:105-125 | The preferred teacher is a teacher, qualified when anyone is; none exactly when every candidate scores at most -1. |
| Greedy.Excluding | backend/scheduler/scheduler_pure.py:174-179 | The alternates are exactly the teachers other than the preferred one. |
| Greedy.FirstPlaceable | backend/scheduler/scheduler_pure.py:236-241 | The first candidate passing every teacher check, with all earlier ones failing; none exactly when all fail. |
| Greedy.TeacherFor | backend/scheduler/scheduler_pure.py:169-249 | The chosen teacher passes every check; the preferred teacher wins when it passes; none exactly when no teacher passes. |
| Greedy.TrySubject | backend/scheduler/scheduler_pure.py:159-249 | A teacher is found exactly when the subject is below its daily cap and some teacher passes every check. |
| Greedy.ChooseInSlot | backend/scheduler/scheduler_pure.py:154-252 | The placed subject is the first candidate that can be placed, with a teacher passing every check; nothing is placed exactly when no candidate can be. |
| Greedy.SubjectOrder | backend/scheduler/scheduler_pure.py:150-152 | The candidates are exactly the subjects with hours left, a permutation of them, ordered by non-increasing remaining hours, and subjects with equal hours left keep the group's order (the sort is stable). |
| Greedy.SlotChoice | backend/scheduler/scheduler_pure.py:150-252 | The slot gets a subject with hours left and an eligible teacher, and no subject with more hours left could be placed; it stays empty exactly when no subject with hours left can be placed. |
| Greedy.SubjectsOfTerm | backend/scheduler/scheduler_pure.py:94 | A group's subjects are exactly the subjects of its term, with distinct ids kept. |
| Greedy.WeekSlot | backend/scheduler/scheduler_pure.py:128-132 | Every position of the walk is a weekday and a non-break slot. |
| Greedy.WeekSlotChronological | backend/scheduler/scheduler_pure.py:128-132 | The walk is strictly chronological: by day, then by slot. |
| Greedy.WeekSlotCovers | backend/scheduler/scheduler_pure.py:128-132 | Every (weekday, non-break slot) pair is visited. |
| Greedy.ProgressStart | backend/scheduler/scheduler_pure.py:134-135 | The walk starts with nothing placed for the group and every subject's weekly hours remaining. |
| Greedy.HoursStep | backend/scheduler/scheduler_pure.py:227 | Placing one session moves one hour of its subject from remaining to placed, keeping each subject within its weekly hours. |
| Greedy.ProgressStep | backend/scheduler/scheduler_pure.py:213-227 | A placement at a free group slot advances the walk by one hour of its subject. |
| Greedy.FillGroup | backend/scheduler/scheduler_pure.py:101-252 | Filling one group keeps the hard rules and the ledger, only appends sessions of that group and its subjects, and never exceeds a subject's weekly hours. |
| Greedy.GroupSkipped | backend/scheduler/scheduler_pure.py:90-99 | A skipped group gets no sessions and the earlier groups' outcomes still hold. |
| Greedy.GroupFilled | backend/scheduler/scheduler_pure.py:84-252 | After a group's walk its outcome holds and every earlier group's outcome still holds. |
| Greedy.Generate | backend/scheduler/scheduler_pure.py:33-254 | The greedy phase keeps every hard rule, keeps the ledger in step, gives sessions only to the given groups, and meets every group's outcome (no sessions for internship terms, none beyond a subject's weekly hours). |
| Passes.GroupDaySlots | backend/scheduler/scheduler_pure.py:516-520 | The slots a group uses on a day are exactly those of its sessions that day. |
| Passes.TeacherOccupancy | backend/scheduler/scheduler_pure.py:259-265 | The rebuilt occupancy of a teacher is exactly the (day, slot) pairs of its sessions. |
| Passes.MoveKeepsRules | backend/scheduler/scheduler_pure.py:295-306 | Moving one session to a well-timed place free for its teacher and group, within its teacher's availability and the daily caps, keeps every hard rule. |
| Passes.ShiftTracks | backend/scheduler/scheduler_pure.py:339-344 | Compaction's occupancy update keeps the ledger in step with a same-day move. |
| Passes.TransferTracks | backend/scheduler/scheduler_pure.py:484-498 | The inter-day occupancy and counter updates keep the ledger in step. |
| Passes.CompactionMove | backend/scheduler/scheduler_pure.py:295-346 | A compaction move changes only the slot and hours of one session and only when the guard holds; otherwise nothing changes. |
| Passes.CompactionMoveKeepsRules | backend/scheduler/scheduler_pure.py:295-346 | A compaction move keeps the hard rules and the ledger. |
| Passes.InterDayMove | backend/scheduler/scheduler_pure.py:411-503 | An inter-day move puts one session into the first gap of another day with more than two gaps, only when every guard holds. |
| Passes.InterDayMoveKeepsRules | backend/scheduler/scheduler_pure.py:411-503 | An inter-day move keeps the hard rules and the ledger. |
| Passes.InterDayMoveFillsGap | backend/scheduler/scheduler_pure.py:451-498 | An inter-day move removes exactly one gap from the target day. |
| Passes.WeeklyMove | backend/scheduler/scheduler_pure.py:561-613 | A weekly move puts one session on a free slot of a lighter day, only when every guard holds. |
| Passes.WeeklyMoveKeepsRules | backend/scheduler/scheduler_pure.py:561-613 | A weekly move keeps the hard rules and the ledger. |
| Passes.WeeklyMoveLoadsTarget | backend/scheduler/scheduler_pure.py:606-621 | A weekly move adds one class to the target day of the group. |
| Passes.SameClassCount | backend/scheduler/scheduler_pure.py:336-344 | Moves that keep each session's teacher, subject and group keep every per-class count. |
| Passes.RebuiltTracks | backend/scheduler/scheduler_pure.py:258-265 | Rebuilding the teacher occupancy from the sessions keeps the ledger in step. |
| Passes.Compaction | backend/scheduler/scheduler_pure.py:257-382 | Compaction keeps the hard rules, the ledger, each session's class and each session's day. |
| Passes.InterDay | backend/scheduler/scheduler_pure.py:386-505 | Inter-day balancing keeps the hard rules, the ledger and each session's class. |
| Passes.Weekly | backend/scheduler/scheduler_pure.py:509-628 | Weekly balancing keeps the hard rules, the ledger and each session's class. |
| Engine.PassesKeepOutcome | backend/scheduler/scheduler_pure.py:257-630 | The passes keep every group's outcome from the greedy phase. |
| Engine.Timetable | backend/scheduler/scheduler_pure.py:33-647 | The generated timetable keeps every hard rule and every group's outcome, and its validation has no errors and no warnings. |
| Endpoint.InternshipSelections | backend/api/main.py:886-888 | The rejected selections are exactly the selected internship terms, one per selection. |
| Endpoint.UnavailableTeachers | backend/api/main.py:899-910 | The reported teachers are exactly those whose rows add up to no hours. |
| Endpoint.Precheck | backend/api/main.py:885-921 | Rejected for internship terms exactly when one is selected, listing all of them; then for no teachers exactly when none is selected; then listing every teacher without hours; accepted exactly when none of these holds. |
| Endpoint.StartHours | backend/api/main.py:903-906 | As written: a (day, hour) is present exactly when some row has that day and starts at that hour. |
| Endpoint.CoveredHours | backend/api/main.py:903-907 | A (day, hour) is available exactly when some row of that day covers it. |
| Endpoint.OneHourRowsAgree | backend/api/main.py:904-906 | For one-hour rows the start-hour reading equals the covered-hours reading. |
| Endpoint.SpanRowSeenAtStartOnly | backend/api/main.py:903-910 | A single Monday row from 7 to 22 counts 15 hours, yet the start-hour reading offers only Monday at 7, not 8. |
| Endpoint.SchedulerTeacher | backend/api/main.py:912-918 | The scheduler's teacher keeps the id and subjects and is available at every hour its rows cover. |
| Endpoint.RequestedGroups | backend/api/main.py:969 | The group count is the requested value, or 1 when it is missing or 0; never 0. |
| Endpoint.LettersSpec | backend/api/main.py:970 | The letter table is A..O, fifteen letters. |
| Endpoint.GroupSuffixInjective | backend/api/main.py:973 | Different positions get different suffixes: letters for the first fifteen, digits after. |
| Endpoint.GroupNameInjective | backend/api/main.py:972-974 | Within a term, names are equal exactly when positions are. |
| Endpoint.GroupNames | backend/api/main.py:970-974 | One name per requested group, the i-th named by position i, all distinct. |
| Endpoint.SubjectsOf | backend/api/main.py:947-950 | A term's subjects are exactly the stored subjects of that term. |
| Endpoint.TermSubjects | backend/api/main.py:942-950 | The collected subjects are exactly the stored subjects of the selected terms. |
| Endpoint.FirstById | backend/api/main.py:953-966 | Each subject id once, at its first occurrence: ids distinct, same id set, only input subjects. |
| Endpoint.SelectedSubjects | backend/api/main.py:942-966 | The scheduler's subjects have distinct ids, come from the selected terms, and cover every id of those terms. |
| Endpoint.CoverageWarnings | backend/api/main.py:953-958 | One warning for exactly the subjects no selected teacher may teach; none exactly when every subject has one. |
| Endpoint.HourGaps | backend/api/main.py:1096-1107 | Each reported idle stretch is at least an hour, fewer than the hours listed; none exactly when consecutive hours are at most one apart. |
| Endpoint.HourGapsStretches | backend/api/main.py:1098-1107 | Consecutive hours d > 1 apart report a stretch of d - 1 hours, and every reported stretch comes from such a pair. |
| Endpoint.HourGapsPair | backend/api/main.py:1098-1107 | Two hours alone report the hours between them when more than an hour apart, nothing otherwise. |
| Endpoint.HourGapsSplit | backend/api/main.py:1098-1107 | The stretches are those of the hours up to position i followed by those from i on, so each pair's stretch is reported in order. |
| Endpoint.HourGapsTotal | backend/api/main.py:1102-1107 | For distinct sorted hours the idle hours add up to the span minus the classes. |
| Endpoint.WeekGaps | backend/api/main.py:1091-1110 | One list of idle hours per weekday 0..4, each that day's. |
| Endpoint.GapWarnings | backend/api/main.py:1096-1110 | Every idle stretch is warned with its day and length, nothing else is, and there are no warnings exactly when no day has idle hours. |
| Endpoint.GroupWarnings | backend/api/main.py:1076-1110 | The shortfall warning appears exactly when hours are missing; no warnings exactly when the group is complete and has no idle hour. |
| Endpoint.GapWarned | backend/api/main.py:1102-1110 | Each idle stretch of a weekday appears among the group's warnings. |
| Endpoint.AllGroupWarnings | backend/api/main.py:1076-1116 | Every short group is warned, and there are no warnings exactly when every group has none. |
| Endpoint.Finish | backend/api/main.py:1118-1124 | The status is success exactly when there are no warnings, exactly when every subject has a teacher and every group is clean; the total is the number of saved sessions. |
| Rooms.AvailableRooms | backend/api/main.py:1021 | Exactly the rooms marked available. |
| Rooms.RoomOrder | backend/api/main.py:1022 | The available rooms sorted by non-increasing capacity, a permutation, equal capacities in stored order. |
| Rooms.ChosenFirstRules | backend/api/main.py:1041-1057 | First-fit choices never give a room twice at one (day, hour) and keep one subject per teacher and room. |
| Rooms.FitsIffFree | backend/api/main.py:1041-1051 | The endpoint's room test passes exactly when no earlier placement blocks the room. |
| Rooms.FirstFit | backend/api/main.py:1041-1057 | The first room in order that fits, all earlier ones failing; none exactly when none fits. |
| Rooms.TakeTracks | backend/api/main.py:1053-1056 | Recording a placement keeps the room ledger in step with the placements. |
| Rooms.FirstFitChosen | backend/api/main.py:1041-1057 | The placement from the first fitting room is a first-fit choice. |
| Rooms.Saved | backend/api/main.py:1029-1033 | The saved sessions are those not on the break slot, each copy kept; one session is kept exactly when it is not on the break. |
| Rooms.SavedAppend | backend/api/main.py:1029-1033 | Saving distributes over concatenation, so the saved sessions keep the timetable's order. |
| Rooms.AssignStep | backend/api/main.py:1035-1057 | Placing one more session with its first-fit room keeps the room ledger in step, keeps every placement a first-fit choice and appends the session. |
| Rooms.LoopStep | backend/api/main.py:1029-1070 | One more session, saved or skipped, keeps the assignment loop's invariants. |
| Rooms.AssignRooms | backend/api/main.py:1020-1070 | The placements are the saved sessions in order, each got its first-fit room, and no room is double-booked or taught in with two subjects by one teacher. |
| Generation.SchedulerTeachers | backend/api/main.py:898-918 | Corrected reading (see Findings): one scheduler teacher per stored teacher, same id and subjects, available at every hour its rows cover rather than only at each row's start hour as line 906 keys it. |
| Generation.AsWrittenTeachers | backend/api/main.py:898-918 | As written: one scheduler teacher per stored teacher, same id and subjects, available exactly at the (day, start hour) of each of its rows. |
| Generation.AsWrittenAgrees | backend/api/main.py:903-918 | When every stored row is one hour long, as the editor and the seeding script write them, the corrected teachers equal the ones the endpoint builds as written. |
| Generation.AvailabilityOfRecord | backend/api/main.py:903-918 | Corrected reading: with distinct ids, the scheduler's availability for a teacher is the hours its rows cover (line 906 keeps only start hours), or the full week when they cover none. |
| Generation.RowsCoverAvailability | backend/api/main.py:903-907 | Corrected reading: every hour a row covers is an hour the scheduler may use; as written, hour 8 of a 7–22 row is not (Endpoint.SpanRowSeenAtStartOnly). |
| Generation.SchedulerGroups | backend/api/main.py:985-990 | One scheduler group per created group, same id, its term; distinct ids stay distinct. |
| Generation.FinishMeaning | backend/api/main.py:1118-1120 | The response succeeds exactly when every subject has a teacher and every group is clean. |
| Generation.Run | backend/api/main.py:874-1124 | Over the corrected availability, equal to the endpoint's own on one-hour rows (Generation.AsWrittenAgrees): refuses exactly when the checks do, with their rejection; otherwise the timetable keeps the hard rules and group outcomes, the saved sessions get first-fit rooms never double-booked, and the status says success exactly when nothing is warned. |
| Upload.HoursMax | backend/api/main.py:86-90 | A text that reads as an integer gives that integer; a missing column or a non-integer text gives 15; a `None` cell rejects the row. |
| Upload.ParseDefault | backend/api/main.py:86 | The default text "15" reads as 15. |
| Upload.HoursMaxRoundTrip | backend/api/main.py:86-90 | Any integer written in the column is read back unchanged. |
| Upload.PieceDay | backend/api/main.py:124-130 | A piece names a day exactly when its stripped text is an integer in 0..5, and names that integer. |
| Upload.PieceDays | backend/api/main.py:124-130 | One reading per piece; a day is read exactly when some piece names it. |
| Upload.KeptDays | backend/api/main.py:123-130 | Each day is kept as many times as it is read; one reading keeps its day or nothing. |
| Upload.KeptDaysAppend | backend/api/main.py:123-130 | Keeping distributes over concatenation, so the kept days follow the pieces' order. |
| Upload.DaysOf | backend/api/main.py:121-133 | No days for empty text; otherwise the named days, each as many times as it is named, or all of 0..5 when none is named; always within 0..5. |
| Upload.MissingDaysColumn | backend/api/main.py:121 | A missing column reads as every day 0..5. |
| Upload.DefaultPieces | backend/api/main.py:121-130 | The default text splits into six one-digit pieces, each naming its day. |
| Upload.EveryDayNamed | backend/api/main.py:124-133 | Six pieces naming 0..5 in order name exactly those days. |
| Upload.DigitDay | backend/api/main.py:126-128 | A one-digit piece 0..5 names its day. |
| Upload.DayRows | backend/api/main.py:135-142 | One row per kept day, from 7 to 22. |
| Upload.UploadRows | backend/api/main.py:121-142 | The stored rows are one 7-to-22 row per day read from the column. |
| Upload.SpanRowsHours | backend/api/main.py:139-140 | Rows from 7 to 22 add up to 15 hours each. |
| Upload.UploadedTeacherAvailable | backend/api/main.py:907-910 | An uploaded teacher counts 15 hours per day and passes the availability check exactly when the days cell is neither empty text nor `None`. |
| Upload.UploadedSeenAtSeven | backend/api/main.py:903-907 | As written, an uploaded teacher is available only at 7 on its days, though its rows cover 7 to 22. |
| Planner.CeilDiv | frontend/src/pages/GenerarHorarios.jsx:300 | Ceiling division: the least multiple count reaching the dividend. |
| Planner.Groups | frontend/src/pages/GenerarHorarios.jsx:300 | Never 0; for a count of at least one, the groups seat everyone and one fewer would not; 1 for 0. |
| Planner.GroupsLeast | frontend/src/pages/GenerarHorarios.jsx:300 | The group count is the least positive number of 35-seat rooms that seats everyone. |
| Planner.GroupsMonotone | frontend/src/pages/GenerarHorarios.jsx:300 | More students never need fewer groups. |
| Planner.Lookup | frontend/src/pages/GenerarHorarios.jsx:497 | A found count is stored under the term; a missing one is stored under no entry. |
| Planner.Put | frontend/src/pages/GenerarHorarios.jsx:296 | Setting a term's count changes only that term's lookup and keeps keys ascending. |
| Planner.Remove | frontend/src/pages/GenerarHorarios.jsx:283-284 | Deleting a term's count makes only that term missing and keeps keys ascending. |
| Planner.Without | frontend/src/pages/GenerarHorarios.jsx:282 | The selection without the term, shorter when it was there, still strictly ascending. |
| Planner.AddTerm | frontend/src/pages/GenerarHorarios.jsx:294 | Adding a new term and sorting gives a strictly ascending selection of the old terms and the new one. |
| Planner.Click | frontend/src/pages/GenerarHorarios.jsx:446-449 | A click on an unselected term when four are selected changes nothing. |
| Planner.ClickKeepsConsistent | frontend/src/pages/GenerarHorarios.jsx:280-297 | A click keeps at most four ascending distinct terms with counts exactly for them; it selects the term exactly when it was unselected and fewer than four were selected. |
| Planner.ToggleAtLimitRecordsUnselected | frontend/src/pages/GenerarHorarios.jsx:288-296 | Without the click guard, a fifth term is refused but its count is recorded. |
| Planner.Edit | frontend/src/pages/GenerarHorarios.jsx:515-518 | An edit sets only that term's count, to the number when it is at least 1, otherwise 1. |
| Planner.EditKeepsConsistent | frontend/src/pages/GenerarHorarios.jsx:515-518 | Editing a selected term's count keeps the state consistent. |
| Planner.TotalsBounds | frontend/src/pages/GenerarHorarios.jsx:302-303 | With counts of at least 1, each term adds at least a group and a student, and the groups seat all students. |
| Planner.KeysAreTerms | frontend/src/pages/GenerarHorarios.jsx:280-297 | In a consistent state the recorded terms are the selected terms, in order. |
| Planner.FindPlan | frontend/src/pages/GenerarHorarios.jsx:307 | The found plan has the selected id; none found means no plan has it. |
| Planner.AllTerms35 | frontend/src/pages/GenerarHorarios.jsx:308-316 | False exactly when the plan and its table are found and some selected term's hours are not 35. |
| Planner.FirstOff | frontend/src/pages/GenerarHorarios.jsx:308-316 | Some selected term is off 35 hours exactly when one is found, and the one found is selected and off 35. |
| Planner.OffTerms | frontend/src/pages/GenerarHorarios.jsx:330-337 | Exactly the selected terms whose hours are not 35, with those hours; none exactly when all are 35. |
| Planner.GroupsPerTerm | frontend/src/pages/GenerarHorarios.jsx:349-352 | Keys are exactly the selected terms, each mapped to the groups for its count or for 35. |
| Planner.Generate | frontend/src/pages/GenerarHorarios.jsx:318-360 | No plan, then no terms, then every term off 35 hours is reported; a request carries the plan, every loaded teacher's id, the terms and groups for exactly those terms. |
| Planner.GenerateAgreesWithBadge | frontend/src/pages/GenerarHorarios.jsx:308-341 | A request is sent exactly when a plan and a term are chosen and the page shows every term at 35 hours. |
| Planner.RequestMatchesTotals | frontend/src/pages/GenerarHorarios.jsx:349-358 | From a consistent state the request asks for the groups the page totals, and the endpoint creates that many per term. |
| AvailabilityForm.SlotHour | frontend/src/pages/Maestros.jsx:174-176 | Slots 0..3 start at 7 + slot, slots 5..8 at 6 + slot, the break at 11, and any other id at 7 + slot. |
| AvailabilityForm.SlotHourMatchesGrid | frontend/src/pages/Maestros.jsx:173-176 | The editor's hour of each slot is the scheduler's start hour, which identifies the teaching slot. |
| AvailabilityForm.DropCell | frontend/src/pages/Maestros.jsx:185-187 | Removes every entry for the cell and keeps every other entry. |
| AvailabilityForm.ToggleSlot | frontend/src/pages/Maestros.jsx:178-198 | A filled cell is emptied, an empty one gets exactly one entry with the slot's hours appended, and other cells and entries are unchanged. |
| AvailabilityForm.ToggleSlotTwice | frontend/src/pages/Maestros.jsx:178-198 | Two clicks on an empty cell give back the entries. |
| AvailabilityForm.DropDay | frontend/src/pages/Maestros.jsx:210 | Exactly the entries of other days survive; the day's counts drop to zero and other counts are unchanged. |
| AvailabilityForm.Missing | frontend/src/pages/Maestros.jsx:213-223 | Of the given distinct slots, exactly those with no entry that day get one new entry with the editor's hours. |
| AvailabilityForm.AddedForDay | frontend/src/pages/Maestros.jsx:212-223 | Exactly the non-break slots with no entry that day get one new entry with the editor's hours. |
| AvailabilityForm.FillCounts | frontend/src/pages/Maestros.jsx:213-223 | After filling, every non-break slot of the day has an entry, and filled slots keep their count. |
| AvailabilityForm.FillSkipsBreak | frontend/src/pages/Maestros.jsx:214 | Filling a day adds nothing on the break slot. |
| AvailabilityForm.FillKeepsOtherDays | frontend/src/pages/Maestros.jsx:213-223 | Filling a day leaves the counts of other days unchanged. |
| AvailabilityForm.ToggleDay | frontend/src/pages/Maestros.jsx:201-226 | Entries of other days are unchanged, and entries written with the editor's hours stay so. |
| AvailabilityForm.ToggleDayClears | frontend/src/pages/Maestros.jsx:208-210 | A click on a full day leaves no entry for it and other days unchanged. |
| AvailabilityForm.ToggleDayFills | frontend/src/pages/Maestros.jsx:211-223 | A click on a day not full gives each empty non-break slot exactly one entry, keeps filled slots and the break slot as they were, and leaves other days unchanged. |
| AvailabilityForm.ToggleSubject | frontend/src/pages/Maestros.jsx:164-171 | The id's membership flips, other ids are unchanged, and a new id is appended. |
| AvailabilityForm.Without | frontend/src/pages/Maestros.jsx:167 | The ids other than the removed one, each still present. |
| AvailabilityForm.Normalize | frontend/src/pages/Maestros.jsx:235-242 | Each entry keeps its day and slot and gets the slot's hours. |
| AvailabilityForm.NormalizeKeepsNormal | frontend/src/pages/Maestros.jsx:235-242 | Entries written by the editor pass unchanged; normalising twice is normalising once. |
| AvailabilityForm.ExpandDays | frontend/src/pages/Maestros.jsx:266-280 | Eight entries per listed day, all non-break slots of listed days, every such cell filled. |
| AvailabilityForm.DayRow | frontend/src/pages/Maestros.jsx:269-279 | One entry per listed slot, with the editor's hours, filling each listed cell. |
| AvailabilityForm.LegacyDayIsFull | frontend/src/pages/Maestros.jsx:266-280 | A legacy day opens full, so a click on its header clears it. |
| AvailabilityForm.LoadEntries | frontend/src/pages/Maestros.jsx:262-281 | Stored entries when present; otherwise exactly the legacy days' expansion, covering every non-break slot of those days; otherwise nothing. |
| Seeding.SlotRange | backend/actualizar_disponibilidad.py:17-32 | The table has exactly the slot ids 0..13. |
| Seeding.SlotTableShape | backend/actualizar_disponibilidad.py:17-32 | Slot s runs from 7 + s to 8 + s: consecutive one-hour periods. |
| Seeding.SlotNumberingsDiffer | backend/actualizar_disponibilidad.py:17-32 | The script's slot 4 is 11–12, the scheduler's slot 4 is its break and its hour-11 slot is 5; below 4 the two tables agree. |
| Seeding.FindKnown | backend/actualizar_disponibilidad.py:338-345 | The first entry in table order whose name matches, or none exactly when no entry matches. |
| Seeding.Chosen | backend/actualizar_disponibilidad.py:338-358 | The first match's days, or the default when there is no match or it lists no day. |
| Seeding.FirstIsUnique | backend/actualizar_disponibilidad.py:339-345 | The first match is unique. |
| Seeding.MatchIgnoresCase | backend/actualizar_disponibilidad.py:340-343 | Matching ignores case and is symmetric in the two names. |
| Seeding.SameNameMatches | backend/actualizar_disponibilidad.py:340-343 | Names equal up to case match. |
| Seeding.Visits | backend/actualizar_disponibilidad.py:367-368 | The visits are exactly the (day, slot) pairs listed, one per listed slot id. |
| Seeding.RowsOf | backend/actualizar_disponibilidad.py:366-378 | One row per visit with the slot's hours, or failure with the first slot id outside the table. |
| Seeding.VisitRowsAgree | backend/actualizar_disponibilidad.py:369-376 | The seeded rows are one hour long, so both readings of availability agree. |
| Seeding.VisitHours | backend/actualizar_disponibilidad.py:369-376 | The hours seen in seeded rows are exactly the hours of the visited slots. |
| Seeding.DefaultVisits | backend/actualizar_disponibilidad.py:352-358 | The default visits slots 0..6 of days 0..4, 35 in all. |
| Seeding.MatchedRows | backend/actualizar_disponibilidad.py:366-378 | A matched teacher gets one row per listed slot id, in order, each the hour of its slot. |
| Seeding.DefaultWeek | backend/actualizar_disponibilidad.py:347-358 | An unmatched teacher gets 35 rows covering Monday to Friday, 7:00 to 14:00. |
| Seeding.DefaultRows | backend/actualizar_disponibilidad.py:347-378 | An unmatched teacher always seeds successfully, 35 rows following the default visits. |
| Seeding.DefaultMissesLastHour | backend/actualizar_disponibilidad.py:352-358 | The default never covers hour 14, a scheduler teaching hour. |
| Seeding.RowsFor | backend/actualizar_disponibilidad.py:361-363 | The rows of a teacher are exactly its stored rows. |
| Seeding.ReplaceRows | backend/actualizar_disponibilidad.py:360-378 | After a replacement the teacher has exactly the new rows and others keep theirs. |
| Seeding.SeedSucceeds | backend/actualizar_disponibilidad.py:336-390 | The run commits exactly when every teacher's lists use known slot ids. |
| Seeding.SeedFirst | backend/actualizar_disponibilidad.py:360-378 | After a successful run the first teacher has exactly the rows computed for it. |
| Seeding.SeedKeepsOthers | backend/actualizar_disponibilidad.py:336-382 | A teacher not processed keeps its rows. |
| Seeding.SeedRows | backend/actualizar_disponibilidad.py:336-382 | After a successful run with distinct ids each teacher has exactly its new rows. |
| Sessions.SubjectsOf | frontend/src/pages/HorariosProfesores.jsx:102 | The mapped subjects, one per session, exactly the sessions' subjects. |
| Sessions.GroupsOf | frontend/src/pages/HorariosProfesores.jsx:103 | The mapped groups, one per session, exactly the sessions' groups. |
| TeacherView.NormalizeName | frontend/src/pages/HorariosProfesores.jsx:96 | A present name is trimmed, then lower-cased; a missing name normalises to "". |
| TeacherView.NormalizedShape | frontend/src/pages/HorariosProfesores.jsx:96 | The normalised name starts and ends with non-blanks and has no capitals. |
| TeacherView.NormalizeIdempotent | frontend/src/pages/HorariosProfesores.jsx:96 | A normalised name normalises to itself. |
| TeacherView.TeacherSessions | frontend/src/pages/HorariosProfesores.jsx:98-101 | Exactly the sessions whose normalised teacher equals the normalised name, in order. |
| TeacherView.NamesThatNormaliseAlike | frontend/src/pages/HorariosProfesores.jsx:96-100 | Names normalising alike select the same sessions. |
| TeacherView.TeacherSessionsAppend | frontend/src/pages/HorariosProfesores.jsx:100 | Filtering distributes over concatenation, so order is kept. |
| TeacherView.Subjects | frontend/src/pages/HorariosProfesores.jsx:102 | Duplicate-free, exactly the subjects of the teacher's sessions, in the order the sessions first show them. |
| TeacherView.Groups | frontend/src/pages/HorariosProfesores.jsx:103 | Duplicate-free, exactly the groups of the teacher's sessions, in the order the sessions first show them. |
| TeacherView.WeeklyHours | frontend/src/pages/HorariosProfesores.jsx:187 | The hours shown are all sessions minus the other teachers'. |
| TeacherView.DayCounts | frontend/src/pages/HorariosProfesores.jsx:163-164 | Each day with a session maps to its number of sessions. |
| TeacherView.WithinTwoPerDay | frontend/src/pages/HorariosProfesores.jsx:162-166 | True exactly when no day has more than two of the teacher's sessions; true with none. |
| GroupView.Filtered | frontend/src/pages/Horarios.jsx:145-149 | Nothing without detail; everything without a selection; otherwise exactly the selected group's sessions. |
| GroupView.EachSessionInItsGroup | frontend/src/pages/Horarios.jsx:148 | Each session shows in its own group's view and in no other. |
| GroupView.FilteredAppend | frontend/src/pages/Horarios.jsx:148 | Filtering distributes over concatenation, so order is kept. |
| GroupView.CellIndex | frontend/src/pages/Horarios.jsx:217-221 | The occupied cells are exactly the sessions' cells, each holding the last session written to it. |
| GroupView.LastWins | frontend/src/pages/Horarios.jsx:217-221 | A session with no later session in its cell is what the cell shows. |
| GroupView.CreditList | frontend/src/pages/Horarios.jsx:284-289 | One entry per subject present, each with its session count, sorted by non-increasing count. |
| GroupView.SortedTallyFacts | frontend/src/pages/Horarios.jsx:288-289 | Any reordering of the tally keeps each entry's meaning. |
| GroupView.TallyEntries | frontend/src/pages/Horarios.jsx:284-288 | Each tally entry counts its subject's sessions and is positive, and a subject is listed exactly when a session has it. |
| GroupView.TallyTotal | frontend/src/pages/Horarios.jsx:284-288 | The tallied counts add up to the number of sessions. |
| GroupView.TotalPermutation | frontend/src/pages/Horarios.jsx:289-290 | Sorting does not change the total. |
| GroupView.CreditTotal | frontend/src/pages/Horarios.jsx:262-290 | The sidebar total equals the number of sessions shown as "Total de Sesiones". |
| Graph.KeyInjective | frontend/src/pages/GrafoValidacion.jsx:87-90 | Keys are equal exactly when kind and text are. |
| Graph.NodeFor | frontend/src/pages/GrafoValidacion.jsx:98-101 | Each session's node of a kind has that kind. |
| Graph.Makers | frontend/src/pages/GrafoValidacion.jsx:93-101 | A session contributes exactly four nodes, one of each kind, in lookup order. |
| Graph.LinksFor | frontend/src/pages/GrafoValidacion.jsx:104-109 | Three links from the course, plus teacher to group when shown, between the session's node ids. |
| Graph.AddNode | frontend/src/pages/GrafoValidacion.jsx:98 | An existing key leaves the nodes unchanged; a new one is appended. |
| Graph.AddNodeSpec | frontend/src/pages/GrafoValidacion.jsx:98-101 | Keys grow by the new key, stay distinct, and the old nodes stay in front. |
| Graph.AddNodesSpec | frontend/src/pages/GrafoValidacion.jsx:98-101 | Keys become the union; what is appended comes from the new nodes with unseen keys. |
| Graph.Build | frontend/src/pages/GrafoValidacion.jsx:83-112 | Distinct node keys, exactly the keys sessions make, each node from the first session making it; 3 or 4 links per session, all between existing nodes. |
| Graph.CountersCoverNodes | frontend/src/pages/GrafoValidacion.jsx:115-119 | The four kind counters add up to the number of nodes. |
| Graph.GraphStats | frontend/src/pages/GrafoValidacion.jsx:112-121 | The counters partition the nodes, the link counter is 3 or 4 per session, and no sessions draw nothing. |
| Graph.CourseIsNotTeacher | frontend/src/pages/GrafoValidacion.jsx:87-88 | A subject and a teacher with the same name are different nodes. |
| Graph.SameSubjectSameNode | frontend/src/pages/GrafoValidacion.jsx:93 | Course keys are equal exactly when subjects are. |
| Text.Lower | frontend/src/pages/HorariosProfesores.jsx:96 | Same length, each character lower-cased. |
| Text.Trim | frontend/src/pages/HorariosProfesores.jsx:96 | The slice of the input with only blanks before and after it, and no blank at either end. |
| Text.LowerIdempotent | frontend/src/pages/HorariosProfesores.jsx:96 | Lower-casing twice is lower-casing once. |
| Text.TrimIdempotent | frontend/src/pages/HorariosProfesores.jsx:96 | Trimming twice is trimming once. |
| Text.Contains | backend/actualizar_disponibilidad.py:341-342 | True exactly when the needle occurs at some position. |
| Text.Split | backend/api/main.py:124 | Separator-free pieces, one more than separators; splitting "" gives [""]. |
| Text.SplitJoin | backend/api/main.py:124 | Splitting undoes joining separator-free pieces. |
| Text.NatToString | backend/api/main.py:974 | Decimal digits, at least one, starting with "0" exactly for zero. |
| Text.ParseFormatRoundTrip | backend/api/main.py:88 | `int(str(i)) == i` for every integer. |
| Text.IntToStringInjective | backend/api/main.py:974 | Distinct integers have distinct texts. |
| Listing.Keep | frontend/src/pages/HorariosProfesores.jsx:100 | Exactly the elements passing the test, never longer. |
| Listing.KeepAppend | frontend/src/pages/HorariosProfesores.jsx:100 | Filtering distributes over concatenation. |
| Listing.Dedup | frontend/src/pages/HorariosProfesores.jsx:102 | Duplicate-free, with exactly the input's elements, in the order they are first seen. |
| Listing.DedupUnique | frontend/src/pages/HorariosProfesores.jsx:102 | Any duplicate-free list of the input's elements in first-seen order is the deduplicated list. |
| Listing.DedupIdempotent | frontend/src/pages/HorariosProfesores.jsx:102 | Taking the set twice changes nothing. |
| Sorting.Insert | backend/api/main.py:1022 | Inserting into a sorted list keeps it sorted and adds exactly the element. |
| Sorting.SortBy | backend/api/main.py:1022 | Ordered by key, a permutation of the input, elements with equal keys in input order. |

## Left out

- Generation.SchedulerTeachers: gives the scheduler every hour a row covers, the corrected reading, not the (day, start hour) keys of main.py:906; Generation.AsWrittenTeachers is the as-written reading, and Generation.AsWrittenAgrees shows the two coincide on one-hour rows.
- Generation.AvailabilityOfRecord: states the corrected covered-hours availability, which main.py:903-907 does not compute for rows longer than an hour.
- Generation.RowsCoverAvailability: holds of the corrected reading only; as written, only each row's start hour is available.
- Generation.Run: runs the scheduler on the corrected availability, so for rows longer than an hour (the CSV upload's 7–22 rows) its timetable can use hours the endpoint's cannot; on one-hour rows it is the endpoint's run.
- Database, HTTP and UI plumbing are not modelled: FastAPI routing, SQLAlchemy queries, commits, rollbacks, HTTP status codes, React state and effects, rendering, and force-graph painting. Stored rows, created groups (their ids come from the database) and room records are parameters.
- Printing, logging and the unused `random` import have no effect on results.
- The `try/except` blocks around each post-processing pass are left out. The passes are modelled as total.
- The passes' heuristics are parameters. These are the choice of the nearest candidate, the iteration bounds (3 and 60) and the order days are tried in. Each pass is modelled as its guarded move, applied to a requested sequence of moves, and any such sequence keeps the hard rules.
- Greedy.Qualified: a teacher that lists a subject id twice appears once, not twice. This does not change which teacher is chosen (the first best score, or the first placeable).
- Schedule.WeeklyHours: a missing weekly-hours value counts as 5. A stored null value, which the source would fail on, is not modelled.
- Text.ParseInt: accepts ASCII whitespace, an optional sign and ASCII digits. Python's `int()` also accepts underscores between digits and non-ASCII digits.
- Text.Lower: ASCII only. Non-ASCII letters are not case-folded, unlike Python's `lower()` and JavaScript's `toLowerCase()`.
- Text.Trim: strips ASCII blanks only, not every Unicode space.
- JavaScript number coercion is not modelled: NaN, `parseInt` of arbitrary text, and string-valued counts. Planner.Edit takes the parsed value as `Option<int>`.
- Endpoint.RequestedGroups: takes the requested value as `Option<int>`. It does not model the lookup under both string and integer keys, or a non-integer value.
- GroupView.CreditList: the tally is kept in first-seen order. JavaScript's `Object.entries` puts integer-like keys first; that order is not modelled.
- GroupView.CellIndex: the cell key is the pair (day, start hour), not the text `${dia}|${hora_inicio}`. The two are interchangeable for integer fields.
- Graph: node colours, the `val` sizes beyond the `size` field, and link colours and widths beyond the `thin` flag are not modelled.
- The CSV upload's subject lookup by name is not modelled. It is a database `ILIKE` query.
- The CSV upload's `nombre`, `email` and `numero` columns are not modelled. A `None` cell there also makes the row an error (`.strip()` on `None`), before any teacher is created; Upload.HoursMax models this error path for the hour column only.
- CSV, Excel and PDF export are file I/O and are not modelled.
- The optional `turno` field and the plan name are not modelled; they do not affect scheduling.
- Duplicate entries in the selected-terms request are not modelled. The page never sends them, and `Planner.ClickKeepsConsistent` keeps terms distinct.

## Findings

| source | as written | input that shows it | evidently intended | confidence | as-written member | corrected member |
|---|---|---|---|---|---|---|
| backend/api/main.py:903-907 | Availability for the scheduler is keyed by each row's (day, start hour) only, while the availability check counts `hora_fin - hora_inicio` | A teacher uploaded by CSV with days "0" is stored as the row (0, 7, 22). It passes the check with 15 hours, but the scheduler may use it only on Monday at 7 | Every hour a row covers is available; the comment at lines 904-905 assumes one-hour rows | medium, not executed | Endpoint.SpanRowSeenAtStartOnly | Endpoint.SchedulerTeacher |
