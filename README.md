# Goal-coach app core in Dafny

This project models the small pieces of logic inside a goal-tracking web app's UI handlers and its one server route:

- **The calendar page.** The page keeps a local list of events alongside the hosted `events` table:
  - saving an event from the dialog maps its fields to a stored row (start, end, all-day, type colour, recurrence default);
  - clicking an event splits its start and end back into dialog fields;
  - dragging, resizing and deleting update the local list by id;
  - archive and restore flip a row's `deleted` flag and then reload;
  - an event's text is split into a title and a description and then truncated for display.
- **The dashboard.** Toggling a task flips its completion. A one-shot guard fires the celebration when the list becomes all complete. The page also shows the completed count, the rounded progress percentage and each task's goal title.
- **The sign-in / sign-up form.** This covers the sign-up password rule, which is a regular expression, and the form state that the submit handler, the mode toggle and the "Back to Login" button change.
- **`POST /api/schedule/generate`.** The route validates the request body, then handles the reply of the language-model call. It tries the reply as JSON, falls back to the first "```json" fenced block, and maps each outcome to a status code.

The model makes remote calls into parameters:
- a store call's success is a `bool`;
- the rows a select returns are `Option<seq<...>>`;
- the identity provider's answer is an `Option<string>` error;
- the completion call is an `Upstream` value;
- `JSON.parse` (and `req.json()`) is a partial function `parse: string -> Option<JValue>`.

The hosted `events` table is the class `CalendarPage.EventsTable`, which holds a `seq` of rows. The UI is modelled by classes whose fields are the component's state variables.

Modules:
- `Options`: the optional-value type.
- `Seqs`: `filter` on sequences.
- `JsText`: `indexOf`, `split`, `slice` and `trim`.
- `CalendarEvents` and `CalendarPage`: the calendar page.
- `Dashboard`: `app/page.tsx`.
- `AuthForm`: `app/components/AuthWrapper.tsx`.
- `ScheduleGenerate`: the route.

Where the code and the documented intent differ, the model follows the code:
- Saving from the dialog of an existing event inserts a new row. The page has no update path.
- The click-to-edit values do not carry the recurrence, so the dialog reopens with "none".
- The completed count does not exclude tasks flagged deleted.
- `archiveEvent` does not look at the result of its update.
- A failed select of archived events empties the archived list, because the code defaults to `[]`. A failed load of active events keeps the old list instead.
- Nothing on the calendar page sets `showArchivedEvents`. The archive, restore and archived-list operations are modelled as the code defines them, even though that page does not wire them to its controls.

## Model

| member | source | states |
|---|---|---|
| JsText.IndexOf | app/calendar/page.tsx:812 | `indexOf`: -1 exactly when the character is absent, otherwise its first position |
| JsText.BeforeFirst | app/calendar/page.tsx:425 | `split(c)[0]` has no `c`; it is the whole string when there is no `c`, otherwise the string is it, then `c`, then the rest |
| JsText.SecondPiece | app/calendar/page.tsx:426-427 | `split(c)[1]` is the piece after the first `c`, up to the next `c` |
| JsText.SliceTo | app/calendar/page.tsx:426-427 | `slice(0, n)` is the prefix of length min(n, length) |
| JsText.Trim | app/api/schedule/generate/route.ts:47 | the trimmed string is the input with a run of leading and a run of trailing whitespace and line terminators removed, and it neither starts nor ends with one |
| JsText.TrimIdempotent | app/api/schedule/generate/route.ts:47 | trimming twice is trimming once |
| Seqs.FilterConcat | app/calendar/page.tsx:411 | filtering a concatenation is the concatenation of the filtered parts, so order is kept |
| Seqs.Filter | app/page.tsx:218-220 | `filter` keeps, in their order, the elements that pass: no more than the input, each kept element passes and comes from the input, and every passing element is kept; `Seqs.FilterConcat` and `Seqs.FilterKeepsAll` state the order and the no-drop cases |
| Seqs.FilterKeepsAll | app/page.tsx:218-220 | a filter drops nothing exactly when every element passes, and then it returns its input |
| CalendarEvents.TypeColor | app/calendar/page.tsx:343-348 | a colour exists exactly for the four types custom, birthday, meeting, task |
| CalendarEvents.TypeColorInjective | app/calendar/page.tsx:343-348 | no two types share a colour |
| CalendarEvents.StartTime | app/calendar/page.tsx:350 | the stored start string; its properties are stated by `CalendarEvents.StartSplitsBack` and `CalendarEvents.StoredEventShape` |
| CalendarEvents.EndTimeOf | app/calendar/page.tsx:351 | the stored end string or null; its properties are stated by `CalendarEvents.EndSplitsBack` and `CalendarEvents.StoredEventShape` |
| CalendarEvents.StoredRecurrence | app/calendar/page.tsx:364 | the stored recurrence is never empty; a non-empty choice is kept and an empty one becomes "none" |
| CalendarEvents.NewRow | app/calendar/page.tsx:355-365 | the inserted row; its fields are stated by `CalendarEvents.StoredEventShape` |
| CalendarEvents.NewLocalEvent | app/calendar/page.tsx:376-384 | the event appended after a save; `CalendarEvents.NewLocalEventIsLoadedRow` ties it to the inserted row |
| CalendarEvents.CanSave | app/calendar/page.tsx:169 | the save guard: a title and a date are both non-empty; `CalendarPage.Calendar.SubmitModal` applies it |
| CalendarEvents.StartSplitsBack | app/calendar/page.tsx:350-352 | the stored start contains a 'T' exactly when a time was given, and splitting it at 'T' gives back the date |
| CalendarEvents.EndSplitsBack | app/calendar/page.tsx:351 | the end is null exactly when the end time is empty; otherwise it splits back into the start's date |
| CalendarEvents.StoredEventShape | app/calendar/page.tsx:350-365 | the inserted row is all-day exactly when no time was given; its start is the date, plus "T" and the time when one is given; its end is null without an end time and otherwise the date, "T" and the end time; the colour follows the type and the recurrence defaults to "none"; the row is not deleted. For a date without 'T' the start and end also split back into the date |
| CalendarEvents.SelectedTimestampAsDate | app/calendar/page.tsx:332-352 | a dialog date holding a 'T', as a selection in the week or day view gives, yields a start that still holds a 'T' and no longer splits back into the date; without a time the row is still all-day |
| CalendarEvents.StoredEventExamples | app/calendar/page.tsx:350-365 | one save per event type (an all-day birthday, a timed meeting, an all-day custom event, a task with no end) produces the documented start, end, all-day flag, colour and recurrence |
| CalendarEvents.FormFor | app/calendar/page.tsx:30-46 | each dialog field shows its initial value when that is present and non-empty, and otherwise its default: empty for title, date, time and end time, "custom" for the type, "none" for the recurrence |
| CalendarEvents.OrElse | app/calendar/page.tsx:428 | `x || default` on an optional string: the value when present and non-empty, the default otherwise; `CalendarEvents.FormFor` and `CalendarEvents.EditInitial` state it per field |
| CalendarEvents.ClockPart | app/calendar/page.tsx:426 | the clock part of a timestamp has at most five characters and no 'T', and is empty for a string without 'T' |
| CalendarEvents.EditInitial | app/calendar/page.tsx:422-429 | the dialog values for a clicked event; `CalendarEvents.EditRoundTrip`, `CalendarEvents.AllDayClickHasNoTime` and `CalendarEvents.ClickOnWidgetTimestamp` state what they hold |
| CalendarEvents.AllDayClickHasNoTime | app/calendar/page.tsx:425-426 | clicking a start without 'T' opens the dialog with an empty time and the whole start as the date |
| CalendarEvents.ClockPartOfJoined | app/calendar/page.tsx:425-427 | the clock part taken from date + "T" + hh:mm is hh:mm, and it is empty when there is no time |
| CalendarEvents.ClickOnWidgetTimestamp | app/calendar/page.tsx:425-426 | a clicked start in the widget's format, the stored date and five-character clock followed by any tail without 'T', opens the dialog with that date and clock |
| CalendarEvents.EditRoundTrip | app/calendar/page.tsx:420-429 | saving the dialog's fields and clicking the new event reopens the dialog with the same id, title, date, time and end time, the type with its default, and the recurrence reset to "none" |
| CalendarEvents.SplitTitle | app/calendar/page.tsx:811-814 | with a colon after position 0, the title is the colon-free text before the first colon and the description is the trimmed rest; otherwise the title is the whole text and the description is empty |
| CalendarEvents.TruncateTitle | app/calendar/page.tsx:817 | the displayed title has at most 25 characters; a title of up to 25 is kept, and a longer one becomes its first 22 characters followed by "..." |
| CalendarEvents.RowsToEvents | app/calendar/page.tsx:313-321 | one local event per loaded row, in order, each carrying that row's fields |
| CalendarEvents.RowToEvent | app/calendar/page.tsx:313-321 | the event a loaded row becomes: id, title, start, end, all-day flag, colour and type copied from the row; `CalendarEvents.RowsToEvents` and `CalendarEvents.NewLocalEventIsLoadedRow` state its use |
| CalendarEvents.RowsToEventsConcat | app/calendar/page.tsx:313-321 | loading a concatenation of rows gives the concatenation of the loaded lists |
| CalendarEvents.NewLocalEventIsLoadedRow | app/calendar/page.tsx:355-384 | the event appended after a save equals the event a reload of the inserted row would produce |
| CalendarEvents.ActiveRows | app/calendar/page.tsx:301-305 | the rows with `deleted` false, in order; `CalendarEvents.ArchiveHidesRow` and `CalendarEvents.ArchiveMovesRow` state how archive and restore move rows |
| CalendarEvents.ArchivedRows | app/calendar/page.tsx:226-229 | the rows with `deleted` true, in order; `CalendarEvents.ArchiveMovesRow` states that an archived row is among them |
| CalendarEvents.SetDeleted | app/calendar/page.tsx:212-215 | setting the flag changes `deleted` on exactly the rows with that id and keeps length and order |
| CalendarEvents.UpdateRowTimes | app/calendar/page.tsx:438-444 | the update writes the new start and end to exactly the rows with that id |
| CalendarEvents.DeleteRows | app/calendar/page.tsx:399-402 | the rows without that id, in order; `CalendarEvents.DeleteKeepsSync` relates it to the local list |
| CalendarEvents.Reschedule | app/calendar/page.tsx:454-463 | the local map gives the new start and end to exactly the events with that id and keeps length and order |
| CalendarEvents.RescheduleTouchesOnlyMatching | app/calendar/page.tsx:454-463 | a drag or resize changes only start and end, only on matching events; an absent id changes nothing |
| CalendarEvents.RescheduleConcat | app/calendar/page.tsx:454-463 | rescheduling distributes over concatenation |
| CalendarEvents.RemoveEvent | app/calendar/page.tsx:411 | the events without that id; `CalendarEvents.RemoveEventKeepsOthers` states what it keeps |
| CalendarEvents.RemoveEventKeepsOthers | app/calendar/page.tsx:411 | a delete keeps, in order, exactly the events with another id; an absent id changes nothing |
| CalendarEvents.SetDeletedLastWins | app/calendar/page.tsx:211-250 | flagging twice leaves the last flag |
| CalendarEvents.ArchiveThenRestore | app/calendar/page.tsx:211-250 | archive then restore leaves rows with that id active and every other row untouched; rows that were active get their original flag back |
| CalendarEvents.ArchiveHidesRow | app/calendar/page.tsx:211-218 | the active rows after an archive are the earlier active rows without that id, in order |
| CalendarEvents.ArchiveMovesRow | app/calendar/page.tsx:224-256 | after an archive, each row with that id is among the archived rows; after a restore, among the active rows |
| CalendarEvents.SaveKeepsSync | app/calendar/page.tsx:355-386 | appending the new event to the loaded list equals reloading after the insert, up to the start-time order the reload applies and the model leaves out |
| CalendarEvents.RescheduleKeepsSync | app/calendar/page.tsx:438-464 | mapping the new times over the loaded list equals reloading after the update, up to the start-time order the reload applies and the model leaves out |
| CalendarEvents.DeleteKeepsSync | app/calendar/page.tsx:396-418 | filtering the loaded list by id equals reloading after a delete, and after an archive, in the model's row order |
| CalendarEvents.FilterOfLoaded | app/calendar/page.tsx:313-321 | filtering rows by id and then loading them equals loading them and then filtering the events by id |
| CalendarPage.EventsTable.constructor | app/calendar/page.tsx:301-305 | the table holds the given rows |
| CalendarPage.EventsTable.Insert | app/calendar/page.tsx:355-367 | the insert appends the row |
| CalendarPage.EventsTable.UpdateTimes | app/calendar/page.tsx:438-444 | the update writes the new times to the rows with that id |
| CalendarPage.EventsTable.SetDeletedFlag | app/calendar/page.tsx:212-215 | the update sets `deleted` on the rows with that id |
| CalendarPage.EventsTable.Delete | app/calendar/page.tsx:399-402 | the delete removes the rows with that id |
| CalendarPage.Calendar.constructor | app/calendar/page.tsx:203-222 | empty lists, not loading, the dialog closed with no initial values |
| CalendarPage.Calendar.LoadEvents | app/calendar/page.tsx:297-330 | on success the list becomes the loaded active rows, so it matches the table; on an error it is kept; loading ends |
| CalendarPage.Calendar.LoadArchived | app/calendar/page.tsx:224-243 | the archived list becomes the loaded archived rows, or empty when the select fails |
| CalendarPage.Calendar.OpenNewEvent | app/calendar/page.tsx:536-538 | the "Add Event" button opens an empty dialog |
| CalendarPage.Calendar.HandleDateSelect | app/calendar/page.tsx:332-335 | selecting a date opens the dialog preset with only that date |
| CalendarPage.Calendar.HandleEventClick | app/calendar/page.tsx:420-431 | clicking an event opens the dialog preset with the event split into its fields |
| CalendarPage.Calendar.CloseModal | app/calendar/page.tsx:836 | closing the dialog |
| CalendarPage.Calendar.HandleSaveEvent | app/calendar/page.tsx:337-394 | after a successful insert, the row is appended to the table and one event at the end of the list, with earlier events unchanged; after an insert error, table and list are unchanged; the dialog closes and loading ends; the list stays in step with the table, in the table's row order rather than by start time |
| CalendarPage.Calendar.SubmitModal | app/calendar/page.tsx:168-171 | without a title and a date nothing changes; otherwise the save happens |
| CalendarPage.Calendar.HandleDeleteEvent | app/calendar/page.tsx:396-418 | after a successful delete, the rows and the events with that id are removed, the others stay in order, and the dialog closes; after an error nothing changes; the list stays in step with the table |
| CalendarPage.Calendar.ConfirmDelete | app/calendar/page.tsx:147-154 | the Delete button acts only for an opened event with an id, and only once the user confirms |
| CalendarPage.Calendar.RescheduleEvent | app/calendar/page.tsx:433-509 | after a successful drop or resize, only the matching rows and events get the new times; after a failure the list is replaced by a reload, or kept if that fails too; the list stays in step with the table, in the table's row order rather than by start time |
| CalendarPage.Calendar.ArchiveEvent | app/calendar/page.tsx:211-218 | the rows with that id are flagged deleted and the list is reloaded; after both succeed, no event with that id remains |
| CalendarPage.Calendar.RestoreEvent | app/calendar/page.tsx:246-270 | the rows with that id are flagged not deleted, then the archived list and the active list are read again |
| CalendarPage.ArchiveThenRestoreEvent | app/calendar/page.tsx:211-270 | archive followed by restore gives the table restore alone would give, gives every previously active row back, and leaves the list in step with the table |
| Dashboard.Toggle | app/page.tsx:214-216 | a toggle flips `completed` on exactly the tasks with that id and keeps length and order |
| Dashboard.ToggleTwice | app/page.tsx:214-216 | toggling the same id twice restores the list |
| Dashboard.ToggleAbsentOrCompletedOnly | app/page.tsx:214-216 | toggling an absent id changes nothing, and a toggle changes nothing but `completed` |
| Dashboard.CompletedCount | app/page.tsx:234 | the completed count is at most the number of tasks |
| Dashboard.AllCompleted | app/page.tsx:218 | every task is completed (true of no tasks); `Dashboard.WasNotCompleteIff` relates it to the completed count |
| Dashboard.WasNotComplete | app/page.tsx:220 | `wasNotComplete`: fewer completed tasks than tasks; `Dashboard.WasNotCompleteIff` states that this holds exactly when not every task is complete |
| Dashboard.WasNotCompleteIff | app/page.tsx:218-220 | `wasNotComplete` means "not every task is complete", and all are complete exactly when the count equals the length |
| Dashboard.ProgressPercent | app/page.tsx:235 | progress is 0 with no tasks and otherwise the integer nearest to 100 c / n, halves rounded up |
| Dashboard.ProgressBounds | app/page.tsx:235 | progress lies in 0..100; it is 0 for no tasks and 100 for a non-empty all-complete list; with fewer than 200 tasks it is below 100 while a task is open |
| Dashboard.ProgressFullIffAllComplete | app/page.tsx:235 | with fewer than 200 tasks, progress is 100 exactly when the list is non-empty and all complete |
| Dashboard.FullBannerWithIncompleteTask | app/page.tsx:235 | with 200 or more tasks of which one is open, progress still rounds to 100 and the banner shows |
| Dashboard.ShowsAllCompleteBannerIff | app/page.tsx:327 | the corrected banner shows exactly when the list is non-empty and all complete, and then progress is 100 |
| Dashboard.ShouldCelebrate | app/page.tsx:222 | the celebration condition; `Dashboard.CelebrationOnlyOnTransition` and `Dashboard.CelebratesExactlyOnEntry` state when it holds |
| Dashboard.NextShown | app/page.tsx:222-229 | the guard after a toggle; `Dashboard.GuardFollowsAggregate` states how it follows the list |
| Dashboard.CelebrationOnlyOnTransition | app/page.tsx:218-225 | the celebration fires only when the new list is all complete, the old one was not, and the guard was unset; it then sets the guard; an empty old list never fires it |
| Dashboard.GuardFollowsAggregate | app/page.tsx:222-229 | the guard is cleared whenever the new list is not all complete, is set only on an all-complete list, and while set suppresses the celebration |
| Dashboard.CelebratesExactlyOnEntry | app/page.tsx:218-229 | when the guard is set only on all-complete lists, the celebration fires exactly on a step from "not all complete" to "all complete" |
| Dashboard.FirstGoalWithId | app/page.tsx:314 | the position of the first goal with that id, or -1 exactly when there is none |
| Dashboard.GoalTitleFor | app/page.tsx:314 | the title is that of the first goal whose id equals the task's goal id, or nothing exactly when no goal has it |
| Dashboard.DashboardState.constructor | app/page.tsx:93-94 | no goals, no tasks, the guard unset |
| Dashboard.DashboardState.LoadUserData | app/page.tsx:137-151 | goals and tasks become the loaded rows, or empty lists when none came back |
| Dashboard.DashboardState.ToggleTask | app/page.tsx:212-232 | the tasks are toggled; the celebration and the new guard follow the transition rule; the guard stays consistent with the list, so the celebration fires exactly on entry into "all complete" |
| Dashboard.DashboardState.Progress | app/page.tsx:234-235 | the shown progress lies in 0..100 and is 0 with no tasks |
| AuthForm.DotsToEndIff | app/components/AuthWrapper.tsx:8 | `.{n,}$` from the start matches exactly n or more characters and no line terminators |
| AuthForm.DotsToEnd | app/components/AuthWrapper.tsx:8 | `.{n,}$` matched from the start of the password; `AuthForm.DotsToEndIff` states that it holds exactly for n or more characters and no line terminators |
| AuthForm.DotStarThen | app/components/AuthWrapper.tsx:8 | the lookahead `(?=.*[cls])` at the start of the password; `AuthForm.DotStarThenIff` states that it holds exactly when a class character comes before any line terminator |
| AuthForm.IsUpper | app/components/AuthWrapper.tsx:8 | the class `[A-Z]`; `AuthForm.RefusedWithoutCapital` states that a password without one is refused |
| AuthForm.IsDigit | app/components/AuthWrapper.tsx:8 | the class `\d`, the ASCII digits 0-9; `AuthForm.PasswordRequirementsIff` states the digit requirement with it |
| AuthForm.IsSymbol | app/components/AuthWrapper.tsx:8 | the 30 characters of the symbol class; `AuthForm.OtherSymbolsDoNotCount` states that others do not count |
| AuthForm.DotStarThenIff | app/components/AuthWrapper.tsx:8 | on a string without line terminators, the lookahead `.*[cls]` holds exactly when some character is in the class |
| AuthForm.PasswordRequirementsTest | app/components/AuthWrapper.tsx:8 | the regular expression; `AuthForm.PasswordRequirementsIff` states what it accepts |
| AuthForm.PasswordRequirementsIff | app/components/AuthWrapper.tsx:8 | the regular expression accepts exactly the passwords with 8 or more characters, no line terminator, an A-Z letter, a digit and a listed symbol |
| AuthForm.OtherSymbolsDoNotCount | app/components/AuthWrapper.tsx:8 | '~' and '`' do not satisfy the symbol requirement |
| AuthForm.AcceptedExample | app/components/AuthWrapper.tsx:8 | "Password1!" satisfies the rule |
| AuthForm.RefusedWithoutCapital | app/components/AuthWrapper.tsx:8 | "password1!" does not satisfy the rule |
| AuthForm.AuthPage.constructor | app/components/AuthWrapper.tsx:10-16 | empty fields, sign-in mode, not loading, no message, no account created |
| AuthForm.AuthPage.HandleAuth | app/components/AuthWrapper.tsx:18-52 | a sign-up password failing the rule sets the requirement message and makes no call; otherwise sign-up or sign-in is called (sign-in never checks the rule); a successful sign-up sets `accountCreated`; an error becomes the message; loading ends |
| AuthForm.AuthPage.ToggleMode | app/components/AuthWrapper.tsx:178-181 | the link flips the mode and clears the message |
| AuthForm.AuthPage.BackToLogin | app/components/AuthWrapper.tsx:61-68 | "Back to Login" returns to sign-in mode with no account-created screen and empty email, password, username and message |
| ScheduleGenerate.FindFrom | app/api/schedule/generate/route.ts:53 | the first occurrence of the pattern at or after the given position, or none exactly when there is no later occurrence |
| ScheduleGenerate.ExtractFenced | app/api/schedule/generate/route.ts:53 | the group of the fenced-block match; `ScheduleGenerate.ExtractFencedIsFirstLazyMatch` states that it is the regular expression's match |
| ScheduleGenerate.Truthy | app/api/schedule/generate/route.ts:13 | JavaScript truthiness of a property: undefined, null, false, 0 and "" are falsy |
| ScheduleGenerate.MissingInput | app/api/schedule/generate/route.ts:13 | the 400 condition; `ScheduleGenerate.BadInputIs400` states that it decides the 400 |
| ScheduleGenerate.Property | app/api/schedule/generate/route.ts:11 | `const { user, goals } = body`: an object's own field, `undefined` for a missing field and for a body that is not an object; `ScheduleGenerate.NonObjectBodyIs400` states the non-object case |
| ScheduleGenerate.IsArray | app/api/schedule/generate/route.ts:13 | `Array.isArray(goals)`: a present array value; `ScheduleGenerate.BadInputIs400` states that a non-array `goals` gives 400 |
| ScheduleGenerate.NonObjectBodyIs400 | app/api/schedule/generate/route.ts:11-15 | a parsed body that is neither an object nor null (an array, a string, a number, a boolean) yields no `user` and no `goals`, so it gets 400 |
| ScheduleGenerate.ReplyText | app/api/schedule/generate/route.ts:47 | the trimmed reply text, empty for a null content; `ScheduleGenerate.ValidBodyReachesReply` states that it decides the response |
| ScheduleGenerate.ExtractFencedIsFirstLazyMatch | app/api/schedule/generate/route.ts:53-54 | the extraction finds no block exactly when the fence pattern matches nowhere; otherwise it returns the group of the leftmost match, ended at the nearest closing fence, with at least one character |
| ScheduleGenerate.SingleBlockExtract | app/api/schedule/generate/route.ts:53-55 | a reply made of one fenced block with backtick-free, non-empty content yields exactly that content |
| ScheduleGenerate.FencedExampleExtract | app/api/schedule/generate/route.ts:53-55 | a reply made of one fenced block yields the JSON between the fences |
| ScheduleGenerate.ScheduleFromReply | app/api/schedule/generate/route.ts:47-61 | the reply gives status 200 exactly when a schedule is returned, and 500 otherwise |
| ScheduleGenerate.Post | app/api/schedule/generate/route.ts:8-65 | every response is 200, 400 or 500, and it is 200 exactly when it carries a schedule |
| ScheduleGenerate.BadInputIs400 | app/api/schedule/generate/route.ts:13-15 | for a parsed, non-null body, the response is 400 "Missing user or goals" exactly when `user` or `goals` is missing or falsy or `goals` is not an array |
| ScheduleGenerate.UnreadableBodyIs500 | app/api/schedule/generate/route.ts:9-11 | a request body that is not JSON, or is `null`, gets 500 "Failed to generate schedule" |
| ScheduleGenerate.EmptyObjectIs400 | app/api/schedule/generate/route.ts:13-15 | the body `{}` gets 400 |
| ScheduleGenerate.RejectionIgnoresUpstream | app/api/schedule/generate/route.ts:13-37 | a 400 is decided before the completion call: it is the same whatever that call would return |
| ScheduleGenerate.ValidBodyReachesReply | app/api/schedule/generate/route.ts:37-47 | for a valid body the response is decided by the trimmed reply text alone, and a throwing completion call gives 500 "Failed to generate schedule" |
| ScheduleGenerate.ReplyOutcomes | app/api/schedule/generate/route.ts:48-61 | a reply that parses gives 200 with it; otherwise no fenced block gives 500 "Failed to parse schedule from GPT-4o."; a fenced block gives 200 with its parse, or 500 "Failed to generate schedule" when it does not parse |
| ScheduleGenerate.FencedExample | app/api/schedule/generate/route.ts:47-61 | a reply holding just a fenced block that parses gives 200 with that schedule |

## Left out

- Calls to the hosted table store, the identity provider and the language model are left out. Each one becomes a parameter giving its outcome.
- The store's `order('start_time', ...)` is left out. The loaded list keeps the table's row order. So "in step with the table" (`CalendarPage.Calendar.InSync`, and the sync lemmas and methods built on it) means equal to a reload in row order. In the app a reload re-sorts by start time, so an appended event, or one moved to a new time, can sit at another position in the reloaded list than in the local one; the set and the contents of the events agree, the order may not.
- CalendarEvents.SaveKeepsSync and CalendarEvents.RescheduleKeepsSync state equality with a reload in the table's row order, not in the start-time order the app's reload uses; a delete or an archive keeps the relative order of the remaining events, so `CalendarEvents.DeleteKeepsSync` is not affected.
- Rendering is left out: styling, the calendar widget's configuration, the CSS blocks, the confetti bursts and their timers, and the TaskCard swipe threshold.
- The presentational components (DashboardView, GoalCard, GoalsView, AiCoachView, AiMessageCard, AnimatedBackground) only render their props. They are not part of this model.
- `app/auth/callback/route.ts`, `app/login/page.tsx` and `app/signup/page.tsx` are not part of this model. They are thin wrappers over the identity provider.
- AuthWrapper's session lookup, its auth-state subscription and its sign-out button are left out. They are calls into the identity provider.
- The calendar page's connection check is left out. It is a store call whose only effect is a status label and the first load.
- Prompt construction with `JSON.stringify` and real JSON parsing are left out. Parsing is the parameter `parse`.
- The route reads the reply at `choices[0]`, which throws when `choices` is empty. The model does not represent that case separately: `UpstreamThrew` stands for any throw before or during the reply access.
- Dashboard.ProgressPercent is not stated in floating point. It is integer round-half-up, `(200c + n) / (2n)`, and may differ from `Math.round(c / n * 100)` where the floating-point product lands next to a half.
- CalendarEvents.TruncateTitle and JsText.SliceTo count Unicode scalar values. JavaScript counts UTF-16 code units, so the two differ on characters outside the Basic Multilingual Plane.
- The browser's own form checks (`required`, `minLength`, `type="email"`) are left out. Only the handlers' checks are modelled.
- React's stale closures are left out. Each handler reads the page's current state, not the state captured at render time, so overlapping calls (two saves in flight at once) are not modelled.
- The calendar widget's formatting of `startStr`/`endStr` is left out. A drop, a resize or a date selection passes the widget's strings through as given. A click is modelled on the event's stored strings; `CalendarEvents.ClickOnWidgetTimestamp` covers the widget adding seconds or an offset after the clock time.
- CalendarEvents.StartSplitsBack, CalendarEvents.EndSplitsBack, CalendarEvents.ClockPartOfJoined and CalendarEvents.EditRoundTrip hold only for a dialog date without 'T'. The page does not guarantee that. In the week and day views it enables, a selection's `startStr` is a full timestamp such as `2024-01-10T09:00:00-05:00`, which becomes the dialog date. `CalendarEvents.SelectedTimestampAsDate` shows what saving such a date stores.
- CalendarEvents.StoredEventShape states its split-back facts, and only those, under the same condition of a date without 'T'.
- CalendarEvents.NewRow takes the inserted row to read back as not deleted. The insert sends no `deleted` column, so this relies on the table's default for that column. `CalendarEvents.SaveKeepsSync` and the list-matches-table clause of `CalendarPage.Calendar.HandleSaveEvent` depend on it.
- AuthForm.PasswordRequirementsIff counts the 8 characters as Unicode scalar values. The regular expression has no `u` flag, so `.{8,}` counts UTF-16 code units. A password with a character outside the Basic Multilingual Plane, such as `Ab1!😀cd` (7 scalar values, 8 code units), is accepted by the page and refused by the model.
- The `alert(...)` messages shown after failed saves and deletes, and all console logging, are left out. They are user notifications with no effect on the modelled state.

## Findings

| source | as written | input that shows it | evidently intended | confidence | as-written member | corrected member |
|---|---|---|---|---|---|---|
| app/page.tsx:327 | The "All tasks completed!" banner and the 100% label test `progressPercent === 100`, where the percentage is rounded. | 400 tasks with 399 completed: 99.75 rounds to 100, so the banner shows with a task still open (any 200 or more tasks with one open, in exact arithmetic). | Show the banner exactly when there are tasks and every one is completed. | not executed | Dashboard.FullBannerWithIncompleteTask | Dashboard.ShowsAllCompleteBannerIff |
