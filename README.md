# HealthTracker core, modelled in Dafny

HealthTracker is a single-page personal health log. Users define **trackers**
(templates that combine field kinds such as a 1–5 rating, a number, a
duration, a yes/no answer or free text). They record **entries** against
those trackers and keep a **medication** schedule with a daily "taken"
checklist. All state lives in a per-user document store and streams back to
the client.

This project models the client-side logic of `src/App.jsx` that turns that
state into what the user sees and edits:

- `wrappers.dfy` (`Wrappers`): an `Option` type whose `None` stands for a
  JavaScript property that is `undefined`, or a lookup that finds nothing.
- `trackers.dfy` (`Trackers`): tracker definitions and the "effective types"
  fallback for legacy trackers. Also the tracker builder's field-kind toggle,
  its save validation, and the lookup of an entry's tracker with its
  "Unknown Tracker"/"Unknown" fallback labels.
- `entries.dfy` (`Entries`): the entry record and the two descriptions of an
  entry, the dashboard's `getSummary` and the history table's `getDetails`.
  These are imperative methods, proved equal to one ordered specification
  under JavaScript truthiness.
- `sync.dfy` (`Sync`): the entries subscription. It re-sorts every snapshot
  newest first, in place, in an array.
- `medications.dfy` (`Medications`): today's dose list (filter active, expand
  per time, mark taken, stable sort by time), the medication form's
  time-slot edits, and medication save.
- `medlogs.dfy` (`MedicationLogs`): the medication-log collection as a class,
  and the "taken" toggle that deletes today's log of a dose or adds one.
- `weekly.dfy` (`Weekly`): the weekly report. It keeps the last week's
  entries and reduces each to one reading by field priority. A loop over
  those entries adds each reading to its tracker's group in a map keyed by
  tracker id. Each group is then summarised
  as an average, a weekly total or an occurrence count.

Clock times (`HH:MM`) are minutes since midnight. The zero-padded strings the
code compares with `localeCompare` order the same way the numbers do. Dates
are integers (day numbers for logs, timestamps for entries).

Behaviours of the code that a reader might not expect, modelled as written:

- The weekly window (`src/App.jsx:371-373`) has only a lower bound, so an
  entry dated in the future is counted in the week.
- `getSummary`/`getDetails` test numeric fields for truthiness, so a present
  rating or number equal to 0 is not shown (`Entries.PresentButFalsyHidden`).
  A present `boolean` of `false` is shown as "No".
- A weekly group takes its kind from its first reading only, and later
  readings of other kinds are added to it unchanged. A yes/no tracker
  with a number-only entry can therefore show more occurrences than answers
  (`Weekly.MixedYesNoOvercounts`: 6 out of 2). A rating group with a numeric
  reading can show an average off the scale, so the progress bar overflows
  (`Weekly.MixedScaleOffScale`).

## Model

| member | source | states |
|---|---|---|
| Trackers.EffectiveTypes | src/App.jsx:690 | the result is empty only for a tracker stored with an empty list (an empty JavaScript array is truthy); for a legacy tracker, and for any tracker whose list is headed by its `dataType`, it is non-empty and headed by `dataType`, so both kinds of reader agree |
| Trackers.Without | src/App.jsx:631 | the filter keeps exactly the kinds other than `k`, never grows, and is the identity when `k` is absent |
| Trackers.ToggleTrackerType | src/App.jsx:629-634 | `k` is selected afterwards iff it was not before; every other kind keeps its selection state; an unselected kind is appended at the end, a selected one filtered out; the first kind, which becomes `dataType` on save, changes only when it is the toggled one |
| Trackers.ToggleKeepsOthers | src/App.jsx:631 | toggling `k` leaves the list of the other kinds, in order, unchanged |
| Trackers.ToggleTwiceFromAbsent | src/App.jsx:631 | selecting and then deselecting an unselected kind restores the list exactly |
| Trackers.ToggleKeepsDistinct | src/App.jsx:631 | a selection without duplicates stays without duplicates |
| Trackers.SaveTracker | src/App.jsx:610-618 | a write happens iff signed in with a non-empty name and type list; the checks fire in that order; the record copies name and types and takes `dataType` from the first type |
| Trackers.SavedTrackerTypes | src/App.jsx:615-617 | a saved tracker's effective types are the form's types, non-empty, headed by its `dataType`, so legacy and new readers agree |
| Trackers.ResolveTracker | src/App.jsx:300 | `None` iff no tracker has the id; otherwise the first tracker with that id |
| Trackers.TrackerLabel | src/App.jsx:322 | an orphaned entry shows the fallback label; otherwise the name of a tracker with that id |
| Trackers.DeleteTracker | src/App.jsx:624-627 | after deletion exactly the trackers with other ids remain |
| Trackers.OrphanLabels | src/App.jsx:322 | an entry whose tracker is gone is labelled "Unknown Tracker" on the dashboard and "Unknown" in the history table (line 487) |
| Trackers.ResolveRoundTrip | src/App.jsx:300-322 | with distinct ids a stored tracker resolves to itself and its name; after its deletion the same id resolves to nothing and shows the fallback |
| Entries.DescribeCorrect | src/App.jsx:304-315 | each view's description is in the view's fragment order and contains exactly the fragments the truthiness rules let show |
| Entries.DescribeEmpty | src/App.jsx:304-315 | a description is empty iff no typed field shows, the legacy value is falsy and the notes are empty or absent |
| Entries.PresentButFalsyHidden | src/App.jsx:307 | a present rating of 0 is not described |
| Entries.TypedParts | src/App.jsx:306-311 | the six typed-field checks produce the first six ranks of `Describe`; they produce nothing iff no typed field shows |
| Entries.Summary | src/App.jsx:304-315 | `getSummary` builds the dashboard description: ordered, and a fragment appears iff the dashboard rules show it (legacy value before notes) |
| Entries.Details | src/App.jsx:464-475 | `getDetails` builds the history description: ordered, and a fragment appears iff the history rules show it (notes before legacy value) |
| Sync.SortNewestFirst | src/App.jsx:599 | the array ends newest first and is a permutation of what it held |
| Sync.InsertNewest | src/App.jsx:599 | one insertion step extends the newest-first prefix by one, permutes that prefix and leaves every later entry in place |
| Sync.SinkNewest | src/App.jsx:599 | the insertion loop leaves the first `i + 1` entries newest first, permutes the array and does not touch the entries after `i` |
| Sync.PublishEntries | src/App.jsx:597-600 | the published list is newest first and holds exactly the snapshot's documents |
| Medications.TodaysMeds | src/App.jsx:232-236 | today's list is ordered by time and holds exactly the expanded doses (with the three TodaysMeds lemmas below) |
| Medications.Expand | src/App.jsx:233-234 | every expanded dose belongs to an active listed medication |
| Medications.InsertByTime | src/App.jsx:235 | one insertion step adds exactly the inserted dose |
| Medications.SortByTime | src/App.jsx:235 | the sort keeps exactly the doses it was given (order and stability: SortOrders, SortStable) |
| Medications.DosesOf | src/App.jsx:234 | one dose per scheduled time, in order, marked taken iff a log of that medication at that time exists today |
| Medications.SortOrders | src/App.jsx:235 | the sort orders doses by time and is a permutation |
| Medications.SortStable | src/App.jsx:235 | the sort is stable: doses due at the same time keep their relative order |
| Medications.SortKeepsCounts | src/App.jsx:235 | the sort keeps the number of doses of each medication |
| Medications.ExpandMembers | src/App.jsx:233-234 | every expanded dose comes from an active listed medication at one of its times, marked as the logs say |
| Medications.ExpandCount | src/App.jsx:233-234 | expansion yields, for each medication, as many doses as it has times for every active listing of it (its scheduled count) |
| Medications.TodaysMedsDoses | src/App.jsx:232-236 | every listed dose belongs to an active medication at one of its times, taken iff logged today |
| Medications.TodaysMedsCount | src/App.jsx:232-236 | an inactive medication lists nothing; an active one lists as many doses as it has scheduled times, for each listing of it |
| Medications.TodaysMedsPerTime | src/App.jsx:232-236 | for every medication and time, today's list holds that medication's dose at that time once per listing and per occurrence of the time in its schedule (none if inactive), so every scheduled time gets its own dose and a duplicated time gives duplicated doses |
| Medications.ExpandPerTime | src/App.jsx:233-234 | the same count for the unsorted expansion |
| Medications.TodaysMedsOrder | src/App.jsx:235 | the list is by time of day, and doses at the same time keep the order of their medications |
| Medications.MorningTakenEveningDue | src/App.jsx:232-236 | a medication taken at 08:00 and due at 20:00 lists the morning dose taken and the evening dose due |
| Medications.WithoutIndex | src/App.jsx:831 | removing slot `i` drops exactly that slot and shifts the rest; an index past the end changes nothing |
| Medications.ApplyEdit | src/App.jsx:830-834 | a time input overwrites only its own slot; remove drops exactly slot `i` and keeps the others in order; add appends a `12:00` slot after the others |
| Medications.ApplyEdits | src/App.jsx:830-834 | each edit changes the slot count by at most one |
| Medications.EditsKeepTimes | src/App.jsx:828-834 | the form's offered edits never empty a non-empty time list, because slot 0 has no remove button |
| Medications.FormHasTimes | src/App.jsx:569 | a form built by offered edits from the fresh `['08:00']` schedule keeps at least one time |
| Medications.SavedMedicationScheduled | src/App.jsx:666-670 | saving while signed in writes an active medication, and one saved from a form built by offered edits appears in today's list once per form time, at least once |
| MedicationLogs.FindLog | src/App.jsx:680 | `None` iff the dose is not logged; otherwise the index of its first log |
| MedicationLogs.ApplyToggle | src/App.jsx:680-685 | toggling a logged dose shrinks the collection; toggling an unlogged one keeps every log and appends one `taken` log of that dose |
| MedicationLogs.RemoveIdShrinks | src/App.jsx:682 | deleting an id in use removes at least one log |
| MedicationLogs.RemoveUniqueId | src/App.jsx:682 | deleting a unique id removes exactly that log and keeps the others in order |
| MedicationLogs.ToggleEffect | src/App.jsx:677-686 | toggling a logged dose deletes exactly its first log; toggling an unlogged dose appends one `taken` log under the fresh id |
| MedicationLogs.ToggleKeepsOtherDoses | src/App.jsx:680-685 | the logs of every other dose are unchanged |
| MedicationLogs.ToggleFlips | src/App.jsx:680-685 | with at most one log per dose, the toggle flips whether the dose is logged and keeps one log per dose |
| MedicationLogs.ToggleKeepsIds | src/App.jsx:682-684 | log ids stay unique and below the next fresh id |
| MedicationLogs.ToggleTwice | src/App.jsx:680-685 | taking an untaken dose and undoing it restores the collection |
| MedicationLogs.ToggleThrice | src/App.jsx:680-685 | three presses give the same collection as one press, up to the new log's id |
| MedicationLogs.ToggleFlipsDose | src/App.jsx:680-685 | after a toggle, today's list shows the pressed dose with its mark flipped |
| MedicationLogs.LogStore.constructor | src/App.jsx:557 | the collection starts empty with valid ids |
| MedicationLogs.LogStore.Toggle | src/App.jsx:677-686 | signed out nothing changes; signed in the logs become the toggle's result, the id counter advances only on an add, ids stay valid, and the dose's logged state flips |
| Weekly.WeeklyEntries | src/App.jsx:371-373 | exactly the entries dated no earlier than a week ago, with no upper bound; a single entry is kept iff it is that recent |
| Weekly.WeeklyEntriesAppend | src/App.jsx:373 | the filter distributes over concatenation, so the kept entries keep their order and duplicates |
| Weekly.Classify | src/App.jsx:380-390 | the first present field of scale5, scale10, number, duration, boolean, legacy value gives the reading, each case stated with its kind and value; booleans (typed or legacy) read as 1 or 0, legacy text through `Number`; no reading iff none is present or the legacy text is not a number |
| Weekly.Readings | src/App.jsx:378-395 | a tracker's readings are at most its entries, and none when no entry belongs to it |
| Weekly.GroupShape | src/App.jsx:375-398 | a group holds its tracker and one value per reading, and has a kind iff it has values |
| Weekly.LastWithId | src/App.jsx:377 | the last tracker with the id, the one whose group survives; `None` iff none has it |
| Weekly.ExtendKeepsFirstKind | src/App.jsx:391-394 | pushing readings one after another appends their values in order; a group's kind, once set, never changes, and otherwise the first pushed reading sets it |
| Weekly.GroupIsPushedReadings | src/App.jsx:391-394 | a tracker's group is the empty group with its week's readings pushed in entry order |
| Weekly.GroupOfStep | src/App.jsx:378-395 | one more entry extends its own tracker's group by its reading and leaves every other group unchanged |
| Weekly.EmptyGroups | src/App.jsx:377 | one empty group per tracker id, holding the last tracker with that id |
| Weekly.AddEntry | src/App.jsx:379-395 | an entry with a reading extends its tracker's group when that tracker exists; nothing else changes |
| Weekly.GroupWeekly | src/App.jsx:375-398 | a group exists iff a tracker has the id, and each group holds the readings of that tracker's entries of the week, in order, with the first reading's kind |
| Weekly.Statistic | src/App.jsx:405-438 | no card without readings; rating scales show the average against 5 or 10, yes/no trackers the count of yes out of all, the rest the total and total/7 |
| Weekly.SumBounds | src/App.jsx:407-408 | values between `lo` and `hi` give a sum between `n*lo` and `n*hi` |
| Weekly.AverageOnScale | src/App.jsx:417-423 | when every value of a rating group lies on the scale, its average lies on the scale too |
| Weekly.ReadingsBits | src/App.jsx:386 | yes/no readings are 1 or 0 |
| Weekly.OccurrencesAtMostAnswers | src/App.jsx:433-438 | when every reading of a group is yes/no, it reports between 0 and as many occurrences as answers |
| Weekly.MixedYesNoOvercounts | src/App.jsx:391-394 | as written, a yes-answer followed by a number-only entry of 5 gives 6 occurrences out of 2 answers |
| Weekly.MixedScaleOffScale | src/App.jsx:416-423 | as written, a rating of 4 followed by a number-only entry of 50 gives an average of 27 against a maximum of 5 |
| Weekly.OtherEntriesIgnored | src/App.jsx:379 | entries of other or deleted trackers leave a group unchanged |
| Weekly.SingleRatingAverage | src/App.jsx:405-423 | one rating of 4 on a 1–5 tracker averages 4 out of 5 |
| Weekly.NumericLegacyText | src/App.jsx:387-389 | legacy text that reads as a number counts as a legacy number |

## Left out

- The document store, authentication and subscriptions are not modelled. Writes are functions from the old collection to the new one, and store-assigned ids are parameters (tracker and medication ids) or a counter (log ids).
- Concurrency is not modelled: a toggle reads and writes in one atomic step, so two quick presses racing on a stale snapshot are not represented.
- Clocks are parameters: today's day number, and the timestamp a week ago. Parsing `Date` strings is not modelled.
- JavaScript's `Number(...)`/`isNaN` on legacy text is a parameter `parse` that returns `None` for NaN.
- Clock times are integers, so an empty time slot is not represented. Clearing a slot's time input stores `""` (`src/App.jsx:830`), which the dashboard would list as a dose sorted before every real time.
- A field stored as `null` is not represented: the app never writes one, and the code's `!== undefined` tests would treat it as present (a `null` `boolean` shows "No", a `null` `scale5` hides the entry from the weekly report), while the model's `None` is an absent field.
- MedicationLogs.ApplyToggle: puts a new log at the end of the collection. The store decides where a new document appears in its next snapshot; this only decides which of two logs of the same dose `find` returns first, and both are `taken`.
- Numbers are reals: floating-point rounding, NaN and infinities are not represented. `toFixed`, bar widths and colours are presentation.
- The entry form (`openEntryModal`, `renderDynamicForm`, `handleSaveEntry`) and entry/medication deletion are not modelled. Neither are `alert`, `confirm`, modals and navigation.
- Tracker icon, colour and `createdAt` are presentation or store metadata and are dropped from the records.
- The legacy `value` field is a boolean or a string. A legacy numeric `value` is not represented.
- Weekly.GroupWeekly: the JavaScript object keyed by tracker id is a Dafny map. Ids that collide with `Object.prototype` keys are not represented, and neither is the order of the report cards, which `Object.values` (`src/App.jsx:405`) gives in tracker insertion order.
- Sync.SortNewestFirst: does not state stability (the order of entries with equal dates); only order and permutation are proved.
- Sync.PublishEntries: a `Date` that does not parse makes the JavaScript comparator return NaN; dates here are always integers.
- Medications.SaveMedication: the `timestamp` field is store metadata and is not modelled.
