# Agenda screen: a Dafny model of its appointment state

The repository is a mobile agenda: a calendar with a modal per day, in which
the user adds, edits and deletes appointments (a date, an `HH:MM` time and a
description). All of its logic lives in the `AgendaScreen` component of
`app/index.tsx`. This project models that component's state and handlers and
proves what they do to the appointment list.

- `wrappers.dfy` — `Option`, for the screen's nullable editing index and the
  optional `dotColor` of a calendar marker.
- `clock_text.dfy` (module `ClockText`) — the hour and minute picker values
  (`i.toString().padStart(2, "0")`), the stored time `${hour}:${minute}`, the
  `HH:MM` format, and JavaScript's `split(":")`, which takes a stored time
  apart when an appointment is reopened for editing.
- `appointments.dfy` (module `Appointments`) — the `Appointment` record, the
  `filter` behind delete-by-value and behind the per-day list, and the
  arithmetic that relates a row of the day's list to a position in the whole
  list.
- `markers.dfy` (module `Markers`) — the calendar's marker table and the loop
  that builds it.
- `agenda_screen.dfy` (module `Screen`) — class `AgendaScreen`: one field per
  `useState` slot and one method per handler, each stating the new state in
  terms of the old one. `Valid()` is the invariant every method keeps: the
  hour and minute fields hold picker values, every stored time is `HH:MM`,
  and an edit in progress points into the list. `Delete` keeps it only
  because it is the corrected handler (see "## Findings"): as written, the
  delete handler can leave the editing index past the end of the list.

Two details of the source shape the model.

The edit button passes the row's position among the selected day's rows
(app/index.tsx:185-187, 211), and `handleEditAppointment` uses it as a
position in the whole list, both to read (101-103) and, at save time, to
write (116). `BeginEdit` does the same: its argument is a whole-list index
and it requires only that the index is in range, since the code never checks
it. `ListPositionIsRowIff` proves that the two positions agree exactly when
every appointment up to that position falls on the shown date, and
`RowIndexReadsAnotherAppointment` gives a two-element list where they do not.
`ListPosition` is the whole-list position of a row.

Today's blue marker is overwritten by the plain one when today has an
appointment (app/index.tsx:85, 88).

## Model

| member | source | states |
|---|---|---|
| `ClockText.ToDecimal` | app/index.tsx:239 | `toString()` of a non-negative number is a non-empty run of digits, a single digit exactly for numbers below ten |
| `ClockText.PadStart` | app/index.tsx:239 | `padStart` gives the requested width (or the string itself when longer), ends with the original string and is filled in front with the fill character |
| `ClockText.PickerValue` | app/index.tsx:239 | each picker entry below 100 is exactly two characters, the tens digit then the units digit |
| `ClockText.PickerValues` | app/index.tsx:238-240 | a picker of at most 100 entries has one entry per number below its length, and entry `i` is two digits that spell `i` |
| `ClockText.PickerValueReadsBack` | app/index.tsx:238-240 | each picker entry below 100 is two digits that read back as its own number |
| `ClockText.PickerValuesDistinct` | app/index.tsx:241 | two picker entries are equal only when they are the same entry, so the `key` of each picker item is unique |
| `ClockText.PickerValuesAreTwoDigitsBelow` | app/index.tsx:238-255 | the hour picker offers exactly the two-digit strings below 24, the minute picker exactly those below 60 (both directions) |
| `ClockText.PickerValueHasNoColon` | app/index.tsx:238-255 | a picker value is two digits and so never contains the `:` separator |
| `ClockText.TwoDigitsArePickerValue` | app/index.tsx:238-255 | every two-digit string below the picker's length is one of its entries |
| `ClockText.FormatTime` | app/index.tsx:99-112 | round trip: `split(":")` of a time saved as `${hour}:${minute}` from an hour and a minute without colons yields exactly that hour and that minute |
| `ClockText.JoinedDigitsAreClockTime` | app/index.tsx:110 | joining a two-digit hour below 24 and a two-digit minute below 60 with `:` gives an `HH:MM` time whose halves are those two fields |
| `ClockText.FormattedTimeIsClockTime` | app/index.tsx:108-112 | a saved time built from picker values is a 5-character `HH:MM` time whose halves are the picked values |
| `ClockText.ClockTimeIsPickerJoin` | app/index.tsx:110 | a string is an `HH:MM` time exactly when it is the join of an hour and a minute the pickers offer |
| `ClockText.ClockTimeHalves` | app/index.tsx:101-102 | the two halves of an `HH:MM` time are picker values and join back to the time |
| `ClockText.ClockTimeFieldsArePickerValues` | app/index.tsx:101-102 | the hour half of an `HH:MM` time is an hour picker value and the minute half a minute picker value |
| `ClockText.ClockTimeIsJoinOfFields` | app/index.tsx:110 | an `HH:MM` time is its hour half, `:`, and its minute half |
| `ClockText.Split` | app/index.tsx:101-102 | `split(":")` always yields at least one piece and no piece contains the separator |
| `ClockText.JoinSplit` | app/index.tsx:101-102 | joining the pieces of a split with the separator gives the original string back |
| `ClockText.SplitFreePrefix` | app/index.tsx:101-102 | a split passes over a leading stretch without separators, which becomes the start of the first piece |
| `ClockText.SplitJoin` | app/index.tsx:101-102 | splitting a join of separator-free pieces gives those pieces back |
| `Appointments.Keep` | app/index.tsx:132-139 | `filter` returns no more elements than it is given, and every one it returns is from the list and passes the test |
| `Appointments.KeepMembers` | app/index.tsx:132-139 | an element is in a filtered list exactly when it is in the list and passes the test |
| `Appointments.KeepConcat` | app/index.tsx:132-139 | filtering a concatenation is the concatenation of the filtered parts, so the order of what is kept is preserved |
| `Appointments.KeepMultiset` | app/index.tsx:132-139 | filtering keeps every copy of an element that passes and no copy of one that fails |
| `Appointments.KeepAllPass` | app/index.tsx:132-139 | filtering a list whose every element passes returns it unchanged |
| `Appointments.CountMatching` | app/index.tsx:132-139 | the number of appointments with a triple is at most the list length and is zero exactly when none has it |
| `Appointments.DeleteMatching` | app/index.tsx:132-139 | the delete filter returns no more appointments than it is given, each taken from the list and none carrying the deleted triple |
| `Appointments.DeleteRemovesExactlyMatches` | app/index.tsx:132-139 | after delete an appointment is present exactly when it was present and does not carry the triple; each survivor keeps all its copies and no matching copy remains |
| `Appointments.DeleteRemovesAllCopies` | app/index.tsx:132-139 | delete removes all N appointments with the triple, not just one: the length drops by exactly N |
| `Appointments.DeleteKeepsOrder` | app/index.tsx:132-139 | delete works part by part, so the survivors keep their original relative order |
| `Appointments.DeleteIdempotent` | app/index.tsx:127-141 | after a delete no appointment carries the triple, and deleting the same triple again changes nothing |
| `Appointments.DeleteWithoutMatchesIsIdentity` | app/index.tsx:132-139 | deleting a triple no appointment carries leaves the list unchanged |
| `Appointments.AddThenDeleteRestores` | app/index.tsx:107-141 | saving a new appointment and then deleting its triple restores the list, when no appointment already had that triple |
| `Appointments.DayView` | app/index.tsx:185-187 | the day's rows are no more than the list holds, each an appointment of the list on the selected date |
| `Appointments.DayViewIsDateFilter` | app/index.tsx:185-187 | the day's rows are exactly the appointments on the selected date, with all their copies, in list order |
| `Appointments.DayViewOfOneDay` | app/index.tsx:185-187 | when every appointment is on the selected date the day's rows are the whole list |
| `Appointments.ListPosition` | app/index.tsx:185-211 | the whole-list position of the `k`-th row of a day is at least `k`, in range, holds that row's appointment, and has exactly `k` rows of that day before it |
| `Appointments.ListPositionIsRowIff` | app/index.tsx:99-103 | a row's position among the day's rows equals its whole-list position exactly when every appointment up to it is on that day |
| `Appointments.RowIndexReadsAnotherAppointment` | app/index.tsx:185-211 | a list where the first row of a day is not the list's first appointment, so the edit button's index reads another appointment |
| `Appointments.EditIndexFollowsAppointment` | app/index.tsx:127-141 | the editing index re-pointed after a delete designates the same appointment in the new list, and is cleared only when that appointment was deleted |
| `Appointments.StaleIndexStillRight` | app/index.tsx:127-141 | for an edited appointment that survives a delete, the index the handler leaves unchanged still designates it exactly when no appointment before it was deleted |
| `Appointments.StaleEditIndexOverwritesAnother` | app/index.tsx:107-141 | with the index left as the handlers leave it, a save after a delete overwrites a different appointment |
| `Markers.MarkerTable` | app/index.tsx:82-89 | the marker keys are today and the appointment dates, every appointment's date carries the plain marker, and today's entry is blue exactly when no appointment is on today |
| `Markers.MarkerTableSteps` | app/index.tsx:82-89 | the table is what the `forEach` writes: today's blue marker for no appointments, and each further appointment overwrites its date with the plain marker |
| `Markers.ComputeMarks` | app/index.tsx:82-89 | the marker keys are exactly today and the appointment dates, every appointment date gets the plain marker, and today keeps the blue marker exactly when no appointment is on today |
| `Screen.AgendaScreen.constructor` | app/index.tsx:35-46 | the initial state: no date, empty list, hour and minute "00", no edit, form and modal closed |
| `Screen.AgendaScreen.SelectDate` | app/index.tsx:94-97 | selecting a day sets the selected date and opens the modal; nothing else changes |
| `Screen.AgendaScreen.BeginEdit` | app/index.tsx:99-105 | the edit starts at index `i`, the hour and minute fields get the two halves of the stored `HH:MM` time and join back to it, the description is loaded and the form opens |
| `Screen.AgendaScreen.Save` | app/index.tsx:107-125 | the saved appointment has the selected date, the time `hour:minute` (an `HH:MM` time) and the description; with no edit it is appended, and also becomes the last of the selected day's rows; with an edit at `i` it replaces element `i` only and the edit ends; the form and modal close |
| `Screen.AgendaScreen.Delete` | app/index.tsx:127-141 | the list becomes the delete filter of the old list; an edit in progress follows its appointment or ends if it was deleted |
| `Screen.AgendaScreen.CloseModal` | app/index.tsx:143-145 | the modal closes and nothing else changes |
| `Screen.AgendaScreen.ToggleInputs` | app/index.tsx:147-150 | the form flips between open and closed, the edit ends, and the appointment list is unchanged |
| `Screen.AgendaScreen.SetHour` | app/index.tsx:233-243 | the hour field takes the picked entry (a two-digit string below 24, which is exactly what the picker offers) and stays a picker value |
| `Screen.AgendaScreen.SetMinute` | app/index.tsx:245-255 | the minute field takes the picked entry (a two-digit string below 60, which is exactly what the picker offers) and stays a picker value |
| `Screen.AgendaScreen.SetDescription` | app/index.tsx:258-262 | the description field takes the typed text |
| `Screen.AgendaScreen.UpdateMarkedDates` | app/index.tsx:81-92 | the marker state becomes the marker table of the current list and today's date |
| `Screen.AgendaScreen.DayRows` | app/index.tsx:185-187 | the rows the modal lists are appointments of the list on the selected date, no more than the list holds |
| `Screen.ReopenAfterSave` | app/index.tsx:99-125 | round trip on the screen: saving a new appointment appends it, and opening it for editing puts back exactly the hour, minute and description it was saved from; the selected date and the markers are kept (the marker effect is left out) and the modal ends closed |

## Findings

| source | as written | input that shows it | evidently intended | confidence | as-written member | corrected member |
|---|---|---|---|---|---|---|
| app/index.tsx:127-141 | `handleDeleteAppointment` leaves `editingAppointment` as it was, so the next save writes at an index that may now hold another appointment. The index may also equal the new length, and the save then appends the edited appointment while the original stays; or exceed it, and the write leaves a hole in the array (edit the third of [A, B, C], delete A and B, save) | list [Dentist, Gym, Swim] on one day; edit Gym (index 1); delete Dentist; save: Swim is overwritten and Gym is left unedited | a save during an edit replaces the appointment that was opened for editing | medium; not executed | `Appointments.StaleEditIndexOverwritesAnother`, `Appointments.StaleIndexStillRight` | `Screen.AgendaScreen.Delete` (with `Appointments.EditIndexFollowsAppointment`) |

## Left out

- Storage (`loadAppointments`, `saveAppointments`, app/index.tsx:57-79): AsyncStorage I/O, JSON encoding and log-and-ignore error handling. The list lives in memory and starts empty.
- Screen.AgendaScreen.BeginEdit: requires, through `Valid()`, that every stored time is `HH:MM`. This holds for every list the handlers build from an empty start. A list loaded from storage could hold other strings, which the code would split anyway; that case is not modelled.
- Screen.AgendaScreen.BeginEdit: the edit button is only shown while no edit is in progress (app/index.tsx:209); the method does not require that, so it also covers calls the screen cannot make.
- React effects (app/index.tsx:48-55): the model does not re-run the save and the marker update after each change; `UpdateMarkedDates` is called explicitly.
- The clock: today's UTC date (`toISOString`, app/index.tsx:84) is the `today` parameter of `UpdateMarkedDates`. The "events of the day" list (app/index.tsx:156-157) is `DayView` applied to the local date; `parseISO` and `isToday`, and the time-zone difference between the two notions of today, are not modelled.
- Rendering: the calendar, the modal, the pickers, the icons and the style sheets (app/index.tsx:152-305, app/styles.ts). The pickers appear only as the values they can pass to `SetHour` and `SetMinute`.
- Notifications, reminders, weather and geolocation are not in the source files of this repository, so they are not part of this model.
- Screen.AgendaScreen.Delete: models the corrected handler. `handleDeleteAppointment` (app/index.tsx:127-141) leaves `editingAppointment` unchanged; the method moves it to the edited appointment's new position, or clears it when that appointment was deleted. The unchanged index is described by `StaleIndexStillRight` and `StaleEditIndexOverwritesAnother`.
- Screen.AgendaScreen.Save: requires, through `Valid()`, that the editing index is inside the list, so the two as-written paths of the write at app/index.tsx:116 that a stale index after a delete can take are not modelled: an index equal to the length appends the edited appointment, and one beyond it leaves a hole in the array. The corrected `Delete` never produces such an index.

