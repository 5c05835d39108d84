# Calendar event state — a Dafny model

This project models the state logic of the `Calendar` React component of a
small FullCalendar front end (`src/Calendar.tsx`). The component keeps three
pieces of state:

- `events`: the ordered list of event records shown by the calendar widget.
- `isDialogOpen`: whether the "Add New Event" dialog is showing.
- `newEvent`: the dialog's draft `{title, start, end}`.

Its handlers change that state:

- load the mock events;
- on a range selection, fill the draft and open the dialog;
- on a confirmed click, delete events by id;
- on a drop, replace events by id;
- on submit, append the created event, close the dialog and reset the draft;
- on typing, update one draft field.

The project has three modules:

- `Records` (`records.dfy`): JavaScript objects as `map<string, string>`.
  - `{...a, k: v}` is `a[k := v]`.
  - `{id: x, ...e}` is `map["id" := x] + e`, so the draft's own properties win, as in JavaScript.
  - `a || b` on strings is `OrElse`.
  - `String(n)` is `DecimalString`.
- `Events` (`events.dfy`): the expression-only part.
  - The mock event source.
  - The widget's gesture payloads, as the datatypes `SelectInfo` and `EventApi`.
  - The `filter`, `map` and record spreads inside the handlers, as functions.
  - The lemmas about these functions.
- `CalendarComponent` (`calendar.dfy`): the component as the class `Calendar`.
  - It has the three state fields.
  - It has one method per handler. Each method's `ensures` states the whole new state in terms of the `Events` functions.

Some inputs are supplied as parameters:

- The confirm prompt is a boolean `confirmed`.
- `Date.now()` is a natural number `now`.

Timestamps are opaque strings, as in the source, which never parses them.

Two behaviours of the code are worth stating outright:

- A reschedule would be expected to keep the event's id. The code builds the
  replacement record without one (see Findings).
- Closing the dialog through `onOpenChange={setIsDialogOpen}` (src/Calendar.tsx:143)
  only clears `isDialogOpen` and keeps the draft. `HandleOpenChange` models this,
  and the next selection keeps the old title.

## Model

| member | source | states |
|---|---|---|
| Events.MockFetchEvents | src/Calendar.tsx:21-67 | the initial load yields exactly seven records with keys id/title/start/end; the one at position i has id `String(i + 1)`, i.e. "1" to "7" in order |
| Events.FetchedIdsUnique | src/Calendar.tsx:21-67 | the ids of the initial load are pairwise distinct |
| Events.MockCreateEvent | src/Calendar.tsx:69-71 | the created event has the draft's properties unchanged plus an `id`, which is the decimal timestamp when the draft has no `id` of its own |
| Events.MockDeleteEvent | src/Calendar.tsx:73-76 | the delete always reports success; HandleEventClick discards the result |
| Events.SelectDraft | src/Calendar.tsx:98-102 | the new draft keeps every other draft field (the title included), has start = startStr and end = endStr, or startStr when endStr is empty |
| Events.SetField | src/Calendar.tsx:136-139 | only the named draft field changes, to the typed value; all other fields keep their values |
| Events.DropRecord | src/Calendar.tsx:116-121 | the rebuilt record has exactly the extendedProps keys plus title/start/end: dropped title and start, end = endStr or startStr when empty, other extended props unchanged |
| Events.DropRecordId | src/Calendar.tsx:116-121 | the rebuilt record's `id` comes only from extendedProps; the dropped event's id is not copied |
| Events.FilterOutId | src/Calendar.tsx:111 | a record survives the delete iff it was in the list and does not carry the clicked id; so every record with that id is removed, not only the first |
| Events.FilterOutAppend | src/Calendar.tsx:111 | the delete works piecewise on a concatenation, so survivors keep their relative order |
| Events.FilterOutMultiset | src/Calendar.tsx:111 | each record survives with its full multiplicity unless it carries the id, in which case none survive |
| Events.FilterOutAbsent | src/Calendar.tsx:111 | deleting an id that no record carries leaves the list unchanged |
| Events.FilterOutIdempotent | src/Calendar.tsx:111 | deleting the same id twice equals deleting it once |
| Events.FilterOutCommutes | src/Calendar.tsx:111 | deletions of two ids give the same list in either order |
| Events.FilterOutKeepsUniqueIds | src/Calendar.tsx:111 | a delete keeps the ids of the list pairwise distinct |
| Events.ReplaceId | src/Calendar.tsx:123-125 | the drop keeps the list length; position i holds the replacement if the old record there carries the id, and the old record otherwise |
| Events.ReplaceIdDropsId | src/Calendar.tsx:115-127 | after a drop with id-less extendedProps, no record carries the dropped id any more |
| Events.DeleteAfterDropIsNoop | src/Calendar.tsx:106-127 | after such a drop, a confirmed delete of the same id leaves the list unchanged |
| Events.DeleteByEmptyIdAfterDrop | src/Calendar.tsx:106-127 | after such a drop, a delete by the empty id (the id the widget reports for an id-less event) also keeps the rebuilt record |
| Events.DropThenDeleteExample | src/Calendar.tsx:106-127 | concrete case: event "5" is deleted from the list before a drop, but not after one |
| Events.ReplaceIdKeepsUniqueIds | src/Calendar.tsx:123-125 | a drop whose replacement carries no id keeps ids pairwise distinct |
| Events.DropRecordKeepingId | src/Calendar.tsx:116-121 | corrected replacement: carries the dropped event's id besides the dropped title, start and end |
| Events.ReplaceKeepingIdPreservesIds | src/Calendar.tsx:123-125 | with the corrected replacement, every position's id is unchanged by the drop |
| Events.DeleteAfterCorrectedDrop | src/Calendar.tsx:106-127 | with the corrected replacement, a delete after the drop removes what it would have removed before it |
| Events.CreateKeepsUniqueIds | src/Calendar.tsx:129-131 | appending an event created from an id-less draft keeps ids distinct when the timestamp's string is not already an id |
| Events.FetchedIdsAvoidTimestamps | src/Calendar.tsx:21-71 | every timestamp of two or more digits differs from all ids of the initial load |
| Events.CreateIdsDistinct | src/Calendar.tsx:69-71 | creations at different timestamps get different ids |
| Events.SelectThenCreate | src/Calendar.tsx:97-104 | an event created from a selected draft has the timestamp id, the draft title and the selected start/end |
| Records.DecimalStringInjective | src/Calendar.tsx:70 | `String(n)` of distinct integers differ |
| Records.DecimalString | src/Calendar.tsx:70 | `String(n)` is a non-empty string of decimal digits, of two or more digits exactly when n >= 10 |
| CalendarComponent.Calendar.constructor | src/Calendar.tsx:80-86 | initial state: no events, dialog closed, draft with three empty strings |
| CalendarComponent.Calendar.FetchEvents | src/Calendar.tsx:92-95 | events become the fixed mock list; dialog and draft unchanged |
| CalendarComponent.Calendar.HandleSelect | src/Calendar.tsx:97-104 | draft becomes SelectDraft of the old draft, dialog open, events unchanged |
| CalendarComponent.Calendar.HandleEventClick | src/Calendar.tsx:106-113 | when confirmed, events become FilterOutId of the old list; when declined, events, draft and dialog are all unchanged |
| CalendarComponent.Calendar.HandleEventDrop | src/Calendar.tsx:115-127 | events become ReplaceId of the old list with DropRecord; dialog and draft unchanged |
| CalendarComponent.Calendar.HandleDialogSubmit | src/Calendar.tsx:129-134 | exactly one created event is appended at the end, dialog closed, draft reset to three empty strings |
| CalendarComponent.Calendar.HandleInputChange | src/Calendar.tsx:136-139 | draft becomes SetField of the old draft; events and dialog unchanged |
| CalendarComponent.Calendar.HandleOpenChange | src/Calendar.tsx:143 | the dialog flag takes the requested value; events and draft unchanged |
| CalendarComponent.CreateAfterLoad | src/Calendar.tsx:88-139 | load, select, type a title, submit: the seven fixed events followed by one event with the typed title, the selected range and the timestamp id; dialog closed, draft reset; ids distinct when now >= 10 |

## Findings

| source | as written | input that shows it | evidently intended | confidence | as-written member | corrected member |
|---|---|---|---|---|---|---|
| src/Calendar.tsx:116-121 | the drop's replacement record is built from extendedProps, title, start and end only, so it has no `id` | drag event "5" to a new range, then click it and confirm: its record no longer has an `id`, so the widget reports the id "" and the filter keeps it; a delete by "5" keeps it as well | the rescheduled event keeps its id (`id: info.event.id`), so it can still be deleted or dragged again | medium, not executed (assumes the widget never puts `id` into extendedProps, which is how it treats its standard fields) | Events.DeleteAfterDropIsNoop | Events.DeleteAfterCorrectedDrop |

The `Calendar` class keeps the as-written drop, because it models the component.
`Events.DropRecordKeepingId` is the corrected replacement. Its lemmas show that
ids survive a drop and that a later delete still works.

## Left out

- Rendering: the JSX, `renderEventContent`, `src/App.tsx`, and the Dialog/Input/Label/Button components. These are presentation only.
- The FullCalendar widget: its views, drag geometry, `dayMaxEventRows` and the "+N more" popover. The widget is third-party code. Its callbacks' `info` objects are modelled as the datatypes `SelectInfo` and `EventApi`, with string ids and times.
- `window.confirm` is a boolean parameter. `Date.now()` is a natural-number parameter. No clock is modelled, so id uniqueness across submissions holds only under the stated hypotheses (distinct timestamps of two or more digits).
- `mockDeleteEvent`'s `console.log` is not modelled.
- `async`/`await` and React's deferred `setState`. Each handler is one atomic step on the current state. Stale `events` closures and interleavings of unresolved promises are not modelled.
- Field values: every property value is an opaque string. extendedProps values of other JavaScript types are not modelled.
- `useRef` and the `useEffect` mount hook: the mount is modelled as a call to `FetchEvents` (see `CreateAfterLoad`).
