/**
 The expression-only part of the calendar component (src/Calendar.tsx): the
 mock event source, the gesture payloads the calendar widget reports, and the
 list and record transformations inside the handlers.
 */
module Events {
  import opened Records

  /* The draft the dialog starts with and is reset to. */
  const EmptyDraft: Record := map["title" := "", "start" := "", "end" := ""]

  /* `info` of a range selection. */
  datatype SelectInfo = SelectInfo(startStr: string, endStr: string)

  /* `info.event` of a click or a drop: the widget's view of one event.
     `id` is a string (the empty string for an event without one). */
  datatype EventApi = EventApi(id: string, title: string, startStr: string, endStr: string,
                               extendedProps: Record)

  /* `event.id === id`: the record has an `id` property equal to `id`. */
  predicate HasId(e: Record, id: string)
  {
    Get(e, "id") == Some(id)
  }

  /* No two records of the list carry the same `id` (records without one are not compared). */
  ghost predicate UniqueIds(s: seq<Record>)
  {
    forall i, j :: 0 <= i < j < |s| && "id" in s[i] && "id" in s[j] ==> s[i]["id"] != s[j]["id"]
  }

  function MakeEvent(id: string, title: string, start: string, end: string): (r: Record)
    ensures r.Keys == {"id", "title", "start", "end"} && r["id"] == id
  {
    map["id" := id, "title" := title, "start" := start, "end" := end]
  }

  /* mockFetchEvents: the seven fixed events; the one at position i has id `String(i + 1)`. */
  function MockFetchEvents(): (r: seq<Record>)
    ensures |r| == 7
    ensures forall i :: 0 <= i < |r| ==> r[i].Keys == {"id", "title", "start", "end"}
    ensures forall i :: 0 <= i < |r| ==> r[i]["id"] == DecimalString(i + 1)
  {
    [ MakeEvent("1", "Meeting Scheduled", "2024-05-01T10:00:00", "2024-05-01T11:00:00"),
      MakeEvent("2", "Someone's Birthday Event", "2024-05-06T00:00:00", "2024-05-06T13:59:59"),
      MakeEvent("3", "Meeting Scheduled", "2024-05-12T16:00:00", "2024-05-12T18:00:00"),
      MakeEvent("4", "Someone's Birthday Event", "2024-05-14T11:00:00", "2024-05-15T13:59:59"),
      MakeEvent("5", "Google Meet", "2024-05-14T14:00:00", "2024-05-14T16:59:59"),
      MakeEvent("6", "Teams Meeting", "2024-05-12T17:00:00", "2024-05-13T19:59:59"),
      MakeEvent("7", "Meeting Scheduled", "2024-05-10T16:00:00", "2024-05-11T11:00:00") ]
  }

  /* The initial load's ids are pairwise distinct. */
  lemma FetchedIdsUnique()
    ensures UniqueIds(MockFetchEvents())
  {
    var s := MockFetchEvents();
    forall i, j | 0 <= i < j < |s| ensures s[i]["id"] != s[j]["id"] {
      DecimalStringDistinct(i + 1, j + 1);
    }
  }

  /* mockCreateEvent: `{ id: String(now), ...draft }`; a property of the draft overrides the id. */
  function MockCreateEvent(draft: Record, now: nat): (r: Record)
    ensures r.Keys == draft.Keys + {"id"}
    ensures forall k :: k in draft ==> r[k] == draft[k]
    ensures "id" !in draft ==> r["id"] == DecimalString(now)
  {
    map["id" := DecimalString(now)] + draft
  }

  /* mockDeleteEvent: always reports success (its logging is not modelled). */
  function MockDeleteEvent(id: string): (ok: bool)
    ensures ok
  {
    true
  }

  /* The draft built by handleSelect: `{...draft, start: startStr, end: endStr || startStr}`. */
  function SelectDraft(draft: Record, info: SelectInfo): (r: Record)
    ensures r.Keys == draft.Keys + {"start", "end"}
    ensures r["start"] == info.startStr
    ensures r["end"] == if info.endStr == "" then info.startStr else info.endStr
    ensures forall k :: k in draft && k != "start" && k != "end" ==> r[k] == draft[k]
  {
    draft["start" := info.startStr]["end" := OrElse(info.endStr, info.startStr)]
  }

  /* The draft after handleInputChange: `{...draft, [name]: value}`. */
  function SetField(draft: Record, name: string, value: string): (r: Record)
    ensures r.Keys == draft.Keys + {name}
    ensures r[name] == value
    ensures forall k :: k in draft && k != name ==> r[k] == draft[k]
  {
    draft[name := value]
  }

  /* The record handleEventDrop builds:
     `{...extendedProps, title, start: startStr, end: endStr || startStr}`. */
  function DropRecord(ev: EventApi): (r: Record)
    ensures r.Keys == ev.extendedProps.Keys + {"title", "start", "end"}
    ensures r["title"] == ev.title && r["start"] == ev.startStr
    ensures r["end"] == if ev.endStr == "" then ev.startStr else ev.endStr
    ensures forall k :: k in ev.extendedProps && k !in {"title", "start", "end"} ==> r[k] == ev.extendedProps[k]
  {
    ev.extendedProps["title" := ev.title]["start" := ev.startStr]["end" := OrElse(ev.endStr, ev.startStr)]
  }

  /* The record's `id` comes from `extendedProps` alone: the dropped event's id is not copied. */
  lemma DropRecordId(ev: EventApi)
    ensures Get(DropRecord(ev), "id") == Get(ev.extendedProps, "id")
  {
    assert "id" !in {"title", "start", "end"};
  }

  /* `events.filter(e => e.id !== id)` (handleEventClick). */
  function FilterOutId(s: seq<Record>, id: string): (r: seq<Record>)
    ensures |r| <= |s|
    ensures forall e :: e in r <==> e in s && !HasId(e, id)
  {
    if s == [] then []
    else if HasId(s[0], id) then FilterOutId(s[1..], id)
    else [s[0]] + FilterOutId(s[1..], id)
  }

  /* `events.map(e => e.id === id ? u : e)` (handleEventDrop). */
  function ReplaceId(s: seq<Record>, id: string, u: Record): (r: seq<Record>)
    ensures |r| == |s|
    ensures forall i :: 0 <= i < |s| ==> r[i] == if HasId(s[i], id) then u else s[i]
  {
    if s == [] then []
    else [if HasId(s[0], id) then u else s[0]] + ReplaceId(s[1..], id, u)
  }

  // ---------------------------------------------------------------------------
  // Delete: filtering by id

  /* Filtering keeps relative order: it works piecewise on a concatenation. */
  lemma {:induction false} FilterOutAppend(a: seq<Record>, b: seq<Record>, id: string)
    ensures FilterOutId(a + b, id) == FilterOutId(a, id) + FilterOutId(b, id)
    decreases |a|
  {
    if a == [] {
      assert a + b == b;
    } else {
      assert (a + b)[1..] == a[1..] + b;
      FilterOutAppend(a[1..], b, id);
    }
  }

  /* Each record survives as often as it occurs, unless it carries the id. */
  lemma {:induction false} FilterOutMultiset(s: seq<Record>, id: string, e: Record)
    ensures multiset(FilterOutId(s, id))[e] == if HasId(e, id) then 0 else multiset(s)[e]
    decreases |s|
  {
    if s != [] {
      FilterOutMultiset(s[1..], id, e);
      assert s == [s[0]] + s[1..];
    }
  }

  /* Deleting an id no record carries changes nothing. */
  lemma {:induction false} FilterOutAbsent(s: seq<Record>, id: string)
    requires forall e :: e in s ==> !HasId(e, id)
    ensures FilterOutId(s, id) == s
    decreases |s|
  {
    if s != [] {
      FilterOutAbsent(s[1..], id);
    }
  }

  /* Deleting the same id twice is the same as deleting it once. */
  lemma FilterOutIdempotent(s: seq<Record>, id: string)
    ensures FilterOutId(FilterOutId(s, id), id) == FilterOutId(s, id)
  {
    FilterOutAbsent(FilterOutId(s, id), id);
  }

  /* Deletions of two ids can be done in either order. */
  lemma {:induction false} FilterOutCommutes(s: seq<Record>, a: string, b: string)
    ensures FilterOutId(FilterOutId(s, a), b) == FilterOutId(FilterOutId(s, b), a)
    decreases |s|
  {
    if s != [] {
      FilterOutCommutes(s[1..], a, b);
      var x := s[0];
      if !HasId(x, a) && !HasId(x, b) {
        assert FilterOutId(s, a) == [x] + FilterOutId(s[1..], a);
        assert FilterOutId(s, b) == [x] + FilterOutId(s[1..], b);
        FilterOutAppend([x], FilterOutId(s[1..], a), b);
        FilterOutAppend([x], FilterOutId(s[1..], b), a);
      } else if HasId(x, a) && !HasId(x, b) {
        assert FilterOutId(s, b) == [x] + FilterOutId(s[1..], b);
        FilterOutAppend([x], FilterOutId(s[1..], b), a);
      } else if !HasId(x, a) && HasId(x, b) {
        assert FilterOutId(s, a) == [x] + FilterOutId(s[1..], a);
        FilterOutAppend([x], FilterOutId(s[1..], a), b);
      }
    }
  }

  /* Deleting keeps ids unique. */
  lemma {:induction false} FilterOutKeepsUniqueIds(s: seq<Record>, id: string)
    requires UniqueIds(s)
    ensures UniqueIds(FilterOutId(s, id))
    decreases |s|
  {
    if s != [] {
      assert UniqueIds(s[1..]) by {
        forall i, j | 0 <= i < j < |s[1..]| && "id" in s[1..][i] && "id" in s[1..][j]
          ensures s[1..][i]["id"] != s[1..][j]["id"]
        {
          assert s[1..][i] == s[i + 1] && s[1..][j] == s[j + 1];
        }
      }
      FilterOutKeepsUniqueIds(s[1..], id);
      var rest := FilterOutId(s[1..], id);
      if !HasId(s[0], id) && "id" in s[0] {
        forall j | 0 <= j < |rest| && "id" in rest[j] ensures s[0]["id"] != rest[j]["id"] {
          assert rest[j] in s[1..];
          var k :| 0 <= k < |s[1..]| && s[1..][k] == rest[j];
          assert s[k + 1] == rest[j];
        }
      }
    }
  }

  // ---------------------------------------------------------------------------
  // Drop: replacing by id

  /* As written, the replacement lacks an `id` (extendedProps never holds the widget's id),
     so after a drop no record carries the dropped id any more. */
  lemma ReplaceIdDropsId(s: seq<Record>, ev: EventApi)
    requires "id" !in ev.extendedProps
    ensures forall e :: e in ReplaceId(s, ev.id, DropRecord(ev)) ==> !HasId(e, ev.id)
  {
    DropRecordId(ev);
  }

  /* ... and hence a later delete of that id is a no-op: the dropped event cannot be deleted. */
  lemma DeleteAfterDropIsNoop(s: seq<Record>, ev: EventApi)
    requires "id" !in ev.extendedProps
    ensures FilterOutId(ReplaceId(s, ev.id, DropRecord(ev)), ev.id) == ReplaceId(s, ev.id, DropRecord(ev))
  {
    ReplaceIdDropsId(s, ev);
    FilterOutAbsent(ReplaceId(s, ev.id, DropRecord(ev)), ev.id);
  }

  /* Once re-rendered, the id-less record is reported with the empty id; a delete by
     that id keeps it too, so no click can remove a dragged event. */
  lemma DeleteByEmptyIdAfterDrop(s: seq<Record>, ev: EventApi, e: Record)
    requires "id" !in ev.extendedProps
    requires e in s && HasId(e, ev.id)
    ensures DropRecord(ev) in FilterOutId(ReplaceId(s, ev.id, DropRecord(ev)), "")
  {
    var i :| 0 <= i < |s| && s[i] == e;
    assert ReplaceId(s, ev.id, DropRecord(ev))[i] == DropRecord(ev);
    DropRecordId(ev);
  }

  /* The concrete case: drag event "5" to a new range, then click it and confirm:
     the event stays, although the same delete removes it from the undragged list. */
  lemma DropThenDeleteExample()
    ensures var e5 := MakeEvent("5", "Google Meet", "2024-05-14T14:00:00", "2024-05-14T16:59:59");
            var ev := EventApi("5", "Google Meet", "2024-05-15T09:00:00", "2024-05-15T11:00:00", map[]);
            FilterOutId([e5], "5") == [] &&
            FilterOutId(ReplaceId([e5], "5", DropRecord(ev)), "5") == [DropRecord(ev)]
  {
    var e5 := MakeEvent("5", "Google Meet", "2024-05-14T14:00:00", "2024-05-14T16:59:59");
    var ev := EventApi("5", "Google Meet", "2024-05-15T09:00:00", "2024-05-15T11:00:00", map[]);
    assert HasId(e5, "5");
    DeleteAfterDropIsNoop([e5], ev);
  }

  /* A drop whose replacement carries no id keeps ids unique. */
  lemma ReplaceIdKeepsUniqueIds(s: seq<Record>, id: string, u: Record)
    requires UniqueIds(s) && "id" !in u
    ensures UniqueIds(ReplaceId(s, id, u))
  {
  }

  /* The evidently intended replacement: the dropped record keeps the event's id. */
  function DropRecordKeepingId(ev: EventApi): (r: Record)
    ensures r.Keys == ev.extendedProps.Keys + {"id", "title", "start", "end"}
    ensures r["id"] == ev.id && r["title"] == ev.title && r["start"] == ev.startStr
    ensures r["end"] == if ev.endStr == "" then ev.startStr else ev.endStr
  {
    DropRecord(ev)["id" := ev.id]
  }

  /* With the id kept, a drop changes no record's id ... */
  lemma ReplaceKeepingIdPreservesIds(s: seq<Record>, ev: EventApi)
    ensures var r := ReplaceId(s, ev.id, DropRecordKeepingId(ev));
            forall i :: 0 <= i < |s| ==> Get(r[i], "id") == Get(s[i], "id")
  {
  }

  /* ... so deleting afterwards removes exactly what it would have removed before the drop. */
  lemma {:induction false} DeleteAfterCorrectedDrop(s: seq<Record>, ev: EventApi)
    ensures FilterOutId(ReplaceId(s, ev.id, DropRecordKeepingId(ev)), ev.id) == FilterOutId(s, ev.id)
    decreases |s|
  {
    if s != [] {
      DeleteAfterCorrectedDrop(s[1..], ev);
      var r := ReplaceId(s, ev.id, DropRecordKeepingId(ev));
      assert r[1..] == ReplaceId(s[1..], ev.id, DropRecordKeepingId(ev));
      assert HasId(r[0], ev.id) <==> HasId(s[0], ev.id);
    }
  }

  // ---------------------------------------------------------------------------
  // Submit: appending the created event

  /* Appending an event created from an id-less draft keeps ids unique when the
     timestamp does not print as an id already in the list. */
  lemma CreateKeepsUniqueIds(s: seq<Record>, draft: Record, now: nat)
    requires UniqueIds(s) && "id" !in draft
    requires forall e :: e in s ==> !HasId(e, DecimalString(now))
    ensures UniqueIds(s + [MockCreateEvent(draft, now)])
  {
    var r := s + [MockCreateEvent(draft, now)];
    forall i, j | 0 <= i < j < |r| && "id" in r[i] && "id" in r[j] ensures r[i]["id"] != r[j]["id"] {
      if j < |s| {
        assert r[i] == s[i] && r[j] == s[j];
      } else {
        assert r[i] == s[i] && s[i] in s;
      }
    }
  }

  /* Right after the initial load, any timestamp of two digits or more is a fresh id. */
  lemma FetchedIdsAvoidTimestamps(now: nat)
    requires now >= 10
    ensures forall e :: e in MockFetchEvents() ==> !HasId(e, DecimalString(now))
  {
    var s := MockFetchEvents();
    forall e | e in s ensures !HasId(e, DecimalString(now)) {
      var i :| 0 <= i < |s| && s[i] == e;
      assert |s[i]["id"]| == 1 < |DecimalString(now)|;
    }
  }

  /* Two creations at different times get different ids (from id-less drafts). */
  lemma CreateIdsDistinct(d1: Record, d2: Record, t1: nat, t2: nat)
    requires "id" !in d1 && "id" !in d2 && t1 != t2
    ensures MockCreateEvent(d1, t1)["id"] != MockCreateEvent(d2, t2)["id"]
  {
    DecimalStringDistinct(t1, t2);
  }

  // ---------------------------------------------------------------------------
  // Selection and submission together

  /* An event created from a selected draft carries the selection's range and the draft's title. */
  lemma SelectThenCreate(draft: Record, info: SelectInfo, now: nat)
    requires "id" !in draft && "title" in draft
    ensures var r := MockCreateEvent(SelectDraft(draft, info), now);
            r["id"] == DecimalString(now) && r["title"] == draft["title"] &&
            r["start"] == info.startStr && r["end"] == OrElse(info.endStr, info.startStr)
  {
  }
}
