/**
 The state of the `Calendar` component (src/Calendar.tsx): the event list, the
 "add event" dialog flag and the dialog's draft, with one method per handler.
 Each handler runs as one atomic step; the confirm prompt and the clock are
 parameters.
 */
module CalendarComponent {
  import opened Records
  import opened Events

  class Calendar {
    var events: seq<Record>
    var isDialogOpen: bool
    var newEvent: Record

    /* The component's initial state: no events, dialog closed, empty draft. */
    constructor ()
      ensures events == [] && !isDialogOpen && newEvent == EmptyDraft
    {
      events := [];
      isDialogOpen := false;
      newEvent := EmptyDraft;
    }

    /* fetchEvents: the list becomes the mock source's fixed events. */
    method FetchEvents()
      modifies this
      ensures events == MockFetchEvents()
      ensures isDialogOpen == old(isDialogOpen) && newEvent == old(newEvent)
    {
      events := MockFetchEvents();
    }

    /* handleSelect: fill the draft's range and open the dialog. */
    method HandleSelect(info: SelectInfo)
      modifies this
      ensures newEvent == SelectDraft(old(newEvent), info)
      ensures isDialogOpen
      ensures events == old(events)
    {
      newEvent := SelectDraft(newEvent, info);
      isDialogOpen := true;
    }

    /* handleEventClick: when the user confirms, delete every event with the clicked id. */
    method HandleEventClick(info: EventApi, confirmed: bool)
      modifies this
      ensures events == if confirmed then FilterOutId(old(events), info.id) else old(events)
      ensures isDialogOpen == old(isDialogOpen) && newEvent == old(newEvent)
    {
      if confirmed {
        var _ := MockDeleteEvent(info.id);
        events := FilterOutId(events, info.id);
      }
    }

    /* handleEventDrop: every event with the dropped id becomes the rebuilt record. */
    method HandleEventDrop(info: EventApi)
      modifies this
      ensures events == ReplaceId(old(events), info.id, DropRecord(info))
      ensures isDialogOpen == old(isDialogOpen) && newEvent == old(newEvent)
    {
      var updatedEvent := DropRecord(info);
      events := ReplaceId(events, info.id, updatedEvent);
    }

    /* handleDialogSubmit: append the created event, close the dialog, reset the draft. */
    method HandleDialogSubmit(now: nat)
      modifies this
      ensures events == old(events) + [MockCreateEvent(old(newEvent), now)]
      ensures !isDialogOpen
      ensures newEvent == EmptyDraft
    {
      var createdEvent := MockCreateEvent(newEvent, now);
      events := events + [createdEvent];
      isDialogOpen := false;
      newEvent := EmptyDraft;
    }

    /* handleInputChange: set the named draft field. */
    method HandleInputChange(name: string, value: string)
      modifies this
      ensures newEvent == SetField(old(newEvent), name, value)
      ensures events == old(events) && isDialogOpen == old(isDialogOpen)
    {
      newEvent := SetField(newEvent, name, value);
    }

    /* The dialog's own open/close request (`onOpenChange={setIsDialogOpen}`): closing
       it this way keeps the draft. */
    method HandleOpenChange(open: bool)
      modifies this
      ensures isDialogOpen == open
      ensures events == old(events) && newEvent == old(newEvent)
    {
      isDialogOpen := open;
    }
  }

  /* A session from mount: load, select a range, type a title, save.  The list ends
     with the seven fixed events and one new event carrying the typed title, the
     selected range and the timestamp's id; the dialog is closed again. */
  method CreateAfterLoad(info: SelectInfo, title: string, now: nat) returns (c: Calendar)
    ensures |c.events| == 8 && c.events[..7] == MockFetchEvents()
    ensures Get(c.events[7], "id") == Some(DecimalString(now))
    ensures Get(c.events[7], "title") == Some(title)
    ensures Get(c.events[7], "start") == Some(info.startStr)
    ensures Get(c.events[7], "end") == Some(OrElse(info.endStr, info.startStr))
    ensures !c.isDialogOpen && c.newEvent == EmptyDraft
    ensures now >= 10 ==> UniqueIds(c.events)
  {
    c := new Calendar();
    c.FetchEvents();
    c.HandleSelect(info);
    c.HandleInputChange("title", title);
    assert "id" !in c.newEvent;
    ghost var draft := c.newEvent;
    c.HandleDialogSubmit(now);
    if now >= 10 {
      FetchedIdsUnique();
      FetchedIdsAvoidTimestamps(now);
      CreateKeepsUniqueIds(MockFetchEvents(), draft, now);
    }
  }
}
