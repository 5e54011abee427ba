/**
 * The calendar page's event logic, taken out of its handlers: how the dialog's
 * fields become a stored row and a local event, how a clicked event is split
 * back into dialog fields, how an event's text is split for display, and the
 * list updates the handlers apply (append, map by id, filter by id, and the
 * `deleted` flag behind archive and restore).
 */
module CalendarEvents {
  import opened Options
  import opened JsText
  import opened Seqs

  /** A row of the `events` table. */
  datatype EventRow = EventRow(
    id: string,
    title: string,
    startTime: string,
    endTime: Option<string>,
    allDay: bool,
    eventType: string,
    color: Option<string>,
    recurrence: string,
    deleted: bool)

  /** An event in the page's local list, in the shape handed to the calendar widget. */
  datatype CalendarEvent = CalendarEvent(
    id: string,
    title: string,
    start: string,
    end: Option<string>,
    allDay: bool,
    color: Option<string>,
    eventType: Option<string>)

  /** The fields the event dialog passes to its save callback. */
  datatype EventForm = EventForm(
    title: string,
    date: string,
    time: string,
    endTime: string,
    eventType: string,
    recurrence: string)

  /** The values the event dialog is opened with; any of them may be missing. */
  datatype ModalInitial = ModalInitial(
    id: Option<string>,
    title: Option<string>,
    date: Option<string>,
    time: Option<string>,
    endTime: Option<string>,
    eventType: Option<string>,
    recurrence: Option<string>)

  /** An event's text as displayed: the title and the description under it. */
  datatype EventLabel = EventLabel(title: string, description: string)

  /** The four event types the dialog offers. */
  const EventTypes: set<string> := {"custom", "birthday", "meeting", "task"}

  /** JavaScript's `a || b` on an optional string: `a` unless it is missing or empty. */
  function OrElse(a: Option<string>, b: string): string {
    if a.Some? && a.value != "" then a.value else b
  }

  // ---------------------------------------------------------------------------
  // Building a stored event from the dialog's fields (handleSaveEvent)
  // ---------------------------------------------------------------------------

  /** The stored start: the date, followed by "T" and the time when a time is given. */
  function StartTime(date: string, time: string): string {
    date + (if time != "" then "T" + time else "")
  }

  /** The stored end: null without an end time, otherwise the START's date, "T" and the end time. */
  function EndTimeOf(date: string, endTime: string): Option<string> {
    if endTime != "" then Some(date + "T" + endTime) else None
  }

  /** The fixed colour of each event type; a type outside the table has no colour. */
  function TypeColor(eventType: string): (r: Option<string>)
    ensures r.Some? <==> eventType in EventTypes
  {
    if eventType == "custom" then Some("#6b7280")
    else if eventType == "birthday" then Some("#f59e0b")
    else if eventType == "meeting" then Some("#06b6d4")
    else if eventType == "task" then Some("#8b5cf6")
    else None
  }

  /** The stored recurrence: an empty choice is stored as "none". */
  function StoredRecurrence(recurrence: string): (r: string)
    ensures r != ""
    ensures recurrence != "" ==> r == recurrence
    ensures recurrence == "" ==> r == "none"
  {
    if recurrence != "" then recurrence else "none"
  }

  /**
   * The row inserted for the dialog's fields, with the id the store assigns.
   * The insert payload has no `deleted` column; the row reads back as not deleted.
   */
  function NewRow(f: EventForm, id: string): EventRow {
    EventRow(id, f.title, StartTime(f.date, f.time), EndTimeOf(f.date, f.endTime), f.time == "",
             f.eventType, TypeColor(f.eventType), StoredRecurrence(f.recurrence), false)
  }

  /**
   * The event appended to the local list after a successful insert. Its end is
   * `endTimeStr || undefined`; the end string is never empty, so that is `EndTimeOf`.
   */
  function NewLocalEvent(f: EventForm, id: string): CalendarEvent {
    CalendarEvent(id, f.title, StartTime(f.date, f.time), EndTimeOf(f.date, f.endTime), f.time == "",
                  TypeColor(f.eventType), Some(f.eventType))
  }

  /** The dialog's save guard: nothing is saved without a title and a date. */
  predicate CanSave(f: EventForm) {
    f.title != "" && f.date != ""
  }

  /** Splitting `a + "T" + b` on 'T', where `a` has no 'T', gives back `a` and `b`'s first piece. */
  lemma SplitJoined(a: string, b: string)
    requires 'T' !in a
    ensures 'T' in a + "T" + b
    ensures BeforeFirst(a + "T" + b, 'T') == a
    ensures SecondPiece(a + "T" + b, 'T') == BeforeFirst(b, 'T')
  {
    var s := a + "T" + b;
    assert s[|a|] == 'T';
    assert s[..|a|] == a;
    assert IndexOf(s, 'T') == |a|;
    assert s[|a| + 1..] == b;
  }

  /** The start splits back into the date; it carries a 'T' exactly when a time was given. */
  lemma StartSplitsBack(date: string, time: string)
    requires 'T' !in date
    ensures ('T' in StartTime(date, time)) <==> time != ""
    ensures BeforeFirst(StartTime(date, time), 'T') == date
  {
    if time != "" {
      assert StartTime(date, time) == date + "T" + time;
      SplitJoined(date, time);
    } else {
      assert StartTime(date, time) == date;
      assert BeforeFirst(date, 'T') == date;
    }
  }

  /** A non-null end splits back into the start's date. */
  lemma EndSplitsBack(date: string, endTime: string)
    requires 'T' !in date
    ensures EndTimeOf(date, endTime).None? <==> endTime == ""
    ensures EndTimeOf(date, endTime).Some? ==> BeforeFirst(EndTimeOf(date, endTime).value, 'T') == date
  {
    if endTime != "" {
      SplitJoined(date, endTime);
    }
  }

  /**
   * What a stored row says about the dialog's fields: it is all-day exactly
   * when no time was given; the start is the date, followed by "T" and the
   * time when there is one; the end is null without an end time and otherwise
   * sits on the start's date; the colour follows the type and the recurrence
   * is never empty. For a dialog date without 'T', a row is all-day exactly
   * when its start carries no time, and splitting the start and the end at
   * 'T' gives back the date.
   */
  lemma StoredEventShape(f: EventForm, id: string)
    ensures var r := NewRow(f, id);
      && r.id == id && r.title == f.title && !r.deleted
      && r.allDay == (f.time == "")
      && r.startTime == (if f.time == "" then f.date else f.date + "T" + f.time)
      && r.endTime == (if f.endTime == "" then None else Some(f.date + "T" + f.endTime))
      && r.color == TypeColor(f.eventType)
      && r.recurrence == (if f.recurrence == "" then "none" else f.recurrence)
    ensures 'T' !in f.date ==>
      var r := NewRow(f, id);
      && (r.allDay <==> 'T' !in r.startTime)
      && BeforeFirst(r.startTime, 'T') == f.date
      && (r.endTime.Some? ==> BeforeFirst(r.endTime.value, 'T') == f.date)
  {
    if 'T' !in f.date {
      StartSplitsBack(f.date, f.time);
      EndSplitsBack(f.date, f.endTime);
    }
  }

  /**
   * A date selected in the week or day view is the widget's full timestamp
   * (such as "2024-01-10T09:00:00-05:00"). Saved without a time, it gives an
   * all-day row whose start still holds a 'T'; saved with a time, a start
   * with two 'T's. Either way the start no longer splits back into the date.
   */
  lemma SelectedTimestampAsDate(f: EventForm, id: string)
    requires 'T' in f.date
    ensures var r := NewRow(f, id);
      && 'T' in r.startTime
      && BeforeFirst(r.startTime, 'T') != f.date
      && (f.time == "" ==> r.allDay)
  {
    var r := NewRow(f, id);
    if f.time == "" {
      assert r.startTime == f.date;
    } else {
      assert r.startTime == f.date + ("T" + f.time);
      assert r.startTime[..|f.date|] == f.date;
    }
    assert 'T' in r.startTime;
    assert 'T' !in BeforeFirst(r.startTime, 'T');
  }

  /**
   * One save per event type: an all-day birthday, a timed meeting, an all-day
   * custom event and a task with a start but no end, each with its colour.
   */
  lemma StoredEventExamples()
    ensures var r := NewRow(EventForm("Party", "2024-01-10", "", "", "birthday", ""), "e1");
      r.startTime == "2024-01-10" && r.allDay && r.endTime == None && r.color == Some("#f59e0b") && r.recurrence == "none"
    ensures var r := NewRow(EventForm("Sync", "2024-01-10", "09:00", "10:30", "meeting", "weekly"), "e2");
      r.startTime == "2024-01-10T09:00" && !r.allDay && r.endTime == Some("2024-01-10T10:30")
      && r.color == Some("#06b6d4") && r.recurrence == "weekly"
    ensures var r := NewRow(EventForm("Notes", "2024-01-11", "", "", "custom", "none"), "e3");
      r.startTime == "2024-01-11" && r.allDay && r.color == Some("#6b7280") && r.recurrence == "none"
    ensures var r := NewRow(EventForm("Report", "2024-01-12", "14:00", "", "task", "daily"), "e4");
      r.startTime == "2024-01-12T14:00" && !r.allDay && r.endTime == None
      && r.color == Some("#8b5cf6") && r.recurrence == "daily"
  {
    assert "2024-01-12" + ("T" + "14:00") == "2024-01-12T14:00";
    assert "2024-01-10" + "T" + "10:30" == "2024-01-10T10:30";
    assert "2024-01-10" + ("T" + "09:00") == "2024-01-10T09:00";
  }

  /** Different event types never share a colour. */
  lemma TypeColorInjective(a: string, b: string)
    requires TypeColor(a).Some? && TypeColor(a) == TypeColor(b)
    ensures a == b
  {
  }

  // ---------------------------------------------------------------------------
  // Click to edit (handleEventClick) and the dialog's initial values
  // ---------------------------------------------------------------------------

  /** `s.includes('T') ? s.split('T')[1].slice(0, 5) : ''`: the clock part of a stored timestamp. */
  function ClockPart(s: string): (r: string)
    ensures |r| <= 5 && 'T' !in r
    ensures 'T' !in s ==> r == ""
  {
    if 'T' in s then
      var p := SecondPiece(s, 'T');
      assert SliceTo(p, 5) == p[..|SliceTo(p, 5)|];
      SliceTo(p, 5)
    else ""
  }

  /** The dialog values for a clicked event: its id, title, date, start and end clock times, and type. */
  function EditInitial(ev: CalendarEvent): ModalInitial {
    var startStr := ev.start;
    var endStr := ev.end.GetOr("");
    ModalInitial(
      Some(ev.id),
      Some(ev.title),
      Some(BeforeFirst(startStr, 'T')),
      Some(ClockPart(startStr)),
      Some(if endStr != "" && 'T' in endStr then SliceTo(SecondPiece(endStr, 'T'), 5) else ""),
      Some(OrElse(ev.eventType, "custom")),
      None)
  }

  /** A field shows its initial value when that is present and non-empty, and its default otherwise. */
  predicate ShowsOr(v: string, initial: Option<string>, default: string) {
    && (initial.Some? && initial.value != "" ==> v == initial.value)
    && (initial.None? || initial.value == "" ==> v == default)
  }

  /** The fields the dialog shows when it opens: each initial value, or its default. */
  function FormFor(init: Option<ModalInitial>): (f: EventForm)
    ensures f.eventType != "" && f.recurrence != ""
    ensures init.None? ==> f == EventForm("", "", "", "", "custom", "none")
    ensures init.Some? ==>
      && ShowsOr(f.title, init.value.title, "")
      && ShowsOr(f.date, init.value.date, "")
      && ShowsOr(f.time, init.value.time, "")
      && ShowsOr(f.endTime, init.value.endTime, "")
      && ShowsOr(f.eventType, init.value.eventType, "custom")
      && ShowsOr(f.recurrence, init.value.recurrence, "none")
  {
    match init
    case None => EventForm("", "", "", "", "custom", "none")
    case Some(i) =>
      EventForm(OrElse(i.title, ""), OrElse(i.date, ""), OrElse(i.time, ""), OrElse(i.endTime, ""),
                OrElse(i.eventType, "custom"), OrElse(i.recurrence, "none"))
  }

  /** A start without 'T' (an all-day event) opens with an empty time; the date is the whole start. */
  lemma AllDayClickHasNoTime(ev: CalendarEvent)
    requires 'T' !in ev.start
    ensures EditInitial(ev).time == Some("")
    ensures EditInitial(ev).date == Some(ev.start)
  {
  }

  /**
   * Editing round trip: saving the dialog's fields and clicking the resulting
   * event reopens the dialog with the same title, date, time and end time (for
   * a date without 'T' and times of at most five characters without 'T', as the
   * date and time inputs give), the type with its default, and the recurrence
   * reset to "none", since the click does not pass it on.
   */
  lemma EditRoundTrip(f: EventForm, id: string)
    requires 'T' !in f.date
    requires 'T' !in f.time && |f.time| <= 5
    requires 'T' !in f.endTime && |f.endTime| <= 5
    ensures var g := FormFor(Some(EditInitial(NewLocalEvent(f, id))));
      && g.title == f.title && g.date == f.date && g.time == f.time && g.endTime == f.endTime
      && g.eventType == (if f.eventType == "" then "custom" else f.eventType)
      && g.recurrence == "none"
    ensures EditInitial(NewLocalEvent(f, id)).id == Some(id)
  {
    var ev := NewLocalEvent(f, id);
    ClockPartOfJoined(f.date, f.time);
    ClockPartOfJoined(f.date, f.endTime);
    StartSplitsBack(f.date, f.time);
  }

  /** The clock part of `StartTime(date, t)` is `t` itself, for a short `t` without 'T'. */
  lemma ClockPartOfJoined(date: string, t: string)
    requires 'T' !in date && 'T' !in t && |t| <= 5
    ensures ClockPart(StartTime(date, t)) == t
    ensures t != "" ==> ClockPart(date + "T" + t) == t
  {
    if t != "" {
      SplitJoined(date, t);
      assert BeforeFirst(t, 'T') == t;
      assert StartTime(date, t) == date + "T" + t;
    } else {
      assert StartTime(date, t) == date;
    }
  }

  /**
   * The widget hands the click a start and end in its own format: the stored
   * date and clock time, possibly followed by seconds and an offset. Any tail
   * without 'T' after a five-character clock time is cut off again, so the
   * dialog still opens with the stored date and clock times.
   */
  lemma ClickOnWidgetTimestamp(ev: CalendarEvent, date: string, t: string, rest: string)
    requires 'T' !in date && 'T' !in t && 'T' !in rest && |t| == 5
    requires ev.start == date + "T" + t + rest
    ensures EditInitial(ev).date == Some(date)
    ensures EditInitial(ev).time == Some(t)
  {
    assert ev.start == date + "T" + (t + rest);
    SplitJoined(date, t + rest);
    assert BeforeFirst(t + rest, 'T') == t + rest;
    assert SliceTo(t + rest, 5) == t;
  }

  // ---------------------------------------------------------------------------
  // Display of an event's text (eventContent)
  // ---------------------------------------------------------------------------

  /**
   * Splits "Title: Description" at the first colon. A colon at position 0 or
   * no colon at all leaves the whole text as the title and no description.
   */
  function SplitTitle(fullText: string): (l: EventLabel)
    ensures 0 < IndexOf(fullText, ':') ==>
      && |l.title| < |fullText|
      && ':' !in l.title
      && fullText == l.title + ":" + fullText[|l.title| + 1..]
      && l.description == Trim(fullText[|l.title| + 1..])
    ensures IndexOf(fullText, ':') <= 0 ==> l == EventLabel(fullText, "")
  {
    var colonIndex := IndexOf(fullText, ':');
    if colonIndex > 0 then
      assert fullText == fullText[..colonIndex] + ":" + fullText[colonIndex + 1..];
      EventLabel(fullText[..colonIndex], Trim(fullText[colonIndex + 1..]))
    else EventLabel(fullText, "")
  }

  /** A title longer than 25 characters is cut to its first 22 followed by "...". */
  function TruncateTitle(title: string): (r: string)
    ensures |r| <= 25
    ensures |title| <= 25 ==> r == title
    ensures |title| > 25 ==> |r| == 25 && r[..22] == title[..22] && r[22..] == "..."
  {
    if |title| > 25 then title[..22] + "..." else title
  }

  // ---------------------------------------------------------------------------
  // Rows and the local list
  // ---------------------------------------------------------------------------

  /** The local event a loaded row becomes. */
  function RowToEvent(r: EventRow): CalendarEvent {
    CalendarEvent(r.id, r.title, r.startTime, r.endTime, r.allDay, r.color, Some(r.eventType))
  }

  /** `data.map(...)`: the local events for the rows a select returned, one per row, in order. */
  function RowsToEvents(rows: seq<EventRow>): (es: seq<CalendarEvent>)
    ensures |es| == |rows|
    ensures forall i :: 0 <= i < |rows| ==> es[i] == RowToEvent(rows[i])
  {
    if rows == [] then [] else [RowToEvent(rows[0])] + RowsToEvents(rows[1..])
  }

  lemma RowsToEventsConcat(a: seq<EventRow>, b: seq<EventRow>)
    ensures RowsToEvents(a + b) == RowsToEvents(a) + RowsToEvents(b)
  {
  }

  /** The event shown after a save is the event a reload of the inserted row would show. */
  lemma NewLocalEventIsLoadedRow(f: EventForm, id: string)
    ensures RowToEvent(NewRow(f, id)) == NewLocalEvent(f, id)
  {
  }

  predicate IsActiveRow(r: EventRow) { !r.deleted }

  predicate IsArchivedRow(r: EventRow) { r.deleted }

  /** The rows `select ... eq('deleted', false)` returns (the store's ordering is not modelled). */
  function ActiveRows(rows: seq<EventRow>): seq<EventRow> {
    Filter(rows, IsActiveRow)
  }

  /** The rows `select ... eq('deleted', true)` returns. */
  function ArchivedRows(rows: seq<EventRow>): seq<EventRow> {
    Filter(rows, IsArchivedRow)
  }

  /** `update({deleted: flag}).eq('id', id)`: every row with that id gets the flag; nothing else changes. */
  function SetDeleted(rows: seq<EventRow>, id: string, flag: bool): (r: seq<EventRow>)
    ensures |r| == |rows|
    ensures forall i :: 0 <= i < |rows| ==> r[i] == if rows[i].id == id then rows[i].(deleted := flag) else rows[i]
  {
    if rows == [] then []
    else [if rows[0].id == id then rows[0].(deleted := flag) else rows[0]] + SetDeleted(rows[1..], id, flag)
  }

  /** `update({start_time, end_time}).eq('id', id)` after a drag or a resize. */
  function UpdateRowTimes(rows: seq<EventRow>, id: string, start: string, end: string): (r: seq<EventRow>)
    ensures |r| == |rows|
    ensures forall i :: 0 <= i < |rows| ==>
      r[i] == if rows[i].id == id then rows[i].(startTime := start, endTime := Some(end)) else rows[i]
  {
    if rows == [] then []
    else [if rows[0].id == id then rows[0].(startTime := start, endTime := Some(end)) else rows[0]]
         + UpdateRowTimes(rows[1..], id, start, end)
  }

  function RowIdIsNot(id: string): EventRow -> bool {
    (r: EventRow) => r.id != id
  }

  function EventIdIsNot(id: string): CalendarEvent -> bool {
    (e: CalendarEvent) => e.id != id
  }

  /** `delete().eq('id', id)`: the rows without that id, in order. */
  function DeleteRows(rows: seq<EventRow>, id: string): seq<EventRow> {
    Filter(rows, RowIdIsNot(id))
  }

  /** `events.map(...)` after a drag or a resize: the events with that id get the new start and end. */
  function Reschedule(es: seq<CalendarEvent>, id: string, start: string, end: string): (r: seq<CalendarEvent>)
    ensures |r| == |es|
    ensures forall i :: 0 <= i < |es| ==>
      r[i] == if es[i].id == id then es[i].(start := start, end := Some(end)) else es[i]
  {
    if es == [] then []
    else [if es[0].id == id then es[0].(start := start, end := Some(end)) else es[0]]
         + Reschedule(es[1..], id, start, end)
  }

  /** `events.filter(e => e.id !== id)` after a delete. */
  function RemoveEvent(es: seq<CalendarEvent>, id: string): seq<CalendarEvent> {
    Filter(es, EventIdIsNot(id))
  }

  // ---------------------------------------------------------------------------
  // Properties of the list updates
  // ---------------------------------------------------------------------------

  /**
   * A drag or resize changes only the start and end of the events whose id
   * matches: everything else about every event, its id included, is kept, and
   * an absent id changes nothing.
   */
  lemma RescheduleTouchesOnlyMatching(es: seq<CalendarEvent>, id: string, start: string, end: string)
    ensures var r := Reschedule(es, id, start, end);
      forall i :: 0 <= i < |es| ==>
        && r[i].(start := es[i].start, end := es[i].end) == es[i]
        && (es[i].id != id ==> r[i] == es[i])
        && (es[i].id == id ==> r[i].start == start && r[i].end == Some(end))
    ensures (forall i :: 0 <= i < |es| ==> es[i].id != id) ==> Reschedule(es, id, start, end) == es
  {
  }

  /** Deleting keeps, in order, exactly the events with another id; an absent id changes nothing. */
  lemma RemoveEventKeepsOthers(es: seq<CalendarEvent>, id: string)
    ensures var r := RemoveEvent(es, id);
      && (forall i :: 0 <= i < |r| ==> r[i].id != id && r[i] in es)
      && (forall i :: 0 <= i < |es| && es[i].id != id ==> es[i] in r)
    ensures (forall i :: 0 <= i < |es| ==> es[i].id != id) ==> RemoveEvent(es, id) == es
    ensures forall a, b :: es == a + b ==> RemoveEvent(es, id) == RemoveEvent(a, id) + RemoveEvent(b, id)
  {
    var p := EventIdIsNot(id);
    FilterKeepsAll(es, p);
    forall a, b | es == a + b
      ensures RemoveEvent(es, id) == RemoveEvent(a, id) + RemoveEvent(b, id)
    {
      FilterConcat(a, b, p);
    }
  }

  /** Setting the flag twice leaves the last value: archive then restore, however often repeated, is restore. */
  lemma SetDeletedLastWins(rows: seq<EventRow>, id: string, a: bool, b: bool)
    ensures SetDeleted(SetDeleted(rows, id, a), id, b) == SetDeleted(rows, id, b)
  {
  }

  /**
   * Archive then restore gives every row its original flag back, provided the
   * rows with that id were active to begin with; in every case the rows with
   * that id end active and all other rows are untouched.
   */
  lemma ArchiveThenRestore(rows: seq<EventRow>, id: string)
    ensures var r := SetDeleted(SetDeleted(rows, id, true), id, false);
      forall i :: 0 <= i < |rows| ==> r[i] == if rows[i].id == id then rows[i].(deleted := false) else rows[i]
    ensures (forall i :: 0 <= i < |rows| && rows[i].id == id ==> !rows[i].deleted) ==>
      SetDeleted(SetDeleted(rows, id, true), id, false) == rows
  {
    SetDeletedLastWins(rows, id, true, false);
    var r := SetDeleted(rows, id, false);
    if forall i :: 0 <= i < |rows| && rows[i].id == id ==> !rows[i].deleted {
      assert forall i :: 0 <= i < |rows| ==> r[i] == rows[i];
    }
  }

  /** The active list after archiving: the earlier active rows without that id, in order. */
  lemma {:induction false} ArchiveHidesRow(rows: seq<EventRow>, id: string)
    ensures ActiveRows(SetDeleted(rows, id, true)) == Filter(ActiveRows(rows), RowIdIsNot(id))
  {
    if rows != [] {
      ArchiveHidesRow(rows[1..], id);
      var h := if rows[0].id == id then rows[0].(deleted := true) else rows[0];
      assert SetDeleted(rows, id, true) == [h] + SetDeleted(rows[1..], id, true);
      FilterConcat([h], SetDeleted(rows[1..], id, true), IsActiveRow);
      FilterConcat([rows[0]], rows[1..], IsActiveRow);
      assert rows == [rows[0]] + rows[1..];
      var a := Filter([rows[0]], IsActiveRow);
      FilterConcat(a, ActiveRows(rows[1..]), RowIdIsNot(id));
    }
  }

  /** After archiving, every row with that id is in the archived list, flagged; after restoring, in the active list. */
  lemma ArchiveMovesRow(rows: seq<EventRow>, id: string)
    ensures forall i :: 0 <= i < |rows| && rows[i].id == id ==>
      rows[i].(deleted := true) in ArchivedRows(SetDeleted(rows, id, true))
    ensures forall i :: 0 <= i < |rows| && rows[i].id == id ==>
      rows[i].(deleted := false) in ActiveRows(SetDeleted(rows, id, false))
  {
    var r := SetDeleted(rows, id, true);
    var q := SetDeleted(rows, id, false);
    forall i | 0 <= i < |rows| && rows[i].id == id
      ensures rows[i].(deleted := true) in ArchivedRows(r)
      ensures rows[i].(deleted := false) in ActiveRows(q)
    {
      assert r[i] == rows[i].(deleted := true) && IsArchivedRow(r[i]);
      assert q[i] == rows[i].(deleted := false) && IsActiveRow(q[i]);
    }
  }

  /**
   * Reconciliation after a save: appending the new event to the list loaded
   * from the rows gives what a reload after the insert would give.
   */
  lemma SaveKeepsSync(rows: seq<EventRow>, f: EventForm, id: string)
    ensures RowsToEvents(ActiveRows(rows + [NewRow(f, id)])) == RowsToEvents(ActiveRows(rows)) + [NewLocalEvent(f, id)]
  {
    FilterConcat(rows, [NewRow(f, id)], IsActiveRow);
    assert Filter([NewRow(f, id)], IsActiveRow) == [NewRow(f, id)];
    RowsToEventsConcat(ActiveRows(rows), [NewRow(f, id)]);
  }

  /**
   * Reconciliation after a drag or resize: mapping the new times over the list
   * loaded from the rows gives what a reload after the update would give.
   */
  lemma {:induction false} RescheduleKeepsSync(rows: seq<EventRow>, id: string, start: string, end: string)
    ensures RowsToEvents(ActiveRows(UpdateRowTimes(rows, id, start, end)))
         == Reschedule(RowsToEvents(ActiveRows(rows)), id, start, end)
  {
    if rows != [] {
      RescheduleKeepsSync(rows[1..], id, start, end);
      var h := rows[0];
      var h' := if h.id == id then h.(startTime := start, endTime := Some(end)) else h;
      var t := rows[1..];
      assert rows == [h] + t;
      assert UpdateRowTimes(rows, id, start, end) == [h'] + UpdateRowTimes(t, id, start, end);
      FilterConcat([h'], UpdateRowTimes(t, id, start, end), IsActiveRow);
      FilterConcat([h], t, IsActiveRow);
      var a := Filter([h], IsActiveRow);
      var a' := Filter([h'], IsActiveRow);
      RowsToEventsConcat(a', ActiveRows(UpdateRowTimes(t, id, start, end)));
      RowsToEventsConcat(a, ActiveRows(t));
      RescheduleConcat(RowsToEvents(a), RowsToEvents(ActiveRows(t)), id, start, end);
      assert Reschedule(RowsToEvents(a), id, start, end) == RowsToEvents(a');
    }
  }

  lemma RescheduleConcat(a: seq<CalendarEvent>, b: seq<CalendarEvent>, id: string, start: string, end: string)
    ensures Reschedule(a + b, id, start, end) == Reschedule(a, id, start, end) + Reschedule(b, id, start, end)
  {
  }

  /**
   * Reconciliation after a delete: filtering the list loaded from the rows gives
   * what a reload after the delete would give. Archiving an event hides it from
   * the active list in the same way.
   */
  lemma {:induction false} DeleteKeepsSync(rows: seq<EventRow>, id: string)
    ensures RowsToEvents(ActiveRows(DeleteRows(rows, id))) == RemoveEvent(RowsToEvents(ActiveRows(rows)), id)
    ensures RowsToEvents(ActiveRows(SetDeleted(rows, id, true))) == RemoveEvent(RowsToEvents(ActiveRows(rows)), id)
  {
    FilterCommutes(rows, RowIdIsNot(id), IsActiveRow);
    ArchiveHidesRow(rows, id);
    FilterOfLoaded(ActiveRows(rows), id);
  }

  /** Filtering rows by id and loading them is loading them and filtering the events by id. */
  lemma {:induction false} FilterOfLoaded(rows: seq<EventRow>, id: string)
    ensures RowsToEvents(Filter(rows, RowIdIsNot(id))) == RemoveEvent(RowsToEvents(rows), id)
  {
    if rows != [] {
      FilterOfLoaded(rows[1..], id);
      var h, t := rows[0], rows[1..];
      var p, q := RowIdIsNot(id), EventIdIsNot(id);
      var es := RowsToEvents(rows);
      assert es == [RowToEvent(h)] + RowsToEvents(t);
      assert Filter(rows, p) == (if p(h) then [h] else []) + Filter(t, p);
      assert Filter(es, q) == (if q(RowToEvent(h)) then [RowToEvent(h)] else []) + Filter(RowsToEvents(t), q);
      RowsToEventsConcat(if p(h) then [h] else [], Filter(t, p));
    }
  }
}
