/**
 * The calendar page's state and handlers. The `events` table of the hosted
 * store is an object holding its rows; each handler performs the store call
 * (whose success is a parameter) and then updates the page's local state the
 * way the handler does: append, map by id, filter by id, or a full reload.
 */
module CalendarPage {
  import opened Options
  import opened CalendarEvents

  /** The store's `events` table. */
  class EventsTable {
    var rows: seq<EventRow>

    constructor (initial: seq<EventRow>)
      ensures rows == initial
    {
      rows := initial;
    }

    method Insert(row: EventRow)
      modifies this
      ensures rows == old(rows) + [row]
    {
      rows := rows + [row];
    }

    method UpdateTimes(id: string, start: string, end: string)
      modifies this
      ensures rows == UpdateRowTimes(old(rows), id, start, end)
    {
      rows := UpdateRowTimes(rows, id, start, end);
    }

    method SetDeletedFlag(id: string, flag: bool)
      modifies this
      ensures rows == SetDeleted(old(rows), id, flag)
    {
      rows := SetDeleted(rows, id, flag);
    }

    method Delete(id: string)
      modifies this
      ensures rows == DeleteRows(old(rows), id)
    {
      rows := DeleteRows(rows, id);
    }
  }

  /** The page's state: the local event lists, the loading flag and the event dialog. */
  class Calendar {
    var events: seq<CalendarEvent>
    var archivedEvents: seq<CalendarEvent>
    var loading: bool
    var modalOpen: bool
    var modalInitial: Option<ModalInitial>

    /** The local list shows exactly the table's active rows. */
    ghost predicate InSync(table: EventsTable)
      reads this, table
    {
      events == RowsToEvents(ActiveRows(table.rows))
    }

    constructor ()
      ensures events == [] && archivedEvents == []
      ensures !loading && !modalOpen && modalInitial == None
    {
      events, archivedEvents := [], [];
      loading, modalOpen := false, false;
      modalInitial := None;
    }

    /**
     * loadEvents: on success the list is replaced wholesale by the active rows;
     * on a store error it is left as it was. Loading ends in either case.
     */
    method LoadEvents(table: EventsTable, ok: bool)
      modifies this`events, this`loading
      ensures events == if ok then RowsToEvents(ActiveRows(table.rows)) else old(events)
      ensures !loading
      ensures ok ==> InSync(table)
    {
      loading := true;
      if ok {
        events := RowsToEvents(ActiveRows(table.rows));
      }
      loading := false;
    }

    /**
     * The effect that runs when the archived view is shown, and the re-read in
     * restoreEvent: `data?.map(...) || []`, so a failed select empties the list.
     */
    method LoadArchived(table: EventsTable, ok: bool)
      modifies this`archivedEvents
      ensures archivedEvents == if ok then RowsToEvents(ArchivedRows(table.rows)) else []
    {
      if ok {
        archivedEvents := RowsToEvents(ArchivedRows(table.rows));
      } else {
        archivedEvents := [];
      }
    }

    /** The "Add Event" button: an empty dialog. */
    method OpenNewEvent()
      modifies this`modalOpen, this`modalInitial
      ensures modalOpen && modalInitial == None
    {
      modalInitial := None;
      modalOpen := true;
    }

    /** handleDateSelect: a dialog preset with the selected date. */
    method HandleDateSelect(date: string)
      modifies this`modalOpen, this`modalInitial
      ensures modalOpen
      ensures modalInitial == Some(ModalInitial(None, None, Some(date), None, None, None, None))
    {
      modalInitial := Some(ModalInitial(None, None, Some(date), None, None, None, None));
      modalOpen := true;
    }

    /** handleEventClick: a dialog preset with the clicked event split into its fields. */
    method HandleEventClick(ev: CalendarEvent)
      modifies this`modalOpen, this`modalInitial
      ensures modalOpen && modalInitial == Some(EditInitial(ev))
    {
      modalInitial := Some(EditInitial(ev));
      modalOpen := true;
    }

    method CloseModal()
      modifies this`modalOpen
      ensures !modalOpen
    {
      modalOpen := false;
    }

    /**
     * handleSaveEvent: the dialog closes; the row is inserted; on success the
     * new event is appended at the end and the earlier events are unchanged, on
     * an insert error the list and the table are unchanged. Saving from an
     * opened existing event inserts too: the page has no update path.
     */
    method HandleSaveEvent(table: EventsTable, f: EventForm, insertOk: bool, newId: string)
      modifies this`events, this`loading, this`modalOpen, table
      ensures !modalOpen && !loading
      ensures table.rows == if insertOk then old(table.rows) + [NewRow(f, newId)] else old(table.rows)
      ensures events == if insertOk then old(events) + [NewLocalEvent(f, newId)] else old(events)
      ensures |events| == |old(events)| + (if insertOk then 1 else 0)
      ensures events[..|old(events)|] == old(events)
      ensures old(InSync(table)) ==> InSync(table)
    {
      modalOpen := false;
      loading := true;
      if insertOk {
        SaveKeepsSync(table.rows, f, newId);
        table.Insert(NewRow(f, newId));
        events := events + [NewLocalEvent(f, newId)];
      }
      loading := false;
    }

    /** The dialog's Save button: nothing happens without a title and a date. */
    method SubmitModal(table: EventsTable, f: EventForm, insertOk: bool, newId: string)
      modifies this`events, this`loading, this`modalOpen, table
      ensures !CanSave(f) ==> events == old(events) && loading == old(loading)
                              && modalOpen == old(modalOpen) && table.rows == old(table.rows)
      ensures CanSave(f) ==> !modalOpen && !loading
      ensures CanSave(f) ==> events == if insertOk then old(events) + [NewLocalEvent(f, newId)] else old(events)
      ensures CanSave(f) ==> table.rows == if insertOk then old(table.rows) + [NewRow(f, newId)] else old(table.rows)
      ensures old(InSync(table)) ==> InSync(table)
    {
      if !CanSave(f) {
        return;
      }
      HandleSaveEvent(table, f, insertOk, newId);
    }

    /**
     * handleDeleteEvent: the rows with that id are deleted; on success the
     * events with that id leave the list, the others keep their order, and the
     * dialog closes. On a store error nothing changes.
     */
    method HandleDeleteEvent(table: EventsTable, id: string, deleteOk: bool)
      modifies this`events, this`modalOpen, table
      ensures table.rows == if deleteOk then DeleteRows(old(table.rows), id) else old(table.rows)
      ensures events == if deleteOk then RemoveEvent(old(events), id) else old(events)
      ensures modalOpen == (old(modalOpen) && !deleteOk)
      ensures old(InSync(table)) ==> InSync(table)
    {
      if !deleteOk {
        return;
      }
      DeleteKeepsSync(table.rows, id);
      table.Delete(id);
      events := RemoveEvent(events, id);
      modalOpen := false;
    }

    /**
     * The dialog's Delete button, rendered only while the dialog is open and
     * only for an opened event with an id, acts only once the user confirms.
     */
    method ConfirmDelete(table: EventsTable, confirmed: bool, deleteOk: bool)
      requires modalOpen
      modifies this`events, this`modalOpen, table
      ensures var offered := modalInitial.Some? && modalInitial.value.id.Some? && modalInitial.value.id.value != "";
        if offered && confirmed then
          && table.rows == (if deleteOk then DeleteRows(old(table.rows), modalInitial.value.id.value) else old(table.rows))
          && events == (if deleteOk then RemoveEvent(old(events), modalInitial.value.id.value) else old(events))
          && modalOpen == (old(modalOpen) && !deleteOk)
        else
          table.rows == old(table.rows) && events == old(events) && modalOpen == old(modalOpen)
    {
      if modalInitial.Some? && modalInitial.value.id.Some? && modalInitial.value.id.value != "" && confirmed {
        HandleDeleteEvent(table, modalInitial.value.id.value, deleteOk);
      }
    }

    /**
     * handleEventDrop and handleEventResize (identical): the new start and end
     * are written to the rows with that id. On success only the matching
     * events get the new start and end; on failure the list is replaced by a
     * fresh reload of the unchanged table (or kept, if that reload fails too).
     */
    method RescheduleEvent(table: EventsTable, id: string, start: string, end: string,
                           updateOk: bool, reloadOk: bool)
      modifies this`events, this`loading, table
      ensures table.rows == if updateOk then UpdateRowTimes(old(table.rows), id, start, end) else old(table.rows)
      ensures updateOk ==> events == Reschedule(old(events), id, start, end) && loading == old(loading)
      ensures !updateOk ==> events == (if reloadOk then RowsToEvents(ActiveRows(table.rows)) else old(events)) && !loading
      ensures old(InSync(table)) && (updateOk || reloadOk) ==> InSync(table)
      ensures !updateOk && reloadOk ==> InSync(table)
    {
      if !updateOk {
        LoadEvents(table, reloadOk);
        return;
      }
      RescheduleKeepsSync(table.rows, id, start, end);
      table.UpdateTimes(id, start, end);
      events := Reschedule(events, id, start, end);
    }

    /**
     * archiveEvent: the rows with that id are flagged deleted (the write's
     * result is not checked), then the active list is reloaded.
     */
    method ArchiveEvent(table: EventsTable, id: string, updateOk: bool, reloadOk: bool)
      modifies this`events, this`loading, table
      ensures table.rows == if updateOk then SetDeleted(old(table.rows), id, true) else old(table.rows)
      ensures events == if reloadOk then RowsToEvents(ActiveRows(table.rows)) else old(events)
      ensures !loading
      ensures updateOk && reloadOk ==> forall i :: 0 <= i < |events| ==> events[i].id != id
    {
      if updateOk {
        table.SetDeletedFlag(id, true);
      }
      LoadEvents(table, reloadOk);
      if updateOk && reloadOk {
        DeleteKeepsSync(old(table.rows), id);
        RemoveEventKeepsOthers(RowsToEvents(ActiveRows(old(table.rows))), id);
      }
    }

    /**
     * restoreEvent: the rows with that id are flagged not deleted, then both
     * the archived list and the active list are read again.
     */
    method RestoreEvent(table: EventsTable, id: string, updateOk: bool, archivedOk: bool, reloadOk: bool)
      modifies this`events, this`archivedEvents, this`loading, table
      ensures table.rows == if updateOk then SetDeleted(old(table.rows), id, false) else old(table.rows)
      ensures archivedEvents == if archivedOk then RowsToEvents(ArchivedRows(table.rows)) else []
      ensures events == if reloadOk then RowsToEvents(ActiveRows(table.rows)) else old(events)
      ensures !loading
    {
      if updateOk {
        table.SetDeletedFlag(id, false);
      }
      LoadArchived(table, archivedOk);
      LoadEvents(table, reloadOk);
    }
  }

  /** Archive then restore, both written, leaves the table as restore alone would. */
  method ArchiveThenRestoreEvent(page: Calendar, table: EventsTable, id: string)
    modifies page, table
    ensures table.rows == SetDeleted(old(table.rows), id, false)
    ensures (forall i :: 0 <= i < |old(table.rows)| && old(table.rows)[i].id == id ==> !old(table.rows)[i].deleted)
            ==> table.rows == old(table.rows)
    ensures page.InSync(table)
  {
    page.ArchiveEvent(table, id, true, true);
    page.RestoreEvent(table, id, true, true, true);
    ArchiveThenRestore(old(table.rows), id);
  }
}
