/** The page state and its event handlers: the two month anchors (`currentDate`, `miniCalDate`),
    the event dialog (`editingEventId`, the form inputs, the error texts), and the two rendered grids.
    The host clock's local date is passed to every handler that reads it, as `today`. */
module Controller {
  import opened Wrappers
  import opened Dates
  import opened DateFormat
  import opened Events
  import opened Store
  import opened Grid
  import opened MiniGrid
  import JsText
  import Navigation

  const TitleRequired: string := "Title is required"
  const DateRequired: string := "Date is required"
  const EditHeading: string := "Edit Event"
  const NewHeading: string := "New Event"

  /** `openModal`'s mode: `'add'`, or `'edit'` with the record's id. */
  datatype Mode = Add | Edit(id: string)

  /** The four form inputs. */
  datatype Input = TitleInput | DateInput | TimeInput | DescriptionInput

  /** The values of the four inputs. */
  datatype Form = Form(title: string, date: string, time: string, description: string)

  const EmptyForm: Form := Form("", "", "", "")

  /** The dialog: whether it shows, the id being edited, its heading, whether Delete shows,
      the inputs and the two error texts. */
  datatype Modal = Modal(open: bool, editingId: Option<string>, heading: string, deleteVisible: bool,
                         form: Form, titleError: string, dateError: string)

  /** `if (editingEventId)`: set and not the empty string. */
  predicate Editing(id: Option<string>) {
    id.Some? && id.value != ""
  }

  /** `data.x || ''` for an optional form value. */
  function OrEmpty(v: Option<string>): string {
    if v.Some? then v.value else ""
  }

  /** What `openModal(mode, data)` shows: the editing id, heading and Delete button follow the mode,
      the inputs are filled from `data` (missing keys become empty) and the errors are cleared. */
  function Opened(mode: Mode, data: Patch): (m: Modal)
    ensures m.open && m.titleError == "" && m.dateError == ""
    ensures m.editingId.Some? <==> mode.Edit?
    ensures m.deleteVisible <==> mode.Edit?
    ensures mode.Edit? ==> m.editingId == Some(mode.id) && m.heading == EditHeading
    ensures mode.Add? ==> m.heading == NewHeading
    ensures data.title.Some? ==> m.form.title == data.title.value
    ensures data.title.None? ==> m.form.title == ""
    ensures data.date.Some? ==> m.form.date == data.date.value
    ensures data.date.None? ==> m.form.date == ""
    ensures data.time.Some? ==> m.form.time == data.time.value
    ensures data.time.None? ==> m.form.time == ""
    ensures data.description.Some? ==> m.form.description == data.description.value
    ensures data.description.None? ==> m.form.description == ""
  {
    Modal(true, if mode.Edit? then Some(mode.id) else None,
          if mode.Edit? then EditHeading else NewHeading, mode.Edit?,
          Form(OrEmpty(data.title), OrEmpty(data.date), OrEmpty(data.time), OrEmpty(data.description)),
          "", "")
  }

  /** What `closeModal()` leaves: hidden, nothing edited, the form reset, no errors;
      the heading and the Delete button keep their last state. */
  function Closed(m: Modal): (r: Modal)
    ensures !r.open && r.editingId == None && r.form == EmptyForm && r.titleError == "" && r.dateError == ""
    ensures r.heading == m.heading && r.deleteVisible == m.deleteVisible
  {
    m.(open := false, editingId := None, form := EmptyForm, titleError := "", dateError := "")
  }

  /** Typing into an input or choosing a value; the title and date inputs' `input` handlers also
      clear their own error text. */
  function Typed(m: Modal, which: Input, value: string): (r: Modal)
    ensures r.open == m.open && r.editingId == m.editingId
    ensures r.heading == m.heading && r.deleteVisible == m.deleteVisible
    ensures which == TitleInput ==> r.form == m.form.(title := value) && r.titleError == "" && r.dateError == m.dateError
    ensures which == DateInput ==> r.form == m.form.(date := value) && r.dateError == "" && r.titleError == m.titleError
    ensures which == TimeInput ==> r.form == m.form.(time := value) && r.titleError == m.titleError && r.dateError == m.dateError
    ensures which == DescriptionInput ==>
      r.form == m.form.(description := value) && r.titleError == m.titleError && r.dateError == m.dateError
  {
    match which
    case TitleInput => m.(form := m.form.(title := value), titleError := "")
    case DateInput => m.(form := m.form.(date := value), dateError := "")
    case TimeInput => m.(form := m.form.(time := value))
    case DescriptionInput => m.(form := m.form.(description := value))
  }

  /** The record `{ title, date, time, description }` the submit handler builds from the inputs:
      title and description trimmed, date and time as they are. */
  function Submitted(f: Form): (r: Fields)
    ensures r.date == f.date && r.time == f.time
    ensures r.title == JsText.Trim(f.title) && r.description == JsText.Trim(f.description)
  {
    Fields(JsText.Trim(f.title), f.date, f.time, JsText.Trim(f.description))
  }

  /** The submit handler's validation: the trimmed title and the date must both be non-empty. */
  predicate Acceptable(f: Form) {
    JsText.Trim(f.title) != "" && f.date != ""
  }

  /** The error texts a submit shows: one per empty required field. */
  function Rejected(m: Modal): (r: Modal)
    ensures r.open == m.open && r.editingId == m.editingId && r.form == m.form
    ensures r.heading == m.heading && r.deleteVisible == m.deleteVisible
    ensures r.titleError == TitleRequired <==> JsText.Trim(m.form.title) == ""
    ensures r.titleError == "" <==> JsText.Trim(m.form.title) != ""
    ensures r.dateError == DateRequired <==> m.form.date == ""
    ensures r.dateError == "" <==> m.form.date != ""
  {
    m.(titleError := if JsText.Trim(m.form.title) == "" then TitleRequired else "",
       dateError := if m.form.date == "" then DateRequired else "")
  }

  /** A modal that fails validation shows at least one error, and a blank-looking title
      (white space only) is always rejected. */
  lemma RejectedShowsError(m: Modal)
    requires !Acceptable(m.form)
    ensures Rejected(m).titleError != "" || Rejected(m).dateError != ""
    ensures JsText.AllWhiteSpace(m.form.title) ==> Rejected(m).titleError == TitleRequired
  {
    JsText.TrimEmptyIff(m.form.title);
  }

  /** A submitted record has a title that is neither empty nor padded with white space. */
  lemma SubmittedTitleTrimmed(f: Form)
    requires Acceptable(f)
    ensures var t := Submitted(f).title;
      t != "" && !JsText.IsJsWhiteSpace(t[0]) && !JsText.IsJsWhiteSpace(t[|t| - 1])
    ensures JsText.Trim(Submitted(f).title) == Submitted(f).title
  {
    var i, j := JsText.TrimSlice(f.title);
    JsText.TrimIdempotent(f.title);
  }

  class Calendar {
    var current: YearMonth
    var mini: YearMonth
    var modal: Modal
    var mainGrid: seq<Cell>
    var miniGrid: seq<MiniCell>
    /** The today strings the grids were last rendered with. */
    ghost var mainToday: string
    ghost var miniToday: string
    const store: EventStore

    /** The page invariant: both anchors are months, a hidden dialog edits nothing, and each grid
        shows its anchor month, the main one with the stored events. */
    ghost predicate Valid()
      reads this, store
    {
      && current.Valid() && mini.Valid()
      && (!modal.open ==> modal.editingId == None)
      && mainGrid == MonthGrid(current, MonthLayout(current), store.Events(), mainToday)
      && miniGrid == MiniMonth(mini, MonthLayout(mini), miniToday)
    }

    /** Page load: both anchors on today's month, storage as found, the dialog hidden, both grids drawn. */
    constructor (today: CalDate, initial: Slot)
      requires today.Valid()
      ensures current == today.Month() && mini == today.Month()
      ensures !modal.open && modal.editingId == None && modal.form == EmptyForm
      ensures fresh(store) && store.slot == initial
      ensures mainToday == TodayStr(today) && miniToday == TodayStr(today)
      ensures Valid()
    {
      current := today.Month();
      mini := today.Month();
      modal := Modal(false, None, NewHeading, false, EmptyForm, "", "");
      store := new EventStore(initial);
      new;
      var events := store.GetEvents();
      mainGrid := BuildMonthGrid(current, events, today);
      mainToday := TodayStr(today);
      miniGrid := BuildMiniGrid(mini, today);
      miniToday := TodayStr(today);
    }

    /** `renderCalendar()`: redraw the main grid from storage. */
    method RenderCalendar(today: CalDate)
      requires current.Valid()
      modifies this
      ensures current == old(current) && mini == old(mini) && modal == old(modal)
      ensures miniGrid == old(miniGrid) && miniToday == old(miniToday)
      ensures mainGrid == MonthGrid(current, MonthLayout(current), store.Events(), TodayStr(today))
      ensures mainToday == TodayStr(today)
    {
      var events := store.GetEvents();
      mainGrid := BuildMonthGrid(current, events, today);
      mainToday := TodayStr(today);
    }

    /** `renderMiniCal()`: redraw the mini calendar. */
    method RenderMiniCal(today: CalDate)
      requires mini.Valid()
      modifies this
      ensures current == old(current) && mini == old(mini) && modal == old(modal)
      ensures mainGrid == old(mainGrid) && mainToday == old(mainToday)
      ensures miniGrid == MiniMonth(mini, MonthLayout(mini), TodayStr(today))
      ensures miniToday == TodayStr(today)
    {
      miniGrid := BuildMiniGrid(mini, today);
      miniToday := TodayStr(today);
    }

    /** The previous-month button: step the main anchor back a month and bring the mini calendar along. */
    method PrevMonth(today: CalDate)
      requires Valid()
      modifies this
      ensures current == AddMonths(old(current), -1) && current == Dates.PrevMonth(old(current))
      ensures mini == current && modal == old(modal)
      ensures mainToday == TodayStr(today) && miniToday == TodayStr(today)
      ensures Valid()
    {
      current := AddMonths(current, -1);
      NeighboursAreMonthShifts(old(current));
      mini := current;
      RenderCalendar(today);
      RenderMiniCal(today);
    }

    /** The next-month button. */
    method NextMonth(today: CalDate)
      requires Valid()
      modifies this
      ensures current == AddMonths(old(current), 1) && current == Dates.NextMonth(old(current))
      ensures mini == current && modal == old(modal)
      ensures mainToday == TodayStr(today) && miniToday == TodayStr(today)
      ensures Valid()
    {
      current := AddMonths(current, 1);
      NeighboursAreMonthShifts(old(current));
      mini := current;
      RenderCalendar(today);
      RenderMiniCal(today);
    }

    /** The Today button: both anchors on today's month. */
    method GoToday(today: CalDate)
      requires Valid() && today.Valid()
      modifies this
      ensures current == today.Month() && mini == today.Month() && modal == old(modal)
      ensures mainToday == TodayStr(today) && miniToday == TodayStr(today)
      ensures Valid()
    {
      current := YearMonth(today.year, today.month);
      mini := current;
      RenderCalendar(today);
      RenderMiniCal(today);
    }

    /** The mini calendar's arrows (`data-dir` of -1 or 1): only the mini anchor moves. */
    method MiniStep(dir: int, today: CalDate)
      requires Valid()
      modifies this
      ensures mini == AddMonths(old(mini), dir)
      ensures current == old(current) && mainGrid == old(mainGrid) && modal == old(modal)
      ensures miniToday == TodayStr(today)
      ensures Valid()
    {
      mini := AddMonths(mini, dir);
      RenderMiniCal(today);
    }

    /** A click on mini cell `i`: a day of the shown month moves the main calendar to that month;
        a filler day (no `mc-day` class, empty `data-date`) does nothing. */
    method ClickMiniDay(i: int, today: CalDate)
      requires Valid() && 0 <= i < GridSize
      modifies this
      ensures old(miniGrid[i]).selectable ==> current == old(mini) && mainToday == TodayStr(today)
      ensures !old(miniGrid[i]).selectable ==> current == old(current) && mainGrid == old(mainGrid)
      ensures mini == old(mini) && miniGrid == old(miniGrid) && modal == old(modal)
      ensures Valid()
    {
      var cell := miniGrid[i];
      MiniSelectableJumps(mini, miniToday, i);
      if cell.selectable && cell.date != "" {
        var target := Navigation.JumpTarget(cell.date);
        if target.Some? {
          current := target.value;
          RenderCalendar(today);
        }
      }
    }

    /** `openModal(mode, data)`. */
    method OpenModal(mode: Mode, data: Patch)
      requires Valid()
      modifies this
      ensures modal == Opened(mode, data)
      ensures current == old(current) && mini == old(mini) && mainGrid == old(mainGrid) && miniGrid == old(miniGrid)
      ensures Valid()
    {
      modal := Opened(mode, data);
    }

    /** `closeModal()`; the Cancel and close buttons call it directly. */
    method CloseModal()
      requires Valid()
      modifies this
      ensures modal == Closed(old(modal))
      ensures current == old(current) && mini == old(mini) && mainGrid == old(mainGrid) && miniGrid == old(miniGrid)
      ensures Valid()
    {
      modal := Closed(modal);
    }

    /** The Create button: a new event on today's date. */
    method ClickCreate(today: CalDate)
      requires Valid()
      modifies this
      ensures modal.open && modal.editingId == None && modal.heading == NewHeading && !modal.deleteVisible
      ensures modal.form == Form("", TodayStr(today), "", "")
      ensures modal == Opened(Add, Patch(None, Some(TodayStr(today)), None, None))
      ensures current == old(current) && mainGrid == old(mainGrid)
      ensures mini == old(mini) && miniGrid == old(miniGrid)
      ensures Valid()
    {
      OpenModal(Add, Patch(None, Some(TodayStr(today)), None, None));
    }

    /** A click on day cell `i` (not on a chip): a day of the shown month opens the add form on its
        date; a filler day (`outside`) does nothing. */
    method ClickDay(i: int)
      requires Valid() && 0 <= i < GridSize
      modifies this
      ensures !old(mainGrid[i]).outside ==>
        modal.open && modal.editingId == None && modal.form == Form("", old(mainGrid[i]).date, "", "")
      ensures !old(mainGrid[i]).outside ==>
        modal == Opened(Add, Patch(None, Some(old(mainGrid[i]).date), None, None))
      ensures old(mainGrid[i]).outside ==> modal == old(modal)
      ensures mainGrid == old(mainGrid) && current == old(current)
      ensures mini == old(mini) && miniGrid == old(miniGrid)
      ensures Valid()
    {
      var cell := mainGrid[i];
      if !cell.outside {
        OpenModal(Add, Patch(None, Some(cell.date), None, None));
      }
    }

    /** Every chip in the main grid stands for a record in storage. */
    lemma ChipEventStored(i: int, k: int)
      requires Valid() && 0 <= i < GridSize && 0 <= k < |mainGrid[i].events|
      ensures mainGrid[i].events[k] in store.Events()
      ensures mainGrid[i].events[k].id in Ids(store.Events())
    {
      var c := MainCell(current, MonthLayout(current), store.Events(), mainToday, i);
      assert mainGrid[i] == c;
      assert c.events[k] in c.events;
    }

    /** A click on chip `k` of day cell `i`: look the record up by the chip's id in storage; it is
        always there, and the edit form opens filled from the first record holding that id. */
    method ClickChip(i: int, k: int)
      requires Valid() && 0 <= i < GridSize && 0 <= k < |mainGrid[i].events|
      modifies this
      ensures var id := old(mainGrid[i].events[k].id);
        var e := Find(store.Events(), id);
        && e.Some? && e.value.id == id
        && modal == Opened(Edit(id), Patch(Some(e.value.title), Some(e.value.date), Some(e.value.time), Some(e.value.description)))
      ensures mainGrid == old(mainGrid) && current == old(current)
      ensures mini == old(mini) && miniGrid == old(miniGrid)
      ensures Valid()
    {
      var eventId := mainGrid[i].events[k].id;
      var events := store.GetEvents();
      ChipEventStored(i, k);
      FindAgreesWithFindIndex(events, eventId);
      var evt := Find(events, eventId);
      if evt.Some? {
        var e := evt.value;
        OpenModal(Edit(e.id), Patch(Some(e.title), Some(e.date), Some(e.time), Some(e.description)));
      }
    }

    /** An `input` event on one of the form's inputs. */
    method OnInput(which: Input, value: string)
      requires Valid()
      modifies this
      ensures modal == Typed(old(modal), which, value)
      ensures current == old(current) && mainGrid == old(mainGrid)
      ensures mini == old(mini) && miniGrid == old(miniGrid)
      ensures Valid()
    {
      modal := Typed(modal, which, value);
    }

    /** The form's submit handler. An empty trimmed title or an empty date only sets the error texts.
        Otherwise the trimmed record is written (an update when editing, an add under `freshId`
        otherwise, which stands for `crypto.randomUUID()`), the dialog closes and the grid is redrawn. */
    method Submit(freshId: string, writeOk: bool, today: CalDate)
      requires Valid()
      requires !Editing(modal.editingId) ==> freshId !in Ids(store.Events())
      modifies this, store
      ensures !Acceptable(old(modal).form) ==>
        modal == Rejected(old(modal)) && store.slot == old(store.slot) && mainGrid == old(mainGrid)
      ensures Acceptable(old(modal).form) ==>
        var data := Submitted(old(modal).form);
        && store.Events() == (
             if Editing(old(modal).editingId) then
               (if writeOk then Updated(old(store.Events()), old(modal).editingId.value, FullPatch(data)) else old(store.Events()))
             else
               (if writeOk then old(store.Events()) + [NewEvent(freshId, data)] else old(store.Events())))
        && modal == Closed(old(modal))
        && mainToday == TodayStr(today)
      ensures current == old(current) && mini == old(mini) && miniGrid == old(miniGrid)
      ensures Valid()
    {
      var title := JsText.Trim(modal.form.title);
      var date := modal.form.date;
      var time := modal.form.time;
      var description := JsText.Trim(modal.form.description);
      var titleError, dateError := "", "";
      var valid := true;
      if title == "" {
        titleError := TitleRequired;
        valid := false;
      }
      if date == "" {
        dateError := DateRequired;
        valid := false;
      }
      if !valid {
        modal := modal.(titleError := titleError, dateError := dateError);
        return;
      }
      var data := Fields(title, date, time, description);
      if Editing(modal.editingId) {
        store.UpdateEvent(modal.editingId.value, FullPatch(data), writeOk);
      } else {
        store.AddEvent(data, freshId, writeOk);
      }
      modal := Closed(modal);
      RenderCalendar(today);
    }

    /** The Delete button: only while editing; removes the record, closes the dialog, redraws. */
    method Delete(writeOk: bool, today: CalDate)
      requires Valid()
      modifies this, store
      ensures Editing(old(modal).editingId) ==>
        && store.Events() == (if writeOk then WithoutId(old(store.Events()), old(modal).editingId.value) else old(store.Events()))
        && modal == Closed(old(modal)) && mainToday == TodayStr(today)
      ensures !Editing(old(modal).editingId) ==>
        store.slot == old(store.slot) && modal == old(modal) && mainGrid == old(mainGrid)
      ensures current == old(current) && mini == old(mini) && miniGrid == old(miniGrid)
      ensures Valid()
    {
      if Editing(modal.editingId) {
        store.DeleteEvent(modal.editingId.value, writeOk);
        modal := Closed(modal);
        RenderCalendar(today);
      }
    }

    /** Escape closes the dialog only when it is showing. */
    method PressEscape()
      requires Valid()
      modifies this
      ensures modal == if old(modal).open then Closed(old(modal)) else old(modal)
      ensures current == old(current) && mainGrid == old(mainGrid)
      ensures mini == old(mini) && miniGrid == old(miniGrid)
      ensures Valid()
    {
      if modal.open {
        CloseModal();
      }
    }

    /** A click on the overlay closes the dialog only when it lands on the backdrop itself. */
    method ClickOverlay(onBackdrop: bool)
      requires Valid()
      modifies this
      ensures modal == if onBackdrop then Closed(old(modal)) else old(modal)
      ensures current == old(current) && mainGrid == old(mainGrid)
      ensures mini == old(mini) && miniGrid == old(miniGrid)
      ensures Valid()
    {
      if onBackdrop {
        CloseModal();
      }
    }
  }
}
