/** The button handlers of the diary page, each tying the calendar state and
    the entry store together as the page's event listeners do. Dialogs
    become parameters: `confirmed` is the answer to `confirm`, and `today`
    is what `new Date()` reads. */
module App {

  import opened Results
  import opened Text
  import opened Dates
  import opened DateKeys
  import opened Store
  import opened Calendar
  import opened Listing

  /** How a button press that writes ends. */
  datatype Outcome =
    | EmptyInput                 // the save button's alert for an empty field
    | Cancelled                  // the confirmation dialog was dismissed
    | Done                       // the record was written
    | Failed(error: StoreError)  // reading the record threw

  /** What `renderCalendar` shows: the month label, the grid, and the
      editor's text for the selected date. */
  datatype View = View(labelYear: int, labelMonth: int, cells: seq<Cell>, editorText: string)

  /** `renderCalendar`. The grid is the month of `new Date(currentYear,
      currentMonth, 1)`, whose year is JsYear(currentYear), while the label
      prints `currentYear` itself. */
  method Render(cal: CalendarState, store: EntryStore, today: Date) returns (r: Result<View, StoreError>)
    requires cal.Valid() && ValidDate(today)
    ensures r.Err? <==> store.slot.Unparsable?
    ensures r.Ok? ==> r.value.labelYear == cal.currentYear && r.value.labelMonth == cal.currentMonth + 1
    ensures r.Ok? ==> IsMonthGrid(r.value.cells, JsYear(cal.currentYear), cal.currentMonth, FormatDate(today), store.Load().value)
    ensures r.Ok? ==> r.value.editorText == EntryText(store.Load().value, FormatDate(cal.selectedDate))
  {
    var todayStr := FormatDate(today);
    var loaded := store.Load();
    if loaded.Err? {
      return Err(loaded.error);
    }
    var diaries := loaded.value;
    var cells := RenderGrid(JsYear(cal.currentYear), cal.currentMonth, todayStr, diaries);
    r := Ok(View(cal.currentYear, cal.currentMonth + 1, cells, EntryText(diaries, FormatDate(cal.selectedDate))));
  }

  /** The save button. Only a completely empty field is refused; a field of
      white space alone reaches `saveDiaryEntry`, which deletes the entry. */
  method ClickSave(cal: CalendarState, store: EntryStore, field: string) returns (o: Outcome)
    requires cal.Valid()
    modifies store
    ensures field == "" ==> o == EmptyInput && store.slot == old(store.slot)
    ensures field != "" && old(store.slot).Unparsable? ==> o == Failed(MalformedRecord) && store.slot == old(store.slot)
    ensures field != "" && !old(store.slot).Unparsable? ==>
              o == Done && store.slot == Stored(Upsert(old(store.Load()).value, FormatDate(cal.selectedDate), field))
  {
    if field == "" {
      return EmptyInput;
    }
    var saved := store.Save(FormatDate(cal.selectedDate), field);
    o := if saved.Err? then Failed(saved.error) else Done;
  }

  /** The delete button, after its confirmation dialog. */
  method ClickDelete(cal: CalendarState, store: EntryStore, confirmed: bool) returns (o: Outcome)
    requires cal.Valid()
    modifies store
    ensures !confirmed ==> o == Cancelled && store.slot == old(store.slot)
    ensures confirmed && old(store.slot).Unparsable? ==> o == Failed(MalformedRecord) && store.slot == old(store.slot)
    ensures confirmed && !old(store.slot).Unparsable? ==>
              o == Done && store.slot == Stored(Remove(old(store.Load()).value, FormatDate(cal.selectedDate)))
  {
    if !confirmed {
      return Cancelled;
    }
    var deleted := store.Delete(FormatDate(cal.selectedDate));
    o := if deleted.Err? then Failed(deleted.error) else Done;
  }

  /** The clear-all button, after its confirmation dialog: the record is
      removed whatever it held. */
  method ClickClearAll(store: EntryStore, confirmed: bool) returns (o: Outcome)
    modifies store
    ensures !confirmed ==> o == Cancelled && store.slot == old(store.slot)
    ensures confirmed ==> o == Done && store.slot == Absent && store.Load() == Ok(map[])
  {
    if !confirmed {
      return Cancelled;
    }
    store.ClearAll();
    o := Done;
  }

  /** The show-all button: every entry newest first, with no match count. */
  method ClickShowAll(store: EntryStore) returns (r: Result<ListView, StoreError>)
    ensures r.Err? <==> store.slot.Unparsable?
    ensures r.Ok? ==> var d := store.Load().value;
              && Descending(r.value.dates) && r.value.total == |r.value.dates| == |d|
              && (forall k :: k in r.value.dates <==> k in d)
              && r.value.matchCount == 0
              && r.value.exportText == ExportText(r.value.dates, d)
  {
    var loaded := store.Load();
    if loaded.Err? {
      return Err(loaded.error);
    }
    var v := DisplayDiariesList(loaded.value, "");
    r := Ok(v);
  }

  /** Why the search button shows no list. */
  datatype SearchFailure = TermRejected | StoreFailed(error: StoreError)

  /** The search button: a term that trims to nothing is refused before
      the record is read; otherwise the matching entries are listed. */
  method ClickSearch(store: EntryStore, input: string) returns (r: Result<ListView, SearchFailure>)
    ensures Blank(input) ==> r == Err(TermRejected)
    ensures !Blank(input) && store.slot.Unparsable? ==> r == Err(StoreFailed(MalformedRecord))
    ensures !Blank(input) && !store.slot.Unparsable? ==> r.Ok?
    ensures r.Ok? ==> var d := store.Load().value;
              && (forall k :: k in r.value.dates <==> k in d && Contains(d[k], Trim(input)))
              && Descending(r.value.dates) && r.value.total == |r.value.dates|
              && r.value.matchCount == MatchTotal(r.value.dates, d, Trim(input)) >= r.value.total
              && r.value.exportText == ExportText(r.value.dates, d)
  {
    if Trim(input) == "" {
      return Err(TermRejected);
    }
    var loaded := store.Load();
    if loaded.Err? {
      return Err(StoreFailed(loaded.error));
    }
    var found := Search(loaded.value, input);
    r := Ok(found.value);
  }

}
