/** The upload route that creates an event (`create_event`) and the password
    check (`validate_password`) of the web service. The database is seen only
    through the statements the route hands to it, recorded in a `Store`. */
module App {

  import opened Wrappers
  import opened Decimal
  import opened Classes
  import opened RosterImport

  // ---------------------------------------------------------------------
  // Password check

  /** The supplied password is accepted exactly when the PASSWORD variable is
      set and equal to it; an unset variable accepts nothing. */
  function ValidatePassword(pw: string, configured: Option<string>): (ok: bool)
    ensures ok <==> configured == Some(pw)
  {
    match configured
    case None => false
    case Some(password) => pw == password
  }

  // ---------------------------------------------------------------------
  // What the route asks of the database

  /** One statement of the route: the event row, one section row, or the bulk
      rider insert with the text of its VALUES list. */
  datatype Statement =
    | EventRow(name: Option<string>, location: Option<string>, date: Option<string>, lapCount: int)
    | SectionRow(eventId: int, sectionNumber: int)
    | RiderRows(values: string)

  /** The statements handed to the database, in order, and the id the next
      event row receives. */
  class Store {
    var issued: seq<Statement>
    var nextId: int

    constructor (firstId: int)
      ensures issued == [] && nextId == firstId
    {
      issued := [];
      nextId := firstId;
    }

    /** CREATE_EVENT: inserts the event row and yields its new id. */
    method InsertEvent(name: Option<string>, location: Option<string>, date: Option<string>, lapCount: int)
      returns (id: int)
      modifies this
      ensures issued == old(issued) + [EventRow(name, location, date, lapCount)]
      ensures id == old(nextId) && nextId == old(nextId) + 1
    {
      issued := issued + [EventRow(name, location, date, lapCount)];
      id := nextId;
      nextId := nextId + 1;
    }

    /** CREATE_SECTION */
    method InsertSection(eventId: int, sectionNumber: int)
      modifies this`issued
      ensures issued == old(issued) + [SectionRow(eventId, sectionNumber)]
    {
      issued := issued + [SectionRow(eventId, sectionNumber)];
    }

    /** CREATE_RIDERS */
    method InsertRiders(values: string)
      modifies this`issued
      ensures issued == old(issued) + [RiderRows(values)]
    {
      issued := issued + [RiderRows(values)];
    }
  }

  // ---------------------------------------------------------------------
  // Sections

  /** The numbers `range(1, n + 1)` yields: 1 to n in ascending order, and
      none when n is below 1. */
  function SectionNumbers(n: int): (r: seq<int>)
    ensures |r| == if n < 1 then 0 else n
    ensures forall k :: 0 <= k < |r| ==> r[k] == k + 1
  {
    if n < 1 then [] else SectionNumbers(n - 1) + [n]
  }

  function SectionStatements(eventId: int, n: int): seq<Statement> {
    var numbers := SectionNumbers(n);
    seq(|numbers|, k requires 0 <= k < |numbers| => SectionRow(eventId, numbers[k]))
  }

  /** The section loop: one section row per number, in ascending order. */
  method CreateSections(store: Store, eventId: int, sections: int)
    modifies store`issued
    ensures store.issued == old(store.issued) + SectionStatements(eventId, sections)
  {
    var i := 1;
    while i <= sections
      invariant if sections < 1 then i == 1 else 1 <= i <= sections + 1
      invariant store.issued == old(store.issued) + SectionStatements(eventId, i - 1)
    {
      store.InsertSection(eventId, i);
      assert SectionStatements(eventId, i) == SectionStatements(eventId, i - 1) + [SectionRow(eventId, i)];
      i := i + 1;
    }
    assert SectionStatements(eventId, sections) == SectionStatements(eventId, i - 1);
  }

  // ---------------------------------------------------------------------
  // The roster loop

  /** The roster loop of the route: skips rows with a null cell, stops at the
      first repeated number, and otherwise accumulates one tuple and a comma
      per row and finally drops the last character. */
  method BuildRiderValues(eventId: int, rows: seq<Row>) returns (r: RosterResult)
    ensures r == Roster(eventId, rows)
  {
    var processedNumbers: set<int> := {};
    var insertQuery := "";
    ghost var accepted: seq<Rider> := [];
    var i := 0;
    while i < |rows|
      invariant 0 <= i <= |rows|
      invariant accepted == EntriesUpTo(rows, i)
      invariant Distinct(accepted)
      invariant processedNumbers == Numbers(accepted)
      invariant insertQuery == Accumulated(eventId, accepted)
    {
      var row := rows[i];
      if IsNull(row) {
        SkipRow(rows, i);
        i := i + 1;
        continue;
      }
      var number, name, klass := row.number.value, row.name.value, row.klass.value;
      if number in processedNumbers {
        RosterAtDuplicate(eventId, rows, i);
        return DuplicateRider(number, name, klass);
      }
      var className := GetClass(klass);
      var tuple := RiderTuple(eventId, number, name, className);
      AcceptRow(rows, i, eventId, "", accepted, insertQuery, tuple);
      processedNumbers := processedNumbers + {number};
      insertQuery := insertQuery + Render(tuple) + ",";
      accepted := accepted + [RiderOf(row)];
      i := i + 1;
    }
    RosterOfDistinct(eventId, rows);
    insertQuery := DropLast(insertQuery);
    r := Riders(insertQuery);
  }

  // ---------------------------------------------------------------------
  // The route

  /** A form field read with `int()`: absent (the form has no such field),
      text that `int()` rejects, or the integer it yields. */
  datatype FormInt = Missing | NotAnInteger | Integer(value: int)

  datatype Form = Form(
    eventName: Option<string>,
    location: Option<string>,
    date: Option<string>,
    sections: FormInt,
    lapCount: FormInt)

  datatype ApiError =
    | NotIntegers                     // "Sections and laps must be integers"
    | InvalidFileFormat               // "Invalid file format"
    | DuplicateNumber(number: int, name: string, klass: string)

  /** 200 with a success message, 400 with an error, or 500. */
  datatype Response = Created | BadRequest(error: ApiError) | ServerError

  datatype Outcome = Outcome(response: Response, issued: seq<Statement>)

  predicate EqualLengths(s: Sheet)
    requires HasColumns(s)
  {
    |s.numbers.value| == |s.names.value| && |s.names.value| == |s.classes.value|
  }

  /** What the route answers and which statements it issues, given the form,
      the uploaded sheet (`None` when the file is absent or unreadable) and
      the id the store gives the new event row. */
  function CreateEventSpec(form: Form, upload: Option<Sheet>, newId: int): (o: Outcome)
    ensures o.issued == [] <==>
      !(form.sections.Integer? && form.lapCount.Integer? && upload.Some? && HasColumns(upload.value))
    ensures o.issued != [] ==> o.issued[0] == EventRow(form.eventName, form.location, form.date, form.lapCount.value)
  {
    if form.sections.Missing? || (form.sections.Integer? && form.lapCount.Missing?) then
      Outcome(ServerError, [])
    else if !form.sections.Integer? || !form.lapCount.Integer? then
      Outcome(BadRequest(NotIntegers), [])
    else if upload.None? then
      Outcome(ServerError, [])
    else if !HasColumns(upload.value) then
      Outcome(BadRequest(InvalidFileFormat), [])
    else
      var created := [EventRow(form.eventName, form.location, form.date, form.lapCount.value)]
        + SectionStatements(newId, form.sections.value);
      ImportOutcome(upload.value, newId, created)
  }

  /** The part of the route after the event and its sections are written
      (`created`): the length check and the roster. */
  function ImportOutcome(sheet: Sheet, newId: int, created: seq<Statement>): (o: Outcome)
    requires HasColumns(sheet)
    ensures o.response == Created || (o.response.BadRequest? && o.issued == created)
    ensures o.response == Created <==> EqualLengths(sheet) && !HasRepeat(SheetRows(sheet))
  {
    RosterRejectsIffRepeat(newId, SheetRows(sheet));
    if !EqualLengths(sheet) then
      Outcome(BadRequest(InvalidFileFormat), created)
    else
      match Roster(newId, SheetRows(sheet))
      case DuplicateRider(n, nm, c) => Outcome(BadRequest(DuplicateNumber(n, nm, c)), created)
      case Riders(values) => Outcome(Created, created + [RiderRows(values)])
  }

  /** `create_event`: the answer and the statements issued are those of
      `CreateEventSpec` for the id the store hands out. */
  method CreateEvent(store: Store, form: Form, upload: Option<Sheet>) returns (resp: Response)
    modifies store
    ensures var o := CreateEventSpec(form, upload, old(store.nextId));
      resp == o.response && store.issued == old(store.issued) + o.issued
    ensures store.nextId == old(store.nextId) + (if CreateEventSpec(form, upload, old(store.nextId)).issued == [] then 0 else 1)
  {
    // int(None) raises a TypeError, which the ValueError handler lets through.
    if form.sections.Missing? {
      return ServerError;
    } else if form.sections.NotAnInteger? {
      return BadRequest(NotIntegers);
    }
    var sections := form.sections.value;
    if form.lapCount.Missing? {
      return ServerError;
    } else if form.lapCount.NotAnInteger? {
      return BadRequest(NotIntegers);
    }
    var lapCount := form.lapCount.value;

    if upload.None? {
      return ServerError;
    }
    var df := upload.value;
    if df.numbers.None? || df.names.None? || df.classes.None? {
      return BadRequest(InvalidFileFormat);
    }
    var eventId := store.InsertEvent(form.eventName, form.location, form.date, lapCount);
    CreateSections(store, eventId, sections);
    ghost var created := [EventRow(form.eventName, form.location, form.date, lapCount)]
      + SectionStatements(eventId, sections);
    assert store.issued == old(store.issued) + created;
    assert CreateEventSpec(form, upload, old(store.nextId)) == ImportOutcome(df, eventId, created);
    resp := ImportRiders(store, df, eventId, old(store.issued), created);
  }

  /** The route once the event and its sections are written (`created`, after
      the statements `before`): the length check, the roster loop and the
      rider insert. */
  method ImportRiders(store: Store, df: Sheet, eventId: int, ghost before: seq<Statement>, ghost created: seq<Statement>)
    returns (resp: Response)
    requires HasColumns(df)
    requires store.issued == before + created
    modifies store`issued
    ensures var o := ImportOutcome(df, eventId, created);
      resp == o.response && store.issued == before + o.issued
  {
    var number, name, klass := df.numbers.value, df.names.value, df.classes.value;
    if |number| != |name| || |name| != |klass| {
      return BadRequest(InvalidFileFormat);
    }
    var roster := BuildRiderValues(eventId, Zip(number, name, klass));
    if roster.DuplicateRider? {
      return BadRequest(DuplicateNumber(roster.number, roster.name, roster.klass));
    }
    store.InsertRiders(roster.values);
    resp := Created;
  }

  // ---------------------------------------------------------------------
  // Properties of the route

  /** A field that `int()` rejects is answered with 400 before anything is
      written; an absent field is a 500, equally before anything is written. */
  lemma NonIntegerFieldsRejected(form: Form, upload: Option<Sheet>, newId: int)
    requires !form.sections.Integer? || !form.lapCount.Integer?
    ensures var o := CreateEventSpec(form, upload, newId);
      && o.issued == []
      && o.response == (if form.sections.NotAnInteger? || (form.sections.Integer? && form.lapCount.NotAnInteger?)
                        then BadRequest(NotIntegers) else ServerError)
  {
  }

  /** A sheet without the NUMBER, NAME or CLASS column is answered with 400
      before the event row is written. */
  lemma MissingColumnRejected(form: Form, sheet: Sheet, newId: int)
    requires form.sections.Integer? && form.lapCount.Integer?
    requires !HasColumns(sheet)
    ensures CreateEventSpec(form, Some(sheet), newId) == Outcome(BadRequest(InvalidFileFormat), [])
  {
  }

  /** Columns of unequal lengths are answered with 400 after the event and its
      sections are written and before any rider is. */
  lemma UnequalColumnsRejected(form: Form, sheet: Sheet, newId: int)
    requires form.sections.Integer? && form.lapCount.Integer?
    requires HasColumns(sheet) && !EqualLengths(sheet)
    ensures var o := CreateEventSpec(form, Some(sheet), newId);
      && o.response == BadRequest(InvalidFileFormat)
      && o.issued == [EventRow(form.eventName, form.location, form.date, form.lapCount.value)]
                     + SectionStatements(newId, form.sections.value)
  {
  }

  /** Section rows are issued only once the columns are present, for the new
      event and with numbers within 1..sections, in ascending order. */
  lemma SectionsOnlyAfterColumnCheck(form: Form, upload: Option<Sheet>, newId: int)
    ensures var o := CreateEventSpec(form, upload, newId);
      && (forall k :: 0 <= k < |o.issued| && o.issued[k].SectionRow? ==>
            && form.sections.Integer? && form.lapCount.Integer?
            && upload.Some? && HasColumns(upload.value)
            && o.issued[k] == SectionRow(newId, k))
  {
    var o := CreateEventSpec(form, upload, newId);
    if o.issued != [] {
      var head := EventRow(form.eventName, form.location, form.date, form.lapCount.value);
      var created := [head] + SectionStatements(newId, form.sections.value);
      var tail := o.issued[|created|..];
      assert o.issued == created + tail;
      assert forall t :: t in tail ==> t.RiderRows?;
      SectionRowsNumbered(head, newId, form.sections.value, tail);
    }
  }

  /** Between a leading row and trailing rows that are not section rows, the
      section row at position `k` has number `k`. */
  lemma SectionRowsNumbered(head: Statement, eventId: int, n: int, tail: seq<Statement>)
    requires !head.SectionRow?
    requires forall t :: t in tail ==> !t.SectionRow?
    ensures var s := [head] + SectionStatements(eventId, n) + tail;
      forall k :: 0 <= k < |s| && s[k].SectionRow? ==> s[k] == SectionRow(eventId, k)
  {
    var sections := SectionStatements(eventId, n);
    var s := [head] + sections + tail;
    assert forall k :: 1 <= k <= |sections| ==> s[k] == sections[k - 1];
    assert forall k :: 1 + |sections| <= k < |s| ==> s[k] == tail[k - 1 - |sections|];
  }

  /** The rider insert is issued exactly when the route succeeds; then it is
      the last statement, after the event row and the section rows, and its
      values are the roster of the sheet's rows for the new event. */
  lemma RidersInsertedIffCreated(form: Form, upload: Option<Sheet>, newId: int)
    ensures var o := CreateEventSpec(form, upload, newId);
      && ((exists k :: 0 <= k < |o.issued| && o.issued[k].RiderRows?) <==> o.response == Created)
      && (o.response == Created ==>
            && upload.Some? && HasColumns(upload.value) && EqualLengths(upload.value)
            && Roster(newId, SheetRows(upload.value)).Riders?
            && o.issued == [EventRow(form.eventName, form.location, form.date, form.lapCount.value)]
                           + SectionStatements(newId, form.sections.value)
                           + [RiderRows(Roster(newId, SheetRows(upload.value)).values)])
  {
    var o := CreateEventSpec(form, upload, newId);
    if o.response == Created {
      assert o.issued[|o.issued| - 1].RiderRows?;
    }
  }

  /** A repeated rider number among the non-null rows is answered with 400
      naming the later row of the first repeat; the event and its sections
      stay written and no rider is inserted. */
  lemma DuplicateRejected(form: Form, sheet: Sheet, newId: int)
    requires form.sections.Integer? && form.lapCount.Integer?
    requires HasColumns(sheet) && EqualLengths(sheet)
    requires HasRepeat(SheetRows(sheet))
    ensures var o := CreateEventSpec(form, Some(sheet), newId); var rows := SheetRows(sheet);
      && o.response.BadRequest? && o.response.error.DuplicateNumber?
      && o.issued == [EventRow(form.eventName, form.location, form.date, form.lapCount.value)]
                     + SectionStatements(newId, form.sections.value)
      && var e := o.response.error;
         exists j :: 0 <= j < |rows| && rows[j] == Row(Some(e.number), Some(e.name), Some(e.klass)) &&
           !HasRepeatUpTo(rows, j) &&
           (exists i :: 0 <= i < j && !IsNull(rows[i]) && rows[i].number == Some(e.number))
  {
    var rows := SheetRows(sheet);
    RosterRejectsIffRepeat(newId, rows);
    RosterNamesFirstRepeat(newId, rows);
  }

}
