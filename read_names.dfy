/** The stand-alone import script: the same roster loop over a workbook's
    NUMBER, NAME and CLASS columns, which stops at the first repeated number
    instead of rejecting the sheet, and ends the statement with a semicolon.
    The script writes its tuples for event 1; the loop is stated for any
    event id and the script is its instance for `ScriptEventId`. */
module ReadNames {

  import opened Wrappers
  import opened Decimal
  import opened Classes
  import opened RosterImport

  /** The statement text the script starts from. */
  const Header: string := "INSERT INTO Riders (event_id, rider_number, rider_name, class_id) VALUES "

  /** What the script prints when it keeps no rider. */
  const EmptyStatement: string := "INSERT INTO Riders (event_id, rider_number, rider_name, class_id) VALUES;"

  /** The event every tuple of the script belongs to. */
  const ScriptEventId: int := 1

  /** The riders the script keeps: those before the first repeated number. */
  function Kept(rows: seq<Row>): (kept: seq<Rider>)
    ensures var es := Entries(rows);
      && |kept| <= |es| && kept == es[..|kept|] && Distinct(kept)
      && (|kept| < |es| ==> es[|kept|].number in Numbers(kept))
  {
    var es := Entries(rows);
    es[..DupIndex(es)]
  }

  /** The statement the script prints for the tuples of `eventId`. */
  function ScriptQuery(eventId: int, rows: seq<Row>): (q: string)
    ensures |q| >= |Header| && q[|q| - 1] == ';'
  {
    DropLast(Header + Accumulated(eventId, Kept(rows))) + ";"
  }

  /** The script's loop: skips rows with a null cell, leaves the loop at the
      first repeated number keeping what it has, and finally replaces the
      last character with a semicolon. */
  method BuildInsertQuery(eventId: int, rows: seq<Row>) returns (query: string)
    ensures query == ScriptQuery(eventId, rows)
  {
    var insertQuery := Header;
    var processedNumbers: set<int> := {};
    ghost var accepted: seq<Rider> := [];
    var i := 0;
    while i < |rows|
      invariant 0 <= i <= |rows|
      invariant accepted == EntriesUpTo(rows, i)
      invariant Distinct(accepted)
      invariant processedNumbers == Numbers(accepted)
      invariant insertQuery == Header + Accumulated(eventId, accepted)
    {
      var row := rows[i];
      if IsNull(row) {
        SkipRow(rows, i);
        i := i + 1;
        continue;
      }
      var number, name, klass := row.number.value, row.name.value, row.klass.value;
      if number in processedNumbers {
        FirstDuplicateAt(rows, i);
        break;
      }
      var className := GetClass(klass);
      var tuple := RiderTuple(eventId, number, name, className);
      AcceptRow(rows, i, eventId, Header, accepted, insertQuery, tuple);
      processedNumbers := processedNumbers + {number};
      insertQuery := insertQuery + Render(tuple) + ",";
      accepted := accepted + [RiderOf(row)];
      i := i + 1;
    }
    if i == |rows| {
      var es := Entries(rows);
      assert es[..|es|] == es;
      DupIndexUnique(es, |es|);
    }
    assert accepted == Kept(rows);
    query := DropLast(insertQuery) + ";";
  }

  /** The whole script on a workbook: looking up a column the sheet lacks
      ends the script before it prints anything; otherwise it prints the
      statement for event 1. */
  method RunScript(sheet: Sheet) returns (output: Option<string>)
    ensures output.Some? <==> HasColumns(sheet)
    ensures output.Some? ==> output.value == ScriptQuery(ScriptEventId, SheetRows(sheet))
  {
    if !HasColumns(sheet) {
      return None;
    }
    var query := BuildInsertQuery(ScriptEventId, SheetRows(sheet));
    return Some(query);
  }

  /** With no tuple the space after VALUES is what the semicolon replaces. */
  lemma EmptyStatementText()
    ensures DropLast(Header) + ";" == EmptyStatement
  {
  }

  /** The kept riders have pairwise distinct numbers, and the statement is the
      header, the comma-joined tuples and a semicolon, or `EmptyStatement`
      when no rider is kept. */
  lemma ScriptQueryShape(eventId: int, rows: seq<Row>)
    ensures Distinct(Kept(rows))
    ensures Kept(rows) == [] ==> ScriptQuery(eventId, rows) == EmptyStatement
    ensures Kept(rows) != [] ==> ScriptQuery(eventId, rows) == Header + ValuesText(eventId, Kept(rows)) + ";"
  {
    var parts := RenderAll(Tuples(eventId, Kept(rows)));
    if |parts| > 0 {
      DropLastAfterPrefix(Header, parts);
    } else {
      assert Header + Terminated(parts) == Header;
      EmptyStatementText();
    }
  }

  /** A null row anywhere changes nothing: it is not recorded as seen. */
  lemma ScriptIgnoresNullRow(eventId: int, a: seq<Row>, r: Row, b: seq<Row>)
    requires IsNull(r)
    ensures ScriptQuery(eventId, a + [r] + b) == ScriptQuery(eventId, a + b)
  {
    NullRowSkipped(a, r, b);
  }

  /** Rows after the first repeated number never reach the statement. */
  lemma ScriptStopsAtFirstDuplicate(eventId: int, rows: seq<Row>, more: seq<Row>)
    requires HasRepeat(rows)
    ensures ScriptQuery(eventId, rows + more) == ScriptQuery(eventId, rows)
  {
    DupIndexStable(rows, more);
    var es, es' := Entries(rows), Entries(rows + more);
    var k := DupIndex(es);
    assert es'[..k] == es'[..k + 1][..k] == es[..k + 1][..k] == es[..k];
  }

  /** On a sheet with a repeated number the script keeps exactly the non-null
      rows before the row the upload route names in its rejection. */
  lemma ScriptKeepsRowsBeforeRepeat(eventId: int, rows: seq<Row>)
    requires HasRepeat(rows)
    ensures exists j :: 0 <= j < |rows| && !IsNull(rows[j]) && !HasRepeatUpTo(rows, j)
                     && Roster(eventId, rows) == DuplicateRider(rows[j].number.value, rows[j].name.value, rows[j].klass.value)
                     && Kept(rows) == EntriesUpTo(rows, j)
  {
    RosterRejectsIffRepeat(eventId, rows);
    var es := Entries(rows);
    var k := DupIndex(es);
    FirstRepeatRow(rows);
    var j := NonNullIndices(rows)[k];
    EntriesBefore(rows, |rows|, k);
    assert RiderOf(rows[j]) == es[k];
  }

  /** On a sheet without a repeated number the script's tuples are the upload
      route's tuples. */
  lemma ScriptAgreesWithRoute(eventId: int, rows: seq<Row>)
    requires !HasRepeat(rows)
    ensures Roster(eventId, rows).Riders?
    ensures var v := Roster(eventId, rows).values;
      ScriptQuery(eventId, rows) == if v == "" then EmptyStatement else Header + v + ";"
  {
    RosterRejectsIffRepeat(eventId, rows);
    var es := Entries(rows);
    assert Kept(rows) == es by {
      assert es[..|es|] == es;
    }
    var v := Roster(eventId, rows).values;
    assert v == ValuesText(eventId, es);
    ScriptQueryShape(eventId, rows);
    if es == [] {
      assert v == "";
    } else {
      ValuesEndWithParen(eventId, es);
      assert v != "";
    }
  }

}
