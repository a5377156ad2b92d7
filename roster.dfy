/** The rider roster shared by the upload route and the stand-alone script:
    spreadsheet rows, the null filter, the first repeated rider number, and
    the text of the `VALUES` list of the bulk rider insert. */
module RosterImport {

  import opened Wrappers
  import opened Decimal
  import opened Classes

  /** One spreadsheet row as pandas yields it: NUMBER, NAME and CLASS cells,
      each of which may be null. */
  datatype Row = Row(number: Option<int>, name: Option<string>, klass: Option<string>)

  predicate IsNull(r: Row) {
    r.number.None? || r.name.None? || r.klass.None?
  }

  /** A row none of whose cells is null. */
  datatype Rider = Rider(number: int, name: string, klass: string)

  function RiderOf(r: Row): Rider
    requires !IsNull(r)
  {
    Rider(r.number.value, r.name.value, r.klass.value)
  }

  /** The columns of the uploaded sheet; `None` is a column whose header is
      absent. */
  datatype Sheet = Sheet(
    numbers: Option<seq<Option<int>>>,
    names: Option<seq<Option<string>>>,
    classes: Option<seq<Option<string>>>)

  predicate HasColumns(s: Sheet) {
    s.numbers.Some? && s.names.Some? && s.classes.Some?
  }

  /** Python's `zip` of three columns: it stops at the shortest one. */
  function Zip(ns: seq<Option<int>>, nms: seq<Option<string>>, cs: seq<Option<string>>): (rows: seq<Row>)
    ensures |rows| <= |ns| && |rows| <= |nms| && |rows| <= |cs|
    ensures |rows| == |ns| || |rows| == |nms| || |rows| == |cs|
    ensures forall i :: 0 <= i < |rows| ==> rows[i] == Row(ns[i], nms[i], cs[i])
  {
    var n := if |ns| <= |nms| && |ns| <= |cs| then |ns| else if |nms| <= |cs| then |nms| else |cs|;
    seq(n, i requires 0 <= i < n => Row(ns[i], nms[i], cs[i]))
  }

  function SheetRows(s: Sheet): seq<Row>
    requires HasColumns(s)
  {
    Zip(s.numbers.value, s.names.value, s.classes.value)
  }

  // ---------------------------------------------------------------------
  // The null filter

  /** The riders of the non-null rows among the first `n` rows, in input
      order. */
  function EntriesUpTo(rows: seq<Row>, n: nat): (es: seq<Rider>)
    requires n <= |rows|
    ensures |es| <= n
  {
    if n == 0 then []
    else EntriesUpTo(rows, n - 1) + (if IsNull(rows[n - 1]) then [] else [RiderOf(rows[n - 1])])
  }

  function Entries(rows: seq<Row>): seq<Rider> {
    EntriesUpTo(rows, |rows|)
  }

  /** The positions of the non-null rows among the first `n` rows. */
  function IndicesUpTo(rows: seq<Row>, n: nat): (idx: seq<nat>)
    requires n <= |rows|
    ensures |idx| == |EntriesUpTo(rows, n)|
    ensures forall a :: 0 <= a < |idx| ==> idx[a] < n
  {
    if n == 0 then []
    else IndicesUpTo(rows, n - 1) + (if IsNull(rows[n - 1]) then [] else [n - 1])
  }

  function NonNullIndices(rows: seq<Row>): seq<nat> {
    IndicesUpTo(rows, |rows|)
  }

  /** The a-th rider is the rider of the a-th non-null row. */
  lemma {:induction false} IndicesPickEntries(rows: seq<Row>, n: nat)
    requires n <= |rows|
    ensures var idx := IndicesUpTo(rows, n);
      forall a :: 0 <= a < |idx| ==> !IsNull(rows[idx[a]]) && EntriesUpTo(rows, n)[a] == RiderOf(rows[idx[a]])
  {
    if n > 0 {
      IndicesPickEntries(rows, n - 1);
      var prior, idx := IndicesUpTo(rows, n - 1), IndicesUpTo(rows, n);
      var pe, es := EntriesUpTo(rows, n - 1), EntriesUpTo(rows, n);
      assert forall a :: 0 <= a < |prior| ==> idx[a] == prior[a] && es[a] == pe[a];
    }
  }

  /** The non-null rows are taken in input order. */
  lemma {:induction false} IndicesIncreasing(rows: seq<Row>, n: nat)
    requires n <= |rows|
    ensures forall a, b :: 0 <= a < |IndicesUpTo(rows, n)| && 0 <= b < |IndicesUpTo(rows, n)| ==>
      (IndicesUpTo(rows, n)[a] < IndicesUpTo(rows, n)[b] <==> a < b)
  {
    if n > 0 {
      IndicesIncreasing(rows, n - 1);
      var prior, idx := IndicesUpTo(rows, n - 1), IndicesUpTo(rows, n);
      assert forall a :: 0 <= a < |prior| ==> idx[a] == prior[a] < n - 1;
      assert forall b :: |prior| <= b < |idx| ==> idx[b] == n - 1;
    }
  }

  /** No non-null row is left out. */
  lemma {:induction false} IndicesCover(rows: seq<Row>, n: nat)
    requires n <= |rows|
    ensures forall i :: 0 <= i < n && !IsNull(rows[i]) ==> i in IndicesUpTo(rows, n)
  {
    if n > 0 {
      IndicesCover(rows, n - 1);
    }
  }

  /** The riders of a shorter prefix are a prefix of the riders. */
  lemma {:induction false} EntriesPrefix(rows: seq<Row>, m: nat, n: nat)
    requires m <= n <= |rows|
    ensures var p := EntriesUpTo(rows, m); |p| <= |EntriesUpTo(rows, n)| && EntriesUpTo(rows, n)[..|p|] == p
  {
    if m < n {
      EntriesPrefix(rows, m, n - 1);
    }
  }

  /** The rows before the non-null row at position `a` hold exactly the first
      `a` riders. */
  lemma {:induction false} EntriesBefore(rows: seq<Row>, n: nat, a: nat)
    requires n <= |rows| && a < |IndicesUpTo(rows, n)|
    ensures EntriesUpTo(rows, IndicesUpTo(rows, n)[a]) == EntriesUpTo(rows, n)[..a]
  {
    var prior := IndicesUpTo(rows, n - 1);
    if a < |prior| {
      EntriesBefore(rows, n - 1, a);
      EntriesPrefix(rows, n - 1, n);
    } else {
      assert IndicesUpTo(rows, n)[a] == n - 1;
    }
  }

  /** The first `n` riders depend on the first `n` rows only. */
  lemma {:induction false} EntriesLocal(s: seq<Row>, t: seq<Row>, n: nat)
    requires n <= |s| && n <= |t|
    requires forall i :: 0 <= i < n ==> s[i] == t[i]
    ensures EntriesUpTo(s, n) == EntriesUpTo(t, n)
  {
    if n > 0 {
      EntriesLocal(s, t, n - 1);
    }
  }

  lemma {:induction false} EntriesAppendUpTo(a: seq<Row>, b: seq<Row>, k: nat)
    requires k <= |b|
    ensures EntriesUpTo(a + b, |a| + k) == Entries(a) + EntriesUpTo(b, k)
  {
    if k == 0 {
      EntriesLocal(a + b, a, |a|);
    } else {
      EntriesAppendUpTo(a, b, k - 1);
      assert (a + b)[|a| + k - 1] == b[k - 1];
    }
  }

  lemma EntriesAppend(a: seq<Row>, b: seq<Row>)
    ensures Entries(a + b) == Entries(a) + Entries(b)
  {
    EntriesAppendUpTo(a, b, |b|);
  }

  /** A null row, wherever it stands, contributes nothing. */
  lemma NullRowSkipped(a: seq<Row>, r: Row, b: seq<Row>)
    requires IsNull(r)
    ensures Entries(a + [r] + b) == Entries(a + b)
  {
    EntriesAppend(a + [r], b);
    EntriesAppend(a, [r]);
    EntriesAppend(a, b);
  }

  /** With every row null there is no rider. */
  lemma {:induction false} EntriesAllNull(rows: seq<Row>, n: nat)
    requires n <= |rows|
    requires forall i :: 0 <= i < |rows| ==> IsNull(rows[i])
    ensures EntriesUpTo(rows, n) == []
  {
    if n > 0 {
      EntriesAllNull(rows, n - 1);
    }
  }

  // ---------------------------------------------------------------------
  // The first repeated rider number

  function Numbers(es: seq<Rider>): set<int> {
    set i | 0 <= i < |es| :: es[i].number
  }

  predicate Distinct(es: seq<Rider>) {
    forall i, j :: 0 <= i < j < |es| ==> es[i].number != es[j].number
  }

  /** The position of the first rider whose number an earlier rider already
      has, or `|es|` when the numbers are pairwise distinct. */
  function DupIndex(es: seq<Rider>): (k: nat)
    ensures k <= |es|
    ensures Distinct(es[..k])
    ensures k < |es| ==> es[k].number in Numbers(es[..k])
  {
    if es == [] then 0
    else
      var init := es[..|es| - 1];
      var k := DupIndex(init);
      if k < |init| then
        assert es[..k] == init[..k];
        k
      else if es[|es| - 1].number in Numbers(init) then
        assert es[..|init|] == init;
        |init|
      else
        assert es[..|es|] == es;
        |es|
  }

  /** The index `DupIndex` returns is the only one with its two properties. */
  lemma DupIndexUnique(es: seq<Rider>, k: nat)
    requires k <= |es|
    requires Distinct(es[..k])
    requires k < |es| ==> es[k].number in Numbers(es[..k])
    ensures DupIndex(es) == k
  {
    var d := DupIndex(es);
    assert forall i :: 0 <= i < d ==> es[..d][i] == es[i];
    assert forall i :: 0 <= i < k ==> es[..k][i] == es[i];
  }

  /** Two non-null rows among the first `n` with the same rider number. */
  ghost predicate HasRepeatUpTo(rows: seq<Row>, n: nat)
    requires n <= |rows|
  {
    exists i, j :: 0 <= i < j < n && !IsNull(rows[i]) && !IsNull(rows[j]) &&
      rows[i].number == rows[j].number
  }

  ghost predicate HasRepeat(rows: seq<Row>) {
    HasRepeatUpTo(rows, |rows|)
  }

  /** The number of every non-null row among the first `m` is among the
      numbers of the riders so far. */
  lemma {:induction false} NumberSeen(rows: seq<Row>, m: nat, i: nat)
    requires i < m <= |rows| && !IsNull(rows[i])
    ensures rows[i].number.value in Numbers(EntriesUpTo(rows, m))
  {
    var es := EntriesUpTo(rows, m);
    if i == m - 1 {
      assert es[|es| - 1] == RiderOf(rows[i]);
    } else {
      NumberSeen(rows, m - 1, i);
      var prior := EntriesUpTo(rows, m - 1);
      var a :| 0 <= a < |prior| && prior[a].number == rows[i].number.value;
      assert es[a] == prior[a];
    }
  }

  lemma {:induction false} RepeatImpliesNotDistinct(rows: seq<Row>, n: nat)
    requires n <= |rows| && HasRepeatUpTo(rows, n)
    ensures !Distinct(EntriesUpTo(rows, n))
  {
    var es, prior := EntriesUpTo(rows, n), EntriesUpTo(rows, n - 1);
    if HasRepeatUpTo(rows, n - 1) {
      RepeatImpliesNotDistinct(rows, n - 1);
      var a, b :| 0 <= a < b < |prior| && prior[a].number == prior[b].number;
      assert es[a] == prior[a] && es[b] == prior[b];
    } else {
      var i :| 0 <= i < n - 1 && !IsNull(rows[i]) && !IsNull(rows[n - 1]) &&
        rows[i].number == rows[n - 1].number;
      NumberSeen(rows, n - 1, i);
      var a :| 0 <= a < |prior| && prior[a].number == rows[i].number.value;
      assert es[a] == prior[a] && es[|prior|] == RiderOf(rows[n - 1]);
    }
  }

  lemma NotDistinctImpliesRepeat(rows: seq<Row>, n: nat)
    requires n <= |rows| && !Distinct(EntriesUpTo(rows, n))
    ensures HasRepeatUpTo(rows, n)
  {
    var es, idx := EntriesUpTo(rows, n), IndicesUpTo(rows, n);
    IndicesPickEntries(rows, n);
    IndicesIncreasing(rows, n);
    var a, b :| 0 <= a < b < |es| && es[a].number == es[b].number;
    assert idx[a] < idx[b];
    assert rows[idx[a]].number == rows[idx[b]].number;
  }

  /** The non-null rows repeat a number exactly when their riders' numbers
      are not pairwise distinct. */
  lemma RepeatIffNotDistinct(rows: seq<Row>, n: nat)
    requires n <= |rows|
    ensures HasRepeatUpTo(rows, n) <==> !Distinct(EntriesUpTo(rows, n))
  {
    if HasRepeatUpTo(rows, n) {
      RepeatImpliesNotDistinct(rows, n);
    }
    if !Distinct(EntriesUpTo(rows, n)) {
      NotDistinctImpliesRepeat(rows, n);
    }
  }

  /** The rider of row `i` is the first whose number repeats when the riders
      of the rows before `i` have pairwise distinct numbers and one of them
      already has that number. */
  lemma FirstDuplicateAt(rows: seq<Row>, i: nat)
    requires i < |rows| && !IsNull(rows[i])
    requires Distinct(EntriesUpTo(rows, i))
    requires RiderOf(rows[i]).number in Numbers(EntriesUpTo(rows, i))
    ensures var es, before := Entries(rows), EntriesUpTo(rows, i); var k := DupIndex(es);
      k == |before| && k < |es| && es[..k] == before && es[k] == RiderOf(rows[i])
  {
    var before, es := EntriesUpTo(rows, i), Entries(rows);
    var r, k := RiderOf(rows[i]), |before|;
    var p := EntriesUpTo(rows, i + 1);
    assert p == before + [r];
    EntriesPrefix(rows, i + 1, |rows|);
    assert es[k] == p[k] == r;
    assert es[..k] == p[..k] == before;
    DupIndexUnique(es, k);
  }

  /** Once the riders so far hold a repeated number, more rows change neither
      the first repeat nor what precedes it. */
  lemma DupIndexStable(rows: seq<Row>, more: seq<Row>)
    requires HasRepeat(rows)
    ensures var es, es' := Entries(rows), Entries(rows + more);
      DupIndex(es') == DupIndex(es) < |es| <= |es'| && es'[..DupIndex(es) + 1] == es[..DupIndex(es) + 1]
  {
    RepeatIffNotDistinct(rows, |rows|);
    var es := Entries(rows);
    assert DupIndex(es) < |es| by {
      assert es[..|es|] == es;
    }
    EntriesAppend(rows, more);
    DupIndexExtended(es, Entries(more));
  }

  /** Riders appended after the first repeat change neither its position nor
      what precedes it. */
  lemma DupIndexExtended(es: seq<Rider>, tail: seq<Rider>)
    requires DupIndex(es) < |es|
    ensures var k := DupIndex(es);
      DupIndex(es + tail) == k && (es + tail)[..k + 1] == es[..k + 1]
  {
    var k := DupIndex(es);
    var es' := es + tail;
    assert es'[..k + 1] == es[..k + 1];
    assert es'[..k] == es[..k];
    DupIndexUnique(es', k);
  }

  // ---------------------------------------------------------------------
  // Rendering the VALUES list

  /** One tuple of the rider insert. */
  datatype RiderTuple = RiderTuple(eventId: int, number: int, name: string, classId: ClassId)

  function TupleOf(eventId: int, r: Rider): RiderTuple {
    RiderTuple(eventId, r.number, r.name, GetClass(r.klass))
  }

  function Tuples(eventId: int, es: seq<Rider>): seq<RiderTuple> {
    seq(|es|, i requires 0 <= i < |es| => TupleOf(eventId, es[i]))
  }

  /** `({event_id}, {int(Number)}, '{Name}', {class_name})`; the name is
      written between quotes as it is, without escaping. */
  function Render(t: RiderTuple): (s: string)
    ensures |s| >= 2 && s[0] == '(' && s[|s| - 1] == ')'
  {
    "(" + IntToString(t.eventId) + ", " + IntToString(t.number) + ", '" + t.name + "', "
      + ClassLiteral(t.classId) + ")"
  }

  function RenderAll(ts: seq<RiderTuple>): seq<string> {
    seq(|ts|, i requires 0 <= i < |ts| => Render(ts[i]))
  }

  /** The combined length of `parts`. */
  function TotalLength(parts: seq<string>): nat {
    if |parts| == 0 then 0 else TotalLength(parts[..|parts| - 1]) + |parts[|parts| - 1]|
  }

  /** The tuples separated by commas: one comma between neighbours. */
  function Join(parts: seq<string>): (s: string)
    ensures |s| == TotalLength(parts) + (if |parts| == 0 then 0 else |parts| - 1)
  {
    if |parts| == 0 then ""
    else if |parts| == 1 then parts[0]
    else Join(parts[..|parts| - 1]) + "," + parts[|parts| - 1]
  }

  /** The tuples, each followed by a comma, as the loops accumulate them. */
  function Terminated(parts: seq<string>): string {
    if |parts| == 0 then "" else Terminated(parts[..|parts| - 1]) + parts[|parts| - 1] + ","
  }

  /** Python's `s[:-1]`, which leaves the empty string empty. */
  function DropLast(s: string): (r: string)
    ensures |s| > 0 ==> r + [s[|s| - 1]] == s
    ensures |s| == 0 ==> r == []
  {
    if |s| == 0 then "" else s[..|s| - 1]
  }

  lemma {:induction false} TerminatedIsJoinComma(parts: seq<string>)
    requires |parts| > 0
    ensures Terminated(parts) == Join(parts) + ","
  {
    if |parts| == 1 {
      assert parts[..0] == [];
    } else {
      TerminatedIsJoinComma(parts[..|parts| - 1]);
    }
  }

  /** Dropping the last character of a prefix followed by comma-terminated
      tuples leaves the prefix and the comma-joined tuples. */
  lemma DropLastAfterPrefix(prefix: string, parts: seq<string>)
    requires |parts| > 0
    ensures DropLast(prefix + Terminated(parts)) == prefix + Join(parts)
  {
    TerminatedIsJoinComma(parts);
    var j := prefix + Join(parts);
    assert prefix + Terminated(parts) == j + [','];
    DropLastSnoc(j, ',');
  }

  lemma DropLastSnoc(s: string, c: char)
    ensures DropLast(s + [c]) == s
  {
    assert (s + [c])[..|s|] == s;
  }

  /** Dropping the last character of the accumulated text leaves the tuples
      joined by commas, with no trailing comma, and nothing at all when no
      tuple was accumulated. */
  lemma DropLastTerminated(parts: seq<string>)
    ensures DropLast(Terminated(parts)) == Join(parts)
  {
    if |parts| > 0 {
      DropLastAfterPrefix("", parts);
      assert "" + Terminated(parts) == Terminated(parts);
      assert "" + Join(parts) == Join(parts);
    }
  }

  /** The text the roster loops have accumulated after the riders `es`: each
      tuple followed by a comma. */
  function Accumulated(eventId: int, es: seq<Rider>): string {
    Terminated(RenderAll(Tuples(eventId, es)))
  }

  /** Accepting one more rider adds its number to those seen and its tuple and
      a comma to the text, and keeps the numbers distinct when it is new. */
  lemma AcceptStep(eventId: int, es: seq<Rider>, r: Rider)
    ensures Numbers(es + [r]) == Numbers(es) + {r.number}
    ensures Accumulated(eventId, es + [r]) == Accumulated(eventId, es) + Render(TupleOf(eventId, r)) + ","
    ensures Distinct(es) && r.number !in Numbers(es) ==> Distinct(es + [r])
  {
    NumbersSnoc(es, r);
    if Distinct(es) && r.number !in Numbers(es) {
      DistinctSnoc(es, r);
    }
    var prior := RenderAll(Tuples(eventId, es));
    assert RenderAll(Tuples(eventId, es + [r])) == prior + [Render(TupleOf(eventId, r))];
    TerminatedSnoc(prior, Render(TupleOf(eventId, r)));
  }

  /** A row with a null cell leaves the riders as they were. */
  lemma SkipRow(rows: seq<Row>, i: nat)
    requires i < |rows| && IsNull(rows[i])
    ensures EntriesUpTo(rows, i + 1) == EntriesUpTo(rows, i)
  {
  }

  /** One step of the roster loops on a non-null row whose number is new:
      the rider joins the accepted ones, its number the seen ones, and its
      tuple `t` and a comma the text after `prefix`. */
  lemma AcceptRow(rows: seq<Row>, i: nat, eventId: int, prefix: string, accepted: seq<Rider>, text: string, t: RiderTuple)
    requires i < |rows| && !IsNull(rows[i])
    requires accepted == EntriesUpTo(rows, i) && Distinct(accepted)
    requires rows[i].number.value !in Numbers(accepted)
    requires text == prefix + Accumulated(eventId, accepted)
    requires t == TupleOf(eventId, RiderOf(rows[i]))
    ensures EntriesUpTo(rows, i + 1) == accepted + [RiderOf(rows[i])]
    ensures Distinct(accepted + [RiderOf(rows[i])])
    ensures Numbers(accepted + [RiderOf(rows[i])]) == Numbers(accepted) + {rows[i].number.value}
    ensures text + Render(t) + "," == prefix + Accumulated(eventId, accepted + [RiderOf(rows[i])])
  {
    var r := RiderOf(rows[i]);
    AcceptStep(eventId, accepted, r);
    Regroup(prefix, Accumulated(eventId, accepted), Render(t), ",");
  }

  lemma Regroup(p: string, a: string, b: string, c: string)
    ensures p + (a + b + c) == p + a + b + c
  {
  }

  lemma NumbersSnoc(es: seq<Rider>, r: Rider)
    ensures Numbers(es + [r]) == Numbers(es) + {r.number}
  {
    var s := es + [r];
    forall x | x in Numbers(s)
      ensures x in Numbers(es) + {r.number}
    {
      var i :| 0 <= i < |s| && s[i].number == x;
      if i < |es| {
        assert es[i] == s[i];
      }
    }
    forall x | x in Numbers(es) + {r.number}
      ensures x in Numbers(s)
    {
      if x == r.number {
        assert s[|es|] == r;
      } else {
        var i :| 0 <= i < |es| && es[i].number == x;
        assert s[i] == es[i];
      }
    }
  }

  lemma DistinctSnoc(es: seq<Rider>, r: Rider)
    requires Distinct(es) && r.number !in Numbers(es)
    ensures Distinct(es + [r])
  {
    var s := es + [r];
    forall i, j | 0 <= i < j < |s|
      ensures s[i].number != s[j].number
    {
      assert s[i] == es[i];
      if j == |es| {
        assert es[i].number in Numbers(es);
      } else {
        assert s[j] == es[j];
      }
    }
  }

  lemma TerminatedSnoc(parts: seq<string>, p: string)
    ensures Terminated(parts + [p]) == Terminated(parts) + p + ","
  {
    assert (parts + [p])[..|parts|] == parts;
  }

  // ---------------------------------------------------------------------
  // The roster as the upload route builds it

  datatype RosterResult =
    | DuplicateRider(number: int, name: string, klass: string)
    | Riders(values: string)

  /** The text between `VALUES` and the end of the insert, for `eventId`. */
  function ValuesText(eventId: int, es: seq<Rider>): string {
    Join(RenderAll(Tuples(eventId, es)))
  }

  /** The roster loop of the upload route, as a function of the rows: the
      first rider whose number repeats, or the comma-joined tuples of all
      non-null rows. */
  function Roster(eventId: int, rows: seq<Row>): (r: RosterResult)
    ensures r.Riders? <==> Distinct(Entries(rows))
  {
    var es := Entries(rows);
    assert es[..|es|] == es;
    var k := DupIndex(es);
    if k < |es| then DuplicateRider(es[k].number, es[k].name, es[k].klass)
    else Riders(ValuesText(eventId, es))
  }

  /** The roster when row `i` is the first whose number repeats. */
  lemma RosterAtDuplicate(eventId: int, rows: seq<Row>, i: nat)
    requires i < |rows| && !IsNull(rows[i])
    requires Distinct(EntriesUpTo(rows, i))
    requires RiderOf(rows[i]).number in Numbers(EntriesUpTo(rows, i))
    ensures Roster(eventId, rows) == DuplicateRider(rows[i].number.value, rows[i].name.value, rows[i].klass.value)
  {
    FirstDuplicateAt(rows, i);
  }

  /** The roster when no number repeats: the accumulated text without its last
      character. */
  lemma RosterOfDistinct(eventId: int, rows: seq<Row>)
    requires Distinct(Entries(rows))
    ensures Roster(eventId, rows) == Riders(DropLast(Accumulated(eventId, Entries(rows))))
  {
    var es := Entries(rows);
    assert es[..|es|] == es;
    DupIndexUnique(es, |es|);
    DropLastTerminated(RenderAll(Tuples(eventId, es)));
  }

  /** The roster is rejected exactly when two non-null rows share a number. */
  lemma RosterRejectsIffRepeat(eventId: int, rows: seq<Row>)
    ensures Roster(eventId, rows).DuplicateRider? <==> HasRepeat(rows)
  {
    RepeatIffNotDistinct(rows, |rows|);
    var es := Entries(rows);
    if DupIndex(es) == |es| {
      assert es[..|es|] == es;
    }
  }

  /** The row of the first repeated number: the rows before it hold no
      repeat, and an earlier non-null row has its number. */
  lemma FirstRepeatRow(rows: seq<Row>)
    requires DupIndex(Entries(rows)) < |Entries(rows)|
    ensures var es, idx := Entries(rows), NonNullIndices(rows); var j := idx[DupIndex(es)];
      && j < |rows| && !IsNull(rows[j]) && RiderOf(rows[j]) == es[DupIndex(es)]
      && !HasRepeatUpTo(rows, j)
      && (exists i :: 0 <= i < j && !IsNull(rows[i]) && rows[i].number == rows[j].number)
  {
    var es, idx := Entries(rows), NonNullIndices(rows);
    IndicesPickEntries(rows, |rows|);
    IndicesIncreasing(rows, |rows|);
    var k := DupIndex(es);
    var j := idx[k];
    var a :| 0 <= a < k && es[..k][a].number == es[k].number;
    assert es[..k][a] == es[a];
    assert idx[a] < j && rows[idx[a]].number == rows[j].number;
    EntriesBefore(rows, |rows|, k);
    RepeatIffNotDistinct(rows, j);
  }

  /** The rejection names the later row of the first repeat: an earlier
      non-null row has its number, and no two non-null rows before it share
      a number. */
  lemma RosterNamesFirstRepeat(eventId: int, rows: seq<Row>)
    requires Roster(eventId, rows).DuplicateRider?
    ensures var d := Roster(eventId, rows);
      exists j :: 0 <= j < |rows| && rows[j] == Row(Some(d.number), Some(d.name), Some(d.klass)) &&
        !HasRepeatUpTo(rows, j) &&
        (exists i :: 0 <= i < j && !IsNull(rows[i]) && rows[i].number == Some(d.number))
  {
    var es := Entries(rows);
    var k := DupIndex(es);
    assert k < |es|;
    var d := Roster(eventId, rows);
    assert d == DuplicateRider(es[k].number, es[k].name, es[k].klass);
    FirstRepeatRow(rows);
    var j := NonNullIndices(rows)[k];
    var i :| 0 <= i < j && !IsNull(rows[i]) && rows[i].number == rows[j].number;
    var r := rows[j];
    assert r.number == Some(r.number.value) && r.name == Some(r.name.value) && r.klass == Some(r.klass.value);
    assert RiderOf(r) == Rider(d.number, d.name, d.klass);
  }

  /** On success the text holds one tuple per non-null row, in input order,
      all for the same event, with pairwise distinct rider numbers. */
  lemma RosterAcceptsAllRows(eventId: int, rows: seq<Row>)
    requires Roster(eventId, rows).Riders?
    ensures var ts, idx := Tuples(eventId, Entries(rows)), NonNullIndices(rows);
      && Roster(eventId, rows).values == Join(RenderAll(ts))
      && |ts| == |idx|
      && (forall a :: 0 <= a < |ts| ==> !IsNull(rows[idx[a]]) && ts[a] == TupleOf(eventId, RiderOf(rows[idx[a]])))
      && (forall a, b :: 0 <= a < b < |ts| ==> idx[a] < idx[b] && ts[a].number != ts[b].number)
  {
    var es, idx := Entries(rows), NonNullIndices(rows);
    var ts := Tuples(eventId, es);
    assert DupIndex(es) == |es|;
    IndicesPickEntries(rows, |rows|);
    forall a | 0 <= a < |ts|
      ensures !IsNull(rows[idx[a]]) && ts[a] == TupleOf(eventId, RiderOf(rows[idx[a]]))
    {
      assert es[a] == RiderOf(rows[idx[a]]);
    }
    IndicesIncreasing(rows, |rows|);
    forall a, b | 0 <= a < b < |ts|
      ensures idx[a] < idx[b] && ts[a].number != ts[b].number
    {
      assert ts[a].number == es[a].number && ts[b].number == es[b].number;
    }
  }

  /** With every row null the values text is empty. */
  lemma RosterAllNull(eventId: int, rows: seq<Row>)
    requires forall i :: 0 <= i < |rows| ==> IsNull(rows[i])
    ensures Roster(eventId, rows) == Riders("")
  {
    EntriesAllNull(rows, |rows|);
  }

  /** A null row anywhere changes nothing: it is not recorded as seen. */
  lemma RosterIgnoresNullRow(eventId: int, a: seq<Row>, r: Row, b: seq<Row>)
    requires IsNull(r)
    ensures Roster(eventId, a + [r] + b) == Roster(eventId, a + b)
  {
    NullRowSkipped(a, r, b);
  }

  /** The values text ends with the closing parenthesis of the last tuple,
      never with a comma. */
  lemma {:induction false} ValuesEndWithParen(eventId: int, es: seq<Rider>)
    requires |es| > 0
    ensures var v := ValuesText(eventId, es); |v| > 0 && v[|v| - 1] == ')'
  {
    var parts := RenderAll(Tuples(eventId, es));
    var last := parts[|parts| - 1];
    assert last[|last| - 1] == ')';
    if |parts| > 1 {
      var v := Join(parts);
      assert v == Join(parts[..|parts| - 1]) + "," + last;
      assert v[|v| - 1] == last[|last| - 1];
    }
  }

}
