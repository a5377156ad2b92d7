/** The rider class table: the `getClass` helper, which looks a class code up
    in the fixed dictionary {"M": 1, "E": 2, "I": 3, "C": 4} and falls back to
    the string "Unknown" for every other code. */
module Classes {

  import opened Decimal

  /** What the lookup yields: a class id, or the fallback string "Unknown". */
  datatype ClassId = Known(id: int) | Unknown

  /** The class codes in the order of their ids: `Codes[id - 1]` has id `id`. */
  const Codes: seq<string> := ["M", "E", "I", "C"]

  /** The dictionary lookup with its default. It never fails. */
  function GetClass(code: string): (c: ClassId)
    ensures c.Known? <==> code in Codes
    ensures c.Known? ==> 1 <= c.id <= 4 && Codes[c.id - 1] == code
  {
    if code == "M" then Known(1)
    else if code == "E" then Known(2)
    else if code == "I" then Known(3)
    else if code == "C" then Known(4)
    else Unknown
  }

  /** Every id of the table is reached from exactly its own code. */
  lemma GetClassOfCode(id: int)
    requires 1 <= id <= 4
    ensures GetClass(Codes[id - 1]) == Known(id)
    ensures forall code :: GetClass(code) == Known(id) ==> code == Codes[id - 1]
  {
  }

  /** The text an f-string gives the lookup's value: the id's digits, or the
      bare word Unknown. */
  function ClassLiteral(c: ClassId): (s: string)
    ensures c.Known? && 1 <= c.id <= 4 ==> s == ["1", "2", "3", "4"][c.id - 1]
    ensures c.Known? ==> IsIntText(s) && ParseInt(s) == c.id
    ensures c.Unknown? ==> s == "Unknown"
  {
    match c
    case Known(id) =>
      IntToStringRoundTrip(id);
      IntToString(id)
    case Unknown => "Unknown"
  }

}
