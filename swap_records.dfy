/**
  `CheckSwapRec`: one comma-separated row of the checkswap file becomes a
  record of datetime, record type and integer value, filled from the front
  of the row. A field the row does not reach is None; a value that is not
  an integer aborts the scan.
*/
module SwapRecords {
  import opened Wrappers
  import Strings

  datatype SwapRec = SwapRec(datetime: Option<string>, recordtype: Option<string>, value: Option<int>)

  /** What aborts a checkswap scan: int() raising on the value, or asc2dt raising on a trigger's datetime. */
  datatype Fatal = NotAnInteger(text: string) | BadTimestamp(text: string)

  /** `row.pop(0)` for the k-th field, with the IndexError turned into None. */
  function Field(row: seq<string>, k: nat): (r: Option<string>)
    ensures r.Some? <==> k < |row|
    ensures r.Some? ==> r.value == row[k]
  {
    if k < |row| then Some(row[k]) else None
  }

  /** A record's fields are filled in order, so a field is present only when the ones before it are. */
  predicate FilledFromFront(rec: SwapRec) {
    (rec.recordtype.Some? ==> rec.datetime.Some?) && (rec.value.Some? ==> rec.recordtype.Some?)
  }

  /** The record `CheckSwapRec(row)` builds, or the error it raises. */
  function RecordOf(row: seq<string>): (r: Result<SwapRec, Fatal>)
    ensures r.Failure? <==> |row| >= 3 && Strings.ParseInt(row[2]).None?
    ensures r.Success? ==> FilledFromFront(r.value)
    ensures r.Success? ==> r.value.recordtype == Field(row, 1) && (r.value.value.Some? <==> |row| >= 3)
  {
    if |row| < 3 then Success(SwapRec(Field(row, 0), Field(row, 1), None))
    else match Strings.ParseInt(row[2])
      case None => Failure(NotAnInteger(row[2]))
      case Some(v) => Success(SwapRec(Some(row[0]), Some(row[1]), Some(v)))
  }

  /**
    The constructor's loop: for each of the three field names in turn, pop
    the front of the row (None once the row is exhausted) and convert the
    third with int(). Fields past the third are never looked at.
  */
  method ParseRecord(row: seq<string>) returns (r: Result<SwapRec, Fatal>)
    ensures r == RecordOf(row)
    ensures r.Failure? ==> r.error == NotAnInteger(row[2])
    ensures r.Success? ==> r.value.datetime == Field(row, 0) && r.value.recordtype == Field(row, 1)
    ensures r.Success? && |row| >= 3 ==> r.value.value == Strings.ParseInt(row[2])
  {
    var rest := row;
    var got: seq<Option<string>> := [];
    var value: Option<int> := None;
    var k := 0;
    while k < 3
      invariant 0 <= k <= 3 && |got| == k
      invariant forall j :: 0 <= j < k ==> got[j] == Field(row, j)
      invariant rest == row[if k < |row| then k else |row|..]
      invariant value == if k == 3 && |row| >= 3 then Strings.ParseInt(row[2]) else None
      invariant k == 3 && |row| >= 3 ==> value.Some?
    {
      if |rest| > 0 {
        got := got + [Some(rest[0])];
        if k == 2 {
          assert |row| >= 3 && rest[0] == row[2];
          value := Strings.ParseInt(rest[0]);
          if value.None? {
            assert RecordOf(row) == Failure(NotAnInteger(row[2]));
            return Failure(NotAnInteger(rest[0]));
          }
        }
        rest := rest[1..];
      } else {
        got := got + [None];
      }
      k := k + 1;
    }
    assert got[0] == Field(row, 0) && got[1] == Field(row, 1);
    r := Success(SwapRec(got[0], got[1], value));
  }
}
