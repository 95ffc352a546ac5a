/** The reading-plan lookup of `get_todays_reference`: the sheet's records are
    scanned in order for the one dated today. The spreadsheet access and the
    clock are outside the model; the records and today's `%Y-%m-%d` string are
    parameters. */
module Schedule {
  import opened Wrappers

  /** One record of the plan: `str(row['Date'])` and `row['Reference']`. */
  datatype Row = Row(date: string, reference: string)

  /** The reference of the first row dated `today`; None when no row is. */
  function ScheduledReference(rows: seq<Row>, today: string): (r: Option<string>)
    ensures r.None? <==> forall i | 0 <= i < |rows| :: rows[i].date != today
    ensures r.Some? ==>
      exists i | 0 <= i < |rows| ::
        rows[i].date == today && rows[i].reference == r.value
        && forall j | 0 <= j < i :: rows[j].date != today
  {
    if rows == [] then None
    else if rows[0].date == today then Some(rows[0].reference)
    else
      var r := ScheduledReference(rows[1..], today);
      assert r.Some? ==> exists i | 1 <= i < |rows| ::
        rows[i].date == today && rows[i].reference == r.value
        && forall j | 0 <= j < i :: rows[j].date != today by {
        if r.Some? {
          var k :| 0 <= k < |rows[1..]| && rows[1..][k].date == today && rows[1..][k].reference == r.value
            && forall j | 0 <= j < k :: rows[1..][j].date != today;
          assert forall j | 0 <= j < k + 1 :: rows[j].date != today by {
            forall j | 0 <= j < k + 1 ensures rows[j].date != today {
              if j > 0 { assert rows[j] == rows[1..][j - 1]; }
            }
          }
        }
      }
      r
  }

  /** The loop of `get_todays_reference`: the first row whose date matches returns
      its reference at once; a scan that finds none returns None. */
  method FindTodaysReference(rows: seq<Row>, today: string) returns (r: Option<string>)
    ensures r == ScheduledReference(rows, today)
  {
    for i := 0 to |rows|
      invariant ScheduledReference(rows[i..], today) == ScheduledReference(rows, today)
    {
      assert rows[i..][1..] == rows[i + 1..];
      if rows[i].date == today {
        return Some(rows[i].reference);
      }
    }
    assert rows[|rows|..] == [];
    return None;
  }

  /** First match wins: rows after a matching block never change the answer, and
      a block without a match defers to the rows after it. */
  lemma {:induction false} ScheduledReferenceAppend(first: seq<Row>, later: seq<Row>, today: string)
    ensures ScheduledReference(first + later, today)
      == if ScheduledReference(first, today).Some? then ScheduledReference(first, today)
         else ScheduledReference(later, today)
    decreases |first|
  {
    if first == [] {
      assert first + later == later;
    } else {
      assert (first + later)[1..] == first[1..] + later;
      ScheduledReferenceAppend(first[1..], later, today);
    }
  }
}
