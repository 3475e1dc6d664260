/** The attendance ledger: one segment of rows per calendar date. A call
    appends its rows after the rows already stored for that date, or starts
    the segment when the date has none yet. */
module AttendanceLog {
  import opened Wrappers
  import opened Matcher

  /** A day's rows after one batch is written: the stored rows, unchanged
      and in order, followed by the batch; just the batch for a new day. */
  function AppendRows(existing: Option<seq<Record>>, batch: seq<Record>): (r: seq<Record>)
    ensures existing.None? ==> r == batch
    ensures existing.Some? ==> |r| == |existing.value| + |batch|
    ensures existing.Some? ==> r[..|existing.value|] == existing.value && r[|existing.value|..] == batch
  {
    match existing
    case None => batch
    case Some(rows) => rows + batch
  }

  /** The stored rows of a day, or none. */
  function RowsOf(existing: Option<seq<Record>>): seq<Record>
  {
    if existing.Some? then existing.value else []
  }

  /** All rows of `batches`, batch after batch. */
  function Flatten(batches: seq<seq<Record>>): seq<Record>
  {
    if |batches| == 0 then [] else Flatten(batches[..|batches| - 1]) + batches[|batches| - 1]
  }

  /** A day's segment after appending each of `batches` in turn. */
  function Replay(existing: Option<seq<Record>>, batches: seq<seq<Record>>): Option<seq<Record>>
  {
    if |batches| == 0 then existing
    else Some(AppendRows(Replay(existing, batches[..|batches| - 1]), batches[|batches| - 1]))
  }

  /** Successive appends keep every row in append order: the segment is the
      old rows followed by all batches, and it exists once anything was
      appended. */
  lemma {:induction false} ReplayIsConcatenation(existing: Option<seq<Record>>, batches: seq<seq<Record>>)
    requires |batches| > 0
    ensures Replay(existing, batches) == Some(RowsOf(existing) + Flatten(batches))
  {
    var n := |batches| - 1;
    var prefix := batches[..n];
    if n == 0 {
      assert prefix == [];
      assert Flatten(batches) == [] + batches[0] == batches[0];
      assert RowsOf(existing) + batches[0] == AppendRows(existing, batches[0]);
    } else {
      ReplayIsConcatenation(existing, prefix);
      var oldRows := RowsOf(existing) + Flatten(prefix);
      assert Replay(existing, batches) == Some(oldRows + batches[n]);
      assert oldRows + batches[n] == RowsOf(existing) + (Flatten(prefix) + batches[n]);
    }
  }

  /** N batches of k rows each add exactly N * k rows. */
  lemma {:induction false} FlattenLength(batches: seq<seq<Record>>, k: nat)
    requires forall i :: 0 <= i < |batches| ==> |batches[i]| == k
    ensures |Flatten(batches)| == |batches| * k
  {
    if |batches| > 0 {
      var n := |batches| - 1;
      FlattenLength(batches[..n], k);
      assert |batches| * k == n * k + k;
    }
  }

  /** What a day's CSV file holds as the service writes it: a table with a
      header and rows, or, when the rows written were none, a file with no
      columns at all. */
  datatype Segment = Table(rows: seq<Record>) | NoColumns

  /** The file written for a day whose rows are `rows`. */
  function Written(rows: seq<Record>): Segment
  {
    if |rows| == 0 then NoColumns else Table(rows)
  }

  /** The day's file after one call, as the service behaves: the new rows are
      written alone when there is no file, appended after the stored rows
      otherwise; a file with no columns cannot be read back, so the call
      fails (None) and the file is left as it was. */
  function AppendAsWritten(existing: Option<Segment>, batch: seq<Record>): (r: Option<Segment>)
    ensures r.None? <==> existing == Some(NoColumns)
    ensures existing.None? ==> r == Some(Written(batch))
    ensures existing.Some? && existing.value.Table? ==> r == Some(Written(existing.value.rows + batch))
  {
    match existing
    case None => Some(Written(batch))
    case Some(NoColumns) => None
    case Some(Table(rows)) => Some(Written(rows + batch))
  }

  /** A day whose first photo shows no faces gets a file with no columns, and
      from then on every append that day fails, whatever its rows. The
      corrected behaviour, AppendRows, reads such a day as having no rows. */
  lemma EmptyFirstBatchBlocksDay(batch: seq<Record>)
    ensures AppendAsWritten(None, []) == Some(NoColumns)
    ensures AppendAsWritten(AppendAsWritten(None, []), batch).None?
    ensures AppendRows(Some(AppendRows(None, [])), batch) == batch
  {
  }

  /** Apart from that case the service's append and AppendRows agree: the
      file holds exactly the rows AppendRows gives. */
  lemma AsWrittenAgrees(existing: Option<seq<Record>>, batch: seq<Record>)
    requires existing.Some? ==> |existing.value| > 0
    ensures var stored := if existing.Some? then Some(Table(existing.value)) else None;
            AppendAsWritten(stored, batch) == Some(Written(AppendRows(existing, batch)))
  {
  }

  /** The day-partitioned store of attendance rows. */
  class Ledger {
    /** Date (YYYY-MM-DD) to the rows of that day's file. */
    var days: map<string, seq<Record>>

    constructor ()
      ensures days == map[]
    {
      days := map[];
    }

    /** The rows recorded for `date`, in storage order, or None when there
        is no file for that date. */
    function Query(date: string): (r: Option<seq<Record>>)
      reads this
      ensures r.None? <==> date !in days
      ensures r.Some? ==> date in days && r.value == days[date]
    {
      if date in days then Some(days[date]) else None
    }

    /** Writes one call's rows into the segment of `date`; other dates are
        untouched. */
    method Append(date: string, batch: seq<Record>)
      modifies this
      ensures days == old(days)[date := AppendRows(old(Query(date)), batch)]
      ensures Query(date) == Some(AppendRows(old(Query(date)), batch))
      ensures forall d :: d != date ==> Query(d) == old(Query(d))
    {
      var rows := batch;
      if date in days {
        rows := days[date] + batch;
      }
      days := days[date := rows];
    }
  }
}
