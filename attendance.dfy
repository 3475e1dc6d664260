/** One attendance-taking call: build the catalog, match every detected
    face, append the rows to the day's ledger segment and summarise. */
module Attendance {
  import opened Catalog
  import opened Matcher
  import opened AttendanceLog

  /** What a successful call reports back. */
  datatype Summary = Summary(totalFaces: nat, presentCount: nat, attendance: seq<Record>)

  /** `faces` are the encodings detected in the uploaded photo, in detection
      order; `time` and `date` are the current clock readings. */
  method ProcessAttendance<Enc>(dist: (Enc, Enc) -> real, enrolled: seq<Enrolled<Enc>>, faces: seq<Enc>,
                                time: string, date: string, ledger: Ledger)
    returns (summary: Summary)
    modifies ledger
    ensures summary.totalFaces == |faces| == |summary.attendance|
    ensures forall i :: 0 <= i < |faces| ==>
              summary.attendance[i] == RecordFor(dist, Eligible(enrolled), faces[i], time, i + 1)
    ensures summary.presentCount == PresentCount(summary.attendance) <= summary.totalFaces
    ensures ledger.days == old(ledger.days)[date := AppendRows(old(ledger.Query(date)), summary.attendance)]
  {
    var known := BuildCatalog(enrolled);
    var attendance := MatchFaces(dist, known, faces, time);
    ledger.Append(date, attendance);
    summary := Summary(|faces|, PresentCount(attendance), attendance);
  }
}
