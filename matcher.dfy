/** Face-to-student matching: each detected face is compared with every
    catalog student, the closest pose of a student gives its score, and the
    face is assigned to the student with the smallest score below the
    threshold (the first such student on equal scores), or to nobody. */
module Matcher {
  import opened Wrappers
  import opened Catalog

  /** A student matches only with a score strictly below this distance. */
  const Threshold: real := 0.5

  /** The score of a student without encodings, and the starting best distance. */
  const NoMatchDistance: real := 1.0

  /** Roll, name and status text of a face that matched nobody. */
  const UnknownLabel: string := "Unknown"

  datatype Status = Present | Unknown

  /** One attendance row. `confidence` is the real number the service
      formats as a percentage; `faceNumber` is the 1-based face position. */
  datatype Record = Record(roll: string, name: string, status: Status, confidence: real,
                           time: string, faceNumber: nat)

  /** The smallest distance from `face` to any of `encodings`, or
      NoMatchDistance when there are none. `dist(known, face)` stands for the
      foreign face-distance computation. */
  function MinDistance<Enc>(dist: (Enc, Enc) -> real, encodings: seq<Enc>, face: Enc): (r: real)
    ensures |encodings| == 0 ==> r == NoMatchDistance
    ensures |encodings| > 0 ==> exists i :: 0 <= i < |encodings| && r == dist(encodings[i], face)
    ensures forall i :: 0 <= i < |encodings| ==> r <= dist(encodings[i], face)
  {
    if |encodings| == 0 then NoMatchDistance
    else if |encodings| == 1 then dist(encodings[0], face)
    else
      var rest := MinDistance(dist, encodings[1..], face);
      var d := dist(encodings[0], face);
      assert forall i :: 1 <= i < |encodings| ==> encodings[i] == encodings[1..][i - 1];
      if d <= rest then d else rest
  }

  /** A student's score for a face: the distance of its closest pose. */
  function Score<Enc>(dist: (Enc, Enc) -> real, s: Student<Enc>, face: Enc): real
  {
    MinDistance(dist, s.encodings, face)
  }

  /** `k` is the student a face is assigned to: its score is below the
      threshold, strictly below every earlier student's score, and no later
      student scores lower. */
  ghost predicate IsBest<Enc>(dist: (Enc, Enc) -> real, known: seq<Student<Enc>>, face: Enc, k: nat)
  {
    && k < |known|
    && Score(dist, known[k], face) < Threshold
    && (forall j :: 0 <= j < k ==> Score(dist, known[j], face) > Score(dist, known[k], face))
    && (forall j :: k < j < |known| ==> Score(dist, known[j], face) >= Score(dist, known[k], face))
  }

  /** Nobody scores below the threshold. */
  ghost predicate NoMatch<Enc>(dist: (Enc, Enc) -> real, known: seq<Student<Enc>>, face: Enc)
  {
    forall j :: 0 <= j < |known| ==> Score(dist, known[j], face) >= Threshold
  }

  /** One step of the scan: given the result `prev` for all students but
      the last, the last student becomes the best exactly when its score is
      below the threshold and strictly below the previous best's score. */
  lemma BestIndexStep<Enc>(dist: (Enc, Enc) -> real, known: seq<Student<Enc>>, face: Enc, prev: Option<nat>)
    requires |known| > 0
    requires prev.None? <==> NoMatch(dist, known[..|known| - 1], face)
    requires prev.Some? ==> IsBest(dist, known[..|known| - 1], face, prev.value)
    ensures var n := |known| - 1;
            var d := Score(dist, known[n], face);
            var r := if d < Threshold && (prev.None? || d < Score(dist, known[prev.value], face)) then Some(n) else prev;
            (r.None? <==> NoMatch(dist, known, face)) && (r.Some? ==> IsBest(dist, known, face, r.value))
  {
    var n := |known| - 1;
    var prefix := known[..n];
    assert forall j :: 0 <= j < n ==> prefix[j] == known[j];
    var d := Score(dist, known[n], face);
    if prev.Some? {
      var p := prev.value;
      var dp := Score(dist, known[p], face);
      assert dp < Threshold;
      if d < dp {
        forall j | 0 <= j < n
          ensures Score(dist, known[j], face) > d
        {
          assert j < p || j == p || p < j;
        }
      }
    }
  }

  /** The student a face is assigned to, if any, as the scan over the
      catalog in order decides it. */
  function BestIndex<Enc>(dist: (Enc, Enc) -> real, known: seq<Student<Enc>>, face: Enc): (r: Option<nat>)
    ensures r.None? <==> NoMatch(dist, known, face)
    ensures r.Some? ==> IsBest(dist, known, face, r.value)
  {
    if |known| == 0 then None
    else
      var n := |known| - 1;
      var prev := BestIndex(dist, known[..n], face);
      BestIndexStep(dist, known, face, prev);
      var d := Score(dist, known[n], face);
      if d < Threshold && (prev.None? || d < Score(dist, known[prev.value], face)) then Some(n) else prev
  }

  /** At most one student satisfies IsBest: the assignment is determined. */
  lemma BestIsUnique<Enc>(dist: (Enc, Enc) -> real, known: seq<Student<Enc>>, face: Enc, k1: nat, k2: nat)
    requires IsBest(dist, known, face, k1) && IsBest(dist, known, face, k2)
    ensures k1 == k2
  {
  }

  /** Two students with the same score below the threshold: the later one
      is never chosen, because a replacement needs a strictly smaller score. */
  lemma TieGoesToFirst<Enc>(dist: (Enc, Enc) -> real, known: seq<Student<Enc>>, face: Enc, i: nat, j: nat)
    requires i < j < |known|
    requires Score(dist, known[i], face) == Score(dist, known[j], face) < Threshold
    ensures BestIndex(dist, known, face) != Some(j)
    ensures BestIndex(dist, known, face).Some?
  {
  }

  /** The attendance row for the face at 1-based position `number`. */
  function RecordFor<Enc>(dist: (Enc, Enc) -> real, known: seq<Student<Enc>>, face: Enc, time: string, number: nat): (r: Record)
    ensures r.time == time && r.faceNumber == number
    ensures r.status == Present ==> r.confidence > 1.0 - Threshold
    ensures r.status == Unknown ==> r.roll == UnknownLabel && r.name == UnknownLabel && r.confidence == 0.0
  {
    match BestIndex(dist, known, face)
    case None => Record(UnknownLabel, UnknownLabel, Unknown, 0.0, time, number)
    case Some(k) =>
      var info := known[k].info;
      Record(info.roll, info.name, Present, 1.0 - Score(dist, known[k], face), time, number)
  }

  /** A face is marked Present iff some catalog student scores below the
      threshold; with an empty catalog every face is Unknown. */
  lemma PresentIffSomeBelowThreshold<Enc>(dist: (Enc, Enc) -> real, known: seq<Student<Enc>>, face: Enc,
                                          time: string, number: nat)
    ensures RecordFor(dist, known, face, time, number).status == Present
            <==> exists j :: 0 <= j < |known| && Score(dist, known[j], face) < Threshold
    ensures |known| == 0 ==> RecordFor(dist, known, face, time, number).status == Unknown
  {
  }

  /** When student `k` is the best match for a face, the face's row is
      Present with `k`'s roll and name and confidence 1 - score. */
  lemma PresentRowNamesBest<Enc>(dist: (Enc, Enc) -> real, known: seq<Student<Enc>>, face: Enc,
                                 time: string, number: nat, k: nat)
    requires IsBest(dist, known, face, k)
    ensures RecordFor(dist, known, face, time, number)
            == Record(known[k].info.roll, known[k].info.name, Present,
                      1.0 - Score(dist, known[k], face), time, number)
  {
    BestIsUnique(dist, known, face, BestIndex(dist, known, face).value, k);
  }

  /** With non-negative distances (the face distance is a Euclidean norm),
      a Present row's confidence lies in (0.5, 1]. */
  lemma ConfidenceRange<Enc>(dist: (Enc, Enc) -> real, known: seq<Student<Enc>>, face: Enc, time: string, number: nat)
    requires forall a: Enc, b: Enc :: dist(a, b) >= 0.0
    ensures var r := RecordFor(dist, known, face, time, number);
            r.status == Present ==> 1.0 - Threshold < r.confidence <= 1.0
  {
    var best := BestIndex(dist, known, face);
    if best.Some? {
      var s := known[best.value];
      assert |s.encodings| > 0;
      var i :| 0 <= i < |s.encodings| && Score(dist, s, face) == dist(s.encodings[i], face);
    }
  }

  /** A student without encodings scores NoMatchDistance and so is never the
      student a face is assigned to. */
  lemma NoEncodingsNeverBest<Enc>(dist: (Enc, Enc) -> real, known: seq<Student<Enc>>, face: Enc, k: nat)
    requires k < |known| && |known[k].encodings| == 0
    ensures !IsBest(dist, known, face, k)
    ensures BestIndex(dist, known, face) != Some(k)
  {
  }

  /** Finds the assigned student with the service's running-minimum scan:
      `bestDistance` starts at 1.0 and a student replaces the current best
      only when its score is strictly below both the best so far and the
      threshold. */
  method BestStudent<Enc>(dist: (Enc, Enc) -> real, known: seq<Student<Enc>>, face: Enc)
    returns (best: Option<nat>, bestDistance: real)
    ensures best == BestIndex(dist, known, face)
    ensures best.None? ==> bestDistance == NoMatchDistance
    ensures best.Some? ==> best.value < |known| && bestDistance == Score(dist, known[best.value], face)
  {
    best, bestDistance := None, NoMatchDistance;
    for i := 0 to |known|
      invariant best == BestIndex(dist, known[..i], face)
      invariant best.None? ==> bestDistance == NoMatchDistance
      invariant best.Some? ==> best.value < i && bestDistance == Score(dist, known[best.value], face)
    {
      var minDistance := Score(dist, known[i], face);
      assert known[..i + 1][..i] == known[..i];
      if minDistance < bestDistance && minDistance < Threshold {
        best, bestDistance := Some(i), minDistance;
      }
    }
    assert known[..|known|] == known;
  }

  /** The row for one detected face: Present with the best student's roll,
      name and confidence 1 - distance, or the Unknown sentinel. */
  method FaceRow<Enc>(dist: (Enc, Enc) -> real, known: seq<Student<Enc>>, face: Enc, time: string, number: nat)
    returns (row: Record)
    ensures row == RecordFor(dist, known, face, time, number)
  {
    var best, bestDistance := BestStudent(dist, known, face);
    if best.Some? {
      var info := known[best.value].info;
      var confidence := 1.0 - bestDistance;
      row := Record(info.roll, info.name, Present, confidence, time, number);
    } else {
      row := Record(UnknownLabel, UnknownLabel, Unknown, 0.0, time, number);
    }
  }

  /** The rows for `faces`, face by face; face i gets face number i + 1. */
  function Rows<Enc>(dist: (Enc, Enc) -> real, known: seq<Student<Enc>>, faces: seq<Enc>, time: string): (r: seq<Record>)
    ensures |r| == |faces|
  {
    if |faces| == 0 then []
    else
      var n := |faces| - 1;
      Rows(dist, known, faces[..n], time) + [RecordFor(dist, known, faces[n], time, n + 1)]
  }

  /** There is one row per face, and row i is face i's row. */
  lemma {:induction false} RowsAt<Enc>(dist: (Enc, Enc) -> real, known: seq<Student<Enc>>, faces: seq<Enc>, time: string, i: nat)
    requires i < |faces|
    ensures Rows(dist, known, faces, time)[i] == RecordFor(dist, known, faces[i], time, i + 1)
  {
    var n := |faces| - 1;
    var prefix := faces[..n];
    assert Rows(dist, known, faces, time) == Rows(dist, known, prefix, time) + [RecordFor(dist, known, faces[n], time, n + 1)];
    if i < n {
      RowsAt(dist, known, prefix, time, i);
      assert prefix[i] == faces[i];
    }
  }

  /** Produces one attendance row per detected face, in face order. */
  method MatchFaces<Enc>(dist: (Enc, Enc) -> real, known: seq<Student<Enc>>, faces: seq<Enc>, time: string)
    returns (attendance: seq<Record>)
    ensures |attendance| == |faces|
    ensures forall i :: 0 <= i < |faces| ==> attendance[i] == RecordFor(dist, known, faces[i], time, i + 1)
  {
    attendance := [];
    for idx := 0 to |faces|
      invariant attendance == Rows(dist, known, faces[..idx], time)
    {
      var row := FaceRow(dist, known, faces[idx], time, idx + 1);
      assert faces[..idx + 1][..idx] == faces[..idx];
      attendance := attendance + [row];
    }
    assert faces[..|faces|] == faces;
    forall i | 0 <= i < |faces|
      ensures attendance[i] == RecordFor(dist, known, faces[i], time, i + 1)
    {
      RowsAt(dist, known, faces, time, i);
    }
  }

  /** The number of Present rows. */
  function PresentCount(rows: seq<Record>): (r: nat)
    ensures r <= |rows|
    ensures r == 0 <==> forall i :: 0 <= i < |rows| ==> rows[i].status != Present
  {
    if |rows| == 0 then 0
    else
      var n := |rows| - 1;
      assert forall i :: 0 <= i < n ==> rows[..n][i] == rows[i];
      PresentCount(rows[..n]) + (if rows[n].status == Present then 1 else 0)
  }

  /** Counting splits over concatenation, so a ledger's Present total is the
      sum over its batches. */
  lemma {:induction false} PresentCountConcat(a: seq<Record>, b: seq<Record>)
    ensures PresentCount(a + b) == PresentCount(a) + PresentCount(b)
  {
    if |b| == 0 {
      assert a + b == a;
    } else {
      var n := |b| - 1;
      assert (a + b)[..|a| + n] == a + b[..n];
      PresentCountConcat(a, b[..n]);
    }
  }
}
