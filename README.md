# Face attendance: matching and ledger model

A Dafny model of the decision logic of a face-recognition attendance service
(a Flask application, `app/mapp.py`). A teacher uploads a class photo; the
service detects the faces in it, compares each face with the enrolled
students' front, left and right pose encodings, marks each face Present
(with the matched student's roll number and name) or Unknown, appends the
rows to the day's attendance file and reports how many faces were found and
how many were present. Students are enrolled by submitting a name, a roll
number and three photos.

The model has six modules:

- `Wrappers` (`wrappers.dfy`): the `Option` datatype.
- `Validators` (`validators.dfy`): the upload file-name check and roll-number cleaning.
- `Catalog` (`catalog.dfy`): the catalog build. Each student's pose images are gathered in
  front/left/right order. Students without any encoding are dropped.
- `Matcher` (`matcher.dfy`): matching. A student's score is the minimum distance over its
  encodings, or 1.0 when it has none. The catalog is scanned in order with a running best
  that starts at 1.0. A student replaces the best only when its score is strictly below both
  the best so far and the threshold 0.5. This picks the smallest score under 0.5, and on
  equal scores the first student in catalog order. The module also builds the Present and
  Unknown rows and counts the Present rows.
- `AttendanceLog` (`ledger.dfy`): the ledger. It is a class holding a map from a date to that
  day's rows. Append puts a call's rows after the rows already stored for that date.
- `Registration` (`registration.dfy`): registration. It models the all-or-nothing rule over
  the three photos, with the student folder rolled back on failure.
- `Attendance` (`attendance.dfy`): the whole attendance-taking call, tying the parts together.

Face detection and the face distance are foreign code. Encodings are an
abstract type parameter `Enc`. The distance is a function parameter
`dist: (Enc, Enc) -> real`, called as `dist(known, face)`. The pose images
enter as the encodings detection found in them. The clock enters as the
`time` and `date` parameters.

Two behaviours of the service are kept as written:

- The "name and roll required" test runs before the roll number is cleaned. A roll number
  made only of punctuation passes it and cleans to the empty string. The folder path then
  names the database folder itself, which always exists. Such a registration is answered
  "already registered" (`Registration.Database.Register`).
- A student whose score is exactly 0.5 is never matched, because the test is a strict `<`.
  Neither is a student with no encodings, whose score is 1.0.

Some behaviours follow directly from the code:

- A student with no encodings is dropped while the catalog is built (`Catalog.Eligible`),
  not kept and skipped by the matcher. The matcher would never choose one anyway
  (`Matcher.NoEncodingsNeverBest`).
- The threshold is a fixed 0.5, not a parameter (`Matcher.Threshold`).
- A row records no distance. It has roll, name, status, confidence, time and face number
  (`Matcher.Record`); an unknown face has confidence 0.
- A day's file is updated by reading it, concatenating and rewriting it, with no lock. The
  model is the sequential append.
- The first call of a day that finds no faces writes a file with no columns, which cannot be
  read back. The ledger class models the corrected behaviour, where such a day simply has no
  rows; the service's behaviour is modelled beside it (see "Findings").

## Model

| member | source | states |
|---|---|---|
| `Validators.LastDot` | app/mapp.py:30 | None iff the name has no '.'; otherwise the position of a '.' with no '.' after it (where `rsplit('.', 1)` cuts) |
| `Validators.AllowedFile` | app/mapp.py:29-30 | accepted iff some '.' has no '.' after it and the lower-cased text after it is png, jpg or jpeg |
| `Validators.AllowedFileUpperCase` | app/mapp.py:30 | "class.JPG" is accepted: the extension is compared lower-cased |
| `Validators.AllowedFileLastDotOnly` | app/mapp.py:30 | "scan.png.gif" is refused: only the text after the last '.' counts |
| `Validators.CleanRoll` | app/mapp.py:185 | result is no longer than the input, holds only alphanumerics, and keeps every alphanumeric character as often as the input has it |
| `Validators.CleanRollConcat` | app/mapp.py:185 | cleaning a concatenation is the concatenation of the cleanings, so kept characters stay in their original order |
| `Validators.CleanRollKeepsAlnum` | app/mapp.py:185 | an all-alphanumeric roll number is returned unchanged |
| `Validators.CleanRollIdempotent` | app/mapp.py:185 | cleaning twice equals cleaning once |
| `Catalog.Gather` | app/mapp.py:69-78 | a student's collected encodings are empty iff every existing pose image yielded none |
| `Catalog.GatherConcat` | app/mapp.py:72-78 | gathering over two pose lists joined is the gathering of the first followed by that of the second |
| `Catalog.GatherAngles` | app/mapp.py:72-78 | a student's encodings are exactly the front image's, then the left image's, then the right image's (none for a missing file) |
| `Catalog.Eligible` | app/mapp.py:67-84 | the catalog is no longer than the list of enrolled folders |
| `Catalog.EligibleMembers` | app/mapp.py:80-84 | every catalog entry has at least one encoding and comes from an enrolled folder; every folder with an encoding is in the catalog |
| `Catalog.EligibleConcat` | app/mapp.py:67-84 | filtering two folder lists joined gives the first's catalog followed by the second's, so the catalog keeps enrolment order |
| `Catalog.EligibleSingle` | app/mapp.py:80-84 | one folder gives its entry when it has an encoding and nothing otherwise |
| `Catalog.BuildCatalog` | app/mapp.py:66-84 | the nested loops over students and angles build exactly `Eligible` of the enrolled folders |
| `Catalog.NoEncodingsExcluded` | app/mapp.py:80-84 | a folder whose pose images give no encoding is not in the catalog |
| `Matcher.MinDistance` | app/mapp.py:108-110 | 1.0 for no encodings; otherwise the distance to one of the encodings and no larger than any of them |
| `Matcher.BestIndex` | app/mapp.py:102-114 | None iff every student scores at least 0.5; otherwise the student that scores below 0.5, strictly below every earlier student and no more than any later one |
| `Matcher.BestIndexStep` | app/mapp.py:112-114 | one scan step: the next student becomes the best exactly when its score is below 0.5 and strictly below the best so far, and this keeps the best-match condition over the longer catalog |
| `Matcher.BestIsUnique` | app/mapp.py:112-114 | at most one student satisfies that best-match condition |
| `Matcher.TieGoesToFirst` | app/mapp.py:112-114 | of two students with the same score below 0.5 the later one is never chosen, and some student is |
| `Matcher.NoEncodingsNeverBest` | app/mapp.py:110-112 | a student without encodings is never the best match |
| `Matcher.BestStudent` | app/mapp.py:102-114 | the running-minimum scan starting from 1.0 with a strict `<` returns the best match and its score (1.0 when none) |
| `Matcher.RecordFor` | app/mapp.py:116-136 | a Present row has confidence above 0.5; any other row has roll and name "Unknown" and confidence 0; time and face number as given |
| `Matcher.PresentIffSomeBelowThreshold` | app/mapp.py:106-117 | a face is Present iff some catalog student scores below 0.5; with an empty catalog every face is Unknown |
| `Matcher.PresentRowNamesBest` | app/mapp.py:117-126 | when student k is the best match, the row is Present with k's roll and name and confidence 1 - k's score |
| `Matcher.ConfidenceRange` | app/mapp.py:117-118 | with non-negative distances a Present row's confidence lies in (0.5, 1] |
| `Matcher.FaceRow` | app/mapp.py:102-136 | the row built from the scan's result is the row for that face |
| `Matcher.RowsAt` | app/mapp.py:101-136 | the rows for a list of faces have one entry per face, and entry i is face i's row with face number i + 1 |
| `Matcher.MatchFaces` | app/mapp.py:100-137 | one row per detected face, in face order, the i-th row being the row for face i with face number i + 1 |
| `Matcher.PresentCount` | app/mapp.py:151 | at most the number of rows; zero iff no row is Present |
| `Matcher.PresentCountConcat` | app/mapp.py:151 | the Present count of two row sequences joined is the sum of their counts |
| `AttendanceLog.AppendRows` | app/mapp.py:143-147 | a new day's rows are the batch; otherwise the old rows, unchanged and in order, followed by the batch, and the row count grows by the batch size |
| `AttendanceLog.ReplayIsConcatenation` | app/mapp.py:143-147 | after several appends the day holds the old rows followed by all batches in append order |
| `AttendanceLog.FlattenLength` | app/mapp.py:143-147 | N batches of k rows each contribute exactly N * k rows |
| `AttendanceLog.AppendAsWritten` | app/mapp.py:143-147 | the service's append: fails exactly when the day's file has no columns; otherwise the file written holds the stored rows followed by the batch, and has no columns when that is empty |
| `AttendanceLog.EmptyFirstBatchBlocksDay` | app/mapp.py:143-147 | a day whose first call has no faces gets a file with no columns, and every later append that day fails; the corrected append reads that day as empty |
| `AttendanceLog.AsWrittenAgrees` | app/mapp.py:143-147 | away from that case, the service's append stores exactly the rows of the corrected append |
| `AttendanceLog.Ledger.Query` | app/mapp.py:284-293 | no result iff the date has no file; otherwise that day's rows in storage order |
| `AttendanceLog.Ledger.Append` | app/mapp.py:140-147 | the date's rows become the append of the batch to the old rows; every other date is unchanged |
| `Registration.SavePhotos` | app/mapp.py:200-229 | the success flag stays true iff the front, left and right photos were all supplied and stored |
| `Registration.Database.Register` | app/mapp.py:176-239 | missing name or roll rejected; an existing or empty cleaned folder name rejected as already registered; otherwise the student (cleaned roll, name) is added iff all three photos were stored, and the database is unchanged on every failure |
| `Attendance.ProcessAttendance` | app/mapp.py:60-154 | total faces is the number of detected faces; row i is the row for face i against the filtered catalog; present count is the number of Present rows and at most the total; the day's ledger gets the rows appended |

## Left out

- Face detection, image loading and the face distance are foreign library code. Encodings, detection results and the distance function are inputs.
- Confidence is the real `1 - d`. Its rendering as a two-decimal percentage string, and "0%" for unknown faces, is floating-point formatting and is not modelled.
- The distances are reals. Floating-point rounding, and the NaN behaviour of Python's `min`, are not modelled.
- The Flask routes, JSON responses, templates, error handler and the browser script are web transport and are not modelled. The date default of the records query is among them.
- File system and storage are not modelled: directory listing, `info.json` reading, base64 decoding, CSV reading and writing, temporary upload files, `rmtree`. The ledger is an in-memory map and the student database a map from folder name to its info.
- The order of the directory listing is an input: the order of `enrolled`. Student ids are folder names and are therefore distinct, so the catalog is a sequence rather than a dictionary.
- AttendanceLog.Ledger.Append: rows are stored verbatim. Pandas re-reads the CSV and may change values, for example a roll "007" read back as 7. This is not modelled.
- AttendanceLog.Ledger.Append: it models the corrected append. A day whose first call found no faces keeps working here, while the service fails every later call that day and the records query for that date too (see "Findings" and `AttendanceLog.AppendAsWritten`).
- Exceptions from foreign or I/O code turn a call into `{success: false, error}`. They are not modelled. A detection or storage failure is never an outcome of the model.
- The service has no locking around the CSV append, so there is no concurrency to model.
- Validators.CleanRoll: "alphanumeric" is decided for ASCII letters and digits only. Python's `isalnum` also keeps non-ASCII letters and digits.
- Validators.AllowedFile: lower-casing is ASCII only. This is exact for the png/jpg/jpeg test, because no other character lowers to one of those letters.
- Matcher.PresentCount: the contract states bounds and the zero case. The exact count follows from its definition and `PresentCountConcat`.

## Findings

| source | as written | input that shows it | evidently intended | confidence | as-written member | corrected member |
|---|---|---|---|---|---|---|
| app/mapp.py:143-147 | a call with no faces on a day without a file writes an empty DataFrame, a file with no header; the next call's `read_csv` on it raises, so that call and every later one that day return `success: false` and store nothing, and the records query for the date fails too (app/mapp.py:287) | the first photo of a day shows no face, then any photo the same day | an empty day reads as zero rows and later calls append to it | not executed; medium (depends on pandas writing and reading an empty DataFrame this way) | `AttendanceLog.EmptyFirstBatchBlocksDay` | `AttendanceLog.AppendRows` |
