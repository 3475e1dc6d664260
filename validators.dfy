/** The small input checks of the web layer: which uploaded file names are
    accepted as images, and how a roll number is turned into a folder name. */
module Validators {
  import opened Wrappers

  /** Extensions accepted for an uploaded attendance photo. */
  predicate IsAllowedExtension(ext: string)
  {
    ext == "png" || ext == "jpg" || ext == "jpeg"
  }

  /** ASCII lower-casing of one character. */
  function LowerChar(c: char): char
  {
    if 'A' <= c <= 'Z' then (c as int + 32) as char else c
  }

  function Lower(s: string): string
  {
    seq(|s|, i requires 0 <= i < |s| => LowerChar(s[i]))
  }

  /** Position of the last '.' in `s`, if any: where `rsplit('.', 1)` cuts. */
  function LastDot(s: string): (r: Option<nat>)
    ensures r.None? <==> '.' !in s
    ensures r.Some? ==> r.value < |s| && s[r.value] == '.' && '.' !in s[r.value + 1..]
  {
    if |s| == 0 then None
    else if s[|s| - 1] == '.' then Some(|s| - 1)
    else
      assert s == s[..|s| - 1] + [s[|s| - 1]];
      var r := LastDot(s[..|s| - 1]);
      assert r.Some? ==> s[r.value + 1..] == s[..|s| - 1][r.value + 1..] + [s[|s| - 1]];
      r
  }

  /** Two positions that both hold the last '.' of `s` are the same. */
  lemma LastDotUnique(s: string, i: nat, k: nat)
    requires i < |s| && s[i] == '.' && '.' !in s[i + 1..]
    requires k < |s| && s[k] == '.' && '.' !in s[k + 1..]
    ensures i == k
  {
  }

  /** Position `i` holds the last '.' of `filename` and the lower-cased text
      after it is an allowed extension. */
  predicate AcceptedAt(filename: string, i: int)
  {
    0 <= i < |filename| && filename[i] == '.' && '.' !in filename[i + 1..]
    && IsAllowedExtension(Lower(filename[i + 1..]))
  }

  /** An upload is accepted iff its name has a '.' and the text after the
      last '.', lower-cased, is one of the allowed extensions. */
  function AllowedFile(filename: string): (b: bool)
    ensures b <==> exists i :: AcceptedAt(filename, i)
  {
    match LastDot(filename)
    case None => false
    case Some(k) =>
      var ok := IsAllowedExtension(Lower(filename[k + 1..]));
      assert ok ==> AcceptedAt(filename, k);
      assert !ok ==> forall i :: !AcceptedAt(filename, i) by {
        forall i | AcceptedAt(filename, i) ensures ok {
          LastDotUnique(filename, i, k);
        }
      }
      ok
  }

  /** Upper-case extensions are accepted: the comparison is on the lower-cased text. */
  lemma AllowedFileUpperCase()
    ensures AllowedFile("class.JPG")
  {
    assert LastDot("class.JPG") == Some(5);
    assert Lower("JPG") == "jpg";
  }

  /** Only the text after the last '.' is the extension. */
  lemma AllowedFileLastDotOnly()
    ensures !AllowedFile("scan.png.gif")
  {
    assert LastDot("scan.png.gif") == Some(8);
    assert Lower("gif") == "gif";
  }

  /** Characters kept in a roll number (ASCII letters and digits). */
  predicate IsAlnum(c: char)
  {
    'a' <= c <= 'z' || 'A' <= c <= 'Z' || '0' <= c <= '9'
  }

  /** The roll number with every non-alphanumeric character removed. */
  function CleanRoll(roll: string): (r: string)
    ensures |r| <= |roll|
    ensures forall i :: 0 <= i < |r| ==> IsAlnum(r[i])
    ensures forall c :: IsAlnum(c) ==> multiset(r)[c] == multiset(roll)[c]
  {
    if |roll| == 0 then []
    else
      assert roll == [roll[0]] + roll[1..];
      (if IsAlnum(roll[0]) then [roll[0]] else []) + CleanRoll(roll[1..])
  }

  /** Cleaning works piecewise, so the kept characters stay in their order. */
  lemma {:induction false} CleanRollConcat(a: string, b: string)
    ensures CleanRoll(a + b) == CleanRoll(a) + CleanRoll(b)
  {
    if |a| == 0 {
      assert a + b == b;
    } else {
      assert (a + b)[1..] == a[1..] + b;
      CleanRollConcat(a[1..], b);
    }
  }

  /** A roll number that is already alphanumeric is left as it is. */
  lemma {:induction false} CleanRollKeepsAlnum(roll: string)
    requires forall i :: 0 <= i < |roll| ==> IsAlnum(roll[i])
    ensures CleanRoll(roll) == roll
  {
    if |roll| > 0 {
      CleanRollKeepsAlnum(roll[1..]);
    }
  }

  /** Cleaning twice is the same as cleaning once. */
  lemma CleanRollIdempotent(roll: string)
    ensures CleanRoll(CleanRoll(roll)) == CleanRoll(roll)
  {
    CleanRollKeepsAlnum(CleanRoll(roll));
  }
}
