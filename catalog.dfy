/** The enrolled-student catalog that matching runs against: every student
    folder contributes the encodings found in its pose images, and students
    whose pose images yield no encoding at all are dropped. */
module Catalog {

  /** The contents of a student's info.json. */
  datatype Info = Info(roll: string, name: string)

  /** A student folder as found on disk. `images` holds, for each pose image
      file that exists, the encodings face detection found in it (possibly
      none). Detection itself is foreign and enters only through these values. */
  datatype Enrolled<Enc> = Enrolled(id: string, info: Info, images: map<string, seq<Enc>>)

  /** A catalog entry: a student together with all of its pose encodings. */
  datatype Student<Enc> = Student(id: string, info: Info, encodings: seq<Enc>)

  /** The pose images looked up for every student, in this order. */
  const Angles: seq<string> := ["front", "left", "right"]

  /** The encodings of one pose: those of its image, or none when the
      image file is missing. */
  function PoseEncodings<Enc>(images: map<string, seq<Enc>>, angle: string): seq<Enc>
  {
    if angle in images then images[angle] else []
  }

  /** The encodings of the given pose images, in pose order; a pose whose
      image file is missing contributes nothing. */
  function Gather<Enc>(images: map<string, seq<Enc>>, angles: seq<string>): (r: seq<Enc>)
    ensures |r| == 0 <==> forall k :: 0 <= k < |angles| && angles[k] in images ==> |images[angles[k]]| == 0
  {
    if |angles| == 0 then []
    else
      Gather(images, angles[..|angles| - 1]) + PoseEncodings(images, angles[|angles| - 1])
  }

  /** Gathering distributes over the pose list: the encodings of later
      poses follow those of earlier ones, and nothing is dropped or added. */
  lemma {:induction false} GatherConcat<Enc>(images: map<string, seq<Enc>>, a: seq<string>, b: seq<string>)
    ensures Gather(images, a + b) == Gather(images, a) + Gather(images, b)
  {
    if |b| == 0 {
      assert a + b == a;
    } else {
      var n := |b| - 1;
      var last := PoseEncodings(images, b[n]);
      assert (a + b)[..|a| + n] == a + b[..n];
      assert (a + b)[|a| + n] == b[n];
      assert Gather(images, a + b) == Gather(images, a + b[..n]) + last;
      assert Gather(images, b) == Gather(images, b[..n]) + last;
      GatherConcat(images, a, b[..n]);
      assert Gather(images, a + b) == (Gather(images, a) + Gather(images, b[..n])) + last;
    }
  }

  /** A student's encodings are exactly those of its front image, then its
      left image, then its right image. */
  lemma GatherAngles<Enc>(images: map<string, seq<Enc>>)
    ensures Gather(images, Angles)
            == PoseEncodings(images, "front") + PoseEncodings(images, "left") + PoseEncodings(images, "right")
  {
    var front, frontLeft: seq<string> := ["front"], ["front", "left"];
    assert front[..0] == [];
    assert frontLeft[..1] == front;
    assert Angles[..2] == frontLeft;
    assert Gather(images, front) == [] + PoseEncodings(images, "front");
    assert Gather(images, frontLeft) == Gather(images, front) + PoseEncodings(images, "left");
    assert Gather(images, Angles) == Gather(images, frontLeft) + PoseEncodings(images, "right");
  }

  /** The catalog entry an enrolled folder would give. */
  function ToStudent<Enc>(e: Enrolled<Enc>): Student<Enc>
  {
    Student(e.id, e.info, Gather(e.images, Angles))
  }

  /** The catalog: the enrolled students, in enrolment order, that have at
      least one encoding. */
  function Eligible<Enc>(enrolled: seq<Enrolled<Enc>>): (r: seq<Student<Enc>>)
    ensures |r| <= |enrolled|
  {
    if |enrolled| == 0 then []
    else
      var prefix := enrolled[..|enrolled| - 1];
      var s := ToStudent(enrolled[|enrolled| - 1]);
      Eligible(prefix) + (if |s.encodings| > 0 then [s] else [])
  }

  /** Every catalog entry has an encoding and comes from an enrolled folder,
      and every folder with an encoding has its entry in the catalog. */
  lemma {:induction false} EligibleMembers<Enc>(enrolled: seq<Enrolled<Enc>>)
    ensures forall s :: s in Eligible(enrolled) ==>
              |s.encodings| > 0 && exists j :: 0 <= j < |enrolled| && s == ToStudent(enrolled[j])
    ensures forall j :: 0 <= j < |enrolled| && |ToStudent(enrolled[j]).encodings| > 0 ==>
              ToStudent(enrolled[j]) in Eligible(enrolled)
  {
    if |enrolled| > 0 {
      var n := |enrolled| - 1;
      var prefix := enrolled[..n];
      EligibleMembers(prefix);
      assert forall j :: 0 <= j < n ==> prefix[j] == enrolled[j];
    }
  }

  /** Filtering distributes over the enrolled list, so the catalog keeps
      enrolment order: entries from earlier folders come first. */
  lemma {:induction false} EligibleConcat<Enc>(a: seq<Enrolled<Enc>>, b: seq<Enrolled<Enc>>)
    ensures Eligible(a + b) == Eligible(a) + Eligible(b)
  {
    if |b| == 0 {
      assert a + b == a;
    } else {
      var n := |b| - 1;
      var s := ToStudent(b[n]);
      var tail := if |s.encodings| > 0 then [s] else [];
      assert (a + b)[..|a| + n] == a + b[..n];
      assert (a + b)[|a| + n] == b[n];
      assert Eligible(a + b) == Eligible(a + b[..n]) + tail;
      assert Eligible(b) == Eligible(b[..n]) + tail;
      EligibleConcat(a, b[..n]);
      assert Eligible(a + b) == (Eligible(a) + Eligible(b[..n])) + tail;
    }
  }

  /** One folder gives one catalog entry if it has an encoding, none otherwise. */
  lemma EligibleSingle<Enc>(e: Enrolled<Enc>)
    ensures Eligible([e]) == if |ToStudent(e).encodings| > 0 then [ToStudent(e)] else []
  {
    assert [e][..0] == [];
  }

  /** Builds the catalog as the service does: for each student, collect the
      encodings of the front, left and right images that exist, and keep the
      student only if that collection is non-empty. */
  method BuildCatalog<Enc>(enrolled: seq<Enrolled<Enc>>) returns (known: seq<Student<Enc>>)
    ensures known == Eligible(enrolled)
  {
    known := [];
    for i := 0 to |enrolled|
      invariant known == Eligible(enrolled[..i])
    {
      var e := enrolled[i];
      var encodings: seq<Enc> := [];
      for a := 0 to |Angles|
        invariant encodings == Gather(e.images, Angles[..a])
      {
        var angle := Angles[a];
        assert Angles[..a + 1][..a] == Angles[..a];
        if angle in e.images {
          encodings := encodings + e.images[angle];
        }
      }
      assert Angles[..|Angles|] == Angles;
      assert enrolled[..i + 1][..i] == enrolled[..i];
      if |encodings| > 0 {
        known := known + [Student(e.id, e.info, encodings)];
      }
    }
    assert enrolled[..|enrolled|] == enrolled;
  }

  /** A student none of whose pose images yields an encoding never enters
      the catalog. */
  lemma NoEncodingsExcluded<Enc>(enrolled: seq<Enrolled<Enc>>, j: nat)
    requires j < |enrolled|
    requires forall a :: a in Angles && a in enrolled[j].images ==> |enrolled[j].images[a]| == 0
    ensures forall s :: s in Eligible(enrolled) ==> s != ToStudent(enrolled[j])
  {
    EligibleMembers(enrolled);
  }
}
