/** Student registration: a roll number and name plus a front, left and
    right photo. The student folder is created first and removed again
    unless all three photos were supplied and stored. */
module Registration {
  import opened Catalog
  import opened Validators

  /** One `<angle>_photo` form field: its text (empty when the field is
      missing) and whether decoding, writing and re-loading it as an image
      succeeded — an outcome of foreign code, given as a value. */
  datatype Photo = Photo(data: string, stored: bool)

  /** The photo for `angle` was supplied and stored. */
  predicate Saved(photos: map<string, Photo>, angle: string)
  {
    angle in photos && photos[angle].data != "" && photos[angle].stored
  }

  /** Every one of the front, left and right photos was supplied and stored. */
  predicate AllSaved(photos: map<string, Photo>)
  {
    forall k :: 0 <= k < |Angles| ==> Saved(photos, Angles[k])
  }

  /** Processes the photos of every angle, as the service does, and reports
      whether all of them were supplied and stored. */
  method SavePhotos(photos: map<string, Photo>) returns (success: bool)
    ensures success <==> AllSaved(photos)
  {
    success := true;
    for a := 0 to |Angles|
      invariant success <==> forall k :: 0 <= k < a ==> Saved(photos, Angles[k])
    {
      var angle := Angles[a];
      if angle in photos && photos[angle].data != "" {
        if !photos[angle].stored {
          success := false;
        }
      } else {
        success := false;
      }
    }
  }

  datatype RegisterOutcome =
    | MissingField        // name or roll number not supplied
    | AlreadyRegistered   // the student folder already exists
    | PhotosFailed        // some photo missing or not stored: rolled back
    | Registered

  /** The student database: folder name to the folder's info.json. */
  class Database {
    var students: map<string, Info>

    constructor ()
      ensures students == map[]
    {
      students := map[];
    }

    /** Registers a student. A cleaned roll number that is empty names the
        database folder itself, which always exists, so it is reported as
        already registered. */
    method Register(name: string, roll: string, photos: map<string, Photo>) returns (outcome: RegisterOutcome)
      modifies this
      ensures name == "" || roll == "" ==> outcome == MissingField
      ensures name != "" && roll != "" && (CleanRoll(roll) == "" || CleanRoll(roll) in old(students)) ==>
                outcome == AlreadyRegistered
      ensures name != "" && roll != "" && CleanRoll(roll) != "" && CleanRoll(roll) !in old(students) ==>
                outcome == (if AllSaved(photos) then Registered else PhotosFailed)
      ensures students == if outcome == Registered
                          then old(students)[CleanRoll(roll) := Info(CleanRoll(roll), name)]
                          else old(students)
    {
      if name == "" || roll == "" {
        return MissingField;
      }
      var folder := CleanRoll(roll);
      if folder == "" || folder in students {
        return AlreadyRegistered;
      }
      students := students[folder := Info(folder, name)];
      var success := SavePhotos(photos);
      if !success {
        students := students - {folder};
        return PhotosFailed;
      }
      outcome := Registered;
    }
  }
}
