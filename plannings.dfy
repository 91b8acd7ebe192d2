/**
 * The administrator's plannings: one per semester, with an optional timetable
 * image on the public disk and a published flag.
 */
module AdminPlannings {
  import opened Wrappers
  import opened Php
  import opened Records
  import opened Http
  import opened Validation
  import opened Uploads

  /** At most one planning per semester (the unique index on `semester_id`). */
  predicate OnePerSemester(plannings: map<Id, Planning>)
  {
    forall a, b :: a in plannings && b in plannings && plannings[a].semesterId == plannings[b].semesterId ==> a == b
  }

  /** `unique:plannings,semester_id` fails: the semester already has a planning. */
  predicate HasPlanning(plannings: map<Id, Planning>, semesterId: Id)
  {
    exists k :: k in plannings && plannings[k].semesterId == semesterId
  }

  /** Adding a planning for a semester without one keeps one planning per semester. */
  lemma AddKeepsOnePerSemester(plannings: map<Id, Planning>, id: Id, p: Planning)
    requires OnePerSemester(plannings) && id !in plannings && !HasPlanning(plannings, p.semesterId)
    ensures OnePerSemester(plannings[id := p])
  {
  }

  /** Rewriting a planning without moving it to another semester keeps one planning per semester. */
  lemma RewriteKeepsOnePerSemester(plannings: map<Id, Planning>, id: Id, p: Planning)
    requires OnePerSemester(plannings) && id in plannings && p.semesterId == plannings[id].semesterId
    ensures OnePerSemester(plannings[id := p])
  {
  }

  /** `storeAs('plannings', 'planning_' . time() . '_' . hashName)`. */
  function StoredPath(time: nat, hashName: string): (r: string)
    ensures StartsWith(r, "plannings/planning_")
  {
    "plannings/planning_" + NatToString(time) + "_" + hashName
  }

  // Create

  datatype StoreRequest = StoreRequest(
    semesterId: Field<Id>, academicYear: Field<string>, image: Field<UploadedFile>, isPublished: Field<bool>)

  /** The semester exists and has no planning yet; the year is a non-blank string; an image must pass the image rules. */
  predicate StoreValid(q: StoreRequest, semesters: map<Id, Semester>, plannings: map<Id, Planning>)
  {
    q.semesterId.Given? && q.semesterId.value in semesters && !HasPlanning(plannings, q.semesterId.value)
    && RequiredString(q.academicYear)
    && OptionalFile(q.image, ImageTypes, MaxKilobytes)
  }

  /** The stored image of a `store` request, if it sends one. */
  function StoreImage(q: StoreRequest, now: nat, hashName: string): (r: Option<string>)
    ensures r.Some? <==> q.image.Given?
    ensures r.Some? ==> r.value == StoredPath(now, hashName)
  {
    if q.image.Given? then Some(StoredPath(now, hashName)) else None
  }

  /**
   * The planning `Planning::create` writes as the code stands: `image_path`
   * is not in the model's `$fillable`, so mass assignment drops it.
   */
  function NewPlanningAsWritten(id: Id, q: StoreRequest): (p: Planning)
    requires q.semesterId.Given? && q.academicYear.Given?
    ensures p.imagePath.None?
    ensures p.id == id && p.semesterId == q.semesterId.value && p.academicYear == q.academicYear.value
    ensures p.isPublished == q.isPublished.OrElse(false)
  {
    Planning(id, q.semesterId.value, q.academicYear.value, None, q.isPublished.OrElse(false))
  }

  /** The planning `store` means to create: it records the stored image. */
  function NewPlanning(id: Id, q: StoreRequest, path: Option<string>): (p: Planning)
    requires q.semesterId.Given? && q.academicYear.Given?
    ensures p.imagePath == path
    ensures p.id == id && p.semesterId == q.semesterId.value && p.academicYear == q.academicYear.value
    ensures p.isPublished == q.isPublished.OrElse(false)
  {
    Planning(id, q.semesterId.value, q.academicYear.value, path, q.isPublished.OrElse(false))
  }

  /**
   * As written, an image sent to `store` is stored on the disk while the new
   * planning does not refer to it; the intended planning refers to it.
   */
  lemma StoreLosesImage(id: Id, q: StoreRequest, now: nat, hashName: string, disk: set<string>)
    requires q.semesterId.Given? && q.academicYear.Given? && q.image.Given?
    ensures var path := StoredPath(now, hashName);
            path in Put(disk, StoreImage(q, now, hashName))
            && NewPlanningAsWritten(id, q).imagePath == None
            && NewPlanning(id, q, StoreImage(q, now, hashName)).imagePath == Some(path)
  {
  }

  /** `store`: validate, store the image, create the planning (unpublished unless asked). */
  method Store(db: Database, q: StoreRequest, now: nat, hashName: string) returns (r: Response, id: Id)
    modifies db`plannings, db`publicDisk
    ensures !StoreValid(q, old(db.semesters), old(db.plannings)) ==>
              r == ValidationError && db.plannings == old(db.plannings) && db.publicDisk == old(db.publicDisk)
    ensures StoreValid(q, old(db.semesters), old(db.plannings)) ==>
              r == Created && id !in old(db.plannings)
              && db.plannings == old(db.plannings)[id := NewPlanning(id, q, StoreImage(q, now, hashName))]
              && db.publicDisk == Put(old(db.publicDisk), StoreImage(q, now, hashName))
    ensures OnePerSemester(old(db.plannings)) ==> OnePerSemester(db.plannings)
  {
    id := 1;
    if !StoreValid(q, db.semesters, db.plannings) {
      return ValidationError, id;
    }
    var path := StoreImage(q, now, hashName);
    db.publicDisk := Put(db.publicDisk, path);
    id := NextId(db.plannings.Keys);
    var p := NewPlanning(id, q, path);
    if OnePerSemester(db.plannings) {
      AddKeepsOnePerSemester(db.plannings, id, p);
    }
    db.plannings := db.plannings[id := p];
    r := Created;
  }

  // Edit

  datatype UpdateRequest = UpdateRequest(
    academicYear: Field<string>, isPublished: Field<bool>, image: Field<UploadedFile>, deleteImage: Field<Value>)

  /** The year and the flag may be left out but not sent null; an image must pass the image rules. */
  predicate UpdateValid(q: UpdateRequest)
  {
    (q.academicYear.Has() ==> q.academicYear.Given?)
    && (q.isPublished.Has() ==> q.isPublished.Given?)
    && OptionalFile(q.image, ImageTypes, MaxKilobytes)
  }

  /** `delete_image === true`: only a boolean true, not "1" or "true". */
  predicate DeleteRequested(q: UpdateRequest)
  {
    q.deleteImage.Given? && StrictTrue(q.deleteImage.value)
  }

  /** The image column after the upload step (the new path) and then the deletion step. */
  function ImagePathAfter(x: Planning, q: UpdateRequest, path: string): (r: Option<string>)
    ensures DeleteRequested(q) ==> r == None
    ensures !DeleteRequested(q) && q.image.Given? ==> r == Some(path)
    ensures !DeleteRequested(q) && !q.image.Given? ==> r == x.imagePath
  {
    var afterUpload := if q.image.Given? then Some(path) else x.imagePath;
    if DeleteRequested(q) then None else afterUpload
  }

  /** The planning after an edit: only the year, the flag and the image can change. */
  function ApplyUpdate(x: Planning, q: UpdateRequest, path: string): (y: Planning)
    ensures y.id == x.id && y.semesterId == x.semesterId
    ensures y.academicYear == q.academicYear.OrElse(x.academicYear)
    ensures y.isPublished == q.isPublished.OrElse(x.isPublished)
    ensures y.imagePath == ImagePathAfter(x, q, path)
  {
    x.(academicYear := q.academicYear.OrElse(x.academicYear),
       isPublished := q.isPublished.OrElse(x.isPublished),
       imagePath := ImagePathAfter(x, q, path))
  }

  /** The disk after the upload step: the old file deleted, then the new one stored (if it was). */
  function DiskAfterUpload(disk: set<string>, x: Planning, q: UpdateRequest, path: string, stored: bool): set<string>
  {
    if q.image.Given? then Put(Drop(disk, TruthyPath(x.imagePath)), if stored then Some(path) else None) else disk
  }

  /** The disk after an edit: the deletion step removes whatever the column then names. */
  function DiskAfterUpdate(disk: set<string>, x: Planning, q: UpdateRequest, path: string): set<string>
  {
    var d := DiskAfterUpload(disk, x, q, path, true);
    var current := if q.image.Given? then Some(path) else x.imagePath;
    if DeleteRequested(q) then Drop(d, TruthyPath(current)) else d
  }

  /**
   * An upload sent together with `delete_image` true is stored and then
   * deleted: the planning ends with no image, and neither the old nor the
   * new file is on the disk.
   */
  lemma UploadThenDelete(disk: set<string>, x: Planning, q: UpdateRequest, now: nat, hashName: string)
    requires q.image.Given? && DeleteRequested(q)
    ensures var path := StoredPath(now, hashName);
            ApplyUpdate(x, q, path).imagePath == None
            && path !in DiskAfterUpdate(disk, x, q, path)
            && (TruthyPath(x.imagePath).Some? ==> x.imagePath.value !in DiskAfterUpdate(disk, x, q, path))
  {
    assert StoredPath(now, hashName)[0] == 'p';
  }

  /** A successful upload without deletion leaves the planning naming a file that is on the disk. */
  lemma UploadIsStored(disk: set<string>, x: Planning, q: UpdateRequest, path: string)
    requires q.image.Given? && !DeleteRequested(q)
    ensures ApplyUpdate(x, q, path).imagePath == Some(path) && path in DiskAfterUpdate(disk, x, q, path)
  {
  }

  /** A `delete_image` that is only truthy ("1", "true") deletes nothing. */
  lemma LooseDeleteIgnored(disk: set<string>, x: Planning, q: UpdateRequest, path: string)
    requires !q.image.Given? && q.deleteImage == Given(Str("1"))
    ensures ApplyUpdate(x, q, path) == x.(academicYear := q.academicYear.OrElse(x.academicYear),
                                          isPublished := q.isPublished.OrElse(x.isPublished))
    ensures DiskAfterUpdate(disk, x, q, path) == disk
  {
  }

  /** The error an upload that cannot be found on the disk afterwards gives. */
  const UploadFailed: Response := Failure(500, "UPLOAD_FAILED")

  /**
   * `update`: find, validate, replace the image (a file not stored fails the
   * request after the old one is deleted), apply the deletion, then save.
   * `stored` says whether the storage call stored the new file.
   */
  method Update(db: Database, id: Id, q: UpdateRequest, now: nat, hashName: string, stored: bool)
    returns (r: Response)
    modifies db`plannings, db`publicDisk
    ensures id !in old(db.plannings) ==>
              r == ModelNotFound && db.plannings == old(db.plannings) && db.publicDisk == old(db.publicDisk)
    ensures id in old(db.plannings) && !UpdateValid(q) ==>
              r == ValidationError && db.plannings == old(db.plannings) && db.publicDisk == old(db.publicDisk)
    ensures id in old(db.plannings) && UpdateValid(q) && q.image.Given? && !stored ==>
              r == UploadFailed && db.plannings == old(db.plannings)
              && db.publicDisk == DiskAfterUpload(old(db.publicDisk), old(db.plannings[id]), q, StoredPath(now, hashName), false)
    ensures id in old(db.plannings) && UpdateValid(q) && (q.image.Given? ==> stored) ==>
              var x := old(db.plannings[id]);
              r == Ok && db.plannings == old(db.plannings)[id := ApplyUpdate(x, q, StoredPath(now, hashName))]
              && db.publicDisk == DiskAfterUpdate(old(db.publicDisk), x, q, StoredPath(now, hashName))
    ensures OnePerSemester(old(db.plannings)) ==> OnePerSemester(db.plannings)
  {
    if id !in db.plannings {
      return ModelNotFound;
    }
    if !UpdateValid(q) {
      return ValidationError;
    }
    var x := db.plannings[id];
    var path := StoredPath(now, hashName);
    if q.image.Given? {
      db.publicDisk := DiskAfterUpload(db.publicDisk, x, q, path, stored);
      if !stored {
        return UploadFailed;
      }
    }
    if DeleteRequested(q) {
      var current := if q.image.Given? then Some(path) else x.imagePath;
      db.publicDisk := Drop(db.publicDisk, TruthyPath(current));
    }
    var y := ApplyUpdate(x, q, path);
    if OnePerSemester(db.plannings) {
      RewriteKeepsOnePerSemester(db.plannings, id, y);
    }
    db.plannings := db.plannings[id := y];
    r := Ok;
  }

  // Publishing

  /** The plannings with planning `id` given published flag `b`. */
  function SetPublished(plannings: map<Id, Planning>, id: Id, b: bool): (r: map<Id, Planning>)
    requires id in plannings
    ensures r.Keys == plannings.Keys && r[id].isPublished == b
    ensures r[id] == plannings[id].(isPublished := b)
    ensures forall k :: k in plannings && k != id ==> r[k] == plannings[k]
  {
    plannings[id := plannings[id].(isPublished := b)]
  }

  /** Publishing or unpublishing twice is the same as once, and the last one decides. */
  lemma PublishIdempotent(plannings: map<Id, Planning>, id: Id, a: bool, b: bool)
    requires id in plannings
    ensures SetPublished(SetPublished(plannings, id, b), id, b) == SetPublished(plannings, id, b)
    ensures SetPublished(SetPublished(plannings, id, a), id, b) == SetPublished(plannings, id, b)
  {
  }

  /** `publish`: the planning is published, whatever it was. */
  method Publish(db: Database, id: Id) returns (r: Response)
    modifies db`plannings
    ensures id !in old(db.plannings) ==> r == ModelNotFound && db.plannings == old(db.plannings)
    ensures id in old(db.plannings) ==> r == Ok && db.plannings == SetPublished(old(db.plannings), id, true)
  {
    if id !in db.plannings {
      return ModelNotFound;
    }
    db.plannings := SetPublished(db.plannings, id, true);
    r := Ok;
  }

  /** `unpublish`: the planning is unpublished, whatever it was. */
  method Unpublish(db: Database, id: Id) returns (r: Response)
    modifies db`plannings
    ensures id !in old(db.plannings) ==> r == ModelNotFound && db.plannings == old(db.plannings)
    ensures id in old(db.plannings) ==> r == Ok && db.plannings == SetPublished(old(db.plannings), id, false)
  {
    if id !in db.plannings {
      return ModelNotFound;
    }
    db.plannings := SetPublished(db.plannings, id, false);
    r := Ok;
  }

  // Delete

  /** The items left once the database cascades the deletion of planning `id`. */
  function ItemsWithout(items: map<Id, PlanningItem>, id: Id): (r: map<Id, PlanningItem>)
    ensures forall k :: k in r <==> k in items && items[k].planningId != id
    ensures forall k :: k in r ==> r[k] == items[k]
  {
    map k | k in items && items[k].planningId != id :: items[k]
  }

  /** `destroy`: the image file is deleted, then the planning and, by cascade, its items. */
  method Destroy(db: Database, id: Id) returns (r: Response)
    modifies db`plannings, db`planningItems, db`publicDisk
    ensures id !in old(db.plannings) ==>
              r == ModelNotFound && db.plannings == old(db.plannings)
              && db.planningItems == old(db.planningItems) && db.publicDisk == old(db.publicDisk)
    ensures id in old(db.plannings) ==>
              r == Ok && db.plannings == old(db.plannings) - {id}
              && db.planningItems == ItemsWithout(old(db.planningItems), id)
              && db.publicDisk == Drop(old(db.publicDisk), TruthyPath(old(db.plannings[id].imagePath)))
    ensures OnePerSemester(old(db.plannings)) ==> OnePerSemester(db.plannings)
  {
    if id !in db.plannings {
      return ModelNotFound;
    }
    db.publicDisk := Drop(db.publicDisk, TruthyPath(db.plannings[id].imagePath));
    db.plannings := db.plannings - {id};
    db.planningItems := ItemsWithout(db.planningItems, id);
    r := Ok;
  }
}
