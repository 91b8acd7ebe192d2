/**
 * The administrator's scanned timetable images: one record per semester,
 * replaced in place by a new upload, with its file on the public disk.
 */
module AdminScheduleImages {
  import opened Wrappers
  import opened Php
  import opened Records
  import opened Http
  import opened Validation
  import opened Uploads

  /** At most one image per semester (the unique index on `semester_id`). */
  predicate OnePerSemester(images: map<Id, ScheduleImage>)
  {
    forall a, b :: a in images && b in images && images[a].semesterId == images[b].semesterId ==> a == b
  }

  predicate HasImage(images: map<Id, ScheduleImage>, semesterId: Id)
  {
    exists k :: k in images && images[k].semesterId == semesterId
  }

  predicate HasActiveImage(images: map<Id, ScheduleImage>, semesterId: Id)
  {
    exists k :: k in images && images[k].semesterId == semesterId && images[k].isActive
  }

  // Show

  /** `show`: the semester's active image, or success with no data when it has none. */
  method Show(db: Database, semesterId: Id) returns (r: Response, data: Option<ScheduleImage>)
    ensures r == Ok
    ensures data.None? <==> !HasActiveImage(db.scheduleImages, semesterId)
    ensures data.Some? ==> data.value in db.scheduleImages.Values
                           && data.value.semesterId == semesterId && data.value.isActive
  {
    r := Ok;
    if HasActiveImage(db.scheduleImages, semesterId) {
      var k :| k in db.scheduleImages && db.scheduleImages[k].semesterId == semesterId && db.scheduleImages[k].isActive;
      data := Some(db.scheduleImages[k]);
    } else {
      data := None;
    }
  }

  // Store

  /** `storeAs('schedule_images', 'schedule_' . semesterId . '_' . time() . '.' . clientExtension)`. */
  function StoredPath(semesterId: Id, time: nat, clientName: string): (r: string)
    ensures StartsWith(r, "schedule_images/schedule_") && Truthy(Str(r))
  {
    var r := "schedule_images/schedule_" + NatToString(semesterId) + "_" + NatToString(time) + "." + Extension(clientName);
    assert r[0] == 's';
    r
  }

  /**
   * The disk after `store` as written: the new file is written, then the
   * old record's file is deleted, even when it is the file just written.
   */
  function DiskAfterStoreAsWritten(disk: set<string>, oldPath: Option<string>, path: string): set<string>
  {
    Drop(disk + {path}, TruthyPath(oldPath))
  }

  /** The disk `store` means to leave: the new file, and the old one deleted only when it is another file. */
  function DiskAfterStore(disk: set<string>, oldPath: Option<string>, path: string): (r: set<string>)
    ensures path in r
    ensures TruthyPath(oldPath).Some? && oldPath.value != path ==> oldPath.value !in r
    ensures forall f :: f in disk && f != path && Some(f) != TruthyPath(oldPath) ==> f in r
    ensures forall f :: f in r ==> f in disk || f == path
  {
    if TruthyPath(oldPath) == Some(path) then disk + {path} else Drop(disk + {path}, TruthyPath(oldPath))
  }

  /**
   * Uploading again for the same semester within the same second, with the
   * same extension, makes the old path the new one: as written the record
   * then names a file that was deleted, whereas the intended disk keeps it.
   */
  lemma ReuploadDeletesItself(disk: set<string>, semesterId: Id, now: nat, clientName: string)
    ensures var path := StoredPath(semesterId, now, clientName);
            path !in DiskAfterStoreAsWritten(disk, Some(path), path)
            && path in DiskAfterStore(disk, Some(path), path)
  {
  }

  /** The record `store` leaves for the semester: the new file, active, uploaded by the requester. */
  function Record(k: Id, semesterId: Id, path: string, clientName: string, uploader: Id): (s: ScheduleImage)
    ensures s.id == k && s.semesterId == semesterId && s.imagePath == path && s.isActive
    ensures s.originalFilename == Some(clientName) && s.uploadedBy == uploader
  {
    ScheduleImage(k, semesterId, path, Some(clientName), uploader, true)
  }

  /**
   * `after` is `before` with record `k` written as `rec`: `k` is the
   * semester's existing record, or a fresh one when the semester had none.
   */
  predicate Upserted(before: map<Id, ScheduleImage>, after: map<Id, ScheduleImage>, k: Id, rec: ScheduleImage)
  {
    after == before[k := rec] && rec.id == k
    && (k in before ==> before[k].semesterId == rec.semesterId)
    && (k !in before ==> !HasImage(before, rec.semesterId))
  }

  /** An upsert keeps at most one image per semester. */
  lemma UpsertKeepsOnePerSemester(before: map<Id, ScheduleImage>, after: map<Id, ScheduleImage>, k: Id, rec: ScheduleImage)
    requires OnePerSemester(before) && Upserted(before, after, k, rec)
    ensures OnePerSemester(after)
  {
  }

  /** With one image per semester, an upsert rewrites the semester's existing record and no other. */
  lemma UpsertHitsExisting(before: map<Id, ScheduleImage>, after: map<Id, ScheduleImage>, k: Id, rec: ScheduleImage, j: Id)
    requires OnePerSemester(before) && Upserted(before, after, k, rec)
    requires j in before && before[j].semesterId == rec.semesterId
    ensures k == j && after.Keys == before.Keys
  {
  }

  /** `image` is required and must pass the image rules; the body's `semester_id` must exist. */
  predicate StoreValid(image: Field<UploadedFile>, bodySemester: Field<Id>, semesters: map<Id, Semester>)
  {
    RequiredFile(image, ImageTypes, MaxKilobytes) && bodySemester.Given? && bodySemester.value in semesters
  }

  /** The error for an exception inside `store`, a missing route semester included. */
  const UploadError: Response := Failure(500, "UPLOAD_ERROR")

  /** The error when the new file is not on the disk after storing it. */
  const UploadFailed: Response := Failure(500, "UPLOAD_FAILED")

  /**
   * `store`: validate (the framework's 422), find the route's semester, store
   * the file (`stored` says whether that worked), delete the old file, then
   * update the semester's record or create one.
   */
  method Store(db: Database, semesterId: Id, image: Field<UploadedFile>, bodySemester: Field<Id>, uploader: Id,
               now: nat, stored: bool) returns (r: Response)
    modifies db`scheduleImages, db`publicDisk
    ensures !StoreValid(image, bodySemester, old(db.semesters)) ==>
              r == Unprocessable && db.scheduleImages == old(db.scheduleImages) && db.publicDisk == old(db.publicDisk)
    ensures StoreValid(image, bodySemester, old(db.semesters)) && semesterId !in old(db.semesters) ==>
              r == UploadError && db.scheduleImages == old(db.scheduleImages) && db.publicDisk == old(db.publicDisk)
    ensures StoreValid(image, bodySemester, old(db.semesters)) && semesterId in old(db.semesters) && !stored ==>
              r == UploadFailed && db.scheduleImages == old(db.scheduleImages) && db.publicDisk == old(db.publicDisk)
    ensures StoreValid(image, bodySemester, old(db.semesters)) && semesterId in old(db.semesters) && stored ==>
              var path := StoredPath(semesterId, now, image.value.clientName);
              r == Ok
              && exists k :: Upserted(old(db.scheduleImages), db.scheduleImages, k,
                                      Record(k, semesterId, path, image.value.clientName, uploader))
                             && db.publicDisk == DiskAfterStore(old(db.publicDisk),
                                                                if k in old(db.scheduleImages) then Some(old(db.scheduleImages)[k].imagePath) else None,
                                                                path)
    ensures OnePerSemester(old(db.scheduleImages)) ==> OnePerSemester(db.scheduleImages)
  {
    if !StoreValid(image, bodySemester, db.semesters) {
      return Unprocessable;
    }
    if semesterId !in db.semesters {
      return UploadError;
    }
    if !stored {
      return UploadFailed;
    }
    var path := StoredPath(semesterId, now, image.value.clientName);
    var k: Id;
    var oldPath: Option<string>;
    if HasImage(db.scheduleImages, semesterId) {
      k :| k in db.scheduleImages && db.scheduleImages[k].semesterId == semesterId;
      oldPath := Some(db.scheduleImages[k].imagePath);
    } else {
      k := NextId(db.scheduleImages.Keys);
      oldPath := None;
    }
    var rec := Record(k, semesterId, path, image.value.clientName, uploader);
    db.publicDisk := DiskAfterStore(db.publicDisk, oldPath, path);
    ghost var before := db.scheduleImages;
    db.scheduleImages := db.scheduleImages[k := rec];
    assert Upserted(before, db.scheduleImages, k, rec);
    if OnePerSemester(before) {
      UpsertKeepsOnePerSemester(before, db.scheduleImages, k, rec);
    }
    r := Ok;
  }

  // Delete

  const NotFound: Response := Failure(404, "NOT_FOUND")

  /** `destroy`: 404 when the semester has no image; otherwise its file and then its record are deleted. */
  method Destroy(db: Database, semesterId: Id) returns (r: Response)
    modifies db`scheduleImages, db`publicDisk
    ensures !HasImage(old(db.scheduleImages), semesterId) ==>
              r == NotFound && db.scheduleImages == old(db.scheduleImages) && db.publicDisk == old(db.publicDisk)
    ensures HasImage(old(db.scheduleImages), semesterId) ==>
              r == Ok
              && exists k :: k in old(db.scheduleImages) && old(db.scheduleImages)[k].semesterId == semesterId
                             && db.scheduleImages == old(db.scheduleImages) - {k}
                             && db.publicDisk == Drop(old(db.publicDisk), TruthyPath(Some(old(db.scheduleImages)[k].imagePath)))
    ensures OnePerSemester(old(db.scheduleImages)) ==> OnePerSemester(db.scheduleImages)
    ensures OnePerSemester(old(db.scheduleImages)) ==> !HasImage(db.scheduleImages, semesterId)
  {
    if !HasImage(db.scheduleImages, semesterId) {
      return NotFound;
    }
    var k :| k in db.scheduleImages && db.scheduleImages[k].semesterId == semesterId;
    db.publicDisk := Drop(db.publicDisk, TruthyPath(Some(db.scheduleImages[k].imagePath)));
    db.scheduleImages := db.scheduleImages - {k};
    r := Ok;
  }
}
