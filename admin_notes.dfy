/**
 * The administrator's side of course notes: upload, metadata update,
 * deletion, re-scoping (`assign`) and download statistics.
 */
module AdminNotes {
  import opened Wrappers
  import opened Records
  import opened Http
  import opened Validation
  import opened Sorting

  const NoteExtensions: set<string> := {"pdf", "jpg", "jpeg", "png"}
  const VisibilityNames: set<string> := {"private", "module", "specialite"}

  /** The enum value named by a validated `visibility` input. */
  function ParseVisibility(s: string): (v: Visibility)
    requires s in VisibilityNames
    ensures s == "private" <==> v == Private
    ensures s == "module" <==> v == ModuleScope
    ensures s == "specialite" <==> v == SpecialiteScope
  {
    if s == "private" then Private else if s == "module" then ModuleScope else SpecialiteScope
  }

  datatype StoreRequest = StoreRequest(
    title: Field<string>, description: Field<string>, file: Field<UploadedFile>,
    moduleId: Field<Id>, specialiteId: Field<Id>, assignedStudentId: Field<Id>, visibility: Field<string>)

  predicate StoreValid(db: Database, q: StoreRequest)
    reads db
  {
    && RequiredMax(q.title, 255)
    && RequiredFile(q.file, NoteExtensions, 51200)
    && NullableExists(q.moduleId, db.modules.Keys)
    && NullableExists(q.specialiteId, db.specialities.Keys)
    && NullableExists(q.assignedStudentId, db.users.Keys)
    && RequiredIn(q.visibility, VisibilityNames)
  }

  /**
   * `store`: nothing is written unless the request validates (so a bad
   * visibility stores no file); the file goes to `notes/<hash name>` on the
   * public disk and the requester becomes the uploader.
   */
  method Store(db: Database, q: StoreRequest, requester: Id, hashName: string) returns (r: Response, id: Option<Id>)
    modifies db`notes, db`publicDisk
    ensures !old(StoreValid(db, q)) ==> r == ValidationError && id == None
    ensures !old(StoreValid(db, q)) ==> db.notes == old(db.notes) && db.publicDisk == old(db.publicDisk)
    ensures old(StoreValid(db, q)) ==>
              && r == Created && id.Some? && id.value !in old(db.notes)
              && db.publicDisk == old(db.publicDisk) + {"notes/" + hashName}
              && db.notes == old(db.notes)[id.value := Note(
                   id.value, q.moduleId.AsOption(), q.specialiteId.AsOption(), requester,
                   q.assignedStudentId.AsOption(), q.title.value, q.description.AsOption(),
                   q.file.value.clientName, hashName, "notes/" + hashName, q.file.value.mimeType,
                   q.file.value.size, ParseVisibility(q.visibility.value), 0)]
  {
    if !StoreValid(db, q) {
      return ValidationError, None;
    }
    var path := "notes/" + hashName;
    db.publicDisk := db.publicDisk + {path};
    var key := NextId(db.notes.Keys);
    var f := q.file.value;
    db.notes := db.notes[key := Note(key, q.moduleId.AsOption(), q.specialiteId.AsOption(), requester,
                                     q.assignedStudentId.AsOption(), q.title.value, q.description.AsOption(),
                                     f.clientName, hashName, path, f.mimeType, f.size,
                                     ParseVisibility(q.visibility.value), 0)];
    return Created, Some(key);
  }

  datatype UpdateRequest = UpdateRequest(
    title: Field<string>, description: Field<string>, moduleId: Field<Id>, specialiteId: Field<Id>,
    assignedStudentId: Field<Id>, visibility: Field<string>)

  predicate UpdateValid(db: Database, q: UpdateRequest)
    reads db
  {
    && SometimesMax(q.title, 255)
    && NullableExists(q.moduleId, db.modules.Keys)
    && NullableExists(q.specialiteId, db.specialities.Keys)
    && NullableExists(q.assignedStudentId, db.users.Keys)
    && SometimesIn(q.visibility, VisibilityNames)
  }

  /** The note after `$note->update($request->only([...]))` with the six whitelisted keys. */
  function ApplyUpdate(n: Note, q: UpdateRequest): (m: Note)
    requires q.title.Has() ==> q.title.Given?
    requires q.visibility.Has() ==> q.visibility.Given? && q.visibility.value in VisibilityNames
    ensures m.id == n.id && m.uploaderId == n.uploaderId && m.downloadCount == n.downloadCount
    ensures m.filename == n.filename && m.storedFilename == n.storedFilename && m.filePath == n.filePath
    ensures m.mimeType == n.mimeType && m.fileSize == n.fileSize
    ensures m.title == q.title.OrElse(n.title)
    ensures q.visibility.Given? ==> m.visibility == ParseVisibility(q.visibility.value)
    ensures !q.visibility.Has() ==> m.visibility == n.visibility
    ensures m.moduleId == q.moduleId.Overwrite(n.moduleId)
    ensures m.specialiteId == q.specialiteId.Overwrite(n.specialiteId)
    ensures m.assignedStudentId == q.assignedStudentId.Overwrite(n.assignedStudentId)
    ensures m.description == q.description.Overwrite(n.description)
  {
    n.(title := q.title.OrElse(n.title),
       description := q.description.Overwrite(n.description),
       moduleId := q.moduleId.Overwrite(n.moduleId),
       specialiteId := q.specialiteId.Overwrite(n.specialiteId),
       assignedStudentId := q.assignedStudentId.Overwrite(n.assignedStudentId),
       visibility := if q.visibility.Given? then ParseVisibility(q.visibility.value) else n.visibility)
  }

  /** An update without any of the six keys leaves the note as it was. */
  lemma EmptyUpdateIsIdentity(n: Note)
    ensures ApplyUpdate(n, UpdateRequest(Absent, Absent, Absent, Absent, Absent, Absent)) == n
  {
  }

  method Update(db: Database, id: Id, q: UpdateRequest) returns (r: Response)
    modifies db`notes
    ensures id !in old(db.notes) ==> r == ModelNotFound && db.notes == old(db.notes)
    ensures id in old(db.notes) && !UpdateValid(db, q) ==> r == ValidationError && db.notes == old(db.notes)
    ensures id in old(db.notes) && UpdateValid(db, q) ==>
              r == Ok && db.notes == old(db.notes)[id := ApplyUpdate(old(db.notes[id]), q)]
  {
    if id !in db.notes {
      return ModelNotFound;
    }
    if !UpdateValid(db, q) {
      return ValidationError;
    }
    db.notes := db.notes[id := ApplyUpdate(db.notes[id], q)];
    return Ok;
  }

  /**
   * `destroy`: the record goes, and the path is deleted from the local disk
   * only; a file that `store` put on the public disk stays there.
   */
  method Destroy(db: Database, id: Id) returns (r: Response)
    modifies db`notes, db`localDisk
    ensures id !in old(db.notes) ==> r == ModelNotFound && db.notes == old(db.notes) && db.localDisk == old(db.localDisk)
    ensures id in old(db.notes) ==>
              && r == Ok && db.notes == old(db.notes) - {id}
              && db.localDisk == old(db.localDisk) - {old(db.notes[id]).filePath}
  {
    if id !in db.notes {
      return ModelNotFound;
    }
    db.localDisk := db.localDisk - {db.notes[id].filePath};
    db.notes := db.notes - {id};
    return Ok;
  }

  datatype AssignRequest = AssignRequest(studentIds: Field<seq<Id>>, moduleId: Field<Id>, specialiteId: Field<Id>)

  predicate AssignValid(db: Database, q: AssignRequest)
    reads db
  {
    && (q.studentIds.Has() ==> q.studentIds.Given? && forall i :: 0 <= i < |q.studentIds.value| ==> q.studentIds.value[i] in db.users)
    && SometimesExists(q.moduleId, db.modules.Keys)
    && SometimesExists(q.specialiteId, db.specialities.Keys)
  }

  /** The note's new scope: one student, else a module, else a speciality, else unchanged. */
  function AssignScope(n: Note, q: AssignRequest): (m: Note)
    requires q.moduleId.Has() ==> q.moduleId.Given?
    requires q.specialiteId.Has() ==> q.specialiteId.Given?
    ensures q.studentIds.Given? && |q.studentIds.value| == 1 ==>
              m == n.(assignedStudentId := Some(q.studentIds.value[0]), visibility := Private)
    ensures !(q.studentIds.Given? && |q.studentIds.value| == 1) && q.moduleId.Given? ==>
              m == n.(moduleId := Some(q.moduleId.value), visibility := ModuleScope, assignedStudentId := None)
    ensures !(q.studentIds.Given? && |q.studentIds.value| == 1) && !q.moduleId.Has() && q.specialiteId.Given? ==>
              m == n.(specialiteId := Some(q.specialiteId.value), visibility := SpecialiteScope, assignedStudentId := None)
    ensures !(q.studentIds.Given? && |q.studentIds.value| == 1) && !q.moduleId.Has() && !q.specialiteId.Has() ==> m == n
  {
    if q.studentIds.Given? && |q.studentIds.value| == 1 then
      n.(assignedStudentId := Some(q.studentIds.value[0]), visibility := Private)
    else if q.moduleId.Has() then
      n.(moduleId := Some(q.moduleId.value), visibility := ModuleScope, assignedStudentId := None)
    else if q.specialiteId.Has() then
      n.(specialiteId := Some(q.specialiteId.value), visibility := SpecialiteScope, assignedStudentId := None)
    else n
  }

  /** Assigning to one student keeps the note's module and speciality. */
  lemma AssignStudentKeepsScopeIds(n: Note, q: AssignRequest)
    requires q.moduleId.Has() ==> q.moduleId.Given?
    requires q.specialiteId.Has() ==> q.specialiteId.Given?
    requires q.studentIds.Given? && |q.studentIds.value| == 1
    ensures AssignScope(n, q).moduleId == n.moduleId && AssignScope(n, q).specialiteId == n.specialiteId
    ensures AssignScope(n, q).assignedStudentId == Some(q.studentIds.value[0])
  {
  }

  /** Two student ids and no module or speciality: the note is not touched. */
  lemma AssignTwoStudentsIsNoop(n: Note, a: Id, b: Id)
    ensures AssignScope(n, AssignRequest(Given([a, b]), Absent, Absent)) == n
  {
  }

  method Assign(db: Database, id: Id, q: AssignRequest) returns (r: Response)
    modifies db`notes
    ensures id !in old(db.notes) ==> r == ModelNotFound && db.notes == old(db.notes)
    ensures id in old(db.notes) && !AssignValid(db, q) ==> r == ValidationError && db.notes == old(db.notes)
    ensures id in old(db.notes) && AssignValid(db, q) ==>
              r == Ok && db.notes == old(db.notes)[id := AssignScope(old(db.notes[id]), q)]
  {
    if id !in db.notes {
      return ModelNotFound;
    }
    if !AssignValid(db, q) {
      return ValidationError;
    }
    db.notes := db.notes[id := AssignScope(db.notes[id], q)];
    return Ok;
  }

  /** The audit rows of one note, in table order. */
  function LogsOf(logs: seq<DownloadLog>, note: Id): (r: seq<DownloadLog>)
    ensures |r| <= |logs|
    ensures forall i :: 0 <= i < |r| ==> r[i].noteId == note
  {
    if logs == [] then []
    else (if logs[0].noteId == note then [logs[0]] else []) + LogsOf(logs[1..], note)
  }

  /** The distinct `student_id` values of some audit rows. */
  function Downloaders(logs: seq<DownloadLog>): set<Id>
  {
    if logs == [] then {} else {logs[0].studentId} + Downloaders(logs[1..])
  }

  lemma {:induction false} DownloadersAreStudentsOfLogs(logs: seq<DownloadLog>, s: Id)
    ensures s in Downloaders(logs) <==> exists i :: 0 <= i < |logs| && logs[i].studentId == s
  {
    if logs != [] {
      DownloadersAreStudentsOfLogs(logs[1..], s);
      if s != logs[0].studentId && s in Downloaders(logs) {
        var i :| 0 <= i < |logs[1..]| && logs[1..][i].studentId == s;
        assert logs[i + 1].studentId == s;
      }
      if exists i :: 0 <= i < |logs| && logs[i].studentId == s {
        var i :| 0 <= i < |logs| && logs[i].studentId == s;
        if i > 0 {
          assert logs[1..][i - 1].studentId == s;
        }
      }
    }
  }

  /** There are never more distinct downloaders than download rows. */
  lemma {:induction false} DownloadersAtMostLogs(logs: seq<DownloadLog>)
    ensures |Downloaders(logs)| <= |logs|
  {
    if logs != [] {
      DownloadersAtMostLogs(logs[1..]);
    }
  }

  datatype Stats = Stats(totalDownloads: nat, uniqueDownloaders: nat, downloads: seq<DownloadLog>)

  /** `stats`: the stored counter, this note's rows newest first, and the distinct students among them. */
  method NoteStats(db: Database, id: Id) returns (r: Option<Stats>)
    ensures id !in db.notes <==> r.None?
    ensures r.Some? ==> r.value.totalDownloads == db.notes[id].downloadCount
    ensures r.Some? ==> r.value.downloads == SortBy(LogsOf(db.downloadLogs, id), NewestFirst)
    ensures r.Some? ==> multiset(r.value.downloads) == multiset(LogsOf(db.downloadLogs, id))
    ensures r.Some? ==> r.value.uniqueDownloaders == |Downloaders(LogsOf(db.downloadLogs, id))|
    ensures r.Some? ==> r.value.uniqueDownloaders <= |r.value.downloads|
  {
    if id !in db.notes {
      return None;
    }
    var logs := LogsOf(db.downloadLogs, id);
    DownloadersAtMostLogs(logs);
    SortBySortedPermutation(logs, NewestFirst);
    SortByLength(logs, NewestFirst);
    return Some(Stats(db.notes[id].downloadCount, |Downloaders(logs)|, SortBy(logs, NewestFirst)));
  }

  /** The number of audit rows of one note. */
  function LogCount(logs: seq<DownloadLog>, note: Id): nat
  {
    |LogsOf(logs, note)|
  }

  lemma {:induction false} LogsOfAppend(logs: seq<DownloadLog>, l: DownloadLog, note: Id)
    ensures LogsOf(logs + [l], note) == LogsOf(logs, note) + (if l.noteId == note then [l] else [])
  {
    if logs == [] {
      assert [l][1..] == [];
    } else {
      assert (logs + [l])[1..] == logs[1..] + [l];
      LogsOfAppend(logs[1..], l, note);
    }
  }

  /** Every note's counter equals its number of audit rows. */
  predicate CountsMatchLogs(notes: map<Id, Note>, logs: seq<DownloadLog>)
  {
    forall id :: id in notes ==> notes[id].downloadCount == LogCount(logs, id)
  }

  /**
   * The bookkeeping of a granted download (one row appended, one count added)
   * keeps every counter equal to its number of rows.
   */
  lemma DownloadKeepsCountsInSync(notes: map<Id, Note>, logs: seq<DownloadLog>, id: Id, l: DownloadLog)
    requires CountsMatchLogs(notes, logs) && id in notes && l.noteId == id
    ensures CountsMatchLogs(notes[id := notes[id].(downloadCount := notes[id].downloadCount + 1)], logs + [l])
  {
    forall k | k in notes
      ensures LogCount(logs + [l], k) == LogCount(logs, k) + (if k == id then 1 else 0)
    {
      LogsOfAppend(logs, l, k);
    }
  }

  /** `index` filters: each key present restricts the list, a null one to rows where that column is null. */
  datatype IndexFilters = IndexFilters(moduleId: Field<int>, specialiteId: Field<int>, visibility: Field<Visibility>)

  predicate IndexMatches(n: Note, f: IndexFilters)
  {
    && Selects(f.moduleId, n.moduleId) && Selects(f.specialiteId, n.specialiteId)
    && (f.visibility.Has() ==> f.visibility.Given? && n.visibility == f.visibility.value)
  }

  /** The ids `index` lists, before ordering and pagination. */
  function IndexNotes(notes: map<Id, Note>, f: IndexFilters): (r: set<Id>)
    ensures r <= notes.Keys
    ensures forall id :: id in notes && IndexMatches(notes[id], f) ==> id in r
    ensures !f.moduleId.Has() && !f.specialiteId.Has() && !f.visibility.Has() ==> r == notes.Keys
    ensures f.moduleId.Given? ==> forall id :: id in r ==> notes[id].moduleId.Some? && notes[id].moduleId.value == f.moduleId.value
    ensures f.moduleId.Null? ==> forall id :: id in r ==> notes[id].moduleId.None?
    ensures f.specialiteId.Given? ==> forall id :: id in r ==> notes[id].specialiteId.Some? && notes[id].specialiteId.value == f.specialiteId.value
    ensures f.specialiteId.Null? ==> forall id :: id in r ==> notes[id].specialiteId.None?
    ensures f.visibility.Given? ==> forall id :: id in r ==> notes[id].visibility == f.visibility.value
    ensures f.visibility.Null? ==> r == {}
  {
    set id | id in notes && IndexMatches(notes[id], f)
  }
}
