/**
 * Students' access to course notes: the visibility rule, the list query that
 * approximates it, and the download action that audits and counts each
 * granted download.
 */
module StudentNotes {
  import opened Wrappers
  import opened Records
  import opened Http
  import opened Validation

  /** A note with no module, no speciality and no assigned student. */
  predicate IsGeneral(n: Note)
  {
    n.moduleId.None? && n.specialiteId.None? && n.assignedStudentId.None?
  }

  /**
   * The access decision for student `student` who is enrolled in the modules
   * `enrolled` and belongs to the specialities `specialities`.
   */
  predicate CheckAccess(n: Note, student: Id, enrolled: set<Id>, specialities: set<Id>)
  {
    if IsGeneral(n) then true
    else if n.assignedStudentId == Some(student) then true
    else if n.visibility == ModuleScope && n.moduleId.Some? then n.moduleId.value in enrolled
    else if n.visibility == SpecialiteScope && n.specialiteId.Some? then n.specialiteId.value in specialities
    else false
  }

  /** The four ways in which a note is granted, stated independently of the branch order. */
  predicate FourWayRule(n: Note, student: Id, enrolled: set<Id>, specialities: set<Id>)
  {
    || IsGeneral(n)
    || n.assignedStudentId == Some(student)
    || (n.visibility == ModuleScope && n.moduleId.Some? && n.moduleId.value in enrolled)
    || (n.visibility == SpecialiteScope && n.specialiteId.Some? && n.specialiteId.value in specialities)
  }

  lemma CheckAccessIsFourWayRule(n: Note, student: Id, enrolled: set<Id>, specialities: set<Id>)
    ensures CheckAccess(n, student, enrolled, specialities) == FourWayRule(n, student, enrolled, specialities)
  {
  }

  /** General notes are open to every student whatever their visibility. */
  lemma GeneralNotesOpen(n: Note, student: Id, enrolled: set<Id>, specialities: set<Id>)
    requires IsGeneral(n)
    ensures CheckAccess(n, student, enrolled, specialities)
  {
  }

  /** The module rule is final: a module note is never reached through a speciality. */
  lemma ModuleRuleFinal(n: Note, student: Id, enrolled: set<Id>, specialities: set<Id>)
    requires !IsGeneral(n) && n.assignedStudentId != Some(student)
    requires n.visibility == ModuleScope && n.moduleId.Some?
    ensures CheckAccess(n, student, enrolled, specialities) <==> n.moduleId.value in enrolled
  {
  }

  lemma SpecialityRule(n: Note, student: Id, enrolled: set<Id>, specialities: set<Id>)
    requires !IsGeneral(n) && n.assignedStudentId != Some(student)
    requires n.visibility == SpecialiteScope && n.specialiteId.Some?
    ensures CheckAccess(n, student, enrolled, specialities) <==> n.specialiteId.value in specialities
  {
  }

  /**
   * The OR of four branches in the list query. Its general branch also asks
   * for visibility 'specialite'.
   */
  predicate ListMatches(n: Note, student: Id, enrolled: set<Id>, specialities: set<Id>)
  {
    || (IsGeneral(n) && n.visibility == SpecialiteScope)
    || n.assignedStudentId == Some(student)
    || (n.visibility == ModuleScope && n.moduleId.Some? && n.moduleId.value in enrolled)
    || (n.visibility == SpecialiteScope && n.specialiteId.Some? && n.specialiteId.value in specialities)
  }

  /**
   * The list shows exactly the accessible notes except the general notes whose
   * visibility is not 'specialite'; in particular every listed note is accessible.
   */
  lemma ListIsAccessMinusHiddenGeneral(n: Note, student: Id, enrolled: set<Id>, specialities: set<Id>)
    ensures ListMatches(n, student, enrolled, specialities) <==>
            CheckAccess(n, student, enrolled, specialities) && !(IsGeneral(n) && n.visibility != SpecialiteScope)
  {
  }

  lemma ListSound(n: Note, student: Id, enrolled: set<Id>, specialities: set<Id>)
    ensures ListMatches(n, student, enrolled, specialities) ==> CheckAccess(n, student, enrolled, specialities)
  {
    ListIsAccessMinusHiddenGeneral(n, student, enrolled, specialities);
  }

  /** A general private note can be opened by id but is never listed. */
  lemma ListMissesGeneralPrivateNote()
    ensures var n := Note(1, None, None, 1, None, "t", None, "f.pdf", "h.pdf", "notes/h.pdf",
                          "application/pdf", 1, Private, 0);
            CheckAccess(n, 2, {}, {}) && !ListMatches(n, 2, {}, {})
  {
  }

  /** The optional filters of the list (`general`, `module_id`, `specialite_id`, `file_type`). */
  datatype ListFilters = ListFilters(
    general: Option<string>, moduleId: Field<int>, specialiteId: Field<int>, fileType: Option<string>)

  predicate IsImageMime(m: string)
  {
    m == "image/jpeg" || m == "image/jpg" || m == "image/png"
  }

  predicate FiltersMatch(n: Note, f: ListFilters)
  {
    && (f.general == Some("true") ==> IsGeneral(n))
    && Selects(f.moduleId, n.moduleId)
    && Selects(f.specialiteId, n.specialiteId)
    && (f.fileType == Some("pdf") ==> n.mimeType == "application/pdf")
    && (f.fileType == Some("image") ==> IsImageMime(n.mimeType))
  }

  /** The ids of the notes the list query returns, before ordering and pagination. */
  function ListedNotes(notes: map<Id, Note>, student: Id, enrolled: set<Id>, specialities: set<Id>,
                       f: ListFilters): (r: set<Id>)
    ensures r <= notes.Keys
    ensures forall id :: id in r ==> CheckAccess(notes[id], student, enrolled, specialities)
    ensures forall id :: id in notes && ListMatches(notes[id], student, enrolled, specialities) && FiltersMatch(notes[id], f) ==> id in r
    ensures f.general == Some("true") ==> forall id :: id in r ==> IsGeneral(notes[id])
    ensures f.moduleId.Given? ==> forall id :: id in r ==> notes[id].moduleId.Some? && notes[id].moduleId.value == f.moduleId.value
    ensures f.moduleId.Null? ==> forall id :: id in r ==> notes[id].moduleId.None?
    ensures f.specialiteId.Given? ==> forall id :: id in r ==> notes[id].specialiteId.Some? && notes[id].specialiteId.value == f.specialiteId.value
    ensures f.specialiteId.Null? ==> forall id :: id in r ==> notes[id].specialiteId.None?
    ensures f.fileType == Some("pdf") ==> forall id :: id in r ==> notes[id].mimeType == "application/pdf"
    ensures f.fileType == Some("image") ==> forall id :: id in r ==> IsImageMime(notes[id].mimeType)
  {
    set id | id in notes && ListMatches(notes[id], student, enrolled, specialities) && FiltersMatch(notes[id], f)
  }

  /** With `general=true` the list holds only general notes of visibility 'specialite'. */
  lemma GeneralFilterOnlyHiddenBranch(notes: map<Id, Note>, student: Id, enrolled: set<Id>,
                                      specialities: set<Id>, f: ListFilters, id: Id)
    requires f.general == Some("true") && id in ListedNotes(notes, student, enrolled, specialities, f)
    ensures IsGeneral(notes[id]) && notes[id].visibility == SpecialiteScope
  {
  }

  /**
   * The specialities the corrected rule uses: those of the modules the student
   * is enrolled in.
   */
  function SpecialitiesOf(modules: map<Id, Module>, enrolled: set<Id>): (r: set<Id>)
    ensures forall m :: m in enrolled && m in modules ==> modules[m].specialiteId in r
    ensures forall s :: s in r ==> exists m :: m in enrolled && m in modules && modules[m].specialiteId == s
  {
    set m | m in enrolled && m in modules :: modules[m].specialiteId
  }

  /**
   * The `speciality.specialite_id` attribute as read by the source: the
   * speciality model has no such column, so every plucked value is null.
   */
  function PluckedSpecialiteId(s: Speciality): Option<Id>
  {
    None
  }

  /**
   * The speciality set as the source computes it. A null entry never loosely
   * equals a positive id, so only the non-null plucked values could match.
   */
  function SpecialitiesAsWritten(modules: map<Id, Module>, specs: map<Id, Speciality>, enrolled: set<Id>): set<Id>
  {
    set m | m in enrolled && m in modules && modules[m].specialiteId in specs
              && PluckedSpecialiteId(specs[modules[m].specialiteId]).Some?
          :: PluckedSpecialiteId(specs[modules[m].specialiteId]).value
  }

  /**
   * As written, the speciality branch never grants: a student enrolled in a
   * module of speciality 5 is denied a speciality-5 note.
   */
  lemma SpecialityBranchNeverGrantsAsWritten()
    ensures var modules := map[1 := Module(1, 5)];
            var specs := map[5 := Speciality(5, map[], Some("3 ans"), true)];
            var n := Note(1, None, Some(5), 1, None, "t", None, "f.pdf", "h.pdf", "notes/h.pdf",
                          "application/pdf", 1, SpecialiteScope, 0);
            !CheckAccess(n, 2, {1}, SpecialitiesAsWritten(modules, specs, {1}))
            && CheckAccess(n, 2, {1}, SpecialitiesOf(modules, {1}))
  {
    var modules := map[1 := Module(1, 5)];
    var specs := map[5 := Speciality(5, map[], Some("3 ans"), true)];
    assert SpecialitiesAsWritten(modules, specs, {1}) == {};
    assert 1 in {1} && 1 in modules;
    assert 5 in SpecialitiesOf(modules, {1});
  }

  /** With the corrected set, enrolment in any module of the speciality grants. */
  lemma {:induction false} SpecialityBranchCorrected(n: Note, student: Id, enrolled: set<Id>, modules: map<Id, Module>, m: Id)
    requires n.visibility == SpecialiteScope && n.specialiteId.Some?
    requires m in enrolled && m in modules && modules[m].specialiteId == n.specialiteId.value
    ensures CheckAccess(n, student, enrolled, SpecialitiesOf(modules, enrolled))
  {
    assert n.specialiteId.value in SpecialitiesOf(modules, enrolled);
  }

  /** Whether `student` may read note `n` under the current enrolments. */
  predicate Accessible(db: Database, n: Note, student: Id)
    reads db
  {
    var enrolled := EnrolledModules(db.enrollments, student);
    CheckAccess(n, student, enrolled, SpecialitiesOf(db.modules, enrolled))
  }

  predicate FileStored(db: Database, path: string)
    reads db
  {
    path in db.publicDisk || path in db.localDisk
  }

  /** `show`: the note itself when accessible. */
  method Show(db: Database, id: Id, student: Id) returns (r: Response)
    ensures id !in db.notes ==> r == ModelNotFound
    ensures id in db.notes ==> (r == if Accessible(db, db.notes[id], student) then Ok
                                     else Failure(403, "ACCESS_DENIED"))
  {
    if id !in db.notes {
      return ModelNotFound;
    }
    if !Accessible(db, db.notes[id], student) {
      return Failure(403, "ACCESS_DENIED");
    }
    return Ok;
  }

  /** `preview`: the access check, then the file must exist on either disk. */
  method Preview(db: Database, id: Id, student: Id) returns (r: Response)
    ensures id !in db.notes ==> r == ModelNotFound
    ensures id in db.notes && !Accessible(db, db.notes[id], student) ==> r == Failure(403, "ACCESS_DENIED")
    ensures id in db.notes && Accessible(db, db.notes[id], student) ==>
              r == if FileStored(db, db.notes[id].filePath) then Ok else Failure(404, "FILE_NOT_FOUND")
  {
    if id !in db.notes {
      return ModelNotFound;
    }
    var n := db.notes[id];
    if !Accessible(db, n, student) {
      return Failure(403, "ACCESS_DENIED");
    }
    if !FileStored(db, n.filePath) {
      return Failure(404, "FILE_NOT_FOUND");
    }
    return Ok;
  }

  /**
   * `download`: a denied request changes nothing; a granted one appends one
   * audit row and counts one download before the file is looked up, so a
   * missing file is still counted.
   */
  method Download(db: Database, id: Id, student: Id, ip: Option<string>, userAgent: Option<string>, now: int)
    returns (r: Response)
    modifies db`notes, db`downloadLogs
    ensures id !in old(db.notes) ==> r == ModelNotFound
    ensures id !in old(db.notes) || !Accessible(db, old(db.notes[id]), student) ==>
              db.notes == old(db.notes) && db.downloadLogs == old(db.downloadLogs)
    ensures id in old(db.notes) && !Accessible(db, old(db.notes[id]), student) ==>
              r == Failure(403, "ACCESS_DENIED")
    ensures id in old(db.notes) && Accessible(db, old(db.notes[id]), student) ==>
              var n := old(db.notes[id]);
              && db.downloadLogs == old(db.downloadLogs) + [DownloadLog(id, student, now, ip, userAgent)]
              && db.notes == old(db.notes)[id := n.(downloadCount := n.downloadCount + 1)]
              && r == if FileStored(db, n.filePath) then Ok else Failure(404, "FILE_NOT_FOUND")
  {
    if id !in db.notes {
      return ModelNotFound;
    }
    var n := db.notes[id];
    if !Accessible(db, n, student) {
      return Failure(403, "ACCESS_DENIED");
    }
    db.downloadLogs := db.downloadLogs + [DownloadLog(id, student, now, ip, userAgent)];
    db.notes := db.notes[id := n.(downloadCount := n.downloadCount + 1)];
    if !FileStored(db, n.filePath) {
      return Failure(404, "FILE_NOT_FOUND");
    }
    return Ok;
  }

  /** Content-Disposition of `serve` (section 4 of RFC 6266). */
  function Disposition(downloadParam: Option<string>): (d: string)
    ensures d == "attachment" <==> downloadParam == Some("true")
    ensures d == "attachment" || d == "inline"
  {
    if downloadParam == Some("true") then "attachment" else "inline"
  }

  /** What `serve` answers: a file stream from one disk, or an abort with a status. */
  datatype ServeOutcome = Stream(disposition: string, fromPublicDisk: bool) | Abort(status: nat) | NoSuchNote

  /** `serve`: 403 when denied, the public disk before the local one, 404 when on neither. */
  method Serve(db: Database, id: Id, student: Id, downloadParam: Option<string>) returns (r: ServeOutcome)
    ensures id !in db.notes ==> r == NoSuchNote
    ensures id in db.notes && !Accessible(db, db.notes[id], student) ==> r == Abort(403)
    ensures id in db.notes && Accessible(db, db.notes[id], student) ==>
              var p := db.notes[id].filePath;
              r == if p in db.publicDisk then Stream(Disposition(downloadParam), true)
                   else if p in db.localDisk then Stream(Disposition(downloadParam), false)
                   else Abort(404)
  {
    if id !in db.notes {
      return NoSuchNote;
    }
    var n := db.notes[id];
    if !Accessible(db, n, student) {
      return Abort(403);
    }
    if n.filePath in db.publicDisk {
      return Stream(Disposition(downloadParam), true);
    } else if n.filePath in db.localDisk {
      return Stream(Disposition(downloadParam), false);
    }
    return Abort(404);
  }
}
