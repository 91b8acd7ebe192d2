/**
 * The rows of the application's tables and the database that holds them.
 * Tables are maps from primary key to row, the two storage disks are sets of
 * stored paths. File contents are not modelled.
 */
module Records {
  import opened Wrappers
  import opened Sorting

  /** An auto-increment primary key; the database never hands out 0. */
  type Id = x: int | x >= 1 witness 1

  /** A multilingual JSON column such as `{"fr": ..., "ar": ...}`: locale to text. */
  type Text = map<string, string>

  datatype Role = Admin | Student

  datatype User = User(
    id: Id,
    name: string,
    email: string,
    password: string,          // the stored hash
    role: Role,
    locale: string,
    mustChangePassword: bool,
    isActive: bool,
    yearId: Option<Id>,
    groupId: Option<Id>)

  datatype Speciality = Speciality(id: Id, name: Text, duration: Option<string>, isActive: bool)

  datatype Module = Module(id: Id, specialiteId: Id)

  /** The `visibility` enum of the notes table. */
  datatype Visibility = Private | ModuleScope | SpecialiteScope

  datatype Note = Note(
    id: Id,
    moduleId: Option<Id>,
    specialiteId: Option<Id>,
    uploaderId: Id,
    assignedStudentId: Option<Id>,
    title: string,
    description: Option<string>,
    filename: string,
    storedFilename: string,
    filePath: string,
    mimeType: string,
    fileSize: nat,
    visibility: Visibility,
    downloadCount: nat)

  /** A row of `downloads_log`; `downloaded_at` is a timestamp. */
  datatype DownloadLog = DownloadLog(
    noteId: Id, studentId: Id, downloadedAt: int, ipAddress: Option<string>, userAgent: Option<string>)

  datatype Year = Year(
    id: Id, specialityId: Id, yearNumber: int, name: Text, description: Option<Text>, order: int, isActive: bool)

  /** Dates are day numbers. */
  datatype Semester = Semester(
    id: Id, yearId: Id, semesterNumber: int, name: Text, startDate: int, endDate: int,
    academicYear: string, isActive: bool)

  datatype Group = Group(
    id: Id, specialityId: Id, yearId: Id, name: string, code: string, capacity: Option<int>, isActive: bool)

  datatype Planning = Planning(
    id: Id, semesterId: Id, academicYear: string, imagePath: Option<string>, isPublished: bool)

  /** Times are minutes after midnight. */
  datatype PlanningItem = PlanningItem(
    id: Id, planningId: Id, moduleId: Id, groupId: Option<Id>, dayOfWeek: int, startTime: nat, endTime: nat,
    room: Option<string>, teacherName: Option<string>, teacherEmail: Option<string>, courseType: string,
    order: int)

  datatype ScheduleImage = ScheduleImage(
    id: Id, semesterId: Id, imagePath: string, originalFilename: Option<string>, uploadedBy: Id, isActive: bool)

  datatype Announcement = Announcement(
    id: Id, title: Text, content: Text, authorId: Id, isPublished: bool, publishedAt: Option<int>,
    targetAudience: string)

  /** A stored image or file: the stored path and the display file name. */
  datatype Attachment = Attachment(path: string, filename: string)

  datatype Download = Download(
    id: Id, title: Text, content: Text, authorId: Id, isPublished: bool, publishedAt: Option<int>,
    targetAudience: string, image: Option<Attachment>, file: Option<Attachment>)

  datatype DownloadImage = DownloadImage(
    id: Id, downloadId: Id, imagePath: string, imageFilename: string, mimeType: string, fileSize: nat, order: int)

  /** `image_path` and `image_filename` are written together, so they are one optional attachment. */
  datatype HeroSlide = HeroSlide(
    id: Id, title: Text, subtitle: Option<Text>, image: Option<Attachment>,
    order: int, isActive: bool, gradient: Option<string>, createdAt: int)

  /** `order` may be written as null by the forms, so it is nullable here. */
  datatype Filiere = Filiere(
    id: Id, name: Text, slug: string, description: Option<Text>, imageUrl: Option<string>, order: Option<int>,
    isActive: bool)

  /** The application database, every table as a field, plus the public and local disks. */
  class Database {
    var users: map<Id, User>
    var specialities: map<Id, Speciality>
    var modules: map<Id, Module>
    /** `student_module_enrollments`: a student's set of module ids. */
    var enrollments: map<Id, set<Id>>
    var notes: map<Id, Note>
    var downloadLogs: seq<DownloadLog>
    var years: map<Id, Year>
    var semesters: map<Id, Semester>
    var groups: map<Id, Group>
    var plannings: map<Id, Planning>
    var planningItems: map<Id, PlanningItem>
    var scheduleImages: map<Id, ScheduleImage>
    var announcements: map<Id, Announcement>
    var downloads: map<Id, Download>
    var downloadImages: map<Id, DownloadImage>
    var heroSlides: map<Id, HeroSlide>
    var filieres: map<Id, Filiere>
    /** Personal access tokens: token id to the user it authenticates. */
    var tokens: map<Id, Id>
    var publicDisk: set<string>
    var localDisk: set<string>

    constructor ()
      ensures users == map[] && specialities == map[] && modules == map[] && enrollments == map[]
      ensures notes == map[] && downloadLogs == [] && years == map[] && semesters == map[]
      ensures groups == map[] && plannings == map[] && planningItems == map[] && scheduleImages == map[]
      ensures announcements == map[] && downloads == map[] && downloadImages == map[]
      ensures heroSlides == map[] && filieres == map[] && tokens == map[]
      ensures publicDisk == {} && localDisk == {}
    {
      users, specialities, modules, enrollments := map[], map[], map[], map[];
      notes, downloadLogs, years, semesters := map[], [], map[], map[];
      groups, plannings, planningItems, scheduleImages := map[], map[], map[], map[];
      announcements, downloads, downloadImages := map[], map[], map[];
      heroSlides, filieres, tokens := map[], map[], map[];
      publicDisk, localDisk := {}, {};
    }
  }

  // Unique indexes of the schema, used as invariants of the tables.

  predicate HasYear(years: map<Id, Year>, sid: Id, n: int)
  {
    exists k :: k in years && years[k].specialityId == sid && years[k].yearNumber == n
  }

  /** The unique index on (speciality_id, year_number). */
  predicate YearsUnique(years: map<Id, Year>)
  {
    forall a, b ::
      (a in years && b in years && years[a].specialityId == years[b].specialityId
       && years[a].yearNumber == years[b].yearNumber) ==> a == b
  }

  predicate HasSemester(semesters: map<Id, Semester>, year: Id, n: int)
  {
    exists k :: k in semesters && semesters[k].yearId == year && semesters[k].semesterNumber == n
  }

  /** The unique index on (year_id, semester_number). */
  predicate SemestersUnique(semesters: map<Id, Semester>)
  {
    forall a, b ::
      (a in semesters && b in semesters && semesters[a].yearId == semesters[b].yearId
       && semesters[a].semesterNumber == semesters[b].semesterNumber) ==> a == b
  }

  /** The users whose e-mail is `email`. */
  function AccountsWithEmail(users: map<Id, User>, email: string): (r: set<Id>)
    ensures forall id :: id in r <==> id in users && users[id].email == email
  {
    set id | id in users && users[id].email == email
  }

  /** The unique index on `users.email`. */
  predicate EmailsUnique(users: map<Id, User>)
  {
    forall a, b :: (a in users && b in users && users[a].email == users[b].email) ==> a == b
  }

  /** The order of `orderBy('downloaded_at', 'desc')`. */
  function NewestFirst(l: DownloadLog): Key
  {
    Key(-l.downloadedAt, 0)
  }

  /** The users with role 'student' whose `year_id` is `year`. */
  function StudentsOfYear(users: map<Id, User>, year: Id): set<Id>
  {
    set u | u in users && users[u].role == Student && users[u].yearId == Some(year)
  }

  /** The users with role 'student' whose `group_id` is `group`. */
  function StudentsOfGroup(users: map<Id, User>, group: Id): set<Id>
  {
    set u | u in users && users[u].role == Student && users[u].groupId == Some(group)
  }

  /** The module ids a student is enrolled in (none when the student has no row). */
  function EnrolledModules(enrollments: map<Id, set<Id>>, student: Id): set<Id>
  {
    if student in enrollments then enrollments[student] else {}
  }

  /**
   * One step of a loop over a set: visiting `x` moves it from the part still
   * to visit into the visited part, and what is left gets smaller.
   */
  lemma VisitOne<T>(all: set<T>, rest: set<T>, x: T)
    requires rest <= all && x in rest
    ensures all - (rest - {x}) == (all - rest) + {x}
    ensures |rest - {x}| < |rest|
  {
  }

  /**
   * The key an auto-increment insert receives: larger than every key in use,
   * hence fresh.
   */
  method NextId(keys: set<Id>) returns (id: Id)
    ensures id !in keys
    ensures forall k :: k in keys ==> k < id
  {
    var rest := keys;
    id := 1;
    while rest != {}
      invariant rest <= keys
      invariant forall k :: k in keys - rest ==> k < id
      decreases |rest|
    {
      var k :| k in rest;
      if k >= id {
        id := k + 1;
      }
      VisitOne(keys, rest, k);
      rest := rest - {k};
    }
    assert keys - rest == keys;
  }
}
