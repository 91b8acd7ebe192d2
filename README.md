# A verified model of the paramedical institute backend

This project models, in Dafny, the core of a Laravel REST backend for a paramedical training institute. Administrators keep the academic taxonomy (filières, specialities, years, semesters and groups), course notes, announcements, downloads with image galleries, hero slides, timetables (plannings with their items, and scanned schedule images) and student accounts. Students sign in, list and download the notes they may see, and look up the timetable of a semester.

The model is organised as follows:

- **Tables and disks.** The database is one class, `Records.Database`. Each table is a `map` from key to row, and each storage disk is a `set` of paths. Controller actions are module-level methods that modify only the tables and disks they touch (`modifies db`notes`, ...). Each method's `ensures` states the whole new state as a function of the old one.
- **Specification functions and lemmas.** Those functions of the old state carry the properties the source promises, as lemmas: the access rules, validation, sanitising, the upload slot precedence, ordering and uniqueness invariants, and round trips such as the time format of planning items and filière image URLs.
- **Request fields.** A request field is `Absent`, `Null` or `Given(v)`. This follows Laravel's `has`, `filled` and `??` distinctions.
- **PHP semantics** are written out: loose truthiness (so "" and "0" are falsy), `trim`, `str_replace`, the truncating `%`, and the saturating `(int)` cast.
- **Foreign code and side effects** are parameters: password hashing, `Str::slug`, `strip_tags`, the e-mail rule, MIME sniffing, the storage URL function, the clock and the random parts of stored file names. So are the outcomes of storage calls the source checks, such as whether a file was stored.

Modules follow the source files:

- `StudentNotes`, `AdminNotes`: the notes, their visibility rules and download counters.
- `SpecialityDuration`: the duration text of a speciality. `YearSeeder`, `AdminYears`, `AdminSemesters`: the years and semesters.
- `AdminGroups`, `GroupSeeder`, `GroupModel`: the groups and their codes.
- `Auth`, `AdminGate`, `AdminProfile`, `AdminStudents`: accounts, sign-in, password reset and the admin gate.
- `SecureErrors`, `SanitizeInput`, `RequestUri`: the middleware and the front controller's URI handling.
- `AdminAnnouncements`, `AdminDownloads` with `Uploads`: announcements and downloads.
- `HeroSlideModel`, `AdminHeroSlides`, `HeroSeeder`: the hero slides.
- `AdminFilieres`: the filières.
- `AdminPlannings`, `AdminScheduleImages`, `PlanningItemModel`, `AdminPlanningItems`, `StudentSchedule`: the timetables.

The helper modules are `Wrappers`, `Php`, `Sorting`, `Validation`, `Http` and `Records`.

Where the documented behaviour and the code disagree, the model follows the code:

- The student timetable returns every item of the published planning. The code does not filter items by group.
- Notes deleted by the administrator are removed from the local disk, while they were stored on the public disk.

Four places in the code look wrong; each is a row under "## Findings". For each, the model keeps a member that follows the code as written and shows the problem. The operations themselves use the corrected definition, and their rows below say so:

- the speciality rule of student note access, used by `StudentNotes.Show`, `Preview`, `Download` and `Serve`;
- the group code the seeder writes, used by `GroupSeeder.SeedGroups`;
- the image recorded on a new planning, used by `AdminPlannings.Store`;
- the disk after a schedule image is re-uploaded, used by `AdminScheduleImages.Store`.

The database's foreign keys are part of the model. Deleting a year, a semester or a group also removes the rows that cascade from it, and nulls the user columns declared `set null` (module `Cascades`).

## Model

| member | source | states |
|---|---|---|
| StudentNotes.CheckAccessIsFourWayRule | app/Http/Controllers/Api/Student/StudentNotesController.php:205-233 | the branch-ordered access check grants exactly when one of four rules holds: the note is general, it is assigned to the student, it is a module note of an enrolled module, or a speciality note of one of the student's specialities |
| StudentNotes.GeneralNotesOpen | app/Http/Controllers/Api/Student/StudentNotesController.php:207-210 | a note with no module, no speciality and no assigned student is open to every student whatever its visibility |
| StudentNotes.ModuleRuleFinal | app/Http/Controllers/Api/Student/StudentNotesController.php:217-220 | a module note with a module id is granted exactly when the student is enrolled in that module; the speciality rule is never reached for it |
| StudentNotes.SpecialityRule | app/Http/Controllers/Api/Student/StudentNotesController.php:222-230 | a speciality note is granted exactly when its speciality is in the student's speciality set; the operations pass the corrected set (as in the Findings row on app/Http/Controllers/Api/Student/StudentNotesController.php:224-229) |
| StudentNotes.ListIsAccessMinusHiddenGeneral | app/Http/Controllers/Api/Student/StudentNotesController.php:17-43 | the list query holds exactly the accessible notes except the general notes whose visibility is not 'specialite' |
| StudentNotes.ListSound | app/Http/Controllers/Api/Student/StudentNotesController.php:17-43 | every note the list query matches also passes the access check of show, preview and download |
| StudentNotes.ListMissesGeneralPrivateNote | app/Http/Controllers/Api/Student/StudentNotesController.php:19-24 | a general note of another visibility can be opened by id but is never listed |
| StudentNotes.ListedNotes | app/Http/Controllers/Api/Student/StudentNotesController.php:13-67 | every note the list query matches and that meets every filter is listed, and every listed note is accessible and meets every filter present: `general=true` only general notes; a module or speciality filter with a value only notes with that column equal to it, a null one only notes where that column is null; `file_type` pdf only PDFs, image only JPEG and PNG images |
| StudentNotes.GeneralFilterOnlyHiddenBranch | app/Http/Controllers/Api/Student/StudentNotesController.php:46-51 | with general=true only general notes of visibility 'specialite' are listed |
| StudentNotes.SpecialitiesOf | app/Http/Controllers/Api/Student/StudentNotesController.php:224-228 | the corrected speciality set holds the speciality of every enrolled module and nothing else |
| StudentNotes.SpecialityBranchNeverGrantsAsWritten | app/Http/Controllers/Api/Student/StudentNotesController.php:224-229 | as written, a student enrolled in a module of speciality 5 is refused a note of speciality 5 |
| StudentNotes.SpecialityBranchCorrected | app/Http/Controllers/Api/Student/StudentNotesController.php:222-230 | with the corrected set, enrolment in any module of the note's speciality grants the note |
| StudentNotes.Show | app/Http/Controllers/Api/Student/StudentNotesController.php:79-100 | an unknown id is not found, an inaccessible note gives 403 ACCESS_DENIED, an accessible one succeeds; nothing changes (corrected as in the Findings row on app/Http/Controllers/Api/Student/StudentNotesController.php:224-229) |
| StudentNotes.Preview | app/Http/Controllers/Api/Student/StudentNotesController.php:102-146 | not found, then 403 when denied, then 404 FILE_NOT_FOUND when the file is on neither disk, else success (corrected as in the Findings row on app/Http/Controllers/Api/Student/StudentNotesController.php:224-229) |
| StudentNotes.Download | app/Http/Controllers/Api/Student/StudentNotesController.php:148-203 | a denied request changes nothing; a granted one appends exactly one audit row and adds one to the note's download count, even when the file then turns out to be missing (corrected as in the Findings row on app/Http/Controllers/Api/Student/StudentNotesController.php:224-229) |
| StudentNotes.Disposition | app/Http/Controllers/Api/Student/StudentNotesController.php:265-266 | the disposition is attachment exactly when download=true is asked, and inline otherwise |
| StudentNotes.Serve | app/Http/Controllers/Api/Student/StudentNotesController.php:235-274 | 403 when denied, the public disk before the local one, 404 when the file is on neither (corrected as in the Findings row on app/Http/Controllers/Api/Student/StudentNotesController.php:224-229) |
| SpecialityDuration.FirstDigitAt | app/Models/Speciality.php:90 | the unanchored digit search finds the leftmost digit, or none exactly when the string has no digit |
| SpecialityDuration.DurationInYears | app/Models/Speciality.php:83-92 | the duration in years is never negative and never above PHP_INT_MAX |
| SpecialityDuration.FalsyDurationIsNull | app/Models/Speciality.php:85-87 | a null, empty or "0" duration has no duration in years |
| SpecialityDuration.NoDigitNoDuration | app/Models/Speciality.php:90-91 | a duration without a digit has no duration in years |
| SpecialityDuration.DurationIsFirstDigitRun | app/Models/Speciality.php:83-92 | a truthy duration reads the whole first maximal digit run through the saturating integer cast, and nothing after it |
| SpecialityDuration.ExampleThreeYears | app/Models/Speciality.php:81-92 | "3 ans" is three years |
| SpecialityDuration.ExampleFiveYears | app/Models/Speciality.php:81-92 | "5 ans" is five years |
| SpecialityDuration.ExampleFirstRunWins | app/Models/Speciality.php:90-91 | "3 ou 5 ans" is three years: later runs are ignored |
| SpecialityDuration.ExampleLeadingZeros | app/Models/Speciality.php:85-91 | "03" is three years, and "00" is truthy and reads as zero |
| YearSeeder.YearName | database/seeders/YearSeeder.php:53-73 | years 1 to 5 get their fixed French or Arabic name in those two locales; any other year or locale falls back to "Année N" |
| YearSeeder.YearNamesDistinct | database/seeders/YearSeeder.php:55-70 | within French or Arabic the five named years have five different names |
| YearSeeder.SeedDuration | database/seeders/YearSeeder.php:24 | the number of seeded years is the duration read from the speciality when there is one, and 3 when there is none |
| YearSeeder.ExtendsKeepsHasYear | database/seeders/YearSeeder.php:28-45 | a year present before an add-only step is still present after it |
| YearSeeder.FirstOrCreateYear | database/seeders/YearSeeder.php:28-45 | an existing (speciality, year number) pair leaves the table as it is; a missing one adds exactly one row with the seeded name, order and active flag; rows are only added and the pair stays unique |
| YearSeeder.SeedYears | database/seeders/YearSeeder.php:18-48 | afterwards every speciality has years 1 to its duration (3 when unknown), only seeded rows were added, nothing was changed or removed, a database that was already covered is left as it was, and (speciality, year number) stays unique |
| YearSeeder.FirstOrCreateGrows | database/seeders/YearSeeder.php:28-45 | one firstOrCreate of a year within the speciality's duration only adds a seeded row, adds nothing when every year was there, and keeps (speciality, year number) unique |
| YearSeeder.GrowsTransitive | database/seeders/YearSeeder.php:22-47 | two seeding steps in a row are again one seeding step |
| YearSeeder.SeedSpeciality | database/seeders/YearSeeder.php:24-46 | the inner loop leaves the speciality with years 1 to its duration and is a seeding step |
| YearSeeder.ExtendsKeepsDone | database/seeders/YearSeeder.php:22-47 | specialities that had all their years still have them after an add-only step |
| YearSeeder.DoneOneMore | database/seeders/YearSeeder.php:22-47 | finishing one more speciality extends the finished part by that speciality |
| YearSeeder.AllDone | database/seeders/YearSeeder.php:18-48 | once every speciality is finished, every speciality has all of its years |
| AdminYears.NewYear | app/Http/Controllers/Api/Admin/AdminYearsController.php:63-70 | the new year keeps the speciality, number and name sent; its order defaults to the year number and its active flag to true |
| AdminYears.Store | app/Http/Controllers/Api/Admin/AdminYearsController.php:25-77 | 422 VALIDATION_ERROR with the table unchanged; 409 DUPLICATE_YEAR when the speciality already has that number; otherwise 201 with exactly one new row; the (speciality, number) pair stays unique |
| AdminYears.ApplyUpdate | app/Http/Controllers/Api/Admin/AdminYearsController.php:108-109 | only name, description, order and active flag change; fields not sent keep their value and a null description clears it |
| AdminYears.Update | app/Http/Controllers/Api/Admin/AdminYearsController.php:85-116 | not found, then 422, then a server error for a null order (the column is NOT NULL), else the row becomes the applied update; uniqueness of (speciality, number) is kept |
| AdminYears.Destroy | app/Http/Controllers/Api/Admin/AdminYearsController.php:118-138 | not found, or 409 HAS_STUDENTS while a student belongs to the year, with every table unchanged; otherwise the year is deleted with everything its foreign keys take along (its semesters and groups, their plannings, planning items and schedule images), the users' references to the deleted year and groups become null, and no foreign key is left dangling |
| AdminYears.DestroySparesStudentYears | app/Http/Controllers/Api/Admin/AdminYearsController.php:122-131 | when the guard lets a deletion through, no student's year changes |
| AdminSemesters.NewSemester | app/Http/Controllers/Api/Admin/AdminSemestersController.php:75-83 | the new semester keeps the year and number sent, its end date is strictly after its start date, and it is active unless told otherwise |
| AdminSemesters.Store | app/Http/Controllers/Api/Admin/AdminSemestersController.php:36-90 | 422 with the table unchanged; 409 DUPLICATE_SEMESTER for a taken (year, number) pair; otherwise 201 with exactly one new row; the pair stays unique |
| AdminSemesters.ApplyUpdate | app/Http/Controllers/Api/Admin/AdminSemestersController.php:122-132 | the year and semester number never change; name, academic year and active flag change only when sent; each date changes only when sent, to its parsed value |
| AdminSemesters.UpdateCanInvertDates | app/Http/Controllers/Api/Admin/AdminSemestersController.php:105-106 | an update sending only a start date after the stored end date passes and leaves the start after the end |
| AdminSemesters.Update | app/Http/Controllers/Api/Admin/AdminSemestersController.php:98-139 | not found, then 422 with the table unchanged, else the row becomes the applied update and nothing else changes; the (year, number) pair stays unique |
| AdminSemesters.Destroy | app/Http/Controllers/Api/Admin/AdminSemestersController.php:141-161 | not found, or 409 HAS_PLANNING while the semester has a planning, with every table unchanged; otherwise the semester is deleted with everything its foreign keys take along, and no foreign key is left dangling |
| AdminSemesters.DestroyTakesOnlyImages | database/migrations/2025_12_06_000001_create_schedule_images_table.php:16 | when the guard lets a deletion through, only the semester and its schedule images go; years, groups, plannings, planning items and users are unchanged |
| AdminNotes.ParseVisibility | app/Http/Controllers/Api/Admin/AdminNotesController.php:47 | each of the three allowed visibility names reads as its own enum value, and different names give different values |
| AdminNotes.Store | app/Http/Controllers/Api/Admin/AdminNotesController.php:38-86 | an invalid request writes nothing, neither row nor file; a valid one puts the file at notes/<hash name> on the public disk and adds exactly one note holding the request's fields, the file's metadata, the requester as uploader and a zero download count |
| AdminNotes.ApplyUpdate | app/Http/Controllers/Api/Admin/AdminNotesController.php:122-129 | only the six whitelisted fields change; the file, uploader and counter are kept; a null module, speciality, student or description clears it |
| AdminNotes.EmptyUpdateIsIdentity | app/Http/Controllers/Api/Admin/AdminNotesController.php:122-129 | an update without any of the six keys leaves the note as it was |
| AdminNotes.Update | app/Http/Controllers/Api/Admin/AdminNotesController.php:98-136 | not found, then 422 with nothing changed, else only that note becomes the applied update |
| AdminNotes.Destroy | app/Http/Controllers/Api/Admin/AdminNotesController.php:138-151 | the row is removed and its path deleted from the local disk only; the public disk, where store puts the file, is not touched |
| AdminNotes.AssignScope | app/Http/Controllers/Api/Admin/AdminNotesController.php:175-190 | exactly one student id makes the note private to that student; otherwise a module id makes it a module note, else a speciality id a speciality note, clearing the assigned student; with none of them the note is unchanged |
| AdminNotes.AssignStudentKeepsScopeIds | app/Http/Controllers/Api/Admin/AdminNotesController.php:177-179 | assigning one student keeps the note's module and speciality ids |
| AdminNotes.AssignTwoStudentsIsNoop | app/Http/Controllers/Api/Admin/AdminNotesController.php:177-188 | two student ids and no module or speciality leave the note untouched |
| AdminNotes.Assign | app/Http/Controllers/Api/Admin/AdminNotesController.php:153-197 | not found, then 422 with nothing changed, else only that note takes its new scope |
| AdminNotes.LogsOf | app/Http/Controllers/Api/Admin/AdminNotesController.php:203 | the selected audit rows all belong to the note and are no more than the table holds |
| AdminNotes.DownloadersAreStudentsOfLogs | app/Http/Controllers/Api/Admin/AdminNotesController.php:208 | a student is a distinct downloader exactly when some audit row names them |
| AdminNotes.DownloadersAtMostLogs | app/Http/Controllers/Api/Admin/AdminNotesController.php:208 | there are never more distinct downloaders than download rows |
| AdminNotes.NoteStats | app/Http/Controllers/Api/Admin/AdminNotesController.php:199-219 | none for an unknown note; otherwise the stored counter, exactly the note's audit rows newest first, and the number of distinct students among them, which is at most the number of rows |
| AdminNotes.LogsOfAppend | app/Http/Controllers/Api/Admin/AdminNotesController.php:203 | appending an audit row adds it to its own note's rows and to no other note's |
| AdminNotes.DownloadKeepsCountsInSync | app/Http/Controllers/Api/Student/StudentNotesController.php:165-174 | one appended audit row plus one added count (what a granted download does) keeps every note's counter equal to its number of audit rows |
| AdminNotes.IndexNotes | app/Http/Controllers/Api/Admin/AdminNotesController.php:14-36 | every note meeting every filter present is listed, and only such notes: a module or speciality filter with a value lists only notes with that column equal to it, and a null one only notes where that column is null (`where` with null is `whereNull`); a visibility filter lists only notes of that visibility, and a null one lists none; without filters every note is listed |
| AdminGroups.DigitRunOfRendered | app/Http/Controllers/Api/Admin/AdminGroupsController.php:65 | the decimal rendering of an id followed by a non-digit is read back as exactly that rendering |
| AdminGroups.ParseGroupCode | app/Http/Controllers/Api/Admin/AdminGroupsController.php:65 | the speciality, year and name can be read back out of a group code |
| AdminGroups.GroupCodeInjective | app/Http/Controllers/Api/Admin/AdminGroupsController.php:65 | two different (speciality, year, name) keys never share a code |
| AdminGroups.FreeKeyHasFreeCode | database/migrations/2025_12_05_100002_create_groups_table.php:19-25 | while every code is derived from its group's key, a free key has a free code, so the unique index on code never rejects a group the duplicate check let through |
| AdminGroups.CodesUniqueWhenKeysUnique | database/migrations/2025_12_05_100002_create_groups_table.php:19-25 | codes derived from keys are unique whenever the keys are |
| AdminGroups.UpdateClashIsKeyClash | app/Http/Controllers/Api/Admin/AdminGroupsController.php:110-117 | an update clashes with another group (on the key or on the code) exactly when that group already has the group's speciality, year and new name |
| AdminGroups.IndexGroups | app/Http/Controllers/Api/Admin/AdminGroupsController.php:12-26 | a group is listed exactly when it matches every filter sent; a filter sent as null matches nothing |
| AdminGroups.InsertFreshGroup | database/migrations/2025_12_05_100002_create_groups_table.php:19-25 | inserting a group whose key and code are free keeps both unique indexes and the rule that codes follow keys |
| AdminGroups.NewGroup | app/Http/Controllers/Api/Admin/AdminGroupsController.php:64-74 | the new group's code is SPEC{speciality}-Y{year}-{name}, its capacity is the one sent or none, and it is active unless told otherwise |
| AdminGroups.Store | app/Http/Controllers/Api/Admin/AdminGroupsController.php:28-81 | 422, then 409 DUPLICATE_GROUP for a taken key, then a server error when the derived code is taken, else exactly one new group; a table whose codes follow keys never reaches the server error, and both unique indexes are kept |
| AdminGroups.ApplyUpdate | app/Http/Controllers/Api/Admin/AdminGroupsController.php:110-117 | speciality and year never change; a new name brings a code recomputed from the group's own speciality and year; capacity and active flag change only when sent |
| AdminGroups.RewriteKeepsInvariants | app/Http/Controllers/Api/Admin/AdminGroupsController.php:110-117 | rewriting a group when no other group has its new key or code keeps both unique indexes, and keeps codes derived from keys when the key is unchanged and the code is kept or recomputed |
| AdminGroups.Update | app/Http/Controllers/Api/Admin/AdminGroupsController.php:89-124 | not found, then 422, then a server error with nothing changed when the new key or code is another group's, else only that group changes; both unique indexes and the code rule are kept |
| AdminGroups.Destroy | app/Http/Controllers/Api/Admin/AdminGroupsController.php:126-146 | not found, or 409 HAS_STUDENTS while a student is in the group, with every table unchanged; otherwise the group is deleted with everything its foreign keys take along, and no foreign key is left dangling |
| AdminGroups.DestroyTakesGroupItems | database/migrations/2025_12_05_100004_create_planning_items_table.php:18 | when the guard lets a deletion through, the group and exactly the planning items of the group go, the other tables keep their rows, and no student row is touched |
| AdminGroups.GroupItemsGo | database/migrations/2025_12_05_100004_create_planning_items_table.php:18 | deleting a group removes exactly the planning items that name it |
| AdminGroups.GroupSparesStudents | app/Http/Controllers/Api/Admin/AdminGroupsController.php:130-139 | when no student is in the group, deleting it leaves every student row as it was |
| GroupSeeder.GroupName | database/seeders/GroupSeeder.php:31 | the k-th default group is named "G" followed by k in decimal |
| GroupSeeder.GroupNamesDistinct | database/seeders/GroupSeeder.php:28-31 | the two default groups G1 and G2 have different names |
| GroupSeeder.SeederCodeBlocksStore | database/seeders/GroupSeeder.php:33 | as written, a seeded group of year 7 (number 1) takes the code that store derives for the free key (speciality 1, year 1, G1), so that store hits the unique index on code |
| GroupSeeder.YearsOf | database/seeders/GroupSeeder.php:23 | the years visited for a speciality are exactly the years that belong to it |
| GroupSeeder.ExtendsKeepsHasGroup | database/seeders/GroupSeeder.php:35-46 | a group present before an add-only step is still present after it |
| GroupSeeder.ExtendsKeepsYearsCovered | database/seeders/GroupSeeder.php:35-46 | years that had both default groups still have them after an add-only step |
| GroupSeeder.ExtendsKeepsCovered | database/seeders/GroupSeeder.php:35-46 | specialities whose years all had both default groups still do after an add-only step |
| GroupSeeder.FirstOrCreateGroup | database/seeders/GroupSeeder.php:35-46 | a taken key leaves the table as it was; a free key inserts exactly one row under a fresh id (code of its key, capacity 30, active) unless the code is taken, when the insert fails and nothing changes; while codes follow keys it never fails, and both unique indexes are kept |
| GroupSeeder.SeedYear | database/seeders/GroupSeeder.php:30-47 | rows are only added, each a seeded row, and the unique indexes are kept; while codes follow keys the year ends with both G1 and G2; a year that already has both is left exactly as it was |
| GroupSeeder.GrowsTransitive | database/seeders/GroupSeeder.php:22-49 | two seeding steps in a row are one: rows only added, each a seeded row, and the unique indexes and codes-follow-keys invariant kept |
| GroupSeeder.SeedSpeciality | database/seeders/GroupSeeder.php:25-48 | rows are only added; while codes follow keys every year of the speciality ends with both default groups; a speciality whose years all have them is left exactly as it was |
| GroupSeeder.SeedGroups | database/seeders/GroupSeeder.php:18-50 | existing groups are kept as they were and only seeded rows are added; while codes follow keys the run succeeds and every year of every speciality has G1 and G2; both unique indexes are kept; a second run over a fully seeded table succeeds and changes nothing (corrected as in the Findings row on database/seeders/GroupSeeder.php:33) |
| GroupSeeder.CoveredYear | database/seeders/GroupSeeder.php:30-47 | a year in a covered set has both G1 and G2 |
| GroupSeeder.CoveredSpeciality | database/seeders/GroupSeeder.php:25-48 | a speciality in a covered set has all of its years covered |
| GroupSeeder.CoverYear | database/seeders/GroupSeeder.php:25-48 | covering one more year extends the covered part of a speciality's years by that year |
| GroupSeeder.CoverSpeciality | database/seeders/GroupSeeder.php:22-49 | a speciality whose years are all covered joins the covered specialities |
| GroupModel.CurrentCapacity | app/Models/Group.php:63-66 | the current capacity is the number of students in the group, never more than the number of users |
| GroupModel.SubsetCard | app/Models/Group.php:63-66 | a subset of users is never larger than the set |
| GroupModel.JoiningTakesOneSpot | app/Models/Group.php:47-50 | a new student placed in the group raises its occupancy by exactly one |
| GroupModel.OutsiderLeavesOccupancy | app/Models/Group.php:47-50 | a new user who is not a student, or is in another group, leaves the occupancy as it was |
| GroupModel.AdmitWithinCapacity | app/Models/Group.php:71-77 | admitting a student only while the group has a spot never takes it past its capacity; a group without capacity always has a spot |
| Auth.FindByEmail | app/Http/Controllers/Api/AuthController.php:38 | no account exactly when no user has that e-mail; otherwise one of the users with it |
| Auth.LoginCheck | app/Http/Controllers/Api/AuthController.php:19-58 | 422 for an invalid request; 401 INVALID_CREDENTIALS for an unknown e-mail or a wrong password; 403 ACCOUNT_INACTIVE for a right password on an inactive account; success exactly when the request is valid, the password matches and the account is active |
| Auth.UnknownEmailLooksLikeWrongPassword | app/Http/Controllers/Api/AuthController.php:40-48 | an unknown e-mail gets the same answer as a known one with a wrong password |
| Auth.InactiveNeedsPasswordFirst | app/Http/Controllers/Api/AuthController.php:40-58 | the active flag is looked at only after the password: an inactive account with a wrong password gets 401, with the right one 403 |
| Auth.PayloadOf | app/Http/Controllers/Api/AuthController.php:62-95 | the payload carries the user's own id, name, e-mail, role, locale and forced-change flag; only a student's carries year and group ids, with a summary key for each id that is set, null when that row is missing |
| Auth.AdminPayloadIgnoresPlacement | app/Http/Controllers/Api/AuthController.php:71-95 | an administrator's payload carries no year or group data, whatever the row holds |
| Auth.Login | app/Http/Controllers/Api/AuthController.php:19-105 | the answer is the login ladder for the account found by e-mail; on failure no token is issued; on success exactly one fresh token for that account is issued and the payload returned |
| Auth.Logout | app/Http/Controllers/Api/AuthController.php:110-118 | the token of this request is revoked and every other token kept |
| Auth.Me | app/Http/Controllers/Api/AuthController.php:123-166 | the payload of the authenticated user, with year and group data exactly for a student |
| Auth.ResetPassword | app/Http/Controllers/Api/AuthController.php:211-253 | 422 with nothing changed; 400 PASSWORD_RESET_FAILED with nothing changed when no account has the e-mail or the broker refuses the token; otherwise only that account's password hash is replaced and its forced-change flag cleared |
| AdminGate.Handle | app/Http/Middleware/EnsureUserIsAdmin.php:16-44 | the request passes on exactly when there is an authenticated administrator; every other request gets 403 UNAUTHORIZED "Admin access required." |
| AdminGate.GuestsAndStudentsRefused | app/Http/Middleware/EnsureUserIsAdmin.php:26-41 | a guest and a student get the same refusal |
| AdminProfile.ApplyProfile | app/Http/Controllers/Api/Admin/AdminProfileController.php:48 | only name and locale can differ from the stored user; each changes only when sent, and a new locale is fr, ar or en |
| AdminProfile.EmptyProfileRequestIsIdentity | app/Http/Controllers/Api/Admin/AdminProfileController.php:48 | a request naming neither field leaves the profile as it is |
| AdminProfile.UpdateProfile | app/Http/Controllers/Api/Admin/AdminProfileController.php:28-55 | 422 with nothing changed, else only the current user's row takes the applied profile |
| AdminProfile.PasswordCheck | app/Http/Controllers/Api/Admin/AdminProfileController.php:59-85 | validation first, then 422 INVALID_PASSWORD for a wrong current password; success exactly when the request is valid and the current password matches |
| AdminProfile.ShortPasswordRefusedFirst | app/Http/Controllers/Api/Admin/AdminProfileController.php:61 | a new password under 8 characters is refused whatever the current password |
| AdminProfile.ChangePassword | app/Http/Controllers/Api/Admin/AdminProfileController.php:57-95 | on any refusal nothing changes; on success only the current user's hash is replaced and their forced-change flag cleared |
| AdminStudents.StudentGuard | app/Http/Controllers/Api/Admin/AdminStudentsController.php:99-109 | the action goes ahead exactly for an existing student; an unknown id is not found and any other role gets 400 INVALID_USER |
| AdminStudents.NewStudent | app/Http/Controllers/Api/Admin/AdminStudentsController.php:59-66 | the new account is an active student with the name, e-mail and hashed password sent, the default locale, no year or group, and a forced password change unless told otherwise |
| AdminStudents.Store | app/Http/Controllers/Api/Admin/AdminStudentsController.php:39-75 | 422 with nothing changed, else 201 with exactly one new account; e-mail addresses stay unique |
| AdminStudents.ApplyUpdate | app/Http/Controllers/Api/Admin/AdminStudentsController.php:128 | only name, e-mail and active flag can differ, each only when sent |
| AdminStudents.UpdateKeepsEmailsUnique | app/Http/Controllers/Api/Admin/AdminStudentsController.php:113 | an update that passes the unique rule, which lets the account keep its own address, keeps e-mail addresses unique |
| AdminStudents.Update | app/Http/Controllers/Api/Admin/AdminStudentsController.php:97-135 | the guard's answer with nothing changed, then 422, else only that account is updated; e-mail addresses stay unique |
| AdminStudents.Destroy | app/Http/Controllers/Api/Admin/AdminStudentsController.php:137-158 | the guard's answer with nothing changed, else the account is only deactivated; no account is ever removed |
| AdminStudents.ResetPassword | app/Http/Controllers/Api/Admin/AdminStudentsController.php:160-200 | the guard's answer, then 422, else only that account gets the new hash and the forced-change flag, which is set unless the request says otherwise |
| AdminStudents.AssignModules | app/Http/Controllers/Api/Admin/AdminStudentsController.php:202-238 | the guard's answer, then 422 for a missing or empty list or an unknown module; else the student's enrolments become exactly the listed modules and every other student's are kept |
| AdminStudents.LogsByStudent | app/Http/Controllers/Api/Admin/AdminStudentsController.php:254 | exactly the audit rows of that student, and no more rows than the table holds |
| AdminStudents.Activity | app/Http/Controllers/Api/Admin/AdminStudentsController.php:254-258 | at most 50 rows are listed |
| AdminStudents.ActivityNewestFirst | app/Http/Controllers/Api/Admin/AdminStudentsController.php:254-258 | every listed row is the student's own and the list runs from newest to oldest |
| AdminStudents.ActivityKeepsNewest | app/Http/Controllers/Api/Admin/AdminStudentsController.php:254-258 | the listed rows are among the student's rows, all of them when there are at most 50, and no dropped row is newer than the last listed one |
| AdminStudents.ActivityOf | app/Http/Controllers/Api/Admin/AdminStudentsController.php:240-264 | the guard's answer, or else the student's activity listing |
| SecureErrors.CleanError | app/Http/Middleware/SecureErrorMessages.php:34-53 | the filtered error object has no details; every other key but message is kept as it was; a listed code gets its fixed text, otherwise a message that is set becomes the generic fallback and an unset one is left alone |
| SecureErrors.CleanErrorIdempotent | app/Http/Middleware/SecureErrorMessages.php:34-53 | filtering an already filtered error object changes nothing |
| SecureErrors.SanitizedBody | app/Http/Middleware/SecureErrorMessages.php:21-61 | in debug mode, below status 400, or without an error object the body passes through; otherwise only its error object is replaced by the filtered one and every other top-level key is kept |
| SecureErrors.SuccessAndCodePreserved | app/Http/Middleware/SecureErrorMessages.php:32-55 | the success flag and the error code pass through the filter unchanged |
| SecureErrors.SanitizeIdempotent | app/Http/Middleware/SecureErrorMessages.php:21-61 | filtering a filtered body again gives the same body |
| SecureErrors.Handle | app/Http/Middleware/SecureErrorMessages.php:21-61 | the in-place edit of the decoded body produces exactly the filtered body |
| SanitizeInput.Clean | app/Http/Middleware/SanitizeInput.php:34-46 | an array keeps its number of entries; strings become trimmed stripped text, other scalars are kept, nested arrays are cleaned in turn |
| SanitizeInput.CleanKeepsShape | app/Http/Middleware/SanitizeInput.php:36-44 | cleaning keeps every key in its order at every level and leaves non-string values alone |
| SanitizeInput.CleanTrimsEverything | app/Http/Middleware/SanitizeInput.php:42 | after cleaning no string anywhere has leading or trailing whitespace |
| SanitizeInput.SanitizeArray | app/Http/Middleware/SanitizeInput.php:34-46 | the loop that overwrites each entry in place, recursing into nested arrays, returns exactly the cleaned input |
| RequestUri.FrontMatch | public/index.php:21 | the pattern matches only a URI under the front-controller prefix, and its group is a non-empty newline-free remainder, followed in the URI by nothing or by one final newline |
| RequestUri.Normalize | public/index.php:19-28 | a match becomes "/" followed by the group; any other URI under "/api/" loses its first four characters; any other URI is kept; a rewritten URI still starts with a slash |
| RequestUri.FrontPrefixStripped | public/index.php:21-23 | a newline-free remainder after the front-controller prefix is kept behind a single slash |
| RequestUri.ApiPrefixStripped | public/index.php:25-27 | any other URI under "/api/" only loses the "/api" part |
| RequestUri.EmptyRemainderFallsThrough | public/index.php:21-27 | the bare front-controller prefix fails the first rule and becomes "/public/index.php/" under the second |
| RequestUri.BareApiKept | public/index.php:25 | "/api" itself is not under "/api/" and is kept |
| RequestUri.FinalNewlineDropped | public/index.php:21-23 | a final newline after the remainder is dropped together with the prefix |
| RequestUri.NormalizeServer | public/index.php:19 | an absent URI stays absent and a present one is normalised |
| AdminAnnouncements.PublishOnStore | app/Http/Controllers/Api/Admin/AdminAnnouncementsController.php:39-40 | a new announcement is unpublished unless told otherwise, and carries the creation time exactly when published |
| AdminAnnouncements.PublishOnUpdate | app/Http/Controllers/Api/Admin/AdminAnnouncementsController.php:61-65 | without the flag both columns stay; true keeps an existing timestamp or stamps now; false unpublishes and clears the timestamp |
| AdminAnnouncements.PublishOnUpdateKeepsConsistent | app/Http/Controllers/Api/Admin/AdminAnnouncementsController.php:62-65 | an update keeps a timestamp present exactly while published, and republishing a published announcement keeps its first timestamp |
| AdminAnnouncements.NewAnnouncement | app/Http/Controllers/Api/Admin/AdminAnnouncementsController.php:35-42 | the requester is the author, title and content are the ones sent, publication follows the store rule, and the audience defaults to all and is one of the three allowed |
| AdminAnnouncements.Store | app/Http/Controllers/Api/Admin/AdminAnnouncementsController.php:18-45 | 422 with nothing changed, else 201 with exactly one new announcement |
| AdminAnnouncements.ApplyUpdate | app/Http/Controllers/Api/Admin/AdminAnnouncementsController.php:61-66 | the author never changes; title, content and audience change only when sent; publication follows the update rule |
| AdminAnnouncements.Update | app/Http/Controllers/Api/Admin/AdminAnnouncementsController.php:47-69 | not found, then 422 with nothing changed, else only that announcement is updated |
| AdminAnnouncements.Destroy | app/Http/Controllers/Api/Admin/AdminAnnouncementsController.php:71-76 | not found with nothing changed, else exactly that announcement is removed |
| Uploads.LastDot | app/Http/Controllers/Api/Admin/AdminDownloadsController.php:45 | the position found holds the last '.' of the name, and there is none exactly when the name has no dot |
| Uploads.Stem | app/Http/Controllers/Api/Admin/AdminDownloadsController.php:45 | the stem is a prefix of the client name |
| Uploads.Extension | app/Http/Controllers/Api/Admin/AdminDownloadsController.php:48 | the client extension never contains a dot |
| Uploads.StemAndExtension | app/Http/Controllers/Api/Admin/AdminDownloadsController.php:45-50 | a name with a dot is its stem, a dot and its extension; a name without one is all stem with an empty extension |
| Uploads.SanitizeAt | app/Http/Controllers/Api/Admin/AdminDownloadsController.php:46 | each character of the stem is kept when it is a letter, a digit, '_' or '-', and becomes '_' otherwise |
| Uploads.SanitizeSafe | app/Http/Controllers/Api/Admin/AdminDownloadsController.php:46 | the result holds only safe characters, a safe stem is left as it is, and sanitising twice is sanitising once |
| Uploads.SafeHasNoDot | app/Http/Controllers/Api/Admin/AdminDownloadsController.php:46 | a sanitised stem never contains a dot |
| Uploads.LastDotOfAppended | app/Http/Controllers/Api/Admin/AdminDownloadsController.php:50 | appending "." and a dot-free extension puts the last dot right after the stem |
| Uploads.DisplayFilenameParts | app/Http/Controllers/Api/Admin/AdminDownloadsController.php:45-50 | the display name splits back into a safe stem of at most 100 characters (the sanitised stem itself when that was short enough) and the original extension |
| Uploads.SlotPath | app/Http/Controllers/Api/Admin/AdminDownloadsController.php:142 | the slot's path is taken exactly when the slot is set and PHP finds its path truthy |
| Uploads.TruthyPath | app/Http/Controllers/Api/Admin/AdminPlanningsController.php:308-310 | a path column is taken exactly when it is set and PHP finds it truthy |
| Uploads.UpdateSlot | app/Http/Controllers/Api/Admin/AdminDownloadsController.php:140-158 | removal clears the slot and deletes the old truthy path; otherwise an upload deletes the old truthy path and fills the slot with the new path and display name; with neither the slot and the disk are left alone |
| Uploads.RemoveWins | app/Http/Controllers/Api/Admin/AdminDownloadsController.php:141-147 | with removal requested, what is uploaded makes no difference |
| Uploads.SlotKeepsDiskInStep | app/Http/Controllers/Api/Admin/AdminDownloadsController.php:140-179 | a slot whose file is on the disk still points at a file on the disk after the step, and a replaced or removed truthy path is gone unless the new upload landed on the same path |
| AdminDownloads.DisplayNames | app/Http/Controllers/Api/Admin/AdminDownloadsController.php:92-105 | one display name per gallery upload |
| AdminDownloads.GalleryOf | app/Http/Controllers/Api/Admin/AdminDownloadsController.php:237 | the gallery of a download is exactly the image rows whose download id is it |
| AdminDownloads.NextOrder | app/Http/Controllers/Api/Admin/AdminDownloadsController.php:203-204 | the next position lies above every position of the gallery: one past the largest, or 0 for an empty gallery |
| AdminDownloads.AddAbove | app/Http/Controllers/Api/Admin/AdminDownloadsController.php:214-221 | adding a row above every position of its gallery keeps positions distinct and moves the bound past it |
| AdminDownloads.AppendedRows | app/Http/Controllers/Api/Admin/AdminDownloadsController.php:205-222 | with fresh, increasing keys, appending keeps every old row and adds exactly the listed rows |
| AdminDownloads.GalleryPositions | app/Http/Controllers/Api/Admin/AdminDownloadsController.php:89-111 | the k-th gallery upload is stored under its fresh key with its display name, its path and position first + k, and every earlier row is kept |
| AdminDownloads.AddGallery | app/Http/Controllers/Api/Admin/AdminDownloadsController.php:89-111 | the gallery loop adds one fresh row per upload, in order, at consecutive positions, and stores each upload's file |
| AdminDownloads.AppendedBelong | app/Http/Controllers/Api/Admin/AdminDownloadsController.php:102-109 | rows appended to an existing download keep every image row attached to a download |
| AdminDownloads.AppendedOrdersDistinct | app/Http/Controllers/Api/Admin/AdminDownloadsController.php:203-222 | rows appended at consecutive positions above a gallery keep positions distinct |
| AdminDownloads.AppendedKeepsInvariants | app/Http/Controllers/Api/Admin/AdminDownloadsController.php:203-222 | appending with fresh increasing keys keeps every row attached to a download and, above the last position, keeps positions distinct |
| AdminDownloads.KeepImages | app/Http/Controllers/Api/Admin/AdminDownloadsController.php:189-199 | exactly the listed rows of this download are deleted; listed rows of other downloads and all other rows stay as they were |
| AdminDownloads.DroppedPaths | app/Http/Controllers/Api/Admin/AdminDownloadsController.php:193-195 | the file of every deleted row is among the deleted paths |
| AdminDownloads.KeepImagesScoped | app/Http/Controllers/Api/Admin/AdminDownloadsController.php:189-199 | deleting rows leaves other galleries exactly as they were, removes only the listed rows from this one, and keeps both invariants |
| AdminDownloads.KeepOneMore | app/Http/Controllers/Api/Admin/AdminDownloadsController.php:190-198 | one more step of the deletion loop deletes that one row and its file |
| AdminDownloads.DeleteImages | app/Http/Controllers/Api/Admin/AdminDownloadsController.php:189-199 | the deletion loop removes exactly the listed rows of this download, each with its stored file |
| AdminDownloads.NewSlot | app/Http/Controllers/Api/Admin/AdminDownloadsController.php:40-65 | a slot is filled exactly when its upload is sent, with the stored path and the display name |
| AdminDownloads.NewDownload | app/Http/Controllers/Api/Admin/AdminDownloadsController.php:67-86 | the requester is the author; the French and Arabic titles are trimmed and stripped; content defaults to empty; publication follows the store rule; audience defaults to all; each slot holds its upload |
| AdminDownloads.FreshDownloadHasNoGallery | app/Http/Controllers/Api/Admin/AdminDownloadsController.php:89-91 | a new download starts with an empty gallery, so its positions start at 0 |
| AdminDownloads.Store | app/Http/Controllers/Api/Admin/AdminDownloadsController.php:20-114 | 422 with nothing written; otherwise one new download, the main image and file stored as sent, and the gallery appended at positions 0, 1, ...; rows stay attached and positions distinct |
| AdminDownloads.Sent | app/Http/Controllers/Api/Admin/AdminDownloadsController.php:121-138 | a key is present exactly when it is sent, with its value |
| AdminDownloads.ApplyUpdate | app/Http/Controllers/Api/Admin/AdminDownloadsController.php:119-186 | author and id never change; a sent title is trimmed and stripped; content and audience change only when sent; each slot follows its removal or upload; publication follows the update rule |
| AdminDownloads.AppendImages | app/Http/Controllers/Api/Admin/AdminDownloadsController.php:201-223 | new gallery uploads continue after the last remaining position (from 0 for an empty gallery), with fresh keys, and keep positions distinct |
| AdminDownloads.Update | app/Http/Controllers/Api/Admin/AdminDownloadsController.php:116-226 | not found with nothing changed; otherwise the record takes the applied update, the listed gallery rows are deleted with their files, the new uploads are appended after the remaining ones, and the disk follows each step; rows stay attached and positions distinct |
| AdminDownloads.DestroyLeavesNoGallery | app/Http/Controllers/Api/Admin/AdminDownloadsController.php:237-242 | after deleting a download's gallery no row refers to it, every other gallery is intact, and the deleted files are exactly its rows' files |
| AdminDownloads.Destroy | app/Http/Controllers/Api/Admin/AdminDownloadsController.php:228-245 | not found with nothing changed; otherwise the main image, the file and every gallery image with its file are deleted, then the record; rows stay attached |
| HeroSlideModel.ImageUrl | app/Models/HeroSlide.php:33-46 | no URL exactly when the path is missing or falsy; a path under "/images/" is returned as it is; any other path goes through the public disk's URL function |
| HeroSlideModel.NoPathNoImage | app/Models/HeroSlide.php:35-37 | a slide without an image, or whose path is "" or "0", has no URL and no file on the disk |
| HeroSlideModel.UrlOfPath | app/Models/HeroSlide.php:39-45 | for a truthy path, the URL is the path itself when static, and the disk URL of the path otherwise |
| AdminHeroSlides.IndexOrdered | app/Http/Controllers/Api/Admin/AdminHeroSlidesController.php:13-17 | the listing holds every slide exactly once, by ascending position and, for equal positions, newest first |
| AdminHeroSlides.StoredPathShape | app/Http/Controllers/Api/Admin/AdminHeroSlidesController.php:68-69 | a stored image lies under "hero_slides/hero_", is never taken for a static path, and keeps the client's extension |
| AdminHeroSlides.StoredPathsDistinct | app/Http/Controllers/Api/Admin/AdminHeroSlidesController.php:68 | images stored in different seconds never share a path, whatever their random tokens |
| AdminHeroSlides.NewSlide | app/Http/Controllers/Api/Admin/AdminHeroSlidesController.php:63-103 | the French title and every listed locale of title and subtitle are trimmed and stripped, other keys kept; the subtitle defaults to empty; the image is the stored path with the sanitised display name; order defaults to 0 and is never negative; active defaults to true |
| AdminHeroSlides.NewSlideImage | app/Http/Controllers/Api/Admin/AdminHeroSlidesController.php:69 | a created slide's image is on the disk it was stored to and is served through the disk's URL, never as a static path |
| AdminHeroSlides.Store | app/Http/Controllers/Api/Admin/AdminHeroSlidesController.php:19-106 | 422 with nothing written when validation fails; otherwise 201, one new slide under a fresh key, and the disk gains exactly its image |
| AdminHeroSlides.ApplyUpdate | app/Http/Controllers/Api/Admin/AdminHeroSlidesController.php:147-213 | key and creation time never change; a sent title or subtitle replaces the old one after sanitising; order, active flag and gradient change only when sent; the image follows the image step |
| AdminHeroSlides.RemoveImageWins | app/Http/Controllers/Api/Admin/AdminHeroSlidesController.php:192-197 | with remove_image true the slide loses its image, the old file is deleted, nothing is stored, and a new image sent beside it changes nothing |
| AdminHeroSlides.NewImageReplaces | app/Http/Controllers/Api/Admin/AdminHeroSlidesController.php:198-211 | without removal a new image becomes the slide's image and the old file is deleted |
| AdminHeroSlides.EmptyUpdateKeepsSlide | app/Http/Controllers/Api/Admin/AdminHeroSlidesController.php:147-213 | an update that sends nothing leaves the slide and the disk unchanged |
| AdminHeroSlides.UpdateKeepsImageStored | app/Http/Controllers/Api/Admin/AdminHeroSlidesController.php:191-211 | if the old image was on the disk, the image the slide names after the update is on the disk |
| AdminHeroSlides.Update | app/Http/Controllers/Api/Admin/AdminHeroSlidesController.php:108-216 | not found or 422 with nothing changed; otherwise the slide takes the applied update and the disk the image step |
| AdminHeroSlides.Destroy | app/Http/Controllers/Api/Admin/AdminHeroSlidesController.php:218-229 | not found with nothing changed; otherwise the image file (when its path is truthy) and then the slide are deleted |
| HeroSeeder.GradientFor | database/seeders/CreateHeroSlidesWithStaticImages.php:53-70 | for positions from 1 the gradient at (index - 1) mod 11; below 1, PHP's truncating remainder makes a negative offset, which names a gradient only when it is 0 |
| HeroSeeder.GradientInOrder | database/seeders/CreateHeroSlidesWithStaticImages.php:53-69 | slide i of 1 to 11 gets the i-th gradient of the list |
| HeroSeeder.GradientsDistinct | database/seeders/CreateHeroSlidesWithStaticImages.php:55-67 | slides 1 to 11 get pairwise different gradients |
| HeroSeeder.GradientsCycle | database/seeders/CreateHeroSlidesWithStaticImages.php:69 | the gradients repeat every eleven positions |
| HeroSeeder.StaticPathInjective | database/seeders/CreateHeroSlidesWithStaticImages.php:32 | different slide numbers have different static image paths |
| HeroSeeder.SeedSlide | database/seeders/CreateHeroSlidesWithStaticImages.php:21-37 | slide i has the fixed titles, the static path and file name of image i, position i - 1, is active and has gradient i |
| HeroSeeder.SeedSlideUrl | app/Models/HeroSlide.php:39-42 | a seeded slide is served from its static path, never through the disk URL |
| HeroSeeder.Purge | database/seeders/CreateHeroSlidesWithStaticImages.php:16 | exactly the slides that are inactive and have no image path are deleted; the others are kept unchanged |
| HeroSeeder.FindByPath | database/seeders/CreateHeroSlidesWithStaticImages.php:41-44 | the lookup finds a slide holding the path, or reports that none does |
| HeroSeeder.Upsert | database/seeders/CreateHeroSlidesWithStaticImages.php:41-44 | the slide holding the static path is rewritten with slide i's data, keeping its key and creation time; without one a slide is created under a fresh key |
| HeroSeeder.UpsertKeepsUnique | database/seeders/CreateHeroSlidesWithStaticImages.php:40-45 | an upsert keyed on a static path keeps at most one slide per static path |
| HeroSeeder.UpsertPlaced | database/seeders/CreateHeroSlidesWithStaticImages.php:40-45 | upserting slide n + 1 keeps slides 1 to n where they were placed |
| HeroSeeder.UpsertKeeps | database/seeders/CreateHeroSlidesWithStaticImages.php:40-45 | an upsert keeps every other row unchanged and adds no stale one |
| HeroSeeder.SeedStep | database/seeders/CreateHeroSlidesWithStaticImages.php:40-45 | upserting slide n + 1 after slides 1 to n keeps the earlier slides placed, every other row unchanged, no stale row, and one slide per static path |
| HeroSeeder.Run | database/seeders/CreateHeroSlidesWithStaticImages.php:13-48 | afterwards slides 1 to 11 are each present with their seeded data; every row that survived the purge is still there, either seeded or unchanged; no stale slide remains; one slide per static path is kept |
| AdminFilieres.IndexOrdered | app/Http/Controllers/Api/Admin/AdminFilieresController.php:15-19 | the listing holds every filière exactly once, those without a position first, then by ascending position |
| AdminFilieres.OldPath | app/Http/Controllers/Api/Admin/AdminFilieresController.php:202-203 | an image URL names a stored file exactly when PHP finds the URL truthy, and that file is the URL with every "/storage/" removed |
| AdminFilieres.StoredPathNoPrefix | app/Http/Controllers/Api/Admin/AdminFilieresController.php:220-224 | a stored path never contains "/storage/" when its stem and extension have no slash |
| AdminFilieres.UrlRoundTrip | app/Http/Controllers/Api/Admin/AdminFilieresController.php:203-224 | the URL recorded for a stored file leads back to that file, so a later edit deletes the right one |
| AdminFilieres.WriteKeepsSlugsUnique | app/Http/Controllers/Api/Admin/AdminFilieresController.php:91 | writing a slug that no other filière has keeps slugs unique |
| AdminFilieres.NewFiliere | app/Http/Controllers/Api/Admin/AdminFilieresController.php:63-96 | the slug is the slug of the French name; an upload gives the URL of its stored path, otherwise the sent image URL is kept; a missing position becomes 0 and a null one stays null; the filière is active |
| AdminFilieres.InsertFiliere | app/Http/Controllers/Api/Admin/AdminFilieresController.php:89-96 | with the slug free, exactly one new filière is added under a fresh key, and slugs stay unique |
| AdminFilieres.Store | app/Http/Controllers/Api/Admin/AdminFilieresController.php:21-99 | 422 with nothing written; otherwise an uploaded image is stored first; a slug in use then fails the insert with the file left on the disk; otherwise 201 and one new filière; slugs stay unique |
| AdminFilieres.UploadWins | app/Http/Controllers/Api/Admin/AdminFilieresController.php:194-246 | with a file sent, remove_image and image_url change nothing: the image action is the upload |
| AdminFilieres.RemoveBeatsUrl | app/Http/Controllers/Api/Admin/AdminFilieresController.php:234-246 | without a file, remove_image true wins over a sent image URL |
| AdminFilieres.NewSlug | app/Http/Controllers/Api/Admin/AdminFilieresController.php:162-173 | an edit writes a slug exactly when a name is sent and the French name it picks is truthy, and that slug is the slug of that name |
| AdminFilieres.ApplyUpdate | app/Http/Controllers/Api/Admin/AdminFilieresController.php:160-246 | the key never changes; the name, description, position and active flag change only when sent; the slug follows the name rule; the image URL follows exactly one image action |
| AdminFilieres.UpdateSlug | app/Http/Controllers/Api/Admin/AdminFilieresController.php:162-173 | a truthy sent French name gives its slug; a name without French falls back to the current French name; no name keeps the slug |
| AdminFilieres.UploadIsFound | app/Http/Controllers/Api/Admin/AdminFilieresController.php:202-224 | after an upload the file is on the disk and the new URL names it, so the next edit deletes exactly this file |
| AdminFilieres.NullDescriptionKept | app/Http/Controllers/Api/Admin/AdminFilieresController.php:176-181 | a null description does not clear the description; only an array replaces it |
| AdminFilieres.EmptyNameKeepsFrenchSlug | app/Http/Controllers/Api/Admin/AdminFilieresController.php:104-173 | an empty name array passes validation (`name.fr` is required only with a non-empty name), is saved as it is, and the slug comes from the current French name |
| AdminFilieres.Update | app/Http/Controllers/Api/Admin/AdminFilieresController.php:101-267 | not found or 422 with nothing changed; otherwise the disk follows the image action; a slug another filière has then fails the write, otherwise the filière takes the applied update; slugs stay unique |
| AdminFilieres.UpdateImage | app/Http/Controllers/Api/Admin/AdminFilieresController.php:269-424 | a missing filière is reported as a 500 and no file or a file failing the rules as 422, with nothing changed; otherwise the old file is deleted, the new one stored under the slug, and only the image URL changes |
| AdminFilieres.Destroy | app/Http/Controllers/Api/Admin/AdminFilieresController.php:426-431 | not found with nothing changed; otherwise the filière row is deleted and slugs stay unique; the cascade to its specialities is not modelled |
| AdminPlannings.AddKeepsOnePerSemester | database/migrations/2025_12_05_100003_create_plannings_table.php:23 | adding a planning for a semester that has none keeps at most one planning per semester |
| AdminPlannings.RewriteKeepsOnePerSemester | app/Http/Controllers/Api/Admin/AdminPlanningsController.php:185-191 | rewriting a planning without moving it to another semester keeps at most one planning per semester |
| AdminPlannings.StoredPath | app/Http/Controllers/Api/Admin/AdminPlanningsController.php:50-51 | a stored planning image lies under "plannings/planning_" |
| AdminPlannings.StoreImage | app/Http/Controllers/Api/Admin/AdminPlanningsController.php:47-52 | a path is stored exactly when an image is sent, and it is the stored path |
| AdminPlannings.NewPlanningAsWritten | app/Http/Controllers/Api/Admin/AdminPlanningsController.php:54-59 | the planning created as the code stands never records an image, because image_path is not mass assignable; semester, year and publication (default false) are as sent |
| AdminPlannings.NewPlanning | app/Http/Controllers/Api/Admin/AdminPlanningsController.php:54-59 | the planning meant to be created records the stored image, with semester, year and publication (default false) as sent |
| AdminPlannings.StoreLosesImage | app/Http/Controllers/Api/Admin/AdminPlanningsController.php:47-59 | as written, a sent image lands on the disk while the new planning does not refer to it; the corrected planning does |
| AdminPlannings.Store | app/Http/Controllers/Api/Admin/AdminPlanningsController.php:28-66 | 422 with nothing written unless the semester exists and has no planning and the academic year is a non-blank string; otherwise 201, one new planning recording its image, and the disk gains that image; one planning per semester is kept (corrected as in the Findings row on app/Http/Controllers/Api/Admin/AdminPlanningsController.php:54-59) |
| AdminPlannings.ImagePathAfter | app/Http/Controllers/Api/Admin/AdminPlanningsController.php:104-174 | delete_image true clears the image column; otherwise an upload sets the new path; otherwise the column is kept |
| AdminPlannings.ApplyUpdate | app/Http/Controllers/Api/Admin/AdminPlanningsController.php:101-191 | key and semester never change; year and publication change only when sent; the image follows the upload and deletion steps |
| AdminPlannings.UploadThenDelete | app/Http/Controllers/Api/Admin/AdminPlanningsController.php:104-174 | an upload sent with delete_image true is stored and then deleted: the planning has no image, and neither the new nor the old file is on the disk |
| AdminPlannings.UploadIsStored | app/Http/Controllers/Api/Admin/AdminPlanningsController.php:104-164 | an upload without deletion leaves the planning naming a file on the disk |
| AdminPlannings.LooseDeleteIgnored | app/Http/Controllers/Api/Admin/AdminPlanningsController.php:167 | a delete_image that is only truthy, such as "1", deletes nothing and keeps the image |
| AdminPlannings.Update | app/Http/Controllers/Api/Admin/AdminPlanningsController.php:74-302 | not found or 422 with nothing changed; an upload that is not stored fails with 500 after the old file is deleted; otherwise the planning takes the applied update and the disk the upload and deletion steps; one planning per semester is kept |
| AdminPlannings.SetPublished | app/Http/Controllers/Api/Admin/AdminPlanningsController.php:324-336 | only the publication flag of that planning changes; every other planning is kept |
| AdminPlannings.PublishIdempotent | app/Http/Controllers/Api/Admin/AdminPlanningsController.php:321-343 | publishing or unpublishing twice is the same as once, and the last call decides |
| AdminPlannings.Publish | app/Http/Controllers/Api/Admin/AdminPlanningsController.php:321-331 | not found with nothing changed; otherwise the planning is published, whatever it was |
| AdminPlannings.Unpublish | app/Http/Controllers/Api/Admin/AdminPlanningsController.php:333-343 | not found with nothing changed; otherwise the planning is unpublished, whatever it was |
| AdminPlannings.ItemsWithout | database/migrations/2025_12_05_100004_create_planning_items_table.php:16 | the cascade removes exactly the items of the deleted planning and keeps the others unchanged |
| AdminPlannings.Destroy | app/Http/Controllers/Api/Admin/AdminPlanningsController.php:304-319 | not found with nothing changed; otherwise its image file (when truthy) is deleted, then the planning and, by cascade, its items; one planning per semester is kept |
| AdminScheduleImages.Show | app/Http/Controllers/Api/Admin/AdminScheduleImagesController.php:18-87 | always success: the semester's active image when it has one, and no data exactly when it has none |
| AdminScheduleImages.StoredPath | app/Http/Controllers/Api/Admin/AdminScheduleImagesController.php:108-110 | a stored scan lies under "schedule_images/schedule_" and its path is truthy |
| AdminScheduleImages.DiskAfterStore | app/Http/Controllers/Api/Admin/AdminScheduleImagesController.php:108-131 | the new file is on the disk; the old file is deleted when it is another file; every other file stays and none appears |
| AdminScheduleImages.ReuploadDeletesItself | app/Http/Controllers/Api/Admin/AdminScheduleImagesController.php:108-131 | re-uploading for the same semester in the same second with the same extension deletes the new file as written, and keeps it in the corrected disk |
| AdminScheduleImages.Record | app/Http/Controllers/Api/Admin/AdminScheduleImagesController.php:134-151 | the record names the semester, the new file and the client's file name, is active, and is uploaded by the requester |
| AdminScheduleImages.UpsertKeepsOnePerSemester | app/Http/Controllers/Api/Admin/AdminScheduleImagesController.php:134-151 | updating the semester's record, or creating one when it has none, keeps at most one image per semester |
| AdminScheduleImages.UpsertHitsExisting | app/Http/Controllers/Api/Admin/AdminScheduleImagesController.php:134-141 | with one image per semester, the upsert rewrites the semester's existing record and adds no key |
| AdminScheduleImages.Store | app/Http/Controllers/Api/Admin/AdminScheduleImagesController.php:92-216 | 422, a missing semester (500) and a file not stored (500) each change nothing; otherwise the semester's record is updated or created with the new file, and the disk is the corrected disk after store; one image per semester is kept (corrected as in the Findings row on app/Http/Controllers/Api/Admin/AdminScheduleImagesController.php:108-131) |
| AdminScheduleImages.Destroy | app/Http/Controllers/Api/Admin/AdminScheduleImagesController.php:221-263 | 404 with nothing changed when the semester has no image; otherwise its file and its record are deleted, and no image of the semester remains |
| PlanningItemModel.DayName | app/Models/PlanningItem.php:59-71 | days 1 to 7 are named Lundi to Dimanche; any other day is "Unknown" |
| PlanningItemModel.DayNamesDistinct | app/Models/PlanningItem.php:61-70 | different days have different names, and no day is named "Unknown" |
| PlanningItemModel.CourseTypeLabel | app/Models/PlanningItem.php:76-85 | a known course type gets its label; any other stored value is returned as it is |
| PlanningItemModel.CourseTypeLabels | app/Models/PlanningItem.php:78-84 | the four known types have different labels, but an unknown value such as "TD" shares the label of "td" |
| PlanningItemModel.ItemsOf | app/Http/Controllers/Api/Admin/AdminPlanningItemsController.php:16 | each item of the planning is kept as often as in the table, and no other item |
| PlanningItemModel.OrderedItemsAreTimetable | app/Http/Controllers/Api/Admin/AdminPlanningItemsController.php:16-20 | the timetable holds exactly the planning's items, by day and then by start time |
| AdminPlanningItems.ParseTime | app/Http/Controllers/Api/Admin/AdminPlanningItemsController.php:33 | an accepted time is five characters with a colon in the middle and names a minute of the day |
| AdminPlanningItems.FormatTime | app/Http/Controllers/Api/Admin/AdminPlanningItemsController.php:33 | every minute of the day has a five-character text |
| AdminPlanningItems.DigitCharOfValue | app/Http/Controllers/Api/Admin/AdminPlanningItemsController.php:33 | a digit's value gives back the digit |
| AdminPlanningItems.ParseFormatTime | app/Http/Controllers/Api/Admin/AdminPlanningItemsController.php:33 | the text of every minute of the day is accepted and reads back as that minute |
| AdminPlanningItems.FormatParseTime | app/Http/Controllers/Api/Admin/AdminPlanningItemsController.php:33 | an accepted text is the text of the minute it reads as: one spelling per time |
| AdminPlanningItems.NewItem | app/Http/Controllers/Api/Admin/AdminPlanningItemsController.php:53-65 | the created item belongs to the route's planning, takes every field as sent, defaults its order to 0, and ends after it starts |
| AdminPlanningItems.Store | app/Http/Controllers/Api/Admin/AdminPlanningItemsController.php:25-72 | a missing planning is not found and a request failing the rules is 422, with nothing changed; otherwise 201 and one new item under a fresh key |
| AdminPlanningItems.ApplyUpdate | app/Http/Controllers/Api/Admin/AdminPlanningItemsController.php:108-111 | key and planning never change; every whitelisted field sent is written, the rest are kept |
| AdminPlanningItems.StartOnlyEditInvertsTimes | app/Http/Controllers/Api/Admin/AdminPlanningItemsController.php:88-111 | an edit sending only a start time later than the stored end passes the rules and leaves the item ending before it starts |
| AdminPlanningItems.UpdateKeepsWellFormed | app/Http/Controllers/Api/Admin/AdminPlanningItemsController.php:84-111 | an edit that passes the rules keeps an item well formed exactly when the times it leaves are in order |
| AdminPlanningItems.Update | app/Http/Controllers/Api/Admin/AdminPlanningItemsController.php:80-118 | not found or 422 with nothing changed; an order sent as null is refused by the NOT NULL column (500) with nothing changed; otherwise the item takes the applied update |
| AdminPlanningItems.Index | app/Http/Controllers/Api/Admin/AdminPlanningItemsController.php:13-23 | not found exactly when the planning is missing; otherwise the planning's items in timetable order |
| AdminPlanningItems.Destroy | app/Http/Controllers/Api/Admin/AdminPlanningItemsController.php:120-129 | not found with nothing changed; otherwise exactly that item is deleted |
| StudentSchedule.ActiveSpecialities | app/Http/Controllers/Api/Student/StudentScheduleController.php:95-110 | exactly the active specialities are offered |
| StudentSchedule.Index | app/Http/Controllers/Api/Student/StudentScheduleController.php:85-157 | without all three identifiers, the active specialities; a year outside the speciality or a semester outside the year is not found; otherwise the semester, its published planning when there is one, with its items in timetable order (none without one), and its active image |
| StudentSchedule.ScheduleIgnoresGroups | app/Http/Controllers/Api/Student/StudentScheduleController.php:134-141 | every item of the published planning is shown, whatever its group |
| Cascades.DeleteFollowsYears | database/migrations/2025_12_05_100001_create_semesters_table.php:16 | on linked tables, deleting years removes exactly those years, and a semester or a group survives exactly when it is not itself deleted and its year survives |
| Cascades.DeleteFollowsSemesters | database/migrations/2025_12_05_100003_create_plannings_table.php:16 | on linked tables, a planning or a schedule image survives a deletion exactly when its semester does |
| Cascades.DeleteFollowsPlannings | database/migrations/2025_12_05_100004_create_planning_items_table.php:16-18 | on linked tables, a planning item survives a deletion exactly when its planning survives and so does its group, if it has one |
| Cascades.DeleteKeepsSurvivors | database/migrations/2025_12_05_100006_add_student_fields_to_users_table.php:15-18 | surviving rows are unchanged, every user stays, and a user's year or group becomes null exactly when that row was deleted, with nothing else of the user changed |
| Cascades.DeleteKeepsUsersLinked | database/migrations/2025_12_05_100006_add_student_fields_to_users_table.php:15-18 | after a deletion every user's year and group exist or are null |
| Cascades.DeleteKeepsLinked | database/migrations/2025_12_05_100004_create_planning_items_table.php:16-18 | a deletion leaves no foreign key among years, semesters, groups, plannings, planning items, schedule images and users dangling |

## Left out

- AdminYears index and show: read-only listings ordered by `order`, with eager-loaded relations; not modelled.
- AdminSemesters index and show: read-only listings with filters and eager-loaded relations; not modelled.
- AdminNotes show: a read-only lookup with eager-loaded relations; not modelled.
- AdminNotes bulkUpload: a stub that always answers 501 NOT_IMPLEMENTED and changes nothing; not modelled.
- AdminNotes.IndexNotes, StudentNotes.ListedNotes: the rows are a set; `created_at` ordering and pagination by 20 are not modelled.
- AdminGroups show, and the name ordering of index: read-only, not modelled; AdminGroups.IndexGroups gives the listed set.
- Auth forgotPassword: sending a reset link is e-mail I/O done by the framework's broker; not modelled.
- Auth: password hashing, e-mail syntax and the reset broker's token check are parameters (`check`, `isEmail`, `tokenValid`, `hash`); tokens are ids in a map from token to account, and their plain-text form is not modelled.
- AdminProfile show: a read-only projection of the current user; not modelled.
- AdminStudents index and show: the `like` search, the `created_at` ordering with pagination, and a read-only lookup; not modelled.
- AdminStudents: the credential e-mails the source marks as to do are not sent by the source either.
- SecureErrors: JSON text is not modelled; bodies are decoded values, so key order and the re-encoding by `json_encode` are not captured. An `error` entry that is not an object is passed through.
- SanitizeInput handle: the `merge` of the cleaned input back into the request is framework behaviour; only `sanitizeArray` is modelled, and `strip_tags` is a parameter.
- AdminAnnouncements index: a read-only listing by `created_at`; not modelled.
- AdminDownloads index: a read-only listing by `created_at`; not modelled.
- AdminDownloads: stored file names (`time()`, `uniqid()`, `hash('sha256', ...)`) are parameters, as are the MIME types sniffed by `finfo`; the `exists` check before each delete is folded into set difference, which has the same effect.
- Side effects outside the tables and disks are not modelled: logging, the JSON encoding of answers, eager-loaded relations, and the directory creation before storing. Storage calls are set operations.
- `time()`, `uniqid()`, `hashName()`, `Str::slug`, `strip_tags`, `Storage::url`, `finfo` and the framework's e-mail rule are parameters of the operations that use them.
- AdminPlannings index and show: read-only listings (index filtered by semester and ordered by `academic_year` descending, a text column), with eager-loaded relations; not modelled.
- AdminPlannings.Store: `is_published` is not validated by the source and is taken as a boolean field.
- AdminPlannings.Update: the re-read of `image_path` before saving only repeats the assignment already made, so it is not modelled separately.
- AdminFilieres: the filières migration is not part of this model, so `order` is taken to be nullable, as the `nullable|integer` rule allows.
- AdminHeroSlides: the closure's `isValid()` guard and the reading of the file's real path are framework behaviour; the content check uses the sniffed MIME type, which the model keeps as a field of the upload.
- Unspecified choices (`first()`, the lookup of `updateOrCreate` and `firstOrCreate`) are nondeterministic in the model (`:|`); the contracts hold whichever matching row the database returns.
- StudentSchedule.Index: query parameters that are not numeric ids are not modelled, and the specialities offered are a set, without their `order`.
- AdminPlanningItems.UpdateValid and the semester update rules: when the field named by an `after:` rule is not in the request, Laravel lets the rule pass, and the model does the same; the end is then not compared with the stored start.
- AdminFilieres.Destroy: the database also deletes the filière's specialities, and through them their modules, notes, years, groups and timetables. It also nulls the `filiere_id` of users. Specialities carry no filière key in this model, so only the filière row is deleted.
- Cascades: the `module_year_assignments` table and the users' `filiere_id` and `speciality_id` columns are not part of this model. Deleting a year therefore does not show those rows going or those columns being nulled.
- AdminYears.Destroy, AdminSemesters.Destroy, AdminGroups.Destroy: the files of schedule images and plannings removed by a cascade stay on the disk, since the database does not touch files. The model leaves the disks as they were.
- Uploads.SanitizeAt: works per character, whereas PHP's `preg_replace` without the `/u` flag works per byte. A non-ASCII character of a client file name therefore becomes one `_` here, but one `_` per UTF-8 byte in the source.
- Uploads.DisplayFilenameParts: the 100-character cut is per character here, whereas PHP's `substr` counts bytes. The source's bound is in bytes, and it can split a multi-byte character, which this model cannot show.
- AdminDownloads.ApplyUpdate: `update` validates nothing. A present but null `title` or `content` is written as null by the source, while the model's request holds either an object or nothing. A non-boolean `is_published` is stored as sent and its PHP truthiness decides `published_at`, while the model takes a boolean.
- AdminDownloads.Update: inherits the request shape of AdminDownloads.ApplyUpdate, so it does not cover a null title or content, or a non-boolean `is_published`.
- StudentNotes.Serve: the `if (!$file)` test on the contents read from the disk is not modelled; a file that exists is streamed, even when its contents are empty or "0".

## Findings

| source | as written | input that shows it | evidently intended | confidence | as-written member | corrected member |
|---|---|---|---|---|---|---|
| app/Http/Controllers/Api/Student/StudentNotesController.php:224-229 | the specialities of the student are plucked as `speciality.specialite_id`, a column the speciality model does not have, so every value is null and the speciality branch never grants | a student enrolled in module 1 of speciality 5 asks for a note with visibility 'specialite' and specialite_id 5: denied | pluck the enrolled modules' own `specialite_id`, so that enrolment in a module of the speciality grants | high, not executed | StudentNotes.SpecialityBranchNeverGrantsAsWritten | StudentNotes.SpecialityBranchCorrected |
| database/seeders/GroupSeeder.php:33 | the seeder builds the group code from the year's `year_number`, while the group controller builds it from the year's id | speciality 1 has a seeded group G1 of year id 7, whose number is 1, so its code is SPEC1-Y1-G1; storing group G1 for year id 1 then derives the same code and breaks the unique index on `code` | plausibly one code rule for both, from the year's id; the seeder's own comment at line 32 names `year_number`, so that choice may be deliberate, and only the clash itself is certain | low, not executed | GroupSeeder.SeederCodeBlocksStore | GroupSeeder.SeedGroups |
| app/Http/Controllers/Api/Admin/AdminScheduleImagesController.php:108-131 | the new scan is stored first; then the old record's file is deleted, even when its path is the one just written | two uploads for semester 3 within the same second, both with the extension jpg: the second deletes its own file, and the record names a missing file | delete the old file only when it is another file | medium, not executed | AdminScheduleImages.ReuploadDeletesItself | AdminScheduleImages.DiskAfterStore |
| app/Http/Controllers/Api/Admin/AdminPlanningsController.php:54-59 | `image_path` is passed to `Planning::create`, but it is not in the model's `$fillable` (app/Models/Planning.php:11-15), so mass assignment drops it | storing a planning with an image: the file is on the disk and the new planning has no image | record the stored image on the new planning | high, not executed | AdminPlannings.StoreLosesImage | AdminPlannings.NewPlanning |
