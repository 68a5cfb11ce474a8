# ELibrarySystem records core in Dafny

This project models the business rules inside the ELibrarySystem controllers
and proves properties about them. ELibrarySystem is an ASP.NET MVC
application that manages schools, standards (grade levels), divisions
(sections), students, teachers and their login credentials (`SchoolUser`).

The model covers:

- **Login names.** `GenerateUsername` builds a four-character name part and a
  one- to four-character number part.
- **Create, edit and delete.** These are the student and teacher form
  screens. A create is two separate saves: the person, then the credential.
- **Spreadsheet imports.** The student and teacher imports are folds over
  the parsed rows. Each one carries the database's rejection of a save from
  one row to the next.
- **List screens.** These cover the school filter, the substring search,
  newest-first order, page clamping, ten rows per page, serial numbers and
  the username dictionary. They also cover inline update, the delete that
  removes a person together with their credentials, and the rows of the
  spreadsheet export.
- **Database rules.** The store enforces the constraints that
  `AppDbContext` declares: unique login names, unique school codes, at most
  one credential per student, and foreign keys. Deletes cascade or set the
  reference to null, as the context declares.

## Layout

| file | module | contents |
|---|---|---|
| `tables.dfy` | `Tables` | keyed rows, lookup, filter, replace, `FirstOrDefault` |
| `text.dfy` | `Text` | ASCII lower-casing, padding, substring search, decimal rendering of `long` |
| `username.dfy` | `Username` | `GenerateUsername` and its call-site phone conventions |
| `entities.dfy` | `Entities` | the records: school, standard, division, student, teacher, credential |
| `database.dfy` | `Database` | the store, its constraints, school code and name lookups, checked inserts, declarative and application deletes |
| `paging.dfy` | `Paging` | page count, clamping, skip/take, serial numbers |
| `uploads.dfy` | `Uploads` | uploaded sheet, import loop state, import outcome |
| `student_controller.dfy` | `StudentController` | student create, edit, delete, import |
| `teacher_controller.dfy` | `TeacherController` | teacher create, edit, delete, import |
| `student_list.dfy` | `StudentList` | student listing, inline update, delete, export rows |
| `teacher_list.dfy` | `TeacherList` | teacher listing, inline update, delete, export rows |

### Modelling choices

- **Tables and order.**
  - A table is a sequence of `(id, record)` rows in insertion order.
  - Keys come from one identity counter, so every table is in strictly
    ascending key order.
  - Rows fetched without `OrderBy` are taken to come in that order (see
    "Left out").
  - `OrderByDescending(id)` is the reverse of the filtered table.
- **Saves.**
  - Every save is checked against the constraints the database enforces.
  - A violation is a rejected save, which leaves the store unchanged.
  - `Valid` is the conjunction of those constraints, and every modelled
    write and delete is proved to keep it.
- **Rejected saves inside an import.**
  - A rejected save leaves its entity pending in the request's unit of work,
    so every later save of the same request is rejected too.
  - The import state records this as `failed`.
  - For students this never happens on a valid store whose selected school
    exists (`StudentController.ImportRowSucceeds`).
  - For teachers it does happen; see Findings.
- **Number-to-text conversions.**
  - Create a student: `FatherNumber.ToString()` gives "" for a missing
    number, so the number part becomes "0000".
  - Create a teacher and both imports: `number?.ToString() ?? "0000"`.
  - The two conventions always yield the same login name.
- **Two consequences of the code worth stating.**
  - The list is newest first but the export is in fetch order, so the
    unfiltered export is the list reversed
    (`StudentList.ExportReversesList`).
  - The declared set-null delete of the form screens leaves a credential
    that references nobody (`Database.DeleteStudentOrphansCredential`).

## Model

| member | source | states |
|---|---|---|
| Username.NamePart | ELibrarySystem/Controllers/StudentController.cs:344-346 | the name part has exactly four characters: character i is the lower-cased i-th character of the name, or 'x' past its end |
| Username.DigitPart | ELibrarySystem/Controllers/StudentController.cs:349-353 | the number part has 1 to 4 characters: "0000" for empty phone text, otherwise the first min(length, 4) characters of the phone text |
| Username.GenerateUsername | ELibrarySystem/Controllers/StudentController.cs:341-354 | a login name is 5 to 8 characters long: its first four characters are the name part and the rest is the number part |
| Username.UsernameEqualIff | ELibrarySystem/Controllers/StudentController.cs:341-354 | two derived names are equal exactly when their name parts and their number parts are equal |
| Username.UsernameIgnoresTail | ELibrarySystem/Controllers/TeacherController.cs:286-299 | characters after the fourth of the name or of the phone text never change the login name |
| Username.NamePartIsLowerCase | ELibrarySystem/Controllers/StudentController.cs:344-346 | the name part holds no upper-case ASCII letter |
| Username.DigitPartOfNumberIsNumeric | ELibrarySystem/Controllers/TeacherController.cs:405 | for a non-negative phone number every character after the name part is a decimal digit |
| Username.PhoneConventionsAgree | ELibrarySystem/Controllers/StudentController.cs:83 | `ToString()` of a missing number and `?? "0000"` derive the same login name, and a missing number gives the number part "0000" |
| Username.UsernameExamples | ELibrarySystem/Controllers/StudentController.cs:341-354 | "Anjali"/"9876543210" gives "anja9876", "Al"/"" gives "alxx0000", ""/"55" gives "xxxx55" |
| Tables.FindIff | ELibrarySystem/Controllers/StudentController.cs:319 | a lookup by key finds a record exactly when a row has that key, and the record found is that row's |
| Tables.FirstWhere | ELibrarySystem/Controllers/StudentController.cs:532 | nothing is found exactly when no element satisfies the condition; otherwise the result is the first element that does |
| Tables.ToDictionary | ELibrarySystem/Controllers/StudentListController.cs:66 | a built dictionary maps every element's key to that element and has no other keys |
| Tables.ToDictionaryFailsIff | ELibrarySystem/Controllers/TeacherListController.cs:63 | building the dictionary fails exactly when two elements share a key |
| Database.AddSchoolKeepsValid | ELibrarySystem/Data/AppDbContext.cs:26-28 | a school insert accepted by the unique code index keeps every constraint, including unique school codes |
| Database.AddStudentKeepsValid | ELibrarySystem/Data/AppDbContext.cs:39-56 | a student insert accepted by its three foreign keys keeps every constraint |
| Database.AddTeacherKeepsValid | ELibrarySystem/Data/AppDbContext.cs:30-37 | a teacher insert accepted by its school foreign key keeps every constraint |
| Database.AddUserKeepsValid | ELibrarySystem/Data/AppDbContext.cs:66-86 | a credential insert accepted by the unique username index, the one-to-one student key and the foreign keys keeps every constraint |
| Database.AddStandardKeepsValid | ELibrarySystem/Data/AppDbContext.cs:58-60 | adding a standard, which has no foreign key, keeps every constraint |
| Database.AddDivisionKeepsValid | ELibrarySystem/Data/AppDbContext.cs:62-64 | adding a division, which has no foreign key, keeps every constraint |
| Database.SaveStudentKeepsValid | ELibrarySystem/Data/AppDbContext.cs:39-56 | an update of a student accepted by its three foreign keys keeps every constraint |
| Database.SaveTeacherKeepsValid | ELibrarySystem/Data/AppDbContext.cs:30-37 | an update of a teacher accepted by its school foreign key keeps every constraint |
| Database.DeleteStudentEffect | ELibrarySystem/Data/AppDbContext.cs:77-81 | deleting a student removes exactly that student row; every credential stays in place with the student reference cleared where it named the student, and schools, standards, divisions, teachers and the key counter are unchanged |
| Database.DeleteStudentOrphansCredential | ELibrarySystem/Data/AppDbContext.cs:77-81 | a student credential outlives its student and afterwards references no person |
| Database.DeleteTeacherEffect | ELibrarySystem/Data/AppDbContext.cs:82-86 | deleting a teacher removes exactly that teacher row; every credential stays in place with only a reference to that teacher cleared, and schools, standards, divisions, students and the key counter are unchanged |
| Database.DeleteTeacherOrphansCredential | ELibrarySystem/Data/AppDbContext.cs:82-86 | a teacher credential outlives its teacher and afterwards references no person |
| Database.DeleteSchoolEffect | ELibrarySystem/Data/AppDbContext.cs:33-86 | deleting a school removes it and exactly the students, teachers and credentials of that school; every other credential stays in order with only its references to removed students and teachers cleared; standards, divisions and the key counter are unchanged |
| Database.DeleteStandardEffect | ELibrarySystem/Data/AppDbContext.cs:47-51 | deleting a standard removes exactly the students in it; every credential stays in place with only a reference to a removed student cleared; schools, divisions, teachers and the key counter are unchanged |
| Database.DeleteDivisionEffect | ELibrarySystem/Data/AppDbContext.cs:52-56 | deleting a division removes exactly the students in it; every credential stays in place with only a reference to a removed student cleared; schools, standards, teachers and the key counter are unchanged |
| Database.DeleteStudentKeepsValid | ELibrarySystem/Data/AppDbContext.cs:77-81 | the set-null delete of a student keeps every constraint |
| Database.DeleteTeacherKeepsValid | ELibrarySystem/Data/AppDbContext.cs:82-86 | the set-null delete of a teacher keeps every constraint |
| Database.DeleteStandardKeepsValid | ELibrarySystem/Data/AppDbContext.cs:47-51 | the cascade from a standard to its students keeps every constraint |
| Database.DeleteDivisionKeepsValid | ELibrarySystem/Data/AppDbContext.cs:52-56 | the cascade from a division to its students keeps every constraint |
| Database.DeleteSchoolKeepsValid | ELibrarySystem/Data/AppDbContext.cs:33-86 | the cascade from a school to its teachers, students and credentials keeps every constraint |
| Database.PurgeStudentEffect | ELibrarySystem/Controllers/StudentListController.cs:180-200 | removing a student with its credentials drops exactly that student row and exactly the credentials that name it; the other tables and the key counter are unchanged |
| Database.PurgeStudentKeepsValid | ELibrarySystem/Controllers/StudentListController.cs:180-200 | removing a student with its credentials keeps every constraint |
| Database.PurgeTeacherEffect | ELibrarySystem/Controllers/TeacherListController.cs:167-187 | removing a teacher with its credentials drops exactly that teacher row and exactly the credentials that name it; the other tables and the key counter are unchanged |
| Database.PurgeTeacherKeepsValid | ELibrarySystem/Controllers/TeacherListController.cs:167-187 | removing a teacher with its credentials keeps every constraint |
| Paging.TotalPages | ELibrarySystem/Controllers/StudentListController.cs:51-52 | the page count is the least r with 10·r ≥ count, and it is zero exactly when there are no rows |
| Paging.ClampPage | ELibrarySystem/Controllers/StudentListController.cs:54-55 | the page is at least 1 and at most the page count when there are pages; an in-range page is kept, a page below 1 becomes 1 and a page past the last becomes the last |
| Paging.ClampPageIdempotent | ELibrarySystem/Controllers/StudentListController.cs:54-55 | clamping an already clamped page changes nothing |
| Paging.Page | ELibrarySystem/Controllers/StudentListController.cs:57-61 | a page holds at most 10 rows, exactly min(10, n − (p−1)·10) when that is positive, and row i is row (p−1)·10+i of the ordered rows |
| Paging.Paginate | ELibrarySystem/Controllers/TeacherListController.cs:48-58 | the shown page is at least 1, holds at most 10 rows taken in order from offset (page−1)·10, and reports the count and the page count |
| Paging.EveryRowOnSomePage | ELibrarySystem/Controllers/StudentListController.cs:51-80 | row k lies on in-range page k/10+1 at position k%10 and gets serial number k+1 |
| Paging.PagesInRangeAreFilled | ELibrarySystem/Controllers/StudentListController.cs:51-61 | every in-range page is non-empty and every page but the last is full |
| Paging.PagingExample | ELibrarySystem/Controllers/TeacherListController.cs:48-58 | 25 rows give 3 pages, the third holds 5 rows, page 4 clamps to 3 and page 0 to 1 |
| Database.SchoolCodeOf | ELibrarySystem/Controllers/StudentController.cs:86-87 | the school code is "" for a missing school and otherwise the code of the school with that key |
| StudentController.StudentCredential | ELibrarySystem/Controllers/StudentController.cs:90-99 | a created student credential has the selected school, that school's code, the derived username, role "Student", password "1111", the student's key and no teacher |
| StudentController.Create | ELibrarySystem/Controllers/StudentController.cs:26-129 | the form is rejected exactly when validation fails or a selection is not positive; otherwise the student is rejected exactly when a reference dangles; once saved, the student is appended under the next key, the credential is appended exactly as built or not at all, and schools, standards, divisions and teachers are unchanged |
| StudentController.CreateOutcomes | ELibrarySystem/Controllers/StudentController.cs:57-102 | on a valid store, after a saved student the credential is saved exactly when its derived name is free and rejected exactly when it is taken |
| StudentController.CreateKeepsValid | ELibrarySystem/Controllers/StudentController.cs:57-102 | every outcome of create leaves a valid store |
| StudentController.Edit | ELibrarySystem/Controllers/StudentController.cs:229-283 | differing ids, a missing student and a dangling selection are reported exactly; an update writes every field of that student only and leaves credentials, schools, standards, divisions, teachers and the key counter unchanged |
| StudentController.EditKeepsValid | ELibrarySystem/Controllers/StudentController.cs:229-283 | a successful edit leaves a valid store |
| StudentController.DeleteConfirmed | ELibrarySystem/Controllers/StudentController.cs:315-339 | a missing id changes nothing; otherwise exactly that student row goes, every credential stays in place with only a reference to the student cleared, and the other tables and the key counter are unchanged |
| StudentController.StandardIdByName | ELibrarySystem/Controllers/StudentController.cs:530-534 | the key is 0 when no standard has the name, otherwise the key of a standard with exactly that name |
| StudentController.DivisionIdByName | ELibrarySystem/Controllers/StudentController.cs:536-540 | the key is 0 when no division has the name, otherwise the key of a division with exactly that name |
| StudentController.SaveCredential | ELibrarySystem/Controllers/StudentController.cs:467-495 | a saved student is counted; a taken name leaves the credentials unchanged and the import going; otherwise the credential is appended as built or the import is marked failed; on success the name is taken afterwards |
| StudentController.ImportRow | ELibrarySystem/Controllers/StudentController.cs:461-495 | a row adds at most one student of the selected school and at most one credential; an unresolved row or a failed import changes nothing |
| StudentController.ImportRows | ELibrarySystem/Controllers/StudentController.cs:418-505 | the loop only appends students of the selected school and their credentials, counts one per added student, and does nothing once failed |
| StudentController.ImportStudents | ELibrarySystem/Controllers/StudentController.cs:398-525 | no school or no file is a bad request and an unreadable file a read failure; otherwise the count equals the number of students added, all in the selected school |
| StudentController.SkippedRowChangesNothing | ELibrarySystem/Controllers/StudentController.cs:461-465 | a row whose standard or division is unknown changes neither the store nor the count |
| StudentController.ImportRowSucceeds | ELibrarySystem/Controllers/StudentController.cs:467-495 | on a valid store with the school present, no save is rejected, a resolving row is counted and its derived name is taken afterwards |
| StudentController.ImportRowAccepted | ELibrarySystem/Controllers/StudentController.cs:461-495 | on a valid store with the school present, a row never marks the import failed; it is counted exactly when it resolves, and then its derived name is taken |
| StudentController.ImportRowKeepsValid | ELibrarySystem/Controllers/StudentController.cs:461-495 | on a valid store with the school present, one row of the import leaves a valid store |
| StudentController.CredentialInsertable | ELibrarySystem/Controllers/StudentController.cs:481-495 | right after a student is saved, a credential with a free name is accepted by every constraint |
| StudentController.ImportCountsResolvingRows | ELibrarySystem/Controllers/StudentController.cs:461-469 | on a valid store with the school present, the count is the number of rows whose standard and division resolve |
| StudentController.ImportIntoMissingSchool | ELibrarySystem/Controllers/StudentController.cs:467-469 | importing into a school that does not exist changes nothing and counts nothing |
| StudentController.NoCredentialsWhenNamesTaken | ELibrarySystem/Controllers/StudentController.cs:475-479 | when every resolving row's derived name is already taken, no credential is added |
| StudentController.NamesTakenAfterImport | ELibrarySystem/Controllers/StudentController.cs:472-495 | after the import every resolving row's derived name belongs to some credential |
| StudentController.ReimportAddsStudentsButNoCredentials | ELibrarySystem/Controllers/StudentController.cs:467-479 | importing the same sheet twice adds the students again and counts them again, but adds no credential the second time |
| StudentController.CreateAndImportNamesAgree | ELibrarySystem/Controllers/StudentController.cs:472 | create and import derive the same login name for the same student |
| TeacherController.TeacherCredential | ELibrarySystem/Controllers/TeacherController.cs:70-79 | a created teacher credential has the selected school, that school's code, the derived username, role "Teacher", password "1111", the teacher's key and no student |
| TeacherController.Create | ELibrarySystem/Controllers/TeacherController.cs:25-107 | the form is rejected exactly when validation fails or the school is not positive; the teacher is rejected exactly when the school is missing; once saved, the teacher is appended under the next key, the credential is appended exactly as built or not at all, and schools, standards, divisions and students are unchanged |
| TeacherController.CredentialInsertable | ELibrarySystem/Controllers/TeacherController.cs:69-82 | right after a teacher is saved, its credential is accepted exactly when the name is free |
| TeacherController.CreateOutcomes | ELibrarySystem/Controllers/TeacherController.cs:44-82 | on a valid store, after a saved teacher the credential is saved exactly when its derived name is free and rejected exactly when it is taken |
| TeacherController.CreateKeepsValid | ELibrarySystem/Controllers/TeacherController.cs:44-82 | every outcome of create leaves a valid store |
| TeacherController.Edit | ELibrarySystem/Controllers/TeacherController.cs:184-229 | differing ids, a missing teacher and a missing school are reported exactly; an update writes every field of that teacher only and leaves credentials, schools, standards, divisions, students and the key counter unchanged |
| TeacherController.EditKeepsValid | ELibrarySystem/Controllers/TeacherController.cs:184-229 | a successful edit leaves a valid store |
| TeacherController.DeleteConfirmed | ELibrarySystem/Controllers/TeacherController.cs:259-283 | a missing id changes nothing; otherwise exactly that teacher row goes, every credential stays in place with only a reference to the teacher cleared, and the other tables and the key counter are unchanged |
| TeacherController.ImportUsername | ELibrarySystem/Controllers/TeacherController.cs:405-412 | the name is the base name exactly when no Teacher-role credential holds it, and otherwise the base name followed by the teacher's key |
| TeacherController.SaveCredential | ELibrarySystem/Controllers/TeacherController.cs:414-439 | the saved teacher is counted; the credential is appended exactly when the database accepts it, otherwise the import is marked failed and the credentials are unchanged |
| TeacherController.ImportRow | ELibrarySystem/Controllers/TeacherController.cs:400-439 | a row adds at most one teacher, of the selected school and with the row's fields, and at most one credential; a failed import changes nothing; a row without a rejected save is counted |
| TeacherController.ImportRows | ELibrarySystem/Controllers/TeacherController.cs:365-440 | the loop only appends teachers of the selected school and their credentials, does nothing once failed, and counts every row when no save was rejected |
| TeacherController.ImportedArePrefix | ELibrarySystem/Controllers/TeacherController.cs:365-440 | the added teachers are the first rows of the sheet, in sheet order |
| TeacherController.ImportRowKeepsValid | ELibrarySystem/Controllers/TeacherController.cs:400-439 | one row of the import, saved or rejected, leaves a valid store |
| TeacherController.ImportTeachers | ELibrarySystem/Controllers/TeacherController.cs:345-461 | no school or no file is a bad request and an unreadable file a read failure; otherwise the count equals the number of teachers added, at most the number of rows |
| TeacherController.ImportKeepsValid | ELibrarySystem/Controllers/TeacherController.cs:365-440 | the import leaves a valid store |
| TeacherController.ImportIntoMissingSchool | ELibrarySystem/Controllers/TeacherController.cs:400-402 | importing into a school that does not exist changes nothing and counts nothing |
| TeacherController.ImportRowOutcome | ELibrarySystem/Controllers/TeacherController.cs:400-431 | on a valid store with the school present, the row's teacher is appended and counted, and the credential is rejected exactly when the chosen name is taken by any credential |
| TeacherController.StudentHolderStopsImport | ELibrarySystem/Controllers/TeacherController.cs:405-439 | a base name held only by a Student-role credential gets past the check; the teacher is counted, its credential rejected, and no later row imports anything |
| TeacherController.AppendedNamesDistinct | ELibrarySystem/Controllers/TeacherController.cs:411 | appending two different teacher keys to the same base name gives two different names |
| TeacherController.ImportRowsIsolated | ELibrarySystem/Controllers/TeacherController.cs:435-439 | the loop with a rejected credential dropped at the per-row catch only appends teachers of the selected school and their credentials |
| TeacherController.IsolatedImportCountsEveryRow | ELibrarySystem/Controllers/TeacherController.cs:435-439 | with rows isolated, on a valid store with the school present, every row adds its teacher and is counted |
| TeacherController.IsolationDiffers | ELibrarySystem/Controllers/TeacherController.cs:405-439 | on a sheet whose first base name is held by a student, the loop as written counts one row and the isolated loop counts every row |
| StudentList.Matching | ELibrarySystem/Controllers/StudentListController.cs:38-49 | a student is selected exactly when it passes the school filter and an empty term, or when the term occurs in its name, admission number text or email |
| StudentList.ListOrderDescending | ELibrarySystem/Controllers/StudentListController.cs:57-58 | the list holds exactly the selected students, in strictly descending key order |
| Text.DecimalInjective | ELibrarySystem/Controllers/StudentListController.cs:47 | two admission numbers with the same decimal text are equal |
| Text.ParseInvertsNatToDecimal | ELibrarySystem/Controllers/StudentListController.cs:47 | reading back the decimal text of a non-negative number gives that number |
| StudentList.PageCredentials | ELibrarySystem/Controllers/StudentListController.cs:63-66 | the fetched credentials are exactly those whose `StudentId ?? 0` is the key of a student on the page |
| Text.NumberTextEmptyIff | ELibrarySystem/Controllers/StudentListController.cs:93 | a nullable number prints as "" exactly when it is missing |
| StudentList.Index | ELibrarySystem/Controllers/StudentListController.cs:27-125 | a listing reports the match count, its page count and the clamped page; it holds at most 10 items, and item i shows the student at offset (page−1)·10+i of the list order with serial number (page−1)·10+i+1 |
| StudentList.Items | ELibrarySystem/Controllers/StudentListController.cs:80-107 | one item per student on the page, in page order: item i shows student i with serial number (page−1)·10+i+1 and the dictionary's username for its key |
| StudentList.ListingIff | ELibrarySystem/Controllers/StudentListController.cs:63-124 | the listing is shown exactly when the username dictionary of the page can be built, and the error view otherwise |
| StudentList.ListNeverFails | ELibrarySystem/Controllers/StudentListController.cs:63-66 | on a valid store the username dictionary never meets a duplicate key, so the listing never falls back to the error view |
| StudentList.CredentialLookup | ELibrarySystem/Controllers/StudentListController.cs:63-86 | on a valid store the dictionary maps a shown student to its own credential's username, or to "" when it has none |
| StudentList.ItemShowsCredential | ELibrarySystem/Controllers/StudentListController.cs:80-89 | each listed item shows its student's login name, or "" when the student has no credential |
| StudentList.EveryStudentListed | ELibrarySystem/Controllers/StudentListController.cs:51-89 | the k-th selected student in list order appears on page k/10+1, at position k%10, with serial number k+1 |
| StudentList.ListedAt | ELibrarySystem/Controllers/StudentListController.cs:51-89 | whenever page k/10+1 lists, the k-th student in list order is item k%10 of that page with serial number k+1 |
| StudentList.UpdateStudent | ELibrarySystem/Controllers/StudentListController.cs:129-172 | a missing body or a key ≤ 0 is invalid, an unknown key is not found, and an update changes no table but the students |
| StudentList.UpdateChangesOnlyDetails | ELibrarySystem/Controllers/StudentListController.cs:138-161 | an update replaces only the content fields of that student and keeps its school, standard and division whatever was posted; other students are unchanged |
| StudentList.UpdateKeepsValid | ELibrarySystem/Controllers/StudentListController.cs:144-161 | an update leaves a valid store |
| StudentList.DeleteStudent | ELibrarySystem/Controllers/StudentListController.cs:176-211 | a missing key changes nothing; otherwise exactly that student row and exactly the credentials that name it go, and schools, standards, divisions, teachers and the key counter stay |
| StudentList.DeleteFreesUsername | ELibrarySystem/Controllers/StudentListController.cs:186-200 | after the delete the store is valid and the student's login name is free again |
| StudentList.ExportUsernameLookup | ELibrarySystem/Controllers/StudentListController.cs:261-266 | the export shows "" for a student without a credential and, when each student has at most one credential, the username of the credential that names it |
| StudentList.SchoolStudents | ELibrarySystem/Controllers/StudentListController.cs:219-230 | the exported students are exactly those passing the school filter |
| StudentList.ExportRows | ELibrarySystem/Controllers/StudentListController.cs:258-281 | one export row per school-filtered student, numbered from 1 |
| StudentList.ExportLines | ELibrarySystem/Controllers/StudentListController.cs:258-281 | one export row per fetched student, in fetch order, and row i is numbered i+1 |
| StudentList.UnsearchedListReversesExport | ELibrarySystem/Controllers/StudentListController.cs:38-58 | with an empty search term the list order is exactly the exported students in reverse order |
| StudentList.ExportReversesList | ELibrarySystem/Controllers/StudentListController.cs:215-281 | the export rows are the rows of the unsearched list order read backwards, numbered from 1 in that order |
| StudentList.ExportAndListAgree | ELibrarySystem/Controllers/StudentListController.cs:258-264 | on a valid store the export and the listing show the same login name for a student |
| TeacherList.Matching | ELibrarySystem/Controllers/TeacherListController.cs:36-46 | a teacher is selected exactly when it passes the school filter and the term is empty or occurs in its name or email |
| TeacherList.ListOrderDescending | ELibrarySystem/Controllers/TeacherListController.cs:54-55 | the list holds exactly the selected teachers, in strictly descending key order |
| TeacherList.PageCredentials | ELibrarySystem/Controllers/TeacherListController.cs:60-63 | the fetched credentials are exactly those whose `TeacherId ?? 0` is the key of a teacher on the page |
| TeacherList.Index | ELibrarySystem/Controllers/TeacherListController.cs:27-117 | a listing reports the match count, its page count and the clamped page; it holds at most 10 items, and item i shows the teacher at offset (page−1)·10+i of the list order with serial number (page−1)·10+i+1 |
| TeacherList.Items | ELibrarySystem/Controllers/TeacherListController.cs:77-99 | one item per teacher on the page, in page order: item i shows teacher i with serial number (page−1)·10+i+1 and the dictionary's username for its key |
| TeacherList.ListingIff | ELibrarySystem/Controllers/TeacherListController.cs:60-116 | the listing is shown exactly when the username dictionary of the page can be built, and the error view otherwise |
| TeacherList.DuplicateKeyIff | ELibrarySystem/Controllers/TeacherListController.cs:60-63 | building the dictionary fails exactly when a teacher on the page has two credentials |
| TeacherList.DuplicateMeansShared | ELibrarySystem/Controllers/TeacherListController.cs:60-63 | two fetched credentials with the same key mean that some teacher on the page has two credentials |
| TeacherList.SharedMeansDuplicate | ELibrarySystem/Controllers/TeacherListController.cs:60-63 | a teacher on the page with two credentials makes two fetched credentials share a key |
| TeacherList.CredentialLookup | ELibrarySystem/Controllers/TeacherListController.cs:60-82 | once the dictionary is built on a valid store, it maps a shown teacher to its credential's username, or to "" when it has none |
| TeacherList.ListFailsIff | ELibrarySystem/Controllers/TeacherListController.cs:27-117 | on a valid store the listing shows the error view exactly when a teacher on the requested page has two credentials |
| TeacherList.ItemShowsCredential | ELibrarySystem/Controllers/TeacherListController.cs:77-86 | each item of a listing shows its teacher's login name, or "" when the teacher has no credential |
| TeacherList.EveryTeacherListed | ELibrarySystem/Controllers/TeacherListController.cs:48-86 | unless a teacher on its page has two credentials, the k-th selected teacher appears on page k/10+1, at position k%10, with serial number k+1 |
| TeacherList.ListedAt | ELibrarySystem/Controllers/TeacherListController.cs:48-86 | whenever page k/10+1 lists, the k-th teacher in list order is item k%10 of that page with serial number k+1 |
| TeacherList.UpdateTeacher | ELibrarySystem/Controllers/TeacherListController.cs:121-159 | a missing body or a key ≤ 0 is invalid, an unknown key is not found, and an update changes no table but the teachers: schools, standards, divisions, students, credentials and the key counter stay |
| TeacherList.UpdateChangesOnlyDetails | ELibrarySystem/Controllers/TeacherListController.cs:130-148 | an update replaces only the content fields of that teacher and keeps its school whatever was posted; other teachers are unchanged |
| TeacherList.UpdateKeepsValid | ELibrarySystem/Controllers/TeacherListController.cs:136-148 | an update leaves a valid store |
| TeacherList.DeleteTeacher | ELibrarySystem/Controllers/TeacherListController.cs:163-198 | a missing key changes nothing; otherwise exactly that teacher row and exactly the credentials that name it go, and schools, standards, divisions, students and the key counter stay |
| TeacherList.DeleteFreesUsernames | ELibrarySystem/Controllers/TeacherListController.cs:173-187 | after the delete the store is valid, no credential names the teacher, and each of its login names is free again |
| TeacherList.ExportUsernameLookup | ELibrarySystem/Controllers/TeacherListController.cs:241-246 | the export shows "" for a teacher without a credential, and otherwise the username of the first credential, in fetch order, that names it |
| TeacherList.SchoolTeachers | ELibrarySystem/Controllers/TeacherListController.cs:206-215 | the exported teachers are exactly those passing the school filter |
| TeacherList.ExportRows | ELibrarySystem/Controllers/TeacherListController.cs:238-256 | one export row per school-filtered teacher, numbered from 1 |
| TeacherList.ExportLines | ELibrarySystem/Controllers/TeacherListController.cs:238-256 | one export row per fetched teacher, in fetch order, and row i is numbered i+1 |
| TeacherList.UnsearchedListReversesExport | ELibrarySystem/Controllers/TeacherListController.cs:36-55 | with an empty search term the list order is exactly the exported teachers in reverse order |
| TeacherList.ExportReversesList | ELibrarySystem/Controllers/TeacherListController.cs:202-256 | the export rows are the rows of the unsearched list order read backwards, numbered from 1 in that order |

## Left out

- Spreadsheet and PDF encoding: workbooks, fonts, styling and column widths are not modelled. The PDF and template exports are left out, and an export is modelled as its sequence of data rows.
- Cell parsing: `GetLongValue` and `GetDateValue` truncate floating point and call .NET parsers. An imported row arrives already parsed, with optional numbers and dates.
- Dates and clocks: `CreatedDate`, the `dd/MM/yyyy` rendering of a date of birth, and the date in export file names are not modelled. Dates are carried through unformatted.
- Collation: the database collation decides how text compares. It may ignore case and trailing blanks in the search (`Contains`), in the standard and division lookups by name, in the username checks of create and import, and in the unique indexes on usernames and school codes. The model compares text exactly everywhere, so a sheet cell "Grade 1 " that the database would match to "Grade 1" is an unknown standard here.
- Culture: `ToLower` is culture-sensitive. The model lower-cases ASCII letters only.
- NamePart: C# `Length`, `Substring(0, 4)` and `PadRight(4, 'x')` count UTF-16 code units, while the model's strings count Unicode characters. A name with a character outside the Basic Multilingual Plane therefore gets a different name part: "𝒜bc" gives "𝒜bc" in C# (two code units for "𝒜") and "𝒜bcx" here, and "Ana😀" gives "ana" plus a lone surrogate in C# and "ana😀" here.
- GenerateUsername: for the same reason, the length bound of five to eight characters holds in Unicode characters, not in UTF-16 code units, and the login name differs from the C# one for names with characters outside the Basic Multilingual Plane.
- Null names: `GenerateUsername` throws on a null name. Strings in the model are never null, and a missing text field reads as "".
- Field validation: `[Required]` and `[StringLength]` annotations are not modelled. Their verdict is an input to create, `fieldsValid`. Column lengths are not enforced on saves.
- Integer widths: numbers are unbounded. The `long` range is not modelled, and neither is the 32-bit `int` arithmetic of the list screens: a page number above 214748365 makes `(pageNumber - 1) * pageSize` overflow, which the database rejects as a negative offset, so the error view is shown where the model gives an empty listing.
- Fetch order: rows fetched without `OrderBy` (the exports, `FirstOrDefault`) are assumed to come in ascending key order. The database does not guarantee any order without `ORDER BY`, so `StudentList.UnsearchedListReversesExport`, `TeacherList.UnsearchedListReversesExport`, both `ExportReversesList` lemmas and the "first credential" of `TeacherList.ExportUsernameLookup` hold under that assumption only.
- Identity values: the model draws every key from one counter shared by all tables and spends no value on a rejected insert. The database has one identity per table and a rejected insert still uses up its value, so concrete keys differ, and with them the key the teacher import appends to a taken login name.
- Framework plumbing: view rendering, TempData and ViewBag messages, dropdown reloading, logging, the column-visibility session and the `GetStudentDetails` and `GetTeacherDetails` JSON endpoints are not modelled.
- `StudentController.ListStudents` is an unclamped copy of the list logic and is not modelled. `AdminController` (dashboard counts) is not part of this model.
- Exceptions outside the modelled constraints (a lost connection, a null delete request) are not modelled. Each modelled error path is a constraint the database enforces, or the duplicate key in the list's username dictionary.
- Concurrency: two requests racing on the unique username index are not modelled. Each request runs against one store state.
- The school dropdown on the list screens (all schools ordered by name) is not modelled.
- StudentList.UpdateChangesOnlyDetails, TeacherList.UpdateChangesOnlyDetails: stated for a table with unique keys, which every reachable store has.

## Findings

| source | as written | input that shows it | evidently intended | confidence | as-written member | corrected member |
|---|---|---|---|---|---|---|
| ELibrarySystem/Controllers/TeacherController.cs:405-439 | The collision check looks only at Teacher-role usernames. A base name held by a Student-role credential is used as is, so the credential insert violates the unique username index. The rejected credential stays pending in the request's unit of work, so every later `SaveChangesAsync` of the import fails too. | A sheet whose first row's base name is already a student's login name: that teacher is saved without a credential, and none of the following rows is imported. | Each row is handled on its own, as the per-row catch says ("skip row, don't break whole loop"): a rejected credential costs only that row's credential, and later rows are imported. | medium, not executed | TeacherController.IsolationDiffers | TeacherController.IsolatedImportCountsEveryRow |
