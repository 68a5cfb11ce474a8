/** The student form screens: create (student row, then its credential),
    edit, delete, and the spreadsheet import. */
module StudentController {
  import opened Tables
  import opened Username
  import opened Entities
  import opened Database
  import opened Uploads

  // ---------------------------------------------------------------------
  // Create

  /** The fields the create and edit forms post. */
  datatype StudentForm = StudentForm(
    studentId: int,
    schoolId: int,
    standardId: int,
    divisionId: int,
    details: StudentDetails)

  /** `Invalid`: the form is shown again; `StudentRejected`: the student insert
      was rejected; `CredentialRejected`: the student was saved but its credential
      insert was rejected; `Created`: both were saved. */
  datatype CreateOutcome =
    | Invalid
    | StudentRejected
    | CredentialRejected(db: Store, studentId: int)
    | Created(db: Store, studentId: int, username: string)

  /** School, standard and division must each be selected (positive). */
  predicate SelectionsMade(form: StudentForm) {
    form.schoolId > 0 && form.standardId > 0 && form.divisionId > 0
  }

  function StudentOf(form: StudentForm): Student {
    Student(form.schoolId, form.standardId, form.divisionId, form.details)
  }

  /** The credential generated for a student. */
  function StudentCredential(db: Store, schoolId: int, studentId: int, username: string): (u: SchoolUser)
    ensures u.role == StudentRole && u.password == DefaultPassword
    ensures u.studentId == Some(studentId) && u.teacherId.None?
    ensures u.schoolId == schoolId && u.schoolCode == SchoolCodeOf(db.schools, schoolId)
    ensures u.username == username
  {
    SchoolUser(schoolId, SchoolCodeOf(db.schools, schoolId), Some(studentId), None, username, DefaultPassword, StudentRole)
  }

  /** Login name on the create screen: from the name and `FatherNumber.ToString()`. */
  function CreateUsername(d: StudentDetails): string {
    GenerateUsername(d.name, PhoneText(d.fatherNumber))
  }

  /** Create a student. `fieldsValid` is the outcome of the form's field
      annotations, which are not modelled. */
  function Create(db: Store, form: StudentForm, fieldsValid: bool): (r: CreateOutcome)
    ensures r.Invalid? <==> !(fieldsValid && SelectionsMade(form))
    ensures r.StudentRejected? <==> fieldsValid && SelectionsMade(form) && !StudentRefsResolve(db, StudentOf(form))
    ensures (r.CredentialRejected? || r.Created?) ==>
              r.studentId == db.nextId && r.db.students == db.students + [Row(r.studentId, StudentOf(form))]
    ensures (r.CredentialRejected? || r.Created?) ==>
              && r.db.schools == db.schools && r.db.standards == db.standards
              && r.db.divisions == db.divisions && r.db.teachers == db.teachers
    ensures r.CredentialRejected? ==> r.db.users == db.users
    ensures r.Created? ==>
              && r.username == CreateUsername(form.details)
              && !UsernameTaken(db.users, r.username)
              && r.db.users == db.users + [Row(r.db.nextId - 1, StudentCredential(db, form.schoolId, r.studentId, r.username))]
  {
    if !(fieldsValid && SelectionsMade(form)) then Invalid
    else match AddStudent(db, StudentOf(form))
      case Rejected => StudentRejected
      case Committed(db1, sid) =>
        var username := CreateUsername(form.details);
        assert StudentCredential(db1, form.schoolId, sid, username) == StudentCredential(db, form.schoolId, sid, username);
        match AddUser(db1, StudentCredential(db1, form.schoolId, sid, username))
        case Rejected => CredentialRejected(db1, sid)
        case Committed(db2, _) => Created(db2, sid, username)
  }

  /** The store a create leaves behind. */
  function CreatedStore(db: Store, r: CreateOutcome): Store {
    if r.CredentialRejected? || r.Created? then r.db else db
  }

  /** The form passes validation and the student insert is accepted. */
  predicate Saves(db: Store, form: StudentForm, fieldsValid: bool) {
    fieldsValid && SelectionsMade(form) && StudentRefsResolve(db, StudentOf(form))
  }

  /** In a valid store the credential insert fails exactly when the derived
      login name is already taken; the new student and its credential are
      the only rows added. */
  lemma CreateOutcomes(db: Store, form: StudentForm, fieldsValid: bool)
    requires Valid(db)
    ensures var r := Create(db, form, fieldsValid);
            && (r.Created? <==> Saves(db, form, fieldsValid) && !UsernameTaken(db.users, CreateUsername(form.details)))
            && (r.CredentialRejected? <==> Saves(db, form, fieldsValid) && UsernameTaken(db.users, CreateUsername(form.details)))
  {
    if Saves(db, form, fieldsValid) && !UsernameTaken(db.users, CreateUsername(form.details)) {
      CredentialInsertable(db, StudentOf(form), CreateUsername(form.details));
    }
  }

  lemma CreateKeepsValid(db: Store, form: StudentForm, fieldsValid: bool)
    requires Valid(db)
    ensures Valid(CreatedStore(db, Create(db, form, fieldsValid)))
  {
    if fieldsValid && SelectionsMade(form) && StudentRefsResolve(db, StudentOf(form)) {
      AddStudentKeepsValid(db, StudentOf(form));
      var db1 := AddStudent(db, StudentOf(form)).db;
      var u := StudentCredential(db1, form.schoolId, db.nextId, CreateUsername(form.details));
      var r := Create(db, form, fieldsValid);
      if AddUser(db1, u).Committed? {
        AddUserKeepsValid(db1, u);
        assert CreatedStore(db, r) == AddUser(db1, u).db;
      } else {
        assert CreatedStore(db, r) == db1;
      }
    } else {
      assert CreatedStore(db, Create(db, form, fieldsValid)) == db;
    }
  }

  // ---------------------------------------------------------------------
  // Edit and delete

  /** `InvalidId`: the route id and the form id differ; `NotFound`: no such
      student; `SaveRejected`: the save was rejected (a selection that names
      no row); `Updated`: saved. */
  datatype EditOutcome = InvalidId | NotFound | SaveRejected | Updated(db: Store)

  /** Edit overwrites every field of the student, the school, standard and
      division included. The student's credential is left as it was, so a
      student moved to another school keeps the old school and school code
      on its credential. */
  function Edit(db: Store, id: int, form: StudentForm): (r: EditOutcome)
    ensures r.InvalidId? <==> id != form.studentId
    ensures r.NotFound? <==> id == form.studentId && id !in Ids(db.students)
    ensures r.SaveRejected? <==> id == form.studentId && id in Ids(db.students) && !StudentRefsResolve(db, StudentOf(form))
    ensures r.Updated? ==> Ids(r.db.students) == Ids(db.students) && r.db.users == db.users
    ensures r.Updated? ==> r.db.schools == db.schools && r.db.teachers == db.teachers
    ensures r.Updated? ==> r.db.standards == db.standards && r.db.divisions == db.divisions && r.db.nextId == db.nextId
    ensures r.Updated? && Ascending(db.students) ==>
              && Find(r.db.students, id) == Some(StudentOf(form))
              && (forall k :: k != id ==> Find(r.db.students, k) == Find(db.students, k))
  {
    FindIff(db.students, id);
    if id != form.studentId then InvalidId
    else if Find(db.students, id).None? then NotFound
    else match SaveStudent(db, id, StudentOf(form))
      case None => SaveRejected
      case Some(db1) =>
        ReplaceEffect(db.students, id, StudentOf(form));
        Updated(db1)
  }

  lemma EditKeepsValid(db: Store, id: int, form: StudentForm)
    requires Valid(db)
    ensures Edit(db, id, form).Updated? ==> Valid(Edit(db, id, form).db)
  {
    if Edit(db, id, form).Updated? {
      SaveStudentKeepsValid(db, id, StudentOf(form));
      assert Edit(db, id, form).db == SaveStudent(db, id, StudentOf(form)).value;
    }
  }

  datatype DeleteOutcome = NoSuchStudent | Deleted(db: Store)

  /** Delete through the form screen: the database's declared delete
      behaviour applies, so the student's credential survives with its
      student reference cleared. */
  function DeleteConfirmed(db: Store, id: int): (r: DeleteOutcome)
    ensures r.NoSuchStudent? <==> id !in Ids(db.students)
    ensures r.Deleted? ==> Ids(r.db.students) == Ids(db.students) - {id} && |r.db.users| == |db.users|
    ensures r.Deleted? ==> forall u :: u in r.db.users ==> u.rec.studentId != Some(id)
    ensures r.Deleted? ==> forall x :: x in r.db.students <==> x in db.students && x.id != id
    ensures r.Deleted? ==> forall i :: 0 <= i < |db.users| ==>
              r.db.users[i] == Row(db.users[i].id,
                                   if db.users[i].rec.studentId == Some(id) then db.users[i].rec.(studentId := None)
                                   else db.users[i].rec)
    ensures r.Deleted? ==> r.db.schools == db.schools && r.db.standards == db.standards
    ensures r.Deleted? ==> r.db.divisions == db.divisions && r.db.teachers == db.teachers && r.db.nextId == db.nextId
  {
    FindIff(db.students, id);
    if Find(db.students, id).None? then NoSuchStudent
    else
      DeleteStudentEffect(db, id);
      Deleted(DeleteStudent(db, id))
  }

  // ---------------------------------------------------------------------
  // Import

  /** One parsed data row: the standard and division by name, the rest as
      the student's fields. */
  datatype StudentRow = StudentRow(standardName: string, divisionName: string, details: StudentDetails)

  /** `GetStandardId(name)`: the key of the first standard with that exact
      name, or 0. */
  function StandardIdByName(standards: Table<Standard>, name: string): (id: int)
    ensures (forall r :: r in standards ==> r.rec.name != name) ==> id == 0
    ensures (exists r :: r in standards && r.rec.name == name) ==> Row(id, Standard(name)) in standards
  {
    match FirstWhere(standards, (r: Row<Standard>) => r.rec.name == name)
    case Some(r) => r.id
    case None => 0
  }

  /** `GetDivisionId(name)`: the key of the first division with that exact
      name, or 0. */
  function DivisionIdByName(divisions: Table<Division>, name: string): (id: int)
    ensures (forall r :: r in divisions ==> r.rec.name != name) ==> id == 0
    ensures (exists r :: r in divisions && r.rec.name == name) ==> Row(id, Division(name)) in divisions
  {
    match FirstWhere(divisions, (r: Row<Division>) => r.rec.name == name)
    case Some(r) => r.id
    case None => 0
  }

  /** Both names of the row resolve; otherwise the row is skipped. */
  predicate Resolves(db: Store, row: StudentRow) {
    StandardIdByName(db.standards, row.standardName) != 0 && DivisionIdByName(db.divisions, row.divisionName) != 0
  }

  /** Login name on import: from the name and `FatherNumber?.ToString() ?? "0000"`. */
  function ImportUsername(d: StudentDetails): string {
    GenerateUsername(d.name, PhoneTextOrDefault(d.fatherNumber))
  }

  /** What every credential the import generates looks like. */
  predicate IsImportCredential(u: SchoolUser, sel: int, firstNewId: int) {
    && u.schoolId == sel
    && u.role == StudentRole && u.password == DefaultPassword
    && u.studentId.Some? && u.studentId.value >= firstNewId && u.teacherId.None?
  }

  /** How the loop state may change between two points of the row loop:
      reference tables and teachers untouched, students and credentials only
      appended, one student per counted row, at most one credential per
      counted row, every new student in school `sel` and every new credential
      a student credential of that school for a new student. */
  predicate Grew(p: Progress, q: Progress, sel: int) {
    && q.db.schools == p.db.schools && q.db.standards == p.db.standards
    && q.db.divisions == p.db.divisions && q.db.teachers == p.db.teachers
    && q.db.nextId >= p.db.nextId
    && Extends(q.db.students, p.db.students) && Extends(q.db.users, p.db.users)
    && q.imported - p.imported == |q.db.students| - |p.db.students|
    && |q.db.users| - |p.db.users| <= q.imported - p.imported
    && (forall i :: |p.db.students| <= i < |q.db.students| ==> q.db.students[i].rec.schoolId == sel)
    && (forall i :: |p.db.users| <= i < |q.db.users| ==> IsImportCredential(q.db.users[i].rec, sel, p.db.nextId))
  }

  lemma GrewTrans(p: Progress, p1: Progress, q: Progress, sel: int)
    requires Grew(p, p1, sel) && Grew(p1, q, sel)
    ensures Grew(p, q, sel)
  {
    ExtendsTrans(q.db.students, p1.db.students, p.db.students);
    ExtendsTrans(q.db.users, p1.db.users, p.db.users);
    forall i | |p.db.users| <= i < |p1.db.users| ensures q.db.users[i] == p1.db.users[i] {
      assert q.db.users[..|p1.db.users|][i] == q.db.users[i];
    }
    forall i | |p.db.students| <= i < |p1.db.students| ensures q.db.students[i] == p1.db.students[i] {
      assert q.db.students[..|p1.db.students|][i] == q.db.students[i];
    }
  }

  /** The credential step of a row whose student was saved as `sid`: skipped
      when the login name is already taken, otherwise inserted. */
  function SaveCredential(p: Progress, db1: Store, sel: int, s: Student, sid: int, username: string): (q: Progress)
    requires db1.students == p.db.students + [Row(sid, s)] && s.schoolId == sel
    requires db1.users == p.db.users && db1.nextId == sid + 1 && sid >= p.db.nextId
    requires db1.schools == p.db.schools && db1.standards == p.db.standards
    requires db1.divisions == p.db.divisions && db1.teachers == p.db.teachers
    ensures Grew(p, q, sel) && q.imported == p.imported + 1
    ensures q.failed <==> !UsernameTaken(p.db.users, username) && !UserInsertable(db1, StudentCredential(db1, sel, sid, username))
    ensures !q.failed ==> UsernameTaken(q.db.users, username)
    ensures UsernameTaken(p.db.users, username) ==> q.db.users == p.db.users && !q.failed
    ensures !UsernameTaken(p.db.users, username) && !q.failed ==>
              q.db.users == p.db.users + [Row(db1.nextId, StudentCredential(db1, sel, sid, username))]
  {
    if UsernameTaken(db1.users, username) then Progress(db1, p.imported + 1, false)
    else match AddUser(db1, StudentCredential(db1, sel, sid, username))
      case Rejected => Progress(db1, p.imported + 1, true)
      case Committed(db2, _) =>
        assert db2.users[|p.db.users|] == Row(db1.nextId, StudentCredential(db1, sel, sid, username));
        Progress(db2, p.imported + 1, false)
  }

  /** One iteration of the row loop. */
  function ImportRow(p: Progress, sel: int, row: StudentRow): (q: Progress)
    ensures Grew(p, q, sel) && q.imported <= p.imported + 1
    ensures p.failed || !Resolves(p.db, row) ==> q == p
  {
    var standardId := StandardIdByName(p.db.standards, row.standardName);
    var divisionId := DivisionIdByName(p.db.divisions, row.divisionName);
    if standardId == 0 || divisionId == 0 || p.failed then p
    else match AddStudent(p.db, Student(sel, standardId, divisionId, row.details))
      case Rejected => p.(failed := true)
      case Committed(db1, sid) =>
        SaveCredential(p, db1, sel, Student(sel, standardId, divisionId, row.details), sid, ImportUsername(row.details))
  }

  /** The row loop. */
  function ImportRows(p: Progress, sel: int, rows: seq<StudentRow>): (q: Progress)
    ensures Grew(p, q, sel)
    ensures q.imported <= p.imported + |rows|
    ensures p.failed ==> q == p
    decreases |rows|
  {
    if |rows| == 0 then p
    else
      var p1 := ImportRow(p, sel, rows[0]);
      var q := ImportRows(p1, sel, rows[1..]);
      GrewTrans(p, p1, q, sel);
      q
  }

  /** `ImportStudents(SelectedSchoolId, ExcelFile)`. */
  function ImportStudents(db: Store, sel: int, upload: Upload<StudentRow>): (o: ImportOutcome)
    ensures o.BadRequest? <==> sel <= 0 || upload.NoFile?
    ensures o.ReadFailed? <==> sel > 0 && upload.Unreadable?
    ensures o.Finished? ==> o.imported == |o.db.students| - |db.students| <= |upload.rows|
    ensures o.Finished? ==> forall i :: |db.students| <= i < |o.db.students| ==> o.db.students[i].rec.schoolId == sel
  {
    if sel <= 0 || upload.NoFile? then BadRequest
    else if upload.Unreadable? then ReadFailed
    else
      var q := ImportRows(Start(db), sel, upload.rows);
      Finished(q.db, q.imported)
  }

  /** Number of rows whose standard and division both resolve. */
  function CountResolving(db: Store, rows: seq<StudentRow>): (n: nat)
    ensures n <= |rows|
  {
    if |rows| == 0 then 0 else (if Resolves(db, rows[0]) then 1 else 0) + CountResolving(db, rows[1..])
  }

  /** A row whose standard or division does not resolve changes nothing. */
  lemma SkippedRowChangesNothing(p: Progress, sel: int, row: StudentRow)
    requires !Resolves(p.db, row)
    ensures ImportRow(p, sel, row) == p
  {
  }

  /** In a valid store, with the selected school present, no save of the
      import is ever rejected: a resolving row is counted, its student saved
      and, unless the login name is taken, its credential saved. */
  lemma ImportRowSucceeds(p: Progress, sel: int, row: StudentRow)
    requires Valid(p.db) && !p.failed && sel in Ids(p.db.schools)
    ensures var q := ImportRow(p, sel, row);
            && !q.failed && Valid(q.db)
            && q.imported == p.imported + (if Resolves(p.db, row) then 1 else 0)
            && (Resolves(p.db, row) ==> UsernameTaken(q.db.users, ImportUsername(row.details)))
  {
    ImportRowAccepted(p, sel, row);
    ImportRowKeepsValid(p, sel, row);
  }

  /** The student of a resolving row passes its foreign-key checks. */
  lemma ResolvingStudentResolves(db: Store, sel: int, row: StudentRow)
    requires sel in Ids(db.schools) && Resolves(db, row)
    ensures StudentRefsResolve(db, Student(sel, StandardIdByName(db.standards, row.standardName),
                                           DivisionIdByName(db.divisions, row.divisionName), row.details))
  {
    assert exists r :: r in db.standards && r.rec.name == row.standardName;
    assert exists r :: r in db.divisions && r.rec.name == row.divisionName;
  }

  /** No save of the row is rejected, the row is counted when it resolves,
      and its login name is taken afterwards. */
  lemma ImportRowAccepted(p: Progress, sel: int, row: StudentRow)
    requires Valid(p.db) && !p.failed && sel in Ids(p.db.schools)
    ensures var q := ImportRow(p, sel, row);
            && !q.failed
            && q.imported == p.imported + (if Resolves(p.db, row) then 1 else 0)
            && (Resolves(p.db, row) ==> UsernameTaken(q.db.users, ImportUsername(row.details)))
  {
    if Resolves(p.db, row) {
      var db := p.db;
      var s := Student(sel, StandardIdByName(db.standards, row.standardName),
                       DivisionIdByName(db.divisions, row.divisionName), row.details);
      ResolvingStudentResolves(db, sel, row);
      var username := ImportUsername(row.details);
      if !UsernameTaken(db.users, username) {
        CredentialInsertable(db, s, username);
      }
    }
  }

  /** One row of the import leaves a valid store. */
  lemma ImportRowKeepsValid(p: Progress, sel: int, row: StudentRow)
    requires Valid(p.db) && !p.failed && sel in Ids(p.db.schools)
    ensures Valid(ImportRow(p, sel, row).db)
  {
    if Resolves(p.db, row) {
      var db := p.db;
      var s := Student(sel, StandardIdByName(db.standards, row.standardName),
                       DivisionIdByName(db.divisions, row.divisionName), row.details);
      ResolvingStudentResolves(db, sel, row);
      AddStudentKeepsValid(db, s);
      var db1 := AddStudent(db, s).db;
      var username := ImportUsername(row.details);
      var q := ImportRow(p, sel, row);
      if !UsernameTaken(db1.users, username) {
        var u := StudentCredential(db1, sel, db.nextId, username);
        CredentialInsertable(db, s, username);
        AddUserKeepsValid(db1, u);
        assert q.db == AddUser(db1, u).db;
      } else {
        assert q.db == db1;
      }
    }
  }

  /** In a valid store, the credential for a just-saved student is accepted
      whenever its login name is free. */
  lemma CredentialInsertable(db: Store, s: Student, username: string)
    requires Valid(db) && StudentRefsResolve(db, s)
    requires !UsernameTaken(db.users, username)
    ensures var db1 := AddStudent(db, s).db;
            UserInsertable(db1, StudentCredential(db1, s.schoolId, db.nextId, username))
  {
    var db1 := AddStudent(db, s).db;
    FreshIdHasNoUser(db, db.nextId);
    KeyedAppend(db.students, db.nextId, s);
  }

  /** With the selected school present, the count reported is the number of
      rows whose standard and division resolve, and the store stays valid. */
  lemma {:induction false} ImportCountsResolvingRows(p: Progress, sel: int, rows: seq<StudentRow>)
    requires Valid(p.db) && !p.failed && sel in Ids(p.db.schools)
    ensures var q := ImportRows(p, sel, rows);
            q.imported == p.imported + CountResolving(p.db, rows) && !q.failed && Valid(q.db)
    decreases |rows|
  {
    if |rows| > 0 {
      var p1 := ImportRow(p, sel, rows[0]);
      ImportRowSucceeds(p, sel, rows[0]);
      ImportCountsResolvingRows(p1, sel, rows[1..]);
      assert CountResolving(p1.db, rows[1..]) == CountResolving(p.db, rows[1..]) by {
        CountResolvingStable(p.db, p1.db, rows[1..]);
      }
    }
  }

  /** The count depends only on the standards and divisions. */
  lemma {:induction false} CountResolvingStable(db: Store, db': Store, rows: seq<StudentRow>)
    requires db.standards == db'.standards && db.divisions == db'.divisions
    ensures CountResolving(db, rows) == CountResolving(db', rows)
    decreases |rows|
  {
    if |rows| > 0 {
      CountResolvingStable(db, db', rows[1..]);
    }
  }

  /** Importing into a school that does not exist changes nothing and
      counts nothing. */
  lemma {:induction false} ImportIntoMissingSchool(p: Progress, sel: int, rows: seq<StudentRow>)
    requires sel !in Ids(p.db.schools)
    ensures ImportRows(p, sel, rows).db == p.db && ImportRows(p, sel, rows).imported == p.imported
    decreases |rows|
  {
    if |rows| > 0 {
      var p1 := ImportRow(p, sel, rows[0]);
      assert p1.db == p.db && p1.imported == p.imported;
      ImportIntoMissingSchool(p1, sel, rows[1..]);
    }
  }

  /** Once every resolving row's login name is taken, the loop adds no
      credential. */
  lemma {:induction false} NoCredentialsWhenNamesTaken(p: Progress, sel: int, rows: seq<StudentRow>)
    requires forall i :: 0 <= i < |rows| && Resolves(p.db, rows[i]) ==> UsernameTaken(p.db.users, ImportUsername(rows[i].details))
    ensures ImportRows(p, sel, rows).db.users == p.db.users
    decreases |rows|
  {
    if |rows| > 0 {
      var p1 := ImportRow(p, sel, rows[0]);
      assert p1.db.users == p.db.users;
      forall i | 0 <= i < |rows[1..]| && Resolves(p1.db, rows[1..][i])
        ensures UsernameTaken(p1.db.users, ImportUsername(rows[1..][i].details))
      {
        assert rows[1..][i] == rows[i + 1];
      }
      NoCredentialsWhenNamesTaken(p1, sel, rows[1..]);
    }
  }

  /** After a successful pass every resolving row's login name is taken. */
  lemma {:induction false} NamesTakenAfterImport(p: Progress, sel: int, rows: seq<StudentRow>)
    requires Valid(p.db) && !p.failed && sel in Ids(p.db.schools)
    ensures forall i :: 0 <= i < |rows| && Resolves(p.db, rows[i]) ==>
              UsernameTaken(ImportRows(p, sel, rows).db.users, ImportUsername(rows[i].details))
    decreases |rows|
  {
    if |rows| > 0 {
      var p1 := ImportRow(p, sel, rows[0]);
      var q := ImportRows(p1, sel, rows[1..]);
      ImportRowSucceeds(p, sel, rows[0]);
      NamesTakenAfterImport(p1, sel, rows[1..]);
      if Resolves(p.db, rows[0]) {
        TakenStaysTaken(p1.db.users, q.db.users, ImportUsername(rows[0].details));
      }
      forall i | 0 < i < |rows| && Resolves(p.db, rows[i])
        ensures UsernameTaken(q.db.users, ImportUsername(rows[i].details))
      {
        assert rows[1..][i - 1] == rows[i];
      }
    }
  }

  /** Importing the same sheet a second time adds every resolving row again
      as a new student, but no credential: each login name was taken by the
      first pass. */
  lemma ReimportAddsStudentsButNoCredentials(db: Store, sel: int, rows: seq<StudentRow>)
    requires Valid(db) && sel in Ids(db.schools)
    ensures var q1 := ImportRows(Start(db), sel, rows);
            var q2 := ImportRows(Start(q1.db), sel, rows);
            && q2.db.users == q1.db.users
            && q2.imported == q1.imported
            && |q2.db.students| == |q1.db.students| + q1.imported
  {
    var q1 := ImportRows(Start(db), sel, rows);
    ImportCountsResolvingRows(Start(db), sel, rows);
    NamesTakenAfterImport(Start(db), sel, rows);
    CountResolvingStable(db, q1.db, rows);
    forall i | 0 <= i < |rows| && Resolves(q1.db, rows[i])
      ensures UsernameTaken(q1.db.users, ImportUsername(rows[i].details))
    {
      assert Resolves(db, rows[i]);
    }
    NoCredentialsWhenNamesTaken(Start(q1.db), sel, rows);
    ImportCountsResolvingRows(Start(q1.db), sel, rows);
  }

  /** The create screen and the import derive the same login name from the
      same fields. */
  lemma CreateAndImportNamesAgree(d: StudentDetails)
    ensures CreateUsername(d) == ImportUsername(d)
  {
    PhoneConventionsAgree(d.name, d.fatherNumber);
  }
}
