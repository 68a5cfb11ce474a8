/** The teacher form screens: create (teacher row, then its credential),
    edit, delete, and the spreadsheet import. */
module TeacherController {
  import opened Tables
  import opened Text
  import opened Username
  import opened Entities
  import opened Database
  import opened Uploads

  // ---------------------------------------------------------------------
  // Create

  /** The fields the create and edit forms post. */
  datatype TeacherForm = TeacherForm(teacherId: int, schoolId: int, details: TeacherDetails)

  /** `Invalid`: the form is shown again; `TeacherRejected`: the teacher insert
      was rejected; `CredentialRejected`: the teacher was saved but its
      credential insert was rejected; `Created`: both were saved. */
  datatype CreateOutcome =
    | Invalid
    | TeacherRejected
    | CredentialRejected(db: Store, teacherId: int)
    | Created(db: Store, teacherId: int, username: string)

  function TeacherOf(form: TeacherForm): Teacher {
    Teacher(form.schoolId, form.details)
  }

  /** The credential generated for a teacher. */
  function TeacherCredential(db: Store, schoolId: int, teacherId: int, username: string): (u: SchoolUser)
    ensures u.role == TeacherRole && u.password == DefaultPassword
    ensures u.teacherId == Some(teacherId) && u.studentId.None?
    ensures u.schoolId == schoolId && u.schoolCode == SchoolCodeOf(db.schools, schoolId)
    ensures u.username == username
  {
    SchoolUser(schoolId, SchoolCodeOf(db.schools, schoolId), None, Some(teacherId), username, DefaultPassword, TeacherRole)
  }

  /** Login name from the name and `TeacherMobileNo?.ToString() ?? "0000"`. */
  function BaseUsername(d: TeacherDetails): string {
    GenerateUsername(d.name, PhoneTextOrDefault(d.mobileNo))
  }

  /** The form passes validation and the teacher insert is accepted. */
  predicate Saves(db: Store, form: TeacherForm, fieldsValid: bool) {
    fieldsValid && form.schoolId > 0 && TeacherRefsResolve(db, TeacherOf(form))
  }

  /** Create a teacher. `fieldsValid` is the outcome of the form's field
      annotations, which are not modelled. */
  function Create(db: Store, form: TeacherForm, fieldsValid: bool): (r: CreateOutcome)
    ensures r.Invalid? <==> !(fieldsValid && form.schoolId > 0)
    ensures r.TeacherRejected? <==> fieldsValid && form.schoolId > 0 && !TeacherRefsResolve(db, TeacherOf(form))
    ensures (r.CredentialRejected? || r.Created?) ==>
              r.teacherId == db.nextId && r.db.teachers == db.teachers + [Row(r.teacherId, TeacherOf(form))]
    ensures (r.CredentialRejected? || r.Created?) ==>
              && r.db.schools == db.schools && r.db.standards == db.standards
              && r.db.divisions == db.divisions && r.db.students == db.students
    ensures r.CredentialRejected? ==> r.db.users == db.users
    ensures r.Created? ==>
              && r.username == BaseUsername(form.details)
              && !UsernameTaken(db.users, r.username)
              && r.db.users == db.users + [Row(r.db.nextId - 1, TeacherCredential(db, form.schoolId, r.teacherId, r.username))]
  {
    if !(fieldsValid && form.schoolId > 0) then Invalid
    else match AddTeacher(db, TeacherOf(form))
      case Rejected => TeacherRejected
      case Committed(db1, tid) =>
        var username := BaseUsername(form.details);
        assert TeacherCredential(db1, form.schoolId, tid, username) == TeacherCredential(db, form.schoolId, tid, username);
        match AddUser(db1, TeacherCredential(db1, form.schoolId, tid, username))
        case Rejected => CredentialRejected(db1, tid)
        case Committed(db2, _) => Created(db2, tid, username)
  }

  /** The store a create leaves behind. */
  function CreatedStore(db: Store, r: CreateOutcome): Store {
    if r.CredentialRejected? || r.Created? then r.db else db
  }

  /** In a valid store, the credential for a just-saved teacher is accepted
      exactly when its login name is free. */
  lemma CredentialInsertable(db: Store, t: Teacher, username: string)
    requires Valid(db) && TeacherRefsResolve(db, t)
    ensures var db1 := AddTeacher(db, t).db;
            UserInsertable(db1, TeacherCredential(db1, t.schoolId, db.nextId, username)) <==>
            !UsernameTaken(db.users, username)
  {
    KeyedAppend(db.teachers, db.nextId, t);
  }

  /** In a valid store the credential insert fails exactly when the derived
      login name is already taken (by a credential of any role). */
  lemma CreateOutcomes(db: Store, form: TeacherForm, fieldsValid: bool)
    requires Valid(db)
    ensures var r := Create(db, form, fieldsValid);
            && (r.Created? <==> Saves(db, form, fieldsValid) && !UsernameTaken(db.users, BaseUsername(form.details)))
            && (r.CredentialRejected? <==> Saves(db, form, fieldsValid) && UsernameTaken(db.users, BaseUsername(form.details)))
  {
    if Saves(db, form, fieldsValid) {
      CredentialInsertable(db, TeacherOf(form), BaseUsername(form.details));
    }
  }

  lemma CreateKeepsValid(db: Store, form: TeacherForm, fieldsValid: bool)
    requires Valid(db)
    ensures Valid(CreatedStore(db, Create(db, form, fieldsValid)))
  {
    if Saves(db, form, fieldsValid) {
      AddTeacherKeepsValid(db, TeacherOf(form));
      var db1 := AddTeacher(db, TeacherOf(form)).db;
      var u := TeacherCredential(db1, form.schoolId, db.nextId, BaseUsername(form.details));
      var r := Create(db, form, fieldsValid);
      if AddUser(db1, u).Committed? {
        AddUserKeepsValid(db1, u);
        assert CreatedStore(db, r) == AddUser(db1, u).db;
      } else {
        assert CreatedStore(db, r) == db1;
      }
    } else {
      assert CreatedStore(db, Create(db, form, fieldsValid)) == db;
    }
  }

  // ---------------------------------------------------------------------
  // Edit and delete

  /** `InvalidId`: the route id and the form id differ; `NotFound`: no such
      teacher; `SaveRejected`: the save was rejected (a school that does not
      exist); `Updated`: saved. */
  datatype EditOutcome = InvalidId | NotFound | SaveRejected | Updated(db: Store)

  /** Edit overwrites every field of the teacher, the school included. The
      teacher's credentials are left as they were, with the old school and
      school code. */
  function Edit(db: Store, id: int, form: TeacherForm): (r: EditOutcome)
    ensures r.InvalidId? <==> id != form.teacherId
    ensures r.NotFound? <==> id == form.teacherId && id !in Ids(db.teachers)
    ensures r.SaveRejected? <==> id == form.teacherId && id in Ids(db.teachers) && !TeacherRefsResolve(db, TeacherOf(form))
    ensures r.Updated? ==> Ids(r.db.teachers) == Ids(db.teachers) && r.db.users == db.users
    ensures r.Updated? ==> r.db.schools == db.schools && r.db.students == db.students
    ensures r.Updated? ==> r.db.standards == db.standards && r.db.divisions == db.divisions && r.db.nextId == db.nextId
    ensures r.Updated? && Ascending(db.teachers) ==>
              && Find(r.db.teachers, id) == Some(TeacherOf(form))
              && (forall k :: k != id ==> Find(r.db.teachers, k) == Find(db.teachers, k))
  {
    FindIff(db.teachers, id);
    if id != form.teacherId then InvalidId
    else if Find(db.teachers, id).None? then NotFound
    else match SaveTeacher(db, id, TeacherOf(form))
      case None => SaveRejected
      case Some(db1) =>
        ReplaceEffect(db.teachers, id, TeacherOf(form));
        Updated(db1)
  }

  lemma EditKeepsValid(db: Store, id: int, form: TeacherForm)
    requires Valid(db)
    ensures Edit(db, id, form).Updated? ==> Valid(Edit(db, id, form).db)
  {
    if Edit(db, id, form).Updated? {
      SaveTeacherKeepsValid(db, id, TeacherOf(form));
      assert Edit(db, id, form).db == SaveTeacher(db, id, TeacherOf(form)).value;
    }
  }

  datatype DeleteOutcome = NoSuchTeacher | Deleted(db: Store)

  /** Delete through the form screen: the database's declared delete
      behaviour applies, so the teacher's credentials survive with their
      teacher reference cleared. */
  function DeleteConfirmed(db: Store, id: int): (r: DeleteOutcome)
    ensures r.NoSuchTeacher? <==> id !in Ids(db.teachers)
    ensures r.Deleted? ==> Ids(r.db.teachers) == Ids(db.teachers) - {id} && |r.db.users| == |db.users|
    ensures r.Deleted? ==> forall u :: u in r.db.users ==> u.rec.teacherId != Some(id)
    ensures r.Deleted? ==> forall x :: x in r.db.teachers <==> x in db.teachers && x.id != id
    ensures r.Deleted? ==> forall i :: 0 <= i < |db.users| ==>
              r.db.users[i] == Row(db.users[i].id,
                                   if db.users[i].rec.teacherId == Some(id) then db.users[i].rec.(teacherId := None)
                                   else db.users[i].rec)
    ensures r.Deleted? ==> r.db.schools == db.schools && r.db.standards == db.standards
    ensures r.Deleted? ==> r.db.divisions == db.divisions && r.db.students == db.students && r.db.nextId == db.nextId
  {
    FindIff(db.teachers, id);
    if Find(db.teachers, id).None? then NoSuchTeacher
    else
      DeleteTeacherEffect(db, id);
      Deleted(DeleteTeacher(db, id))
  }

  // ---------------------------------------------------------------------
  // Import

  /** `SchoolUsers.Any(u => u.Username == name && u.Role == "Teacher")`. */
  predicate TeacherHoldsUsername(users: Table<SchoolUser>, name: string) {
    exists r :: r in users && r.rec.username == name && r.rec.role == TeacherRole
  }

  /** The login name the import tries for the teacher saved as `tid`: the
      base name, or the base name followed by the teacher's key when a
      teacher credential already holds the base name. Credentials of other
      roles are not consulted. */
  function ImportUsername(users: Table<SchoolUser>, d: TeacherDetails, tid: int): (name: string)
    ensures name == BaseUsername(d) <==> !TeacherHoldsUsername(users, BaseUsername(d))
    ensures name != BaseUsername(d) ==> name == BaseUsername(d) + Decimal(tid)
  {
    DecimalSign(tid);
    var base := BaseUsername(d);
    if TeacherHoldsUsername(users, base) then base + Decimal(tid) else base
  }

  /** What every credential the import generates looks like. */
  predicate IsImportCredential(u: SchoolUser, sel: int, firstNewId: int) {
    && u.schoolId == sel
    && u.role == TeacherRole && u.password == DefaultPassword
    && u.teacherId.Some? && u.teacherId.value >= firstNewId && u.studentId.None?
  }

  /** How the loop state may change between two points of the row loop:
      reference tables and students untouched, teachers and credentials only
      appended, one teacher per counted row, at most one credential per
      counted row, every new teacher in school `sel` and every new
      credential a teacher credential of that school for a new teacher. */
  predicate Grew(p: Progress, q: Progress, sel: int) {
    && q.db.schools == p.db.schools && q.db.standards == p.db.standards
    && q.db.divisions == p.db.divisions && q.db.students == p.db.students
    && q.db.nextId >= p.db.nextId
    && Extends(q.db.teachers, p.db.teachers) && Extends(q.db.users, p.db.users)
    && q.imported - p.imported == |q.db.teachers| - |p.db.teachers|
    && |q.db.users| - |p.db.users| <= q.imported - p.imported
    && (forall i :: |p.db.teachers| <= i < |q.db.teachers| ==> q.db.teachers[i].rec.schoolId == sel)
    && (forall i :: |p.db.users| <= i < |q.db.users| ==> IsImportCredential(q.db.users[i].rec, sel, p.db.nextId))
  }

  lemma GrewTrans(p: Progress, p1: Progress, q: Progress, sel: int)
    requires Grew(p, p1, sel) && Grew(p1, q, sel)
    ensures Grew(p, q, sel)
  {
    ExtendsTrans(q.db.teachers, p1.db.teachers, p.db.teachers);
    ExtendsTrans(q.db.users, p1.db.users, p.db.users);
    forall i | |p.db.users| <= i < |p1.db.users| ensures q.db.users[i] == p1.db.users[i] {
      assert q.db.users[..|p1.db.users|][i] == q.db.users[i];
    }
    forall i | |p.db.teachers| <= i < |p1.db.teachers| ensures q.db.teachers[i] == p1.db.teachers[i] {
      assert q.db.teachers[..|p1.db.teachers|][i] == q.db.teachers[i];
    }
  }

  /** The credential step of a row whose teacher was saved as `tid`. A
      rejected insert is caught: the teacher stays saved and counted, and
      the import is marked failed. */
  function SaveCredential(p: Progress, db1: Store, sel: int, t: Teacher, tid: int, username: string): (q: Progress)
    requires db1.teachers == p.db.teachers + [Row(tid, t)] && t.schoolId == sel
    requires db1.users == p.db.users && db1.nextId == tid + 1 && tid >= p.db.nextId
    requires db1.schools == p.db.schools && db1.standards == p.db.standards
    requires db1.divisions == p.db.divisions && db1.students == p.db.students
    ensures Grew(p, q, sel) && q.imported == p.imported + 1
    ensures q.failed <==> !UserInsertable(db1, TeacherCredential(db1, sel, tid, username))
    ensures !q.failed ==> q.db.users == p.db.users + [Row(db1.nextId, TeacherCredential(db1, sel, tid, username))]
    ensures q.failed ==> q.db.users == p.db.users
  {
    match AddUser(db1, TeacherCredential(db1, sel, tid, username))
    case Rejected => Progress(db1, p.imported + 1, true)
    case Committed(db2, _) => Progress(db2, p.imported + 1, false)
  }

  /** One iteration of the row loop. */
  function ImportRow(p: Progress, sel: int, row: TeacherDetails): (q: Progress)
    ensures Grew(p, q, sel) && q.imported <= p.imported + 1
    ensures p.failed ==> q == p
    ensures !p.failed && !q.failed ==> q.imported == p.imported + 1
    ensures q.imported == p.imported + 1 ==> q.db.teachers[|p.db.teachers|].rec == Teacher(sel, row)
  {
    if p.failed then p
    else match AddTeacher(p.db, Teacher(sel, row))
      case Rejected => p.(failed := true)
      case Committed(db1, tid) =>
        SaveCredential(p, db1, sel, Teacher(sel, row), tid, ImportUsername(db1.users, row, tid))
  }

  /** The row loop. If no save was rejected, every row was counted. */
  function ImportRows(p: Progress, sel: int, rows: seq<TeacherDetails>): (q: Progress)
    ensures Grew(p, q, sel)
    ensures q.imported <= p.imported + |rows|
    ensures p.failed ==> q == p
    ensures !q.failed ==> q.imported == p.imported + |rows|
    decreases |rows|
  {
    if |rows| == 0 then p
    else
      var p1 := ImportRow(p, sel, rows[0]);
      var q := ImportRows(p1, sel, rows[1..]);
      GrewTrans(p, p1, q, sel);
      q
  }

  /** The teachers the loop adds are the first rows of the sheet, in order:
      once a save has been rejected nothing further is imported. */
  lemma {:induction false} ImportedArePrefix(p: Progress, sel: int, rows: seq<TeacherDetails>)
    ensures AddedInOrder(p.db.teachers, ImportRows(p, sel, rows).db.teachers, sel, rows)
    decreases |rows|
  {
    if |rows| > 0 {
      var p1 := ImportRow(p, sel, rows[0]);
      var q := ImportRows(p1, sel, rows[1..]);
      ImportedArePrefix(p1, sel, rows[1..]);
      PrefixStep(p.db.teachers, p1.db.teachers, q.db.teachers, sel, rows);
    }
  }

  /** Row `i` of `after` beyond the rows of `before` holds the teacher of
      sheet row `i - |before|`. */
  predicate AddedInOrder(before: Table<Teacher>, after: Table<Teacher>, sel: int, rows: seq<TeacherDetails>) {
    forall i :: |before| <= i < |after| ==> AddedAt(before, after, sel, rows, i)
  }

  predicate AddedAt(before: Table<Teacher>, after: Table<Teacher>, sel: int, rows: seq<TeacherDetails>, i: int)
    requires |before| <= i < |after|
  {
    i - |before| < |rows| && after[i].rec == Teacher(sel, rows[i - |before|])
  }

  lemma PrefixStep(t0: Table<Teacher>, t1: Table<Teacher>, t2: Table<Teacher>, sel: int, rows: seq<TeacherDetails>)
    requires |rows| > 0
    requires Extends(t1, t0) && |t1| <= |t0| + 1 && (|t1| == |t0| + 1 ==> t1[|t0|].rec == Teacher(sel, rows[0]))
    requires Extends(t2, t1) && AddedInOrder(t1, t2, sel, rows[1..])
    requires |t1| == |t0| ==> t2 == t1
    ensures AddedInOrder(t0, t2, sel, rows)
  {
    forall i | |t0| <= i < |t2| ensures AddedAt(t0, t2, sel, rows, i) {
      PrefixStepAt(t0, t1, t2, sel, rows, i);
    }
  }

  lemma PrefixStepAt(t0: Table<Teacher>, t1: Table<Teacher>, t2: Table<Teacher>, sel: int, rows: seq<TeacherDetails>, i: int)
    requires |rows| > 0
    requires Extends(t1, t0) && |t1| <= |t0| + 1 && (|t1| == |t0| + 1 ==> t1[|t0|].rec == Teacher(sel, rows[0]))
    requires Extends(t2, t1) && AddedInOrder(t1, t2, sel, rows[1..])
    requires |t1| == |t0| ==> t2 == t1
    requires |t0| <= i < |t2|
    ensures AddedAt(t0, t2, sel, rows, i)
  {
    if i < |t1| {
      assert t2[..|t1|][i] == t2[i];
    } else {
      assert AddedAt(t1, t2, sel, rows[1..], i);
      assert rows[1..][i - |t1|] == rows[i - |t0|];
    }
  }

  /** `ImportTeachers(SelectedSchoolId, ExcelFile)`. */
  function ImportTeachers(db: Store, sel: int, upload: Upload<TeacherDetails>): (o: ImportOutcome)
    ensures o.BadRequest? <==> sel <= 0 || upload.NoFile?
    ensures o.ReadFailed? <==> sel > 0 && upload.Unreadable?
    ensures o.Finished? ==> o.imported == |o.db.teachers| - |db.teachers| <= |upload.rows|
  {
    if sel <= 0 || upload.NoFile? then BadRequest
    else if upload.Unreadable? then ReadFailed
    else
      var q := ImportRows(Start(db), sel, upload.rows);
      Finished(q.db, q.imported)
  }

  /** Every row step keeps the store valid. */
  lemma ImportRowKeepsValid(p: Progress, sel: int, row: TeacherDetails)
    requires Valid(p.db)
    ensures Valid(ImportRow(p, sel, row).db)
  {
    if !p.failed && AddTeacher(p.db, Teacher(sel, row)).Committed? {
      AddTeacherKeepsValid(p.db, Teacher(sel, row));
      var db1 := AddTeacher(p.db, Teacher(sel, row)).db;
      var u := TeacherCredential(db1, sel, p.db.nextId, ImportUsername(db1.users, row, p.db.nextId));
      if AddUser(db1, u).Committed? {
        AddUserKeepsValid(db1, u);
      }
    }
  }

  lemma {:induction false} ImportKeepsValid(p: Progress, sel: int, rows: seq<TeacherDetails>)
    requires Valid(p.db)
    ensures Valid(ImportRows(p, sel, rows).db)
    decreases |rows|
  {
    if |rows| > 0 {
      ImportRowKeepsValid(p, sel, rows[0]);
      ImportKeepsValid(ImportRow(p, sel, rows[0]), sel, rows[1..]);
    }
  }

  /** Importing into a school that does not exist changes nothing and
      counts nothing. */
  lemma {:induction false} ImportIntoMissingSchool(p: Progress, sel: int, rows: seq<TeacherDetails>)
    requires sel !in Ids(p.db.schools)
    ensures ImportRows(p, sel, rows).db == p.db && ImportRows(p, sel, rows).imported == p.imported
    decreases |rows|
  {
    if |rows| > 0 {
      var p1 := ImportRow(p, sel, rows[0]);
      assert p1.db == p.db && p1.imported == p.imported;
      ImportIntoMissingSchool(p1, sel, rows[1..]);
    }
  }

  /** In a valid store with the selected school present, a row's teacher is
      always saved and counted; its credential takes the base name when no
      teacher credential holds it and the base name followed by the new key
      otherwise, and is saved exactly when that name is free. */
  lemma ImportRowOutcome(p: Progress, sel: int, row: TeacherDetails)
    requires Valid(p.db) && !p.failed && sel in Ids(p.db.schools)
    ensures var q := ImportRow(p, sel, row);
            var name := ImportUsername(p.db.users, row, p.db.nextId);
            && q.imported == p.imported + 1
            && q.db.teachers == p.db.teachers + [Row(p.db.nextId, Teacher(sel, row))]
            && (q.failed <==> UsernameTaken(p.db.users, name))
            && (!q.failed ==> exists u :: u in q.db.users && u.rec.username == name && u.rec.teacherId == Some(p.db.nextId))
  {
    var t := Teacher(sel, row);
    var db1 := AddTeacher(p.db, t).db;
    var name := ImportUsername(db1.users, row, p.db.nextId);
    CredentialInsertable(p.db, t, name);
    var q := ImportRow(p, sel, row);
    if !q.failed {
      assert q.db.users[|p.db.users|] in q.db.users;
    }
  }

  /** A login name held only by a student credential is not detected by the
      import's check: the teacher is saved and counted, its credential is
      rejected, and every later row of the same sheet is not imported. */
  lemma StudentHolderStopsImport(p: Progress, sel: int, row: TeacherDetails, rest: seq<TeacherDetails>)
    requires Valid(p.db) && !p.failed && sel in Ids(p.db.schools)
    requires exists u :: u in p.db.users && u.rec.username == BaseUsername(row) && u.rec.role == StudentRole
    ensures var q := ImportRow(p, sel, row);
            && q.imported == p.imported + 1 && q.failed
            && q.db.users == p.db.users
            && ImportRows(q, sel, rest) == q
  {
    ImportRowOutcome(p, sel, row);
    assert !TeacherHoldsUsername(p.db.users, BaseUsername(row));
  }

  /** The appended names of two different teachers differ. */
  lemma AppendedNamesDistinct(base: string, a: int, b: int)
    requires base + Decimal(a) == base + Decimal(b)
    ensures a == b
  {
    assert Decimal(a) == (base + Decimal(a))[|base|..];
    assert Decimal(b) == (base + Decimal(b))[|base|..];
    DecimalInjective(a, b);
  }

  // ---------------------------------------------------------------------
  // Row isolation as the per-row catch intends

  /** The row loop as its per-row catch evidently intends: a rejected
      credential is dropped from the unit of work, so the next row starts
      with nothing pending. */
  function ImportRowsIsolated(p: Progress, sel: int, rows: seq<TeacherDetails>): (q: Progress)
    ensures Grew(p, q, sel)
    ensures q.imported <= p.imported + |rows|
    decreases |rows|
  {
    if |rows| == 0 then p
    else
      var p1 := ImportRow(p, sel, rows[0]).(failed := false);
      var q := ImportRowsIsolated(p1, sel, rows[1..]);
      GrewTrans(p, p1, q, sel);
      q
  }

  /** With rows isolated, every row of the sheet adds its teacher and is
      counted, whatever credentials already exist. */
  lemma {:induction false} IsolatedImportCountsEveryRow(p: Progress, sel: int, rows: seq<TeacherDetails>)
    requires Valid(p.db) && !p.failed && sel in Ids(p.db.schools)
    ensures var q := ImportRowsIsolated(p, sel, rows);
            && q.imported == p.imported + |rows|
            && |q.db.teachers| == |p.db.teachers| + |rows|
            && Valid(q.db)
    decreases |rows|
  {
    if |rows| > 0 {
      ImportRowOutcome(p, sel, rows[0]);
      ImportRowKeepsValid(p, sel, rows[0]);
      var p1 := ImportRow(p, sel, rows[0]).(failed := false);
      IsolatedImportCountsEveryRow(p1, sel, rows[1..]);
    }
  }

  /** The two loops part on a sheet whose first row's login name is held by
      a student credential: as written only that first row is counted, with
      rows isolated all of them are. */
  lemma IsolationDiffers(p: Progress, sel: int, row: TeacherDetails, rest: seq<TeacherDetails>)
    requires Valid(p.db) && !p.failed && sel in Ids(p.db.schools)
    requires exists u :: u in p.db.users && u.rec.username == BaseUsername(row) && u.rec.role == StudentRole
    ensures ImportRows(p, sel, [row] + rest).imported == p.imported + 1
    ensures ImportRowsIsolated(p, sel, [row] + rest).imported == p.imported + 1 + |rest|
  {
    var rows := [row] + rest;
    assert rows[0] == row && rows[1..] == rest;
    StudentHolderStopsImport(p, sel, row, rest);
    IsolatedImportCountsEveryRow(p, sel, rows);
  }
}
