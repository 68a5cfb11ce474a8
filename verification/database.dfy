/** The relational store and the constraints its schema declares.

    Each write checks what the database itself enforces for the written row
    (foreign keys, the unique index on usernames, the unique index on school
    codes, and the unique index on a credential's student reference that a
    one-to-one relation implies) and is otherwise rejected, leaving the store
    as it was: `SaveChanges` throws and nothing is committed. Deletes follow
    the declared delete behaviours: cascade from School, Standard and
    Division; set-null from Student and Teacher to their credentials. */
module Database {
  import opened Tables
  import opened Entities

  datatype Store = Store(
    schools: Table<School>,
    standards: Table<Standard>,
    divisions: Table<Division>,
    students: Table<Student>,
    teachers: Table<Teacher>,
    users: Table<SchoolUser>,
    nextId: int)

  /** Code of the school with key `id`, or "" when there is none:
      `FirstOrDefault(s => s.SchoolId == id)?.SchoolCode ?? ""`. */
  function SchoolCodeOf(schools: Table<School>, id: int): (code: string)
    ensures id !in Ids(schools) ==> code == ""
    ensures id in Ids(schools) ==> exists s :: Row(id, s) in schools && s.code == code
  {
    FindIff(schools, id);
    match Find(schools, id)
    case Some(s) => s.code
    case None => ""
  }

  /** Names shown through the navigation properties, "" when the reference
      resolves to no row. */
  function SchoolName(db: Store, id: int): string {
    match Find(db.schools, id)
    case Some(s) => s.name
    case None => ""
  }

  function StandardName(db: Store, id: int): string {
    match Find(db.standards, id)
    case Some(s) => s.name
    case None => ""
  }

  function DivisionName(db: Store, id: int): string {
    match Find(db.divisions, id)
    case Some(d) => d.name
    case None => ""
  }

  /** Keys come from the identity counter: positive, below the next value,
      and ascending in insertion order. */
  predicate Keyed<T(==,!new)>(t: Table<T>, next: int) {
    Ascending(t) && forall r :: r in t ==> 1 <= r.id < next
  }

  predicate StudentRefsResolve(db: Store, s: Student) {
    && s.schoolId in Ids(db.schools)
    && s.standardId in Ids(db.standards)
    && s.divisionId in Ids(db.divisions)
  }

  predicate TeacherRefsResolve(db: Store, t: Teacher) {
    t.schoolId in Ids(db.schools)
  }

  predicate UserRefsResolve(db: Store, u: SchoolUser) {
    && u.schoolId in Ids(db.schools)
    && (u.studentId.Some? ==> u.studentId.value in Ids(db.students))
    && (u.teacherId.Some? ==> u.teacherId.value in Ids(db.teachers))
  }

  /** `SchoolUsers.Any(u => u.Username == name)`. */
  predicate UsernameTaken(users: Table<SchoolUser>, name: string) {
    exists r :: r in users && r.rec.username == name
  }

  /** A taken login name stays taken when credentials are only appended. */
  lemma TakenStaysTaken(users: Table<SchoolUser>, more: Table<SchoolUser>, name: string)
    requires Extends(more, users) && UsernameTaken(users, name)
    ensures UsernameTaken(more, name)
  {
    var x :| x in users && x.rec.username == name;
    var k :| 0 <= k < |users| && users[k] == x;
    assert more[..|users|][k] == more[k];
  }

  predicate StudentHasUser(users: Table<SchoolUser>, studentId: int) {
    exists r :: r in users && r.rec.studentId == Some(studentId)
  }

  predicate CodeTaken(schools: Table<School>, code: string) {
    exists r :: r in schools && r.rec.code == code
  }

  predicate UniqueUsernames(users: Table<SchoolUser>) {
    forall a, b :: a in users && b in users && a.rec.username == b.rec.username ==> a == b
  }

  /** A student has at most one credential (unique non-null StudentId). */
  predicate OneUserPerStudent(users: Table<SchoolUser>) {
    forall a, b ::
      (a in users && b in users && a.rec.studentId.Some? && a.rec.studentId == b.rec.studentId) ==> a == b
  }

  predicate UniqueSchoolCodes(schools: Table<School>) {
    forall a, b :: a in schools && b in schools && a.rec.code == b.rec.code ==> a == b
  }

  predicate KeysValid(db: Store) {
    && db.nextId >= 1
    && Keyed(db.schools, db.nextId)
    && Keyed(db.standards, db.nextId)
    && Keyed(db.divisions, db.nextId)
    && Keyed(db.students, db.nextId)
    && Keyed(db.teachers, db.nextId)
    && Keyed(db.users, db.nextId)
  }

  predicate RefsValid(db: Store) {
    && (forall r :: r in db.students ==> StudentRefsResolve(db, r.rec))
    && (forall r :: r in db.teachers ==> TeacherRefsResolve(db, r.rec))
    && (forall r :: r in db.users ==> UserRefsResolve(db, r.rec))
  }

  predicate UniqueValid(db: Store) {
    UniqueUsernames(db.users) && OneUserPerStudent(db.users) && UniqueSchoolCodes(db.schools)
  }

  /** Every state the database can be in. */
  predicate Valid(db: Store) {
    KeysValid(db) && RefsValid(db) && UniqueValid(db)
  }

  const Empty := Store([], [], [], [], [], [], 1)

  lemma EmptyIsValid()
    ensures Valid(Empty)
  {
  }

  // ---------------------------------------------------------------------
  // Writes

  /** Outcome of an insert: the new store and the generated key, or a
      rejected `SaveChanges` that leaves the store unchanged. */
  datatype Commit = Committed(db: Store, id: int) | Rejected

  function AddSchool(db: Store, s: School): Commit {
    if CodeTaken(db.schools, s.code) then Rejected
    else Committed(db.(schools := db.schools + [Row(db.nextId, s)], nextId := db.nextId + 1), db.nextId)
  }

  function AddStandard(db: Store, s: Standard): Commit {
    Committed(db.(standards := db.standards + [Row(db.nextId, s)], nextId := db.nextId + 1), db.nextId)
  }

  function AddDivision(db: Store, d: Division): Commit {
    Committed(db.(divisions := db.divisions + [Row(db.nextId, d)], nextId := db.nextId + 1), db.nextId)
  }

  function AddStudent(db: Store, s: Student): Commit {
    if !StudentRefsResolve(db, s) then Rejected
    else Committed(db.(students := db.students + [Row(db.nextId, s)], nextId := db.nextId + 1), db.nextId)
  }

  function AddTeacher(db: Store, t: Teacher): Commit {
    if !TeacherRefsResolve(db, t) then Rejected
    else Committed(db.(teachers := db.teachers + [Row(db.nextId, t)], nextId := db.nextId + 1), db.nextId)
  }

  /** Whether the database accepts a new credential `u`. */
  predicate UserInsertable(db: Store, u: SchoolUser) {
    && UserRefsResolve(db, u)
    && !UsernameTaken(db.users, u.username)
    && !(u.studentId.Some? && StudentHasUser(db.users, u.studentId.value))
  }

  function AddUser(db: Store, u: SchoolUser): Commit {
    if !UserInsertable(db, u) then Rejected
    else Committed(db.(users := db.users + [Row(db.nextId, u)], nextId := db.nextId + 1), db.nextId)
  }

  /** Save a whole student row (key unchanged); rejected on a dangling
      foreign key. */
  function SaveStudent(db: Store, id: int, s: Student): Option<Store> {
    if !StudentRefsResolve(db, s) then None
    else Some(db.(students := Replace(db.students, id, s)))
  }

  function SaveTeacher(db: Store, id: int, t: Teacher): Option<Store> {
    if !TeacherRefsResolve(db, t) then None
    else Some(db.(teachers := Replace(db.teachers, id, t)))
  }

  // ---------------------------------------------------------------------
  // Declarative deletes

  /** Set-null: clear the student reference of credentials whose student is gone. */
  function DetachStudents(users: Table<SchoolUser>, gone: set<int>): Table<SchoolUser> {
    MapRows(users, (u: Row<SchoolUser>) =>
      if u.rec.studentId.Some? && u.rec.studentId.value in gone then u.rec.(studentId := None) else u.rec)
  }

  /** Set-null: clear the teacher reference of credentials whose teacher is gone. */
  function DetachTeachers(users: Table<SchoolUser>, gone: set<int>): Table<SchoolUser> {
    MapRows(users, (u: Row<SchoolUser>) =>
      if u.rec.teacherId.Some? && u.rec.teacherId.value in gone then u.rec.(teacherId := None) else u.rec)
  }

  /** Remove one student; its credential survives with StudentId cleared. */
  function DeleteStudent(db: Store, id: int): Store {
    db.(students := Remove(db.students, id), users := DetachStudents(db.users, {id}))
  }

  /** Remove one teacher; its credentials survive with TeacherId cleared. */
  function DeleteTeacher(db: Store, id: int): Store {
    db.(teachers := Remove(db.teachers, id), users := DetachTeachers(db.users, {id}))
  }

  /** Keys of the students a cascade removes with standard, division or
      school `id`, and of the teachers it removes with school `id`. */
  function StandardStudentIds(db: Store, id: int): set<int> {
    set r | r in db.students && r.rec.standardId == id :: r.id
  }

  function DivisionStudentIds(db: Store, id: int): set<int> {
    set r | r in db.students && r.rec.divisionId == id :: r.id
  }

  function SchoolStudentIds(db: Store, id: int): set<int> {
    set r | r in db.students && r.rec.schoolId == id :: r.id
  }

  function SchoolTeacherIds(db: Store, id: int): set<int> {
    set r | r in db.teachers && r.rec.schoolId == id :: r.id
  }

  /** The credentials that survive the cascade from school `id`. */
  function UsersOutsideSchool(db: Store, id: int): Table<SchoolUser> {
    Filter(db.users, (u: Row<SchoolUser>) => u.rec.schoolId != id)
  }

  /** A credential with its references to removed students and teachers
      cleared, as the declared set-null does. */
  function ClearRefs(u: SchoolUser, students: set<int>, teachers: set<int>): SchoolUser {
    var u1 := if u.studentId.Some? && u.studentId.value in students then u.(studentId := None) else u;
    if u1.teacherId.Some? && u1.teacherId.value in teachers then u1.(teacherId := None) else u1
  }

  /** Remove a standard and, by cascade, its students. */
  function DeleteStandard(db: Store, id: int): Store {
    var gone := StandardStudentIds(db, id);
    db.(standards := Remove(db.standards, id),
        students := Filter(db.students, (r: Row<Student>) => r.rec.standardId != id),
        users := DetachStudents(db.users, gone))
  }

  /** Remove a division and, by cascade, its students. */
  function DeleteDivision(db: Store, id: int): Store {
    var gone := DivisionStudentIds(db, id);
    db.(divisions := Remove(db.divisions, id),
        students := Filter(db.students, (r: Row<Student>) => r.rec.divisionId != id),
        users := DetachStudents(db.users, gone))
  }

  /** Remove a school and, by cascade, its teachers, students and credentials. */
  function DeleteSchool(db: Store, id: int): Store {
    var goneStudents := SchoolStudentIds(db, id);
    var goneTeachers := SchoolTeacherIds(db, id);
    var keptUsers := UsersOutsideSchool(db, id);
    db.(schools := Remove(db.schools, id),
        students := Filter(db.students, (r: Row<Student>) => r.rec.schoolId != id),
        teachers := Filter(db.teachers, (r: Row<Teacher>) => r.rec.schoolId != id),
        users := DetachTeachers(DetachStudents(keptUsers, goneStudents), goneTeachers))
  }

  // ---------------------------------------------------------------------
  // Application-level delete used by the list screens

  /** Remove a student together with every credential that references it. */
  function PurgeStudent(db: Store, id: int): Store {
    db.(students := Remove(db.students, id),
        users := Filter(db.users, (u: Row<SchoolUser>) => u.rec.studentId != Some(id)))
  }

  /** Remove a teacher together with every credential that references it. */
  function PurgeTeacher(db: Store, id: int): Store {
    db.(teachers := Remove(db.teachers, id),
        users := Filter(db.users, (u: Row<SchoolUser>) => u.rec.teacherId != Some(id)))
  }

  // ---------------------------------------------------------------------
  // Every write and delete keeps the store valid

  lemma KeyedGrow<T(!new)>(t: Table<T>, n: int, m: int)
    requires Keyed(t, n) && n <= m
    ensures Keyed(t, m)
  {
  }

  lemma KeyedAppend<T(!new)>(t: Table<T>, next: int, x: T)
    requires Keyed(t, next) && next >= 1
    ensures Keyed(t + [Row(next, x)], next + 1)
    ensures Ids(t + [Row(next, x)]) == Ids(t) + {next}
  {
    var u := t + [Row(next, x)];
    forall i, j | 0 <= i < j < |u| ensures u[i].id < u[j].id {
      if j < |t| {
        assert u[i] == t[i] && u[j] == t[j];
      } else {
        assert u[i] == t[i] && t[i] in t;
      }
    }
    assert forall r :: r in u <==> r in t || r == Row(next, x);
  }

  lemma KeyedFilter<T(!new)>(t: Table<T>, n: int, p: Row<T> -> bool)
    requires Keyed(t, n)
    ensures Keyed(Filter(t, p), n)
  {
    FilterAscending(t, p);
  }

  lemma KeyedMap<T(!new)>(t: Table<T>, n: int, f: Row<T> -> T)
    requires Keyed(t, n)
    ensures Keyed(MapRows(t, f), n)
    ensures Ids(MapRows(t, f)) == Ids(t)
  {
    MapRowsAscending(t, f);
    var m := MapRows(t, f);
    forall r | r in m ensures 1 <= r.id < n {
      var i :| 0 <= i < |m| && m[i] == r;
      assert t[i] in t;
    }
  }

  /** Rewriting credentials without touching usernames, and only clearing
      student references, keeps both uniqueness constraints. */
  lemma MapUsersKeepsUnique(users: Table<SchoolUser>, next: int, f: Row<SchoolUser> -> SchoolUser)
    requires Keyed(users, next) && UniqueUsernames(users) && OneUserPerStudent(users)
    requires forall u :: u in users ==> f(u).username == u.rec.username
    requires forall u :: u in users ==> f(u).studentId == u.rec.studentId || f(u).studentId.None?
    ensures UniqueUsernames(MapRows(users, f)) && OneUserPerStudent(MapRows(users, f))
  {
    MapUsersKeepsUsernames(users, next, f);
    MapUsersKeepsOnePerStudent(users, next, f);
  }

  /** Rewriting credentials without touching usernames keeps them unique. */
  lemma MapUsersKeepsUsernames(users: Table<SchoolUser>, next: int, f: Row<SchoolUser> -> SchoolUser)
    requires Keyed(users, next) && UniqueUsernames(users)
    requires forall u :: u in users ==> f(u).username == u.rec.username
    ensures UniqueUsernames(MapRows(users, f))
  {
    var m := MapRows(users, f);
    forall a, b | a in m && b in m && a.rec.username == b.rec.username ensures a == b {
      var i :| 0 <= i < |m| && m[i] == a;
      var j :| 0 <= j < |m| && m[j] == b;
      assert users[i] in users && users[j] in users;
      assert users[i] == users[j];
      AscendingIndexUnique(users, i, j);
    }
  }

  /** Rewriting credentials so that a student reference is kept or cleared
      keeps at most one credential per student. */
  lemma MapUsersKeepsOnePerStudent(users: Table<SchoolUser>, next: int, f: Row<SchoolUser> -> SchoolUser)
    requires Keyed(users, next) && OneUserPerStudent(users)
    requires forall u :: u in users ==> f(u).studentId == u.rec.studentId || f(u).studentId.None?
    ensures OneUserPerStudent(MapRows(users, f))
  {
    var m := MapRows(users, f);
    forall a, b | a in m && b in m && a.rec.studentId.Some? && a.rec.studentId == b.rec.studentId
      ensures a == b
    {
      var i :| 0 <= i < |m| && m[i] == a;
      var j :| 0 <= j < |m| && m[j] == b;
      assert users[i] in users && users[j] in users;
      assert users[i] == users[j];
      AscendingIndexUnique(users, i, j);
    }
  }

  lemma AscendingIndexUnique<T(!new)>(t: Table<T>, i: int, j: int)
    requires Ascending(t) && 0 <= i < |t| && 0 <= j < |t| && t[i].id == t[j].id
    ensures i == j
  {
  }

  lemma AddSchoolKeepsValid(db: Store, s: School)
    requires Valid(db) && AddSchool(db, s).Committed?
    ensures Valid(AddSchool(db, s).db)
  {
    AddSchoolKeepsKeys(db, s);
    AddSchoolKeepsRefs(db, s);
  }

  lemma AddSchoolKeepsKeys(db: Store, s: School)
    requires Valid(db) && AddSchool(db, s).Committed?
    ensures KeysValid(AddSchool(db, s).db) && UniqueValid(AddSchool(db, s).db)
  {
    var db' := AddSchool(db, s).db;
    KeyedAppend(db.schools, db.nextId, s);
    KeyedGrow(db.standards, db.nextId, db'.nextId);
    KeyedGrow(db.divisions, db.nextId, db'.nextId);
    KeyedGrow(db.students, db.nextId, db'.nextId);
    KeyedGrow(db.teachers, db.nextId, db'.nextId);
    KeyedGrow(db.users, db.nextId, db'.nextId);
    assert forall r :: r in db'.schools <==> r in db.schools || r == Row(db.nextId, s);
  }

  lemma AddSchoolKeepsRefs(db: Store, s: School)
    requires Valid(db) && AddSchool(db, s).Committed?
    ensures RefsValid(AddSchool(db, s).db)
  {
    var db' := AddSchool(db, s).db;
    KeyedAppend(db.schools, db.nextId, s);
    assert forall r :: r in db'.schools <==> r in db.schools || r == Row(db.nextId, s);
  }

  lemma AddStandardKeepsValid(db: Store, s: Standard)
    requires Valid(db)
    ensures Valid(AddStandard(db, s).db)
  {
    var db' := AddStandard(db, s).db;
    KeyedAppend(db.standards, db.nextId, s);
    KeyedGrow(db.schools, db.nextId, db'.nextId);
    KeyedGrow(db.divisions, db.nextId, db'.nextId);
    KeyedGrow(db.students, db.nextId, db'.nextId);
    KeyedGrow(db.teachers, db.nextId, db'.nextId);
    KeyedGrow(db.users, db.nextId, db'.nextId);
  }

  lemma AddDivisionKeepsValid(db: Store, d: Division)
    requires Valid(db)
    ensures Valid(AddDivision(db, d).db)
  {
    var db' := AddDivision(db, d).db;
    KeyedAppend(db.divisions, db.nextId, d);
    KeyedGrow(db.schools, db.nextId, db'.nextId);
    KeyedGrow(db.standards, db.nextId, db'.nextId);
    KeyedGrow(db.students, db.nextId, db'.nextId);
    KeyedGrow(db.teachers, db.nextId, db'.nextId);
    KeyedGrow(db.users, db.nextId, db'.nextId);
  }

  lemma AddStudentKeepsValid(db: Store, s: Student)
    requires Valid(db) && AddStudent(db, s).Committed?
    ensures Valid(AddStudent(db, s).db)
  {
    AddStudentKeepsKeys(db, s);
    AddStudentKeepsRefs(db, s);
  }

  lemma AddStudentKeepsKeys(db: Store, s: Student)
    requires Valid(db) && AddStudent(db, s).Committed?
    ensures KeysValid(AddStudent(db, s).db) && UniqueValid(AddStudent(db, s).db)
  {
    var db' := AddStudent(db, s).db;
    KeyedAppend(db.students, db.nextId, s);
    KeyedGrow(db.schools, db.nextId, db'.nextId);
    KeyedGrow(db.standards, db.nextId, db'.nextId);
    KeyedGrow(db.divisions, db.nextId, db'.nextId);
    KeyedGrow(db.teachers, db.nextId, db'.nextId);
    KeyedGrow(db.users, db.nextId, db'.nextId);
    assert forall r :: r in db'.students <==> r in db.students || r == Row(db.nextId, s);
  }

  lemma AddStudentKeepsRefs(db: Store, s: Student)
    requires Valid(db) && AddStudent(db, s).Committed?
    ensures RefsValid(AddStudent(db, s).db)
  {
    var db' := AddStudent(db, s).db;
    KeyedAppend(db.students, db.nextId, s);
    assert forall r :: r in db'.students <==> r in db.students || r == Row(db.nextId, s);
  }

  lemma AddTeacherKeepsValid(db: Store, t: Teacher)
    requires Valid(db) && AddTeacher(db, t).Committed?
    ensures Valid(AddTeacher(db, t).db)
  {
    AddTeacherKeepsKeys(db, t);
    AddTeacherKeepsRefs(db, t);
  }

  lemma AddTeacherKeepsKeys(db: Store, t: Teacher)
    requires Valid(db) && AddTeacher(db, t).Committed?
    ensures KeysValid(AddTeacher(db, t).db) && UniqueValid(AddTeacher(db, t).db)
  {
    var db' := AddTeacher(db, t).db;
    KeyedAppend(db.teachers, db.nextId, t);
    KeyedGrow(db.schools, db.nextId, db'.nextId);
    KeyedGrow(db.standards, db.nextId, db'.nextId);
    KeyedGrow(db.divisions, db.nextId, db'.nextId);
    KeyedGrow(db.students, db.nextId, db'.nextId);
    KeyedGrow(db.users, db.nextId, db'.nextId);
    assert forall r :: r in db'.teachers <==> r in db.teachers || r == Row(db.nextId, t);
  }

  lemma AddTeacherKeepsRefs(db: Store, t: Teacher)
    requires Valid(db) && AddTeacher(db, t).Committed?
    ensures RefsValid(AddTeacher(db, t).db)
  {
    var db' := AddTeacher(db, t).db;
    KeyedAppend(db.teachers, db.nextId, t);
    assert forall r :: r in db'.teachers <==> r in db.teachers || r == Row(db.nextId, t);
  }

  lemma AddUserKeepsValid(db: Store, u: SchoolUser)
    requires Valid(db) && AddUser(db, u).Committed?
    ensures Valid(AddUser(db, u).db)
  {
    AddUserKeepsKeys(db, u);
    AddUserKeepsRefs(db, u);
  }

  lemma AddUserKeepsKeys(db: Store, u: SchoolUser)
    requires Valid(db) && AddUser(db, u).Committed?
    ensures KeysValid(AddUser(db, u).db) && UniqueValid(AddUser(db, u).db)
  {
    var db' := AddUser(db, u).db;
    KeyedAppend(db.users, db.nextId, u);
    KeyedGrow(db.schools, db.nextId, db'.nextId);
    KeyedGrow(db.standards, db.nextId, db'.nextId);
    KeyedGrow(db.divisions, db.nextId, db'.nextId);
    KeyedGrow(db.students, db.nextId, db'.nextId);
    KeyedGrow(db.teachers, db.nextId, db'.nextId);
    var x := Row(db.nextId, u);
    assert forall r :: r in db'.users <==> r in db.users || r == x;
    assert forall r :: r in db.users ==> r.id < db.nextId;
  }

  lemma AddUserKeepsRefs(db: Store, u: SchoolUser)
    requires Valid(db) && AddUser(db, u).Committed?
    ensures RefsValid(AddUser(db, u).db)
  {
    var db' := AddUser(db, u).db;
    KeyedAppend(db.users, db.nextId, u);
    var x := Row(db.nextId, u);
    assert forall r :: r in db'.users <==> r in db.users || r == x;
    assert forall r :: r in db.users ==> r.id < db.nextId;
  }

  /** A key the counter has not handed out yet is referenced by no credential. */
  lemma FreshIdHasNoUser(db: Store, id: int)
    requires Valid(db) && id >= db.nextId
    ensures !StudentHasUser(db.users, id)
  {
    forall x | x in db.users ensures x.rec.studentId != Some(id) {
      assert UserRefsResolve(db, x.rec);
      if x.rec.studentId.Some? {
        var y :| y in db.students && y.id == x.rec.studentId.value;
      }
    }
  }

  lemma IdsFilter<T(!new)>(t: Table<T>, p: Row<T> -> bool, k: int)
    ensures k in Ids(Filter(t, p)) <==> exists r :: r in t && p(r) && r.id == k
  {
  }

  lemma SaveStudentKeepsValid(db: Store, id: int, s: Student)
    requires Valid(db) && SaveStudent(db, id, s).Some?
    ensures Valid(SaveStudent(db, id, s).value)
  {
    SaveStudentKeepsKeys(db, id, s);
    SaveStudentKeepsRefs(db, id, s);
  }

  lemma SaveStudentKeepsKeys(db: Store, id: int, s: Student)
    requires Valid(db) && SaveStudent(db, id, s).Some?
    ensures KeysValid(SaveStudent(db, id, s).value) && UniqueValid(SaveStudent(db, id, s).value)
  {
    var db' := SaveStudent(db, id, s).value;
    KeyedMap(db.students, db.nextId, (r: Row<Student>) => if r.id == id then s else r.rec);
  }

  lemma SaveStudentKeepsRefs(db: Store, id: int, s: Student)
    requires Valid(db) && SaveStudent(db, id, s).Some?
    ensures RefsValid(SaveStudent(db, id, s).value)
  {
    ReplaceRows(db.students, id, s);
  }

  lemma SaveTeacherKeepsValid(db: Store, id: int, t: Teacher)
    requires Valid(db) && SaveTeacher(db, id, t).Some?
    ensures Valid(SaveTeacher(db, id, t).value)
  {
    SaveTeacherKeepsKeys(db, id, t);
    SaveTeacherKeepsRefs(db, id, t);
  }

  lemma SaveTeacherKeepsKeys(db: Store, id: int, t: Teacher)
    requires Valid(db) && SaveTeacher(db, id, t).Some?
    ensures KeysValid(SaveTeacher(db, id, t).value) && UniqueValid(SaveTeacher(db, id, t).value)
  {
    var db' := SaveTeacher(db, id, t).value;
    KeyedMap(db.teachers, db.nextId, (r: Row<Teacher>) => if r.id == id then t else r.rec);
  }

  lemma SaveTeacherKeepsRefs(db: Store, id: int, t: Teacher)
    requires Valid(db) && SaveTeacher(db, id, t).Some?
    ensures RefsValid(SaveTeacher(db, id, t).value)
  {
    ReplaceRows(db.teachers, id, t);
  }

  /** The reference part of `RefsValid` for credentials, over plain key sets. */
  predicate UsersResolveIn(users: Table<SchoolUser>, schools: set<int>, students: set<int>, teachers: set<int>) {
    forall u :: u in users ==>
      && u.rec.schoolId in schools
      && (u.rec.studentId.Some? ==> u.rec.studentId.value in students)
      && (u.rec.teacherId.Some? ==> u.rec.teacherId.value in teachers)
  }

  lemma UsersResolveInIff(db: Store)
    ensures (forall r :: r in db.users ==> UserRefsResolve(db, r.rec)) <==>
            UsersResolveIn(db.users, Ids(db.schools), Ids(db.students), Ids(db.teachers))
  {
  }

  lemma IdsRemove<T(!new)>(t: Table<T>, id: int)
    ensures Ids(Remove(t, id)) == Ids(t) - {id}
  {
    var r := Remove(t, id);
    forall k | k in Ids(t) - {id} ensures k in Ids(r) {
      var x :| x in t && x.id == k;
      assert x in r;
    }
  }

  /** Keys outside `gone` survive a filter that drops only rows whose key is in `gone`. */
  lemma IdsFilterKeeps<T(!new)>(t: Table<T>, p: Row<T> -> bool, gone: set<int>)
    requires forall r :: r in t && !p(r) ==> r.id in gone
    ensures Ids(t) - gone <= Ids(Filter(t, p))
  {
    forall k | k in Ids(t) - gone ensures k in Ids(Filter(t, p)) {
      var x :| x in t && x.id == k;
      assert x in Filter(t, p);
    }
  }

  lemma DetachStudentsKeeps(users: Table<SchoolUser>, gone: set<int>, next: int,
                            schools: set<int>, before: set<int>, after: set<int>, teachers: set<int>)
    requires Keyed(users, next) && UniqueUsernames(users) && OneUserPerStudent(users)
    requires UsersResolveIn(users, schools, before, teachers) && before - gone <= after
    ensures Keyed(DetachStudents(users, gone), next) && Ids(DetachStudents(users, gone)) == Ids(users)
    ensures UniqueUsernames(DetachStudents(users, gone)) && OneUserPerStudent(DetachStudents(users, gone))
    ensures UsersResolveIn(DetachStudents(users, gone), schools, after, teachers)
  {
    DetachStudentsKeyed(users, gone, next);
    DetachStudentsResolves(users, gone, schools, before, after, teachers);
  }

  /** Clearing references keeps the keys and both uniqueness constraints. */
  lemma DetachStudentsKeyed(users: Table<SchoolUser>, gone: set<int>, next: int)
    requires Keyed(users, next) && UniqueUsernames(users) && OneUserPerStudent(users)
    ensures Keyed(DetachStudents(users, gone), next) && Ids(DetachStudents(users, gone)) == Ids(users)
    ensures UniqueUsernames(DetachStudents(users, gone)) && OneUserPerStudent(DetachStudents(users, gone))
  {
    var f := (u: Row<SchoolUser>) =>
      if u.rec.studentId.Some? && u.rec.studentId.value in gone then u.rec.(studentId := None) else u.rec;
    KeyedMap(users, next, f);
    MapUsersKeepsUnique(users, next, f);
  }

  /** Clearing the references into `gone` leaves only references that still resolve. */
  lemma DetachStudentsResolves(users: Table<SchoolUser>, gone: set<int>, schools: set<int>, before: set<int>, after: set<int>, teachers: set<int>)
    requires UsersResolveIn(users, schools, before, teachers) && before - gone <= after
    ensures UsersResolveIn(DetachStudents(users, gone), schools, after, teachers)
  {
    var m := DetachStudents(users, gone);
    forall u | u in m
      ensures && u.rec.schoolId in schools
              && (u.rec.studentId.Some? ==> u.rec.studentId.value in after)
              && (u.rec.teacherId.Some? ==> u.rec.teacherId.value in teachers)
    {
      var i :| 0 <= i < |m| && m[i] == u;
      assert users[i] in users;
    }
  }

  lemma DetachTeachersKeeps(users: Table<SchoolUser>, gone: set<int>, next: int,
                            schools: set<int>, students: set<int>, before: set<int>, after: set<int>)
    requires Keyed(users, next) && UniqueUsernames(users) && OneUserPerStudent(users)
    requires UsersResolveIn(users, schools, students, before) && before - gone <= after
    ensures Keyed(DetachTeachers(users, gone), next) && Ids(DetachTeachers(users, gone)) == Ids(users)
    ensures UniqueUsernames(DetachTeachers(users, gone)) && OneUserPerStudent(DetachTeachers(users, gone))
    ensures UsersResolveIn(DetachTeachers(users, gone), schools, students, after)
  {
    DetachTeachersKeyed(users, gone, next);
    DetachTeachersResolves(users, gone, schools, students, before, after);
  }

  /** Clearing references keeps the keys and both uniqueness constraints. */
  lemma DetachTeachersKeyed(users: Table<SchoolUser>, gone: set<int>, next: int)
    requires Keyed(users, next) && UniqueUsernames(users) && OneUserPerStudent(users)
    ensures Keyed(DetachTeachers(users, gone), next) && Ids(DetachTeachers(users, gone)) == Ids(users)
    ensures UniqueUsernames(DetachTeachers(users, gone)) && OneUserPerStudent(DetachTeachers(users, gone))
  {
    var f := (u: Row<SchoolUser>) =>
      if u.rec.teacherId.Some? && u.rec.teacherId.value in gone then u.rec.(teacherId := None) else u.rec;
    KeyedMap(users, next, f);
    MapUsersKeepsUnique(users, next, f);
  }

  /** Clearing the references into `gone` leaves only references that still resolve. */
  lemma DetachTeachersResolves(users: Table<SchoolUser>, gone: set<int>, schools: set<int>, students: set<int>, before: set<int>, after: set<int>)
    requires UsersResolveIn(users, schools, students, before) && before - gone <= after
    ensures UsersResolveIn(DetachTeachers(users, gone), schools, students, after)
  {
    var m := DetachTeachers(users, gone);
    forall u | u in m
      ensures && u.rec.schoolId in schools
              && (u.rec.studentId.Some? ==> u.rec.studentId.value in students)
              && (u.rec.teacherId.Some? ==> u.rec.teacherId.value in after)
    {
      var i :| 0 <= i < |m| && m[i] == u;
      assert users[i] in users;
    }
  }

  /** Dropping credentials keeps every constraint on the ones that remain. */
  lemma FilterUsersKeeps(users: Table<SchoolUser>, p: Row<SchoolUser> -> bool, next: int)
    requires Keyed(users, next) && UniqueUsernames(users) && OneUserPerStudent(users)
    ensures Keyed(Filter(users, p), next)
    ensures UniqueUsernames(Filter(users, p)) && OneUserPerStudent(Filter(users, p))
  {
    KeyedFilter(users, next, p);
  }

  lemma DeleteStudentKeepsValid(db: Store, id: int)
    requires Valid(db)
    ensures Valid(DeleteStudent(db, id))
  {
    var db' := DeleteStudent(db, id);
    KeyedFilter(db.students, db.nextId, (r: Row<Student>) => r.id != id);
    IdsRemove(db.students, id);
    UsersResolveInIff(db);
    DetachStudentsKeeps(db.users, {id}, db.nextId, Ids(db.schools), Ids(db.students), Ids(db'.students), Ids(db.teachers));
    UsersResolveInIff(db');
  }

  lemma DeleteTeacherKeepsValid(db: Store, id: int)
    requires Valid(db)
    ensures Valid(DeleteTeacher(db, id))
  {
    var db' := DeleteTeacher(db, id);
    KeyedFilter(db.teachers, db.nextId, (r: Row<Teacher>) => r.id != id);
    IdsRemove(db.teachers, id);
    UsersResolveInIff(db);
    DetachTeachersKeeps(db.users, {id}, db.nextId, Ids(db.schools), Ids(db.students), Ids(db.teachers), Ids(db'.teachers));
    UsersResolveInIff(db');
  }

  lemma DeleteStandardKeepsValid(db: Store, id: int)
    requires Valid(db)
    ensures Valid(DeleteStandard(db, id))
  {
    DeleteStandardKeepsKeys(db, id);
    DeleteStandardKeepsRefs(db, id);
  }

  lemma DeleteStandardKeepsKeys(db: Store, id: int)
    requires Valid(db)
    ensures KeysValid(DeleteStandard(db, id)) && UniqueValid(DeleteStandard(db, id))
  {
    var db' := DeleteStandard(db, id);
    var gone := StandardStudentIds(db, id);
    KeyedFilter(db.standards, db.nextId, (r: Row<Standard>) => r.id != id);
    KeyedFilter(db.students, db.nextId, (r: Row<Student>) => r.rec.standardId != id);
    IdsRemove(db.standards, id);
    IdsFilterKeeps(db.students, (r: Row<Student>) => r.rec.standardId != id, gone);
    UsersResolveInIff(db);
    DetachStudentsKeeps(db.users, gone, db.nextId, Ids(db.schools), Ids(db.students), Ids(db'.students), Ids(db.teachers));
    UsersResolveInIff(db');
  }

  lemma DeleteStandardKeepsRefs(db: Store, id: int)
    requires Valid(db)
    ensures RefsValid(DeleteStandard(db, id))
  {
    var db' := DeleteStandard(db, id);
    var gone := StandardStudentIds(db, id);
    IdsRemove(db.standards, id);
    IdsFilterKeeps(db.students, (r: Row<Student>) => r.rec.standardId != id, gone);
    UsersResolveInIff(db);
    DetachStudentsResolves(db.users, gone, Ids(db.schools), Ids(db.students), Ids(db'.students), Ids(db.teachers));
    UsersResolveInIff(db');
  }

  lemma DeleteDivisionKeepsValid(db: Store, id: int)
    requires Valid(db)
    ensures Valid(DeleteDivision(db, id))
  {
    DeleteDivisionKeepsKeys(db, id);
    DeleteDivisionKeepsRefs(db, id);
  }

  lemma DeleteDivisionKeepsKeys(db: Store, id: int)
    requires Valid(db)
    ensures KeysValid(DeleteDivision(db, id)) && UniqueValid(DeleteDivision(db, id))
  {
    var db' := DeleteDivision(db, id);
    var gone := DivisionStudentIds(db, id);
    KeyedFilter(db.divisions, db.nextId, (r: Row<Division>) => r.id != id);
    KeyedFilter(db.students, db.nextId, (r: Row<Student>) => r.rec.divisionId != id);
    IdsRemove(db.divisions, id);
    IdsFilterKeeps(db.students, (r: Row<Student>) => r.rec.divisionId != id, gone);
    UsersResolveInIff(db);
    DetachStudentsKeeps(db.users, gone, db.nextId, Ids(db.schools), Ids(db.students), Ids(db'.students), Ids(db.teachers));
    UsersResolveInIff(db');
  }

  lemma DeleteDivisionKeepsRefs(db: Store, id: int)
    requires Valid(db)
    ensures RefsValid(DeleteDivision(db, id))
  {
    var db' := DeleteDivision(db, id);
    var gone := DivisionStudentIds(db, id);
    IdsRemove(db.divisions, id);
    IdsFilterKeeps(db.students, (r: Row<Student>) => r.rec.divisionId != id, gone);
    UsersResolveInIff(db);
    DetachStudentsResolves(db.users, gone, Ids(db.schools), Ids(db.students), Ids(db'.students), Ids(db.teachers));
    UsersResolveInIff(db');
  }

  lemma DeleteSchoolKeepsValid(db: Store, id: int)
    requires Valid(db)
    ensures Valid(DeleteSchool(db, id))
  {
    DeleteSchoolKeepsKeys(db, id);
    DeleteSchoolKeepsRefs(db, id);
  }

  /** The school cascade keeps keys and uniqueness. */
  lemma DeleteSchoolKeepsKeys(db: Store, id: int)
    requires Valid(db)
    ensures KeysValid(DeleteSchool(db, id)) && UniqueValid(DeleteSchool(db, id))
  {
    var goneStudents := SchoolStudentIds(db, id);
    var goneTeachers := SchoolTeacherIds(db, id);
    var kept := UsersOutsideSchool(db, id);
    KeyedFilter(db.schools, db.nextId, (r: Row<School>) => r.id != id);
    KeyedFilter(db.students, db.nextId, (r: Row<Student>) => r.rec.schoolId != id);
    KeyedFilter(db.teachers, db.nextId, (r: Row<Teacher>) => r.rec.schoolId != id);
    FilterUsersKeeps(db.users, (u: Row<SchoolUser>) => u.rec.schoolId != id, db.nextId);
    DetachStudentsKeyed(kept, goneStudents, db.nextId);
    DetachTeachersKeyed(DetachStudents(kept, goneStudents), goneTeachers, db.nextId);
  }

  /** The credentials outside a deleted school still name a surviving school. */
  lemma KeptUsersResolve(db: Store, id: int)
    requires UsersResolveIn(db.users, Ids(db.schools), Ids(db.students), Ids(db.teachers))
    ensures UsersResolveIn(UsersOutsideSchool(db, id), Ids(db.schools) - {id}, Ids(db.students), Ids(db.teachers))
  {
    forall u | u in UsersOutsideSchool(db, id)
      ensures u in db.users && u.rec.schoolId != id
    {
    }
  }

  /** The school cascade leaves only references that resolve. */
  lemma DeleteSchoolKeepsRefs(db: Store, id: int)
    requires Valid(db)
    ensures RefsValid(DeleteSchool(db, id))
  {
    var db' := DeleteSchool(db, id);
    var goneStudents := SchoolStudentIds(db, id);
    var goneTeachers := SchoolTeacherIds(db, id);
    var kept := UsersOutsideSchool(db, id);
    var schools' := Ids(db.schools) - {id};
    IdsRemove(db.schools, id);
    IdsFilterKeeps(db.students, (r: Row<Student>) => r.rec.schoolId != id, goneStudents);
    IdsFilterKeeps(db.teachers, (r: Row<Teacher>) => r.rec.schoolId != id, goneTeachers);
    UsersResolveInIff(db);
    KeptUsersResolve(db, id);
    DetachStudentsResolves(kept, goneStudents, schools', Ids(db.students), Ids(db'.students), Ids(db.teachers));
    var mid := DetachStudents(kept, goneStudents);
    DetachTeachersResolves(mid, goneTeachers, schools', Ids(db'.students), Ids(db.teachers), Ids(db'.teachers));
    UsersResolveInIff(db');
  }

  lemma PurgeStudentKeepsValid(db: Store, id: int)
    requires Valid(db)
    ensures Valid(PurgeStudent(db, id))
  {
    var db' := PurgeStudent(db, id);
    KeyedFilter(db.students, db.nextId, (r: Row<Student>) => r.id != id);
    IdsRemove(db.students, id);
    FilterUsersKeeps(db.users, (u: Row<SchoolUser>) => u.rec.studentId != Some(id), db.nextId);
    UsersResolveInIff(db);
    UsersResolveInIff(db');
  }

  lemma PurgeTeacherKeepsValid(db: Store, id: int)
    requires Valid(db)
    ensures Valid(PurgeTeacher(db, id))
  {
    var db' := PurgeTeacher(db, id);
    KeyedFilter(db.teachers, db.nextId, (r: Row<Teacher>) => r.id != id);
    IdsRemove(db.teachers, id);
    FilterUsersKeeps(db.users, (u: Row<SchoolUser>) => u.rec.teacherId != Some(id), db.nextId);
    UsersResolveInIff(db);
    UsersResolveInIff(db');
  }

  // ---------------------------------------------------------------------
  // What each delete does

  /** The declarative delete of a student removes exactly that student and
      keeps every credential, in place, with only a reference to the removed
      student cleared. */
  lemma DeleteStudentEffect(db: Store, id: int)
    ensures Ids(DeleteStudent(db, id).students) == Ids(db.students) - {id}
    ensures |DeleteStudent(db, id).users| == |db.users|
    ensures forall i :: 0 <= i < |db.users| ==>
              DeleteStudent(db, id).users[i] ==
                Row(db.users[i].id,
                    if db.users[i].rec.studentId == Some(id) then db.users[i].rec.(studentId := None)
                    else db.users[i].rec)
    ensures forall u :: u in DeleteStudent(db, id).users ==> u.rec.studentId != Some(id)
    ensures forall r :: r in DeleteStudent(db, id).students <==> r in db.students && r.id != id
    ensures DeleteStudent(db, id).schools == db.schools && DeleteStudent(db, id).standards == db.standards
    ensures DeleteStudent(db, id).divisions == db.divisions && DeleteStudent(db, id).teachers == db.teachers && DeleteStudent(db, id).nextId == db.nextId
  {
    IdsRemove(db.students, id);
  }

  /** Under the declarative delete a student's credential outlives the
      student and afterwards references no person at all. */
  lemma DeleteStudentOrphansCredential(db: Store, id: int, k: nat)
    requires k < |db.users| && db.users[k].rec.studentId == Some(id) && db.users[k].rec.teacherId.None?
    ensures exists u :: u in DeleteStudent(db, id).users &&
              u.id == db.users[k].id && u.rec.studentId.None? && u.rec.teacherId.None?
  {
    DeleteStudentEffect(db, id);
    assert DeleteStudent(db, id).users[k] in DeleteStudent(db, id).users;
  }

  lemma DeleteTeacherEffect(db: Store, id: int)
    ensures Ids(DeleteTeacher(db, id).teachers) == Ids(db.teachers) - {id}
    ensures |DeleteTeacher(db, id).users| == |db.users|
    ensures forall i :: 0 <= i < |db.users| ==>
              DeleteTeacher(db, id).users[i] ==
                Row(db.users[i].id,
                    if db.users[i].rec.teacherId == Some(id) then db.users[i].rec.(teacherId := None)
                    else db.users[i].rec)
    ensures forall u :: u in DeleteTeacher(db, id).users ==> u.rec.teacherId != Some(id)
    ensures forall r :: r in DeleteTeacher(db, id).teachers <==> r in db.teachers && r.id != id
    ensures DeleteTeacher(db, id).schools == db.schools && DeleteTeacher(db, id).standards == db.standards
    ensures DeleteTeacher(db, id).divisions == db.divisions && DeleteTeacher(db, id).students == db.students && DeleteTeacher(db, id).nextId == db.nextId
  {
    IdsRemove(db.teachers, id);
  }

  lemma DeleteTeacherOrphansCredential(db: Store, id: int, k: nat)
    requires k < |db.users| && db.users[k].rec.teacherId == Some(id) && db.users[k].rec.studentId.None?
    ensures exists u :: u in DeleteTeacher(db, id).users &&
              u.id == db.users[k].id && u.rec.studentId.None? && u.rec.teacherId.None?
  {
    DeleteTeacherEffect(db, id);
    assert DeleteTeacher(db, id).users[k] in DeleteTeacher(db, id).users;
  }

  /** Deleting a school removes everything that belongs to it and nothing
      that belongs to another school. Each surviving credential stays in
      place with only its references to removed students and teachers
      cleared. */
  lemma DeleteSchoolEffect(db: Store, id: int)
    ensures Ids(DeleteSchool(db, id).schools) == Ids(db.schools) - {id}
    ensures forall r :: r in DeleteSchool(db, id).students <==> r in db.students && r.rec.schoolId != id
    ensures forall r :: r in DeleteSchool(db, id).teachers <==> r in db.teachers && r.rec.schoolId != id
    ensures forall u :: u in DeleteSchool(db, id).users ==> u.rec.schoolId != id
    ensures Ids(DeleteSchool(db, id).users) == set u | u in db.users && u.rec.schoolId != id :: u.id
    ensures DeleteSchool(db, id).standards == db.standards && DeleteSchool(db, id).divisions == db.divisions && DeleteSchool(db, id).nextId == db.nextId
    ensures forall u :: u in UsersOutsideSchool(db, id) <==> u in db.users && u.rec.schoolId != id
    ensures |DeleteSchool(db, id).users| == |UsersOutsideSchool(db, id)|
    ensures forall i :: 0 <= i < |UsersOutsideSchool(db, id)| ==>
              DeleteSchool(db, id).users[i] ==
                Row(UsersOutsideSchool(db, id)[i].id,
                    ClearRefs(UsersOutsideSchool(db, id)[i].rec, SchoolStudentIds(db, id), SchoolTeacherIds(db, id)))
  {
    IdsRemove(db.schools, id);
    var goneStudents := SchoolStudentIds(db, id);
    var goneTeachers := SchoolTeacherIds(db, id);
    var kept := UsersOutsideSchool(db, id);
    var mid := DetachStudents(kept, goneStudents);
    var out := DetachTeachers(mid, goneTeachers);
    forall u | u in out ensures u.rec.schoolId == kept[IndexOf(out, u)].rec.schoolId && u.id == kept[IndexOf(out, u)].id {
    }
    forall u | u in out ensures u.rec.schoolId != id {
      assert kept[IndexOf(out, u)] in kept;
    }
    forall k | k in Ids(out) ensures k in set u | u in db.users && u.rec.schoolId != id :: u.id {
      var u :| u in out && u.id == k;
      assert kept[IndexOf(out, u)] in kept;
    }
    forall k | k in set u | u in db.users && u.rec.schoolId != id :: u.id ensures k in Ids(out) {
      var u :| u in db.users && u.rec.schoolId != id && u.id == k;
      assert u in kept;
      var j := IndexOf(kept, u);
      assert out[j] in out;
    }
  }

  /** Deleting a standard removes it and, by cascade, exactly the students
      in it; every credential stays in place, with only a reference to a
      removed student cleared. */
  lemma DeleteStandardEffect(db: Store, id: int)
    ensures Ids(DeleteStandard(db, id).standards) == Ids(db.standards) - {id}
    ensures forall r :: r in DeleteStandard(db, id).students <==> r in db.students && r.rec.standardId != id
    ensures Ids(DeleteStandard(db, id).users) == Ids(db.users)
    ensures forall u, r :: u in DeleteStandard(db, id).users && r in db.students && r.rec.standardId == id ==>
              u.rec.studentId != Some(r.id)
    ensures DeleteStandard(db, id).schools == db.schools && DeleteStandard(db, id).divisions == db.divisions
    ensures DeleteStandard(db, id).teachers == db.teachers && DeleteStandard(db, id).nextId == db.nextId
    ensures |DeleteStandard(db, id).users| == |db.users|
    ensures forall i :: 0 <= i < |db.users| ==>
              DeleteStandard(db, id).users[i] == Row(db.users[i].id, ClearRefs(db.users[i].rec, StandardStudentIds(db, id), {}))
  {
    IdsRemove(db.standards, id);
    var gone := StandardStudentIds(db, id);
    var out := DeleteStandard(db, id).users;
    DetachStudentsKeepsIds(db.users, gone);
    forall u, r | u in out && r in db.students && r.rec.standardId == id ensures u.rec.studentId != Some(r.id) {
      assert r.id in gone;
      var i := IndexOf(out, u);
      assert out[i] == u;
    }
  }

  /** Deleting a division removes it and, by cascade, exactly the students
      in it; every credential stays in place, with only a reference to a
      removed student cleared. */
  lemma DeleteDivisionEffect(db: Store, id: int)
    ensures Ids(DeleteDivision(db, id).divisions) == Ids(db.divisions) - {id}
    ensures forall r :: r in DeleteDivision(db, id).students <==> r in db.students && r.rec.divisionId != id
    ensures Ids(DeleteDivision(db, id).users) == Ids(db.users)
    ensures forall u, r :: u in DeleteDivision(db, id).users && r in db.students && r.rec.divisionId == id ==>
              u.rec.studentId != Some(r.id)
    ensures DeleteDivision(db, id).schools == db.schools && DeleteDivision(db, id).standards == db.standards
    ensures DeleteDivision(db, id).teachers == db.teachers && DeleteDivision(db, id).nextId == db.nextId
    ensures |DeleteDivision(db, id).users| == |db.users|
    ensures forall i :: 0 <= i < |db.users| ==>
              DeleteDivision(db, id).users[i] == Row(db.users[i].id, ClearRefs(db.users[i].rec, DivisionStudentIds(db, id), {}))
  {
    IdsRemove(db.divisions, id);
    var gone := DivisionStudentIds(db, id);
    var out := DeleteDivision(db, id).users;
    DetachStudentsKeepsIds(db.users, gone);
    forall u, r | u in out && r in db.students && r.rec.divisionId == id ensures u.rec.studentId != Some(r.id) {
      assert r.id in gone;
      var i := IndexOf(out, u);
      assert out[i] == u;
    }
  }

  /** Clearing student references keeps the credential keys. */
  lemma DetachStudentsKeepsIds(users: Table<SchoolUser>, gone: set<int>)
    ensures Ids(DetachStudents(users, gone)) == Ids(users)
  {
    var m := DetachStudents(users, gone);
    forall k | k in Ids(m) ensures k in Ids(users) {
      var x :| x in m && x.id == k;
      var i := IndexOf(m, x);
      assert users[i] in users;
    }
    forall k | k in Ids(users) ensures k in Ids(m) {
      var x :| x in users && x.id == k;
      var i := IndexOf(users, x);
      assert m[i] in m;
    }
  }

  /** The list screens' delete leaves no credential that references the
      removed person, and keeps every other credential unchanged. */
  lemma PurgeStudentEffect(db: Store, id: int)
    ensures Ids(PurgeStudent(db, id).students) == Ids(db.students) - {id}
    ensures forall u :: u in PurgeStudent(db, id).users <==> u in db.users && u.rec.studentId != Some(id)
    ensures forall r :: r in PurgeStudent(db, id).students <==> r in db.students && r.id != id
    ensures PurgeStudent(db, id).schools == db.schools && PurgeStudent(db, id).standards == db.standards
    ensures PurgeStudent(db, id).divisions == db.divisions && PurgeStudent(db, id).teachers == db.teachers && PurgeStudent(db, id).nextId == db.nextId
  {
    IdsRemove(db.students, id);
  }

  lemma PurgeTeacherEffect(db: Store, id: int)
    ensures Ids(PurgeTeacher(db, id).teachers) == Ids(db.teachers) - {id}
    ensures forall u :: u in PurgeTeacher(db, id).users <==> u in db.users && u.rec.teacherId != Some(id)
    ensures forall r :: r in PurgeTeacher(db, id).teachers <==> r in db.teachers && r.id != id
    ensures PurgeTeacher(db, id).schools == db.schools && PurgeTeacher(db, id).standards == db.standards
    ensures PurgeTeacher(db, id).divisions == db.divisions && PurgeTeacher(db, id).students == db.students && PurgeTeacher(db, id).nextId == db.nextId
  {
    IdsRemove(db.teachers, id);
  }
}
