/** The student list screen: the filtered, searched and paginated listing
    with each student's login name, the inline update of a student's
    content fields, the delete that takes the student's credentials along,
    and the rows of the spreadsheet export. */
module StudentList {
  import opened Tables
  import opened Text
  import opened Entities
  import opened Database
  import opened Paging

  // ---------------------------------------------------------------------
  // Filter, search and order

  /** The school filter applies only when a positive school id is given. */
  predicate InSchool(schoolId: Option<int>, s: Student) {
    !(schoolId.Some? && schoolId.value > 0) || s.schoolId == schoolId.value
  }

  /** An empty term matches every student. Otherwise the term must occur in
      the name, in the decimal text of the admission number, or in the
      email; a missing admission number matches nothing. */
  predicate MatchesTerm(term: string, d: StudentDetails) {
    || |term| == 0
    || Contains(d.name, term)
    || (d.admissionNo.Some? && Contains(Decimal(d.admissionNo.value), term))
    || Contains(d.email, term)
  }

  predicate Listed(schoolId: Option<int>, term: string, r: Row<Student>) {
    InSchool(schoolId, r.rec) && MatchesTerm(term, r.rec.details)
  }

  /** The students the query selects, in fetch order. */
  function Matching(db: Store, schoolId: Option<int>, term: string): (m: Table<Student>)
    ensures forall r :: r in m <==> r in db.students && Listed(schoolId, term, r)
  {
    Filter(db.students, (r: Row<Student>) => Listed(schoolId, term, r))
  }

  /** `OrderByDescending(StudentId)` over the selected students. */
  function ListOrder(db: Store, schoolId: Option<int>, term: string): Table<Student> {
    Reverse(Matching(db, schoolId, term))
  }

  /** The list holds exactly the selected students, newest key first. */
  lemma ListOrderDescending(db: Store, schoolId: Option<int>, term: string)
    requires Ascending(db.students)
    ensures forall r :: r in ListOrder(db, schoolId, term) <==> r in db.students && Listed(schoolId, term, r)
    ensures forall i, j :: 0 <= i < j < |ListOrder(db, schoolId, term)| ==>
              ListOrder(db, schoolId, term)[i].id > ListOrder(db, schoolId, term)[j].id
  {
    var m := Matching(db, schoolId, term);
    var l := ListOrder(db, schoolId, term);
    FilterAscending(db.students, (r: Row<Student>) => Listed(schoolId, term, r));
    ReverseSameElements(m);
    forall i, j | 0 <= i < j < |l| ensures l[i].id > l[j].id {
      assert l[i] == m[|m| - 1 - i] && l[j] == m[|m| - 1 - j];
    }
  }

  // ---------------------------------------------------------------------
  // The listing

  /** The key of the username dictionary: `StudentId ?? 0`. */
  function StudentKey(u: Row<SchoolUser>): int {
    u.rec.studentId.GetOr(0)
  }

  /** The credentials fetched for the students on the page. */
  function PageCredentials(db: Store, shown: Table<Student>): (c: Table<SchoolUser>)
    ensures forall u :: u in c <==> u in db.users && StudentKey(u) in Ids(shown)
  {
    Filter(db.users, (u: Row<SchoolUser>) => StudentKey(u) in Ids(shown))
  }

  /** The dictionary lookup: the username stored under the student's key,
      or "" when there is none. */
  function UsernameIn(dict: map<int, Row<SchoolUser>>, studentId: int): string {
    if studentId in dict then dict[studentId].rec.username else ""
  }

  /** One line of the listing. The date of birth is carried unformatted. */
  datatype StudentItem = StudentItem(
    srNo: int,
    studentId: int,
    name: string,
    username: string,
    admissionNo: string,
    school: string,
    standard: string,
    division: string,
    dateOfBirth: Option<Date>,
    email: string,
    fatherName: string,
    fatherMobile: string,
    motherName: string,
    motherMobile: string,
    address: string,
    city: string,
    district: string,
    state: string)

  function ItemOf(db: Store, r: Row<Student>, srNo: int, username: string): StudentItem {
    var d := r.rec.details;
    StudentItem(srNo, r.id, d.name, username, NumberText(d.admissionNo),
                SchoolName(db, r.rec.schoolId), StandardName(db, r.rec.standardId),
                DivisionName(db, r.rec.divisionId), d.dateOfBirth, d.email,
                d.fatherName, NumberText(d.fatherNumber), d.motherName, NumberText(d.motherNumber),
                d.address, d.city, d.district, d.state)
  }

  /** The list view, or the error view shown when loading throws. */
  datatype ListView =
    | Listing(items: seq<StudentItem>, page: int, totalPages: nat, totalCount: nat)
    | ListError

  /** The items of one page: serial numbers continue across pages, and each
      student's username comes from the dictionary. */
  function Items(db: Store, rows: Table<Student>, page: int, dict: map<int, Row<SchoolUser>>): (items: seq<StudentItem>)
    ensures |items| == |rows|
    ensures forall i :: 0 <= i < |rows| ==>
              items[i] == ItemOf(db, rows[i], SerialNumber(page, i), UsernameIn(dict, rows[i].id))
    decreases |rows|
  {
    if |rows| == 0 then []
    else
      var n := |rows| - 1;
      var front := rows[..n];
      assert forall i :: 0 <= i < n ==> front[i] == rows[i];
      Items(db, front, page, dict) + [ItemOf(db, rows[n], SerialNumber(page, n), UsernameIn(dict, rows[n].id))]
  }

  /** The students shown for a request: one page of the list order. */
  function Shown(db: Store, schoolId: Option<int>, pageNumber: int, term: string): Table<Student> {
    Paginate(ListOrder(db, schoolId, term), pageNumber).rows
  }

  /** `StudentListController.Index`. */
  function Index(db: Store, schoolId: Option<int>, pageNumber: int, term: string): (v: ListView)
    ensures v.Listing? ==> v.totalCount == |Matching(db, schoolId, term)|
    ensures v.Listing? ==> v.totalPages == TotalPages(v.totalCount) && v.page == ClampPage(pageNumber, v.totalPages)
    ensures v.Listing? ==> |v.items| == |Shown(db, schoolId, pageNumber, term)| <= PageSize
    ensures v.Listing? ==> forall i :: 0 <= i < |v.items| ==>
              && 0 <= PageStart(v.page) + i < |ListOrder(db, schoolId, term)|
              && v.items[i] == ItemOf(db, ListOrder(db, schoolId, term)[PageStart(v.page) + i],
                                      SerialNumber(v.page, i), v.items[i].username)
  {
    var view := Paginate(ListOrder(db, schoolId, term), pageNumber);
    match ToDictionary(PageCredentials(db, view.rows), StudentKey)
    case None => ListError
    case Some(dict) => Listing(Items(db, view.rows, view.page, dict), view.page, view.totalPages, view.totalCount)
  }

  /** The listing is shown exactly when the dictionary can be built. */
  lemma ListingIff(db: Store, schoolId: Option<int>, pageNumber: int, term: string)
    ensures Index(db, schoolId, pageNumber, term).Listing? <==>
            ToDictionary(PageCredentials(db, Shown(db, schoolId, pageNumber, term)), StudentKey).Some?
  {
  }

  lemma ShownAreStudents(db: Store, schoolId: Option<int>, pageNumber: int, term: string)
    ensures forall r :: r in Shown(db, schoolId, pageNumber, term) ==> r in db.students
  {
    PaginateRowsIn(ListOrder(db, schoolId, term), pageNumber);
    ReverseSameElements(Matching(db, schoolId, term));
  }

  /** A student has at most one credential, so the username dictionary is
      always built: the listing never fails on a valid store. */
  lemma ListNeverFails(db: Store, schoolId: Option<int>, pageNumber: int, term: string)
    requires Valid(db)
    ensures Index(db, schoolId, pageNumber, term).Listing?
  {
    var shown := Shown(db, schoolId, pageNumber, term);
    ShownAreStudents(db, schoolId, pageNumber, term);
    NoDuplicateKey(db, shown);
    ToDictionaryFailsIff(PageCredentials(db, shown), StudentKey);
    ListingIff(db, schoolId, pageNumber, term);
  }

  /** Item `i` of a listing shows student `i` of the page with the
      username the dictionary holds for it. */
  lemma IndexItem(db: Store, schoolId: Option<int>, pageNumber: int, term: string, i: nat)
    requires Index(db, schoolId, pageNumber, term).Listing?
    requires i < |Shown(db, schoolId, pageNumber, term)|
    ensures ToDictionary(PageCredentials(db, Shown(db, schoolId, pageNumber, term)), StudentKey).Some?
    ensures i < |Index(db, schoolId, pageNumber, term).items|
    ensures var shown := Shown(db, schoolId, pageNumber, term);
            Index(db, schoolId, pageNumber, term).items[i].username ==
            UsernameIn(ToDictionary(PageCredentials(db, shown), StudentKey).value, shown[i].id)
    ensures Index(db, schoolId, pageNumber, term).items[i].studentId == Shown(db, schoolId, pageNumber, term)[i].id
  {
  }

  /** A positive dictionary key belongs to a credential that references
      that student. */
  lemma PositiveKey(u: Row<SchoolUser>)
    requires StudentKey(u) >= 1
    ensures u.rec.studentId == Some(StudentKey(u))
  {
  }

  /** Students on a valid page have at most one credential each, so the
      dictionary has no duplicate key. */
  lemma NoDuplicateKey(db: Store, shown: Table<Student>)
    requires Valid(db)
    requires forall r :: r in shown ==> r in db.students
    ensures !DuplicateKey(PageCredentials(db, shown), StudentKey)
  {
    var creds := PageCredentials(db, shown);
    assert forall r :: r in shown ==> r.id >= 1;
    CredentialsAscending(db, shown);
    forall i, j | 0 <= i < j < |creds| ensures StudentKey(creds[i]) != StudentKey(creds[j]) {
      assert creds[i].id < creds[j].id;
      assert creds[i] in creds && creds[j] in creds;
      if StudentKey(creds[i]) == StudentKey(creds[j]) {
        SameKeySameCredential(db, shown, creds[i], creds[j]);
      }
    }
  }

  /** The credentials are fetched in key order. */
  lemma CredentialsAscending(db: Store, shown: Table<Student>)
    requires Ascending(db.users)
    ensures Ascending(PageCredentials(db, shown))
  {
    FilterAscending(db.users, (u: Row<SchoolUser>) => StudentKey(u) in Ids(shown));
  }

  /** With one credential per student, two fetched credentials under one
      key are the same credential. */
  lemma SameKeySameCredential(db: Store, shown: Table<Student>, a: Row<SchoolUser>, b: Row<SchoolUser>)
    requires OneUserPerStudent(db.users)
    requires forall r :: r in shown ==> r.id >= 1
    requires a in PageCredentials(db, shown) && b in PageCredentials(db, shown)
    requires StudentKey(a) == StudentKey(b)
    ensures a == b
  {
    var r :| r in shown && r.id == StudentKey(a);
    PositiveKey(a);
    PositiveKey(b);
  }

  /** On a valid store the dictionary holds a student's own credential. */
  lemma CredentialLookup(db: Store, shown: Table<Student>, sid: int)
    requires Valid(db)
    requires sid in Ids(shown)
    requires forall r :: r in shown ==> r in db.students
    ensures ToDictionary(PageCredentials(db, shown), StudentKey).Some?
    ensures var dict := ToDictionary(PageCredentials(db, shown), StudentKey).value;
            && (!StudentHasUser(db.users, sid) ==> UsernameIn(dict, sid) == "")
            && (forall u :: u in db.users && u.rec.studentId == Some(sid) ==> UsernameIn(dict, sid) == u.rec.username)
  {
    var creds := PageCredentials(db, shown);
    NoDuplicateKey(db, shown);
    ToDictionaryFailsIff(creds, StudentKey);
    var dict := ToDictionary(creds, StudentKey).value;
    var r :| r in shown && r.id == sid;
    assert r in db.students;
    if sid in dict {
      var i :| 0 <= i < |creds| && StudentKey(creds[i]) == sid;
      assert creds[i] in creds;
      PositiveKey(creds[i]);
    }
    forall u | u in db.users && u.rec.studentId == Some(sid)
      ensures UsernameIn(dict, sid) == u.rec.username
    {
      assert u in creds;
      var j :| 0 <= j < |creds| && creds[j] == u;
    }
  }

  /** The listing shows each student's own login name, or "" when the
      student has none. */
  lemma ItemShowsCredential(db: Store, schoolId: Option<int>, pageNumber: int, term: string, i: nat)
    requires Valid(db)
    requires i < |Shown(db, schoolId, pageNumber, term)|
    ensures Index(db, schoolId, pageNumber, term).Listing?
    ensures i < |Index(db, schoolId, pageNumber, term).items|
    ensures var item := Index(db, schoolId, pageNumber, term).items[i];
            && item.studentId == Shown(db, schoolId, pageNumber, term)[i].id
            && (!StudentHasUser(db.users, item.studentId) ==> item.username == "")
            && (forall u :: u in db.users && u.rec.studentId == Some(item.studentId) ==> item.username == u.rec.username)
  {
    ListNeverFails(db, schoolId, pageNumber, term);
    IndexItem(db, schoolId, pageNumber, term, i);
    var shown := Shown(db, schoolId, pageNumber, term);
    assert shown[i] in shown;
    ShownAreStudents(db, schoolId, pageNumber, term);
    CredentialLookup(db, shown, shown[i].id);
  }

  /** Every selected student is listed: the `k`-th in list order is item
      `k % 10` of page `k / 10 + 1`, with serial number `k + 1`. */
  lemma EveryStudentListed(db: Store, schoolId: Option<int>, term: string, k: nat)
    requires Valid(db)
    requires k < |Matching(db, schoolId, term)|
    ensures var v := Index(db, schoolId, k / PageSize + 1, term);
            && v.Listing?
            && v.page == k / PageSize + 1
            && k % PageSize < |v.items|
            && v.items[k % PageSize].studentId == ListOrder(db, schoolId, term)[k].id
            && v.items[k % PageSize].srNo == k + 1
  {
    ListNeverFails(db, schoolId, k / PageSize + 1, term);
    ListedAt(db, schoolId, term, k);
  }

  /** When page `k / 10 + 1` can be shown, the `k`-th student in list order
      is item `k % 10` of it, with serial number `k + 1`. */
  lemma ListedAt(db: Store, schoolId: Option<int>, term: string, k: nat)
    requires k < |Matching(db, schoolId, term)|
    requires Index(db, schoolId, k / PageSize + 1, term).Listing?
    ensures var v := Index(db, schoolId, k / PageSize + 1, term);
            && v.page == k / PageSize + 1
            && k % PageSize < |v.items|
            && v.items[k % PageSize].studentId == ListOrder(db, schoolId, term)[k].id
            && v.items[k % PageSize].srNo == k + 1
  {
    var l := ListOrder(db, schoolId, term);
    var p := k / PageSize + 1;
    var i := k % PageSize;
    var v := Index(db, schoolId, p, term);
    ListedPage(db, schoolId, term, k);
    PaginateAt(l, k);
    assert v.items[i] == ItemOf(db, l[k], SerialNumber(p, i), v.items[i].username);
  }

  /** Page `k / 10 + 1` is in range, so it is shown as requested, and it has
      an item at position `k % 10`. */
  lemma ListedPage(db: Store, schoolId: Option<int>, term: string, k: nat)
    requires k < |Matching(db, schoolId, term)|
    requires Index(db, schoolId, k / PageSize + 1, term).Listing?
    ensures var v := Index(db, schoolId, k / PageSize + 1, term);
            v.page == k / PageSize + 1 && k % PageSize < |v.items|
  {
    PaginateAt(ListOrder(db, schoolId, term), k);
  }

  // ---------------------------------------------------------------------
  // Update and delete

  datatype UpdateOutcome = UpdateInvalid | UpdateNotFound | Updated(db: Store)

  /** `UpdateStudent`: a posted student, absent when the body does not bind.
      Only the content fields are copied; the stored key and the school,
      standard and division references stay, whatever was posted. */
  function UpdateStudent(db: Store, posted: Option<Row<Student>>): (o: UpdateOutcome)
    ensures o.UpdateInvalid? <==> posted.None? || posted.value.id <= 0
    ensures o.UpdateNotFound? <==> posted.Some? && posted.value.id > 0 && posted.value.id !in Ids(db.students)
    ensures o.Updated? ==> o.db.schools == db.schools && o.db.standards == db.standards && o.db.divisions == db.divisions
    ensures o.Updated? ==> o.db.teachers == db.teachers && o.db.users == db.users && o.db.nextId == db.nextId
  {
    if posted.None? || posted.value.id <= 0 then UpdateInvalid
    else
      var id := posted.value.id;
      FindIff(db.students, id);
      match Find(db.students, id)
      case None => UpdateNotFound
      case Some(s) => Updated(db.(students := Replace(db.students, id, s.(details := posted.value.rec.details))))
  }

  /** A successful update replaces the student's details by the posted ones,
      keeps its references, and leaves every other student as it was. */
  lemma UpdateChangesOnlyDetails(db: Store, posted: Option<Row<Student>>, k: int)
    requires Ascending(db.students)
    requires UpdateStudent(db, posted).Updated?
    ensures var id := posted.value.id;
            var before := Find(db.students, id).value;
            && Find(UpdateStudent(db, posted).db.students, id) == Some(before.(details := posted.value.rec.details))
            && (k != id ==> Find(UpdateStudent(db, posted).db.students, k) == Find(db.students, k))
  {
    var id := posted.value.id;
    var before := Find(db.students, id).value;
    FindReplace(db.students, id, before.(details := posted.value.rec.details), k);
    FindReplace(db.students, id, before.(details := posted.value.rec.details), id);
  }

  lemma UpdateKeepsValid(db: Store, posted: Option<Row<Student>>)
    requires Valid(db)
    ensures UpdateStudent(db, posted).Updated? ==> Valid(UpdateStudent(db, posted).db)
  {
    if UpdateStudent(db, posted).Updated? {
      var id := posted.value.id;
      var before := Find(db.students, id).value;
      FindIff(db.students, id);
      assert Row(id, before) in db.students;
      SaveStudentKeepsValid(db, id, before.(details := posted.value.rec.details));
    }
  }

  datatype DeleteOutcome = DeleteNotFound | Deleted(db: Store)

  /** `DeleteStudent`: remove every credential of the student, then the
      student, in one save. */
  function DeleteStudent(db: Store, id: int): (o: DeleteOutcome)
    ensures o.DeleteNotFound? <==> id !in Ids(db.students)
    ensures o.Deleted? ==> Ids(o.db.students) == Ids(db.students) - {id}
    ensures o.Deleted? ==> forall u :: u in o.db.users <==> u in db.users && u.rec.studentId != Some(id)
    ensures o.Deleted? ==> o.db.schools == db.schools && o.db.teachers == db.teachers && o.db.nextId == db.nextId
    ensures o.Deleted? ==> o.db.standards == db.standards && o.db.divisions == db.divisions
    ensures o.Deleted? ==> forall r :: r in o.db.students <==> r in db.students && r.id != id
  {
    FindIff(db.students, id);
    if Find(db.students, id).None? then DeleteNotFound
    else
      PurgeStudentEffect(db, id);
      Deleted(PurgeStudent(db, id))
  }

  /** After the delete the student's login name is free again. */
  lemma DeleteFreesUsername(db: Store, id: int, u: Row<SchoolUser>)
    requires Valid(db)
    requires u in db.users && u.rec.studentId == Some(id)
    ensures DeleteStudent(db, id).Deleted?
    ensures Valid(DeleteStudent(db, id).db)
    ensures !UsernameTaken(DeleteStudent(db, id).db.users, u.rec.username)
  {
    PurgeStudentKeepsValid(db, id);
  }

  // ---------------------------------------------------------------------
  // Spreadsheet export

  /** One exported line. Numbers are written as numbers, the date of birth
      is carried unformatted. */
  datatype StudentExportRow = StudentExportRow(
    srNo: int,
    name: string,
    username: string,
    admissionNo: Option<int>,
    school: string,
    standard: string,
    division: string,
    dateOfBirth: Option<Date>,
    email: string,
    address: string,
    city: string,
    district: string,
    state: string,
    fatherName: string,
    fatherMobile: Option<int>,
    motherName: string,
    motherMobile: Option<int>)

  /** `FirstOrDefault(su => su.StudentId == id)?.Username ?? ""`. */
  function ExportUsername(db: Store, id: int): string
  {
    match FirstWhere(db.users, (u: Row<SchoolUser>) => u.rec.studentId == Some(id))
    case Some(u) => u.rec.username
    case None => ""
  }

  /** What the export's username column holds for a student. */
  lemma ExportUsernameLookup(db: Store, id: int)
    ensures !StudentHasUser(db.users, id) ==> ExportUsername(db, id) == ""
    ensures OneUserPerStudent(db.users) ==>
              forall u :: u in db.users && u.rec.studentId == Some(id) ==> ExportUsername(db, id) == u.rec.username
  {
  }

  function ExportRowOf(db: Store, r: Row<Student>, srNo: int): StudentExportRow {
    var d := r.rec.details;
    StudentExportRow(srNo, d.name, ExportUsername(db, r.id), d.admissionNo,
                     SchoolName(db, r.rec.schoolId), StandardName(db, r.rec.standardId),
                     DivisionName(db, r.rec.divisionId), d.dateOfBirth, d.email,
                     d.address, d.city, d.district, d.state,
                     d.fatherName, d.fatherNumber, d.motherName, d.motherNumber)
  }

  /** The students of the school filter, in fetch order; no search. */
  function SchoolStudents(db: Store, schoolId: Option<int>): (s: Table<Student>)
    ensures forall r :: r in s <==> r in db.students && InSchool(schoolId, r.rec)
  {
    Filter(db.students, (r: Row<Student>) => InSchool(schoolId, r.rec))
  }

  /** The loop over the fetched students: row `i` describes student `i` and
      is numbered `i + 1`. */
  function ExportLines(db: Store, s: Table<Student>): (rows: seq<StudentExportRow>)
    ensures |rows| == |s|
    ensures forall i :: 0 <= i < |s| ==> rows[i] == ExportRowOf(db, s[i], i + 1)
    decreases |s|
  {
    if |s| == 0 then []
    else
      var n := |s| - 1;
      var front := s[..n];
      assert forall i :: 0 <= i < n ==> front[i] == s[i];
      ExportLines(db, front) + [ExportRowOf(db, s[n], |s|)]
  }

  /** The data rows of `ExportToExcel`, numbered from 1. */
  function ExportRows(db: Store, schoolId: Option<int>): (rows: seq<StudentExportRow>)
    ensures |rows| == |SchoolStudents(db, schoolId)|
    ensures forall i :: 0 <= i < |rows| ==> rows[i].srNo == i + 1
  {
    ExportLines(db, SchoolStudents(db, schoolId))
  }

  /** Without a search term the list order is the export's fetch order
      reversed. */
  lemma UnsearchedListReversesExport(db: Store, schoolId: Option<int>)
    ensures ListOrder(db, schoolId, "") == Reverse(SchoolStudents(db, schoolId))
  {
    FilterSame(db.students, (r: Row<Student>) => Listed(schoolId, "", r),
               (r: Row<Student>) => InSchool(schoolId, r.rec));
  }

  /** The export lists the students of the unsearched listing in the opposite
      order, numbered from 1 (see `ExportLines`). */
  lemma ExportReversesList(db: Store, schoolId: Option<int>)
    ensures ExportRows(db, schoolId) == ExportLines(db, Reverse(ListOrder(db, schoolId, "")))
  {
    UnsearchedListReversesExport(db, schoolId);
    ReverseReverse(SchoolStudents(db, schoolId));
  }

  /** On a valid store the export and the listing show the same login name
      for a student. */
  lemma ExportAndListAgree(db: Store, schoolId: Option<int>, pageNumber: int, term: string, i: nat)
    requires Valid(db)
    requires i < |Shown(db, schoolId, pageNumber, term)|
    ensures Index(db, schoolId, pageNumber, term).Listing?
    ensures i < |Index(db, schoolId, pageNumber, term).items|
    ensures var item := Index(db, schoolId, pageNumber, term).items[i];
            item.username == ExportUsername(db, item.studentId)
  {
    ItemShowsCredential(db, schoolId, pageNumber, term, i);
    var sid := Shown(db, schoolId, pageNumber, term)[i].id;
    ExportUsernameLookup(db, sid);
    if StudentHasUser(db.users, sid) {
      var u :| u in db.users && u.rec.studentId == Some(sid);
    }
  }
}
