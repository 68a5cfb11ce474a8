/** The teacher list screen: the filtered, searched and paginated listing
    with each teacher's login name, the inline update of a teacher's
    content fields, the delete that takes the teacher's credentials along,
    and the rows of the spreadsheet export. */
module TeacherList {
  import opened Tables
  import opened Text
  import opened Entities
  import opened Database
  import opened Paging

  // ---------------------------------------------------------------------
  // Filter, search and order

  /** The school filter applies only when a positive school id is given. */
  predicate InSchool(schoolId: Option<int>, t: Teacher) {
    !(schoolId.Some? && schoolId.value > 0) || t.schoolId == schoolId.value
  }

  /** An empty term matches every teacher; otherwise the term must occur in
      the name or in the email. */
  predicate MatchesTerm(term: string, d: TeacherDetails) {
    |term| == 0 || Contains(d.name, term) || Contains(d.email, term)
  }

  predicate Listed(schoolId: Option<int>, term: string, r: Row<Teacher>) {
    InSchool(schoolId, r.rec) && MatchesTerm(term, r.rec.details)
  }

  /** The teachers the query selects, in fetch order. */
  function Matching(db: Store, schoolId: Option<int>, term: string): (m: Table<Teacher>)
    ensures forall r :: r in m <==> r in db.teachers && Listed(schoolId, term, r)
  {
    Filter(db.teachers, (r: Row<Teacher>) => Listed(schoolId, term, r))
  }

  /** `OrderByDescending(TeacherId)` over the selected teachers. */
  function ListOrder(db: Store, schoolId: Option<int>, term: string): Table<Teacher> {
    Reverse(Matching(db, schoolId, term))
  }

  /** The list holds exactly the selected teachers, newest key first. */
  lemma ListOrderDescending(db: Store, schoolId: Option<int>, term: string)
    requires Ascending(db.teachers)
    ensures forall r :: r in ListOrder(db, schoolId, term) <==> r in db.teachers && Listed(schoolId, term, r)
    ensures forall i, j :: 0 <= i < j < |ListOrder(db, schoolId, term)| ==>
              ListOrder(db, schoolId, term)[i].id > ListOrder(db, schoolId, term)[j].id
  {
    var m := Matching(db, schoolId, term);
    var l := ListOrder(db, schoolId, term);
    FilterAscending(db.teachers, (r: Row<Teacher>) => Listed(schoolId, term, r));
    ReverseSameElements(m);
    forall i, j | 0 <= i < j < |l| ensures l[i].id > l[j].id {
      assert l[i] == m[|m| - 1 - i] && l[j] == m[|m| - 1 - j];
    }
  }

  // ---------------------------------------------------------------------
  // The listing

  /** The key of the username dictionary: `TeacherId ?? 0`. */
  function TeacherKey(u: Row<SchoolUser>): int {
    u.rec.teacherId.GetOr(0)
  }

  /** The credentials fetched for the teachers on the page. */
  function PageCredentials(db: Store, shown: Table<Teacher>): (c: Table<SchoolUser>)
    ensures forall u :: u in c <==> u in db.users && TeacherKey(u) in Ids(shown)
  {
    Filter(db.users, (u: Row<SchoolUser>) => TeacherKey(u) in Ids(shown))
  }

  /** The dictionary lookup: the username stored under the teacher's key,
      or "" when there is none. */
  function UsernameIn(dict: map<int, Row<SchoolUser>>, teacherId: int): string {
    if teacherId in dict then dict[teacherId].rec.username else ""
  }

  /** One line of the listing. The date of birth is carried unformatted. */
  datatype TeacherItem = TeacherItem(
    srNo: int,
    teacherId: int,
    name: string,
    username: string,
    school: string,
    dateOfBirth: Option<Date>,
    email: string,
    mobileNo: string,
    whatsappNo: string,
    address: string,
    city: string,
    district: string,
    state: string)

  function ItemOf(db: Store, r: Row<Teacher>, srNo: int, username: string): TeacherItem {
    var d := r.rec.details;
    TeacherItem(srNo, r.id, d.name, username, SchoolName(db, r.rec.schoolId), d.dateOfBirth,
                d.email, NumberText(d.mobileNo), NumberText(d.whatsappNo),
                d.address, d.city, d.district, d.state)
  }

  /** The list view, or the error view shown when loading throws. */
  datatype ListView =
    | Listing(items: seq<TeacherItem>, page: int, totalPages: nat, totalCount: nat)
    | ListError

  /** The items of one page: serial numbers continue across pages, and each
      teacher's username comes from the dictionary. The twin of
      `StudentList.Items`, kept separate because it builds a `TeacherItem`
      from a teacher row. */
  function Items(db: Store, rows: Table<Teacher>, page: int, dict: map<int, Row<SchoolUser>>): (items: seq<TeacherItem>)
    ensures |items| == |rows|
    ensures forall i :: 0 <= i < |rows| ==>
              items[i] == ItemOf(db, rows[i], SerialNumber(page, i), UsernameIn(dict, rows[i].id))
    decreases |rows|
  {
    if |rows| == 0 then []
    else
      var n := |rows| - 1;
      var front := rows[..n];
      assert forall i :: 0 <= i < n ==> front[i] == rows[i];
      Items(db, front, page, dict) + [ItemOf(db, rows[n], SerialNumber(page, n), UsernameIn(dict, rows[n].id))]
  }

  /** The teachers shown for a request: one page of the list order. */
  function Shown(db: Store, schoolId: Option<int>, pageNumber: int, term: string): Table<Teacher> {
    Paginate(ListOrder(db, schoolId, term), pageNumber).rows
  }

  /** `TeacherListController.Index`. */
  function Index(db: Store, schoolId: Option<int>, pageNumber: int, term: string): (v: ListView)
    ensures v.Listing? ==> v.totalCount == |Matching(db, schoolId, term)|
    ensures v.Listing? ==> v.totalPages == TotalPages(v.totalCount) && v.page == ClampPage(pageNumber, v.totalPages)
    ensures v.Listing? ==> |v.items| == |Shown(db, schoolId, pageNumber, term)| <= PageSize
    ensures v.Listing? ==> forall i :: 0 <= i < |v.items| ==>
              && 0 <= PageStart(v.page) + i < |ListOrder(db, schoolId, term)|
              && v.items[i] == ItemOf(db, ListOrder(db, schoolId, term)[PageStart(v.page) + i],
                                      SerialNumber(v.page, i), v.items[i].username)
  {
    var view := Paginate(ListOrder(db, schoolId, term), pageNumber);
    match ToDictionary(PageCredentials(db, view.rows), TeacherKey)
    case None => ListError
    case Some(dict) => Listing(Items(db, view.rows, view.page, dict), view.page, view.totalPages, view.totalCount)
  }

  /** The listing is shown exactly when the dictionary can be built. */
  lemma ListingIff(db: Store, schoolId: Option<int>, pageNumber: int, term: string)
    ensures Index(db, schoolId, pageNumber, term).Listing? <==>
            ToDictionary(PageCredentials(db, Shown(db, schoolId, pageNumber, term)), TeacherKey).Some?
  {
  }

  lemma ShownAreTeachers(db: Store, schoolId: Option<int>, pageNumber: int, term: string)
    ensures forall r :: r in Shown(db, schoolId, pageNumber, term) ==> r in db.teachers
  {
    PaginateRowsIn(ListOrder(db, schoolId, term), pageNumber);
    ReverseSameElements(Matching(db, schoolId, term));
  }

  /** A positive dictionary key belongs to a credential that references
      that teacher. */
  lemma PositiveKey(u: Row<SchoolUser>)
    requires TeacherKey(u) >= 1
    ensures u.rec.teacherId == Some(TeacherKey(u))
  {
  }

  /** Some teacher among `shown` has two credentials. Nothing in the
      database forbids it: only the username is unique. */
  predicate SharedTeacher(db: Store, shown: Table<Teacher>) {
    exists a, b :: a in db.users && b in db.users && a != b && a.rec.teacherId.Some? &&
                   a.rec.teacherId == b.rec.teacherId && a.rec.teacherId.value in Ids(shown)
  }

  /** Two positions of the fetched credentials under one key belong to two
      different credentials of one shown teacher. */
  lemma DuplicateMeansShared(db: Store, shown: Table<Teacher>)
    requires Ascending(db.users)
    requires forall r :: r in shown ==> r.id >= 1
    requires DuplicateKey(PageCredentials(db, shown), TeacherKey)
    ensures SharedTeacher(db, shown)
  {
    var creds := PageCredentials(db, shown);
    var i, j :| 0 <= i < j < |creds| && TeacherKey(creds[i]) == TeacherKey(creds[j]);
    CredentialsAscending(db, shown);
    assert creds[i].id < creds[j].id;
    assert creds[i] in creds && creds[j] in creds;
    SameKeySameTeacher(db, shown, creds[i], creds[j]);
  }

  /** The credentials are fetched in key order. */
  lemma CredentialsAscending(db: Store, shown: Table<Teacher>)
    requires Ascending(db.users)
    ensures Ascending(PageCredentials(db, shown))
  {
    FilterAscending(db.users, (u: Row<SchoolUser>) => TeacherKey(u) in Ids(shown));
  }

  /** Two fetched credentials under one key both name the same shown teacher. */
  lemma SameKeySameTeacher(db: Store, shown: Table<Teacher>, a: Row<SchoolUser>, b: Row<SchoolUser>)
    requires forall r :: r in shown ==> r.id >= 1
    requires a in PageCredentials(db, shown) && b in PageCredentials(db, shown)
    requires TeacherKey(a) == TeacherKey(b)
    ensures a in db.users && b in db.users
    ensures a.rec.teacherId.Some? && a.rec.teacherId == b.rec.teacherId && a.rec.teacherId.value in Ids(shown)
  {
    var r :| r in shown && r.id == TeacherKey(a);
    PositiveKey(a);
    PositiveKey(b);
  }

  /** Two credentials of one shown teacher are both fetched, at two
      positions under one key. */
  lemma SharedMeansDuplicate(db: Store, shown: Table<Teacher>)
    requires SharedTeacher(db, shown)
    ensures DuplicateKey(PageCredentials(db, shown), TeacherKey)
  {
    var creds := PageCredentials(db, shown);
    var a, b :| a in db.users && b in db.users && a != b && a.rec.teacherId.Some? &&
                a.rec.teacherId == b.rec.teacherId && a.rec.teacherId.value in Ids(shown);
    assert a in creds && b in creds;
    var i :| 0 <= i < |creds| && creds[i] == a;
    var j :| 0 <= j < |creds| && creds[j] == b;
    if i < j {
      assert TeacherKey(creds[i]) == TeacherKey(creds[j]);
    } else {
      assert TeacherKey(creds[j]) == TeacherKey(creds[i]);
    }
  }

  /** Building the dictionary fails exactly when a shown teacher has two
      credentials. */
  lemma DuplicateKeyIff(db: Store, shown: Table<Teacher>)
    requires Valid(db)
    requires forall r :: r in shown ==> r in db.teachers
    ensures ToDictionary(PageCredentials(db, shown), TeacherKey).None? <==> SharedTeacher(db, shown)
  {
    ToDictionaryFailsIff(PageCredentials(db, shown), TeacherKey);
    if DuplicateKey(PageCredentials(db, shown), TeacherKey) {
      assert forall r :: r in shown ==> r.id >= 1 by {
        forall r | r in shown ensures r.id >= 1 {
          assert r in db.teachers;
        }
      }
      DuplicateMeansShared(db, shown);
    }
    if SharedTeacher(db, shown) {
      SharedMeansDuplicate(db, shown);
    }
  }

  /** The listing fails exactly when a teacher on the requested page has
      more than one credential. */
  lemma ListFailsIff(db: Store, schoolId: Option<int>, pageNumber: int, term: string)
    requires Valid(db)
    ensures Index(db, schoolId, pageNumber, term).ListError? <==>
            SharedTeacher(db, Shown(db, schoolId, pageNumber, term))
  {
    ShownAreTeachers(db, schoolId, pageNumber, term);
    ListingIff(db, schoolId, pageNumber, term);
    DuplicateKeyIff(db, Shown(db, schoolId, pageNumber, term));
  }

  /** Item `i` of a listing shows teacher `i` of the page with the
      username the dictionary holds for it. */
  lemma IndexItem(db: Store, schoolId: Option<int>, pageNumber: int, term: string, i: nat)
    requires Index(db, schoolId, pageNumber, term).Listing?
    requires i < |Shown(db, schoolId, pageNumber, term)|
    ensures ToDictionary(PageCredentials(db, Shown(db, schoolId, pageNumber, term)), TeacherKey).Some?
    ensures i < |Index(db, schoolId, pageNumber, term).items|
    ensures var shown := Shown(db, schoolId, pageNumber, term);
            Index(db, schoolId, pageNumber, term).items[i].username ==
            UsernameIn(ToDictionary(PageCredentials(db, shown), TeacherKey).value, shown[i].id)
    ensures Index(db, schoolId, pageNumber, term).items[i].teacherId == Shown(db, schoolId, pageNumber, term)[i].id
  {
  }

  predicate TeacherHasUser(users: Table<SchoolUser>, teacherId: int) {
    exists r :: r in users && r.rec.teacherId == Some(teacherId)
  }

  /** When the dictionary is built, it maps a shown teacher to the username
      of its credential, or to "" when it has none. */
  lemma CredentialLookup(db: Store, shown: Table<Teacher>, tid: int)
    requires Valid(db)
    requires ToDictionary(PageCredentials(db, shown), TeacherKey).Some?
    requires tid in Ids(shown)
    requires forall r :: r in shown ==> r in db.teachers
    ensures var dict := ToDictionary(PageCredentials(db, shown), TeacherKey).value;
            && (!TeacherHasUser(db.users, tid) ==> UsernameIn(dict, tid) == "")
            && (forall u :: u in db.users && u.rec.teacherId == Some(tid) ==> UsernameIn(dict, tid) == u.rec.username)
  {
    var creds := PageCredentials(db, shown);
    var dict := ToDictionary(creds, TeacherKey).value;
    var r :| r in shown && r.id == tid;
    assert r in db.teachers;
    if tid in dict {
      var i :| 0 <= i < |creds| && TeacherKey(creds[i]) == tid;
      assert creds[i] in creds;
      PositiveKey(creds[i]);
    }
    forall u | u in db.users && u.rec.teacherId == Some(tid)
      ensures UsernameIn(dict, tid) == u.rec.username
    {
      assert u in creds;
      var j :| 0 <= j < |creds| && creds[j] == u;
    }
  }

  /** When the listing succeeds it shows each teacher's login name, or ""
      when the teacher has none. */
  lemma ItemShowsCredential(db: Store, schoolId: Option<int>, pageNumber: int, term: string, i: nat)
    requires Valid(db)
    requires Index(db, schoolId, pageNumber, term).Listing?
    requires i < |Shown(db, schoolId, pageNumber, term)|
    ensures i < |Index(db, schoolId, pageNumber, term).items|
    ensures var item := Index(db, schoolId, pageNumber, term).items[i];
            && item.teacherId == Shown(db, schoolId, pageNumber, term)[i].id
            && (!TeacherHasUser(db.users, item.teacherId) ==> item.username == "")
            && (forall u :: u in db.users && u.rec.teacherId == Some(item.teacherId) ==> item.username == u.rec.username)
  {
    IndexItem(db, schoolId, pageNumber, term, i);
    var shown := Shown(db, schoolId, pageNumber, term);
    assert shown[i] in shown;
    ShownAreTeachers(db, schoolId, pageNumber, term);
    CredentialLookup(db, shown, shown[i].id);
  }

  /** Every selected teacher is listed, on page `k / 10 + 1` with serial
      number `k + 1`, unless a teacher on that page has two credentials. */
  lemma EveryTeacherListed(db: Store, schoolId: Option<int>, term: string, k: nat)
    requires Valid(db)
    requires k < |Matching(db, schoolId, term)|
    requires !SharedTeacher(db, Shown(db, schoolId, k / PageSize + 1, term))
    ensures var v := Index(db, schoolId, k / PageSize + 1, term);
            && v.Listing?
            && v.page == k / PageSize + 1
            && k % PageSize < |v.items|
            && v.items[k % PageSize].teacherId == ListOrder(db, schoolId, term)[k].id
            && v.items[k % PageSize].srNo == k + 1
  {
    var p := k / PageSize + 1;
    assert Index(db, schoolId, p, term).Listing? by {
      ListFailsIff(db, schoolId, p, term);
    }
    ListedAt(db, schoolId, term, k);
  }

  /** When page `k / 10 + 1` can be shown, the `k`-th teacher in list order
      is item `k % 10` of it, with serial number `k + 1`. */
  lemma ListedAt(db: Store, schoolId: Option<int>, term: string, k: nat)
    requires k < |Matching(db, schoolId, term)|
    requires Index(db, schoolId, k / PageSize + 1, term).Listing?
    ensures var v := Index(db, schoolId, k / PageSize + 1, term);
            && v.page == k / PageSize + 1
            && k % PageSize < |v.items|
            && v.items[k % PageSize].teacherId == ListOrder(db, schoolId, term)[k].id
            && v.items[k % PageSize].srNo == k + 1
  {
    var l := ListOrder(db, schoolId, term);
    var p := k / PageSize + 1;
    var i := k % PageSize;
    var v := Index(db, schoolId, p, term);
    ListedPage(db, schoolId, term, k);
    PaginateAt(l, k);
    assert v.items[i] == ItemOf(db, l[k], SerialNumber(p, i), v.items[i].username);
  }

  /** Page `k / 10 + 1` is in range, so it is shown as requested, and it has
      an item at position `k % 10`. */
  lemma ListedPage(db: Store, schoolId: Option<int>, term: string, k: nat)
    requires k < |Matching(db, schoolId, term)|
    requires Index(db, schoolId, k / PageSize + 1, term).Listing?
    ensures var v := Index(db, schoolId, k / PageSize + 1, term);
            v.page == k / PageSize + 1 && k % PageSize < |v.items|
  {
    PaginateAt(ListOrder(db, schoolId, term), k);
  }

  // ---------------------------------------------------------------------
  // Update and delete

  datatype UpdateOutcome = UpdateInvalid | UpdateNotFound | Updated(db: Store)

  /** `UpdateTeacher`: a posted teacher, absent when the body does not bind.
      Only the content fields are copied; the stored key and school
      reference stay, whatever was posted. */
  function UpdateTeacher(db: Store, posted: Option<Row<Teacher>>): (o: UpdateOutcome)
    ensures o.UpdateInvalid? <==> posted.None? || posted.value.id <= 0
    ensures o.UpdateNotFound? <==> posted.Some? && posted.value.id > 0 && posted.value.id !in Ids(db.teachers)
    ensures o.Updated? ==> o.db.schools == db.schools && o.db.students == db.students
    ensures o.Updated? ==> o.db.standards == db.standards && o.db.divisions == db.divisions
    ensures o.Updated? ==> o.db.users == db.users && o.db.nextId == db.nextId
  {
    if posted.None? || posted.value.id <= 0 then UpdateInvalid
    else
      var id := posted.value.id;
      FindIff(db.teachers, id);
      match Find(db.teachers, id)
      case None => UpdateNotFound
      case Some(t) => Updated(db.(teachers := Replace(db.teachers, id, t.(details := posted.value.rec.details))))
  }

  /** A successful update replaces the teacher's details by the posted ones,
      keeps its school, and leaves every other teacher as it was. */
  lemma UpdateChangesOnlyDetails(db: Store, posted: Option<Row<Teacher>>, k: int)
    requires Ascending(db.teachers)
    requires UpdateTeacher(db, posted).Updated?
    ensures var id := posted.value.id;
            var before := Find(db.teachers, id).value;
            && Find(UpdateTeacher(db, posted).db.teachers, id) == Some(before.(details := posted.value.rec.details))
            && (k != id ==> Find(UpdateTeacher(db, posted).db.teachers, k) == Find(db.teachers, k))
  {
    var id := posted.value.id;
    var before := Find(db.teachers, id).value;
    FindReplace(db.teachers, id, before.(details := posted.value.rec.details), k);
    FindReplace(db.teachers, id, before.(details := posted.value.rec.details), id);
  }

  lemma UpdateKeepsValid(db: Store, posted: Option<Row<Teacher>>)
    requires Valid(db)
    ensures UpdateTeacher(db, posted).Updated? ==> Valid(UpdateTeacher(db, posted).db)
  {
    if UpdateTeacher(db, posted).Updated? {
      var id := posted.value.id;
      var before := Find(db.teachers, id).value;
      FindIff(db.teachers, id);
      assert Row(id, before) in db.teachers;
      SaveTeacherKeepsValid(db, id, before.(details := posted.value.rec.details));
    }
  }

  datatype DeleteOutcome = DeleteNotFound | Deleted(db: Store)

  /** `DeleteTeacher`: remove every credential of the teacher, then the
      teacher, in one save. */
  function DeleteTeacher(db: Store, id: int): (o: DeleteOutcome)
    ensures o.DeleteNotFound? <==> id !in Ids(db.teachers)
    ensures o.Deleted? ==> Ids(o.db.teachers) == Ids(db.teachers) - {id}
    ensures o.Deleted? ==> forall u :: u in o.db.users <==> u in db.users && u.rec.teacherId != Some(id)
    ensures o.Deleted? ==> o.db.schools == db.schools && o.db.students == db.students && o.db.nextId == db.nextId
    ensures o.Deleted? ==> o.db.standards == db.standards && o.db.divisions == db.divisions
    ensures o.Deleted? ==> forall r :: r in o.db.teachers <==> r in db.teachers && r.id != id
  {
    FindIff(db.teachers, id);
    if Find(db.teachers, id).None? then DeleteNotFound
    else
      PurgeTeacherEffect(db, id);
      Deleted(PurgeTeacher(db, id))
  }

  /** After the delete no credential names the teacher and each of its
      login names is free again. */
  lemma DeleteFreesUsernames(db: Store, id: int, u: Row<SchoolUser>)
    requires Valid(db)
    requires u in db.users && u.rec.teacherId == Some(id)
    ensures DeleteTeacher(db, id).Deleted?
    ensures Valid(DeleteTeacher(db, id).db)
    ensures !TeacherHasUser(DeleteTeacher(db, id).db.users, id)
    ensures !UsernameTaken(DeleteTeacher(db, id).db.users, u.rec.username)
  {
    PurgeTeacherKeepsValid(db, id);
  }

  // ---------------------------------------------------------------------
  // Spreadsheet export

  /** One exported line. Numbers are written as numbers, the date of birth
      is carried unformatted. */
  datatype TeacherExportRow = TeacherExportRow(
    srNo: int,
    name: string,
    username: string,
    school: string,
    dateOfBirth: Option<Date>,
    email: string,
    address: string,
    city: string,
    district: string,
    state: string,
    mobileNo: Option<int>,
    whatsappNo: Option<int>)

  /** `FirstOrDefault(su => su.TeacherId == id)?.Username ?? ""`: with
      several credentials, the one stored first. */
  function ExportUsername(db: Store, id: int): string
  {
    match FirstWhere(db.users, (u: Row<SchoolUser>) => u.rec.teacherId == Some(id))
    case Some(u) => u.rec.username
    case None => ""
  }

  /** What the export's username column holds for a teacher. */
  lemma ExportUsernameLookup(db: Store, id: int)
    ensures !TeacherHasUser(db.users, id) ==> ExportUsername(db, id) == ""
    ensures TeacherHasUser(db.users, id) ==>
              exists k :: 0 <= k < |db.users| && db.users[k].rec.teacherId == Some(id) &&
                          ExportUsername(db, id) == db.users[k].rec.username &&
                          forall j :: 0 <= j < k ==> db.users[j].rec.teacherId != Some(id)
  {
  }

  function ExportRowOf(db: Store, r: Row<Teacher>, srNo: int): TeacherExportRow {
    var d := r.rec.details;
    TeacherExportRow(srNo, d.name, ExportUsername(db, r.id), SchoolName(db, r.rec.schoolId),
                     d.dateOfBirth, d.email, d.address, d.city, d.district, d.state,
                     d.mobileNo, d.whatsappNo)
  }

  /** The teachers of the school filter, in fetch order; no search. */
  function SchoolTeachers(db: Store, schoolId: Option<int>): (s: Table<Teacher>)
    ensures forall r :: r in s <==> r in db.teachers && InSchool(schoolId, r.rec)
  {
    Filter(db.teachers, (r: Row<Teacher>) => InSchool(schoolId, r.rec))
  }

  /** The loop over the fetched teachers: row `i` describes teacher `i` and
      is numbered `i + 1`. The twin of `StudentList.ExportLines`, kept
      separate because it builds a `TeacherExportRow` from a teacher row. */
  function ExportLines(db: Store, s: Table<Teacher>): (rows: seq<TeacherExportRow>)
    ensures |rows| == |s|
    ensures forall i :: 0 <= i < |s| ==> rows[i] == ExportRowOf(db, s[i], i + 1)
    decreases |s|
  {
    if |s| == 0 then []
    else
      var n := |s| - 1;
      var front := s[..n];
      assert forall i :: 0 <= i < n ==> front[i] == s[i];
      ExportLines(db, front) + [ExportRowOf(db, s[n], |s|)]
  }

  /** The data rows of `ExportToExcel`, numbered from 1. */
  function ExportRows(db: Store, schoolId: Option<int>): (rows: seq<TeacherExportRow>)
    ensures |rows| == |SchoolTeachers(db, schoolId)|
    ensures forall i :: 0 <= i < |rows| ==> rows[i].srNo == i + 1
  {
    ExportLines(db, SchoolTeachers(db, schoolId))
  }

  /** Without a search term the list order is the export's fetch order
      reversed. */
  lemma UnsearchedListReversesExport(db: Store, schoolId: Option<int>)
    ensures ListOrder(db, schoolId, "") == Reverse(SchoolTeachers(db, schoolId))
  {
    FilterSame(db.teachers, (r: Row<Teacher>) => Listed(schoolId, "", r),
               (r: Row<Teacher>) => InSchool(schoolId, r.rec));
  }

  /** The export lists the teachers of the unsearched listing in the opposite
      order, numbered from 1 (see `ExportLines`). */
  lemma ExportReversesList(db: Store, schoolId: Option<int>)
    ensures ExportRows(db, schoolId) == ExportLines(db, Reverse(ListOrder(db, schoolId, "")))
  {
    UnsearchedListReversesExport(db, schoolId);
    ReverseReverse(SchoolTeachers(db, schoolId));
  }
}
