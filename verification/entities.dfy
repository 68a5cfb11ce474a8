/** The records stored by the application. Identity keys live in the table
    rows (`Tables.Row`), not in the records. Nullable strings are modelled as
    strings (a missing value reads as ""); `long?` columns are `Option<int>`;
    `DateTime?` columns are `Option<Date>`, carried through but never
    interpreted. */
module Entities {
  import opened Tables

  datatype Date = Date(year: int, month: int, day: int)

  datatype School = School(
    code: string,
    name: string,
    address: string,
    city: string,
    district: string,
    state: string,
    officeNumber: Option<int>,
    whatsappNumber: Option<int>,
    email: string,
    contactPerson: string,
    contactNumber: Option<int>,
    website: string,
    logo: string)

  /** A grade level. */
  datatype Standard = Standard(name: string)

  /** A section within a grade. */
  datatype Division = Division(name: string)

  /** The content fields of a student: everything but the key and the three
      foreign keys. These are exactly the fields the list screen may edit. */
  datatype StudentDetails = StudentDetails(
    name: string,
    admissionNo: Option<int>,
    dateOfBirth: Option<Date>,
    email: string,
    address: string,
    city: string,
    district: string,
    state: string,
    fatherName: string,
    fatherNumber: Option<int>,
    fatherWhatsappNo: Option<int>,
    motherName: string,
    motherNumber: Option<int>,
    motherWhatsappNo: Option<int>)

  datatype Student = Student(
    schoolId: int,
    standardId: int,
    divisionId: int,
    details: StudentDetails)

  /** The content fields of a teacher: everything but the key and the school. */
  datatype TeacherDetails = TeacherDetails(
    name: string,
    dateOfBirth: Option<Date>,
    email: string,
    address: string,
    city: string,
    district: string,
    state: string,
    mobileNo: Option<int>,
    whatsappNo: Option<int>)

  datatype Teacher = Teacher(schoolId: int, details: TeacherDetails)

  /** A login credential. `schoolCode` is a denormalised copy of the school's
      code. The creation timestamp is not modelled. */
  datatype SchoolUser = SchoolUser(
    schoolId: int,
    schoolCode: string,
    studentId: Option<int>,
    teacherId: Option<int>,
    username: string,
    password: string,
    role: string)

  const StudentRole := "Student"
  const TeacherRole := "Teacher"

  /** Every generated credential gets this fixed password. */
  const DefaultPassword := "1111"
}
