/** The five `ToDto` overloads and `ToDtoAverage`
    (OnlineCatalogue/Extensions/EntityToDtoExtensions.cs). Each `ToDto`
    maps null to null; otherwise it builds a fresh DTO from some fields
    and drops the rest. */
module EntityToDto {
  import opened Wrappers
  import opened Models
  import opened Tables
  import opened Queries
  import opened Dtos
  import opened DtoToEntity

  /** Address `ToDto`: City, Street and Number; id and links dropped. */
  function AddressToDto(a: Option<Address>): (r: Option<AddressToGet>)
    ensures r.None? <==> a.None?
    ensures a.Some? ==> r.value.city == a.value.city && r.value.street == a.value.street
                        && r.value.number == a.value.number
  {
    match a
    case None => None
    case Some(x) => Some(AddressToGet(x.city, x.street, x.number))
  }

  /** Student `ToDto`: Id, names and Age copied, the address mapped by
      address `ToDto` (so a student without one gets none), marks dropped. */
  function StudentToDto(s: Option<Student>): (r: Option<StudentToGet>)
    ensures r.None? <==> s.None?
    ensures s.Some? ==>
      && r.value.id == s.value.id && r.value.firstName == s.value.firstName
      && r.value.lastName == s.value.lastName && r.value.age == s.value.age
      && r.value.address == AddressToDto(s.value.address)
  {
    match s
    case None => None
    case Some(x) => Some(StudentToGet(x.id, x.firstName, x.lastName, x.age, AddressToDto(x.address)))
  }

  /** Subject `ToDto`: Id, Name and TeacherId copied. */
  function SubjectToDto(s: Option<Subject>): (r: Option<SubjectToGet>)
    ensures r.None? <==> s.None?
    ensures s.Some? ==> r.value.id == s.value.id && r.value.name == s.value.name
                        && r.value.teacherId == s.value.teacherId
  {
    match s
    case None => None
    case Some(x) => Some(SubjectToGet(x.id, x.name, x.teacherId))
  }

  /** Mark `ToDto`: every field copied unchanged. */
  function MarkToDto(m: Option<Mark>): (r: Option<MarkToGet>)
    ensures r.None? <==> m.None?
    ensures m.Some? ==>
      && r.value.id == m.value.id && r.value.creationDate == m.value.creationDate
      && r.value.studentId == m.value.studentId && r.value.subjectId == m.value.subjectId
      && r.value.value == m.value.value
  {
    match m
    case None => None
    case Some(x) => Some(MarkToGet(x.id, x.creationDate, x.studentId, x.subjectId, x.value))
  }

  /** Teacher `ToDto`: Id, Name and the rank's name; subject and address
      mapped by their own `ToDto`. */
  function TeacherToDto(t: Option<Teacher>): (r: Option<TeacherToGet>)
    ensures r.None? <==> t.None?
    ensures t.Some? ==>
      && r.value.id == t.value.id && r.value.name == t.value.name
      && ParseRank(r.value.rank) == Some(t.value.rank)
      && r.value.subject == SubjectToDto(t.value.subject)
      && r.value.address == AddressToDto(t.value.address)
  {
    match t
    case None => None
    case Some(x) => Some(TeacherToGet(x.id, x.name, RankName(x.rank), AddressToDto(x.address), SubjectToDto(x.subject)))
  }

  /** `ToDtoAverage`: Name is FirstName + LastName with no separator and
      Average the mean of the loaded marks, which must not be empty. */
  function StudentToDtoAverage(s: Student): (r: StudentWithAverageToGetDto)
    requires |s.marks| > 0
    ensures r.id == s.id && r.age == s.age
    ensures r.name == s.firstName + s.lastName
    ensures r.average.count == |s.marks| && r.average == MeanOf(s.marks)
  {
    StudentWithAverageToGetDto(s.id, s.firstName + s.lastName, s.age, MeanOf(s.marks))
  }

  /** An address sent in a change request comes back with the same City,
      Street and Number. */
  lemma AddressRoundTrip(d: AddressToUpdate)
    ensures AddressToDto(Some(AddressFromUpdate(d))) == Some(AddressToGet(d.city, d.street, d.number))
  {
  }

  /** The address DTO does not depend on the id or the back-references. */
  lemma AddressDtoDropsKeys(a: Address, id: int, studentId: Option<int>, teacherId: Option<int>)
    ensures AddressToDto(Some(a.(id := id, studentId := studentId, teacherId := teacherId)))
         == AddressToDto(Some(a))
  {
  }

  /** The student DTO does not depend on the loaded marks. */
  lemma StudentDtoDropsMarks(s: Student, marks: seq<Mark>)
    ensures StudentToDto(Some(s.(marks := marks))) == StudentToDto(Some(s))
  {
  }

  /** A teacher's rank survives the trip through its name. */
  lemma TeacherRankRoundTrip(t: Teacher)
    ensures ParseRank(TeacherToDto(Some(t)).value.rank) == Some(t.rank)
  {
  }

  /** `ToDtoAverage` on a student whose marks are loaded from the mark table
      gives the same id, name, age and average as the row
      GetAllStudentsOrdered builds for that student. */
  lemma ToDtoAverageMatchesOrderedRow(st: StudentRow, ms: seq<Mark>, address: Option<Address>)
    requires |MarksOfStudent(ms, st.id)| > 0
    ensures var d := StudentToDtoAverage(Student(st.id, st.firstName, st.lastName, st.age, address, MarksOfStudent(ms, st.id)));
      var w := WithAverage(st, ms);
      d.id == w.id && d.name == w.name && d.age == w.age && d.average == w.average
  {
  }
}
