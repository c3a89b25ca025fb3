/** The catalogue's entities (the classes under Data/Models) and the
    constraints their data annotations declare, as validity predicates.
    The data layer never enforces these constraints itself; they are what a
    well-formed row looks like. */
module Models {
  import opened Wrappers

  /** int.MaxValue, the upper end of every `[Range(1, int.MaxValue)]`. */
  const IntMax: int := 0x7FFF_FFFF

  /** The upper bound of every `[MaxLength(50)]`. */
  const MaxTextLength: nat := 50

  /** A DateTime as the mark table stores it; its representation is not
      modelled beyond being a value. */
  type Timestamp = int

  /** The teacher ranks, in promotion order. */
  datatype Rank = Instructor | AssistantProfessor | AssociateProfessor | Professor

  /** The text `Rank.ToString()` gives, which is how the data layer compares
      and stores ranks. */
  function RankName(r: Rank): string
  {
    match r
    case Instructor => "Instructor"
    case AssistantProfessor => "AssistantProfessor"
    case AssociateProfessor => "AssociateProfessor"
    case Professor => "Professor"
  }

  /** The rank a text names, if it names one. */
  function ParseRank(s: string): (r: Option<Rank>)
    ensures r.Some? ==> RankName(r.value) == s
    ensures r.None? ==> forall k: Rank :: RankName(k) != s
  {
    if s == "Instructor" then Some(Instructor)
    else if s == "AssistantProfessor" then Some(AssistantProfessor)
    else if s == "AssociateProfessor" then Some(AssociateProfessor)
    else if s == "Professor" then Some(Professor)
    else None
  }

  /** Address: owned by a student and/or a teacher through two independent,
      nullable back-references. */
  datatype Address = Address(
    id: int,
    city: string,
    street: string,
    number: int,
    studentId: Option<int>,
    teacherId: Option<int>)

  datatype Mark = Mark(
    id: int,
    value: int,
    subjectId: int,
    studentId: int,
    creationDate: Timestamp)

  /** Subject. The class declares a non-nullable TeacherId, yet the data layer
      assigns null to it when the teacher is deleted, so it is optional here. */
  datatype Subject = Subject(id: int, name: string, teacherId: Option<int>)

  /** Student with its navigation properties: the address (null unless
      loaded) and the marks (an empty list unless loaded). */
  datatype Student = Student(
    id: int,
    firstName: string,
    lastName: string,
    age: int,
    address: Option<Address>,
    marks: seq<Mark>)

  /** Teacher with its navigation properties Address and Subject. */
  datatype Teacher = Teacher(
    id: int,
    name: string,
    rank: Rank,
    address: Option<Address>,
    subject: Option<Subject>)

  /** `new Student { FirstName = .., LastName = .., Age = .. }`: Id keeps
      int's default 0 until the store assigns one, Address is null and Marks
      starts as a new, empty list. */
  function NewStudent(firstName: string, lastName: string, age: int): (s: Student)
    ensures s.marks == [] && s.address == None
    ensures s.firstName == firstName && s.lastName == lastName && s.age == age
    ensures !ValidStudent(s)
  {
    Student(0, firstName, lastName, age, None, [])
  }

  /** char.IsWhiteSpace: the Unicode space, line and paragraph separators,
      U+0009..U+000D and U+0085. */
  predicate IsWhiteSpace(c: char)
  {
    || '\U{0009}' <= c <= '\U{000D}'
    || c == ' ' || c == '\U{0085}' || c == '\U{00A0}' || c == '\U{1680}'
    || '\U{2000}' <= c <= '\U{200A}'
    || c == '\U{2028}' || c == '\U{2029}' || c == '\U{202F}' || c == '\U{205F}'
    || c == '\U{3000}'
  }

  /** `[Required]` on a string: present and not empty or white space only. */
  predicate RequiredText(s: string)
    ensures RequiredText(s) ==> 0 < |s|
  {
    exists i :: 0 <= i < |s| && !IsWhiteSpace(s[i])
  }

  /** A string's Length in .NET: the number of UTF-16 code units, two for a
      character outside the Basic Multilingual Plane. */
  function Utf16Length(s: string): (n: nat)
    ensures |s| <= n <= 2 * |s|
  {
    if s == [] then 0
    else (if s[0] as int > 0xFFFF then 2 else 1) + Utf16Length(s[1..])
  }

  /** `[Required]` together with `[MaxLength(50)]`. */
  predicate BoundedText(s: string)
    ensures BoundedText(s) ==> 0 < |s| <= MaxTextLength
  {
    RequiredText(s) && Utf16Length(s) <= MaxTextLength
  }

  /** `[Range(1, int.MaxValue)]`. */
  predicate PositiveInt(x: int)
  {
    1 <= x <= IntMax
  }

  /** The annotations of Student: Id in range, both names required and at
      most 50 long, Age in [1, 100]. */
  predicate ValidStudent(s: Student)
  {
    && PositiveInt(s.id)
    && BoundedText(s.firstName)
    && BoundedText(s.lastName)
    && 1 <= s.age <= 100
  }

  /** The annotations of Address: Id and Number in range, City and Street
      required and at most 50 long. StudentId and TeacherId carry none, so
      both may be set at once. */
  predicate ValidAddress(a: Address)
  {
    && PositiveInt(a.id)
    && BoundedText(a.city)
    && BoundedText(a.street)
    && PositiveInt(a.number)
  }

  /** The annotations of Mark: Id, SubjectId and StudentId in range and
      Value in [1, 10]. */
  predicate ValidMark(m: Mark)
  {
    && PositiveInt(m.id)
    && 1 <= m.value <= 10
    && PositiveInt(m.subjectId)
    && PositiveInt(m.studentId)
  }

  /** The annotations of Subject: Id in range, Name required and at most 50
      long, TeacherId required and in range. */
  predicate ValidSubject(s: Subject)
  {
    && PositiveInt(s.id)
    && BoundedText(s.name)
    && s.teacherId.Some?
    && PositiveInt(s.teacherId.value)
  }

  /** What a valid student guarantees: a positive id, both names present
      and at most 50 characters long, and an age in [1, 100]. */
  lemma ValidStudentBounds(s: Student)
    requires ValidStudent(s)
    ensures 1 <= s.id
    ensures 0 < |s.firstName| <= MaxTextLength && 0 < |s.lastName| <= MaxTextLength
    ensures RequiredText(s.firstName) && RequiredText(s.lastName)
    ensures 1 <= s.age <= 100
  {
  }

  /** What a valid address guarantees: a positive id and number, City and
      Street present and at most 50 characters long. */
  lemma ValidAddressBounds(a: Address)
    requires ValidAddress(a)
    ensures 1 <= a.id && 1 <= a.number
    ensures 0 < |a.city| <= MaxTextLength && 0 < |a.street| <= MaxTextLength
    ensures RequiredText(a.city) && RequiredText(a.street)
  {
  }

  /** What a valid mark guarantees: a value in [1, 10], and an id, a
      subject id and a student id that are all in [1, int.MaxValue]. */
  lemma ValidMarkBounds(m: Mark)
    requires ValidMark(m)
    ensures 1 <= m.value <= 10
    ensures 1 <= m.id <= IntMax && 1 <= m.subjectId <= IntMax && 1 <= m.studentId <= IntMax
  {
  }

  /** What a valid subject guarantees: a positive id, a name present and at
      most 50 characters long, and a positive teacher id. */
  lemma ValidSubjectBounds(s: Subject)
    requires ValidSubject(s)
    ensures 1 <= s.id && 0 < |s.name| <= MaxTextLength && RequiredText(s.name)
    ensures s.teacherId.Some? && 1 <= s.teacherId.value
  {
  }

  /** A student built from valid names and age becomes valid exactly when
      the store gives it an id in [1, int.MaxValue]. */
  lemma NewStudentValidOnceStored(firstName: string, lastName: string, age: int, id: int)
    requires BoundedText(firstName) && BoundedText(lastName) && 1 <= age <= 100
    ensures ValidStudent(NewStudent(firstName, lastName, age).(id := id)) <==> PositiveInt(id)
  {
  }

  /** Text made only of white space is not `[Required]`-valid, whatever its
      length. */
  lemma BlankTextNotRequired(s: string)
    requires forall i :: 0 <= i < |s| ==> IsWhiteSpace(s[i])
    ensures !RequiredText(s) && !BoundedText(s)
  {
  }

  /** On ASCII, char.IsWhiteSpace holds exactly of the space and the
      control characters tab, line feed, vertical tab, form feed and
      carriage return. */
  lemma AsciiWhiteSpace(c: char)
    requires c as int < 0x80
    ensures IsWhiteSpace(c) <==> c == ' ' || c == '\t' || c == '\n' || c == '\U{000B}' || c == '\U{000C}' || c == '\r'
  {
  }

  /** Rank.ToString() gives each rank its own name. */
  lemma RankNameInjective(a: Rank, b: Rank)
    ensures RankName(a) == RankName(b) <==> a == b
  {
    assert ParseRank(RankName(a)) == Some(a);
    assert ParseRank(RankName(b)) == Some(b);
  }

  /** Nothing ties an address's two back-references together: an address
      may be valid and linked to a student and a teacher at once. */
  lemma SharedAddressAllowed(a: Address, sid: int, tid: int)
    requires ValidAddress(a)
    ensures ValidAddress(a.(studentId := Some(sid), teacherId := Some(tid)))
  {
  }

  /** A subject whose teacher reference has been cleared no longer meets
      its `[Required]` TeacherId annotation. */
  lemma ClearedSubjectInvalid(s: Subject)
    ensures !ValidSubject(s.(teacherId := None))
  {
  }
}
