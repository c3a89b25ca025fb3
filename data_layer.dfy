/** The catalogue data layer (Data/DataLayer.cs) over an in-memory store of
    five tables. Each mutator loads its row with FirstOrDefault, changes it
    and saves; each query is a LINQ pipeline over the tables. An
    EntityNotFoundException becomes a NotFound value, and the identity
    column of each table becomes a counter that hands out the next id. */
module Data {
  import opened Wrappers
  import opened Models
  import opened Tables
  import opened Queries
  import opened Promotion

  /** The table a failed lookup searched. */
  datatype EntityKind = StudentKind | TeacherKind | SubjectKind

  /** EntityNotFoundException: no row of that kind has that id. */
  datatype Error = NotFound(kind: EntityKind, id: int)

  /** A loaded student, its navigation properties as given. */
  function StudentOf(row: StudentRow, address: Option<Address>): (s: Student)
    ensures s.id == row.id && s.firstName == row.firstName && s.lastName == row.lastName
    ensures s.age == row.age && s.address == address && s.marks == []
  {
    Student(row.id, row.firstName, row.lastName, row.age, address, [])
  }

  class DataLayer {
    var students: seq<StudentRow>
    var addresses: seq<Address>
    var teachers: seq<TeacherRow>
    var subjects: seq<Subject>
    var marks: seq<Mark>

    // The next value of each table's identity column.
    var nextStudentId: int
    var nextAddressId: int
    var nextTeacherId: int
    var nextSubjectId: int
    var nextMarkId: int

    /** Every id was handed out by its table's identity column and is
        unique, and every student and teacher has at most one address. */
    ghost predicate Valid()
      reads this
    {
      && 1 <= nextStudentId && 1 <= nextAddressId && 1 <= nextTeacherId
      && 1 <= nextSubjectId && 1 <= nextMarkId
      && StudentKeys(students, nextStudentId)
      && AddressKeys(addresses, nextAddressId)
      && TeacherKeys(teachers, nextTeacherId)
      && SubjectKeys(subjects, nextSubjectId)
      && MarkKeys(marks, nextMarkId)
      && SingleLinks(addresses)
    }

    /** An empty database; every identity column starts at 1. */
    constructor()
      ensures Valid()
      ensures students == [] && addresses == [] && teachers == [] && subjects == [] && marks == []
      ensures nextStudentId == 1 && nextAddressId == 1 && nextTeacherId == 1
      ensures nextSubjectId == 1 && nextMarkId == 1
    {
      students, addresses, teachers, subjects, marks := [], [], [], [], [];
      nextStudentId, nextAddressId, nextTeacherId, nextSubjectId, nextMarkId := 1, 1, 1, 1, 1;
    }

    // -------------------------------------------------------------------
    // Queries

    /** GetAllStudents: every student in table order with its address
        loaded; marks are not loaded. */
    function GetAllStudents(): (r: seq<Student>)
      reads this
      ensures |r| == |students|
      ensures forall i :: 0 <= i < |r| ==>
        && r[i].id == students[i].id && r[i].firstName == students[i].firstName
        && r[i].lastName == students[i].lastName && r[i].age == students[i].age
        && r[i].marks == []
        && r[i].address == AddressOf(addresses, StudentOwner(students[i].id))
    {
      seq(|students|, i requires 0 <= i < |students| reads this =>
        StudentOf(students[i], AddressOf(addresses, StudentOwner(students[i].id))))
    }

    /** GetStudentById: the student with that id, or NotFound. Unlike
        GetAllStudents it loads neither the address nor the marks. */
    function GetStudentById(studentId: int): (r: Result<Student, Error>)
      reads this
      ensures r.Failure? <==> forall i :: 0 <= i < |students| ==> students[i].id != studentId
      ensures r.Failure? ==> r.error == NotFound(StudentKind, studentId)
      ensures r.Success? ==>
        && r.value.id == studentId && r.value.address == None && r.value.marks == []
        && exists i :: 0 <= i < |students| && students[i] == StudentRow(studentId, r.value.firstName, r.value.lastName, r.value.age)
    {
      match StudentIndex(students, studentId)
      case None => Failure(NotFound(StudentKind, studentId))
      case Some(i) => Success(StudentOf(students[i], None))
    }

    /** GetAllMarks: the student's marks in stored order, all of them when
        no subject is given and only that subject's otherwise; NotFound when
        the student does not exist. */
    function GetAllMarks(studentId: int, subjectId: Option<int>): (r: Result<seq<Mark>, Error>)
      reads this
      ensures r.Failure? <==> forall i :: 0 <= i < |students| ==> students[i].id != studentId
      ensures r.Failure? ==> r.error == NotFound(StudentKind, studentId)
      ensures r.Success? ==> IsSubsequence(r.value, marks)
      ensures r.Success? ==> forall m :: m in r.value <==>
        && m in marks && m.studentId == studentId
        && (subjectId.Some? ==> m.subjectId == subjectId.value)
    {
      match StudentIndex(students, studentId)
      case None => Failure(NotFound(StudentKind, studentId))
      case Some(_) =>
        var own := MarksOfStudent(marks, studentId);
        match subjectId
        case None => Success(own)
        case Some(k) =>
          StudentSubjectMarksInOrder(marks, studentId, k);
          Success(MarksForSubject(own, k))
    }

    /** GetAveragesPerSubject: one entry per subject the student has marks
        in, in order of the subject's first mark, each the exact mean of the
        student's marks in that subject; NotFound when the student does not
        exist. */
    function GetAveragesPerSubject(studentId: int): (r: Result<seq<AverageForSubject>, Error>)
      reads this
      ensures r.Failure? <==> forall i :: 0 <= i < |students| ==> students[i].id != studentId
      ensures r.Failure? ==> r.error == NotFound(StudentKind, studentId)
      ensures r.Success? ==>
        var own := MarksOfStudent(marks, studentId);
        var a := r.value;
        && (forall i, j :: 0 <= i < j < |a| ==> a[i].subjectId != a[j].subjectId)
        && (forall m :: m in own ==> exists i :: 0 <= i < |a| && a[i].subjectId == m.subjectId)
        && (forall i :: 0 <= i < |a| ==>
              a[i].average == MeanOf(MarksForSubject(own, a[i].subjectId)) && a[i].average.count > 0)
        && (forall i, j :: 0 <= i < j < |a| ==>
              FirstWithSubject(own, a[i].subjectId) < FirstWithSubject(own, a[j].subjectId))
    {
      match StudentIndex(students, studentId)
      case None => Failure(NotFound(StudentKind, studentId))
      case Some(_) =>
        var own := MarksOfStudent(marks, studentId);
        AveragesPerSubjectSpec(own);
        Success(AveragesPerSubject(own))
    }

    /** GetAllStudentsOrdered: every student's row exactly once, by mean
        mark, descending when the flag is true and ascending when it is
        false, students of equal mean in table order. The flag must be
        given and every student must have a mark. */
    function GetAllStudentsOrdered(orderDescending: Option<bool>): (r: seq<StudentWithAverage>)
      requires orderDescending.Some?
      requires AllHaveMarks(students, marks)
      reads this
      ensures |r| == |students|
      ensures multiset(r) == multiset(StudentsWithAverages(students, marks))
      ensures SortedByAverage(orderDescending.value, r)
      ensures forall k: Average :: k.count > 0 ==>
        WithMean(r, k) == WithMean(StudentsWithAverages(students, marks), k)
    {
      StudentsOrderedSpec(students, marks, orderDescending.value);
      StudentsOrdered(students, marks, orderDescending.value)
    }

    // -------------------------------------------------------------------
    // Students

    /** CreateStudent: a new student built from the names and age alone,
        stored under the next id; the stored student is returned. */
    method CreateStudent(studentToCreate: Student) returns (student: Student)
      requires Valid()
      modifies this
      ensures Valid()
      ensures student == NewStudent(studentToCreate.firstName, studentToCreate.lastName, studentToCreate.age).(id := old(nextStudentId))
      ensures students == old(students) + [StudentRow(student.id, student.firstName, student.lastName, student.age)]
      ensures nextStudentId == old(nextStudentId) + 1
      ensures GetStudentById(student.id) == Success(student)
      ensures addresses == old(addresses) && teachers == old(teachers) && subjects == old(subjects) && marks == old(marks)
      ensures nextAddressId == old(nextAddressId) && nextTeacherId == old(nextTeacherId)
      ensures nextSubjectId == old(nextSubjectId) && nextMarkId == old(nextMarkId)
    {
      student := NewStudent(studentToCreate.firstName, studentToCreate.lastName, studentToCreate.age);
      student := student.(id := nextStudentId);
      ghost var before := students;
      students := students + [StudentRow(student.id, student.firstName, student.lastName, student.age)];
      assert students[|before|].id == student.id;
      assert forall j :: 0 <= j < |before| ==> students[j] == before[j];
      nextStudentId := nextStudentId + 1;
    }

    /** DeleteStudent: nothing happens when there is no such student.
        Otherwise the student row goes, and its address is detached (its
        StudentId cleared) when deleteAddress is false, or removed when
        deleteAddress is true unless a teacher still uses it. Marks are
        left as they are. */
    method DeleteStudent(studentId: int, deleteAddress: bool)
      requires Valid()
      modifies this
      ensures Valid()
      ensures StudentIndex(old(students), studentId).None? ==>
        students == old(students) && addresses == old(addresses)
      ensures StudentIndex(old(students), studentId).Some? ==>
        && students == RemoveAt(old(students), StudentIndex(old(students), studentId).value)
        && addresses == DetachOrDeleteAddress(old(addresses), studentId, deleteAddress)
      ensures forall i :: 0 <= i < |students| ==> students[i].id != studentId
      ensures forall s :: s in students <==> s in old(students) && s.id != studentId
      ensures StudentIndex(old(students), studentId).Some? && !deleteAddress ==>
        && |addresses| == |old(addresses)|
        && forall a :: a in addresses ==> !LinkedTo(a, StudentOwner(studentId))
      ensures deleteAddress ==>
        && (forall a :: a in addresses ==> a in old(addresses))
        && (forall a :: a in old(addresses) && a.teacherId.Some? ==> a in addresses)
      ensures teachers == old(teachers) && subjects == old(subjects) && marks == old(marks)
      ensures nextStudentId == old(nextStudentId) && nextAddressId == old(nextAddressId)
      ensures nextTeacherId == old(nextTeacherId) && nextSubjectId == old(nextSubjectId)
      ensures nextMarkId == old(nextMarkId)
    {
      var found := StudentIndex(students, studentId);
      if found.None? {
        return;
      }
      var i := found.value;
      if !deleteAddress {
        DetachAddressRule(addresses, nextAddressId, studentId);
      } else {
        DeleteAddressRule(addresses, nextAddressId, studentId);
      }
      addresses := DetachOrDeleteAddress(addresses, studentId, deleteAddress);
      RemoveStudentRow(students, nextStudentId, i);
      students := RemoveAt(students, i);
    }

    /** ChangeStudentData: overwrite exactly the names and the age of the
        student row, or NotFound with nothing changed. */
    method ChangeStudentData(studentId: int, newStudentData: Student) returns (o: Outcome<Error>)
      requires Valid()
      modifies this
      ensures Valid()
      ensures o.Fail? <==> StudentIndex(old(students), studentId).None?
      ensures o.Fail? ==> o.error == NotFound(StudentKind, studentId) && students == old(students)
      ensures o.Pass? ==>
        var i := StudentIndex(old(students), studentId).value;
        students == old(students)[i := StudentRow(studentId, newStudentData.firstName, newStudentData.lastName, newStudentData.age)]
      ensures addresses == old(addresses) && teachers == old(teachers) && subjects == old(subjects) && marks == old(marks)
      ensures nextStudentId == old(nextStudentId) && nextAddressId == old(nextAddressId)
      ensures nextTeacherId == old(nextTeacherId) && nextSubjectId == old(nextSubjectId)
      ensures nextMarkId == old(nextMarkId)
    {
      var found := StudentIndex(students, studentId);
      if found.None? {
        return Fail(NotFound(StudentKind, studentId));
      }
      var i := found.value;
      students := students[i := students[i].(firstName := newStudentData.firstName,
                                             lastName := newStudentData.lastName,
                                             age := newStudentData.age)];
      o := Pass;
    }

    /** ChangeStudentAddress: upsert the student's address (City, Street and
        Number), creating it under the next address id if the student has
        none, or NotFound with nothing changed. */
    method ChangeStudentAddress(studentId: int, newAddress: Address) returns (o: Outcome<Error>)
      requires Valid()
      modifies this
      ensures Valid()
      ensures o.Fail? <==> StudentIndex(old(students), studentId).None?
      ensures o.Fail? ==>
        o.error == NotFound(StudentKind, studentId) && addresses == old(addresses) && nextAddressId == old(nextAddressId)
      ensures o.Pass? ==>
        && addresses == UpsertAddress(old(addresses), StudentOwner(studentId), newAddress, old(nextAddressId))
        && nextAddressId == old(nextAddressId) + (if AddressIndex(old(addresses), StudentOwner(studentId)).None? then 1 else 0)
        && AddressOf(addresses, StudentOwner(studentId)).Some?
      ensures students == old(students) && teachers == old(teachers) && subjects == old(subjects) && marks == old(marks)
      ensures nextStudentId == old(nextStudentId) && nextTeacherId == old(nextTeacherId)
      ensures nextSubjectId == old(nextSubjectId) && nextMarkId == old(nextMarkId)
    {
      if StudentIndex(students, studentId).None? {
        return Fail(NotFound(StudentKind, studentId));
      }
      o := UpsertOwnerAddress(StudentOwner(studentId), newAddress);
    }

    /** The shared body of the two address changes. */
    method UpsertOwnerAddress(owner: Owner, newAddress: Address) returns (o: Outcome<Error>)
      requires Valid()
      modifies this
      ensures Valid() && o == Pass
      ensures addresses == UpsertAddress(old(addresses), owner, newAddress, old(nextAddressId))
      ensures nextAddressId == old(nextAddressId) + (if AddressIndex(old(addresses), owner).None? then 1 else 0)
      ensures AddressOf(addresses, owner).Some?
      ensures students == old(students) && teachers == old(teachers) && subjects == old(subjects) && marks == old(marks)
      ensures nextStudentId == old(nextStudentId) && nextTeacherId == old(nextTeacherId)
      ensures nextSubjectId == old(nextSubjectId) && nextMarkId == old(nextMarkId)
    {
      if AddressIndex(addresses, owner).None? {
        UpsertCreatesAddress(addresses, nextAddressId, owner, newAddress);
        addresses := UpsertAddress(addresses, owner, newAddress, nextAddressId);
        nextAddressId := nextAddressId + 1;
      } else {
        UpsertUpdatesAddress(addresses, nextAddressId, owner, newAddress);
        addresses := UpsertAddress(addresses, owner, newAddress, nextAddressId);
      }
      o := Pass;
    }

    // -------------------------------------------------------------------
    // Subjects and marks

    /** AddSubject: a new subject under the next id with the given name and
        teacher id; the teacher's existence is not checked. */
    method AddSubject(subjectName: string, teacherId: int) returns (subject: Subject)
      requires Valid()
      modifies this
      ensures Valid()
      ensures subject == Subject(old(nextSubjectId), subjectName, Some(teacherId))
      ensures subjects == old(subjects) + [subject] && nextSubjectId == old(nextSubjectId) + 1
      ensures SubjectIndex(subjects, subject.id) == Some(|old(subjects)|)
      ensures students == old(students) && addresses == old(addresses) && teachers == old(teachers) && marks == old(marks)
      ensures nextStudentId == old(nextStudentId) && nextAddressId == old(nextAddressId)
      ensures nextTeacherId == old(nextTeacherId) && nextMarkId == old(nextMarkId)
    {
      subject := Subject(nextSubjectId, subjectName, Some(teacherId));
      ghost var before := subjects;
      subjects := subjects + [subject];
      assert subjects[|before|].id == subject.id;
      assert forall j :: 0 <= j < |before| ==> subjects[j] == before[j];
      nextSubjectId := nextSubjectId + 1;
    }

    /** AddMarkToStudent: one new mark under the next id, stamped with the
        given time, or NotFound with nothing changed. The mark joins the end
        of the student's marks; no other student's marks change. The subject
        is not checked. */
    method AddMarkToStudent(studentId: int, subjectId: int, markValue: int, now: Timestamp) returns (o: Outcome<Error>)
      requires Valid()
      modifies this
      ensures Valid()
      ensures o.Fail? <==> StudentIndex(old(students), studentId).None?
      ensures o.Fail? ==>
        o.error == NotFound(StudentKind, studentId) && marks == old(marks) && nextMarkId == old(nextMarkId)
      ensures o.Pass? ==>
        var m := Mark(old(nextMarkId), markValue, subjectId, studentId, now);
        && marks == old(marks) + [m] && nextMarkId == old(nextMarkId) + 1
        && MarksOfStudent(marks, studentId) == MarksOfStudent(old(marks), studentId) + [m]
        && forall other :: other != studentId ==> MarksOfStudent(marks, other) == MarksOfStudent(old(marks), other)
      ensures students == old(students) && addresses == old(addresses) && teachers == old(teachers) && subjects == old(subjects)
      ensures nextStudentId == old(nextStudentId) && nextAddressId == old(nextAddressId)
      ensures nextTeacherId == old(nextTeacherId) && nextSubjectId == old(nextSubjectId)
    {
      if StudentIndex(students, studentId).None? {
        return Fail(NotFound(StudentKind, studentId));
      }
      var m := Mark(nextMarkId, markValue, subjectId, studentId, now);
      forall other ensures MarksOfStudent(marks + [m], other)
                           == MarksOfStudent(marks, other) + (if studentId == other then [m] else []) {
        MarksOfStudentAppend(marks, m, other);
      }
      marks := marks + [m];
      nextMarkId := nextMarkId + 1;
      o := Pass;
    }

    /** DeleteSubject: nothing happens when there is no such subject;
        otherwise the subject row goes. Marks are left as they are. */
    method DeleteSubject(subjectId: int)
      requires Valid()
      modifies this
      ensures Valid()
      ensures SubjectIndex(old(subjects), subjectId).None? ==> subjects == old(subjects)
      ensures SubjectIndex(old(subjects), subjectId).Some? ==>
        subjects == RemoveAt(old(subjects), SubjectIndex(old(subjects), subjectId).value)
      ensures forall s :: s in subjects <==> s in old(subjects) && s.id != subjectId
      ensures students == old(students) && addresses == old(addresses) && teachers == old(teachers) && marks == old(marks)
      ensures nextStudentId == old(nextStudentId) && nextAddressId == old(nextAddressId)
      ensures nextTeacherId == old(nextTeacherId) && nextSubjectId == old(nextSubjectId)
      ensures nextMarkId == old(nextMarkId)
    {
      var found := SubjectIndex(subjects, subjectId);
      if found.None? {
        return;
      }
      RemoveSubjectRow(subjects, nextSubjectId, found.value);
      subjects := RemoveAt(subjects, found.value);
    }

    // -------------------------------------------------------------------
    // Teachers

    /** CreateTeacher: a new teacher built from the name and rank alone,
        stored under the next id; the stored teacher is returned. */
    method CreateTeacher(teacherToCreate: Teacher) returns (teacher: Teacher)
      requires Valid()
      modifies this
      ensures Valid()
      ensures teacher == Teacher(old(nextTeacherId), teacherToCreate.name, teacherToCreate.rank, None, None)
      ensures teachers == old(teachers) + [TeacherRow(teacher.id, teacher.name, teacher.rank)]
      ensures nextTeacherId == old(nextTeacherId) + 1
      ensures TeacherIndex(teachers, teacher.id) == Some(|old(teachers)|)
      ensures students == old(students) && addresses == old(addresses) && subjects == old(subjects) && marks == old(marks)
      ensures nextStudentId == old(nextStudentId) && nextAddressId == old(nextAddressId)
      ensures nextSubjectId == old(nextSubjectId) && nextMarkId == old(nextMarkId)
    {
      teacher := Teacher(nextTeacherId, teacherToCreate.name, teacherToCreate.rank, None, None);
      ghost var before := teachers;
      teachers := teachers + [TeacherRow(teacher.id, teacher.name, teacher.rank)];
      assert teachers[|before|].id == teacher.id;
      assert forall j :: 0 <= j < |before| ==> teachers[j] == before[j];
      nextTeacherId := nextTeacherId + 1;
    }

    /** DeleteTeacher: nothing happens when there is no such teacher.
        Otherwise the TeacherId of the teacher's subject is cleared, and
        then the teacher row goes; the subject row stays. The data layer
        dereferences the loaded subject unchecked, so a teacher that exists
        must have one. */
    method DeleteTeacher(teacherId: int)
      requires Valid()
      requires TeacherIndex(teachers, teacherId).Some? ==> SubjectOfTeacher(subjects, teacherId).Some?
      modifies this
      ensures Valid()
      ensures TeacherIndex(old(teachers), teacherId).None? ==>
        teachers == old(teachers) && subjects == old(subjects)
      ensures TeacherIndex(old(teachers), teacherId).Some? ==>
        var j := SubjectOfTeacher(old(subjects), teacherId).value;
        && teachers == RemoveAt(old(teachers), TeacherIndex(old(teachers), teacherId).value)
        && subjects == old(subjects)[j := old(subjects)[j].(teacherId := None)]
        && |subjects| == |old(subjects)| && subjects[j].id == old(subjects)[j].id
      ensures forall t :: t in teachers <==> t in old(teachers) && t.id != teacherId
      ensures students == old(students) && addresses == old(addresses) && marks == old(marks)
      ensures nextStudentId == old(nextStudentId) && nextAddressId == old(nextAddressId)
      ensures nextTeacherId == old(nextTeacherId) && nextSubjectId == old(nextSubjectId)
      ensures nextMarkId == old(nextMarkId)
    {
      var found := TeacherIndex(teachers, teacherId);
      if found.None? {
        return;
      }
      var j := SubjectOfTeacher(subjects, teacherId).value;
      subjects := subjects[j := subjects[j].(teacherId := None)];
      RemoveTeacherRow(teachers, nextTeacherId, found.value);
      teachers := RemoveAt(teachers, found.value);
    }

    /** ChangeTeacherAddress: upsert the teacher's address as
        ChangeStudentAddress does for a student, or NotFound with nothing
        changed. */
    method ChangeTeacherAddress(teacherId: int, newAddress: Address) returns (o: Outcome<Error>)
      requires Valid()
      modifies this
      ensures Valid()
      ensures o.Fail? <==> TeacherIndex(old(teachers), teacherId).None?
      ensures o.Fail? ==>
        o.error == NotFound(TeacherKind, teacherId) && addresses == old(addresses) && nextAddressId == old(nextAddressId)
      ensures o.Pass? ==>
        && addresses == UpsertAddress(old(addresses), TeacherOwner(teacherId), newAddress, old(nextAddressId))
        && nextAddressId == old(nextAddressId) + (if AddressIndex(old(addresses), TeacherOwner(teacherId)).None? then 1 else 0)
        && AddressOf(addresses, TeacherOwner(teacherId)).Some?
      ensures students == old(students) && teachers == old(teachers) && subjects == old(subjects) && marks == old(marks)
      ensures nextStudentId == old(nextStudentId) && nextTeacherId == old(nextTeacherId)
      ensures nextSubjectId == old(nextSubjectId) && nextMarkId == old(nextMarkId)
    {
      if TeacherIndex(teachers, teacherId).None? {
        return Fail(NotFound(TeacherKind, teacherId));
      }
      o := UpsertOwnerAddress(TeacherOwner(teacherId), newAddress);
    }

    /** AssignTeacherToSubject: set the subject's TeacherId, whether or not
        such a teacher exists, or NotFound with nothing changed. */
    method AssignTeacherToSubject(teacherId: int, subjectId: int) returns (o: Outcome<Error>)
      requires Valid()
      modifies this
      ensures Valid()
      ensures o.Fail? <==> SubjectIndex(old(subjects), subjectId).None?
      ensures o.Fail? ==> o.error == NotFound(SubjectKind, subjectId) && subjects == old(subjects)
      ensures o.Pass? ==>
        var i := SubjectIndex(old(subjects), subjectId).value;
        subjects == old(subjects)[i := old(subjects)[i].(teacherId := Some(teacherId))]
      ensures students == old(students) && addresses == old(addresses) && teachers == old(teachers) && marks == old(marks)
      ensures nextStudentId == old(nextStudentId) && nextAddressId == old(nextAddressId)
      ensures nextTeacherId == old(nextTeacherId) && nextSubjectId == old(nextSubjectId)
      ensures nextMarkId == old(nextMarkId)
    {
      var found := SubjectIndex(subjects, subjectId);
      if found.None? {
        return Fail(NotFound(SubjectKind, subjectId));
      }
      var i := found.value;
      subjects := subjects[i := subjects[i].(teacherId := Some(teacherId))];
      o := Pass;
    }

    /** PromoteTeacher: move the teacher one rank up (a Professor stays
        one), or NotFound with nothing changed. The stored rank's text goes
        through the data layer's comparison chain. */
    method PromoteTeacher(teacherId: int) returns (o: Outcome<Error>)
      requires Valid()
      modifies this
      ensures Valid()
      ensures o.Fail? <==> TeacherIndex(old(teachers), teacherId).None?
      ensures o.Fail? ==> o.error == NotFound(TeacherKind, teacherId) && teachers == old(teachers)
      ensures o.Pass? ==>
        var i := TeacherIndex(old(teachers), teacherId).value;
        && teachers == old(teachers)[i := old(teachers)[i].(rank := Promote(old(teachers)[i].rank))]
        && RankName(teachers[i].rank) == PromoteName(RankName(old(teachers)[i].rank))
      ensures students == old(students) && addresses == old(addresses) && subjects == old(subjects) && marks == old(marks)
      ensures nextStudentId == old(nextStudentId) && nextAddressId == old(nextAddressId)
      ensures nextTeacherId == old(nextTeacherId) && nextSubjectId == old(nextSubjectId)
      ensures nextMarkId == old(nextMarkId)
    {
      var found := TeacherIndex(teachers, teacherId);
      if found.None? {
        return Fail(NotFound(TeacherKind, teacherId));
      }
      var i := found.value;
      PromoteNameOfRank(teachers[i].rank);
      teachers := teachers[i := teachers[i].(rank := Promote(teachers[i].rank))];
      o := Pass;
    }
  }

  /** Removing a student row keeps the keys and drops exactly that id. */
  lemma RemoveStudentRow(t: seq<StudentRow>, next: int, i: nat)
    requires i < |t| && StudentKeys(t, next)
    ensures StudentKeys(RemoveAt(t, i), next)
    ensures forall s :: s in RemoveAt(t, i) <==> s in t && s.id != t[i].id
  {
    var r := RemoveAt(t, i);
    forall j, k | 0 <= j < k < |r| ensures r[j].id != r[k].id {
      var j', k' := if j < i then j else j + 1, if k < i then k else k + 1;
      assert r[j] == t[j'] && r[k] == t[k'] && j' < k';
    }
    forall j | 0 <= j < |r| ensures r[j] in t && r[j].id != t[i].id {
      var j' := if j < i then j else j + 1;
      assert r[j] == t[j'] && j' != i;
    }
    forall j | 0 <= j < |t| && t[j].id != t[i].id ensures t[j] in r {
      assert r[if j < i then j else j - 1] == t[j];
    }
  }

  /** Removing a teacher row keeps the keys and drops exactly that id. */
  lemma RemoveTeacherRow(t: seq<TeacherRow>, next: int, i: nat)
    requires i < |t| && TeacherKeys(t, next)
    ensures TeacherKeys(RemoveAt(t, i), next)
    ensures forall s :: s in RemoveAt(t, i) <==> s in t && s.id != t[i].id
  {
    var r := RemoveAt(t, i);
    forall j, k | 0 <= j < k < |r| ensures r[j].id != r[k].id {
      var j', k' := if j < i then j else j + 1, if k < i then k else k + 1;
      assert r[j] == t[j'] && r[k] == t[k'] && j' < k';
    }
    forall j | 0 <= j < |r| ensures r[j] in t && r[j].id != t[i].id {
      var j' := if j < i then j else j + 1;
      assert r[j] == t[j'] && j' != i;
    }
    forall j | 0 <= j < |t| && t[j].id != t[i].id ensures t[j] in r {
      assert r[if j < i then j else j - 1] == t[j];
    }
  }

  /** Removing a subject row keeps the keys and drops exactly that id. */
  lemma RemoveSubjectRow(t: seq<Subject>, next: int, i: nat)
    requires i < |t| && SubjectKeys(t, next)
    ensures SubjectKeys(RemoveAt(t, i), next)
    ensures forall s :: s in RemoveAt(t, i) <==> s in t && s.id != t[i].id
  {
    var r := RemoveAt(t, i);
    forall j, k | 0 <= j < k < |r| ensures r[j].id != r[k].id {
      var j', k' := if j < i then j else j + 1, if k < i then k else k + 1;
      assert r[j] == t[j'] && r[k] == t[k'] && j' < k';
    }
    forall j | 0 <= j < |r| ensures r[j] in t && r[j].id != t[i].id {
      var j' := if j < i then j else j + 1;
      assert r[j] == t[j'] && j' != i;
    }
    forall j | 0 <= j < |t| && t[j].id != t[i].id ensures t[j] in r {
      assert r[if j < i then j else j - 1] == t[j];
    }
  }
}
