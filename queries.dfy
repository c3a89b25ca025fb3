/** The read-only LINQ pipelines of the data layer (Data/DataLayer.cs): a
    student's marks, optionally narrowed to one subject; the average mark
    per subject (GroupBy, then Average); and all students ordered by their
    mean mark (OrderBy or OrderByDescending, both stable sorts). An average
    is kept exact as a sum and a count, and two averages are compared by
    cross-multiplying. */
module Queries {
  import opened Wrappers
  import opened Models
  import opened Tables

  /** The elements of `a` occur in `b` in the same order, possibly with
      others in between. */
  ghost predicate IsSubsequence<T>(a: seq<T>, b: seq<T>)
    decreases |b|
  {
    if a == [] then true
    else if b == [] then false
    else if a[0] == b[0] then IsSubsequence(a[1..], b[1..])
    else IsSubsequence(a, b[1..])
  }

  /** A student's marks, in the order of the marks table: the rows
      `Include(s => s.Marks)` loads into Student.Marks. The database does
      not fix the order it loads them in; the model takes table order. */
  function MarksOfStudent(ms: seq<Mark>, studentId: int): (r: seq<Mark>)
    ensures forall m :: m in r <==> m in ms && m.studentId == studentId
    ensures IsSubsequence(r, ms)
  {
    if ms == [] then []
    else if ms[0].studentId == studentId then [ms[0]] + MarksOfStudent(ms[1..], studentId)
    else MarksOfStudent(ms[1..], studentId)
  }

  /** `Marks.Where(m => m.SubjectId == subjectId)`, order kept. */
  function MarksForSubject(ms: seq<Mark>, subjectId: int): (r: seq<Mark>)
    ensures forall m :: m in r <==> m in ms && m.subjectId == subjectId
    ensures IsSubsequence(r, ms)
  {
    if ms == [] then []
    else if ms[0].subjectId == subjectId then [ms[0]] + MarksForSubject(ms[1..], subjectId)
    else MarksForSubject(ms[1..], subjectId)
  }

  /** A student's marks hold each of its table rows as often as the table
      does, and no other row: the filter is exact even over repeated rows. */
  lemma {:induction false} MarksOfStudentCounts(ms: seq<Mark>, studentId: int)
    ensures forall m :: multiset(MarksOfStudent(ms, studentId))[m]
                     == if m.studentId == studentId then multiset(ms)[m] else 0
  {
    if ms != [] {
      MarksOfStudentCounts(ms[1..], studentId);
      assert ms == [ms[0]] + ms[1..];
      assert multiset(ms) == multiset{ms[0]} + multiset(ms[1..]);
    }
  }

  /** The subject filter keeps each matching row as often as its input
      holds it, and no other row. */
  lemma {:induction false} MarksForSubjectCounts(ms: seq<Mark>, subjectId: int)
    ensures forall m :: multiset(MarksForSubject(ms, subjectId))[m]
                     == if m.subjectId == subjectId then multiset(ms)[m] else 0
  {
    if ms != [] {
      MarksForSubjectCounts(ms[1..], subjectId);
      assert ms == [ms[0]] + ms[1..];
      assert multiset(ms) == multiset{ms[0]} + multiset(ms[1..]);
    }
  }

  /** A student's marks in one subject keep the order they have in the
      whole mark table. */
  lemma {:induction false} StudentSubjectMarksInOrder(ms: seq<Mark>, studentId: int, subjectId: int)
    ensures IsSubsequence(MarksForSubject(MarksOfStudent(ms, studentId), subjectId), ms)
  {
    if ms != [] {
      StudentSubjectMarksInOrder(ms[1..], studentId, subjectId);
      var rest := MarksForSubject(MarksOfStudent(ms[1..], studentId), subjectId);
      if ms[0].studentId == studentId && ms[0].subjectId == subjectId {
        assert MarksOfStudent(ms, studentId) == [ms[0]] + MarksOfStudent(ms[1..], studentId);
        assert ([ms[0]] + MarksOfStudent(ms[1..], studentId))[1..] == MarksOfStudent(ms[1..], studentId);
        assert MarksForSubject(MarksOfStudent(ms, studentId), subjectId) == [ms[0]] + rest;
        assert ([ms[0]] + rest)[1..] == rest;
      } else {
        if ms[0].studentId == studentId {
          assert ([ms[0]] + MarksOfStudent(ms[1..], studentId))[1..] == MarksOfStudent(ms[1..], studentId);
        }
        assert MarksForSubject(MarksOfStudent(ms, studentId), subjectId) == rest;
        if rest != [] {
          assert rest[0] in rest;
        }
      }
    }
  }

  /** A mark added to the table joins the end of its student's marks and
      leaves every other student's marks as they were. */
  lemma {:induction false} MarksOfStudentAppend(ms: seq<Mark>, m: Mark, studentId: int)
    ensures MarksOfStudent(ms + [m], studentId)
         == MarksOfStudent(ms, studentId) + (if m.studentId == studentId then [m] else [])
  {
    if ms != [] {
      assert (ms + [m])[1..] == ms[1..] + [m];
      MarksOfStudentAppend(ms[1..], m, studentId);
    }
  }

  // ---------------------------------------------------------------------
  // Averages

  /** The exact average sum / count of `count` values adding up to `sum`. */
  datatype Average = Average(sum: int, count: nat)

  function SumOfValues(ms: seq<Mark>): int
  {
    if ms == [] then 0 else ms[0].value + SumOfValues(ms[1..])
  }

  /** `ms.Average(m => m.Value)`, kept exact. */
  function MeanOf(ms: seq<Mark>): Average
  {
    Average(SumOfValues(ms), |ms|)
  }

  /** The average is defined (count > 0) and lies in [lo, hi]. */
  predicate MeanWithin(a: Average, lo: int, hi: int)
  {
    a.count > 0 && lo * a.count <= a.sum <= hi * a.count
  }

  /** Valid marks add up to between 1 and 10 times their number. */
  lemma {:induction false} ValidMarksSum(ms: seq<Mark>)
    requires forall m :: m in ms ==> ValidMark(m)
    ensures |ms| <= SumOfValues(ms) <= 10 * |ms|
  {
    if ms != [] {
      assert ms[0] in ms;
      ValidMarksSum(ms[1..]);
    }
  }

  /** The mean of a non-empty list of valid marks lies in [1, 10]. */
  lemma ValidMarksMean(ms: seq<Mark>)
    requires |ms| > 0 && forall m :: m in ms ==> ValidMark(m)
    ensures MeanWithin(MeanOf(ms), 1, 10)
  {
    ValidMarksSum(ms);
  }

  // ---------------------------------------------------------------------
  // GroupBy(m => m.SubjectId)

  /** The index of the first mark for the subject, |ms| if there is none. */
  function FirstWithSubject(ms: seq<Mark>, subjectId: int): (i: nat)
    ensures i <= |ms|
    ensures i < |ms| ==> ms[i].subjectId == subjectId
    ensures forall j :: 0 <= j < i ==> ms[j].subjectId != subjectId
  {
    if ms == [] then 0
    else if ms[0].subjectId == subjectId then 0
    else 1 + FirstWithSubject(ms[1..], subjectId)
  }

  /** Appending a mark leaves the first occurrence of a subject already
      present where it was, and makes a new subject first occur at the end. */
  lemma {:induction false} FirstWithSubjectAppend(ms: seq<Mark>, x: Mark, subjectId: int)
    ensures FirstWithSubject(ms, subjectId) < |ms| ==>
              FirstWithSubject(ms + [x], subjectId) == FirstWithSubject(ms, subjectId)
    ensures FirstWithSubject(ms, subjectId) == |ms| && x.subjectId == subjectId ==>
              FirstWithSubject(ms + [x], subjectId) == |ms|
  {
    if ms != [] {
      assert (ms + [x])[1..] == ms[1..] + [x];
      FirstWithSubjectAppend(ms[1..], x, subjectId);
    }
  }

  /** The group keys GroupBy produces: each subject id of the marks once. */
  function DistinctSubjects(ms: seq<Mark>): seq<int>
  {
    if ms == [] then []
    else
      var d := DistinctSubjects(ms[..|ms| - 1]);
      var k := ms[|ms| - 1].subjectId;
      if k in d then d else d + [k]
  }

  /** GroupBy's keys: no key twice, every subject among the marks present,
      nothing else present, and keys in the order of their first
      occurrence among the marks. */
  lemma {:induction false} DistinctSubjectsSpec(ms: seq<Mark>)
    ensures var r := DistinctSubjects(ms);
      && (forall i, j :: 0 <= i < j < |r| ==> r[i] != r[j])
      && (forall i :: 0 <= i < |ms| ==> ms[i].subjectId in r)
      && (forall k :: k in r ==> FirstWithSubject(ms, k) < |ms|)
      && (forall i, j :: 0 <= i < j < |r| ==> FirstWithSubject(ms, r[i]) < FirstWithSubject(ms, r[j]))
  {
    if ms != [] {
      var init, x := ms[..|ms| - 1], ms[|ms| - 1];
      assert ms == init + [x];
      DistinctSubjectsSpec(init);
      var d := DistinctSubjects(init);
      forall k ensures FirstWithSubject(init, k) < |init| ==> FirstWithSubject(ms, k) == FirstWithSubject(init, k)
        ensures FirstWithSubject(init, k) == |init| && x.subjectId == k ==> FirstWithSubject(ms, k) == |init|
      {
        FirstWithSubjectAppend(init, x, k);
      }
      forall i | 0 <= i < |ms| ensures ms[i].subjectId in DistinctSubjects(ms) {
        if i < |init| {
          assert ms[i] == init[i];
        }
      }
      if x.subjectId !in d {
        assert FirstWithSubject(init, x.subjectId) == |init|;
      }
    }
  }

  /** One GroupBy group turned into an average: `new AverageForSubject {
      SubjectId = g.Key, Average = g.Average(m => m.Value) }`. */
  datatype AverageForSubject = AverageForSubject(subjectId: int, average: Average)

  /** `Marks.GroupBy(m => m.SubjectId).Select(g => ..)` over one student's marks. */
  function AveragesPerSubject(ms: seq<Mark>): seq<AverageForSubject>
  {
    var keys := DistinctSubjects(ms);
    seq(|keys|, i requires 0 <= i < |keys| => AverageForSubject(keys[i], MeanOf(MarksForSubject(ms, keys[i]))))
  }

  /** One entry per distinct subject id among the marks, in order of first
      occurrence, each the exact mean of that subject's mark values (so over
      at least one mark). */
  lemma AveragesPerSubjectSpec(ms: seq<Mark>)
    ensures var r := AveragesPerSubject(ms);
      && (forall i, j :: 0 <= i < j < |r| ==> r[i].subjectId != r[j].subjectId)
      && (forall m :: m in ms ==> exists i :: 0 <= i < |r| && r[i].subjectId == m.subjectId)
      && (forall i :: 0 <= i < |r| ==>
            r[i].average == MeanOf(MarksForSubject(ms, r[i].subjectId)) && r[i].average.count > 0)
      && (forall i, j :: 0 <= i < j < |r| ==>
            FirstWithSubject(ms, r[i].subjectId) < FirstWithSubject(ms, r[j].subjectId))
  {
    var keys := DistinctSubjects(ms);
    var r := AveragesPerSubject(ms);
    assert |r| == |keys| && forall i :: 0 <= i < |r| ==> r[i].subjectId == keys[i];
    DistinctSubjectsSpec(ms);
    forall m | m in ms ensures exists i :: 0 <= i < |r| && r[i].subjectId == m.subjectId {
      var j :| 0 <= j < |ms| && ms[j] == m;
      var i :| 0 <= i < |keys| && keys[i] == ms[j].subjectId;
      assert r[i].subjectId == m.subjectId;
    }
    forall i | 0 <= i < |r| ensures r[i].average.count > 0 {
      assert keys[i] in keys;
      var f := FirstWithSubject(ms, keys[i]);
      assert ms[f] in MarksForSubject(ms, keys[i]);
    }
  }

  /** If every mark is valid, every per-subject average lies in [1, 10]. */
  lemma AveragesPerSubjectWithin(ms: seq<Mark>)
    requires forall m :: m in ms ==> ValidMark(m)
    ensures forall a :: a in AveragesPerSubject(ms) ==> MeanWithin(a.average, 1, 10)
  {
    AveragesPerSubjectSpec(ms);
    var r := AveragesPerSubject(ms);
    forall a | a in r ensures MeanWithin(a.average, 1, 10) {
      var g := MarksForSubject(ms, a.subjectId);
      assert a.average == MeanOf(g);
      ValidMarksMean(g);
    }
  }

  /** A student with marks 8 and 10 in subject 1 and 6 in subject 2 has the
      averages 18/2 (that is 9) for subject 1 and 6/1 for subject 2, in that
      order. */
  lemma AveragesPerSubjectExample(t1: Timestamp, t2: Timestamp, t3: Timestamp)
    ensures AveragesPerSubject([Mark(1, 8, 1, 1, t1), Mark(2, 10, 1, 1, t2), Mark(3, 6, 2, 1, t3)])
         == [AverageForSubject(1, Average(18, 2)), AverageForSubject(2, Average(6, 1))]
  {
    var ms := [Mark(1, 8, 1, 1, t1), Mark(2, 10, 1, 1, t2), Mark(3, 6, 2, 1, t3)];
    assert ms[..2][..1] == [ms[0]];
    assert DistinctSubjects(ms[..2][..1]) == [1];
    assert DistinctSubjects(ms[..2]) == [1];
    assert DistinctSubjects(ms) == [1, 2];
    assert ms[1..] == [ms[1], ms[2]] && ms[1..][1..] == [ms[2]] && ms[1..][1..][1..] == [];
    assert MarksForSubject(ms[1..][1..], 1) == [];
    assert MarksForSubject(ms, 1) == [ms[0], ms[1]];
    assert MarksForSubject(ms[1..][1..], 2) == [ms[2]];
    assert MarksForSubject(ms, 2) == [ms[2]];
    assert SumOfValues([ms[1]]) == 10 && SumOfValues([ms[0], ms[1]]) == 18;
    assert SumOfValues([ms[2]]) == 6;
    var r := AveragesPerSubject(ms);
    assert |r| == 2 && r[0] == AverageForSubject(1, Average(18, 2)) && r[1] == AverageForSubject(2, Average(6, 1));
  }

  // ---------------------------------------------------------------------
  // OrderBy / OrderByDescending on the mean mark

  /** The row GetAllStudentsOrdered returns for a student:
      `new StudentWithAverageToGet(Id, FirstName + LastName, Age, average)`. */
  datatype StudentWithAverage = StudentWithAverage(id: int, name: string, age: int, average: Average)

  /** Mean a goes strictly before mean b in the requested order. */
  predicate Ahead(descending: bool, a: Average, b: Average)
  {
    if descending then a.sum * b.count > b.sum * a.count
    else a.sum * b.count < b.sum * a.count
  }

  /** The two averages are the same number. */
  predicate SameMean(a: Average, b: Average)
  {
    a.sum * b.count == b.sum * a.count
  }

  /** Every row's average is over at least one mark. */
  ghost predicate Counted(s: seq<StudentWithAverage>)
  {
    forall i :: 0 <= i < |s| ==> s[i].average.count > 0
  }

  /** No row has a mean strictly ahead of an earlier row's. */
  ghost predicate SortedByAverage(descending: bool, s: seq<StudentWithAverage>)
  {
    forall i, j :: 0 <= i < j < |s| ==> !Ahead(descending, s[j].average, s[i].average)
  }

  /** Insert x before the first row that is not strictly ahead of it. As x
      came earlier in the input than every row of s, rows of equal mean keep
      their input order. */
  function InsertByAverage(descending: bool, x: StudentWithAverage, s: seq<StudentWithAverage>): (r: seq<StudentWithAverage>)
    ensures multiset(r) == multiset(s) + multiset{x}
  {
    if s == [] then [x]
    else if Ahead(descending, s[0].average, x.average) then
      assert s == [s[0]] + s[1..];
      [s[0]] + InsertByAverage(descending, x, s[1..])
    else [x] + s
  }

  /** A stable insertion sort on the mean, as OrderBy / OrderByDescending. */
  function SortByAverage(descending: bool, s: seq<StudentWithAverage>): (r: seq<StudentWithAverage>)
    ensures multiset(r) == multiset(s)
  {
    if s == [] then []
    else
      assert s == [s[0]] + s[1..];
      InsertByAverage(descending, s[0], SortByAverage(descending, s[1..]))
  }

  /** Cross-multiplied comparison is transitive for positive counts:
      a <= b <= c gives a <= c, strictly if either step is strict. */
  lemma CrossTransitive(a: Average, b: Average, c: Average)
    requires a.count > 0 && b.count > 0 && c.count > 0
    requires a.sum * b.count <= b.sum * a.count
    requires b.sum * c.count <= c.sum * b.count
    ensures a.sum * c.count <= c.sum * a.count
    ensures (a.sum * b.count < b.sum * a.count || b.sum * c.count < c.sum * b.count) ==>
              a.sum * c.count < c.sum * a.count
  {
    MulMonotone(a.sum * b.count, b.sum * a.count, c.count);
    MulMonotone(b.sum * c.count, c.sum * b.count, a.count);
    Rearrange(a.sum, b.count, c.count);
    Rearrange(b.sum, a.count, c.count);
    Rearrange(c.sum, b.count, a.count);
    MulCancel(a.sum * c.count, c.sum * a.count, b.count);
  }

  lemma Rearrange(x: int, y: int, z: int)
    ensures (x * y) * z == (x * z) * y
  {
  }

  lemma MulMonotone(x: int, y: int, p: int)
    requires x <= y && p > 0
    ensures x * p <= y * p
    ensures x < y ==> x * p < y * p
  {
  }

  lemma MulCancel(x: int, y: int, p: int)
    requires p > 0
    ensures x * p <= y * p ==> x <= y
    ensures x * p < y * p ==> x < y
  {
    if x > y {
      MulMonotone(y, x, p);
    }
  }

  /** "Not strictly ahead" is transitive. */
  lemma NotAheadTransitive(descending: bool, a: Average, b: Average, c: Average)
    requires a.count > 0 && b.count > 0 && c.count > 0
    requires !Ahead(descending, b, a) && !Ahead(descending, c, b)
    ensures !Ahead(descending, c, a)
  {
    if descending {
      CrossTransitive(c, b, a);
    } else {
      CrossTransitive(a, b, c);
    }
  }

  /** A row strictly ahead of x does not share x's mean. */
  lemma AheadNotSame(descending: bool, a: Average, b: Average, k: Average)
    requires a.count > 0 && b.count > 0 && k.count > 0
    requires Ahead(descending, a, b) && SameMean(b, k)
    ensures !SameMean(a, k)
  {
    if descending {
      CrossTransitive(k, b, a);
    } else {
      CrossTransitive(a, b, k);
    }
  }

  lemma CountedHead(s: seq<StudentWithAverage>, r: seq<StudentWithAverage>)
    requires Counted(s) && multiset(r) <= multiset(s)
    ensures Counted(r)
  {
    forall i | 0 <= i < |r| ensures r[i].average.count > 0 {
      assert r[i] in multiset(r);
      assert r[i] in s;
    }
  }

  lemma {:induction false} InsertKeepsSorted(descending: bool, x: StudentWithAverage, s: seq<StudentWithAverage>)
    requires Counted(s) && x.average.count > 0 && SortedByAverage(descending, s)
    ensures SortedByAverage(descending, InsertByAverage(descending, x, s))
  {
    if s != [] {
      var r := InsertByAverage(descending, x, s);
      if Ahead(descending, s[0].average, x.average) {
        var rest := InsertByAverage(descending, x, s[1..]);
        InsertKeepsSorted(descending, x, s[1..]);
        assert r == [s[0]] + rest;
        forall j | 0 < j < |r| ensures !Ahead(descending, r[j].average, s[0].average) {
          var y := r[j];
          assert y in multiset(rest);
          if y != x {
            assert y in multiset(s[1..]);
            var k :| 0 <= k < |s[1..]| && s[1..][k] == y;
            assert s[k + 1] == y;
          }
        }
      } else {
        assert r == [x] + s;
        forall j | 0 <= j < |s| ensures !Ahead(descending, s[j].average, x.average) {
          if j > 0 {
            NotAheadTransitive(descending, x.average, s[0].average, s[j].average);
          }
        }
      }
    }
  }

  /** OrderBy's result is ordered on the mean. */
  lemma {:induction false} SortByAverageSorted(descending: bool, s: seq<StudentWithAverage>)
    requires Counted(s)
    ensures SortedByAverage(descending, SortByAverage(descending, s))
  {
    if s != [] {
      SortByAverageSorted(descending, s[1..]);
      CountedHead(s[1..], SortByAverage(descending, s[1..]));
      InsertKeepsSorted(descending, s[0], SortByAverage(descending, s[1..]));
    }
  }

  /** The rows whose mean equals k, in their order. */
  function WithMean(s: seq<StudentWithAverage>, k: Average): seq<StudentWithAverage>
  {
    if s == [] then []
    else if SameMean(s[0].average, k) then [s[0]] + WithMean(s[1..], k)
    else WithMean(s[1..], k)
  }

  lemma {:induction false} InsertWithMean(descending: bool, x: StudentWithAverage, s: seq<StudentWithAverage>, k: Average)
    requires Counted(s) && x.average.count > 0 && k.count > 0
    ensures WithMean(InsertByAverage(descending, x, s), k)
         == (if SameMean(x.average, k) then [x] else []) + WithMean(s, k)
  {
    if s != [] && Ahead(descending, s[0].average, x.average) {
      InsertWithMean(descending, x, s[1..], k);
      if SameMean(x.average, k) {
        AheadNotSame(descending, s[0].average, x.average, k);
      }
    }
  }

  /** OrderBy is stable: the rows of any one mean come out in the order
      they went in. */
  lemma {:induction false} SortByAverageStable(descending: bool, s: seq<StudentWithAverage>, k: Average)
    requires Counted(s) && k.count > 0
    ensures WithMean(SortByAverage(descending, s), k) == WithMean(s, k)
  {
    if s != [] {
      SortByAverageStable(descending, s[1..], k);
      CountedHead(s[1..], SortByAverage(descending, s[1..]));
      InsertWithMean(descending, s[0], SortByAverage(descending, s[1..]), k);
    }
  }

  /** The row for one student, its marks loaded with `Include`. */
  function WithAverage(st: StudentRow, ms: seq<Mark>): StudentWithAverage
  {
    StudentWithAverage(st.id, st.firstName + st.lastName, st.age, MeanOf(MarksOfStudent(ms, st.id)))
  }

  /** One row per student, in table order. */
  function StudentsWithAverages(students: seq<StudentRow>, ms: seq<Mark>): (r: seq<StudentWithAverage>)
    ensures |r| == |students|
    ensures forall i :: 0 <= i < |r| ==> r[i] == WithAverage(students[i], ms)
  {
    seq(|students|, i requires 0 <= i < |students| => WithAverage(students[i], ms))
  }

  /** The students ordered by mean mark. The program orders the students and
      then selects the rows; as the sort key is the row's average, ordering
      the rows gives the same sequence. */
  function StudentsOrdered(students: seq<StudentRow>, ms: seq<Mark>, descending: bool): seq<StudentWithAverage>
  {
    SortByAverage(descending, StudentsWithAverages(students, ms))
  }

  /** Every student has at least one mark, the one case the program's
      `Average` does not throw on. */
  ghost predicate AllHaveMarks(students: seq<StudentRow>, ms: seq<Mark>)
  {
    forall i :: 0 <= i < |students| ==> |MarksOfStudent(ms, students[i].id)| > 0
  }

  /** GetAllStudentsOrdered returns each student's row exactly once, ordered
      by mean mark in the requested direction, students of equal mean in
      table order. */
  lemma StudentsOrderedSpec(students: seq<StudentRow>, ms: seq<Mark>, descending: bool)
    requires AllHaveMarks(students, ms)
    ensures var r := StudentsOrdered(students, ms, descending);
      var rows := StudentsWithAverages(students, ms);
      && |r| == |students| && multiset(r) == multiset(rows)
      && SortedByAverage(descending, r)
      && (forall k: Average :: k.count > 0 ==> WithMean(r, k) == WithMean(rows, k))
  {
    var rows := StudentsWithAverages(students, ms);
    assert Counted(rows);
    SortByAverageSorted(descending, rows);
    forall k: Average | k.count > 0 ensures WithMean(StudentsOrdered(students, ms, descending), k) == WithMean(rows, k) {
      SortByAverageStable(descending, rows, k);
    }
    assert |multiset(StudentsOrdered(students, ms, descending))| == |multiset(rows)|;
  }

  /** If every mark is valid, every student's mean lies in [1, 10]. */
  lemma StudentsOrderedWithin(students: seq<StudentRow>, ms: seq<Mark>, descending: bool)
    requires AllHaveMarks(students, ms) && forall m :: m in ms ==> ValidMark(m)
    ensures forall x :: x in StudentsOrdered(students, ms, descending) ==> MeanWithin(x.average, 1, 10)
  {
    var rows := StudentsWithAverages(students, ms);
    forall x | x in StudentsOrdered(students, ms, descending) ensures MeanWithin(x.average, 1, 10) {
      assert x in multiset(rows);
      var i :| 0 <= i < |rows| && rows[i] == x;
      ValidMarksMean(MarksOfStudent(ms, students[i].id));
    }
  }
}
