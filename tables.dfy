/** The five tables of the catalogue database, held in memory as sequences
    of rows in insertion order and keyed by id, with the lookups the data
    layer makes (`FirstOrDefault` by id or by foreign key) and the row-level
    changes its delete and address-upsert operations save
    (Data/DataLayer.cs). */
module Tables {
  import opened Wrappers
  import opened Models

  /** A row of the Students table: the scalar columns of Student. Its
      address and marks live in their own tables and point back to it. */
  datatype StudentRow = StudentRow(id: int, firstName: string, lastName: string, age: int)

  /** A row of the Teachers table. Its address and subject point back to it. */
  datatype TeacherRow = TeacherRow(id: int, name: string, rank: Rank)

  /** The owner an address row points back to. */
  datatype Owner = StudentOwner(id: int) | TeacherOwner(id: int)

  predicate LinkedTo(a: Address, o: Owner)
  {
    match o
    case StudentOwner(id) => a.studentId == Some(id)
    case TeacherOwner(id) => a.teacherId == Some(id)
  }

  // Identity keys: every id was handed out below the table's next identity
  // value, and no two rows share one.

  ghost predicate StudentKeys(t: seq<StudentRow>, next: int)
  {
    && (forall i :: 0 <= i < |t| ==> 1 <= t[i].id < next)
    && (forall i, j :: 0 <= i < j < |t| ==> t[i].id != t[j].id)
  }

  ghost predicate TeacherKeys(t: seq<TeacherRow>, next: int)
  {
    && (forall i :: 0 <= i < |t| ==> 1 <= t[i].id < next)
    && (forall i, j :: 0 <= i < j < |t| ==> t[i].id != t[j].id)
  }

  ghost predicate AddressKeys(t: seq<Address>, next: int)
  {
    && (forall i :: 0 <= i < |t| ==> 1 <= t[i].id < next)
    && (forall i, j :: 0 <= i < j < |t| ==> t[i].id != t[j].id)
  }

  ghost predicate SubjectKeys(t: seq<Subject>, next: int)
  {
    && (forall i :: 0 <= i < |t| ==> 1 <= t[i].id < next)
    && (forall i, j :: 0 <= i < j < |t| ==> t[i].id != t[j].id)
  }

  ghost predicate MarkKeys(t: seq<Mark>, next: int)
  {
    && (forall i :: 0 <= i < |t| ==> 1 <= t[i].id < next)
    && (forall i, j :: 0 <= i < j < |t| ==> t[i].id != t[j].id)
  }

  /** The one-to-one navigations Student.Address and Teacher.Address: no two
      address rows point back to the same student, nor to the same teacher. */
  ghost predicate SingleLinks(t: seq<Address>)
  {
    forall i, j :: 0 <= i < j < |t| ==>
      && (t[i].studentId.Some? ==> t[i].studentId != t[j].studentId)
      && (t[i].teacherId.Some? ==> t[i].teacherId != t[j].teacherId)
  }

  // Lookups: the first row that matches, as FirstOrDefault returns it.

  function StudentIndex(t: seq<StudentRow>, id: int): (r: Option<nat>)
    ensures r.Some? ==> r.value < |t| && t[r.value].id == id
    ensures r.Some? ==> forall i :: 0 <= i < r.value ==> t[i].id != id
    ensures r.None? <==> forall i :: 0 <= i < |t| ==> t[i].id != id
  {
    if t == [] then None
    else if t[0].id == id then Some(0)
    else
      match StudentIndex(t[1..], id)
      case None => None
      case Some(k) => Some(k + 1)
  }

  function TeacherIndex(t: seq<TeacherRow>, id: int): (r: Option<nat>)
    ensures r.Some? ==> r.value < |t| && t[r.value].id == id
    ensures r.Some? ==> forall i :: 0 <= i < r.value ==> t[i].id != id
    ensures r.None? <==> forall i :: 0 <= i < |t| ==> t[i].id != id
  {
    if t == [] then None
    else if t[0].id == id then Some(0)
    else
      match TeacherIndex(t[1..], id)
      case None => None
      case Some(k) => Some(k + 1)
  }

  function SubjectIndex(t: seq<Subject>, id: int): (r: Option<nat>)
    ensures r.Some? ==> r.value < |t| && t[r.value].id == id
    ensures r.Some? ==> forall i :: 0 <= i < r.value ==> t[i].id != id
    ensures r.None? <==> forall i :: 0 <= i < |t| ==> t[i].id != id
  {
    if t == [] then None
    else if t[0].id == id then Some(0)
    else
      match SubjectIndex(t[1..], id)
      case None => None
      case Some(k) => Some(k + 1)
  }

  /** The subject a teacher's Subject navigation loads: the first subject
      row whose TeacherId is the teacher's id. */
  function SubjectOfTeacher(t: seq<Subject>, teacherId: int): (r: Option<nat>)
    ensures r.Some? ==> r.value < |t| && t[r.value].teacherId == Some(teacherId)
    ensures r.Some? ==> forall i :: 0 <= i < r.value ==> t[i].teacherId != Some(teacherId)
    ensures r.None? <==> forall i :: 0 <= i < |t| ==> t[i].teacherId != Some(teacherId)
  {
    if t == [] then None
    else if t[0].teacherId == Some(teacherId) then Some(0)
    else
      match SubjectOfTeacher(t[1..], teacherId)
      case None => None
      case Some(k) => Some(k + 1)
  }

  /** The address an owner's Address navigation loads: the first address
      row pointing back to it. */
  function AddressIndex(t: seq<Address>, o: Owner): (r: Option<nat>)
    ensures r.Some? ==> r.value < |t| && LinkedTo(t[r.value], o)
    ensures r.Some? ==> forall i :: 0 <= i < r.value ==> !LinkedTo(t[i], o)
    ensures r.None? <==> forall i :: 0 <= i < |t| ==> !LinkedTo(t[i], o)
  {
    if t == [] then None
    else if LinkedTo(t[0], o) then Some(0)
    else
      match AddressIndex(t[1..], o)
      case None => None
      case Some(k) => Some(k + 1)
  }

  /** The owner's address, if one is linked to it (what `Include` loads). */
  function AddressOf(t: seq<Address>, o: Owner): (r: Option<Address>)
    ensures r.Some? ==> r.value in t && LinkedTo(r.value, o)
    ensures r.None? <==> forall a :: a in t ==> !LinkedTo(a, o)
  {
    match AddressIndex(t, o)
    case None => None
    case Some(i) => Some(t[i])
  }

  /** The table without its i-th row (`ctx.Remove` of a loaded row). */
  function RemoveAt<T>(t: seq<T>, i: nat): (r: seq<T>)
    requires i < |t|
    ensures |r| == |t| - 1
    ensures forall j :: 0 <= j < i ==> r[j] == t[j]
    ensures forall j :: i <= j < |r| ==> r[j] == t[j + 1]
  {
    t[..i] + t[i + 1..]
  }

  /** A freshly inserted address row for the owner: `owner.Address = new
      Address()` followed by the three field assignments. */
  function NewAddressFor(id: int, o: Owner, fields: Address): (a: Address)
    ensures a.id == id && LinkedTo(a, o)
    ensures a.city == fields.city && a.street == fields.street && a.number == fields.number
    ensures o.StudentOwner? ==> a.teacherId == None
    ensures o.TeacherOwner? ==> a.studentId == None
  {
    match o
    case StudentOwner(sid) => Address(id, fields.city, fields.street, fields.number, Some(sid), None)
    case TeacherOwner(tid) => Address(id, fields.city, fields.street, fields.number, None, Some(tid))
  }

  /** The address table after ChangeStudentAddress / ChangeTeacherAddress:
      insert a linked address under the fresh id if the owner has none,
      otherwise overwrite City, Street and Number of the one it has. */
  function UpsertAddress(t: seq<Address>, o: Owner, fields: Address, freshId: int): (r: seq<Address>)
    ensures AddressIndex(r, o).Some?
    ensures |t| <= |r| <= |t| + 1
    ensures forall j :: 0 <= j < |t| && !LinkedTo(t[j], o) ==> r[j] == t[j]
  {
    match AddressIndex(t, o)
    case None =>
      var r := t + [NewAddressFor(freshId, o, fields)];
      assert LinkedTo(r[|t|], o);
      r
    case Some(i) =>
      var r := t[i := t[i].(city := fields.city, street := fields.street, number := fields.number)];
      assert LinkedTo(r[i], o);
      r
  }

  /** The address handling of DeleteStudent: with deleteAddress false the
      student's address is kept with its StudentId cleared; with it true the
      address is removed, but only when no teacher uses it. */
  function DetachOrDeleteAddress(t: seq<Address>, studentId: int, deleteAddress: bool): (r: seq<Address>)
    ensures |r| == |t| || (deleteAddress && |r| == |t| - 1)
  {
    match AddressIndex(t, StudentOwner(studentId))
    case None => t
    case Some(i) =>
      if !deleteAddress then t[i := t[i].(studentId := None)]
      else if t[i].teacherId == None then RemoveAt(t, i)
      else t
  }


  /** Under SingleLinks, an owner has at most one address row. */
  lemma SingleLinkUnique(t: seq<Address>, o: Owner, i: nat, j: nat)
    requires SingleLinks(t)
    requires i < |t| && j < |t| && LinkedTo(t[i], o) && LinkedTo(t[j], o)
    ensures i == j
  {
  }

  /** Removing a row keeps the identity keys and the link rule, and drops
      exactly that row. */
  lemma RemoveAddressRow(t: seq<Address>, next: int, i: nat)
    requires i < |t| && AddressKeys(t, next) && SingleLinks(t)
    ensures AddressKeys(RemoveAt(t, i), next) && SingleLinks(RemoveAt(t, i))
    ensures forall a :: a in RemoveAt(t, i) <==> a in t && a != t[i]
  {
    var r := RemoveAt(t, i);
    forall j, k | 0 <= j < k < |r|
      ensures r[j].id != r[k].id
      ensures r[j].studentId.Some? ==> r[j].studentId != r[k].studentId
      ensures r[j].teacherId.Some? ==> r[j].teacherId != r[k].teacherId
    {
      var j', k' := if j < i then j else j + 1, if k < i then k else k + 1;
      assert r[j] == t[j'] && r[k] == t[k'] && j' < k';
    }
    forall j | 0 <= j < |r| ensures r[j] in t && r[j] != t[i] {
      var j' := if j < i then j else j + 1;
      assert r[j] == t[j'] && j' != i;
      assert t[j'].id != t[i].id;
    }
    forall j | 0 <= j < |t| && j != i ensures t[j] in r {
      assert r[if j < i then j else j - 1] == t[j];
    }
  }

  /** DeleteStudent(id, false): every address row stays in place; the
      student's own address only has its StudentId cleared, and afterwards
      no address points back to the student. */
  lemma DetachAddressRule(t: seq<Address>, next: int, studentId: int)
    requires AddressKeys(t, next) && SingleLinks(t)
    ensures var r := DetachOrDeleteAddress(t, studentId, false);
      && AddressKeys(r, next) && SingleLinks(r) && |r| == |t|
      && (forall j :: 0 <= j < |t| ==>
            r[j] == if LinkedTo(t[j], StudentOwner(studentId)) then t[j].(studentId := None) else t[j])
      && (forall j :: 0 <= j < |r| ==> !LinkedTo(r[j], StudentOwner(studentId)))
  {
    var o := StudentOwner(studentId);
    match AddressIndex(t, o)
    case None =>
    case Some(i) =>
      forall j | 0 <= j < |t| && LinkedTo(t[j], o) ensures j == i {
        SingleLinkUnique(t, o, i, j);
      }
  }

  /** DeleteStudent(id, true): the student's address is removed exactly when
      its TeacherId is null, so an address a teacher still uses survives
      unchanged; every other row stays as it was. */
  lemma DeleteAddressRule(t: seq<Address>, next: int, studentId: int)
    requires AddressKeys(t, next) && SingleLinks(t)
    ensures var r := DetachOrDeleteAddress(t, studentId, true);
      && AddressKeys(r, next) && SingleLinks(r)
      && (forall a :: a in r ==> a in t)
      && (forall a :: a in t && !LinkedTo(a, StudentOwner(studentId)) ==> a in r)
      && (forall a :: a in t && LinkedTo(a, StudentOwner(studentId)) ==> (a in r <==> a.teacherId.Some?))
  {
    var o := StudentOwner(studentId);
    match AddressIndex(t, o)
    case None =>
    case Some(i) =>
      if t[i].teacherId == None {
        RemoveAddressRow(t, next, i);
        forall a | a in t && LinkedTo(a, o) ensures a == t[i] {
          var j :| 0 <= j < |t| && t[j] == a;
          SingleLinkUnique(t, o, i, j);
        }
      }
  }

  /** Appending a row under the next identity value keeps the keys, and
      keeps the link rule when no row points back to the owners it names. */
  lemma AppendAddressRow(t: seq<Address>, next: int, a: Address)
    requires 1 <= next && AddressKeys(t, next) && SingleLinks(t) && a.id == next
    requires a.studentId.Some? ==> forall j :: 0 <= j < |t| ==> t[j].studentId != a.studentId
    requires a.teacherId.Some? ==> forall j :: 0 <= j < |t| ==> t[j].teacherId != a.teacherId
    ensures AddressKeys(t + [a], next + 1) && SingleLinks(t + [a])
  {
    var r := t + [a];
    assert forall j :: 0 <= j < |t| ==> r[j] == t[j];
  }

  /** An address appended for an owner that had none becomes the one its
      navigation loads. */
  lemma {:induction false} AppendedAddressIndex(t: seq<Address>, o: Owner, a: Address)
    requires AddressIndex(t, o).None? && LinkedTo(a, o)
    ensures AddressIndex(t + [a], o) == Some(|t|)
  {
    if t != [] {
      assert (t + [a])[1..] == t[1..] + [a];
      AppendedAddressIndex(t[1..], o, a);
    }
  }

  /** An upsert for an owner without an address appends one new row under
      the fresh id, linked to the owner only, carrying the new City, Street
      and Number; the new row is the owner's address from then on. */
  lemma UpsertCreatesAddress(t: seq<Address>, next: int, o: Owner, fields: Address)
    requires 1 <= next && AddressKeys(t, next) && SingleLinks(t) && AddressIndex(t, o).None?
    ensures var r := UpsertAddress(t, o, fields, next);
      && AddressKeys(r, next + 1) && SingleLinks(r)
      && |r| == |t| + 1 && r[..|t|] == t
      && AddressIndex(r, o) == Some(|t|)
      && r[|t|].id == next
      && r[|t|].city == fields.city && r[|t|].street == fields.street && r[|t|].number == fields.number
      && (o.StudentOwner? ==> r[|t|].teacherId == None)
      && (o.TeacherOwner? ==> r[|t|].studentId == None)
  {
    var a := NewAddressFor(next, o, fields);
    var r := UpsertAddress(t, o, fields, next);
    assert r == t + [a];
    AppendAddressRow(t, next, a);
    assert r[..|t|] == t;
    AppendedAddressIndex(t, o, a);
  }

  /** An upsert for an owner that has an address overwrites City, Street and
      Number of that row in place: it keeps its id and both back-references,
      and every other row is unchanged. */
  lemma UpsertUpdatesAddress(t: seq<Address>, next: int, o: Owner, fields: Address)
    requires AddressKeys(t, next) && SingleLinks(t) && AddressIndex(t, o).Some?
    ensures var r := UpsertAddress(t, o, fields, next);
      var i := AddressIndex(t, o).value;
      && AddressKeys(r, next) && SingleLinks(r)
      && |r| == |t| && AddressIndex(r, o) == Some(i)
      && r[i].city == fields.city && r[i].street == fields.street && r[i].number == fields.number
      && r[i].id == t[i].id && r[i].studentId == t[i].studentId && r[i].teacherId == t[i].teacherId
      && (forall j :: 0 <= j < |t| && j != i ==> r[j] == t[j])
  {
    var i := AddressIndex(t, o).value;
    var r := UpsertAddress(t, o, fields, next);
    assert LinkedTo(r[i], o);
    assert forall j :: 0 <= j < i ==> r[j] == t[j];
  }
}
