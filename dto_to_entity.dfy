/** The four `ToEntity` mappings (OnlineCatalogue/Extensions/DtoToEntityExtensions.cs):
    object initialisers that copy the request's fields into a new entity,
    leaving every other field at its default (id 0, no links, no marks). */
module DtoToEntity {
  import opened Wrappers
  import opened Models
  import opened Dtos

  /** `StudentToCreate.ToEntity`: names and age copied, nothing else set. */
  function StudentFromCreate(d: StudentToCreate): (s: Student)
    ensures s.firstName == d.firstName && s.lastName == d.lastName && s.age == d.age
    ensures s.id == 0 && s.address == None && s.marks == []
  {
    NewStudent(d.firstName, d.lastName, d.age)
  }

  /** `StudentToUpdate.ToEntity`: the same three fields. */
  function StudentFromUpdate(d: StudentToUpdate): (s: Student)
    ensures s.firstName == d.firstName && s.lastName == d.lastName && s.age == d.age
    ensures s.id == 0 && s.address == None && s.marks == []
  {
    NewStudent(d.firstName, d.lastName, d.age)
  }

  /** `AddressToUpdate.ToEntity`: City, Street and Number copied; no id
      and neither back-reference set. */
  function AddressFromUpdate(d: AddressToUpdate): (a: Address)
    ensures a.city == d.city && a.street == d.street && a.number == d.number
    ensures a.id == 0 && a.studentId == None && a.teacherId == None
    ensures !ValidAddress(a)
  {
    Address(0, d.city, d.street, d.number, None, None)
  }

  /** `TeacherToCreate.ToEntity`: only Name and Rank. */
  function TeacherFromCreate(d: TeacherToCreate): (t: Teacher)
    ensures t.name == d.name && t.rank == d.rank
    ensures t.id == 0 && t.address == None && t.subject == None
  {
    Teacher(0, d.name, d.rank, None, None)
  }

  /** Both student requests map equal fields to the same entity. */
  lemma StudentMappingsAgree(c: StudentToCreate, u: StudentToUpdate)
    requires c.firstName == u.firstName && c.lastName == u.lastName && c.age == u.age
    ensures StudentFromCreate(c) == StudentFromUpdate(u)
  {
  }

  /** The student mapping is determined by the three copied fields alone,
      and distinguishes requests that differ in one of them. */
  lemma StudentFromCreateInjective(c1: StudentToCreate, c2: StudentToCreate)
    ensures StudentFromCreate(c1) == StudentFromCreate(c2) <==> c1 == c2
  {
  }
}
