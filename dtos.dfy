/** The transfer objects the web layer exchanges with clients, as values.
    Their classes are not part of this model; the fields are those the
    mapping extensions read and write. */
module Dtos {
  import opened Wrappers
  import opened Models
  import opened Queries

  /** The body of a create-student request. */
  datatype StudentToCreate = StudentToCreate(firstName: string, lastName: string, age: int)

  /** The body of an update-student request. */
  datatype StudentToUpdate = StudentToUpdate(firstName: string, lastName: string, age: int)

  /** The body of a change-address request. */
  datatype AddressToUpdate = AddressToUpdate(city: string, street: string, number: int)

  /** The body of a create-teacher request. */
  datatype TeacherToCreate = TeacherToCreate(name: string, rank: Rank)

  /** An address as returned to clients: no id and no back-references. */
  datatype AddressToGet = AddressToGet(city: string, street: string, number: int)

  /** A student as returned to clients: no marks. */
  datatype StudentToGet = StudentToGet(
    id: int,
    firstName: string,
    lastName: string,
    age: int,
    address: Option<AddressToGet>)

  datatype SubjectToGet = SubjectToGet(id: int, name: string, teacherId: Option<int>)

  datatype MarkToGet = MarkToGet(
    id: int,
    creationDate: Timestamp,
    studentId: int,
    subjectId: int,
    value: int)

  /** A teacher as returned to clients; the rank travels as its name. */
  datatype TeacherToGet = TeacherToGet(
    id: int,
    name: string,
    rank: string,
    address: Option<AddressToGet>,
    subject: Option<SubjectToGet>)

  /** A student with the mean of its marks, kept exact. */
  datatype StudentWithAverageToGetDto = StudentWithAverageToGetDto(
    id: int,
    name: string,
    age: int,
    average: Average)
}
