# OnlineCatalogue data layer in Dafny

OnlineCatalogue is a school catalogue web service. It stores students,
their addresses and marks, and the teachers and subjects. All storage goes
through one class, `DataLayer` (Data/DataLayer.cs). That class runs EF Core
queries against five SQL tables. The web layer converts between entities and
transfer objects with two extension classes.

This project models that core:

- `Models` (models.dfy) holds the entities under Data/Models as datatypes.
  Their data annotations (`[Required]`, `[MaxLength(50)]`, `[Range]`) become
  validity predicates.
- `Tables` (tables.dfy) holds the row types of the five tables, the
  predicates that say their ids are unique identity values, the lookups
  `FirstOrDefault` makes, and the row changes the address upsert and the
  student delete make. The tables themselves, sequences of rows in
  insertion order, are the fields of `Data.DataLayer`.
- `Queries` (queries.dfy) holds the three LINQ pipelines over marks:
  - the filter by subject;
  - `GroupBy` with `Average`;
  - a stable `OrderBy` / `OrderByDescending` on the mean mark.
- `Promotion` (promotion.dfy) holds the rank ladder `PromoteTeacher` climbs.
- `Data.DataLayer` (data_layer.dfy) is the store. It is a class whose fields
  are the five tables and their identity counters. Each mutator is a method
  whose `modifies this` contract states the new tables in terms of the old
  ones. Each query is a function of the tables. A thrown
  `EntityNotFoundException` becomes the value `NotFound(kind, id)`.
- `Dtos`, `DtoToEntity` and `EntityToDto` (dtos.dfy, dto_to_entity.dfy,
  entity_to_dto.dfy) hold the transfer objects and the `ToEntity` / `ToDto`
  mappings. A C# `null` is `None`.

Choices the model makes:

- Averages are exact. Each is a pair (sum, count) and two averages are
  compared by cross-multiplying, so no floating point is involved.
- `Subject.TeacherId` is declared as a non-nullable `int`, yet
  `DeleteTeacher` assigns `null` to it. The store follows the data layer and
  keeps it as `Option<int>`.
- `Teacher.Rank` is an enum that `PromoteTeacher` compares with strings.
  `Rank` is a four-constructor datatype. `Promotion.PromoteName` models the
  string comparison chain: a text that names no rank is left unchanged.
- `GetStudentById` does not eager-load the address, so it returns
  `address == None`. `GetAllStudents` does load it. The model keeps that
  difference.
- The model chooses to leave the marks table unchanged on every delete,
  because no code in the data layer removes marks. In the database,
  `Mark.StudentId` is a required key behind `Student.Marks`, which EF's
  conventions make a cascading delete; the database's foreign keys are not
  modelled.

## Model

| member | source | states |
|---|---|---|
| `Models.ParseRank` | Data/DataLayer.cs:277-295 | A text names a rank exactly when it is that rank's `ToString()`; a text naming none yields `None`. |
| `Models.RankName` | Data/DataLayer.cs:279-291 | `Rank.ToString()`, the text the data layer stores and compares. `ParseRank` inverts it, and `RankNameInjective` proves that no two ranks share a name. |
| `Models.RankNameInjective` | Data/DataLayer.cs:277-294 | Two ranks have the same name exactly when they are the same rank, so the string tests tell the ranks apart. |
| `Models.NewStudent` | Data/Models/Student.cs:20 | A freshly constructed student has no address, an empty marks list and the given names and age. Its default id 0 makes it invalid. |
| `Models.Utf16Length` | Data/Models/Student.cs:11 | `MaxLength` counts UTF-16 code units, between one and two per character. |
| `Models.IsWhiteSpace` | Data/Models/Student.cs:10 | `char.IsWhiteSpace`, which `[Required]` uses to reject blank text. `AsciiWhiteSpace` states its ASCII part. |
| `Models.AsciiWhiteSpace` | Data/Models/Student.cs:10 | On ASCII, white space is exactly the space, tab, line feed, vertical tab, form feed and carriage return. |
| `Models.RequiredText` | Data/Models/Student.cs:10 | `[Required]` on a string: it holds only of non-empty text. `BlankTextNotRequired` proves that white-space-only text fails it. |
| `Models.BoundedText` | Data/Models/Student.cs:10-12 | A `[Required]`, `[MaxLength(50)]` string is non-empty and at most 50 characters long. |
| `Models.ValidStudent` | Data/Models/Student.cs:7-18 | The annotations of `Student`. `ValidStudentBounds` and `NewStudentValidOnceStored` state what they guarantee. |
| `Models.ValidAddress` | Data/Models/Address.cs:7-18 | The annotations of `Address`. `ValidAddressBounds` states what they guarantee, and `SharedAddressAllowed` states that the two back-references are unconstrained. |
| `Models.ValidMark` | Data/Models/Mark.cs:7-18 | The annotations of `Mark`. `ValidMarkBounds` states what they guarantee, and `ValidMarksSum` and `ValidMarksMean` state what they give the averages. |
| `Models.ValidSubject` | Data/Models/Subject.cs:12-20 | The annotations of `Subject`. `ValidSubjectBounds` states what they guarantee, and `ClearedSubjectInvalid` states that a cleared TeacherId breaks them. |
| `Models.ValidStudentBounds` | Data/Models/Student.cs:7-18 | A valid student has id >= 1, both names required and at most 50 long, and age in [1, 100]. |
| `Models.ValidAddressBounds` | Data/Models/Address.cs:7-18 | A valid address has id >= 1, City and Street required and at most 50 long, and Number >= 1. |
| `Models.ValidMarkBounds` | Data/Models/Mark.cs:7-18 | A valid mark has a value in [1, 10], and an id, SubjectId and StudentId in [1, int.MaxValue]. |
| `Models.ValidSubjectBounds` | Data/Models/Subject.cs:12-20 | A valid subject has id >= 1, a required name at most 50 long, and a TeacherId that is present and >= 1. |
| `Models.NewStudentValidOnceStored` | Data/Models/Student.cs:7-9 | A student with valid fields is valid exactly when its id lies in [1, int.MaxValue]. |
| `Models.BlankTextNotRequired` | Data/Models/Student.cs:10 | White-space-only text fails `[Required]` whatever its length. |
| `Models.SharedAddressAllowed` | Data/Models/Address.cs:19-20 | StudentId and TeacherId are independent: a valid address stays valid with both set. |
| `Models.ClearedSubjectInvalid` | Data/Models/Subject.cs:18-20 | A subject whose TeacherId was cleared breaks its `[Required]` annotation. |
| `Tables.StudentIndex` | Data/DataLayer.cs:77 | The lookup finds the first student row with the id; it finds none exactly when no row has it. |
| `Tables.TeacherIndex` | Data/DataLayer.cs:272 | The lookup finds the first teacher row with the id; it finds none exactly when no row has it. |
| `Tables.SubjectIndex` | Data/DataLayer.cs:259 | The lookup finds the first subject row with the id; it finds none exactly when no row has it. |
| `Tables.SubjectOfTeacher` | Data/DataLayer.cs:223 | The teacher's loaded subject is the first subject row whose TeacherId is the teacher's id. |
| `Tables.AddressIndex` | Data/DataLayer.cs:92 | An owner's loaded address is the first address row pointing back to it; there is none exactly when no row does. |
| `Tables.AddressOf` | Data/DataLayer.cs:19 | The address `Include` loads is a row linked to the owner, and is absent exactly when no row is. |
| `Tables.RemoveAt` | Data/DataLayer.cs:71 | Removing a row shortens the table by one and keeps the other rows in order. |
| `Tables.NewAddressFor` | Data/DataLayer.cs:96-103 | A created address carries the fresh id, the new City, Street and Number, and a link to its owner only. |
| `Tables.UpsertAddress` | Data/DataLayer.cs:96-103 | After the upsert the owner has a loaded address, the table has grown by at most one row, and no row of another owner has changed. `UpsertCreatesAddress` and `UpsertUpdatesAddress` give the exact result in each case. |
| `Tables.DetachOrDeleteAddress` | Data/DataLayer.cs:55-69 | The table keeps its length, losing one row only when deleteAddress is true. `DetachAddressRule` and `DeleteAddressRule` give the exact result in each case. |
| `Tables.SingleLinkUnique` | Data/Models/Student.cs:19 | Under the one-to-one rule an owner has at most one address row. |
| `Tables.RemoveAddressRow` | Data/DataLayer.cs:67 | Removing an address keeps the keys and the link rule and drops exactly that row. |
| `Tables.DetachAddressRule` | Data/DataLayer.cs:55-62 | Detaching keeps every address row and clears only the student's back-reference; afterwards no row points to the student. |
| `Tables.DeleteAddressRule` | Data/DataLayer.cs:63-69 | With deleteAddress the student's address goes exactly when no teacher uses it; every other row stays. |
| `Tables.AppendAddressRow` | Data/DataLayer.cs:98 | An address appended under the next id keeps the identity keys and the one-to-one rule. |
| `Tables.AppendedAddressIndex` | Data/DataLayer.cs:98 | The appended address becomes the owner's loaded address. |
| `Tables.UpsertCreatesAddress` | Data/DataLayer.cs:96-103 | With no address, the upsert appends one new linked row under the fresh id with the new City, Street and Number, leaving the old rows intact. |
| `Tables.UpsertUpdatesAddress` | Data/DataLayer.cs:101-103 | With an address, the upsert rewrites only its City, Street and Number; it keeps the id and both back-references, and every other row is unchanged. |
| `Promotion.Level` | Data/DataLayer.cs:277-298 | Ranks sit on a four-level ladder. |
| `Promotion.LevelInjective` | Data/DataLayer.cs:277-298 | Each level holds exactly one rank. |
| `Promotion.Promote` | Data/DataLayer.cs:277-298 | One promotion climbs exactly one level, except that Professor stays Professor. |
| `Promotion.PromoteName` | Data/DataLayer.cs:277-298 | The text chain maps a rank's name to the next rank's name and leaves a text naming no rank unchanged. |
| `Promotion.PromoteNameOfRank` | Data/DataLayer.cs:277-294 | The text chain and the rank ladder agree on every stored rank. |
| `Promotion.PromoteTimesLevel` | Data/DataLayer.cs:277-298 | n promotions climb min(n, levels remaining) steps. |
| `Promotion.ProfessorStaysProfessor` | Data/DataLayer.cs:295-298 | Any number of promotions leaves a Professor a Professor. |
| `Promotion.ThreePromotionsReachProfessor` | Data/DataLayer.cs:277-294 | Three promotions bring any rank to Professor. |
| `Queries.MarksOfStudent` | Data/DataLayer.cs:139 | A student's loaded marks are exactly the table's marks with its id, in table order. |
| `Queries.MarksForSubject` | Data/DataLayer.cs:149 | The subject filter keeps exactly the marks of that subject, in order. |
| `Queries.MarksOfStudentCounts` | Data/DataLayer.cs:139 | The student's marks hold each of its rows as often as the table does, and no other row. |
| `Queries.MarksForSubjectCounts` | Data/DataLayer.cs:149 | The subject filter keeps each matching row as often as its input does, and no other row. |
| `Queries.StudentSubjectMarksInOrder` | Data/DataLayer.cs:149 | A student's marks in one subject keep their order of the whole table. |
| `Queries.MarksOfStudentAppend` | Data/DataLayer.cs:130 | An added mark joins the end of its student's marks and changes no other student's marks. |
| `Queries.ValidMarksSum` | Data/Models/Mark.cs:10-12 | Valid marks add up to between 1 and 10 times their number. |
| `Queries.ValidMarksMean` | Data/Models/Mark.cs:10-12 | The mean of valid marks lies in [1, 10]. |
| `Queries.MeanOf` | Data/DataLayer.cs:161 | `Average(m => m.Value)` kept exact as the sum over the count. `ValidMarksMean` bounds it, and `AveragesPerSubjectSpec` and `StudentsOrderedSpec` use it as the mean they promise. |
| `Queries.FirstWithSubject` | Data/DataLayer.cs:161 | The position of a subject's first mark: every earlier mark has another subject. |
| `Queries.FirstWithSubjectAppend` | Data/DataLayer.cs:161 | Appending a mark keeps the first occurrences already present. |
| `Queries.DistinctSubjects` | Data/DataLayer.cs:161 | The keys of `GroupBy(m => m.SubjectId)`. `DistinctSubjectsSpec` states its contract. |
| `Queries.DistinctSubjectsSpec` | Data/DataLayer.cs:161 | The GroupBy keys are distinct, are exactly the subjects among the marks, and come in order of first occurrence. |
| `Queries.AveragesPerSubject` | Data/DataLayer.cs:161 | The `GroupBy` / `Select` pipeline. `AveragesPerSubjectSpec` states its contract. |
| `Queries.AveragesPerSubjectSpec` | Data/DataLayer.cs:161 | There is one entry per distinct subject, in first-occurrence order, each being the exact mean over at least one mark of that subject. |
| `Queries.AveragesPerSubjectWithin` | Data/DataLayer.cs:161 | With valid marks every per-subject average lies in [1, 10]. |
| `Queries.AveragesPerSubjectExample` | Data/DataLayer.cs:161 | Marks 8 and 10 in subject 1 and 6 in subject 2 give the averages 18/2, then 6/1. |
| `Queries.InsertByAverage` | Data/DataLayer.cs:173 | Inserting a row keeps every row, adding the new one once. |
| `Queries.SortByAverage` | Data/DataLayer.cs:181 | Sorting is a permutation of its input. |
| `Queries.CrossTransitive` | Data/DataLayer.cs:181 | Cross-multiplied comparison of averages is transitive, strictly when a step is strict. |
| `Queries.NotAheadTransitive` | Data/DataLayer.cs:173 | "Not ahead" in either direction is transitive. |
| `Queries.AheadNotSame` | Data/DataLayer.cs:173 | A row strictly ahead of another has a different mean. |
| `Queries.InsertKeepsSorted` | Data/DataLayer.cs:181 | Inserting into a sorted sequence keeps it sorted. |
| `Queries.SortByAverageSorted` | Data/DataLayer.cs:173 | The result is ordered by mean in the requested direction. |
| `Queries.InsertWithMean` | Data/DataLayer.cs:181 | An insert puts the new row first among the rows of its mean. |
| `Queries.SortByAverageStable` | Data/DataLayer.cs:181 | The sort is stable: rows of equal mean keep their input order. |
| `Queries.WithAverage` | Data/DataLayer.cs:173-177 | The row `Select` builds for one student. `StudentsWithAverages` and `ToDtoAverageMatchesOrderedRow` state what it holds. |
| `Queries.StudentsWithAverages` | Data/DataLayer.cs:173-177 | There is one row per student in table order, with Name = FirstName + LastName and the mean of its marks. |
| `Queries.StudentsOrdered` | Data/DataLayer.cs:168-186 | The ordered pipeline of `GetAllStudentsOrdered`. `StudentsOrderedSpec` states its contract. |
| `Queries.StudentsOrderedSpec` | Data/DataLayer.cs:168-186 | Every student's row appears exactly once, ordered by mean, with equal means in table order. |
| `Queries.StudentsOrderedWithin` | Data/DataLayer.cs:173-177 | With valid marks every student mean lies in [1, 10]. |
| `Data.StudentOf` | Data/DataLayer.cs:19 | A loaded student carries its row's scalars and the address given, with no marks. |
| `Data.DataLayer.constructor` | Data/DataLayer.cs:11-14 | The store starts empty and valid, with every identity counter at 1. |
| `Data.DataLayer.GetAllStudents` | Data/DataLayer.cs:16-20 | Every student in table order, with the linked address loaded and no marks. |
| `Data.DataLayer.GetStudentById` | Data/DataLayer.cs:22-31 | NotFound exactly when no student has the id; otherwise that student's row, with no address and no marks loaded. |
| `Data.DataLayer.GetAllMarks` | Data/DataLayer.cs:135-151 | NotFound exactly when the student is absent; otherwise exactly its marks (of that subject, when one is given) in table order. |
| `Data.DataLayer.GetAveragesPerSubject` | Data/DataLayer.cs:153-162 | NotFound exactly when the student is absent; otherwise one exact mean per subject of its marks, in first-occurrence order. |
| `Data.DataLayer.GetAllStudentsOrdered` | Data/DataLayer.cs:164-189 | Each student's row exactly once, sorted by mean (descending when the flag is true, ascending otherwise), ties in table order. |
| `Data.DataLayer.CreateStudent` | Data/DataLayer.cs:32-40 | Stores only the names and age under the next id; `GetStudentById` then returns it; nothing else changes. |
| `Data.DataLayer.DeleteStudent` | Data/DataLayer.cs:41-73 | An absent id changes nothing. Otherwise the student goes; its address is detached, or removed only when no teacher uses it; marks stay. |
| `Data.DataLayer.ChangeStudentData` | Data/DataLayer.cs:74-87 | NotFound with nothing changed, or exactly FirstName, LastName and Age rewritten. |
| `Data.DataLayer.ChangeStudentAddress` | Data/DataLayer.cs:88-106 | NotFound with nothing changed, or the address upserted: created under the next id if absent, otherwise rewritten in place. |
| `Data.DataLayer.UpsertOwnerAddress` | Data/DataLayer.cs:96-103 | The shared upsert keeps the store valid and leaves the owner with an address. |
| `Data.DataLayer.AddSubject` | Data/DataLayer.cs:110-120 | Appends the subject under the next id with the given teacher id, unchecked. |
| `Data.DataLayer.AddMarkToStudent` | Data/DataLayer.cs:122-133 | NotFound with nothing changed, or exactly one mark appended; it ends the student's marks and changes no other student's marks. |
| `Data.DataLayer.DeleteSubject` | Data/DataLayer.cs:192-207 | An absent id changes nothing; otherwise exactly that subject row goes. |
| `Data.DataLayer.CreateTeacher` | Data/DataLayer.cs:209-217 | Stores only the name and rank under the next id. |
| `Data.DataLayer.DeleteTeacher` | Data/DataLayer.cs:219-233 | An absent id changes nothing; otherwise its subject's TeacherId is cleared, the subject stays, and only the teacher row goes. |
| `Data.DataLayer.ChangeTeacherAddress` | Data/DataLayer.cs:235-253 | NotFound with nothing changed, or the teacher's address upserted as for a student. |
| `Data.DataLayer.AssignTeacherToSubject` | Data/DataLayer.cs:255-266 | NotFound when the subject is absent; otherwise only its TeacherId is set, with no check on the teacher. |
| `Data.DataLayer.PromoteTeacher` | Data/DataLayer.cs:268-299 | NotFound with nothing changed, or the rank moved one step up the ladder (Professor is kept), matching the text chain. |
| `Data.RemoveStudentRow` | Data/DataLayer.cs:71 | Removing a student keeps the keys and drops exactly that id. |
| `Data.RemoveTeacherRow` | Data/DataLayer.cs:231 | Removing a teacher keeps the keys and drops exactly that id. |
| `Data.RemoveSubjectRow` | Data/DataLayer.cs:205 | Removing a subject keeps the keys and drops exactly that id. |
| `DtoToEntity.StudentFromCreate` | OnlineCatalogue/Extensions/DtoToEntityExtensions.cs:8-14 | Copies exactly FirstName, LastName and Age; id 0, no address, no marks. |
| `DtoToEntity.StudentFromUpdate` | OnlineCatalogue/Extensions/DtoToEntityExtensions.cs:15-21 | Copies the same three fields with the same defaults. |
| `DtoToEntity.AddressFromUpdate` | OnlineCatalogue/Extensions/DtoToEntityExtensions.cs:23-29 | Copies City, Street and Number; no id and neither back-reference. |
| `DtoToEntity.TeacherFromCreate` | OnlineCatalogue/Extensions/DtoToEntityExtensions.cs:31-36 | Copies only Name and Rank. |
| `DtoToEntity.StudentMappingsAgree` | OnlineCatalogue/Extensions/DtoToEntityExtensions.cs:8-21 | Equal fields give equal entities through both student mappings. |
| `DtoToEntity.StudentFromCreateInjective` | OnlineCatalogue/Extensions/DtoToEntityExtensions.cs:8-14 | The student mapping loses no request field. |
| `EntityToDto.AddressToDto` | OnlineCatalogue/Extensions/EntityToDtoExtensions.cs:23-36 | null maps to null; otherwise exactly City, Street and Number are kept. |
| `EntityToDto.StudentToDto` | OnlineCatalogue/Extensions/EntityToDtoExtensions.cs:8-22 | null maps to null; otherwise id, names and age are copied and the address is mapped through address `ToDto`. |
| `EntityToDto.SubjectToDto` | OnlineCatalogue/Extensions/EntityToDtoExtensions.cs:38-49 | null maps to null; otherwise Id, Name and TeacherId are copied. |
| `EntityToDto.MarkToDto` | OnlineCatalogue/Extensions/EntityToDtoExtensions.cs:51-64 | null maps to null; otherwise every field is copied unchanged. |
| `EntityToDto.TeacherToDto` | OnlineCatalogue/Extensions/EntityToDtoExtensions.cs:66-81 | null maps to null; otherwise Id, Name and the rank's name are copied, and subject and address are mapped through their `ToDto`. |
| `EntityToDto.StudentToDtoAverage` | OnlineCatalogue/Extensions/EntityToDtoExtensions.cs:83-92 | Name is FirstName + LastName with no separator; Average is the exact mean of the marks. |
| `EntityToDto.AddressRoundTrip` | OnlineCatalogue/Extensions/DtoToEntityExtensions.cs:23-29 | An address request mapped to an entity and back yields the same City, Street and Number. |
| `EntityToDto.AddressDtoDropsKeys` | OnlineCatalogue/Extensions/EntityToDtoExtensions.cs:30-35 | The address DTO does not depend on the id or the back-references. |
| `EntityToDto.StudentDtoDropsMarks` | OnlineCatalogue/Extensions/EntityToDtoExtensions.cs:14-19 | The student DTO does not depend on the marks. |
| `EntityToDto.TeacherRankRoundTrip` | OnlineCatalogue/Extensions/EntityToDtoExtensions.cs:76 | The rank survives the trip through its name. |
| `EntityToDto.ToDtoAverageMatchesOrderedRow` | OnlineCatalogue/Extensions/EntityToDtoExtensions.cs:83-92 | `ToDtoAverage` gives the same id, name, age and average as the row `GetAllStudentsOrdered` builds. |

## Left out

- EF Core and SQL Server are replaced by in-memory tables. This covers the
  context, the connection string, `Include`, `SaveChanges` and transactions.
  The database's foreign-key checks are not modelled, so no operation can
  fail for a dangling reference.
- The `DataLayer` constructor's connection string is not modelled; the store
  starts empty.
- `DeleteTeacher` loads only the teacher's subject. With EF's default for
  an optional foreign key, saving would refuse to delete a teacher that
  still has an address row. The model lets that delete succeed and leaves
  the address row with a dangling `TeacherId`.
- `DeleteStudent` with deleteAddress true keeps an address shared with a
  teacher. In the program, that address was loaded with `Include` and is
  tracked, so removing the student makes `SaveChanges` clear its
  `StudentId` (EF's default for an optional foreign key). The model leaves that
  fix-up out: it keeps the row unchanged, with `StudentId` still set.
- Marks are never cascaded when a student is deleted. This is a modelling
  choice: the database's cascade rule for `Mark.StudentId` is not modelled.
- Deleting a subject leaves its marks in place, with a `SubjectId` that no
  foreign key guards: `Mark` has no `Subject` navigation and the context
  configures none, so the program does the same.
- Row order is table order: rows sit in the order they were inserted,
  which is ascending id, since ids are handed out in increasing order and a
  removal keeps the other rows in place. The program fixes no such order.
  `GetAllStudents` has no `OrderBy`, and the marks a collection `Include`
  loads come in the database's order. So the order of the results of
  `GetAllStudents`, `GetAllMarks` and `GetAveragesPerSubject` (its
  "first-occurrence" key order included), and of `StudentsWithAverages`,
  holds only relative to table order. Ties in `GetAllStudentsOrdered` come
  in ascending id both in the model and in the program, whose `Include`
  orders the students by id.
- Each data-layer call is one atomic step on the store. In the program a
  call reads and later saves in separate database round trips, so
  concurrent calls can interleave; for example, two `PromoteTeacher` calls
  on the same teacher can lose one promotion. Concurrency is not modelled.
- The controllers (HTTP routing and mapping NotFound to 404) are not
  modelled. This includes `GetMarksByTeacher`, which has no counterpart in
  `DataLayer`.
- `DataLayer.GetAllStudentsOrdered` requires a non-null flag and that every
  student has a mark. The program crashes otherwise (a `(bool)` cast of null,
  and `Average` of an empty list); those crashes are not modelled.
- `EntityToDto.StudentToDtoAverage` requires a non-empty marks list for the
  same reason.
- `DataLayer.DeleteTeacher` requires an existing teacher to have a subject.
  The data layer dereferences the loaded subject without a check.
- When several subjects share a teacher id, `DeleteTeacher` clears only the
  first. EF's one-to-one navigation would refuse such data at run time,
  which is not modelled.
- Averages are exact rationals rather than `double`s, so floating-point
  rounding is not modelled.
- `DateTime.UtcNow` is the `now` parameter of `AddMarkToStudent`.
- Identity counters are unbounded integers; a 32-bit identity overflow is not
  modelled.
- Null strings are not modelled, nor are null entity arguments to the
  mutators and to `ToDtoAverage`, which reads its student without a null
  check.
- The data annotations are validity predicates. The data layer never checks
  them, and the model does not either.
- `CreateStudent`, `ChangeStudentData`, `ChangeStudentAddress`,
  `ChangeTeacherAddress` and `AddSubject` store text of any length. In the
  program the database rejects text longer than 50 UTF-16 code units,
  because EF maps `[MaxLength(50)]` to an `nvarchar(50)` column, and
  `SaveChanges` throws. That rejection is not modelled.
- `EntityNotFoundException`'s message text is not modelled; only the kind and
  the id are kept.
- dtos.dfy keeps only the fields of the transfer objects that the mapping
  extensions read and write. Nothing else in those classes is modelled.
- `IDataLayer.cs` is not part of this model: it only declares members.
