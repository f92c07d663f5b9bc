# Department service: a Dafny model

This project models the department CRUD service of a small Spring Boot
application. There is one entity, `department`: an id, a name, an address and
a code, each of which may be null. The service keeps these records in a store
keyed by id and offers six operations. `save` inserts or replaces a record.
`getAllDept` lists all records. `getDept` looks one up by id and answers
either the record or a 404 message. `getDeptByCode` looks one up by code.
`deleteDepartmentById` removes an id unconditionally. `updateDept` is a
partial update: it fetches the stored record, overwrites each of name, code
and address whose patch value is non-null and not `""`, and saves the
result under the stored id.

Layout:

- `wrappers.dfy` (`Wrappers`): `Option`, which stands for a Java reference that may be null.
- `decimal.dfy` (`Decimal`): how Java renders a `Long` in string
  concatenation, and the parser that inverts it.
- `department.dfy` (`Entity`): the record as a value (`Dept`) and the
  mutable entity class (`Department`) with its two constructors, getters
  and setters. Also the declared bean-validation constraints, as predicates.
- `service.dfy` (`Service`): the merge rule of `updateDept` as a pure
  function with its lemmas, and pure views of the store operations. Also
  the class `DepartmentService`. It holds the store as a `map<int, Dept>`
  plus the IDENTITY counter. Its mutating operations are methods with
  `modifies this`, and its lookups are functions that read it.

Modelling decisions:

- The store is an abstract map from id to record. `Valid()` says that every
  record is stored under its own id, and that every id lies below the
  IDENTITY counter.
- `updateDept` on a missing id throws `NoSuchElementException` from
  `Optional.get()`. That is modelled as the outcome `LookupFailure`, with the
  store left untouched. `getDept`'s not-found branch is modelled as
  `NotFound(message)`.
- `getDeptByCode` is a single-result derived query. Spring Data answers null
  when no record matches, the record when one does, and throws when several
  do. The model returns `NoMatch`, `Match(d)` or `NotUnique` for these three cases.
- `save` of a record whose id is null gets a fresh id, and that id is also
  written into the entity object that was passed. A record whose id is
  stored replaces the stored one. A record whose id is set but not stored is
  inserted under a fresh id. That is what Hibernate's merge does for a
  detached IDENTITY entity with no row in versions before 6.6.
- `deleteDepartmentById` on an absent id is a no-op. That is Spring Data 3
  behaviour. The jakarta imports place the code on that line.
- `@NotBlank` is modelled as "not null and some character above `' '`",
  because Hibernate's validator tests `trim().length() > 0`. `@Length(min = 1,
  max = 200)` accepts null and otherwise bounds `String.length()`, which
  counts UTF-16 code units: a char above U+FFFF counts twice.
- The merge test is `"".equalsIgnoreCase(v)`, which holds only for the exact empty
  string. So `" "` overwrites, and case folding plays no part.

## Model

| member | source | states |
|---|---|---|
| Entity.Department.Empty | src/main/java/com/techiesbytes/entity/department.java:36-37 | the no-argument constructor leaves all four fields null |
| Entity.Department.constructor | src/main/java/com/techiesbytes/entity/department.java:39-44 | the four-argument constructor stores id, name, address and code each in its own field, as the getters then return |
| Entity.Department.SetId | src/main/java/com/techiesbytes/entity/department.java:50-52 | sets the id; the other three fields are unchanged |
| Entity.Department.SetName | src/main/java/com/techiesbytes/entity/department.java:58-60 | sets the name; the other three fields are unchanged |
| Entity.Department.SetAddress | src/main/java/com/techiesbytes/entity/department.java:66-68 | sets the address; the other three fields are unchanged |
| Entity.Department.SetCode | src/main/java/com/techiesbytes/entity/department.java:74-76 | sets the code; the other three fields are unchanged |
| Entity.SetThenGet | src/main/java/com/techiesbytes/entity/department.java:46-76 | setting name, address, code and id in turn, each getter then returns the value its own setter stored |
| Entity.Department.GetId | src/main/java/com/techiesbytes/entity/department.java:46-48 | returns the id field; the constructors and setters state what it then holds |
| Entity.Department.GetName | src/main/java/com/techiesbytes/entity/department.java:54-56 | returns the name field |
| Entity.Department.GetAddress | src/main/java/com/techiesbytes/entity/department.java:62-64 | returns the address field |
| Entity.Department.GetCode | src/main/java/com/techiesbytes/entity/department.java:70-72 | returns the code field |
| Entity.NotBlank | src/main/java/com/techiesbytes/entity/department.java:28 | @NotBlank: the name is present and holds a char above ' ' |
| Entity.Utf16Length | src/main/java/com/techiesbytes/entity/department.java:31 | the String.length() that @Length measures lies between the number of chars and twice that |
| Entity.LengthInRange | src/main/java/com/techiesbytes/entity/department.java:31-33 | @Length(min = 1, max = 200): a null address passes, otherwise it has 1 to 200 UTF-16 units |
| Entity.MeetsConstraints | src/main/java/com/techiesbytes/entity/department.java:28-33 | a record meets the declared constraints when its name is not blank and its address is in range |
| Entity.NotBlankIsTrimNonEmpty | src/main/java/com/techiesbytes/entity/department.java:28 | a name is not blank exactly when String.trim() leaves it non-empty |
| Entity.Utf16LengthSupplementary | src/main/java/com/techiesbytes/entity/department.java:31 | a string made only of chars above U+FFFF has twice as many UTF-16 units as chars |
| Entity.SupplementaryAddressTooLong | src/main/java/com/techiesbytes/entity/department.java:31-33 | an address of more than 100 chars above U+FFFF breaks @Length(max = 200) |
| Entity.NotBlankExamples | src/main/java/com/techiesbytes/entity/department.java:28 | whitespace-only, empty and null names are blank; " CS" is not |
| Decimal.Digits | src/main/java/com/techiesbytes/service/departmentServiceImpl.java:40 | the digits of a natural number are at least one decimal digit, with no leading zero |
| Decimal.IntToDecimal | src/main/java/com/techiesbytes/service/departmentServiceImpl.java:40 | the rendering of an id starts with '-' exactly when the id is negative, and is otherwise digits |
| Decimal.DigitsRoundTrip | src/main/java/com/techiesbytes/service/departmentServiceImpl.java:40 | reading the digits of n back gives n |
| Decimal.DecimalRoundTrip | src/main/java/com/techiesbytes/service/departmentServiceImpl.java:40 | parsing the rendering of any id gives that id back |
| Decimal.DecimalInjective | src/main/java/com/techiesbytes/service/departmentServiceImpl.java:40 | two ids render alike exactly when they are equal |
| Service.Applies | src/main/java/com/techiesbytes/service/departmentServiceImpl.java:54-62 | the guard of each of the three overwrites: the patch value is non-null and not exactly "" |
| Service.MergeField | src/main/java/com/techiesbytes/service/departmentServiceImpl.java:54-64 | a merged field is either the stored or the patch value, and a present stored value is never cleared |
| Service.Merge | src/main/java/com/techiesbytes/service/departmentServiceImpl.java:52-64 | the merged record keeps the stored id |
| Service.MergeNoOp | src/main/java/com/techiesbytes/service/departmentServiceImpl.java:54-64 | a patch whose three text fields are each null or "" leaves the stored record unchanged |
| Service.MergeFieldwise | src/main/java/com/techiesbytes/service/departmentServiceImpl.java:54-64 | each of name, address and code is overwritten exactly when its patch value is non-null and not "", and kept otherwise |
| Service.MergeIndependent | src/main/java/com/techiesbytes/service/departmentServiceImpl.java:54-64 | changing one patch field changes no other field of the merged record |
| Service.MergeWhitespaceOverwrites | src/main/java/com/techiesbytes/service/departmentServiceImpl.java:54-63 | a non-empty all-space patch value still overwrites the name, address and code |
| Service.MergeIgnoresPatchId | src/main/java/com/techiesbytes/service/departmentServiceImpl.java:51-65 | the patch's id has no effect on the merged record |
| Service.MergeNeverClears | src/main/java/com/techiesbytes/service/departmentServiceImpl.java:54-64 | a field present in the stored record is present after the merge |
| Service.MergeIdempotent | src/main/java/com/techiesbytes/service/departmentServiceImpl.java:51-66 | merging the same patch twice equals merging it once |
| Service.MergeKeepsConstraints | src/main/java/com/techiesbytes/service/departmentServiceImpl.java:54-64 | a valid record stays valid when every applied patch value meets the constraints |
| Service.MergeCanBreakConstraints | src/main/java/com/techiesbytes/service/departmentServiceImpl.java:54-64 | Merge yields a record outside the declared constraints when the patch carries a blank " " name or an address over 200 chars |
| Service.MergeExample | src/main/java/com/techiesbytes/service/departmentServiceImpl.java:51-66 | {1,"CS","Bldg A","CS01"} patched with {"", "Bldg B", null} gives {1,"CS","Bldg B","CS01"} |
| Service.NotFoundMessage | src/main/java/com/techiesbytes/service/departmentServiceImpl.java:40 | the not-found message begins with "Department not found with id:" and continues past it |
| Service.NotFoundMessageCarriesId | src/main/java/com/techiesbytes/service/departmentServiceImpl.java:40 | the id can be read back out of the not-found message |
| Service.NotFoundMessageInjective | src/main/java/com/techiesbytes/service/departmentServiceImpl.java:40 | different ids give different not-found messages |
| Service.UpdatedStore | src/main/java/com/techiesbytes/service/departmentServiceImpl.java:51-66 | an update succeeds exactly when the id is stored, keeps the key set, and leaves every other entry as it was |
| Service.UpdatePreservesValid | src/main/java/com/techiesbytes/service/departmentServiceImpl.java:52-65 | after an update every record still sits under its own id |
| Service.UpdateIdempotent | src/main/java/com/techiesbytes/service/departmentServiceImpl.java:51-66 | a second identical update leaves the store as the first one did |
| Service.DeleteIdempotent | src/main/java/com/techiesbytes/service/departmentServiceImpl.java:46-48 | deleting an id twice is deleting it once, and deletion keeps every record under its own id |
| Service.DepartmentService.constructor | src/main/java/com/techiesbytes/service/departmentServiceImpl.java:18-19 | the service starts over an empty, valid store |
| Service.DepartmentService.GetDept | src/main/java/com/techiesbytes/service/departmentServiceImpl.java:32-43 | the record is found exactly when the id is stored, and is then the stored record; otherwise the message is "Department not found with id:" followed by the id, which can be read back from it |
| Service.DepartmentService.GetDeptByCode | src/main/java/com/techiesbytes/service/departmentServiceImpl.java:69-71 | no match exactly when no record carries the code; a match is a stored record carrying the code and the only one that does; non-unique exactly when two distinct ids carry it |
| Service.DepartmentService.GetAllDept | src/main/java/com/techiesbytes/service/departmentServiceImpl.java:27-29 | lists every stored record, only stored records, no id twice, as many as the store holds |
| Service.DepartmentService.Save | src/main/java/com/techiesbytes/service/departmentServiceImpl.java:22-24 | a stored id is replaced by the record; otherwise the record is inserted under a fresh id (written back into an entity that had none); no other entry changes |
| Service.DepartmentService.DeleteDepartmentById | src/main/java/com/techiesbytes/service/departmentServiceImpl.java:46-48 | with no check first, the id is absent afterwards and every other entry is unchanged |
| Service.DepartmentService.UpdateDept | src/main/java/com/techiesbytes/service/departmentServiceImpl.java:51-66 | on an absent id it fails with nothing written; otherwise the entry at the id becomes Merge(stored, patch) and nothing else in the store changes |

## Left out

- HTTP routing, request binding, logging and the fixed response strings of
  the controller are not modelled. Only the service and entity are.
- The JPA and Hibernate machinery is reduced to an abstract map. That
  machinery covers persistence contexts, dirty checking, lazy loading and
  transactions.
- Service.DepartmentService.Save: the IDENTITY strategy is modelled as a
  counter that only promises a fresh id. Hibernate 6.6 and later throw for a
  detached entity whose row is absent, and that case is not modelled.
- Identifiers are unbounded integers. The 64-bit range of Java's `Long`,
  and a null id passed to `findById`, are not modelled.
- Null patch objects and null codes passed to `getDeptByCode` are not
  modelled. Both come from request binding, which never supplies them.
- The bean validator is not modelled. Its constraints are only stated as
  predicates. The merge lemmas show that `Merge` itself does not keep them.
- Validation by JPA before insert and update is not modelled. With Hibernate
  Validator on the class path, the running system would reject at
  `save` a record that breaks the constraints. Save and UpdateDept in the
  model store such records as given.
- Concurrency is not modelled. Each call is atomic, so the lost update
  between the read and the write of `updateDept` does not appear.
- The service interface's declared `department getDept(Long id)` is not
  modelled. The implementation's `ResponseEntity` behaviour is modelled instead.
- Service.DepartmentService.GetAllDept: the order of the list is
  unspecified. The store's own iteration order is not modelled.
