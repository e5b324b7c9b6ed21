# Blueprints: filters, relational persistence and the API envelope

A Dafny model of the core of the blueprints REST service (AnaFiquitiva/LAB04_ARSW).
A blueprint is an author, a name and an ordered list of integer points. The
model covers three parts of the service:

- **Filters** (`filters.dfy`). These are the three transforms applied to a
  blueprint before it is returned. The identity filter returns it unchanged.
  The redundancy filter collapses every run of consecutive equal points to
  the run's first point. The undersampling filter keeps the points at even
  indices, unless the blueprint has two points or fewer. Only the identity
  filter's source is part of this model; the other two are defined by the
  assertions of their unit tests.
- **Persistence** (`persistence.dfy`, `entity.dfy`, `postgres_persistence.dfy`).
  - `Persistence` states the persistence contract on an abstract table: the
    stored blueprints in insertion order, with unique `(author, name)` keys.
  - `PersistenceEntity` holds the two mutable JPA classes, `BlueprintEntity`
    and `PointEmbeddable`.
  - `PersistenceImpl` holds `PostgresBlueprintPersistence`. It is a class over
    the sequence of entity rows the Spring Data repository would hold. The
    repository's generated queries are functions over those rows. The
    class's ghost `Contents` is tied to the rows by `Valid()`, and every
    method is proved against the contract functions of `Persistence`.
- **ApiResponse** (`api_response.dfy`). This is the immutable response
  envelope: a code, a message, optional data and a map of links. It has six
  factories and `withLinks`.

`model.dfy` holds the shared types. Java `int` is `int32` and `Long` is
`int64`. A Java `null` is `None` of `Option`.

## Model

| member | source | states |
|---|---|---|
| Filters.ApplyIdentity | src/main/java/edu/eci/arsw/blueprints/filters/IdentityFilter.java:16 | The filter accepts every blueprint and returns the same author, name and point list: same length and the same point at every index, so an empty list stays empty. |
| Filters.Collapse | src/test/java/edu/eci/arsw/blueprints/filters/BlueprintFilterTest.java:66-96 | The redundancy output is never longer than the input and is empty exactly when the input is empty. It starts with the input's first point and has no two equal neighbours. |
| Filters.RunLengths | src/test/java/edu/eci/arsw/blueprints/filters/BlueprintFilterTest.java:80-96 | There is one run length per point kept by the redundancy filter, and every run has at least one point. |
| Filters.CollapseRoundTrip | src/test/java/edu/eci/arsw/blueprints/filters/BlueprintFilterTest.java:80-96 | Repeating each kept point as often as its run was long gives back the input. Only repetitions of the point just before are dropped. |
| Filters.CollapseIsSubsequence | src/test/java/edu/eci/arsw/blueprints/filters/BlueprintFilterTest.java:67-96 | The redundancy output is an order-preserving subsequence of the input. |
| Filters.SubsequenceOfTail | src/test/java/edu/eci/arsw/blueprints/filters/BlueprintFilterTest.java:67-96 | A subsequence of the tail of a list is a subsequence of the whole list. |
| Filters.DropHeadOfSubsequence | src/test/java/edu/eci/arsw/blueprints/filters/BlueprintFilterTest.java:67-96 | A non-empty subsequence without its first point is a subsequence of the list without its first point. |
| Filters.CollapseKeepsEveryValue | src/test/java/edu/eci/arsw/blueprints/filters/BlueprintFilterTest.java:99-108 | A point occurs in the redundancy output if and only if it occurs in the input. |
| Filters.CollapseNoRepeatsUnchanged | src/test/java/edu/eci/arsw/blueprints/filters/BlueprintFilterTest.java:99-108 | A list without equal neighbours passes through unchanged. This includes equal points that are not adjacent. |
| Filters.CollapseIdempotent | src/test/java/edu/eci/arsw/blueprints/filters/BlueprintFilterTest.java:66-108 | Applying the redundancy filter a second time changes nothing. |
| Filters.ApplyRedundancy | src/test/java/edu/eci/arsw/blueprints/filters/BlueprintFilterTest.java:110-128 | The filter keeps author and name, and its points are `Collapse` of the input points. They have no equal neighbours and are a subsequence of the input, and they are empty exactly when the input is empty. |
| Filters.RedundancyCases | src/test/java/edu/eci/arsw/blueprints/filters/BlueprintFilterTest.java:66-116 | The four redundancy test inputs give exactly the expected point lists. |
| Filters.EvenIndexed | src/test/java/edu/eci/arsw/blueprints/filters/BlueprintFilterTest.java:143-160 | The result has ceil(n/2) points, and point i of the result is point 2i of the input. |
| Filters.Undersample | src/test/java/edu/eci/arsw/blueprints/filters/BlueprintFilterTest.java:143-189 | Two points or fewer are returned unchanged. Otherwise the result has ceil(n/2) points and point i is input point 2i. |
| Filters.ApplyUndersampling | src/test/java/edu/eci/arsw/blueprints/filters/BlueprintFilterTest.java:143-201 | The filter keeps author and name. Two points or fewer are kept unchanged. Otherwise the result has ceil(n/2) points and point i is input point 2i. |
| Filters.UndersamplingCases | src/test/java/edu/eci/arsw/blueprints/filters/BlueprintFilterTest.java:143-189 | The six-point, five-point, two-point and one-point test inputs give exactly the expected lists. |
| Controllers.NewResponse | src/main/java/edu/eci/arsw/blueprints/controllers/ApiResponse.java:38-43 | The public constructor keeps code, message and data. A null links map becomes the empty map, and any other map is kept. |
| Controllers.NewResponseWithoutLinks | src/main/java/edu/eci/arsw/blueprints/controllers/ApiResponse.java:45-47 | The private constructor keeps code, message and data, with no links. |
| Controllers.WithLinks | src/main/java/edu/eci/arsw/blueprints/controllers/ApiResponse.java:63-65 | The copy keeps the code, message and data and carries exactly the given links, or none for null. |
| Controllers.Ok | src/main/java/edu/eci/arsw/blueprints/controllers/ApiResponse.java:70-72 | Code 200, message "execute ok", the given data, no links. |
| Controllers.Created | src/main/java/edu/eci/arsw/blueprints/controllers/ApiResponse.java:75-77 | Code 201, message "resource created", the given data, no links. |
| Controllers.Accepted | src/main/java/edu/eci/arsw/blueprints/controllers/ApiResponse.java:80-82 | Code 202, message "update accepted", the given data, no links. |
| Controllers.BadRequest | src/main/java/edu/eci/arsw/blueprints/controllers/ApiResponse.java:85-87 | Code 400, the caller's message unchanged, null data, no links. |
| Controllers.NotFound | src/main/java/edu/eci/arsw/blueprints/controllers/ApiResponse.java:90-92 | Code 404, the caller's message unchanged, null data, no links. |
| Controllers.Conflict | src/main/java/edu/eci/arsw/blueprints/controllers/ApiResponse.java:95-97 | Code 409, the caller's message unchanged, null data, no links. |
| Controllers.WithLinksLastWins | src/main/java/edu/eci/arsw/blueprints/controllers/ApiResponse.java:63-65 | Attaching links twice keeps only the second set. Re-attaching a response's own links gives back the same response. |
| Controllers.WithLinksKeepsOriginal | src/test/java/edu/eci/arsw/blueprints/controllers/ApiResponseTest.java:71-98 | After `ok(d).withLinks(l)` the original still has no links. The copy has code 200 and exactly links l, and it differs from the original when l is not empty. |
| Controllers.NullLinksAreEmpty | src/main/java/edu/eci/arsw/blueprints/controllers/ApiResponse.java:42 | A null links map through the public constructor gives the same response as the constructor without links. |
| PersistenceEntity.PointEmbeddable.Default | src/main/java/edu/eci/arsw/blueprints/persistence/entity/PointEmbeddable.java:16 | The no-argument constructor leaves both coordinates at 0. |
| PersistenceEntity.PointEmbeddable.constructor | src/main/java/edu/eci/arsw/blueprints/persistence/entity/PointEmbeddable.java:18-21 | After construction, x and y are the given coordinates. |
| PersistenceEntity.PointEmbeddable.SetX | src/main/java/edu/eci/arsw/blueprints/persistence/entity/PointEmbeddable.java:26 | `setX` sets x and leaves y unchanged. |
| PersistenceEntity.PointEmbeddable.SetY | src/main/java/edu/eci/arsw/blueprints/persistence/entity/PointEmbeddable.java:27 | `setY` sets y and leaves x unchanged. |
| PersistenceEntity.BlueprintEntity.constructor | src/main/java/edu/eci/arsw/blueprints/persistence/entity/BlueprintEntity.java:43-47 | Author and name are stored as given and the id starts null. The points are the given list in order, or empty when the list is null. |
| PersistenceEntity.BlueprintEntity.SetId | src/main/java/edu/eci/arsw/blueprints/persistence/entity/BlueprintEntity.java:54 | Only the id changes. |
| PersistenceEntity.BlueprintEntity.SetAuthor | src/main/java/edu/eci/arsw/blueprints/persistence/entity/BlueprintEntity.java:55 | Only the author changes. |
| PersistenceEntity.BlueprintEntity.SetName | src/main/java/edu/eci/arsw/blueprints/persistence/entity/BlueprintEntity.java:56 | Only the name changes. |
| PersistenceEntity.BlueprintEntity.SetPoints | src/main/java/edu/eci/arsw/blueprints/persistence/entity/BlueprintEntity.java:57 | Only the point list changes, and it becomes the given one. |
| PersistenceEntity.Coordinates | src/main/java/edu/eci/arsw/blueprints/persistence/impl/PostgresBlueprintPersistence.java:46-48 | Mapping embeddable points to coordinates keeps the length, and entry i is the (x, y) of embeddable i. |
| Persistence.UniqueKeys | src/main/java/edu/eci/arsw/blueprints/persistence/entity/BlueprintEntity.java:15-18 | The unique constraint on (author, name) holds exactly when any two positions holding the same key are the same position. |
| Persistence.Save | src/main/java/edu/eci/arsw/blueprints/persistence/impl/PostgresBlueprintPersistence.java:55-61 | Saving succeeds exactly when no stored blueprint has the key, and otherwise fails with AlreadyExists. On success the table is the old rows, unchanged, followed by the blueprint. |
| Persistence.Get | src/main/java/edu/eci/arsw/blueprints/persistence/impl/PostgresBlueprintPersistence.java:64-69 | The lookup fails, with NotFound, exactly when no stored blueprint has the key. Otherwise it returns a stored blueprint with that key. |
| Persistence.GetByAuthor | src/main/java/edu/eci/arsw/blueprints/persistence/impl/PostgresBlueprintPersistence.java:72-78 | On failure the error is NotFound and no stored blueprint has the author. On success the set is not empty and holds exactly the stored blueprints with that author. |
| Persistence.GetAll | src/main/java/edu/eci/arsw/blueprints/persistence/impl/PostgresBlueprintPersistence.java:81-85 | The result holds every stored blueprint and nothing else. |
| Persistence.AddPoint | src/main/java/edu/eci/arsw/blueprints/persistence/impl/PostgresBlueprintPersistence.java:88-94 | addPoint fails, with NotFound, exactly when no stored blueprint has the key. On success the table keeps its size. |
| Persistence.IndexOf | src/main/java/edu/eci/arsw/blueprints/persistence/impl/BlueprintJpaRepository.java:15 | The lookup is absent exactly when no stored blueprint has the key. Otherwise it is the first position holding the key. |
| Persistence.SaveThenGet | src/main/java/edu/eci/arsw/blueprints/persistence/impl/PostgresBlueprintPersistence.java:55-69 | After a successful save, getBlueprint of that key yields the saved blueprint, points in the given order. |
| Persistence.SaveTwiceFails | src/main/java/edu/eci/arsw/blueprints/persistence/impl/PostgresBlueprintPersistence.java:55-59 | Saving a second blueprint with the same key fails with AlreadyExists, whatever its points. |
| Persistence.SaveKeepsOthers | src/main/java/edu/eci/arsw/blueprints/persistence/impl/PostgresBlueprintPersistence.java:60 | A successful save changes no lookup of any other key. |
| Persistence.SaveKeepsUnique | src/main/java/edu/eci/arsw/blueprints/persistence/entity/BlueprintEntity.java:15-18 | saveBlueprint preserves the uniqueness of `(author, name)`. |
| Persistence.GetFindsTheRow | src/main/java/edu/eci/arsw/blueprints/persistence/impl/PostgresBlueprintPersistence.java:64-69 | With unique keys, getBlueprint returns the stored blueprint with that key. It fails, with NotFound, exactly when there is none. |
| Persistence.GetOnEmpty | src/main/java/edu/eci/arsw/blueprints/persistence/impl/PostgresBlueprintPersistence.java:64-85 | On an empty table both lookups fail with NotFound, and getAllBlueprints gives the empty set. |
| Persistence.GetAllMembers | src/main/java/edu/eci/arsw/blueprints/persistence/impl/PostgresBlueprintPersistence.java:81-85 | getAllBlueprints has no error case. It holds exactly the stored blueprints, and it is empty exactly when the table is. |
| Persistence.AddPointThenGet | src/main/java/edu/eci/arsw/blueprints/persistence/impl/PostgresBlueprintPersistence.java:88-94 | addPoint fails, with NotFound, exactly when the key is absent. Otherwise the point becomes the last point of that blueprint, after all the old ones. |
| Persistence.AddPointKeepsOthers | src/main/java/edu/eci/arsw/blueprints/persistence/impl/PostgresBlueprintPersistence.java:88-94 | addPoint keeps the table size and every row with another key. |
| Persistence.UpdatePointsKeepsUnique | src/main/java/edu/eci/arsw/blueprints/persistence/impl/PostgresBlueprintPersistence.java:92-93 | Replacing the points of one row keeps the keys unique. |
| Persistence.AddPointKeepsUnique | src/main/java/edu/eci/arsw/blueprints/persistence/impl/PostgresBlueprintPersistence.java:88-94 | addPoint preserves the uniqueness of `(author, name)`. |
| Persistence.AppendAll | src/main/java/edu/eci/arsw/blueprints/persistence/impl/PostgresBlueprintPersistence.java:88 | One addPoint request per point, in order, all on the same key. |
| Persistence.RunAppendAllHead | src/main/java/edu/eci/arsw/blueprints/persistence/impl/PostgresBlueprintPersistence.java:88-94 | Running the appends of a non-empty list is one addPoint followed by the appends of the rest. |
| Persistence.RunKeepsUnique | src/main/java/edu/eci/arsw/blueprints/persistence/impl/PostgresBlueprintPersistence.java:55-94 | No sequence of saveBlueprint and addPoint calls, successful or failed, makes two rows share a key. |
| Persistence.AppendsAreNotLost | src/main/java/edu/eci/arsw/blueprints/persistence/impl/PostgresBlueprintPersistence.java:88-94 | Appending a list of points one call at a time to a stored blueprint leaves it holding its old points followed by all the new ones, in order. |
| PersistenceImpl.ToDomain | src/main/java/edu/eci/arsw/blueprints/persistence/impl/PostgresBlueprintPersistence.java:45-50 | toDomain keeps author and name. It keeps the number of points, and point i has the coordinates of embeddable i. |
| PersistenceImpl.ToEntity | src/main/java/edu/eci/arsw/blueprints/persistence/impl/PostgresBlueprintPersistence.java:36-41 | toEntity builds a new entity with no id and one new embeddable per point. Converting it back with toDomain gives the original blueprint. |
| PersistenceImpl.ExistsByAuthorAndName | src/main/java/edu/eci/arsw/blueprints/persistence/impl/BlueprintJpaRepository.java:19 | Some row has the key exactly when findByAuthorAndName finds a row. |
| PersistenceImpl.FindByAuthorAndName | src/main/java/edu/eci/arsw/blueprints/persistence/impl/BlueprintJpaRepository.java:15 | The result is empty exactly when no row has the key. Otherwise it is a row of the table with that author and name. |
| PersistenceImpl.FindByAuthor | src/main/java/edu/eci/arsw/blueprints/persistence/impl/BlueprintJpaRepository.java:17 | Every returned row is a row of the table with the author, and every row with the author is returned. |
| PersistenceImpl.Domains | src/main/java/edu/eci/arsw/blueprints/persistence/impl/PostgresBlueprintPersistence.java:45-50 | The blueprints the rows convert to, one per row and in row order. |
| PersistenceImpl.AbstractsUpdate | src/main/java/edu/eci/arsw/blueprints/persistence/impl/PostgresBlueprintPersistence.java:92-93 | When only one row's entity changed, re-converting that row restores the row-by-row correspondence with the abstract table. |
| PersistenceImpl.PostgresBlueprintPersistence.constructor | src/main/java/edu/eci/arsw/blueprints/persistence/impl/PostgresBlueprintPersistence.java:30-32 | The persistence wraps the injected repository with whatever rows it already holds. Its table is those rows and its blueprints are their conversions, row by row. It requires only what the database guarantees: no entity stored twice and no key shared. Its footprint is itself plus the row entities and their embeddable points, so a caller can then save and add points. |
| PersistenceImpl.PostgresBlueprintPersistence.KeysAgree | src/main/java/edu/eci/arsw/blueprints/persistence/impl/PostgresBlueprintPersistence.java:56 | existsByAuthorAndName on the rows agrees with key presence in the abstract table, row by row. |
| PersistenceImpl.PostgresBlueprintPersistence.SaveBlueprint | src/main/java/edu/eci/arsw/blueprints/persistence/impl/PostgresBlueprintPersistence.java:55-61 | The result and the new table are those of the contract's Save: AlreadyExists with nothing changed, or success with one row added. The invariant, including unique keys, is kept. |
| PersistenceImpl.PostgresBlueprintPersistence.InsertRow | src/main/java/edu/eci/arsw/blueprints/persistence/impl/PostgresBlueprintPersistence.java:60 | Saving a new entity with an absent key appends its blueprint to the table and keeps the invariant. The footprint grows by exactly the entity and its embeddable points. |
| PersistenceImpl.PostgresBlueprintPersistence.GetBlueprint | src/main/java/edu/eci/arsw/blueprints/persistence/impl/PostgresBlueprintPersistence.java:64-69 | The result is the contract's Get on the stored table. |
| PersistenceImpl.PostgresBlueprintPersistence.GetBlueprintsByAuthor | src/main/java/edu/eci/arsw/blueprints/persistence/impl/PostgresBlueprintPersistence.java:72-78 | The result is the contract's GetByAuthor: NotFound when the author has no row, else the set of that author's blueprints. |
| PersistenceImpl.PostgresBlueprintPersistence.GetAllBlueprints | src/main/java/edu/eci/arsw/blueprints/persistence/impl/PostgresBlueprintPersistence.java:81-85 | The result is the set of all stored blueprints. |
| PersistenceImpl.PostgresBlueprintPersistence.AddPoint | src/main/java/edu/eci/arsw/blueprints/persistence/impl/PostgresBlueprintPersistence.java:88-94 | The result and the new table are those of the contract's AddPoint: NotFound with nothing changed, or the point appended to that row. The invariant is kept. |
| PersistenceImpl.PostgresBlueprintPersistence.AppendToRow | src/main/java/edu/eci/arsw/blueprints/persistence/impl/PostgresBlueprintPersistence.java:92-93 | Appending an embeddable to the live point list of row k changes that row's blueprint to have the new point last. Every other row is left alone, and the invariant is kept. |

## Left out

- The redundancy and undersampling filter classes, `Blueprint`, `Point`, the service layer and the in-memory persistence are not part of this model. The two filters are defined from their unit tests. `Blueprint` and `Point` are plain datatypes inferred from their use.
- Choosing a filter by Spring profile, HTTP routing, the controller and building links from the servlet context are left out. They are framework wiring.
- Transactions and concurrency are left out. Operations run one at a time, so the race between the existence check and the insert does not arise. The database-level unique constraint is represented only by the `UniqueKeys` invariant the persistence maintains.
- Database-generated ids are left out. A saved entity keeps `id == None`.
- The messages of BlueprintPersistenceException and BlueprintNotFoundException are left out. Only the error kind is modelled.
- The no-argument JPA constructor of `BlueprintEntity` is left out. It leaves author and name null, which the model's string fields cannot hold.
- `PersistenceEntity.BlueprintEntity.SetPoints`: a null argument is not modelled.
- `PersistenceEntity.BlueprintEntity.constructor`: the entity's point list is a sequence value, not a shared `ArrayList`. That the caller's later changes to its own list do not reach the entity therefore holds by construction and is not stated separately. The aliasing through `getPoints()`/`setPoints()` is not captured. The live-list append of `addPoint` is modelled as reassigning the entity's points field.
- `PersistenceImpl.PostgresBlueprintPersistence.GetBlueprintsByAuthor` and `GetAllBlueprints`: the sets are mathematical sets of blueprint values. Duplicate elimination by `Collectors.toSet()` depends on `Blueprint.equals`, which is not part of this model, so results are stated as membership only.
- Getters are plain field reads and have no members of their own.
- Controllers.NewResponse: links are a map value. Java keeps the caller's map by reference, and the controller relies on the insertion order of its `LinkedHashMap` for the order of `_links` in the JSON. Nothing modifies the map afterwards, so only that output order is not captured.
- Java `String` values can be null: the response message and the author and name of blueprints and entities. The model's `string` cannot be null, so null messages and null keys are not modelled.
