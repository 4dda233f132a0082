# User endpoints of the e-commerce demo backend, modelled in Dafny

This project models `UserController`, the `/api/user` REST controller of a
small Spring e-commerce backend. It has three endpoints:

- `POST /api/user/create` registers a user. It rejects a body with a `null`
  field. It then saves a new empty cart. Only after that does it check that
  the password is at least seven characters long and equals its
  confirmation. If both checks pass, it saves the user with the BCrypt
  encoding of the password, linked to the new cart.
- `GET /api/user/id/{id}` answers with the stored user, or 404.
- `GET /api/user/{username}` answers with the stored user. When the name is
  missing, the 404 response is built but never returned, and the handler
  then dereferences `null`.

Each endpoint is a pure function. It takes the request and a `Store` and
returns a `Response` together with the new `Store`. A `Store` holds the cart
repository and the user repository. Each repository is a table of rows kept
in save order, so the table is also the log of saves. It also holds the next
key its generator will hand out. The BCrypt encoder is a function parameter
`encode` that the model knows nothing about.

Files:

- `java_lang.dfy`: nullable references, `Optional`, and the value Java's
  `String.length()` returns (UTF-16 code units).
- `entities.dfy`: `Cart`, `User` and `CreateUserRequest`.
- `repositories.dfy`: the two repositories: save a new entity, find by key,
  find by username.
- `user_controller.dfy`: the three endpoints, the response type and the
  store invariant `Valid`.
- `user_controller_properties.dfy`: the per-case behaviour of registration,
  and the lookups after a registration.
- `findings.dfy`: the two defects below, each with a counterexample and a
  corrected definition.

## Model

| member | source | states |
|---|---|---|
| JavaLang.Utf16Length | src/main/java/com/example/demo/controllers/UserController.java:73 | the length the password check compares with 7 lies between the number of characters and twice that; it equals the character count exactly when no character lies outside the Basic Multilingual Plane, and equals twice that count exactly when every character does |
| Repositories.SaveNewCart | src/main/java/com/example/demo/controllers/UserController.java:66-67 | saving the new cart appends exactly one row, which has a generated key that no stored cart has, and keeps the table's keys valid |
| Repositories.SaveNewUser | src/main/java/com/example/demo/controllers/UserController.java:83 | saving the user appends exactly one row: the same user with a fresh generated key; the table's keys stay valid |
| Repositories.FindById | src/main/java/com/example/demo/controllers/UserController.java:34 | the repository lookup is present exactly when some row has the key, and then yields a row with that key |
| Repositories.FindByUsername | src/main/java/com/example/demo/controllers/UserController.java:40 | the repository lookup is non-null exactly when some row has the name, and then yields the earliest such row |
| Repositories.FindStoredById | src/main/java/com/example/demo/controllers/UserController.java:34 | because keys are unique, looking up a stored row's key yields that very row |
| Repositories.FindByUsernameAfterAppend | src/main/java/com/example/demo/controllers/UserController.java:40 | after a save appends a row, a name that was already found gives the same user; a name that was not found is found exactly when the new row carries it, and then gives the new row |
| Repositories.FindByIdAfterAppend | src/main/java/com/example/demo/controllers/UserController.java:34 | after a save appends a row, a key that was already found gives the same user; a key that was not found is found exactly when the new row has it, and then gives the new row |
| UserController.FindById | src/main/java/com/example/demo/controllers/UserController.java:31-35 | the response is 200 exactly when the key is stored, and 404 otherwise; the 200 body is the stored user unchanged; no other outcome occurs |
| UserController.FindByUserName | src/main/java/com/example/demo/controllers/UserController.java:37-46 | the response is 200 with a stored user of that name exactly when one exists; otherwise it is a fault, never 404 |
| UserController.CreateUser | src/main/java/com/example/demo/controllers/UserController.java:49-86 | the response is 200 exactly when all fields are present and the password is long enough and confirmed, and 400 otherwise; a request with all fields present adds one cart whatever its password; a request with a missing field changes nothing; a 400 never changes the users; the store invariant (generated unique keys, every user's cart stored, no cart shared by two users) is preserved |
| UserControllerProperties.CreateUserMissingField | src/main/java/com/example/demo/controllers/UserController.java:51-60 | a `null` username, password or confirmation gives 400 and leaves both repositories exactly as they were |
| UserControllerProperties.CreateUserShortPassword | src/main/java/com/example/demo/controllers/UserController.java:73-80 | a password shorter than 7 code units gives 400 and leaves the users unchanged |
| UserControllerProperties.CreateUserCountsCodeUnits | src/main/java/com/example/demo/controllers/UserController.java:73 | a password of four emoji (four characters, eight code units) passes the length check |
| UserControllerProperties.CreateUserMismatch | src/main/java/com/example/demo/controllers/UserController.java:73-80 | a password that differs from its confirmation gives 400 and leaves the users unchanged |
| UserControllerProperties.CreateUserOrphanCart | src/main/java/com/example/demo/controllers/UserController.java:66-80 | on either password rejection, exactly one cart with a new key has been appended and no user refers to it |
| UserControllerProperties.CreateUserSuccess | src/main/java/com/example/demo/controllers/UserController.java:62-85 | an acceptable request gives 200 with the requested username, the encoded password and the newly saved cart; exactly that cart and that user are appended, each with a generated key |
| UserControllerProperties.CreateUserStoresOnlyHash | src/main/java/com/example/demo/controllers/UserController.java:81-83 | registration only appends user rows, and every appended row holds the encoding of the password; if the encoder never returns its input unchanged, no appended row holds the plaintext |
| UserControllerProperties.CreateUserNameUniqueness | src/main/java/com/example/demo/controllers/UserController.java:62-85 | registration does not check whether the name is taken: starting from unique names, the names stay unique exactly unless an acceptable request repeats a stored name |
| UserControllerProperties.CreateThenFindById | src/test/java/com/example/demo/controllers/UserControllerTest.java:72-100 | after a registration, looking up the new user's key answers 200 with that same user |
| UserControllerProperties.CreateThenFindByUserName | src/test/java/com/example/demo/controllers/UserControllerTest.java:102-131 | after a registration, looking up the name answers 200 with a user of that name, and with the new user when no earlier user had that name |
| Findings.MissingUserNameFaults | src/main/java/com/example/demo/controllers/UserController.java:41-45 | looking up an unregistered name in an empty store gives a fault (500), not 404 |
| Findings.FindByUserNameFixed | src/main/java/com/example/demo/controllers/UserController.java:37-46 | with the missing `return` added: 404 exactly when no stored user has the name, otherwise 200 with a stored user of that name; never a fault |
| Findings.FindByUserNameFixedAgrees | src/main/java/com/example/demo/controllers/UserController.java:41-46 | the fix gives the same answer whenever the original answers 200, and gives 404 exactly where the original faults |
| Findings.RejectedRequestSavesCart | src/main/java/com/example/demo/controllers/UserController.java:66-79 | the request ("test", "short", "short") on an empty store gives 400, saves no user, and still leaves one saved cart |
| Findings.CreateUserValidatingFirst | src/main/java/com/example/demo/controllers/UserController.java:50-86 | with both checks made before any save: 200 exactly for acceptable requests, with the same user and rows as the original; a 400 leaves the store unchanged; the invariant is preserved |
| Findings.CreateUserValidatingFirstAgrees | src/main/java/com/example/demo/controllers/UserController.java:50-86 | the reordered registration gives the same response as the original on every request, and the same store on success; on rejection it differs only in leaving out the orphan cart |

## Left out

- Spring routing, annotations and SLF4J logging are left out: they do not
  affect the outcome. A `ResponseEntity` is reduced to `Response`, which
  keeps only the status and the body.
- BCrypt is left out. It is a foreign library call, so `encode` is an
  arbitrary function parameter. Its random salt is folded into that
  parameter: a single registration calls it once.
- The JPA persistence layer and its transactions are left out. A repository
  is an append-only table with a key generator. The controller only ever
  saves entities that are new, so updates of existing rows are not
  modelled. A failing save, for example one that breaks a database
  constraint, is not modelled either.
- Repositories.FindByUsername: returns the earliest matching row when
  several users share a name. The entity mapping and the repository
  interface are not part of this model, so the real outcome is not known.
  A unique column would reject the second save. A single-result query would
  throw on several matches.
- JavaLang.Utf16Length: covers only well-formed UTF-16. A Dafny string
  holds Unicode scalar values, so a Java string with an unpaired surrogate
  (which a JSON escape such as `\ud800` produces) has no counterpart. Such
  a string has one code unit per surrogate in Java's `length()`.
- UserController.CreateUser: a request whose name is already stored gets
  200 and a second row with that name. The `User` entity mapping is not
  part of this model. If it declares a unique username column, that
  second save fails with a 500 after the cart has been saved.
  `UserControllerProperties.CreateUserNameUniqueness` states exactly when
  this happens.
- Entities.Cart: carries only its key. The `Cart` class is not part of this
  model. `createUser` only ever creates an empty cart. It never sets the
  cart's owning user.
- Keys are unbounded naturals. Java's `long` key is never close to
  overflowing here. The `Long` path variable of `findById` is an `int`, so
  negative keys are simply not found.
- The cart, item and order controllers are left out. Their source is not
  part of this model, and their tests build prices from binary
  floating-point literals.
- The test files' Mockito stubbing is left out. Their expectation that a
  saved user has key 0 comes from the mocked repository, which assigns no
  key.

## Findings

| source | as written | input that shows it | evidently intended | confidence | as-written member | corrected member |
|---|---|---|---|---|---|---|
| src/main/java/com/example/demo/controllers/UserController.java:41-45 | when the name is not found, the 404 response is built and discarded, and `user.getUsername()` is then called on `null` | `GET /api/user/nobody` on an empty store | `return ResponseEntity.notFound().build();`, which answers 404 | high, not executed | Findings.MissingUserNameFaults (on UserController.FindByUserName) | Findings.FindByUserNameFixed |
| src/main/java/com/example/demo/controllers/UserController.java:66-79 | the cart is saved before the password checks, so a rejected request still leaves a cart nobody owns | `{"username":"test","password":"short","confirmPassword":"short"}` | check every field before the first save, so a 400 changes nothing | medium, not executed | Findings.RejectedRequestSavesCart (on UserController.CreateUser) | Findings.CreateUserValidatingFirst |

In both cases the corrected member is the definition a reimplementation
should follow. `UserController` keeps the behaviour as written, so that the
properties above describe the deployed code.
