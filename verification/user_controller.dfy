/**
 The `/api/user` endpoints: registration and the two lookups. Each endpoint
 is a pure step from a request and the repositories' state to a response and
 the new state. Password hashing is the `encode` parameter, an arbitrary
 function standing for the injected BCrypt encoder.
 */
module UserController {
  import opened JavaLang
  import opened Entities
  import opened Repositories

  /** The response entity, reduced to its status and body. `Fault` is an
      exception escaping the handler, which the host turns into a 500. */
  datatype Response = Ok(body: User) | BadRequest | NotFound | Fault

  function StatusCode(r: Response): int {
    match r
    case Ok(_) => 200
    case BadRequest => 400
    case NotFound => 404
    case Fault => 500
  }

  /** The state the controller reads and writes: its two repositories. */
  datatype Store = Store(carts: CartRepository, users: UserRepository)

  /** Both tables hold generated, unique keys, every user's cart is a
      stored cart, and no two users share a cart. */
  predicate Valid(s: Store) {
    && ValidCarts(s.carts)
    && ValidUsers(s.users)
    && (forall i :: 0 <= i < |s.users.rows| ==> s.users.rows[i].cart in s.carts.rows)
    && (forall i, j :: 0 <= i < j < |s.users.rows| ==> s.users.rows[i].cart != s.users.rows[j].cart)
  }

  /** Some stored user already carries the name. */
  predicate NameTaken(s: Store, username: string) {
    exists i :: 0 <= i < |s.users.rows| && s.users.rows[i].username == username
  }

  /** No two stored users share a name, as a unique username column would
      enforce. */
  predicate NamesUnique(s: Store) {
    forall i, j :: 0 <= i < j < |s.users.rows| ==> s.users.rows[i].username != s.users.rows[j].username
  }

  /** A store no request has touched yet. */
  const EmptyStore: Store := Store(CartRepository([], Unsaved + 1), UserRepository([], Unsaved + 1))

  /** The first guard of `createUser`: no field of the body is `null`. */
  predicate HasAllFields(req: CreateUserRequest) {
    req.username.Ref? && req.password.Ref? && req.confirmPassword.Ref?
  }

  /** The second guard of `createUser`, negated: the password is at least
      seven UTF-16 code units long and equals its confirmation. */
  predicate PasswordAccepted(password: string, confirmPassword: string) {
    Utf16Length(password) >= 7 && password == confirmPassword
  }

  /** A request that passes both guards. */
  predicate Acceptable(req: CreateUserRequest) {
    HasAllFields(req) && PasswordAccepted(req.password.value, req.confirmPassword.value)
  }

  /** `GET /api/user/id/{id}`: 200 with the stored user, 404 when the key is
      not stored. */
  function FindById(s: Store, id: int): (r: Response)
    ensures r.Ok? || r.NotFound?
    ensures r.Ok? <==> exists i :: 0 <= i < |s.users.rows| && s.users.rows[i].id == id
    ensures r.Ok? ==> r.body.id == id && r.body in s.users.rows
    ensures Valid(s) ==> forall i :: 0 <= i < |s.users.rows| && s.users.rows[i].id == id ==> r == Ok(s.users.rows[i])
  {
    match Repositories.FindById(s.users.rows, id)
    case Present(u) => Ok(u)
    case Empty => NotFound
  }

  /** `GET /api/user/{username}` as written: when the repository returns
      `null` the not-found response is built and dropped, and reading the
      null user's name throws, so a missing name never yields 404. */
  function FindByUserName(s: Store, username: string): (r: Response)
    ensures r.Ok? || r.Fault?
    ensures r.Ok? <==> exists i :: 0 <= i < |s.users.rows| && s.users.rows[i].username == username
    ensures r.Ok? ==> r.body.username == username && r.body in s.users.rows
  {
    match FindByUsername(s.users.rows, username)
    case Ref(u) => Ok(u)
    case Null => Fault
  }

  /** `POST /api/user/create`. Missing fields are rejected before anything
      is saved; otherwise a new cart is saved first, and only then are the
      password's length and confirmation checked, so a rejected password
      leaves that cart behind. An accepted request saves the user, holding
      the encoded password and linked to the new cart. */
  function CreateUser(req: CreateUserRequest, s: Store, encode: string -> string): (out: (Response, Store))
    ensures out.0.Ok? || out.0.BadRequest?
    ensures out.0.Ok? <==> Acceptable(req)
    ensures HasAllFields(req) ==> |out.1.carts.rows| == |s.carts.rows| + 1
    ensures !HasAllFields(req) ==> out.1 == s
    ensures out.0.BadRequest? ==> out.1.users == s.users
    ensures Valid(s) ==> Valid(out.1)
  {
    if !HasAllFields(req) then (BadRequest, s)
    else
      var password := req.password.value;
      var (carts, cart) := SaveNewCart(s.carts, Cart(Unsaved));
      if !PasswordAccepted(password, req.confirmPassword.value) then
        (BadRequest, s.(carts := carts))
      else
        var (users, user) := SaveNewUser(s.users, User(Unsaved, req.username.value, encode(password), cart));
        (Ok(user), Store(carts, users))
  }
}
