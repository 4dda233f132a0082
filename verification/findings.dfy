/**
 Two defects of the user endpoints, each shown on a concrete input against
 the as-written model, next to the corrected definition with the intended
 property proved about it.
 */
module Findings {
  import opened JavaLang
  import opened Entities
  import opened Repositories
  import opened UserController

  /** Looking up a name nobody registered faults instead of answering 404. */
  lemma MissingUserNameFaults()
    ensures FindByUserName(EmptyStore, "nobody") == Fault
    ensures StatusCode(FindByUserName(EmptyStore, "nobody")) == 500
  {
  }

  /** `GET /api/user/{username}` with the not-found response returned: 200
      with the stored user, 404 when the name is not stored, never a fault. */
  function FindByUserNameFixed(s: Store, username: string): (r: Response)
    ensures r.Ok? || r.NotFound?
    ensures r.NotFound? <==> forall i :: 0 <= i < |s.users.rows| ==> s.users.rows[i].username != username
    ensures r.Ok? ==> r.body.username == username && r.body in s.users.rows
  {
    match FindByUsername(s.users.rows, username)
    case Ref(u) => Ok(u)
    case Null => NotFound
  }

  /** The correction changes nothing when the name is stored, and turns
      exactly the faults into 404s. */
  lemma FindByUserNameFixedAgrees(s: Store, username: string)
    ensures FindByUserName(s, username).Ok? ==> FindByUserNameFixed(s, username) == FindByUserName(s, username)
    ensures FindByUserName(s, username).Fault? <==> FindByUserNameFixed(s, username).NotFound?
  {
  }

  /** A five-character password is rejected, yet the store it leaves behind
      holds a cart nobody owns. */
  lemma RejectedRequestSavesCart(encode: string -> string)
    ensures var req := CreateUserRequest(Ref("test"), Ref("short"), Ref("short"));
      var (r, s') := CreateUser(req, EmptyStore, encode);
      && r == BadRequest
      && s' != EmptyStore
      && |s'.carts.rows| == 1
      && s'.users.rows == []
  {
    var req := CreateUserRequest(Ref("test"), Ref("short"), Ref("short"));
    assert Utf16Length("short") == 5;
  }

  /** `POST /api/user/create` with every check made before the first save. */
  function CreateUserValidatingFirst(req: CreateUserRequest, s: Store, encode: string -> string): (out: (Response, Store))
    ensures out.0.Ok? || out.0.BadRequest?
    ensures out.0.Ok? <==> Acceptable(req)
    ensures out.0.BadRequest? ==> out.1 == s
    ensures out.0.Ok? ==>
      && out.0.body.username == req.username.value
      && out.0.body.password == encode(req.password.value)
      && out.1.carts.rows == s.carts.rows + [out.0.body.cart]
      && out.1.users.rows == s.users.rows + [out.0.body]
    ensures Valid(s) ==> Valid(out.1)
  {
    if !HasAllFields(req) || !PasswordAccepted(req.password.value, req.confirmPassword.value) then
      (BadRequest, s)
    else
      var (carts, cart) := SaveNewCart(s.carts, Cart(Unsaved));
      var (users, user) := SaveNewUser(s.users, User(Unsaved, req.username.value, encode(req.password.value), cart));
      (Ok(user), Store(carts, users))
  }

  /** Reordering the checks keeps every response and every accepted
      registration's effect; on rejection it only drops the orphan cart. */
  lemma CreateUserValidatingFirstAgrees(req: CreateUserRequest, s: Store, encode: string -> string)
    ensures CreateUserValidatingFirst(req, s, encode).0 == CreateUser(req, s, encode).0
    ensures Acceptable(req) ==> CreateUserValidatingFirst(req, s, encode).1 == CreateUser(req, s, encode).1
    ensures !Acceptable(req) ==>
      && CreateUserValidatingFirst(req, s, encode).1 == s
      && CreateUser(req, s, encode).1.users == s.users
  {
  }
}
