/**
 What `createUser`, `findById` and `findByUserName` promise, case by case,
 and how the lookups undo a registration.
 */
module UserControllerProperties {
  import opened JavaLang
  import opened Entities
  import opened Repositories
  import opened UserController

  /** The cart a registration saved: the last row of the cart table. */
  function LastCart(s: Store): Cart
    requires |s.carts.rows| > 0
  {
    s.carts.rows[|s.carts.rows| - 1]
  }

  /** A `null` field is rejected with 400 before anything is saved, and the
      password's length is never read. */
  lemma CreateUserMissingField(req: CreateUserRequest, s: Store, encode: string -> string)
    requires !HasAllFields(req)
    ensures CreateUser(req, s, encode) == (BadRequest, s)
  {
  }

  /** A password shorter than seven code units is rejected with 400 and no
      user is saved. */
  lemma CreateUserShortPassword(req: CreateUserRequest, s: Store, encode: string -> string)
    requires HasAllFields(req)
    requires Utf16Length(req.password.value) < 7
    ensures CreateUser(req, s, encode).0 == BadRequest
    ensures CreateUser(req, s, encode).1.users == s.users
  {
  }

  /** The length check counts UTF-16 code units, as Java does: four
      characters from outside the Basic Multilingual Plane make a password
      of length eight, which is accepted. */
  lemma CreateUserCountsCodeUnits(s: Store, encode: string -> string)
    ensures var pw := "\U{1F600}\U{1F600}\U{1F600}\U{1F600}";
      && |pw| == 4
      && CreateUser(CreateUserRequest(Ref("test"), Ref(pw), Ref(pw)), s, encode).0.Ok?
  {
    var pw := "\U{1F600}\U{1F600}\U{1F600}\U{1F600}";
    assert Utf16Length(pw) == 8 by {
      assert forall i :: 0 <= i < |pw| ==> IsSupplementary(pw[i]);
    }
  }

  /** A password that differs from its confirmation is rejected with 400
      and no user is saved. */
  lemma CreateUserMismatch(req: CreateUserRequest, s: Store, encode: string -> string)
    requires HasAllFields(req)
    requires req.password.value != req.confirmPassword.value
    ensures CreateUser(req, s, encode).0 == BadRequest
    ensures CreateUser(req, s, encode).1.users == s.users
  {
  }

  /** On either password rejection exactly one cart has been saved, with a
      fresh key, and no user refers to it. */
  lemma CreateUserOrphanCart(req: CreateUserRequest, s: Store, encode: string -> string)
    requires Valid(s)
    requires HasAllFields(req)
    requires !PasswordAccepted(req.password.value, req.confirmPassword.value)
    ensures var s' := CreateUser(req, s, encode).1;
      && s'.users == s.users
      && |s'.carts.rows| == |s.carts.rows| + 1
      && s'.carts.rows[..|s.carts.rows|] == s.carts.rows
      && LastCart(s') !in s.carts.rows
      && forall i :: 0 <= i < |s'.users.rows| ==> s'.users.rows[i].cart != LastCart(s')
  {
    var s' := CreateUser(req, s, encode).1;
    assert s'.carts.rows == s.carts.rows + [LastCart(s')];
    forall i | 0 <= i < |s'.users.rows|
      ensures s'.users.rows[i].cart != LastCart(s')
    {
      assert s'.users.rows[i].cart in s.carts.rows;
    }
  }

  /** An acceptable request answers 200 with a user holding the requested
      name, the encoded password and the cart saved for it; exactly one
      cart and one user are appended and nothing else changes. */
  lemma CreateUserSuccess(req: CreateUserRequest, s: Store, encode: string -> string)
    requires Acceptable(req)
    ensures var (r, s') := CreateUser(req, s, encode);
      && r.Ok?
      && r.body.username == req.username.value
      && r.body.password == encode(req.password.value)
      && s'.carts.rows == s.carts.rows + [r.body.cart]
      && s'.users.rows == s.users.rows + [r.body]
      && (Valid(s) ==> r.body.id != Unsaved && r.body.cart.id != Unsaved)
  {
  }

  /** Every user row a registration appends holds the encoded password, so
      with an encoder that never maps a string to itself (a BCrypt hash
      carries a `$2a$` prefix) no plaintext password is ever stored. */
  lemma CreateUserStoresOnlyHash(req: CreateUserRequest, s: Store, encode: string -> string)
    ensures var s' := CreateUser(req, s, encode).1;
      && |s.users.rows| <= |s'.users.rows|
      && s'.users.rows[..|s.users.rows|] == s.users.rows
      && forall i :: |s.users.rows| <= i < |s'.users.rows| ==>
           req.password.Ref? && s'.users.rows[i].password == encode(req.password.value)
    ensures (forall p :: encode(p) != p) ==>
      var s' := CreateUser(req, s, encode).1;
      forall i :: |s.users.rows| <= i < |s'.users.rows| ==>
        req.password.Ref? && s'.users.rows[i].password != req.password.value
  {
  }

  /** Registration never checks whether the name is taken: from a store
      with unique names it keeps them unique exactly unless an acceptable
      request repeats a stored name, the case a unique username column would
      turn into a failed save. */
  lemma CreateUserNameUniqueness(req: CreateUserRequest, s: Store, encode: string -> string)
    requires NamesUnique(s)
    ensures NamesUnique(CreateUser(req, s, encode).1) <==>
      !(Acceptable(req) && NameTaken(s, req.username.value))
  {
    var (r, s') := CreateUser(req, s, encode);
    if Acceptable(req) {
      CreateUserSuccess(req, s, encode);
      var n := |s.users.rows|;
      assert s'.users.rows[n] == r.body;
      if NameTaken(s, req.username.value) {
        var i :| 0 <= i < n && s.users.rows[i].username == req.username.value;
        assert s'.users.rows[i].username == s'.users.rows[n].username;
      } else {
        forall i, j | 0 <= i < j < |s'.users.rows|
          ensures s'.users.rows[i].username != s'.users.rows[j].username
        {
          if j == n {
            assert s'.users.rows[i] == s.users.rows[i];
          } else {
            assert s'.users.rows[i] == s.users.rows[i] && s'.users.rows[j] == s.users.rows[j];
          }
        }
      }
    }
  }

  /** After a registration the new user is found by its generated key. */
  lemma CreateThenFindById(req: CreateUserRequest, s: Store, encode: string -> string)
    requires Valid(s)
    requires Acceptable(req)
    ensures var (r, s') := CreateUser(req, s, encode);
      r.Ok? && UserController.FindById(s', r.body.id) == r
  {
    var (r, s') := CreateUser(req, s, encode);
    CreateUserSuccess(req, s, encode);
    FindByIdAfterAppend(s.users.rows, r.body, r.body.id);
  }

  /** After a registration the requested name is found, and it is the new
      user unless an earlier user already held that name. */
  lemma CreateThenFindByUserName(req: CreateUserRequest, s: Store, encode: string -> string)
    requires Acceptable(req)
    ensures var (r, s') := CreateUser(req, s, encode);
      var found := FindByUserName(s', req.username.value);
      && found.Ok?
      && found.body.username == req.username.value
      && ((forall i :: 0 <= i < |s.users.rows| ==> s.users.rows[i].username != req.username.value) ==> found == r)
  {
    var (r, s') := CreateUser(req, s, encode);
    CreateUserSuccess(req, s, encode);
    FindByUsernameAfterAppend(s.users.rows, r.body, req.username.value);
  }
}
