/**
 The two Spring Data repositories the controller uses, as tables. A table
 keeps its rows in the order they were saved, so it doubles as the log of
 saves, and holds the next key its generator will hand out.
 */
module Repositories {
  import opened JavaLang
  import opened Entities

  // The two repositories are spelled out separately: `Cart` and `User`
  // share no common type through which a generic table could read or set
  // the key.
  datatype CartRepository = CartRepository(rows: seq<Cart>, nextId: Id)

  datatype UserRepository = UserRepository(rows: seq<User>, nextId: Id)

  /** Every stored key was generated: it is not the unsaved default, lies
      below the generator, and no two rows share it. */
  predicate ValidCarts(r: CartRepository) {
    && Unsaved < r.nextId
    && (forall i :: 0 <= i < |r.rows| ==> Unsaved < r.rows[i].id < r.nextId)
    && (forall i, j :: 0 <= i < j < |r.rows| ==> r.rows[i].id != r.rows[j].id)
  }

  predicate ValidUsers(r: UserRepository) {
    && Unsaved < r.nextId
    && (forall i :: 0 <= i < |r.rows| ==> Unsaved < r.rows[i].id < r.nextId)
    && (forall i, j :: 0 <= i < j < |r.rows| ==> r.rows[i].id != r.rows[j].id)
  }

  /** `cartRepository.save(cart)` for a cart that was never saved: the
      generator assigns its key and the row is appended. */
  function SaveNewCart(r: CartRepository, c: Cart): (out: (CartRepository, Cart))
    ensures ValidCarts(r) ==> out.1.id != Unsaved
    ensures ValidCarts(r) ==> forall i :: 0 <= i < |r.rows| ==> r.rows[i].id != out.1.id
    ensures out.0.rows == r.rows + [out.1]
    ensures ValidCarts(r) ==> ValidCarts(out.0)
  {
    var saved := c.(id := r.nextId);
    (CartRepository(r.rows + [saved], r.nextId + 1), saved)
  }

  /** `userRepository.save(user)` for a user that was never saved. */
  function SaveNewUser(r: UserRepository, u: User): (out: (UserRepository, User))
    ensures ValidUsers(r) ==> out.1.id != Unsaved
    ensures ValidUsers(r) ==> forall i :: 0 <= i < |r.rows| ==> r.rows[i].id != out.1.id
    ensures out.0.rows == r.rows + [out.1]
    ensures out.1 == u.(id := out.1.id)
    ensures ValidUsers(r) ==> ValidUsers(out.0)
  {
    var saved := u.(id := r.nextId);
    (UserRepository(r.rows + [saved], r.nextId + 1), saved)
  }

  /** `userRepository.findById(id)`: the row with that key, if any. */
  function FindById(rows: seq<User>, id: int): (r: Optional<User>)
    ensures r.Present? <==> exists i :: 0 <= i < |rows| && rows[i].id == id
    ensures r.Present? ==> exists i :: 0 <= i < |rows| && rows[i] == r.value && r.value.id == id
  {
    if rows == [] then Empty
    else if rows[0].id == id then Present(rows[0])
    else
      var rest := FindById(rows[1..], id);
      assert forall i :: 1 <= i < |rows| ==> rows[i] == rows[1..][i - 1];
      rest
  }

  /** `userRepository.findByUsername(name)`: `null` when no row carries the
      name, otherwise the earliest saved row that does. */
  function FindByUsername(rows: seq<User>, name: string): (r: Nullable<User>)
    ensures r.Ref? <==> exists i :: 0 <= i < |rows| && rows[i].username == name
    ensures r.Ref? ==> exists i :: (0 <= i < |rows| && rows[i] == r.value && r.value.username == name
                                     && forall j :: 0 <= j < i ==> rows[j].username != name)
  {
    if rows == [] then Null
    else if rows[0].username == name then Ref(rows[0])
    else
      var rest := FindByUsername(rows[1..], name);
      assert forall i :: 1 <= i < |rows| ==> rows[i] == rows[1..][i - 1];
      rest
  }

  /** Keys are unique, so looking a stored row up by its key yields exactly
      that row. */
  lemma FindStoredById(r: UserRepository, i: int)
    requires ValidUsers(r)
    requires 0 <= i < |r.rows|
    ensures FindById(r.rows, r.rows[i].id) == Present(r.rows[i])
  {
  }

  /** Appending a row never changes the answer for a name already stored;
      otherwise the name is found exactly when the new row carries it. */
  lemma {:induction false} FindByUsernameAfterAppend(rows: seq<User>, u: User, name: string)
    ensures FindByUsername(rows + [u], name) ==
      match FindByUsername(rows, name)
      case Ref(v) => Ref(v)
      case Null => if u.username == name then Ref(u) else Null
  {
    if rows != [] {
      assert (rows + [u])[1..] == rows[1..] + [u];
      FindByUsernameAfterAppend(rows[1..], u, name);
    }
  }

  /** The same for lookups by key. */
  lemma {:induction false} FindByIdAfterAppend(rows: seq<User>, u: User, id: int)
    ensures FindById(rows + [u], id) ==
      match FindById(rows, id)
      case Present(v) => Present(v)
      case Empty => if u.id == id then Present(u) else Empty
  {
    if rows != [] {
      assert (rows + [u])[1..] == rows[1..] + [u];
      FindByIdAfterAppend(rows[1..], u, id);
    }
  }
}
