/**
 The persistent entities and the request body `createUser` reads. The
 entity classes themselves are not part of this model; only the fields the
 controller sets or reads appear here.
 */
module Entities {
  import opened JavaLang

  /** A generated primary key. The repository assigns it on first save; an
      entity that has never been saved carries the Java default 0. */
  type Id = nat

  const Unsaved: Id := 0

  /** A shopping cart. `new Cart()` is an empty cart whose only state the
      controller observes is its generated id. */
  datatype Cart = Cart(id: Id)

  /** A registered user: the stored password is whatever the encoder produced,
      and the user is linked to the cart created alongside it. */
  datatype User = User(id: Id, username: string, password: string, cart: Cart)

  /** The JSON body of a registration request; each field may be absent,
      which Java sees as `null`. */
  datatype CreateUserRequest = CreateUserRequest(
    username: Nullable<string>,
    password: Nullable<string>,
    confirmPassword: Nullable<string>)
}
