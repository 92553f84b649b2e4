/**
 * Who may reach which controller: the `authenticate` and `authorize`
 * middlewares (Backend/src/middlewares/auth.ts) and the role lists the
 * route files pass to `authorize`. The JWT verification is a parameter.
 */
module Access {
  import opened Wrappers
  import opened Text
  import opened Models

  /** The authenticated caller: the user document's id and role. */
  datatype Caller = Caller(id: Id, role: Role)

  /**
   * The visibility filter the listings apply: a master sees the documents it
   * created, any other role sees all of them.
   */
  predicate InScope(caller: Caller, owner: Id) {
    caller.role == Master ==> owner == caller.id
  }

  /** The outcome of a middleware: a response with this status, or `next()`. */
  datatype Gate = Respond(status: nat, message: string) | Next

  /** `authorize(roles)`: 401 without a user, 403 for a role outside the list, else `next()`. */
  function Authorize(user: Option<Caller>, roles: seq<Role>): (g: Gate)
    ensures user.None? ==> g == Respond(401, "Unauthorized")
    ensures user.Some? && user.value.role !in roles ==> g == Respond(403, "Forbidden, insufficient permissions")
    ensures g.Next? <==> user.Some? && user.value.role in roles
  {
    match user
    case None => Respond(401, "Unauthorized")
    case Some(u) => if u.role in roles then Next else Respond(403, "Forbidden, insufficient permissions")
  }

  /** The protected routes and the role list each one passes to `authorize`. */
  datatype Route =
    | ListProducts | CreateProduct | UpdateProduct | DeleteProduct
    | ListCategories | CreateCategory | UpdateCategory | DeleteCategory
    | ListInventories | UpdateInventory | CreateInventory
    | UploadCsv

  function AllowedRoles(r: Route): seq<Role> {
    match r
    case ListProducts | ListCategories | ListInventories => [Master, Admin]
    case _ => [Master]
  }

  /** The caller gets past `authenticate` and `authorize` on route `r`. */
  predicate Permits(r: Route, caller: Caller) {
    Authorize(Some(caller), AllowedRoles(r)).Next?
  }

  /**
   * The access table: a master reaches every route, an admin only the three
   * listings; so every create, update, delete and the CSV upload run for a
   * master only.
   */
  lemma AccessTable(r: Route, caller: Caller)
    ensures Permits(r, caller) <==>
      caller.role == Master || (caller.role == Admin && r in {ListProducts, ListCategories, ListInventories})
  {
  }

  /** The result of `authenticate`: a response, or the user stored on `req.user`. */
  datatype AuthResult = Rejected(status: nat, message: string) | Authenticated(id: Id, user: User)

  const BearerPrefix := "Bearer "

  /**
   * `authenticate`: the token is the Authorization header with its first
   * `"Bearer "` removed; no header or an empty token gives 401, as does a
   * token `verify` rejects or whose user id is not registered; otherwise the
   * registered user becomes the caller.
   */
  function Authenticate(header: Option<string>, verify: string -> Option<Id>, users: map<Id, User>): (r: AuthResult)
    ensures (header.None? || RemoveFirst(header.value, BearerPrefix) == "") ==>
      r == Rejected(401, "No token, authorization denied")
    ensures r.Authenticated? <==>
      header.Some? && RemoveFirst(header.value, BearerPrefix) != ""
      && verify(RemoveFirst(header.value, BearerPrefix)).Some?
      && verify(RemoveFirst(header.value, BearerPrefix)).value in users
    ensures r.Authenticated? ==>
      r.id == verify(RemoveFirst(header.value, BearerPrefix)).value && r.user == users[r.id]
    ensures r.Rejected? ==> r.status == 401
  {
    var token := if header.Some? then RemoveFirst(header.value, BearerPrefix) else "";
    if token == "" then Rejected(401, "No token, authorization denied")
    else match verify(token)
      case None => Rejected(401, "Token is not valid")
      case Some(id) =>
        if id !in users then Rejected(401, "User not found") else Authenticated(id, users[id])
  }

  /** A header of the form `Bearer <token>` yields `<token>`. */
  lemma BearerTokenExtracted(token: string)
    ensures RemoveFirst(BearerPrefix + token, BearerPrefix) == token
  {
    assert OccursAt(BearerPrefix + token, BearerPrefix, 0);
    assert (BearerPrefix + token)[|BearerPrefix|..] == token;
  }

  /**
   * A header value of exactly `Bearer ` leaves an empty token, which is
   * refused. Node's HTTP parser strips trailing white space from header
   * values, so such a header arrives as `Bearer` and fails verification.
   */
  lemma BareSchemeRefused(verify: string -> Option<Id>, users: map<Id, User>)
    ensures Authenticate(Some(BearerPrefix), verify, users) == Rejected(401, "No token, authorization denied")
  {
    BearerTokenExtracted("");
    assert BearerPrefix + "" == BearerPrefix;
  }
}
