/**
 * The bearer-token side of the service as far as the registry sees it: the
 * token a login issues and the lookup the JWT strategy's verify callback makes.
 * Signing, signature checking and expiry belong to the token library and are
 * not part of this model; a token here is its verified payload.
 */
module Auth {
  import opened Wrappers
  import opened Registry

  /** The payload of a token that passed signature and expiry checks */
  datatype Token = Token(id: int)

  /**
   * The verify callback: the first record whose id is the payload's id admits
   * the request and becomes its user; no such record rejects it.
   */
  function Authenticate(users: seq<User>, payload: Token): (r: Option<User>)
    ensures r.Some? <==> HasMatch(users, ById(Some(payload.id)))
    ensures forall i :: IsFirst(users, ById(Some(payload.id)), i) ==> r == Some(users[i])
  {
    match FirstIndex(users, ById(Some(payload.id)))
    case None => None
    case Some(i) => Some(users[i])
  }
}
