/**
 * How the identity that login puts into a token meets the owner checks of the
 * news handlers, which read different claims (`id` for update, `user_id` for delete).
 */
module Ownership {
  import opened Wrappers
  import opened Entities
  import opened Http
  import opened AuthMiddleware
  import opened AuthController
  import opened NewsController

  /** Claims issued by login never pass update's owner check: they carry no `id`. */
  lemma LoginClaimsNeverUpdate(u: User, stored: Option<Article>, files: Files, body: UpdateBody, supported: set<string>)
    ensures PlanUpdate(LoginClaims(u), stored, files, body, supported).RefuseUpdate?
    ensures stored.Some? ==>
      PlanUpdate(LoginClaims(u), stored, files, body, supported) == RefuseUpdate(Reject(400, CannotUpdate))
  {
  }

  /** Claims issued by login pass delete's owner check exactly for the user's own rows. */
  lemma LoginClaimsDeleteOwn(u: User, a: Article)
    ensures PlanDelete(LoginClaims(u), Some(a)) == Remove <==> a.userId == u.id
  {
  }

  /**
   * End to end: a request carrying the header login returned passes the gate,
   * and the claims it attaches can delete the user's own article but update none.
   */
  lemma LoginSessionOwnership(u: User, a: Article, sign: Claims -> string, verify: string -> Option<Claims>,
                              files: Files, body: UpdateBody, supported: set<string>)
    requires ' ' !in sign(LoginClaims(u))
    requires verify(sign(LoginClaims(u))) == Some(LoginClaims(u))
    ensures var gate := Gate(Some(BearerToken(sign(LoginClaims(u)))), verify);
      && gate.Pass?
      && (PlanDelete(gate.claims, Some(a)) == Remove <==> a.userId == u.id)
      && PlanUpdate(gate.claims, Some(a), files, body, supported) == RefuseUpdate(Reject(400, CannotUpdate))
  {
    LoginTokenPassesGate(u, sign, verify);
  }
}
