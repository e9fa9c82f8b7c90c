/** The `/api/whoami` route: whether authentication is configured and, if
    so, who the caller is and whether they are an admin. */
module Whoami {
  import opened Wrappers
  import opened Js
  import Auth

  /** The environment variables the route reads; `None` is unset. */
  datatype Env = Env(publishableKey: Option<string>, secretKey: Option<string>, adminIds: Option<string>)

  /** Both keys are set and non-empty, and the publishable key is not a
      placeholder. */
  predicate ClerkConfigured(env: Env): (b: bool)
    ensures b ==> env.publishableKey.Some? && env.publishableKey.value != ""
    ensures b ==> env.secretKey.Some? && env.secretKey.value != ""
  {
    var pk := Auth.EnvText(env.publishableKey);
    var sk := Auth.EnvText(env.secretKey);
    pk != "" && sk != "" && !Includes(pk, "placeholder")
  }

  /** The JSON body: `{clerkConfigured: false}` or the full answer, where
      `userId: None` is `null`. */
  datatype Response =
    | NotConfigured
    | Configured(userId: Option<string>, admin: bool, adminIds: seq<string>)

  /** `GET()`; `session` is the user id the session yields when `auth()` is
      called, only consulted when authentication is configured. */
  function Get(env: Env, session: Option<string>): (r: Response)
    ensures r.NotConfigured? <==> !ClerkConfigured(env)
    ensures r.Configured? ==> r.adminIds == Auth.AdminIds(env.adminIds)
  {
    if !ClerkConfigured(env) then NotConfigured
    else
      var adminIds := Auth.AdminIds(env.adminIds);
      var admin := session.Some? && session.value != "" && session.value in adminIds;
      Configured(if session.Some? && session.value != "" then session else None, admin, adminIds)
  }

  // ---------------------------------------------------------------------
  // Properties

  /** Without configuration the answer does not depend on the session:
      `auth()` is not consulted. */
  lemma UnconfiguredIgnoresSession(env: Env, s1: Option<string>, s2: Option<string>)
    requires !ClerkConfigured(env)
    ensures Get(env, s1) == Get(env, s2) == NotConfigured
  {
  }

  /** The reported `admin` flag is exactly `isAdmin` for the same list and
      user. */
  lemma AdminAgreesWithAuth(env: Env, session: Option<string>)
    requires ClerkConfigured(env)
    ensures Get(env, session).admin == Auth.IsAdmin(env.adminIds, session)
  {
  }

  /** An absent or empty user id is reported as `null`, any other id as
      itself. */
  lemma UserIdReported(env: Env, session: Option<string>)
    requires ClerkConfigured(env)
    ensures Get(env, session).userId.None? <==> session.None? || session == Some("")
    ensures Get(env, session).userId.Some? ==> Get(env, session).userId == session
  {
  }

  /** A publishable key mentioning `placeholder` disables authentication,
      as does a missing secret key. */
  lemma PlaceholderKeyNotConfigured(pk: string, sk: Option<string>, admins: Option<string>)
    requires Includes(pk, "placeholder")
    ensures forall session :: Get(Env(Some(pk), sk, admins), session) == NotConfigured
    ensures forall key, session :: Get(Env(key, None, admins), session) == NotConfigured
  {
  }
}
