/**
 * Who sent the request, as the theater operations see it after
 * `UserManager.GetUserAsync` and `UserManager.IsInRoleAsync`.
 */
module Identity {

  import opened Optional

  /** The role that may do anything. */
  const AdminRole: string := "Admin"

  /** An ASCII lower-case letter upper-cased; every other character unchanged. */
  function UpperChar(c: char): char {
    if 'a' <= c <= 'z' then (c as int - 'a' as int + 'A' as int) as char else c
  }

  /** The lookup normalizer Identity applies to role names before comparing them. */
  function NormalizeName(s: string): (u: string)
    ensures |u| == |s|
    ensures forall i | 0 <= i < |s| :: u[i] == UpperChar(s[i])
  {
    if s == [] then [] else [UpperChar(s[0])] + NormalizeName(s[1..])
  }

  /** Normalizing twice gives what normalizing once gives. */
  lemma NormalizeNameIdempotent(s: string)
    ensures NormalizeName(NormalizeName(s)) == NormalizeName(s)
  {
  }

  /** `IsInRoleAsync(user, role)`: one of the user's roles has the normalized name of `role`. */
  predicate InRole(roles: set<string>, role: string)
    ensures role in roles ==> InRole(roles, role)
    ensures roles == {} ==> !InRole(roles, role)
  {
    exists r | r in roles :: NormalizeName(r) == NormalizeName(role)
  }

  /**
   * Anonymous: no sign-in cookie, so `[Authorize]` answers 401.
   * Unresolved: signed in, but `GetUserAsync` finds no user (it returns null).
   * Authenticated: signed in as the user `userId` holding `roles`.
   */
  datatype Principal =
    | Anonymous
    | Unresolved
    | Authenticated(userId: int, roles: set<string>)

  /** `user != null && IsInRoleAsync(user, "Admin")`. */
  predicate IsAdmin(p: Principal)
    ensures IsAdmin(p) ==> p.Authenticated?
    ensures p.Authenticated? && AdminRole in p.roles ==> IsAdmin(p)
  {
    p.Authenticated? && InRole(p.roles, AdminRole)
  }

  /** `user?.Id`: the signed-in user's id, or null. */
  function UserId(p: Principal): (id: Option<int>)
    ensures id.Some? <==> p.Authenticated?
    ensures p.Authenticated? ==> id.value == p.userId
  {
    match p
    case Authenticated(userId, _) => Some(userId)
    case _ => None
  }

}
