/** The roles guard: whether a request may reach a route, from the roles the route
    declares and the role of the authenticated user. */
module Roles {
  import opened Common

  datatype UserRole = ADMIN | STUDENT

  /** `canActivate`. `required` is `None` when the route declares no roles;
      `role` is `None` for a request without a user or without a role. */
  function CanActivate(required: Option<seq<UserRole>>, role: Option<UserRole>): (ok: bool)
    ensures required == None || required == Some([]) ==> ok
    ensures required != None && required != Some([]) && role == None ==> !ok
    ensures required != None && required != Some([]) && role != None ==>
      (ok <==> exists i :: 0 <= i < |required.value| && required.value[i] == role.value)
  {
    if required == None || required.value == [] then true
    else if role == None then false
    else role.value in required.value
  }

  /** Requiring more roles never takes access away from a route that already
      requires some. */
  lemma MoreRolesKeepAccess(required: seq<UserRole>, more: seq<UserRole>, role: Option<UserRole>)
    requires required != []
    requires CanActivate(Some(required), role)
    ensures CanActivate(Some(required + more), role)
  {
    var i :| 0 <= i < |required| && required[i] == role.value;
    assert (required + more)[i] == role.value;
  }

  /** The decision depends only on which roles are required, not on their order
      or repetition. */
  lemma OnlyTheSetMatters(a: seq<UserRole>, b: seq<UserRole>, role: Option<UserRole>)
    requires forall r :: r in a <==> r in b
    ensures CanActivate(Some(a), role) == CanActivate(Some(b), role)
  {
    if b != [] {
      assert b[0] in b;
    }
    if a != [] {
      assert a[0] in a;
    }
  }

  /** A route that requires a single role admits that role alone. */
  lemma SingleRoleAdmitsOnlyIt(required: UserRole, role: Option<UserRole>)
    ensures CanActivate(Some([required]), role) <==> role == Some(required)
  {
    if role != None && CanActivate(Some([required]), role) {
      var i :| 0 <= i < 1 && [required][i] == role.value;
    }
    if role == Some(required) {
      assert [required][0] == required;
    }
  }
}
