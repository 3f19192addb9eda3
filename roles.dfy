/**
 * The role codes the platform knows, and the two predicates that classify a role code as an
 * administrator role or an educator role.  Legacy numeric codes ('100', '101') are accepted too.
 */
module Roles {
  datatype RoleEntry = RoleEntry(id: string, name: string, value: string)

  /** `ROLES`: every role the API reports, in display order */
  const AllRoles: seq<RoleEntry> := [
    RoleEntry("super_admin", "Super Admin", "super_admin"),
    RoleEntry("admin", "Admin", "admin"),
    RoleEntry("admin_user", "Admin-User", "admin_user"),
    RoleEntry("block_admin", "Region Admin", "block_admin"),
    RoleEntry("teacher", "Teacher", "teacher")
  ]

  const AdminCodes: seq<string> := ["admin", "super_admin", "admin_user", "block_admin", "100"]
  const EducatorCodes: seq<string> := ["teacher", "101"]

  /** `isAdminRole(roleCode)`: membership in the administrator list */
  function IsAdminRole(roleCode: string): (r: bool)
    ensures r <==> roleCode == "admin" || roleCode == "super_admin" || roleCode == "admin_user" ||
                   roleCode == "block_admin" || roleCode == "100"
  {
    roleCode in AdminCodes
  }

  /** `isEducatorRole(roleCode)`: membership in the educator list */
  function IsEducatorRole(roleCode: string): (r: bool)
    ensures r <==> roleCode == "teacher" || roleCode == "101"
  {
    roleCode in EducatorCodes
  }

  /** The two lists share no code, so no role is both an administrator and an educator. */
  lemma AdminAndEducatorDisjoint(roleCode: string)
    ensures !(IsAdminRole(roleCode) && IsEducatorRole(roleCode))
  {
  }

  /** Each listed role's value is classified as exactly one of the two, and its id is its value. */
  lemma EveryRoleClassified()
    ensures forall i :: 0 <= i < |AllRoles| ==>
              AllRoles[i].id == AllRoles[i].value &&
              (IsAdminRole(AllRoles[i].value) != IsEducatorRole(AllRoles[i].value))
    ensures forall i :: 0 <= i < |AllRoles| ==> (IsEducatorRole(AllRoles[i].value) <==> AllRoles[i].value == "teacher")
  {
  }
}
