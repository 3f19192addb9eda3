/**
 * The role-based access table: for each role code, the normalised routes it may not open, the
 * actions it may not perform and the menu entries hidden from it.  Menu entries are the route
 * names of the menu item constants.
 */
module Config {
  import opened Wrappers

  datatype RoleConfig = RoleConfig(
    restrictedRoutes: seq<string>,
    restrictedActions: map<string, bool>,
    restrictedMenuList: seq<string>)

  /** The `menuItems` constants the table refers to */
  const MenuOrganizations := "organizations"
  const MenuRegions := "regions"
  const MenuSchools := "schools"
  const MenuUsers := "users"
  const MenuQuestions := "questions"
  const MenuUploadHistory := "upload_history"

  const OrganizationRoutes: seq<string> := ["/organizations", "/organizations/details/:id"]

  const TeacherRoutes: seq<string> := [
    "/organizations", "/organizations/details/:id",
    "/regions", "/regions/:id/details",
    "/schools", "/schools/:id/details", "/schools/:id/edit", "/schools/add",
    "/users", "/users/details/:id", "/users/edit/:id", "/users/add",
    "/questions", "/questions/:id", "/questions/:id/edit", "/questions/add",
    "/uploadHistory"
  ]

  /** `roles` */
  const RoleTable: map<string, RoleConfig> := map[
    "super_admin" := RoleConfig([], map[], []),
    "admin" := RoleConfig([], map[], []),
    "admin_user" := RoleConfig(OrganizationRoutes, map[], [MenuOrganizations]),
    "block_admin" := RoleConfig(OrganizationRoutes, map[], [MenuOrganizations]),
    "teacher" := RoleConfig(TeacherRoutes, map[],
      [MenuOrganizations, MenuRegions, MenuSchools, MenuUsers, MenuQuestions, MenuUploadHistory])
  ]

  /** `roles[roleCode]`: a code outside the table (or inherited from the object prototype) has no entry */
  function RoleOf(roleCode: string): (r: Option<RoleConfig>)
    ensures r.Some? <==> roleCode in RoleTable
    ensures r.Some? ==> r.value == RoleTable[roleCode]
  {
    if roleCode in RoleTable then Some(RoleTable[roleCode]) else None
  }

  /** `roles[roleCode]?.restrictedRoutes?.includes(route)` */
  predicate RouteRestricted(roleCode: string, route: string) {
    RoleOf(roleCode).Some? && route in RoleOf(roleCode).value.restrictedRoutes
  }

  /** The two administrator roles are restricted from nothing. */
  lemma AdminsUnrestricted(route: string)
    ensures !RouteRestricted("super_admin", route) && !RouteRestricted("admin", route)
    ensures RoleTable["super_admin"].restrictedMenuList == [] && RoleTable["admin"].restrictedMenuList == []
  {
  }

  /** Administrator users and region administrators lose exactly the organisation pages and menu. */
  lemma OrganizationsOnly(route: string)
    ensures RouteRestricted("admin_user", route) <==> route == "/organizations" || route == "/organizations/details/:id"
    ensures RouteRestricted("block_admin", route) <==> route == "/organizations" || route == "/organizations/details/:id"
    ensures RoleTable["admin_user"].restrictedMenuList == [MenuOrganizations]
    ensures RoleTable["block_admin"].restrictedMenuList == [MenuOrganizations]
  {
  }

  /** A teacher is restricted from every route an administrator user or a region administrator is. */
  lemma TeacherRestrictedMore(route: string)
    ensures RouteRestricted("admin_user", route) ==> RouteRestricted("teacher", route)
    ensures RouteRestricted("block_admin", route) ==> RouteRestricted("teacher", route)
    ensures RouteRestricted("teacher", "/uploadHistory") && !RouteRestricted("admin_user", "/uploadHistory")
  {
  }

  /** No role has a restricted action, and a code outside the table restricts nothing. */
  lemma NoActionsRestricted(roleCode: string, route: string)
    ensures roleCode in RoleTable ==> RoleTable[roleCode].restrictedActions == map[]
    ensures roleCode !in RoleTable ==> !RouteRestricted(roleCode, route)
  {
  }

  /** No role is restricted from the login page "/". */
  lemma LoginPageNeverRestricted(roleCode: string)
    ensures !RouteRestricted(roleCode, "/")
  {
  }
}
