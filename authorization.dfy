/**
  The authorisation decisions of the service-instance endpoints: whether a
  caller, described by the claims of its bearer token, may change an entity
  owned by a given organisation, and the plain ownership check.
 */
module Authorization {
  import opened Options

  const SiteAdmin: string := "ROLE_SITE_ADMIN"
  const OrgAdmin: string := "ROLE_ORG_ADMIN"
  const EntityAdmin: string := "ROLE_ENTITY_ADMIN"
  const ServiceAdmin: string := "ROLE_SERVICE_ADMIN"

  /**
    What the token decoder made of a bearer token, one field per decoding
    call; None means that call threw and the caller falls back to "" or to an
    empty list.
   */
  datatype TokenClaims = TokenClaims(organizationId: Option<string>, roles: Option<seq<string>>, actingOnBehalfOf: Option<seq<string>>)

  function OrDefault<T>(o: Option<T>, default: T): (r: T)
    ensures o.Some? ==> r == o.value
    ensures o.None? ==> r == default
  {
    match o
    case None => default
    case Some(v) => v
  }

  /** One of the four roles that may change anything at all. */
  predicate HasAdminRole(roles: seq<string>) {
    SiteAdmin in roles || OrgAdmin in roles || EntityAdmin in roles || ServiceAdmin in roles
  }

  /** Whether the caller may change an entity owned by `entityOrganizationId` (None for a null owner). */
  function CheckRolePermissions(entityOrganizationId: Option<string>, claims: TokenClaims): (allowed: bool)
    ensures claims.roles.None? ==> !allowed
    ensures allowed <==>
      var roles := OrDefault(claims.roles, []);
      && HasAdminRole(roles)
      && (|| entityOrganizationId.None? || entityOrganizationId.value == ""
          || entityOrganizationId.value == OrDefault(claims.organizationId, "")
          || entityOrganizationId.value in OrDefault(claims.actingOnBehalfOf, [])
          || ServiceAdmin in roles)
  {
    var organizationId := OrDefault(claims.organizationId, "");
    var roles := OrDefault(claims.roles, []);
    var aobs := OrDefault(claims.actingOnBehalfOf, []);
    if !HasAdminRole(roles) then false
    else if entityOrganizationId.Some? && |entityOrganizationId.value| > 0 && organizationId != entityOrganizationId.value then
      if entityOrganizationId.value !in aobs then
        if ServiceAdmin in roles then true else false
      else true
    else true
  }

  /** Whether an instance owned by `instanceOrganizationId` may be touched by organisation `organizationId`; None stands for null. */
  function CheckOrganizationId(instanceOrganizationId: Option<string>, organizationId: Option<string>): (sameOwner: bool)
    ensures !sameOwner <==>
      && instanceOrganizationId.Some? && organizationId.Some?
      && instanceOrganizationId.value != "" && organizationId.value != instanceOrganizationId.value
  {
    if instanceOrganizationId.Some? && organizationId.Some? && |instanceOrganizationId.value| > 0 && organizationId.value != instanceOrganizationId.value then
      false
    else
      true
  }

  /** A caller holding an admin role may change whatever passes the ownership check for its own organisation. */
  lemma OwnerAdminIsAllowed(entityOrganizationId: Option<string>, claims: TokenClaims)
    requires claims.roles.Some? && HasAdminRole(claims.roles.value)
    requires CheckOrganizationId(entityOrganizationId, Some(OrDefault(claims.organizationId, "")))
    ensures CheckRolePermissions(entityOrganizationId, claims)
  {
  }

  /**
    Without delegation and without the service-admin role, the decision is
    exactly "holds an admin role and passes the ownership check".
   */
  lemma NoDelegationMeansOwnership(entityOrganizationId: Option<string>, claims: TokenClaims)
    requires ServiceAdmin !in OrDefault(claims.roles, [])
    requires entityOrganizationId.None? || entityOrganizationId.value !in OrDefault(claims.actingOnBehalfOf, [])
    ensures CheckRolePermissions(entityOrganizationId, claims) <==>
      HasAdminRole(OrDefault(claims.roles, [])) && CheckOrganizationId(entityOrganizationId, Some(OrDefault(claims.organizationId, "")))
  {
  }

  /** Granting more roles or more delegations never takes a permission away. */
  lemma MoreClaimsNeverRevoke(entityOrganizationId: Option<string>, claims: TokenClaims, moreRoles: seq<string>, moreAobs: seq<string>)
    requires CheckRolePermissions(entityOrganizationId, claims)
    ensures CheckRolePermissions(entityOrganizationId,
      TokenClaims(claims.organizationId, Some(OrDefault(claims.roles, []) + moreRoles), Some(OrDefault(claims.actingOnBehalfOf, []) + moreAobs)))
  {
    var roles := OrDefault(claims.roles, []);
    var aobs := OrDefault(claims.actingOnBehalfOf, []);
    assert forall x :: x in roles ==> x in roles + moreRoles;
    assert forall x :: x in aobs ==> x in aobs + moreAobs;
  }

  /** A token whose organisation cannot be decoded is treated as belonging to no organisation. */
  lemma UndecodedOrganizationIsEmpty(entityOrganizationId: Option<string>, roles: Option<seq<string>>, aobs: Option<seq<string>>)
    ensures CheckRolePermissions(entityOrganizationId, TokenClaims(None, roles, aobs))
        == CheckRolePermissions(entityOrganizationId, TokenClaims(Some(""), roles, aobs))
  {
  }

  /** Sample decisions: owner admin, no qualifying role, service admin, delegation, unowned entity, foreign entity admin. */
  lemma Examples()
    ensures CheckRolePermissions(Some("orgA"), TokenClaims(Some("orgA"), Some([OrgAdmin]), Some([])))
    ensures !CheckRolePermissions(Some("orgA"), TokenClaims(Some("orgA"), Some([]), None))
    ensures CheckRolePermissions(Some("orgA"), TokenClaims(Some("orgB"), Some([ServiceAdmin]), Some([])))
    ensures CheckRolePermissions(Some("orgA"), TokenClaims(Some("orgB"), Some([OrgAdmin]), Some(["orgA"])))
    ensures CheckRolePermissions(Some(""), TokenClaims(Some("orgB"), Some([OrgAdmin]), None))
    ensures !CheckRolePermissions(Some("orgA"), TokenClaims(Some("orgB"), Some([EntityAdmin]), Some(["orgC"])))
  {
    assert [OrgAdmin][0] == OrgAdmin;
    assert [ServiceAdmin][0] == ServiceAdmin;
    assert ["orgA"][0] == "orgA";
    assert "orgA" != "orgB" by { assert "orgA"[3] != "orgB"[3]; }
    assert "orgA" != "orgC" by { assert "orgA"[3] != "orgC"[3]; }
    assert EntityAdmin != ServiceAdmin by { assert EntityAdmin[5] != ServiceAdmin[5]; }
    assert [EntityAdmin][0] == EntityAdmin;
  }
}
