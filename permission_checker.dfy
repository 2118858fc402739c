/**
  PortalPermissionChecker: decides whether a player may use the portal a
  PlayerPortalEvent starts from. Permission nodes here are fixed strings, not
  read from the configuration.
 */
module PermissionChecker {

  import opened Wrappers
  import opened Host
  import opened Config

  /** hasBypassPermission: the fixed node "portals.bypass", not read from the configuration. */
  predicate HasBypassPermission(perms: set<string>): (r: bool)
    ensures r <==> "portals.bypass" in perms
  {
    "portals.bypass" in perms
  }

  /**
    getTargetEnvironment: where the portal block at `from` leads. A nether
    portal leads out of the Nether, an end gateway out of the End, an end
    portal always to the End; other blocks give null.
   */
  function GetTargetEnvironment(from: Location): (r: Option<Environment>)
    ensures r.None? <==> BlockType(from) !in {NetherPortalBlock, EndPortalBlock, EndGatewayBlock}
    ensures r.Some? ==> r.value != from.world || from.world == TheEnd
    ensures BlockType(from) == NetherPortalBlock ==> r == Some(if from.world == Nether then Normal else Nether)
    ensures BlockType(from) == EndPortalBlock ==> r == Some(TheEnd)
    ensures BlockType(from) == EndGatewayBlock ==> r == Some(if from.world == TheEnd then Normal else TheEnd)
  {
    match BlockType(from)
    case NetherPortalBlock => Some(if from.world == Nether then Normal else Nether)
    case EndPortalBlock => Some(TheEnd)
    case EndGatewayBlock => Some(if from.world == TheEnd then Normal else TheEnd)
    case _ => None
  }

  /**
    getPortalTypeEnvironment: the portal's kind for permission purposes,
    from the block alone. Never null, never CUSTOM.
   */
  function GetPortalTypeEnvironment(from: Location): (r: Environment)
    ensures r != Custom
    ensures r == Nether <==> BlockType(from) == NetherPortalBlock
    ensures r == TheEnd <==> BlockType(from) == EndPortalBlock || BlockType(from) == EndGatewayBlock
  {
    match BlockType(from)
    case NetherPortalBlock => Nether
    case EndPortalBlock => TheEnd
    case EndGatewayBlock => TheEnd
    case _ => Normal
  }

  /** getRequiredPermission: the node for NETHER, THE_END and NORMAL; null otherwise. */
  function GetRequiredPermission(environment: Option<Environment>): (r: Option<string>)
    ensures r.Some? <==> environment.Some? && environment.value != Custom
    ensures environment == Some(Nether) ==> r == Some("portals.nether")
    ensures environment == Some(TheEnd) ==> r == Some("portals.end")
    ensures environment == Some(Normal) ==> r == Some("portals.custom")
  {
    match environment
    case Some(Nether) => Some("portals.nether")
    case Some(TheEnd) => Some("portals.end")
    case Some(Normal) => Some("portals.custom")
    case _ => None
  }

  /** getMessageKey: total; anything but NETHER and THE_END gets the custom key. */
  function GetMessageKey(environment: Option<Environment>): (r: string)
    ensures environment != Some(Nether) && environment != Some(TheEnd) ==> r == "no_permission_custom"
    ensures environment == Some(Nether) ==> r == "no_permission_nether"
    ensures environment == Some(TheEnd) ==> r == "no_permission_end"
  {
    match environment
    case Some(Nether) => "no_permission_nether"
    case Some(TheEnd) => "no_permission_end"
    case _ => "no_permission_custom"
  }

  /** isPortalTypeBlocked: null is never blocked; NORMAL and CUSTOM share the custom flag. */
  function IsPortalTypeBlocked(cm: ConfigManager, environment: Option<Environment>): (r: bool)
    reads cm
    ensures environment.None? ==> !r
    ensures environment == Some(Normal) || environment == Some(Custom) ==> r == cm.IsCustomBlocked()
    ensures environment == Some(Nether) ==> r == cm.IsNetherBlocked()
    ensures environment == Some(TheEnd) ==> r == cm.IsEndBlocked()
  {
    match environment
    case None => false
    case Some(Nether) => cm.IsNetherBlocked()
    case Some(TheEnd) => cm.IsEndBlocked()
    case Some(_) => cm.IsCustomBlocked()
  }

  /**
    hasPortalPermission: bypass wins; otherwise a blocked portal type is a
    hard deny, and an unblocked one still needs its kind permission.
   */
  function HasPortalPermission(cm: ConfigManager, perms: set<string>, from: Location): (r: bool)
    reads cm
    ensures HasBypassPermission(perms) ==> r
    ensures !HasBypassPermission(perms) && IsPortalTypeBlocked(cm, Some(GetPortalTypeEnvironment(from))) ==> !r
    ensures !HasBypassPermission(perms) && !IsPortalTypeBlocked(cm, Some(GetPortalTypeEnvironment(from))) ==>
      (r <==> GetRequiredPermission(Some(GetPortalTypeEnvironment(from))).value in perms)
  {
    if HasBypassPermission(perms) then true
    else
      var portalTypeEnvironment := Some(GetPortalTypeEnvironment(from));
      if IsPortalTypeBlocked(cm, portalTypeEnvironment) then false
      else
        var requiredPermission := GetRequiredPermission(portalTypeEnvironment);
        requiredPermission.None? || requiredPermission.value in perms
  }

  /**
    The permission-purpose kind ignores the world; the raw target does not.
    A nether portal always needs the nether node, whichever way it leads.
   */
  lemma {:induction false} PortalTypeIgnoresWorld(from: Location, world: Environment)
    ensures GetPortalTypeEnvironment(from) == GetPortalTypeEnvironment(Location(world, from.blockAt))
    ensures BlockType(from) == NetherPortalBlock ==>
      && GetTargetEnvironment(Location(Nether, from.blockAt)) == Some(Normal)
      && GetTargetEnvironment(Location(Normal, from.blockAt)) == Some(Nether)
      && GetRequiredPermission(Some(GetPortalTypeEnvironment(from))) == Some("portals.nether")
  {
  }

  /** Whenever the raw target is known, it agrees with the permission kind except for the way back. */
  lemma TargetAgreesWithPortalType(from: Location)
    requires GetTargetEnvironment(from).Some?
    ensures GetTargetEnvironment(from).value == GetPortalTypeEnvironment(from)
      || GetTargetEnvironment(from) == Some(Normal)
  {
  }
}
