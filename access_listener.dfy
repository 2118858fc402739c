/**
  PortalAccessListener: the original PlayerPortalEvent handler. It resolves
  the portal's target world itself (the block, then a 3x3x3 neighbourhood),
  reads permission nodes from the configuration, lets any portal type that is
  not blocked through, and puts a denied player on cooldown.
 */
module AccessListener {

  import opened Wrappers
  import opened Host
  import opened Expiry
  import opened Config
  import opened PortalTypes
  import opened Cooldowns
  import PermissionChecker
  import Text

  /**
    The classification one block gets: a nether portal leads to the Nether
    from the overworld and to the overworld from anywhere else; an end portal
    or an end gateway leads to the End; any other block says nothing.
   */
  function PortalEnvironment(m: Material, world: Environment): (r: Option<Environment>)
    ensures r.None? <==> m !in {NetherPortalBlock, EndPortalBlock, EndGatewayBlock}
    ensures r != Some(Custom)
    ensures r == Some(Nether) <==> m == NetherPortalBlock && world == Normal
    ensures m == NetherPortalBlock && world != Normal ==> r == Some(Normal)
    ensures m == EndPortalBlock || m == EndGatewayBlock ==> r == Some(TheEnd)
  {
    match m
    case NetherPortalBlock => Some(if world == Normal then Nether else Normal)
    case EndPortalBlock => Some(TheEnd)
    case EndGatewayBlock => Some(TheEnd)
    case _ => None
  }

  /** One of the three portal materials this listener recognises. */
  predicate IsPortalMaterial(m: Material) {
    m == NetherPortalBlock || m == EndPortalBlock || m == EndGatewayBlock
  }

  /** (i, j, k) lies in the 3x3x3 neighbourhood. */
  predicate InWindow(i: int, j: int, k: int) {
    -1 <= i <= 1 && -1 <= j <= 1 && -1 <= k <= 1
  }

  /** (i, j, k) comes at or after (x, y, z) in scan order: x, then y, then z, ascending. */
  predicate NotBefore(i: int, j: int, k: int, x: int, y: int, z: int) {
    i > x || (i == x && (j > y || (j == y && k >= z)))
  }

  /**
    The neighbourhood scan from position (x, y, z) on: the first block that
    classifies. A coordinate of 2 means "past the end of this row".
   */
  function ScanFrom(from: Location, x: int, y: int, z: int): Option<Environment>
    requires -1 <= x <= 2 && -1 <= y <= 2 && -1 <= z <= 2
    decreases 2 - x, 2 - y, 2 - z
  {
    if x == 2 then None
    else if y == 2 then ScanFrom(from, x + 1, -1, -1)
    else if z == 2 then ScanFrom(from, x, y + 1, -1)
    else
      var found := PortalEnvironment(from.blockAt(x, y, z), from.world);
      if found.Some? then found else ScanFrom(from, x, y, z + 1)
  }

  /** getTargetEnvironment, as a value: the block itself first, then the neighbourhood. */
  function TargetEnvironment(from: Location): Option<Environment> {
    var direct := PortalEnvironment(BlockType(from), from.world);
    if direct.Some? then direct else ScanFrom(from, -1, -1, -1)
  }

  /** The scan hits (i, j, k): in the window, not before the start, classifying, and nothing between the start and it does. */
  ghost predicate FirstHit(from: Location, x: int, y: int, z: int, i: int, j: int, k: int) {
    && InWindow(i, j, k) && NotBefore(i, j, k, x, y, z)
    && IsPortalMaterial(from.blockAt(i, j, k))
    && forall a, b, c :: InWindow(a, b, c) && NotBefore(a, b, c, x, y, z) && !NotBefore(a, b, c, i, j, k) ==>
         !IsPortalMaterial(from.blockAt(a, b, c))
  }

  /** The scan from (x, y, z) finds nothing exactly when no block from there on is a portal block. */
  lemma {:induction false} ScanFromNone(from: Location, x: int, y: int, z: int)
    requires -1 <= x <= 2 && -1 <= y <= 2 && -1 <= z <= 2
    ensures ScanFrom(from, x, y, z).None? <==>
      forall i, j, k :: InWindow(i, j, k) && NotBefore(i, j, k, x, y, z) ==> !IsPortalMaterial(from.blockAt(i, j, k))
    decreases 2 - x, 2 - y, 2 - z
  {
    if x == 2 {
    } else if y == 2 {
      ScanFromNone(from, x + 1, -1, -1);
    } else if z == 2 {
      ScanFromNone(from, x, y + 1, -1);
    } else {
      ScanFromNone(from, x, y, z + 1);
    }
  }

  /** When the scan from (x, y, z) finds something, it is the classification of the first portal block from there on. */
  lemma {:induction false} ScanFromFirst(from: Location, x: int, y: int, z: int)
    requires -1 <= x <= 2 && -1 <= y <= 2 && -1 <= z <= 2
    ensures ScanFrom(from, x, y, z).Some? ==>
      exists i, j, k ::
        FirstHit(from, x, y, z, i, j, k) && ScanFrom(from, x, y, z) == PortalEnvironment(from.blockAt(i, j, k), from.world)
    decreases 2 - x, 2 - y, 2 - z
  {
    if x == 2 {
    } else if y == 2 {
      ScanFromFirst(from, x + 1, -1, -1);
    } else if z == 2 {
      ScanFromFirst(from, x, y + 1, -1);
    } else {
      ScanFromFirst(from, x, y, z + 1);
      if IsPortalMaterial(from.blockAt(x, y, z)) {
        assert FirstHit(from, x, y, z, x, y, z);
      } else if ScanFrom(from, x, y, z + 1).Some? {
        var i, j, k :| FirstHit(from, x, y, z + 1, i, j, k)
          && ScanFrom(from, x, y, z + 1) == PortalEnvironment(from.blockAt(i, j, k), from.world);
        FirstHitSkips(from, x, y, z, i, j, k);
      }
    }
  }

  /** A first hit after a block that is no portal block is also the first hit counting from that block. */
  lemma FirstHitSkips(from: Location, x: int, y: int, z: int, i: int, j: int, k: int)
    requires InWindow(x, y, z) && !IsPortalMaterial(from.blockAt(x, y, z))
    requires FirstHit(from, x, y, z + 1, i, j, k)
    ensures FirstHit(from, x, y, z, i, j, k)
  {
  }

  /** The target is null exactly when no block of the 3x3x3 neighbourhood (the block itself included) is a portal block. */
  lemma TargetEnvironmentNone(from: Location)
    ensures TargetEnvironment(from).None? <==>
      forall x, y, z :: InWindow(x, y, z) ==> !IsPortalMaterial(from.blockAt(x, y, z))
  {
    ScanFromNone(from, -1, -1, -1);
  }

  /**
    When the block itself is no portal, the target is the classification of
    the first portal block in scan order.
   */
  lemma TargetEnvironmentFirstHit(from: Location)
    requires !IsPortalMaterial(BlockType(from)) && TargetEnvironment(from).Some?
    ensures exists i, j, k ::
      FirstHit(from, -1, -1, -1, i, j, k) && TargetEnvironment(from) == PortalEnvironment(from.blockAt(i, j, k), from.world)
  {
    ScanFromFirst(from, -1, -1, -1);
  }

  /**
    getTargetEnvironment: classify the block at `from`; failing that, walk the
    neighbourhood x, then y, then z, ascending, and return the first hit.
   */
  method GetTargetEnvironment(from: Location) returns (target: Option<Environment>)
    ensures target == TargetEnvironment(from)
  {
    var portalMaterial := BlockType(from);
    target := PortalEnvironment(portalMaterial, from.world);
    if target.Some? {
      return;
    }
    var x := -1;
    while x <= 1
      invariant -1 <= x <= 2
      invariant ScanFrom(from, -1, -1, -1) == ScanFrom(from, x, -1, -1)
    {
      var y := -1;
      while y <= 1
        invariant -1 <= y <= 2
        invariant ScanFrom(from, -1, -1, -1) == ScanFrom(from, x, y, -1)
      {
        var z := -1;
        while z <= 1
          invariant -1 <= z <= 2
          invariant ScanFrom(from, -1, -1, -1) == ScanFrom(from, x, y, z)
        {
          var material := from.blockAt(x, y, z);
          target := PortalEnvironment(material, from.world);
          if target.Some? {
            return;
          }
          z := z + 1;
        }
        y := y + 1;
      }
      x := x + 1;
    }
    return None;
  }

  /** getRequiredPermission: the configured node for the environment's portal type; null for a null environment. */
  function GetRequiredPermission(cm: ConfigManager, environment: Option<Environment>): (r: Option<string>)
    reads cm
    ensures r.None? <==> environment.None?
    ensures environment == Some(Normal) || environment == Some(Custom) ==> r == Some(cm.GetPermission("custom"))
    ensures environment == Some(Nether) ==> r == Some(cm.GetPermission("nether"))
    ensures environment == Some(TheEnd) ==> r == Some(cm.GetPermission("end"))
  {
    match FromEnvironment(environment)
    case None => None
    case Some(portalType) => Some(cm.GetPermission(portalType.PermissionKey()))
  }

  /** getMessageKey: the portal type's key, "no_permission_custom" for a null environment. */
  function GetMessageKey(environment: Option<Environment>): (r: string)
    ensures r == "no_permission_custom" <==> environment != Some(Nether) && environment != Some(TheEnd)
    ensures environment == Some(Nether) ==> r == "no_permission_nether"
    ensures environment == Some(TheEnd) ==> r == "no_permission_end"
  {
    match FromEnvironment(environment)
    case None => "no_permission_custom"
    case Some(portalType) => portalType.MessageKey()
  }

  /** isPortalTypeBlocked: a null environment and anything but NETHER or THE_END use the custom flag. */
  function IsPortalTypeBlocked(cm: ConfigManager, environment: Option<Environment>): (r: bool)
    reads cm
    ensures environment != Some(Nether) && environment != Some(TheEnd) ==> r == cm.IsCustomBlocked()
    ensures environment == Some(Nether) ==> r == cm.IsNetherBlocked()
    ensures environment == Some(TheEnd) ==> r == cm.IsEndBlocked()
  {
    if environment.None? then cm.IsCustomBlocked()
    else
      match environment.value
      case Nether => cm.IsNetherBlocked()
      case TheEnd => cm.IsEndBlocked()
      case _ => cm.IsCustomBlocked()
  }

  /** The node a player must hold once the target is known: the required permission, or the custom node for a null target. */
  function RequiredNode(cm: ConfigManager, target: Option<Environment>): string
    reads cm
  {
    match GetRequiredPermission(cm, target)
    case Some(node) => node
    case None => cm.GetPermission("custom")
  }

  /** The portal is gated: a null target needs custom portals blocked, and the target's type must be blocked. */
  predicate IsGated(cm: ConfigManager, target: Option<Environment>)
    reads cm
  {
    (GetRequiredPermission(cm, target).Some? || cm.IsCustomBlocked()) && IsPortalTypeBlocked(cm, target)
  }

  /**
    A null target is gated by the custom flag and needs the custom node; a
    portal type that is not blocked is never gated, whatever the player holds.
   */
  lemma GateOfTarget(cm: ConfigManager, target: Option<Environment>)
    ensures target.None? ==>
      (IsGated(cm, target) <==> cm.IsCustomBlocked()) && RequiredNode(cm, target) == cm.GetPermission("custom")
    ensures IsGated(cm, target) <==> IsPortalTypeBlocked(cm, target)
  {
  }

  /**
    A nether portal used from any world but the overworld resolves to NORMAL,
    so it needs the custom node, is gated by the custom flag and is answered
    with the custom message, not the nether ones.
   */
  lemma NetherPortalOutsideOverworld(cm: ConfigManager, from: Location)
    requires BlockType(from) == NetherPortalBlock && from.world != Normal
    ensures TargetEnvironment(from) == Some(Normal)
    ensures RequiredNode(cm, TargetEnvironment(from)) == cm.GetPermission("custom")
    ensures IsGated(cm, TargetEnvironment(from)) <==> cm.IsCustomBlocked()
    ensures GetMessageKey(TargetEnvironment(from)) == "no_permission_custom"
  {
  }

  /**
    On the block itself, this classifier and the permission checker's agree
    except in three cases: an end gateway in the End (the checker sends it
    home), and a nether portal in the End or a custom world (the checker
    sends it to the Nether).
   */
  lemma ClassifiersDiffer(from: Location)
    ensures PortalEnvironment(BlockType(from), from.world) != PermissionChecker.GetTargetEnvironment(from) <==>
      || (BlockType(from) == EndGatewayBlock && from.world == TheEnd)
      || (BlockType(from) == NetherPortalBlock && (from.world == TheEnd || from.world == Custom))
  {
  }

  /**
    The two permission policies part where a portal type is not blocked: the
    checker still asks for the kind node, this listener lets the player through.
   */
  lemma PoliciesDifferWhenUnblocked(cm: ConfigManager, perms: set<string>, from: Location)
    requires BlockType(from) == NetherPortalBlock && from.world == Normal
    requires !cm.IsNetherBlocked() && "portals.bypass" !in perms && "portals.nether" !in perms
    ensures !IsGated(cm, TargetEnvironment(from))
    ensures !PermissionChecker.HasPortalPermission(cm, perms, from)
  {
  }

  /** convertLegacySoundFormat: lower case, every '_' turned into '.'. */
  function ConvertLegacySoundFormat(legacySound: string): string {
    Text.Replace(Text.Lower(legacySound), "_", ".")
  }

  /** The converted name keeps its length, has no '_' and no upper-case ASCII letter, and maps character by character. */
  lemma ConvertLegacySoundFormatShape(legacySound: string)
    ensures |ConvertLegacySoundFormat(legacySound)| == |legacySound|
    ensures forall i :: 0 <= i < |legacySound| ==>
      ConvertLegacySoundFormat(legacySound)[i] == if legacySound[i] == '_' then '.' else Text.LowerChar(legacySound[i])
    ensures forall i :: 0 <= i < |legacySound| ==>
      ConvertLegacySoundFormat(legacySound)[i] != '_' && !('A' <= ConvertLegacySoundFormat(legacySound)[i] <= 'Z')
  {
    Text.ReplaceChar(Text.Lower(legacySound), '_', '.');
  }

  class PortalAccessListener {
    const configManager: ConfigManager
    const cooldownManager: CooldownManager

    constructor (configManager: ConfigManager, cooldownManager: CooldownManager)
      ensures this.configManager == configManager && this.cooldownManager == cooldownManager
    {
      this.configManager := configManager;
      this.cooldownManager := cooldownManager;
    }

    /**
      onPlayerPortal. Disabled, or a bypass holder: nothing. A live cooldown:
      cancel, with the remaining-time message if cooldown messages are on.
      Otherwise a gated portal whose node the player lacks is denied: cancel,
      the portal's message, knockback (if enabled) and a new cooldown.
      Everything else passes untouched.
     */
    method OnPlayerPortal(player: Uuid, perms: set<string>, from: Location, now: int) returns (effects: PortalEffects)
      modifies cooldownManager`cooldowns
      ensures !configManager.IsEnabled() || configManager.GetPermission("bypass") in perms ==>
        effects == PortalEffects(false, None, false) && cooldownManager.cooldowns == old(cooldownManager.cooldowns)
      ensures (configManager.IsEnabled() && configManager.GetPermission("bypass") !in perms
        && cooldownManager.configManager.IsCooldownEnabled() && IsLive(old(cooldownManager.cooldowns), player, now)) ==>
          && effects.cancelled && !effects.knockback
          && effects.message ==
            (if configManager.IsCooldownMessageEnabled()
             then Some(configManager.GetMessageWith("cooldown_active", "time",
                    Text.IntToString(CeilSeconds(old(cooldownManager.cooldowns)[player] - now))))
             else None)
          && cooldownManager.cooldowns == old(cooldownManager.cooldowns)
      ensures (configManager.IsEnabled() && configManager.GetPermission("bypass") !in perms
        && !(cooldownManager.configManager.IsCooldownEnabled() && IsLive(old(cooldownManager.cooldowns), player, now))) ==>
          var target := TargetEnvironment(from);
          var denied := IsGated(configManager, target) && RequiredNode(configManager, target) !in perms;
          var cooldownOn := cooldownManager.configManager.IsCooldownEnabled();
          && effects ==
            (if denied then PortalEffects(true, Some(configManager.GetMessage(GetMessageKey(target))), configManager.IsKnockbackEnabled())
             else PortalEffects(false, None, false))
          && cooldownManager.cooldowns ==
            (if !cooldownOn then old(cooldownManager.cooldowns)
             else if denied then AfterRead(old(cooldownManager.cooldowns), player, now)[player := now + cooldownManager.configManager.GetCooldownTime() * 1000]
             else AfterRead(old(cooldownManager.cooldowns), player, now))
    {
      effects := PortalEffects(false, None, false);
      if !configManager.IsEnabled() {
        return;
      }
      if configManager.GetPermission("bypass") in perms {
        return;
      }
      var onCooldown := cooldownManager.HasCooldown(player, now);
      if onCooldown {
        var message := None;
        if configManager.IsCooldownMessageEnabled() {
          var remainingTime := cooldownManager.GetRemainingCooldown(player, now);
          message := Some(configManager.GetMessageWith("cooldown_active", "time", Text.IntToString(remainingTime)));
        }
        effects := PortalEffects(true, message, false);
        return;
      }
      var targetEnvironment := GetTargetEnvironment(from);
      var requiredPermission := GetRequiredPermission(configManager, targetEnvironment);
      var messageKey := GetMessageKey(targetEnvironment);
      if requiredPermission.None? {
        if !configManager.IsCustomBlocked() {
          return;
        }
        requiredPermission := Some(configManager.GetPermission("custom"));
        messageKey := "no_permission_custom";
      }
      if !IsPortalTypeBlocked(configManager, targetEnvironment) {
        return;
      }
      if requiredPermission.value !in perms {
        effects := PortalEffects(true, Some(configManager.GetMessage(messageKey)), configManager.IsKnockbackEnabled());
        cooldownManager.SetCooldown(player, now);
      }
    }
  }
}
