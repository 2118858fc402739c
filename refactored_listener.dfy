/**
  RefactoredPortalAccessListener: the PlayerPortalEvent handler built on the
  services. It checks the cooldown first, then the permission checker's
  verdict, and puts a player who passes on cooldown.
 */
module RefactoredListener {

  import opened Wrappers
  import opened Host
  import opened Expiry
  import opened Config
  import opened Cooldowns
  import PermissionChecker
  import Messages

  /** What the handler does to the event and the player: cancel, the message sent (if any), and whether a knockback pushes the player. */
  datatype Outcome = Outcome(cancelled: bool, message: Option<Messages.ChatMessage>, knockback: bool)

  /** The message key handlePermissions uses: that of the portal-type classification, not of the target. */
  function DenialKey(from: Location): (r: string)
    ensures BlockType(from) == NetherPortalBlock ==> r == "no_permission_nether"
    ensures BlockType(from) in {EndPortalBlock, EndGatewayBlock} ==> r == "no_permission_end"
    ensures BlockType(from) !in {NetherPortalBlock, EndPortalBlock, EndGatewayBlock} ==> r == "no_permission_custom"
  {
    PermissionChecker.GetMessageKey(Some(PermissionChecker.GetPortalTypeEnvironment(from)))
  }

  /** handlePermissions: a player without portal permission gets the denial message for the portal's type, and is cancelled. */
  function HandlePermissions(cm: ConfigManager, perms: set<string>, from: Location): (r: Option<Outcome>)
    reads cm
    ensures r.None? <==> PermissionChecker.HasPortalPermission(cm, perms, from)
    ensures r.Some? ==>
      r.value.cancelled && r.value.message == Some(Messages.SendPermissionDeniedMessage(cm, DenialKey(from)))
      && r.value.knockback == cm.IsKnockbackEnabled()
  {
    if PermissionChecker.HasPortalPermission(cm, perms, from) then None
    else Some(Outcome(true, Some(Messages.SendPermissionDeniedMessage(cm, DenialKey(from))), cm.IsKnockbackEnabled()))
  }

  /** A nether portal is denied with the nether message even from the Nether, where it leads to the overworld. */
  lemma DenialKeyIgnoresTarget(cm: ConfigManager, perms: set<string>, from: Location)
    requires BlockType(from) == NetherPortalBlock && from.world == Nether
    requires !PermissionChecker.HasPortalPermission(cm, perms, from)
    ensures PermissionChecker.GetTargetEnvironment(from) == Some(Normal)
    ensures HandlePermissions(cm, perms, from).value.message ==
      Some(Messages.SendPermissionDeniedMessage(cm, "no_permission_nether"))
  {
  }

  /** The handler's outcome together with the cooldown store it leaves behind. */
  datatype Decision = Decision(outcome: Outcome, cooldowns: map<Uuid, int>)

  /**
    The whole handler as a value. `cm` is the listener's configuration and
    `store` the cooldown manager's; `cooldowns` is the store before the event.
   */
  function Decide(cm: ConfigManager, store: ConfigManager, cooldowns: map<Uuid, int>, player: Uuid,
                  perms: set<string>, from: Location, now: int): Decision
    reads cm, store
  {
    var cooldownsOn := cm.IsCooldownEnabled() && store.IsCooldownEnabled();
    if !cm.IsEnabled() then Decision(Outcome(false, None, false), cooldowns)
    else if cooldownsOn && IsLive(cooldowns, player, now) then
      Decision(Outcome(true, Messages.SendCooldownMessage(cm, CeilSeconds(cooldowns[player] - now)), cm.IsKnockbackEnabled()), cooldowns)
    else
      var read := if cooldownsOn then AfterRead(cooldowns, player, now) else cooldowns;
      var denial := HandlePermissions(cm, perms, from);
      if denial.Some? then Decision(denial.value, read)
      else Decision(Outcome(false, None, false), if cooldownsOn then read[player := now + store.GetCooldownTime() * 1000] else read)
  }

  /** The event is cancelled exactly when the handler is enabled and the cooldown branch or the permission branch fires. */
  lemma DecideCancelsExactly(cm: ConfigManager, store: ConfigManager, cooldowns: map<Uuid, int>, player: Uuid,
                             perms: set<string>, from: Location, now: int)
    ensures Decide(cm, store, cooldowns, player, perms, from, now).outcome.cancelled <==>
      cm.IsEnabled() &&
      ((cm.IsCooldownEnabled() && store.IsCooldownEnabled() && IsLive(cooldowns, player, now))
       || !PermissionChecker.HasPortalPermission(cm, perms, from))
  {
  }

  /** A cancelled event never starts a cooldown: every entry left was already there with the same end. */
  lemma CancelledStartsNoCooldown(cm: ConfigManager, store: ConfigManager, cooldowns: map<Uuid, int>, player: Uuid,
                                  perms: set<string>, from: Location, now: int)
    requires Decide(cm, store, cooldowns, player, perms, from, now).outcome.cancelled
    ensures var after := Decide(cm, store, cooldowns, player, perms, from, now).cooldowns;
      forall k :: k in after ==> k in cooldowns && after[k] == cooldowns[k]
  {
  }

  /**
    Bypass is only consulted by the permission checker, so a bypass holder
    with a live cooldown is still stopped, with the remaining-time message.
   */
  lemma BypassStillWaitsForCooldown(cm: ConfigManager, store: ConfigManager, cooldowns: map<Uuid, int>, player: Uuid,
                                    perms: set<string>, from: Location, now: int)
    requires cm.IsEnabled() && cm.IsCooldownEnabled() && store.IsCooldownEnabled() && IsLive(cooldowns, player, now)
    requires PermissionChecker.HasBypassPermission(perms)
    ensures Decide(cm, store, cooldowns, player, perms, from, now).outcome.cancelled
    ensures Decide(cm, store, cooldowns, player, perms, from, now).outcome.message ==
      Messages.SendCooldownMessage(cm, CeilSeconds(cooldowns[player] - now))
  {
  }

  /**
    With cooldowns on, a player who passes is on cooldown from now until the
    configured number of seconds later, and no longer.
   */
  lemma PassingStartsCooldown(cm: ConfigManager, store: ConfigManager, cooldowns: map<Uuid, int>, player: Uuid,
                              perms: set<string>, from: Location, now: int, later: int)
    requires cm.IsEnabled() && cm.IsCooldownEnabled() && store.IsCooldownEnabled() && store.GetCooldownTime() > 0
    requires !Decide(cm, store, cooldowns, player, perms, from, now).outcome.cancelled
    requires now <= later
    ensures var after := Decide(cm, store, cooldowns, player, perms, from, now).cooldowns;
      IsLive(after, player, later) <==> later < now + store.GetCooldownTime() * 1000
  {
  }

  /** With cooldowns off, the store is never touched and only the permission checker can cancel. */
  lemma CooldownsOffOnlyPermissions(cm: ConfigManager, store: ConfigManager, cooldowns: map<Uuid, int>, player: Uuid,
                                    perms: set<string>, from: Location, now: int)
    requires !cm.IsCooldownEnabled() || !store.IsCooldownEnabled()
    ensures Decide(cm, store, cooldowns, player, perms, from, now).cooldowns == cooldowns
    ensures Decide(cm, store, cooldowns, player, perms, from, now).outcome.cancelled <==>
      cm.IsEnabled() && !PermissionChecker.HasPortalPermission(cm, perms, from)
  {
  }

  class RefactoredPortalAccessListener {
    const configManager: ConfigManager
    const cooldownManager: CooldownManager

    constructor (configManager: ConfigManager, cooldownManager: CooldownManager)
      ensures this.configManager == configManager && this.cooldownManager == cooldownManager
    {
      this.configManager := configManager;
      this.cooldownManager := cooldownManager;
    }

    /**
      handleCooldown: with cooldowns on and a live cooldown, send the
      remaining time, push the player back and cancel.
     */
    method HandleCooldown(player: Uuid, now: int) returns (r: Option<Outcome>)
      modifies cooldownManager`cooldowns
      ensures r.Some? <==>
        configManager.IsCooldownEnabled() && cooldownManager.configManager.IsCooldownEnabled()
        && IsLive(old(cooldownManager.cooldowns), player, now)
      ensures r.Some? ==>
        && r.value == Outcome(true, Messages.SendCooldownMessage(configManager, CeilSeconds(old(cooldownManager.cooldowns)[player] - now)),
             configManager.IsKnockbackEnabled())
        && cooldownManager.cooldowns == old(cooldownManager.cooldowns)
      ensures r.None? ==>
        cooldownManager.cooldowns ==
          if configManager.IsCooldownEnabled() && cooldownManager.configManager.IsCooldownEnabled()
          then AfterRead(old(cooldownManager.cooldowns), player, now)
          else old(cooldownManager.cooldowns)
    {
      if !configManager.IsCooldownEnabled() {
        return None;
      }
      var active := cooldownManager.HasCooldown(player, now);
      if active {
        var remainingTime := cooldownManager.GetRemainingCooldown(player, now);
        var message := Messages.SendCooldownMessage(configManager, remainingTime);
        assert remainingTime == CeilSeconds(old(cooldownManager.cooldowns)[player] - now);
        return Some(Outcome(true, message, configManager.IsKnockbackEnabled()));
      }
      return None;
    }

    /** applyCooldown: with cooldowns on, the player's cooldown starts now. */
    method ApplyCooldown(player: Uuid, now: int)
      modifies cooldownManager`cooldowns
      ensures cooldownManager.cooldowns ==
        if configManager.IsCooldownEnabled() && cooldownManager.configManager.IsCooldownEnabled()
        then old(cooldownManager.cooldowns)[player := now + cooldownManager.configManager.GetCooldownTime() * 1000]
        else old(cooldownManager.cooldowns)
    {
      if configManager.IsCooldownEnabled() {
        cooldownManager.SetCooldown(player, now);
      }
    }

    /**
      onPlayerPortal. Disabled: nothing. Otherwise the cooldown branch, then
      the permission branch; the event is cancelled exactly when one of them
      fires, and only an event that is not cancelled starts a new cooldown.
      Bypass is consulted by the permission checker alone, so a bypass holder
      on cooldown is still stopped.
     */
    method OnPlayerPortal(player: Uuid, perms: set<string>, from: Location, now: int) returns (out: Outcome)
      modifies cooldownManager`cooldowns
      ensures Decision(out, cooldownManager.cooldowns) ==
        Decide(configManager, cooldownManager.configManager, old(cooldownManager.cooldowns), player, perms, from, now)
    {
      if !configManager.IsEnabled() {
        return Outcome(false, None, false);
      }
      var cooldownOutcome := HandleCooldown(player, now);
      if cooldownOutcome.Some? {
        out := cooldownOutcome.value;
      } else {
        var permissionOutcome := HandlePermissions(configManager, perms, from);
        if permissionOutcome.Some? {
          out := permissionOutcome.value;
        } else {
          ApplyCooldown(player, now);
          out := Outcome(false, None, false);
        }
      }
    }
  }
}
