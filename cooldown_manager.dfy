/**
  CooldownManager: per-player portal cooldowns, stored as the wall-clock
  millisecond at which each ends. The clock reading is the `now` parameter.
 */
module Cooldowns {

  import opened Host
  import opened Expiry
  import opened Config

  /** Math.ceil(ms / 1000.0) for a positive number of milliseconds: whole seconds, rounded up. */
  function CeilSeconds(ms: int): (r: int)
    requires ms > 0
    ensures r >= 1
    ensures (r - 1) * 1000 < ms <= r * 1000
  {
    (ms + 999) / 1000
  }

  /** A cooldown of `seconds` read back at the instant it was set reports exactly `seconds`. */
  lemma CeilSecondsOfWhole(seconds: int)
    requires seconds > 0
    ensures CeilSeconds(seconds * 1000) == seconds
  {
  }

  /** Read while still live, a cooldown of `seconds` reports between 1 and `seconds` seconds. */
  lemma RemainingWithinSet(setAt: int, seconds: int, now: int)
    requires seconds > 0 && setAt <= now < setAt + seconds * 1000
    ensures 1 <= CeilSeconds(setAt + seconds * 1000 - now) <= seconds
  {
  }

  class CooldownManager {
    const configManager: ConfigManager
    /** Player UUID to the epoch millisecond the cooldown ends. */
    var cooldowns: map<Uuid, int>

    constructor (configManager: ConfigManager)
      ensures this.configManager == configManager && cooldowns == map[]
    {
      this.configManager := configManager;
      cooldowns := map[];
    }

    /**
      hasCooldown: true iff cooldowns are enabled and the player's entry is
      live; an expired entry met on the way is removed, nothing else changes.
     */
    method HasCooldown(player: Uuid, now: int) returns (active: bool)
      modifies this`cooldowns
      ensures active <==> configManager.IsCooldownEnabled() && IsLive(old(cooldowns), player, now)
      ensures cooldowns == if configManager.IsCooldownEnabled() then AfterRead(old(cooldowns), player, now) else old(cooldowns)
    {
      if !configManager.IsCooldownEnabled() {
        return false;
      }
      if player !in cooldowns {
        return false;
      }
      var cooldownEnd := cooldowns[player];
      if now >= cooldownEnd {
        cooldowns := cooldowns - {player};
        return false;
      }
      return true;
    }

    /**
      getRemainingCooldown: whole seconds left, rounded up, for a live entry;
      0 when disabled, absent or expired (and an expired entry is removed).
     */
    method GetRemainingCooldown(player: Uuid, now: int) returns (seconds: int)
      modifies this`cooldowns
      ensures configManager.IsCooldownEnabled() && IsLive(old(cooldowns), player, now) ==>
        seconds == CeilSeconds(old(cooldowns)[player] - now) && seconds >= 1
      ensures !(configManager.IsCooldownEnabled() && IsLive(old(cooldowns), player, now)) ==> seconds == 0
      ensures cooldowns == if configManager.IsCooldownEnabled() then AfterRead(old(cooldowns), player, now) else old(cooldowns)
    {
      if !configManager.IsCooldownEnabled() {
        return 0;
      }
      if player !in cooldowns {
        return 0;
      }
      var cooldownEnd := cooldowns[player];
      if now >= cooldownEnd {
        cooldowns := cooldowns - {player};
        return 0;
      }
      seconds := CeilSeconds(cooldownEnd - now);
    }

    /**
      setCooldownAsync, run synchronously: when enabled, the player's entry
      becomes now + configured seconds * 1000, replacing any earlier one.
     */
    method SetCooldown(player: Uuid, now: int)
      modifies this`cooldowns
      ensures cooldowns == if configManager.IsCooldownEnabled()
        then old(cooldowns)[player := now + configManager.GetCooldownTime() * 1000]
        else old(cooldowns)
    {
      if !configManager.IsCooldownEnabled() {
        return;
      }
      var cooldownSeconds := configManager.GetCooldownTime();
      cooldowns := cooldowns[player := now + cooldownSeconds * 1000];
    }

    /** removeCooldown: drops this player's entry only. */
    method RemoveCooldown(player: Uuid)
      modifies this`cooldowns
      ensures cooldowns == old(cooldowns) - {player}
    {
      cooldowns := cooldowns - {player};
    }

    /** clearAllCooldowns. */
    method ClearAllCooldowns()
      modifies this`cooldowns
      ensures cooldowns == map[]
    {
      cooldowns := map[];
    }

    /** getActiveCooldownCount: the raw number of stored entries, expired ones included. */
    function GetActiveCooldownCount(): (r: nat)
      reads this
      ensures r == 0 <==> cooldowns == map[]
    {
      |cooldowns|
    }

    /** The periodic cleanup: removes exactly the entries with now >= end. */
    method CleanupExpired(now: int)
      modifies this`cooldowns
      ensures forall k :: k in cooldowns <==> IsLive(old(cooldowns), k, now)
      ensures forall k :: k in cooldowns ==> k in old(cooldowns) && cooldowns[k] == old(cooldowns)[k]
    {
      cooldowns := KeepWhere(cooldowns, end => now < end);
    }

    /** shutdown: the cleanup timer is cancelled (not modelled) and the map cleared. */
    method Shutdown()
      modifies this`cooldowns
      ensures cooldowns == map[] && GetActiveCooldownCount() == 0
    {
      cooldowns := map[];
    }
  }

  /**
    Set then read at the same instant (cooldowns enabled, a positive length):
    the entry is live and reports exactly the configured number of seconds.
   */
  lemma SetThenRead(m: map<Uuid, int>, player: Uuid, now: int, seconds: int)
    requires seconds > 0
    ensures IsLive(m[player := now + seconds * 1000], player, now)
    ensures CeilSeconds(m[player := now + seconds * 1000][player] - now) == seconds
  {
    CeilSecondsOfWhole(seconds);
  }

  /** At any instant, the active count is the live entries plus the expired ones no read or sweep has removed yet. */
  lemma ActiveCountSplits(manager: CooldownManager, now: int)
    ensures manager.GetActiveCooldownCount() == |LiveKeys(manager.cooldowns, now)| + |ExpiredKeys(manager.cooldowns, now)|
  {
    SizeSplits(manager.cooldowns, now);
  }
}
