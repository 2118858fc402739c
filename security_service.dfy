/**
  PortalSecurityService: the anti-bypass state machine. Four maps, keyed by
  entity or player UUID: portal cooldowns in server ticks, portal entry
  times in milliseconds, and two flags (in a vehicle near a portal, gliding
  near a portal). The server tick and the wall clock are parameters.
 */
module Security {

  import opened Wrappers
  import opened Host
  import opened Expiry
  import opened Config
  import Text

  const DefaultEntityPortalCooldownTicks := 100
  const MaxPortalStayTimeMs := 30000
  const MaxMovementSpeedNearPortal: real := 0.5
  const MaxVelocityNearPortal: real := 2.0
  /** Entry times older than the stay limit plus one minute are swept. */
  const StaleEntryMs := MaxPortalStayTimeMs + 60000

  /** isPortalBlock: the three named portal materials, or any material whose name contains "PORTAL". */
  predicate IsPortalBlock(m: Material) {
    || m == NetherPortalBlock
    || m == EndPortalBlock
    || m == EndPortalFrameBlock
    || Text.Occurs(MaterialName(m), "PORTAL")
  }

  /**
    The explicit material checks add nothing to the name test, and the name
    test misses END_GATEWAY, so a gateway never counts as a portal block here.
   */
  lemma IsPortalBlockByName(m: Material)
    ensures IsPortalBlock(m) <==> Text.Occurs(MaterialName(m), "PORTAL")
    ensures !IsPortalBlock(EndGatewayBlock)
  {
    if m == NetherPortalBlock || m == EndPortalBlock || m == EndPortalFrameBlock {
      NamedPortalHoldsPortal(m);
    }
    GatewayNameLacksPortal();
  }

  /** The three named portal materials carry "PORTAL" in their names. */
  lemma NamedPortalHoldsPortal(m: Material)
    requires m == NetherPortalBlock || m == EndPortalBlock || m == EndPortalFrameBlock
    ensures Text.Occurs(MaterialName(m), "PORTAL")
  {
    if m == NetherPortalBlock {
      assert MaterialName(m) == "NETHER_" + "PORTAL" + "";
      Text.OccursJoin("NETHER_", "PORTAL", "");
    } else if m == EndPortalBlock {
      assert MaterialName(m) == "END_" + "PORTAL" + "";
      Text.OccursJoin("END_", "PORTAL", "");
    } else {
      assert MaterialName(m) == "END_" + "PORTAL" + "_FRAME";
      Text.OccursJoin("END_", "PORTAL", "_FRAME");
    }
  }

  /** "END_GATEWAY" holds no "PORTAL": it has no 'P' to start one. */
  lemma GatewayNameLacksPortal()
    ensures !Text.Occurs(MaterialName(EndGatewayBlock), "PORTAL")
  {
    var gateway := MaterialName(EndGatewayBlock);
    Text.OccursAt(gateway, "PORTAL");
    forall i | 0 <= i && i + 6 <= |gateway|
      ensures !Text.At(gateway, "PORTAL", i)
    {
      assert gateway[i..i + 6][0] == gateway[i];
      if i < 3 {
        assert gateway[i] in "END";
      } else {
        assert gateway[i] in "_GAT";
      }
    }
  }

  /** Some block within two blocks on every axis of the player's location is a portal block (a null world has none). */
  ghost predicate NearPortal(around: Option<BlockLookup>) {
    around.Some? &&
    exists x, y, z :: -2 <= x <= 2 && -2 <= y <= 2 && -2 <= z <= 2 && IsPortalBlock(around.value(x, y, z))
  }

  /** isNearPortal: the 5x5x5 scan, x then y then z, returning at the first portal block. */
  method IsNearPortal(around: Option<BlockLookup>) returns (near: bool)
    ensures near <==> NearPortal(around)
  {
    if around.None? {
      return false;
    }
    var blockAt := around.value;
    var x := -2;
    while x <= 2
      invariant -2 <= x <= 3
      invariant forall i, j, k :: -2 <= i < x && -2 <= j <= 2 && -2 <= k <= 2 ==> !IsPortalBlock(blockAt(i, j, k))
    {
      var y := -2;
      while y <= 2
        invariant -2 <= y <= 3
        invariant forall j, k :: -2 <= j < y && -2 <= k <= 2 ==> !IsPortalBlock(blockAt(x, j, k))
      {
        var z := -2;
        while z <= 2
          invariant -2 <= z <= 3
          invariant forall k :: -2 <= k < z ==> !IsPortalBlock(blockAt(x, y, k))
        {
          if IsPortalBlock(blockAt(x, y, z)) {
            return true;
          }
          z := z + 1;
        }
        y := y + 1;
      }
      x := x + 1;
    }
    return false;
  }

  /** Ids of the passengers that are players. */
  function PlayerIds(passengers: seq<Entity>): set<Uuid> {
    if passengers == [] then {}
    else
      var last := passengers[|passengers| - 1];
      PlayerIds(passengers[..|passengers| - 1]) + (if last.kind.PlayerEntity? then {last.id} else {})
  }

  /** An id is a player-passenger id exactly when some player passenger carries it. */
  lemma {:induction false} PlayerIdsMembers(passengers: seq<Entity>, id: Uuid)
    ensures id in PlayerIds(passengers) <==>
      exists i :: 0 <= i < |passengers| && passengers[i].kind.PlayerEntity? && passengers[i].id == id
  {
    if passengers != [] {
      var front := passengers[..|passengers| - 1];
      PlayerIdsMembers(front, id);
      assert forall i :: 0 <= i < |front| ==> front[i] == passengers[i];
    }
  }

  /** Every id of `ids` gets the entry `end`; the rest of the map is kept. */
  function WithCooldown(m: map<Uuid, int>, ids: set<Uuid>, end: int): (r: map<Uuid, int>)
    ensures forall k :: k in r <==> k in m || k in ids
    ensures forall k :: k in ids ==> r[k] == end
    ensures forall k :: k in m && k !in ids ==> r[k] == m[k]
  {
    m + map k | k in ids :: end
  }

  /** Setting one more id to `end` extends the set of ids set to `end`. */
  lemma WithCooldownAdd(m: map<Uuid, int>, ids: set<Uuid>, id: Uuid, end: int)
    ensures WithCooldown(m, ids, end)[id := end] == WithCooldown(m, ids + {id}, end)
  {
  }

  /** The cooldowns a vehicle carrying passengers gets: the vehicle and each player passenger end at `end`. */
  function VehicleCooldowns(m: map<Uuid, int>, vehicle: Entity, end: int): map<Uuid, int>
    requires vehicle.kind.VehicleEntity?
  {
    WithCooldown(m[vehicle.id := end], PlayerIds(vehicle.kind.passengers), end)
  }

  /**
    After a blocked vehicle entry the vehicle and every player passenger are
    on cooldown until `tick + 100`; a passenger that is not a player (and
    shares no id with the vehicle or a player) keeps whatever it had.
   */
  lemma VehicleCooldownsCover(m: map<Uuid, int>, vehicle: Entity, tick: int, i: int)
    requires vehicle.kind.VehicleEntity? && 0 <= i < |vehicle.kind.passengers|
    ensures var r := VehicleCooldowns(m, vehicle, tick + DefaultEntityPortalCooldownTicks);
      var p := vehicle.kind.passengers[i];
      && IsLive(r, vehicle.id, tick)
      && (p.kind.PlayerEntity? ==> IsLive(r, p.id, tick) && r[p.id] == tick + DefaultEntityPortalCooldownTicks)
      && (p.id != vehicle.id && p.id !in PlayerIds(vehicle.kind.passengers) ==>
            (p.id in r <==> p.id in m) && (p.id in m ==> r[p.id] == m[p.id]))
  {
    var p := vehicle.kind.passengers[i];
    PlayerIdsMembers(vehicle.kind.passengers, p.id);
  }

  class PortalSecurityService {
    const configManager: ConfigManager
    /** Entity UUID to the server tick its portal cooldown ends. */
    var entityPortalCooldowns: map<Uuid, int>
    /** Entity UUID to the millisecond it was last seen entering a portal. */
    var entityPortalEntryTimes: map<Uuid, int>
    var playersInVehicleInPortal: map<Uuid, bool>
    var playersGlidingNearPortal: map<Uuid, bool>

    constructor (configManager: ConfigManager)
      ensures this.configManager == configManager
      ensures entityPortalCooldowns == map[] && entityPortalEntryTimes == map[]
      ensures playersInVehicleInPortal == map[] && playersGlidingNearPortal == map[]
    {
      this.configManager := configManager;
      entityPortalCooldowns := map[];
      entityPortalEntryTimes := map[];
      playersInVehicleInPortal := map[];
      playersGlidingNearPortal := map[];
    }

    /** setEntityPortalCooldownAsync, run synchronously: the entry ends `cooldownTicks` after `tick`. */
    method SetEntityPortalCooldown(entity: Uuid, cooldownTicks: int, tick: int)
      modifies this`entityPortalCooldowns
      ensures entityPortalCooldowns == old(entityPortalCooldowns)[entity := tick + cooldownTicks]
    {
      entityPortalCooldowns := entityPortalCooldowns[entity := tick + cooldownTicks];
    }

    /** hasEntityPortalCooldown: a live entry; an expired one is evicted. */
    method HasEntityPortalCooldown(entity: Uuid, tick: int) returns (active: bool)
      modifies this`entityPortalCooldowns
      ensures active <==> IsLive(old(entityPortalCooldowns), entity, tick)
      ensures entityPortalCooldowns == AfterRead(old(entityPortalCooldowns), entity, tick)
    {
      if entity !in entityPortalCooldowns {
        return false;
      }
      var cooldownEnd := entityPortalCooldowns[entity];
      if tick >= cooldownEnd {
        entityPortalCooldowns := entityPortalCooldowns - {entity};
        return false;
      }
      return true;
    }

    /** getRemainingEntityPortalCooldown: ticks left on a live entry, else 0 (evicting an expired one). */
    method GetRemainingEntityPortalCooldown(entity: Uuid, tick: int) returns (ticks: int)
      modifies this`entityPortalCooldowns
      ensures IsLive(old(entityPortalCooldowns), entity, tick) ==>
        ticks > 0 && tick + ticks == old(entityPortalCooldowns)[entity]
      ensures !IsLive(old(entityPortalCooldowns), entity, tick) ==> ticks == 0
      ensures entityPortalCooldowns == AfterRead(old(entityPortalCooldowns), entity, tick)
    {
      if entity !in entityPortalCooldowns {
        return 0;
      }
      var cooldownEnd := entityPortalCooldowns[entity];
      if tick >= cooldownEnd {
        entityPortalCooldowns := entityPortalCooldowns - {entity};
        return 0;
      }
      ticks := cooldownEnd - tick;
    }

    /** removeEntityPortalCooldown. */
    method RemoveEntityPortalCooldown(entity: Uuid)
      modifies this`entityPortalCooldowns
      ensures entityPortalCooldowns == old(entityPortalCooldowns) - {entity}
    {
      entityPortalCooldowns := entityPortalCooldowns - {entity};
    }

    /** isPlayerInVehicleInPortal: the stored flag, false when absent. */
    function IsPlayerInVehicleInPortal(player: Uuid): (r: bool)
      reads this
      ensures player !in playersInVehicleInPortal ==> !r
      ensures player in playersInVehicleInPortal ==> r == playersInVehicleInPortal[player]
    {
      if player in playersInVehicleInPortal then playersInVehicleInPortal[player] else false
    }

    /** trackEntityPortalEntry: remembers when the entity entered, replacing an older time. */
    method TrackEntityPortalEntry(entity: Uuid, nowMs: int)
      modifies this`entityPortalEntryTimes
      ensures entityPortalEntryTimes == old(entityPortalEntryTimes)[entity := nowMs]
    {
      entityPortalEntryTimes := entityPortalEntryTimes[entity := nowMs];
    }

    /** removeEntityPortalTracking. */
    method RemoveEntityPortalTracking(entity: Uuid)
      modifies this`entityPortalEntryTimes
      ensures entityPortalEntryTimes == old(entityPortalEntryTimes) - {entity}
    {
      entityPortalEntryTimes := entityPortalEntryTimes - {entity};
    }

    /** hasEntityBeenInPortalTooLong: tracked, and strictly more than 30000 ms ago. */
    function HasEntityBeenInPortalTooLong(entity: Uuid, nowMs: int): (r: bool)
      reads this
      ensures entity !in entityPortalEntryTimes ==> !r
      ensures r ==> entityPortalEntryTimes[entity] < nowMs - MaxPortalStayTimeMs
      ensures entity in entityPortalEntryTimes && nowMs - entityPortalEntryTimes[entity] > MaxPortalStayTimeMs ==> r
    {
      entity in entityPortalEntryTimes && nowMs - entityPortalEntryTimes[entity] > MaxPortalStayTimeMs
    }

    /**
      handleEntityPortalEnter. Disabled: nothing. Otherwise the entry time is
      recorded, then the event is cancelled for a live cooldown, else for a
      player flagged as in a vehicle near a portal, else for a vehicle with
      passengers, which also puts the vehicle and its player passengers on a
      100-tick cooldown.
     */
    method HandleEntityPortalEnter(entity: Entity, tick: int, nowMs: int) returns (cancel: bool)
      modifies this`entityPortalEntryTimes, this`entityPortalCooldowns
      ensures !configManager.IsEnabled() ==>
        !cancel && entityPortalEntryTimes == old(entityPortalEntryTimes) && entityPortalCooldowns == old(entityPortalCooldowns)
      ensures configManager.IsEnabled() ==>
        entityPortalEntryTimes == old(entityPortalEntryTimes)[entity.id := nowMs]
      ensures configManager.IsEnabled() ==>
        (cancel <==>
          || IsLive(old(entityPortalCooldowns), entity.id, tick)
          || (entity.kind.PlayerEntity? && IsPlayerInVehicleInPortal(entity.id))
          || (entity.kind.VehicleEntity? && |entity.kind.passengers| > 0))
      ensures configManager.IsEnabled() ==>
        entityPortalCooldowns ==
          if !IsLive(old(entityPortalCooldowns), entity.id, tick)
             && !(entity.kind.PlayerEntity? && IsPlayerInVehicleInPortal(entity.id))
             && entity.kind.VehicleEntity? && |entity.kind.passengers| > 0
          then VehicleCooldowns(AfterRead(old(entityPortalCooldowns), entity.id, tick), entity, tick + DefaultEntityPortalCooldownTicks)
          else AfterRead(old(entityPortalCooldowns), entity.id, tick)
    {
      cancel := false;
      if !configManager.IsEnabled() {
        return;
      }
      TrackEntityPortalEntry(entity.id, nowMs);
      var onCooldown := HasEntityPortalCooldown(entity.id, tick);
      if onCooldown {
        cancel := true;
        return;
      }
      if entity.kind.PlayerEntity? && IsPlayerInVehicleInPortal(entity.id) {
        cancel := true;
        return;
      }
      if entity.kind.VehicleEntity? && |entity.kind.passengers| > 0 {
        cancel := true;
        SetVehicleCooldowns(entity, tick);
      }
    }

    /** The vehicle branch of handleEntityPortalEnter: the vehicle, then each player passenger in turn, gets a 100-tick cooldown. */
    method SetVehicleCooldowns(vehicle: Entity, tick: int)
      requires vehicle.kind.VehicleEntity?
      modifies this`entityPortalCooldowns
      ensures entityPortalCooldowns == VehicleCooldowns(old(entityPortalCooldowns), vehicle, tick + DefaultEntityPortalCooldownTicks)
    {
      var passengers := vehicle.kind.passengers;
      var end := tick + DefaultEntityPortalCooldownTicks;
      SetEntityPortalCooldown(vehicle.id, DefaultEntityPortalCooldownTicks, tick);
      ghost var withVehicle := entityPortalCooldowns;
      for i := 0 to |passengers|
        invariant entityPortalCooldowns == WithCooldown(withVehicle, PlayerIds(passengers[..i]), end)
      {
        assert passengers[..i + 1][..i] == passengers[..i];
        ghost var before := PlayerIds(passengers[..i]);
        if passengers[i].kind.PlayerEntity? {
          assert PlayerIds(passengers[..i + 1]) == before + {passengers[i].id};
          WithCooldownAdd(withVehicle, before, passengers[i].id, end);
          SetEntityPortalCooldown(passengers[i].id, DefaultEntityPortalCooldownTicks, tick);
        } else {
          assert PlayerIds(passengers[..i + 1]) == before;
        }
      }
      assert passengers[..|passengers|] == passengers;
    }

    /**
      handleEntityPortalReady. Disabled: nothing. A tracked stay of more than
      30 s cancels and sets a 100-tick cooldown (checked first); otherwise a
      live cooldown cancels.
     */
    method HandleEntityPortalReady(entity: Entity, tick: int, nowMs: int) returns (cancel: bool)
      modifies this`entityPortalCooldowns
      ensures !configManager.IsEnabled() ==> !cancel && entityPortalCooldowns == old(entityPortalCooldowns)
      ensures configManager.IsEnabled() ==>
        (cancel <==> HasEntityBeenInPortalTooLong(entity.id, nowMs) || IsLive(old(entityPortalCooldowns), entity.id, tick))
      ensures configManager.IsEnabled() && HasEntityBeenInPortalTooLong(entity.id, nowMs) ==>
        entityPortalCooldowns == old(entityPortalCooldowns)[entity.id := tick + DefaultEntityPortalCooldownTicks]
      ensures configManager.IsEnabled() && !HasEntityBeenInPortalTooLong(entity.id, nowMs) ==>
        entityPortalCooldowns == AfterRead(old(entityPortalCooldowns), entity.id, tick)
    {
      cancel := false;
      if !configManager.IsEnabled() {
        return;
      }
      if HasEntityBeenInPortalTooLong(entity.id, nowMs) {
        cancel := true;
        SetEntityPortalCooldown(entity.id, DefaultEntityPortalCooldownTicks, tick);
        return;
      }
      cancel := HasEntityPortalCooldown(entity.id, tick);
    }

    /** handleVehicleEnter: a player entering a vehicle near a portal is flagged (when enabled). */
    method HandleVehicleEnter(entered: Entity, around: Option<BlockLookup>)
      modifies this`playersInVehicleInPortal
      ensures playersInVehicleInPortal ==
        if entered.kind.PlayerEntity? && configManager.IsEnabled() && NearPortal(around)
        then old(playersInVehicleInPortal)[entered.id := true]
        else old(playersInVehicleInPortal)
    {
      if !entered.kind.PlayerEntity? {
        return;
      }
      if !configManager.IsEnabled() {
        return;
      }
      var near := IsNearPortal(around);
      if near {
        playersInVehicleInPortal := playersInVehicleInPortal[entered.id := true];
      }
    }

    /** handleVehicleExit: a player leaving any vehicle loses the flag (when enabled). */
    method HandleVehicleExit(exited: Entity)
      modifies this`playersInVehicleInPortal
      ensures playersInVehicleInPortal ==
        if exited.kind.PlayerEntity? && configManager.IsEnabled()
        then old(playersInVehicleInPortal) - {exited.id}
        else old(playersInVehicleInPortal)
    {
      if !exited.kind.PlayerEntity? {
        return;
      }
      if !configManager.IsEnabled() {
        return;
      }
      playersInVehicleInPortal := playersInVehicleInPortal - {exited.id};
    }

    /**
      handlePlayerGlideToggle (no enabled check): starting to glide near a
      portal flags the player and sets a 100-tick cooldown; any other toggle
      clears the flag.
     */
    method HandlePlayerGlideToggle(player: Uuid, isGliding: bool, around: Option<BlockLookup>, tick: int)
      modifies this`playersGlidingNearPortal, this`entityPortalCooldowns
      ensures isGliding && NearPortal(around) ==>
        && playersGlidingNearPortal == old(playersGlidingNearPortal)[player := true]
        && entityPortalCooldowns == old(entityPortalCooldowns)[player := tick + DefaultEntityPortalCooldownTicks]
      ensures !(isGliding && NearPortal(around)) ==>
        && playersGlidingNearPortal == old(playersGlidingNearPortal) - {player}
        && entityPortalCooldowns == old(entityPortalCooldowns)
    {
      var near := false;
      if isGliding {
        near := IsNearPortal(around);
      }
      if isGliding && near {
        playersGlidingNearPortal := playersGlidingNearPortal[player := true];
        SetEntityPortalCooldown(player, DefaultEntityPortalCooldownTicks, tick);
      } else {
        playersGlidingNearPortal := playersGlidingNearPortal - {player};
      }
    }

    /** handlePlayerElytraBoost (no enabled check): a boost near a portal sets a 200-tick cooldown. */
    method HandlePlayerElytraBoost(player: Uuid, around: Option<BlockLookup>, tick: int)
      modifies this`entityPortalCooldowns
      ensures entityPortalCooldowns ==
        if NearPortal(around) then old(entityPortalCooldowns)[player := tick + 2 * DefaultEntityPortalCooldownTicks]
        else old(entityPortalCooldowns)
    {
      var near := IsNearPortal(around);
      if near {
        SetEntityPortalCooldown(player, DefaultEntityPortalCooldownTicks * 2, tick);
      }
    }

    /**
      handlePlayerMovement (no enabled check): `moveDistance` is from.distance(to),
      None when `to` is null. A step longer than 0.5 blocks near a portal sets
      a 100-tick cooldown.
     */
    method HandlePlayerMovement(player: Uuid, around: Option<BlockLookup>, moveDistance: Option<real>, tick: int)
      modifies this`entityPortalCooldowns
      ensures entityPortalCooldowns ==
        if moveDistance.Some? && NearPortal(around) && moveDistance.value > MaxMovementSpeedNearPortal
        then old(entityPortalCooldowns)[player := tick + DefaultEntityPortalCooldownTicks]
        else old(entityPortalCooldowns)
    {
      if moveDistance.None? {
        return;
      }
      var near := IsNearPortal(around);
      if near {
        var distance := moveDistance.value;
        if distance > MaxMovementSpeedNearPortal {
          SetEntityPortalCooldown(player, DefaultEntityPortalCooldownTicks, tick);
        }
      }
    }

    /**
      handlePlayerVelocityChange (no enabled check): `velocityMagnitude` is
      velocity.length(). Above 2.0 near a portal sets a 100-tick cooldown.
     */
    method HandlePlayerVelocityChange(player: Uuid, around: Option<BlockLookup>, velocityMagnitude: real, tick: int)
      modifies this`entityPortalCooldowns
      ensures entityPortalCooldowns ==
        if NearPortal(around) && velocityMagnitude > MaxVelocityNearPortal
        then old(entityPortalCooldowns)[player := tick + DefaultEntityPortalCooldownTicks]
        else old(entityPortalCooldowns)
    {
      var near := IsNearPortal(around);
      if near && velocityMagnitude > MaxVelocityNearPortal {
        SetEntityPortalCooldown(player, DefaultEntityPortalCooldownTicks, tick);
      }
    }

    /** clearAllSecurityData: all four maps emptied. */
    method ClearAllSecurityData()
      modifies this
      ensures entityPortalCooldowns == map[] && entityPortalEntryTimes == map[]
      ensures playersInVehicleInPortal == map[] && playersGlidingNearPortal == map[]
    {
      entityPortalCooldowns := map[];
      entityPortalEntryTimes := map[];
      playersInVehicleInPortal := map[];
      playersGlidingNearPortal := map[];
    }

    /** shutdown: the executor is stopped (not modelled) and all security data cleared; calling it twice is harmless. */
    method Shutdown()
      modifies this
      ensures entityPortalCooldowns == map[] && entityPortalEntryTimes == map[]
      ensures playersInVehicleInPortal == map[] && playersGlidingNearPortal == map[]
    {
      ClearAllSecurityData();
    }

    /** cleanupExpiredCooldowns: removes exactly the cooldowns with tick >= end. */
    method CleanupExpiredCooldowns(tick: int)
      modifies this`entityPortalCooldowns
      ensures forall k :: k in entityPortalCooldowns <==> IsLive(old(entityPortalCooldowns), k, tick)
      ensures forall k :: k in entityPortalCooldowns ==>
        k in old(entityPortalCooldowns) && entityPortalCooldowns[k] == old(entityPortalCooldowns)[k]
    {
      entityPortalCooldowns := KeepWhere(entityPortalCooldowns, end => tick < end);
    }

    /** cleanupExpiredPortalEntries: removes exactly the entry times more than 90000 ms old. */
    method CleanupExpiredPortalEntries(nowMs: int)
      modifies this`entityPortalEntryTimes
      ensures forall k :: k in entityPortalEntryTimes <==>
        k in old(entityPortalEntryTimes) && nowMs - old(entityPortalEntryTimes)[k] <= StaleEntryMs
      ensures forall k :: k in entityPortalEntryTimes ==>
        k in old(entityPortalEntryTimes) && entityPortalEntryTimes[k] == old(entityPortalEntryTimes)[k]
    {
      entityPortalEntryTimes := KeepWhere(entityPortalEntryTimes, entered => nowMs - entered <= StaleEntryMs);
    }
  }
}
