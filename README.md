# Portals-Permission: the portal decision engine in Dafny

This project models the decision engine of the Portals-Permission plugin for
Paper/Bukkit servers. The engine decides whether a player or entity may pass
through a portal. It also keeps the per-player and per-entity cooldown and
anti-bypass bookkeeping. Time (wall-clock milliseconds and server ticks),
the sender's permission nodes, the blocks around a location and the loaded
YAML configuration are all parameters or fields. No host API is called.

The modules follow the plugin's classes:

- `PortalTypes`: `PortalType`, from a world environment to its permission
  and message keys.
- `PermissionChecker`: `PortalPermissionChecker`, holding two material
  classifiers (raw target and permission kind) and the bypass/blocked/node
  policy.
- `Config`: `ConfigManager`, a class whose `config` field is the loaded YAML
  (`None` before a load). Its getters have defaults, the message lookup
  falls back by language, and it does placeholder substitution.
- `Expiry`: the expiry map shared by both cooldown stores. It evicts one
  entry lazily on read and sweeps every expired entry. The sweep is a loop
  over the key set.
- `Cooldowns`: `CooldownManager`, a class holding the UUID-to-end-millisecond
  map.
- `Security`: `PortalSecurityService`, a class with four maps (tick-based
  cooldowns, entry times, the vehicle flag, the glide flag) and the event
  handlers that update them. It also holds the portal-block predicate and
  the 5×5×5 proximity scan, a triple loop.
- `AccessListener`: `PortalAccessListener`, where the first permission
  policy sets the cooldown on denial. Its target classifier scans a 3×3×3
  neighbourhood in a triple loop.
- `RefactoredListener`: `RefactoredPortalAccessListener`, where the second
  policy checks the cooldown first and sets it on passage. The handler is
  proved against the function `Decide`, and the lemmas state its promises.
- `Messages`: `PortalMessageService`, covering the legacy-code rewrite chain
  and the send guards.
- `Knockback`: `PortalKnockbackService`, covering the target classifier and
  the sound guard with its fallback.
- `Commands`: `PortalsCommand`, covering dispatch, the cooldown subcommand,
  prefix-filtered tab completion (a loop per candidate list) and the `&`→`§`
  fallback rewrite.
- `Text`: the `java.lang.String` operations relied on: `toLowerCase`,
  `contains`, `replace`, `startsWith`, `trim().isEmpty()` and
  `String.valueOf(int)`.
- `Host`: world environments, materials, locations and entities.

## Model

Source paths are relative to the repository root.

| member | source | states |
|---|---|---|
| PortalTypes.PortalType.PermissionKey | src/main/java/org/rafalohaki/portalsPermission/utils/PortalType.java:42-84 | every variant has a non-empty permission key |
| PortalTypes.PortalType.MessageKey | src/main/java/org/rafalohaki/portalsPermission/utils/PortalType.java:42-84 | for every variant the message key is "no_permission_" followed by its permission key |
| PortalTypes.FromEnvironment | src/main/java/org/rafalohaki/portalsPermission/utils/PortalType.java:29-36 | null maps to null and every environment maps to some variant |
| PortalTypes.FromEnvironmentKeys | src/main/java/org/rafalohaki/portalsPermission/utils/PortalType.java:29-84 | NETHER gets nether / no_permission_nether, THE_END gets end / no_permission_end, NORMAL and CUSTOM get custom / no_permission_custom |
| PermissionChecker.HasBypassPermission | src/main/java/org/rafalohaki/portalsPermission/services/impl/PortalPermissionChecker.java:63-65 | true exactly when the player holds the fixed node "portals.bypass", which no configuration changes |
| PermissionChecker.GetTargetEnvironment | src/main/java/org/rafalohaki/portalsPermission/services/impl/PortalPermissionChecker.java:76-93 | null exactly for a block that is none of the three portal materials; a nether portal leads to NORMAL from the Nether and to NETHER from anywhere else; an end portal leads to THE_END; an end gateway leads to NORMAL from THE_END and to THE_END from anywhere else |
| PermissionChecker.GetPortalTypeEnvironment | src/main/java/org/rafalohaki/portalsPermission/services/impl/PortalPermissionChecker.java:103-115 | never CUSTOM (and never null); NETHER exactly for a nether portal, THE_END exactly for an end portal or gateway, NORMAL otherwise |
| PermissionChecker.GetRequiredPermission | src/main/java/org/rafalohaki/portalsPermission/services/impl/PortalPermissionChecker.java:126-141 | a node exists exactly for NETHER, THE_END and NORMAL: "portals.nether", "portals.end" and "portals.custom" respectively |
| PermissionChecker.GetMessageKey | src/main/java/org/rafalohaki/portalsPermission/services/impl/PortalPermissionChecker.java:152-167 | total; NETHER gets "no_permission_nether", THE_END "no_permission_end", everything else, null included, "no_permission_custom" |
| PermissionChecker.IsPortalTypeBlocked | src/main/java/org/rafalohaki/portalsPermission/services/impl/PortalPermissionChecker.java:177-193 | null is never blocked; NETHER reads the nether flag, THE_END the end flag, NORMAL and CUSTOM the custom flag |
| PermissionChecker.HasPortalPermission | src/main/java/org/rafalohaki/portalsPermission/services/impl/PortalPermissionChecker.java:39-53 | bypass always passes; otherwise a blocked kind always denies, and an unblocked kind passes iff the player holds the kind's node |
| PermissionChecker.PortalTypeIgnoresWorld | src/main/java/org/rafalohaki/portalsPermission/services/impl/PortalPermissionChecker.java:76-115 | the permission kind does not depend on the world, while the raw target of a nether portal does; a nether portal always needs portals.nether |
| PermissionChecker.TargetAgreesWithPortalType | src/main/java/org/rafalohaki/portalsPermission/services/impl/PortalPermissionChecker.java:76-115 | whenever the raw target is known it equals the permission kind, or it is the way back (NORMAL) |
| Config.ConfigManager.constructor | src/main/java/org/rafalohaki/portalsPermission/managers/ConfigManager.java:21-23 | no configuration and debug off until a load |
| Config.ConfigManager.IsDebugMode | src/main/java/org/rafalohaki/portalsPermission/managers/ConfigManager.java:73-75 | while the flag agrees with the configuration (established by construction, load and reload): false before a load, settings.debug of the loaded file (default false) after one |
| Config.ConfigManager.LoadConfig | src/main/java/org/rafalohaki/portalsPermission/managers/ConfigManager.java:29-44 | the loaded file becomes the configuration and debug mode is read from settings.debug (default false) |
| Config.ConfigManager.ReloadConfig | src/main/java/org/rafalohaki/portalsPermission/managers/ConfigManager.java:50-66 | as a load, and reports success |
| Config.ConfigManager.GetMessageWith | src/main/java/org/rafalohaki/portalsPermission/managers/ConfigManager.java:158-160 | substitution only touches "{placeholder}": a message without that token comes back unchanged |
| Config.GetMessageWithReplacesFirst | src/main/java/org/rafalohaki/portalsPermission/managers/ConfigManager.java:158-160 | the first "{placeholder}" of the message becomes the value, the text before it is kept, and the rest is substituted the same way, so every occurrence is replaced left to right |
| Config.ConfigManager.IsEnabled | src/main/java/org/rafalohaki/portalsPermission/managers/ConfigManager.java:69-71 | false before a load, true when loaded with the key absent |
| Config.ConfigManager.GetLanguage | src/main/java/org/rafalohaki/portalsPermission/managers/ConfigManager.java:77-79 | "en" before a load and when the key is absent |
| Config.ConfigManager.IsNetherBlocked | src/main/java/org/rafalohaki/portalsPermission/managers/ConfigManager.java:82-84 | false before a load, true when loaded with the key absent |
| Config.ConfigManager.IsEndBlocked | src/main/java/org/rafalohaki/portalsPermission/managers/ConfigManager.java:86-88 | false before a load, true when loaded with the key absent |
| Config.ConfigManager.IsCustomBlocked | src/main/java/org/rafalohaki/portalsPermission/managers/ConfigManager.java:90-92 | false before a load and when the key is absent |
| Config.ConfigManager.IsKnockbackEnabled | src/main/java/org/rafalohaki/portalsPermission/managers/ConfigManager.java:95-97 | false before a load, true when loaded with the key absent |
| Config.ConfigManager.GetKnockbackStrength | src/main/java/org/rafalohaki/portalsPermission/managers/ConfigManager.java:99-101 | 1.5 before a load |
| Config.ConfigManager.GetKnockbackHeight | src/main/java/org/rafalohaki/portalsPermission/managers/ConfigManager.java:103-105 | 0.8 before a load |
| Config.ConfigManager.IsKnockbackSoundEnabled | src/main/java/org/rafalohaki/portalsPermission/managers/ConfigManager.java:107-109 | false before a load, true when loaded with the key absent |
| Config.ConfigManager.GetKnockbackSoundType | src/main/java/org/rafalohaki/portalsPermission/managers/ConfigManager.java:111-113 | "ENTITY_VILLAGER_NO" before a load |
| Config.ConfigManager.GetKnockbackSoundVolume | src/main/java/org/rafalohaki/portalsPermission/managers/ConfigManager.java:115-117 | 0.7 before a load |
| Config.ConfigManager.GetKnockbackSoundPitch | src/main/java/org/rafalohaki/portalsPermission/managers/ConfigManager.java:119-121 | 1.0 before a load |
| Config.ConfigManager.IsCooldownEnabled | src/main/java/org/rafalohaki/portalsPermission/managers/ConfigManager.java:124-126 | false before a load, true when loaded with the key absent |
| Config.ConfigManager.GetCooldownTime | src/main/java/org/rafalohaki/portalsPermission/managers/ConfigManager.java:128-130 | 5 seconds before a load and when the key is absent |
| Config.ConfigManager.IsCooldownMessageEnabled | src/main/java/org/rafalohaki/portalsPermission/managers/ConfigManager.java:132-134 | false before a load, true when loaded with the key absent |
| Config.ConfigManager.GetMessage | src/main/java/org/rafalohaki/portalsPermission/managers/ConfigManager.java:137-156 | "&cConfiguration not loaded" before a load; else the message in the configured language, else (only for a language other than "en") the English one, else "&cMessage not found: " + key |
| Text.ReplaceCopiesPrefix | src/main/java/org/rafalohaki/portalsPermission/managers/ConfigManager.java:158-160 | replacement copies a prefix in which no occurrence starts unchanged and carries on with the rest |
| Text.ReplaceFirst | src/main/java/org/rafalohaki/portalsPermission/managers/ConfigManager.java:158-160 | before + token + rest, with no occurrence starting in before, becomes before + value + the replacement of rest |
| Text.ReplaceOnce | src/main/java/org/rafalohaki/portalsPermission/managers/ConfigManager.java:158-160 | a text of the form before + token + after, with no other occurrence, becomes before + value + after |
| Config.ConfigManager.GetPermission | src/main/java/org/rafalohaki/portalsPermission/managers/ConfigManager.java:163-168 | "portals." + key before a load or when the key is absent; the configured string otherwise |
| Config.ConfigManager.IsLoaded | src/main/java/org/rafalohaki/portalsPermission/managers/ConfigManager.java:182-184 | true iff a configuration is present |
| Expiry.AfterRead | src/main/java/org/rafalohaki/portalsPermission/managers/CooldownManager.java:49-53 | a read drops the read entry iff it has expired; every other entry stays with its value |
| Expiry.AfterReadIdempotent | src/main/java/org/rafalohaki/portalsPermission/managers/CooldownManager.java:37-81 | reading twice at the same instant changes no more than reading once |
| Expiry.KeepWhere | src/main/java/org/rafalohaki/portalsPermission/managers/CooldownManager.java:155-180 | the iterator sweep keeps exactly the entries that pass the test, with their values |
| Expiry.SizeSplits | src/main/java/org/rafalohaki/portalsPermission/managers/CooldownManager.java:147-149 | the raw map size is the live entries plus the expired ones not yet removed |
| Expiry.SetThenLive | src/main/java/org/rafalohaki/portalsPermission/services/impl/PortalSecurityService.java:221-255 | an entry set for n units is live at once iff n > 0, and stays live exactly until now + n |
| Cooldowns.CeilSeconds | src/main/java/org/rafalohaki/portalsPermission/managers/CooldownManager.java:80 | remaining milliseconds become whole seconds rounded up, at least 1 |
| Cooldowns.CeilSecondsOfWhole | src/main/java/org/rafalohaki/portalsPermission/managers/CooldownManager.java:62-102 | a whole number of seconds reads back unchanged |
| Cooldowns.RemainingWithinSet | src/main/java/org/rafalohaki/portalsPermission/managers/CooldownManager.java:62-81 | while a cooldown of s seconds lasts, the reported time is between 1 and s |
| Cooldowns.CooldownManager.constructor | src/main/java/org/rafalohaki/portalsPermission/managers/CooldownManager.java:24-31 | starts with no cooldowns |
| Cooldowns.CooldownManager.HasCooldown | src/main/java/org/rafalohaki/portalsPermission/managers/CooldownManager.java:37-56 | true iff cooldowns are enabled and the entry is live; when enabled the read evicts an expired entry and changes nothing else; when disabled nothing changes |
| Cooldowns.CooldownManager.GetRemainingCooldown | src/main/java/org/rafalohaki/portalsPermission/managers/CooldownManager.java:62-81 | ceil((end - now) / 1000), at least 1, for a live entry when enabled; 0 otherwise; the same eviction as HasCooldown |
| Cooldowns.CooldownManager.SetCooldown | src/main/java/org/rafalohaki/portalsPermission/managers/CooldownManager.java:87-116 | when enabled the entry becomes now + seconds·1000, overwriting; when disabled the map is unchanged |
| Cooldowns.CooldownManager.RemoveCooldown | src/main/java/org/rafalohaki/portalsPermission/managers/CooldownManager.java:122-129 | drops only that player's entry |
| Cooldowns.CooldownManager.ClearAllCooldowns | src/main/java/org/rafalohaki/portalsPermission/managers/CooldownManager.java:135-141 | empties the map |
| Cooldowns.CooldownManager.CleanupExpired | src/main/java/org/rafalohaki/portalsPermission/managers/CooldownManager.java:155-180 | keeps exactly the live entries, with their values |
| Cooldowns.CooldownManager.Shutdown | src/main/java/org/rafalohaki/portalsPermission/managers/CooldownManager.java:186-197 | empties the map, so the active count is 0 |
| Cooldowns.SetThenRead | src/main/java/org/rafalohaki/portalsPermission/managers/CooldownManager.java:62-102 | right after a set of s > 0 seconds the entry is live and reports exactly s |
| Cooldowns.CooldownManager.GetActiveCooldownCount | src/main/java/org/rafalohaki/portalsPermission/managers/CooldownManager.java:147-149 | zero exactly when no cooldown entry is stored |
| Cooldowns.ActiveCountSplits | src/main/java/org/rafalohaki/portalsPermission/managers/CooldownManager.java:147-149 | the active count includes expired entries not yet swept |
| Security.IsPortalBlockByName | src/main/java/org/rafalohaki/portalsPermission/services/impl/PortalSecurityService.java:459-464 | a material is a portal block iff its name contains "PORTAL" (the three named materials already do); END_GATEWAY is not one |
| Security.IsNearPortal | src/main/java/org/rafalohaki/portalsPermission/services/impl/PortalSecurityService.java:427-452 | true iff the world is loaded and some block at offsets -2..2 on each axis is a portal block |
| Security.PlayerIdsMembers | src/main/java/org/rafalohaki/portalsPermission/services/impl/PortalSecurityService.java:124-132 | the ids collected are exactly those of the player passengers |
| Security.WithCooldown | src/main/java/org/rafalohaki/portalsPermission/services/impl/PortalSecurityService.java:120-132 | the given ids get the new end and every other entry is kept |
| Security.VehicleCooldownsCover | src/main/java/org/rafalohaki/portalsPermission/services/impl/PortalSecurityService.java:114-138 | after a blocked vehicle entry the vehicle and every player passenger are on cooldown until tick + 100; a non-player passenger keeps what it had |
| Security.PortalSecurityService.IsPlayerInVehicleInPortal | src/main/java/org/rafalohaki/portalsPermission/services/impl/PortalSecurityService.java:286-288 | the recorded flag for the player, and false for a player never recorded |
| Security.PortalSecurityService.constructor | src/main/java/org/rafalohaki/portalsPermission/services/impl/PortalSecurityService.java:60-70 | all four maps start empty |
| Security.PortalSecurityService.SetEntityPortalCooldown | src/main/java/org/rafalohaki/portalsPermission/services/impl/PortalSecurityService.java:221-237 | the entity's end becomes tick + n |
| Security.PortalSecurityService.HasEntityPortalCooldown | src/main/java/org/rafalohaki/portalsPermission/services/impl/PortalSecurityService.java:240-255 | true iff the entry is live; an expired entry is evicted, nothing else changes |
| Security.PortalSecurityService.GetRemainingEntityPortalCooldown | src/main/java/org/rafalohaki/portalsPermission/services/impl/PortalSecurityService.java:258-273 | end - tick for a live entry, 0 otherwise, with the same eviction |
| Security.PortalSecurityService.RemoveEntityPortalCooldown | src/main/java/org/rafalohaki/portalsPermission/services/impl/PortalSecurityService.java:276-283 | drops only that entity's cooldown |
| Security.PortalSecurityService.TrackEntityPortalEntry | src/main/java/org/rafalohaki/portalsPermission/services/impl/PortalSecurityService.java:291-300 | records the entry time, overwriting |
| Security.PortalSecurityService.RemoveEntityPortalTracking | src/main/java/org/rafalohaki/portalsPermission/services/impl/PortalSecurityService.java:303-310 | drops only that entity's entry time |
| Security.PortalSecurityService.HasEntityBeenInPortalTooLong | src/main/java/org/rafalohaki/portalsPermission/services/impl/PortalSecurityService.java:313-325 | true exactly for a tracked entity that entered more than 30000 ms ago; an untracked entity is never too long |
| Security.PortalSecurityService.HandleEntityPortalEnter | src/main/java/org/rafalohaki/portalsPermission/services/impl/PortalSecurityService.java:80-144 | disabled: no change, no cancel; else the entry time is recorded and the event is cancelled iff there is a live cooldown, a flagged player in a vehicle, or a vehicle with passengers; only the last case adds cooldowns (vehicle and player passengers, 100 ticks) |
| Security.PortalSecurityService.SetVehicleCooldowns | src/main/java/org/rafalohaki/portalsPermission/services/impl/PortalSecurityService.java:120-132 | the loop over passengers leaves the vehicle and each player passenger at tick + 100 |
| Security.PortalSecurityService.HandleEntityPortalReady | src/main/java/org/rafalohaki/portalsPermission/services/impl/PortalSecurityService.java:147-180 | disabled: nothing; a stay too long cancels and sets 100 ticks before any cooldown check; otherwise cancel iff a live cooldown |
| Security.PortalSecurityService.HandleVehicleEnter | src/main/java/org/rafalohaki/portalsPermission/services/impl/PortalSecurityService.java:183-200 | a player entering a vehicle near a portal is flagged when enabled; nothing else changes |
| Security.PortalSecurityService.HandleVehicleExit | src/main/java/org/rafalohaki/portalsPermission/services/impl/PortalSecurityService.java:203-218 | a player leaving a vehicle loses the flag when enabled; non-players are ignored |
| Security.PortalSecurityService.HandlePlayerGlideToggle | src/main/java/org/rafalohaki/portalsPermission/services/impl/PortalSecurityService.java:328-341 | gliding on near a portal flags and sets 100 ticks; any other toggle removes the flag only; no enabled check |
| Security.PortalSecurityService.HandlePlayerElytraBoost | src/main/java/org/rafalohaki/portalsPermission/services/impl/PortalSecurityService.java:344-353 | a boost near a portal sets 200 ticks; otherwise nothing |
| Security.PortalSecurityService.HandlePlayerMovement | src/main/java/org/rafalohaki/portalsPermission/services/impl/PortalSecurityService.java:356-373 | with a destination, near a portal and a step over 0.5, sets 100 ticks; otherwise nothing |
| Security.PortalSecurityService.HandlePlayerVelocityChange | src/main/java/org/rafalohaki/portalsPermission/services/impl/PortalSecurityService.java:376-390 | near a portal with speed over 2.0 sets 100 ticks; otherwise nothing |
| Security.PortalSecurityService.ClearAllSecurityData | src/main/java/org/rafalohaki/portalsPermission/services/impl/PortalSecurityService.java:393-402 | all four maps empty |
| Security.PortalSecurityService.Shutdown | src/main/java/org/rafalohaki/portalsPermission/services/impl/PortalSecurityService.java:405-420 | all four maps empty |
| Security.PortalSecurityService.CleanupExpiredCooldowns | src/main/java/org/rafalohaki/portalsPermission/services/impl/PortalSecurityService.java:485-501 | keeps exactly the cooldowns with tick < end, with their values |
| Security.PortalSecurityService.CleanupExpiredPortalEntries | src/main/java/org/rafalohaki/portalsPermission/services/impl/PortalSecurityService.java:507-526 | removes exactly the entry times older than 90000 ms |
| AccessListener.PortalEnvironment | src/main/java/org/rafalohaki/portalsPermission/events/PortalAccessListener.java:123-130 | null exactly for non-portal blocks, never CUSTOM; a nether portal gives NETHER in the overworld and NORMAL in any other world; an end portal and an end gateway give THE_END in every world (no gateway flip) |
| AccessListener.ScanFromNone | src/main/java/org/rafalohaki/portalsPermission/events/PortalAccessListener.java:133-150 | the scan from any point finds nothing iff no later block of the window is a portal block |
| AccessListener.ScanFromFirst | src/main/java/org/rafalohaki/portalsPermission/events/PortalAccessListener.java:133-150 | a scan that finds something returns the classification of the first portal block from its start in x, y, z order |
| AccessListener.TargetEnvironmentNone | src/main/java/org/rafalohaki/portalsPermission/events/PortalAccessListener.java:119-151 | the target is null iff no block of the 3×3×3 neighbourhood is a portal block |
| AccessListener.TargetEnvironmentFirstHit | src/main/java/org/rafalohaki/portalsPermission/events/PortalAccessListener.java:133-150 | off a portal block, the target is the classification of the first portal block in scan order |
| AccessListener.GetTargetEnvironment | src/main/java/org/rafalohaki/portalsPermission/events/PortalAccessListener.java:119-151 | the nested loops return the scan's result |
| AccessListener.GetRequiredPermission | src/main/java/org/rafalohaki/portalsPermission/events/PortalAccessListener.java:157-160 | a node exists iff there is a target; NETHER needs the configured "nether" node, THE_END the "end" node, NORMAL and CUSTOM the "custom" node |
| AccessListener.GetMessageKey | src/main/java/org/rafalohaki/portalsPermission/events/PortalAccessListener.java:166-169 | NETHER gets "no_permission_nether", THE_END "no_permission_end", everything else, null included, "no_permission_custom" |
| AccessListener.IsPortalTypeBlocked | src/main/java/org/rafalohaki/portalsPermission/events/PortalAccessListener.java:175-185 | NETHER reads the nether flag, THE_END the end flag, everything else, null included, the custom flag |
| AccessListener.GateOfTarget | src/main/java/org/rafalohaki/portalsPermission/events/PortalAccessListener.java:83-93 | with no target the custom flag and node decide; otherwise a portal is gated exactly when its type is blocked |
| AccessListener.NetherPortalOutsideOverworld | src/main/java/org/rafalohaki/portalsPermission/events/PortalAccessListener.java:119-185 | a nether portal used outside the overworld targets NORMAL, needs the custom node, is gated by the custom flag and gets the custom message |
| AccessListener.ClassifiersDiffer | src/main/java/org/rafalohaki/portalsPermission/events/PortalAccessListener.java:123-130 | this classifier and the permission checker's disagree exactly on a gateway in the End and a nether portal in the End or a custom world |
| AccessListener.PoliciesDifferWhenUnblocked | src/main/java/org/rafalohaki/portalsPermission/events/PortalAccessListener.java:93-112 | with nether portals unblocked, a player without the nether node passes here but is refused by the permission checker |
| AccessListener.ConvertLegacySoundFormatShape | src/main/java/org/rafalohaki/portalsPermission/events/PortalAccessListener.java:329-332 | same length, each '_' becomes '.', every other character is lower-cased; no '_' or upper-case letter remains |
| AccessListener.PortalAccessListener.constructor | src/main/java/org/rafalohaki/portalsPermission/events/PortalAccessListener.java:37-40 | keeps the two managers |
| AccessListener.PortalAccessListener.OnPlayerPortal | src/main/java/org/rafalohaki/portalsPermission/events/PortalAccessListener.java:46-113 | disabled or bypass: nothing; a live cooldown cancels with the remaining-time message only if enabled, no knockback, no new cooldown; otherwise deny iff gated and the node is missing: cancel, message, knockback if enabled, cooldown set on denial |
| Messages.ReplaceCodesKeepsOut | src/main/java/org/rafalohaki/portalsPermission/services/impl/PortalMessageService.java:85-107 | a replacement chain whose tags hold no '&' and start with a character that is no code creates no new "&x" for any x other than that lead character, and removes each code it replaces ("&&a" does become "&<green>") |
| Messages.ReplaceCodesIdentity | src/main/java/org/rafalohaki/portalsPermission/services/impl/PortalMessageService.java:85-107 | a string with none of the codes passes the chain unchanged |
| Messages.LegacyCodesWellFormed | src/main/java/org/rafalohaki/portalsPermission/services/impl/PortalMessageService.java:86-107 | every one of the 22 tags starts with '<', which is no code, and holds no '&' |
| Messages.LegacyCodesDistinct | src/main/java/org/rafalohaki/portalsPermission/services/impl/PortalMessageService.java:86-107 | no code appears twice among the 22, so each replacement step handles its own code |
| Messages.ParseMessageNoCodeLeft | src/main/java/org/rafalohaki/portalsPermission/services/impl/PortalMessageService.java:83-107 | none of the 22 lower-case codes remains after the chain |
| Messages.ParseMessageIdentity | src/main/java/org/rafalohaki/portalsPermission/services/impl/PortalMessageService.java:83-107 | a message with none of the codes (for example only upper-case ones such as "&C") is unchanged |
| Messages.ParseMessagePlain | src/main/java/org/rafalohaki/portalsPermission/services/impl/PortalMessageService.java:83-107 | a message without '&' is unchanged |
| Messages.SendMessage | src/main/java/org/rafalohaki/portalsPermission/services/impl/PortalMessageService.java:30-38 | an empty message sends nothing; any other sends exactly one, parsed |
| Messages.SendCooldownMessage | src/main/java/org/rafalohaki/portalsPermission/services/impl/PortalMessageService.java:41-55 | sends (and looks up) nothing iff cooldown messages are off; otherwise one message with the clock icon |
| Messages.CooldownTokenIsDoubleBraced | src/main/java/org/rafalohaki/portalsPermission/services/impl/PortalMessageService.java:46 | the token substituted is "{{time}}", so a message holding only "{time}" is sent without substitution |
| Messages.CooldownTokenSubstituted | src/main/java/org/rafalohaki/portalsPermission/services/impl/PortalMessageService.java:41-55 | a cooldown text holding "{{time}}" once is sent with the remaining seconds in its place |
| Messages.SendPermissionDeniedMessage | src/main/java/org/rafalohaki/portalsPermission/services/impl/PortalMessageService.java:58-69 | exactly one message for any key, with the cross icon, the body being the parsed configured text, and no legacy code left |
| Knockback.GetTargetEnvironmentFromLocation | src/main/java/org/rafalohaki/portalsPermission/services/impl/PortalKnockbackService.java:127-144 | null exactly for non-portal blocks; a nether portal gives NORMAL in the Nether and NETHER elsewhere; an end portal gives THE_END; a gateway gives NORMAL in the End and THE_END elsewhere |
| Knockback.SameAsPermissionChecker | src/main/java/org/rafalohaki/portalsPermission/services/impl/PortalKnockbackService.java:127-144 | equal to the permission checker's target classifier on every location |
| Knockback.PlayKnockbackSound | src/main/java/org/rafalohaki/portalsPermission/services/impl/PortalKnockbackService.java:160-187 | sound off or a blank name: nothing; a playable configured name is played at the configured volume and pitch; an unplayable one falls back to ENTITY_PLAYER_HURT at 0.5 / 1.0 when that is playable; nothing only when neither plays |
| Knockback.ApplyKnockback | src/main/java/org/rafalohaki/portalsPermission/services/impl/PortalKnockbackService.java:45-69 | nothing iff knockback is off (so nothing before a load); otherwise the shared classifier's target, the configured strength and height, and the sound PlayKnockbackSound picks |
| RefactoredListener.DenialKey | src/main/java/org/rafalohaki/portalsPermission/listeners/RefactoredPortalAccessListener.java:130-145 | the denial message key follows the portal kind: nether, end (portal or gateway), custom otherwise |
| RefactoredListener.HandlePermissions | src/main/java/org/rafalohaki/portalsPermission/listeners/RefactoredPortalAccessListener.java:129-148 | fires iff the permission checker refuses, with the kind's denial message, a cancel, and knockback exactly when it is enabled |
| RefactoredListener.DenialKeyIgnoresTarget | src/main/java/org/rafalohaki/portalsPermission/listeners/RefactoredPortalAccessListener.java:130-145 | a nether portal used from the Nether targets NORMAL yet is refused with the nether message |
| RefactoredListener.DecideCancelsExactly | src/main/java/org/rafalohaki/portalsPermission/listeners/RefactoredPortalAccessListener.java:61-89 | cancelled iff enabled and either a live cooldown (cooldowns on) or a permission refusal |
| RefactoredListener.CancelledStartsNoCooldown | src/main/java/org/rafalohaki/portalsPermission/listeners/RefactoredPortalAccessListener.java:78-88 | a cancelled event adds or extends no cooldown |
| RefactoredListener.BypassStillWaitsForCooldown | src/main/java/org/rafalohaki/portalsPermission/listeners/RefactoredPortalAccessListener.java:78-85 | a bypass holder with a live cooldown is still cancelled, with the remaining-time message |
| RefactoredListener.PassingStartsCooldown | src/main/java/org/rafalohaki/portalsPermission/listeners/RefactoredPortalAccessListener.java:61-169 | with cooldowns on, a passing player is on cooldown from now for exactly the configured seconds |
| RefactoredListener.CooldownsOffOnlyPermissions | src/main/java/org/rafalohaki/portalsPermission/listeners/RefactoredPortalAccessListener.java:99-102 | with cooldowns off the store is untouched and only the permission checker cancels |
| RefactoredListener.RefactoredPortalAccessListener.constructor | src/main/java/org/rafalohaki/portalsPermission/listeners/RefactoredPortalAccessListener.java:40-53 | keeps the two managers |
| RefactoredListener.RefactoredPortalAccessListener.HandleCooldown | src/main/java/org/rafalohaki/portalsPermission/listeners/RefactoredPortalAccessListener.java:99-119 | fires iff cooldowns are on and the entry is live: remaining time, knockback flag, cancel; otherwise only the read's eviction |
| RefactoredListener.RefactoredPortalAccessListener.ApplyCooldown | src/main/java/org/rafalohaki/portalsPermission/listeners/RefactoredPortalAccessListener.java:156-169 | with cooldowns on the player's cooldown starts now |
| RefactoredListener.RefactoredPortalAccessListener.OnPlayerPortal | src/main/java/org/rafalohaki/portalsPermission/listeners/RefactoredPortalAccessListener.java:61-89 | the outcome and the new cooldown store are those of Decide, whose properties are the lemmas above |
| Commands.Dispatch | src/main/java/org/rafalohaki/portalsPermission/commands/PortalsCommand.java:41-67 | no admin node: only the no-permission reply; help iff no argument or "help"; reload, info and cooldown exactly when the lower-cased first argument is that word; invalid usage iff it is none of the four subcommands |
| Commands.DispatchIgnoresCase | src/main/java/org/rafalohaki/portalsPermission/commands/PortalsCommand.java:53 | lower-casing the first argument beforehand changes nothing |
| Commands.CooldownCommandAnswersOnce | src/main/java/org/rafalohaki/portalsPermission/commands/PortalsCommand.java:137-188 | every path of the cooldown subcommand sends exactly one line |
| Commands.CooldownCommandOnlyRemoves | src/main/java/org/rafalohaki/portalsPermission/commands/PortalsCommand.java:137-188 | the subcommand never adds or extends a cooldown |
| Commands.OnlyClearDropsLiveEntries | src/main/java/org/rafalohaki/portalsPermission/commands/PortalsCommand.java:143-186 | any action but clear keeps every live cooldown |
| Commands.ClearPlayerDropsOnlyThem | src/main/java/org/rafalohaki/portalsPermission/commands/PortalsCommand.java:147-158 | clear with a known player drops that player's entry and no other |
| Commands.UnknownPlayerChangesNothing | src/main/java/org/rafalohaki/portalsPermission/commands/PortalsCommand.java:147-177 | an unknown player name changes no cooldown |
| Commands.CheckReportsRemaining | src/main/java/org/rafalohaki/portalsPermission/commands/PortalsCommand.java:179-181 | check on a running cooldown of s seconds reports between 1 and s seconds |
| Commands.MatchesMembers | src/main/java/org/rafalohaki/portalsPermission/commands/PortalsCommand.java:231-254 | a completion is offered iff it is a candidate whose (lower-cased, for names) form starts with the input |
| Commands.MatchesEmptyInput | src/main/java/org/rafalohaki/portalsPermission/commands/PortalsCommand.java:226-235 | empty input offers every candidate in order |
| Commands.MatchesNoLonger | src/main/java/org/rafalohaki/portalsPermission/commands/PortalsCommand.java:231-254 | never more completions than candidates |
| Commands.CollectMatches | src/main/java/org/rafalohaki/portalsPermission/commands/PortalsCommand.java:231-254 | the loop returns the prefix-filtered candidates in order |
| Commands.LegacyToSection | src/main/java/org/rafalohaki/portalsPermission/commands/PortalsCommand.java:214 | same length; position i becomes '§' exactly when it holds an '&' followed by a code character, and keeps its character otherwise |
| Commands.LegacyToSectionDoubleAmpersand | src/main/java/org/rafalohaki/portalsPermission/commands/PortalsCommand.java:214 | an '&' before another '&' stays: "&&a" becomes "&§a" |
| Commands.LegacyToSectionLeavesNoCode | src/main/java/org/rafalohaki/portalsPermission/commands/PortalsCommand.java:214 | no "&" followed by a code character [0-9a-fk-or] remains |
| Commands.LegacyToSectionPlain | src/main/java/org/rafalohaki/portalsPermission/commands/PortalsCommand.java:214 | a string without '&' is unchanged |
| Commands.PortalsCommand.constructor | src/main/java/org/rafalohaki/portalsPermission/commands/PortalsCommand.java:33-38 | keeps the two managers |
| Commands.PortalsCommand.HandleCooldownCommand | src/main/java/org/rafalohaki/portalsPermission/commands/PortalsCommand.java:137-188 | the reply and the new store are those of CooldownCommand, whose properties are the lemmas above |
| Commands.PortalsCommand.OnCommand | src/main/java/org/rafalohaki/portalsPermission/commands/PortalsCommand.java:41-131 | always handled; per dispatched branch the exact replies and state: no permission, help lines, reload (own node, the reloaded configuration and its settings.debug flag in place, reply from it, or a failure line), info, cooldown, invalid usage |
| Commands.PortalsCommand.OnTabComplete | src/main/java/org/rafalohaki/portalsPermission/commands/PortalsCommand.java:219-258 | empty without the admin node; subcommands, cooldown actions or online names filtered by the lower-cased argument; empty for any other shape |

## Left out

- Bukkit events, listeners that only forward to the services, the plugin
  class, the service interfaces and the scheduler are left out. Each
  handler is called directly, with the event's data as parameters.
- Asynchronous execution is left out: `CompletableFuture`, the executors,
  and `ConcurrentHashMap` under concurrent access. Every async operation is
  modelled as if it ran to completion at once and in order.
- The periodic cleanup timers are left out. The sweeps themselves are
  modelled, and they run when called.
- Reading YAML from disk is left out. A load receives the parsed file, and
  `Commands.PortalsCommand.OnCommand` receives `None` for a failed reload.
  The reload's `exceptionally` branch is not modelled; it needs the
  callback itself to throw.
- Config.GetString and the other YAML getters: `getString` on a
  non-string value and number conversion between YAML types are simplified.
  A value of the wrong type falls back to the default.
- Text.Lower: case mapping is ASCII-only. `String.toLowerCase` and
  `equalsIgnoreCase` on other letters are not modelled.
- Java's `int`/`long` widths, overflow and the `float` casts of sound
  volume and pitch are not modelled. Numbers are unbounded integers and
  reals.
- Knockback vector maths is left out: floating point, `sqrt`,
  normalisation, `Math.random` and applying the velocity.
  Knockback.ApplyKnockback returns the inputs the vector is computed from.
- Chat rendering is left out: MiniMessage, Adventure components, colours
  and the MiniMessage error fallback in the message service. A message is
  its icon and its parsed text.
- `PortalAccessListener`'s own knockback and sound code (lines 195-327) is
  left out. It duplicates the knockback service with vector maths and
  registry lookups. Only its `convertLegacySoundFormat` is modelled.
- The sound registry and `SoundService` are left out. Which names resolve
  and play is the `playable` parameter.
- `PortalsCommand`'s info subcommand is modelled as the record of values it
  prints. The plugin version is a parameter. The line formatting of
  doubles is not modelled.
- The server's player lookup (`getPlayer(name)`) is a parameter. Its exact
  and prefix matching rules are not modelled.
- Commands.PortalsCommand.HandleCooldownCommand reads the clock once: the
  check action's two reads (`hasCooldown`, then `getRemainingCooldown`)
  are taken at the same instant.
- AccessListener.PortalAccessListener.OnPlayerPortal takes `hasCooldown`
  and `getRemainingCooldown` at one instant. In the plugin each call reads
  `System.currentTimeMillis()` itself (CooldownManager.java:49 and 74), so a
  cooldown that expires between the two reads cancels the portal with a
  "0 seconds" message and evicts the entry. The model never reports 0 for
  a cancelled portal.
- RefactoredListener.RefactoredPortalAccessListener.HandleCooldown takes
  the same two reads at one instant, with the same consequence.
- RefactoredListener.RefactoredPortalAccessListener.OnPlayerPortal and
  RefactoredListener.Decide inherit that single instant from HandleCooldown.
- Debug logging and warning logs are not modelled.
- Locations whose world is null are not modelled. Every location is in a
  loaded world, except the proximity scan's input, which is `None` when
  the player's world is missing.
- Knockback.ApplyKnockback uses the configuration it is given. The plugin
  passes the same `ConfigManager` instance to every service, and the model
  assumes so only where a contract names it.
