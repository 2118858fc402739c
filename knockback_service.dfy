/**
  PortalKnockbackService: the parts of pushing a denied player back that are
  decisions rather than vector arithmetic: which way the portal leads, and
  which sound (if any) is played.
 */
module Knockback {

  import opened Wrappers
  import opened Host
  import opened Config
  import PermissionChecker
  import Text

  /** getTargetEnvironmentFromLocation: where the portal block at the location leads. */
  function GetTargetEnvironmentFromLocation(portalLocation: Location): (r: Option<Environment>)
    ensures r.None? <==> BlockType(portalLocation) !in {NetherPortalBlock, EndPortalBlock, EndGatewayBlock}
    ensures r == Some(Normal) <==>
      || (BlockType(portalLocation) == NetherPortalBlock && portalLocation.world == Nether)
      || (BlockType(portalLocation) == EndGatewayBlock && portalLocation.world == TheEnd)
    ensures BlockType(portalLocation) == NetherPortalBlock && portalLocation.world != Nether ==> r == Some(Nether)
    ensures BlockType(portalLocation) == EndPortalBlock ==> r == Some(TheEnd)
    ensures BlockType(portalLocation) == EndGatewayBlock && portalLocation.world != TheEnd ==> r == Some(TheEnd)
  {
    match BlockType(portalLocation)
    case NetherPortalBlock => Some(if portalLocation.world == Nether then Normal else Nether)
    case EndPortalBlock => Some(TheEnd)
    case EndGatewayBlock => Some(if portalLocation.world == TheEnd then Normal else TheEnd)
    case _ => None
  }

  /** The knockback classifier and the permission checker's target classifier are the same function. */
  lemma SameAsPermissionChecker(portalLocation: Location)
    ensures GetTargetEnvironmentFromLocation(portalLocation) == PermissionChecker.GetTargetEnvironment(portalLocation)
  {
  }

  /** A sound to play: its name as handed to the sound service, volume and pitch. */
  datatype SoundRequest = SoundRequest(name: string, volume: real, pitch: real)

  const FallbackSound := "ENTITY_PLAYER_HURT"

  /**
    playKnockbackSound. `playable` is the set of names the sound service
    resolves and plays without throwing. Sound off, or a blank name: nothing,
    and no lookup. A playable name is played with the configured volume and
    pitch; otherwise the fallback is played at 0.5 / 1.0 if it can be.
   */
  function PlayKnockbackSound(cm: ConfigManager, playable: set<string>): (r: Option<SoundRequest>)
    reads cm
    ensures !cm.IsKnockbackSoundEnabled() || Text.IsBlank(cm.GetKnockbackSoundType()) ==> r.None?
    ensures r.Some? ==> r.value.name in playable
    ensures r.Some? && r.value.name != cm.GetKnockbackSoundType() ==> r.value == SoundRequest(FallbackSound, 0.5, 1.0)
    ensures cm.IsKnockbackSoundEnabled() && !Text.IsBlank(cm.GetKnockbackSoundType()) && cm.GetKnockbackSoundType() in playable ==>
      r == Some(SoundRequest(cm.GetKnockbackSoundType(), cm.GetKnockbackSoundVolume(), cm.GetKnockbackSoundPitch()))
    ensures (cm.IsKnockbackSoundEnabled() && !Text.IsBlank(cm.GetKnockbackSoundType())
             && cm.GetKnockbackSoundType() !in playable && FallbackSound in playable) ==>
      r == Some(SoundRequest(FallbackSound, 0.5, 1.0))
    ensures cm.IsKnockbackSoundEnabled() && !Text.IsBlank(cm.GetKnockbackSoundType()) ==>
      (r.None? <==> cm.GetKnockbackSoundType() !in playable && FallbackSound !in playable)
  {
    if !cm.IsKnockbackSoundEnabled() then None
    else
      var soundName := cm.GetKnockbackSoundType();
      if Text.IsBlank(soundName) then None
      else if soundName in playable then
        Some(SoundRequest(soundName, cm.GetKnockbackSoundVolume(), cm.GetKnockbackSoundPitch()))
      else if FallbackSound in playable then Some(SoundRequest(FallbackSound, 0.5, 1.0))
      else None
  }

  /** What applyKnockbackAsync does once it runs: the portal's target, the configured strength and height, and the sound. */
  datatype KnockbackRequest = KnockbackRequest(target: Option<Environment>, strength: real, height: real, sound: Option<SoundRequest>)

  /** applyKnockbackAsync, run to completion: nothing when knockback is off. */
  function ApplyKnockback(cm: ConfigManager, portalLocation: Location, playable: set<string>): (r: Option<KnockbackRequest>)
    reads cm
    ensures r.None? <==> !cm.IsKnockbackEnabled()
    ensures r.Some? ==> r.value.target == PermissionChecker.GetTargetEnvironment(portalLocation)
    ensures cm.config.None? ==> r.None?
    ensures r.Some? ==>
      r.value.strength == cm.GetKnockbackStrength() && r.value.height == cm.GetKnockbackHeight()
      && r.value.sound == PlayKnockbackSound(cm, playable)
  {
    if !cm.IsKnockbackEnabled() then None
    else
      SameAsPermissionChecker(portalLocation);
      Some(KnockbackRequest(GetTargetEnvironmentFromLocation(portalLocation), cm.GetKnockbackStrength(),
        cm.GetKnockbackHeight(), PlayKnockbackSound(cm, playable)))
  }
}
