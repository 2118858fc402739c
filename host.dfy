/**
  The parts of the game host the decision engine looks at, reduced to values:
  world environments, block materials, a location with a way to read the
  block at an offset from it, entities and their passengers.
 */
module Host {

  import opened Wrappers

  /** Entities and players are identified by their UUID. */
  type Uuid = nat

  /** World.Environment. */
  datatype Environment = Normal | Nether | TheEnd | Custom

  /**
    org.bukkit.Material, with the four portal materials named and every other
    material carried by its enum constant name. OtherBlock never carries
    one of the four names given their own constructor (see IsCanonical), so
    each material has exactly one representation.
   */
  datatype Material =
    | NetherPortalBlock
    | EndPortalBlock
    | EndGatewayBlock
    | EndPortalFrameBlock
    | OtherBlock(name: string)

  /** Material.name(). */
  function MaterialName(m: Material): string {
    match m
    case NetherPortalBlock => "NETHER_PORTAL"
    case EndPortalBlock => "END_PORTAL"
    case EndGatewayBlock => "END_GATEWAY"
    case EndPortalFrameBlock => "END_PORTAL_FRAME"
    case OtherBlock(name) => name
  }

  /** A material written in its one representation: OtherBlock holds none of the four reserved names. */
  predicate IsCanonical(m: Material) {
    m.OtherBlock? ==> m.name !in {"NETHER_PORTAL", "END_PORTAL", "END_GATEWAY", "END_PORTAL_FRAME"}
  }

  /** On materials in their one representation, the name determines the material. */
  lemma MaterialNameInjective(a: Material, b: Material)
    requires IsCanonical(a) && IsCanonical(b)
    requires MaterialName(a) == MaterialName(b)
    ensures a == b
  {
  }

  /** The block type at offset (x, y, z) from a location, as the host world reports it. */
  type BlockLookup = (int, int, int) -> Material

  /** A location inside a loaded world. */
  datatype Location = Location(world: Environment, blockAt: BlockLookup)

  /** location.getBlock().getType(). */
  function BlockType(l: Location): Material {
    l.blockAt(0, 0, 0)
  }

  /** An entity and what the handlers test it for: Player, Vehicle (with its passengers) or neither. */
  datatype Entity = Entity(id: Uuid, kind: EntityKind)

  datatype EntityKind = PlayerEntity | VehicleEntity(passengers: seq<Entity>) | OtherEntity

  /**
    What a PlayerPortalEvent handler does to the event and the player:
    whether it cancels the event, the message it sends (if any) and whether it
    asks the knockback service to push the player back.
   */
  datatype PortalEffects = PortalEffects(cancelled: bool, message: Option<string>, knockback: bool)
}
