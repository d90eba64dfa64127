/**
 * Shared value types of the model crate: land types, map modes, blocks,
 * planes and lands. `Block`, `Plane`, `PlaneDir` and `Land` are declared in
 * model-crate files that are not part of this model; their fields are the
 * ones the generator reads and writes.
 */
module Types {
  import opened Unsigned
  import opened Vec2

  datatype LandType = Empty | Crown | City | Desert | Lookout | Observatory | Satellite | Swamp

  datatype GMMode = Hexagon | Square | Triangle

  /** Number of side faces of a block in each mode. */
  function Sides(mode: GMMode): (n: nat)
    ensures mode == Square ==> n == 4
    ensures 3 <= n <= 6
  {
    match mode
    case Square => 4
    case Hexagon => 6
    case Triangle => 3
  }

  /** A coordinate of type `u32` (`BlockVec`, `BlockYIndex`). */
  predicate IsU32(x: int) { InRange(x, U32_MOD) }

  /** A voxel of the lattice: a `u32` column position and a `u32` layer. */
  datatype Block = Block(pos: Vec2, yIndex: int)

  predicate ValidBlock(b: Block) { Fits(b.pos, U32) && IsU32(b.yIndex) }

  /** Face directions; `Side(d)` carries a `u8` face index. */
  datatype PlaneDir = Top | Bottom | Side(d: nat)

  datatype Plane = Plane(block: Block, dir: PlaneDir)

  /** A land: its type, owner colour (`u8`, 0 = nobody) and unit amount (`u32`). */
  datatype Land = Land(landType: LandType, color: nat, amount: nat)

  /** `Land::default()`. */
  const DefaultLand := Land(Empty, 0, 0)

  /**
   * `GMConfig`: the player count (`u8`), four ratios in [0, 1] and the mode.
   * The ratios are f64 in the source and exact reals here.
   */
  datatype GMConfig = GMConfig(
    playerCount: nat, width: real, height: real, cityDensity: real, yRatio: real, mode: GMMode)

  ghost predicate ValidConfig(c: GMConfig) {
    c.playerCount < 0x100 &&
    0.0 <= c.width <= 1.0 && 0.0 <= c.height <= 1.0 &&
    0.0 <= c.cityDensity <= 1.0 && 0.0 <= c.yRatio <= 1.0
  }

  /** What the pipeline reports where the source panics. */
  datatype GenError = UnsupportedMode | UnsupportedDirection
}
