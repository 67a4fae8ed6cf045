/** What the firefly consumes from the game engine: block positions,
    the world's queries, the entity's own physical state as the engine keeps
    it, and the random draws of one tick. */
module Host {
  import opened JavaInt

  datatype Option<T> = None | Some(value: T)

  /** An integer block coordinate (`BlockPos`). */
  datatype BlockPos = BlockPos(x: int, y: int, z: int)

  /** A point or vector of doubles (rounding is not modelled). */
  datatype Vec3 = Vec3(x: real, y: real, z: real)

  /** `new BlockPos(x, y, z)` from doubles floors each coordinate. */
  function ToBlockPos(x: real, y: real, z: real): (p: BlockPos)
    ensures p.x as real <= x < p.x as real + 1.0
    ensures p.y as real <= y < p.y as real + 1.0
    ensures p.z as real <= z < p.z as real + 1.0
  {
    BlockPos(x.Floor, y.Floor, z.Floor)
  }

  /** The world as the firefly sees it. The queries are oracles supplied by
      the engine:
      - `passable(p)`: `canSpawnInBlock()` of the block at p;
      - `blockLight(p)`, `skyLight(p)`: the block and sky light levels at p;
      - `playerWithin(p, r)`: `isPlayerWithin` around p with radius r;
      and the clock and weather of the current tick. */
  datatype World = World(
    passable: BlockPos -> bool,
    blockLight: BlockPos -> int,
    skyLight: BlockPos -> int,
    playerWithin: (BlockPos, real) -> bool,
    despawnRadius: real,
    isDaytime: bool,
    isThundering: bool,
    dayTime: int64,
    gameTime: int64)

  /** The physical state the engine keeps for the entity: its current and
      previous positions, its server-side coordinates and whether it burns. */
  datatype Body = Body(pos: Vec3, prev: Vec3, server: BlockPos, burning: bool)

  /** `getPosition()`: the block the entity is in. */
  function BlockPosition(b: Body): BlockPos
  {
    ToBlockPos(b.pos.x, b.pos.y, b.pos.z)
  }

  /** Squared distance between the current and the previous position. */
  function DisplacementSq(b: Body): (d: real)
    ensures d >= 0.0
  {
    var dx, dy, dz := b.pos.x - b.prev.x, b.pos.y - b.prev.y, b.pos.z - b.prev.z;
    dx * dx + dy * dy + dz * dz
  }

  /** The block 0.1 below the previous position. */
  function BelowPrevious(b: Body): BlockPos
  {
    ToBlockPos(b.prev.x, b.prev.y - 0.1, b.prev.z)
  }

  /** Random draws consumed by one target selection: three Gaussians for the
      new target, the Gaussian triples of the light probe's samples, and one
      full-range `nextInt()`. */
  datatype Draws = Draws(gauss: Vec3, probe: seq<Vec3>, nextInt: int32)
}
