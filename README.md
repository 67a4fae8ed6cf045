# Firefly entity model

A Dafny model of the firefly of the Illuminations mod (`FireFlyEntity`), a
small flying creature that wanders near the ground, is drawn to lit blocks at
night and despawns under several conditions. The model covers:

- the entity's record: the four slots synced through the data manager
  (scale, color, alpha, random tick offset), the `isAttractedByLight` flag
  and the movement state (`groundLevel`, `lightTarget`, the target
  coordinates and `targetChangeCooldown`), as the fields of class
  `FireFlyEntity.FireFly`, with the engine's `removed` flag beside them;
- `tick`, with its throttle, the three removal checks, the cooldown decay,
  the re-selection trigger, which branch sets the vertical speed, and the
  reference comparison that decides the self-move;
- `selectBlockTarget` in both modes, with the 20-step downward ground scan
  and the 15-sample light probe (`getRandomLitBlockAround`);
- `onAddedToWorld`, the registered defaults, the save record
  (`writeAdditional`/`readAdditional`), the spawn packet
  (`writeSpawnData`/`readSpawnData`) and `canSpawn`.

Modules: `JavaInt` (Java `int`/`long` and the truncating `%`), `Host` (block
positions, the world's queries as function values, the entity's physical
state, the random draws), `Behaviour` (the decision rules as functions and the
lemmas about them), `Persistence` (the NBT compound and the spawn packet),
`FireFlyEntity` (the class, whose methods update the fields in place and are
proved against the functions of `Behaviour`).

The world is a value of `Host.World`: `passable` is the block's
`canSpawnInBlock()`, `blockLight`/`skyLight` the light levels,
`playerWithin` the engine's `isPlayerWithin`, plus `isDaytime`,
`isThundering`, `dayTime` and `gameTime`. Random draws are parameters
(`Host.Draws`: three Gaussians, the probe's Gaussian triples, one
`nextInt()`), with the ranges the source draws them from.

What the code does, where it differs from a plain reading of its intent:

- The throttle `gameTime % offset >= 0` (Java remainder) holds for every
  non-negative game time and non-zero offset, so `tick` returns right after
  `super.tick()`; only a negative clock that is not a multiple of the offset
  would reach the rest. A zero offset (a save record without `"tickoffset"`
  loads as 0) makes the remainder throw. `Step` is the body past the
  throttle, callable on its own.
- The day-time removal window is open at both ends: 1000 < dayTime < 12990.
- `remove()` does not end the tick: after any removal condition the
  cooldown, target and motion are still updated.
- Wander mode probes for light when the sky light at the entity is above 8
  and it is night.
- Nothing assigns `isAttractedByLight` after construction. When it is
  false, wander mode is always taken, and it can still set `lightTarget`.
- The vertical speed is pinned to 0.05 when the block just below the
  previous position is not passable.
- `"atracted"` is written and never read back, so a loaded firefly keeps
  the constructor's `true`.
- The re-selection distance is the full 3D squared distance from the centre
  of the entity's block to the target point.
- The cooldown reset `nextInt() % 100` lies in the closed range [-99, 99];
  a non-positive reset forces a new selection on the next step.
- `getPosition() != getTargetPosition()` compares two newly built objects by
  reference, so the move is always applied.
- The spawn packet carries the constant alpha 1.0, not the live alpha.

## Model

| member | source | states |
|---|---|---|
| `JavaInt.JavaRem` | src/main/java/ladysnake/illuminations/entity/FireFlyEntity.java:182 | Java's `%`: the result is smaller in magnitude than the divisor, has the dividend's sign when non-zero, and differs from the dividend by a multiple of the divisor |
| `JavaInt.JavaRemNegativeIff` | src/main/java/ladysnake/illuminations/entity/FireFlyEntity.java:182 | the Java remainder is negative exactly when the dividend is negative and not a multiple of the divisor |
| `JavaInt.RemHundredRange` | src/main/java/ladysnake/illuminations/entity/FireFlyEntity.java:261 | `nextInt() % 100` lies in [-99, 99] for every Java int, and both ends occur |
| `Behaviour.CanSpawn` | src/main/java/ladysnake/illuminations/entity/FireFlyEntity.java:163-173 | spawning is allowed exactly when it is neither day nor thundering |
| `Behaviour.ThrottleAlwaysReturns` | src/main/java/ladysnake/illuminations/entity/FireFlyEntity.java:181-183 | with a non-negative game time and any non-zero offset the throttle guard holds, so `tick` returns early |
| `Behaviour.ThrottleOpensExactly` | src/main/java/ladysnake/illuminations/entity/FireFlyEntity.java:181-183 | the tick body is reached exactly when the game time is negative and not a multiple of the offset |
| `Behaviour.RemovalConditions` | src/main/java/ladysnake/illuminations/entity/FireFlyEntity.java:185-196 | no player near, the open day-time window and burning each trigger removal alone, nothing else does, and 1000 and 12990 are outside the window |
| `Behaviour.CooldownDecay` | src/main/java/ladysnake/illuminations/entity/FireFlyEntity.java:198 | the cooldown drops by 10 exactly when the squared displacement is below 0.0125, by 1 exactly otherwise |
| `Behaviour.CooldownReset` | src/main/java/ladysnake/illuminations/entity/FireFlyEntity.java:261 | the reset cooldown lies in [-99, 99], is negative exactly for negative draws not divisible by 100, and is congruent to the draw modulo 100 |
| `Behaviour.DistanceSqCentered` | src/main/java/ladysnake/illuminations/entity/FireFlyEntity.java:200 | the re-selection distance measure is a non-negative squared distance from the block centre |
| `Behaviour.GroundScanFromFirstHit` | src/main/java/ladysnake/illuminations/entity/FireFlyEntity.java:222-232 | the scan from offset i returns y - j for the first stopping offset j at or after i, and 0 when none before 20 |
| `Behaviour.GroundScanIsFirstHit` | src/main/java/ladysnake/illuminations/entity/FireFlyEntity.java:222-232 | groundLevel is posY - i for the smallest i in [0, 20) whose block is not passable and whose height is not 0, and 0 exactly when there is no such i |
| `Behaviour.GroundScanReadsTwentyBlocks` | src/main/java/ladysnake/illuminations/entity/FireFlyEntity.java:223-226 | the scan depends on at most the 20 blocks straight below: worlds agreeing there give the same ground level |
| `Behaviour.ClampedY` | src/main/java/ladysnake/illuminations/entity/FireFlyEntity.java:235 | the clamped height lies in [ground, ground + 4] and equals the drawn height when that is already inside |
| `Behaviour.WanderY` | src/main/java/ladysnake/illuminations/entity/FireFlyEntity.java:235-239 | the wander height is the clamped height raised by exactly 1 when its block is passable, so it lies in [ground, ground + 5] |
| `Behaviour.SampleMapContents` | src/main/java/ladysnake/illuminations/entity/FireFlyEntity.java:267-273 | the probe's map holds exactly the sampled positions, each valued by its block light (overwriting a duplicate changes nothing), has at most as many entries as samples and is never empty |
| `Behaviour.MaxSampleLightIsMax` | src/main/java/ladysnake/illuminations/entity/FireFlyEntity.java:268-274 | the reference maximum is the light of some sample and at least that of every sample |
| `Behaviour.BrightestHasMaxLight` | src/main/java/ladysnake/illuminations/entity/FireFlyEntity.java:274 | a key is maximal in the probe's map exactly when it is a sampled position whose light is the samples' maximum |
| `Behaviour.WanderSelectionBounds` | src/main/java/ladysnake/illuminations/entity/FireFlyEntity.java:234-242 | after a wander selection the target height is in [ground, ground + 5], the light target changed only at night with sky light above 8, and the cooldown is in [-99, 99] |
| `Behaviour.LightTargetOnlyBrightens` | src/main/java/ladysnake/illuminations/entity/FireFlyEntity.java:250-258 | in light-seeking mode the light target is dropped when block light here is at most 8 or it is day, never gets darker, and changes only to a strictly brighter block |
| `Behaviour.StepKeepsCooldownBound` | src/main/java/ladysnake/illuminations/entity/FireFlyEntity.java:198-201 | a step keeps the cooldown in [-99, 99], so the Java int decrement never wraps |
| `Behaviour.SentinelForcesSelection` | src/main/java/ladysnake/illuminations/entity/FireFlyEntity.java:200-201 | with the all-zero target a step always selects a new target |
| `Persistence.SaveRecord` | src/main/java/ladysnake/illuminations/entity/FireFlyEntity.java:139-149 | the record keeps the caller's other keys, adds the five keys, and reads back scale, color, alpha and tick offset unchanged; the flag sits under "atracted" |
| `Persistence.SpawnPacket` | src/main/java/ladysnake/illuminations/entity/FireFlyEntity.java:284-290 | the packet appends scale, color and the constant alpha 1.0 to the buffer |
| `FireFlyEntity.MaxEntry` | src/main/java/ladysnake/illuminations/entity/FireFlyEntity.java:274 | the stream maximum of a non-empty map is a key whose value is at least every other value, whatever the visiting order |
| `FireFlyEntity.FireFly.constructor` | src/main/java/ladysnake/illuminations/entity/FireFlyEntity.java:45-67 | registered defaults scale = color = alpha = 1 and offset 20, attracted by light, zero target, cooldown 0, no light target |
| `FireFlyEntity.FireFly.OnAddedToWorld` | src/main/java/ladysnake/illuminations/entity/FireFlyEntity.java:73-81 | sets scale and color and a tick offset in [20, 40) from `nextInt(20) + 20`; nothing else changes |
| `FireFlyEntity.FireFly.SetAlpha` | src/main/java/ladysnake/illuminations/entity/FireFlyEntity.java:114-118 | replaces the alpha slot only |
| `FireFlyEntity.FireFly.WriteAdditional` | src/main/java/ladysnake/illuminations/entity/FireFlyEntity.java:139-149 | the written compound is the save record of the current slots and flag |
| `FireFlyEntity.FireFly.ReadAdditional` | src/main/java/ladysnake/illuminations/entity/FireFlyEntity.java:152-161 | loads scale, color, alpha and tick offset (0 when absent) and leaves the flag and movement state as they were |
| `FireFlyEntity.FireFly.WriteSpawnData` | src/main/java/ladysnake/illuminations/entity/FireFlyEntity.java:284-290 | the buffer gains the spawn packet of the current scale and color, with alpha 1.0 whatever the live alpha |
| `FireFlyEntity.FireFly.ReadSpawnData` | src/main/java/ladysnake/illuminations/entity/FireFlyEntity.java:293-300 | reads scale, color, alpha in order; a short buffer fails after setting the slots read so far |
| `FireFlyEntity.FireFly.GetTargetPosition` | src/main/java/ladysnake/illuminations/entity/FireFlyEntity.java:277-281 | returns a new object holding the block half a block above the target |
| `FireFlyEntity.FireFly.GetRandomLitBlockAround` | src/main/java/ladysnake/illuminations/entity/FireFlyEntity.java:264-275 | the loop builds the probe's map from the 15 samples and returns one of its brightest keys |
| `FireFlyEntity.FireFly.SelectBlockTarget` | src/main/java/ladysnake/illuminations/entity/FireFlyEntity.java:217-262 | the new movement state is a selection of the old one in the mode the light target and flag choose, with the cooldown reset from the draw |
| `FireFlyEntity.FireFly.SelectWanderTarget` | src/main/java/ladysnake/illuminations/entity/FireFlyEntity.java:220-243 | the ground scan loop leaves the first-hit ground level; the target is drawn around the server position with the clamped, nudged height; the light target is set to a brightest sample only at night with sky light above 8 |
| `FireFlyEntity.FireFly.FollowLightTarget` | src/main/java/ladysnake/illuminations/entity/FireFlyEntity.java:244-259 | the target is the jittered light target; a strictly brighter probe result replaces it when block light here is above 8; it is dropped when that light is at most 8 or it is day |
| `FireFlyEntity.FireFly.UpdateTarget` | src/main/java/ladysnake/illuminations/entity/FireFlyEntity.java:198-201 | decays the cooldown and selects exactly when the target is the zero sentinel, is within squared distance 9, or the decayed cooldown is at most 0 |
| `FireFlyEntity.FireFly.Step` | src/main/java/ladysnake/illuminations/entity/FireFlyEntity.java:185-214 | removal is flagged exactly on one of the three conditions and the step continues regardless; the target update follows; the vertical speed is pinned exactly when the block below is not passable; the move is always applied |
| `FireFlyEntity.FireFly.Tick` | src/main/java/ladysnake/illuminations/entity/FireFlyEntity.java:176-215 | a zero offset throws; otherwise the early return happens exactly when the Java remainder is non-negative, so with a non-negative clock nothing changes |
| `FireFlyEntity.SaveAndLoad` | src/main/java/ladysnake/illuminations/entity/FireFlyEntity.java:139-161 | a firefly loaded from another's save record has the same four slots and is attracted by light whatever the saved flag was |
| `FireFlyEntity.SpawnOnObserver` | src/main/java/ladysnake/illuminations/entity/FireFlyEntity.java:284-300 | an observer decoding the spawn packet gets the sender's scale and color and alpha 1.0 |

## Left out

- `super.tick()`, `super.onAddedToWorld()`, the entity's own save keys written and read by `super.writeAdditional`/`super.readAdditional`, and `move(MoverType.SELF, …)` physics: engine behaviour.
- The velocity normalisation and blend (lines 203-211): floating-point motion arithmetic; `Step` reports only whether the move is applied and which branch sets the vertical speed. When the target equals the previous position, line 205 divides 0.1 by a zero length, which with Java doubles yields infinite or NaN components rather than an exception; this is not modelled.
- Floating-point rounding: doubles and floats are `real`. The scale and color draws of `onAddedToWorld` (`0.1 + nextFloat() * 0.15`, `0.25 + nextFloat() * 0.75`) are taken as the resulting values, so their ranges are not stated.
- Random draws are parameters; the order in which the generator is consumed is not modelled.
- World queries (block state, light levels, `isPlayerWithin`, day time, game time) are oracle values of `Host.World`; how the engine computes them, and that `getDayTime()` is not reduced modulo a day, are outside the model.
- The relation between `serverPosX/Y/Z` and the entity's position is engine behaviour; the server coordinates are an unbounded integer triple, so `long` overflow of `serverPosY - i` is not modelled.
- `groundLevel` is a double in the source and an `int` here: it is only ever assigned integer values.
- `EntityDataManager` replication: the synced slots are plain fields, and later data-manager updates to an observer are not modelled.
- `onInitialSpawn` (lines 86-94), which the source's own comment says is never called.
- `canDespawn`, `nextAlphaGoal` with its getter and setter, and the plain getters of the slots: dead or scratch state, or direct field reads.
- NBT type conversions: a tag of another numeric kind stored under one of the keys reads as absent (0) here, where the engine would convert it.
- The spawn packet is a sequence of float values; its byte encoding is not modelled.
- FireFlyEntity.MaxEntry: states only that a brightest key is returned; which of several equally bright keys depends on hash-map iteration order (the last one visited wins), which is not modelled.
- FireFlyEntity.FireFly.GetRandomLitBlockAround: for the same reason fixes the returned key only up to equally bright samples.
- IlluminationsBlockRegistry.java: event-bus registration with no logic.
