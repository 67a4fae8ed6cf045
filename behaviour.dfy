/** The decision rules of the firefly's tick, as functions of the values
    they read, and the facts proved about them. The class in FireFlyEntity
    runs these rules on its fields. */
module Behaviour {
  import opened JavaInt
  import opened Host

  // ---------------------------------------------------------------- spawning

  /** `canSpawn`: fireflies spawn only when it is neither day nor thundering. */
  function CanSpawn(w: World): (ok: bool)
    ensures ok ==> !w.isDaytime && !w.isThundering
    ensures !w.isDaytime && !w.isThundering ==> ok
  {
    if w.isDaytime then false
    else if w.isThundering then false
    else true
  }

  // ---------------------------------------------------------------- throttle

  /** The guard of `tick`: the method returns straight away when the game
      time's Java remainder by the tick offset is non-negative. */
  predicate ReturnsEarly(gameTime: int, offset: int)
    requires offset != 0
  {
    JavaRem(gameTime, offset) >= 0
  }

  /** With a non-negative clock the guard is always true, whatever the
      non-zero offset: the rest of `tick` never runs. */
  lemma ThrottleAlwaysReturns(gameTime: int, offset: int)
    requires gameTime >= 0 && offset != 0
    ensures ReturnsEarly(gameTime, offset)
  {
    JavaRemNonNegative(gameTime, offset);
  }

  /** The rest of `tick` runs exactly when the clock is negative and not a
      multiple of the offset. */
  lemma ThrottleOpensExactly(gameTime: int, offset: int)
    requires offset != 0
    ensures !ReturnsEarly(gameTime, offset) <==> gameTime < 0 && gameTime % Abs(offset) != 0
  {
    JavaRemNegativeIff(gameTime, offset);
  }

  // ---------------------------------------------------------------- removal

  const DaytimeStart: int := 1000
  const DaytimeEnd: int := 12990

  /** The day-time window of the removal check, open at both ends. */
  predicate InDaytimeWindow(dayTime: int)
  {
    DaytimeStart < dayTime < DaytimeEnd
  }

  /** The three independent conditions under which a tick calls `remove()`. */
  predicate RemovalDue(w: World, b: Body)
  {
    || !w.playerWithin(b.server, w.despawnRadius)
    || InDaytimeWindow(w.dayTime as int)
    || b.burning
  }

  /** Each removal condition suffices on its own, and removal happens only
      through one of them; the window excludes both of its ends. */
  lemma RemovalConditions(w: World, b: Body)
    ensures !w.playerWithin(b.server, w.despawnRadius) ==> RemovalDue(w, b)
    ensures InDaytimeWindow(w.dayTime as int) ==> RemovalDue(w, b)
    ensures b.burning ==> RemovalDue(w, b)
    ensures RemovalDue(w, b) && w.playerWithin(b.server, w.despawnRadius) && !b.burning
            ==> 1000 < w.dayTime as int < 12990
    ensures !InDaytimeWindow(1000) && !InDaytimeWindow(12990) && InDaytimeWindow(1001) && InDaytimeWindow(12989)
  {
  }

  // ---------------------------------------------------------------- cooldown

  const StationaryThreshold: real := 0.0125

  /** How much the cooldown drops in one tick: 10 when the entity barely
      moved since the previous tick, 1 otherwise. */
  function CooldownDecay(b: Body): (d: int)
    ensures d == 10 <==> DisplacementSq(b) < StationaryThreshold
    ensures d == 1 <==> DisplacementSq(b) >= StationaryThreshold
  {
    if DisplacementSq(b) < StationaryThreshold then 10 else 1
  }

  /** The cooldown set by a target selection: `nextInt() % 100` with Java's
      remainder, which may be negative. */
  function CooldownReset(r: int32): (c: int)
    ensures -99 <= c <= 99
    ensures c < 0 <==> r < 0 && (r as int) % 100 != 0
    ensures (r as int - c) % 100 == 0
  {
    JavaRemNegativeIff(r as int, 100);
    JavaRem(r as int, 100)
  }

  // ---------------------------------------------------------------- targets

  /** The movement state a target selection reads and writes. */
  datatype TargetState = TargetState(
    x: real, y: real, z: real,
    ground: int,
    light: Option<BlockPos>,
    cooldown: int)

  /** `getPosition().distanceSq(x, y, z, true)`: squared distance from the
      centre of block p to the point (x, y, z). */
  function DistanceSqCentered(p: BlockPos, x: real, y: real, z: real): (d: real)
    ensures d >= 0.0
  {
    var dx, dy, dz := p.x as real + 0.5 - x, p.y as real + 0.5 - y, p.z as real + 0.5 - z;
    dx * dx + dy * dy + dz * dz
  }

  /** A new target is chosen when there is none yet (the zero sentinel),
      when the entity is within distance 3 of it, or when the cooldown,
      already decayed, is used up. */
  predicate ReselectionDue(s: TargetState, here: BlockPos, decayed: int)
  {
    || (s.x == 0.0 && s.y == 0.0 && s.z == 0.0)
    || DistanceSqCentered(here, s.x, s.y, s.z) < 9.0
    || decayed <= 0
  }

  /** `getTargetPosition()`: the block half a block above the target point. */
  function TargetBlockPos(x: real, y: real, z: real): BlockPos
  {
    ToBlockPos(x, y + 0.5, z)
  }

  // ---------------------------------------------------------------- ground scan

  const GroundScanDepth: nat := 20

  /** The block i below the server position stops the scan: it is not
      passable and its height is not 0 (a height of 0 cannot be told apart
      from "not found" by the source's `groundLevel != 0` test). */
  predicate GroundHit(w: World, s: BlockPos, i: int)
  {
    !w.passable(ScanBlock(s, i)) && s.y - i != 0
  }

  /** The block i below the server position. */
  function ScanBlock(s: BlockPos, i: int): BlockPos
  {
    BlockPos(s.x, s.y - i, s.z)
  }

  /** The downward scan from offset i on. */
  function GroundScanFrom(w: World, s: BlockPos, i: nat): int
    requires i <= GroundScanDepth
    decreases GroundScanDepth - i
  {
    if i == GroundScanDepth then 0
    else if GroundHit(w, s, i) then s.y - i
    else GroundScanFrom(w, s, i + 1)
  }

  /** The ground level found below the server position, 0 when none. */
  function GroundScan(w: World, s: BlockPos): int
  {
    GroundScanFrom(w, s, 0)
  }

  /** The scan from i finds the first hit at or after i, and 0 when there
      is none before the depth. */
  lemma {:induction false} GroundScanFromFirstHit(w: World, s: BlockPos, i: nat)
    requires i <= GroundScanDepth
    ensures GroundScanFrom(w, s, i) == 0 ==> forall j :: i <= j < GroundScanDepth ==> !GroundHit(w, s, j)
    ensures GroundScanFrom(w, s, i) != 0 ==>
      exists j :: i <= j < GroundScanDepth && GroundHit(w, s, j) && GroundScanFrom(w, s, i) == s.y - j
                  && forall k :: i <= k < j ==> !GroundHit(w, s, k)
    decreases GroundScanDepth - i
  {
    if i < GroundScanDepth && !GroundHit(w, s, i) {
      GroundScanFromFirstHit(w, s, i + 1);
      if GroundScanFrom(w, s, i) != 0 {
        var j :| i + 1 <= j < GroundScanDepth && GroundHit(w, s, j) && GroundScanFrom(w, s, i + 1) == s.y - j
                 && forall k :: i + 1 <= k < j ==> !GroundHit(w, s, k);
        assert forall k :: i <= k < j ==> !GroundHit(w, s, k);
      }
    }
  }

  /** The ground level is s.y - i for the smallest offset i below 20 whose
      block stops the scan, and 0 when no such offset exists. */
  lemma GroundScanIsFirstHit(w: World, s: BlockPos)
    ensures GroundScan(w, s) == 0 <==> forall j :: 0 <= j < GroundScanDepth ==> !GroundHit(w, s, j)
    ensures GroundScan(w, s) != 0 ==>
      exists j :: 0 <= j < GroundScanDepth && GroundHit(w, s, j) && GroundScan(w, s) == s.y - j
                  && forall k :: 0 <= k < j ==> !GroundHit(w, s, k)
  {
    GroundScanFromFirstHit(w, s, 0);
  }

  /** The scan looks at no more than the 20 blocks straight below the
      server position: two worlds that agree there give the same ground. */
  lemma {:induction false} GroundScanReadsTwentyBlocks(w1: World, w2: World, s: BlockPos, i: nat)
    requires i <= GroundScanDepth
    requires forall j :: 0 <= j < GroundScanDepth ==> w1.passable(ScanBlock(s, j)) == w2.passable(ScanBlock(s, j))
    ensures GroundScanFrom(w1, s, i) == GroundScanFrom(w2, s, i)
    decreases GroundScanDepth - i
  {
    if i < GroundScanDepth {
      GroundScanReadsTwentyBlocks(w1, w2, s, i + 1);
    }
  }

  // ---------------------------------------------------------------- wander target

  function Min(a: real, b: real): real { if a <= b then a else b }
  function Max(a: real, b: real): real { if a >= b then a else b }

  /** The vertical target before the passability nudge:
      `min(max(y', ground), ground + 4)`. */
  function ClampedY(drawnY: real, ground: int): (y: real)
    ensures ground as real <= y <= ground as real + 4.0
    ensures ground as real <= drawnY <= ground as real + 4.0 ==> y == drawnY
  {
    Min(Max(drawnY, ground as real), ground as real + 4.0)
  }

  /** The wander target's height: the clamped height, raised by exactly 1
      when the block it falls in is passable. */
  function WanderY(w: World, x: real, drawnY: real, z: real, ground: int): (y: real)
    ensures ground as real <= y <= ground as real + 5.0
    ensures y == ClampedY(drawnY, ground) + (if w.passable(ToBlockPos(x, ClampedY(drawnY, ground), z)) then 1.0 else 0.0)
  {
    var y0 := ClampedY(drawnY, ground);
    if w.passable(ToBlockPos(x, y0, z)) then y0 + 1.0 else y0
  }

  // ---------------------------------------------------------------- light probe

  const ProbeSamples: nat := 15

  /** One probe sample: the block at the server position shifted by ten
      times each Gaussian. */
  function SamplePos(s: BlockPos, g: Vec3): BlockPos
  {
    ToBlockPos(s.x as real + g.x * 10.0, s.y as real + g.y * 10.0, s.z as real + g.z * 10.0)
  }

  /** The probe's map after putting the samples in order: each sample maps to
      its block light, a later equal position overwriting the earlier one. */
  function SampleMap(w: World, s: BlockPos, probe: seq<Vec3>): map<BlockPos, int>
  {
    if probe == [] then map[]
    else
      var p := SamplePos(s, probe[|probe| - 1]);
      SampleMap(w, s, probe[..|probe| - 1])[p := w.blockLight(p)]
  }

  /** The set of sampled positions. */
  function Sampled(s: BlockPos, probe: seq<Vec3>): set<BlockPos>
  {
    set g | g in probe :: SamplePos(s, g)
  }

  /** The probe's map holds exactly the sampled positions, each with its own
      block light, and no more entries than samples; it is empty only when
      there are no samples. */
  lemma {:induction false} SampleMapContents(w: World, s: BlockPos, probe: seq<Vec3>)
    ensures SampleMap(w, s, probe).Keys == Sampled(s, probe)
    ensures forall p :: p in SampleMap(w, s, probe) ==> SampleMap(w, s, probe)[p] == w.blockLight(p)
    ensures |SampleMap(w, s, probe)| <= |probe|
    ensures |probe| > 0 ==> |SampleMap(w, s, probe)| > 0
  {
    SampleMapKeys(w, s, probe);
    SampleMapValues(w, s, probe);
    SampleMapSize(w, s, probe);
  }

  lemma {:induction false} SampleMapKeys(w: World, s: BlockPos, probe: seq<Vec3>)
    ensures SampleMap(w, s, probe).Keys == Sampled(s, probe)
  {
    if probe != [] {
      var last := probe[|probe| - 1];
      var init := probe[..|probe| - 1];
      SampleMapKeys(w, s, init);
      assert probe == init + [last];
      forall g | g in probe ensures g in init || g == last {
      }
      assert Sampled(s, probe) == Sampled(s, init) + {SamplePos(s, last)};
    }
  }

  lemma {:induction false} SampleMapValues(w: World, s: BlockPos, probe: seq<Vec3>)
    ensures forall p :: p in SampleMap(w, s, probe) ==> SampleMap(w, s, probe)[p] == w.blockLight(p)
  {
    if probe != [] {
      SampleMapValues(w, s, probe[..|probe| - 1]);
    }
  }

  lemma {:induction false} SampleMapSize(w: World, s: BlockPos, probe: seq<Vec3>)
    ensures |SampleMap(w, s, probe)| <= |probe|
    ensures |probe| > 0 ==> |SampleMap(w, s, probe)| > 0
  {
    if probe != [] {
      var p := SamplePos(s, probe[|probe| - 1]);
      var m0 := SampleMap(w, s, probe[..|probe| - 1]);
      SampleMapSize(w, s, probe[..|probe| - 1]);
      assert p in SampleMap(w, s, probe);
      if p in m0 {
        assert m0[p := w.blockLight(p)].Keys == m0.Keys;
      }
    }
  }

  /** The brightest level among the samples. */
  function MaxSampleLight(w: World, s: BlockPos, probe: seq<Vec3>): int
    requires |probe| > 0
  {
    var last := w.blockLight(SamplePos(s, probe[|probe| - 1]));
    if |probe| == 1 then last
    else
      var rest := MaxSampleLight(w, s, probe[..|probe| - 1]);
      if rest >= last then rest else last
  }

  /** MaxSampleLight is the light of some sample and at least that of every
      sample. */
  lemma {:induction false} MaxSampleLightIsMax(w: World, s: BlockPos, probe: seq<Vec3>)
    requires |probe| > 0
    ensures forall g :: g in probe ==> w.blockLight(SamplePos(s, g)) <= MaxSampleLight(w, s, probe)
    ensures exists g :: g in probe && w.blockLight(SamplePos(s, g)) == MaxSampleLight(w, s, probe)
  {
    var init := probe[..|probe| - 1];
    assert probe == init + [probe[|probe| - 1]];
    if |probe| > 1 {
      MaxSampleLightIsMax(w, s, init);
    }
  }

  /** What the probe returns: a key of the map whose value no other value
      exceeds. */
  ghost predicate IsBrightestSample(w: World, s: BlockPos, probe: seq<Vec3>, p: BlockPos)
  {
    var m := SampleMap(w, s, probe);
    p in m && forall q :: q in m ==> m[q] <= m[p]
  }

  /** The maximal keys of the probe's map are exactly the sampled positions
      whose light is the samples' maximum. */
  lemma BrightestHasMaxLight(w: World, s: BlockPos, probe: seq<Vec3>, p: BlockPos)
    requires |probe| > 0
    ensures IsBrightestSample(w, s, probe, p) <==>
              p in Sampled(s, probe) && w.blockLight(p) == MaxSampleLight(w, s, probe)
  {
    SampleMapContents(w, s, probe);
    MaxSampleLightIsMax(w, s, probe);
    var m := SampleMap(w, s, probe);
    if IsBrightestSample(w, s, probe, p) {
      var g :| g in probe && w.blockLight(SamplePos(s, g)) == MaxSampleLight(w, s, probe);
      assert SamplePos(s, g) in m;
    }
    if p in Sampled(s, probe) && w.blockLight(p) == MaxSampleLight(w, s, probe) {
      forall q | q in m ensures m[q] <= m[p] {
        var g :| g in probe && q == SamplePos(s, g);
      }
    }
  }

  // ---------------------------------------------------------------- target selection

  /** Wander mode is taken when there is no light target or the entity is
      not attracted by light; otherwise light-seeking mode. */
  predicate Wanders(s: TargetState, attracted: bool)
  {
    s.light.None? || !attracted
  }

  /** The relation between the movement state before (s) and after (t) one
      `selectBlockTarget`, for the given world, entity and random draws. */
  ghost predicate Selection(s: TargetState, t: TargetState, attracted: bool, w: World, b: Body, d: Draws)
    requires |d.probe| > 0
  {
    && t.cooldown == CooldownReset(d.nextInt)
    && if Wanders(s, attracted) then WanderSelection(s, t, w, b, d) else LightSelection(s, t, w, b, d)
  }

  /** Wander mode: the ground scan runs, the target is drawn around the
      server position with its height clamped above the ground and nudged
      up out of passable blocks, and the probe sets a light target only at
      night with sky light above 8. The probe's pick among equally bright
      samples depends on hash-map iteration order, so the relation fixes
      only that it is a brightest sample. */
  ghost predicate WanderSelection(s: TargetState, t: TargetState, w: World, b: Body, d: Draws)
  {
    var x := b.server.x as real + d.gauss.x * 10.0;
    var z := b.server.z as real + d.gauss.z * 10.0;
    && t.ground == GroundScan(w, b.server)
    && t.x == x && t.z == z
    && t.y == WanderY(w, x, b.server.y as real + d.gauss.y * 2.0, z, t.ground)
    && if w.skyLight(BlockPosition(b)) > 8 && !w.isDaytime
       then t.light.Some? && IsBrightestSample(w, b.server, d.probe, t.light.value)
       else t.light == s.light
  }

  /** Light-seeking mode: the target is the light target jittered by one
      Gaussian per axis; with block light above 8 where the entity is, a
      strictly brighter probe result replaces the light target; with block
      light at most 8 there, or by day, the light target is dropped. */
  ghost predicate LightSelection(s: TargetState, t: TargetState, w: World, b: Body, d: Draws)
    requires s.light.Some? && |d.probe| > 0
  {
    var lt := s.light.value;
    var here := BlockPosition(b);
    && t.ground == s.ground
    && t.x == lt.x as real + d.gauss.x
    && t.y == lt.y as real + d.gauss.y
    && t.z == lt.z as real + d.gauss.z
    && if w.blockLight(here) <= 8 || w.isDaytime then t.light.None?
       else if MaxSampleLight(w, b.server, d.probe) > w.blockLight(lt)
       then t.light.Some? && IsBrightestSample(w, b.server, d.probe, t.light.value)
       else t.light == s.light
  }

  /** A selection in wander mode leaves the target height within
      [ground, ground + 5] and sets a light target only at night with sky
      light above 8. */
  lemma WanderSelectionBounds(s: TargetState, t: TargetState, attracted: bool, w: World, b: Body, d: Draws)
    requires |d.probe| > 0
    requires Selection(s, t, attracted, w, b, d) && Wanders(s, attracted)
    ensures t.ground as real <= t.y <= t.ground as real + 5.0
    ensures t.light != s.light ==> w.skyLight(BlockPosition(b)) > 8 && !w.isDaytime
    ensures -99 <= t.cooldown <= 99
  {
  }

  /** In light-seeking mode a light target that survives the selection is
      at least as bright as before, and one that changed is strictly
      brighter. The light target is dropped whenever the block light where
      the entity is is at most 8 or it is day. */
  lemma {:induction false} LightTargetOnlyBrightens(s: TargetState, t: TargetState, w: World, b: Body, d: Draws)
    requires |d.probe| > 0
    requires Selection(s, t, true, w, b, d) && s.light.Some?
    ensures w.blockLight(BlockPosition(b)) <= 8 || w.isDaytime ==> t.light.None?
    ensures t.light.Some? ==> w.blockLight(t.light.value) >= w.blockLight(s.light.value)
    ensures t.light.Some? && t.light != s.light ==> w.blockLight(t.light.value) > w.blockLight(s.light.value)
  {
    if t.light.Some? && t.light != s.light {
      BrightestHasMaxLight(w, b.server, d.probe, t.light.value);
    }
  }

  // ---------------------------------------------------------------- one step

  /** The movement state before (s) and after (t) the body of `tick` past
      the throttle: the cooldown decays, and then either a selection happens
      or only the decayed cooldown is stored. */
  ghost predicate StepEffect(s: TargetState, t: TargetState, attracted: bool, w: World, b: Body, d: Draws)
    requires |d.probe| > 0
  {
    var decayed := s.cooldown - CooldownDecay(b);
    if ReselectionDue(s, BlockPosition(b), decayed) then Selection(s, t, attracted, w, b, d)
    else t == s.(cooldown := decayed)
  }

  /** A selection does not read the cooldown it replaces. */
  lemma SelectionIgnoresCooldown(s: TargetState, c: int, t: TargetState, attracted: bool, w: World, b: Body, d: Draws)
    requires |d.probe| > 0
    ensures Selection(s.(cooldown := c), t, attracted, w, b, d) == Selection(s, t, attracted, w, b, d)
  {
  }

  /** A step keeps the cooldown within [-99, 99]: a decay that reaches 0 or
      below always triggers a selection, which resets it. So the Java `int`
      subtraction of the decay never wraps around. */
  lemma StepKeepsCooldownBound(s: TargetState, t: TargetState, attracted: bool, w: World, b: Body, d: Draws)
    requires |d.probe| > 0
    requires -99 <= s.cooldown <= 99
    requires StepEffect(s, t, attracted, w, b, d)
    ensures -99 <= t.cooldown <= 99
    ensures -0x8000_0000 <= s.cooldown - CooldownDecay(b)
  {
  }

  /** Starting with no target (the all-zero sentinel), the first step
      always selects one. */
  lemma SentinelForcesSelection(s: TargetState, t: TargetState, attracted: bool, w: World, b: Body, d: Draws)
    requires |d.probe| > 0
    requires s.x == 0.0 && s.y == 0.0 && s.z == 0.0
    requires StepEffect(s, t, attracted, w, b, d)
    ensures Selection(s, t, attracted, w, b, d)
  {
  }
}
