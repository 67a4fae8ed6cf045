/** The firefly entity: its synced slots, its movement state, and the
    per-tick procedure that updates them in place. */
module FireFlyEntity {
  import opened JavaInt
  import opened Host
  import opened Behaviour
  import opened Persistence

  /** A `BlockPos` object. Java's `!=` on two of them compares references,
      not coordinates. */
  class BlockPosObject {
    const pos: BlockPos

    constructor (p: BlockPos)
      ensures pos == p
    {
      pos := p;
    }
  }

  /** The four slots replicated through the entity's data manager. */
  datatype SyncedSlots = SyncedSlots(scale: real, color: real, alpha: real, tickOffset: int32)

  /** How a call of `tick` ends: an exception from a zero tick offset, the
      throttle's early return, or a full step (whether the self-move was
      applied and whether the vertical speed was pinned to 0.05). */
  datatype TickOutcome = DivisionByZero | ReturnedEarly | Stepped(moved: bool, verticalPinned: bool)

  /** The brightest entry of a non-empty map, found the way
      `stream().max(...)` reduces the entries: the running entry is kept
      only when strictly brighter than the next one. The entries are visited
      in an unspecified order, as a hash map's are. */
  method MaxEntry(m: map<BlockPos, int>) returns (best: BlockPos)
    requires |m| > 0
    ensures best in m
    ensures forall q :: q in m ==> m[q] <= m[best]
  {
    var rest := m.Keys;
    best :| best in rest;
    rest := rest - {best};
    while rest != {}
      invariant rest <= m.Keys
      invariant best in m
      invariant forall q :: q in m && q !in rest ==> m[q] <= m[best]
      decreases |rest|
    {
      var next :| next in rest;
      if !(m[best] > m[next]) {
        best := next;
      }
      rest := rest - {next};
    }
  }

  class FireFly {
    // the synced slots
    var scaleModifier: real
    var colorModifier: real
    var alphaModifier: real
    var randomTickOffset: int32

    var isAttractedByLight: bool

    // movement state
    var groundLevel: int
    var lightTarget: Option<BlockPos>
    var xTarget: real
    var yTarget: real
    var zTarget: real
    var targetChangeCooldown: int32

    /** The engine's `removed` flag, set by `remove()`. */
    var removed: bool

    /** The cooldown stays where a selection can put it. */
    ghost predicate Valid()
      reads this
    {
      -99 <= targetChangeCooldown <= 99
    }

    function Synced(): SyncedSlots
      reads this
    {
      SyncedSlots(scaleModifier, colorModifier, alphaModifier, randomTickOffset)
    }

    function Targets(): TargetState
      reads this
    {
      TargetState(xTarget, yTarget, zTarget, groundLevel, lightTarget, targetChangeCooldown as int)
    }

    /** Construction with the registered slot defaults: scale, color and
        alpha 1, tick offset 20; attracted by light; no target yet. */
    constructor ()
      ensures Valid()
      ensures Synced() == SyncedSlots(1.0, 1.0, 1.0, 20)
      ensures isAttractedByLight && !removed
      ensures Targets() == TargetState(0.0, 0.0, 0.0, 0, None, 0)
    {
      scaleModifier, colorModifier, alphaModifier := 1.0, 1.0, 1.0;
      randomTickOffset := 20;
      isAttractedByLight := true;
      groundLevel := 0;
      lightTarget := None;
      xTarget, yTarget, zTarget := 0.0, 0.0, 0.0;
      targetChangeCooldown := 0;
      removed := false;
    }

    /** `onAddedToWorld`: sets scale and color from their draws and the tick
        offset to `nextInt(20) + 20`, which lies in [20, 40). */
    method OnAddedToWorld(scale: real, color: real, offsetDraw: int)
      requires 0 <= offsetDraw < 20
      modifies this
      ensures Synced() == SyncedSlots(scale, color, old(alphaModifier), (offsetDraw + 20) as int32)
      ensures 20 <= randomTickOffset < 40
      ensures isAttractedByLight == old(isAttractedByLight) && removed == old(removed)
      ensures Targets() == old(Targets())
    {
      scaleModifier := scale;
      colorModifier := color;
      randomTickOffset := (offsetDraw + 20) as int32;
    }

    method SetAlpha(alpha: real)
      modifies this`alphaModifier
      ensures Synced() == old(Synced()).(alpha := alpha)
    {
      alphaModifier := alpha;
    }

    /** `writeAdditional`: adds the slots and the flag to the compound. */
    method WriteAdditional(compound: Compound) returns (saved: Compound)
      ensures saved == SaveRecord(compound, scaleModifier, colorModifier, alphaModifier, isAttractedByLight, randomTickOffset)
    {
      saved := compound;
      saved := saved["scale" := FloatTag(scaleModifier)];
      saved := saved["color" := FloatTag(colorModifier)];
      saved := saved["alpha" := FloatTag(alphaModifier)];
      saved := saved["atracted" := ByteTag(if isAttractedByLight then 1 else 0)];
      saved := saved["tickoffset" := IntTag(randomTickOffset)];
    }

    /** `readAdditional`: restores scale, color, tick offset and alpha; the
        flag is not read, so it keeps its current value. */
    method ReadAdditional(compound: Compound)
      modifies this
      ensures Synced() == SyncedSlots(GetFloat(compound, "scale"), GetFloat(compound, "color"),
                                      GetFloat(compound, "alpha"), GetInt(compound, "tickoffset"))
      ensures isAttractedByLight == old(isAttractedByLight) && removed == old(removed)
      ensures Targets() == old(Targets())
    {
      scaleModifier := GetFloat(compound, "scale");
      colorModifier := GetFloat(compound, "color");
      randomTickOffset := GetInt(compound, "tickoffset");
      SetAlpha(GetFloat(compound, "alpha"));
    }

    /** `writeSpawnData`: scale, color, then the constant alpha 1. */
    method WriteSpawnData(buffer: seq<real>) returns (out: seq<real>)
      ensures out == SpawnPacket(buffer, scaleModifier, colorModifier)
    {
      out := buffer + [scaleModifier];
      out := out + [colorModifier];
      out := out + [SpawnAlpha];
    }

    /** `readSpawnData`: reads scale, color and alpha in that order. A read
        past the end of the buffer fails (None) after the slots read so far
        have been set. */
    method ReadSpawnData(buffer: seq<real>) returns (rest: Option<seq<real>>)
      modifies this
      ensures rest.Some? <==> |buffer| >= 3
      ensures rest.Some? ==> rest.value == buffer[3..]
      ensures scaleModifier == if |buffer| >= 1 then buffer[0] else old(scaleModifier)
      ensures colorModifier == if |buffer| >= 2 then buffer[1] else old(colorModifier)
      ensures alphaModifier == if |buffer| >= 3 then buffer[2] else old(alphaModifier)
      ensures randomTickOffset == old(randomTickOffset)
      ensures isAttractedByLight == old(isAttractedByLight) && removed == old(removed)
      ensures Targets() == old(Targets())
    {
      if |buffer| < 1 { return None; }
      scaleModifier := buffer[0];
      if |buffer| < 2 { return None; }
      colorModifier := buffer[1];
      if |buffer| < 3 { return None; }
      alphaModifier := buffer[2];
      rest := Some(buffer[3..]);
    }

    /** `getTargetPosition`: a new `BlockPos` object for the target. */
    method GetTargetPosition() returns (p: BlockPosObject)
      ensures fresh(p)
      ensures p.pos == TargetBlockPos(xTarget, yTarget, zTarget)
    {
      p := new BlockPosObject(TargetBlockPos(xTarget, yTarget, zTarget));
    }

    /** `getRandomLitBlockAround`: fills a map from 15 probe samples around
        the server position, each keyed by position and valued by its block
        light, and returns a brightest key. */
    method GetRandomLitBlockAround(w: World, server: BlockPos, probe: seq<Vec3>) returns (lit: BlockPos)
      requires |probe| == ProbeSamples
      ensures IsBrightestSample(w, server, probe, lit)
    {
      var randBlocks: map<BlockPos, int> := map[];
      for i := 0 to ProbeSamples
        invariant randBlocks == SampleMap(w, server, probe[..i])
      {
        var randBP := SamplePos(server, probe[i]);
        randBlocks := randBlocks[randBP := w.blockLight(randBP)];
        assert probe[..i + 1][..i] == probe[..i];
      }
      assert probe[..ProbeSamples] == probe;
      SampleMapContents(w, server, probe);
      lit := MaxEntry(randBlocks);
    }

    /** `selectBlockTarget`: chooses a new target in wander or light-seeking
        mode and resets the cooldown. */
    method SelectBlockTarget(w: World, b: Body, d: Draws)
      requires |d.probe| == ProbeSamples
      modifies this`groundLevel, this`xTarget, this`yTarget, this`zTarget, this`lightTarget, this`targetChangeCooldown
      ensures Valid()
      ensures Selection(old(Targets()), Targets(), isAttractedByLight, w, b, d)
    {
      if lightTarget.None? || !isAttractedByLight {
        SelectWanderTarget(w, b, d);
      } else {
        FollowLightTarget(w, b, d);
      }
      targetChangeCooldown := CooldownReset(d.nextInt) as int32;
    }

    /** The wander branch of `selectBlockTarget`: the downward ground scan
        (a loop that stops at the first hit), the drawn target, and the
        light probe at night under open sky. */
    method SelectWanderTarget(w: World, b: Body, d: Draws)
      requires |d.probe| == ProbeSamples
      modifies this`groundLevel, this`xTarget, this`yTarget, this`zTarget, this`lightTarget
      ensures WanderSelection(old(Targets()), Targets(), w, b, d)
    {
      var here := BlockPosition(b);
      groundLevel := 0;
      var i := 0;
      while i < 20
        invariant 0 <= i <= GroundScanDepth
        invariant groundLevel == 0
        invariant GroundScanFrom(w, b.server, i) == GroundScan(w, b.server)
        modifies this`groundLevel
      {
        if !w.passable(BlockPos(b.server.x, b.server.y - i, b.server.z)) {
          groundLevel := b.server.y - i;
        }
        if groundLevel != 0 {
          break;
        }
        i := i + 1;
      }
      xTarget := b.server.x as real + d.gauss.x * 10.0;
      yTarget := Min(Max(b.server.y as real + d.gauss.y * 2.0, groundLevel as real), groundLevel as real + 4.0);
      zTarget := b.server.z as real + d.gauss.z * 10.0;
      if w.passable(ToBlockPos(xTarget, yTarget, zTarget)) {
        yTarget := yTarget + 1.0;
      }
      if w.skyLight(here) > 8 && !w.isDaytime {
        var lit := GetRandomLitBlockAround(w, b.server, d.probe);
        lightTarget := Some(lit);
      }
    }

    /** The light-seeking branch of `selectBlockTarget`. */
    method FollowLightTarget(w: World, b: Body, d: Draws)
      requires |d.probe| == ProbeSamples && lightTarget.Some?
      modifies this`xTarget, this`yTarget, this`zTarget, this`lightTarget
      ensures LightSelection(old(Targets()), Targets(), w, b, d)
    {
      var here := BlockPosition(b);
      var lt := lightTarget.value;
      xTarget := lt.x as real + d.gauss.x;
      yTarget := lt.y as real + d.gauss.y;
      zTarget := lt.z as real + d.gauss.z;
      if w.blockLight(here) > 8 {
        var possibleTarget := GetRandomLitBlockAround(w, b.server, d.probe);
        BrightestHasMaxLight(w, b.server, d.probe, possibleTarget);
        if w.blockLight(possibleTarget) > w.blockLight(lt) {
          lightTarget := Some(possibleTarget);
        }
      }
      if w.blockLight(here) <= 8 || w.isDaytime {
        lightTarget := None;
      }
    }

    /** The cooldown decay and, when due, the target selection of `tick`
        (lines 198-201). */
    method UpdateTarget(w: World, b: Body, d: Draws)
      requires Valid() && |d.probe| == ProbeSamples
      modifies this`groundLevel, this`xTarget, this`yTarget, this`zTarget, this`lightTarget, this`targetChangeCooldown
      ensures Valid()
      ensures StepEffect(old(Targets()), Targets(), isAttractedByLight, w, b, d)
    {
      ghost var before := Targets();
      var decay: int32 := if DisplacementSq(b) < StationaryThreshold then 10 else 1;
      targetChangeCooldown := targetChangeCooldown - decay;
      assert Targets() == before.(cooldown := before.cooldown - CooldownDecay(b));

      ghost var decayed := before.cooldown - CooldownDecay(b);
      if (xTarget == 0.0 && yTarget == 0.0 && zTarget == 0.0)
         || DistanceSqCentered(BlockPosition(b), xTarget, yTarget, zTarget) < 9.0
         || targetChangeCooldown <= 0
      {
        assert ReselectionDue(before, BlockPosition(b), decayed);
        SelectBlockTarget(w, b, d);
        SelectionIgnoresCooldown(before, decayed, Targets(), isAttractedByLight, w, b, d);
        assert StepEffect(before, Targets(), isAttractedByLight, w, b, d);
      } else {
        assert !ReselectionDue(before, BlockPosition(b), decayed);
        assert StepEffect(before, Targets(), isAttractedByLight, w, b, d);
      }
    }

    /** The body of `tick` past the throttle, callable on its own. Each
        removal condition calls `remove()`, which does not end the step. The
        velocity arithmetic is not modelled; `verticalPinned` tells which
        branch sets the vertical speed to 0.05. */
    method Step(w: World, b: Body, d: Draws) returns (moved: bool, verticalPinned: bool)
      requires Valid() && |d.probe| == ProbeSamples
      modifies this`groundLevel, this`xTarget, this`yTarget, this`zTarget, this`lightTarget, this`targetChangeCooldown, this`removed
      ensures Valid()
      ensures removed == (old(removed) || RemovalDue(w, b))
      ensures StepEffect(old(Targets()), Targets(), isAttractedByLight, w, b, d)
      ensures verticalPinned <==> !w.passable(BelowPrevious(b))
      ensures moved
    {
      var anyPlayerCloseBy := w.playerWithin(b.server, w.despawnRadius);
      if !anyPlayerCloseBy {
        removed := true;
      }
      var dayTime := w.dayTime;
      if dayTime > 1000 && dayTime < 12990 {
        removed := true;
      }
      if b.burning {
        removed := true;
      }

      UpdateTarget(w, b, d);

      verticalPinned := !w.passable(BelowPrevious(b));

      // getPosition() and getTargetPosition() each build a new object, so
      // the reference comparison always finds them different
      var position := new BlockPosObject(BlockPosition(b));
      var target := GetTargetPosition();
      moved := position != target;
    }

    /** `tick`: a zero tick offset makes the remainder throw; otherwise the
        throttle returns early exactly when the Java remainder of the game
        time by the offset is non-negative, which a non-negative clock always
        gives; only a negative clock ever reaches the step. */
    method Tick(w: World, b: Body, d: Draws) returns (outcome: TickOutcome)
      requires Valid() && |d.probe| == ProbeSamples
      modifies this
      ensures Valid()
      ensures outcome.DivisionByZero? <==> randomTickOffset == 0
      ensures randomTickOffset != 0 ==>
                (outcome.ReturnedEarly? <==> ReturnsEarly(w.gameTime as int, randomTickOffset as int))
      ensures w.gameTime >= 0 ==> !outcome.Stepped?
      ensures !outcome.Stepped? ==> Targets() == old(Targets()) && removed == old(removed)
      ensures outcome.Stepped? ==>
                && removed == (old(removed) || RemovalDue(w, b))
                && StepEffect(old(Targets()), Targets(), isAttractedByLight, w, b, d)
                && (outcome.verticalPinned <==> !w.passable(BelowPrevious(b)))
                && outcome.moved
      ensures Synced() == old(Synced()) && isAttractedByLight == old(isAttractedByLight)
    {
      // super.tick() is engine behaviour and not part of this model
      if randomTickOffset == 0 {
        return DivisionByZero;
      }
      if JavaRem(w.gameTime as int, randomTickOffset as int) >= 0 {
        return ReturnedEarly;
      }
      var moved, verticalPinned := Step(w, b, d);
      outcome := Stepped(moved, verticalPinned);
    }
  }

  /** Saving a firefly and loading the record into a newly constructed one
      restores the four slots; the light flag is not restored, so the loaded
      firefly is attracted by light whatever the saved one was. */
  method SaveAndLoad(src: FireFly, base: Compound) returns (dst: FireFly)
    ensures fresh(dst)
    ensures dst.Synced() == src.Synced()
    ensures dst.isAttractedByLight
  {
    var saved := src.WriteAdditional(base);
    dst := new FireFly();
    dst.ReadAdditional(saved);
  }

  /** A new observer that reads a firefly's spawn packet gets its scale and
      color and alpha 1, whatever the firefly's live alpha. */
  method SpawnOnObserver(src: FireFly) returns (obs: FireFly)
    ensures fresh(obs)
    ensures obs.scaleModifier == src.scaleModifier && obs.colorModifier == src.colorModifier
    ensures obs.alphaModifier == SpawnAlpha
  {
    var packet := src.WriteSpawnData([]);
    obs := new FireFly();
    var rest := obs.ReadSpawnData(packet);
  }
}
