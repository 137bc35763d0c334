/** The player's turret: a clamped aim angle, a score, a missed-bomb counter and a missile
    cooldown held as whole microseconds (sf::Time), plus the missiles it fires into the
    world. Like the other entities it is built by composition: `body` is its physics part. */
module Turret {
  import opened Common
  import opened Entities
  import GameWorld

  /** sf::seconds(0.2f), the default time between two volleys. */
  const MISSILE_SHOOT_DELAY_US: int := 200000

  /** sf::seconds(0.4f), a new missile's smoke timer. */
  const MISSILE_SMOKE_TIME_US: int := 400000

  /** The aim limits, in degrees from vertical. */
  const AIM_MIN: real := -90.0
  const AIM_MAX: real := 90.0

  /** std::min(std::max(-90, a), 90). */
  function ClampAim(a: real): (r: real)
    ensures AIM_MIN <= r <= AIM_MAX
    ensures AIM_MIN <= a <= AIM_MAX ==> r == a
    ensures a < AIM_MIN ==> r == AIM_MIN
    ensures a > AIM_MAX ==> r == AIM_MAX
  {
    if a <= AIM_MIN then AIM_MIN else if a >= AIM_MAX then AIM_MAX else a
  }

  /** Clamping twice is clamping once. */
  lemma ClampAimIdempotent(a: real)
    ensures ClampAim(ClampAim(a)) == ClampAim(a)
  {
  }

  /** Where a missile of the given size is placed: its left edge half its width left of the
      cannon's axis (two units in from the turret's left edge), its top half its height
      above the turret's vertical middle. */
  function MuzzleRect(turret: Rect, width: real, height: real): Rect
  {
    Rect(turret.left + (2.0 - 0.5 * width), turret.top + (0.5 * turret.height - 0.5 * height), width, height)
  }

  /** Every missile, whatever its size, is centred on the cannon's axis and on the turret's
      vertical middle. */
  lemma MuzzleCentred(turret: Rect, width: real, height: real)
    ensures MuzzleRect(turret, width, height).left + 0.5 * width == turret.left + 2.0
    ensures MuzzleRect(turret, width, height).top + 0.5 * height == turret.top + 0.5 * turret.height
    ensures MuzzleRect(turret, width, height).width == width
    ensures MuzzleRect(turret, width, height).height == height
  {
  }

  /** f * v, the velocity of a spread ("collat") missile. */
  function Scaled(f: real, v: Vec2): Vec2
  {
    Vec2(f * v.x, f * v.y)
  }

  /** The cooldown after n frames of the turret's tick, which subtracts one frame time only
      while the cooldown is still positive. */
  function CooldownAfter(c: int, n: nat): int
  {
    if n == 0 then c
    else
      var prev := CooldownAfter(c, n - 1);
      if prev > 0 then prev - FRAME_TIME_US else prev
  }

  /** The number of frames a positive cooldown takes to run out: the frame time divided
      into it, rounded up. */
  function FramesToReady(c: int): nat
  {
    if c <= 0 then 0 else (c + FRAME_TIME_US - 1) / FRAME_TIME_US
  }

  /** A positive cooldown stays positive for FramesToReady(c) - 1 frames and is run out
      after exactly FramesToReady(c); from then on it no longer changes and never falls to
      a whole frame time below zero. */
  lemma {:induction false} CooldownRunsOut(c: int, n: nat)
    requires c > -FRAME_TIME_US
    ensures n < FramesToReady(c) ==> CooldownAfter(c, n) == c - n * FRAME_TIME_US > 0
    ensures n >= FramesToReady(c) ==> CooldownAfter(c, n) == c - FramesToReady(c) * FRAME_TIME_US
    ensures -FRAME_TIME_US < CooldownAfter(c, n) <= Max(c, 0)
  {
    if n > 0 {
      CooldownRunsOut(c, n - 1);
      if n - 1 < FramesToReady(c) {
        assert (c + FRAME_TIME_US - 1) / FRAME_TIME_US * FRAME_TIME_US > c - FRAME_TIME_US;
        assert (c + FRAME_TIME_US - 1) / FRAME_TIME_US * FRAME_TIME_US <= c + FRAME_TIME_US - 1;
      }
    }
  }

  /** With the default delay a volley fired from a run-out cooldown of zero leaves the
      turret unable to fire for six frames and ready on the seventh. */
  lemma DefaultVolleyRate()
    ensures FramesToReady(MISSILE_SHOOT_DELAY_US) == 7
    ensures CooldownAfter(MISSILE_SHOOT_DELAY_US, 6) > 0
    ensures CooldownAfter(MISSILE_SHOOT_DELAY_US, 7) <= 0
  {
    CooldownRunsOut(MISSILE_SHOOT_DELAY_US, 6);
    CooldownRunsOut(MISSILE_SHOOT_DELAY_US, 7);
  }

  /** The steady volley rate. The turret fires once its cooldown c has run out, so c lies
      in (-frame, 0], and firing adds the delay to what is left. With the default delay the
      turret is ready again after 7 frames only when c is 0 or -1, and otherwise after 6.
      What is left then is c - 33331 after 7 frames, or c + 2 after 6: after a first volley
      from 0, each later one starts 2 microseconds further along. */
  lemma VolleyRate(c: int)
    requires -FRAME_TIME_US < c <= 0
    ensures FramesToReady(c + MISSILE_SHOOT_DELAY_US) == if c >= -1 then 7 else 6
    ensures CooldownAfter(c + MISSILE_SHOOT_DELAY_US, FramesToReady(c + MISSILE_SHOOT_DELAY_US))
            == if c >= -1 then c - 33331 else c + 2
  {
    var d := c + MISSILE_SHOOT_DELAY_US;
    assert FramesToReady(d) == (d + FRAME_TIME_US - 1) / FRAME_TIME_US;
    if c >= -1 {
      assert 7 * FRAME_TIME_US <= d + FRAME_TIME_US - 1 < 8 * FRAME_TIME_US;
    } else {
      assert 6 * FRAME_TIME_US <= d + FRAME_TIME_US - 1 < 7 * FRAME_TIME_US;
    }
    CooldownRunsOut(d, FramesToReady(d));
  }

  /** The registry after the missiles of `fired` are admitted in order from id n on. */
  ghost function Admitted(ents: map<EntityId, Entity>, n: EntityId, fired: seq<PlayerMissile>): map<EntityId, Entity>
    requires n as int + |fired| <= U64
  {
    if fired == [] then ents
    else Admitted(ents, n, fired[..|fired| - 1])[(n as int + |fired| - 1) as EntityId := fired[|fired| - 1].body.entity]
  }

  /** Admitting one more missile is one more map update, under the next id. */
  lemma AdmittedStep(ents: map<EntityId, Entity>, n: EntityId, fired: seq<PlayerMissile>, m: PlayerMissile, id: EntityId)
    requires id as int == n as int + |fired|
    ensures Admitted(ents, n, fired + [m]) == Admitted(ents, n, fired)[id := m.body.entity]
  {
    assert (fired + [m])[..|fired|] == fired;
  }

  /** The k consecutive ids from n on. */
  function Ids(n: EntityId, k: nat): seq<EntityId>
    requires n as int + k <= U64
  {
    if k == 0 then [] else Ids(n, k - 1) + [(n as int + k - 1) as EntityId]
  }

  /** What firing sets up on one missile: its registry id and world link, the player it
      scores for, its velocity and its rectangle. */
  datatype Shot = Shot(id: int, world: object?, owner: int, velocity: Vec2, rect: Rect)

  /** Missile k of a volley whose first id is n: the aimed 12.5x12.5 missile first, then
      8x8 spread missiles whose velocity is the aimed one scaled by their spread factor, all
      placed at the muzzle and scored to the owner. */
  function VolleyShot(n: int, k: nat, world: object?, owner: int, velocity: Vec2, spread: seq<real>, turret: Rect): Shot
    requires k <= |spread|
  {
    if k == 0 then Shot(n, world, owner, velocity, MuzzleRect(turret, 12.5, 12.5))
    else Shot(n + k, world, owner, Scaled(spread[k - 1], velocity), MuzzleRect(turret, 8.0, 8.0))
  }

  /** Listing the next id after k consecutive ones lists k + 1 consecutive ones. */
  lemma IdsStep(list: seq<EntityId>, n: EntityId, k: nat, id: EntityId)
    requires id as int == n as int + k
    ensures list + Ids(n, k) + [id] == list + Ids(n, k + 1)
  {
    assert Ids(n, k + 1) == Ids(n, k) + [id];
  }

  /** The missile the turret fires; only what firing sets up is modelled. */
  class PlayerMissile {
    const body: PhysicsEntity
    var smokeTime: int
    var playerForScoring: EntityId

    constructor ()
      ensures fresh(body) && fresh(body.entity)
      ensures !body.entity.fxOnly && body.entity.id == INVALID_ENTITY_ID
      ensures body.entity.world == null && !body.entity.markedForDeletion
      ensures body.rect == Rect(0.0, 0.0, 12.5, 12.5) && body.respectGravity
      ensures body.velocity == Vec2(0.0, 0.0)
      ensures playerForScoring == INVALID_ENTITY_ID && smokeTime == MISSILE_SMOKE_TIME_US
    {
      body := new PhysicsEntity();
      playerForScoring := INVALID_ENTITY_ID;
      smokeTime := MISSILE_SMOKE_TIME_US;
      new;
      body.SetRectangle(Rect(0.0, 0.0, 12.5, 12.5));
      body.SetRespectGravity(true);
    }

    /** The missile's state as firing sets it up. */
    function State(): Shot
      reads this, body, body.entity
    {
      Shot(body.entity.id, body.entity.world, playerForScoring, body.velocity, body.rect)
    }

    method AssignPlayerForScoring(id: EntityId)
      modifies this`playerForScoring
      ensures playerForScoring == id
    {
      playerForScoring := id;
    }
  }

  class PlayerTurret {
    const body: PhysicsEntity
    var aim: real
    var score: i32
    var missedBombs: u32
    var shootDelay: int
    /** next_missile_available_time_: the turret may fire while this is not positive. */
    var cooldown: int

    /** The aim is always within its limits. */
    ghost predicate Valid()
      reads this
    {
      AIM_MIN <= aim <= AIM_MAX
    }

    constructor ()
      ensures Valid()
      ensures fresh(body) && fresh(body.entity)
      ensures !body.entity.fxOnly && body.entity.id == INVALID_ENTITY_ID && body.entity.world == null
      ensures body.rect == Rect(0.0, 0.0, 15.0, 32.5) && !body.respectGravity
      ensures body.velocity == Vec2(0.0, 0.0)
      ensures aim == 0.0 && score == 0 && missedBombs == 0
      ensures shootDelay == MISSILE_SHOOT_DELAY_US && cooldown == 0
    {
      body := new PhysicsEntity();
      aim := 0.0;
      score := 0;
      missedBombs := 0;
      shootDelay := MISSILE_SHOOT_DELAY_US;
      cooldown := 0;
      new;
      body.SetRectangle(Rect(0.0, 0.0, 15.0, 32.5));
      body.SetRespectGravity(false);
    }

    method SetMissileShootDelay(delay: int)
      modifies this`shootDelay
      ensures GetMissileShootDelay() == delay
    {
      shootDelay := delay;
    }

    function GetMissileShootDelay(): int
      reads this
    {
      shootDelay
    }

    method SetAimAngle(a: real)
      modifies this`aim
      ensures Valid()
      ensures aim == ClampAim(a)
    {
      aim := ClampAim(a);
    }

    /** Turning by v is setting the aim to the current aim plus v, clamped. */
    method AddToAimAngle(v: real)
      modifies this`aim
      ensures Valid()
      ensures aim == ClampAim(old(aim) + v)
      ensures old(Valid()) && AIM_MIN <= old(aim) + v <= AIM_MAX ==> aim == old(aim) + v
    {
      SetAimAngle(aim + v);
    }

    function GetAimAngle(): real
      reads this
    {
      aim
    }

    method SetPlayerScore(s: i32)
      modifies this`score
      ensures score == s
    {
      score := s;
    }

    /** Signed overflow is undefined in C++, so the sum must fit an int32_t. */
    method AddToPlayerScore(v: i32)
      requires -0x8000_0000 <= score + v < 0x8000_0000
      modifies this`score
      ensures score == old(score) + v
    {
      score := score + v;
    }

    function GetPlayerScore(): i32
      reads this
    {
      score
    }

    method SetPlayerBombsMissed(m: u32)
      modifies this`missedBombs
      ensures missedBombs == m
    {
      missedBombs := m;
    }

    /** ++ on a uint32_t: one more, wrapping to zero after the largest value. */
    method IncrementPlayerBombsMissed()
      modifies this`missedBombs
      ensures missedBombs == (old(missedBombs) + 1) % U32
      ensures old(missedBombs) < U32_MAX ==> missedBombs == old(missedBombs) + 1
    {
      missedBombs := (missedBombs + 1) % U32;
    }

    function GetPlayerBombsMissed(): u32
      reads this
    {
      missedBombs
    }

    /** Missile k of the volley: sized (the spread missiles only), placed at the muzzle,
        given its velocity and the turret's id for scoring, and admitted to the world. */
    method Launch(world: GameWorld.World, m: PlayerMissile, k: nat, velocity: Vec2, spread: seq<real>)
      requires k <= |spread|
      requires world.Valid() && world.nextId < INVALID_ENTITY_ID
      requires !m.body.entity.fxOnly && m.body.entity != body.entity
      requires k == 0 ==> m.body.rect.width == 12.5 && m.body.rect.height == 12.5
      modifies m`playerForScoring, m.body, m.body.entity, world`entities, world`nonFx, world`nextId
      ensures world.Valid()
      ensures world.nextId == old(world.nextId) + 1
      ensures world.entities == old(world.entities)[old(world.nextId) := m.body.entity]
      ensures world.nonFx == old(world.nonFx) + [old(world.nextId)]
      ensures m.State() == VolleyShot(old(world.nextId) - k, k, world, body.entity.id, velocity, spread, body.rect)
    {
      if k > 0 {
        m.body.SetRectangle(Rect(0.0, 0.0, 8.0, 8.0));
      }
      var r := MuzzleRect(body.rect, m.body.rect.width, m.body.rect.height);
      m.body.SetPosition(r.Position());
      m.body.SetVelocity(if k == 0 then velocity else Scaled(spread[k - 1], velocity));
      m.AssignPlayerForScoring(body.entity.id);
      var id := world.AddEntity(m.body.entity);
    }

    /** fire_missile. When the cooldown has run out, a world-linked turret fires a volley;
        with or without a world the cooldown then grows by the shoot delay. While the
        cooldown is positive nothing changes. `velocity` is the aimed velocity, 11.5 units
        along the aim direction, and `spread` the spread missiles' two random factors, each drawn from [1.05, 1.15]. */
    method FireMissile(world: GameWorld.World?, velocity: Vec2, spread: seq<real>) returns (ghost fired: seq<PlayerMissile>)
      requires world == body.entity.world
      requires |spread| == 2 && forall i :: 0 <= i < 2 ==> 1.05 <= spread[i] <= 1.15
      requires world != null ==> world.Valid() && world.nextId < INVALID_ENTITY_ID - 2
      modifies this`cooldown, world
      ensures world != null ==> world.Valid()
      ensures world != null ==>
                unchanged(world`stateQueue, world`textureQueue, world`trackTexture, world`Footprint, world`Slot)
      ensures old(cooldown) > 0 ==> cooldown == old(cooldown) && fired == []
      ensures old(cooldown) > 0 && world != null ==> unchanged(world)
      ensures old(cooldown) <= 0 ==> cooldown == old(cooldown) + shootDelay
      ensures world == null ==> fired == []
      ensures old(cooldown) <= 0 && world != null ==>
                |fired| == 3 && world.nextId == old(world.nextId) + 3
                && world.entities == Admitted(old(world.entities), old(world.nextId), fired)
                && world.nonFx == old(world.nonFx) + Ids(old(world.nextId), 3)
      ensures forall k :: 0 <= k < |fired| ==>
                fired[k].State() == VolleyShot(old(world.nextId), k, world, body.entity.id, velocity, spread, body.rect)
    {
      fired := [];
      if cooldown <= 0 {
        if world != null {
          fired := Volley(world, velocity, spread);
        }
        cooldown := cooldown + shootDelay;
      }
    }

    /** The volley: the aimed missile, then the loop of two spread missiles; three new
        missiles registered in order under the next three ids, listed as non-fx, scored to
        this turret and placed at the muzzle. */
    method Volley(world: GameWorld.World, velocity: Vec2, spread: seq<real>) returns (ghost fired: seq<PlayerMissile>)
      requires |spread| == 2
      requires world.Valid() && world.nextId < INVALID_ENTITY_ID - 2
      modifies world`entities, world`nonFx, world`nextId
      ensures world.Valid()
      ensures |fired| == 3 && world.nextId == old(world.nextId) + 3
      ensures world.entities == Admitted(old(world.entities), old(world.nextId), fired)
      ensures world.nonFx == old(world.nonFx) + Ids(old(world.nextId), 3)
      ensures forall k :: 0 <= k < 3 ==>
                fired[k].State() == VolleyShot(old(world.nextId), k, world, body.entity.id, velocity, spread, body.rect)
    {
      ghost var owner, muzzle, n := body.entity.id, body.rect, world.nextId;
      assert old(world.nonFx) + Ids(n, 0) == old(world.nonFx);
      ghost var m0 := LaunchNext(world, velocity, spread, 0, old(world.entities), old(world.nonFx), n, []);
      ghost var m1, m2 := m0, m0;
      fired := [m0];
      for i := 0 to 2
        invariant world.Valid()
        invariant world.nextId == n as int + i + 1
        invariant fired == if i == 0 then [m0] else if i == 1 then [m0, m1] else [m0, m1, m2]
        invariant world.entities == Admitted(old(world.entities), n, fired)
        invariant world.nonFx == old(world.nonFx) + Ids(n, |fired|)
        invariant owner == body.entity.id && muzzle == body.rect
        invariant m0.State() == VolleyShot(n, 0, world, owner, velocity, spread, muzzle)
        invariant i >= 1 ==> m1.State() == VolleyShot(n, 1, world, owner, velocity, spread, muzzle)
        invariant i >= 2 ==> m2.State() == VolleyShot(n, 2, world, owner, velocity, spread, muzzle)
      {
        ghost var m := LaunchNext(world, velocity, spread, i + 1, old(world.entities), old(world.nonFx), n, fired);
        if i == 0 {
          m1 := m;
        } else {
          m2 := m;
        }
        fired := fired + [m];
      }
    }

    /** One more missile of the volley, launched behind those already fired: the aimed one
        first, a spread one after that. */
    method LaunchNext(world: GameWorld.World, velocity: Vec2, spread: seq<real>, k: nat, ghost ents: map<EntityId, Entity>,
                      ghost nonFx: seq<EntityId>, ghost n: EntityId, ghost fired: seq<PlayerMissile>)
      returns (ghost m: PlayerMissile)
      requires |spread| == 2 && k <= 2 && |fired| == k && n as int + 3 <= INVALID_ENTITY_ID
      requires world.Valid()
      requires world.nextId == n as int + k
      requires world.entities == Admitted(ents, n, fired)
      requires world.nonFx == nonFx + Ids(n, k)
      modifies world`entities, world`nonFx, world`nextId
      ensures world.Valid()
      ensures world.nextId == n as int + k + 1
      ensures world.entities == Admitted(ents, n, fired + [m])
      ensures world.nonFx == nonFx + Ids(n, k + 1)
      ensures fresh(m.body.entity)
      ensures m.State() == VolleyShot(n, k, world, body.entity.id, velocity, spread, body.rect)
    {
      var missile := new PlayerMissile();
      ghost var id := world.nextId;
      Launch(world, missile, k, velocity, spread);
      AdmittedStep(ents, n, fired, missile, id);
      IdsStep(nonFx, n, k, id);
      m := missile;
    }

    /** The turret's tick: the physics step, then one frame off a positive cooldown. */
    method Tick()
      modifies this`cooldown, body
      ensures cooldown == CooldownAfter(old(cooldown), 1)
      ensures cooldown == if old(cooldown) > 0 then old(cooldown) - FRAME_TIME_US else old(cooldown)
      ensures body.entity.world == null ==> unchanged(body)
      ensures body.entity.world != null ==>
                body.rect == old(body.rect).MovedTo(old(body.rect).Position().Plus(old(body.velocity)))
                && body.velocity == NextVelocity(old(body.velocity), old(body.respectGravity))
      ensures body.respectGravity == old(body.respectGravity)
    {
      body.Tick();
      if cooldown > 0 {
        cooldown := cooldown - FRAME_TIME_US;
      }
    }
  }
}
