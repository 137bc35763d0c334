/** The entity base (identity, owning world, fx-only and deletion flags) and the physics
    entity that adds a rectangle, a velocity and explicit-Euler integration.

    The source's class hierarchy is modelled by composition: a PhysicsEntity owns the
    Entity object that is its base part, and the world's registry holds those base parts. */
module Entities {
  import opened Common

  type EntityId = u64

  /** (EntityId)-1: the largest uint64_t. */
  const INVALID_ENTITY_ID: EntityId := (-1) % U64

  /** World::get_gravity_accel(). */
  const GRAVITY_ACCEL: real := 4.5

  /** Constants::FRAME_TIME, sf::seconds(1 / 30) held as whole microseconds. */
  const FRAME_TIME_US: int := 33333

  /** FRAME_TIME.asSeconds(). */
  const FRAME_TIME_SECONDS: real := FRAME_TIME_US as real / 1000000.0

  /** The sentinel is the largest identity, so no counter below it can produce it. */
  lemma InvalidIdIsMax(id: EntityId)
    ensures INVALID_ENTITY_ID == U64 - 1
    ensures id <= INVALID_ENTITY_ID
  {
  }

  class Entity {
    var id: EntityId
    /** The owning world, null until the entity is admitted. */
    var world: object?
    const fxOnly: bool
    var markedForDeletion: bool

    constructor (fxOnly: bool)
      ensures id == INVALID_ENTITY_ID && world == null
      ensures !markedForDeletion && this.fxOnly == fxOnly
    {
      id := INVALID_ENTITY_ID;
      world := null;
      markedForDeletion := false;
      this.fxOnly := fxOnly;
    }

    method AssignWorld(w: object?, newId: EntityId)
      modifies this
      ensures world == w && id == newId
      ensures markedForDeletion == old(markedForDeletion)
    {
      world := w;
      id := newId;
    }

    /** The deletion flag is sticky: it is set here and nothing clears it. */
    method MarkForDeletion()
      modifies this
      ensures markedForDeletion
      ensures id == old(id) && world == old(world)
    {
      markedForDeletion := true;
    }

    /** The base tick does nothing. */
    method Tick()
      ensures unchanged(this)
    {
    }
  }

  datatype Vec2 = Vec2(x: real, y: real) {
    function Plus(o: Vec2): Vec2 {
      Vec2(x + o.x, y + o.y)
    }
  }

  /** sf::FloatRect. */
  datatype Rect = Rect(left: real, top: real, width: real, height: real) {
    function Position(): Vec2 {
      Vec2(left, top)
    }

    /** The same size moved to p. */
    function MovedTo(p: Vec2): (r: Rect)
      ensures r.Position() == p
      ensures r.width == width && r.height == height
    {
      Rect(p.x, p.y, width, height)
    }
  }

  /** The velocity one step leaves: gravity is added to the vertical part only when the
      entity respects it. */
  function NextVelocity(v: Vec2, respectGravity: bool): (r: Vec2)
    ensures r.x == v.x
    ensures r.y == v.y + (if respectGravity then GRAVITY_ACCEL * FRAME_TIME_SECONDS else 0.0)
  {
    if respectGravity then Vec2(v.x, v.y + GRAVITY_ACCEL * FRAME_TIME_SECONDS) else v
  }

  class PhysicsEntity {
    /** The Entity part of this physics entity. */
    const entity: Entity
    var velocity: Vec2
    var rect: Rect
    var respectGravity: bool

    constructor (fxOnly: bool := false)
      ensures fresh(entity)
      ensures entity.fxOnly == fxOnly && entity.id == INVALID_ENTITY_ID
      ensures entity.world == null && !entity.markedForDeletion
      ensures respectGravity
      ensures velocity == Vec2(0.0, 0.0) && rect == Rect(0.0, 0.0, 0.0, 0.0)
    {
      entity := new Entity(fxOnly);
      velocity := Vec2(0.0, 0.0);
      rect := Rect(0.0, 0.0, 0.0, 0.0);
      respectGravity := true;
    }

    function GetPosition(): Vec2
      reads this
    {
      rect.Position()
    }

    method SetVelocity(v: Vec2)
      modifies this
      ensures velocity == v
      ensures rect == old(rect) && respectGravity == old(respectGravity)
    {
      velocity := v;
    }

    method SetRectangle(r: Rect)
      modifies this
      ensures rect == r
      ensures velocity == old(velocity) && respectGravity == old(respectGravity)
    {
      rect := r;
    }

    method SetPosition(p: Vec2)
      modifies this
      ensures GetPosition() == p
      ensures rect.width == old(rect.width) && rect.height == old(rect.height)
      ensures velocity == old(velocity) && respectGravity == old(respectGravity)
    {
      rect := rect.MovedTo(p);
    }

    method SetRespectGravity(b: bool)
      modifies this
      ensures respectGravity == b
      ensures rect == old(rect) && velocity == old(velocity)
    {
      respectGravity := b;
    }

    /** One explicit-Euler step: the position moves by the velocity held BEFORE the step,
        then gravity is added to the velocity. Without a world nothing happens. */
    method Tick()
      modifies this
      ensures entity.world == null ==> unchanged(this)
      ensures entity.world != null ==>
                rect == old(rect).MovedTo(old(rect).Position().Plus(old(velocity)))
                && velocity == NextVelocity(old(velocity), old(respectGravity))
      ensures respectGravity == old(respectGravity)
    {
      var w := entity.world;
      if w != null {
        var newPos := GetPosition().Plus(velocity);
        if respectGravity {
          velocity := velocity.(y := velocity.y + GRAVITY_ACCEL * FRAME_TIME_SECONDS);
        }
        SetPosition(newPos);
      }
    }
  }

  /** Over a run of steps with a world present, the horizontal velocity stays fixed and the
      vertical velocity grows by one gravity increment per step when gravity is respected. */
  function VelocityAfter(v: Vec2, respectGravity: bool, steps: nat): Vec2
  {
    if steps == 0 then v else NextVelocity(VelocityAfter(v, respectGravity, steps - 1), respectGravity)
  }

  lemma {:induction false} VelocityAfterSteps(v: Vec2, respectGravity: bool, steps: nat)
    ensures VelocityAfter(v, respectGravity, steps).x == v.x
    ensures VelocityAfter(v, respectGravity, steps).y
            == v.y + (if respectGravity then steps as real * GRAVITY_ACCEL * FRAME_TIME_SECONDS else 0.0)
  {
    if steps > 0 {
      VelocityAfterSteps(v, respectGravity, steps - 1);
    }
  }
}
