/**
 * The rigid-body component (physics/RigidBody.h): it owns one body of the
 * physics system, sets it up from its entity on init, and copies the body's
 * position and rotation back to the entity on every update. The physics
 * system the source fetches from its singleton registry is a parameter, and
 * so is the entity the component belongs to.
 */
module RigidBodies {
  import opened Wrappers
  import opened Vec
  import opened Bodies
  import opened Entities
  import opened Physics

  /** The body type init picks: STATIC for a zero mass, DYNAMIC otherwise. */
  function TypeFor(mass: real): (t: BodyType)
    ensures t == Static <==> mass == 0.0
    ensures t != Collider
  {
    if mass == 0.0 then Static else Dynamic
  }

  class RigidBody {
    var body: Option<Body>
    var mass: real
    const entity: Entity

    /** RigidBody(mass): no body yet. */
    constructor (entity: Entity, mass: real)
      ensures body == None && this.mass == mass && this.entity == entity
    {
      body := None;
      this.mass := mass;
      this.entity := entity;
    }

    /** The body the component holds, as a set. */
    ghost function Held(): set<Body>
      reads this`body
    {
      if body.Some? then {body.value} else {}
    }

    /**
     * init: a new body from addBody, with the component's mass, drag (1, 1),
     * no bounce, the type TypeFor picks, and the entity's position, rotation
     * and scale; the body points back to the entity.
     */
    method Init(physics: PhysicsSystem)
      requires physics.Valid()
      modifies this`body, physics`bodies
      ensures physics.Valid() && body.Some? && fresh(body.value)
      ensures physics.bodies == old(physics.bodies) + [body]
      ensures physics.GetBody(body.value.index) == body && body.value.index == old(physics.GetBodyCount())
      ensures body.value.mass == mass && body.value.drag == Vec2(1.0, 1.0) && body.value.bounciness == 0.0
      ensures body.value.bodyType == TypeFor(mass)
      ensures body.value.position == entity.position && body.value.rotation == entity.rotation && body.value.scale == entity.scale
      ensures body.value.entity == Some(entity) && body.value.shape == physics.defaultShape
      ensures body.value.velocity == Zero && body.value.force == Zero && !body.value.hasOnCollide
    {
      var b := physics.AddBody();
      label Added:
      Setup(b);
      body := Some(b);
      physics.StaysValid@Added();
    }

    /** The part of init that sets up the new body from the component and its entity. */
    method Setup(b: Body)
      modifies b`mass, b`drag, b`bounciness, b`bodyType, b`position, b`rotation, b`scale, b`entity
      ensures b.mass == mass && b.drag == Vec2(1.0, 1.0) && b.bounciness == 0.0 && b.bodyType == TypeFor(mass)
      ensures b.position == entity.position && b.rotation == entity.rotation && b.scale == entity.scale
      ensures b.entity == Some(entity)
    {
      b.mass := mass;
      b.drag := Vec2(1.0, 1.0);
      b.bounciness := 0.0;
      if mass == 0.0 {
        b.bodyType := Static;
      } else {
        b.bodyType := Dynamic;
      }
      b.position := entity.position;
      b.rotation := entity.rotation;
      b.scale := entity.scale;
      b.entity := Some(entity);
    }

    /** update: the entity takes the body's position and rotation, the body the entity's scale. */
    method Update()
      requires body.Some?
      modifies entity`position, entity`rotation, Held()`scale
      ensures entity.position == old(body.value.position) && entity.rotation == old(body.value.rotation)
      ensures body == old(body) && body.value.scale == old(entity.scale)
      ensures body.value.position == old(body.value.position) && body.value.rotation == old(body.value.rotation)
    {
      var b := body.value;
      entity.position := b.position;
      entity.rotation := b.rotation;
      b.scale := entity.scale;
    }

    /** ~RigidBody: the body, when there is one, leaves the physics system as removeBody says. */
    method Destroy(physics: PhysicsSystem)
      requires physics.Valid()
      requires body.Some? && 0 <= body.value.index < |physics.bodies| ==>
                 physics.bodies[body.value.index] == None || physics.bodies[body.value.index] == Some(body.value)
      modifies physics.broadPhase`cells, physics.broadPhase`outsideCell, physics`bodies, Held()`index
      ensures physics.Valid()
      ensures old(body).None? ==> physics.bodies == old(physics.bodies)
      ensures old(body).Some? ==>
                var i := old(body.value.index);
                physics.bodies == (if 0 <= i < old(|physics.bodies|) then old(physics.bodies)[i := None] else old(physics.bodies)) &&
                body.value.index == 0 && body.value !in physics.Live()
    {
      if body.Some? {
        physics.RemoveBody(body.value);
      }
    }
  }
}
