/**
 * The physics data model (physics/Body.h, physics/Shape.h): bodies, their
 * shapes and the two-sided contact record the narrow phase produces. A body
 * is an object that the solver and the broad phase update in place; its
 * collision callback is reduced to whether one is set, and the calls it
 * would receive are recorded by the physics system.
 */
module Bodies {
  import opened Wrappers
  import opened Vec
  import opened Entities

  datatype BodyType = Static | Dynamic | Collider

  datatype ShapeType = PointShape | BoxShape | CircleShape | PolygonShape

  /**
   * A shape: the base class, whose type tag is whatever its creator set, or
   * a BoxShape, whose tag is always BOX.
   */
  datatype Shape =
    | PlainShape(tag: ShapeType, offset: Vec2)
    | Box(offset: Vec2, halfSize: Vec2)
  {
    function Type(): ShapeType
    {
      match this
      case PlainShape(t, _) => t
      case Box(_, _) => BoxShape
    }
  }

  /** The default BoxShape: half size (0.5, 0.5), no offset. */
  const UnitBox: Shape := Box(Vec2(0.0, 0.0), Vec2(0.5, 0.5))

  class Body {
    var bodyType: BodyType
    var position: Vec2
    var scale: Vec2
    var rotation: real
    var velocity: Vec2
    var angular: real
    var force: Vec2
    var drag: Vec2
    var bounciness: real
    var gravity: Vec2
    var mass: real
    var index: int
    var entity: Option<Entity>
    var shape: Shape
    /** Whether onCollide is set. */
    var hasOnCollide: bool

    /** A Body with the header's defaults, given the index and shape addBody assigns. */
    constructor (index: int, shape: Shape)
      ensures bodyType == Static && position == Zero && scale == Vec2(1.0, 1.0) && rotation == 0.0
      ensures velocity == Zero && angular == 0.0 && force == Zero && drag == Zero
      ensures bounciness == 0.0 && gravity == Zero && mass == 1.0
      ensures this.index == index && entity == None && this.shape == shape && !hasOnCollide
    {
      bodyType := Static;
      position := Zero;
      scale := Vec2(1.0, 1.0);
      rotation := 0.0;
      velocity := Zero;
      angular := 0.0;
      force := Zero;
      drag := Zero;
      bounciness := 0.0;
      gravity := Zero;
      mass := 1.0;
      this.index := index;
      entity := None;
      this.shape := shape;
      hasOnCollide := false;
    }
  }

  /** Everything about a body the physics step reads or writes, as a value. */
  datatype BodyState = BodyState(
    bodyType: BodyType, position: Vec2, scale: Vec2, rotation: real,
    velocity: Vec2, angular: real, force: Vec2, drag: Vec2,
    bounciness: real, gravity: Vec2, mass: real,
    shape: Shape, hasOnCollide: bool)

  function StateOf(b: Body): BodyState
    reads b
  {
    BodyState(b.bodyType, b.position, b.scale, b.rotation, b.velocity, b.angular, b.force, b.drag,
              b.bounciness, b.gravity, b.mass, b.shape, b.hasOnCollide)
  }

  /** One side of a contact: the body, the offset of the contact from it, its normal and the penetration. */
  datatype Point = Point(body: Body, offset: Vec2, normal: Vec2, penetration: real)

  datatype Manifold = Manifold(a: Point, b: Point)
}
