/**
 * The narrow phase (physics/Shape.cpp): an axis-aligned box against an
 * axis-aligned box. Only the body positions and the boxes' half sizes take
 * part; body scale and shape offset do not.
 */
module Shapes {
  import opened Wrappers
  import opened Vec
  import opened Bodies

  /** How far A's right edge reaches past B's left edge. */
  function Right(halfA: Vec2, posA: Vec2, halfB: Vec2, posB: Vec2): real
  {
    posA.x + halfA.x - (posB.x - halfB.x)
  }

  function Left(halfA: Vec2, posA: Vec2, halfB: Vec2, posB: Vec2): real
  {
    posB.x + halfB.x - (posA.x - halfA.x)
  }

  function Top(halfA: Vec2, posA: Vec2, halfB: Vec2, posB: Vec2): real
  {
    posA.y + halfA.y - (posB.y - halfB.y)
  }

  function Bottom(halfA: Vec2, posA: Vec2, halfB: Vec2, posB: Vec2): real
  {
    posB.y + halfB.y - (posA.y - halfA.y)
  }

  /** The boxes overlap: all four reaches are strictly positive. */
  predicate Overlaps(halfA: Vec2, posA: Vec2, halfB: Vec2, posB: Vec2)
  {
    Right(halfA, posA, halfB, posB) > 0.0 && Left(halfA, posA, halfB, posB) > 0.0 &&
    Top(halfA, posA, halfB, posB) > 0.0 && Bottom(halfA, posA, halfB, posB) > 0.0
  }

  /** glm::min. */
  function Min(a: real, b: real): real
  {
    if b < a then b else a
  }

  /** A contact as seen from A: A's normal, the penetration and both offsets. */
  datatype Contact = Contact(normal: Vec2, penetration: real, offsetA: Vec2, offsetB: Vec2)

  /** checkBoxBox on the two boxes' half sizes and the two body positions. */
  function BoxContact(halfA: Vec2, posA: Vec2, halfB: Vec2, posB: Vec2): Option<Contact>
  {
    var right := Right(halfA, posA, halfB, posB);
    var left := Left(halfA, posA, halfB, posB);
    var top := Top(halfA, posA, halfB, posB);
    var bottom := Bottom(halfA, posA, halfB, posB);
    if right > 0.0 && left > 0.0 && top > 0.0 && bottom > 0.0 then
      Some(ContactFor(Min(right, Min(left, Min(top, bottom))), right, left, top, bottom, halfA, halfB))
    else None
  }

  /**
   * The contact for a given penetration: the normal names the first reach
   * equal to it, and each offset is the normal times that body's half size
   * along the normal's axis (written out per axis). When no reach equals
   * the penetration the normal and the offsets stay zero.
   */
  function ContactFor(penetration: real, right: real, left: real, top: real, bottom: real, halfA: Vec2, halfB: Vec2): Contact
  {
    if penetration == right then Contact(Vec2(-1.0, 0.0), penetration, Vec2(-halfA.x, 0.0), Vec2(halfB.x, 0.0))
    else if penetration == left then Contact(Vec2(1.0, 0.0), penetration, Vec2(halfA.x, 0.0), Vec2(-halfB.x, 0.0))
    else if penetration == top then Contact(Vec2(0.0, -1.0), penetration, Vec2(0.0, -halfA.y), Vec2(0.0, halfB.y))
    else if penetration == bottom then Contact(Vec2(0.0, 1.0), penetration, Vec2(0.0, halfA.y), Vec2(0.0, -halfB.y))
    else Contact(Zero, penetration, Zero, Zero)
  }

  /** The manifold checkBoxBox writes for bodies a and b. */
  function ManifoldOf(a: Body, b: Body, c: Contact): Manifold
  {
    Manifold(Point(a, c.offsetA, c.normal, c.penetration), Point(b, c.offsetB, Neg(c.normal), c.penetration))
  }

  /** The smallest of four reaches is no larger than any of them and equals one of them. */
  lemma MinOfFour(right: real, left: real, top: real, bottom: real)
    ensures var p := Min(right, Min(left, Min(top, bottom)));
            p <= right && p <= left && p <= top && p <= bottom &&
            (p == right || p == left || p == top || p == bottom)
  {
  }

  /**
   * For a penetration equal to one of the reaches, A's normal points away
   * from the first reach (in the order right, left, top, bottom) equal to
   * it, so it is a unit axis vector, and each offset is that body's half
   * size along the normal's axis.
   */
  lemma ContactForLaws(p: real, right: real, left: real, top: real, bottom: real, halfA: Vec2, halfB: Vec2)
    requires p == right || p == left || p == top || p == bottom
    ensures var c := ContactFor(p, right, left, top, bottom, halfA, halfB);
            c.penetration == p &&
            (c.normal == Vec2(-1.0, 0.0) <==> p == right) &&
            (c.normal == Vec2(1.0, 0.0) <==> p != right && p == left) &&
            (c.normal == Vec2(0.0, -1.0) <==> p != right && p != left && p == top) &&
            (c.normal == Vec2(0.0, 1.0) <==> p != right && p != left && p != top) &&
            Dot(c.normal, c.normal) == 1.0 &&
            (c.normal.y == 0.0 ==> c.offsetA == Vec2(c.normal.x * halfA.x, 0.0) && c.offsetB == Vec2(-c.normal.x * halfB.x, 0.0)) &&
            (c.normal.x == 0.0 ==> c.offsetA == Vec2(0.0, c.normal.y * halfA.y) && c.offsetB == Vec2(0.0, -c.normal.y * halfB.y))
  {
  }

  /**
   * Contact is reported exactly when the boxes overlap. The penetration is
   * the smallest reach, so it is positive and no larger than any of them,
   * and the contact is the one ContactForLaws describes for it.
   */
  lemma BoxContactLaws(halfA: Vec2, posA: Vec2, halfB: Vec2, posB: Vec2)
    ensures BoxContact(halfA, posA, halfB, posB).Some? <==> Overlaps(halfA, posA, halfB, posB)
    ensures var right, left, top, bottom :=
              Right(halfA, posA, halfB, posB), Left(halfA, posA, halfB, posB),
              Top(halfA, posA, halfB, posB), Bottom(halfA, posA, halfB, posB);
            BoxContact(halfA, posA, halfB, posB).Some? ==>
              var p := BoxContact(halfA, posA, halfB, posB).value.penetration;
              0.0 < p && p <= right && p <= left && p <= top && p <= bottom &&
              (p == right || p == left || p == top || p == bottom) &&
              BoxContact(halfA, posA, halfB, posB).value == ContactFor(p, right, left, top, bottom, halfA, halfB)
  {
    var right, left, top, bottom :=
      Right(halfA, posA, halfB, posB), Left(halfA, posA, halfB, posB),
      Top(halfA, posA, halfB, posB), Bottom(halfA, posA, halfB, posB);
    MinOfFour(right, left, top, bottom);
  }

  /** The two sides of a manifold mirror each other: opposite normals, the same penetration. */
  lemma ManifoldOfLaws(a: Body, b: Body, c: Contact)
    ensures var m := ManifoldOf(a, b, c);
            m.a.body == a && m.b.body == b &&
            m.b.normal == Neg(m.a.normal) && m.a.penetration == m.b.penetration &&
            m.a.normal == c.normal && m.a.penetration == c.penetration
  {
  }

  /** The overlap test and the penetration do not depend on which box is A. */
  lemma OverlapSymmetric(halfA: Vec2, posA: Vec2, halfB: Vec2, posB: Vec2)
    ensures Overlaps(halfA, posA, halfB, posB) <==> Overlaps(halfB, posB, halfA, posA)
    ensures Overlaps(halfA, posA, halfB, posB) ==>
              BoxContact(halfA, posA, halfB, posB).value.penetration == BoxContact(halfB, posB, halfA, posA).value.penetration
  {
    assert Right(halfA, posA, halfB, posB) == Left(halfB, posB, halfA, posA);
    assert Top(halfA, posA, halfB, posB) == Bottom(halfB, posB, halfA, posA);
    if Overlaps(halfA, posA, halfB, posB) {
      MinOfFour(Right(halfA, posA, halfB, posB), Left(halfA, posA, halfB, posB), Top(halfA, posA, halfB, posB), Bottom(halfA, posA, halfB, posB));
      MinOfFour(Right(halfB, posB, halfA, posA), Left(halfB, posB, halfA, posA), Top(halfB, posB, halfA, posA), Bottom(halfB, posB, halfA, posA));
    }
  }

  /**
   * Shape::check on the shape of body a against b's shape: the base class
   * never reports contact; a BoxShape does only against a shape tagged BOX,
   * which it treats as a box. A plain shape tagged BOX has no half size to
   * read, so it is excluded.
   */
  function Check(a: Body, shapeA: Shape, posA: Vec2, b: Body, shapeB: Shape, posB: Vec2): (r: Option<Manifold>)
    requires shapeB.Type() == BoxShape ==> shapeB.Box?
    ensures r.Some? ==> shapeA.Box? && shapeB.Box? && r.value.a.body == a && r.value.b.body == b
  {
    match shapeA
    case PlainShape(_, _) => None
    case Box(_, halfA) =>
      if shapeB.Type() == BoxShape then
        match BoxContact(halfA, posA, shapeB.halfSize, posB)
        case Some(c) => Some(ManifoldOf(a, b, c))
        case None => None
      else None
  }

  /** Two boxes report contact exactly when they overlap, and then with checkBoxBox's manifold. */
  lemma CheckBoxes(a: Body, halfA: Vec2, offA: Vec2, posA: Vec2, b: Body, halfB: Vec2, offB: Vec2, posB: Vec2)
    ensures Check(a, Box(offA, halfA), posA, b, Box(offB, halfB), posB).Some? <==> Overlaps(halfA, posA, halfB, posB)
    ensures Overlaps(halfA, posA, halfB, posB) ==>
              Check(a, Box(offA, halfA), posA, b, Box(offB, halfB), posB) ==
              Some(ManifoldOf(a, b, BoxContact(halfA, posA, halfB, posB).value))
  {
  }
}
