/**
 * The Euler solver (physics/Solver.cpp): position and velocity correction of
 * a contact, weighted by body type and mass, and the explicit Euler step
 * each body takes before collisions are looked for. Both are pure functions
 * on body snapshots; the solver class applies them to the Body objects.
 */
module Solvers {
  import opened Vec
  import opened Bodies
  import opened Wrappers
  import opened Shapes

  /** resolve divides by the total mass of two bodies neither of which is STATIC. */
  predicate Weighable(a: BodyState, b: BodyState)
  {
    a.bodyType == Static || b.bodyType == Static || a.mass + b.mass != 0.0
  }

  /** The share of the correction each side takes. */
  function Factors(a: BodyState, b: BodyState): (real, real)
    requires Weighable(a, b)
  {
    if a.bodyType == Static then
      if b.bodyType == Static then (0.0, 0.0) else (0.0, 1.0)
    else if b.bodyType == Static then (1.0, 0.0)
    else (b.mass / (a.mass + b.mass), a.mass / (a.mass + b.mass))
  }

  /**
   * Two STATIC bodies share nothing, a STATIC body leaves the whole
   * correction to the other one, and two movable bodies split it in inverse
   * proportion to their masses, so that the shares add up to one.
   */
  lemma FactorsLaws(a: BodyState, b: BodyState)
    requires Weighable(a, b)
    ensures var (fa, fb) := Factors(a, b);
            (a.bodyType == Static && b.bodyType == Static ==> fa == 0.0 && fb == 0.0) &&
            (a.bodyType == Static && b.bodyType != Static ==> fa == 0.0 && fb == 1.0) &&
            (a.bodyType != Static && b.bodyType == Static ==> fa == 1.0 && fb == 0.0) &&
            (a.bodyType != Static && b.bodyType != Static ==>
               fa + fb == 1.0 && fa * (a.mass + b.mass) == b.mass && fb * (a.mass + b.mass) == a.mass) &&
            (a.bodyType == Static ==> fa == 0.0) && (b.bodyType == Static ==> fb == 0.0)
  {
    if a.bodyType != Static && b.bodyType != Static {
      var total := a.mass + b.mass;
      calc {
        b.mass / total + a.mass / total;
        (b.mass + a.mass) / total;
        1.0;
      }
    }
  }

  /** How fast the bodies approach each other along A's normal (positive when they do). */
  function Approach(m: Manifold, a: BodyState, b: BodyState): real
  {
    -Dot(m.a.normal, Sub(a.velocity, b.velocity))
  }

  /** A position moved along n by the share of the distance d. */
  function Moved(p: Vec2, n: Vec2, d: real, share: real): Vec2
  {
    Add(p, Scale(n, d * share))
  }

  /** A velocity pushed along n by the share of (1 + e) times the approach speed nv. */
  function Pushed(v: Vec2, n: Vec2, nv: real, e: real, share: real): Vec2
  {
    Add(v, Scale(n, nv * (1.0 + e) * share))
  }

  /** The positions resolve moves the two bodies to: each along its normal by its share of the penetration. */
  function Corrected(m: Manifold, a: BodyState, b: BodyState): (Vec2, Vec2)
    requires Weighable(a, b)
  {
    (Moved(a.position, m.a.normal, m.a.penetration, Factors(a, b).0),
     Moved(b.position, m.b.normal, m.b.penetration, Factors(a, b).1))
  }

  /**
   * The velocities resolve gives the two bodies: while they approach, each is
   * pushed along its normal by its share of (1 + bounciness) times the
   * approach speed; otherwise both are kept.
   */
  function Bounced(m: Manifold, a: BodyState, b: BodyState): (Vec2, Vec2)
    requires Weighable(a, b)
  {
    var nv := Approach(m, a, b);
    if nv > 0.0 then
      (Pushed(a.velocity, m.a.normal, nv, a.bounciness, Factors(a, b).0),
       Pushed(b.velocity, m.b.normal, nv, b.bounciness, Factors(a, b).1))
    else (a.velocity, b.velocity)
  }

  /** EulerSolver::resolve on snapshots of the two bodies of a manifold. */
  function Resolved(m: Manifold, a: BodyState, b: BodyState): (BodyState, BodyState)
    requires Weighable(a, b)
  {
    (a.(position := Corrected(m, a, b).0, velocity := Bounced(m, a, b).0),
     b.(position := Corrected(m, a, b).1, velocity := Bounced(m, a, b).1))
  }

  /**
   * resolve changes nothing but the position and the velocity of either
   * body; velocities change only while the bodies approach each other, and
   * a STATIC body keeps both.
   */
  lemma ResolvedLaws(m: Manifold, a: BodyState, b: BodyState)
    requires Weighable(a, b)
    ensures Resolved(m, a, b).0 == a.(position := Resolved(m, a, b).0.position, velocity := Resolved(m, a, b).0.velocity)
    ensures Resolved(m, a, b).1 == b.(position := Resolved(m, a, b).1.position, velocity := Resolved(m, a, b).1.velocity)
    ensures Approach(m, a, b) <= 0.0 ==> Resolved(m, a, b).0.velocity == a.velocity && Resolved(m, a, b).1.velocity == b.velocity
    ensures a.bodyType == Static ==> Resolved(m, a, b).0 == a
    ensures b.bodyType == Static ==> Resolved(m, a, b).1 == b
  {
    if a.bodyType == Static {
      ZeroShare(a.position, m.a.normal, m.a.penetration, a.velocity, Approach(m, a, b), a.bounciness);
    }
    if b.bodyType == Static {
      ZeroShare(b.position, m.b.normal, m.b.penetration, b.velocity, Approach(m, a, b), b.bounciness);
    }
  }

  /** A zero share moves nothing. */
  lemma ZeroShare(p: Vec2, n: Vec2, d: real, v: Vec2, nv: real, e: real)
    ensures Moved(p, n, d, 0.0) == p && Pushed(v, n, nv, e, 0.0) == v
  {
  }

  /** The reach along one axis shrinks by the two shares of p when they add up to one. */
  lemma SharesAddUp(p: real, fa: real, fb: real)
    requires fa + fb == 1.0
    ensures p * fa + p * fb == p
  {
    assert p * fa + p * fb == p * (fa + fb);
  }

  /**
   * c is a contact along one axis: its normal is a unit axis vector and its
   * penetration is the reach of A past B on that side.
   */
  predicate AxisContact(halfA: Vec2, posA: Vec2, halfB: Vec2, posB: Vec2, c: Contact)
  {
    (c.normal == Vec2(-1.0, 0.0) && c.penetration == Right(halfA, posA, halfB, posB)) ||
    (c.normal == Vec2(1.0, 0.0) && c.penetration == Left(halfA, posA, halfB, posB)) ||
    (c.normal == Vec2(0.0, -1.0) && c.penetration == Top(halfA, posA, halfB, posB)) ||
    (c.normal == Vec2(0.0, 1.0) && c.penetration == Bottom(halfA, posA, halfB, posB))
  }

  /** The contact checkBoxBox reports is an axis contact. */
  lemma ContactAxis(halfA: Vec2, posA: Vec2, halfB: Vec2, posB: Vec2, c: Contact)
    requires BoxContact(halfA, posA, halfB, posB) == Some(c)
    ensures AxisContact(halfA, posA, halfB, posB, c)
  {
    BoxContactLaws(halfA, posA, halfB, posB);
    var right, left, top, bottom :=
      Right(halfA, posA, halfB, posB), Left(halfA, posA, halfB, posB),
      Top(halfA, posA, halfB, posB), Bottom(halfA, posA, halfB, posB);
    ContactForLaws(c.penetration, right, left, top, bottom, halfA, halfB);
  }

  /** Moving along a unit axis moves one coordinate only. */
  lemma AxisShift(p: Vec2, n: Vec2, d: real, share: real)
    ensures n == Vec2(-1.0, 0.0) ==> Moved(p, n, d, share) == Vec2(p.x - d * share, p.y)
    ensures n == Vec2(1.0, 0.0) ==> Moved(p, n, d, share) == Vec2(p.x + d * share, p.y)
    ensures n == Vec2(0.0, -1.0) ==> Moved(p, n, d, share) == Vec2(p.x, p.y - d * share)
    ensures n == Vec2(0.0, 1.0) ==> Moved(p, n, d, share) == Vec2(p.x, p.y + d * share)
  {
  }

  /**
   * Moving A along the normal of an axis contact and B the other way, by
   * shares of the penetration that add up to one, leaves the boxes touching
   * but no longer overlapping: checkBoxBox reports no contact.
   */
  lemma CorrectionSeparates(halfA: Vec2, posA: Vec2, halfB: Vec2, posB: Vec2, c: Contact, fa: real, fb: real)
    requires AxisContact(halfA, posA, halfB, posB, c) && fa + fb == 1.0
    ensures BoxContact(halfA, Moved(posA, c.normal, c.penetration, fa), halfB, Moved(posB, Neg(c.normal), c.penetration, fb)).None?
  {
    var n, d := c.normal, c.penetration;
    SharesAddUp(d, fa, fb);
    AxisShift(posA, n, d, fa);
    AxisShift(posB, Neg(n), d, fb);
    var pa, pb := Moved(posA, n, d, fa), Moved(posB, Neg(n), d, fb);
    if n == Vec2(-1.0, 0.0) {
      assert Right(halfA, pa, halfB, pb) == 0.0;
    } else if n == Vec2(1.0, 0.0) {
      assert Left(halfA, pa, halfB, pb) == 0.0;
    } else if n == Vec2(0.0, -1.0) {
      assert Top(halfA, pa, halfB, pb) == 0.0;
    } else {
      assert Bottom(halfA, pa, halfB, pb) == 0.0;
    }
    BoxContactLaws(halfA, pa, halfB, pb);
  }

  /**
   * Resolving the contact checkBoxBox reports between two bodies that are
   * not both STATIC moves them to positions where it reports none.
   */
  lemma ResolveSeparates(a: Body, sa: BodyState, b: Body, sb: BodyState, halfA: Vec2, halfB: Vec2, c: Contact)
    requires Weighable(sa, sb) && !(sa.bodyType == Static && sb.bodyType == Static)
    requires BoxContact(halfA, sa.position, halfB, sb.position) == Some(c)
    ensures BoxContact(halfA, Resolved(ManifoldOf(a, b, c), sa, sb).0.position,
                       halfB, Resolved(ManifoldOf(a, b, c), sa, sb).1.position).None?
  {
    ContactAxis(halfA, sa.position, halfB, sb.position, c);
    SharesSum(sa, sb);
    CorrectionSeparates(halfA, sa.position, halfB, sb.position, c, Factors(sa, sb).0, Factors(sa, sb).1);
  }

  /** Unless both bodies are STATIC, the two shares add up to one. */
  lemma SharesSum(a: BodyState, b: BodyState)
    requires Weighable(a, b) && !(a.bodyType == Static && b.bodyType == Static)
    ensures Factors(a, b).0 + Factors(a, b).1 == 1.0
  {
    if a.bodyType != Static && b.bodyType != Static {
      var total := a.mass + b.mass;
      assert b.mass / total + a.mass / total == (b.mass + a.mass) / total;
    }
  }

  /** Two movable bodies take shares in inverse proportion to their masses. */
  lemma SharesBalance(a: BodyState, b: BodyState)
    requires a.bodyType != Static && b.bodyType != Static && a.mass + b.mass != 0.0
    ensures Factors(a, b).0 * a.mass == Factors(a, b).1 * b.mass
  {
    var t := a.mass + b.mass;
    assert (b.mass / t) * a.mass == (b.mass * a.mass) / t;
    assert (a.mass / t) * b.mass == (a.mass * b.mass) / t;
  }

  /** Opposite pushes whose shares balance the masses keep the total momentum. */
  lemma PushesKeepMomentum(va: Vec2, vb: Vec2, n: Vec2, nv: real, e: real, fa: real, fb: real, ma: real, mb: real)
    requires fa * ma == fb * mb
    ensures Add(Scale(Pushed(va, n, nv, e, fa), ma), Scale(Pushed(vb, Neg(n), nv, e, fb), mb)) ==
            Add(Scale(va, ma), Scale(vb, mb))
  {
    MomentumX(va, vb, n, nv, e, fa, fb, ma, mb);
    MomentumY(va, vb, n, nv, e, fa, fb, ma, mb);
  }

  lemma MomentumX(va: Vec2, vb: Vec2, n: Vec2, nv: real, e: real, fa: real, fb: real, ma: real, mb: real)
    requires fa * ma == fb * mb
    ensures Scale(Pushed(va, n, nv, e, fa), ma).x + Scale(Pushed(vb, Neg(n), nv, e, fb), mb).x ==
            Scale(va, ma).x + Scale(vb, mb).x
  {
    var k := nv * (1.0 + e);
    assert Scale(Pushed(va, n, nv, e, fa), ma).x == va.x * ma + n.x * k * (fa * ma);
    assert Scale(Pushed(vb, Neg(n), nv, e, fb), mb).x == vb.x * mb - n.x * k * (fb * mb);
    assert n.x * k * (fa * ma) == n.x * k * (fb * mb);
  }

  lemma MomentumY(va: Vec2, vb: Vec2, n: Vec2, nv: real, e: real, fa: real, fb: real, ma: real, mb: real)
    requires fa * ma == fb * mb
    ensures Scale(Pushed(va, n, nv, e, fa), ma).y + Scale(Pushed(vb, Neg(n), nv, e, fb), mb).y ==
            Scale(va, ma).y + Scale(vb, mb).y
  {
    var k := nv * (1.0 + e);
    assert Scale(Pushed(va, n, nv, e, fa), ma).y == va.y * ma + n.y * k * (fa * ma);
    assert Scale(Pushed(vb, Neg(n), nv, e, fb), mb).y == vb.y * mb - n.y * k * (fb * mb);
    assert n.y * k * (fa * ma) == n.y * k * (fb * mb);
  }

  /**
   * Opposite pushes along a unit normal, with shares adding up to one, turn
   * an approach speed nv into -e * nv.
   */
  lemma PushesReverseApproach(va: Vec2, vb: Vec2, n: Vec2, nv: real, e: real, fa: real, fb: real)
    requires fa + fb == 1.0 && Dot(n, n) == 1.0 && nv == -Dot(n, Sub(va, vb))
    ensures -Dot(n, Sub(Pushed(va, n, nv, e, fa), Pushed(vb, Neg(n), nv, e, fb))) == -e * nv
  {
    assert nv * (1.0 + e) * fa + nv * (1.0 + e) * fb == nv * (1.0 + e) * (fa + fb);
    assert Sub(Pushed(va, n, nv, e, fa), Pushed(vb, Neg(n), nv, e, fb)) ==
           Vec2(va.x - vb.x + n.x * (nv * (1.0 + e)), va.y - vb.y + n.y * (nv * (1.0 + e)));
    assert n.x * (va.x - vb.x + n.x * (nv * (1.0 + e))) + n.y * (va.y - vb.y + n.y * (nv * (1.0 + e))) ==
           Dot(n, Sub(va, vb)) + nv * (1.0 + e) * Dot(n, n);
  }

  /**
   * For two movable bodies with the same bounciness e >= 0 and a mirrored
   * manifold with a unit normal, resolve conserves momentum and leaves the
   * bodies no longer approaching: an approach speed nv > 0 becomes -e * nv.
   */
  lemma ResolveConservesMomentum(m: Manifold, a: BodyState, b: BodyState)
    requires a.bodyType != Static && b.bodyType != Static && a.mass + b.mass != 0.0
    requires a.bounciness == b.bounciness && a.bounciness >= 0.0
    requires m.b.normal == Neg(m.a.normal) && Dot(m.a.normal, m.a.normal) == 1.0
    ensures Add(Scale(Resolved(m, a, b).0.velocity, a.mass), Scale(Resolved(m, a, b).1.velocity, b.mass)) ==
            Add(Scale(a.velocity, a.mass), Scale(b.velocity, b.mass))
    ensures Approach(m, a, b) > 0.0 ==> Approach(m, Resolved(m, a, b).0, Resolved(m, a, b).1) == -a.bounciness * Approach(m, a, b)
    ensures Approach(m, Resolved(m, a, b).0, Resolved(m, a, b).1) <= 0.0
  {
    var nv := Approach(m, a, b);
    if nv > 0.0 {
      SharesBalance(a, b);
      SharesSum(a, b);
      PushesKeepMomentum(a.velocity, b.velocity, m.a.normal, nv, a.bounciness, Factors(a, b).0, Factors(a, b).1, a.mass, b.mass);
      PushesReverseApproach(a.velocity, b.velocity, m.a.normal, nv, a.bounciness, Factors(a, b).0, Factors(a, b).1);
    }
  }

  /** EulerSolver::preUpdate on a snapshot, with the solver's time step dt. */
  function PreUpdated(s: BodyState, dt: real): BodyState
  {
    var force := Add(Sub(s.force, Mul(s.velocity, s.drag)), s.gravity);
    match s.bodyType
    case Dynamic =>
      var velocity := Add(s.velocity, Scale(force, dt));
      s.(velocity := velocity, position := Add(s.position, Scale(velocity, dt)), rotation := s.angular * dt, force := Zero)
    case Collider =>
      s.(position := Add(s.position, Scale(s.velocity, dt)), rotation := s.angular * dt, force := Zero)
    case Static =>
      s.(velocity := Zero, force := Zero)
  }

  /**
   * preUpdate always ends with zero force. A DYNAMIC body accelerates by its
   * force less drag plus gravity; DYNAMIC and COLLIDER bodies then move by
   * their new velocity and have their rotation set (not advanced) to
   * angular * dt; a COLLIDER keeps its velocity; a STATIC body stops but
   * keeps its position and rotation. Nothing else changes.
   */
  lemma PreUpdatedLaws(s: BodyState, dt: real)
    ensures var s' := PreUpdated(s, dt);
            var pushed := Add(Sub(s.force, Mul(s.velocity, s.drag)), s.gravity);
            s' == s.(position := s'.position, velocity := s'.velocity, rotation := s'.rotation, force := s'.force) &&
            s'.force == Zero &&
            (s.bodyType == Dynamic ==> s'.velocity == Add(s.velocity, Scale(pushed, dt))) &&
            (s.bodyType == Collider ==> s'.velocity == s.velocity) &&
            (s.bodyType != Static ==> s'.position == Add(s.position, Scale(s'.velocity, dt)) && s'.rotation == s.angular * dt) &&
            (s.bodyType == Static ==> s'.velocity == Zero && s'.position == s.position && s'.rotation == s.rotation)
  {
  }

  /** A pre-update keeps what resolve needs to be defined: type and mass. */
  lemma PreUpdatedKeepsWeights(a: BodyState, b: BodyState, dt: real)
    requires Weighable(a, b)
    ensures Weighable(PreUpdated(a, dt), PreUpdated(b, dt))
    ensures PreUpdated(a, dt).bodyType == a.bodyType && PreUpdated(a, dt).mass == a.mass
  {
  }

  class EulerSolver {
    var deltaTime: real

    constructor ()
      ensures deltaTime == 0.01
    {
      deltaTime := 0.01;
    }

    /**
     * resolve on the manifold's two (distinct) bodies: each gets the position
     * and velocity Resolved computes for it.
     */
    method Resolve(m: Manifold)
      requires m.a.body != m.b.body && Weighable(StateOf(m.a.body), StateOf(m.b.body))
      modifies m.a.body`position, m.a.body`velocity, m.b.body`position, m.b.body`velocity
      ensures StateOf(m.a.body) == Resolved(m, old(StateOf(m.a.body)), old(StateOf(m.b.body))).0
      ensures StateOf(m.b.body) == Resolved(m, old(StateOf(m.a.body)), old(StateOf(m.b.body))).1
    {
      var a, b := m.a.body, m.b.body;
      var r := Resolved(m, StateOf(a), StateOf(b));
      a.position, a.velocity := r.0.position, r.0.velocity;
      b.position, b.velocity := r.1.position, r.1.velocity;
      assert StateOf(a) == r.0 && StateOf(b) == r.1 by { ResolvedLaws(m, old(StateOf(a)), old(StateOf(b))); }
    }

    /** preUpdate with the solver's current time step: the body takes the state PreUpdated computes. */
    method PreUpdate(body: Body)
      modifies body`force, body`velocity, body`position, body`rotation
      ensures StateOf(body) == PreUpdated(old(StateOf(body)), deltaTime)
    {
      var s' := PreUpdated(StateOf(body), deltaTime);
      body.force, body.velocity, body.position, body.rotation := s'.force, s'.velocity, s'.position, s'.rotation;
      assert StateOf(body) == s' by { PreUpdatedLaws(old(StateOf(body)), deltaTime); }
    }
  }
}
