/** Two-component vectors over the reals, standing in for glm::vec2. */
module Vec {

  datatype Vec2 = Vec2(x: real, y: real)

  const Zero := Vec2(0.0, 0.0)

  function Add(a: Vec2, b: Vec2): Vec2 { Vec2(a.x + b.x, a.y + b.y) }

  function Sub(a: Vec2, b: Vec2): Vec2 { Vec2(a.x - b.x, a.y - b.y) }

  function Neg(a: Vec2): Vec2 { Vec2(-a.x, -a.y) }

  /** Vector times scalar. */
  function Scale(a: Vec2, s: real): Vec2 { Vec2(a.x * s, a.y * s) }

  /** Component-wise product, as glm's vec2 * vec2. */
  function Mul(a: Vec2, b: Vec2): Vec2 { Vec2(a.x * b.x, a.y * b.y) }

  function Dot(a: Vec2, b: Vec2): real { a.x * b.x + a.y * b.y }

  /** The truncating float-to-int conversion of C++ (rounds toward zero). */
  function Trunc(r: real): (n: int)
    ensures r >= 0.0 ==> n == r.Floor
    ensures r < 0.0 ==> n == -((-r).Floor)
  {
    if r >= 0.0 then r.Floor else -((-r).Floor)
  }

  /** A truncated value is the integer within one of the real, on the side of zero. */
  lemma TruncBounds(r: real)
    ensures r >= 0.0 ==> (Trunc(r) as real) <= r < (Trunc(r) as real) + 1.0
    ensures r < 0.0 ==> (Trunc(r) as real) - 1.0 < r <= (Trunc(r) as real)
  {
  }
}
