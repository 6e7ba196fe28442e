/**
 * The exhaustive broad phase (physics/BroadPhase.cpp, EachBroadPhase):
 * every pair of slots i < j of the physics system's registry, row by row,
 * with the empty slots (a null Body* in the source) handed over as None.
 */
module EachBroadPhases {
  import opened Wrappers
  import opened Bodies
  import opened Pairs
  import opened Physics

  class EachBroadPhase {
    var physics: PhysicsSystem

    constructor (physics: PhysicsSystem)
      ensures this.physics == physics
    {
      this.physics := physics;
    }

    /**
     * each(): slot pair idx[k] is handed over k-th, in the row-major order
     * of the nested loops; every pair of slots i < j below getBodyCount()
     * comes exactly once, and no other.
     */
    method Each() returns (pairs: seq<(Option<Body>, Option<Body>)>, ghost idx: seq<(int, int)>)
      ensures idx == Triangle(|physics.bodies|, |physics.bodies|)
      ensures |pairs| == |idx| && 2 * |pairs| == |physics.bodies| * (|physics.bodies| - 1)
      ensures forall k :: 0 <= k < |idx| ==>
                0 <= idx[k].0 < idx[k].1 < |physics.bodies| &&
                pairs[k] == (physics.GetBody(idx[k].0), physics.GetBody(idx[k].1))
      ensures forall i, j :: Count(idx, (i, j)) == if 0 <= i < j < |physics.bodies| then 1 else 0
    {
      var count := physics.GetBodyCount();
      pairs := VisitTriangle(physics.bodies);
      idx := Triangle(count, count);
      TriangleLength(count, count);
      forall k | 0 <= k < |idx|
        ensures 0 <= idx[k].0 < idx[k].1 < count
        ensures pairs[k] == (physics.GetBody(idx[k].0), physics.GetBody(idx[k].1))
      {
        PickAt(physics.bodies, physics.bodies, idx, k);
        Occurs(idx, k);
        TriangleCount(count, count, idx[k]);
      }
      forall i, j ensures Count(idx, (i, j)) == if 0 <= i < j < count then 1 else 0 {
        TriangleCount(count, count, (i, j));
      }
    }
  }
}
