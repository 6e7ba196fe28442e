/**
 * ParticleSystem (particles/ParticleSystem.cpp): a bounded pool of particles
 * that reuses slots round-robin once full, and an update that drops expired
 * particles by swapping in the last one. The renderer's submit calls become
 * the list of poses an update draws; size, colour and fading are left out.
 */
module Particles {
  import opened Wrappers
  import opened Vec
  import opened SwapPops

  const MaxParticles: nat := 10000

  datatype Particle = Particle(
    createTime: real, lifeTime: real,
    position: Vec2, velocity: Vec2, acceleration: Vec2,
    rotation: real, angular: real)

  /** A default-constructed particle stamped with the current time. */
  function Fresh(time: real): Particle
  {
    Particle(time, 0.0, Vec2(0.0, 0.0), Vec2(0.0, 0.0), Vec2(0.0, 0.0), 0.0, 0.0)
  }

  /** A particle is dropped once its age exceeds its life time. */
  predicate Expired(p: Particle, time: real)
  {
    time - p.createTime > p.lifeTime
  }

  /** Where a live particle of age t is drawn. */
  datatype Pose = Pose(position: Vec2, rotation: real)

  function PoseAt(p: Particle, t: real): Pose
  {
    Pose(Add(p.position, Scale(Add(p.velocity, Scale(p.acceleration, t * 0.5)), t)), p.rotation + p.angular * t)
  }

  /** The slot a full pool reuses: reuseIndex, or 0 once it has run past the end. */
  function ReuseSlot(size: nat, reuseIndex: nat): nat
  {
    if reuseIndex >= size then 0 else reuseIndex
  }

  /**
   * addParticle as written: at capacity the slot written is the already
   * incremented reuseIndex. None when that write is out of bounds.
   * Results are (particles, reuseIndex, slot written).
   */
  function AddAsWritten(particles: seq<Particle>, reuseIndex: nat, time: real): Option<(seq<Particle>, nat, nat)>
  {
    if |particles| >= MaxParticles then
      var index := ReuseSlot(|particles|, reuseIndex);
      var written := index + 1;
      if written < |particles| then Some((particles[written := Fresh(time)], written, written)) else None
    else Some((particles + [Fresh(time)], reuseIndex, |particles|))
  }

  /** With a full pool and reuseIndex at the last slot, the write as written is one past the end. */
  lemma AddAsWrittenOverruns(particles: seq<Particle>, time: real)
    requires |particles| == MaxParticles
    ensures AddAsWritten(particles, MaxParticles - 1, time).None?
  {
  }

  /** As written, the slot returned by reuse is never the one reuseIndex pointed at. */
  lemma AddAsWrittenSkipsSlot(particles: seq<Particle>, reuseIndex: nat, time: real)
    requires |particles| >= MaxParticles
    requires AddAsWritten(particles, reuseIndex, time).Some?
    ensures AddAsWritten(particles, reuseIndex, time).value.2 == ReuseSlot(|particles|, reuseIndex) + 1
  {
  }

  /** addParticle writing the slot it reserves: (particles, reuseIndex, slot written). */
  function AddSpec(particles: seq<Particle>, reuseIndex: nat, time: real): (seq<Particle>, nat, nat)
  {
    if |particles| >= MaxParticles then
      var index := ReuseSlot(|particles|, reuseIndex);
      (particles[index := Fresh(time)], index + 1, index)
    else (particles + [Fresh(time)], reuseIndex, |particles|)
  }

  /**
   * The pool never grows past capacity; below capacity a particle is appended,
   * at capacity the size stays and one slot is overwritten; the slot written
   * always exists and holds a fresh particle stamped with the current
   * time, and every other slot is unchanged.
   */
  lemma AddSpecLaws(particles: seq<Particle>, reuseIndex: nat, time: real)
    requires |particles| <= MaxParticles
    ensures var (after, reuse, slot) := AddSpec(particles, reuseIndex, time);
            |after| <= MaxParticles &&
            slot < |after| && after[slot] == Fresh(time) &&
            (forall k :: 0 <= k < |particles| && k != slot ==> after[k] == particles[k]) &&
            (|particles| < MaxParticles ==> |after| == |particles| + 1 && reuse == reuseIndex) &&
            (|particles| == MaxParticles ==> |after| == |particles| && reuse == slot + 1 && reuse <= |after|)
  {
  }

  /** Repeated adds to a full pool walk the slots in order and wrap to 0 after the last one. */
  lemma AddSpecRoundRobin(particles: seq<Particle>, reuseIndex: nat, time: real)
    requires |particles| == MaxParticles
    ensures var (after, reuse, slot) := AddSpec(particles, reuseIndex, time);
            AddSpec(after, reuse, time).2 == if slot + 1 < MaxParticles then slot + 1 else 0
  {
  }

  /** The survivors as a multiset: the non-expired particles, each as often as before. */
  ghost predicate SurvivorsOf(after: seq<Particle>, before: seq<Particle>, time: real)
  {
    forall p :: multiset(after)[p] == if Expired(p, time) then 0 else multiset(before)[p]
  }

  /** One removal keeps the accounting: what is left plus what was removed is the original list. */
  lemma SwapPopStep(s: seq<Particle>, i: nat, removed: multiset<Particle>, before: seq<Particle>)
    requires i < |s|
    requires multiset(s) + removed == multiset(before)
    ensures multiset(SwapPop(s, i)) + (removed + multiset{s[i]}) == multiset(before)
  {
    SwapPopMultiset(s, i);
  }

  lemma SurvivorsFromRemoved(after: seq<Particle>, removed: multiset<Particle>, before: seq<Particle>, time: real)
    requires multiset(after) + removed == multiset(before)
    requires forall p :: p in removed ==> Expired(p, time)
    requires forall k :: 0 <= k < |after| ==> !Expired(after[k], time)
    ensures SurvivorsOf(after, before, time)
  {
    forall q ensures multiset(after)[q] == if Expired(q, time) then 0 else multiset(before)[q] {
      if !Expired(q, time) {
        assert q !in removed;
      }
    }
  }

  /** The first i particles are live, and draws holds their poses in order. */
  predicate DrawnUpTo(s: seq<Particle>, draws: seq<Pose>, i: nat, time: real)
  {
    i <= |s| && |draws| == i &&
    forall k :: 0 <= k < i ==> !Expired(s[k], time) && draws[k] == PoseAt(s[k], time - s[k].createTime)
  }

  /** Dropping particle i leaves the particles before it, and their poses, alone. */
  lemma DropKeepsDrawn(s: seq<Particle>, draws: seq<Pose>, i: nat, time: real)
    requires i < |s| && DrawnUpTo(s, draws, i, time)
    ensures DrawnUpTo(SwapPop(s, i), draws, i, time)
  {
    forall k | 0 <= k < i
      ensures SwapPop(s, i)[k] == s[k]
    {
    }
  }

  /** Drawing live particle i extends the drawn prefix by one. */
  lemma DrawExtends(s: seq<Particle>, draws: seq<Pose>, i: nat, time: real)
    requires i < |s| && DrawnUpTo(s, draws, i, time) && !Expired(s[i], time)
    ensures DrawnUpTo(s, draws + [PoseAt(s[i], time - s[i].createTime)], i + 1, time)
  {
  }

  class ParticleSystem {
    var particles: seq<Particle>
    var time: real
    var reuseIndex: nat

    predicate Valid()
      reads this
    {
      |particles| <= MaxParticles
    }

    constructor ()
      ensures Valid() && particles == [] && time == 0.0 && reuseIndex == 0
    {
      particles := [];
      time := 0.0;
      reuseIndex := 0;
    }

    /** addParticle, writing the reserved slot. slot is the index of the particle returned. */
    method AddParticle() returns (slot: nat)
      requires Valid()
      modifies this
      ensures Valid() && time == old(time)
      ensures (particles, reuseIndex, slot) == AddSpec(old(particles), old(reuseIndex), time)
    {
      if |particles| >= MaxParticles {
        if reuseIndex >= |particles| {
          reuseIndex := 0;
        }
        slot := reuseIndex;
        reuseIndex := reuseIndex + 1;
        particles := particles[slot := Fresh(time)];
      } else {
        slot := |particles|;
        particles := particles + [Fresh(time)];
      }
    }

    /**
     * update: advance the clock, drop expired particles by moving the last one
     * into their slot (re-examining that slot), and draw the others in
     * their final order.
     */
    method Update(deltaTime: real) returns (draws: seq<Pose>)
      requires Valid()
      modifies this
      ensures Valid() && time == old(time) + deltaTime && reuseIndex == old(reuseIndex)
      ensures SurvivorsOf(particles, old(particles), time)
      ensures forall k :: 0 <= k < |particles| ==> !Expired(particles[k], time)
      ensures |draws| == |particles|
      ensures forall k :: 0 <= k < |particles| ==> draws[k] == PoseAt(particles[k], time - particles[k].createTime)
    {
      time := time + deltaTime;
      particles, draws := Expire(particles, time);
    }

    /** The loop of update over the particle list. */
    static method Expire(before: seq<Particle>, time: real) returns (particles: seq<Particle>, draws: seq<Pose>)
      ensures |particles| <= |before|
      ensures SurvivorsOf(particles, before, time)
      ensures forall k :: 0 <= k < |particles| ==> !Expired(particles[k], time)
      ensures |draws| == |particles|
      ensures forall k :: 0 <= k < |particles| ==> draws[k] == PoseAt(particles[k], time - particles[k].createTime)
    {
      particles := before;
      ghost var removed: multiset<Particle> := multiset{};
      draws := [];
      var i := 0;
      while i < |particles|
        invariant 0 <= i <= |particles| <= |before| && |draws| == i
        invariant multiset(particles) + removed == multiset(before)
        invariant forall p :: p in removed ==> Expired(p, time)
        invariant DrawnUpTo(particles, draws, i, time)
        decreases |particles| - i
      {
        var p := particles[i];
        var t := time - p.createTime;
        if t > p.lifeTime {
          SwapPopStep(particles, i, removed, before);
          DropKeepsDrawn(particles, draws, i, time);
          removed := removed + multiset{p};
          particles := SwapPop(particles, i);
          continue;
        }
        DrawExtends(particles, draws, i, time);
        draws := draws + [PoseAt(p, t)];
        i := i + 1;
      }
      SurvivorsFromRemoved(particles, removed, before, time);
    }
  }
}
