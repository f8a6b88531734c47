/**
 * Per-tick collision resolution and velocity application
 * (`check_velocity_collisions` and `apply_velocity` in src/position.rs).
 */
module Movement {
  import opened Grid
  import opened WalkMap

  /** `v_vel`: the velocity with its x component zeroed. */
  function XZeroed(v: Velocity): Velocity {
    Velocity(0.0, v.y)
  }

  /** `h_vel`: the velocity with its y component zeroed. */
  function YZeroed(v: Velocity): Velocity {
    Velocity(v.x, 0.0)
  }

  /**
   * The wall-slide decision for one entity: keep the full move if it lands on
   * a walkable cell, else try the move with x zeroed, then the move with y
   * zeroed, else stop. Each component is either kept or zeroed, and the
   * resolved move lands on a walkable cell unless the entity stops.
   */
  function Slide(m: Map, pos: Position, vel: Velocity): (r: Velocity)
    reads m
    ensures r == vel || r == XZeroed(vel) || r == YZeroed(vel) || r == ZeroVelocity()
    ensures (r.x == vel.x || r.x == 0.0) && (r.y == vel.y || r.y == 0.0)
    ensures m.IsWalkablePos(Translate(pos, r)) || r == ZeroVelocity()
    ensures m.IsWalkablePos(Translate(pos, vel)) ==> r == vel
  {
    if m.IsWalkablePos(Translate(pos, vel)) then vel
    else if m.IsWalkablePos(Translate(pos, XZeroed(vel))) then XZeroed(vel)
    else if m.IsWalkablePos(Translate(pos, YZeroed(vel))) then YZeroed(vel)
    else ZeroVelocity()
  }

  /** The candidate moves, in the order they are tried. */
  function SlideCandidates(vel: Velocity): seq<Velocity> {
    [vel, XZeroed(vel), YZeroed(vel)]
  }

  /**
   * The chosen velocity is the first candidate whose move lands on a walkable
   * cell, and zero when none does.
   */
  lemma SlideTakesFirstWalkable(m: Map, pos: Position, vel: Velocity)
    ensures forall k ::
              (&& 0 <= k < 3
               && m.IsWalkablePos(Translate(pos, SlideCandidates(vel)[k]))
               && forall j :: 0 <= j < k ==> !m.IsWalkablePos(Translate(pos, SlideCandidates(vel)[j])))
              ==> Slide(m, pos, vel) == SlideCandidates(vel)[k]
    ensures (forall k :: 0 <= k < 3 ==> !m.IsWalkablePos(Translate(pos, SlideCandidates(vel)[k]))) ==>
              Slide(m, pos, vel) == ZeroVelocity()
  {
    var cs := SlideCandidates(vel);
    if !m.IsWalkablePos(Translate(pos, cs[0])) && !m.IsWalkablePos(Translate(pos, cs[1])) &&
       !m.IsWalkablePos(Translate(pos, cs[2])) {
      assert Slide(m, pos, vel) == ZeroVelocity();
    }
  }

  /**
   * An entity standing on a walkable cell is still on a walkable cell after
   * its velocity has been resolved and applied.
   */
  lemma ResolvedMoveStaysWalkable(m: Map, pos: Position, vel: Velocity)
    requires m.IsWalkablePos(pos)
    ensures m.IsWalkablePos(Translate(pos, Slide(m, pos, vel)))
  {
    var r := Slide(m, pos, vel);
    if r == ZeroVelocity() {
      assert Translate(pos, r) == pos;
    }
  }

  /**
   * `check_velocity_collisions`: replace each entity's velocity by its
   * wall-slide resolution against the map; positions are only read.
   */
  method CheckVelocityCollisions(m: Map, positions: seq<Position>, vels: array<Velocity>)
    requires |positions| == vels.Length
    modifies vels
    ensures forall i :: 0 <= i < vels.Length ==> vels[i] == Slide(m, positions[i], old(vels[i]))
  {
    var i := 0;
    while i < vels.Length
      invariant 0 <= i <= vels.Length
      invariant forall k :: 0 <= k < i ==> vels[k] == Slide(m, positions[k], old(vels[k]))
      invariant forall k :: i <= k < vels.Length ==> vels[k] == old(vels[k])
    {
      vels[i] := ResolveVelocity(m, positions[i], vels[i]);
      i := i + 1;
    }
  }

  /** The body of `check_velocity_collisions` for one entity: try the full, x-zeroed and y-zeroed moves in turn. */
  method ResolveVelocity(m: Map, pos: Position, vel: Velocity) returns (r: Velocity)
    ensures r == Slide(m, pos, vel)
  {
    r := vel;
    if !m.IsWalkablePos(Translate(pos, vel)) {
      var vVel := XZeroed(vel);
      var hVel := YZeroed(vel);
      if m.IsWalkablePos(Translate(pos, vVel)) {
        r := vVel;
      } else if m.IsWalkablePos(Translate(pos, hVel)) {
        r := hVel;
      } else {
        r := ZeroVelocity();
      }
    }
  }

  /** `apply_velocity`: move every entity by its velocity; nothing else changes. */
  method ApplyVelocity(positions: array<Position>, vels: seq<Velocity>)
    requires positions.Length == |vels|
    modifies positions
    ensures forall i :: 0 <= i < positions.Length ==> positions[i] == Translate(old(positions[i]), vels[i])
  {
    var i := 0;
    while i < positions.Length
      invariant 0 <= i <= positions.Length
      invariant forall k :: 0 <= k < i ==> positions[k] == Translate(old(positions[k]), vels[k])
      invariant forall k :: i <= k < positions.Length ==> positions[k] == old(positions[k])
    {
      positions[i] := Translate(positions[i], vels[i]);
      i := i + 1;
    }
  }

  /**
   * One movement tick in the scheduled order: resolve collisions, then apply
   * the resolved velocities. Entities that start on walkable cells end on
   * walkable cells.
   */
  method MovementTick(m: Map, positions: array<Position>, vels: array<Velocity>)
    requires positions.Length == vels.Length
    modifies positions, vels
    ensures forall i :: 0 <= i < vels.Length ==> vels[i] == Slide(m, old(positions[i]), old(vels[i]))
    ensures forall i :: 0 <= i < positions.Length ==> positions[i] == Translate(old(positions[i]), vels[i])
    ensures forall i :: 0 <= i < positions.Length && m.IsWalkablePos(old(positions[i])) ==>
              m.IsWalkablePos(positions[i])
  {
    CheckVelocityCollisions(m, positions[..], vels);
    ApplyVelocity(positions, vels[..]);
    forall i | 0 <= i < positions.Length && m.IsWalkablePos(old(positions[i]))
      ensures m.IsWalkablePos(positions[i])
    {
      ResolvedMoveStaysWalkable(m, old(positions[i]), old(vels[i]));
    }
  }
}
