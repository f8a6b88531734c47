/**
 * A path being followed (src/path.rs): a list of waypoint cells and a cursor
 * at the current target, advanced once a waypoint is close enough.
 */
module PathFollow {
  import opened Grid
  import opened Wrappers

  /** Squared distance below which a waypoint counts as reached. */
  const ArrivalThresholdSq: real := 0.1

  /** Where the cursor stands after `next()`: one further, or unchanged at the last cell. */
  function Advanced(current: nat, len: nat): nat {
    if current + 1 == len then current else current + 1
  }

  class Path {
    var cells: seq<GridPosition>
    var current: nat

    /** The cursor indexes a waypoint; only a nonempty path can satisfy this. */
    ghost predicate Valid()
      reads this
    {
      current < |cells|
    }

    /** `Path::new`: the cells as given, the cursor on the first one. */
    constructor (cells: seq<GridPosition>)
      ensures this.cells == cells && current == 0
      ensures Valid() <==> |cells| > 0
    {
      this.cells := cells;
      current := 0;
    }

    /** `target`: the waypoint under the cursor. */
    function Target(): (r: GridPosition)
      reads this
      requires Valid()
      ensures r in cells
    {
      cells[current]
    }

    /**
     * `next`: at the last waypoint, report `None` and stay put; otherwise move
     * the cursor one step and report the new target. The cells never change.
     */
    method Next() returns (r: Option<GridPosition>)
      requires Valid()
      modifies this
      ensures Valid() && cells == old(cells)
      ensures current == Advanced(old(current), |cells|)
      ensures r.None? <==> old(current) + 1 == |cells|
      ensures r.Some? ==> current == old(current) + 1 && r.value == cells[current]
    {
      var nextIdx := current + 1;
      if |cells| == nextIdx {
        r := None;
      } else {
        current := nextIdx;
        r := Some(Target());
      }
    }
  }

  /** Calling `next()` again after it reported `None` changes nothing and reports `None` again. */
  method NextAfterEnd(p: Path) returns (first: Option<GridPosition>, second: Option<GridPosition>)
    requires p.Valid()
    modifies p
    ensures first.None? ==> second.None? && p.current == old(p.current)
    ensures p.cells == old(p.cells) && p.Valid()
  {
    first := p.Next();
    second := p.Next();
  }

  /** The cell's continuous target is within reach of `pos` (`remaining < 0.1`). */
  predicate CloseEnough(target: GridPosition, pos: Position) {
    MagnitudeSquared(Diff(CellCentre(target), pos)) < ArrivalThresholdSq
  }

  /** A vector the source may normalize: not the zero vector. */
  predicate NonZero(v: Velocity) {
    v != ZeroVelocity()
  }

  /**
   * Steering only happens when the waypoint is not reached, and then the
   * vector to normalize is never zero: the source needs no separate guard.
   */
  lemma SteeringVectorNonZero(target: GridPosition, pos: Position)
    requires !CloseEnough(target, pos)
    ensures NonZero(Diff(CellCentre(target), pos))
  {
  }

  /**
   * `move_along_path`, over the entities that follow a path. `steer(diff,
   * speed)` stands for `diff.normalize() * speed`. Per entity: a reached waypoint advances the cursor at
   * most once and leaves the velocity untouched; otherwise the velocity is
   * steered towards the target and the cursor stays.
   */
  method MoveAlongPath(paths: seq<Path>, positions: seq<Position>, speeds: seq<real>,
                       vels: array<Velocity>, steer: (Velocity, real) -> Velocity)
    requires |paths| == |positions| == |speeds| == vels.Length
    requires forall i :: 0 <= i < |paths| ==> paths[i].Valid()
    requires forall i, j :: 0 <= i < j < |paths| ==> paths[i] != paths[j]
    modifies vels, set i | 0 <= i < |paths| :: paths[i]
    ensures forall i :: 0 <= i < |paths| ==> paths[i].Valid() && paths[i].cells == old(paths[i].cells)
    ensures forall i :: 0 <= i < |paths| ==>
              var reached := CloseEnough(old(paths[i].Target()), positions[i]);
              && paths[i].current == (if reached then Advanced(old(paths[i].current), |paths[i].cells|)
                                      else old(paths[i].current))
              && vels[i] == (if reached then old(vels[i])
                             else steer(Diff(CellCentre(old(paths[i].Target())), positions[i]), speeds[i]))
  {
    var i := 0;
    while i < |paths|
      invariant 0 <= i <= |paths|
      invariant forall k :: 0 <= k < |paths| ==> paths[k].Valid() && paths[k].cells == old(paths[k].cells)
      invariant forall k :: i <= k < |paths| ==> paths[k].current == old(paths[k].current)
      invariant forall k :: i <= k < |paths| ==> vels[k] == old(vels[k])
      invariant forall k :: 0 <= k < i ==>
                  var reached := CloseEnough(old(paths[k].Target()), positions[k]);
                  && paths[k].current == (if reached then Advanced(old(paths[k].current), |paths[k].cells|)
                                          else old(paths[k].current))
                  && vels[k] == (if reached then old(vels[k])
                                 else steer(Diff(CellCentre(old(paths[k].Target())), positions[k]), speeds[k]))
    {
      var path := paths[i];
      var target := CellCentre(path.Target());
      var diff := Diff(target, positions[i]);
      var remaining := MagnitudeSquared(diff);
      if remaining < ArrivalThresholdSq {
        var nextTarget := path.Next();
      } else {
        vels[i] := steer(diff, speeds[i]);
      }
      i := i + 1;
    }
  }
}
