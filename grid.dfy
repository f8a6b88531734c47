/**
 * Grid and continuous coordinates of the prison simulation (src/position.rs).
 *
 * Grid cells are integer pairs; continuous positions and velocities are exact
 * reals standing in for the source's `f64` pairs.
 */
module Grid {

  const I32_MIN: int := -0x8000_0000
  const I32_MAX: int := 0x7fff_ffff

  /** A discrete cell of the walkability grid (`GridPosition`, a pair of `i32`). */
  datatype GridPosition = GridPosition(x: int, y: int)

  predicate InI32(n: int) {
    I32_MIN <= n <= I32_MAX
  }

  /** Both components fit the source's `i32` fields. */
  predicate Representable(c: GridPosition) {
    InI32(c.x) && InI32(c.y)
  }

  function Abs(n: int): nat {
    if n < 0 then -n else n
  }

  /** `GridPosition::zero`. */
  function Zero(): GridPosition {
    GridPosition(0, 0)
  }

  /** Component-wise sum (`impl Add for &GridPosition`). */
  function Add(a: GridPosition, b: GridPosition): GridPosition {
    GridPosition(a.x + b.x, a.y + b.y)
  }

  /** Component-wise difference (`impl Sub for &GridPosition`). */
  function Sub(a: GridPosition, b: GridPosition): GridPosition {
    GridPosition(a.x - b.x, a.y - b.y)
  }

  function Negate(a: GridPosition): GridPosition {
    GridPosition(-a.x, -a.y)
  }

  /** A step to one of the four axis-aligned neighbours. */
  predicate IsUnitStep(d: GridPosition) {
    Abs(d.x) + Abs(d.y) == 1
  }

  /** `b` is one of the four axis-aligned neighbours of `a`. */
  predicate Adjacent(a: GridPosition, b: GridPosition) {
    IsUnitStep(Sub(b, a))
  }

  lemma AddSubCancel(a: GridPosition, b: GridPosition)
    ensures Sub(Add(a, b), b) == a
    ensures Add(Sub(a, b), b) == a
    ensures Add(a, Zero()) == a
  {
  }

  lemma AdjacentSymmetric(a: GridPosition, b: GridPosition)
    ensures Adjacent(a, b) <==> Adjacent(b, a)
  {
  }

  /** The fixed neighbour order used by `four_directions`: up, down, right, left. */
  function FourDirections(): seq<GridPosition> {
    [GridPosition(0, 1), GridPosition(0, -1), GridPosition(1, 0), GridPosition(-1, 0)]
  }

  /**
   * The four directions are exactly the unit steps, without repetition, and
   * closed under negation.
   */
  lemma FourDirectionsAreUnitSteps()
    ensures |FourDirections()| == 4
    ensures forall i :: 0 <= i < 4 ==> IsUnitStep(FourDirections()[i])
    ensures forall d :: IsUnitStep(d) ==> d in FourDirections()
    ensures forall i, j :: 0 <= i < j < 4 ==> FourDirections()[i] != FourDirections()[j]
    ensures forall i :: 0 <= i < 4 ==> Negate(FourDirections()[i]) in FourDirections()
  {
    var r := FourDirections();
    forall d | IsUnitStep(d) ensures d in r {
      if d.x == 0 {
        assert d.y == 1 || d.y == -1;
        assert d == r[0] || d == r[1];
      } else {
        assert d.y == 0 && (d.x == 1 || d.x == -1);
        assert d == r[2] || d == r[3];
      }
    }
  }

  /** One axis of a `Direction`: the source stores -1, 0 or 1 in an `i8`. */
  predicate IsAxis(n: int) {
    -1 <= n <= 1
  }

  /**
   * A facing or movement direction with each component in {-1, 0, 1}.
   * Its fields are only ever set by the four setters, so `Valid` holds of
   * every direction the source can build.
   */
  class Direction {
    var x: int
    var y: int

    ghost predicate Valid()
      reads this
    {
      IsAxis(x) && IsAxis(y)
    }

    /** `Direction::default()`: no movement on either axis. */
    constructor ()
      ensures Valid() && x == 0 && y == 0
    {
      x, y := 0, 0;
    }

    method Left()
      requires Valid()
      modifies this
      ensures Valid() && x == -1 && y == old(y)
    {
      x := -1;
    }

    method Right()
      requires Valid()
      modifies this
      ensures Valid() && x == 1 && y == old(y)
    {
      x := 1;
    }

    method Up()
      requires Valid()
      modifies this
      ensures Valid() && y == 1 && x == old(x)
    {
      y := 1;
    }

    method Down()
      requires Valid()
      modifies this
      ensures Valid() && y == -1 && x == old(x)
    {
      y := -1;
    }

    /** The direction as a grid offset; zero or a step to one of the eight surrounding cells. */
    function ToGridPos(): (r: GridPosition)
      reads this
      ensures Valid() ==> IsAxis(r.x) && IsAxis(r.y)
      ensures Valid() ==> (r == Zero() || Abs(r.x) + Abs(r.y) in {1, 2})
    {
      GridPosition(x, y)
    }
  }

  /**
   * `Direction::normalized_velocity` for a direction with offset `d`: the
   * unit vector of `d` times `speed`, where `normalize` stands for the
   * floating-point normalisation. A zero direction is left unnormalised, so
   * it always yields the zero velocity.
   */
  function NormalizedVelocity(d: GridPosition, speed: real, normalize: Velocity -> Velocity): (r: Velocity)
    ensures d == Zero() ==> r == ZeroVelocity()
  {
    var v := Velocity(d.x as real, d.y as real);
    var u := if MagnitudeSquared(v) > 0.0 then normalize(v) else v;
    Velocity(u.x * speed, u.y * speed)
  }

  /** `impl Add<&Direction> for GridPosition`: moves `p` by the direction's offset. */
  function AddDirection(p: GridPosition, d: Direction): (r: GridPosition)
    reads d
    ensures r == Add(p, d.ToGridPos())
    ensures d.Valid() ==> Abs(r.x - p.x) <= 1 && Abs(r.y - p.y) <= 1
  {
    GridPosition(p.x + d.x, p.y + d.y)
  }

  /** A continuous location in cell units (`Position`, a pair of `f64`). */
  datatype Position = Position(x: real, y: real)

  /** A per-tick displacement (`Velocity`, a pair of `f64`). */
  datatype Velocity = Velocity(x: real, y: real)

  /** `Velocity::zero`: standing still. */
  function ZeroVelocity(): Velocity {
    Velocity(0.0, 0.0)
  }

  /** `pos.0 + vel.0`: where an entity ends up after one tick at velocity `v`. */
  function Translate(p: Position, v: Velocity): Position {
    Position(p.x + v.x, p.y + v.y)
  }

  /** `target - pos` (`impl Sub for Position`), as a velocity-shaped vector. */
  function Diff(target: Position, p: Position): Velocity {
    Velocity(target.x - p.x, target.y - p.y)
  }

  function MagnitudeSquared(v: Velocity): real {
    v.x * v.x + v.y * v.y
  }

  /**
   * `f64::round`: the nearest integer, ties rounded away from zero.
   */
  function RoundHalfAway(v: real): (n: int)
    ensures -0.5 <= v - n as real <= 0.5
    ensures v - n as real == 0.5 ==> v < 0.0
    ensures v - n as real == -0.5 ==> v > 0.0
  {
    if v >= 0.0 then (v + 0.5).Floor else -((-v + 0.5).Floor)
  }

  /** The `as i32` cast from a float, which saturates at the bounds of `i32`. */
  function SaturateI32(n: int): (r: int)
    ensures InI32(r)
    ensures InI32(n) ==> r == n
    ensures n < I32_MIN ==> r == I32_MIN
    ensures n > I32_MAX ==> r == I32_MAX
  {
    if n < I32_MIN then I32_MIN else if n > I32_MAX then I32_MAX else n
  }

  /** `Position::nearest_cell`: each coordinate rounded and cast to `i32`. */
  function NearestCell(p: Position): (r: GridPosition)
    ensures Representable(r)
    ensures InI32(RoundHalfAway(p.x)) ==> r.x == RoundHalfAway(p.x) && -0.5 <= p.x - r.x as real <= 0.5
    ensures InI32(RoundHalfAway(p.y)) ==> r.y == RoundHalfAway(p.y) && -0.5 <= p.y - r.y as real <= 0.5
    ensures RoundHalfAway(p.x) < I32_MIN ==> r.x == I32_MIN
    ensures RoundHalfAway(p.x) > I32_MAX ==> r.x == I32_MAX
    ensures RoundHalfAway(p.y) < I32_MIN ==> r.y == I32_MIN
    ensures RoundHalfAway(p.y) > I32_MAX ==> r.y == I32_MAX
  {
    GridPosition(SaturateI32(RoundHalfAway(p.x)), SaturateI32(RoundHalfAway(p.y)))
  }

  /** `From<GridPosition> for Position`: the centre of the cell. */
  function CellCentre(c: GridPosition): Position {
    Position(c.x as real, c.y as real)
  }

  /** Every cell the source can hold is recovered from its centre. */
  lemma NearestCellOfCentre(c: GridPosition)
    requires Representable(c)
    ensures NearestCell(CellCentre(c)) == c
  {
    var p := CellCentre(c);
    assert RoundHalfAway(p.x) == c.x;
    assert RoundHalfAway(p.y) == c.y;
  }
}
