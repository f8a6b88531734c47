# Please Don't Escape — a Dafny model of the game core

"Please Don't Escape" is a small top-down prison game. A warden walks a grid of
cells, opens and closes doors, catches prisoners who try to escape and repairs
damaged wires. This project models the game's core rules and proves properties
about them:

- **grid and movement** (`grid.dfy`, `movement.dfy`):
  - integer grid cells, continuous positions and velocities, and the warden's facing direction;
  - the per-tick collision check that lets an entity slide along a wall;
  - the step that applies velocities.
- **the walkable map** (`walkmap.dfy`):
  - the table of walkable cells and how newly tagged cells update it;
  - the walkable neighbours of a cell.
- **path following** (`path.dfy`): a path of cells with a cursor, and the system that steers each entity towards its next waypoint.
- **player input and warden actions** (`player.dfy`):
  - the movement keys set the facing and the velocity;
  - Space requests an action;
  - an action toggles the door in front of the warden, or else respawns nearby escaping prisoners and repairs nearby damaged wires.
- **the fixed-point library position** (`fixed.dfy`):
  - the I44F20 fixed-point coordinate `Fixed64`;
  - 3-D `Position` and `Cell`, with floor and round conversions;
  - their Borsh encoding: 8 little-endian two's-complement bytes per component, 24 bytes per value.

Modelling choices:

- Continuous coordinates are exact `real`s. `f64::round` becomes `Grid.RoundHalfAway` (ties away from zero). The `as i32` cast becomes `Grid.SaturateI32`.
- Normalising a vector is a function parameter, because it involves a square root.
- Distance and "close enough" tests compare squared lengths. The thresholds are 1.5 and 0.1.
- A panic in the source becomes an error value:
  - the bad index of `update_map_with_walkables`;
  - `None` for fixed-point overflow.
- Bevy queries become arrays or sequences of the queried components. Bevy's deferred `Commands` become a returned list of `Player.Command`s. The one exception is `Player.PlayerKeyboardAction`: it writes `Action::Pending` straight into the `actions` array, where the source inserts the component through a deferred command (`src/player.rs:70`).

The collision check tries moves in a fixed order:

1. the full move;
2. the move with the x component zeroed (`v_vel`);
3. the move with the y component zeroed (`h_vel`);
4. standing still.

Step 2 before step 3 is the order of the code in `src/position.rs:196-216`. The model follows the code.

`Path::new` accepts an empty slice, but `target` and `next` then index out of bounds. The model admits the empty path (the constructor reports `Valid() <==> |cells| > 0`), and `target`, `next` and `move_along_path` require a valid path.

## Model

| member | source | states |
|---|---|---|
| Grid.FourDirections | src/position.rs:18-25 | the four neighbour offsets in the source's order; `Grid.FourDirectionsAreUnitSteps` states that they are the four unit steps |
| Grid.FourDirectionsAreUnitSteps | src/position.rs:18-25 | the four directions are exactly the four distinct unit steps, and each one's opposite is also among them |
| Grid.Add | src/position.rs:32-40 | cell addition; `Grid.AddSubCancel` states that `Grid.Sub` undoes it and that zero is its identity |
| Grid.Sub | src/position.rs:42-50 | cell subtraction; `Grid.AddSubCancel` states that `Grid.Add` undoes it |
| Grid.Zero | src/position.rs:27-29 | the zero cell offset; `Grid.AddSubCancel` states that adding it leaves a cell unchanged |
| Grid.AddSubCancel | src/position.rs:32-50 | subtracting a vector undoes adding it, and adding undoes subtracting |
| Grid.AdjacentSymmetric | src/position.rs:32-50 | adjacency of cells is symmetric |
| Grid.AddDirection | src/position.rs:52-62 | adding a direction moves a cell by the direction's grid offset, at most one cell per axis |
| Grid.RoundHalfAway | src/position.rs:72-74 | the rounded integer is within one half of the value, and ties go away from zero |
| Grid.SaturateI32 | src/position.rs:72-74 | the cast clamps to the i32 range and keeps values already in range |
| Grid.NearestCell | src/position.rs:72-74 | each coordinate is the position's coordinate rounded half away from zero when that fits an i32, and then within one half of it; a coordinate rounding below or above the i32 range saturates to `i32::MIN` or `i32::MAX` |
| Grid.CellCentre | src/position.rs:89-100 | the position at a cell's centre; `Grid.NearestCellOfCentre` states that rounding it gives the cell back |
| Grid.ZeroVelocity | src/position.rs:191-193 | the zero velocity; `Movement.Slide` and `Movement.SlideTakesFirstWalkable` state that it is the result when no slide is walkable |
| Grid.Diff | src/position.rs:108-122 | the difference of two positions; `PathFollow.SteeringVectorNonZero` states that it is non-zero when an entity is not yet close to its target, and `Player.WithinReach` compares its length with 1.5 |
| Grid.Translate | src/position.rs:196-222 | a position moved by a velocity; `Movement.ApplyVelocity` and `Movement.ResolvedMoveStaysWalkable` state how the tick uses it |
| Grid.NearestCellOfCentre | src/position.rs:89-100 | the nearest cell of a cell's centre position is that cell |
| Grid.Direction.constructor | src/position.rs:160-164 | a new direction faces nowhere (offset zero) |
| Grid.Direction.Left | src/position.rs:133-135 | sets x to -1 and leaves y unchanged |
| Grid.Direction.Right | src/position.rs:136-138 | sets x to 1 and leaves y unchanged |
| Grid.Direction.Up | src/position.rs:139-141 | sets y to 1 and leaves x unchanged |
| Grid.Direction.Down | src/position.rs:142-144 | sets y to -1 and leaves x unchanged |
| Grid.Direction.ToGridPos | src/position.rs:146-148 | a direction's offset has components in {-1,0,1}: it is zero, a unit step or a diagonal step |
| Grid.NormalizedVelocity | src/position.rs:150-157 | a zero direction gives a zero velocity |
| Movement.Slide | src/position.rs:196-216 | the resolved velocity keeps or zeroes each component; it leads to a walkable position or is zero; a walkable full move is kept |
| Movement.SlideTakesFirstWalkable | src/position.rs:196-216 | the resolved velocity is the first of full move, x-zeroed, y-zeroed whose target is walkable, else zero |
| Movement.ResolvedMoveStaysWalkable | src/position.rs:196-216 | an entity on a walkable cell is still on a walkable cell after its resolved move |
| Movement.CheckVelocityCollisions | src/position.rs:196-216 | every velocity is replaced by its resolved slide, and nothing else changes |
| Movement.ResolveVelocity | src/position.rs:197-215 | one entity's resolved velocity is its wall slide: the first walkable of full, x-zeroed and y-zeroed moves, else zero |
| Movement.ApplyVelocity | src/position.rs:218-222 | every position is moved by its velocity |
| Movement.MovementTick | src/position.rs:196-222 | collision check then velocity step: an entity starting on a walkable cell ends on one |
| WalkMap.CandidatesAreAdjacent | src/map.rs:33-39 | a cell is a candidate exactly when it is adjacent, and the candidates are distinct |
| WalkMap.Lookup | src/map.rs:28-31 | a cell absent from the table is not walkable; a present cell has its stored flag |
| WalkMap.Applied | src/map.rs:49-56 | the table after applying tagged cells in order; `WalkMap.AppliedLastWriteWins`, `WalkMap.AppliedUntouched` and `WalkMap.AppliedFrame` state its effect |
| WalkMap.AppliedLastWriteWins | src/map.rs:49-56 | after the updates, a cell holds the flag of the last update that names it |
| WalkMap.AppliedUntouched | src/map.rs:49-56 | a cell that no update names keeps its presence and flag |
| WalkMap.AppliedFrame | src/map.rs:49-56 | the updated table's cells are the old cells plus the updated ones |
| WalkMap.OverwriteTrueThenFalse | src/map.rs:49-56 | a later non-walkable tag overrides an earlier walkable one for the same cell |
| WalkMap.Map.constructor | src/map.rs:18-22 | a new map has no cells, so no cell is walkable |
| WalkMap.Map.IsWalkableCell | src/map.rs:28-31 | a cell is walkable only if it is in the table with flag true |
| WalkMap.Map.Walkables | src/map.rs:33-39 | the kept cells are exactly the walkable ones of the input, and there are no more of them than the input |
| WalkMap.Map.WalkableNeighbours | src/map.rs:33-39 | the neighbours are exactly the adjacent walkable cells, at most four |
| WalkMap.Map.UpdateMapWithWalkables | src/map.rs:42-57 | with well-tagged cells, the table becomes the old table with every update applied in order; otherwise it stops at the first cell tagged both or neither and reports its index, with the earlier updates applied |
| WalkMap.NeighboursInOrder | src/map.rs:33-39 | the neighbours come in direction order, without repeats |
| WalkMap.NeighbourSymmetry | src/map.rs:33-39 | two adjacent walkable cells are each other's walkable neighbours |
| WalkMap.Map.IsWalkablePos | src/map.rs:24-26 | a position is walkable when its nearest cell is; `WalkMap.WalkableAtCentre` states that a cell's centre is walkable exactly when the cell is |
| WalkMap.WalkableAtCentre | src/map.rs:24-26 | a cell's centre position is walkable exactly when the cell is |
| PathFollow.Path.constructor | src/path.rs:11-16 | a new path holds the given cells with the cursor at the first one; it is usable exactly when non-empty |
| PathFollow.Path.Target | src/path.rs:18-20 | the target is one of the path's cells |
| PathFollow.Path.Next | src/path.rs:22-30 | the cursor advances and yields the new target; at the last cell it yields nothing and stays put |
| PathFollow.NextAfterEnd | src/path.rs:22-30 | once a path yields nothing, it keeps yielding nothing and its cursor no longer moves |
| PathFollow.CloseEnough | src/path.rs:33-49 | an entity is close enough when its squared distance to the target's centre is below 0.1; `PathFollow.SteeringVectorNonZero` states that otherwise the vector to the target is non-zero |
| PathFollow.SteeringVectorNonZero | src/path.rs:33-49 | an entity that is not yet close enough to its target has a non-zero vector towards it |
| PathFollow.MoveAlongPath | src/path.rs:33-49 | an entity close to its target advances its path and keeps its velocity; any other entity keeps its cursor and steers towards the target at its speed |
| Player.KeyOffset | src/player.rs:42-57 | the grid offset the held keys ask for; `Player.KeyOffsetZeroIff` states when it is zero and that each component is in {-1,0,1} |
| Player.KeyOffsetZeroIff | src/player.rs:42-57 | the keys ask for no movement exactly when no movement key is held; each offset component is in {-1,0,1} |
| Player.DirectionFromKeys | src/player.rs:42-57 | the new direction's offset is the keys' offset: D over A, S over W |
| Player.PlayerKeyboardMovement | src/player.rs:37-61 | the facing becomes the new direction unless no key is held, and the velocity follows the new direction at the entity's speed |
| Player.KeyboardMoveOne | src/player.rs:42-59 | one entity's facing becomes the keys' direction unless no key is held, and its velocity follows that direction at its speed |
| Player.PlayerKeyboardAction | src/player.rs:63-73 | Space just pressed gives every keyboard-controlled entity a pending action; otherwise every action is unchanged |
| Player.FootprintHit | src/player.rs:86-98 | reports a hit exactly when a cell of the door's footprint is the cell in front of the warden |
| Player.DoorCommandsSpec | src/player.rs:86-110 | the door commands are toggles of exactly the hit doors, each to the opposite of its state; there are none exactly when no door is hit |
| Player.DoorCommandsInOrder | src/player.rs:86-110 | the toggles name strictly increasing door indices: each hit door once, in door order |
| Player.WardenTogglesHitDoors | src/player.rs:86-110 | whatever its action, a warden toggles exactly the doors whose footprint covers the cell in front of it, each to the opposite state; its action ends done exactly when a door was hit or it was already done |
| Player.DoorHitSkipsOtherChecks | src/player.rs:100-114 | after a door hit, or with the action already done, the warden issues door toggles only |
| Player.RespawnCommandsSpec | src/player.rs:116-130 | exactly the escaping prisoners within 1.5 cells are respawned, each at the centre of its spawn cell |
| Player.RespawnCommandsInOrder | src/player.rs:116-130 | the respawns name strictly increasing prisoner indices: each prisoner once, in query order |
| Player.WardenRespawnsNearbyPrisoners | src/player.rs:116-130 | a prisoner is respawned exactly when no door was hit, the action was pending and the prisoner is within 1.5 cells |
| Player.RepairCommandsSpec | src/player.rs:132-148 | exactly the broken or damaged wires within 1.5 cells are repaired |
| Player.RepairCommandsInOrder | src/player.rs:132-148 | the repairs name strictly increasing wire indices: each wire once, in query order |
| Player.WardenRepairsNearbyWires | src/player.rs:132-148 | a wire is repaired exactly when no door was hit, the action was pending and the wire is broken or damaged and within 1.5 cells |
| Player.WardenAction | src/player.rs:75-150 | one warden's turn yields the action and commands of the turn rules, taken at the cell in front of it (nearest cell plus facing) |
| Player.WardenTurn | src/player.rs:85-149 | warden `i`'s action is updated in place to its turn's action, its commands are returned, and no other action changes |
| Player.Forward | src/player.rs:86 | the cell in front of a warden; `Player.ForwardsAt` and `Player.WardenAction` state that each warden's turn uses it |
| Player.WithinReach | src/position.rs:76-78 | two positions are within 1.5 cells when their squared distance is at most 1.5 squared; `Player.RespawnCommandsSpec` and `Player.RepairCommandsSpec` state its use |
| Player.ForwardsAt | src/player.rs:86 | the cell in front of each warden is its nearest cell moved by its facing |
| Player.WardenActions | src/player.rs:75-150 | every warden takes its turn against the doors as they were at the start of the tick; each action becomes its turn's action, and the commands are the turns' commands in warden order |
| FixedCodec.FromU64 | slowchop/src/position.rs:21-25 | an integer converts exactly when it is below 2^43, the I44F20 integer-part limit, and its value is kept |
| FixedCodec.AddFixed | slowchop/src/position.rs:133-140 | fixed-point addition is exact, or fails on overflow |
| FixedCodec.OnePlusHalf | slowchop/src/position.rs:133-140 | 1 plus 0.5 is the fixed-point 1.5 |
| FixedCodec.NewU64 | slowchop/src/position.rs:78-84 | a position from three integers holds those integer values, or fails when one does not fit |
| FixedCodec.FloorInt | slowchop/src/position.rs:111-117 | the floor is the greatest integer not above the value |
| FixedCodec.ToCellFloor | slowchop/src/position.rs:111-117 | each cell coordinate is the floor of the position's coordinate |
| FixedCodec.FloorExample | slowchop/src/position.rs:142-146 | the nearest fixed-point values to 1.9, 2.2 and 3.3 floor to the cell (1, 2, 3) |
| FixedCodec.RoundInt | slowchop/src/position.rs:119-125 | rounding lands within one half of the value, with ties away from zero |
| FixedCodec.ToCellRound | slowchop/src/position.rs:119-125 | the cell is the three coordinates each rounded half away from zero (`RoundInt`), each within one half of its coordinate; rounding fails exactly when a coordinate rounds past the fixed-point range |
| FixedCodec.FromLeOfLeBytes | slowchop/src/position.rs:33-53 | reading back n little-endian bytes gives the number written |
| FixedCodec.LeBytesOfFromLe | slowchop/src/position.rs:33-53 | writing back the number read from bytes gives those bytes |
| FixedCodec.BitsRoundTrip | slowchop/src/position.rs:33-53 | the two's-complement bit pattern of a 64-bit integer converts back to that integer |
| FixedCodec.I64LeRoundTrip | slowchop/src/position.rs:33-53 | a 64-bit integer encoded as 8 little-endian bytes decodes to itself |
| FixedCodec.EncodeFixed | slowchop/src/position.rs:33-37 | the 8-byte encoding of a fixed-point value; `FixedCodec.EncodeFixedLayout` states its layout and `FixedCodec.DecodeFixedRoundTrip` its inverse |
| FixedCodec.EncodePosition | slowchop/src/position.rs:55-61 | x, y and z encoded in field order; `FixedCodec.PositionRoundTrip` and `FixedCodec.PositionDecodeInverse` state that decoding inverts it |
| FixedCodec.EncodeCell | slowchop/src/position.rs:63-69 | x, y and z encoded in field order; `FixedCodec.CellRoundTrip` and `FixedCodec.CellDecodeInverse` state that decoding inverts it |
| FixedCodec.DecodeFixed | slowchop/src/position.rs:40-53 | reads one fixed-point value; `FixedCodec.DecodeFixedConsumes` states when it fails and what it consumes |
| FixedCodec.DecodeI64 | slowchop/src/position.rs:63-69 | reads one cell coordinate; `FixedCodec.DecodeI64Consumes` states when it fails and what it consumes |
| FixedCodec.DecodePosition | slowchop/src/position.rs:55-61 | reads x, y and z in field order; `FixedCodec.PositionDecodeInverse` states that it inverts `FixedCodec.EncodePosition` |
| FixedCodec.DecodeCell | slowchop/src/position.rs:63-69 | reads x, y and z in field order; `FixedCodec.CellDecodeInverse` states that it inverts `FixedCodec.EncodeCell` |
| FixedCodec.PositionFromSlice | slowchop/src/position.rs:148-158 | decodes a whole slice, rejecting trailing bytes; `FixedCodec.FromSliceRoundTrip` states that it inverts the encoding |
| FixedCodec.CellFromSlice | slowchop/src/position.rs:160-166 | decodes a whole slice, rejecting trailing bytes; `FixedCodec.FromSliceRoundTrip` states that it inverts the encoding |
| FixedCodec.Writer.WriteAll | slowchop/src/position.rs:33-37 | the written bytes are appended to what the writer already holds |
| FixedCodec.EncodeFixedLayout | slowchop/src/position.rs:33-37 | a fixed-point value encodes as 8 bytes holding its raw bits, little-endian |
| FixedCodec.DecodeFixedRoundTrip | slowchop/src/position.rs:40-53 | decoding an encoded value followed by more bytes gives the value and those bytes |
| FixedCodec.DecodeFixedConsumes | slowchop/src/position.rs:40-53 | decoding fails exactly on fewer than 8 bytes, and otherwise consumes exactly 8 |
| FixedCodec.DecodeI64RoundTrip | slowchop/src/position.rs:63-69 | a cell coordinate encoded and followed by more bytes decodes to itself and those bytes |
| FixedCodec.PositionRoundTrip | slowchop/src/position.rs:55-61 | a position encodes as 24 bytes that decode to the same position with the rest untouched |
| FixedCodec.CellRoundTrip | slowchop/src/position.rs:63-69 | a cell encodes as 24 bytes that decode to the same cell with the rest untouched |
| FixedCodec.PositionDecodeInverse | slowchop/src/position.rs:55-61 | a buffer that decodes to a position is that position's encoding followed by the unread rest |
| FixedCodec.DecodeI64Consumes | slowchop/src/position.rs:63-69 | decoding a cell coordinate fails exactly on fewer than 8 bytes, and otherwise consumes exactly 8 that re-encode to themselves |
| FixedCodec.CellDecodeInverse | slowchop/src/position.rs:63-69 | a buffer that decodes to a cell is that cell's encoding followed by the unread rest |
| FixedCodec.FromSliceRoundTrip | slowchop/src/position.rs:148-166 | a position or a cell built from its own encoding is that same value |
| FixedCodec.SerializeFixed | slowchop/src/position.rs:33-37 | the writer receives the value's 8-byte encoding after what it already held |
| FixedCodec.SerializeI64 | slowchop/src/position.rs:63-69 | the writer receives the coordinate's 8-byte encoding after what it already held |
| FixedCodec.SerializePosition | slowchop/src/position.rs:55-61 | the writer receives x, y and z encoded, in field order |
| FixedCodec.SerializeCell | slowchop/src/position.rs:63-69 | the writer receives x, y and z encoded, in field order |
| FixedCodec.DeserializeFixed | slowchop/src/position.rs:40-53 | the result is the decoded value and the buffer advances past it; a short buffer gives an invalid-input error |
| FixedCodec.DeserializeI64 | slowchop/src/position.rs:63-69 | the result is the decoded coordinate and the buffer advances past it; a short buffer gives an error |
| FixedCodec.DeserializePosition | slowchop/src/position.rs:55-61 | the result is the decoded position, and the buffer advances by 8 bytes per component read |
| FixedCodec.DeserializeCell | slowchop/src/position.rs:63-69 | the result is the decoded cell, and the buffer advances by 8 bytes per component read |
| FixedCodec.PositionToVec | slowchop/src/position.rs:148-158 | the byte vector is the position's 24-byte encoding |
| FixedCodec.PositionFromBytes | slowchop/src/position.rs:148-158 | the result is the Borsh decoding of the slice, rejecting trailing bytes, and a decoded position re-encodes to exactly that slice |
| FixedCodec.CellToVec | slowchop/src/position.rs:160-166 | the byte vector is the cell's 24-byte encoding |
| FixedCodec.CellFromBytes | slowchop/src/position.rs:160-166 | the result is the Borsh decoding of the slice, rejecting trailing bytes, and a decoded cell re-encodes to exactly that slice |

## Left out

- Floating-point rounding: `f64` and `f32` arithmetic is modelled on exact reals. Results that depend on rounding error near a cell boundary or the 0.1 threshold are not captured.
- Grid.NormalizedVelocity: the normalisation needs a square root, so it is a parameter. Only the zero-direction case is stated. A non-zero direction gives the parameter's result scaled by the speed.
- Grid.Add: `i32` overflow in grid-cell addition and subtraction is not modelled. Cells are unbounded integers, and the model assumes that every cell, including a warden's forward cell, stays inside the `i32` range. Nothing in the source enforces this: a position far enough out saturates in `nearest_cell`, and adding the facing can then overflow.
- FixedCodec.AddFixed: models debug-build overflow as a failure. Release builds wrap, and that is not modelled.
- FixedCodec.FromU64: models an integer of 2^43 or more as a failure, as `from_num` panics on it in debug builds. Release builds wrap, and that is not modelled.
- FixedCodec.NewU64: fails when one coordinate does not fit, following `FixedCodec.FromU64`. Release builds wrap, and that is not modelled.
- FixedCodec.ToCellRound: models overflow while rounding as a failure. Release builds wrap, and that is not modelled.
- `Fixed64::from(f32)`, `Position::new_f32`, `to_vector3` and `to_vector3_relative_todo` need `f32` conversion and are not modelled.
- `Cell::new` and `Position::new` are plain constructors of the datatypes.
- Borsh's own `i64` encoding and `try_from_slice` follow the Borsh format: little-endian, with trailing bytes rejected. The Borsh library itself is not part of this model, and the exact `io::Error` kinds of a short `i64` read are taken as one `InvalidInput` error.
- Pathfinding: the code that builds `Path` values lies outside the modelled source and is not part of this model. So is the removal of a finished path, which the source leaves as a TODO.
- `chase_camera`, `sync_sprite_positions` and `Position::to_transform` only move sprites and the camera, and are left out.
- `clear_actions` removes the `Action` component from every entity that has one. It is left out; `Player.PlayerKeyboardAction` takes the actions as they are when it runs.
- `ItemInfo::shape` (from `src/map.rs`) and `game::change_door_state` are not part of this model. A door's footprint is given as data, and door, prisoner and wire changes are emitted as `Player.Command`s rather than carried out.
- `SpawnPoint` is imported from `crate::game` (`src/player.rs:2`); its definition is not part of this model. The model takes its field to be a grid cell (`Player.Prisoner.spawn` is a `GridPosition`), and a respawned prisoner goes to that cell's centre, as the `into()` conversion at `src/player.rs:123` suggests.
- `Speed::bad_guy` draws a random speed and is left out. Speeds are parameters.
- Bevy's system scheduling, entity queries, `Changed`/`Added` filters and resources are not modelled. Every system runs over the components it is given, in query order.
- The editor, wires, menus, splash screens and game setup are outside the modelled core.
