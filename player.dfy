/**
 * Player input and warden actions (src/player.rs): building a direction from
 * the movement keys, requesting an action, and what a warden's action does to
 * doors, escaping prisoners and damaged wires.
 */
module Player {
  import opened Grid
  import opened Wrappers

  /** The keyboard state one tick sees: the four movement keys held, and Space just pressed. */
  datatype Keys = Keys(a: bool, d: bool, w: bool, s: bool, spaceJustPressed: bool)

  /**
   * The offset the movement keys ask for. The setters run in the order
   * A, D, W, S, so D wins over A on x and S wins over W on y.
   */
  function KeyOffset(k: Keys): GridPosition {
    GridPosition(if k.d then 1 else if k.a then -1 else 0,
                 if k.s then -1 else if k.w then 1 else 0)
  }

  /** The keys ask for no movement exactly when no movement key is held. */
  lemma KeyOffsetZeroIff(k: Keys)
    ensures KeyOffset(k) == Zero() <==> !k.a && !k.d && !k.w && !k.s
    ensures IsAxis(KeyOffset(k).x) && IsAxis(KeyOffset(k).y)
  {
  }

  /** `new_dir` of `player_keyboard_movement`: a default direction changed by one setter call per held key. */
  method DirectionFromKeys(k: Keys) returns (nd: Direction)
    ensures fresh(nd) && nd.Valid()
    ensures nd.ToGridPos() == KeyOffset(k)
  {
    nd := new Direction();
    if k.a {
      nd.Left();
    }
    if k.d {
      nd.Right();
    }
    if k.w {
      nd.Up();
    }
    if k.s {
      nd.Down();
    }
  }

  /**
   * `player_keyboard_movement`, over the keyboard-controlled entities: the
   * stored facing becomes the new direction unless no movement key is held,
   * and the velocity is overwritten from the new direction every tick.
   */
  method PlayerKeyboardMovement(k: Keys, facings: seq<Direction>, speeds: seq<real>, vels: array<Velocity>,
                                normalize: Velocity -> Velocity)
    requires |facings| == |speeds| == vels.Length
    requires forall i :: 0 <= i < |facings| ==> facings[i].Valid()
    requires forall i, j :: 0 <= i < j < |facings| ==> facings[i] != facings[j]
    modifies vels, set i | 0 <= i < |facings| :: facings[i]
    ensures forall i :: 0 <= i < |facings| ==> facings[i].Valid()
    ensures forall i :: 0 <= i < |facings| ==>
              facings[i].ToGridPos() == if KeyOffset(k) == Zero() then old(facings[i].ToGridPos()) else KeyOffset(k)
    ensures forall i :: 0 <= i < vels.Length ==> vels[i] == NormalizedVelocity(KeyOffset(k), speeds[i], normalize)
  {
    var i := 0;
    while i < |facings|
      invariant 0 <= i <= |facings|
      invariant forall j :: 0 <= j < |facings| ==> facings[j].Valid()
      invariant forall j :: 0 <= j < i ==>
                  facings[j].ToGridPos() == if KeyOffset(k) == Zero() then old(facings[j].ToGridPos()) else KeyOffset(k)
      invariant forall j :: i <= j < |facings| ==> facings[j].ToGridPos() == old(facings[j].ToGridPos())
      invariant forall j :: 0 <= j < i ==> vels[j] == NormalizedVelocity(KeyOffset(k), speeds[j], normalize)
    {
      vels[i] := KeyboardMoveOne(k, facings[i], speeds[i], normalize);
      i := i + 1;
    }
  }

  /** A warden's pending or completed action. */
  datatype Action = Pending | Done

  /**
   * The body of `player_keyboard_movement` for one entity: build the new
   * direction from the keys, store it as the facing unless it is the
   * default, and return the velocity it gives at this speed.
   */
  method KeyboardMoveOne(k: Keys, dir: Direction, speed: real, normalize: Velocity -> Velocity) returns (vel: Velocity)
    requires dir.Valid()
    modifies dir
    ensures dir.Valid()
    ensures dir.ToGridPos() == if KeyOffset(k) == Zero() then old(dir.ToGridPos()) else KeyOffset(k)
    ensures vel == NormalizedVelocity(KeyOffset(k), speed, normalize)
  {
    var newDir := DirectionFromKeys(k);
    if newDir.x != 0 || newDir.y != 0 {
      dir.x, dir.y := newDir.x, newDir.y;
    }
    vel := NormalizedVelocity(newDir.ToGridPos(), speed, normalize);
  }

  /**
   * `player_keyboard_action`: every keyboard-controlled entity gets a pending
   * action when Space was just pressed; otherwise nothing changes.
   */
  method PlayerKeyboardAction(k: Keys, actions: array<Option<Action>>)
    modifies actions
    ensures forall i :: 0 <= i < actions.Length ==>
              actions[i] == if k.spaceJustPressed then Some(Pending) else old(actions[i])
  {
    var i := 0;
    while i < actions.Length
      invariant 0 <= i <= actions.Length
      invariant forall j :: 0 <= j < i ==> actions[j] == if k.spaceJustPressed then Some(Pending) else old(actions[j])
      invariant forall j :: i <= j < actions.Length ==> actions[j] == old(actions[j])
    {
      if k.spaceJustPressed {
        actions[i] := Some(Pending);
      }
      i := i + 1;
    }
  }

  /** A door: its anchor cell, whether it is open, and its footprint as offsets from the anchor. */
  datatype Door = Door(anchor: GridPosition, open: bool, shape: seq<GridPosition>)

  /** An escaping prisoner: where it is and the cell it respawns at. */
  datatype Prisoner = Prisoner(pos: Position, spawn: GridPosition)

  /** A wire: its cell and whether it is broken or damaged. */
  datatype Wire = Wire(cell: GridPosition, broken: bool, damaged: bool)

  /**
   * The deferred entity commands a warden's action issues: set a door's
   * state (`change_door_state`), respawn a prisoner at a position with zero
   * velocity and no escape or path, repair a wire. Doors, prisoners and
   * wires are named by their index.
   */
  datatype Command = ChangeDoorState(door: nat, open: bool) | Respawn(prisoner: nat, at: Position) | RepairWire(wire: nat)

  /** The door, prisoner or wire a command is about, by its index. */
  function Subject(c: Command): nat {
    match c
    case ChangeDoorState(door, _) => door
    case Respawn(prisoner, _) => prisoner
    case RepairWire(wire) => wire
  }

  /** Commands about strictly increasing indices: each subject at most once, in the order of its list. */
  predicate InSubjectOrder(cmds: seq<Command>) {
    forall a, b :: 0 <= a < b < |cmds| ==> Subject(cmds[a]) < Subject(cmds[b])
  }

  /** The cell in front of the warden covers a cell of the door's footprint. */
  ghost predicate DoorHit(forward: GridPosition, door: Door) {
    exists k :: 0 <= k < |door.shape| && forward == Add(door.anchor, door.shape[k])
  }

  ghost predicate AnyDoorHit(forward: GridPosition, doors: seq<Door>) {
    exists i :: 0 <= i < |doors| && DoorHit(forward, doors[i])
  }

  /** Not further than 1.5 cells apart (`distance_to` is not above 1.5), compared on squares. */
  predicate WithinReach(a: Position, b: Position) {
    MagnitudeSquared(Diff(a, b)) <= 1.5 * 1.5
  }

  /** The door toggles issued for the first `n` doors. */
  ghost function DoorCommands(forward: GridPosition, doors: seq<Door>, n: nat): seq<Command>
    requires n <= |doors|
  {
    if n == 0 then []
    else DoorCommands(forward, doors, n - 1) +
         (if DoorHit(forward, doors[n - 1]) then [ChangeDoorState(n - 1, !doors[n - 1].open)] else [])
  }

  /** The respawns issued for the first `n` prisoners. */
  function RespawnCommands(pos: Position, prisoners: seq<Prisoner>, n: nat): seq<Command>
    requires n <= |prisoners|
  {
    if n == 0 then []
    else RespawnCommands(pos, prisoners, n - 1) +
         (if WithinReach(pos, prisoners[n - 1].pos) then [Respawn(n - 1, CellCentre(prisoners[n - 1].spawn))] else [])
  }

  /** The repairs issued for the first `n` wires. */
  function RepairCommands(pos: Position, wires: seq<Wire>, n: nat): seq<Command>
    requires n <= |wires|
  {
    if n == 0 then []
    else RepairCommands(pos, wires, n - 1) +
         (if (wires[n - 1].broken || wires[n - 1].damaged) && WithinReach(pos, CellCentre(wires[n - 1].cell))
          then [RepairWire(n - 1)] else [])
  }

  /** The outcome of one warden's turn in `warden_actions`: its new action and the commands it issues. */
  datatype Outcome = Outcome(action: Action, commands: seq<Command>)

  /** The cell in front of a warden: its nearest cell moved by its facing (`forward_pos`). */
  function Forward(pos: Position, facing: GridPosition): GridPosition {
    Add(NearestCell(pos), facing)
  }

  /** A warden's action after its turn, given the cell in front of it: done once a door is hit, else unchanged. */
  ghost function TurnAction(forward: GridPosition, action: Action, doors: seq<Door>): Action {
    if AnyDoorHit(forward, doors) then Done else action
  }

  /** One warden's turn, given its position and the cell in front of it. */
  ghost function WardenOutcome(pos: Position, forward: GridPosition, action: Action,
                               doors: seq<Door>, prisoners: seq<Prisoner>, wires: seq<Wire>): Outcome
  {
    var doorCmds := DoorCommands(forward, doors, |doors|);
    if AnyDoorHit(forward, doors) || action == Done then Outcome(Done, doorCmds)
    else Outcome(action, doorCmds + RespawnCommands(pos, prisoners, |prisoners|) + RepairCommands(pos, wires, |wires|))
  }

  /** The door commands toggle exactly the hit doors among the first `n`, each to the opposite of its state. */
  lemma {:induction false} DoorCommandsSpec(forward: GridPosition, doors: seq<Door>, n: nat)
    requires n <= |doors|
    ensures forall c :: c in DoorCommands(forward, doors, n) ==> c.ChangeDoorState?
    ensures forall i: nat, o :: ChangeDoorState(i, o) in DoorCommands(forward, doors, n) <==>
              i < n && DoorHit(forward, doors[i]) && o == !doors[i].open
    ensures DoorCommands(forward, doors, n) == [] <==> !exists i :: 0 <= i < n && DoorHit(forward, doors[i])
  {
    if n > 0 {
      DoorCommandsSpec(forward, doors, n - 1);
    }
  }

  /** The door toggles come in door order, each door at most once. */
  lemma {:induction false} DoorCommandsInOrder(forward: GridPosition, doors: seq<Door>, n: nat)
    requires n <= |doors|
    ensures InSubjectOrder(DoorCommands(forward, doors, n))
  {
    if n > 0 {
      DoorCommandsSpec(forward, doors, n - 1);
      DoorCommandsInOrder(forward, doors, n - 1);
      var prev, cmds := DoorCommands(forward, doors, n - 1), DoorCommands(forward, doors, n);
      forall a, b | 0 <= a < b < |cmds| ensures Subject(cmds[a]) < Subject(cmds[b]) {
        assert cmds[a] == prev[a];
        if b == |prev| {
          assert prev[a] == ChangeDoorState(prev[a].door, prev[a].open) && prev[a] in prev;
        } else {
          assert cmds[b] == prev[b];
        }
      }
    }
  }

  /** The respawn commands name exactly the prisoners within reach, sending each to its spawn cell. */
  lemma {:induction false} RespawnCommandsSpec(pos: Position, prisoners: seq<Prisoner>, n: nat)
    requires n <= |prisoners|
    ensures forall c :: c in RespawnCommands(pos, prisoners, n) ==> c.Respawn?
    ensures forall j: nat, at :: Respawn(j, at) in RespawnCommands(pos, prisoners, n) <==>
              j < n && WithinReach(pos, prisoners[j].pos) && at == CellCentre(prisoners[j].spawn)
  {
    if n > 0 {
      RespawnCommandsSpec(pos, prisoners, n - 1);
    }
  }

  /** The respawns come in prisoner order, each prisoner at most once. */
  lemma {:induction false} RespawnCommandsInOrder(pos: Position, prisoners: seq<Prisoner>, n: nat)
    requires n <= |prisoners|
    ensures InSubjectOrder(RespawnCommands(pos, prisoners, n))
  {
    if n > 0 {
      RespawnCommandsSpec(pos, prisoners, n - 1);
      RespawnCommandsInOrder(pos, prisoners, n - 1);
      var prev, cmds := RespawnCommands(pos, prisoners, n - 1), RespawnCommands(pos, prisoners, n);
      forall a, b | 0 <= a < b < |cmds| ensures Subject(cmds[a]) < Subject(cmds[b]) {
        assert cmds[a] == prev[a];
        if b == |prev| {
          assert prev[a] == Respawn(prev[a].prisoner, prev[a].at) && prev[a] in prev;
        } else {
          assert cmds[b] == prev[b];
        }
      }
    }
  }

  /** The repair commands name exactly the broken or damaged wires within reach. */
  lemma {:induction false} RepairCommandsSpec(pos: Position, wires: seq<Wire>, n: nat)
    requires n <= |wires|
    ensures forall c :: c in RepairCommands(pos, wires, n) ==> c.RepairWire?
    ensures forall j: nat :: RepairWire(j) in RepairCommands(pos, wires, n) <==>
              j < n && (wires[j].broken || wires[j].damaged) && WithinReach(pos, CellCentre(wires[j].cell))
  {
    if n > 0 {
      RepairCommandsSpec(pos, wires, n - 1);
    }
  }

  /** The repairs come in wire order, each wire at most once. */
  lemma {:induction false} RepairCommandsInOrder(pos: Position, wires: seq<Wire>, n: nat)
    requires n <= |wires|
    ensures InSubjectOrder(RepairCommands(pos, wires, n))
  {
    if n > 0 {
      RepairCommandsSpec(pos, wires, n - 1);
      RepairCommandsInOrder(pos, wires, n - 1);
      var prev, cmds := RepairCommands(pos, wires, n - 1), RepairCommands(pos, wires, n);
      forall a, b | 0 <= a < b < |cmds| ensures Subject(cmds[a]) < Subject(cmds[b]) {
        assert cmds[a] == prev[a];
        if b == |prev| {
          assert prev[a] == RepairWire(prev[a].wire) && prev[a] in prev;
        } else {
          assert cmds[b] == prev[b];
        }
      }
    }
  }

  /**
   * A warden toggles a door exactly when the cell in front of it lies in the
   * door's footprint, and sets it to the opposite of its state; its action is
   * done exactly when some door was hit or it was done already.
   */
  lemma WardenTogglesHitDoors(pos: Position, forward: GridPosition, action: Action,
                              doors: seq<Door>, prisoners: seq<Prisoner>, wires: seq<Wire>, i: nat, o: bool)
    ensures var r := WardenOutcome(pos, forward, action, doors, prisoners, wires);
            ChangeDoorState(i, o) in r.commands <==>
              i < |doors| && DoorHit(forward, doors[i]) && o == !doors[i].open
    ensures WardenOutcome(pos, forward, action, doors, prisoners, wires).action == Done <==>
              AnyDoorHit(forward, doors) || action == Done
  {
    DoorCommandsSpec(forward, doors, |doors|);
    RespawnCommandsSpec(pos, prisoners, |prisoners|);
    RepairCommandsSpec(pos, wires, |wires|);
  }

  /** After a door hit, or with the action already done, the warden issues nothing but door toggles. */
  lemma DoorHitSkipsOtherChecks(pos: Position, forward: GridPosition, action: Action,
                                doors: seq<Door>, prisoners: seq<Prisoner>, wires: seq<Wire>)
    requires AnyDoorHit(forward, doors) || action == Done
    ensures var r := WardenOutcome(pos, forward, action, doors, prisoners, wires);
            r.action == Done && forall c :: c in r.commands ==> c.ChangeDoorState?
  {
    DoorCommandsSpec(forward, doors, |doors|);
  }

  /**
   * A prisoner is respawned exactly when the warden hit no door, its action
   * was pending, and the prisoner is within 1.5 cells; it goes back to the
   * centre of its spawn cell.
   */
  lemma WardenRespawnsNearbyPrisoners(pos: Position, forward: GridPosition, action: Action,
                                      doors: seq<Door>, prisoners: seq<Prisoner>, wires: seq<Wire>,
                                      j: nat, at: Position)
    ensures Respawn(j, at) in WardenOutcome(pos, forward, action, doors, prisoners, wires).commands <==>
              && !AnyDoorHit(forward, doors)
              && action == Pending
              && j < |prisoners| && WithinReach(pos, prisoners[j].pos)
              && at == CellCentre(prisoners[j].spawn)
  {
    DoorCommandsSpec(forward, doors, |doors|);
    RespawnCommandsSpec(pos, prisoners, |prisoners|);
    RepairCommandsSpec(pos, wires, |wires|);
  }

  /** A wire is repaired exactly when no door was hit, the action was pending, and the wire is broken or damaged and within reach. */
  lemma WardenRepairsNearbyWires(pos: Position, forward: GridPosition, action: Action,
                                 doors: seq<Door>, prisoners: seq<Prisoner>, wires: seq<Wire>, j: nat)
    ensures RepairWire(j) in WardenOutcome(pos, forward, action, doors, prisoners, wires).commands <==>
              && !AnyDoorHit(forward, doors)
              && action == Pending
              && j < |wires| && (wires[j].broken || wires[j].damaged)
              && WithinReach(pos, CellCentre(wires[j].cell))
  {
    DoorCommandsSpec(forward, doors, |doors|);
    RespawnCommandsSpec(pos, prisoners, |prisoners|);
    RepairCommandsSpec(pos, wires, |wires|);
  }

  /** The footprint test of `warden_actions`: search the door's offsets, stopping at the first match. */
  method FootprintHit(forward: GridPosition, door: Door) returns (colliding: bool)
    ensures colliding <==> DoorHit(forward, door)
  {
    colliding := false;
    var k := 0;
    while k < |door.shape|
      invariant 0 <= k <= |door.shape|
      invariant forall j :: 0 <= j < k ==> forward != Add(door.anchor, door.shape[j])
    {
      var deltaPos := Add(door.anchor, door.shape[k]);
      if forward == deltaPos {
        colliding := true;
        break;
      }
      k := k + 1;
    }
  }

  /**
   * One warden's turn of `warden_actions`: toggle every door whose footprint
   * covers the cell in front of the warden and mark the action done; a done
   * action skips the prisoner and wire checks.
   */
  method WardenAction(pos: Position, facing: Direction, action: Action,
                      doors: seq<Door>, prisoners: seq<Prisoner>, wires: seq<Wire>) returns (r: Outcome)
    ensures r == WardenOutcome(pos, Forward(pos, facing.ToGridPos()), action, doors, prisoners, wires)
    ensures r.action == TurnAction(Forward(pos, facing.ToGridPos()), action, doors)
  {
    var forward := AddDirection(NearestCell(pos), facing);
    var newAction := action;
    var cmds := [];
    var d := 0;
    while d < |doors|
      invariant 0 <= d <= |doors|
      invariant cmds == DoorCommands(forward, doors, d)
      invariant newAction == if exists j :: 0 <= j < d && DoorHit(forward, doors[j]) then Done else action
    {
      var door := doors[d];
      var colliding := FootprintHit(forward, door);
      if colliding {
        newAction := Done;
        cmds := cmds + [ChangeDoorState(d, !door.open)];
      }
      d := d + 1;
    }
    if newAction == Done {
      return Outcome(Done, cmds);
    }
    var p := 0;
    var respawns := [];
    while p < |prisoners|
      invariant 0 <= p <= |prisoners|
      invariant respawns == RespawnCommands(pos, prisoners, p)
    {
      var prisoner := prisoners[p];
      if WithinReach(pos, prisoner.pos) {
        respawns := respawns + [Respawn(p, CellCentre(prisoner.spawn))];
      }
      p := p + 1;
    }
    var w := 0;
    var repairs := [];
    while w < |wires|
      invariant 0 <= w <= |wires|
      invariant repairs == RepairCommands(pos, wires, w)
    {
      var wire := wires[w];
      if (wire.broken || wire.damaged) && WithinReach(pos, CellCentre(wire.cell)) {
        repairs := repairs + [RepairWire(w)];
      }
      w := w + 1;
    }
    r := Outcome(newAction, cmds + respawns + repairs);
  }

  /** Warden `i`'s turn within `warden_actions`: its action is updated in place and its commands returned. */
  method WardenTurn(pos: Position, facing: Direction, actions: array<Action>, i: nat,
                    doors: seq<Door>, prisoners: seq<Prisoner>, wires: seq<Wire>, ghost forward: GridPosition)
      returns (commands: seq<Command>)
    requires i < actions.Length
    requires forward == Forward(pos, facing.ToGridPos())
    modifies actions
    ensures actions[i] == TurnAction(forward, old(actions[i]), doors)
    ensures commands == WardenOutcome(pos, forward, old(actions[i]), doors, prisoners, wires).commands
    ensures forall j :: 0 <= j < actions.Length && j != i ==> actions[j] == old(actions[j])
  {
    var r := WardenAction(pos, facing, actions[i], doors, prisoners, wires);
    actions[i] := r.action;
    commands := r.commands;
  }

  /** The cells in front of the first `n` wardens. */
  ghost function Forwards(wardens: seq<Position>, facings: seq<Direction>, n: nat): (r: seq<GridPosition>)
    requires n <= |wardens| == |facings|
    reads facings
    ensures |r| == n
  {
    if n == 0 then [] else Forwards(wardens, facings, n - 1) + [Forward(wardens[n - 1], facings[n - 1].ToGridPos())]
  }

  /** Entry `i` of `Forwards` is the cell in front of warden `i`. */
  lemma {:induction false} ForwardsAt(wardens: seq<Position>, facings: seq<Direction>, n: nat, i: nat)
    requires i < n <= |wardens| == |facings|
    ensures Forwards(wardens, facings, n)[i] == Forward(wardens[i], facings[i].ToGridPos())
  {
    if i < n - 1 {
      ForwardsAt(wardens, facings, n - 1, i);
    }
  }

  /** The command lists of successive turns, joined in order. */
  function Concat(turns: seq<seq<Command>>): seq<Command> {
    if turns == [] then [] else Concat(turns[..|turns| - 1]) + turns[|turns| - 1]
  }

  /**
   * `warden_actions`: every warden takes its turn in order against the doors
   * as they stand at the start of the tick (the door changes are commands,
   * applied later); each action becomes its turn's action, and the commands
   * are the turns' commands (`turns`) joined in warden order.
   */
  method WardenActions(wardens: seq<Position>, facings: seq<Direction>, actions: array<Action>,
                       doors: seq<Door>, prisoners: seq<Prisoner>, wires: seq<Wire>)
      returns (cmds: seq<Command>, ghost turns: seq<seq<Command>>)
    requires |wardens| == |facings| == actions.Length
    modifies actions
    ensures forall i :: 0 <= i < actions.Length ==>
              actions[i] == TurnAction(Forwards(wardens, facings, |wardens|)[i], old(actions[i]), doors)
    ensures |turns| == |wardens|
    ensures forall j :: 0 <= j < |turns| ==>
              turns[j] == WardenOutcome(wardens[j], Forwards(wardens, facings, |wardens|)[j], old(actions[j]), doors, prisoners, wires).commands
    ensures cmds == Concat(turns)
  {
    ghost var acts := actions[..];
    ghost var forwards := Forwards(wardens, facings, |wardens|);
    cmds := [];
    turns := [];
    var i := 0;
    while i < |wardens|
      invariant 0 <= i <= |wardens|
      invariant forall j :: i <= j < actions.Length ==> actions[j] == acts[j]
      invariant forall j :: 0 <= j < i ==> actions[j] == TurnAction(forwards[j], acts[j], doors)
      invariant |turns| == i
      invariant forall j :: 0 <= j < i ==> turns[j] == WardenOutcome(wardens[j], forwards[j], acts[j], doors, prisoners, wires).commands
      invariant cmds == Concat(turns)
    {
      assert forwards[i] == Forward(wardens[i], facings[i].ToGridPos()) by {
        ForwardsAt(wardens, facings, |wardens|, i);
      }
      var commands := WardenTurn(wardens[i], facings[i], actions, i, doors, prisoners, wires, forwards[i]);
      assert (turns + [commands])[..i] == turns;
      cmds := cmds + commands;
      turns := turns + [commands];
      i := i + 1;
    }
  }
}
