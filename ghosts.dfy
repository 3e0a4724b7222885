/** The ghost: placement, boredom and exit, its three actions, and one pass of its loop. */
module Ghosts {
  import opened Defs
  import opened Evidence
  import opened Records
  import Rooms

  // ---------------------------------------------------------------- creation

  /** The room slot a draw names, as a frame. */
  ghost function Drawn(house: House?, k: int): set<Room>
    reads house, if house == null then {} else {house.rooms}
  {
    if house == null || !(0 <= k < house.rooms.Length) || house.rooms[k] == null then {}
    else {house.rooms[k]}
  }

  /**
   * ghost_init: a ghost of the drawn type, placed in the drawn room of the house; there is no
   * ghost when the house is missing or has no rooms. The house itself is not told about the ghost.
   */
  method Init(house: House?, typeDraw: int, roomDraw: int) returns (spirit: Ghost?)
    requires house != null ==> house.Valid()
    requires house != null && house.roomCount > 0 ==>
               0 <= typeDraw < |AllGhostTypes| && 0 <= roomDraw < house.roomCount && house.rooms[roomDraw] != null
    modifies Drawn(house, roomDraw)`haunting
    ensures house == null || house.roomCount == 0 ==> spirit == null
    ensures house != null && house.roomCount > 0 ==>
              spirit != null && fresh(spirit)
              && spirit.id == DEFAULT_GHOST_ID && spirit.kind == AllGhostTypes[typeDraw]
              && spirit.currentRoom == house.rooms[roomDraw] && house.rooms[roomDraw].haunting == spirit
              && spirit.boredom == 0 && spirit.isRunning
  {
    if house == null || house.roomCount == 0 {
      return null;
    }
    var room := house.rooms[roomDraw];
    spirit := new Ghost(AllGhostTypes[typeDraw], room);
    Rooms.SetGhost(room, spirit);
  }

  // ---------------------------------------------------------------- boredom and exit

  /** One boredom update: a room with a hunter in it resets boredom, an empty one adds one. */
  function Felt(boredom: int, visited: bool): int
  {
    if visited then 0 else boredom + 1
  }

  /** The boredom after a run of updates; `visited[k]` says whether a hunter shared the room on the k-th. */
  function Drift(boredom: int, visited: seq<bool>): int
  {
    if visited == [] then boredom else Felt(Drift(boredom, visited[..|visited| - 1]), visited[|visited| - 1])
  }

  /** The number of updates since a hunter was last in the ghost's room. */
  function Solitude(visited: seq<bool>): nat
  {
    if visited == [] || visited[|visited| - 1] then 0 else Solitude(visited[..|visited| - 1]) + 1
  }

  /**
   * Boredom counts the updates since a hunter last shared the room, on top of the starting value
   * when no hunter ever did.
   */
  lemma {:induction false} DriftIsSolitude(boredom: int, visited: seq<bool>)
    ensures Drift(boredom, visited) == Solitude(visited) + if true in visited then 0 else boredom
  {
    if visited != [] {
      var init := visited[..|visited| - 1];
      DriftIsSolitude(boredom, init);
      assert visited == init + [visited[|visited| - 1]];
      assert true in visited <==> true in init || visited[|visited| - 1];
    }
  }

  /** A fresh ghost is due to leave exactly when sixteen updates in a row found no hunter in its room. */
  lemma LeavesOnlyWhenAlone(visited: seq<bool>)
    ensures Drift(0, visited) > ENTITY_BOREDOM_MAX <==> Solitude(visited) > ENTITY_BOREDOM_MAX
  {
    DriftIsSolitude(0, visited);
  }

  /** ghost_update_stats: a ghost in no room keeps its boredom. */
  method UpdateStats(spirit: Ghost)
    modifies spirit`boredom
    ensures spirit.boredom ==
              if spirit.currentRoom == null then old(spirit.boredom)
              else Felt(old(spirit.boredom), spirit.currentRoom.hunterCount > 0)
  {
    if spirit.currentRoom == null {
      return;
    }
    if spirit.currentRoom.hunterCount > 0 {
      spirit.boredom := 0;
    } else {
      spirit.boredom := spirit.boredom + 1;
    }
  }

  /** ghost_check_exit_condition: the threshold is strict. */
  method CheckExitCondition(spirit: Ghost) returns (exited: bool)
    modifies spirit`isRunning
    ensures exited == (spirit.boredom > ENTITY_BOREDOM_MAX)
    ensures spirit.isRunning == (old(spirit.isRunning) && !exited)
  {
    if spirit.boredom > ENTITY_BOREDOM_MAX {
      spirit.isRunning := false;
      return true;
    }
    return false;
  }

  // ---------------------------------------------------------------- actions

  /**
   * The filtering loop of the evidence action: the flags of the helper list that `mask` holds,
   * gathered in a seven-slot buffer.
   */
  method AvailableEvidence(mask: EvidenceByte) returns (available: seq<EvidenceType>)
    ensures available == Present(mask)
    ensures |available| <= |AllEvidence|
  {
    var buffer := new EvidenceType[|AllEvidence|](_ => Emf);
    var count := 0;
    ghost var found: seq<EvidenceType> := [];
    for i := 0 to |AllEvidence|
      invariant count <= i && found == PresentIn(mask, AllEvidence[..i])
      invariant buffer[..count] == found
    {
      var e := AllEvidence[i];
      assert AllEvidence[..i + 1][..i] == AllEvidence[..i];
      if Contains(mask, e) {
        buffer[count] := e;
        count := count + 1;
        found := found + [e];
        assert buffer[..count] == found by {
          assert buffer[..count - 1] == found[..count - 1];
        }
      }
    }
    assert AllEvidence[..|AllEvidence|] == AllEvidence;
    available := buffer[..count];
  }

  /** Every type the evidence action can draw is one of the three of the ghost's type. */
  lemma DepositIsOwn(kind: GhostType, k: int)
    requires 0 <= k < |Present(Mask(kind))|
    ensures |Present(Mask(kind))| == 3
    ensures Contains(Mask(kind), Present(Mask(kind))[k])
    ensures Present(Mask(kind))[k] in {Evidences(kind).0, Evidences(kind).1, Evidences(kind).2}
  {
    GhostTypeHasThree(kind);
    PresentInHolds(Mask(kind), AllEvidence);
    assert Present(Mask(kind))[k] in Present(Mask(kind));
  }

  /** The ghost's room and the ghost agree: the ghost is in a room of the house and that room holds it. */
  ghost predicate Haunts(spirit: Ghost, world: set<Room>)
    reads spirit, world
  {
    spirit.currentRoom != null ==> spirit.currentRoom in world && spirit.currentRoom.haunting == spirit
  }

  /** The evidence action: one drawn type of the ghost's own is ORed into its room. */
  method Deposit(room: Room, kind: GhostType, draw: int)
    requires 0 <= draw < |Present(Mask(kind))|
    modifies room`evidence
    ensures room.evidence == Add(old(room.evidence), Present(Mask(kind))[draw])
  {
    var available := AvailableEvidence(Mask(kind));
    if |available| > 0 {
      Rooms.AddEvidence(room, available[draw]);
    }
  }

  /** The move action: an unaccompanied ghost moves to the drawn connection; otherwise it idles. */
  method Wander(spirit: Ghost, ghost world: set<Room>, draw: int)
    requires Arena(world) && spirit.currentRoom != null && Haunts(spirit, world)
    requires spirit.currentRoom.connectionCount > 0 ==> 0 <= draw < spirit.currentRoom.connectionCount
    modifies spirit`currentRoom, world`haunting, world`hunterCount, Slots(world)
    ensures Haunts(spirit, world) && spirit.currentRoom != null
    ensures spirit.currentRoom ==
              if old(spirit.currentRoom.hunterCount) == 0 && old(spirit.currentRoom.connectionCount) > 0
              then old(spirit.currentRoom.Neighbours()[draw])
              else old(spirit.currentRoom)
    ensures spirit.currentRoom != old(spirit.currentRoom) ==> old(spirit.currentRoom).haunting == null
    ensures forall r | r in world :: r.Occupants() == old(r.Occupants())
    ensures forall r | r in world && r != old(spirit.currentRoom) && r != spirit.currentRoom :: r.haunting == old(r.haunting)
  {
    var room := spirit.currentRoom;
    if room.hunterCount == 0 {
      var target := Rooms.RandomConnection(room, draw);
      if target != null && target != room {
        var _ := Rooms.MoveEntity(room, target, Rooms.GhostEntity(spirit));
      }
    }
  }

  /**
   * ghost_take_action: action 0 idles, action 1 leaves one of the ghost's own evidence types in
   * its room, action 2 moves the ghost when no hunter shares its room. Hunters are never moved.
   */
  method TakeAction(spirit: Ghost, ghost world: set<Room>, action: int, evidenceDraw: int, moveDraw: int)
    requires 0 <= action < 3
    requires Arena(world) && Haunts(spirit, world)
    requires spirit.currentRoom != null && action == 1 ==> 0 <= evidenceDraw < |Present(Mask(spirit.kind))|
    requires spirit.currentRoom != null && action == 2 && spirit.currentRoom.connectionCount > 0 ==>
               0 <= moveDraw < spirit.currentRoom.connectionCount
    modifies spirit`currentRoom, world`evidence, world`haunting, world`hunterCount, Slots(world)
    ensures Arena(world) && Haunts(spirit, world)
    ensures forall r | r in world :: r.Occupants() == old(r.Occupants())
    ensures old(spirit.currentRoom) == null || action != 2 ==>
              spirit.currentRoom == old(spirit.currentRoom) && forall r | r in world :: r.haunting == old(r.haunting)
    ensures old(spirit.currentRoom) == null || action != 1 ==> forall r | r in world :: r.evidence == old(r.evidence)
    ensures old(spirit.currentRoom) != null && action == 1 ==>
              var room := old(spirit.currentRoom);
              room.evidence == Add(old(room.evidence), Present(Mask(spirit.kind))[evidenceDraw])
              && forall r | r in world && r != room :: r.evidence == old(r.evidence)
    ensures old(spirit.currentRoom) != null && action == 2 ==>
              spirit.currentRoom ==
                (if old(spirit.currentRoom.hunterCount) == 0 && old(spirit.currentRoom.connectionCount) > 0
                 then old(spirit.currentRoom.Neighbours()[moveDraw])
                 else old(spirit.currentRoom))
              && (spirit.currentRoom != old(spirit.currentRoom) ==> old(spirit.currentRoom).haunting == null)
              && (forall r | r in world && r != old(spirit.currentRoom) && r != spirit.currentRoom ::
                    r.haunting == old(r.haunting))
              && forall r | r in world :: r.evidence == old(r.evidence)
  {
    if spirit.currentRoom == null {
      return;
    }
    if action == 1 {
      Deposit(spirit.currentRoom, spirit.kind, evidenceDraw);
    } else if action == 2 {
      Wander(spirit, world, moveDraw);
    }
  }

  /** ghost_get_evidence_requirements: the type read as a mask, which always holds three types. */
  method GetEvidenceRequirements(spirit: Ghost?) returns (mask: EvidenceByte)
    ensures spirit == null ==> mask == 0
    ensures spirit != null ==> mask == Mask(spirit.kind) && |Present(mask)| == 3 && mask & SPARE_BIT == 0
  {
    if spirit == null {
      return 0;
    }
    mask := Mask(spirit.kind);
    GhostTypeHasThree(spirit.kind);
  }

  // ---------------------------------------------------------------- one tick

  /**
   * One pass of the ghost loop: boredom update, exit check, then an action. Boredom resets when a
   * hunter shares the ghost's room and grows otherwise. A ghost that stops does so because its
   * boredom passed the threshold, and then nothing else changes; otherwise the action has the
   * effect stated for it on `TakeAction`. Hunters are never moved.
   */
  method Tick(spirit: Ghost, ghost world: set<Room>, action: int, evidenceDraw: int, moveDraw: int)
    returns (stopped: bool)
    requires 0 <= action < 3
    requires Arena(world) && Haunts(spirit, world)
    requires spirit.currentRoom != null && action == 1 ==> 0 <= evidenceDraw < |Present(Mask(spirit.kind))|
    requires spirit.currentRoom != null && action == 2 && spirit.currentRoom.connectionCount > 0 ==>
               0 <= moveDraw < spirit.currentRoom.connectionCount
    modifies spirit`boredom, spirit`isRunning, spirit`currentRoom
    modifies world`evidence, world`haunting, world`hunterCount, Slots(world)
    ensures Arena(world) && Haunts(spirit, world)
    ensures forall r | r in world :: r.Occupants() == old(r.Occupants())
    ensures spirit.boredom ==
              if old(spirit.currentRoom) == null then old(spirit.boredom)
              else Felt(old(spirit.boredom), old(spirit.currentRoom.hunterCount) > 0)
    ensures stopped == (spirit.boredom > ENTITY_BOREDOM_MAX) && spirit.isRunning == (old(spirit.isRunning) && !stopped)
    ensures stopped || old(spirit.currentRoom) == null || action != 2 ==>
              spirit.currentRoom == old(spirit.currentRoom) && forall r | r in world :: r.haunting == old(r.haunting)
    ensures stopped || old(spirit.currentRoom) == null || action != 1 ==> forall r | r in world :: r.evidence == old(r.evidence)
    ensures !stopped && old(spirit.currentRoom) != null && action == 1 ==>
              var room := old(spirit.currentRoom);
              room.evidence == Add(old(room.evidence), Present(Mask(spirit.kind))[evidenceDraw])
              && forall r | r in world && r != room :: r.evidence == old(r.evidence)
    ensures !stopped && old(spirit.currentRoom) != null && action == 2 ==>
              spirit.currentRoom ==
                (if old(spirit.currentRoom.hunterCount) == 0 && old(spirit.currentRoom.connectionCount) > 0
                 then old(spirit.currentRoom.Neighbours()[moveDraw])
                 else old(spirit.currentRoom))
              && (spirit.currentRoom != old(spirit.currentRoom) ==> old(spirit.currentRoom).haunting == null)
              && (forall r | r in world && r != old(spirit.currentRoom) && r != spirit.currentRoom ::
                    r.haunting == old(r.haunting))
  {
    UpdateStats(spirit);
    stopped := CheckExitCondition(spirit);
    if stopped {
      return;
    }
    TakeAction(spirit, world, action, evidenceDraw, moveDraw);
  }
}
