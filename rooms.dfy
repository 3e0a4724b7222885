/** Room operations: connections, occupants, the ghost slot, evidence, and moving between rooms. */
module Rooms {
  import opened Defs
  import opened Evidence
  import opened Records

  /** What `room_move_entity` moves: a hunter or the ghost. */
  datatype Entity = HunterEntity(hunter: Hunter) | GhostEntity(spirit: Ghost)

  ghost function HunterOf(entity: Entity): set<Hunter>
  {
    if entity.HunterEntity? then {entity.hunter} else {}
  }

  ghost function GhostOf(entity: Entity): set<Ghost>
  {
    if entity.GhostEntity? then {entity.spirit} else {}
  }

  ghost function Spirits(g: Ghost?): set<Ghost>
  {
    if g == null then {} else {g}
  }

  /** The list with the first occurrence of `x` taken out and the rest in their order. */
  function RemoveFirst<T(==)>(s: seq<T>, x: T): seq<T>
  {
    if s == [] then []
    else if s[0] == x then s[1..]
    else [s[0]] + RemoveFirst(s[1..], x)
  }

  /** Taking out the first occurrence, found at `i`, closes the gap and keeps the order. */
  lemma {:induction false} RemoveFirstAt<T>(s: seq<T>, x: T, i: nat)
    requires i < |s| && s[i] == x && x !in s[..i]
    ensures RemoveFirst(s, x) == s[..i] + s[i + 1..]
  {
    if i > 0 {
      assert s[0] in s[..i];
      assert s[1..][..i - 1] == s[1..i];
      RemoveFirstAt(s[1..], x, i - 1);
    }
  }

  /** A list without `x` is left as it is. */
  lemma {:induction false} RemoveFirstAbsent<T>(s: seq<T>, x: T)
    requires x !in s
    ensures RemoveFirst(s, x) == s
  {
    if s != [] {
      assert s[1..] + [] == s[1..];
      assert forall y | y in s[1..] :: y in s;
      RemoveFirstAbsent(s[1..], x);
    }
  }

  /** Removal takes out exactly one copy of `x` when there is one, and nothing otherwise. */
  lemma {:induction false} RemoveFirstCounts<T>(s: seq<T>, x: T)
    ensures multiset(RemoveFirst(s, x)) == multiset(s) - multiset{x}
    ensures |RemoveFirst(s, x)| == if x in s then |s| - 1 else |s|
  {
    if s != [] {
      RemoveFirstCounts(s[1..], x);
      assert s == [s[0]] + s[1..];
      assert x in s <==> s[0] == x || x in s[1..];
    }
  }

  /** Appends `b` to the connection slots of `a`, which has a free one. */
  method Link(a: Room, b: Room, ghost world: set<Room>)
    requires Arena(world) && a in world && b in world && a != b && a.connectionCount < MAX_CONNECTIONS
    modifies a`connectionCount, a.connections
    ensures Arena(world)
    ensures a.Neighbours() == old(a.Neighbours()) + [b]
  {
    a.connections[a.connectionCount] := b;
    a.connectionCount := a.connectionCount + 1;
  }

  /**
   * Connects two rooms both ways when both have a free connection slot; otherwise
   * neither changes.
   */
  method Connect(a: Room, b: Room, ghost world: set<Room>)
    requires Arena(world) && a in world && b in world && a != b
    modifies a`connectionCount, b`connectionCount, a.connections, b.connections
    ensures Arena(world)
    ensures old(a.connectionCount) < MAX_CONNECTIONS && old(b.connectionCount) < MAX_CONNECTIONS ==>
              a.Neighbours() == old(a.Neighbours()) + [b] && b.Neighbours() == old(b.Neighbours()) + [a]
    ensures old(a.connectionCount) == MAX_CONNECTIONS || old(b.connectionCount) == MAX_CONNECTIONS ==>
              unchanged(a, b, a.connections, b.connections)
    ensures old(Symmetric(world)) ==> Symmetric(world)
  {
    if a.connectionCount >= MAX_CONNECTIONS {
      return;
    }
    if b.connectionCount >= MAX_CONNECTIONS {
      return;
    }
    Link(a, b, world);
    Link(b, a, world);
    forall r, s | r in world && s in world && old(Symmetric(world))
      ensures s in r.Neighbours() <==> r in s.Neighbours()
    {
      if r != a && r != b {
        assert r.Neighbours() == old(r.Neighbours());
      }
      if s != a && s != b {
        assert s.Neighbours() == old(s.Neighbours());
      }
    }
  }

  /** Appends a hunter to the occupant slots and points it at the room. */
  method Enlist(room: Room, hunter: Hunter)
    requires room.Valid() && room.hunterCount < MAX_ROOM_OCCUPANCY
    modifies room`hunterCount, room.hunters, hunter`currentRoom
    ensures room.Occupants() == old(room.Occupants()) + [hunter]
    ensures hunter.currentRoom == room
  {
    room.hunters[room.hunterCount] := hunter;
    room.hunterCount := room.hunterCount + 1;
    hunter.currentRoom := room;
  }

  /**
   * Finds the first slot holding the hunter and shifts the later occupants down over it;
   * a hunter that is not listed leaves the slots alone.
   */
  method Unlist(room: Room, hunter: Hunter)
    requires room.Valid()
    modifies room`hunterCount, room.hunters
    ensures room.Occupants() == RemoveFirst(old(room.Occupants()), hunter)
  {
    var i := 0;
    while i < room.hunterCount
      invariant 0 <= i <= room.hunterCount
      invariant room.hunterCount == old(room.hunterCount) && room.hunters[..] == old(room.hunters[..])
      invariant hunter !in room.hunters[..i]
    {
      if room.hunters[i] == hunter {
        ghost var slots := room.hunters[..];
        ghost var n := room.hunterCount;
        var j := i;
        while j < room.hunterCount - 1
          invariant i <= j <= room.hunterCount - 1 && room.hunterCount == n
          invariant forall k | 0 <= k < i :: room.hunters[k] == slots[k]
          invariant forall k | i <= k < j :: room.hunters[k] == slots[k + 1]
          invariant forall k | j <= k < room.hunters.Length :: room.hunters[k] == slots[k]
        {
          room.hunters[j] := room.hunters[j + 1];
          j := j + 1;
        }
        room.hunterCount := room.hunterCount - 1;
        ghost var before := slots[..n];
        assert before == old(room.Occupants());
        assert before[..i] == slots[..i];
        RemoveFirstAt(before, hunter, i);
        assert j == n - 1;
        forall k | 0 <= k < n - 1
          ensures room.Occupants()[k] == (before[..i] + before[i + 1..])[k]
        {
          if k >= i {
            assert before[i + 1..][k - i] == slots[k + 1];
          }
        }
        assert room.Occupants() == before[..i] + before[i + 1..];
        return;
      }
      assert room.hunters[..i + 1] == room.hunters[..i] + [room.hunters[i]];
      i := i + 1;
    }
    RemoveFirstAbsent(old(room.Occupants()), hunter);
  }

  /** A room, if there is one, as a frame. */
  ghost function RoomOf(room: Room?): set<Room>
  {
    if room == null then {} else {room}
  }

  /** A hunter, if there is one, as a frame. */
  ghost function HunterIn(hunter: Hunter?): set<Hunter>
  {
    if hunter == null then {} else {hunter}
  }

  /** The occupant slots of a room, if there is one, as a frame. */
  ghost function SlotsOf(room: Room?): set<array<Hunter?>>
  {
    if room == null then {} else {room.hunters}
  }

  /**
   * Lists a hunter in a room unless the room is full; on success the hunter points at the room.
   * A missing room or hunter is refused.
   */
  method AddHunter(room: Room?, hunter: Hunter?) returns (added: bool)
    requires room != null ==> room.Valid()
    modifies RoomOf(room)`hunterCount, SlotsOf(room), HunterIn(hunter)`currentRoom
    ensures added == (room != null && hunter != null && old(room.hunterCount) < MAX_ROOM_OCCUPANCY)
    ensures added ==> room.Occupants() == old(room.Occupants()) + [hunter] && hunter.currentRoom == room
    ensures !added ==> unchanged(RoomOf(room), SlotsOf(room), HunterIn(hunter))
  {
    if room == null || hunter == null {
      return false;
    }
    if room.hunterCount >= MAX_ROOM_OCCUPANCY {
      return false;
    }
    Enlist(room, hunter);
    return true;
  }

  /**
   * Takes the first listing of a hunter out of a room, keeping the others in order; the hunter
   * then points nowhere. A missing room or hunter leaves everything as it is.
   */
  method RemoveHunter(room: Room?, hunter: Hunter?)
    requires room != null ==> room.Valid()
    modifies RoomOf(room)`hunterCount, SlotsOf(room), HunterIn(hunter)`currentRoom
    ensures room == null || hunter == null ==> unchanged(RoomOf(room), SlotsOf(room), HunterIn(hunter))
    ensures room != null && hunter != null ==>
              room.Occupants() == RemoveFirst(old(room.Occupants()), hunter)
              && room.hunterCount == (if hunter in old(room.Occupants()) then old(room.hunterCount) - 1 else old(room.hunterCount))
              && hunter.currentRoom == null
  {
    if room == null || hunter == null {
      return;
    }
    Unlist(room, hunter);
    RemoveFirstCounts(old(room.Occupants()), hunter);
    hunter.currentRoom := null;
  }

  /** Puts a ghost (or nothing) in the room's ghost slot; a ghost then points at the room. A missing room is ignored. */
  method SetGhost(room: Room?, spirit: Ghost?)
    modifies RoomOf(room)`haunting, Spirits(spirit)`currentRoom
    ensures room == null ==> unchanged(Spirits(spirit))
    ensures room != null ==> room.haunting == spirit && (spirit != null ==> spirit.currentRoom == room)
  {
    if room == null {
      return;
    }
    room.haunting := spirit;
    if spirit != null {
      spirit.currentRoom := room;
    }
  }

  /** Empties the ghost slot; the ghost that was there then points nowhere. A missing room is ignored. */
  method RemoveGhost(room: Room?)
    modifies RoomOf(room)`haunting, if room == null then {} else Spirits(room.haunting)`currentRoom
    ensures room != null ==> room.haunting == null
    ensures room != null && old(room.haunting) != null ==> old(room.haunting).currentRoom == null
  {
    if room == null {
      return;
    }
    if room.haunting != null {
      room.haunting.currentRoom := null;
    }
    room.haunting := null;
  }

  /** ORs a flag into the room's evidence; a missing room is ignored. */
  method AddEvidence(room: Room?, e: EvidenceType)
    modifies RoomOf(room)`evidence
    ensures room != null ==> room.evidence == Add(old(room.evidence), e)
  {
    if room == null {
      return;
    }
    room.evidence := room.evidence | Flag(e);
  }

  /**
   * Clears one flag from the room and reports whether it was there; no other flag changes.
   * A missing room holds nothing.
   */
  method RemoveEvidence(room: Room?, e: EvidenceType) returns (had: bool)
    modifies RoomOf(room)`evidence
    ensures had == (room != null && Contains(old(room.evidence), e))
    ensures room != null ==> room.evidence == Remove(old(room.evidence), e) && !Contains(room.evidence, e)
  {
    if room == null {
      return false;
    }
    had := room.evidence & Flag(e) != 0;
    if had {
      room.evidence := room.evidence & !Flag(e);
    }
  }

  /** Reports whether the room holds a flag, without changing it; a missing room holds nothing. */
  method HasEvidence(room: Room?, e: EvidenceType) returns (has: bool)
    ensures has == (room != null && Contains(room.evidence, e))
  {
    if room == null {
      return false;
    }
    has := room.evidence & Flag(e) != 0;
  }

  /** The hunter half of a move: out of its first listing in `from`, onto the end of `to`. */
  method Transfer(from: Room, to: Room, hunter: Hunter)
    requires from.Valid() && to.Valid() && from.hunters != to.hunters && to.hunterCount < MAX_ROOM_OCCUPANCY
    modifies from`hunterCount, from.hunters, to`hunterCount, to.hunters, hunter`currentRoom
    ensures from.Occupants() == RemoveFirst(old(from.Occupants()), hunter)
    ensures to.Occupants() == old(to.Occupants()) + [hunter]
    ensures hunter.currentRoom == to
    ensures hunter in old(from.Occupants()) ==>
              from.hunterCount + to.hunterCount == old(from.hunterCount + to.hunterCount)
  {
    Unlist(from, hunter);
    Enlist(to, hunter);
    RemoveFirstCounts(old(from.Occupants()), hunter);
  }

  /**
   * Moves a hunter or the ghost from one room to another. The ghost always moves; a hunter
   * moves only when the target has a free slot, and then leaves its first listing in `from`
   * and is appended to `to`. A failed move changes nothing.
   */
  method MoveEntity(from: Room, to: Room, entity: Entity) returns (moved: bool)
    requires from.Valid() && to.Valid()
    requires from != to && from.hunters != to.hunters
    requires entity.GhostEntity? ==> from.haunting == entity.spirit
    modifies from`hunterCount, from`haunting, from.hunters, to`hunterCount, to`haunting, to.hunters
    modifies HunterOf(entity)`currentRoom, GhostOf(entity)`currentRoom
    ensures moved == (entity.GhostEntity? || old(to.hunterCount) < MAX_ROOM_OCCUPANCY)
    ensures !moved ==> unchanged(from, to, from.hunters, to.hunters) && unchanged(HunterOf(entity))
    ensures moved && entity.GhostEntity? ==>
              from.haunting == null && to.haunting == entity.spirit && entity.spirit.currentRoom == to
              && unchanged(from`hunterCount, to`hunterCount, from.hunters, to.hunters)
    ensures moved && entity.HunterEntity? ==>
              from.Occupants() == RemoveFirst(old(from.Occupants()), entity.hunter)
              && to.Occupants() == old(to.Occupants()) + [entity.hunter]
              && entity.hunter.currentRoom == to
              && from.haunting == old(from.haunting) && to.haunting == old(to.haunting)
    ensures moved && entity.HunterEntity? && entity.hunter in old(from.Occupants()) ==>
              from.hunterCount + to.hunterCount == old(from.hunterCount + to.hunterCount)
  {
    var canMove := true;
    if !entity.GhostEntity? {
      if to.hunterCount >= MAX_ROOM_OCCUPANCY {
        canMove := false;
      }
    }
    if canMove {
      match entity
      case GhostEntity(spirit) =>
        from.haunting := null;
        to.haunting := spirit;
        spirit.currentRoom := to;
      case HunterEntity(hunter) =>
        Transfer(from, to, hunter);
    }
    return canMove;
  }

  /** Picks the connection at the drawn index; a room without connections gives none. */
  method RandomConnection(room: Room?, draw: int) returns (target: Room?)
    requires room != null ==> room.Valid()
    requires room != null && room.connectionCount > 0 ==> 0 <= draw < room.connectionCount
    ensures room == null || room.connectionCount == 0 ==> target == null
    ensures room != null && room.connectionCount > 0 ==> target == room.Neighbours()[draw] && target in room.Neighbours()
  {
    if room == null || room.connectionCount == 0 {
      return null;
    }
    target := room.connections[draw];
  }
}
