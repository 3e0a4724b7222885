/** The record layouts of the simulation: rooms, hunters, the ghost, the path stack and the house. */
module Records {
  import opened Defs
  import Evidence

  /** How many hunters a room lists; the subset type makes every write prove the bound. */
  type OccupantCount = n: int | 0 <= n <= MAX_ROOM_OCCUPANCY

  /** How many connections a room lists. */
  type ConnectionCount = n: int | 0 <= n <= MAX_CONNECTIONS

  /** The capacity of the hunter collection of a fresh house. */
  const INITIAL_HUNTER_CAPACITY := 4

  class Room {
    const isExit: bool
    /** The occupant slots; the first `hunterCount` are in use. */
    const hunters: array<Hunter?>
    /** The connection slots; the first `connectionCount` are in use. */
    const connections: array<Room?>
    var hunterCount: OccupantCount
    var connectionCount: ConnectionCount
    /** The ghost in this room, if any. */
    var haunting: Ghost?
    var evidence: EvidenceByte

    /** The slot arrays have their fixed sizes. */
    ghost predicate Valid()
    {
      hunters.Length == MAX_ROOM_OCCUPANCY && connections.Length == MAX_CONNECTIONS
    }

    /** The hunters listed in the room, in insertion order. */
    ghost function Occupants(): seq<Hunter?>
      requires Valid()
      reads `hunterCount, hunters
    {
      hunters[..hunterCount]
    }

    /** The rooms this room is connected to, in connection order. */
    ghost function Neighbours(): seq<Room?>
      requires Valid()
      reads `connectionCount, connections
    {
      connections[..connectionCount]
    }

    /** The field initialisation of room_init; the name is not modelled. */
    constructor (isExit: bool)
      ensures Valid() && this.isExit == isExit
      ensures Occupants() == [] && Neighbours() == [] && haunting == null && evidence == 0
      ensures fresh(hunters) && fresh(connections)
      ensures forall k | 0 <= k < connections.Length :: connections[k] == null
    {
      this.isExit := isExit;
      hunters := new Hunter?[MAX_ROOM_OCCUPANCY](_ => null);
      connections := new Room?[MAX_CONNECTIONS](_ => null);
      hunterCount := 0;
      connectionCount := 0;
      haunting := null;
      evidence := 0;
    }
  }

  /** One entry of a path stack; entries are never changed after they are made. */
  class RoomNode {
    const room: Room
    const next: RoomNode?
    /** The rooms from this entry to the bottom of the stack. */
    ghost const rooms: seq<Room>

    ghost predicate Valid()
      decreases |rooms|
    {
      if next == null then rooms == [room]
      else rooms == [room] + next.rooms && next.Valid()
    }

    constructor (room: Room, next: RoomNode?)
      requires next != null ==> next.Valid()
      ensures Valid() && this.room == room && this.next == next
      ensures rooms == [room] + (if next == null then [] else next.rooms)
    {
      this.room := room;
      this.next := next;
      rooms := [room] + (if next == null then [] else next.rooms);
    }
  }

  /** The path a hunter has walked since it last left the van: a linked LIFO of rooms. */
  class RoomStack {
    var head: RoomNode?
    /** The stacked rooms, top first. */
    ghost var Contents: seq<Room>

    ghost predicate Valid()
      reads this
    {
      if head == null then Contents == []
      else head.Valid() && Contents == head.rooms
    }

    /** roomstack_init. */
    constructor ()
      ensures Valid() && Contents == []
    {
      head := null;
      Contents := [];
    }
  }

  class Hunter {
    const id: int
    const house: House
    const caseFile: Evidence.CaseFile
    const path: RoomStack
    var currentRoom: Room?
    var device: EvidenceType
    var boredom: int
    var fear: int
    var returnToVan: bool
    var isRunning: bool
    var exitReason: LogReason

    /** The field initialisation of hunter_init, before the hunter enters the starting room; the name is not modelled. */
    constructor (id: int, house: House, device: EvidenceType)
      ensures this.id == id && this.house == house && caseFile == house.caseFile
      ensures fresh(path) && path.Valid() && path.Contents == []
      ensures currentRoom == null && this.device == device
      ensures boredom == 0 && fear == 0 && !returnToVan && isRunning && exitReason == LrBored
    {
      this.id := id;
      this.house := house;
      caseFile := house.caseFile;
      path := new RoomStack();
      currentRoom := null;
      this.device := device;
      boredom := 0;
      fear := 0;
      returnToVan := false;
      isRunning := true;
      exitReason := LrBored;
    }
  }

  class Ghost {
    const id: int
    const kind: GhostType
    var currentRoom: Room?
    var boredom: int
    var isRunning: bool

    /** The field initialisation of ghost_init, before the ghost is placed in its room. */
    constructor (kind: GhostType, room: Room)
      ensures id == DEFAULT_GHOST_ID && this.kind == kind && currentRoom == room
      ensures boredom == 0 && isRunning
    {
      id := DEFAULT_GHOST_ID;
      this.kind := kind;
      currentRoom := room;
      boredom := 0;
      isRunning := true;
    }
  }

  class House {
    /** The room slots; the first `roomCount` are filled in by the house layout. */
    const rooms: array<Room?>
    var roomCount: int
    /** The growable hunter collection; the first `hunterCount` slots are in use. */
    var hunters: array<Hunter?>
    var hunterCount: int
    var hunterCapacity: int
    const caseFile: Evidence.CaseFile
    var haunting: Ghost?
    var startingRoom: Room?

    /** The collection never holds more hunters than its capacity, which is the length of its array. */
    ghost predicate Valid()
      reads this
    {
      rooms.Length == MAX_ROOMS && 0 <= roomCount <= MAX_ROOMS
      && 0 <= hunterCount <= hunterCapacity && hunterCapacity == hunters.Length && 0 < hunterCapacity
    }

    /** The hunters in the collection, in registration order. */
    ghost function Members(): seq<Hunter?>
      requires Valid()
      reads this, hunters
    {
      hunters[..hunterCount]
    }

    /** house_init, for the case where allocation succeeds. */
    constructor ()
      ensures Valid() && fresh(rooms) && fresh(hunters) && fresh(caseFile)
      ensures caseFile.Valid() && caseFile.collected == 0 && !caseFile.solved
      ensures Members() == [] && hunterCapacity == INITIAL_HUNTER_CAPACITY
      ensures roomCount == 0 && haunting == null && startingRoom == null
    {
      rooms := new Room?[MAX_ROOMS];
      caseFile := new Evidence.CaseFile();
      hunterCapacity := INITIAL_HUNTER_CAPACITY;
      hunters := new Hunter?[INITIAL_HUNTER_CAPACITY];
      hunterCount := 0;
      roomCount := 0;
      haunting := null;
      startingRoom := null;
    }
  }

  /**
   * The rooms of one house: each has its own slot arrays (in the source they are embedded
   * in the room record), every listed connection leads to another room of the house, and
   * unused connection slots hold nothing or such a room.
   */
  ghost predicate Arena(world: set<Room>)
    reads world`connectionCount, set r | r in world :: r.connections
  {
    (forall r | r in world :: r.Valid())
    && (forall r, s | r in world && s in world && r != s :: r.hunters != s.hunters && r.connections != s.connections)
    && (forall r, k | r in world && 0 <= k < r.connections.Length ::
          r.connections[k] == null || (r.connections[k] in world && r.connections[k] != r))
    && (forall r, k | r in world && 0 <= k < r.connectionCount :: r.connections[k] != null)
  }

  /** The hunter arrays of the rooms of a house, as a frame. */
  ghost function Slots(world: set<Room>): set<array<Hunter?>>
  {
    set r | r in world :: r.hunters
  }

  /** Connections are undirected: a room lists another exactly when the other lists it. */
  ghost predicate Symmetric(world: set<Room>)
    requires forall r | r in world :: r.Valid()
    reads world`connectionCount, set r | r in world :: r.connections
  {
    forall r, s | r in world && s in world :: s in r.Neighbours() <==> r in s.Neighbours()
  }
}
