/** The hunter: its path stack, its mood and exit rules, and the steps of one tick. */
module Hunters {
  import opened Defs
  import opened Evidence
  import opened Records
  import Rooms

  /** The percentage chance that a hunter who finds nothing gives up and heads back to the van. */
  const GIVE_UP_PERCENT := 10

  // ---------------------------------------------------------------- the path stack

  /** roomstack_push: a missing room or stack is ignored. */
  method Push(stack: RoomStack?, room: Room?)
    requires stack != null ==> stack.Valid()
    modifies stack
    ensures stack != null ==> stack.Valid()
    ensures stack != null ==> stack.Contents == if room == null then old(stack.Contents) else [room] + old(stack.Contents)
  {
    if stack == null || room == null {
      return;
    }
    var node := new RoomNode(room, stack.head);
    stack.head := node;
    stack.Contents := [room] + stack.Contents;
  }

  /** roomstack_pop: the most recently pushed room, or null when there is none. */
  method Pop(stack: RoomStack?) returns (room: Room?)
    requires stack != null ==> stack.Valid()
    modifies stack
    ensures stack == null ==> room == null
    ensures stack != null ==> stack.Valid()
    ensures stack != null && old(stack.Contents) == [] ==> room == null && stack.Contents == []
    ensures stack != null && old(stack.Contents) != [] ==>
              room == old(stack.Contents)[0] && stack.Contents == old(stack.Contents)[1..]
  {
    if stack == null || stack.head == null {
      return null;
    }
    var node := stack.head;
    room := node.room;
    stack.head := node.next;
    stack.Contents := stack.Contents[1..];
  }

  /** roomstack_clear: pops until the stack is empty. */
  method Clear(stack: RoomStack?)
    requires stack != null ==> stack.Valid()
    modifies stack
    ensures stack != null ==> stack.Valid() && stack.Contents == []
  {
    if stack == null {
      return;
    }
    while stack.head != null
      invariant stack.Valid()
      decreases |stack.Contents|
    {
      var _ := Pop(stack);
    }
  }

  /** roomstack_is_empty: a missing stack counts as empty. */
  method IsEmpty(stack: RoomStack?) returns (empty: bool)
    requires stack != null ==> stack.Valid()
    ensures empty == (stack == null || stack.Contents == [])
  {
    empty := stack == null || stack.head == null;
  }

  /** The rooms of `s` from last to first. */
  function Reversed<T>(s: seq<T>): (r: seq<T>)
    ensures |r| == |s|
    ensures forall i | 0 <= i < |s| :: r[i] == s[|s| - 1 - i]
  {
    if s == [] then [] else [s[|s| - 1]] + Reversed(s[..|s| - 1])
  }

  /** Pushes the rooms of `rooms` in order, so the last ends up on top. */
  method PushAll(stack: RoomStack, rooms: seq<Room>)
    requires stack.Valid()
    modifies stack
    ensures stack.Valid() && stack.Contents == Reversed(rooms) + old(stack.Contents)
  {
    for i := 0 to |rooms|
      invariant stack.Valid() && stack.Contents == Reversed(rooms[..i]) + old(stack.Contents)
    {
      assert rooms[..i + 1][..i] == rooms[..i];
      Push(stack, rooms[i]);
    }
    assert rooms[..|rooms|] == rooms;
  }

  /** Pushing rooms onto a fresh stack and popping until it is empty hands them back last-in first-out. */
  method Retrace(rooms: seq<Room>) returns (popped: seq<Room>, emptyAfter: bool)
    ensures popped == Reversed(rooms)
    ensures emptyAfter
  {
    var stack := new RoomStack();
    PushAll(stack, rooms);
    popped := [];
    emptyAfter := IsEmpty(stack);
    while !emptyAfter
      invariant stack.Valid() && popped + stack.Contents == Reversed(rooms)
      invariant emptyAfter == (stack.Contents == [])
      decreases |stack.Contents|
    {
      ghost var rest := stack.Contents;
      var top := Pop(stack);
      var room: Room := top;
      assert rest == [room] + stack.Contents;
      assert (popped + [room]) + stack.Contents == popped + rest;
      popped := popped + [room];
      emptyAfter := IsEmpty(stack);
    }
  }

  // ---------------------------------------------------------------- mood and exit

  /** A hunter's boredom and fear counters. */
  datatype Mood = Mood(boredom: int, fear: int)

  /** One mood update: a ghost in the room resets boredom and feeds fear; an empty room does the opposite. */
  function Felt(m: Mood, haunted: bool): Mood
  {
    if haunted then Mood(0, m.fear + 1) else Mood(m.boredom + 1, 0)
  }

  /** The exit a mood calls for: boredom is checked before fear, and both thresholds are strict. */
  function ExitFor(m: Mood): Option<LogReason>
  {
    if m.boredom > ENTITY_BOREDOM_MAX then Some(LrBored)
    else if m.fear > HUNTER_FEAR_MAX then Some(LrAfraid)
    else None
  }

  /**
   * A hunter's own fields as one value: its room, its path (top first), whether it is heading
   * back to the van, its device, its mood, whether it is running and the recorded exit reason.
   */
  datatype Status = Status(room: Room?, path: seq<Room>, returning: bool, device: EvidenceType,
                           mood: Mood, running: bool, reason: LogReason)

  /** The fields of a hunter as a Status. */
  ghost function StatusOf(h: Hunter): Status
    reads h, h.path
  {
    Status(h.currentRoom, h.path.Contents, h.returnToVan, h.device, Mood(h.boredom, h.fear), h.isRunning, h.exitReason)
  }

  /** Whether the ghost is in a room; a missing room holds none. */
  ghost function Haunted(room: Room?): bool
    reads Rooms.RoomOf(room)`haunting
  {
    room != null && room.haunting != null
  }

  /** The evidence left in a room; a missing room holds none. */
  ghost function Clues(room: Room?): EvidenceByte
    reads Rooms.RoomOf(room)`evidence
  {
    if room == null then 0 else room.evidence
  }

  /** Whether a room is the exit room; a missing room is not. */
  predicate AtExit(room: Room?)
  {
    room != null && room.isExit
  }

  /** The mood after a run of updates; `haunted[k]` says whether the ghost was in the room on the k-th. */
  function Drift(m: Mood, haunted: seq<bool>): Mood
  {
    if haunted == [] then m else Felt(Drift(m, haunted[..|haunted| - 1]), haunted[|haunted| - 1])
  }

  /** `n` updates in the same situation. */
  function Repeat(haunted: bool, n: nat): (r: seq<bool>)
    ensures |r| == n && forall k | 0 <= k < n :: r[k] == haunted
  {
    if n == 0 then [] else Repeat(haunted, n - 1) + [haunted]
  }

  /** Each update moves each counter by at most one, so neither outgrows the number of updates. */
  lemma {:induction false} DriftBounded(m: Mood, haunted: seq<bool>)
    requires m.boredom >= 0 && m.fear >= 0
    ensures 0 <= Drift(m, haunted).boredom <= m.boredom + |haunted|
    ensures 0 <= Drift(m, haunted).fear <= m.fear + |haunted|
  {
    if haunted != [] {
      DriftBounded(m, haunted[..|haunted| - 1]);
    }
  }

  /** A fresh hunter cannot leave before its sixteenth update, whatever it meets. */
  lemma NoEarlyExit(haunted: seq<bool>)
    requires |haunted| <= ENTITY_BOREDOM_MAX && |haunted| <= HUNTER_FEAR_MAX
    ensures ExitFor(Drift(Mood(0, 0), haunted)) == None
  {
    DriftBounded(Mood(0, 0), haunted);
  }

  /** A run of updates in empty rooms adds one boredom per update and leaves fear at zero. */
  lemma {:induction false} DriftAlone(m: Mood, n: nat)
    requires n > 0
    ensures Drift(m, Repeat(false, n)) == Mood(m.boredom + n, 0)
  {
    assert Repeat(false, n)[..n - 1] == Repeat(false, n - 1);
    if n > 1 {
      DriftAlone(m, n - 1);
    }
  }

  /** A run of updates beside the ghost adds one fear per update and keeps boredom at zero. */
  lemma {:induction false} DriftHaunted(m: Mood, n: nat)
    requires n > 0
    ensures Drift(m, Repeat(true, n)) == Mood(0, m.fear + n)
  {
    assert Repeat(true, n)[..n - 1] == Repeat(true, n - 1);
    if n > 1 {
      DriftHaunted(m, n - 1);
    }
  }

  /** A fresh hunter who never meets the ghost leaves bored exactly from its sixteenth update on. */
  lemma BoredExit(n: nat)
    ensures ExitFor(Drift(Mood(0, 0), Repeat(false, n))) == if n > ENTITY_BOREDOM_MAX then Some(LrBored) else None
  {
    if n > 0 {
      DriftAlone(Mood(0, 0), n);
    }
  }

  /** A fresh hunter who stays beside the ghost leaves afraid exactly from its sixteenth update on. */
  lemma AfraidExit(n: nat)
    ensures ExitFor(Drift(Mood(0, 0), Repeat(true, n))) == if n > HUNTER_FEAR_MAX then Some(LrAfraid) else None
  {
    if n > 0 {
      DriftHaunted(Mood(0, 0), n);
    }
  }

  /** hunter_update_stats: a hunter in no room keeps its counters. */
  method UpdateStats(h: Hunter)
    modifies h`boredom, h`fear
    ensures h.currentRoom == null ==> h.boredom == old(h.boredom) && h.fear == old(h.fear)
    ensures h.currentRoom != null ==>
              Mood(h.boredom, h.fear) == Felt(Mood(old(h.boredom), old(h.fear)), h.currentRoom.haunting != null)
  {
    if h.currentRoom == null {
      return;
    }
    if h.currentRoom.haunting != null {
      h.boredom := 0;
      h.fear := h.fear + 1;
    } else {
      h.boredom := h.boredom + 1;
      h.fear := 0;
    }
  }

  /** hunter_check_exit_conditions: stops the hunter and records why when its mood calls for an exit. */
  method CheckExitConditions(h: Hunter) returns (exited: bool)
    modifies h`exitReason, h`isRunning
    ensures exited == ExitFor(Mood(h.boredom, h.fear)).Some?
    ensures exited ==> h.exitReason == ExitFor(Mood(h.boredom, h.fear)).value && !h.isRunning
    ensures !exited ==> h.exitReason == old(h.exitReason) && h.isRunning == old(h.isRunning)
  {
    if h.boredom > ENTITY_BOREDOM_MAX {
      h.exitReason := LrBored;
      h.isRunning := false;
      return true;
    }
    if h.fear > HUNTER_FEAR_MAX {
      h.exitReason := LrAfraid;
      h.isRunning := false;
      return true;
    }
    return false;
  }

  // ---------------------------------------------------------------- the van

  /** Every draw indexes the evidence-type list. */
  predicate Draws(draws: seq<int>)
  {
    forall k | 0 <= k < |draws| :: 0 <= draws[k] < |AllEvidence|
  }

  /** Some draw names a type other than `current`, so the swap loop ends. */
  ghost predicate Swappable(draws: seq<int>, current: EvidenceType)
    requires Draws(draws)
  {
    exists k | 0 <= k < |draws| :: AllEvidence[draws[k]] != current
  }

  lemma SwappableTail(draws: seq<int>, current: EvidenceType)
    requires Draws(draws) && Swappable(draws, current) && AllEvidence[draws[0]] == current
    ensures Draws(draws[1..]) && Swappable(draws[1..], current)
  {
    var k :| 0 <= k < |draws| && AllEvidence[draws[k]] != current;
    assert draws[1..][k - 1] == draws[k];
  }

  /** The position of the draw the device swap settles on: the first one naming another type. */
  ghost function FirstOther(draws: seq<int>, current: EvidenceType): (k: nat)
    requires Draws(draws) && Swappable(draws, current)
    ensures k < |draws| && AllEvidence[draws[k]] != current
    ensures forall j | 0 <= j < k :: AllEvidence[draws[j]] == current
    decreases |draws|
  {
    if AllEvidence[draws[0]] != current then 0
    else
      SwappableTail(draws, current);
      var k := FirstOther(draws[1..], current);
      assert forall j | 1 <= j <= k :: draws[j] == draws[1..][j - 1];
      k + 1
  }

  /**
   * hunter_van_check: in the starting room the path is emptied and the trip back is over; then a
   * solved case stops the hunter, and an unsolved one makes it swap to a different device.
   */
  method VanCheck(h: Hunter, draws: seq<int>)
    requires h.path.Valid()
    requires h.currentRoom == h.house.startingRoom && !h.caseFile.solved ==> Draws(draws) && Swappable(draws, h.device)
    modifies h`device, h`returnToVan, h`exitReason, h`isRunning, h.path
    ensures h.path.Valid()
    ensures h.currentRoom != h.house.startingRoom ==> unchanged(h, h.path)
    ensures h.currentRoom == h.house.startingRoom ==> h.path.Contents == [] && !h.returnToVan
    ensures h.currentRoom == h.house.startingRoom && h.caseFile.solved ==>
              h.exitReason == LrEvidence && !h.isRunning && h.device == old(h.device)
    ensures h.currentRoom == h.house.startingRoom && !h.caseFile.solved ==>
              h.device == AllEvidence[draws[FirstOther(draws, old(h.device))]] && h.device != old(h.device)
              && h.exitReason == old(h.exitReason) && h.isRunning == old(h.isRunning)
  {
    if h.currentRoom != h.house.startingRoom {
      return;
    }
    Clear(h.path);
    h.returnToVan := false;
    if h.caseFile.solved {
      h.exitReason := LrEvidence;
      h.isRunning := false;
      return;
    }
    var oldDevice := h.device;
    var k := 0;
    var newDevice := AllEvidence[draws[k]];
    while newDevice == oldDevice
      invariant 0 <= k < |draws| && newDevice == AllEvidence[draws[k]]
      invariant forall j | 0 <= j < k :: AllEvidence[draws[j]] == oldDevice
      invariant k <= FirstOther(draws, oldDevice)
      decreases FirstOther(draws, oldDevice) - k
    {
      k := k + 1;
      newDevice := AllEvidence[draws[k]];
    }
    h.device := newDevice;
  }

  // ---------------------------------------------------------------- evidence

  /** The room a hunter stands in, as a frame. */
  ghost function Here(h: Hunter): set<Room>
    reads h`currentRoom
  {
    if h.currentRoom == null then {} else {h.currentRoom}
  }

  /**
   * The finding branch of hunter_gather_evidence: the device's flag moves from the room to the case
   * file, and the hunter heads back unless the room is the exit.
   */
  method TakeEvidence(h: Hunter, room: Room)
    requires h.caseFile.Valid() && Contains(room.evidence, h.device)
    modifies h`returnToVan, room`evidence, h.caseFile
    ensures h.caseFile.Valid()
    ensures room.evidence == Remove(old(room.evidence), h.device)
    ensures h.caseFile.collected == Add(old(h.caseFile.collected), h.device)
    ensures h.caseFile.solved == (old(h.caseFile.solved) || HasThreeUnique(h.caseFile.collected))
    ensures h.returnToVan == (old(h.returnToVan) || !room.isExit)
  {
    var had := Rooms.RemoveEvidence(room, h.device);
    assert had;
    if had {
      h.caseFile.AddEvidence(h.device);
      if !room.isExit {
        h.returnToVan := true;
      }
    }
  }

  /**
   * A hunter's fields after gathering in a room holding `clues`: finding the device's type outside
   * the exit room, or finding nothing with a give-up draw below the threshold, sends it back to the
   * van. A hunter in no room gathers nothing.
   */
  function Gathered(s: Status, clues: EvidenceByte, isExit: bool, giveUpDraw: int): Status
  {
    if s.room == null then s
    else s.(returning := s.returning || if Contains(clues, s.device) then !isExit else giveUpDraw < GIVE_UP_PERCENT)
  }

  /**
   * hunter_gather_evidence: a room holding the device's flag gives it up to the case file, and the
   * hunter heads back unless it is at the exit; an empty-handed hunter gives up with the drawn chance.
   */
  method GatherEvidence(h: Hunter, draw: int)
    requires h.caseFile.Valid()
    requires h.currentRoom != null && !Contains(h.currentRoom.evidence, h.device) ==> 0 <= draw < 100
    modifies h`returnToVan, Here(h)`evidence, h.caseFile
    ensures h.caseFile.Valid()
    ensures h.currentRoom == null ==> unchanged(h.caseFile) && h.returnToVan == old(h.returnToVan)
    ensures h.currentRoom != null && Contains(old(h.currentRoom.evidence), h.device) ==>
              h.currentRoom.evidence == Remove(old(h.currentRoom.evidence), h.device)
              && h.caseFile.collected == Add(old(h.caseFile.collected), h.device)
              && h.caseFile.solved == (old(h.caseFile.solved) || HasThreeUnique(h.caseFile.collected))
              && h.returnToVan == (old(h.returnToVan) || !h.currentRoom.isExit)
    ensures h.currentRoom != null && !Contains(old(h.currentRoom.evidence), h.device) ==>
              h.currentRoom.evidence == old(h.currentRoom.evidence) && unchanged(h.caseFile)
              && h.returnToVan == (old(h.returnToVan) || draw < GIVE_UP_PERCENT)
    ensures StatusOf(h) == Gathered(old(StatusOf(h)), old(Clues(h.currentRoom)), AtExit(h.currentRoom), draw)
  {
    var room := h.currentRoom;
    if room == null {
      return;
    }
    var has := Rooms.HasEvidence(room, h.device);
    if has {
      TakeEvidence(h, room);
    } else if draw < GIVE_UP_PERCENT {
      h.returnToVan := true;
    }
  }

  // ---------------------------------------------------------------- movement

  /** The hunter and every room on its path belong to the house's rooms. */
  ghost predicate Roams(h: Hunter, world: set<Room>)
    reads h`currentRoom, h.path
  {
    h.path.Valid()
    && (h.currentRoom != null ==> h.currentRoom in world)
    && forall r | r in h.path.Contents :: r in world
  }

  /** Each room on a path differs from the one reached from it, the first from `current`. */
  ghost predicate Chain(current: Room?, path: seq<Room>)
  {
    (path != [] ==> path[0] != current) && forall i | 0 < i < |path| :: path[i] != path[i - 1]
  }

  /** A hunter whose backtracking never names the room it is already in. */
  ghost predicate Retraceable(h: Hunter)
    reads h`currentRoom, h.path
  {
    Chain(h.currentRoom, h.path.Contents)
  }

  /** Stepping to a different room and pushing the room left keeps the path a chain. */
  lemma ChainPush(current: Room, path: seq<Room>, target: Room)
    requires Chain(current, path) && target != current
    ensures Chain(target, [current] + path)
  {
    forall i | 0 < i < |[current] + path|
      ensures ([current] + path)[i] != ([current] + path)[i - 1]
    {
      if i > 1 {
        assert ([current] + path)[i] == path[i - 1];
        assert ([current] + path)[i - 1] == path[i - 2];
      }
    }
  }

  /** Stepping back to the top of the path and popping it keeps the rest a chain. */
  lemma ChainPop(current: Room?, path: seq<Room>)
    requires Chain(current, path) && path != []
    ensures Chain(path[0], path[1..])
  {
    forall i | 0 < i < |path[1..]|
      ensures path[1..][i] != path[1..][i - 1]
    {
      assert path[1..][i] == path[i + 1];
    }
  }

  /** Moves the hunter from the room it is in to another room of the house with room_move_entity. */
  method Step(h: Hunter, here: Room, target: Room, ghost world: set<Room>) returns (moved: bool)
    requires Arena(world) && here in world && target in world && here != target && h.currentRoom == here
    modifies here`hunterCount, here`haunting, here.hunters, target`hunterCount, target`haunting, target.hunters
    modifies h`currentRoom
    ensures Arena(world) && h.currentRoom in world
    ensures here.haunting == old(here.haunting) && target.haunting == old(target.haunting)
    ensures moved == (old(target.hunterCount) < MAX_ROOM_OCCUPANCY)
    ensures moved ==>
              h.currentRoom == target
              && here.Occupants() == Rooms.RemoveFirst(old(here.Occupants()), h)
              && target.Occupants() == old(target.Occupants()) + [h]
    ensures !moved ==> unchanged(here, target, here.hunters, target.hunters, h)
  {
    moved := Rooms.MoveEntity(here, target, Rooms.HunterEntity(h));
  }

  /** The returning branch of hunter_move: step back to the top of the path, or give up the return when it is empty. */
  method Backtrack(h: Hunter, ghost world: set<Room>) returns (moved: bool)
    requires Arena(world) && Roams(h, world) && h.currentRoom != null && h.returnToVan
    requires h.path.Contents != [] ==> h.path.Contents[0] != h.currentRoom
    modifies world`hunterCount, world`haunting, Slots(world), h`currentRoom, h`returnToVan, h.path
    ensures Arena(world) && Roams(h, world)
    ensures forall r | r in world :: r.haunting == old(r.haunting)
    ensures old(h.path.Contents) == [] ==>
              !moved && !h.returnToVan && h.currentRoom == old(h.currentRoom) && h.path.Contents == []
    ensures old(h.path.Contents) != [] ==>
              moved == (old(h.path.Contents[0].hunterCount) < MAX_ROOM_OCCUPANCY)
              && h.returnToVan && h.path.Contents == old(h.path.Contents)[1..]
              && h.currentRoom == if moved then old(h.path.Contents)[0] else old(h.currentRoom)
    ensures moved ==>
              old(h.currentRoom) != null && h.currentRoom != null
              && old(h.currentRoom).Occupants() == Rooms.RemoveFirst(old(h.currentRoom.Occupants()), h)
              && (var target := h.currentRoom; target.Occupants() == old(target.Occupants()) + [h])
    ensures forall r | r in world && (!moved || (r != old(h.currentRoom) && r != h.currentRoom)) ::
              r.Occupants() == old(r.Occupants())
    ensures old(Retraceable(h)) && moved ==> Retraceable(h)
  {
    var here := h.currentRoom;
    ghost var path := h.path.Contents;
    var target := Pop(h.path);
    if target == null {
      h.returnToVan := false;
      return false;
    }
    moved := Step(h, here, target, world);
    if moved && old(Retraceable(h)) {
      ChainPop(here, path);
    }
  }

  /** The exploring branch of hunter_move: step to the drawn connection and push the room left. */
  method Explore(h: Hunter, ghost world: set<Room>, draw: int) returns (moved: bool)
    requires Arena(world) && Roams(h, world) && h.currentRoom != null && !h.returnToVan
    requires h.currentRoom.connectionCount > 0 ==> 0 <= draw < h.currentRoom.connectionCount
    modifies world`hunterCount, world`haunting, Slots(world), h`currentRoom, h.path
    ensures Arena(world) && Roams(h, world) && !h.returnToVan
    ensures forall r | r in world :: r.haunting == old(r.haunting)
    ensures old(h.currentRoom.connectionCount) == 0 ==> !moved && unchanged(h, h.path)
    ensures old(h.currentRoom.connectionCount) > 0 ==>
              moved == (old(h.currentRoom.Neighbours()[draw].hunterCount) < MAX_ROOM_OCCUPANCY)
              && h.currentRoom == (if moved then old(h.currentRoom.Neighbours()[draw]) else old(h.currentRoom))
              && h.path.Contents == if moved then [old(h.currentRoom)] + old(h.path.Contents) else old(h.path.Contents)
    ensures moved ==>
              old(h.currentRoom) != null && h.currentRoom != null
              && old(h.currentRoom).Occupants() == Rooms.RemoveFirst(old(h.currentRoom.Occupants()), h)
              && (var target := h.currentRoom; target.Occupants() == old(target.Occupants()) + [h])
    ensures forall r | r in world && (!moved || (r != old(h.currentRoom) && r != h.currentRoom)) ::
              r.Occupants() == old(r.Occupants())
    ensures old(Retraceable(h)) ==> Retraceable(h)
  {
    var here := h.currentRoom;
    ghost var path := h.path.Contents;
    var target := Rooms.RandomConnection(here, draw);
    if target == null {
      return false;
    }
    moved := Step(h, here, target, world);
    if moved {
      Push(h.path, here);
      if old(Retraceable(h)) {
        ChainPush(here, path, target);
      }
    }
  }

  /** The connection a draw picks in a room; none for a missing room or a draw outside its connections. */
  ghost function Drawn(room: Room?, draw: int): Room?
    requires room != null ==> room.Valid()
    reads Rooms.RoomOf(room)`connectionCount, set r | r in Rooms.RoomOf(room) :: r.connections
  {
    if room == null || !(0 <= draw < room.connectionCount) then null else room.connections[draw]
  }

  /**
   * The room a move heads for: the top of the path for a hunter heading back, the drawn
   * connection otherwise; none for a hunter in no room or heading back along an empty path.
   */
  function Aim(s: Status, neighbour: Room?): Room?
  {
    if s.room == null then null
    else if s.returning then (if s.path == [] then null else s.path[0])
    else neighbour
  }

  /**
   * A hunter's fields after hunter_move, given the drawn connection and whether the step into the
   * aimed-at room succeeded. Heading back pops the path whether or not the step succeeds, and ends
   * the return when the path is empty; exploring pushes the room left, on success only.
   */
  function Walked(s: Status, neighbour: Room?, moved: bool): Status
  {
    if s.room == null then s
    else if s.returning then
      if s.path == [] then s.(returning := false)
      else s.(room := if moved then s.path[0] else s.room, path := s.path[1..])
    else if moved && neighbour != null then
      var here: Room := s.room;
      s.(room := neighbour, path := [here] + s.path)
    else s
  }

  /**
   * A move keeps each room on the path different from the one reached from it, unless a step back
   * fails: the path is then popped while the hunter stays put.
   */
  lemma {:induction false} WalkedChain(s: Status, neighbour: Room?, moved: bool)
    requires Chain(s.room, s.path) && neighbour != s.room
    ensures var t := Walked(s, neighbour, moved);
            moved || !s.returning || s.path == [] ==> Chain(t.room, t.path)
  {
    if s.room != null && s.returning && s.path != [] && moved {
      ChainPop(s.room, s.path);
    } else if s.room != null && !s.returning && moved && neighbour != null {
      ChainPush(s.room, s.path, neighbour);
    }
  }

  /**
   * hunter_move: a returning hunter steps back to the top of its path (giving up the return when
   * the path is empty); an exploring one steps to the drawn connection and, on success, pushes the
   * room it left. Only a failed step back can leave the path naming the room the hunter is in.
   */
  method Move(h: Hunter, ghost world: set<Room>, draw: int) returns (moved: bool)
    requires Arena(world) && Roams(h, world)
    requires h.returnToVan && h.path.Contents != [] ==> h.path.Contents[0] != h.currentRoom
    requires h.currentRoom != null && !h.returnToVan && h.currentRoom.connectionCount > 0 ==>
               0 <= draw < h.currentRoom.connectionCount
    modifies world`hunterCount, world`haunting, Slots(world), h`currentRoom, h`returnToVan, h.path
    ensures Arena(world) && Roams(h, world)
    ensures forall r | r in world :: r.haunting == old(r.haunting)
    ensures old(h.currentRoom) == null ==> !moved && unchanged(h, h.path)
    ensures old(h.currentRoom) != null && old(h.returnToVan) && old(h.path.Contents) == [] ==>
              !moved && !h.returnToVan && h.currentRoom == old(h.currentRoom) && h.path.Contents == []
    ensures old(h.currentRoom) != null && old(h.returnToVan) && old(h.path.Contents) != [] ==>
              moved == (old(h.path.Contents[0].hunterCount) < MAX_ROOM_OCCUPANCY)
              && h.returnToVan && h.path.Contents == old(h.path.Contents)[1..]
              && h.currentRoom == if moved then old(h.path.Contents)[0] else old(h.currentRoom)
    ensures old(h.currentRoom) != null && !old(h.returnToVan) && old(h.currentRoom.connectionCount) == 0 ==>
              !moved && unchanged(h, h.path)
    ensures old(h.currentRoom) != null && !old(h.returnToVan) && old(h.currentRoom.connectionCount) > 0 ==>
              moved == (old(h.currentRoom.Neighbours()[draw].hunterCount) < MAX_ROOM_OCCUPANCY)
              && !h.returnToVan
              && h.currentRoom == (if moved then old(h.currentRoom.Neighbours()[draw]) else old(h.currentRoom))
              && h.path.Contents == if moved then [old(h.currentRoom)] + old(h.path.Contents) else old(h.path.Contents)
    ensures moved ==>
              old(h.currentRoom) != null && h.currentRoom != null
              && old(h.currentRoom).Occupants() == Rooms.RemoveFirst(old(h.currentRoom.Occupants()), h)
              && (var target := h.currentRoom; target.Occupants() == old(target.Occupants()) + [h])
    ensures forall r | r in world && (!moved || (r != old(h.currentRoom) && r != h.currentRoom)) ::
              r.Occupants() == old(r.Occupants())
    ensures old(Retraceable(h)) && (moved || !(old(h.returnToVan) && old(h.path.Contents) != [])) ==> Retraceable(h)
    ensures !moved ==> h.currentRoom == old(h.currentRoom)
    ensures old(Retraceable(h)) && (moved || !h.returnToVan) ==> Retraceable(h)
    ensures var target := Aim(old(StatusOf(h)), old(Drawn(h.currentRoom, draw)));
            moved == (target != null && old(target.hunterCount) < MAX_ROOM_OCCUPANCY)
    ensures StatusOf(h) == Walked(old(StatusOf(h)), old(Drawn(h.currentRoom, draw)), moved)
  {
    if h.currentRoom == null {
      return false;
    }
    if h.returnToVan {
      moved := Backtrack(h, world);
    } else {
      moved := Explore(h, world, draw);
    }
  }

  // ---------------------------------------------------------------- creation and one tick

  /** The starting room of a house, as a frame. */
  ghost function Start(house: House?): set<Room>
    reads house
  {
    if house == null || house.startingRoom == null then {} else {house.startingRoom}
  }

  /**
   * hunter_init: a hunter with the drawn device, listed in the house's starting room; there is no
   * hunter when the house has no starting room or that room is full.
   */
  method HunterInit(id: int, house: House?, deviceDraw: int) returns (hunter: Hunter?)
    requires house != null && house.startingRoom != null ==>
               house.startingRoom.Valid() && 0 <= deviceDraw < |AllEvidence|
    modifies Start(house)`hunterCount, set r | r in Start(house) :: r.hunters
    ensures house == null || house.startingRoom == null ==> hunter == null
    ensures house != null && house.startingRoom != null ==>
              (hunter == null <==> old(house.startingRoom.hunterCount) == MAX_ROOM_OCCUPANCY)
    ensures hunter == null && house != null && house.startingRoom != null ==>
              house.startingRoom.Occupants() == old(house.startingRoom.Occupants())
    ensures hunter != null ==>
              fresh(hunter) && fresh(hunter.path) && house != null
              && hunter.id == id && hunter.house == house && hunter.caseFile == house.caseFile
              && hunter.currentRoom == house.startingRoom && house.startingRoom != null
              && house.startingRoom.Occupants() == old(house.startingRoom.Occupants()) + [hunter]
              && hunter.device == AllEvidence[deviceDraw]
              && hunter.boredom == 0 && hunter.fear == 0 && hunter.path.Valid() && hunter.path.Contents == []
              && hunter.isRunning && !hunter.returnToVan && hunter.exitReason == LrBored
  {
    if house == null || house.startingRoom == null {
      return null;
    }
    hunter := new Hunter(id, house, AllEvidence[deviceDraw]);
    var added := Rooms.AddHunter(house.startingRoom, hunter);
    if !added {
      return null;
    }
  }

  /** Why a stopped hunter stopped, and that the reason held when it did. */
  ghost predicate StoppedFor(h: Hunter)
    reads h, h.house, h.caseFile
  {
    match h.exitReason
    case LrBored => h.boredom > ENTITY_BOREDOM_MAX
    case LrAfraid => h.fear > HUNTER_FEAR_MAX && h.boredom <= ENTITY_BOREDOM_MAX
    case LrEvidence =>
      h.caseFile.solved && h.currentRoom == h.house.startingRoom && ExitFor(Mood(h.boredom, h.fear)).None?
  }

  /**
   * A hunter's fields after the first half of a pass, given whether the ghost is in its room,
   * whether that room is the van's and whether the case is solved. The mood changes only in a
   * room. An exit the new mood calls for comes first and records its reason; otherwise at the van
   * the path is emptied and the return ends, and then a solved case stops the hunter with
   * LrEvidence while an unsolved one swaps to the first drawn type that differs from the device.
   */
  ghost function Settled(s: Status, haunted: bool, atVan: bool, solved: bool, swapDraws: seq<int>): Status
    requires atVan && !solved ==> Draws(swapDraws) && Swappable(swapDraws, s.device)
  {
    var mood := if s.room == null then s.mood else Felt(s.mood, haunted);
    match ExitFor(mood)
    case Some(why) => s.(mood := mood, running := false, reason := why)
    case None =>
      if !atVan then s.(mood := mood)
      else if solved then s.(mood := mood, path := [], returning := false, running := false, reason := LrEvidence)
      else s.(mood := mood, path := [], returning := false, device := AllEvidence[swapDraws[FirstOther(swapDraws, s.device)]])
  }

  /**
   * What the first half of a pass decides for a running hunter: it stays in its room and its mood
   * takes one update in a room; it stops exactly when the new mood calls for an exit or it is at
   * the van with a solved case, recording the mood's reason first and LrEvidence otherwise; a
   * hunter that goes on keeps its recorded reason, and at the van it has an empty path, is no
   * longer heading back and holds a different device; away from the van nothing else changes.
   */
  lemma SettledOutcome(s: Status, haunted: bool, atVan: bool, solved: bool, swapDraws: seq<int>)
    requires s.running
    requires atVan && !solved ==> Draws(swapDraws) && Swappable(swapDraws, s.device)
    ensures var t := Settled(s, haunted, atVan, solved, swapDraws);
            t.room == s.room
            && t.mood == (if s.room == null then s.mood else Felt(s.mood, haunted))
            && (!t.running <==> ExitFor(t.mood).Some? || (atVan && solved))
            && (!t.running ==> t.reason == if ExitFor(t.mood).Some? then ExitFor(t.mood).value else LrEvidence)
            && (t.running ==> t.reason == s.reason)
            && (t.running && atVan ==> t.path == [] && !t.returning && t.device != s.device)
            && (!atVan || ExitFor(t.mood).Some? ==> t == s.(mood := t.mood, running := t.running, reason := t.reason))
  {
  }

  /**
   * The first half of a pass of the hunter loop: mood update, exit check and van check. The
   * hunter stays where it is. It stops exactly when its new mood calls for an exit, or when it
   * is at the van with a solved case; at the van without an exit its path is emptied, its return
   * ends and, unless the case is solved, it swaps to another device.
   */
  method Settle(h: Hunter, swapDraws: seq<int>) returns (stopped: bool)
    requires h.isRunning && h.path.Valid()
    requires h.currentRoom == h.house.startingRoom && !h.caseFile.solved ==>
               Draws(swapDraws) && Swappable(swapDraws, h.device)
    modifies h`boredom, h`fear, h`exitReason, h`isRunning, h`device, h`returnToVan, h.path
    ensures h.path.Valid()
    ensures Mood(h.boredom, h.fear) ==
              if h.currentRoom == null then Mood(old(h.boredom), old(h.fear))
              else Felt(Mood(old(h.boredom), old(h.fear)), h.currentRoom.haunting != null)
    ensures stopped == !h.isRunning
    ensures stopped <==>
              ExitFor(Mood(h.boredom, h.fear)).Some? || (h.currentRoom == h.house.startingRoom && h.caseFile.solved)
    ensures stopped ==> StoppedFor(h)
    ensures ExitFor(Mood(h.boredom, h.fear)).Some? || h.currentRoom != h.house.startingRoom ==>
              h.path.Contents == old(h.path.Contents) && h.returnToVan == old(h.returnToVan) && h.device == old(h.device)
    ensures ExitFor(Mood(h.boredom, h.fear)).None? && h.currentRoom == h.house.startingRoom ==>
              h.path.Contents == [] && !h.returnToVan
    ensures !stopped && h.currentRoom == h.house.startingRoom ==>
              h.device == AllEvidence[swapDraws[FirstOther(swapDraws, old(h.device))]] && h.device != old(h.device)
    ensures old(Retraceable(h)) ==> Retraceable(h)
    ensures !stopped ==> h.exitReason == old(h.exitReason)
    ensures StatusOf(h) ==
              Settled(old(StatusOf(h)), old(Haunted(h.currentRoom)), old(h.currentRoom == h.house.startingRoom),
                      old(h.caseFile.solved), swapDraws)
  {
    UpdateStats(h);
    stopped := CheckExitConditions(h);
    if stopped {
      return;
    }
    VanCheck(h, swapDraws);
    stopped := !h.isRunning;
  }

  /**
   * The second half of a pass of the hunter loop: gather evidence, then move. The device's flag
   * moves from the room to the case file when the room holds it; otherwise the case file is left
   * alone. The move then follows the return flag as gathering left it. Ghosts stay where they are,
   * and the path stays retraceable unless a step back failed.
   */
  method Act(h: Hunter, ghost world: set<Room>, giveUpDraw: int, moveDraw: int) returns (moved: bool)
    requires Arena(world) && Roams(h, world) && Retraceable(h) && h.caseFile.Valid()
    requires 0 <= giveUpDraw < 100
    requires h.currentRoom != null && h.currentRoom.connectionCount > 0 ==>
               0 <= moveDraw < h.currentRoom.connectionCount
    modifies h`returnToVan, h`currentRoom, h.path, h.caseFile
    modifies world`hunterCount, world`haunting, Here(h)`evidence, Slots(world)
    ensures Arena(world) && Roams(h, world) && h.caseFile.Valid()
    ensures forall r | r in world :: r.haunting == old(r.haunting)
    ensures old(h.currentRoom) != null && Contains(old(h.currentRoom.evidence), h.device) ==>
              old(h.currentRoom).evidence == Remove(old(h.currentRoom.evidence), h.device)
              && h.caseFile.collected == Add(old(h.caseFile.collected), h.device)
              && h.caseFile.solved == (old(h.caseFile.solved) || HasThreeUnique(h.caseFile.collected))
    ensures old(h.currentRoom) == null || !Contains(old(h.currentRoom.evidence), h.device) ==>
              unchanged(h.caseFile)
    ensures old(h.currentRoom) != null && !Contains(old(h.currentRoom.evidence), h.device) ==>
              old(h.currentRoom).evidence == old(h.currentRoom.evidence)
    ensures var gathered := Gathered(old(StatusOf(h)), old(Clues(h.currentRoom)), AtExit(old(h.currentRoom)), giveUpDraw);
            var target := Aim(gathered, old(Drawn(h.currentRoom, moveDraw)));
            moved == (target != null && old(target.hunterCount) < MAX_ROOM_OCCUPANCY)
            && StatusOf(h) == Walked(gathered, old(Drawn(h.currentRoom, moveDraw)), moved)
    ensures moved ==>
              old(h.currentRoom) != null && h.currentRoom != null
              && old(h.currentRoom).Occupants() == Rooms.RemoveFirst(old(h.currentRoom.Occupants()), h)
              && (var target := h.currentRoom; target.Occupants() == old(target.Occupants()) + [h])
    ensures !moved ==> h.currentRoom == old(h.currentRoom)
    ensures forall r | r in world && (!moved || (r != old(h.currentRoom) && r != h.currentRoom)) ::
              r.Occupants() == old(r.Occupants())
    ensures moved || !h.returnToVan ==> Retraceable(h)
  {
    ghost var here, kept := h.currentRoom, h.path.Contents;
    GatherEvidence(h, giveUpDraw);
    assert h.currentRoom == here && h.path.Contents == kept;
    moved := Move(h, world, moveDraw);
  }

  /**
   * One pass of the hunter loop: mood update, exit check, van check, evidence, movement. The
   * hunter stops exactly when its new mood calls for an exit or it is at the van with a solved
   * case, and then its fields are those of Settled and neither the case file nor its room
   * changes. Otherwise the device's flag moves from the room to the case file when the room holds
   * it, and the hunter's fields follow Gathered and Walked from the settled ones. Ghosts stay
   * where they are, and the path stays retraceable unless a step back failed.
   */
  method Tick(h: Hunter, ghost world: set<Room>, swapDraws: seq<int>, giveUpDraw: int, moveDraw: int)
    returns (stopped: bool, moved: bool)
    requires h.isRunning
    requires Arena(world) && Roams(h, world) && Retraceable(h) && h.caseFile.Valid()
    requires h.currentRoom == h.house.startingRoom && !h.caseFile.solved ==>
               Draws(swapDraws) && Swappable(swapDraws, h.device)
    requires 0 <= giveUpDraw < 100
    requires h.currentRoom != null && h.currentRoom.connectionCount > 0 ==>
               0 <= moveDraw < h.currentRoom.connectionCount
    modifies h`boredom, h`fear, h`exitReason, h`isRunning, h`device, h`returnToVan, h`currentRoom
    modifies h.path, h.caseFile, world`hunterCount, world`haunting, Here(h)`evidence, Slots(world)
    ensures Arena(world) && Roams(h, world) && h.caseFile.Valid()
    ensures stopped ==> unchanged(h.caseFile) && !moved
    ensures forall r | r in world :: r.haunting == old(r.haunting)
    ensures !stopped && old(h.currentRoom) != null && Contains(old(h.currentRoom.evidence), h.device) ==>
              old(h.currentRoom).evidence == Remove(old(h.currentRoom.evidence), h.device)
              && h.caseFile.collected == Add(old(h.caseFile.collected), h.device)
              && h.caseFile.solved == (old(h.caseFile.solved) || HasThreeUnique(h.caseFile.collected))
    ensures !stopped && (old(h.currentRoom) == null || !Contains(old(h.currentRoom.evidence), h.device)) ==>
              unchanged(h.caseFile)
    ensures old(h.currentRoom) != null && (stopped || !Contains(old(h.currentRoom.evidence), h.device)) ==>
              old(h.currentRoom).evidence == old(h.currentRoom.evidence)
    ensures var settled := Settled(old(StatusOf(h)), old(Haunted(h.currentRoom)), old(h.currentRoom == h.house.startingRoom),
                                   old(h.caseFile.solved), swapDraws);
            stopped == !settled.running && (stopped ==> StatusOf(h) == settled)
    ensures var settled := Settled(old(StatusOf(h)), old(Haunted(h.currentRoom)), old(h.currentRoom == h.house.startingRoom),
                                   old(h.caseFile.solved), swapDraws);
            var gathered := Gathered(settled, old(Clues(h.currentRoom)), AtExit(old(h.currentRoom)), giveUpDraw);
            var target := Aim(gathered, old(Drawn(h.currentRoom, moveDraw)));
            !stopped ==>
              moved == (target != null && old(target.hunterCount) < MAX_ROOM_OCCUPANCY)
              && StatusOf(h) == Walked(gathered, old(Drawn(h.currentRoom, moveDraw)), moved)
    ensures moved ==>
              old(h.currentRoom) != null && h.currentRoom != null
              && old(h.currentRoom).Occupants() == Rooms.RemoveFirst(old(h.currentRoom.Occupants()), h)
              && (var target := h.currentRoom; target.Occupants() == old(target.Occupants()) + [h])
    ensures !moved ==> h.currentRoom == old(h.currentRoom)
    ensures forall r | r in world && (!moved || (r != old(h.currentRoom) && r != h.currentRoom)) ::
              r.Occupants() == old(r.Occupants())
    ensures stopped || moved || !h.returnToVan ==> Retraceable(h)
  {
    stopped := Settle(h, swapDraws);
    if stopped {
      moved := false;
      return;
    }
    assert h.currentRoom == old(h.currentRoom) && unchanged(h.caseFile);
    assert h.currentRoom != null ==>
             h.currentRoom.evidence == old(h.currentRoom.evidence) && h.currentRoom.Occupants() == old(h.currentRoom.Occupants());
    assert forall r | r in world :: r.Occupants() == old(r.Occupants());
    ghost var target := Aim(Gathered(StatusOf(h), Clues(h.currentRoom), AtExit(h.currentRoom), giveUpDraw), Drawn(h.currentRoom, moveDraw));
    assert target != null ==> target.hunterCount == old(target.hunterCount);
    assert Clues(h.currentRoom) == old(Clues(h.currentRoom)) && Drawn(h.currentRoom, moveDraw) == old(Drawn(h.currentRoom, moveDraw));
    moved := Act(h, world, giveUpDraw, moveDraw);
  }
}
