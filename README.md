# Ghost hunt: a verified model of the simulation core

The simulation puts one ghost and several hunters in a house of connected rooms. The ghost
drifts between rooms and leaves evidence behind. Each evidence type is one bit of an
`EvidenceByte`, and each of the 24 ghost types is the OR of three such bits. Each hunter
carries one detection device. A hunter wanders the house, collects the evidence its device
detects into a case file shared by all hunters, and walks back to the van along the path it
recorded. The case is solved once three distinct evidence types are in the case file. Hunters
leave when bored, afraid, or when they are back at the van with a solved case. The ghost leaves
when it has been bored for too long.

The model covers the sequential logic of these pieces, one Dafny module per source file:

- `Defs` (defs.h): the constants, the seven evidence flags, the ghost-type table, and the
  post-run identification of a ghost type from the collected mask.
- `Evidence` (evidence.c): the mask operations, the unique count, and the `CaseFile` class.
- `Records` (defs.h): the record layouts as classes, with the field initialisation of each
  `*_init` function as a constructor. A room's occupant and connection slots are fixed arrays
  of length 8. The house's hunter collection is a growable array.
- `Rooms` (room.c): connections, occupant lists, the ghost slot, room evidence, and
  `room_move_entity`.
- `Hunters` (hunter.c): the linked path stack; the mood, exit, van, evidence and movement
  steps; creation of a hunter; and one pass of the hunter loop.
- `Ghosts` (ghost.c): placement, boredom, the exit check, the three actions, and one pass of
  the ghost loop.
- `Houses` (house.c): the doubling append to the hunter collection.

Every random draw (`rand_int_threadsafe`) is a method parameter, with a precondition giving the
range the source draws from. The evidence and ghost-type lists that the helper module hands
out are the constants `AllEvidence` and `AllGhostTypes`: every enumerator once, in declaration
order. Helper code outside the named files (`helpers.h`, `main.c`) is not part of this model,
apart from the identification loop of main.c.

Rooms in the source embed their slot arrays, so two rooms never share one. Operations that
touch several rooms take a ghost set `world` of the house's rooms and require `Arena(world)`:
every room has its own slot arrays, and every connection leads to another room of the house.
`Symmetric(world)` says connections are listed both ways. `Connect` preserves it.

## Model

| member | source | states |
|---|---|---|
| Defs.FlagIsSingleBit | defs.h:17-33 | each evidence enumerator is a nonzero single bit below 1 << 7, so it leaves the top bit clear |
| Defs.FlagsDisjoint | defs.h:25-33 | two evidence flags share a bit exactly when they are the same flag |
| Defs.AllEvidenceComplete | defs.h:25-33 | the evidence list names every evidence type |
| Defs.AllEvidenceDistinct | defs.h:25-33 | the evidence list names no type twice |
| Defs.EvidencesDistinct | defs.h:35-60 | the three evidence types of each ghost type are pairwise distinct |
| Defs.MaskIsFlags | defs.h:35-60 | each ghost-type enumerator is the OR of the flags of its three evidence types |
| Defs.MaskInjective | defs.h:36-59 | two ghost types have the same value exactly when they are the same type, so a mask names at most one ghost type |
| Defs.AllGhostTypesComplete | defs.h:35-60 | the ghost-type list names every ghost type |
| Defs.Identify | main.c:152-157 | the lookup finds a ghost type whose value equals the collected mask, and finds none exactly when no ghost type has that value |
| Evidence.Contains | evidence.c:14-16 | defined as the flag's bit being set in the mask; FlagContains and ContainsOr give what it holds for a single flag and for an OR of masks |
| Evidence.ContainsOr | evidence.c:14-16 | a flag is in the OR of two masks exactly when it is in one of them |
| Evidence.FlagContains | evidence.c:14-16 | a single flag contains exactly its own evidence type |
| Evidence.Add | evidence.c:6-8 | defined as the mask OR the flag; AddSpec proves the result holds the added type and every type of the input and nothing else, with the spare bit kept |
| Evidence.Remove | evidence.c:10-12 | defined as the mask AND NOT the flag; RemoveSpec proves the result holds every type of the input except the removed one, with the spare bit kept |
| Evidence.AddSpec | evidence.c:6-8 | the added mask holds the added flag and every flag of the input, nothing else, and keeps the top bit |
| Evidence.RemoveSpec | evidence.c:10-12 | the removed mask lacks the given flag and keeps every other flag and the top bit |
| Evidence.MaskExtensional | defs.h:17 | two masks agreeing on the seven flags and the top bit are equal |
| Evidence.RemoveUndoesAdd | evidence.c:6-12 | removing a flag that was absent before it was added gives the original mask |
| Evidence.AddIdempotent | evidence.c:6-8 | adding the same flag twice equals adding it once |
| Evidence.AddUndoesRemove | evidence.c:6-12 | adding back a removed flag that was present restores the mask |
| Evidence.PresentIn | evidence.c:23-27 | the flags of a type list that a mask holds number at most the list's length |
| Evidence.PresentInHolds | evidence.c:23-27 | a type is listed as present exactly when it is in the list and the mask holds it |
| Evidence.TallyIsPresent | evidence.c:18-33 | the flag-by-flag tally behind evidence_has_three_unique equals the length of the present list |
| Evidence.PresentInDistinct | evidence.c:23-27 | filtering a list without repeats gives a list without repeats |
| Evidence.PresentCountsFlags | evidence.c:18-29 | the unique count is the number of distinct evidence types the mask holds, at most seven |
| Evidence.PresentInMonotone | evidence.c:23-27 | a mask whose bits lie inside another's has no larger count |
| Evidence.AddMonotone | evidence.c:57-61 | adding a flag never lowers the unique count |
| Evidence.HasThreeUnique | evidence.c:31-33 | defined as a tally of the seven flags of at least 3; CountUnique proves this equal to the loop count of evidence_count_unique being at least 3 |
| Evidence.CountUnique | evidence.c:18-33 | the counting loop returns the number of distinct types the mask holds, in 0..7, and has-three-unique holds exactly when that number is at least 3 |
| Evidence.EmptyMaskHoldsNone | evidence.c:43-47 | the empty mask holds no evidence type |
| Evidence.ThreeFlagsHold | defs.h:35-60 | the OR of three flags holds exactly those three types and leaves the top bit clear |
| Evidence.ThreeFlags | defs.h:35-60 | the OR of three distinct flags holds a set of exactly three types |
| Evidence.GhostTypeHasThree | defs.h:35-60 | every ghost type's value holds exactly its three evidence types, has unique count 3, and uses only bits 0..6 |
| Evidence.CollectHoldsAdded | evidence.c:53-63 | the mask built by repeated adds holds exactly the added types |
| Evidence.CollectSpareClear | evidence.c:53-63 | a mask built by repeated adds from zero never has the top bit set |
| Evidence.CollectSolves | evidence.c:53-63 | after any sequence of adds, has-three-unique holds exactly when at least three distinct types were added |
| Evidence.CaseFile.constructor | evidence.c:43-52 | a fresh case file has nothing collected and is unsolved |
| Evidence.CaseFile.AddEvidence | evidence.c:53-63 | collected becomes the old mask OR the flag; solved becomes true once three distinct types are collected and never reverts |
| Evidence.IsSolved | evidence.c:65-72 | returns the solved flag, false for a missing case file, and on a valid file that means three or more distinct types |
| Evidence.GetEvidence | evidence.c:74-81 | returns the collected mask, 0 for a missing case file |
| Records.Room.constructor | room.c:8-16 | a fresh room has no connections, occupants, ghost or evidence, and the given exit flag |
| Records.RoomNode.constructor | hunter.c:19-23 | a new node puts its room on top of the rooms below it |
| Records.RoomStack.constructor | hunter.c:12-15 | a fresh stack is empty |
| Records.Hunter.constructor | hunter.c:53-63 | a new hunter is in no room yet, with zero mood, an empty path, running and not returning |
| Records.Ghost.constructor | ghost.c:17-28 | a new ghost has the default id, the given type and room, zero boredom, and is running |
| Records.House.constructor | house.c:7-26 | a fresh house has an empty unsolved case file, no hunters with capacity 4, no rooms, and no ghost or starting room |
| Rooms.RemoveFirstAt | room.c:52-60 | removing the first occurrence, found at i, closes the gap and keeps the order of the others |
| Rooms.RemoveFirstAbsent | room.c:52-60 | a list without the hunter is unchanged |
| Rooms.RemoveFirstCounts | room.c:52-60 | removal takes out exactly one copy of a listed hunter and nothing when it is absent |
| Rooms.Link | room.c:32-33 | one side of a connection: the other room is appended to the connection list |
| Rooms.Connect | room.c:22-34 | when both rooms have a free slot each is appended to the other's list; otherwise neither changes; symmetry of connections is preserved |
| Rooms.Enlist | room.c:43-44 | the hunter is appended to the occupants and points at the room |
| Rooms.Unlist | room.c:52-60 | the in-place shift leaves the occupants with the hunter's first listing removed and the rest in order |
| Rooms.AddHunter | room.c:36-47 | a full room, or a missing room or hunter, refuses and nothing changes; otherwise the hunter is appended and points at the room |
| Rooms.RemoveHunter | room.c:49-63 | the first listing is removed and the rest keep their order; the count drops by one exactly when the hunter was listed; the hunter points nowhere |
| Rooms.SetGhost | room.c:65-73 | the ghost slot holds the given ghost, which then points at the room |
| Rooms.RemoveGhost | room.c:75-83 | the ghost slot is emptied and the ghost that was there points nowhere |
| Rooms.AddEvidence | room.c:85-90 | the room's evidence becomes the old mask OR the flag |
| Rooms.RemoveEvidence | room.c:92-101 | reports whether the flag was present; afterwards it is absent and every other bit is kept |
| Rooms.HasEvidence | room.c:103-109 | reports whether the room holds the flag, false for a missing room |
| Rooms.Transfer | room.c:130-143 | the hunter leaves its first listing in the old room and is appended to the new one; the total of the two counts is kept |
| Rooms.MoveEntity | room.c:112-149 | the ghost always moves and takes the ghost slot with it; a hunter moves exactly when the target has a free slot; a failed move changes nothing; the rooms' ghosts are untouched by a hunter move |
| Rooms.RandomConnection | room.c:151-155 | a missing room or one without connections gives null; otherwise the drawn listed connection |
| Hunters.Push | hunter.c:17-24 | the room goes on top of the path; a missing room or stack is ignored |
| Hunters.Pop | hunter.c:26-33 | returns the top room and leaves the rest; an empty or missing stack gives null and stays empty |
| Hunters.Clear | hunter.c:35-40 | the stack is empty afterwards |
| Hunters.IsEmpty | hunter.c:42-44 | true exactly when the stack is missing or holds no room |
| Hunters.PushAll | hunter.c:17-24 | pushing rooms in order leaves them on the stack last first |
| Hunters.Retrace | hunter.c:17-44 | pushing rooms and popping until empty returns them in reverse order and ends with an empty stack |
| Hunters.DriftBounded | hunter.c:86-95 | after n updates boredom and fear are each at most their start plus n |
| Hunters.NoEarlyExit | hunter.c:86-114 | a fresh hunter cannot be told to exit within its first fifteen updates |
| Hunters.DriftAlone | hunter.c:86-95 | n updates without the ghost add n to boredom and leave fear at zero |
| Hunters.DriftHaunted | hunter.c:86-95 | n updates beside the ghost add n to fear and keep boredom at zero |
| Hunters.BoredExit | hunter.c:86-114 | a fresh hunter who never meets the ghost is told to leave bored exactly from the sixteenth update on |
| Hunters.AfraidExit | hunter.c:86-114 | a fresh hunter who stays beside the ghost is told to leave afraid exactly from the sixteenth update on |
| Hunters.UpdateStats | hunter.c:86-95 | with the ghost in the room boredom resets and fear grows by one; otherwise boredom grows and fear resets; a hunter in no room keeps both |
| Hunters.CheckExitConditions | hunter.c:97-114 | exits exactly when boredom or fear is above 15, with boredom checked first, recording the reason and stopping; 15 itself does not exit |
| Hunters.FirstOther | hunter.c:135-137 | the draw the device swap settles on is the first naming a type different from the current device |
| Hunters.VanCheck | hunter.c:116-141 | outside the starting room nothing changes; in it the path is emptied and the return ends, then a solved case stops the hunter with reason evidence, and otherwise the device becomes the first drawn type different from the old one |
| Hunters.TakeEvidence | hunter.c:146-156 | the device's flag moves from the room to the case file, solved latches, and the hunter heads back unless the room is the exit |
| Hunters.GatherEvidence | hunter.c:144-163 | a room holding the device's flag gives it up to the case file and the hunter heads back unless the room is the exit; otherwise the hunter heads back exactly when the draw is below 10; a hunter already heading back keeps heading back, and no other field of the hunter changes |
| Hunters.ChainPush | hunter.c:180-186 | pushing the room left after a step to a different room keeps every path entry different from the room reached from it |
| Hunters.ChainPop | hunter.c:170-180 | popping the room stepped back to keeps that property for the rest of the path |
| Hunters.Step | hunter.c:180 | the hunter moves to the target exactly when it has a free slot, leaving its listing in the old room; a failed step changes nothing |
| Hunters.Backtrack | hunter.c:170-187 | a returning hunter with an empty path stops returning and stays; otherwise the top room is popped and the hunter steps to it when it has room, without pushing; every room other than the one left and the one entered keeps its occupant list, and all keep theirs when there is no move |
| Hunters.Explore | hunter.c:176-187 | an exploring hunter steps to the drawn connection when it has room and then pushes the room it left; without connections nothing changes; every room other than the one left and the one entered keeps its occupant list, and all keep theirs when there is no move |
| Hunters.Move | hunter.c:166-188 | both branches of hunter_move as above: the room aimed at is the top of the path when heading back and the drawn connection otherwise, the move succeeds exactly when that room has a free slot, heading back pops the path even when the step fails, and exploring pushes the room left only on success; ghosts are never moved; a step back that succeeds, or any exploring step, keeps the path retraceable; every room other than the one left and the one entered keeps its occupant list, and all keep theirs when there is no move |
| Hunters.WalkedChain | hunter.c:166-188 | a move keeps every path entry different from the room reached from it, except after a step back that fails |
| Hunters.HunterInit | hunter.c:46-78 | no hunter without a starting room or when it is full; otherwise a fresh hunter with the drawn device, listed in the starting room, with zero mood, an empty path, running and not returning |
| Hunters.Settle | hunter.c:196-204 | the first half of a pass: in a haunted room boredom resets and fear grows by one, in any other room boredom grows by one and fear resets, and a hunter in no room keeps its mood; the hunter stops exactly when that mood calls for an exit or it is at the van with a solved case, recording bored, afraid or evidence exactly as the mood and the van call for, and a hunter that goes on keeps its recorded reason; at the van without an exit the path is emptied, the return ends and an unsolved case swaps to the first drawn other device; elsewhere path, return and device are kept; the room never changes; the path stays retraceable |
| Hunters.SettledOutcome | hunter.c:196-204 | for a running hunter the first half of a pass keeps the room, applies one mood update in a room, stops exactly on an exit mood or a solved case at the van, records the mood's reason before evidence, keeps the old reason when going on, and away from the van or on an exit changes nothing but mood, running and reason |
| Hunters.Act | hunter.c:205-206 | the second half of a pass: the device's flag moves from the room to the case file when the room holds it, solved becoming true at three types and never reverting, and otherwise the case file and the room's evidence are untouched, as is every other room's; the return flag is then set as in GatherEvidence, and the move aims at the top of the path or the drawn connection according to that flag, succeeds exactly when the aimed-at room has a free slot, and pops or pushes the path as in Move; the move takes the hunter off the old room's list and onto the end of the new one's, no move leaves every list alone; ghosts never move; the path stays retraceable unless a step back failed; every room other than the one left and the one entered keeps its occupant list, and all keep theirs when there is no move |
| Hunters.Tick | hunter.c:196-206 | one pass: the hunter's fields after the mood update, exit check and van check are exactly those of Settle, and a stopped hunter ends there, without touching the case file, any room's evidence or any listing; otherwise evidence, the return flag and the move follow Act from that state, aiming at the top of the path or the drawn connection, and a move takes the hunter off the old room's list and onto the end of the new one's; ghosts never move; the path stays retraceable unless a step back failed, so passes chain; every room other than the one left and the one entered keeps its occupant list, and all keep theirs when there is no move |
| Ghosts.Init | ghost.c:12-35 | no ghost for a missing house or one without rooms; otherwise a fresh ghost of the drawn type, with the default id, placed in the drawn room, which holds it, with zero boredom and running |
| Ghosts.DriftIsSolitude | ghost.c:44-51 | boredom counts the updates since a hunter last shared the room, plus the start value if none ever did |
| Ghosts.LeavesOnlyWhenAlone | ghost.c:44-61 | a fresh ghost is due to leave exactly when more than fifteen updates in a row found no hunter in its room |
| Ghosts.UpdateStats | ghost.c:44-51 | a room with a hunter resets boredom, an empty one adds one; a ghost in no room keeps its boredom |
| Ghosts.CheckExitCondition | ghost.c:53-61 | exits exactly when boredom is above 15, and then stops running |
| Ghosts.AvailableEvidence | ghost.c:71-80 | the filtering loop lists exactly the helper-list types the ghost's mask holds, in order, never more than the seven slots |
| Ghosts.DepositIsOwn | ghost.c:70-88 | the evidence list of every ghost type has three entries, each one of that type's own three types |
| Ghosts.Deposit | ghost.c:70-88 | the room's evidence becomes the old mask OR the drawn type of the ghost's own |
| Ghosts.Wander | ghost.c:90-102 | a ghost alone in a room with connections moves to the drawn one and the old room loses it; otherwise it stays; no hunter listing changes |
| Ghosts.TakeAction | ghost.c:63-104 | idle changes nothing; the evidence action adds one of the ghost's own types to its room's evidence and changes nothing else; the move action moves the ghost to the drawn connection exactly when no hunter shares its room, leaves the haunting of every other room and all evidence alone; hunters never move |
| Ghosts.GetEvidenceRequirements | ghost.c:123-126 | the ghost's type read as a mask, which holds three types and uses bits 0..6 only; 0 for a missing ghost |
| Ghosts.Tick | ghost.c:110-115 | one pass: boredom resets when a hunter shares the room and grows by one otherwise; a stop happens exactly when boredom is then above 15 and changes nothing else; otherwise the action has the effect stated on TakeAction; hunters never move |
| Houses.CapacityBounds | house.c:59-67 | after n appends the capacity is at least n, stays 4 up to four hunters, and is below 2n beyond that |
| Houses.Append | house.c:56-68 | the hunter is stored after the existing ones, which stay in place; a full array first doubles; a failed growth, a missing house or a missing hunter changes nothing; count never exceeds capacity |

## Left out

- Threads, semaphores and lock ordering. Every operation is modelled as atomic. The
  unsynchronised cross-thread reads of another room's counts are therefore not modelled.
- The thread loops. `Hunters.Tick` and `Ghosts.Tick` model one pass of `hunter_thread` and
  `ghost_thread`. The `nanosleep` pause and the final `room_remove_hunter` when a hunter's loop
  ends are not modelled as a loop. The removal itself is `Rooms.RemoveHunter`.
- Logging and console output: every `log_*` call, `printf` and `fprintf`.
- Names: the `strncpy` copies of room and hunter names.
- Randomness and the helper lists. Draws are parameters. `evidence_get_random_type`
  (evidence.c:35-41) is a random helper and is not modelled.
- Allocation failure, except the failed growth in `Houses.Append`. Failure to allocate a node
  in `roomstack_push`, or a record in `hunter_init`, `ghost_init` or `house_init`, is not
  modelled.
- The cleanup functions `room_cleanup`, `casefile_cleanup`, `hunter_cleanup`, `ghost_cleanup`
  and `house_cleanup`: they only free memory and destroy semaphores.
- Integer overflow: boredom, fear and the collection capacity are unbounded integers.
  Boredom and fear can only wrap after more than two billion passes.
- Null hunters and ghosts. The hunter and ghost step functions return at once on a null
  record. They take non-null records here because the thread functions only ever pass live
  ones. A hunter or ghost that is in no room is modelled.
- Rooms.Connect: takes non-null rooms and requires two different rooms. Connecting a room to
  itself with seven connections would write past the connection array.
- Rooms.MoveEntity: requires `from != to`. Moving within one room waits twice on the same
  semaphore in the source, and the ghost's move guards against it. The null guards are not
  modelled either. A ghost entity must be the one in `from`'s ghost slot. The source treats
  any other pointer as a hunter.
- Hunters.Tick: requires that the top of the path is never the room the hunter is in (the
  `Retraceable` property). Exploring keeps this property, and so does a step back that
  succeeds. A step back that fails because the target is full has already popped that room,
  so the next pop may name the hunter's own room, and that move would wait twice on one
  semaphore. It needs a full neighbouring room (eight hunters there) while this hunter is
  elsewhere, which the registration limit of eight hunters rules out. `Hunters.Move` states
  exactly when the property is kept.
- Hunters.VanCheck: the do-while swap ends only with probability one. The draws are a
  sequence, which must contain a type different from the current device.
- The house's ghost slot. `ghost_init` does not store the new ghost in the house, and main.c:27
  discards the pointer it returns, so the slot stays null. `Ghosts.Init` leaves the house
  unchanged to match. Thread creation and result printing, the later readers of that slot,
  are not modelled.
- The rest of `main.c`: registration input, thread creation and joining, and result
  printing.
