/** The house's growable hunter collection. */
module Houses {
  import opened Records

  /** The house and its hunter array, as a frame. */
  ghost function Collection(house: House?): set<object>
    reads house
  {
    if house == null then {} else {house as object, house.hunters as object}
  }

  /** The capacity after one append to a collection of `count` hunters: a full array doubles. */
  function Grown(capacity: int, count: int): int
  {
    if count < capacity then capacity else 2 * capacity
  }

  /** The capacity of a fresh house's collection after `n` appends that all succeed. */
  function CapacityAfter(n: nat): int
  {
    if n == 0 then INITIAL_HUNTER_CAPACITY else Grown(CapacityAfter(n - 1), n - 1)
  }

  /**
   * Doubling keeps every registered hunter in the array and wastes less than half of it: after
   * `n` appends the capacity is at least `n`, stays at the initial four up to four hunters, and
   * is below `2 * n` beyond that.
   */
  lemma {:induction false} CapacityBounds(n: nat)
    ensures n <= CapacityAfter(n)
    ensures n <= INITIAL_HUNTER_CAPACITY ==> CapacityAfter(n) == INITIAL_HUNTER_CAPACITY
    ensures n > INITIAL_HUNTER_CAPACITY ==> CapacityAfter(n) < 2 * n
  {
    if n > 0 {
      CapacityBounds(n - 1);
    }
  }

  /**
   * hunter_collection_append: stores the hunter after the ones already registered. A full array
   * is first replaced by one of twice the capacity holding the same hunters; when that allocation
   * fails (`reallocOk` is false) nothing changes, and neither does a missing house or hunter.
   */
  method Append(house: House?, hunter: Hunter?, reallocOk: bool)
    requires house != null ==> house.Valid()
    modifies Collection(house)
    ensures house != null ==> house.Valid()
    ensures house != null && hunter == null ==> unchanged(house, old(house.hunters))
    ensures house != null && hunter != null && old(house.hunterCount) == old(house.hunterCapacity) && !reallocOk ==>
              unchanged(house, old(house.hunters))
    ensures house != null && hunter != null && (old(house.hunterCount) < old(house.hunterCapacity) || reallocOk) ==>
              house.Members() == old(house.Members()) + [hunter]
              && house.hunterCapacity == Grown(old(house.hunterCapacity), old(house.hunterCount))
    ensures house != null ==>
              house.roomCount == old(house.roomCount)
              && house.haunting == old(house.haunting) && house.startingRoom == old(house.startingRoom)
  {
    if house == null || hunter == null {
      return;
    }
    if house.hunterCount >= house.hunterCapacity {
      if !reallocOk {
        return;
      }
      var newCapacity := house.hunterCapacity * 2;
      var grown := new Hunter?[newCapacity](_ => null);
      forall k | 0 <= k < house.hunterCount {
        grown[k] := house.hunters[k];
      }
      house.hunters := grown;
      house.hunterCapacity := newCapacity;
    }
    house.hunters[house.hunterCount] := hunter;
    house.hunterCount := house.hunterCount + 1;
  }
}
