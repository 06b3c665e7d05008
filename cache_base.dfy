/** What the two policies share: the `Cache` base class of main.cpp holds
    only the capacity, an `int`. */
module CacheBase {

  /** The C++ test `container.size() == capacity` compares a `size_t` with an
      `int`: the capacity is converted to an unsigned value, so a negative
      capacity turns into a number no container size ever reaches. */
  predicate SizeReached(size: nat, capacity: int) {
    0 <= capacity && size == capacity
  }
}
