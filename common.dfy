/**
 * Definitions shared by both hash maps.
 */
module Common {

  /** A value that may be absent.  The maps store `Option<V>` because the
      source stores arbitrary objects, `None` among them, and its lookups
      answer `None` for a missing key. */
  datatype Option<T> = None | Some(value: T)

  /** `table_load() >= num / den`: the floating-point load factor test of the
      source, decided exactly on integers. */
  function LoadAtLeast(size: nat, capacity: nat, num: nat, den: nat): (r: bool)
    requires capacity > 0 && den > 0
    ensures r <==> (size as real) / (capacity as real) >= (num as real) / (den as real)
  {
    size * den >= num * capacity
  }
}
