/**
 * The single-slot memo caches of the engine (`_remove_bg_cache` and
 * `_dominant_color_cache`): either empty or one (hash, value) pair. A miss
 * that stores evicts whatever was there.
 */
module SingleSlot {
  import opened Wrappers

  datatype Slot<V> = Empty | Entry(key: int, value: V)

  /** The cached value when the slot holds an entry for `key`. */
  function Lookup<V>(slot: Slot<V>, key: int): (r: Option<V>)
    ensures r.Some? <==> slot.Entry? && slot.key == key
    ensures r.Some? ==> r.value == slot.value
  {
    if slot.Entry? && slot.key == key then Some(slot.value) else None
  }
}
