/** The bounds-checked subscript `array[safe: index]`. */
module ArrayExtensions {
  import opened Wrappers

  /** Total lookup: the element at `index` when the index lies in the array, and nothing otherwise. */
  function SafeGet<T>(a: seq<T>, index: int): (r: Option<T>)
    ensures r.Some? <==> 0 <= index < |a|
    ensures r.Some? ==> r.value == a[index]
  {
    if 0 <= index < |a| then Some(a[index]) else None
  }

  /** An element found by the safe subscript is an element of the array. */
  lemma SafeGetFindsMember<T>(a: seq<T>, index: int, x: T)
    requires SafeGet(a, index) == Some(x)
    ensures x in a
  {
  }
}
