/**
  The shared abstractions of src/lib.rs: the key-value pair behind `MapEntry`,
  the fixed-size backing array behind `Array`, and the slot of that array,
  which is either uninitialised or holds one value (the `MaybeUninit` storage
  the containers keep their elements in).
*/
module Lib {

  /** One cell of a backing array: no value yet (or moved out) or one live value. */
  datatype Slot<T> = Uninit | Init(item: T)

  // ---- MapEntry, implemented for the pair type (K, V) ----

  /** `MapEntry::new`: build an entry from a key and a value. */
  function New<K, V>(k: K, v: V): (K, V) {
    (k, v)
  }

  /** `MapEntry::into_pair`: the entry taken apart into its key and value. */
  function IntoPair<K, V>(e: (K, V)): (K, V) {
    e
  }

  /** `MapEntry::key`. */
  function Key<K, V>(e: (K, V)): K {
    e.0
  }

  /** `MapEntry::value`. */
  function Value<K, V>(e: (K, V)): V {
    e.1
  }

  /** `MapEntry::value_mut`, followed by a write `*r = v` through the returned reference. */
  function WithValue<K, V>(e: (K, V), v: V): (K, V) {
    (e.0, v)
  }

  lemma NewIntoPairRoundTrip<K, V>(k: K, v: V)
    ensures IntoPair(New(k, v)) == (k, v)
    ensures Key(New(k, v)) == k && Value(New(k, v)) == v
  {
  }

  lemma ValueMutKeepsKey<K, V>(e: (K, V), v: V)
    ensures Key(WithValue(e, v)) == Key(e)
    ensures Value(WithValue(e, v)) == v
    ensures WithValue(e, Value(e)) == e
  {
  }

  // ---- Array, implemented for [T; n] ----

  /** `Array::CAPACITY` of a `[T; n]`: the array's length n. */
  function Capacity<T>(a: array<T>): nat {
    a.Length
  }

  /** `Array::as_slice`: a view of every cell of the array. */
  function AsSlice<T>(a: array<T>): (s: seq<T>)
    reads a
    ensures |s| == Capacity(a)
    ensures forall i :: 0 <= i < |s| ==> s[i] == a[i]
  {
    a[..]
  }

  /**
    The values held by a run of initialised slots, in slot order (what
    `assume_init` yields for each of them).
  */
  function Payloads<T>(slots: seq<Slot<T>>): (r: seq<T>)
    requires forall i :: 0 <= i < |slots| ==> slots[i].Init?
    ensures |r| == |slots|
    ensures forall i :: 0 <= i < |slots| ==> r[i] == slots[i].item
  {
    if slots == [] then [] else [slots[0].item] + Payloads(slots[1..])
  }

  // ---- iterator adaptor ----

  /** `Iterator::take(n)`, which every `from_iter` applies: the first n items, or all of them if there are fewer. */
  function Take<T>(items: seq<T>, n: nat): (r: seq<T>)
    ensures |r| == if |items| < n then |items| else n
    ensures r == items[..|r|]
  {
    if |items| <= n then items else items[..n]
  }
}
