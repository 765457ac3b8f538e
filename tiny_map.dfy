/**
  src/tiny_map.rs: TinyMap, a map that starts in an ArrayMap and moves to a
  tree map once the array is full.

  The state is either `Stack`, holding an ArrayMap, or `Heap`, holding the
  standard library's `BTreeMap`, which is modelled by a Dafny `map` with
  in-order iteration (`InOrder`). Every operation dispatches on the state.
  The one that changes the state is `insert` on a full ArrayMap: the array
  map is swapped out for an empty one, drained into a new tree, the new
  pair is inserted into the tree, and the state becomes `Heap`. Only
  `clear` (and construction) gives the `Stack` state again.
*/
module TinyMaps {
  import opened Wrappers
  import opened Lib
  import opened OrderedMaps
  import opened ArrayMaps

  datatype State<V> = Stack(arr: ArrayMap<V>) | Heap(tree: map<int, V>)

  class TinyMap<V> {
    /** `A::CAPACITY`: the number of slots of the array used in the `Stack` state. */
    const capacity: nat
    var state: State<V>
    ghost var Repr: set<object>

    ghost predicate Valid()
      reads this, Repr
    {
      && this in Repr
      && (state.Stack? ==>
            && state.arr in Repr && state.arr.data in Repr
            && state.arr.capacity == capacity
            && state.arr.Valid())
    }

    /** The map this TinyMap stands for, whichever state it is in. */
    ghost function Model(): map<int, V>
      reads this, Repr
      requires Valid()
    {
      match state
      case Stack(arr) => arr.Model()
      case Heap(tree) => tree
    }

    /** `new` / `default`: the `Stack` state with an empty ArrayMap. */
    constructor (capacity: nat)
      ensures Valid() && fresh(Repr)
      ensures this.capacity == capacity && state.Stack? && state.arr.len == 0
      ensures Model() == map[]
    {
      this.capacity := capacity;
      var arr := new ArrayMap<V>(capacity);
      state := Stack(arr);
      Repr := {this, arr, arr.data};
    }

    /** `From<ArrayMap>`: wrap an ArrayMap as the `Stack` state, contents unchanged. */
    constructor FromArrayMap(arr: ArrayMap<V>)
      requires arr.Valid()
      ensures Valid() && Repr == {this, arr, arr.data}
      ensures capacity == arr.capacity && state == Stack(arr)
      ensures Model() == arr.Model()
    {
      capacity := arr.capacity;
      state := Stack(arr);
      Repr := {this, arr, arr.data};
    }

    /** `From<array>`: build an ArrayMap from the array (corrected as in ArrayMap) and wrap it. */
    static method FromArray(a: array<(int, V)>) returns (t: TinyMap<V>)
      ensures fresh(t) && t.Valid() && t.capacity == a.Length && t.state.Stack?
      ensures t.Model() == InsertAll(map[], a[..])
    {
      var arr := ArrayMap.FromArray(a);
      t := new TinyMap.FromArrayMap(arr);
    }

    /** `clear`: back to the `Stack` state with an empty ArrayMap, from either state. */
    method Clear()
      requires Valid()
      modifies this
      ensures Valid() && fresh(Repr - old(Repr))
      ensures state.Stack? && Model() == map[]
    {
      var arr := new ArrayMap<V>(capacity);
      state := Stack(arr);
      Repr := Repr + {arr, arr.data};
    }

    /** `len`: the length of the active representation, which is the number of keys. */
    function Len(): (n: nat)
      reads this, Repr
      requires Valid()
      ensures n == |Model()|
      ensures state.Stack? ==> n <= capacity
    {
      match state
      case Stack(arr) => arr.Len()
      case Heap(tree) => |tree|
    }

    /** `is_empty`: `len() == 0`. */
    function IsEmpty(): (b: bool)
      reads this, Repr
      requires Valid()
      ensures b <==> Model() == map[]
    {
      Len() == 0
    }

    /** `capacity`: the array's capacity, in both states (also after promotion). */
    function Capacity(): (n: nat)
      reads this, Repr
      requires Valid()
      ensures n == capacity
      ensures state.Stack? ==> n == state.arr.Capacity() && Len() <= n
    {
      capacity
    }

    /** `iter`: the pairs in ascending key order, from the array or from the tree. */
    ghost function Iter(): (r: seq<(int, V)>)
      reads this, Repr
      requires Valid()
      ensures r == InOrder(Model())
      ensures KeysAscending(r) && ToMap(r) == Model()
    {
      match state
      case Stack(arr) => arr.Iter()
      case Heap(tree) => InOrder(tree)
    }

    /**
      `insert`. In the `Stack` state the pair goes to `try_insert`; if the
      array map refuses it (it is full, whether or not it holds the key), the
      array map is swapped for an empty one and drained into a new tree, the
      pair is inserted into the tree, and the state becomes `Heap`. In the
      `Heap` state the pair goes to the tree. Either way the result is what
      an ordered map's insert returns.
    */
    method Insert(key: int, value: V) returns (r: Option<V>)
      requires Valid()
      modifies Repr
      ensures Valid() && fresh(Repr - old(Repr))
      ensures Model() == old(Model())[key := value]
      ensures r == if key in old(Model()) then Some(old(Model())[key]) else None
      ensures old(state.Stack? && state.arr.len < capacity) ==> state.Stack? && state.arr == old(state.arr)
      ensures old(state.Stack? && state.arr.len == capacity) ==> state.Heap?
      ensures old(state.Heap?) ==> state.Heap?
    {
      match state
      case Stack(arr) =>
        var res := arr.TryInsert(key, value);
        match res {
          case Ok(previous) =>
            r := previous;
          case Err(rejected) =>
            var replacement := new ArrayMap<V>(capacity);
            state := Stack(replacement);
            Repr := Repr + {replacement, replacement.data};
            var tree, previous := Promote(arr, rejected.0, rejected.1);
            r := previous;
            state := Heap(tree);
        }
      case Heap(tree) =>
        r := if key in tree then Some(tree[key]) else None;
        state := Heap(tree[key := value]);
    }

    /**
      The promotion of `insert`: drain a full ArrayMap, pair by pair
      (`into_iter` followed by `into_pair`), into an empty tree, then insert
      the rejected pair. The drain reads every slot of the array, which is
      sound because the array map is full: all its slots hold pairs.
    */
    static method Promote(arr: ArrayMap<V>, key: int, value: V) returns (tree: map<int, V>, r: Option<V>)
      requires arr.Valid() && arr.len == arr.capacity
      ensures tree == arr.Model()[key := value]
      ensures r == if key in arr.Model() then Some(arr.Model()[key]) else None
    {
      var drained := arr.IntoIter();
      tree := map[];
      var i := 0;
      while i < |drained|
        invariant 0 <= i <= |drained|
        invariant tree == InsertAll(map[], drained[..i])
      {
        var (k, v) := IntoPair(drained[i]);
        InsertAllSnoc(map[], drained[..i], drained[i]);
        assert drained[..i + 1] == drained[..i] + [drained[i]];
        tree := tree[k := v];
        i := i + 1;
      }
      assert drained[..i] == drained;
      InsertAllAscending(map[], drained);
      r := if key in tree then Some(tree[key]) else None;
      tree := tree[key := value];
    }

    /** `get`: dispatch to the active representation. */
    method Get(key: int) returns (r: Option<V>)
      requires Valid()
      ensures r == if key in Model() then Some(Model()[key]) else None
    {
      match state
      case Stack(arr) =>
        r := arr.Get(key);
      case Heap(tree) =>
        r := if key in tree then Some(tree[key]) else None;
    }

    /** `contains_key`: dispatch to the active representation. */
    method ContainsKey(key: int) returns (b: bool)
      requires Valid()
      ensures b <==> key in Model()
    {
      match state
      case Stack(arr) =>
        b := arr.ContainsKey(key);
      case Heap(tree) =>
        b := key in tree;
    }

    /** `Index`: indexing by an absent key panics, so the key must be present. */
    method Index(key: int) returns (v: V)
      requires Valid() && key in Model()
      ensures v == Model()[key]
    {
      var r := Get(key);
      v := r.value;
    }

    /** `get_mut(key)` followed by the caller's write `*x = f(*x)`: only that key's value changes, the state does not. */
    method GetMut(key: int, f: V -> V) returns (found: bool)
      requires Valid()
      modifies Repr
      ensures Valid() && Repr == old(Repr)
      ensures found <==> key in old(Model())
      ensures Model() == if found then old(Model())[key := f(old(Model())[key])] else old(Model())
      ensures state.Stack? <==> old(state.Stack?)
    {
      match state
      case Stack(arr) =>
        found := arr.GetMut(key, f);
      case Heap(tree) =>
        found := key in tree;
        if found {
          state := Heap(tree[key := f(tree[key])]);
        }
    }

    /** `remove`: dispatch to the active representation; a `Heap` map stays `Heap` however small it gets. */
    method Remove(key: int) returns (r: Option<V>)
      requires Valid()
      modifies Repr
      ensures Valid() && Repr == old(Repr)
      ensures r == if key in old(Model()) then Some(old(Model())[key]) else None
      ensures Model() == old(Model()) - {key}
      ensures state.Stack? <==> old(state.Stack?)
    {
      match state
      case Stack(arr) =>
        r := arr.Remove(key);
      case Heap(tree) =>
        r := if key in tree then Some(tree[key]) else None;
        state := Heap(tree - {key});
    }

    /**
      `from_iter`: insert the first `capacity` items (as pairs, through
      `into_pair`) into an empty TinyMap. At most `capacity` inserts never
      fill the array past its capacity, so the result is always `Stack`.
    */
    static method FromIter(capacity: nat, items: seq<(int, V)>) returns (t: TinyMap<V>)
      ensures fresh(t) && t.Valid() && t.capacity == capacity
      ensures t.state.Stack?
      ensures t.Model() == InsertAll(map[], Take(items, capacity))
    {
      t := new TinyMap(capacity);
      var n := |Take(items, capacity)|;
      var i := 0;
      while i < n
        invariant 0 <= i <= n
        invariant fresh(t) && fresh(t.Repr) && t.Valid() && t.capacity == capacity
        invariant t.state.Stack? && t.state.arr.len <= i
        invariant t.Model() == InsertAll(map[], items[..i])
      {
        InsertAllSize(map[], items[..i]);
        ToMapSize(t.state.arr.contents);
        var (k, v) := IntoPair(items[i]);
        var r := t.Insert(k, v);
        InsertAllSnoc(map[], items[..i], items[i]);
        assert items[..i + 1] == items[..i] + [items[i]];
        ToMapSize(t.state.arr.contents);
        i := i + 1;
      }
    }
  }
}
