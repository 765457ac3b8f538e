/**
  src/tiny_set.rs: TinySet, a set that starts in an ArraySet and moves to a
  tree set once the array is full.

  The state is either `Stack`, holding an ArraySet, or `Heap`, holding the
  standard library's `BTreeSet`, which is modelled by a Dafny `set` with
  in-order iteration (`InOrder`). Every operation dispatches on the state;
  `insert` on a full ArraySet swaps it for an empty one, drains it into a
  new tree set, inserts the value there and moves to the `Heap` state.
*/
module TinySets {
  import opened Lib
  import opened Wrappers
  import opened OrderedSets
  import opened ArraySets

  datatype State = Stack(arr: ArraySet) | Heap(tree: set<int>)

  class TinySet {
    /** `A::CAPACITY`: the number of slots of the array used in the `Stack` state. */
    const capacity: nat
    var state: State
    ghost var Repr: set<object>

    ghost predicate Valid()
      reads this, Repr
    {
      && this in Repr
      && (state.Stack? ==>
            && state.arr in Repr && state.arr.data in Repr
            && state.arr.capacity == capacity
            && state.arr.Valid())
    }

    /** The set this TinySet stands for, whichever state it is in. */
    ghost function Model(): set<int>
      reads this, Repr
      requires Valid()
    {
      match state
      case Stack(arr) => arr.Model()
      case Heap(tree) => tree
    }

    /** `new` / `default`: the `Stack` state with an empty ArraySet. */
    constructor (capacity: nat)
      ensures Valid() && fresh(Repr)
      ensures this.capacity == capacity && state.Stack? && state.arr.len == 0
      ensures Model() == {}
    {
      this.capacity := capacity;
      var arr := new ArraySet(capacity);
      state := Stack(arr);
      Repr := {this, arr, arr.data};
    }

    /** `From<ArraySet>`: wrap an ArraySet as the `Stack` state, contents unchanged. */
    constructor FromArraySet(arr: ArraySet)
      requires arr.Valid()
      ensures Valid() && Repr == {this, arr, arr.data}
      ensures capacity == arr.capacity && state == Stack(arr)
      ensures Model() == arr.Model()
    {
      capacity := arr.capacity;
      state := Stack(arr);
      Repr := {this, arr, arr.data};
    }

    /** `From<array>`: build an ArraySet from the array (corrected as in ArraySet) and wrap it. */
    static method FromArray(a: array<int>) returns (t: TinySet)
      ensures fresh(t) && t.Valid() && t.capacity == a.Length && t.state.Stack?
      ensures t.Model() == Elements(a[..])
    {
      var arr := ArraySet.FromArray(a);
      t := new TinySet.FromArraySet(arr);
    }

    /** `clear`: back to the `Stack` state with an empty ArraySet, from either state. */
    method Clear()
      requires Valid()
      modifies this
      ensures Valid() && fresh(Repr - old(Repr))
      ensures state.Stack? && Model() == {}
    {
      var arr := new ArraySet(capacity);
      state := Stack(arr);
      Repr := Repr + {arr, arr.data};
    }

    /** `len`: the length of the active representation, which is the number of elements. */
    function Len(): (n: nat)
      reads this, Repr
      requires Valid()
      ensures n == |Model()|
      ensures state.Stack? ==> n <= capacity
    {
      match state
      case Stack(arr) => arr.Len()
      case Heap(tree) => |tree|
    }

    /** `is_empty`: `len() == 0`. */
    function IsEmpty(): (b: bool)
      reads this, Repr
      requires Valid()
      ensures b <==> Model() == {}
    {
      Len() == 0
    }

    /** `capacity`: the array's capacity, in both states (also after promotion). */
    function Capacity(): (n: nat)
      reads this, Repr
      requires Valid()
      ensures n == capacity
      ensures state.Stack? ==> n == state.arr.Capacity() && Len() <= n
    {
      capacity
    }

    /** `iter`: the values in ascending order, from the array or from the tree. */
    ghost function Iter(): (r: seq<int>)
      reads this, Repr
      requires Valid()
      ensures r == InOrder(Model())
      ensures Ascending(r) && Elements(r) == Model() && |r| == Len()
    {
      match state
      case Stack(arr) => arr.Iter()
      case Heap(tree) => InOrder(tree)
    }

    /**
      The consuming `into_iter`: the ArraySet's drain (corrected, see
      ArraySet) or the tree's in-order drain. Either way it yields what
      `iter` yields.
    */
    ghost function IntoIter(): (r: seq<int>)
      reads this, Repr
      requires Valid()
      ensures r == Iter()
      ensures |r| == Len()
    {
      match state
      case Stack(arr) => arr.IntoIter()
      case Heap(tree) => InOrder(tree)
    }

    /**
      `insert`. In the `Stack` state the value goes to `try_insert`; if the
      array set refuses it (it is full, whether or not it holds the value),
      the array set is swapped for an empty one, drained into a new tree
      set, the value is inserted there, and the state becomes `Heap`. In the
      `Heap` state the value goes to the tree. The result says whether the
      value was absent.
    */
    method Insert(value: int) returns (added: bool)
      requires Valid()
      modifies Repr
      ensures Valid() && fresh(Repr - old(Repr))
      ensures Model() == old(Model()) + {value}
      ensures added <==> value !in old(Model())
      ensures old(state.Stack? && state.arr.len < capacity) ==> state.Stack? && state.arr == old(state.arr)
      ensures old(state.Stack? && state.arr.len == capacity) ==> state.Heap?
      ensures old(state.Heap?) ==> state.Heap?
    {
      match state
      case Stack(arr) =>
        var res := arr.TryInsert(value);
        match res {
          case Ok(wasAbsent) =>
            added := wasAbsent;
          case Err(rejected) =>
            var replacement := new ArraySet(capacity);
            state := Stack(replacement);
            Repr := Repr + {replacement, replacement.data};
            var tree, absent := Promote(arr, rejected);
            added := absent;
            state := Heap(tree);
        }
      case Heap(tree) =>
        added := value !in tree;
        state := Heap(tree + {value});
    }

    /**
      The promotion of `insert`: drain a full ArraySet, value by value,
      into an empty tree set, then insert the rejected value.
    */
    static method Promote(arr: ArraySet, value: int) returns (tree: set<int>, added: bool)
      requires arr.Valid() && arr.len == arr.capacity
      ensures tree == arr.Model() + {value}
      ensures added <==> value !in arr.Model()
    {
      var drained := arr.IntoIter();
      tree := {};
      var i := 0;
      while i < |drained|
        invariant 0 <= i <= |drained|
        invariant tree == Elements(drained[..i])
      {
        ElementsSnoc(drained[..i], drained[i]);
        assert drained[..i + 1] == drained[..i] + [drained[i]];
        tree := tree + {drained[i]};
        i := i + 1;
      }
      assert drained[..i] == drained;
      added := value !in tree;
      tree := tree + {value};
    }

    /** `contains`: dispatch to the active representation. */
    method Contains(value: int) returns (b: bool)
      requires Valid()
      ensures b <==> value in Model()
    {
      match state
      case Stack(arr) =>
        b := arr.Contains(value);
      case Heap(tree) =>
        b := value in tree;
    }

    /** `get`: the stored element equal to `value`, if there is one. */
    method Get(value: int) returns (r: Option<int>)
      requires Valid()
      ensures r == if value in Model() then Some(value) else None
    {
      match state
      case Stack(arr) =>
        r := arr.Get(value);
      case Heap(tree) =>
        r := if value in tree then Some(value) else None;
    }

    /** `remove`: dispatch to the active representation; a `Heap` set stays `Heap` however small it gets. */
    method Remove(value: int) returns (removed: bool)
      requires Valid()
      modifies Repr
      ensures Valid() && Repr == old(Repr)
      ensures removed <==> value in old(Model())
      ensures Model() == old(Model()) - {value}
      ensures state.Stack? <==> old(state.Stack?)
    {
      match state
      case Stack(arr) =>
        removed := arr.Remove(value);
      case Heap(tree) =>
        removed := value in tree;
        state := Heap(tree - {value});
    }

    /**
      `from_iter`: insert the first `capacity` items into an empty TinySet.
      At most `capacity` inserts never overflow the array, so the result is
      always `Stack`.
    */
    static method FromIter(capacity: nat, items: seq<int>) returns (t: TinySet)
      ensures fresh(t) && t.Valid() && t.capacity == capacity
      ensures t.state.Stack?
      ensures t.Model() == Elements(Take(items, capacity))
    {
      t := new TinySet(capacity);
      var n := |Take(items, capacity)|;
      var i := 0;
      while i < n
        invariant 0 <= i <= n
        invariant fresh(t) && fresh(t.Repr) && t.Valid() && t.capacity == capacity
        invariant t.state.Stack? && t.state.arr.len <= i
        invariant t.Model() == Elements(items[..i])
      {
        ElementsCardBound(items[..i]);
        AscendingCard(t.state.arr.contents);
        var added := t.Insert(items[i]);
        ElementsSnoc(items[..i], items[i]);
        assert items[..i + 1] == items[..i] + [items[i]];
        AscendingCard(t.state.arr.contents);
        i := i + 1;
      }
    }
  }
}
