/**
  src/array_set.rs: ArraySet, a set kept in a fixed-size backing array.

  The array has `capacity` slots; the first `len` of them hold values in
  strictly ascending order and the rest hold nothing. Lookups binary-search
  that prefix; insertion shifts the tail one slot right by swaps, removal one
  slot left. The ghost field `contents` is the occupied prefix; `Model()` is
  the set it stands for. State-changing methods state the new `contents`
  through the reference functions of OrderedSets.

  Values are integers (the source is generic over any ordered type).
*/
module ArraySets {
  import opened Wrappers
  import opened Lib
  import opened OrderedSets
  import Sorting
  import Shifting

  class ArraySet {
    /** `A::CAPACITY`: the number of slots of the backing array. */
    const capacity: nat
    var data: array<Slot<int>>
    var len: nat
    ghost var contents: seq<int>

    ghost predicate Valid()
      reads this, data
    {
      && data.Length == capacity
      && len <= capacity
      && |contents| == len
      && (forall i :: 0 <= i < len ==> data[i] == Init(contents[i]))
      && (forall i :: len <= i < capacity ==> data[i] == Uninit)
      && Ascending(contents)
    }

    /** The set this ArraySet stands for. */
    ghost function Model(): set<int>
      reads this
    {
      Elements(contents)
    }

    /** `new` / `default`: an empty set with a zeroed (all uninitialised) array. */
    constructor (capacity: nat)
      ensures Valid() && fresh(data)
      ensures this.capacity == capacity
      ensures contents == [] && Model() == {}
    {
      this.capacity := capacity;
      data := new Slot<int>[capacity](_ => Uninit);
      len := 0;
      contents := [];
    }

    /** `len`: the number of stored values, which is the number of elements of the set. */
    function Len(): (n: nat)
      reads this, data
      requires Valid()
      ensures n == |Model()| && n <= capacity
    {
      AscendingCard(contents);
      len
    }

    /** `is_empty`. */
    function IsEmpty(): (b: bool)
      reads this, data
      requires Valid()
      ensures b <==> Model() == {}
    {
      AscendingCard(contents);
      len == 0
    }

    /** `capacity`: the length of the backing array, whatever the state. */
    function Capacity(): (n: nat)
      reads this, data
      requires Valid()
      ensures n == capacity && Len() <= n
    {
      Lib.Capacity(data)
    }

    /** `iter`: the stored values in slot order, which is ascending order. */
    function Iter(): (r: seq<int>)
      reads this, data
      requires Valid()
      ensures r == contents
      ensures Ascending(r) && Elements(r) == Model()
      ensures r == InOrder(Model())
    {
      AscendingIsInOrder(contents);
      Payloads(data[..len])
    }

    /**
      The consuming `into_iter` as written: it takes over the whole backing
      array and yields every slot, occupied or not, assuming each one
      initialised.
    */
    function IntoIterAsWritten(): (r: seq<Slot<int>>)
      reads this, data
      requires Valid()
      ensures |r| == capacity
      ensures forall i :: 0 <= i < len ==> r[i] == Init(contents[i])
      ensures forall i :: len <= i < capacity ==> r[i] == Uninit
    {
      data[..]
    }

    /**
      The consuming `into_iter`, corrected: only the `len` occupied slots are
      yielded, the prefix of what the as-written drain yields. For a full set
      (the only case TinySet promotes from) the two agree.
    */
    function IntoIter(): (r: seq<int>)
      reads this, data
      requires Valid()
      ensures r == contents && |r| == len
      ensures Ascending(r) && Elements(r) == Model()
      ensures forall i :: 0 <= i < |r| ==> IntoIterAsWritten()[i] == Init(r[i])
      ensures len == capacity ==> |r| == |IntoIterAsWritten()|
    {
      Payloads(IntoIterAsWritten()[..len])
    }

    /**
      `find`: binary search of the occupied prefix. `Ok(i)` says the value
      sits at slot i; `Err(i)` says it is absent and slot i is where it belongs.
    */
    method Find(value: int) returns (r: Result<nat, nat>)
      requires Valid()
      ensures r.Ok? ==> r.value < len && contents[r.value] == value
      ensures r.Err? ==> IsInsertionPoint(contents, value, r.error)
      ensures r.Ok? <==> value in Model()
    {
      var lo, hi := 0, len;
      while lo < hi
        invariant 0 <= lo <= hi <= len
        invariant forall j :: 0 <= j < lo ==> contents[j] < value
        invariant forall j :: hi <= j < len ==> value < contents[j]
        decreases hi - lo
      {
        var mid := lo + (hi - lo) / 2;
        var x := data[mid].item;
        if x < value {
          lo := mid + 1;
        } else if value < x {
          hi := mid;
        } else {
          return Ok(mid);
        }
      }
      InsertionPointAbsent(contents, value, lo);
      return Err(lo);
    }

    /** `contains`. */
    method Contains(value: int) returns (b: bool)
      requires Valid()
      ensures b <==> value in Model()
    {
      var r := Find(value);
      b := r.Ok?;
    }

    /** `get`: the stored element equal to `value`, if there is one. */
    method Get(value: int) returns (r: Option<int>)
      requires Valid()
      ensures r == if value in Model() then Some(value) else None
    {
      var i := Find(value);
      if i.Ok? {
        r := Some(data[i.value].item);
      } else {
        r := None;
      }
    }

    /**
      The `Err(i)` arm of `try_insert`: shift slots [i, len) one place right
      by swaps and put the value in slot i.
    */
    method InsertAt(i: nat, value: int)
      requires Valid() && len < capacity && IsInsertionPoint(contents, value, i)
      modifies this, data
      ensures Valid() && data == old(data) && len == old(len) + 1
      ensures contents == old(contents)[..i] + [value] + old(contents)[i..]
      ensures contents == InsertValue(old(contents), value)
    {
      ghost var s := contents;
      InsertValueAt(s, i, value);
      InsertValueAscending(s, value);
      Shifting.ShiftRight(data, i, len);
      data[i] := Init(value);
      len := len + 1;
      contents := s[..i] + [value] + s[i..];
      forall k | 0 <= k < len ensures data[k] == Init(contents[k]) {
        if k < i {
          assert contents[k] == s[k];
        } else if k > i {
          assert contents[k] == s[k - 1];
        }
      }
    }

    /**
      `try_insert`: a full set refuses before looking, even a value it holds;
      otherwise a present value leaves the set alone (`Ok(false)`) and an
      absent one is inserted in order (`Ok(true)`).
    */
    method TryInsert(value: int) returns (r: Result<bool, int>)
      requires Valid()
      modifies this, data
      ensures Valid() && data == old(data)
      ensures r.Err? <==> old(len) == capacity
      ensures r.Err? ==> r.error == value && contents == old(contents)
      ensures r.Ok? ==> r.value == (value !in old(Model()))
      ensures r.Ok? ==> contents == InsertValue(old(contents), value)
      ensures r.Ok? ==> Model() == old(Model()) + {value}
      ensures len == if r == Ok(true) then old(len) + 1 else old(len)
    {
      if len == capacity {
        return Err(value);
      }
      InsertValueElements(contents, value);
      var found := Find(value);
      match found
      case Ok(_) =>
        InsertValuePresent(contents, value);
        r := Ok(false);
      case Err(i) =>
        InsertionPointAbsent(contents, value, i);
        InsertAt(i, value);
        r := Ok(true);
    }

    /** `insert`: like `try_insert`, but a full set panics, so it must have room. */
    method Insert(value: int) returns (added: bool)
      requires Valid() && len < capacity
      modifies this, data
      ensures Valid() && data == old(data)
      ensures added == (value !in old(Model()))
      ensures contents == InsertValue(old(contents), value)
      ensures Model() == old(Model()) + {value}
      ensures len == if added then old(len) + 1 else old(len)
    {
      var r := TryInsert(value);
      added := r.value;
    }

    /**
      `remove`: a present value is taken out of its slot and the tail
      shifted left (`true`); an absent value changes nothing (`false`).
    */
    method Remove(value: int) returns (removed: bool)
      requires Valid()
      modifies this, data
      ensures Valid() && data == old(data)
      ensures removed == (value in old(Model()))
      ensures Model() == old(Model()) - {value}
      ensures contents == RemoveValue(old(contents), value)
      ensures len == if removed then old(len) - 1 else old(len)
    {
      var found := Find(value);
      if found.Err? {
        RemoveValueAbsent(contents, value);
        return false;
      }
      RemoveValueAt(contents, found.value);
      RemoveAt(found.value);
      removed := true;
    }

    /** The body of `remove` once `find` has located the value at slot i. */
    method RemoveAt(i: nat)
      requires Valid() && i < len
      modifies this, data
      ensures Valid() && data == old(data) && len == old(len) - 1
      ensures contents == old(contents)[..i] + old(contents)[i + 1..]
      ensures Model() == old(Model()) - {old(contents)[i]}
    {
      ghost var s := contents;
      RemoveValueAt(s, i);
      RemoveValueElements(s, s[i]);
      RemoveValueAscending(s, s[i]);
      data[i] := Uninit;
      Shifting.ShiftLeft(data, i, len);
      len := len - 1;
      contents := s[..i] + s[i + 1..];
      forall k | 0 <= k < len ensures data[k] == Init(contents[k]) {
        if k < i {
          assert contents[k] == s[k];
        } else {
          assert contents[k] == s[k + 1];
        }
      }
      assert data[len] == Uninit;
      assert forall k :: len < k < capacity ==> data[k] == Uninit;
    }

    /** `clear`: the set is replaced by a new, empty one. */
    method Clear()
      requires Valid()
      modifies this
      ensures Valid() && fresh(data)
      ensures contents == [] && Model() == {}
    {
      data := new Slot<int>[capacity](_ => Uninit);
      len := 0;
      contents := [];
    }

    /** `from_iter`: insert the first `capacity` items into an empty set; later items are never looked at. */
    static method FromIter(capacity: nat, items: seq<int>) returns (s: ArraySet)
      ensures fresh(s) && fresh(s.data) && s.Valid() && s.capacity == capacity
      ensures s.Model() == Elements(Take(items, capacity))
    {
      s := new ArraySet(capacity);
      var n := |Take(items, capacity)|;
      var i := 0;
      while i < n
        invariant 0 <= i <= n
        invariant fresh(s) && fresh(s.data) && s.Valid() && s.capacity == capacity
        invariant s.Model() == Elements(items[..i])
        invariant s.len <= i
      {
        ElementsCardBound(items[..i]);
        AscendingCard(s.contents);
        var added := s.Insert(items[i]);
        assert items[..i + 1] == items[..i] + [items[i]];
        ElementsSnoc(items[..i], items[i]);
        i := i + 1;
      }
    }

    /**
      `From<array>`, corrected: the values of the array are inserted one
      after the other, so that a repeated value is stored once and the
      occupied prefix keeps strictly ascending values.
    */
    static method FromArray(a: array<int>) returns (s: ArraySet)
      ensures fresh(s) && fresh(s.data) && s.Valid() && s.capacity == a.Length
      ensures s.Model() == Elements(a[..])
    {
      s := FromIter(a.Length, a[..]);
      assert a[..][..a.Length] == a[..];
    }
  }

  // ---- From<array> as written ----

  function Identity(x: int): int {
    x
  }

  /**
    What `From<array>` puts in the backing array as written: the array
    sorted, all of it occupied (`len` is set to the capacity). Repeated
    values are kept side by side.
  */
  function FromArrayAsWritten(items: seq<int>): (r: seq<int>)
    ensures |r| == |items| && multiset(r) == multiset(items)
    ensures Sorting.NondecreasingBy(r, Identity)
  {
    Sorting.SortBy(items, Identity)
  }

  /**
    With a repeated value the as-written result breaks the invariant every
    other operation relies on: its values do not strictly ascend, and its
    length (the `len` the source sets) exceeds the number of elements.
  */
  lemma FromArrayAsWrittenKeepsDuplicates()
    ensures !Ascending(FromArrayAsWritten([1, 1]))
    ensures |Elements(FromArrayAsWritten([1, 1]))| < |FromArrayAsWritten([1, 1])|
  {
    var r := FromArrayAsWritten([1, 1]);
    assert multiset(r) == multiset{1, 1};
    assert r[0] in multiset(r) && r[1] in multiset(r);
    assert r[0] == 1 && r[1] == 1;
    assert Elements(r) == {1};
  }

  // ---- IntoIterator as written ----

  /**
    A set that is not full drains, as written, into more values than it
    holds: the slots past `len` were never written and are yielded anyway.
  */
  lemma IntoIterAsWrittenYieldsUninit(s: ArraySet)
    requires s.Valid() && s.len < s.capacity
    ensures |s.IntoIterAsWritten()| > |s.IntoIter()|
    ensures Uninit in s.IntoIterAsWritten()
  {
    assert s.IntoIterAsWritten()[s.len] == Uninit;
  }
}
