/**
  src/array_map.rs: ArrayMap, a map kept in a fixed-size backing array.

  The array has `capacity` slots; the first `len` of them hold key-value
  pairs in strictly ascending key order and the rest hold nothing. Lookups
  binary-search that prefix, insertion shifts the tail one slot to the right by
  repeated swaps, removal shifts it one slot to the left. The ghost field
  `contents` is the occupied prefix as a sequence of pairs; `Model()` is the
  map it stands for. Every state-changing method states its new `contents` in
  terms of the old one through the reference functions of OrderedMaps, whose
  lemmas give the map meaning.

  Keys are integers (the source is generic over any ordered key type).
*/
module ArrayMaps {
  import opened Wrappers
  import opened Lib
  import opened OrderedMaps
  import Sorting
  import Shifting

  /**
    A view of one key of a map (`Entry` with `VacantEntry` / `OccupiedEntry`):
    a vacant entry holds the key and the slot where it would be inserted, an
    occupied entry the slot where the key sits. The map it belongs to is the
    `ArrayMap` whose methods take it.
  */
  datatype Entry = Vacant(key: int, index: nat) | Occupied(index: nat)

  class ArrayMap<V> {
    /** `A::CAPACITY`: the number of slots of the backing array. */
    const capacity: nat
    var data: array<Slot<(int, V)>>
    var len: nat
    ghost var contents: seq<(int, V)>

    ghost predicate Valid()
      reads this, data
    {
      && data.Length == capacity
      && len <= capacity
      && |contents| == len
      && (forall i :: 0 <= i < len ==> data[i] == Init(contents[i]))
      && (forall i :: len <= i < capacity ==> data[i] == Uninit)
      && KeysAscending(contents)
    }

    /** The map this ArrayMap stands for. */
    ghost function Model(): map<int, V>
      reads this
    {
      ToMap(contents)
    }

    /** `new` / `default`: an empty map with a zeroed (all uninitialised) array. */
    constructor (capacity: nat)
      ensures Valid() && fresh(data)
      ensures this.capacity == capacity
      ensures contents == [] && Model() == map[]
    {
      this.capacity := capacity;
      data := new Slot<(int, V)>[capacity](_ => Uninit);
      len := 0;
      contents := [];
    }

    /** `len`: the number of pairs, which is the number of keys of the map. */
    function Len(): (n: nat)
      reads this, data
      requires Valid()
      ensures n == |Model()| && n <= capacity
    {
      ToMapSize(contents);
      len
    }

    /** `is_empty`. */
    function IsEmpty(): (b: bool)
      reads this, data
      requires Valid()
      ensures b <==> Model() == map[]
    {
      ToMapSize(contents);
      len == 0
    }

    /** `capacity`: the length of the backing array, whatever the state. */
    function Capacity(): (n: nat)
      reads this, data
      requires Valid()
      ensures n == capacity && Len() <= n
    {
      Lib.Capacity(data)
    }

    /**
      `find`: binary search of the occupied prefix. `Ok(i)` says the key sits
      at slot i; `Err(i)` says it is absent and slot i is where it belongs.
    */
    method Find(key: int) returns (r: Result<nat, nat>)
      requires Valid()
      ensures r.Ok? ==> r.value < len && contents[r.value].0 == key
      ensures r.Err? ==> IsInsertionPoint(contents, key, r.error)
      ensures r.Ok? <==> key in Model()
    {
      var lo, hi := 0, len;
      while lo < hi
        invariant 0 <= lo <= hi <= len
        invariant forall j :: 0 <= j < lo ==> contents[j].0 < key
        invariant forall j :: hi <= j < len ==> key < contents[j].0
        decreases hi - lo
      {
        var mid := lo + (hi - lo) / 2;
        var k := data[mid].item.0;
        if k < key {
          lo := mid + 1;
        } else if key < k {
          hi := mid;
        } else {
          ToMapAt(contents, mid);
          return Ok(mid);
        }
      }
      InsertionPointAbsent(contents, key, lo);
      return Err(lo);
    }

    /** `contains_key`. */
    method ContainsKey(key: int) returns (b: bool)
      requires Valid()
      ensures b <==> key in Model()
    {
      var r := Find(key);
      b := r.Ok?;
    }

    /** `get`. */
    method Get(key: int) returns (r: Option<V>)
      requires Valid()
      ensures r == if key in Model() then Some(Model()[key]) else None
    {
      var i := Find(key);
      if i.Ok? {
        ToMapAt(contents, i.value);
        r := Some(data[i.value].item.1);
      } else {
        r := None;
      }
    }

    /** `Index`: indexing by a key that is absent panics, so the key must be present. */
    method Index(key: int) returns (v: V)
      requires Valid() && key in Model()
      ensures v == Model()[key]
    {
      var r := Get(key);
      v := r.value;
    }

    /** A write through a mutable reference to the value in slot i; the key stays. */
    method ModifyAt(i: nat, f: V -> V)
      requires Valid() && i < len
      modifies this, data
      ensures Valid() && data == old(data) && len == old(len)
      ensures contents == old(contents)[i := (old(contents)[i].0, f(old(contents)[i].1))]
    {
      var pair := data[i].item;
      data[i] := Init(WithValue(pair, f(Value(pair))));
      contents := contents[i := (pair.0, f(pair.1))];
    }

    /**
      `get_mut(key)` followed by the caller's write `*x = f(*x)` when it
      returns `Some`: only the value of that key changes.
    */
    method GetMut(key: int, f: V -> V) returns (found: bool)
      requires Valid()
      modifies this, data
      ensures Valid() && data == old(data) && len == old(len)
      ensures found <==> key in old(Model())
      ensures Model() == if found then old(Model())[key := f(old(Model())[key])] else old(Model())
      ensures forall j :: 0 <= j < len ==> contents[j].0 == old(contents)[j].0
      ensures forall j :: 0 <= j < len && contents[j].0 != key ==> contents[j] == old(contents)[j]
    {
      var r := Find(key);
      found := r.Ok?;
      if found {
        ghost var s := contents;
        ToMapAt(s, r.value);
        ModifyAt(r.value, f);
        InsertEntryOverwrites(s, r.value, key, f(s[r.value].1));
        InsertEntryModel(s, key, f(s[r.value].1));
      }
    }

    /** `iter`: the pairs in the order of the slots, which is ascending key order. */
    function Iter(): (r: seq<(int, V)>)
      reads this, data
      requires Valid()
      ensures r == contents
      ensures KeysAscending(r) && ToMap(r) == Model()
      ensures r == InOrder(Model())
    {
      AscendingIsInOrder(contents);
      Payloads(data[..len])
    }

    /**
      The consuming `into_iter` as written: it takes over the whole backing
      array and yields every slot, occupied or not, assuming each one
      initialised.
    */
    function IntoIterAsWritten(): (r: seq<Slot<(int, V)>>)
      reads this, data
      requires Valid()
      ensures |r| == capacity
      ensures forall i :: 0 <= i < len ==> r[i] == Init(contents[i])
      ensures forall i :: len <= i < capacity ==> r[i] == Uninit
    {
      data[..]
    }

    /**
      The consuming `into_iter`, corrected: only the `len` occupied slots are
      yielded, the prefix of what the as-written drain yields. For a full map
      (the only case TinyMap drains) the two agree.
    */
    function IntoIter(): (r: seq<(int, V)>)
      reads this, data
      requires Valid()
      ensures r == contents && |r| == len
      ensures KeysAscending(r) && ToMap(r) == Model()
      ensures forall i :: 0 <= i < |r| ==> IntoIterAsWritten()[i] == Init(r[i])
      ensures len == capacity ==> |r| == |IntoIterAsWritten()|
    {
      Payloads(IntoIterAsWritten()[..len])
    }

    /**
      `try_insert_index`: insert with the slot either found by `find` or, for
      a vacant entry, already known. A full map refuses before looking for
      the key, so it refuses even a key it holds.
    */
    method TryInsertIndex(key: int, value: V, index: Option<nat>) returns (r: Result<Option<V>, (int, V)>)
      requires Valid()
      requires index.Some? ==> IsInsertionPoint(contents, key, index.value)
      modifies this, data
      ensures Valid() && data == old(data)
      ensures r.Err? <==> old(len) == capacity
      ensures r.Err? ==> r.error == (key, value) && contents == old(contents)
      ensures r.Ok? ==> contents == InsertEntry(old(contents), key, value)
      ensures r.Ok? ==> Model() == old(Model())[key := value]
      ensures r.Ok? ==> r.value == if key in old(Model()) then Some(old(Model())[key]) else None
      ensures len == if key in old(Model()) || r.Err? then old(len) else old(len) + 1
    {
      if len == capacity {
        return Err((key, value));
      }
      InsertEntryModel(contents, key, value);
      var found: Result<nat, nat>;
      if index.Some? {
        found := Err(index.value);
      } else {
        found := Find(key);
      }
      match found
      case Ok(i) =>
        ToMapAt(contents, i);
        var previous := OverwriteAt(i, key, value);
        r := Ok(Some(previous));
      case Err(i) =>
        InsertionPointAbsent(contents, key, i);
        InsertAt(i, key, value);
        r := Ok(None);
    }

    /** The `Ok(i)` arm of `try_insert_index`: swap the new pair into slot i, where the key already sits. */
    method OverwriteAt(i: nat, key: int, value: V) returns (previous: V)
      requires Valid() && i < len && contents[i].0 == key
      modifies this, data
      ensures Valid() && data == old(data) && len == old(len)
      ensures previous == old(contents)[i].1
      ensures contents == old(contents)[i := (key, value)]
      ensures contents == InsertEntry(old(contents), key, value)
    {
      InsertEntryOverwrites(contents, i, key, value);
      var entry := data[i];
      data[i] := Init((key, value));
      contents := contents[i := (key, value)];
      previous := entry.item.1;
    }

    /**
      The `Err(i)` arm of `try_insert_index`: shift slots [i, len) one place
      right by swaps, which brings the empty slot at `len` down to i, and
      put the pair there.
    */
    method InsertAt(i: nat, key: int, value: V)
      requires Valid() && len < capacity && IsInsertionPoint(contents, key, i)
      modifies this, data
      ensures Valid() && data == old(data) && len == old(len) + 1
      ensures contents == old(contents)[..i] + [(key, value)] + old(contents)[i..]
      ensures contents == InsertEntry(old(contents), key, value)
    {
      ghost var s := contents;
      InsertEntryAt(s, i, key, value);
      InsertEntryModel(s, key, value);
      Shifting.ShiftRight(data, i, len);
      data[i] := Init((key, value));
      len := len + 1;
      contents := s[..i] + [(key, value)] + s[i..];
      forall k | 0 <= k < len ensures data[k] == Init(contents[k]) {
        if k < i {
          assert contents[k] == s[k];
        } else if k > i {
          assert contents[k] == s[k - 1];
        }
      }
    }

    /** `try_insert`: insert, or give the pair back if the map is full. */
    method TryInsert(key: int, value: V) returns (r: Result<Option<V>, (int, V)>)
      requires Valid()
      modifies this, data
      ensures Valid() && data == old(data)
      ensures r.Err? <==> old(len) == capacity
      ensures r.Err? ==> r.error == (key, value) && contents == old(contents)
      ensures r.Ok? ==> contents == InsertEntry(old(contents), key, value)
      ensures r.Ok? ==> Model() == old(Model())[key := value]
      ensures r.Ok? ==> r.value == if key in old(Model()) then Some(old(Model())[key]) else None
      ensures len == if key in old(Model()) || r.Err? then old(len) else old(len) + 1
    {
      r := TryInsertIndex(key, value, None);
    }

    /** `insert`: like `try_insert`, but a full map panics, so it must have room. */
    method Insert(key: int, value: V) returns (r: Option<V>)
      requires Valid() && len < capacity
      modifies this, data
      ensures Valid() && data == old(data)
      ensures contents == InsertEntry(old(contents), key, value)
      ensures Model() == old(Model())[key := value]
      ensures r == if key in old(Model()) then Some(old(Model())[key]) else None
      ensures len == if key in old(Model()) then old(len) else old(len) + 1
    {
      var res := TryInsertIndex(key, value, None);
      r := res.value;
    }

    /** `remove_index`: take the pair out of slot i and shift the tail left. */
    method RemoveIndex(i: nat) returns (p: (int, V))
      requires Valid() && i < len
      modifies this, data
      ensures Valid() && data == old(data)
      ensures p == old(contents)[i] && len == old(len) - 1
      ensures contents == old(contents)[..i] + old(contents)[i + 1..]
      ensures contents == RemoveEntry(old(contents), p.0)
      ensures Model() == old(Model()) - {p.0}
    {
      ghost var s := contents;
      RemoveEntryAt(s, i);
      RemoveEntryToMap(s, s[i].0);
      p := data[i].item;
      CloseSlot(i);
    }

    /** The slot work of `remove_index`: empty slot i, then shift (i, len) one place left by swaps. */
    method CloseSlot(i: nat)
      requires Valid() && i < len
      modifies this, data
      ensures Valid() && data == old(data) && len == old(len) - 1
      ensures contents == old(contents)[..i] + old(contents)[i + 1..]
    {
      ghost var s := contents;
      RemoveEntryAt(s, i);
      RemoveEntryAscending(s, s[i].0);
      data[i] := Uninit;
      Shifting.ShiftLeft(data, i, len);
      len := len - 1;
      contents := s[..i] + s[i + 1..];
      forall k | 0 <= k < len ensures data[k] == Init(contents[k]) {
        if k < i {
          assert contents[k] == s[k];
        } else {
          assert contents[k] == s[k + 1];
        }
      }
      assert data[len] == Uninit;
      assert forall k :: len < k < capacity ==> data[k] == Uninit;
    }

    /** `remove`: the value of a present key comes out of the map; an absent key changes nothing. */
    method Remove(key: int) returns (r: Option<V>)
      requires Valid()
      modifies this, data
      ensures Valid() && data == old(data)
      ensures r == if key in old(Model()) then Some(old(Model())[key]) else None
      ensures Model() == old(Model()) - {key}
      ensures contents == RemoveEntry(old(contents), key)
      ensures len == if key in old(Model()) then old(len) - 1 else old(len)
    {
      var i := Find(key);
      if i.Ok? {
        ToMapAt(contents, i.value);
        var p := RemoveIndex(i.value);
        r := Some(p.1);
      } else {
        ToMapDomain(contents, key);
        RemoveEntryAbsent(contents, key);
        r := None;
      }
    }

    /** `clear`: the map is replaced by a new, empty one. */
    method Clear()
      requires Valid()
      modifies this
      ensures Valid() && fresh(data)
      ensures contents == [] && Model() == map[]
    {
      data := new Slot<(int, V)>[capacity](_ => Uninit);
      len := 0;
      contents := [];
    }

    // ---- the Entry API ----

    /** An entry that still describes this map: a vacant key's insertion point, or an occupied slot. */
    ghost predicate IsCursor(e: Entry)
      reads this
    {
      match e
      case Vacant(key, index) => IsInsertionPoint(contents, key, index)
      case Occupied(index) => index < |contents|
    }

    /** `entry`: look the key up once and remember where it is, or where it would go. */
    method GetEntry(key: int) returns (e: Entry)
      requires Valid()
      ensures IsCursor(e)
      ensures e.Occupied? <==> key in Model()
      ensures e.Occupied? ==> contents[e.index].0 == key
      ensures e.Vacant? ==> e.key == key
    {
      var r := Find(key);
      match r
      case Ok(i) => e := Occupied(i);
      case Err(i) => e := Vacant(key, i);
    }

    /** `Entry::key` (and `VacantEntry::key`, `OccupiedEntry::key`): the key the entry is about. */
    function EntryKey(e: Entry): (k: int)
      reads this, data
      requires Valid() && IsCursor(e)
      ensures k in Model() <==> e.Occupied?
      ensures e.Occupied? ==> k == contents[e.index].0
    {
      match e
      case Vacant(key, index) =>
        InsertionPointAbsent(contents, key, index);
        key
      case Occupied(index) =>
        ToMapAt(contents, index);
        data[index].item.0
    }

    /** `OccupiedEntry::get`: the value in the entry's slot, which is the map's value for its key. */
    function OccupiedGet(e: Entry): (v: V)
      reads this, data
      requires Valid() && e.Occupied? && IsCursor(e)
      ensures EntryKey(e) in Model() && v == Model()[EntryKey(e)]
    {
      ToMapAt(contents, e.index);
      data[e.index].item.1
    }

    /**
      `VacantEntry::insert`: insert at the remembered slot without searching
      again; a full map panics, so it must have room. The result is the slot
      that the returned mutable reference points to.
    */
    method VacantInsert(e: Entry, value: V) returns (slot: nat)
      requires Valid() && e.Vacant? && IsCursor(e) && len < capacity
      modifies this, data
      ensures Valid() && data == old(data) && len == old(len) + 1
      ensures contents == InsertEntry(old(contents), e.key, value)
      ensures Model() == old(Model())[e.key := value]
      ensures slot == e.index && slot < len && contents[slot] == (e.key, value)
    {
      InsertEntryAt(contents, e.index, e.key, value);
      InsertionPointAbsent(contents, e.key, e.index);
      var r := TryInsertIndex(e.key, value, Some(e.index));
      slot := e.index;
    }

    /** `VacantEntry::try_insert`: as `VacantInsert`, but a full map gives the pair back. */
    method VacantTryInsert(e: Entry, value: V) returns (r: Result<nat, (int, V)>)
      requires Valid() && e.Vacant? && IsCursor(e)
      modifies this, data
      ensures Valid() && data == old(data)
      ensures r.Err? <==> old(len) == capacity
      ensures r.Err? ==> r.error == (e.key, value) && contents == old(contents)
      ensures r.Ok? ==> contents == InsertEntry(old(contents), e.key, value)
      ensures r.Ok? ==> Model() == old(Model())[e.key := value]
      ensures r.Ok? ==> r.value == e.index && r.value < len && contents[r.value] == (e.key, value)
    {
      InsertEntryAt(contents, e.index, e.key, value);
      var res := TryInsertIndex(e.key, value, Some(e.index));
      if res.Ok? {
        r := Ok(e.index);
      } else {
        r := Err(res.error);
      }
    }

    /** `OccupiedEntry::get_mut` followed by the caller's write `*x = f(*x)`. */
    method OccupiedModify(e: Entry, f: V -> V)
      requires Valid() && e.Occupied? && IsCursor(e)
      modifies this, data
      ensures Valid() && data == old(data) && len == old(len) && IsCursor(e)
      ensures contents == old(contents)[e.index := (old(contents)[e.index].0, f(old(contents)[e.index].1))]
      ensures Model() == old(Model())[old(contents)[e.index].0 := f(old(contents)[e.index].1)]
    {
      ghost var s := contents;
      ModifyAt(e.index, f);
      InsertEntryOverwrites(s, e.index, s[e.index].0, f(s[e.index].1));
      InsertEntryModel(s, s[e.index].0, f(s[e.index].1));
    }

    /** `OccupiedEntry::insert`: put a new value in the entry's slot and hand back the old one. */
    method OccupiedInsert(e: Entry, value: V) returns (previous: V)
      requires Valid() && e.Occupied? && IsCursor(e)
      modifies this, data
      ensures Valid() && data == old(data) && len == old(len) && IsCursor(e)
      ensures previous == old(contents)[e.index].1
      ensures previous == old(OccupiedGet(e))
      ensures contents == old(contents)[e.index := (old(contents)[e.index].0, value)]
      ensures Model() == old(Model())[old(contents)[e.index].0 := value]
    {
      ToMapAt(contents, e.index);
      previous := data[e.index].item.1;
      OccupiedModify(e, _ => value);
    }

    /** `OccupiedEntry::remove_entry`: take the entry's pair out of the map. */
    method OccupiedRemoveEntry(e: Entry) returns (p: (int, V))
      requires Valid() && e.Occupied? && IsCursor(e)
      modifies this, data
      ensures Valid() && data == old(data) && len == old(len) - 1
      ensures p == old(contents)[e.index]
      ensures p.0 in old(Model()) && p.1 == old(Model())[p.0]
      ensures Model() == old(Model()) - {p.0}
    {
      ToMapAt(contents, e.index);
      p := RemoveIndex(e.index);
    }

    /** `OccupiedEntry::remove`: the value half of `remove_entry`. */
    method OccupiedRemove(e: Entry) returns (v: V)
      requires Valid() && e.Occupied? && IsCursor(e)
      modifies this, data
      ensures Valid() && data == old(data) && len == old(len) - 1
      ensures v == old(OccupiedGet(e))
      ensures Model() == old(Model()) - {old(contents)[e.index].0}
    {
      var p := OccupiedRemoveEntry(e);
      v := p.1;
    }

    /**
      `Entry::or_insert`: a vacant entry inserts the default (panicking when
      the map is full), an occupied one leaves the map alone. The result is
      the slot the returned mutable reference points to.
    */
    method OrInsert(e: Entry, default: V) returns (slot: nat)
      requires Valid() && IsCursor(e)
      requires e.Vacant? ==> len < capacity
      modifies this, data
      ensures Valid() && data == old(data)
      ensures slot == e.index && slot < len
      ensures e.Occupied? ==> contents == old(contents)
      ensures e.Vacant? ==> contents == InsertEntry(old(contents), e.key, default)
      ensures e.Vacant? ==> Model() == old(Model())[e.key := default] && contents[slot] == (e.key, default)
    {
      match e
      case Vacant(_, _) =>
        slot := VacantInsert(e, default);
      case Occupied(index) =>
        slot := index;
    }

    /** `Entry::or_try_insert`: as `OrInsert`, but a full map gives the pair back instead of panicking. */
    method OrTryInsert(e: Entry, default: V) returns (r: Result<nat, (int, V)>)
      requires Valid() && IsCursor(e)
      modifies this, data
      ensures Valid() && data == old(data)
      ensures r.Err? <==> e.Vacant? && old(len) == capacity
      ensures r.Err? ==> r.error == (e.key, default) && contents == old(contents)
      ensures r.Ok? ==> r.value == e.index && r.value < len
      ensures e.Occupied? ==> contents == old(contents)
      ensures e.Vacant? && r.Ok? ==> contents == InsertEntry(old(contents), e.key, default)
      ensures e.Vacant? && r.Ok? ==> Model() == old(Model())[e.key := default]
    {
      match e
      case Vacant(_, _) =>
        r := VacantTryInsert(e, default);
      case Occupied(index) =>
        r := Ok(index);
    }

    /**
      `Entry::and_modify`: apply `f` to the value of an occupied entry; a
      vacant entry leaves the map alone. The same entry comes back, still
      describing the map.
    */
    method AndModify(e: Entry, f: V -> V) returns (e': Entry)
      requires Valid() && IsCursor(e)
      modifies this, data
      ensures Valid() && data == old(data) && len == old(len)
      ensures e' == e && IsCursor(e')
      ensures e.Vacant? ==> contents == old(contents)
      ensures e.Occupied? ==> contents == old(contents)[e.index := (old(contents)[e.index].0, f(old(contents)[e.index].1))]
    {
      if e.Occupied? {
        OccupiedModify(e, f);
      }
      e' := e;
    }

    // ---- bulk construction ----

    /** `from_iter`: insert the first `capacity` items into an empty map; later items are never looked at. */
    static method FromIter(capacity: nat, items: seq<(int, V)>) returns (m: ArrayMap<V>)
      ensures fresh(m) && fresh(m.data) && m.Valid() && m.capacity == capacity
      ensures m.Model() == InsertAll(map[], Take(items, capacity))
    {
      m := new ArrayMap(capacity);
      var n := |Take(items, capacity)|;
      var i := 0;
      while i < n
        invariant 0 <= i <= n
        invariant fresh(m) && fresh(m.data) && m.Valid() && m.capacity == capacity
        invariant m.Model() == InsertAll(map[], items[..i])
        invariant m.len <= i
      {
        InsertAllSize(map[], items[..i]);
        ToMapSize(m.contents);
        var r := m.Insert(items[i].0, items[i].1);
        InsertAllSnoc(map[], items[..i], items[i]);
        assert items[..i + 1] == items[..i] + [items[i]];
        i := i + 1;
      }
    }

    /** `extend`: insert items one after the other, stopping for good at the first one that is refused. */
    method Extend(items: seq<(int, V)>)
      requires Valid()
      modifies this, data
      ensures Valid() && data == old(data)
      ensures Model() == InsertUntilFull(old(Model()), capacity, items)
    {
      var i := 0;
      var full := false;
      while i < |items| && !full
        invariant 0 <= i <= |items|
        invariant Valid() && data == old(data)
        invariant InsertUntilFull(Model(), capacity, items[i..]) == InsertUntilFull(old(Model()), capacity, items)
        invariant full ==> |Model()| == capacity
        decreases |items| - i, if full then 0 else 1
      {
        ToMapSize(contents);
        ghost var before := Model();
        var r := TryInsert(items[i].0, items[i].1);
        if r.Err? {
          full := true;
        } else {
          assert items[i..][1..] == items[i + 1..];
          i := i + 1;
        }
      }
      if !full {
        assert items[i..] == [];
      }
    }

    /**
      `From<array>`, corrected: the pairs of the array are inserted one after
      the other, so that a repeated key keeps its last value and the
      occupied prefix keeps strictly ascending keys.
    */
    static method FromArray(a: array<(int, V)>) returns (m: ArrayMap<V>)
      ensures fresh(m) && fresh(m.data) && m.Valid() && m.capacity == a.Length
      ensures m.Model() == InsertAll(map[], a[..])
    {
      m := FromIter(a.Length, a[..]);
      assert a[..][..a.Length] == a[..];
    }
  }

  /** `PartialEq`: two maps are equal when their iterators yield the same pairs. */
  method Equal<V(==)>(a: ArrayMap<V>, b: ArrayMap<V>) returns (r: bool)
    requires a.Valid() && b.Valid()
    ensures r <==> a.contents == b.contents
    ensures r <==> a.Model() == b.Model()
  {
    if a.Model() == b.Model() {
      AscendingUnique(a.contents, b.contents);
    }
    var i := 0;
    while i < a.len && i < b.len
      invariant 0 <= i <= a.len && i <= b.len
      invariant a.contents[..i] == b.contents[..i]
    {
      if a.data[i] != b.data[i] {
        assert a.contents[i] != b.contents[i];
        return false;
      }
      assert a.contents[..i + 1] == a.contents[..i] + [a.contents[i]];
      assert b.contents[..i + 1] == b.contents[..i] + [b.contents[i]];
      i := i + 1;
    }
    r := a.len == b.len;
    if r {
      assert a.contents == a.contents[..i] && b.contents == b.contents[..i];
    }
  }

  // ---- From<array> as written ----

  function PairKey<V>(p: (int, V)): int {
    p.0
  }

  /**
    What `From<array>` puts in the backing array as written: the array sorted
    by key, all of it occupied (`len` is set to the capacity). Repeated keys
    are kept side by side.
  */
  function FromArrayAsWritten<V>(items: seq<(int, V)>): (r: seq<(int, V)>)
    ensures |r| == |items| && multiset(r) == multiset(items)
    ensures Sorting.NondecreasingBy(r, PairKey)
  {
    Sorting.SortBy(items, PairKey)
  }

  /**
    With a repeated key the as-written result breaks the invariant every
    other operation relies on: its keys do not strictly ascend, and its
    length (the `len` the source sets) exceeds the number of distinct keys.
  */
  lemma FromArrayAsWrittenKeepsDuplicates()
    ensures !KeysAscending(FromArrayAsWritten([(1, 10), (1, 20)]))
    ensures |ToMap(FromArrayAsWritten([(1, 10), (1, 20)]))| < |FromArrayAsWritten([(1, 10), (1, 20)])|
  {
    var r := FromArrayAsWritten([(1, 10), (1, 20)]);
    assert multiset(r) == multiset{(1, 10), (1, 20)};
    assert r[0] in multiset(r) && r[1] in multiset(r);
    assert r[0].0 == 1 && r[1].0 == 1;
    assert r == [r[0], r[1]];
    assert r[1..] == [r[1]];
    assert ToMap(r) == map[1 := r[0].1];
  }

  // ---- IntoIterator as written ----

  /**
    A map that is not full drains, as written, into more items than it
    holds: the slots past `len` were never written and are yielded anyway.
  */
  lemma IntoIterAsWrittenYieldsUninit<V>(m: ArrayMap<V>)
    requires m.Valid() && m.len < m.capacity
    ensures |m.IntoIterAsWritten()| > |m.IntoIter()|
    ensures Uninit in m.IntoIterAsWritten()
  {
    assert m.IntoIterAsWritten()[m.len] == Uninit;
  }
}
