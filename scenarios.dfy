/**
  The usage examples of the library's documentation, written as client
  methods whose postconditions are the examples' assertions.
*/
module Scenarios {
  import opened Wrappers
  import opened ArrayMaps
  import opened TinyMaps
  import opened TinySets

  /** Inserting an existing key returns the old value; indexing sees the new one. */
  method ArrayMapInsertOverwrites() returns (first: Option<string>, third: Option<string>, indexed: string)
    ensures first == None && third == Some("b") && indexed == "c"
  {
    var m := new ArrayMap<string>(10);
    first := m.Insert(37, "a");
    var second := m.Insert(37, "b");
    third := m.Insert(37, "c");
    indexed := m.Index(37);
  }

  /** Three pairs fit in a map of capacity 3; a fourth is handed back. */
  method ArrayMapTryInsertRejectsWhenFull() returns (last: Result<Option<int>, (int, int)>)
    ensures last == Err((0, 4))
  {
    var m := new ArrayMap<int>(3);
    var r := m.TryInsert(37, 1);
    r := m.TryInsert(2, 2);
    r := m.TryInsert(16, 3);
    last := m.TryInsert(0, 4);
  }

  /** Removing a key returns its value once, and nothing the second time. */
  method ArrayMapRemoveTwice() returns (first: Option<string>, second: Option<string>)
    ensures first == Some("a") && second == None
  {
    var m := new ArrayMap<string>(10);
    var r := m.Insert(1, "a");
    first := m.Remove(1);
    second := m.Remove(1);
  }

  /** `entry(k).and_modify(|e| *e += 1).or_insert(42)`, twice: 42, then 43. */
  method ArrayMapEntryCounter() returns (once: int, twice: int)
    ensures once == 42 && twice == 43
  {
    var m := new ArrayMap<int>(10);
    var e := m.GetEntry(5);
    e := m.AndModify(e, x => x + 1);
    var slot := m.OrInsert(e, 42);
    once := m.Index(5);
    e := m.GetEntry(5);
    e := m.AndModify(e, x => x + 1);
    slot := m.OrInsert(e, 42);
    twice := m.Index(5);
  }

  /** A second insert into a TinyMap of capacity 1 promotes it; the first key is still found. */
  method TinyMapPromotionKeepsLookups() returns (heap: bool, earlier: Option<string>, later: Option<string>)
    ensures heap && earlier == Some("a") && later == Some("b")
  {
    var t := new TinyMap<string>(1);
    var r := t.Insert(1, "a");
    r := t.Insert(2, "b");
    heap := t.state.Heap?;
    earlier := t.Get(1);
    later := t.Get(2);
  }

  /** Removing a key from a TinyMap returns its value once, and nothing the second time. */
  method TinyMapRemoveTwice() returns (first: Option<string>, second: Option<string>)
    ensures first == Some("a") && second == None
  {
    var t := new TinyMap<string>(10);
    var r := t.Insert(1, "a");
    first := t.Remove(1);
    second := t.Remove(1);
  }

  /** Inserting the same value twice into a TinySet: `true`, then `false`, and one element. */
  method TinySetInsertTwice() returns (first: bool, second: bool, n: nat)
    ensures first && !second && n == 1
  {
    var s := new TinySet(10);
    first := s.Insert(2);
    second := s.Insert(2);
    n := s.Len();
  }
}
