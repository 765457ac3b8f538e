/**
  The ordered map that ArrayMap implements and that TinyMap promotes into
  (the `BTreeMap` of the heap state), stated on sequences of key-value pairs.

  A sequence whose keys strictly ascend is the occupied prefix of an ArrayMap;
  `ToMap` is the map it stands for. `InsertEntry` and `RemoveEntry` are
  reference definitions of inserting and removing on such a sequence, written
  by recursion rather than by searching and shifting; the lemmas tie them to
  map update and map removal, and `InOrder` is the in-order iteration of a map.
*/
module OrderedMaps {

  ghost predicate KeysAscending<V>(s: seq<(int, V)>) {
    forall i, j :: 0 <= i < j < |s| ==> s[i].0 < s[j].0
  }

  ghost predicate HasKey<V>(s: seq<(int, V)>, key: int) {
    exists i :: 0 <= i < |s| && s[i].0 == key
  }

  /** Every key before `p` is smaller than `key`, every key from `p` on is larger. */
  ghost predicate IsInsertionPoint<V>(s: seq<(int, V)>, key: int, p: int) {
    && 0 <= p <= |s|
    && (forall j :: 0 <= j < p ==> s[j].0 < key)
    && (forall j :: p <= j < |s| ==> key < s[j].0)
  }

  /** The map a pair sequence stands for (an earlier pair wins over a later one with the same key). */
  ghost function ToMap<V>(s: seq<(int, V)>): map<int, V> {
    if s == [] then map[] else ToMap(s[1..])[s[0].0 := s[0].1]
  }

  /** Reference insertion: put (k, v) in key order, replacing the pair with key k if there is one. */
  function InsertEntry<V>(s: seq<(int, V)>, k: int, v: V): seq<(int, V)> {
    if s == [] then [(k, v)]
    else if k < s[0].0 then [(k, v)] + s
    else if k == s[0].0 then [(k, v)] + s[1..]
    else [s[0]] + InsertEntry(s[1..], k, v)
  }

  /** Reference removal: drop the pair with key k, if there is one. */
  function RemoveEntry<V>(s: seq<(int, V)>, k: int): seq<(int, V)> {
    if s == [] then []
    else if s[0].0 == k then s[1..]
    else [s[0]] + RemoveEntry(s[1..], k)
  }

  /** The map reached by inserting the pairs one after the other, a later pair overwriting an earlier one. */
  ghost function InsertAll<V>(m: map<int, V>, items: seq<(int, V)>): map<int, V>
    decreases |items|
  {
    if items == [] then m else InsertAll(m[items[0].0 := items[0].1], items[1..])
  }

  /**
    Inserting pairs one after the other into a container that rejects a new
    pair once it holds `capacity` keys, and stops at the first rejection
    (`Extend` on ArrayMap).
  */
  ghost function InsertUntilFull<V>(m: map<int, V>, capacity: nat, items: seq<(int, V)>): map<int, V>
    decreases |items|
  {
    if items == [] || |m| == capacity then m
    else InsertUntilFull(m[items[0].0 := items[0].1], capacity, items[1..])
  }

  // ---- facts about ascending sequences ----

  lemma AscendingTail<V>(s: seq<(int, V)>)
    requires KeysAscending(s) && s != []
    ensures KeysAscending(s[1..])
    ensures forall j :: 0 <= j < |s[1..]| ==> s[0].0 < s[1..][j].0
  {
  }

  lemma AscendingCons<V>(p: (int, V), s: seq<(int, V)>)
    requires KeysAscending(s)
    requires s != [] ==> p.0 < s[0].0
    ensures KeysAscending([p] + s)
  {
    var r := [p] + s;
    forall i, j | 0 <= i < j < |r| ensures r[i].0 < r[j].0 {
      if i == 0 && j > 1 {
        assert r[j] == s[j - 1];
        assert s[0].0 < s[j - 1].0;
      }
    }
  }

  lemma {:induction false} ToMapDomain<V>(s: seq<(int, V)>, k: int)
    ensures k in ToMap(s) <==> HasKey(s, k)
  {
    if s != [] {
      ToMapDomain(s[1..], k);
      if HasKey(s[1..], k) {
        var i :| 0 <= i < |s[1..]| && s[1..][i].0 == k;
        assert s[i + 1].0 == k;
      }
      if HasKey(s, k) && s[0].0 != k {
        var i :| 0 <= i < |s| && s[i].0 == k;
        assert s[1..][i - 1].0 == k;
      }
    }
  }

  /** In an ascending sequence each pair is what the map holds for its key. */
  lemma {:induction false} ToMapAt<V>(s: seq<(int, V)>, i: int)
    requires KeysAscending(s) && 0 <= i < |s|
    ensures s[i].0 in ToMap(s) && ToMap(s)[s[i].0] == s[i].1
  {
    if i > 0 {
      AscendingTail(s);
      ToMapAt(s[1..], i - 1);
      assert s[1..][i - 1] == s[i];
    }
  }

  /** An ascending sequence holds each key once, so the map has as many keys as the sequence has pairs. */
  lemma {:induction false} ToMapSize<V>(s: seq<(int, V)>)
    requires KeysAscending(s)
    ensures |ToMap(s)| == |s|
  {
    if s != [] {
      AscendingTail(s);
      ToMapSize(s[1..]);
      ToMapDomain(s[1..], s[0].0);
      assert s[0].0 !in ToMap(s[1..]);
    }
  }

  /** A key that has an insertion point is not in the map. */
  lemma InsertionPointAbsent<V>(s: seq<(int, V)>, key: int, p: int)
    requires IsInsertionPoint(s, key, p)
    ensures !HasKey(s, key) && key !in ToMap(s)
  {
    forall i | 0 <= i < |s| ensures s[i].0 != key {
      if i < p { assert s[i].0 < key; } else { assert key < s[i].0; }
    }
    ToMapDomain(s, key);
  }

  // ---- the reference operations against map semantics ----

  /** Reference insertion performs map update (no ordering needed for this). */
  lemma {:induction false} InsertEntryToMap<V>(s: seq<(int, V)>, k: int, v: V)
    ensures ToMap(InsertEntry(s, k, v)) == ToMap(s)[k := v]
  {
    if s == [] {
    } else if k < s[0].0 {
      assert ([(k, v)] + s)[1..] == s;
    } else if k == s[0].0 {
      assert ([(k, v)] + s[1..])[1..] == s[1..];
    } else {
      InsertEntryToMap(s[1..], k, v);
      var rest := InsertEntry(s[1..], k, v);
      assert ([s[0]] + rest)[1..] == rest;
      assert ToMap(rest)[s[0].0 := s[0].1] == ToMap(s[1..])[s[0].0 := s[0].1][k := v];
    }
  }

  /** Reference insertion keeps keys strictly ascending, and its first key is the smaller of k and the old first key. */
  lemma {:induction false} InsertEntryAscending<V>(s: seq<(int, V)>, k: int, v: V)
    requires KeysAscending(s)
    ensures KeysAscending(InsertEntry(s, k, v))
    ensures InsertEntry(s, k, v)[0].0 == if s != [] && s[0].0 < k then s[0].0 else k
  {
    if s == [] {
    } else if k < s[0].0 {
      AscendingCons((k, v), s);
    } else if k == s[0].0 {
      AscendingTail(s);
      AscendingCons((k, v), s[1..]);
    } else {
      AscendingTail(s);
      InsertEntryAscending(s[1..], k, v);
      AscendingCons(s[0], InsertEntry(s[1..], k, v));
    }
  }

  /** Reference insertion adds one pair exactly when the key was absent. */
  lemma {:induction false} InsertEntryLength<V>(s: seq<(int, V)>, k: int, v: V)
    requires KeysAscending(s)
    ensures |InsertEntry(s, k, v)| == if HasKey(s, k) then |s| else |s| + 1
  {
    if s == [] {
    } else if k < s[0].0 {
      assert !HasKey(s, k);
    } else if k == s[0].0 {
      assert HasKey(s, k);
    } else {
      AscendingTail(s);
      InsertEntryLength(s[1..], k, v);
      if HasKey(s, k) {
        var i :| 0 <= i < |s| && s[i].0 == k;
        assert s[1..][i - 1].0 == k;
      }
      if HasKey(s[1..], k) {
        var i :| 0 <= i < |s[1..]| && s[1..][i].0 == k;
        assert s[i + 1].0 == k;
      }
    }
  }

  /** The three facts about reference insertion that the containers rely on. */
  lemma InsertEntryModel<V>(s: seq<(int, V)>, k: int, v: V)
    requires KeysAscending(s)
    ensures KeysAscending(InsertEntry(s, k, v))
    ensures ToMap(InsertEntry(s, k, v)) == ToMap(s)[k := v]
    ensures |InsertEntry(s, k, v)| == if k in ToMap(s) then |s| else |s| + 1
  {
    InsertEntryToMap(s, k, v);
    InsertEntryAscending(s, k, v);
    InsertEntryLength(s, k, v);
    ToMapDomain(s, k);
  }

  /** Reference removal performs map removal. */
  lemma {:induction false} RemoveEntryToMap<V>(s: seq<(int, V)>, k: int)
    requires KeysAscending(s)
    ensures ToMap(RemoveEntry(s, k)) == ToMap(s) - {k}
  {
    if s != [] {
      AscendingTail(s);
      if s[0].0 == k {
        ToMapDomain(s[1..], k);
        assert k !in ToMap(s[1..]);
      } else {
        RemoveEntryToMap(s[1..], k);
        var rest := RemoveEntry(s[1..], k);
        assert ([s[0]] + rest)[1..] == rest;
        assert ToMap(rest)[s[0].0 := s[0].1] == (ToMap(s[1..]) - {k})[s[0].0 := s[0].1];
      }
    }
  }

  /** Reference removal keeps keys strictly ascending; every key it keeps was a key before. */
  lemma {:induction false} RemoveEntryAscending<V>(s: seq<(int, V)>, k: int)
    requires KeysAscending(s)
    ensures KeysAscending(RemoveEntry(s, k))
    ensures forall j :: 0 <= j < |RemoveEntry(s, k)| ==> HasKey(s, RemoveEntry(s, k)[j].0)
  {
    if s != [] {
      AscendingTail(s);
      if s[0].0 == k {
        forall j | 0 <= j < |s[1..]| ensures HasKey(s, s[1..][j].0) {
          assert s[j + 1] == s[1..][j];
        }
      } else {
        RemoveEntryAscending(s[1..], k);
        var rest := RemoveEntry(s[1..], k);
        var r := [s[0]] + rest;
        if rest != [] {
          assert HasKey(s[1..], rest[0].0);
          var j :| 0 <= j < |s[1..]| && s[1..][j].0 == rest[0].0;
        }
        AscendingCons(s[0], rest);
        forall j | 0 <= j < |r| ensures HasKey(s, r[j].0) {
          if j > 0 {
            assert r[j] == rest[j - 1];
            assert HasKey(s[1..], rest[j - 1].0);
            var i :| 0 <= i < |s[1..]| && s[1..][i].0 == rest[j - 1].0;
            assert s[i + 1].0 == r[j].0;
          } else {
            assert s[0].0 == r[0].0;
          }
        }
      }
    }
  }

  lemma RemoveEntryModel<V>(s: seq<(int, V)>, k: int)
    requires KeysAscending(s)
    ensures KeysAscending(RemoveEntry(s, k))
    ensures ToMap(RemoveEntry(s, k)) == ToMap(s) - {k}
  {
    RemoveEntryToMap(s, k);
    RemoveEntryAscending(s, k);
  }

  /** Where the insertion point is known, reference insertion is the shift-right-and-place of `try_insert`. */
  lemma {:induction false} InsertEntryAt<V>(s: seq<(int, V)>, p: int, k: int, v: V)
    requires IsInsertionPoint(s, k, p)
    ensures InsertEntry(s, k, v) == s[..p] + [(k, v)] + s[p..]
  {
    if p == 0 {
      assert s[..0] == [] && s[0..] == s;
    } else {
      InsertEntryAt(s[1..], p - 1, k, v);
      assert s[..p] == [s[0]] + s[1..][..p - 1];
      assert s[p..] == s[1..][p - 1..];
    }
  }

  /** Where the key is present at index i, reference insertion overwrites slot i. */
  lemma {:induction false} InsertEntryOverwrites<V>(s: seq<(int, V)>, i: int, k: int, v: V)
    requires KeysAscending(s) && 0 <= i < |s| && s[i].0 == k
    ensures InsertEntry(s, k, v) == s[i := (k, v)]
  {
    if i > 0 {
      AscendingTail(s);
      assert s[0].0 < s[i].0;
      InsertEntryOverwrites(s[1..], i - 1, k, v);
      assert s[i := (k, v)] == [s[0]] + s[1..][i - 1 := (k, v)];
    } else {
      assert s[0 := (k, v)] == [(k, v)] + s[1..];
    }
  }

  /** Where the key is present at index i, reference removal is the remove-and-shift-left of `remove_index`. */
  lemma {:induction false} RemoveEntryAt<V>(s: seq<(int, V)>, i: int)
    requires KeysAscending(s) && 0 <= i < |s|
    ensures RemoveEntry(s, s[i].0) == s[..i] + s[i + 1..]
  {
    if i == 0 {
      assert s[..0] == [];
    } else {
      var t := s[1..];
      var k := s[i].0;
      assert s[0].0 < k;
      assert t[i - 1] == s[i];
      AscendingTail(s);
      RemoveEntryAt(t, i - 1);
      assert RemoveEntry(s, k) == [s[0]] + RemoveEntry(t, k);
      assert s[..i] == [s[0]] + t[..i - 1];
      assert s[i + 1..] == t[i..];
    }
  }

  lemma {:induction false} RemoveEntryAbsent<V>(s: seq<(int, V)>, k: int)
    requires !HasKey(s, k)
    ensures RemoveEntry(s, k) == s
  {
    if s != [] {
      assert s[0].0 != k;
      forall i | 0 <= i < |s[1..]| ensures s[1..][i].0 != k {
        assert s[1..][i] == s[i + 1];
      }
      RemoveEntryAbsent(s[1..], k);
    }
  }

  /** An ascending sequence is determined by the map it stands for: the sorted layout is unique. */
  lemma {:induction false} AscendingUnique<V>(a: seq<(int, V)>, b: seq<(int, V)>)
    requires KeysAscending(a) && KeysAscending(b)
    requires ToMap(a) == ToMap(b)
    ensures a == b
  {
    if a == [] || b == [] {
      if a != [] { ToMapAt(a, 0); }
      if b != [] { ToMapAt(b, 0); }
    } else {
      ToMapAt(a, 0);
      ToMapAt(b, 0);
      ToMapDomain(b, a[0].0);
      ToMapDomain(a, b[0].0);
      var i :| 0 <= i < |b| && b[i].0 == a[0].0;
      var j :| 0 <= j < |a| && a[j].0 == b[0].0;
      assert a[0].0 == b[0].0;
      AscendingTail(a);
      AscendingTail(b);
      ToMapDomain(a[1..], a[0].0);
      ToMapDomain(b[1..], b[0].0);
      assert ToMap(a[1..]) == ToMap(a) - {a[0].0};
      assert ToMap(b[1..]) == ToMap(b) - {b[0].0};
      AscendingUnique(a[1..], b[1..]);
      assert a == [a[0]] + a[1..] && b == [b[0]] + b[1..];
    }
  }

  /** Inserting the pairs of an ascending sequence one by one builds the map it stands for. */
  lemma {:induction false} InsertAllAscending<V>(m: map<int, V>, s: seq<(int, V)>)
    requires KeysAscending(s)
    ensures InsertAll(m, s) == m + ToMap(s)
    decreases |s|
  {
    if s != [] {
      AscendingTail(s);
      InsertAllAscending(m[s[0].0 := s[0].1], s[1..]);
      ToMapDomain(s[1..], s[0].0);
      assert m[s[0].0 := s[0].1] + ToMap(s[1..]) == m + ToMap(s);
    }
  }

  /** Inserting one more pair at the end is one more map update. */
  lemma {:induction false} InsertAllSnoc<V>(m: map<int, V>, s: seq<(int, V)>, p: (int, V))
    ensures InsertAll(m, s + [p]) == InsertAll(m, s)[p.0 := p.1]
    decreases |s|
  {
    if s == [] {
      assert [] + [p] == [p];
      assert [p][1..] == [];
    } else {
      assert (s + [p])[1..] == s[1..] + [p];
      InsertAllSnoc(m[s[0].0 := s[0].1], s[1..], p);
    }
  }

  lemma {:induction false} InsertAllSize<V>(m: map<int, V>, items: seq<(int, V)>)
    ensures |InsertAll(m, items)| <= |m| + |items|
    decreases |items|
  {
    if items != [] {
      InsertAllSize(m[items[0].0 := items[0].1], items[1..]);
    }
  }

  /**
    `InsertUntilFull` inserts some prefix of the items; where it does not
    reach the end, the container was full.
  */
  lemma {:induction false} InsertUntilFullStops<V>(m: map<int, V>, capacity: nat, items: seq<(int, V)>)
    returns (n: nat)
    requires |m| <= capacity
    ensures n <= |items|
    ensures InsertUntilFull(m, capacity, items) == InsertAll(m, items[..n])
    ensures n < |items| ==> |InsertUntilFull(m, capacity, items)| == capacity
    ensures |InsertUntilFull(m, capacity, items)| <= capacity
    decreases |items|
  {
    if items == [] || |m| == capacity {
      n := 0;
    } else {
      var n' := InsertUntilFullStops(m[items[0].0 := items[0].1], capacity, items[1..]);
      n := n' + 1;
      assert items[..n][1..] == items[1..][..n'];
    }
  }

  // ---- in-order iteration of a map ----

  lemma MinimumExists(keys: set<int>)
    requires keys != {}
    ensures exists k :: k in keys && forall j :: j in keys ==> k <= j
  {
    if forall y :: y !in keys {
      assert false;
    }
    var x :| x in keys;
    var rest := keys - {x};
    if rest == {} {
      assert keys == {x};
    } else {
      MinimumExists(rest);
      var k :| k in rest && forall j :: j in rest ==> k <= j;
      var least := if x < k then x else k;
      forall j | j in keys ensures least <= j {
        if j != x { assert j in rest; }
      }
    }
  }

  /** The pairs of a map in ascending key order: what in-order iteration of the tree yields. */
  ghost function InOrder<V>(m: map<int, V>): (r: seq<(int, V)>)
    ensures KeysAscending(r)
    ensures ToMap(r) == m
    ensures |r| == |m|
    decreases |m|
  {
    if m == map[] then []
    else
      MinimumExists(m.Keys);
      var k :| k in m && forall j :: j in m ==> k <= j;
      assert |m - {k}| < |m|;
      var rest := InOrder(m - {k});
      forall j | 0 <= j < |rest| ensures k < rest[j].0 {
        ToMapDomain(rest, rest[j].0);
      }
      AscendingCons((k, m[k]), rest);
      assert ([(k, m[k])] + rest)[1..] == rest;
      assert (m - {k})[k := m[k]] == m;
      [(k, m[k])] + rest
  }

  /** Pairs kept in ascending order are exactly the in-order iteration of their map. */
  lemma AscendingIsInOrder<V>(s: seq<(int, V)>)
    requires KeysAscending(s)
    ensures s == InOrder(ToMap(s))
  {
    AscendingUnique(s, InOrder(ToMap(s)));
  }
}
