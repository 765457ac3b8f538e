/**
  The ordered set that ArraySet implements and that TinySet promotes into
  (the `BTreeSet` of the heap state), stated on sequences of values.

  A sequence whose values strictly ascend is the occupied prefix of an
  ArraySet; `Elements` is the set it stands for. `InsertValue` and
  `RemoveValue` are reference definitions of inserting and removing on such a
  sequence, written by recursion rather than by searching and shifting; the
  lemmas tie them to set union and set difference, and `InOrder` is the
  in-order iteration of a set.
*/
module OrderedSets {

  ghost predicate Ascending(s: seq<int>) {
    forall i, j :: 0 <= i < j < |s| ==> s[i] < s[j]
  }

  /** Every value before `p` is smaller than `x`, every value from `p` on is larger. */
  ghost predicate IsInsertionPoint(s: seq<int>, x: int, p: int) {
    && 0 <= p <= |s|
    && (forall j :: 0 <= j < p ==> s[j] < x)
    && (forall j :: p <= j < |s| ==> x < s[j])
  }

  /** The set a sequence stands for. */
  ghost function Elements(s: seq<int>): set<int> {
    set x | x in s
  }

  /** Reference insertion: put x in order, leaving the sequence as it is if x is already there. */
  function InsertValue(s: seq<int>, x: int): seq<int> {
    if s == [] then [x]
    else if x < s[0] then [x] + s
    else if x == s[0] then s
    else [s[0]] + InsertValue(s[1..], x)
  }

  /** Reference removal: drop x, if it is there. */
  function RemoveValue(s: seq<int>, x: int): seq<int> {
    if s == [] then []
    else if s[0] == x then s[1..]
    else [s[0]] + RemoveValue(s[1..], x)
  }

  // ---- facts about ascending sequences ----

  lemma AscendingTail(s: seq<int>)
    requires Ascending(s) && s != []
    ensures Ascending(s[1..])
    ensures forall j :: 0 <= j < |s[1..]| ==> s[0] < s[1..][j]
    ensures s[0] !in s[1..]
  {
  }

  lemma AscendingCons(x: int, s: seq<int>)
    requires Ascending(s)
    requires s != [] ==> x < s[0]
    ensures Ascending([x] + s)
  {
    var r := [x] + s;
    forall i, j | 0 <= i < j < |r| ensures r[i] < r[j] {
      if i == 0 && j > 1 {
        assert r[j] == s[j - 1];
        assert s[0] < s[j - 1];
      }
    }
  }

  /** An ascending sequence holds each value once: the set has as many elements as the sequence. */
  lemma {:induction false} AscendingCard(s: seq<int>)
    requires Ascending(s)
    ensures |Elements(s)| == |s|
  {
    if s != [] {
      AscendingTail(s);
      AscendingCard(s[1..]);
      assert s == [s[0]] + s[1..];
      assert Elements(s) == Elements(s[1..]) + {s[0]};
    }
  }

  /** A sequence has at least as many entries as the set it stands for has elements. */
  lemma {:induction false} ElementsCardBound(s: seq<int>)
    ensures |Elements(s)| <= |s|
  {
    if s != [] {
      ElementsCardBound(s[1..]);
      assert s == [s[0]] + s[1..];
      assert Elements(s) == Elements(s[1..]) + {s[0]};
    }
  }

  lemma ElementsSnoc(s: seq<int>, x: int)
    ensures Elements(s + [x]) == Elements(s) + {x}
  {
    assert forall y :: y in s + [x] <==> y in s || y == x;
  }

  /** A value that has an insertion point is not in the sequence. */
  lemma InsertionPointAbsent(s: seq<int>, x: int, p: int)
    requires IsInsertionPoint(s, x, p)
    ensures x !in s && x !in Elements(s)
  {
    forall i | 0 <= i < |s| ensures s[i] != x {
      if i < p { assert s[i] < x; } else { assert x < s[i]; }
    }
  }

  // ---- the reference operations against set semantics ----

  lemma {:induction false} InsertValueElements(s: seq<int>, x: int)
    ensures Elements(InsertValue(s, x)) == Elements(s) + {x}
  {
    if s == [] {
    } else if x < s[0] {
    } else if x == s[0] {
    } else {
      InsertValueElements(s[1..], x);
      assert s == [s[0]] + s[1..];
      var rest := InsertValue(s[1..], x);
      assert Elements([s[0]] + rest) == {s[0]} + Elements(rest);
      assert Elements(s) == {s[0]} + Elements(s[1..]);
    }
  }

  /** Reference insertion keeps values strictly ascending, and its first value is the smaller of x and the old first value. */
  lemma {:induction false} InsertValueAscending(s: seq<int>, x: int)
    requires Ascending(s)
    ensures Ascending(InsertValue(s, x))
    ensures InsertValue(s, x)[0] == if s != [] && s[0] < x then s[0] else x
  {
    if s == [] {
    } else if x < s[0] {
      AscendingCons(x, s);
    } else if x == s[0] {
    } else {
      AscendingTail(s);
      InsertValueAscending(s[1..], x);
      AscendingCons(s[0], InsertValue(s[1..], x));
    }
  }

  /** A value already present leaves the sequence as it is. */
  lemma {:induction false} InsertValuePresent(s: seq<int>, x: int)
    requires Ascending(s) && x in s
    ensures InsertValue(s, x) == s
  {
    if s[0] != x {
      AscendingTail(s);
      assert s == [s[0]] + s[1..];
      assert x in s[1..];
      InsertValuePresent(s[1..], x);
    }
  }

  /** An absent value adds exactly one entry. */
  lemma InsertValueLength(s: seq<int>, x: int)
    requires Ascending(s)
    ensures |InsertValue(s, x)| == if x in s then |s| else |s| + 1
  {
    InsertValueElements(s, x);
    InsertValueAscending(s, x);
    AscendingCard(s);
    AscendingCard(InsertValue(s, x));
    if x in s {
      InsertValuePresent(s, x);
    } else {
      assert Elements(s) + {x} == Elements(s) + {x};
      assert x !in Elements(s);
    }
  }

  lemma {:induction false} RemoveValueElements(s: seq<int>, x: int)
    requires Ascending(s)
    ensures Elements(RemoveValue(s, x)) == Elements(s) - {x}
  {
    if s != [] {
      AscendingTail(s);
      assert s == [s[0]] + s[1..];
      assert Elements(s) == {s[0]} + Elements(s[1..]);
      if s[0] != x {
        RemoveValueElements(s[1..], x);
        var rest := RemoveValue(s[1..], x);
        assert Elements([s[0]] + rest) == {s[0]} + Elements(rest);
      }
    }
  }

  lemma {:induction false} RemoveValueAscending(s: seq<int>, x: int)
    requires Ascending(s)
    ensures Ascending(RemoveValue(s, x))
    ensures forall j :: 0 <= j < |RemoveValue(s, x)| ==> RemoveValue(s, x)[j] in s
  {
    if s != [] {
      AscendingTail(s);
      assert s == [s[0]] + s[1..];
      if s[0] != x {
        RemoveValueAscending(s[1..], x);
        var rest := RemoveValue(s[1..], x);
        if rest != [] {
          assert rest[0] in s[1..];
        }
        AscendingCons(s[0], rest);
        forall j | 0 <= j < |[s[0]] + rest| ensures ([s[0]] + rest)[j] in s {
          if j > 0 {
            assert ([s[0]] + rest)[j] == rest[j - 1];
          }
        }
      }
    }
  }

  /** Where the insertion point is known, reference insertion is the shift-right-and-place of `try_insert`. */
  lemma {:induction false} InsertValueAt(s: seq<int>, p: int, x: int)
    requires IsInsertionPoint(s, x, p)
    ensures InsertValue(s, x) == s[..p] + [x] + s[p..]
  {
    if p == 0 {
      assert s[..0] == [] && s[0..] == s;
    } else {
      InsertValueAt(s[1..], p - 1, x);
      assert s[..p] == [s[0]] + s[1..][..p - 1];
      assert s[p..] == s[1..][p - 1..];
    }
  }

  /** Where the value sits at index i, reference removal is the remove-and-shift-left of `remove`. */
  lemma {:induction false} RemoveValueAt(s: seq<int>, i: int)
    requires Ascending(s) && 0 <= i < |s|
    ensures RemoveValue(s, s[i]) == s[..i] + s[i + 1..]
  {
    if i == 0 {
      assert s[..0] == [];
    } else {
      var t := s[1..];
      var x := s[i];
      assert s[0] < x;
      assert t[i - 1] == x;
      AscendingTail(s);
      RemoveValueAt(t, i - 1);
      assert RemoveValue(s, x) == [s[0]] + RemoveValue(t, x);
      assert s[..i] == [s[0]] + t[..i - 1];
      assert s[i + 1..] == t[i..];
    }
  }

  lemma {:induction false} RemoveValueAbsent(s: seq<int>, x: int)
    requires x !in s
    ensures RemoveValue(s, x) == s
  {
    if s != [] {
      assert s == [s[0]] + s[1..];
      assert x !in s[1..];
      RemoveValueAbsent(s[1..], x);
    }
  }

  /** An ascending sequence is determined by the set it stands for: the sorted layout is unique. */
  lemma {:induction false} AscendingUnique(a: seq<int>, b: seq<int>)
    requires Ascending(a) && Ascending(b)
    requires Elements(a) == Elements(b)
    ensures a == b
  {
    if a != [] { assert a[0] in Elements(a); }
    if b != [] { assert b[0] in Elements(b); }
    if a != [] && b != [] {
      assert a[0] in Elements(b) && b[0] in Elements(a);
      var i :| 0 <= i < |b| && b[i] == a[0];
      var j :| 0 <= j < |a| && a[j] == b[0];
      assert a[0] == b[0];
      AscendingTail(a);
      AscendingTail(b);
      assert a == [a[0]] + a[1..] && b == [b[0]] + b[1..];
      assert Elements(a[1..]) == Elements(a) - {a[0]};
      assert Elements(b[1..]) == Elements(b) - {b[0]};
      AscendingUnique(a[1..], b[1..]);
    }
  }

  // ---- in-order iteration of a set ----

  lemma MinimumExists(e: set<int>)
    requires e != {}
    ensures exists x :: x in e && forall y :: y in e ==> x <= y
  {
    if forall y :: y !in e {
      assert false;
    }
    var x :| x in e;
    var rest := e - {x};
    if rest == {} {
      assert e == {x};
    } else {
      MinimumExists(rest);
      var k :| k in rest && forall y :: y in rest ==> k <= y;
      var least := if x < k then x else k;
      forall y | y in e ensures least <= y {
        if y != x { assert y in rest; }
      }
    }
  }

  lemma InOrderStep(e: set<int>, x: int, rest: seq<int>)
    requires x in e && forall y :: y in e ==> x <= y
    requires Ascending(rest) && Elements(rest) == e - {x} && |rest| == |e - {x}|
    ensures Ascending([x] + rest) && Elements([x] + rest) == e && |[x] + rest| == |e|
  {
    forall j | 0 <= j < |rest| ensures x < rest[j] {
      assert rest[j] in Elements(rest);
    }
    AscendingCons(x, rest);
    ElementsCons(x, rest);
    assert e == {x} + (e - {x});
  }

  lemma ElementsCons(x: int, s: seq<int>)
    ensures Elements([x] + s) == {x} + Elements(s)
  {
    assert forall y :: y in [x] + s <==> y == x || y in s;
  }

  /** The elements of a set in ascending order: what in-order iteration of the tree yields. */
  ghost function InOrder(e: set<int>): (r: seq<int>)
    ensures Ascending(r)
    ensures Elements(r) == e
    ensures |r| == |e|
    decreases |e|
  {
    if e == {} then []
    else
      MinimumExists(e);
      var x :| x in e && forall y :: y in e ==> x <= y;
      var rest := InOrder(e - {x});
      InOrderStep(e, x, rest);
      [x] + rest
  }

  /** Values kept in ascending order are exactly the in-order iteration of their set. */
  lemma AscendingIsInOrder(s: seq<int>)
    requires Ascending(s)
    ensures s == InOrder(Elements(s))
  {
    AscendingUnique(s, InOrder(Elements(s)));
  }
}
