/**
 * Ordering a discovered-symbol table before emission. The generator sorts
 * all 8192 slots of each table with the C library sort and TokenComparer,
 * which puts larger hashes first; empty slots (hash 0) therefore sink to the
 * end. The library sort itself is not modelled: the table after sorting is
 * SortDesc of the table before, a permutation ordered by TokenComparer.
 */
module Sorting {
  import opened Tables

  /** A hash as the unsigned number the comparison sees. */
  function Key(h: bv32): (k: nat)
    ensures k == 0 <==> h == 0
  {
    h as int
  }

  /** TokenComparer: negative when `a` goes first (larger hash), positive when
      `b` does, zero for equal hashes. */
  function TokenComparer<T>(a: Slot<T>, b: Slot<T>): int {
    if Key(a.hash) > Key(b.hash) then -1
    else if Key(b.hash) > Key(a.hash) then 1
    else 0
  }

  /** TokenComparer is a three-way comparison of the hashes: its sign is the
      reverse of hash order, it is antisymmetric, and an empty slot never goes
      before an occupied one. */
  lemma TokenComparerSign<T>(a: Slot<T>, b: Slot<T>)
    ensures TokenComparer(a, b) < 0 <==> Key(a.hash) > Key(b.hash)
    ensures TokenComparer(a, b) == 0 <==> Key(a.hash) == Key(b.hash)
    ensures TokenComparer(a, b) <= 0 <==> Key(a.hash) >= Key(b.hash)
    ensures TokenComparer(a, b) == -TokenComparer(b, a)
    ensures a.hash == 0 && b.hash != 0 ==> TokenComparer(a, b) > 0
  {
    var x, y := Key(a.hash), Key(b.hash);
    if x > y {
      assert TokenComparer(a, b) == -1 && TokenComparer(b, a) == 1;
    } else if y > x {
      assert TokenComparer(a, b) == 1 && TokenComparer(b, a) == -1;
    } else {
      assert TokenComparer(a, b) == 0 && TokenComparer(b, a) == 0;
    }
  }

  /** TokenComparer orders transitively. */
  lemma TokenComparerOrder<T>(a: Slot<T>, b: Slot<T>, c: Slot<T>)
    ensures TokenComparer(a, b) <= 0 && TokenComparer(b, c) <= 0 ==> TokenComparer(a, c) <= 0
  {
    TokenComparerSign(a, b);
    TokenComparerSign(b, c);
    TokenComparerSign(a, c);
  }

  /** Ordered as TokenComparer orders: hashes never increase. */
  ghost predicate SortedDesc<T>(s: seq<Slot<T>>) {
    forall i, j :: 0 <= i < j < |s| ==> Key(s[i].hash) >= Key(s[j].hash)
  }

  /** Sorted, with no non-zero hash twice: the non-zero hashes in strictly
      descending order, the empty slots after them. */
  ghost predicate Strict<T>(s: seq<Slot<T>>) {
    SortedDesc(s) &&
    forall i, j :: 0 <= i < j < |s| && s[j].hash != 0 ==> s[i].hash != s[j].hash
  }

  /** Insert `e` in front of the first slot with a smaller hash. */
  function InsertDesc<T>(e: Slot<T>, s: seq<Slot<T>>): (r: seq<Slot<T>>)
    ensures |r| == |s| + 1 && multiset(r) == multiset(s) + multiset{e}
    ensures CountOccupied(r) == CountOccupied(s) + (if e.hash != 0 then 1 else 0)
  {
    if s == [] || Key(e.hash) >= Key(s[0].hash) then
      assert ([e] + s)[1..] == s;
      [e] + s
    else
      assert s == [s[0]] + s[1..];
      var r := [s[0]] + InsertDesc(e, s[1..]);
      assert r[1..] == InsertDesc(e, s[1..]);
      r
  }

  /** Every slot of InsertDesc(e, s) is `e` or a slot of `s`. */
  lemma InsertFrom<T>(e: Slot<T>, s: seq<Slot<T>>, i: nat)
    requires i < |InsertDesc(e, s)|
    ensures InsertDesc(e, s)[i] == e || exists k :: 0 <= k < |s| && s[k] == InsertDesc(e, s)[i]
  {
    var r := InsertDesc(e, s);
    assert r[i] in multiset(r);
    if r[i] != e {
      assert r[i] in multiset(s);
    }
  }

  /** Dropping the first slot keeps a sequence sorted. */
  lemma SortedTail<T>(s: seq<Slot<T>>)
    requires s != [] && SortedDesc(s)
    ensures SortedDesc(s[1..])
  {
    forall i, j | 0 <= i < j < |s[1..]|
      ensures Key(s[1..][i].hash) >= Key(s[1..][j].hash)
    {
      assert s[1..][i] == s[i + 1] && s[1..][j] == s[j + 1];
    }
  }

  /** A slot whose hash is at least the first one's goes in front. */
  lemma PrependSorted<T>(e: Slot<T>, s: seq<Slot<T>>)
    requires SortedDesc(s) && (s == [] || Key(e.hash) >= Key(s[0].hash))
    ensures SortedDesc([e] + s)
  {
    forall i, j | 0 <= i < j < |[e] + s|
      ensures Key(([e] + s)[i].hash) >= Key(([e] + s)[j].hash)
    {
      assert ([e] + s)[j] == s[j - 1];
      if 0 < i {
        assert ([e] + s)[i] == s[i - 1];
      }
    }
  }

  /** Inserting into a sorted sequence keeps it sorted. */
  lemma {:induction false} InsertSorted<T>(e: Slot<T>, s: seq<Slot<T>>)
    requires SortedDesc(s)
    ensures SortedDesc(InsertDesc(e, s))
  {
    if s == [] || Key(e.hash) >= Key(s[0].hash) {
      PrependSorted(e, s);
    } else {
      var t := InsertDesc(e, s[1..]);
      SortedTail(s);
      InsertSorted(e, s[1..]);
      InsertFrom(e, s[1..], 0);
      if t[0] != e {
        var k :| 0 <= k < |s[1..]| && s[1..][k] == t[0];
        assert s[k + 1] == t[0];
      }
      PrependSorted(s[0], t);
    }
  }

  /** The table as the library sort leaves it: the same slots, ordered by
      TokenComparer. */
  function SortDesc<T>(s: seq<Slot<T>>): (r: seq<Slot<T>>)
    ensures |r| == |s| && multiset(r) == multiset(s) && SortedDesc(r)
    ensures CountOccupied(r) == CountOccupied(s)
  {
    if s == [] then []
    else
      assert s == [s[0]] + s[1..];
      var t := SortDesc(s[1..]);
      InsertSorted(s[0], t);
      InsertDesc(s[0], t)
  }

  /** Dropping the first slot keeps the order strict. */
  lemma StrictTail<T>(s: seq<Slot<T>>)
    requires s != [] && Strict(s)
    ensures Strict(s[1..])
  {
    SortedTail(s);
    forall i, j | 0 <= i < j < |s[1..]| && s[1..][j].hash != 0
      ensures s[1..][i].hash != s[1..][j].hash
    {
      assert s[1..][i] == s[i + 1] && s[1..][j] == s[j + 1];
    }
  }

  /** A slot goes in front of a strict sequence when its hash is at least the
      first one's and differs from every non-zero hash there. */
  lemma PrependStrict<T>(e: Slot<T>, s: seq<Slot<T>>)
    requires Strict(s) && (s == [] || Key(e.hash) >= Key(s[0].hash))
    requires forall i :: 0 <= i < |s| && s[i].hash != 0 ==> s[i].hash != e.hash
    ensures Strict([e] + s)
  {
    PrependSorted(e, s);
    forall i, j | 0 <= i < j < |[e] + s| && ([e] + s)[j].hash != 0
      ensures ([e] + s)[i].hash != ([e] + s)[j].hash
    {
      assert ([e] + s)[j] == s[j - 1];
      if 0 < i {
        assert ([e] + s)[i] == s[i - 1];
      }
    }
  }

  /** A hash that neither `e` nor any slot of `s` has is not in InsertDesc(e, s). */
  lemma InsertAvoids<T>(e: Slot<T>, s: seq<Slot<T>>, h: bv32)
    requires e.hash != h && forall k :: 0 <= k < |s| ==> s[k].hash != h
    ensures forall j :: 0 <= j < |InsertDesc(e, s)| ==> InsertDesc(e, s)[j].hash != h
  {
    forall j | 0 <= j < |InsertDesc(e, s)|
      ensures InsertDesc(e, s)[j].hash != h
    {
      InsertFrom(e, s, j);
    }
  }

  /** Inserting a hash that is 0 or new keeps the order strict. */
  lemma {:induction false} InsertStrict<T>(e: Slot<T>, s: seq<Slot<T>>)
    requires Strict(s)
    requires e.hash != 0 ==> forall i :: 0 <= i < |s| ==> s[i].hash != e.hash
    ensures Strict(InsertDesc(e, s))
  {
    if s == [] || Key(e.hash) >= Key(s[0].hash) {
      PrependStrict(e, s);
    } else {
      StrictTail(s);
      InsertStrict(e, s[1..]);
      InsertSorted(e, s);
      var t := InsertDesc(e, s[1..]);
      forall k | 0 <= k < |s[1..]|
        ensures s[1..][k].hash != s[0].hash
      {
        assert s[1..][k] == s[k + 1];
      }
      InsertAvoids(e, s[1..], s[0].hash);
      assert Key(s[0].hash) >= Key(t[0].hash) by {
        assert SortedDesc([s[0]] + t);
        assert ([s[0]] + t)[1] == t[0];
      }
      PrependStrict(s[0], t);
    }
  }

  /** A table with no non-zero hash twice sorts into strict order. */
  lemma {:induction false} SortStrict<T>(s: seq<Slot<T>>)
    requires DistinctExcept(s, {})
    ensures Strict(SortDesc(s))
  {
    if s != [] {
      assert DistinctExcept(s[1..], {}) by {
        forall p, q | 0 <= p < q < |s[1..]| && s[1..][p].hash != 0
          ensures s[1..][p].hash != s[1..][q].hash
        {
          assert s[p + 1] == s[1..][p] && s[q + 1] == s[1..][q];
        }
      }
      SortStrict(s[1..]);
      var r := SortDesc(s[1..]);
      forall i | 0 <= i < |r| && s[0].hash != 0
        ensures r[i].hash != s[0].hash
      {
        assert r[i] in multiset(s[1..]);
        var k :| 0 <= k < |s[1..]| && s[1..][k] == r[i];
        assert s[k + 1] == r[i];
      }
      InsertStrict(s[0], r);
    }
  }

  /** Once sorted, the occupied slots are exactly the first CountOccupied
      ones: an empty slot never goes before an occupied one. */
  lemma {:induction false} OccupiedPrefix<T>(s: seq<Slot<T>>)
    requires SortedDesc(s)
    ensures forall i :: 0 <= i < |s| ==> (s[i].hash != 0 <==> i < CountOccupied(s))
  {
    if s != [] {
      SortedTail(s);
      OccupiedPrefix(s[1..]);
      if s[0].hash == 0 {
        forall i | 0 < i < |s|
          ensures s[i].hash == 0
        {
          assert Key(s[0].hash) >= Key(s[i].hash);
        }
        if 0 < CountOccupied(s[1..]) {
          assert s[1..][0] == s[1];
        }
      } else {
        forall i | 0 < i < |s|
          ensures s[i].hash != 0 <==> i < CountOccupied(s)
        {
          assert s[1..][i - 1] == s[i];
        }
      }
    }
  }

  /** The library sort on the table's array: the slots become SortDesc of
      the slots before. */
  method QSort<T>(table: Table<T>)
    requires table.Valid()
    modifies table.slots
    ensures table.slots[..] == SortDesc(old(table.slots[..]))
  {
    var sorted := SortDesc(table.slots[..]);
    forall i | 0 <= i < table.slots.Length {
      table.slots[i] := sorted[i];
    }
  }
}
