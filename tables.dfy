/**
 * The fixed-capacity symbol tables: 8192 slots, linear probing from
 * `hash & 8191`, hash 0 marking an empty slot. The registry table holds
 * declaration records and the two discovered-symbol tables hold tokens; both
 * are a `Table<T>` over an array of `Slot<T>`. The functions on `seq<Slot<T>>`
 * say what the probe loops compute.
 */
module Tables {

  datatype Option<T> = None | Some(value: T)

  const TableSize: nat := 8192

  /** A table slot: the hash (0 when empty) and the record stored with it. */
  datatype Slot<T> = Slot(hash: bv32, data: T)

  /** The first slot probed for hash h: `h & (8192 - 1)`. */
  function Home(h: bv32): (i: nat)
    ensures i < TableSize
  {
    (h & 0x1FFF) as nat
  }

  /** The slot probed at step k of one round: `k` positions after the home
      slot, wrapping around the end of the table. */
  function Probe(home: nat, k: nat): (i: nat)
    requires home < TableSize && k < TableSize
    ensures i < TableSize
  {
    if home + k < TableSize then home + k else home + k - TableSize
  }

  /** The index after `i`, wrapping: `(Index + 1) & (8192 - 1)`. */
  function Next(i: nat): (j: nat)
    requires i < TableSize
    ensures j < TableSize
  {
    if i + 1 == TableSize then 0 else i + 1
  }

  /** The probe step at which slot p is reached from slot home. */
  function Dist(home: nat, p: nat): (k: nat)
    requires home < TableSize && p < TableSize
    ensures k < TableSize && Probe(home, k) == p
  {
    if p >= home then p - home else p + TableSize - home
  }

  /** After a full round the probe is back at the home slot. */
  lemma ProbeWrap(home: nat)
    requires home < TableSize
    ensures Next(Probe(home, TableSize - 1)) == home
  {
  }

  lemma ProbeNext(home: nat, k: nat)
    requires home < TableSize && k + 1 < TableSize
    ensures Probe(home, k + 1) == Next(Probe(home, k))
  {
  }

  /** Within one round of probing every step visits a different slot. */
  lemma ProbeInjective(home: nat, i: nat, j: nat)
    requires home < TableSize && i < TableSize && j < TableSize && i != j
    ensures Probe(home, i) != Probe(home, j)
  {
  }

  lemma DistOfProbe(home: nat, k: nat)
    requires home < TableSize && k < TableSize
    ensures Dist(home, Probe(home, k)) == k
  {
    if Dist(home, Probe(home, k)) != k {
      ProbeInjective(home, k, Dist(home, Probe(home, k)));
    }
  }

  // ---------------------------------------------------------------------------
  // What the probe loops compute.

  /** The step at which the insertion loop stops, from step k on: the first
      empty slot, or TableSize when every slot is taken. */
  function FirstEmptyStep<T>(s: seq<Slot<T>>, home: nat, k: nat): (j: nat)
    requires |s| == TableSize && home < TableSize && k <= TableSize
    decreases TableSize - k
    ensures k <= j <= TableSize
    ensures forall i :: k <= i < j ==> s[Probe(home, i)].hash != 0
    ensures j < TableSize ==> s[Probe(home, j)].hash == 0
  {
    if k == TableSize || s[Probe(home, k)].hash == 0 then k else FirstEmptyStep(s, home, k + 1)
  }

  /** The slot AddToken writes, or None (a null result) when the table is full. */
  function FirstEmpty<T>(s: seq<Slot<T>>, h: bv32): Option<nat>
    requires |s| == TableSize
  {
    var j := FirstEmptyStep(s, Home(h), 0);
    if j < TableSize then Some(Probe(Home(h), j)) else None
  }

  /** The table after AddToken: the first empty slot on the probe path of the
      new slot's hash holds it; a full table is left as it was. */
  function Insert<T>(s: seq<Slot<T>>, e: Slot<T>): (r: seq<Slot<T>>)
    requires |s| == TableSize
    ensures |r| == TableSize
  {
    match FirstEmpty(s, e.hash)
    case None => s
    case Some(p) => s[p := e]
  }

  /** The step at which the lookup loop for h stops, from step k on: the first
      slot that is empty or holds h, or TableSize after a full round. */
  function FindStep<T>(s: seq<Slot<T>>, h: bv32, home: nat, k: nat): (j: nat)
    requires |s| == TableSize && home < TableSize && k <= TableSize
    decreases TableSize - k
    ensures k <= j <= TableSize
    ensures forall i :: k <= i < j ==> s[Probe(home, i)].hash != 0 && s[Probe(home, i)].hash != h
    ensures j < TableSize ==> s[Probe(home, j)].hash == 0 || s[Probe(home, j)].hash == h
  {
    if k == TableSize || s[Probe(home, k)].hash == 0 || s[Probe(home, k)].hash == h then k
    else FindStep(s, h, home, k + 1)
  }

  /** The slot GetToken returns (and Contains reports): the first slot holding
      h before an empty slot on h's probe path, or None. */
  function Find<T>(s: seq<Slot<T>>, h: bv32): (r: Option<nat>)
    requires |s| == TableSize
    ensures r.Some? ==> r.value < TableSize && h != 0 && s[r.value].hash == h
  {
    var j := FindStep(s, h, Home(h), 0);
    if j < TableSize && s[Probe(Home(h), j)].hash != 0 then Some(Probe(Home(h), j)) else None
  }

  // The probe loops step by step: the state of a loop is the slot it looks
  // at and the number of occupied slots it has passed.

  /** What AddToken's loop yields from slot `index` after `it` steps. */
  function FirstEmptyFrom<T>(s: seq<Slot<T>>, index: nat, it: nat): Option<nat>
    requires |s| == TableSize && index < TableSize && it <= TableSize
    decreases TableSize - it
  {
    if s[index].hash != 0 && it < TableSize then FirstEmptyFrom(s, Next(index), it + 1)
    else if it < TableSize then Some(index)
    else None
  }

  /** What GetToken's loop yields from slot `index` after `it` steps: a slot
      holding h, or None; after the loop the last slot looked at is returned
      only when it holds h. */
  function FindFrom<T>(s: seq<Slot<T>>, h: bv32, index: nat, it: nat): Option<nat>
    requires |s| == TableSize && index < TableSize && it <= TableSize
    decreases TableSize - it
  {
    if s[index].hash != 0 && it < TableSize then
      (if s[index].hash == h then Some(index) else FindFrom(s, h, Next(index), it + 1))
    else if s[index].hash == h && h != 0 then Some(index)
    else None
  }

  /** What Contains's loop yields from slot `index` after `it` steps. */
  function ContainsFrom<T>(s: seq<Slot<T>>, h: bv32, index: nat, it: nat): bool
    requires |s| == TableSize && index < TableSize && it <= TableSize
    decreases TableSize - it
  {
    s[index].hash != 0 && it < TableSize &&
    (s[index].hash == h || ContainsFrom(s, h, Next(index), it + 1))
  }

  lemma {:induction false} FirstEmptyFromProbe<T>(s: seq<Slot<T>>, home: nat, k: nat)
    requires |s| == TableSize && home < TableSize && k < TableSize
    ensures FirstEmptyFrom(s, Probe(home, k), k) ==
      (var j := FirstEmptyStep(s, home, k); if j < TableSize then Some(Probe(home, j)) else None)
    decreases TableSize - k
  {
    if s[Probe(home, k)].hash != 0 {
      if k + 1 < TableSize {
        ProbeNext(home, k);
        FirstEmptyFromProbe(s, home, k + 1);
      } else {
        ProbeWrap(home);
      }
    }
  }

  /** AddToken's loop computes FirstEmpty. */
  lemma FirstEmptyLoop<T>(s: seq<Slot<T>>, h: bv32)
    requires |s| == TableSize
    ensures FirstEmptyFrom(s, Home(h), 0) == FirstEmpty(s, h)
  {
    FirstEmptyFromProbe(s, Home(h), 0);
  }

  lemma {:induction false} FindFromProbe<T>(s: seq<Slot<T>>, h: bv32, home: nat, k: nat)
    requires |s| == TableSize && home < TableSize && k < TableSize && h != 0
    requires k > 0 ==> s[home].hash != h
    ensures FindFrom(s, h, Probe(home, k), k) ==
      (var j := FindStep(s, h, home, k);
       if j < TableSize && s[Probe(home, j)].hash != 0 then Some(Probe(home, j)) else None)
    ensures ContainsFrom(s, h, Probe(home, k), k) == FindFrom(s, h, Probe(home, k), k).Some?
    decreases TableSize - k
  {
    var i := Probe(home, k);
    if s[i].hash != 0 && s[i].hash != h {
      if k + 1 < TableSize {
        ProbeNext(home, k);
        FindFromProbe(s, h, home, k + 1);
      } else {
        ProbeWrap(home);
      }
    }
  }

  /** GetToken's loop computes Find, and Contains's loop reports whether it
      succeeds. */
  lemma FindLoop<T>(s: seq<Slot<T>>, h: bv32)
    requires |s| == TableSize
    ensures h != 0 ==> FindFrom(s, h, Home(h), 0) == Find(s, h)
    ensures ContainsFrom(s, h, Home(h), 0) == Find(s, h).Some?
  {
    if h != 0 {
      FindFromProbe(s, h, Home(h), 0);
    } else {
      assert !ContainsFrom(s, h, Home(h), 0) by { ContainsZero(s, Home(h), 0); }
    }
  }

  /** The lookup loop never matches the empty-slot hash 0. */
  lemma {:induction false} ContainsZero<T>(s: seq<Slot<T>>, index: nat, it: nat)
    requires |s| == TableSize && index < TableSize && it <= TableSize
    ensures !ContainsFrom(s, 0, index, it)
    decreases TableSize - it
  {
    if s[index].hash != 0 && it < TableSize {
      ContainsZero(s, Next(index), it + 1);
    }
  }

  /** Some slot of `s` holds hash h. */
  ghost predicate Holds<T>(s: seq<Slot<T>>, h: bv32) {
    exists p :: 0 <= p < |s| && s[p].hash == h
  }

  /** Every occupied slot lies on its hash's probe path with no empty slot
      before it, so lookups reach it. */
  ghost predicate Reachable<T>(s: seq<Slot<T>>)
    requires |s| == TableSize
  {
    forall p, i :: 0 <= p < TableSize && s[p].hash != 0 && 0 <= i < Dist(Home(s[p].hash), p) ==>
      s[Probe(Home(s[p].hash), i)].hash != 0
  }

  /** No non-zero hash outside `allowed` is held by two slots. */
  ghost predicate DistinctExcept<T>(s: seq<Slot<T>>, allowed: set<bv32>) {
    forall p, q :: 0 <= p < q < |s| && s[p].hash != 0 && s[p].hash !in allowed ==> s[p].hash != s[q].hash
  }

  /** The invariant of a table whose insertions are guarded by a lookup. */
  ghost predicate Sound<T>(s: seq<Slot<T>>) {
    |s| == TableSize && Reachable(s) && DistinctExcept(s, {})
  }

  /** The number of occupied (non-zero) slots. */
  function CountOccupied<T>(s: seq<Slot<T>>): (n: nat)
    ensures n <= |s|
  {
    if s == [] then 0 else (if s[0].hash != 0 then 1 else 0) + CountOccupied(s[1..])
  }

  /** An empty table: every slot has hash 0. */
  ghost predicate Empty<T>(s: seq<Slot<T>>) {
    forall p :: 0 <= p < |s| ==> s[p].hash == 0
  }

  // ---------------------------------------------------------------------------
  // Properties of insertion and lookup.

  /** AddToken finds no slot exactly when all 8192 slots are occupied. */
  lemma FirstEmptyNoneIffFull<T>(s: seq<Slot<T>>, h: bv32)
    requires |s| == TableSize
    ensures FirstEmpty(s, h).None? <==> forall p :: 0 <= p < TableSize ==> s[p].hash != 0
  {
    if FirstEmpty(s, h).None? {
      forall p | 0 <= p < TableSize
        ensures s[p].hash != 0
      {
        assert Probe(Home(h), Dist(Home(h), p)) == p;
      }
    }
  }

  /** The slot AddToken writes is empty, every slot probed before it is
      occupied, and every other slot is left as it was. */
  lemma InsertWritesFirstEmpty<T>(s: seq<Slot<T>>, e: Slot<T>, p: nat)
    requires |s| == TableSize && FirstEmpty(s, e.hash) == Some(p)
    ensures p < TableSize && s[p].hash == 0
    ensures forall i :: 0 <= i < Dist(Home(e.hash), p) ==> s[Probe(Home(e.hash), i)].hash != 0
    ensures Insert(s, e)[p] == e
    ensures forall q :: 0 <= q < TableSize && q != p ==> Insert(s, e)[q] == s[q]
  {
    DistOfProbe(Home(e.hash), FirstEmptyStep(s, Home(e.hash), 0));
  }

  /** Every occupied slot of `s` holds the same entry in `r`. */
  ghost predicate Keeps<T>(s: seq<Slot<T>>, r: seq<Slot<T>>) {
    |s| == |r| && forall q :: 0 <= q < |s| && s[q].hash != 0 ==> r[q] == s[q]
  }

  /** An insertion changes no occupied slot. */
  lemma InsertKeeps<T>(s: seq<Slot<T>>, e: Slot<T>)
    requires |s| == TableSize
    ensures Keeps(s, Insert(s, e))
  {
    if FirstEmpty(s, e.hash).Some? {
      InsertWritesFirstEmpty(s, e, FirstEmpty(s, e.hash).value);
    }
  }

  /** A hash that is found stays found at the same slot in any table that
      keeps the occupied slots. */
  lemma FindKept<T>(s: seq<Slot<T>>, r: seq<Slot<T>>, h: bv32)
    requires |s| == TableSize && Keeps(s, r) && Find(s, h).Some?
    ensures Find(r, h) == Find(s, h)
  {
    var home := Home(h);
    var j := FindStep(s, h, home, 0);
    assert j < TableSize && s[Probe(home, j)].hash != 0;
    forall i | 0 <= i <= j
      ensures r[Probe(home, i)] == s[Probe(home, i)]
    {
    }
    FindStepEqual(s, r, h, home, 0, j);
  }

  /** Two tables that agree on the probe path up to step j stop at the same step. */
  lemma {:induction false} FindStepEqual<T>(s: seq<Slot<T>>, r: seq<Slot<T>>, h: bv32, home: nat, k: nat, j: nat)
    requires |s| == TableSize && |r| == TableSize && home < TableSize && k <= j < TableSize
    requires FindStep(s, h, home, k) == j
    requires forall i :: k <= i <= j ==> r[Probe(home, i)] == s[Probe(home, i)]
    ensures FindStep(r, h, home, k) == j
    decreases j - k
  {
    if k < j {
      FindStepEqual(s, r, h, home, k + 1, j);
    }
  }

  /** After inserting a non-zero hash into a table with room, a lookup of that
      hash succeeds. */
  lemma FindAfterInsert<T>(s: seq<Slot<T>>, e: Slot<T>)
    requires |s| == TableSize && e.hash != 0 && FirstEmpty(s, e.hash).Some?
    ensures Find(Insert(s, e), e.hash).Some?
  {
    var h := e.hash;
    var home := Home(h);
    var p := FirstEmpty(s, h).value;
    var r := Insert(s, e);
    InsertWritesFirstEmpty(s, e, p);
    var d := Dist(home, p);
    assert r[Probe(home, d)].hash == h;
    var j := FindStep(r, h, home, 0);
    assert j <= d;
    if j < d {
      ProbeInjective(home, j, d);
      assert r[Probe(home, j)] == s[Probe(home, j)];
    }
  }

  /** In a reachable table, a non-zero hash is found exactly when some slot
      holds it: Contains is set membership. */
  lemma FindComplete<T>(s: seq<Slot<T>>, h: bv32)
    requires |s| == TableSize && Reachable(s) && h != 0
    ensures Find(s, h).Some? <==> Holds(s, h)
  {
    if Holds(s, h) {
      var p :| 0 <= p < |s| && s[p].hash == h;
      FindReaches(s, p);
    }
  }

  /** In a reachable table, the lookup of an occupied slot's hash succeeds. */
  lemma FindReaches<T>(s: seq<Slot<T>>, p: nat)
    requires |s| == TableSize && Reachable(s) && p < TableSize && s[p].hash != 0
    ensures Find(s, s[p].hash).Some?
  {
    var h := s[p].hash;
    var home := Home(h);
    var d := Dist(home, p);
    assert s[Probe(home, d)].hash == h;
    var j := FindStep(s, h, home, 0);
    assert j <= d;
    if j < d {
      assert s[Probe(Home(s[p].hash), j)].hash != 0;
    }
    assert j < TableSize && s[Probe(home, j)].hash != 0;
  }

  /** Any insertion keeps every occupied slot reachable. */
  lemma InsertReachable<T>(s: seq<Slot<T>>, e: Slot<T>)
    requires |s| == TableSize && Reachable(s)
    ensures Reachable(Insert(s, e))
  {
    var r := Insert(s, e);
    if FirstEmpty(s, e.hash).Some? {
      var p := FirstEmpty(s, e.hash).value;
      InsertWritesFirstEmpty(s, e, p);
      forall q, i | 0 <= q < TableSize && r[q].hash != 0 && 0 <= i < Dist(Home(r[q].hash), q)
        ensures r[Probe(Home(r[q].hash), i)].hash != 0
      {
        if q == p {
          assert Probe(Home(e.hash), i) != p by {
            ProbeInjective(Home(e.hash), i, Dist(Home(e.hash), p));
          }
        } else {
          assert s[Probe(Home(s[q].hash), i)].hash != 0;
        }
      }
    }
  }

  /** Inserting a hash the table does not hold (or hash 0, or an allowed
      one) adds no forbidden duplicate. */
  lemma InsertDistinct<T>(s: seq<Slot<T>>, e: Slot<T>, allowed: set<bv32>)
    requires |s| == TableSize && DistinctExcept(s, allowed)
    requires e.hash == 0 || e.hash in allowed || !Holds(s, e.hash)
    ensures DistinctExcept(Insert(s, e), allowed)
  {
    var r := Insert(s, e);
    if FirstEmpty(s, e.hash).Some? {
      var p := FirstEmpty(s, e.hash).value;
      InsertWritesFirstEmpty(s, e, p);
      forall a, b | 0 <= a < b < TableSize && r[a].hash != 0 && r[a].hash !in allowed
        ensures r[a].hash != r[b].hash
      {
        if a == p {
          assert s[b].hash != e.hash;
        } else if b == p {
          assert s[a].hash != e.hash;
        }
      }
    }
  }

  /** Inserting a hash the table does not hold keeps it sound. */
  lemma InsertSound<T>(s: seq<Slot<T>>, e: Slot<T>)
    requires Sound(s) && (e.hash == 0 || !Holds(s, e.hash))
    ensures Sound(Insert(s, e))
  {
    InsertReachable(s, e);
    InsertDistinct(s, e, {});
  }

  /** An insertion occupies at most one more slot. */
  lemma InsertCountBound<T>(s: seq<Slot<T>>, e: Slot<T>)
    requires |s| == TableSize
    ensures CountOccupied(Insert(s, e)) <= CountOccupied(s) + 1
  {
    if FirstEmpty(s, e.hash).Some? {
      CountUpdate(s, FirstEmpty(s, e.hash).value, e);
    }
  }

  /** Each insertion of a non-zero hash into a table with room occupies
      exactly one more slot. */
  lemma InsertCount<T>(s: seq<Slot<T>>, e: Slot<T>)
    requires |s| == TableSize && e.hash != 0 && FirstEmpty(s, e.hash).Some?
    ensures CountOccupied(Insert(s, e)) == CountOccupied(s) + 1
  {
    var p := FirstEmpty(s, e.hash).value;
    InsertWritesFirstEmpty(s, e, p);
    CountUpdate(s, p, e);
  }

  lemma {:induction false} CountUpdate<T>(s: seq<Slot<T>>, p: nat, e: Slot<T>)
    requires p < |s|
    ensures CountOccupied(s[p := e]) ==
      CountOccupied(s) - (if s[p].hash != 0 then 1 else 0) + (if e.hash != 0 then 1 else 0)
    decreases |s|
  {
    if p == 0 {
      assert s[p := e][1..] == s[1..];
    } else {
      assert s[p := e][1..] == s[1..][p - 1 := e];
      CountUpdate(s[1..], p - 1, e);
    }
  }

  /** A table whose every slot is empty is sound. */
  lemma EmptySound<T>(s: seq<Slot<T>>)
    requires |s| == TableSize && Empty(s)
    ensures Sound(s) && CountOccupied(s) == 0 && !Holds(s, 1)
  {
    EmptyCount(s);
  }

  lemma {:induction false} EmptyCount<T>(s: seq<Slot<T>>)
    requires Empty(s)
    ensures CountOccupied(s) == 0
    decreases |s|
  {
    if s != [] {
      EmptyCount(s[1..]);
    }
  }

  // ---------------------------------------------------------------------------
  // The tables as the generator allocates them: calloc'ed arrays of slots.

  class Table<T> {
    const slots: array<Slot<T>>

    ghost predicate Valid()
      reads this
    {
      slots.Length == TableSize
    }

    /** calloc: every slot zero. `empty` is the all-zero record. */
    constructor (empty: T)
      ensures Valid() && fresh(slots)
      ensures forall p :: 0 <= p < TableSize ==> slots[p] == Slot(0, empty)
    {
      slots := new Slot<T>[TableSize](_ => Slot(0, empty));
    }

    /** The probe loop of AddToken: the first empty slot on h's probe path,
        or None after a full round of occupied slots. */
    method ProbeEmpty(h: bv32) returns (r: Option<nat>)
      requires Valid()
      ensures r == FirstEmpty(slots[..], h)
    {
      var index: nat := Home(h);
      var iterations: nat := 0;
      while slots[index].hash != 0 && iterations < TableSize
        invariant iterations <= TableSize && index < TableSize
        invariant FirstEmptyFrom(slots[..], index, iterations) == FirstEmptyFrom(slots[..], Home(h), 0)
        decreases TableSize - iterations
      {
        index := Next(index);
        iterations := iterations + 1;
      }
      FirstEmptyLoop(slots[..], h);
      r := if iterations < TableSize then Some(index) else None;
    }

    /** AddToken: probe from the home slot to the first empty slot and store
        `e` there; the result is that slot, or None (null) when all 8192
        slots are occupied. */
    method AddToken(e: Slot<T>) returns (r: Option<nat>)
      requires Valid()
      modifies slots
      ensures r == FirstEmpty(old(slots[..]), e.hash)
      ensures slots[..] == Insert(old(slots[..]), e)
    {
      r := ProbeEmpty(e.hash);
      if r.Some? {
        slots[r.value] := e;
      }
    }

    /** GetToken: the slot holding hash h found by probing, or None. */
    method GetToken(h: bv32) returns (r: Option<nat>)
      requires Valid()
      ensures r == Find(slots[..], h)
    {
      r := None;
      if h != 0 {
        var index: nat := Home(h);
        var iterations: nat := 0;
        while slots[index].hash != 0 && iterations < TableSize
          invariant iterations <= TableSize && index < TableSize
          invariant FindFrom(slots[..], h, index, iterations) == FindFrom(slots[..], h, Home(h), 0)
          decreases TableSize - iterations
        {
          if slots[index].hash == h {
            break;
          }
          index := Next(index);
          iterations := iterations + 1;
        }
        if slots[index].hash == h {
          r := Some(index);
        }
        FindLoop(slots[..], h);
      }
    }

    /** Contains: whether probing for the token's hash finds a slot holding it. */
    method Contains(h: bv32) returns (found: bool)
      requires Valid()
      ensures found <==> Find(slots[..], h).Some?
    {
      found := false;
      var index: nat := Home(h);
      var iterations: nat := 0;
      while slots[index].hash != 0 && iterations < TableSize
        invariant iterations <= TableSize && index < TableSize
        invariant ContainsFrom(slots[..], h, index, iterations) == ContainsFrom(slots[..], h, Home(h), 0)
        decreases TableSize - iterations
      {
        if slots[index].hash == h {
          found := true;
          break;
        }
        index := Next(index);
        iterations := iterations + 1;
      }
      FindLoop(slots[..], h);
    }
  }
}
