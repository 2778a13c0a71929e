/**
 The bounded tables of services/p2p_node/index.js, lines 14 to 47, and services/state/index.js,
 lines 14 to 46. A table is an object: slots with distinct keys in order of insertion.
 */
module RecencyTable {
  import opened Results
  import opened Sequences

  datatype Slot = Slot(key: string, value: string, ts: int)

  type Table = seq<Slot>

  const MAX_PEERS: nat := 200
  const MAX_KEYS: nat := 500

  ghost predicate Distinct(t: Table) {
    forall i, j :: 0 <= i < j < |t| ==> t[i].key != t[j].key
  }

  predicate Has(t: Table, k: string) {
    exists i :: 0 <= i < |t| && t[i].key == k
  }

  function Get(t: Table, k: string): Option<Slot> {
    if t == [] then None else if t[0].key == k then Some(t[0]) else Get(t[1..], k)
  }

  /** Assignment to a property: in place when the key is there, else at the end. */
  function Put(t: Table, s: Slot): Table {
    if t == [] then [s] else if t[0].key == s.key then [s] + t[1..] else [t[0]] + Put(t[1..], s)
  }

  function Remove(t: Table, k: string): Table {
    if t == [] then [] else if t[0].key == k then t[1..] else [t[0]] + Remove(t[1..], k)
  }

  /** The first key of a stable sort by timestamp: the first slot with the least one. */
  function Oldest(t: Table): (s: Slot)
    requires t != []
    ensures s in t && forall i :: 0 <= i < |t| ==> s.ts <= t[i].ts
  {
    if |t| == 1 then t[0] else
      var s := Oldest(t[1..]);
      if t[0].ts <= s.ts then t[0] else s
  }

  /** Insert, then evict the oldest if there are too many. */
  function InsertThenEvict(t: Table, s: Slot, cap: nat): Table {
    var u := Put(t, s);
    if |u| > cap && u != [] then Remove(u, Oldest(u).key) else u
  }

  /** Evict the oldest to make room for a new key, then insert. */
  function EvictThenInsert(t: Table, s: Slot, cap: nat): Table {
    Put(if |t| >= cap && !Has(t, s.key) && t != [] then Remove(t, Oldest(t).key) else t, s)
  }

  /** Peers with the times at which they are added. */
  function Stamped(list: seq<(string, string)>, clock: seq<int>): (r: seq<Slot>)
    requires |clock| == |list|
    ensures |r| == |list|
  {
    seq(|list|, i requires 0 <= i < |list| => Slot(list[i].0, list[i].1, clock[i]))
  }

  class PeerRegistry {
    var peers: Table

    constructor ()
      ensures peers == []
    {
      peers := [];
    }

    method AddPeer(id: string, url: string, now: int) returns (r: Option<Slot>)
      modifies this
      ensures peers == InsertThenEvict(old(peers), Slot(id, url, now), 200)
      ensures r == Get(peers, id)
    {
      peers := Put(peers, Slot(id, url, now));
      if |peers| > MAX_PEERS {
        var oldest := Oldest(peers).key;
        peers := Remove(peers, oldest);
      }
      r := Get(peers, id);
    }

    method ListPeers() returns (r: seq<Slot>)
      ensures r == peers
    {
      r := peers;
    }

    /** The clock is read once for each added peer. */
    method MergePeers(list: seq<(string, string)>, clock: seq<int>)
      requires |clock| == |list|
      modifies this
      ensures peers == AddAll(old(peers), Stamped(list, clock), 200)
    {
      ghost var slots := Stamped(list, clock);
      for i := 0 to |list|
        invariant peers == AddAll(old(peers), slots[..i], MAX_PEERS)
      {
        var _ := AddPeer(list[i].0, list[i].1, clock[i]);
        assert slots[..i + 1][..i] == slots[..i];
      }
      assert slots[..|list|] == slots;
    }
  }

  class StateStore {
    var state: Table

    /** Keys are stored once, and there are never more than the limit. */
    ghost predicate Valid()
      reads this
    {
      Distinct(state) && |state| <= 500
    }

    constructor ()
      ensures Valid() && state == []
    {
      state := [];
    }

    method SetState(key: string, value: string, now: int) returns (r: Slot)
      requires Valid()
      modifies this
      ensures Valid() && state == EvictThenInsert(old(state), Slot(key, value, now), 500)
      ensures r == Slot(key, value, now) && Get(state, key) == Some(r)
    {
      if |state| >= MAX_KEYS && !Has(state, key) {
        var oldest := Oldest(state).key;
        Member(state, Oldest(state));
        RemoveFacts(state, oldest);
        state := Remove(state, oldest);
      }
      r := Slot(key, value, now);
      GetPut(state, r);
      PutFacts(state, r);
      state := Put(state, r);
    }

    method GetState(key: string) returns (r: Option<Slot>)
      requires Valid()
      ensures r == Get(state, key)
      ensures forall s :: s in state && s.key == key <==> r == Some(s)
    {
      GetMember(state, key);
      r := Get(state, key);
    }

    /** The key reads as null from now on, and every other key as before. */
    method DeleteState(key: string)
      requires Valid()
      modifies this
      ensures Valid() && state == Remove(old(state), key)
      ensures forall k :: Get(state, k) == if k == key then None else Get(old(state), k)
      ensures forall s :: s in state <==> s in old(state) && s.key != key
    {
      RemoveFacts(state, key);
      forall k {
        ReadAfterRemove(state, key, k);
      }
      state := Remove(state, key);
    }
  }

  /** Reading after a deletion. */
  lemma {:induction false} ReadAfterRemove(t: Table, key: string, k: string)
    requires Distinct(t)
    ensures Get(Remove(t, key), k) == if k == key then None else Get(t, k)
  {
    if t != [] {
      Cons(t);
      if t[0].key == key {
        if k == key { GetMember(t[1..], k); }
      } else {
        ReadAfterRemove(t[1..], key, k);
      }
    }
  }

  lemma {:induction false} GetPut(t: Table, s: Slot)
    ensures Get(Put(t, s), s.key) == Some(s)
  {
    if t != [] && t[0].key != s.key { GetPut(t[1..], s); }
  }

  function AddAll(t: Table, slots: seq<Slot>, cap: nat): Table {
    if slots == [] then t
    else InsertThenEvict(AddAll(t, slots[..|slots| - 1], cap), slots[|slots| - 1], cap)
  }

  function SetAll(t: Table, slots: seq<Slot>, cap: nat): Table {
    if slots == [] then t
    else EvictThenInsert(SetAll(t, slots[..|slots| - 1], cap), slots[|slots| - 1], cap)
  }

  // ----- The common specification -----

  /** The slots last written for each key, in order of the writes. */
  function Recent(slots: seq<Slot>): Table {
    if slots == [] then [] else Drop(Recent(slots[..|slots| - 1]), slots[|slots| - 1].key) + [slots[|slots| - 1]]
  }

  /** t without the slots of key k. */
  function Drop(t: Table, k: string): Table {
    if t == [] then [] else (if t[0].key == k then [] else [t[0]]) + Drop(t[1..], k)
  }

  /** The clock never goes back. */
  ghost predicate Rising(t: Table) {
    forall i, j :: 0 <= i < j < |t| ==> t[i].ts <= t[j].ts
  }

  ghost predicate Increasing(t: Table) {
    forall i, j :: 0 <= i < j < |t| ==> t[i].ts < t[j].ts
  }

  /** One step on the bounded list: the key moves to the end, or pushes the first one out. */
  function Touch(l: Table, s: Slot, cap: nat): Table {
    if Has(l, s.key) || |l| < cap || l == [] then Drop(l, s.key) + [s] else l[1..] + [s]
  }

  // ----- Lists of slots, first element first -----

  lemma HasCons(s: Slot, rest: Table, k: string)
    ensures Has([s] + rest, k) <==> s.key == k || Has(rest, k)
  {
    var t := [s] + rest;
    if Has(rest, k) {
      var i :| 0 <= i < |rest| && rest[i].key == k;
      assert t[i + 1].key == k;
    }
    if Has(t, k) && s.key != k {
      var i :| 0 <= i < |t| && t[i].key == k;
      assert rest[i - 1].key == k;
    }
    assert t[0] == s;
  }

  lemma DistinctCons(s: Slot, rest: Table)
    ensures Distinct([s] + rest) <==> Distinct(rest) && !Has(rest, s.key)
  {
    var t := [s] + rest;
    if Distinct(t) {
      forall i, j | 0 <= i < j < |rest| ensures rest[i].key != rest[j].key {
        assert t[i + 1].key != t[j + 1].key;
      }
      forall i | 0 <= i < |rest| ensures rest[i].key != s.key {
        assert t[0].key != t[i + 1].key;
      }
    }
  }

  lemma Cons(t: Table)
    requires t != []
    ensures t == [t[0]] + t[1..]
    ensures forall k :: Has(t, k) <==> t[0].key == k || Has(t[1..], k)
    ensures Distinct(t) <==> Distinct(t[1..]) && !Has(t[1..], t[0].key)
    ensures forall s :: s in t <==> s == t[0] || s in t[1..]
  {
    assert t == [t[0]] + t[1..];
    forall k ensures Has(t, k) <==> t[0].key == k || Has(t[1..], k) {
      HasCons(t[0], t[1..], k);
    }
    DistinctCons(t[0], t[1..]);
  }

  lemma Member(t: Table, s: Slot)
    requires s in t
    ensures Has(t, s.key)
  {
  }

  lemma {:induction false} DropMembers(t: Table, k: string)
    ensures forall s :: s in Drop(t, k) <==> s in t && s.key != k
    ensures forall j :: Has(Drop(t, k), j) <==> Has(t, j) && j != k
  {
    if t != [] {
      var rest := Drop(t[1..], k);
      DropMembers(t[1..], k);
      Cons(t);
      forall j ensures Has(Drop(t, k), j) <==> Has(t, j) && j != k {
        HasCons(t[0], rest, j);
        assert [] + rest == rest;
      }
    }
  }

  lemma {:induction false} DropAbsent(t: Table, k: string)
    requires !Has(t, k)
    ensures Drop(t, k) == t
  {
    if t != [] {
      Cons(t);
      DropAbsent(t[1..], k);
    }
  }

  lemma {:induction false} DropDistinct(t: Table, k: string)
    requires Distinct(t)
    ensures Distinct(Drop(t, k)) && |Drop(t, k)| == |t| - (if Has(t, k) then 1 else 0)
  {
    if t != [] {
      Cons(t);
      DropDistinct(t[1..], k);
      DropMembers(t[1..], k);
      if t[0].key == k {
        DropAbsent(t[1..], k);
        assert [] + t[1..] == t[1..];
      } else {
        DistinctCons(t[0], Drop(t[1..], k));
      }
    }
  }

  lemma {:induction false} DropRising(t: Table, k: string)
    requires Rising(t)
    ensures Rising(Drop(t, k))
  {
    if t != [] {
      var rest := Drop(t[1..], k);
      DropRising(t[1..], k);
      DropMembers(t[1..], k);
      forall i | 0 <= i < |rest| ensures t[0].ts <= rest[i].ts {
        assert rest[i] in t[1..];
      }
    }
  }

  lemma {:induction false} DropAppend(a: Table, b: Table, k: string)
    ensures Drop(a + b, k) == Drop(a, k) + Drop(b, k)
  {
    if a == [] {
      assert a + b == b;
    } else {
      assert (a + b)[1..] == a[1..] + b;
      DropAppend(a[1..], b, k);
    }
  }

  lemma LastOfAppend(a: Table, b: Table, s: Slot, n: nat)
    requires |b| == n
    ensures LastN(a + b + [s], n + 1) == b + [s]
    ensures b != [] ==> LastN(a + b + [s], n) == b[1..] + [s]
  {
  }

  lemma {:induction false} StepWhenFull(a: Table, b: Table, s: Slot)
    requires Distinct(b) && b != []
    ensures LastN(Drop(a + b, s.key) + [s], |b|) == Touch(b, s, |b|)
  {
    hide Drop, LastN;
    DropAppend(a, b, s.key);
    DropDistinct(b, s.key);
    if Has(b, s.key) {
      LastOfAppend(Drop(a, s.key), Drop(b, s.key), s, |b| - 1);
    } else {
      DropAbsent(b, s.key);
      LastOfAppend(Drop(a, s.key), b, s, |b|);
    }
  }

  lemma SuffixDistinct(t: Table, n: nat)
    requires Distinct(t) && n <= |t|
    ensures Distinct(t[n..])
  {
  }

  /** The bounded list of the writes so far takes one step at each write. */
  lemma {:induction false} BoundedStep(t: Table, s: Slot, cap: nat)
    requires Distinct(t) && cap > 0
    ensures LastN(Drop(t, s.key) + [s], cap) == Touch(LastN(t, cap), s, cap)
  {
    hide Drop, Has, Distinct;
    if |t| > cap {
      var n := |t| - cap;
      assert t == t[..n] + t[n..];
      SuffixDistinct(t, n);
      StepWhenFull(t[..n], t[n..], s);
    } else {
      DropDistinct(t, s.key);
      if !Has(t, s.key) { DropAbsent(t, s.key); }
    }
  }

  lemma AppendNewest(l: Table, s: Slot)
    requires Distinct(l) && Rising(l) && forall i :: 0 <= i < |l| ==> l[i].ts <= s.ts && l[i].key != s.key
    ensures Distinct(l + [s]) && Rising(l + [s])
  {
  }

  lemma {:induction false} RecentFacts(slots: seq<Slot>)
    requires Rising(slots)
    ensures Distinct(Recent(slots)) && Rising(Recent(slots)) && forall s :: s in Recent(slots) ==> s in slots
  {
    if slots != [] {
      var before, s := slots[..|slots| - 1], slots[|slots| - 1];
      RecentFacts(before);
      var l := Drop(Recent(before), s.key);
      DropMembers(Recent(before), s.key);
      DropDistinct(Recent(before), s.key);
      DropRising(Recent(before), s.key);
      forall i | 0 <= i < |l| ensures l[i].ts <= s.ts && l[i].key != s.key {
        assert l[i] in l && l[i] in before;
      }
      AppendNewest(l, s);
      forall r | r in l ensures r in slots {
        assert r in before;
      }
    }
  }

  // ----- Both tables refine it -----

  /** The same slots, in any order. */
  ghost predicate SameSlots(t: Table, l: Table) {
    Distinct(t) && Distinct(l) && |t| == |l| && forall s :: s in t <==> s in l
  }

  lemma {:induction false} PutFacts(t: Table, s: Slot)
    requires Distinct(t)
    ensures Distinct(Put(t, s)) && |Put(t, s)| == |t| + (if Has(t, s.key) then 0 else 1)
    ensures forall x :: x in Put(t, s) <==> x == s || (x in t && x.key != s.key)
    ensures forall k :: Has(Put(t, s), k) <==> k == s.key || Has(t, k)
  {
    if t == [] {
      DistinctCons(s, []);
      forall k ensures Has([s] + [], k) <==> s.key == k || Has([], k) { HasCons(s, [], k); }
      assert [s] + [] == [s];
    } else {
      Cons(t);
      if t[0].key == s.key {
        DistinctCons(s, t[1..]);
        forall k ensures Has([s] + t[1..], k) <==> s.key == k || Has(t[1..], k) { HasCons(s, t[1..], k); }
      } else {
        var u := Put(t[1..], s);
        PutFacts(t[1..], s);
        DistinctCons(t[0], u);
        forall k ensures Has([t[0]] + u, k) <==> t[0].key == k || Has(u, k) { HasCons(t[0], u, k); }
      }
    }
  }

  lemma {:induction false} RemoveFacts(t: Table, k: string)
    requires Distinct(t)
    ensures Distinct(Remove(t, k)) && |Remove(t, k)| == |t| - (if Has(t, k) then 1 else 0)
    ensures forall x :: x in Remove(t, k) <==> x in t && x.key != k
    ensures forall j :: Has(Remove(t, k), j) <==> j != k && Has(t, j)
  {
    if t != [] {
      Cons(t);
      if t[0].key != k {
        var u := Remove(t[1..], k);
        RemoveFacts(t[1..], k);
        DistinctCons(t[0], u);
        forall j ensures Has([t[0]] + u, j) <==> t[0].key == j || Has(u, j) { HasCons(t[0], u, j); }
      }
    }
  }

  lemma SameHas(t: Table, l: Table, k: string)
    requires SameSlots(t, l)
    ensures Has(t, k) <==> Has(l, k)
  {
    if Has(t, k) {
      var i :| 0 <= i < |t| && t[i].key == k;
      assert t[i] in l;
    }
    if Has(l, k) {
      var i :| 0 <= i < |l| && l[i].key == k;
      assert l[i] in t;
    }
  }

  /** s comes before every other slot with its timestamp. */
  ghost predicate FirstOfAge(t: Table, s: Slot) {
    forall i, p :: 0 <= i < p < |t| && t[p] == s ==> t[i].ts != s.ts
  }

  lemma {:induction false} OldestAt(t: Table)
    requires t != []
    ensures exists q :: 0 <= q < |t| && t[q] == Oldest(t) && forall i :: 0 <= i < q ==> t[i].ts > t[q].ts
  {
    if |t| > 1 && Oldest(t) != t[0] {
      var rest, s := t[1..], Oldest(t[1..]);
      assert Oldest(t) == s && t[0].ts > s.ts;
      hide Oldest;
      OldestAt(rest);
      var q :| 0 <= q < |rest| && rest[q] == s && forall i :: 0 <= i < q ==> rest[i].ts > rest[q].ts;
      forall i | 0 <= i < q + 1 ensures t[i].ts > t[q + 1].ts {
        if i > 0 { assert t[i] == rest[i - 1]; }
      }
      assert t[q + 1] == s;
    } else {
      assert t[0] == Oldest(t);
    }
  }

  /** The least recent slot is the one that goes if and only if it comes first among those of its age. */
  lemma {:induction false} OldestIffFirstOfAge(t: Table, l: Table)
    requires SameSlots(t, l) && Rising(l) && l != []
    ensures t != [] && (Oldest(t) == l[0] <==> FirstOfAge(t, l[0]))
  {
    assert l[0] in t;
    var p :| 0 <= p < |t| && t[p] == l[0];
    OldestAt(t);
    var q :| 0 <= q < |t| && t[q] == Oldest(t) && forall i :: 0 <= i < q ==> t[i].ts > t[q].ts;
    assert t[q] in l;
    var k :| 0 <= k < |l| && l[k] == t[q];
    assert t[q].ts == l[0].ts;
    if q != p { assert t[q].key != t[p].key; }
  }

  /** A new key in a full table pushes out the slot that is least recent among the oldest. */
  ghost predicate EvictsLeastRecent(t: Table, l: Table, s: Slot, cap: nat) {
    |l| == cap && l != [] && !Has(l, s.key) ==> FirstOfAge(t, l[0])
  }

  /** Evicting another slot than the least recent one leaves a different table. */
  lemma {:induction false} EvictOther(t: Table, l: Table, s: Slot)
    requires SameSlots(t, l) && l != [] && !Has(t, s.key) && !Has(l, s.key) && t != []
    requires Oldest(t) != l[0]
    ensures !SameSlots(Put(Remove(t, Oldest(t).key), s), l[1..] + [s])
  {
    var o := Oldest(t);
    RemoveFacts(t, o.key);
    PutFacts(Remove(t, o.key), s);
    Member(t, o);
    Cons(l);
    assert o in l[1..] + [s];
  }

  /** Evicting the least recent slot takes off the first of the list. */
  lemma {:induction false} EvictFirst(t: Table, l: Table)
    requires SameSlots(t, l) && l != [] && t != [] && Oldest(t) == l[0]
    ensures SameSlots(Remove(t, Oldest(t).key), l[1..])
  {
    RemoveFacts(t, l[0].key);
    Cons(l);
    Member(t, l[0]);
    forall x | x in l[1..] ensures x.key != l[0].key {
      Member(l[1..], x);
    }
    forall x | x in l && x.key != l[0].key ensures x in l[1..] {
    }
  }

  lemma {:induction false} PutNew(t: Table, l: Table, s: Slot)
    requires SameSlots(t, l) && !Has(t, s.key) && !Has(l, s.key)
    ensures SameSlots(Put(t, s), l + [s])
  {
    PutFacts(t, s);
    forall x | x in t ensures x.key != s.key {
      Member(t, x);
    }
    assert forall i :: 0 <= i < |l| ==> l[i].key != s.key;
  }

  lemma FullTable(t: Table, l: Table, s: Slot, cap: nat)
    requires SameSlots(t, l) && Rising(l) && |l| == cap > 0 && !Has(t, s.key) && !Has(l, s.key)
    ensures SameSlots(EvictThenInsert(t, s, cap), l[1..] + [s]) <==> FirstOfAge(t, l[0])
  {
    OldestIffFirstOfAge(t, l);
    if Oldest(t) == l[0] {
      EvictFirst(t, l);
      RemoveFacts(t, Oldest(t).key);
      Cons(l);
      PutNew(Remove(t, Oldest(t).key), l[1..], s);
    } else {
      EvictOther(t, l, s);
    }
  }

  lemma RoomLeft(t: Table, l: Table, s: Slot, cap: nat)
    requires SameSlots(t, l) && |l| <= cap && cap > 0 && (Has(l, s.key) || |l| < cap)
    ensures SameSlots(EvictThenInsert(t, s, cap), Touch(l, s, cap))
  {
    var d := Drop(l, s.key);
    SameHas(t, l, s.key);
    DropMembers(l, s.key);
    DropDistinct(l, s.key);
    PutFacts(t, s);
    assert forall i :: 0 <= i < |d| ==> d[i] in d;
  }

  // ----- Both orders of evicting and inserting give the same table -----

  lemma {:induction false} PutAppends(t: Table, s: Slot)
    requires !Has(t, s.key)
    ensures Put(t, s) == t + [s]
  {
    if t != [] {
      Cons(t);
      PutAppends(t[1..], s);
    }
  }

  lemma {:induction false} RemoveAppend(t: Table, s: Slot, k: string)
    requires Has(t, k)
    ensures Remove(t + [s], k) == Remove(t, k) + [s]
  {
    Cons(t);
    assert (t + [s])[1..] == t[1..] + [s];
    if t[0].key != k { RemoveAppend(t[1..], s, k); }
  }

  lemma {:induction false} OldestAppend(t: Table, s: Slot)
    requires t != [] && forall i :: 0 <= i < |t| ==> t[i].ts <= s.ts
    ensures Oldest(t + [s]) == Oldest(t)
  {
    assert (t + [s])[1..] == t[1..] + [s];
    if |t| > 1 { OldestAppend(t[1..], s); }
  }

  /** When the clock does not go back, inserting before or after the eviction makes no difference. */
  lemma OrdersAgree(t: Table, s: Slot, cap: nat)
    requires Distinct(t) && |t| <= cap && cap > 0 && forall i :: 0 <= i < |t| ==> t[i].ts <= s.ts
    ensures InsertThenEvict(t, s, cap) == EvictThenInsert(t, s, cap)
  {
    PutFacts(t, s);
    if |t| == cap && !Has(t, s.key) {
      var k := Oldest(t).key;
      Member(t, Oldest(t));
      PutAppends(t, s);
      OldestAppend(t, s);
      RemoveAppend(t, s, k);
      RemoveFacts(t, k);
      PutAppends(Remove(t, k), s);
    }
  }

  /**
   One write, in either order, keeps the table at the most recent slots if and only if it need not evict
   or the least recent slot comes first among those of its age.
   */
  lemma RefinesTouch(t: Table, l: Table, s: Slot, cap: nat)
    requires SameSlots(t, l) && Rising(l) && |l| <= cap && cap > 0
    requires forall i :: 0 <= i < |l| ==> l[i].ts <= s.ts
    ensures SameSlots(EvictThenInsert(t, s, cap), Touch(l, s, cap)) <==> EvictsLeastRecent(t, l, s, cap)
    ensures SameSlots(InsertThenEvict(t, s, cap), Touch(l, s, cap)) <==> EvictsLeastRecent(t, l, s, cap)
  {
    SameHas(t, l, s.key);
    forall i | 0 <= i < |t| ensures t[i].ts <= s.ts {
      assert t[i] in l;
    }
    OrdersAgree(t, s, cap);
    if Has(l, s.key) || |l| < cap {
      RoomLeft(t, l, s, cap);
    } else {
      FullTable(t, l, s, cap);
    }
  }

  // ----- Whole runs -----

  /** After each write the peers are the cap most recently written ones. */
  ghost predicate AddsKeepRecent(slots: seq<Slot>, cap: nat) {
    slots != [] ==>
      AddsKeepRecent(slots[..|slots| - 1], cap) && SameSlots(AddAll([], slots, cap), LastN(Recent(slots), cap))
  }

  /** After each write the state holds the cap most recently written keys. */
  ghost predicate SetsKeepRecent(slots: seq<Slot>, cap: nat) {
    slots != [] ==>
      SetsKeepRecent(slots[..|slots| - 1], cap) && SameSlots(SetAll([], slots, cap), LastN(Recent(slots), cap))
  }

  /** At each write that evicts, the least recent slot comes first among those of its age. */
  ghost predicate TiesInOrder(slots: seq<Slot>, cap: nat) {
    slots != [] ==>
      var before := slots[..|slots| - 1];
      && TiesInOrder(before, cap)
      && EvictsLeastRecent(SetAll([], before, cap), LastN(Recent(before), cap), slots[|slots| - 1], cap)
  }

  lemma {:induction false} SetAllFacts(slots: seq<Slot>, cap: nat)
    requires cap > 0
    ensures var t := SetAll([], slots, cap); Distinct(t) && |t| <= cap && forall s :: s in t ==> s in slots
  {
    if slots != [] {
      var before, s := slots[..|slots| - 1], slots[|slots| - 1];
      SetAllFacts(before, cap);
      var t := SetAll([], before, cap);
      PutFacts(t, s);
      assert forall x :: x in before ==> x in slots;
      if |t| >= cap && !Has(t, s.key) {
        Member(t, Oldest(t));
        RemoveFacts(t, Oldest(t).key);
        PutFacts(Remove(t, Oldest(t).key), s);
      }
    }
  }

  /** When the clock does not go back, both tables hold the same slots in the same order. */
  lemma {:induction false} BothTablesAgree(slots: seq<Slot>, cap: nat)
    requires Rising(slots) && cap > 0
    ensures AddAll([], slots, cap) == SetAll([], slots, cap)
  {
    if slots != [] {
      var before, s := slots[..|slots| - 1], slots[|slots| - 1];
      var t := SetAll([], before, cap);
      BothTablesAgree(before, cap);
      SetAllFacts(before, cap);
      forall i | 0 <= i < |t| ensures t[i].ts <= s.ts {
        assert t[i] in before;
      }
      OrdersAgree(t, s, cap);
    }
  }

  lemma NewestLast(slots: seq<Slot>, cap: nat)
    requires Rising(slots) && slots != []
    ensures var before, s := slots[..|slots| - 1], slots[|slots| - 1];
      var l := LastN(Recent(before), cap);
      Distinct(Recent(before)) && Distinct(l) && Rising(l) && forall i :: 0 <= i < |l| ==> l[i].ts <= s.ts && l[i] in before
  {
    hide Recent, Distinct, LastN;
    var before := slots[..|slots| - 1];
    RecentFacts(before);
    SuffixFacts(Recent(before), cap);
    forall s | s in before ensures s.ts <= slots[|slots| - 1].ts {
    }
  }

  lemma SuffixFacts(r: Table, n: nat)
    requires Distinct(r) && Rising(r)
    ensures var l := LastN(r, n); Distinct(l) && Rising(l) && forall i :: 0 <= i < |l| ==> l[i] in r
  {
    if |r| > n { SuffixDistinct(r, |r| - n); }
  }

  /**
   When the clock does not go back, each table holds exactly the cap most recently written keys with their
   latest values, after every write, if and only if at each eviction the least recent slot comes first
   among those of its age.
   */
  lemma {:induction false} RecentIffTiesInOrder(slots: seq<Slot>, cap: nat)
    requires Rising(slots) && cap > 0
    ensures SetsKeepRecent(slots, cap) <==> TiesInOrder(slots, cap)
    ensures AddsKeepRecent(slots, cap) <==> TiesInOrder(slots, cap)
    ensures TiesInOrder(slots, cap) ==> SameSlots(SetAll([], slots, cap), LastN(Recent(slots), cap))
  {
    BothTablesAgree(slots, cap);
    if slots != [] {
      var before, s := slots[..|slots| - 1], slots[|slots| - 1];
      RecentIffTiesInOrder(before, cap);
      NewestLast(slots, cap);
      if TiesInOrder(before, cap) {
        BoundedStep(Recent(before), s, cap);
        RefinesTouch(SetAll([], before, cap), LastN(Recent(before), cap), s, cap);
      }
    }
  }

  lemma {:induction false} NoTies(slots: seq<Slot>, cap: nat)
    requires Increasing(slots) && cap > 0
    ensures TiesInOrder(slots, cap)
  {
    if slots != [] {
      var before := slots[..|slots| - 1];
      var t, l := SetAll([], before, cap), LastN(Recent(before), cap);
      NoTies(before, cap);
      SetAllFacts(before, cap);
      forall i, p | 0 <= i < p < |t| && l != [] && t[p] == l[0] ensures t[i].ts != l[0].ts {
        assert t[i] in before && t[p] in before && t[i].key != t[p].key;
      }
    }
  }

  /**
   With a strictly increasing clock both tables hold exactly the cap most recently written keys with
   their latest values.
   */
  lemma {:induction false} TablesKeepMostRecent(slots: seq<Slot>, cap: nat)
    requires Increasing(slots) && cap > 0
    ensures SameSlots(AddAll([], slots, cap), LastN(Recent(slots), cap))
    ensures SameSlots(SetAll([], slots, cap), LastN(Recent(slots), cap))
  {
    NoTies(slots, cap);
    RecentIffTiesInOrder(slots, cap);
    BothTablesAgree(slots, cap);
  }

  // ----- Equal timestamps -----

  lemma {:induction false} FillsUp(full: Table, cap: nat)
    requires Distinct(full) && |full| <= cap
    ensures SetAll([], full, cap) == full
  {
    if full != [] {
      var before, s := full[..|full| - 1], full[|full| - 1];
      assert full == before + [s];
      LastIsNew(full);
      FillsUp(before, cap);
      hide Distinct, Has;
      PutAppends(before, s);
    }
  }

  lemma LastIsNew(t: Table)
    requires Distinct(t) && t != []
    ensures Distinct(t[..|t| - 1]) && !Has(t[..|t| - 1], t[|t| - 1].key)
  {
  }

  lemma {:induction false} FirstIsOldest(t: Table)
    requires t != [] && forall i :: 0 <= i < |t| ==> t[i].ts == t[0].ts
    ensures Oldest(t) == t[0]
  {
    if |t| > 1 {
      assert forall i :: 0 <= i < |t| - 1 ==> t[1..][i] == t[i + 1];
      FirstIsOldest(t[1..]);
    }
  }

  lemma {:induction false} SetNext(slots: seq<Slot>, s: Slot, cap: nat)
    ensures SetAll([], slots + [s], cap) == EvictThenInsert(SetAll([], slots, cap), s, cap)
    ensures Recent(slots + [s]) == Drop(Recent(slots), s.key) + [s]
  {
    assert (slots + [s])[..|slots|] == slots;
  }

  /**
   A full table of one age: when its first key is written again and then a new key comes, both tables lose
   the key just written again, although it is the most recent but one.
   */
  lemma {:induction false} TiesBreakRecency(full: Table, again: Slot, other: Slot, cap: nat)
    requires Distinct(full) && |full| == cap >= 2 && !Has(full, other.key) && again.key == full[0].key
    requires again.ts == other.ts && forall i :: 0 <= i < cap ==> full[i].ts == other.ts
    ensures var slots := full + [again] + [other];
      && !Has(SetAll([], slots, cap), again.key) && !Has(AddAll([], slots, cap), again.key)
      && again in LastN(Recent(slots), cap)
      && !SetsKeepRecent(slots, cap) && !AddsKeepRecent(slots, cap)
  {
    hide SetAll, Recent, Distinct, LastN, Has;
    var slots := full + [again] + [other];
    AfterTie(full, again, other, cap);
    RecentEnds(full, again, other, cap);
    BothTablesAgree(slots, cap);
    if SetsKeepRecent(slots, cap) || AddsKeepRecent(slots, cap) {
      Member(SetAll([], slots, cap), again);
      assert false;
    }
  }

  lemma AfterTie(full: Table, again: Slot, other: Slot, cap: nat)
    requires Distinct(full) && |full| == cap >= 2 && !Has(full, other.key) && again.key == full[0].key
    requires again.ts == other.ts && forall i :: 0 <= i < cap ==> full[i].ts == other.ts
    ensures SetAll([], full + [again] + [other], cap) == full[1..] + [other]
    ensures !Has(full[1..] + [other], again.key) && again.key != other.key
  {
    hide SetAll, Distinct, Has, Recent, Oldest;
    var t := [again] + full[1..];
    FillsUp(full, cap);
    SetNext(full, again, cap);
    SetNext(full + [again], other, cap);
    Cons(full);
    HasFirst(full);
    FirstIsOldest(t);
    HasCons(again, full[1..], other.key);
    assert t[1..] == full[1..] && Put(full, again) == t && Remove(t, again.key) == full[1..];
    PutAppends(full[1..], other);
    LoseFirst(full[1..], other, again.key);
  }

  lemma HasFirst(t: Table)
    requires t != []
    ensures Has(t, t[0].key)
  {
  }

  lemma LoseFirst(rest: Table, other: Slot, k: string)
    requires !Has(rest, k) && other.key != k
    ensures !Has(rest + [other], k)
  {
  }

  lemma RecentEnds(full: Table, again: Slot, other: Slot, cap: nat)
    requires again.key != other.key && cap >= 2
    ensures again in LastN(Recent(full + [again] + [other]), cap)
  {
    var before := Drop(Recent(full), again.key);
    SetNext(full, again, cap);
    SetNext(full + [again], other, cap);
    DropAppend(before, [again], other.key);
    assert Drop([again], other.key) == [again];
    hide Drop, Recent;
    EndsWith(Drop(before, other.key), again, other, cap);
  }

  lemma EndsWith(t: Table, a: Slot, b: Slot, n: nat)
    requires n >= 2
    ensures a in LastN(t + [a] + [b], n)
  {
    var l := LastN(t + [a] + [b], n);
    assert l[|l| - 2] == a;
  }

  /** n slots with different keys, all of time 0. */
  function Numbered(n: nat): (t: Table)
    ensures |t| == n
  {
    seq(n, i requires 0 <= i < n => Slot(seq(i, _ => 'k'), "old", 0))
  }

  /** At the bounds of the two services: the key of the empty name is written again and then lost to a new key. */
  lemma RewrittenKeyLost()
    ensures var again, other := Slot("", "new", 0), Slot("fresh", "new", 0);
      && !Has(AddAll([], Numbered(200) + [again] + [other], 200), "")
      && !Has(SetAll([], Numbered(500) + [again] + [other], 500), "")
  {
    var again, other := Slot("", "new", 0), Slot("fresh", "new", 0);
    NumberedKeys(MAX_PEERS);
    NumberedKeys(MAX_KEYS);
    TiesBreakRecency(Numbered(MAX_PEERS), again, other, MAX_PEERS);
    TiesBreakRecency(Numbered(MAX_KEYS), again, other, MAX_KEYS);
  }

  lemma NumberedKeys(n: nat)
    requires n > 0
    ensures Distinct(Numbered(n)) && !Has(Numbered(n), "fresh") && Numbered(n)[0].key == ""
  {
    var t := Numbered(n);
    forall i, j | 0 <= i < j < n ensures t[i].key != t[j].key {
      assert |t[i].key| == i && |t[j].key| == j;
    }
    forall i | 0 <= i < n ensures t[i].key != "fresh" {
      assert i > 0 ==> t[i].key[0] == 'k';
      assert "fresh"[0] == 'f';
    }
  }

  // ----- With deletions, under any clock -----

  datatype Op = Set(slot: Slot) | Delete(key: string)

  function Apply(t: Table, op: Op, cap: nat): Table {
    match op
    case Set(s) => EvictThenInsert(t, s, cap)
    case Delete(k) => Remove(t, k)
  }

  function Run(ops: seq<Op>, cap: nat): Table {
    if ops == [] then [] else Apply(Run(ops[..|ops| - 1], cap), ops[|ops| - 1], cap)
  }

  /** The map without a bound. */
  function Unbounded(ops: seq<Op>): map<string, Slot> {
    if ops == [] then map[] else
      var m := Unbounded(ops[..|ops| - 1]);
      match ops[|ops| - 1]
      case Set(s) => m[s.key := s]
      case Delete(k) => m - {k}
  }

  lemma {:induction false} GetMember(t: Table, k: string)
    requires Distinct(t)
    ensures Get(t, k) == None <==> !Has(t, k)
    ensures forall s :: s in t && s.key == k <==> Get(t, k) == Some(s)
  {
    if t != [] {
      Cons(t);
      GetMember(t[1..], k);
      forall s | s in t[1..] && t[0].key == k ensures s.key != k {
        Member(t[1..], s);
      }
    }
  }

  lemma {:induction false} TableWithinMap(ops: seq<Op>, cap: nat)
    requires cap > 0
    ensures Distinct(Run(ops, cap)) && |Run(ops, cap)| <= cap
    ensures forall s :: s in Run(ops, cap) ==> s.key in Unbounded(ops) && Unbounded(ops)[s.key] == s
  {
    if ops != [] {
      var t := Run(ops[..|ops| - 1], cap);
      TableWithinMap(ops[..|ops| - 1], cap);
      match ops[|ops| - 1]
      case Delete(k) => RemoveFacts(t, k);
      case Set(s) =>
        PutFacts(t, s);
        if |t| >= cap && !Has(t, s.key) {
          var k := Oldest(t).key;
          RemoveFacts(t, k);
          PutFacts(Remove(t, k), s);
          assert Has(t, k);
        }
    }
  }

  /** Whatever was set and deleted, a read gives the current value of the unbounded map or null. */
  lemma {:induction false} ReadsAreCurrent(ops: seq<Op>, cap: nat, k: string)
    requires cap > 0
    ensures var r := Get(Run(ops, cap), k);
      r == None || (k in Unbounded(ops) && r == Some(Unbounded(ops)[k]))
  {
    TableWithinMap(ops, cap);
    GetMember(Run(ops, cap), k);
  }

  // ----- The order of the slots -----

  /** Writing a key that is there changes its slot in place. */
  lemma {:induction false} PutInPlace(t: Table, s: Slot, i: nat)
    requires Distinct(t) && i < |t| && t[i].key == s.key
    ensures Put(t, s) == t[i := s]
  {
    if i > 0 {
      assert t[0].key != t[i].key;
      PutInPlace(t[1..], s, i - 1);
      assert t[i := s] == [t[0]] + t[1..][i - 1 := s];
    } else {
      assert t[0 := s] == [s] + t[1..];
    }
  }

  /** Removing a key takes its slot out and keeps the order of the others. */
  lemma {:induction false} RemoveInPlace(t: Table, k: string, i: nat)
    requires Distinct(t) && i < |t| && t[i].key == k
    ensures Remove(t, k) == Without(t, i)
  {
    if i > 0 {
      assert t[0].key != t[i].key;
      RemoveInPlace(t[1..], k, i - 1);
      WithoutLater(t, i);
    }
  }
}
