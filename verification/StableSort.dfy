/**
 The stable sort by timestamp that Array.prototype.sort performs on events, and
 its interaction with truncation to the last n.
 */
module StableSort {
  import opened Sequences

  /** A record with a timestamp. */
  datatype Stamped = Stamped(ts: int, body: string)

  ghost predicate Sorted(s: seq<Stamped>) {
    forall i, j :: 0 <= i < j < |s| ==> s[i].ts <= s[j].ts
  }

  /** e goes after every record that is not newer. */
  function Insert(s: seq<Stamped>, e: Stamped): seq<Stamped> {
    if s == [] || Last(s).ts <= e.ts then s + [e] else Insert(Init(s), e) + [Last(s)]
  }

  function InsertAll(s: seq<Stamped>, es: seq<Stamped>): seq<Stamped> {
    if es == [] then s else Insert(InsertAll(s, Init(es)), Last(es))
  }

  function Sort(s: seq<Stamped>): seq<Stamped> {
    InsertAll([], s)
  }

  // ----- Sort is the stable sort -----

  /** The records of timestamp t, in order. */
  function At(s: seq<Stamped>, t: int): seq<Stamped> {
    if s == [] then [] else At(Init(s), t) + (if Last(s).ts == t then [Last(s)] else [])
  }

  lemma {:induction false} InsertMembers(s: seq<Stamped>, e: Stamped)
    ensures multiset(Insert(s, e)) == multiset(s) + multiset{e}
    ensures |Insert(s, e)| == |s| + 1 && forall x :: x in Insert(s, e) ==> x in s || x == e
  {
    if s != [] && Last(s).ts > e.ts {
      InsertMembers(Init(s), e);
      assert s == Init(s) + [Last(s)];
    }
  }

  lemma SortedAppend(s: seq<Stamped>, e: Stamped)
    requires Sorted(s) && forall x :: x in s ==> x.ts <= e.ts
    ensures Sorted(s + [e])
  {
    forall i | 0 <= i < |s| ensures s[i].ts <= e.ts {
      assert s[i] in s;
    }
  }

  lemma SortedInit(s: seq<Stamped>)
    requires Sorted(s) && s != []
    ensures Sorted(Init(s)) && (Init(s) == [] || Last(Init(s)).ts <= Last(s).ts) && s == Init(s) + [Last(s)]
    ensures forall x :: x in s ==> x.ts <= Last(s).ts
  {
  }

  lemma {:induction false} InsertKeeps(s: seq<Stamped>, e: Stamped)
    requires Sorted(s)
    ensures Sorted(Insert(s, e)) && multiset(Insert(s, e)) == multiset(s) + multiset{e}
  {
    hide Sorted;
    InsertMembers(s, e);
    if s != [] {
      SortedInit(s);
    }
    if s == [] || Last(s).ts <= e.ts {
      assert s == [] ==> Sorted(s);
      SortedAppend(s, e);
    } else {
      InsertKeeps(Init(s), e);
      InsertMembers(Init(s), e);
      SortedAppend(Insert(Init(s), e), Last(s));
    }
  }

  lemma {:induction false} AtAppend(s: seq<Stamped>, x: Stamped, t: int)
    ensures At(s + [x], t) == At(s, t) + (if x.ts == t then [x] else [])
  {
    assert Init(s + [x]) == s;
  }

  lemma {:induction false} InsertIsStable(s: seq<Stamped>, e: Stamped, t: int)
    requires Sorted(s)
    ensures At(Insert(s, e), t) == At(s, t) + (if e.ts == t then [e] else [])
  {
    hide Sorted, At;
    if s == [] || Last(s).ts <= e.ts {
      AtAppend(s, e, t);
    } else {
      SortedInit(s);
      InsertIsStable(Init(s), e, t);
      AtAppend(Insert(Init(s), e), Last(s), t);
      AtAppend(Init(s), Last(s), t);
    }
  }

  lemma {:induction false} InsertAllKeeps(s: seq<Stamped>, es: seq<Stamped>)
    requires Sorted(s)
    ensures Sorted(InsertAll(s, es)) && multiset(InsertAll(s, es)) == multiset(s) + multiset(es)
  {
    hide Sorted, Insert;
    if es != [] {
      InsertAllKeeps(s, Init(es));
      InsertKeeps(InsertAll(s, Init(es)), Last(es));
      assert es == Init(es) + [Last(es)];
    }
  }

  lemma {:induction false} InsertAllIsStable(es: seq<Stamped>, t: int)
    ensures At(Sort(es), t) == At(es, t)
  {
    if es != [] {
      InsertAllIsStable(Init(es), t);
      InsertAllKeeps([], Init(es));
      InsertIsStable(Sort(Init(es)), Last(es), t);
    }
  }

  lemma {:induction false} AtNonEmpty(s: seq<Stamped>, t: int) returns (i: nat)
    requires At(s, t) != []
    ensures i < |s| && s[i].ts == t
  {
    if Last(s).ts == t { i := |s| - 1; } else { i := AtNonEmpty(Init(s), t); }
  }

  lemma {:induction false} LastOfAt(s: seq<Stamped>)
    requires s != []
    ensures At(s, Last(s).ts) != [] && Last(At(s, Last(s).ts)) == Last(s)
  {
  }

  /** The records at the newest timestamp of a occur in b, so that b ends no earlier. */
  lemma {:induction false} EndsNoEarlier(a: seq<Stamped>, b: seq<Stamped>)
    requires Sorted(b) && a != [] && At(a, Last(a).ts) == At(b, Last(a).ts)
    ensures b != [] && Last(a).ts <= Last(b).ts
  {
    LastOfAt(a);
    var i := AtNonEmpty(b, Last(a).ts);
  }

  lemma {:induction false} SameLast(a: seq<Stamped>, b: seq<Stamped>)
    requires Sorted(a) && Sorted(b) && a != []
    requires forall t :: At(a, t) == At(b, t)
    ensures b != [] && Last(a) == Last(b)
  {
    EndsNoEarlier(a, b);
    EndsNoEarlier(b, a);
    LastOfAt(a);
    LastOfAt(b);
  }

  /** A sorted sequence is determined by its records of each timestamp: stable sorting is unique. */
  lemma {:induction false} StableUnique(a: seq<Stamped>, b: seq<Stamped>)
    requires Sorted(a) && Sorted(b)
    requires forall t :: At(a, t) == At(b, t)
    ensures a == b
  {
    if a == [] {
      if b != [] { SameLast(b, a); }
    } else {
      SameLast(a, b);
      forall t ensures At(Init(a), t) == At(Init(b), t) {
        var tail := if Last(a).ts == t then [Last(a)] else [];
        assert At(a, t) == At(Init(a), t) + tail && At(b, t) == At(Init(b), t) + tail;
        assert At(Init(a), t) == At(a, t)[..|At(a, t)| - |tail|];
      }
      StableUnique(Init(a), Init(b));
      assert a == Init(a) + [Last(a)] && b == Init(b) + [Last(b)];
    }
  }

  /** r is sorted and keeps the order of the records of s with equal timestamps. */
  ghost predicate StablySorts(r: seq<Stamped>, s: seq<Stamped>) {
    Sorted(r) && forall t :: At(r, t) == At(s, t)
  }

  lemma SortIsStable(s: seq<Stamped>)
    ensures StablySorts(Sort(s), s)
  {
    InsertAllKeeps([], s);
    forall t ensures At(Sort(s), t) == At(s, t) {
      InsertAllIsStable(s, t);
    }
  }

  /** Sort is the stable sort: it stably sorts, and nothing else does. */
  lemma SortCharacterised(s: seq<Stamped>, r: seq<Stamped>)
    ensures r == Sort(s) <==> StablySorts(r, s)
  {
    SortIsStable(s);
    if StablySorts(r, s) {
      StableUnique(r, Sort(s));
    }
  }

  // ----- Truncation -----

  lemma {:induction false} InsertAllAppend(s: seq<Stamped>, a: seq<Stamped>, b: seq<Stamped>)
    ensures InsertAll(s, a + b) == InsertAll(InsertAll(s, a), b)
  {
    if b == [] {
      assert a + b == a;
    } else {
      assert Init(a + b) == a + Init(b);
      InsertAllAppend(s, a, Init(b));
    }
  }

  lemma {:induction false} SortOfSorted(s: seq<Stamped>)
    requires Sorted(s)
    ensures Sort(s) == s
  {
    hide Sorted;
    if s != [] {
      SortedInit(s);
      SortOfSorted(Init(s));
    }
  }

  lemma AppendLast<T>(s: seq<T>, x: T, n: nat)
    requires n > 0
    ensures LastN(s + [x], n) == LastN(s, n - 1) + [x]
  {
  }

  lemma LastOfTruncated<T>(s: seq<T>, n: nat)
    requires 0 < n && s != []
    ensures LastN(s, n) != [] && Last(LastN(s, n)) == Last(s)
    ensures Init(LastN(s, n)) == LastN(Init(s), n - 1) && LastN(LastN(s, n), n - 1) == LastN(s, n - 1)
  {
  }

  /** Truncating before an insertion does not matter after truncation. */
  lemma {:induction false} InsertTruncated(s: seq<Stamped>, e: Stamped, n: nat)
    requires Sorted(s)
    ensures LastN(Insert(LastN(s, n), e), n) == LastN(Insert(s, e), n)
  {
    if |s| > n > 0 {
      var l, x := LastN(s, n), Last(s);
      LastOfTruncated(s, n);
      if x.ts <= e.ts {
        AppendLast(s, e, n);
        AppendLast(l, e, n);
      } else {
        InsertTruncated(Init(s), e, n - 1);
        AppendLast(Insert(Init(s), e), x, n);
        AppendLast(Insert(Init(l), e), x, n);
      }
    }
  }

  lemma SortedSuffix(s: seq<Stamped>, n: nat)
    requires Sorted(s)
    ensures Sorted(LastN(s, n))
  {
  }

  lemma {:induction false} InsertAllTruncated(s: seq<Stamped>, es: seq<Stamped>, n: nat)
    requires Sorted(s)
    ensures LastN(InsertAll(LastN(s, n), es), n) == LastN(InsertAll(s, es), n)
  {
    SortedSuffix(s, n);
    if es != [] {
      var u, v := InsertAll(LastN(s, n), Init(es)), InsertAll(s, Init(es));
      InsertAllTruncated(s, Init(es), n);
      InsertAllKeeps(LastN(s, n), Init(es));
      InsertAllKeeps(s, Init(es));
      InsertTruncated(u, Last(es), n);
      InsertTruncated(v, Last(es), n);
    } else {
      assert LastN(LastN(s, n), n) == LastN(s, n);
    }
  }

  /** Truncate then merge equals merge then truncate, as sequences. */
  lemma TruncatedMerge(a: seq<Stamped>, b: seq<Stamped>, n: nat)
    ensures LastN(Sort(LastN(Sort(a), n) + b), n) == LastN(Sort(a + b), n)
  {
    var l := LastN(Sort(a), n);
    InsertAllKeeps([], a);
    SortedSuffix(Sort(a), n);
    InsertAllAppend([], l, b);
    SortOfSorted(l);
    InsertAllAppend([], a, b);
    InsertAllTruncated(Sort(a), b, n);
  }

  /** The log after merging the batches in order, truncated at each merge. */
  function LogAfter(batches: seq<seq<Stamped>>, n: nat): seq<Stamped> {
    if batches == [] then [] else LastN(Sort(LogAfter(Init(batches), n) + Last(batches)), n)
  }

  function Flatten(batches: seq<seq<Stamped>>): seq<Stamped> {
    if batches == [] then [] else Flatten(Init(batches)) + Last(batches)
  }

  /** Over any run of merges the log is the last n of the stable sort of everything received. */
  lemma {:induction false} LogLosesNothingRelevant(batches: seq<seq<Stamped>>, n: nat)
    ensures LogAfter(batches, n) == LastN(Sort(Flatten(batches)), n)
  {
    if batches != [] {
      LogLosesNothingRelevant(Init(batches), n);
      TruncatedMerge(Flatten(Init(batches)), Last(batches), n);
    }
  }
}
