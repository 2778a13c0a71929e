/**
 When two JSON values differ only in the order of object keys, and what the canonical
 text says about it.
 */
module KeyOrder {
  import opened Results
  import opened Json

  /** Equal up to the order of keys, at every depth. */
  ghost predicate Same(v: Value, w: Value)
    decreases v
  {
    match (v, w)
    case (Arr(a), Arr(b)) => |a| == |b| && forall i :: 0 <= i < |a| ==> Same(a[i], b[i])
    case (Obj(a), Obj(b)) =>
      && (forall e :: e in a ==> exists f :: f in b && f.0 == e.0 && Same(e.1, f.1))
      && (forall f :: f in b ==> HasKey(a, f.0))
    case _ => v == w
  }

  ghost predicate HasKey(es: seq<(Chars, Value)>, k: Chars) {
    exists e :: e in es && e.0 == k
  }

  // ----- Sorting by key -----

  lemma {:induction false} LessOrder(a: Chars, b: Chars)
    ensures a == b ==> !Less(a, b)
    ensures a != b ==> (Less(a, b) <==> !Less(b, a))
  {
    if a != [] && b != [] && a[0] == b[0] {
      LessOrder(a[1..], b[1..]);
      assert a == [a[0]] + a[1..] && b == [b[0]] + b[1..];
    }
  }

  lemma {:induction false} LessTransitive(a: Chars, b: Chars, c: Chars)
    requires Less(a, b) && Less(b, c)
    ensures Less(a, c)
  {
    if a != [] && a[0] == b[0] == c[0] { LessTransitive(a[1..], b[1..], c[1..]); }
  }

  /** The order of strings by code units: at the first difference the smaller unit, or the shorter string. */
  ghost predicate Before(a: Chars, b: Chars) {
    exists n: nat :: FirstDifference(a, b, n)
  }

  ghost predicate FirstDifference(a: Chars, b: Chars, n: nat) {
    && n <= |a| && n <= |b| && a[..n] == b[..n]
    && (n == |a| < |b| || (n < |a| && n < |b| && a[n] < b[n]))
  }

  lemma {:induction false} LessIsBefore(a: Chars, b: Chars)
    requires Less(a, b)
    ensures Before(a, b)
  {
    if a == [] || a[0] < b[0] {
      assert FirstDifference(a, b, 0);
    } else {
      LessIsBefore(a[1..], b[1..]);
      var n: nat :| FirstDifference(a[1..], b[1..], n);
      assert a[..n + 1] == [a[0]] + a[1..][..n] && b[..n + 1] == [b[0]] + b[1..][..n];
      assert FirstDifference(a, b, n + 1);
    }
  }

  lemma {:induction false} BeforeIsLess(a: Chars, b: Chars, n: nat)
    requires FirstDifference(a, b, n)
    ensures Less(a, b)
  {
    if n > 0 {
      assert a[..n][0] == b[..n][0] && a[1..][..n - 1] == a[..n][1..] && b[1..][..n - 1] == b[..n][1..];
      BeforeIsLess(a[1..], b[1..], n - 1);
    }
  }

  /** Sorting puts the keys in ascending order and keeps the entries. */
  lemma {:induction false} SortsAscending(es: seq<(Chars, Value)>)
    requires DistinctKeys(es)
    ensures var sorted := SortEntries(es);
      && (forall i, j :: 0 <= i < j < |sorted| ==> Before(sorted[i].0, sorted[j].0))
      && |sorted| == |es| && forall e :: e in sorted <==> e in es
  {
    hide Less, Before;
    SortsStrictly(es);
    var sorted := SortEntries(es);
    forall i, j | 0 <= i < j < |sorted| ensures Before(sorted[i].0, sorted[j].0) {
      LessIsBefore(sorted[i].0, sorted[j].0);
    }
  }

  /** Entries in ascending order of keys stay as they are. */
  lemma {:induction false} AscendingStays(es: seq<(Chars, Value)>)
    requires forall i, j :: 0 <= i < j < |es| ==> Before(es[i].0, es[j].0)
    ensures SortEntries(es) == es
  {
    hide Less;
    forall i, j | 0 <= i < j < |es| ensures Less(es[i].0, es[j].0) {
      var n: nat :| FirstDifference(es[i].0, es[j].0, n);
      BeforeIsLess(es[i].0, es[j].0, n);
    }
    SortOfSorted(es);
  }

  /** Every object of v has its keys in ascending order. */
  ghost predicate Ascending(v: Value) {
    match v
    case Arr(items) => forall x :: x in items ==> Ascending(x)
    case Obj(entries) =>
      && (forall i, j :: 0 <= i < j < |entries| ==> Before(entries[i].0, entries[j].0))
      && forall e :: e in entries ==> Ascending(e.1)
    case _ => true
  }

  /** The canonical form has its keys in ascending order at every depth. */
  lemma {:induction false} CanonicalAscending(v: Value)
    requires WellFormed(v)
    ensures Ascending(Canonical(v))
  {
    hide Before, Less, SortEntries;
    TextOfContainer(v);
    match v
    case Arr(items) =>
      var c := CanonicalItems(items);
      forall i | 0 <= i < |c| ensures Ascending(c[i]) {
        CanonicalAscending(items[i]);
      }
    case Obj(entries) =>
      var sorted := SortEntries(entries);
      var c := CanonicalEntries(sorted);
      SortsAscending(entries);
      forall i | 0 <= i < |c| ensures Ascending(c[i].1) {
        assert sorted[i] in entries;
        CanonicalAscending(sorted[i].1);
      }
    case _ =>
  }

  ghost predicate StrictlySorted(es: seq<(Chars, Value)>) {
    forall i, j :: 0 <= i < j < |es| ==> Less(es[i].0, es[j].0)
  }

  lemma {:induction false} InsertSorted(es: seq<(Chars, Value)>, e: (Chars, Value))
    requires StrictlySorted(es) && forall i :: 0 <= i < |es| ==> es[i].0 != e.0
    ensures StrictlySorted(InsertEntry(es, e))
  {
    if es != [] {
      LessOrder(e.0, es[0].0);
      if Less(e.0, es[0].0) {
        forall j | 0 < j < |es| ensures Less(e.0, es[j].0) {
          LessTransitive(e.0, es[0].0, es[j].0);
        }
      } else {
        var rest := InsertEntry(es[1..], e);
        InsertSorted(es[1..], e);
        InsertMembers(es[1..], e);
        forall j | 0 <= j < |rest| ensures Less(es[0].0, rest[j].0) {
          assert rest[j] in rest;
        }
      }
    }
  }

  lemma {:induction false} SortsStrictly(es: seq<(Chars, Value)>)
    requires DistinctKeys(es)
    ensures StrictlySorted(SortEntries(es))
  {
    if es != [] {
      SortsStrictly(es[1..]);
      var rest := SortEntries(es[1..]);
      forall i | 0 <= i < |rest| ensures rest[i].0 != es[0].0 {
        assert rest[i] in rest;
      }
      InsertSorted(rest, es[0]);
    }
  }

  /** A strictly sorted list of entries is determined, in its keys, by which keys it has. */
  lemma {:induction false} SortedKeysUnique(a: seq<(Chars, Value)>, b: seq<(Chars, Value)>)
    requires StrictlySorted(a) && StrictlySorted(b)
    requires forall k :: HasKey(a, k) <==> HasKey(b, k)
    ensures |a| == |b| && forall i :: 0 <= i < |a| ==> a[i].0 == b[i].0
  {
    if a == [] {
      if b != [] { assert HasKey(b, b[0].0); }
    } else {
      assert HasKey(a, a[0].0);
      HeadsAgree(a, b);
      forall k ensures HasKey(a[1..], k) <==> HasKey(b[1..], k) {
        TailKeys(a, k);
        TailKeys(b, k);
      }
      SortedKeysUnique(a[1..], b[1..]);
      assert forall i :: 0 < i < |a| ==> a[i] == a[1..][i - 1];
      assert forall i :: 0 < i < |b| ==> b[i] == b[1..][i - 1];
    }
  }

  lemma TailKeys(a: seq<(Chars, Value)>, k: Chars)
    requires StrictlySorted(a) && a != []
    ensures HasKey(a[1..], k) <==> HasKey(a, k) && k != a[0].0
  {
    if HasKey(a[1..], k) {
      var i :| 0 <= i < |a[1..]| && a[1..][i].0 == k;
      assert a[i + 1].0 == k && a[i + 1] in a;
      LessOrder(a[0].0, k);
    }
    if HasKey(a, k) && k != a[0].0 {
      var i :| 0 <= i < |a| && a[i].0 == k;
      assert a[1..][i - 1] in a[1..];
    }
  }

  lemma HeadsAgree(a: seq<(Chars, Value)>, b: seq<(Chars, Value)>)
    requires StrictlySorted(a) && StrictlySorted(b) && a != [] && HasKey(b, a[0].0)
    requires forall k :: HasKey(b, k) ==> HasKey(a, k)
    ensures b != [] && a[0].0 == b[0].0
  {
    var j :| 0 <= j < |b| && b[j].0 == a[0].0;
    assert b[0] in b && HasKey(b, b[0].0);
    var i :| 0 <= i < |a| && a[i].0 == b[0].0;
    LessOrder(a[0].0, b[0].0);
    LessOrder(b[0].0, a[0].0);
  }

  // ----- Canonical values -----

  lemma {:induction false} CanonicalIffSame(v: Value, w: Value)
    requires WellFormed(v) && WellFormed(w)
    ensures Canonical(v) == Canonical(w) <==> Same(v, w)
    decreases v, 1
  {
    TextOfContainer(v);
    TextOfContainer(w);
    if v.Arr? && w.Arr? {
      ArraysSame(v, w);
    } else if v.Obj? && w.Obj? {
      ObjectsSame(v, w);
    }
  }

  lemma {:induction false} ArraysSame(v: Value, w: Value)
    requires WellFormed(v) && WellFormed(w) && v.Arr? && w.Arr?
    ensures Canonical(v) == Canonical(w) <==> Same(v, w)
    decreases v, 0
  {
    TextOfContainer(v);
    TextOfContainer(w);
    var a, b := v.items, w.items;
    forall i | 0 <= i < |a| && i < |b| ensures Canonical(a[i]) == Canonical(b[i]) <==> Same(a[i], b[i]) {
      CanonicalIffSame(a[i], b[i]);
    }
    if Canonical(v) == Canonical(w) {
      forall i | 0 <= i < |a| ensures Same(a[i], b[i]) {
        assert CanonicalItems(a)[i] == CanonicalItems(b)[i];
      }
    }
    if Same(v, w) {
      assert CanonicalItems(a) == CanonicalItems(b);
    }
  }

  lemma {:induction false} ObjectsSame(v: Value, w: Value)
    requires WellFormed(v) && WellFormed(w) && v.Obj? && w.Obj?
    ensures Canonical(v) == Canonical(w) <==> Same(v, w)
    decreases v, 0
  {
    hide Canonical, SortEntries, WellFormed;
    TextOfContainer(v);
    TextOfContainer(w);
    var a, b := SortEntries(v.entries), SortEntries(w.entries);
    WellFormedObject(v);
    WellFormedObject(w);
    SortsStrictly(v.entries);
    SortsStrictly(w.entries);
    forall e, f | e in v.entries && f in w.entries ensures Canonical(e.1) == Canonical(f.1) <==> Same(e.1, f.1) {
      CanonicalIffSame(e.1, f.1);
    }
    if CanonicalEntries(a) == CanonicalEntries(b) {
      EntriesThenSame(v.entries, w.entries, a, b);
    }
    if Same(v, w) {
      SameThenEntries(v.entries, w.entries, a, b);
    }
  }

  lemma {:induction false} WellFormedObject(v: Value)
    requires WellFormed(v) && v.Obj?
    ensures DistinctKeys(v.entries) && forall e :: e in v.entries ==> WellFormed(e.1)
  {
  }

  /** a and b are the sorted entries es and fs; the canonical forms of their values decide sameness. */
  ghost predicate Related(es: seq<(Chars, Value)>, fs: seq<(Chars, Value)>,
                          a: seq<(Chars, Value)>, b: seq<(Chars, Value)>)
  {
    && (forall e :: e in a <==> e in es) && (forall f :: f in b <==> f in fs)
    && StrictlySorted(a) && StrictlySorted(b)
    && (forall e, f :: e in es && f in fs ==> (Canonical(e.1) == Canonical(f.1) <==> Same(e.1, f.1)))
  }

  lemma EntriesAt(a: seq<(Chars, Value)>, b: seq<(Chars, Value)>, i: nat)
    requires CanonicalEntries(a) == CanonicalEntries(b) && i < |a|
    ensures |a| == |b| && a[i].0 == b[i].0 && Canonical(a[i].1) == Canonical(b[i].1)
  {
    hide Canonical;
    assert |CanonicalEntries(a)| == |CanonicalEntries(b)|;
    assert CanonicalEntries(a)[i] == CanonicalEntries(b)[i];
  }

  lemma SameObjects(es: seq<(Chars, Value)>, fs: seq<(Chars, Value)>)
    ensures Same(Obj(es), Obj(fs)) <==>
      (forall e :: e in es ==> Partner(e, fs)) && (forall f :: f in fs ==> HasKey(es, f.0))
  {
  }

  ghost predicate Partner(e: (Chars, Value), fs: seq<(Chars, Value)>) {
    exists f :: f in fs && f.0 == e.0 && Same(e.1, f.1)
  }

  lemma EntriesThenSame(es: seq<(Chars, Value)>, fs: seq<(Chars, Value)>, a: seq<(Chars, Value)>,
                        b: seq<(Chars, Value)>)
    requires Related(es, fs, a, b) && CanonicalEntries(a) == CanonicalEntries(b)
    ensures Same(Obj(es), Obj(fs))
  {
    hide Canonical, Same, CanonicalEntries, StrictlySorted;
    forall e | e in es ensures Partner(e, fs) {
      assert e in a;
      var i :| 0 <= i < |a| && a[i] == e;
      EntriesAt(a, b, i);
      assert b[i] in b;
    }
    forall f | f in fs ensures HasKey(es, f.0) {
      assert f in b;
      var i :| 0 <= i < |b| && b[i] == f;
      EntriesAt(b, a, i);
      assert a[i] in a;
    }
    SameObjects(es, fs);
  }

  lemma SameKeys(es: seq<(Chars, Value)>, fs: seq<(Chars, Value)>, a: seq<(Chars, Value)>, b: seq<(Chars, Value)>,
                 k: Chars)
    requires Related(es, fs, a, b) && Same(Obj(es), Obj(fs))
    ensures HasKey(a, k) <==> HasKey(b, k)
  {
    hide Canonical, Same, StrictlySorted;
    SameObjects(es, fs);
    if HasKey(a, k) {
      var e :| e in a && e.0 == k;
      assert Partner(e, fs);
      var f :| f in fs && f.0 == e.0 && Same(e.1, f.1);
      assert f in b;
    }
    if HasKey(b, k) {
      var f :| f in b && f.0 == k;
      var e :| e in es && e.0 == k;
      assert e in a;
    }
  }

  lemma SameValues(es: seq<(Chars, Value)>, fs: seq<(Chars, Value)>, a: seq<(Chars, Value)>, b: seq<(Chars, Value)>,
                   i: nat)
    requires Related(es, fs, a, b) && Same(Obj(es), Obj(fs)) && i < |a| && i < |b| && a[i].0 == b[i].0
    ensures Canonical(a[i].1) == Canonical(b[i].1)
  {
    hide Canonical, Same, StrictlySorted;
    SameObjects(es, fs);
    assert a[i] in a && Partner(a[i], fs);
    var f :| f in fs && f.0 == a[i].0 && Same(a[i].1, f.1);
    assert f in b;
    var j :| 0 <= j < |b| && b[j] == f;
    SortedKeyOnce(b, i, j);
  }

  lemma SameThenEntries(es: seq<(Chars, Value)>, fs: seq<(Chars, Value)>, a: seq<(Chars, Value)>,
                        b: seq<(Chars, Value)>)
    requires Related(es, fs, a, b) && Same(Obj(es), Obj(fs))
    ensures CanonicalEntries(a) == CanonicalEntries(b)
  {
    hide Canonical, Same;
    forall k ensures HasKey(a, k) <==> HasKey(b, k) {
      SameKeys(es, fs, a, b, k);
    }
    SortedKeysUnique(a, b);
    forall i | 0 <= i < |a| ensures CanonicalEntries(a)[i] == CanonicalEntries(b)[i] {
      SameValues(es, fs, a, b, i);
    }
  }

  lemma SortedKeyOnce(b: seq<(Chars, Value)>, i: nat, j: nat)
    requires StrictlySorted(b) && i < |b| && j < |b| && b[i].0 == b[j].0
    ensures i == j
  {
    LessOrder(b[i].0, b[j].0);
  }

  // ----- Main results -----

  /** A parser recovers every value from its canonical text, up to the order of keys. */
  lemma {:induction false} ParserRecovers(v: Value)
    requires WellFormed(v)
    ensures Parse(StableStringify(v)) == Some(Canonical(v)) && Ascending(Canonical(v))
  {
    CanonicalAscending(v);
    RoundTrip(v, []);
    assert StableStringify(v) + [] == StableStringify(v);
  }

  /** The canonical text is order-insensitive and unambiguous: it identifies values up to key order. */
  lemma {:induction false} TextIffSame(v: Value, w: Value)
    requires WellFormed(v) && WellFormed(w)
    ensures StableStringify(v) == StableStringify(w) <==> Same(v, w)
  {
    ParserRecovers(v);
    ParserRecovers(w);
    CanonicalIffSame(v, w);
    TextOfCanonical(v);
    TextOfCanonical(w);
  }

  /** Printing a value and printing its canonical form give the same text. */
  lemma {:induction false} TextOfCanonical(v: Value)
    requires WellFormed(v)
    ensures StableStringify(Canonical(v)) == StableStringify(v)
  {
    TextOfContainer(v);
    TextOfContainer(Canonical(v));
    if v.Arr? {
      var items := v.items;
      forall i | 0 <= i < |items| ensures ElementText(Canonical(items[i])) == ElementText(items[i]) {
        TextOfCanonical(items[i]);
      }
      assert ElementTexts(CanonicalItems(items)) == ElementTexts(items);
    } else if v.Obj? {
      var sorted := SortEntries(v.entries);
      var entries := CanonicalEntries(sorted);
      SortsStrictly(v.entries);
      SortOfSorted(entries);
      forall i | 0 <= i < |sorted| ensures MemberText(entries[i]) == MemberText(sorted[i]) {
        assert sorted[i] in v.entries;
        TextOfCanonical(sorted[i].1);
      }
      assert MemberTexts(entries) == MemberTexts(sorted);
    }
  }

  lemma {:induction false} SortOfSorted(es: seq<(Chars, Value)>)
    requires StrictlySorted(es)
    ensures SortEntries(es) == es
  {
    if es != [] {
      SortOfSorted(es[1..]);
      if |es| > 1 { assert Less(es[0].0, es[1].0); }
    }
  }

  // ----- Values with undefined elements -----

  /** v with the empty array in place of each array [undefined]. */
  function Collapse(v: Value): Value {
    match v
    case Arr(items) =>
      if items == [Undefined] then Arr([]) else Arr(seq(|items|, i requires 0 <= i < |items| => Collapse(items[i])))
    case Obj(entries) =>
      Obj(seq(|entries|, i requires 0 <= i < |entries| => (entries[i].0, Collapse(entries[i].1))))
    case _ => v
  }

  /** No object has a key twice. */
  ghost predicate KeysOnce(v: Value) {
    match v
    case Arr(items) => forall x :: x in items ==> KeysOnce(x)
    case Obj(entries) => DistinctKeys(entries) && forall e :: e in entries ==> KeysOnce(e.1)
    case _ => true
  }

  function CollapsedItems(items: seq<Value>): seq<Value> {
    seq(|items|, i requires 0 <= i < |items| => Collapse(items[i]))
  }

  function CollapsedEntries(entries: seq<(Chars, Value)>): seq<(Chars, Value)> {
    seq(|entries|, i requires 0 <= i < |entries| => (entries[i].0, Collapse(entries[i].1)))
  }

  lemma {:induction false} CollapseOfContainer(v: Value)
    ensures v.Arr? ==> Collapse(v) == if v.items == [Undefined] then Arr([]) else Arr(CollapsedItems(v.items))
    ensures v.Obj? ==> Collapse(v) == Obj(CollapsedEntries(v.entries))
  {
  }

  lemma {:induction false} CollapseWellFormed(v: Value)
    requires KeysOnce(v)
    ensures WellFormed(Collapse(v))
  {
    CollapseOfContainer(v);
    match v
    case Arr(items) =>
      var c := CollapsedItems(items);
      forall i | 0 <= i < |items| ensures WellFormed(c[i]) {
        CollapseWellFormed(items[i]);
      }
      if c == [Undefined] {
        assert items == [items[0]] && c[0] == Collapse(items[0]);
      }
    case Obj(entries) =>
      var c := CollapsedEntries(entries);
      forall i | 0 <= i < |entries| ensures WellFormed(c[i].1) {
        CollapseWellFormed(entries[i].1);
      }
      forall i, j | 0 <= i < j < |c| ensures c[i].0 != c[j].0 {
        assert entries[i].0 != entries[j].0;
      }
    case _ =>
  }

  lemma {:induction false} SortedCollapsed(es: seq<(Chars, Value)>)
    ensures SortEntries(CollapsedEntries(es)) == CollapsedEntries(SortEntries(es))
  {
    if es != [] {
      SortedCollapsed(es[1..]);
      assert CollapsedEntries(es)[1..] == CollapsedEntries(es[1..]);
      InsertCollapsed(SortEntries(es[1..]), es[0]);
    }
  }

  lemma {:induction false} InsertCollapsed(es: seq<(Chars, Value)>, e: (Chars, Value))
    ensures InsertEntry(CollapsedEntries(es), (e.0, Collapse(e.1))) == CollapsedEntries(InsertEntry(es, e))
  {
    hide Collapse;
    if es != [] && !Less(e.0, es[0].0) {
      assert CollapsedEntries(es)[1..] == CollapsedEntries(es[1..]);
      InsertCollapsed(es[1..], e);
    }
  }

  /** Collapsing does not change the text. */
  lemma {:induction false} TextOfCollapse(v: Value)
    ensures StableStringify(Collapse(v)) == StableStringify(v)
  {
    hide StableStringify;
    CollapseOfContainer(v);
    TextOfContainer(v);
    TextOfContainer(Collapse(v));
    match v
    case Arr(items) =>
      if items == [Undefined] {
        assert ElementTexts(items) == [[]] && Join([[]]) == [] == Join(ElementTexts([]));
      } else {
        forall i | 0 <= i < |items| ensures ElementText(Collapse(items[i])) == ElementText(items[i]) {
          TextOfCollapse(items[i]);
        }
        assert ElementTexts(CollapsedItems(items)) == ElementTexts(items);
      }
    case Obj(entries) =>
      var sorted := SortEntries(entries);
      SortedCollapsed(entries);
      forall i | 0 <= i < |sorted| ensures MemberText(CollapsedEntries(sorted)[i]) == MemberText(sorted[i]) {
        assert sorted[i] in entries;
        TextOfCollapse(sorted[i].1);
      }
      assert MemberTexts(CollapsedEntries(sorted)) == MemberTexts(sorted);
    case _ =>
  }

  /**
   For all values, with undefined anywhere: two have the same text if and only if they are equal up to
   key order once each array [undefined] is taken for the empty one.
   */
  lemma {:induction false} TextIffSameCollapsed(v: Value, w: Value)
    requires KeysOnce(v) && KeysOnce(w)
    ensures StableStringify(v) == StableStringify(w) <==> Same(Collapse(v), Collapse(w))
  {
    CollapseWellFormed(v);
    CollapseWellFormed(w);
    TextOfCollapse(v);
    TextOfCollapse(w);
    TextIffSame(Collapse(v), Collapse(w));
  }

  /** The text tells apart all values without an array [undefined], and only those: the array has the text of []. */
  lemma UndefinedElementCollides()
    ensures StableStringify(Arr([Undefined])) == StableStringify(Arr([])) && !Same(Arr([Undefined]), Arr([]))
  {
    TextOfCollapse(Arr([Undefined]));
  }
}
