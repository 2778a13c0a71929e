/**
 The data merge of services/replication/index.js, lines 17 to 41: a last-writer-wins map,
 a bounded sorted log and a list of rules without duplicate ids.
 */
module Replication {
  import opened Sequences
  import opened StableSort

  type Table = map<string, Stamped>

  datatype Rule = Rule(id: string, entry: Stamped)

  datatype Data = Data(state: Table, events: seq<Stamped>, rules: seq<Rule>)

  const MAX_EVENTS: nat := 200

  // ----- The last-writer-wins join -----

  /** The remote entry wins when there is no local one or its timestamp is greater. */
  predicate RemoteWins(local: Table, remote: Table, k: string) {
    k in remote && (k !in local || remote[k].ts > local[k].ts)
  }

  function Join(local: Table, remote: Table): Table {
    map k | k in local.Keys + remote.Keys :: if RemoteWins(local, remote, k) then remote[k] else local[k]
  }

  /** Equal key and timestamp mean equal entry. */
  ghost predicate Consistent(a: Table, b: Table) {
    forall k :: k in a && k in b && a[k].ts == b[k].ts ==> a[k] == b[k]
  }

  lemma JoinIdempotent(a: Table, b: Table)
    ensures Join(a, a) == a && Join(Join(a, b), b) == Join(a, b)
  {
  }

  lemma JoinAssociative(a: Table, b: Table, c: Table)
    ensures Join(Join(a, b), c) == Join(a, Join(b, c))
  {
    var l, r := Join(Join(a, b), c), Join(a, Join(b, c));
    assert l.Keys == r.Keys;
  }

  /** The join commutes exactly when equal timestamps mean equal entries. */
  lemma JoinCommutesIffConsistent(a: Table, b: Table)
    ensures Join(a, b) == Join(b, a) <==> Consistent(a, b)
  {
    var l, r := Join(a, b), Join(b, a);
    assert l.Keys == r.Keys;
    if Consistent(a, b) {
      forall k | k in l ensures l[k] == r[k] {
      }
    } else {
      var k :| k in a && k in b && a[k].ts == b[k].ts && a[k] != b[k];
      assert l[k] == a[k] && r[k] == b[k];
    }
  }

  function JoinAll(tables: seq<Table>): Table {
    if tables == [] then map[] else Join(JoinAll(Init(tables)), Last(tables))
  }

  /** Entry i is the winner for k: no entry is newer, and none of the same age came before. */
  ghost predicate Wins(tables: seq<Table>, k: string, i: nat) {
    i < |tables| && k in tables[i] &&
    forall j :: 0 <= j < |tables| && k in tables[j] ==>
      tables[j][k].ts <= tables[i][k].ts && (j < i ==> tables[j][k].ts < tables[i][k].ts)
  }

  /** After any sequence of merges a key holds the newest entry seen, the earliest-arrived on ties. */
  lemma {:induction false} JoinAllKeepsWinner(tables: seq<Table>, k: string)
    ensures k in JoinAll(tables) <==> exists j :: 0 <= j < |tables| && k in tables[j]
    ensures k in JoinAll(tables) ==> exists i: nat :: Wins(tables, k, i) && JoinAll(tables)[k] == tables[i][k]
  {
    if tables != [] {
      var before, n := Init(tables), |tables| - 1;
      JoinAllKeepsWinner(before, k);
      assert forall j :: 0 <= j < |before| ==> before[j] == tables[j];
      if RemoteWins(JoinAll(before), Last(tables), k) {
        assert Wins(tables, k, n);
      } else if k in JoinAll(before) {
        var i: nat :| Wins(before, k, i) && JoinAll(before)[k] == before[i][k];
        assert Wins(tables, k, i);
      }
    }
  }

  // ----- Rules -----

  /** The table of a rule list: for each id the newest entry, the earliest on ties. */
  function Latest(rules: seq<Rule>): Table {
    if rules == [] then map[] else Join(Latest(Init(rules)), map[Last(rules).id := Last(rules).entry])
  }

  /** The ids in order of first occurrence. */
  function Ids(rules: seq<Rule>): seq<string> {
    if rules == [] then []
    else if Last(rules).id in Ids(Init(rules)) then Ids(Init(rules))
    else Ids(Init(rules)) + [Last(rules).id]
  }

  ghost predicate Distinct(ids: seq<string>) {
    forall i, j :: 0 <= i < j < |ids| ==> ids[i] != ids[j]
  }

  lemma {:induction false} IdsOfLatest(rules: seq<Rule>)
    ensures Distinct(Ids(rules)) && forall k :: k in Ids(rules) <==> k in Latest(rules)
  {
    if rules != [] { IdsOfLatest(Init(rules)); }
  }

  /** The values of the rule table in insertion order. */
  function MergedRules(rules: seq<Rule>): (r: seq<Rule>)
    ensures |r| == |Ids(rules)|
  {
    IdsOfLatest(rules);
    seq(|Ids(rules)|, i requires 0 <= i < |Ids(rules)| => Rule(Ids(rules)[i], Latest(rules)[Ids(rules)[i]]))
  }

  lemma {:induction false} LatestOfAppend(a: seq<Rule>, b: seq<Rule>)
    ensures Latest(a + b) == Join(Latest(a), Latest(b))
  {
    if b == [] {
      assert a + b == a;
    } else {
      assert Init(a + b) == a + Init(b);
      LatestOfAppend(a, Init(b));
      JoinAssociative(Latest(a), Latest(Init(b)), map[Last(b).id := Last(b).entry]);
    }
  }

  ghost predicate HasId(rules: seq<Rule>, k: string) {
    exists p :: 0 <= p < |rules| && rules[p].id == k
  }

  lemma {:induction false} IdsMember(rules: seq<Rule>, k: string)
    ensures k in Ids(rules) <==> HasId(rules, k)
  {
    if rules != [] {
      var before, n := Init(rules), |rules| - 1;
      IdsMember(before, k);
      if HasId(before, k) {
        var p :| 0 <= p < n && before[p].id == k;
        assert rules[p].id == k;
      }
      if rules[n].id == k { assert HasId(rules, k); }
      if HasId(rules, k) && rules[n].id != k {
        var p :| 0 <= p < |rules| && rules[p].id == k;
        assert before[p].id == k;
      }
    }
  }

  /** Some rule with id k comes before every rule with id j. */
  ghost predicate OccursBefore(rules: seq<Rule>, k: string, j: string) {
    exists p :: 0 <= p < |rules| && rules[p].id == k && forall q :: 0 <= q <= p ==> rules[q].id != j
  }

  lemma {:induction false} IdsInOrder(rules: seq<Rule>, i: nat, j: nat)
    requires i < j < |Ids(rules)|
    ensures OccursBefore(rules, Ids(rules)[i], Ids(rules)[j])
  {
    var before, n := Init(rules), |rules| - 1;
    var ids := Ids(before);
    var a, b := Ids(rules)[i], Ids(rules)[j];
    if j < |ids| {
      IdsInOrder(before, i, j);
      var p :| 0 <= p < n && before[p].id == a && forall q :: 0 <= q <= p ==> before[q].id != b;
      assert rules[p].id == a && forall q :: 0 <= q <= p ==> rules[q] == before[q];
    } else {
      assert a in ids && b == rules[n].id && b !in ids;
      IdsMember(before, a);
      IdsMember(before, b);
      var p :| 0 <= p < n && before[p].id == a;
      assert rules[p].id == a;
      forall q | 0 <= q <= p ensures rules[q].id != b {
        assert rules[q] == before[q];
      }
    }
  }

  /** Rule i is the winner for its id: none with that id is newer, and none of the same age came before. */
  ghost predicate RuleWins(rules: seq<Rule>, k: string, i: nat) {
    i < |rules| && rules[i].id == k &&
    forall j :: 0 <= j < |rules| && rules[j].id == k ==>
      rules[j].entry.ts <= rules[i].entry.ts && (j < i ==> rules[j].entry.ts < rules[i].entry.ts)
  }

  /** The last rule replaces what was there only if it is newer. */
  lemma {:induction false} LatestStep(rules: seq<Rule>, k: string)
    requires k in Latest(rules)
    ensures rules != []
    ensures var before, last := Latest(Init(rules)), Last(rules);
      if k in before && !(last.id == k && last.entry.ts > before[k].ts) then Latest(rules)[k] == before[k]
      else last.id == k && Latest(rules)[k] == last.entry
  {
  }

  lemma WinsWithOneMore(rules: seq<Rule>, k: string, i: nat)
    requires rules != [] && RuleWins(Init(rules), k, i)
    ensures if Last(rules).id == k && Last(rules).entry.ts > rules[i].entry.ts then RuleWins(rules, k, |rules| - 1)
      else RuleWins(rules, k, i)
  {
    assert forall j :: 0 <= j < |rules| - 1 ==> Init(rules)[j] == rules[j];
  }

  lemma {:induction false} LatestIsWinner(rules: seq<Rule>, k: string)
    requires k in Latest(rules)
    ensures exists i: nat :: RuleWins(rules, k, i) && Latest(rules)[k] == rules[i].entry
  {
    var before, n := Init(rules), |rules| - 1;
    LatestStep(rules, k);
    hide Latest, Ids;
    assert forall j :: 0 <= j < n ==> before[j] == rules[j];
    if k in Latest(before) {
      LatestIsWinner(before, k);
      var i: nat :| RuleWins(before, k, i) && Latest(before)[k] == before[i].entry;
      WinsWithOneMore(rules, k, i);
    } else {
      IdsOfLatest(before);
      IdsMember(before, k);
      forall j | 0 <= j < n ensures rules[j].id != k {
        assert before[j].id == rules[j].id;
      }
      assert RuleWins(rules, k, n);
    }
  }

  /** A list with distinct ids is its own table. */
  lemma {:induction false} LatestOfDistinct(rules: seq<Rule>)
    requires forall i, j :: 0 <= i < j < |rules| ==> rules[i].id != rules[j].id
    ensures forall k :: k in Latest(rules) <==> HasId(rules, k)
    ensures forall i :: 0 <= i < |rules| ==> rules[i].id in Latest(rules) && Latest(rules)[rules[i].id] == rules[i].entry
  {
    hide Latest, Ids;
    IdsOfLatest(rules);
    forall k ensures k in Latest(rules) <==> HasId(rules, k) {
      IdsMember(rules, k);
    }
    forall i | 0 <= i < |rules| ensures Latest(rules)[rules[i].id] == rules[i].entry {
      LatestIsWinner(rules, rules[i].id);
      var w: nat :| RuleWins(rules, rules[i].id, w) && Latest(rules)[rules[i].id] == rules[w].entry;
    }
  }

  /** The merged list has one rule per id and the table of its input. */
  lemma {:induction false} MergedRulesTable(rules: seq<Rule>)
    ensures var r := MergedRules(rules);
      (forall i, j :: 0 <= i < j < |r| ==> r[i].id != r[j].id) && Latest(r) == Latest(rules)
  {
    MergedRulesAt(rules);
    hide Latest, Ids, MergedRules;
    var r, t, ids := MergedRules(rules), Latest(rules), Ids(rules);
    LatestOfDistinct(r);
    forall k | k in t ensures k in Latest(r) && Latest(r)[k] == t[k] {
      assert k in ids;
      var i :| 0 <= i < |ids| && ids[i] == k;
      assert r[i].id == k;
    }
    forall k | k in Latest(r) ensures k in t {
      assert HasId(r, k);
      var i :| 0 <= i < |r| && r[i].id == k;
      assert ids[i] in ids;
    }
  }

  lemma {:induction false} MergedRulesAt(rules: seq<Rule>)
    ensures var r, ids, t := MergedRules(rules), Ids(rules), Latest(rules);
      && |r| == |ids| && Distinct(ids) && (forall k :: k in ids <==> k in t)
      && (forall i :: 0 <= i < |r| ==> ids[i] in t && r[i] == Rule(ids[i], t[ids[i]]))
      && (forall i, j :: 0 <= i < j < |r| ==> r[i].id != r[j].id)
  {
    IdsOfLatest(rules);
  }

  /** Merging rules keeps one rule per id and, as a table, is the last-writer-wins join. */
  lemma {:induction false} RulesMergeIsJoin(a: seq<Rule>, b: seq<Rule>)
    ensures var r := MergedRules(a + b);
      (forall i, j :: 0 <= i < j < |r| ==> r[i].id != r[j].id) && Latest(r) == Join(Latest(a), Latest(b))
  {
    MergedRulesTable(a + b);
    LatestOfAppend(a, b);
  }

  // ----- Which rules the merged list holds, and in which order -----

  /**
   The merged list, in terms of the rules alone: one rule for each id that occurs, the newest, of equal ones
   the first; and the ids in order of their first occurrence.
   */
  lemma MergedRulesAre(rules: seq<Rule>)
    ensures var r := MergedRules(rules);
      && (forall k :: HasId(r, k) <==> HasId(rules, k))
      && (forall i :: 0 <= i < |r| ==> exists w: nat :: RuleWins(rules, r[i].id, w) && r[i] == rules[w])
      && (forall i, j :: 0 <= i < j < |r| ==> r[i].id != r[j].id && OccursBefore(rules, r[i].id, r[j].id))
  {
    var r, ids := MergedRules(rules), Ids(rules);
    IdsOfLatest(rules);
    assert forall i :: 0 <= i < |r| ==> r[i].id == ids[i];
    forall k ensures HasId(r, k) <==> HasId(rules, k) {
      IdsMember(rules, k);
      if k in ids {
        var i :| 0 <= i < |ids| && ids[i] == k;
        assert r[i].id == k;
      }
      if HasId(r, k) {
        var i :| 0 <= i < |r| && r[i].id == k;
        assert ids[i] in ids;
      }
    }
    forall i | 0 <= i < |r| ensures exists w: nat :: RuleWins(rules, r[i].id, w) && r[i] == rules[w] {
      assert ids[i] in ids;
      LatestIsWinner(rules, ids[i]);
      var w: nat :| RuleWins(rules, ids[i], w) && Latest(rules)[ids[i]] == rules[w].entry;
      assert r[i] == rules[w];
    }
    forall i, j | 0 <= i < j < |r| ensures r[i].id != r[j].id && OccursBefore(rules, r[i].id, r[j].id) {
      IdsInOrder(rules, i, j);
    }
  }

  lemma {:induction false} IdsGrow(a: seq<Rule>, b: seq<Rule>)
    ensures Ids(a) <= Ids(a + b)
  {
    if b == [] {
      assert a + b == a;
    } else {
      assert Init(a + b) == a + Init(b);
      IdsGrow(a, Init(b));
    }
  }

  lemma {:induction false} IdsOfDistinct(a: seq<Rule>)
    requires forall i, j :: 0 <= i < j < |a| ==> a[i].id != a[j].id
    ensures |Ids(a)| == |a| && forall i :: 0 <= i < |a| ==> Ids(a)[i] == a[i].id
  {
    if a != [] {
      var before, n := Init(a), |a| - 1;
      IdsOfDistinct(before);
      assert forall i :: 0 <= i < n ==> before[i] == a[i];
    }
  }

  // ----- The merge -----

  function Merged(local: Data, incoming: Data): Data {
    Data(Join(local.state, incoming.state),
         LastN(Sort(local.events + incoming.events), MAX_EVENTS),
         MergedRules(local.rules + incoming.rules))
  }

  function MergedAll(local: Data, incoming: seq<Data>): Data {
    if incoming == [] then local else Merged(MergedAll(local, Init(incoming)), Last(incoming))
  }

  function StateOf(d: Data): Table { d.state }
  function RulesOf(d: Data): Table { Latest(d.rules) }
  function EventsOf(d: Data): seq<Stamped> { d.events }

  function Map<T, U>(f: T -> U, s: seq<T>): (r: seq<U>)
    ensures |r| == |s|
  {
    seq(|s|, i requires 0 <= i < |s| => f(s[i]))
  }

  lemma MapInit<T, U>(f: T -> U, s: seq<T>)
    requires s != []
    ensures Init(Map(f, s)) == Map(f, Init(s)) && Last(Map(f, s)) == f(Last(s))
  {
  }

  lemma {:induction false} JoinAllFrom(t: Table, tables: seq<Table>)
    requires tables != []
    ensures Join(JoinAll([t] + Init(tables)), Last(tables)) == JoinAll([t] + tables)
  {
    assert Init([t] + tables) == [t] + Init(tables);
  }

  /** Over any sequence of merges both tables are the join of everything received so far. */
  lemma {:induction false} MergesJoinTables(local: Data, incoming: seq<Data>)
    ensures MergedAll(local, incoming).state == JoinAll([local.state] + Map(StateOf, incoming))
    ensures Latest(MergedAll(local, incoming).rules)
      == JoinAll([Latest(local.rules)] + Map(RulesOf, incoming))
  {
    var states, rules := Map(StateOf, incoming), Map(RulesOf, incoming);
    if incoming == [] {
      assert [local.state] + states == [local.state] && [Latest(local.rules)] + rules == [Latest(local.rules)];
      assert Join(map[], local.state) == local.state && Join(map[], Latest(local.rules)) == Latest(local.rules);
    } else {
      MergesJoinTables(local, Init(incoming));
      MapInit(StateOf, incoming);
      MapInit(RulesOf, incoming);
      RulesMergeIsJoin(MergedAll(local, Init(incoming)).rules, Last(incoming).rules);
      JoinAllFrom(local.state, states);
      JoinAllFrom(Latest(local.rules), rules);
    }
  }

  /** The rules of a merge: a duplicate-free local list keeps its ids in front, in their order. */
  lemma LocalRulesStayInFront(local: Data, incoming: Data)
    requires forall i, j :: 0 <= i < j < |local.rules| ==> local.rules[i].id != local.rules[j].id
    ensures var r := Merged(local, incoming).rules;
      |r| >= |local.rules| && forall i :: 0 <= i < |local.rules| ==> r[i].id == local.rules[i].id
  {
    IdsOfDistinct(local.rules);
    IdsGrow(local.rules, incoming.rules);
    var ids := Ids(local.rules + incoming.rules);
    assert forall i :: 0 <= i < |local.rules| ==> ids[i] == Ids(local.rules)[i];
  }

  /** After one merge or more the log is the newest 200 of all events received, in stable order. */
  lemma {:induction false} MergesKeepNewestEvents(local: Data, incoming: seq<Data>)
    requires incoming != []
    ensures MergedAll(local, incoming).events
      == LastN(Sort(local.events + Flatten(Map(EventsOf, incoming))), 200)
  {
    var logs := Map(EventsOf, incoming);
    MapInit(EventsOf, incoming);
    if |incoming| == 1 {
      assert Init(incoming) == [] && Flatten(logs) == Last(incoming).events;
    } else {
      MergesKeepNewestEvents(local, Init(incoming));
      TruncatedMerge(local.events + Flatten(Init(logs)), Last(incoming).events, MAX_EVENTS);
      assert local.events + Flatten(logs) == local.events + Flatten(Init(logs)) + Last(incoming).events;
    }
  }

  class Store {
    var state: Table
    var events: seq<Stamped>
    var rules: seq<Rule>

    function Contents(): Data
      reads this
    {
      Data(state, events, rules)
    }

    constructor ()
      ensures Contents() == Data(map[], [], [])
    {
      state, events, rules := map[], [], [];
    }

    method MergeData(incoming: Data)
      modifies this
      ensures Contents() == Merged(old(Contents()), incoming)
    {
      MergeState(incoming.state);

      var combinedEvents := events + incoming.events;
      var sorted := Sort(combinedEvents);
      events := LastN(sorted, MAX_EVENTS);

      rules := MergeRules(rules + incoming.rules);
    }

    /** The keys of the incoming object are visited in any order. */
    method MergeState(incoming: Table)
      modifies this
      ensures state == Join(old(state), incoming) && events == old(events) && rules == old(rules)
    {
      var keys := incoming.Keys;
      while keys != {}
        invariant keys <= incoming.Keys
        invariant forall k :: k in state <==> k in old(state) || (k in incoming && k !in keys)
        invariant forall k :: k in state ==>
          state[k] == if k !in keys && RemoteWins(old(state), incoming, k) then incoming[k] else old(state)[k]
        invariant events == old(events) && rules == old(rules)
        decreases keys
      {
        var key :| key in keys;
        var remote := incoming[key];
        if key !in state || remote.ts > state[key].ts {
          state := state[key := remote];
        }
        keys := keys - {key};
      }
    }

    /** ruleMap is an object: a table together with the order in which its keys were first set. */
    static method MergeRules(all: seq<Rule>) returns (r: seq<Rule>)
      ensures r == MergedRules(all)
    {
      var ruleMap: Table := map[];
      var order: seq<string> := [];
      for i := 0 to |all|
        invariant ruleMap == Latest(all[..i]) && order == Ids(all[..i])
      {
        var rule := all[i];
        assert Init(all[..i + 1]) == all[..i];
        IdsOfLatest(all[..i]);
        if rule.id !in ruleMap {
          order := order + [rule.id];
          ruleMap := ruleMap[rule.id := rule.entry];
        } else if rule.entry.ts > ruleMap[rule.id].ts {
          ruleMap := ruleMap[rule.id := rule.entry];
        }
        assert ruleMap == Join(Latest(all[..i]), map[rule.id := rule.entry]);
      }
      assert all[..|all|] == all;
      IdsOfLatest(all);
      r := seq(|order|, i requires 0 <= i < |order| => Rule(order[i], ruleMap[order[i]]));
    }
  }
}
