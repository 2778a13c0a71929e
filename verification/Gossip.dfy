/**
 Runs of nodes that exchange their data (services/replication/index.js, lines 47 to 103).
 Snapshots stay in the network, so they can arrive late, repeatedly, out of order or never.
 */
module Gossip {
  import opened Sequences
  import opened StableSort
  import opened Replication

  /**
   nodes[i] is the data of node i and net the snapshots taken so far; heard and carried
   record whose initial data has reached a node or is part of a snapshot.
   */
  datatype World = World(nodes: seq<Data>, net: seq<Data>, heard: seq<set<nat>>, carried: seq<set<nat>>)

  datatype Step = Snapshot(node: nat) | Deliver(message: nat, node: nat)

  ghost predicate Shape(w: World) {
    |w.heard| == |w.nodes| && |w.carried| == |w.net|
  }

  function Start(nodes: seq<Data>): (w: World)
    ensures Shape(w)
  {
    World(nodes, [], seq(|nodes|, i => {i}), [])
  }

  function Exec(w: World, step: Step): (r: World)
    requires Shape(w)
    ensures Shape(r) && |r.nodes| == |w.nodes|
  {
    match step
    case Snapshot(n) =>
      if n < |w.nodes| then w.(net := w.net + [w.nodes[n]], carried := w.carried + [w.heard[n]]) else w
    case Deliver(m, n) =>
      if m < |w.net| && n < |w.nodes| then
        w.(nodes := w.nodes[n := Merged(w.nodes[n], w.net[m])], heard := w.heard[n := w.heard[n] + w.carried[m]])
      else w
  }

  function Run(w: World, steps: seq<Step>): (r: World)
    requires Shape(w)
    ensures Shape(r) && |r.nodes| == |w.nodes|
  {
    if steps == [] then w else Exec(Run(w, Init(steps)), Last(steps))
  }

  /** The two last-writer-wins tables of a node. */
  datatype Part = State | Rules

  function TableOf(d: Data, part: Part): Table {
    if part.State? then d.state else Latest(d.rules)
  }

  lemma MergedTable(a: Data, b: Data, part: Part)
    ensures TableOf(Merged(a, b), part) == Join(TableOf(a, part), TableOf(b, part))
  {
    RulesMergeIsJoin(a.rules, b.rules);
  }

  // ----- Safety -----

  /** Every key of a is in b with a timestamp at least as great. */
  ghost predicate NotOlder(a: Table, b: Table) {
    forall k :: k in a ==> k in b && a[k].ts <= b[k].ts
  }

  /** Over any run the timestamp of a key at a node never decreases, and keys stay. */
  lemma {:induction false} TimestampsNeverDecrease(w: World, steps: seq<Step>, n: nat, part: Part)
    requires Shape(w) && n < |w.nodes|
    ensures NotOlder(TableOf(w.nodes[n], part), TableOf(Run(w, steps).nodes[n], part))
  {
    if steps != [] {
      var u := Run(w, Init(steps));
      TimestampsNeverDecrease(w, Init(steps), n, part);
      match Last(steps)
      case Snapshot(_) =>
      case Deliver(m, node) =>
        if m < |u.net| && node == n {
          MergedTable(u.nodes[n], u.net[m], part);
        }
    }
  }

  // ----- What a table has heard -----

  /** t holds, for each key, an entry of a source in h, and none of them has a newer one. */
  ghost predicate Summarises(t: Table, nodes: seq<Data>, h: set<nat>, part: Part) {
    && (forall i :: i in h ==> i < |nodes|)
    && (forall i, k :: i in h && k in TableOf(nodes[i], part) ==>
          k in t && TableOf(nodes[i], part)[k].ts <= t[k].ts)
    && (forall k :: k in t ==> HasOrigin(t, nodes, h, part, k))
  }

  ghost predicate HasOrigin(t: Table, nodes: seq<Data>, h: set<nat>, part: Part, k: string)
    requires k in t && forall i :: i in h ==> i < |nodes|
  {
    exists i :: i in h && k in TableOf(nodes[i], part) && TableOf(nodes[i], part)[k] == t[k]
  }

  lemma JoinSummarises(a: Table, b: Table, nodes: seq<Data>, h: set<nat>, g: set<nat>, part: Part)
    requires Summarises(a, nodes, h, part) && Summarises(b, nodes, g, part)
    ensures Summarises(Join(a, b), nodes, h + g, part)
  {
    hide TableOf;
    var t := Join(a, b);
    forall k | k in t ensures HasOrigin(t, nodes, h + g, part, k) {
      if RemoteWins(a, b, k) {
        OriginCarries(b, t, nodes, g, h + g, part, k);
      } else {
        OriginCarries(a, t, nodes, h, h + g, part, k);
      }
    }
  }

  lemma OriginCarries(a: Table, t: Table, nodes: seq<Data>, h: set<nat>, g: set<nat>, part: Part, k: string)
    requires (forall i :: i in g ==> i < |nodes|) && h <= g && k in a && k in t && a[k] == t[k]
    requires HasOrigin(a, nodes, h, part, k)
    ensures HasOrigin(t, nodes, g, part, k)
  {
    var i :| i in h && k in TableOf(nodes[i], part) && TableOf(nodes[i], part)[k] == a[k];
    assert i in g;
  }

  ghost predicate AllSummarise(w: World, nodes: seq<Data>, part: Part)
    requires Shape(w)
  {
    && (forall n :: 0 <= n < |w.nodes| ==> Summarises(TableOf(w.nodes[n], part), nodes, w.heard[n], part))
    && (forall m :: 0 <= m < |w.net| ==> Summarises(TableOf(w.net[m], part), nodes, w.carried[m], part))
  }

  /**
   In every run each table summarises the initial data it has heard of; in particular no entry
   is invented.
   */
  lemma {:induction false} RunSummarises(nodes: seq<Data>, steps: seq<Step>, part: Part)
    ensures AllSummarise(Run(Start(nodes), steps), nodes, part)
  {
    if steps == [] {
      forall n | 0 <= n < |nodes| ensures Summarises(TableOf(nodes[n], part), nodes, {n}, part) {
        var t := TableOf(nodes[n], part);
        forall k | k in t ensures HasOrigin(t, nodes, {n}, part, k) {
          assert n in {n};
        }
      }
    } else {
      var u := Run(Start(nodes), Init(steps));
      RunSummarises(nodes, Init(steps), part);
      match Last(steps)
      case Snapshot(_) =>
      case Deliver(m, n) =>
        if m < |u.net| && n < |u.nodes| {
          MergedTable(u.nodes[n], u.net[m], part);
          JoinSummarises(TableOf(u.nodes[n], part), TableOf(u.net[m], part), nodes, u.heard[n], u.carried[m], part);
        }
    }
  }

  /** Equal key and timestamp mean equal entry, across all initial data. */
  ghost predicate AllConsistent(nodes: seq<Data>, part: Part) {
    forall i, j :: 0 <= i < |nodes| && 0 <= j < |nodes| ==>
      Consistent(TableOf(nodes[i], part), TableOf(nodes[j], part))
  }

  lemma SummaryUnique(a: Table, b: Table, nodes: seq<Data>, h: set<nat>, part: Part)
    requires Summarises(a, nodes, h, part) && Summarises(b, nodes, h, part) && AllConsistent(nodes, part)
    ensures a == b
  {
    SummaryContained(a, b, nodes, h, part);
    SummaryContained(b, a, nodes, h, part);
  }

  lemma SummaryContained(a: Table, b: Table, nodes: seq<Data>, h: set<nat>, part: Part)
    requires Summarises(a, nodes, h, part) && Summarises(b, nodes, h, part) && AllConsistent(nodes, part)
    ensures forall k :: k in a ==> k in b && a[k] == b[k]
  {
    hide TableOf;
    forall k | k in a ensures k in b && a[k] == b[k] {
      assert HasOrigin(a, nodes, h, part, k);
      var i :| i in h && k in TableOf(nodes[i], part) && TableOf(nodes[i], part)[k] == a[k];
      assert a[k].ts <= b[k].ts;
      assert HasOrigin(b, nodes, h, part, k);
      var j :| j in h && k in TableOf(nodes[j], part) && TableOf(nodes[j], part)[k] == b[k];
      assert b[k].ts <= a[k].ts;
      assert Consistent(TableOf(nodes[i], part), TableOf(nodes[j], part));
    }
  }

  /**
   Convergence: two nodes that have heard of the same initial data hold the same state and the
   same rules, whatever the order, delays, losses and repetitions of deliveries were.
   */
  lemma {:induction false} Convergence(nodes: seq<Data>, steps: seq<Step>, m: nat, n: nat, part: Part)
    requires m < |nodes| && n < |nodes| && AllConsistent(nodes, part)
    requires var w := Run(Start(nodes), steps); w.heard[m] == w.heard[n]
    ensures var w := Run(Start(nodes), steps); TableOf(w.nodes[m], part) == TableOf(w.nodes[n], part)
  {
    var w := Run(Start(nodes), steps);
    RunSummarises(nodes, steps, part);
    SummaryUnique(TableOf(w.nodes[m], part), TableOf(w.nodes[n], part), nodes, w.heard[m], part);
  }

  /** Once every node's initial data has reached every other node, all nodes agree. */
  lemma {:induction false} AllReachedAllAgree(nodes: seq<Data>, steps: seq<Step>, part: Part)
    requires AllConsistent(nodes, part)
    requires forall n, i :: 0 <= n < |nodes| && 0 <= i < |nodes| ==> i in Run(Start(nodes), steps).heard[n]
    ensures var w := Run(Start(nodes), steps);
      forall m, n :: 0 <= m < |nodes| && 0 <= n < |nodes| ==> TableOf(w.nodes[m], part) == TableOf(w.nodes[n], part)
  {
    hide TableOf;
    var w := Run(Start(nodes), steps);
    RunSummarises(nodes, steps, part);
    forall m, n | 0 <= m < |nodes| && 0 <= n < |nodes| ensures TableOf(w.nodes[m], part) == TableOf(w.nodes[n], part) {
      assert Summarises(TableOf(w.nodes[m], part), nodes, w.heard[m], part);
      assert Summarises(TableOf(w.nodes[n], part), nodes, w.heard[n], part);
      assert w.heard[m] == w.heard[n];
      Convergence(nodes, steps, m, n, part);
    }
  }

  // ----- A node merges what is delivered to it -----

  /** The snapshots delivered to node n in a run, in order of delivery. */
  function Delivered(w: World, steps: seq<Step>, n: nat): seq<Data>
    requires Shape(w)
  {
    if steps == [] then []
    else
      var u, s := Run(w, Init(steps)), Last(steps);
      Delivered(w, Init(steps), n) + if s.Deliver? && s.node == n && s.message < |u.net| then [u.net[s.message]] else []
  }

  lemma {:induction false} MergedAllAppend(local: Data, ds: seq<Data>, d: Data)
    ensures MergedAll(local, ds + [d]) == Merged(MergedAll(local, ds), d)
  {
    hide Merged;
    assert Init(ds + [d]) == ds && Last(ds + [d]) == d;
  }

  /** In every run a node's data is its initial data merged with the delivered snapshots, in order. */
  lemma {:induction false} NodeMergesDelivered(w: World, steps: seq<Step>, n: nat)
    requires Shape(w) && n < |w.nodes|
    ensures Run(w, steps).nodes[n] == MergedAll(w.nodes[n], Delivered(w, steps, n))
  {
    if steps != [] {
      var before, u, s := Delivered(w, Init(steps), n), Run(w, Init(steps)), Last(steps);
      NodeMergesDelivered(w, Init(steps), n);
      ExecAtNode(u, s, n);
      assert before + [] == before;
      hide Merged, MergedAll, Exec;
      if s.Deliver? && s.node == n && s.message < |u.net| {
        MergedAllAppend(w.nodes[n], before, u.net[s.message]);
      }
    }
  }

  lemma ExecAtNode(u: World, s: Step, n: nat)
    requires Shape(u) && n < |u.nodes|
    ensures Exec(u, s).nodes[n]
      == if s.Deliver? && s.node == n && s.message < |u.net| then Merged(u.nodes[n], u.net[s.message]) else u.nodes[n]
  {
    hide Merged;
  }

  /**
   The log of a node in a run: once something was delivered, the newest 200 of its own and all delivered
   events, in stable order.
   */
  lemma {:induction false} NodeLog(w: World, steps: seq<Step>, n: nat)
    requires Shape(w) && n < |w.nodes| && Delivered(w, steps, n) != []
    ensures Run(w, steps).nodes[n].events
      == LastN(Sort(w.nodes[n].events + Flatten(Map(EventsOf, Delivered(w, steps, n)))), 200)
  {
    NodeMergesDelivered(w, steps, n);
    MergesKeepNewestEvents(w.nodes[n], Delivered(w, steps, n));
  }
}
