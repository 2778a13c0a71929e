/**
 The periodic task scheduler of services/scheduler/index.js. Times are milliseconds.
 */
module Scheduler {
  import opened Sequences

  /** ref tells apart the objects created; two tasks could draw the same random id. */
  datatype Task = Task(ref: nat, id: string, interval: int, url: string, payload: string, lastRun: int)

  /** A callback sent for a task, with the task as it was when found due. */
  datatype Firing = Firing(task: Task, ts: int)

  /** The request of a callback: where it is sent, and its body. */
  datatype Post = Post(url: string, ts: int, taskId: string, payload: string)

  const MAX_TASKS: nat := 200

  predicate Due(t: Task, now: int) {
    now - t.lastRun >= t.interval
  }

  function Added(tasks: seq<Task>, t: Task): seq<Task> {
    if |tasks| + 1 > MAX_TASKS then tasks[1..] + [t] else tasks + [t]
  }

  function Removed(tasks: seq<Task>, id: string): seq<Task> {
    if tasks == [] then []
    else if tasks[0].id == id then tasks[1..]
    else [tasks[0]] + Removed(tasks[1..], id)
  }

  function Ticked(tasks: seq<Task>, now: int): (r: seq<Task>)
    ensures |r| == |tasks|
  {
    seq(|tasks|, i requires 0 <= i < |tasks| =>
      if Due(tasks[i], now) then tasks[i].(lastRun := now) else tasks[i])
  }

  function Fired(tasks: seq<Task>, now: int): seq<Firing> {
    if tasks == [] then []
    else
      var l := |tasks| - 1;
      Fired(tasks[..l], now) + Sent(tasks[l], now)
  }

  /** The requests of a tick: each goes to its task's url with the time, the id and the payload. */
  ghost predicate Carry(posts: seq<Post>, sent: seq<Firing>, now: int) {
    |posts| == |sent| &&
    forall i :: 0 <= i < |sent| ==>
      posts[i] == Post(sent[i].task.url, now, sent[i].task.id, sent[i].task.payload) && sent[i].ts == now
  }

  class Scheduler {
    var tasks: seq<Task>
    var created: nat

    constructor ()
      ensures tasks == [] && created == 0
    {
      tasks, created := [], 0;
    }

    method AddTask(id: string, interval: int, url: string, payload: string) returns (t: Task)
      modifies this
      ensures t == Task(old(created), id, interval, url, payload, 0)
      ensures tasks == Added(old(tasks), t) && created == old(created) + 1
    {
      t := Task(created, id, interval, url, payload, 0);
      created := created + 1;
      tasks := tasks + [t];
      if |tasks| > MAX_TASKS {
        assert tasks[1..] == old(tasks)[1..] + [t];
        tasks := tasks[1..];
      }
    }

    method RemoveTask(id: string)
      modifies this
      ensures tasks == Removed(old(tasks), id) && created == old(created)
    {
      var i := 0;
      while i < |tasks| && tasks[i].id != id
        invariant 0 <= i <= |tasks|
        invariant forall k :: 0 <= k < i ==> tasks[k].id != id
      {
        i := i + 1;
      }
      RemovedAt(tasks, id, i);
      if i < |tasks| {
        tasks := tasks[..i] + tasks[i + 1..];
      }
    }

    method Tick(now: int) returns (posts: seq<Post>, ghost sent: seq<Firing>)
      modifies this
      ensures tasks == Ticked(old(tasks), now) && created == old(created)
      ensures sent == Fired(old(tasks), now) && Carry(posts, sent, now)
    {
      ghost var before := tasks;
      posts, sent := [], [];
      var i := 0;
      while i < |tasks|
        invariant 0 <= i <= |tasks| == |before| && created == old(created)
        invariant forall k :: 0 <= k < i ==> tasks[k] == Ticked(before, now)[k]
        invariant forall k :: i <= k < |tasks| ==> tasks[k] == before[k]
        invariant sent == Fired(before[..i], now) && Carry(posts, sent, now)
      {
        hide Ticked, Carry;
        var task := tasks[i];
        TickedAt(before, now, i);
        FiredStep(before[..i + 1], now);
        assert before[..i + 1][..i] == before[..i];
        CarryMore(posts, sent, now, task);
        if now - task.lastRun >= task.interval {
          tasks := tasks[i := task.(lastRun := now)];
          posts := posts + [Post(task.url, now, task.id, task.payload)];
          sent := sent + [Firing(task, now)];
        }
        i := i + 1;
      }
      assert before[..|before|] == before;
    }
  }

  lemma {:induction false} RemovedAt(s: seq<Task>, id: string, i: nat)
    requires i <= |s| && (forall k :: 0 <= k < i ==> s[k].id != id) && (i < |s| ==> s[i].id == id)
    ensures Removed(s, id) == Without(s, i)
  {
    if i > 0 {
      assert Removed(s, id) == [s[0]] + Removed(s[1..], id);
      hide Removed, Without;
      RemovedAt(s[1..], id, i - 1);
      WithoutLater(s, i);
    }
  }

  lemma TickedAt(tasks: seq<Task>, now: int, i: nat)
    requires i < |tasks|
    ensures Ticked(tasks, now)[i] == if Due(tasks[i], now) then tasks[i].(lastRun := now) else tasks[i]
  {
  }

  lemma {:induction false} FiredStep(tasks: seq<Task>, now: int)
    requires tasks != []
    ensures Fired(tasks, now) == Fired(tasks[..|tasks| - 1], now) + Sent(tasks[|tasks| - 1], now)
  {
  }

  lemma CarryMore(posts: seq<Post>, sent: seq<Firing>, now: int, t: Task)
    requires Carry(posts, sent, now)
    ensures Carry(posts + [Post(t.url, now, t.id, t.payload)], sent + [Firing(t, now)], now)
  {
  }

  // ----- Runs -----

  datatype Call = Add(id: string, interval: int, url: string, payload: string) | Remove(id: string) | Tick(now: int)

  /** The scheduler together with all callbacks sent so far. */
  datatype World = World(tasks: seq<Task>, created: nat, fired: seq<Firing>)

  function Exec(w: World, c: Call): World {
    match c
    case Add(id, interval, url, payload) =>
      World(Added(w.tasks, Task(w.created, id, interval, url, payload, 0)), w.created + 1, w.fired)
    case Remove(id) => w.(tasks := Removed(w.tasks, id))
    case Tick(now) => World(Ticked(w.tasks, now), w.created, w.fired + Fired(w.tasks, now))
  }

  function Run(calls: seq<Call>): World {
    if calls == [] then World([], 0, []) else Exec(Run(calls[..|calls| - 1]), calls[|calls| - 1])
  }

  /** The callbacks of one task. */
  function Of(fired: seq<Firing>, ref: nat): seq<Firing> {
    if fired == [] then []
    else
      var l := |fired| - 1;
      Of(fired[..l], ref) + if fired[l].task.ref == ref then [fired[l]] else []
  }

  lemma {:induction false} OfAppend(a: seq<Firing>, b: seq<Firing>, ref: nat)
    ensures Of(a + b, ref) == Of(a, ref) + Of(b, ref)
  {
    if b == [] {
      assert a + b == a;
    } else {
      assert (a + b)[..|a + b| - 1] == a + b[..|b| - 1];
      OfAppend(a, b[..|b| - 1], ref);
    }
  }

  ghost predicate Ordered(tasks: seq<Task>) {
    forall i, j :: 0 <= i < j < |tasks| ==> tasks[i].ref < tasks[j].ref
  }

  /** A tick sends at most one callback for a task: when it is listed and due. */
  lemma {:induction false} OfTick(tasks: seq<Task>, now: int, ref: nat)
    requires Ordered(tasks)
    ensures Unlisted(tasks, ref) ==> Of(Fired(tasks, now), ref) == []
    ensures forall i :: 0 <= i < |tasks| && tasks[i].ref == ref ==> Of(Fired(tasks, now), ref) == Sent(tasks[i], now)
  {
    hide Of;
    if tasks == [] {
      OfOne([], ref);
    } else {
      var l := |tasks| - 1;
      FiredStep(tasks, now);
      hide Fired, Due;
      OfTick(tasks[..l], now, ref);
      OfAppend(Fired(tasks[..l], now), Sent(tasks[l], now), ref);
      OfOne(Sent(tasks[l], now), ref);
      if tasks[l].ref == ref { assert Unlisted(tasks[..l], ref); }
    }
  }

  ghost predicate Unlisted(tasks: seq<Task>, ref: nat) {
    forall i :: 0 <= i < |tasks| ==> tasks[i].ref != ref
  }

  function Sent(t: Task, now: int): (r: seq<Firing>)
    ensures |r| <= 1
  {
    if Due(t, now) then [Firing(t, now)] else []
  }

  lemma OfOne(f: seq<Firing>, ref: nat)
    requires |f| <= 1
    ensures Of(f, ref) == if f != [] && f[0].task.ref == ref then f else []
  {
    if f != [] { assert f[..0] == [] && f == [f[0]]; }
  }

  lemma {:induction false} RemovedFacts(tasks: seq<Task>, id: string)
    requires Ordered(tasks)
    ensures Ordered(Removed(tasks, id)) && forall t :: t in Removed(tasks, id) ==> t in tasks
  {
    if tasks != [] && tasks[0].id != id {
      var rest := Removed(tasks[1..], id);
      RemovedFacts(tasks[1..], id);
      forall j | 0 <= j < |rest| ensures tasks[0].ref < rest[j].ref {
        assert rest[j] in tasks[1..];
      }
    }
  }

  /** Each callback of a task carries the time of the one before, and they are an interval apart. */
  ghost predicate Linked(l: seq<Firing>) {
    forall i: nat :: i < |l| ==> Link(l, i)
  }

  ghost predicate Link(l: seq<Firing>, i: nat)
    requires i < |l|
  {
    && l[i].task.lastRun == (if i == 0 then 0 else l[i - 1].ts)
    && l[i].task.interval == l[0].task.interval
    && Due(l[i].task, l[i].ts)
  }

  /** A listed task remembers its last callback. */
  ghost predicate Remembers(t: Task, l: seq<Firing>) {
    && t.lastRun == (if l == [] then 0 else l[|l| - 1].ts)
    && (l != [] ==> l[0].task.interval == t.interval)
  }

  ghost predicate Invariant(w: World) {
    && Ordered(w.tasks)
    && (forall t :: t in w.tasks ==> t.ref < w.created && Remembers(t, Of(w.fired, t.ref)))
    && (forall r: nat :: Linked(Of(w.fired, r)))
    && (forall r: nat :: r >= w.created ==> Of(w.fired, r) == [])
  }

  lemma InvariantTick(w: World, now: int)
    requires Invariant(w)
    ensures Invariant(Exec(w, Tick(now)))
  {
    var v := Exec(w, Tick(now));
    forall r: nat ensures Linked(Of(v.fired, r)) && (r >= w.created ==> Of(v.fired, r) == []) {
      TickOne(w, now, r);
    }
    forall t | t in v.tasks ensures t.ref < w.created && Remembers(t, Of(v.fired, t.ref)) {
      var i :| 0 <= i < |v.tasks| && v.tasks[i] == t;
      assert w.tasks[i] in w.tasks;
      TickOne(w, now, t.ref);
    }
  }

  lemma LinkAppend(l: seq<Firing>, f: Firing)
    requires Linked(l) && Remembers(f.task, l) && Due(f.task, f.ts)
    ensures Linked(l + [f])
  {
    var m := l + [f];
    forall i: nat | i < |m| ensures Link(m, i) {
      if i < |l| { assert Link(l, i); } else if i > 0 { assert Link(l, 0); }
    }
  }

  lemma {:induction false} TickOne(w: World, now: int, r: nat)
    requires Invariant(w)
    ensures var l := Of(w.fired + Fired(w.tasks, now), r);
      && Linked(l)
      && (r >= w.created ==> l == [])
      && forall i :: 0 <= i < |w.tasks| && w.tasks[i].ref == r ==> Remembers(Ticked(w.tasks, now)[i], l)
  {
    hide Of, Fired, Linked;
    var l := Of(w.fired, r);
    OfAppend(w.fired, Fired(w.tasks, now), r);
    OfTick(w.tasks, now, r);
    assert Linked(l);
    if i :| 0 <= i < |w.tasks| && w.tasks[i].ref == r {
      assert w.tasks[i] in w.tasks;
      if Due(w.tasks[i], now) {
        LinkAppend(l, Firing(w.tasks[i], now));
      }
    } else {
      assert Unlisted(w.tasks, r);
    }
    assert l + [] == l;
  }

  lemma InvariantAdd(w: World, id: string, interval: int, url: string, payload: string)
    requires Invariant(w)
    ensures Invariant(Exec(w, Add(id, interval, url, payload)))
  {
    var t := Task(w.created, id, interval, url, payload, 0);
    var v := Exec(w, Add(id, interval, url, payload));
    assert Of(w.fired, w.created) == [];
    assert forall i :: 0 <= i < |w.tasks| ==> w.tasks[i] in w.tasks;
    forall u | u in v.tasks ensures u == t || u in w.tasks {
    }
  }

  lemma {:induction false} RunInvariant(calls: seq<Call>)
    ensures Invariant(Run(calls))
  {
    if calls != [] {
      var before := calls[..|calls| - 1];
      RunInvariant(before);
      match calls[|calls| - 1]
      case Add(id, interval, url, payload) => InvariantAdd(Run(before), id, interval, url, payload);
      case Remove(id) => RemovedFacts(Run(before).tasks, id);
      case Tick(now) => InvariantTick(Run(before), now);
    }
  }

  /**
   Over every run, whatever the clock does, consecutive callbacks of a task are at least its
   interval apart.
   */
  lemma {:induction false} CallbacksAreSpaced(calls: seq<Call>, ref: nat, i: nat)
    requires i + 1 < |Of(Run(calls).fired, ref)|
    ensures var l := Of(Run(calls).fired, ref);
      l[i].task.interval == l[i + 1].task.interval && l[i + 1].ts - l[i].ts >= l[i].task.interval
  {
    RunInvariant(calls);
    var l := Of(Run(calls).fired, ref);
    assert Linked(l);
    assert Link(l, i) && Link(l, i + 1);
  }

  // ----- Windows -----

  /** How many callbacks of l fall into the window [from, from + length]. */
  function Within(l: seq<Firing>, from: int, length: nat): nat {
    if l == [] then 0
    else
      var e := |l| - 1;
      Within(l[..e], from, length) + if from <= l[e].ts <= from + length then 1 else 0
  }

  lemma LinkedPrefix(l: seq<Firing>, n: nat)
    requires Linked(l) && n <= |l|
    ensures Linked(l[..n])
  {
    forall i: nat | i < n ensures Link(l[..n], i) {
      assert Link(l, i);
    }
  }

  lemma {:induction false} SpacedWindow(l: seq<Firing>, from: int, length: nat, interval: int)
    requires Linked(l) && interval > 0 && (l != [] ==> l[0].task.interval == interval)
    ensures var n := Within(l, from, length);
      n > 0 ==> (n - 1) * interval <= length && (n - 1) * interval <= l[|l| - 1].ts - from
  {
    if l != [] {
      var e := |l| - 1;
      LinkedPrefix(l, e);
      SpacedWindow(l[..e], from, length, interval);
      var n := Within(l[..e], from, length);
      if n > 0 {
        assert Link(l, e);
        assert n * interval == (n - 1) * interval + interval;
        assert 0 <= (n - 1) * interval;
      }
    }
  }

  lemma MoreIntervals(m: nat, n: nat, interval: nat)
    requires m <= n
    ensures m * interval <= n * interval
  {
  }

  lemma CountFromSpan(n: nat, interval: int, length: nat)
    requires interval > 0 && (n > 0 ==> (n - 1) * interval <= length)
    ensures n <= length / interval + 1
  {
    var q := length / interval;
    assert length < (q + 1) * interval;
    if n > q + 1 { MoreIntervals(q + 1, n - 1, interval); }
  }

  /** A window of the given length holds at most length / interval + 1 callbacks of a task. */
  lemma {:induction false} WindowBound(calls: seq<Call>, ref: nat, from: int, length: nat, interval: int)
    requires interval > 0
    requires var l := Of(Run(calls).fired, ref); l != [] ==> l[0].task.interval == interval
    ensures Within(Of(Run(calls).fired, ref), from, length) <= length / interval + 1
  {
    RunInvariant(calls);
    var l := Of(Run(calls).fired, ref);
    assert Linked(l);
    SpacedWindow(l, from, length, interval);
    CountFromSpan(Within(l, from, length), interval, length);
  }

  // ----- Callbacks are not late -----

  /** The time of the last tick of a run that has one. */
  function LastTick(calls: seq<Call>): int
    requires HasTick(calls)
  {
    if calls[|calls| - 1].Tick? then calls[|calls| - 1].now else LastTick(calls[..|calls| - 1])
  }

  predicate HasTick(calls: seq<Call>) {
    calls != [] && (calls[|calls| - 1].Tick? || HasTick(calls[..|calls| - 1]))
  }

  /** Each tick comes at most delay after the tick before it. */
  ghost predicate TicksWithin(calls: seq<Call>, delay: int) {
    forall k :: 0 <= k < |calls| && calls[k].Tick? && HasTick(calls[..k]) ==>
      calls[k].now - LastTick(calls[..k]) <= delay
  }

  /** A listed task that has been called back was due less than an interval before the last tick. */
  ghost predicate OnTime(w: World, tick: int) {
    forall t :: t in w.tasks && Of(w.fired, t.ref) != [] && t.interval > 0 ==> tick - t.lastRun < t.interval
  }

  lemma {:induction false} NothingBeforeTicks(calls: seq<Call>)
    requires !HasTick(calls)
    ensures Run(calls).fired == []
  {
    if calls != [] { NothingBeforeTicks(calls[..|calls| - 1]); }
  }

  /**
   After every run a listed task that has been called back at all was last called back less than
   its interval before the last tick.
   */
  lemma {:induction false} ListedTasksOnTime(calls: seq<Call>)
    requires HasTick(calls)
    ensures OnTime(Run(calls), LastTick(calls))
  {
    var before, c := calls[..|calls| - 1], calls[|calls| - 1];
    var w, v := Run(before), Run(calls);
    RunInvariant(before);
    match c
    case Add(id, interval, url, payload) =>
      ListedTasksOnTime(before);
      assert Of(w.fired, w.created) == [];
      forall t | t in v.tasks && t.ref != w.created ensures t in w.tasks {
      }
    case Remove(id) =>
      ListedTasksOnTime(before);
      RemovedFacts(w.tasks, id);
    case Tick(now) =>
      forall t | t in v.tasks && t.interval > 0 ensures now - t.lastRun < t.interval {
        var i :| 0 <= i < |v.tasks| && v.tasks[i] == t;
      }
  }

  /** The first callback: after a tick whose time is at least its interval a listed task has been called back. */
  lemma {:induction false} ListedTasksCalledBack(calls: seq<Call>, now: int, t: Task)
    requires t in Run(calls + [Tick(now)]).tasks && now >= t.interval
    ensures Of(Run(calls + [Tick(now)]).fired, t.ref) != []
  {
    var w := Run(calls);
    assert (calls + [Tick(now)])[..|calls|] == calls;
    assert Run(calls + [Tick(now)]) == Exec(w, Tick(now));
    hide Run, Of, Fired;
    RunInvariant(calls);
    var i :| 0 <= i < |w.tasks| && Ticked(w.tasks, now)[i] == t;
    TickOne(w, now, t.ref);
    OfAppend(w.fired, Fired(w.tasks, now), t.ref);
    OfTick(w.tasks, now, t.ref);
  }

  /** Every callback but the first comes less than the interval plus the tick delay after the one before. */
  ghost predicate Prompt(fired: seq<Firing>, delay: int) {
    forall r: nat, i: nat :: i + 1 < |Of(fired, r)| && Of(fired, r)[i].task.interval > 0 ==>
      Of(fired, r)[i + 1].ts - Of(fired, r)[i].ts < Of(fired, r)[i].task.interval + delay
  }

  lemma PromptTick(w: World, now: int, tick: int, delay: int)
    requires Invariant(w) && Prompt(w.fired, delay)
    requires w.fired != [] ==> OnTime(w, tick) && now - tick <= delay
    ensures Prompt(Exec(w, Tick(now)).fired, delay)
  {
    var f := Exec(w, Tick(now)).fired;
    forall r: nat, i: nat | i + 1 < |Of(f, r)| && Of(f, r)[i].task.interval > 0
      ensures Of(f, r)[i + 1].ts - Of(f, r)[i].ts < Of(f, r)[i].task.interval + delay
    {
      PromptOne(w, now, tick, delay, r, i);
    }
  }

  lemma {:induction false} PromptOne(w: World, now: int, tick: int, delay: int, r: nat, i: nat)
    requires Invariant(w) && Prompt(w.fired, delay)
    requires w.fired != [] ==> OnTime(w, tick) && now - tick <= delay
    requires var l := Of(w.fired + Fired(w.tasks, now), r); i + 1 < |l| && l[i].task.interval > 0
    ensures var l := Of(w.fired + Fired(w.tasks, now), r); l[i + 1].ts - l[i].ts < l[i].task.interval + delay
  {
    hide Of, Fired;
    var l := Of(w.fired, r);
    OfAppend(w.fired, Fired(w.tasks, now), r);
    OfTick(w.tasks, now, r);
    assert Linked(l);
    if i + 1 < |l| {
      assert Of(w.fired, r)[i].task.interval > 0;
    } else {
      assert !Unlisted(w.tasks, r) by { assert l + [] == l; }
      var k :| 0 <= k < |w.tasks| && w.tasks[k].ref == r;
      assert w.tasks[k] in w.tasks;
      assert Link(l, i);
      OfOne([], r);
    }
  }

  /**
   If ticks are at most delay apart, consecutive callbacks of a task are less than its interval
   plus delay apart, for as long as it stays listed.
   */
  lemma {:induction false} CallbacksArePrompt(calls: seq<Call>, delay: int)
    requires TicksWithin(calls, delay)
    ensures Prompt(Run(calls).fired, delay)
  {
    if calls != [] {
      var n := |calls| - 1;
      var before := calls[..n];
      forall k | 0 <= k < |before| && before[k].Tick? && HasTick(before[..k])
        ensures before[k].now - LastTick(before[..k]) <= delay
      {
        assert before[..k] == calls[..k] && calls[k] == before[k];
      }
      CallbacksArePrompt(before, delay);
      if calls[n].Tick? {
        RunInvariant(before);
        if HasTick(before) {
          ListedTasksOnTime(before);
          PromptTick(Run(before), calls[n].now, LastTick(before), delay);
        } else {
          NothingBeforeTicks(before);
          PromptTick(Run(before), calls[n].now, 0, delay);
        }
      }
    }
  }

  // ----- Which tasks are listed, and what their callbacks carry -----

  /** The add calls of a run, in order: the one with index r creates the task with reference r. */
  function Adds(calls: seq<Call>): seq<Call> {
    if calls == [] then []
    else
      var c := calls[|calls| - 1];
      Adds(calls[..|calls| - 1]) + if c.Add? then [c] else []
  }

  /** The task is the one that an add call asked for. */
  ghost predicate AsAdded(t: Task, adds: seq<Call>) {
    t.ref < |adds| && adds[t.ref] == Add(t.id, t.interval, t.url, t.payload)
  }

  lemma {:induction false} AddsAreAdds(calls: seq<Call>)
    ensures |Adds(calls)| == Run(calls).created
  {
    if calls != [] { AddsAreAdds(calls[..|calls| - 1]); }
  }

  lemma {:induction false} FiredMembers(tasks: seq<Task>, now: int)
    ensures forall f :: f in Fired(tasks, now) <==> f.ts == now && f.task in tasks && Due(f.task, now)
  {
    if tasks != [] {
      var l := |tasks| - 1;
      FiredMembers(tasks[..l], now);
      assert tasks == tasks[..l] + [tasks[l]];
    }
  }

  ghost predicate AllAsAdded(w: World, adds: seq<Call>) {
    && (forall t :: t in w.tasks ==> AsAdded(t, adds))
    && forall f :: f in w.fired ==> AsAdded(f.task, adds)
  }

  lemma AddAsAdded(w: World, adds: seq<Call>, c: Call)
    requires AllAsAdded(w, adds) && |adds| == w.created && c.Add?
    ensures AllAsAdded(Exec(w, c), adds + [c])
  {
    var t := Task(w.created, c.id, c.interval, c.url, c.payload, 0);
    var v := Exec(w, c);
    forall u | u in v.tasks ensures AsAdded(u, adds + [c]) {
      assert u == t || u in w.tasks;
    }
  }

  lemma TickAsAdded(w: World, adds: seq<Call>, now: int)
    requires AllAsAdded(w, adds)
    ensures AllAsAdded(Exec(w, Tick(now)), adds)
  {
    FiredMembers(w.tasks, now);
    hide Fired;
    var v := Exec(w, Tick(now));
    forall u | u in v.tasks ensures AsAdded(u, adds) {
      var i :| 0 <= i < |v.tasks| && v.tasks[i] == u;
      assert w.tasks[i] in w.tasks;
    }
  }

  lemma StepAsAdded(w: World, adds: seq<Call>, c: Call)
    requires AllAsAdded(w, adds) && |adds| == w.created && Ordered(w.tasks)
    ensures AllAsAdded(Exec(w, c), adds + if c.Add? then [c] else [])
  {
    hide Fired, Removed, AsAdded, Ticked;
    assert adds + [] == adds;
    match c
    case Add(_, _, _, _) => AddAsAdded(w, adds, c);
    case Remove(id) => RemovedFacts(w.tasks, id);
    case Tick(now) => TickAsAdded(w, adds, now);
  }

  /** In every run listed tasks and callbacks have the id, interval, url and payload that were added. */
  lemma {:induction false} TasksAsAdded(calls: seq<Call>)
    ensures AllAsAdded(Run(calls), Adds(calls))
  {
    if calls != [] {
      hide AllAsAdded, Exec;
      var before := calls[..|calls| - 1];
      TasksAsAdded(before);
      AddsAreAdds(before);
      RunInvariant(before);
      StepAsAdded(Run(before), Adds(before), calls[|calls| - 1]);
    }
  }

  /** In every run at most 200 tasks are listed, and without removals these are the ones added last. */
  lemma {:induction false} NewestListed(calls: seq<Call>)
    ensures |Run(calls).tasks| <= 200
    ensures (forall i :: 0 <= i < |calls| ==> !calls[i].Remove?) ==>
      var w := Run(calls);
      && |w.tasks| == (if w.created < 200 then w.created else 200)
      && forall i :: 0 <= i < |w.tasks| ==> w.tasks[i].ref == w.created - |w.tasks| + i
  {
    if calls != [] {
      var before := calls[..|calls| - 1];
      NewestListed(before);
      if calls[|calls| - 1].Remove? { RemovedShorter(Run(before).tasks, calls[|calls| - 1].id); }
    }
  }

  lemma {:induction false} RemovedShorter(tasks: seq<Task>, id: string)
    ensures |Removed(tasks, id)| <= |tasks|
  {
    if tasks != [] { RemovedShorter(tasks[1..], id); }
  }

  /** A tick calls back exactly the due tasks, in the order of the list. */
  lemma {:induction false} FiredInOrder(tasks: seq<Task>, now: int)
    requires Ordered(tasks)
    ensures var f := Fired(tasks, now);
      && (forall i, j :: 0 <= i < j < |f| ==> f[i].task.ref < f[j].task.ref)
      && forall x :: x in f <==> x.ts == now && x.task in tasks && Due(x.task, now)
  {
    FiredMembers(tasks, now);
    if tasks != [] {
      hide Fired, Due;
      var l := |tasks| - 1;
      var before := Fired(tasks[..l], now);
      FiredStep(tasks, now);
      FiredMembers(tasks[..l], now);
      FiredInOrder(tasks[..l], now);
      forall i | 0 <= i < |before| ensures before[i].task.ref < tasks[l].ref {
        assert before[i] in before;
      }
    }
  }
}
