/**
 The event pipeline: publish, content-addressed store, history queue, rules consumer, sinks
 (services/event/server.js, lines 106 to 170; services/rules/server.js, lines 95 to 115 and
 135 to 156; services/rules/index.js, lines 19 to 25 and 92 to 106). Each await is a point at
 which any other step may come between; each request may be lost before it takes effect or
 after it.
 */
module Pipeline {
  import opened Results
  import opened Queue
  import opened Storage
  import opened Rules

  /** The payload of an item of the history queue. */
  datatype Event = Event(hashId: string, payload: Payload)

  /** Where the handler of an accepted publish request stands. */
  datatype Handler =
    | Storing(payload: Payload)
    | Enqueuing(event: Event)
    | Announcing(event: Event)
    | Answered(event: Event)
    | Failed

  /** An event taken off the queue; index is its position among all events ever enqueued. */
  datatype Ticket = Ticket(index: int, event: Event)

  /** While evaluating, the consumer holds a reference to a rule object and awaits one action. */
  datatype Consumer = Idle | Waiting(reply: Option<Ticket>) | Evaluating(ticket: Ticket, rule: nat, action: Action)

  /** One request to a sink; arrived says whether the sink received it. */
  datatype Attempt = Attempt(ticket: Ticket, action: Action, arrived: bool)

  /**
   rules are the rule objects created so far and current refers to the one in force; enqueued and
   attempts record the past.
   */
  datatype Memory = Memory(
    cas: Cas,
    handlers: seq<Handler>,
    queue: seq<Item<Event>>,
    bus: seq<Event>,
    rules: seq<Config>,
    current: nat,
    consumer: Consumer,
    enqueued: seq<Event>,
    attempts: seq<Attempt>)

  /** References are to existing objects. */
  type World = m: Memory | m.current < |m.rules| && (m.consumer.Evaluating? ==> m.consumer.rule < |m.rules|)
    witness START

  function Rule(w: World): Config {
    w.rules[w.current]
  }

  datatype Step =
    /** A publish request with all its fields and a valid signature. */
    | Accept(payload: Payload)
    /** The store request of handler h is carried out or lost; so is its answer. */
    | Store(h: nat, verified: bool, arrives: bool, answered: bool)
    | Enqueue(h: nat, now: int, arrives: bool)
    | Announce(h: nat)
    | Set(value: Update)
    | Poll(arrives: bool)
    | Reply(arrives: bool)
    | Act(arrives: bool)

  const START: Memory := Memory(map[], [], [], [], [Config(false, false, false)], 0, Idle, [], [])

  function StoreStep(hash: string -> string, w: World, h: nat, verified: bool, arrives: bool, answered: bool): World
    requires h < |w.handlers| && w.handlers[h].Storing?
  {
    var p := w.handlers[h].payload;
    if !arrives || !Storable(p, verified) then w.(handlers := w.handlers[h := Failed])
    else
      var id := hash(Kept(p).text);
      w.(cas := w.cas[id := Kept(p)], handlers := w.handlers[h := if answered then Enqueuing(Event(id, p)) else Failed])
  }

  /** The handler goes on whether or not the queue took the event. */
  function EnqueueStep(w: World, h: nat, now: int, arrives: bool): World
    requires h < |w.handlers| && w.handlers[h].Enqueuing?
  {
    var e := w.handlers[h].event;
    var v := w.(handlers := w.handlers[h := Announcing(e)]);
    if arrives then v.(queue := Pushed(w.queue, Item(now, e)), enqueued := w.enqueued + [e]) else v
  }

  function PollStep(w: World, arrives: bool): World {
    if !w.consumer.Idle? || !arrives then w
    else if w.queue == [] then w.(consumer := Waiting(None))
    else
      w.(queue := w.queue[1..], consumer := Waiting(Some(Ticket(|w.enqueued| - |w.queue|, w.queue[0].payload))))
  }

  /** A new object takes the place of the current one; the old one is left as it was. */
  function SetStep(w: World, value: Update): World {
    if value.NotAnObject? then w
    else w.(rules := w.rules + [Updated(Rule(w), value)], current := |w.rules|)
  }

  /** Between two awaits: the switches of the rule object are read up to the next action. */
  function Proceed(w: World, t: Ticket, rule: nat, position: nat): World
    requires rule < |w.rules|
  {
    match NextAction(w.rules[rule], position)
    case None => w.(consumer := Idle)
    case Some(a) => w.(consumer := Evaluating(t, rule, a))
  }

  /** The answer to the dequeue request: the reference to the current rule object is taken. */
  function ReplyStep(w: World, arrives: bool): World {
    if !w.consumer.Waiting? then w
    else if !arrives || w.consumer.reply.None? then w.(consumer := Idle)
    else Proceed(w, w.consumer.reply.value, w.current, 0)
  }

  /** The awaited action is tried; the next switches are read only now. */
  function ActStep(w: World, arrives: bool): World {
    if !w.consumer.Evaluating? then w
    else
      var Evaluating(t, rule, a) := w.consumer;
      Proceed(w.(attempts := w.attempts + [Attempt(t, a, arrives)]), t, rule, Rank(a) + 1)
  }

  function Exec(hash: string -> string, w: World, s: Step): World {
    match s
    case Accept(p) => w.(handlers := w.handlers + [Storing(p)])
    case Store(h, verified, arrives, answered) =>
      if h < |w.handlers| && w.handlers[h].Storing? then StoreStep(hash, w, h, verified, arrives, answered) else w
    case Enqueue(h, now, arrives) =>
      if h < |w.handlers| && w.handlers[h].Enqueuing? then EnqueueStep(w, h, now, arrives) else w
    case Announce(h) =>
      if h < |w.handlers| && w.handlers[h].Announcing? then
        w.(handlers := w.handlers[h := Answered(w.handlers[h].event)], bus := w.bus + [w.handlers[h].event])
      else w
    case Set(value) => SetStep(w, value)
    case Poll(arrives) => PollStep(w, arrives)
    case Reply(arrives) => ReplyStep(w, arrives)
    case Act(arrives) => ActStep(w, arrives)
  }

  function Run(hash: string -> string, steps: seq<Step>): World {
    if steps == [] then START else Exec(hash, Run(hash, steps[..|steps| - 1]), steps[|steps| - 1])
  }

  // ----- The store holds the payloads of the history -----

  /** The payloads that accepted requests can put into the store. */
  ghost function Published(steps: seq<Step>): set<Payload> {
    set i | 0 <= i < |steps| && steps[i].Accept? :: Kept(steps[i].payload)
  }

  ghost predicate Stored(hash: string -> string, cas: Cas, e: Event, ps: set<Payload>) {
    e.hashId == hash(Kept(e.payload).text) && e.hashId in cas && Kept(e.payload) in ps
  }

  ghost predicate HandlerStored(hash: string -> string, cas: Cas, h: Handler, ps: set<Payload>) {
    match h
    case Storing(p) => Kept(p) in ps
    case Failed => true
    case _ => Stored(hash, cas, h.event, ps)
  }

  /** The store is sound and holds only published payloads, and every event under way is in it. */
  ghost predicate StoreInvariant(hash: string -> string, w: World, ps: set<Payload>) {
    && Sound(hash, w.cas)
    && (forall k :: k in w.cas ==> w.cas[k] in ps)
    && (forall i :: 0 <= i < |w.handlers| ==> HandlerStored(hash, w.cas, w.handlers[i], ps))
    && (forall i :: 0 <= i < |w.enqueued| ==> Stored(hash, w.cas, w.enqueued[i], ps))
    && (forall i :: 0 <= i < |w.bus| ==> Stored(hash, w.cas, w.bus[i], ps))
  }

  lemma {:induction false} RunStores(hash: string -> string, steps: seq<Step>)
    ensures StoreInvariant(hash, Run(hash, steps), Published(steps))
  {
    if steps != [] {
      var n := |steps| - 1;
      RunStores(hash, steps[..n]);
      PublishedGrows(steps);
      StoreInvariantGrows(hash, Run(hash, steps[..n]), Published(steps[..n]), Published(steps));
      StepStores(hash, Run(hash, steps[..n]), steps[n], Published(steps));
    }
  }

  lemma PublishedGrows(steps: seq<Step>)
    requires steps != []
    ensures Published(steps[..|steps| - 1]) <= Published(steps)
    ensures var s := steps[|steps| - 1]; s.Accept? ==> Kept(s.payload) in Published(steps)
  {
    var before := steps[..|steps| - 1];
    forall p | p in Published(before) ensures p in Published(steps) {
      var i :| 0 <= i < |before| && before[i].Accept? && Kept(before[i].payload) == p;
      assert steps[i] == before[i];
    }
  }

  lemma StoredGrows(hash: string -> string, cas: Cas, more: Cas, ps: set<Payload>, qs: set<Payload>)
    requires cas.Keys <= more.Keys && ps <= qs
    ensures forall e :: Stored(hash, cas, e, ps) ==> Stored(hash, more, e, qs)
    ensures forall h :: HandlerStored(hash, cas, h, ps) ==> HandlerStored(hash, more, h, qs)
  {
  }

  lemma StoreInvariantGrows(hash: string -> string, w: World, ps: set<Payload>, qs: set<Payload>)
    requires StoreInvariant(hash, w, ps) && ps <= qs
    ensures StoreInvariant(hash, w, qs)
  {
    hide Stored, HandlerStored, Sound;
    StoredGrows(hash, w.cas, w.cas, ps, qs);
  }

  lemma StepStores(hash: string -> string, w: World, s: Step, ps: set<Payload>)
    requires StoreInvariant(hash, w, ps) && (s.Accept? ==> Kept(s.payload) in ps)
    ensures StoreInvariant(hash, Exec(hash, w, s), ps)
  {
    hide Sound, Stored;
    match s
    case Store(h, verified, arrives, answered) =>
      if h < |w.handlers| && w.handlers[h].Storing? { StoreStores(hash, w, h, verified, arrives, answered, ps); }
    case Enqueue(h, _, _) =>
      if h < |w.handlers| { assert HandlerStored(hash, w.cas, w.handlers[h], ps); }
    case Announce(h) =>
      if h < |w.handlers| { assert HandlerStored(hash, w.cas, w.handlers[h], ps); }
    case _ =>
  }

  lemma StoreStores(hash: string -> string, w: World, h: nat, verified: bool, arrives: bool, answered: bool,
                    ps: set<Payload>)
    requires StoreInvariant(hash, w, ps) && h < |w.handlers| && w.handlers[h].Storing?
    ensures StoreInvariant(hash, StoreStep(hash, w, h, verified, arrives, answered), ps)
  {
    var v := StoreStep(hash, w, h, verified, arrives, answered);
    assert HandlerStored(hash, w.cas, w.handlers[h], ps) && HandlerStored(hash, v.cas, v.handlers[h], ps);
    StoredGrows(hash, w.cas, v.cas, ps, ps);
    hide Stored, HandlerStored;
  }

  /**
   In every run the hash of an event of the history queue is that of what the store keeps of its
   payload; if no two published payloads collide, the store gives exactly that back, which is
   the payload itself if and only if it is not a routing packet.
   */
  lemma {:induction false} HistoryIsStored(hash: string -> string, steps: seq<Step>, i: nat)
    requires CollisionFree(hash, Published(steps)) && i < |Run(hash, steps).queue|
    ensures var w := Run(hash, steps); var e := w.queue[i].payload;
      && e.hashId in w.cas
      && w.cas[e.hashId] == Kept(e.payload)
      && (w.cas[e.hashId] == e.payload <==> !e.payload.Packet?)
  {
    RunStores(hash, steps);
    RunOrdered(hash, steps);
    var w := Run(hash, steps);
    assert w.queue[i].payload == w.enqueued[|w.enqueued| - |w.queue| + i];
  }

  // ----- Order and multiplicity -----

  /** Attempts are made in this order. */
  function Key(a: Attempt): int {
    3 * a.ticket.index + Rank(a.action)
  }

  ghost predicate Genuine(w: World, t: Ticket) {
    0 <= t.index < |w.enqueued| - |w.queue| && t.event == w.enqueued[t.index]
  }

  ghost predicate QueueInvariant(w: World) {
    && |w.queue| <= MAX_QUEUE_SIZE && |w.queue| <= |w.enqueued|
    && forall i :: 0 <= i < |w.queue| ==> w.queue[i].payload == w.enqueued[|w.enqueued| - |w.queue| + i]
  }

  ghost predicate AttemptInvariant(w: World) {
    && (forall i :: 0 <= i < |w.attempts| ==> Genuine(w, w.attempts[i].ticket))
    && KeysIncrease(w.attempts)
  }

  ghost predicate ConsumerInvariant(w: World) {
    match w.consumer
    case Idle => true
    case Waiting(reply) => reply.Some? ==>
      Genuine(w, reply.value) && forall i :: 0 <= i < |w.attempts| ==> w.attempts[i].ticket.index < reply.value.index
    case Evaluating(t, _, a) =>
      Genuine(w, t) && forall i :: 0 <= i < |w.attempts| ==> Key(w.attempts[i]) < 3 * t.index + Rank(a)
  }

  ghost predicate Ordered(w: World) {
    QueueInvariant(w) && AttemptInvariant(w) && ConsumerInvariant(w)
  }

  lemma {:induction false} RunOrdered(hash: string -> string, steps: seq<Step>)
    ensures Ordered(Run(hash, steps))
  {
    if steps != [] {
      RunOrdered(hash, steps[..|steps| - 1]);
      StepOrdered(hash, Run(hash, steps[..|steps| - 1]), steps[|steps| - 1]);
    }
  }

  lemma StepOrdered(hash: string -> string, w: World, s: Step)
    requires Ordered(w)
    ensures Ordered(Exec(hash, w, s))
  {
    hide Ordered, EnqueueStep, PollStep, ReplyStep, ActStep, Kept, Storable;
    match s
    case Enqueue(h, now, arrives) =>
      if h < |w.handlers| && w.handlers[h].Enqueuing? { EnqueueOrdered(w, h, now, arrives); }
    case Poll(arrives) => PollOrdered(w, arrives);
    case Reply(arrives) => ReplyOrdered(w, arrives);
    case Act(arrives) => ActOrdered(w, arrives);
    case _ => SameOrdered(w, Exec(hash, w, s));
  }

  lemma SameOrdered(w: World, v: World)
    requires Ordered(w) && v.queue == w.queue && v.enqueued == w.enqueued
    requires v.attempts == w.attempts && v.consumer == w.consumer
    ensures Ordered(v)
  {
  }

  lemma EnqueueOrdered(w: World, h: nat, now: int, arrives: bool)
    requires h < |w.handlers| && w.handlers[h].Enqueuing? && Ordered(w)
    ensures Ordered(EnqueueStep(w, h, now, arrives))
  {
  }

  lemma PollOrdered(w: World, arrives: bool)
    requires Ordered(w)
    ensures Ordered(PollStep(w, arrives))
  {
  }

  lemma ReplyOrdered(w: World, arrives: bool)
    requires Ordered(w)
    ensures Ordered(ReplyStep(w, arrives))
  {
  }

  lemma ActOrdered(w: World, arrives: bool)
    requires Ordered(w)
    ensures Ordered(ActStep(w, arrives))
  {
  }

  /** What a sink received, in order. */
  function Arrived(attempts: seq<Attempt>, action: Action): seq<Ticket> {
    if attempts == [] then []
    else
      var a := attempts[|attempts| - 1];
      Arrived(attempts[..|attempts| - 1], action) + if a.action == action && a.arrived then [a.ticket] else []
  }

  ghost predicate Tried(attempts: seq<Attempt>, t: Ticket) {
    exists k :: 0 <= k < |attempts| && attempts[k].ticket == t
  }

  lemma {:induction false} ArrivedTried(attempts: seq<Attempt>, action: Action, i: nat)
    requires i < |Arrived(attempts, action)|
    ensures Tried(attempts, Arrived(attempts, action)[i])
  {
    var n, t := |attempts| - 1, Arrived(attempts, action)[i];
    if i < |Arrived(attempts[..n], action)| {
      ArrivedTried(attempts[..n], action, i);
      var k :| 0 <= k < n && attempts[..n][k].ticket == t;
      assert attempts[k].ticket == t;
    } else {
      assert attempts[n].ticket == t;
    }
  }

  ghost predicate KeysIncrease(attempts: seq<Attempt>) {
    forall i, j :: 0 <= i < j < |attempts| ==> Key(attempts[i]) < Key(attempts[j])
  }

  ghost predicate IndexesIncrease(got: seq<Ticket>) {
    forall i, j :: 0 <= i < j < |got| ==> got[i].index < got[j].index
  }

  lemma {:induction false} ArrivedIncrease(attempts: seq<Attempt>, action: Action)
    requires KeysIncrease(attempts)
    ensures var got := Arrived(attempts, action);
      && IndexesIncrease(got)
      && (got != [] ==> 3 * got[|got| - 1].index + Rank(action) <= Key(attempts[|attempts| - 1]))
  {
    if attempts != [] {
      hide IndexesIncrease, KeysIncrease, Arrived;
      var n := |attempts| - 1;
      var before := Arrived(attempts[..n], action);
      LastArrival(attempts, action);
      KeysOfPrefix(attempts);
      ArrivedIncrease(attempts[..n], action);
      AppendIncreases(before, attempts[n].ticket);
    }
  }

  lemma {:induction false} LastArrival(attempts: seq<Attempt>, action: Action)
    requires attempts != []
    ensures var n := |attempts| - 1;
      Arrived(attempts, action) == Arrived(attempts[..n], action)
        + if attempts[n].action == action && attempts[n].arrived then [attempts[n].ticket] else []
    ensures |attempts| == 1 ==> Arrived(attempts[..0], action) == []
  {
  }

  lemma KeysOfPrefix(attempts: seq<Attempt>)
    requires KeysIncrease(attempts) && attempts != []
    ensures KeysIncrease(attempts[..|attempts| - 1])
    ensures |attempts| > 1 ==> Key(attempts[|attempts| - 2]) < Key(attempts[|attempts| - 1])
  {
  }

  lemma AppendIncreases(got: seq<Ticket>, t: Ticket)
    requires IndexesIncrease(got)
    ensures (got != [] ==> got[|got| - 1].index < t.index) ==> IndexesIncrease(got + [t])
    ensures got + [] == got
  {
  }

  /**
   In every run each sink receives genuine events in the order of their enqueuing, each enqueued
   event at most once: what it received is a subsequence of what was enqueued.
   */
  lemma {:induction false} SinksReceiveInOrder(hash: string -> string, steps: seq<Step>, action: Action)
    ensures var w := Run(hash, steps); var got := Arrived(w.attempts, action);
      && (forall i :: 0 <= i < |got| ==> 0 <= got[i].index < |w.enqueued| && got[i].event == w.enqueued[got[i].index])
      && (forall i, j :: 0 <= i < j < |got| ==> got[i].index < got[j].index)
  {
    RunOrdered(hash, steps);
    var w := Run(hash, steps);
    ArrivedIncrease(w.attempts, action);
    var got := Arrived(w.attempts, action);
    forall i | 0 <= i < |got| ensures Genuine(w, got[i]) {
      ArrivedTried(w.attempts, action, i);
      var k :| 0 <= k < |w.attempts| && w.attempts[k].ticket == got[i];
    }
  }

  // ----- One rule for one event -----

  /** The actions tried for the event with a given index. */
  function TriedFor(attempts: seq<Attempt>, n: nat): seq<Action> {
    if attempts == [] then []
    else
      var a := attempts[|attempts| - 1];
      TriedFor(attempts[..|attempts| - 1], n) + if a.ticket.index == n then [a.action] else []
  }

  predicate Working(w: World, n: nat) {
    w.consumer.Evaluating? && w.consumer.ticket.index == n
  }

  /** What was tried for an event and what is left to do are the actions of one rule object. */
  predicate Follows(w: World, n: nat, rule: nat) {
    && rule < |w.rules|
    && (Working(w, n) ==> w.consumer.rule == rule && Enabled(w.rules[rule], w.consumer.action))
    && ActionsOf(w.rules[rule]) == TriedFor(w.attempts, n) + Ahead(w, n)
  }

  /** The actions still to come for an event, as far as the rule object stays as it is. */
  function Ahead(w: World, n: nat): seq<Action> {
    if Working(w, n) then [w.consumer.action] + ActionsFrom(w.rules[w.consumer.rule], Rank(w.consumer.action) + 1) else []
  }

  predicate Started(w: World, n: nat) {
    TriedFor(w.attempts, n) != [] || Working(w, n)
  }

  lemma {:induction false} NothingTried(attempts: seq<Attempt>, n: nat)
    requires forall i :: 0 <= i < |attempts| ==> attempts[i].ticket.index < n
    ensures TriedFor(attempts, n) == []
  {
    if attempts != [] { NothingTried(attempts[..|attempts| - 1], n); }
  }

  lemma StepKeepsRules(hash: string -> string, w: World, s: Step)
    ensures w.rules <= Exec(hash, w, s).rules
  {
  }

  /** Rule objects never change: whatever reference was taken at moment k, its object is still the same. */
  lemma {:induction false} RuleObjectsNeverChange(hash: string -> string, steps: seq<Step>, k: nat)
    requires k <= |steps|
    ensures Run(hash, steps[..k]).rules <= Run(hash, steps).rules
  {
    if k == |steps| {
      assert steps[..k] == steps;
    } else {
      var before := steps[..|steps| - 1];
      assert before[..k] == steps[..k];
      RuleObjectsNeverChange(hash, before, k);
      StepKeepsRules(hash, Run(hash, before), steps[|steps| - 1]);
    }
  }

  lemma StepFollows(hash: string -> string, w: World, s: Step, n: nat, rule: nat)
    requires Ordered(w) && Started(w, n) && Follows(w, n, rule)
    ensures Follows(Exec(hash, w, s), n, rule)
  {
    hide TriedFor, QueueInvariant, Genuine, ActionsOf, ActionsFrom, KeysIncrease;
    StepKeepsRules(hash, w, s);
    match s
    case Act(arrives) => if w.consumer.Evaluating? { ActFollows(w, arrives, n, rule); }
    case Reply(arrives) => ReplyFollows(w, arrives, n, rule);
    case _ =>
  }

  lemma ReplyFollows(w: World, arrives: bool, n: nat, rule: nat)
    requires Ordered(w) && Started(w, n) && Follows(w, n, rule)
    ensures Follows(ReplyStep(w, arrives), n, rule)
  {
    hide TriedFor, ActionsOf, ActionsFrom;
    if w.consumer.Waiting? && w.consumer.reply.Some? && w.consumer.reply.value.index == n {
      NothingTried(w.attempts, n);
    }
  }

  lemma {:induction false} TriedNext(attempts: seq<Attempt>, a: Attempt, n: nat)
    ensures TriedFor(attempts + [a], n) == TriedFor(attempts, n) + if a.ticket.index == n then [a.action] else []
  {
    assert (attempts + [a])[..|attempts|] == attempts;
  }

  lemma ActFollows(w: World, arrives: bool, n: nat, rule: nat)
    requires Ordered(w) && Follows(w, n, rule) && w.consumer.Evaluating?
    ensures Follows(ActStep(w, arrives), n, rule)
  {
    hide Ordered, ActionsOf, ActionsFrom, TriedFor, Proceed, Rank, NextAction, Ahead;
    var Evaluating(t, held, a) := w.consumer;
    var tried := TriedFor(w.attempts, n);
    var v: World := w.(attempts := w.attempts + [Attempt(t, a, arrives)]);
    TriedNext(w.attempts, Attempt(t, a, arrives), n);
    ProceedAhead(v, t, held, Rank(a) + 1, n);
    AheadNow(w, n);
    MoveOver(tried, a, ActionsFrom(w.rules[rule], Rank(a) + 1));
  }

  lemma MoveOver(tried: seq<Action>, a: Action, rest: seq<Action>)
    ensures tried + ([a] + rest) == (tried + [a]) + rest && tried + [] == tried
  {
  }

  lemma AheadNow(w: World, n: nat)
    ensures Ahead(w, n) == if Working(w, n)
      then [w.consumer.action] + ActionsFrom(w.rules[w.consumer.rule], Rank(w.consumer.action) + 1) else []
  {
  }

  /** Between two awaits the consumer keeps its rule object and goes on to what is ahead in it. */
  lemma ProceedAhead(w: World, t: Ticket, rule: nat, position: nat, n: nat)
    requires rule < |w.rules|
    ensures var v := Proceed(w, t, rule, position);
      && v.rules == w.rules && v.attempts == w.attempts
      && (Working(v, n) ==> t.index == n && v.consumer.rule == rule && Enabled(w.rules[rule], v.consumer.action))
      && Ahead(v, n) == if t.index == n then ActionsFrom(w.rules[rule], position) else []
  {
    NextIsFirst(w.rules[rule], position);
    hide ActionsFrom, Rank, NextAction;
  }

  lemma StepStarts(hash: string -> string, w: World, s: Step, n: nat)
    requires Ordered(w) && !Started(w, n) && Started(Exec(hash, w, s), n)
    ensures Follows(Exec(hash, w, s), n, w.current)
  {
    hide ActionsFrom, QueueInvariant, Genuine, KeysIncrease, Proceed, Ahead, TriedFor;
    match s
    case Act(arrives) => ActStartsNothing(w, arrives, n);
    case Reply(_) =>
      var t := w.consumer.reply.value;
      ProceedAhead(w, t, w.current, 0, n);
      assert [] + ActionsFrom(Rule(w), 0) == ActionsFrom(Rule(w), 0);
    case Enqueue(_, _, _) =>
    case _ =>
  }

  lemma ActStartsNothing(w: World, arrives: bool, n: nat)
    requires !Started(w, n)
    ensures !Started(ActStep(w, arrives), n)
  {
    if w.consumer.Evaluating? {
      TriedNext(w.attempts, Attempt(w.consumer.ticket, w.consumer.action, arrives), n);
    }
  }

  /** The actions tried and to come are those of the object that was current at moment k. */
  ghost predicate HoldsObjectOf(hash: string -> string, steps: seq<Step>, n: nat, k: nat) {
    k <= |steps| && Follows(Run(hash, steps), n, Run(hash, steps[..k]).current)
  }

  /** The consumer stays with the rule object that was current when it began with an event. */
  lemma {:induction false} OneObjectPerEvent(hash: string -> string, steps: seq<Step>, n: nat)
    requires Started(Run(hash, steps), n)
    ensures exists k: nat :: HoldsObjectOf(hash, steps, n, k)
  {
    var before, s := steps[..|steps| - 1], steps[|steps| - 1];
    var w := Run(hash, before);
    RunOrdered(hash, before);
    if Started(w, n) {
      OneObjectPerEvent(hash, before, n);
      var k: nat :| HoldsObjectOf(hash, before, n, k);
      assert before[..k] == steps[..k];
      StepFollows(hash, w, s, n, Run(hash, steps[..k]).current);
      assert HoldsObjectOf(hash, steps, n, k);
    } else {
      StepStarts(hash, w, s, n);
      assert HoldsObjectOf(hash, steps, n, |steps| - 1);
    }
  }

  /** The actions tried for an event and still to come are those of the rule as it stood at moment k. */
  ghost predicate FollowsRuleOf(hash: string -> string, steps: seq<Step>, n: nat, k: nat) {
    var w := Run(hash, steps);
    k <= |steps| && TriedFor(w.attempts, n) + Ahead(w, n) == ActionsOf(Rule(Run(hash, steps[..k])))
  }

  /**
   In every run, for every event the consumer has begun with, the actions tried so far and the
   ones to come are those of the rule as it stood at one single moment, even when the rule is
   set while they are awaited: each switch is read late, but from an object that never changes.
   */
  lemma {:induction false} OneRulePerEvent(hash: string -> string, steps: seq<Step>, n: nat)
    requires Started(Run(hash, steps), n)
    ensures exists k: nat :: FollowsRuleOf(hash, steps, n, k)
  {
    hide Run, Follows, Started, HoldsObjectOf, FollowsRuleOf;
    OneObjectPerEvent(hash, steps, n);
    var k: nat :| HoldsObjectOf(hash, steps, n, k);
    ObjectThenRule(hash, steps, n, k);
  }

  lemma ObjectThenRule(hash: string -> string, steps: seq<Step>, n: nat, k: nat)
    requires HoldsObjectOf(hash, steps, n, k)
    ensures FollowsRuleOf(hash, steps, n, k)
  {
    hide Run, Rule, ActionsOf, TriedFor, Ahead, Working;
    RuleObjectsNeverChange(hash, steps, k);
    FollowsWhatStood(Run(hash, steps), Run(hash, steps[..k]), n);
  }

  lemma {:induction false} FollowsWhatStood(w: World, past: World, n: nat)
    requires Follows(w, n, past.current) && past.rules <= w.rules
    ensures TriedFor(w.attempts, n) + Ahead(w, n) == ActionsOf(Rule(past))
  {
    hide TriedFor, ActionsOf, Ahead;
  }

  // ----- Without losses -----

  /** No queue or sink request is lost, the queue never overflows, and the rule has the action on. */
  predicate Calm(hash: string -> string, steps: seq<Step>, action: Action) {
    steps != [] ==>
      var before := steps[..|steps| - 1];
      Calm(hash, before, action) && CalmStep(Run(hash, before), steps[|steps| - 1], action)
  }

  /** Whether an event off the queue is still to be sent to the sink. */
  function Pending(w: World, action: Action): nat {
    match w.consumer
    case Idle => 0
    case Waiting(reply) => if reply.Some? then 1 else 0
    case Evaluating(_, rule, a) => if Enabled(w.rules[rule], action) && Rank(action) >= Rank(a) then 1 else 0
  }

  ghost predicate Exact(w: World, action: Action) {
    var got := Arrived(w.attempts, action);
    && (forall i :: 0 <= i < |got| ==> got[i].index == i)
    && |got| + Pending(w, action) + |w.queue| == |w.enqueued|
    && (w.consumer.Waiting? && w.consumer.reply.Some? ==> w.consumer.reply.value.index == |got|)
    && (w.consumer.Evaluating? ==> Enabled(w.rules[w.consumer.rule], w.consumer.action))
    && (w.consumer.Evaluating? && Pending(w, action) == 1 ==> w.consumer.ticket.index == |got|)
  }

  lemma RankDecides(a: Action, b: Action)
    ensures Rank(a) == Rank(b) <==> a == b
  {
  }

  lemma ActExact(w: World, action: Action)
    requires Ordered(w) && Exact(w, action)
    ensures Exact(ActStep(w, true), action)
  {
    hide Ordered, Enabled, ActionsFrom;
    if w.consumer.Evaluating? {
      var Evaluating(t, rule, taken) := w.consumer;
      var a := Attempt(t, taken, true);
      LastArrival(w.attempts + [a], action);
      assert (w.attempts + [a])[..|w.attempts|] == w.attempts;
      hide Arrived;
      RankDecides(taken, action);
    }
  }

  lemma ReplyExact(w: World, action: Action)
    requires Ordered(w) && Exact(w, action) && Enabled(Rule(w), action)
    ensures Exact(ReplyStep(w, true), action)
  {
    hide Arrived, QueueInvariant, AttemptInvariant;
    assert action in ActionsOf(Rule(w));
  }

  lemma PollExact(w: World, action: Action)
    requires Ordered(w) && Exact(w, action)
    ensures Exact(PollStep(w, true), action)
  {
    hide Arrived, AttemptInvariant, ConsumerInvariant;
  }

  lemma EnqueueExact(w: World, h: nat, now: int, action: Action)
    requires h < |w.handlers| && w.handlers[h].Enqueuing? && Exact(w, action) && |w.queue| < MAX_QUEUE_SIZE
    ensures Exact(EnqueueStep(w, h, now, true), action)
  {
    hide Arrived;
  }

  lemma {:induction false} CalmExact(hash: string -> string, steps: seq<Step>, action: Action)
    requires Calm(hash, steps, action)
    ensures Exact(Run(hash, steps), action)
  {
    if steps != [] {
      var before, s := steps[..|steps| - 1], steps[|steps| - 1];
      var w := Run(hash, before);
      CalmExact(hash, before, action);
      RunOrdered(hash, before);
      StepExact(hash, w, s, action);
    }
  }

  /** A step without loss, taken while the rule has the action on. */
  predicate CalmStep(w: World, s: Step, action: Action) {
    match s
    case Enqueue(_, _, arrives) => arrives && |w.queue| < MAX_QUEUE_SIZE
    case Poll(arrives) => arrives
    case Reply(arrives) => arrives && Enabled(Rule(w), action)
    case Act(arrives) => arrives
    case _ => true
  }

  lemma StepExact(hash: string -> string, w: World, s: Step, action: Action)
    requires Ordered(w) && Exact(w, action) && CalmStep(w, s, action)
    ensures Exact(Exec(hash, w, s), action)
  {
    hide Arrived, Ordered, Enabled, Pushed, ActStep, ReplyStep, PollStep, EnqueueStep, Kept, Storable;
    match s
    case Act(_) => ActExact(w, action);
    case Reply(_) => ReplyExact(w, action);
    case Poll(_) => PollExact(w, action);
    case Enqueue(h, now, _) =>
      if h < |w.handlers| && w.handlers[h].Enqueuing? { EnqueueExact(w, h, now, action); }
    case Set(value) => assert Exec(hash, w, s).consumer == w.consumer && w.rules <= Exec(hash, w, s).rules;
    case _ =>
  }

  /**
   Without losses a sink whose action is on receives exactly the enqueued events, in order: those
   not received are the ones still queued and at most one in the hands of the consumer.
   */
  lemma {:induction false} CalmSinkReceivesAll(hash: string -> string, steps: seq<Step>, action: Action)
    requires Calm(hash, steps, action)
    ensures var w := Run(hash, steps); var got := Arrived(w.attempts, action);
      && |got| + Pending(w, action) + |w.queue| == |w.enqueued|
      && forall i :: 0 <= i < |got| ==> got[i].event == w.enqueued[i]
  {
    CalmExact(hash, steps, action);
    SinksReceiveInOrder(hash, steps, action);
  }

  // ----- One publish, one event -----

  /** How many handlers with event e are past the queue. */
  function Past(hs: seq<Handler>, e: Event): nat {
    if hs == [] then 0 else Past(hs[..|hs| - 1], e) + PastOne(hs[|hs| - 1], e)
  }

  function PastOne(h: Handler, e: Event): nat {
    if (h.Announcing? || h.Answered?) && h.event == e then 1 else 0
  }

  /** How many requests with event e have been answered. */
  function Done(hs: seq<Handler>, e: Event): nat {
    if hs == [] then 0 else Done(hs[..|hs| - 1], e) + DoneOne(hs[|hs| - 1], e)
  }

  function DoneOne(h: Handler, e: Event): nat {
    if h == Answered(e) then 1 else 0
  }

  lemma {:induction false} HandlerReplaced(hs: seq<Handler>, i: nat, h: Handler, e: Event)
    requires i < |hs|
    ensures Past(hs[i := h], e) + PastOne(hs[i], e) == Past(hs, e) + PastOne(h, e)
    ensures Done(hs[i := h], e) + DoneOne(hs[i], e) == Done(hs, e) + DoneOne(h, e)
  {
    hide PastOne, DoneOne;
    var n := |hs| - 1;
    if i < n {
      assert hs[i := h][..n] == hs[..n][i := h];
      HandlerReplaced(hs[..n], i, h, e);
    } else {
      assert hs[i := h][..n] == hs[..n];
    }
  }

  /** How many enqueue requests for event e were lost before they reached the queue. */
  function Lost(hash: string -> string, steps: seq<Step>, e: Event): nat {
    if steps == [] then 0
    else
      var before := steps[..|steps| - 1];
      Lost(hash, before, e) + LostOne(Run(hash, before), steps[|steps| - 1], e)
  }

  function LostOne(w: World, s: Step, e: Event): nat {
    if s.Enqueue? && !s.arrives && s.h < |w.handlers| && w.handlers[s.h] == Enqueuing(e) then 1 else 0
  }

  /** The books balance when lost requests for e did not reach the queue. */
  ghost predicate Accounted(w: World, e: Event, lost: nat) {
    multiset(w.bus)[e] == Done(w.handlers, e) && multiset(w.enqueued)[e] + lost == Past(w.handlers, e)
  }

  lemma StepAccounted(hash: string -> string, w: World, s: Step, e: Event, lost: nat)
    requires Accounted(w, e, lost)
    ensures Accounted(Exec(hash, w, s), e, lost + LostOne(w, s, e))
  {
    hide Past, Done, Storable, Kept, StoreStep, EnqueueStep;
    match s
    case Accept(p) => AcceptAccounted(w, p, e, lost);
    case Store(h, verified, arrives, answered) =>
      if h < |w.handlers| && w.handlers[h].Storing? {
        StoreAccounted(hash, w, h, verified, arrives, answered, e, lost);
      }
    case Enqueue(h, now, arrives) =>
      if h < |w.handlers| && w.handlers[h].Enqueuing? { EnqueueAccounted(w, h, now, arrives, e, lost); }
    case Announce(h) =>
      if h < |w.handlers| && w.handlers[h].Announcing? { AnnounceAccounted(hash, w, h, e, lost); }
    case _ =>
  }

  lemma AnnounceAccounted(hash: string -> string, w: World, h: nat, e: Event, lost: nat)
    requires Accounted(w, e, lost) && h < |w.handlers| && w.handlers[h].Announcing?
    ensures Accounted(Exec(hash, w, Announce(h)), e, lost)
  {
    hide Past, Done;
    HandlerReplaced(w.handlers, h, Answered(w.handlers[h].event), e);
  }

  lemma AcceptAccounted(w: World, p: Payload, e: Event, lost: nat)
    requires Accounted(w, e, lost)
    ensures Accounted(w.(handlers := w.handlers + [Storing(p)]), e, lost)
  {
    var hs := w.handlers + [Storing(p)];
    assert hs[..|hs| - 1] == w.handlers;
  }

  lemma StoreAccounted(hash: string -> string, w: World, h: nat, verified: bool, arrives: bool, answered: bool,
                       e: Event, lost: nat)
    requires Accounted(w, e, lost) && h < |w.handlers| && w.handlers[h].Storing?
    ensures Accounted(StoreStep(hash, w, h, verified, arrives, answered), e, lost)
  {
    hide Past, Done, Storable, Kept;
    HandlerReplaced(w.handlers, h, StoreStep(hash, w, h, verified, arrives, answered).handlers[h], e);
  }

  lemma EnqueueAccounted(w: World, h: nat, now: int, arrives: bool, e: Event, lost: nat)
    requires Accounted(w, e, lost) && h < |w.handlers| && w.handlers[h].Enqueuing?
    ensures Accounted(EnqueueStep(w, h, now, arrives), e, lost + LostOne(w, Step.Enqueue(h, now, arrives), e))
  {
    hide Past, Done, Pushed;
    HandlerReplaced(w.handlers, h, Announcing(w.handlers[h].event), e);
  }

  /**
   In every run the bus carries exactly the events of the answered requests, and the queue was sent
   exactly the events of the requests past it, less those whose enqueue request was lost.
   */
  lemma {:induction false} OnePublishOneEvent(hash: string -> string, steps: seq<Step>, e: Event)
    ensures var w := Run(hash, steps);
      multiset(w.bus)[e] == Done(w.handlers, e) && multiset(w.enqueued)[e] + Lost(hash, steps, e) == Past(w.handlers, e)
  {
    if steps != [] {
      var before := steps[..|steps| - 1];
      OnePublishOneEvent(hash, before, e);
      StepAccounted(hash, Run(hash, before), steps[|steps| - 1], e, Lost(hash, before, e));
    }
  }

  ghost predicate NoneLost(hash: string -> string, steps: seq<Step>) {
    forall e :: Lost(hash, steps, e) == 0
  }

  /**
   When no request is between queue and bus, every answered event has reached the queue, as often as
   it was answered, if and only if no enqueue request was lost.
   */
  lemma {:induction false} AllAnsweredEnqueuedIffNoneLost(hash: string -> string, steps: seq<Step>)
    requires forall i :: 0 <= i < |Run(hash, steps).handlers| ==> !Run(hash, steps).handlers[i].Announcing?
    ensures multiset(Run(hash, steps).enqueued) == multiset(Run(hash, steps).bus) <==> NoneLost(hash, steps)
  {
    var w := Run(hash, steps);
    forall e ensures multiset(w.enqueued)[e] + Lost(hash, steps, e) == multiset(w.bus)[e] {
      OnePublishOneEvent(hash, steps, e);
      PastIsDone(w.handlers, e);
    }
    if NoneLost(hash, steps) {
      SameCounts(multiset(w.enqueued), multiset(w.bus));
    } else {
      var e :| Lost(hash, steps, e) != 0;
      assert multiset(w.enqueued)[e] != multiset(w.bus)[e];
    }
  }

  lemma SameCounts(a: multiset<Event>, b: multiset<Event>)
    requires forall e :: a[e] == b[e]
    ensures a == b
  {
  }

  lemma {:induction false} PastIsDone(hs: seq<Handler>, e: Event)
    requires forall i :: 0 <= i < |hs| ==> !hs[i].Announcing?
    ensures Past(hs, e) == Done(hs, e)
  {
    if hs != [] { PastIsDone(hs[..|hs| - 1], e); }
  }

  lemma {:induction false} RunAppend(hash: string -> string, steps: seq<Step>, s: Step)
    ensures Run(hash, steps + [s]) == Exec(hash, Run(hash, steps), s)
  {
    assert (steps + [s])[..|steps|] == steps;
  }

  /** An answered request whose event never reaches the queue. */
  lemma AnsweredWithoutEnqueuing(hash: string -> string, p: Payload)
    requires Storable(p, true)
    ensures var w := Run(hash, [Accept(p), Store(0, true, true, true), Step.Enqueue(0, 0, false), Announce(0)]);
      var e := Event(hash(Kept(p).text), p);
      w.handlers == [Answered(e)] && w.bus == [e] && w.enqueued == []
  {
    var a, b, c, d := Accept(p), Store(0, true, true, true), Step.Enqueue(0, 0, false), Announce(0);
    assert [] + [a] == [a] && [a] + [b] == [a, b] && [a, b] + [c] == [a, b, c] && [a, b, c] + [d] == [a, b, c, d];
    RunAppend(hash, [], a);
    RunAppend(hash, [a], b);
    RunAppend(hash, [a, b], c);
    RunAppend(hash, [a, b, c], d);
    assert Run(hash, [a]) == START.(handlers := [Storing(p)]);
    hide Run, Storable, Kept, IsObject, Pushed, PollStep, ReplyStep, ActStep, SetStep;
    var e := Event(hash(Kept(p).text), p);
    assert Run(hash, [a, b]).handlers == [Enqueuing(e)];
    assert Run(hash, [a, b, c]).handlers == [Announcing(e)];
  }

  /** A published routing packet is queued, and its hash leads to what it carries instead. */
  lemma PacketInHistory(hash: string -> string, text: string, inner: Payload)
    requires IsObject(inner)
    ensures var w := Run(hash, [Accept(Packet(text, inner)), Store(0, true, true, true), Step.Enqueue(0, 0, true)]);
      var e := Event(hash(inner.text), Packet(text, inner));
      w.queue == [Item(0, e)] && e.hashId in w.cas && w.cas[e.hashId] == inner != e.payload
  {
    var a, b, c := Accept(Packet(text, inner)), Store(0, true, true, true), Step.Enqueue(0, 0, true);
    assert [] + [a] == [a] && [a] + [b] == [a, b] && [a, b] + [c] == [a, b, c];
    RunAppend(hash, [], a);
    RunAppend(hash, [a], b);
    RunAppend(hash, [a, b], c);
    assert Run(hash, [a]).handlers == [Storing(Packet(text, inner))];
  }

  // ----- What is refused, and what is off -----

  /** Payloads of accepted requests that are no routing packets. */
  ghost function PlainPublished(steps: seq<Step>): set<Payload> {
    set i | 0 <= i < |steps| && steps[i].Accept? && steps[i].payload.Plain? :: steps[i].payload
  }

  /**
   One published payload enters the store if and only if it is, or carries, an object, and a packet's
   signature is accepted.
   */
  lemma StoredIff(hash: string -> string, p: Payload, verified: bool)
    ensures var w := Run(hash, [Accept(p), Store(0, verified, true, true)]);
      if p.Plain? then
        w.cas == if p.isObject then map[hash(p.text) := p] else map[]
      else
        w.cas == if verified && (p.inner.Packet? || p.inner.isObject) then map[hash(p.inner.text) := p.inner] else map[]
  {
    var a, b := Accept(p), Store(0, verified, true, true);
    assert [] + [a] == [a] && [a] + [b] == [a, b];
    RunAppend(hash, [], a);
    RunAppend(hash, [a], b);
    var w := START.(handlers := [Storing(p)]);
    assert Run(hash, [a]) == w;
    assert Run(hash, [a, b]) == Exec(hash, w, b) == StoreStep(hash, w, 0, verified, true, true);
    hide Run, Exec;
    StoreFirst(hash, w, p, verified);
  }

  lemma StoreFirst(hash: string -> string, w: World, p: Payload, verified: bool)
    requires w.handlers == [Storing(p)] && w.cas == map[]
    ensures StoreStep(hash, w, 0, verified, true, true).cas ==
      if Storable(p, verified) then map[hash(Kept(p).text) := Kept(p)] else map[]
  {
  }

  ghost predicate OnlyPlain(w: World, ps: set<Payload>) {
    && (forall h :: h in w.cas ==> w.cas[h] in ps)
    && forall i :: 0 <= i < |w.handlers| && w.handlers[i].Storing? && w.handlers[i].payload.Plain? ==>
         w.handlers[i].payload in ps
  }

  lemma StepOnlyPlain(hash: string -> string, w: World, s: Step, ps: set<Payload>)
    requires OnlyPlain(w, ps) && (s.Store? ==> !s.verified)
    requires s.Accept? && s.payload.Plain? ==> s.payload in ps
    ensures OnlyPlain(Exec(hash, w, s), ps)
  {
    hide PollStep, ReplyStep, ActStep, SetStep, Pushed;
    match s
    case Store(h, _, _, _) => if h < |w.handlers| && w.handlers[h].Storing? { assert w.handlers[h] in w.handlers; }
    case Poll(arrives) => PollKeepsStore(w, arrives);
    case Reply(arrives) => ReplyKeepsStore(w, arrives);
    case Act(arrives) => ActKeepsStore(w, arrives);
    case Set(value) => SetKeepsStore(w, value);
    case _ =>
  }

  lemma PollKeepsStore(w: World, arrives: bool)
    ensures PollStep(w, arrives).cas == w.cas && PollStep(w, arrives).handlers == w.handlers
  {
  }

  lemma ReplyKeepsStore(w: World, arrives: bool)
    ensures ReplyStep(w, arrives).cas == w.cas && ReplyStep(w, arrives).handlers == w.handlers
  {
  }

  lemma ActKeepsStore(w: World, arrives: bool)
    ensures ActStep(w, arrives).cas == w.cas && ActStep(w, arrives).handlers == w.handlers
  {
  }

  lemma SetKeepsStore(w: World, value: Update)
    ensures SetStep(w, value).cas == w.cas && SetStep(w, value).handlers == w.handlers
  {
  }

  /** In every run in which no packet's signature is accepted, nothing that a packet carries enters the store. */
  lemma {:induction false} RefusedPacketsNeverStored(hash: string -> string, steps: seq<Step>, ps: set<Payload>)
    requires forall i :: 0 <= i < |steps| && steps[i].Store? ==> !steps[i].verified
    requires PlainPublished(steps) <= ps
    ensures OnlyPlain(Run(hash, steps), ps)
  {
    if steps != [] {
      var n := |steps| - 1;
      forall p | p in PlainPublished(steps[..n]) ensures p in ps {
        var i :| 0 <= i < n && steps[..n][i].Accept? && steps[..n][i].payload.Plain? && steps[..n][i].payload == p;
        assert steps[i].payload == p;
        assert p in PlainPublished(steps);
      }
      RefusedPacketsNeverStored(hash, steps[..n], ps);
      assert steps[n].Accept? && steps[n].payload.Plain? ==> steps[n].payload in PlainPublished(steps);
      StepOnlyPlain(hash, Run(hash, steps[..n]), steps[n], ps);
    }
  }

  /** The rule starts with every action off: until it is set nothing is sent to any sink. */
  lemma {:induction false} NothingSentUnlessSet(hash: string -> string, steps: seq<Step>)
    requires forall i :: 0 <= i < |steps| ==> !steps[i].Set?
    ensures var w := Run(hash, steps);
      w.attempts == [] && !w.consumer.Evaluating? && Rule(w) == Config(false, false, false)
  {
    if steps != [] { NothingSentUnlessSet(hash, steps[..|steps| - 1]); }
  }

  // ----- The rule in force -----

  lemma StepSets(hash: string -> string, w: World, s: Step, a: Action)
    ensures Enabled(Rule(Exec(hash, w, s)), a) ==
      if s.Set? && Posted(s.value, a).Some? then Posted(s.value, a).value else Enabled(Rule(w), a)
  {
    hide Enabled, NextAction, Storable, Kept, Pushed, Rank;
  }

  /** Step i posts the switch of an action, and no later one does. */
  ghost predicate PostsLast(steps: seq<Step>, a: Action, i: int) {
    && 0 <= i < |steps| && steps[i].Set? && Posted(steps[i].value, a).Some?
    && forall j :: i < j < |steps| && steps[j].Set? ==> Posted(steps[j].value, a).None?
  }

  lemma PostsLastOfMore(steps: seq<Step>, s: Step, a: Action)
    ensures s.Set? && Posted(s.value, a).Some? ==> forall i :: PostsLast(steps + [s], a, i) <==> i == |steps|
    ensures !(s.Set? && Posted(s.value, a).Some?) ==>
      forall i :: PostsLast(steps + [s], a, i) <==> PostsLast(steps, a, i)
  {
    hide Posted;
    var more := steps + [s];
    assert more[|steps|] == s;
    assert forall i :: 0 <= i < |steps| ==> more[i] == steps[i];
  }

  /** In every run a switch stands as it was last posted, however long ago, and is off if it never was. */
  lemma {:induction false} SwitchIsLastPosted(hash: string -> string, steps: seq<Step>, a: Action)
    ensures forall i :: PostsLast(steps, a, i) ==> Posted(steps[i].value, a) == Some(Enabled(Rule(Run(hash, steps)), a))
    ensures (forall i :: !PostsLast(steps, a, i)) ==> !Enabled(Rule(Run(hash, steps)), a)
  {
    if steps != [] {
      hide Posted, Enabled, Exec;
      var before, s := steps[..|steps| - 1], steps[|steps| - 1];
      assert steps == before + [s];
      SwitchIsLastPosted(hash, before, a);
      StepSets(hash, Run(hash, before), s, a);
      PostsLastOfMore(before, s, a);
      hide Run, Rule;
      forall i | PostsLast(steps, a, i) ensures 0 <= i < |before| ==> PostsLast(before, a, i) && steps[i] == before[i] {
      }
      hide PostsLast;
      if forall i :: !PostsLast(steps, a, i) {
        assert !PostsLast(steps, a, |before|);
        forall i ensures !PostsLast(before, a, i) { assert !PostsLast(steps, a, i); }
      }
    }
  }

  // ----- Lost requests -----

  lemma LostPoll(hash: string -> string, w: World)
    ensures Exec(hash, w, Poll(false)) == w
  {
  }

  /** A dequeue request that is lost on its way leaves no trace in a run. */
  lemma {:induction false} LostPollLeavesNoTrace(hash: string -> string, a: seq<Step>, b: seq<Step>)
    ensures Run(hash, a + [Poll(false)] + b) == Run(hash, a + b)
  {
    hide Run, Exec;
    if b == [] {
      assert a + [Poll(false)] + [] == a + [Poll(false)] && a + [] == a;
      RunAppend(hash, a, Poll(false));
      LostPoll(hash, Run(hash, a));
    } else {
      var c, s := b[..|b| - 1], b[|b| - 1];
      var traced, clean := a + [Poll(false)] + c, a + c;
      LostPollLeavesNoTrace(hash, a, c);
      assert a + [Poll(false)] + b == traced + [s] && a + b == clean + [s];
      RunAppend(hash, traced, s);
      RunAppend(hash, clean, s);
    }
  }

  lemma {:induction false} FailedStays(hash: string -> string, a: seq<Step>, b: seq<Step>, h: nat)
    requires h < |Run(hash, a).handlers| && Run(hash, a).handlers[h] == Failed
    ensures h < |Run(hash, a + b).handlers| && Run(hash, a + b).handlers[h] == Failed
  {
    hide Run, Exec;
    if b == [] {
      assert a + [] == a;
    } else {
      var c := a + b[..|b| - 1];
      FailedStays(hash, a, b[..|b| - 1], h);
      assert a + b == c + [b[|b| - 1]];
      RunAppend(hash, c, b[|b| - 1]);
      StepKeepsFailed(hash, Run(hash, c), b[|b| - 1], h);
    }
  }

  lemma StepKeepsFailed(hash: string -> string, w: World, s: Step, h: nat)
    requires h < |w.handlers| && w.handlers[h] == Failed
    ensures h < |Exec(hash, w, s).handlers| && Exec(hash, w, s).handlers[h] == Failed
  {
    hide Enabled, Rank, Storable, Kept, Pushed, NextAction;
  }

  /** A publish request whose store request is lost, refused or not answered fails for good. */
  lemma NoAnswerNoEvent(hash: string -> string, a: seq<Step>, h: nat, verified: bool, arrives: bool,
                        answered: bool, b: seq<Step>)
    requires h < |Run(hash, a).handlers| && Run(hash, a).handlers[h].Storing?
    requires !arrives || !answered || !Storable(Run(hash, a).handlers[h].payload, verified)
    ensures var w := Run(hash, a + [Store(h, verified, arrives, answered)] + b);
      h < |w.handlers| && w.handlers[h] == Failed
  {
    RunAppend(hash, a, Store(h, verified, arrives, answered));
    FailedStays(hash, a + [Store(h, verified, arrives, answered)], b, h);
  }

  /** The event at position n has left the queue, no action was tried for it and none will be. */
  ghost predicate PassedOver(w: World, n: int) {
    && n < |w.enqueued| - |w.queue|
    && (forall i :: 0 <= i < |w.attempts| ==> w.attempts[i].ticket.index != n)
    && (w.consumer.Waiting? && w.consumer.reply.Some? ==> w.consumer.reply.value.index != n)
    && (w.consumer.Evaluating? ==> w.consumer.ticket.index != n)
  }

  lemma StepPassesOver(hash: string -> string, w: World, s: Step, n: int)
    requires Ordered(w) && PassedOver(w, n)
    ensures PassedOver(Exec(hash, w, s), n)
  {
    hide Enabled, Rank, Storable, Kept, NextAction, AttemptInvariant, ConsumerInvariant;
  }

  lemma {:induction false} StaysPassedOver(hash: string -> string, a: seq<Step>, b: seq<Step>, n: int)
    requires PassedOver(Run(hash, a), n)
    ensures PassedOver(Run(hash, a + b), n)
  {
    hide Run, Exec, Ordered, PassedOver;
    if b == [] {
      assert a + [] == a;
    } else {
      var c := a + b[..|b| - 1];
      StaysPassedOver(hash, a, b[..|b| - 1], n);
      assert a + b == c + [b[|b| - 1]];
      RunAppend(hash, c, b[|b| - 1]);
      RunOrdered(hash, c);
      StepPassesOver(hash, Run(hash, c), b[|b| - 1], n);
    }
  }

  /** When the answer to a dequeue request is lost, its event is lost: no action is ever tried for it. */
  lemma LostReplyLosesEvent(hash: string -> string, a: seq<Step>, b: seq<Step>, t: Ticket)
    requires Run(hash, a).consumer == Waiting(Some(t))
    ensures var w := Run(hash, a + [Reply(false)] + b);
      forall i :: 0 <= i < |w.attempts| ==> w.attempts[i].ticket.index != t.index
  {
    RunOrdered(hash, a);
    RunAppend(hash, a, Reply(false));
    StaysPassedOver(hash, a + [Reply(false)], b, t.index);
  }
}
