/**
 The named bounded queues of services/queue/index.js.
 */
module Queue {
  import opened Results

  datatype Item<+T> = Item(ts: int, payload: T)

  type Queues<T> = map<string, seq<Item<T>>>

  const MAX_QUEUE_SIZE: nat := 500

  /** A queue that was never named is empty. */
  function Contents<T>(queues: Queues<T>, name: string): seq<Item<T>> {
    if name in queues then queues[name] else []
  }

  /** At the limit the oldest item makes room. */
  function Pushed<T>(q: seq<Item<T>>, item: Item<T>): (r: seq<Item<T>>)
    ensures |r| <= MAX_QUEUE_SIZE || |r| == |q|
  {
    if |q| < MAX_QUEUE_SIZE then q + [item] else (q + [item])[1..]
  }

  class QueueService<T> {
    var queues: Queues<T>

    constructor ()
      ensures queues == map[]
    {
      queues := map[];
    }

    method EnsureQueue(name: string)
      modifies this
      ensures queues == old(queues)[name := Contents(old(queues), name)]
    {
      if name !in queues {
        queues := queues[name := []];
      } else {
        assert queues == queues[name := queues[name]];
      }
    }

    method Enqueue(queue: string, payload: T, now: int) returns (item: Item<T>)
      modifies this
      ensures item == Item(now, payload)
      ensures queues == old(queues)[queue := Pushed(Contents(old(queues), queue), item)]
    {
      EnsureQueue(queue);
      item := Item(now, payload);
      queues := queues[queue := queues[queue] + [item]];
      if |queues[queue]| > MAX_QUEUE_SIZE {
        queues := queues[queue := queues[queue][1..]];
      }
    }

    method Dequeue(queue: string) returns (r: Option<Item<T>>)
      modifies this
      ensures var q := Contents(old(queues), queue);
        if q == [] then r == None && queues == old(queues)[queue := []]
        else r == Some(q[0]) && queues == old(queues)[queue := q[1..]]
    {
      EnsureQueue(queue);
      if |queues[queue]| == 0 {
        return None;
      }
      r := Some(queues[queue][0]);
      queues := queues[queue := queues[queue][1..]];
    }

    /** slice(0, limit): the front of the queue; a negative limit counts from its end. */
    method Peek(queue: string, limit: int) returns (r: seq<Item<T>>)
      modifies this
      ensures r <= Contents(old(queues), queue)
      ensures var n := |Contents(old(queues), queue)|;
        |r| == if 0 <= limit <= n then limit else if limit > n then n else if n + limit >= 0 then n + limit else 0
      ensures forall name :: Contents(queues, name) == Contents(old(queues), name)
      ensures queues == old(queues)[queue := Contents(old(queues), queue)]
    {
      EnsureQueue(queue);
      var q := queues[queue];
      if limit >= 0 {
        r := if limit < |q| then q[..limit] else q;
      } else {
        r := if |q| + limit > 0 then q[..|q| + limit] else [];
      }
    }
  }

  // ----- Runs over several queues -----

  datatype Call<+T> =
    | Enqueue(queue: string, payload: T, now: int)
    | Dequeue(queue: string)
    | Peek(queue: string, limit: int)

  function Exec<T>(queues: Queues<T>, c: Call<T>): Queues<T> {
    var q := Contents(queues, c.queue);
    match c
    case Enqueue(name, payload, now) => queues[name := Pushed(q, Item(now, payload))]
    case Dequeue(name) => queues[name := if q == [] then [] else q[1..]]
    case Peek(name, limit) => queues[name := q]
  }

  function Run<T>(calls: seq<Call<T>>): Queues<T> {
    if calls == [] then map[] else Exec(Run(calls[..|calls| - 1]), calls[|calls| - 1])
  }

  /** All items ever put into a queue, in order. */
  function Sent<T>(calls: seq<Call<T>>, name: string): seq<Item<T>> {
    if calls == [] then []
    else
      var c := calls[|calls| - 1];
      Sent(calls[..|calls| - 1], name) + if c.Enqueue? && c.queue == name then [Item(c.now, c.payload)] else []
  }

  /** What the dequeue calls on a queue returned, leaving out the empty answers. */
  function Received<T>(calls: seq<Call<T>>, name: string): seq<Item<T>> {
    if calls == [] then []
    else
      var before, c := calls[..|calls| - 1], calls[|calls| - 1];
      var q := Contents(Run(before), name);
      Received(before, name) + if c.Dequeue? && c.queue == name && q != [] then [q[0]] else []
  }

  /** How many items of a queue were dropped to make room. */
  function Dropped<T>(calls: seq<Call<T>>, name: string): nat {
    if calls == [] then 0
    else
      var before, c := calls[..|calls| - 1], calls[|calls| - 1];
      Dropped(before, name)
        + if c.Enqueue? && c.queue == name && |Contents(Run(before), name)| >= MAX_QUEUE_SIZE then 1 else 0
  }

  /** The positions in Sent of the items received. */
  function Positions<T>(calls: seq<Call<T>>, name: string): seq<int> {
    if calls == [] then []
    else
      var before, c := calls[..|calls| - 1], calls[|calls| - 1];
      var q := Contents(Run(before), name);
      Positions(before, name)
        + if c.Dequeue? && c.queue == name && q != [] then [|Sent(before, name)| - |q|] else []
  }

  ghost predicate IsSuffix<T>(q: seq<T>, all: seq<T>) {
    |q| <= |all| && q == all[|all| - |q|..]
  }

  lemma SuffixKept<T>(q: seq<T>, all: seq<T>)
    ensures q == [] ==> IsSuffix(q, all)
    ensures IsSuffix(q, all) ==> IsSuffix(q, all + []) && (q != [] ==> IsSuffix(q[1..], all))
  {
    assert all + [] == all;
  }

  lemma SuffixPushed<T>(q: seq<Item<T>>, all: seq<Item<T>>, item: Item<T>)
    requires IsSuffix(q, all)
    ensures IsSuffix(Pushed(q, item), all + [item])
    ensures |Pushed(q, item)| == if |q| < MAX_QUEUE_SIZE then |q| + 1 else |q|
  {
  }

  /**
   In every run on any queues, a queue holds the most recent items put into it, at most 500, and
   no item is lost or doubled: each was received, was dropped or is still there.
   */
  lemma {:induction false} QueueHoldsLatest<T>(calls: seq<Call<T>>, name: string)
    ensures var q := Contents(Run(calls), name);
      && |q| <= 500
      && IsSuffix(q, Sent(calls, name))
      && |Sent(calls, name)| == |Received(calls, name)| + Dropped(calls, name) + |q|
  {
    hide IsSuffix, Pushed;
    if calls == [] {
      SuffixKept<Item<T>>([], []);
    } else {
      var before, c := calls[..|calls| - 1], calls[|calls| - 1];
      var q, all := Contents(Run(before), name), Sent(before, name);
      QueueHoldsLatest(before, name);
      SuffixKept(q, all);
      assert all + [] == all;
      if c.queue == name {
        match c
        case Enqueue(_, payload, now) => SuffixPushed(q, all, Item(now, payload));
        case Dequeue(_) =>
        case Peek(_, _) =>
      }
    }
  }

  lemma SentGrows<T>(calls: seq<Call<T>>, name: string)
    requires calls != []
    ensures var before, c := calls[..|calls| - 1], calls[|calls| - 1];
      && Sent(before, name) <= Sent(calls, name)
      && (c.Dequeue? ==> Sent(calls, name) == Sent(before, name))
      && |Sent(calls, name)| - |Contents(Run(calls), name)| >= |Sent(before, name)| - |Contents(Run(before), name)|
  {
  }

  lemma NextReceived<T>(calls: seq<Call<T>>, name: string)
    requires calls != []
    ensures var before, c := calls[..|calls| - 1], calls[|calls| - 1];
      var q := Contents(Run(before), name);
      if c.Dequeue? && c.queue == name && q != [] then
        && Received(calls, name) == Received(before, name) + [q[0]]
        && Positions(calls, name) == Positions(before, name) + [|Sent(before, name)| - |q|]
        && Contents(Run(calls), name) == q[1..] && Sent(calls, name) == Sent(before, name)
      else Received(calls, name) == Received(before, name) && Positions(calls, name) == Positions(before, name)
  {
  }

  lemma HeadIsAt<T>(q: seq<T>, all: seq<T>)
    requires IsSuffix(q, all)
    ensures |q| <= |all| && (q != [] ==> q[0] == all[|all| - |q|])
  {
  }

  /** Items are received in the order in which they were put in, each at most once. */
  lemma {:induction false} ReceivedInOrder<T>(calls: seq<Call<T>>, name: string)
    ensures var all, got, at := Sent(calls, name), Received(calls, name), Positions(calls, name);
      var q := Contents(Run(calls), name);
      && |at| == |got|
      && (forall i :: 0 <= i < |at| ==> 0 <= at[i] < |all| - |q| && got[i] == all[at[i]])
      && (forall i, j :: 0 <= i < j < |at| ==> at[i] < at[j])
  {
    if calls != [] {
      hide *;
      var before := calls[..|calls| - 1];
      QueueHoldsLatest(before, name);
      HeadIsAt(Contents(Run(before), name), Sent(before, name));
      ReceivedInOrder(before, name);
      SentGrows(calls, name);
      NextReceived(calls, name);
    }
  }

  /** Nothing was dropped if and only if what was received and what is left make up all that was sent. */
  lemma {:induction false} LosslessIffNoneDropped<T>(calls: seq<Call<T>>, name: string)
    ensures Dropped(calls, name) == 0 <==> Sent(calls, name) == Received(calls, name) + Contents(Run(calls), name)
  {
    QueueHoldsLatest(calls, name);
    if Dropped(calls, name) == 0 { NoneDropped(calls, name); }
  }

  lemma LastSent<T>(calls: seq<Call<T>>, name: string)
    requires calls != []
    ensures var before, c := calls[..|calls| - 1], calls[|calls| - 1];
      Sent(calls, name) == Sent(before, name) + if c.Enqueue? && c.queue == name then [Item(c.now, c.payload)] else []
  {
  }

  lemma {:induction false} NoneDropped<T>(calls: seq<Call<T>>, name: string)
    requires Dropped(calls, name) == 0
    ensures Sent(calls, name) == Received(calls, name) + Contents(Run(calls), name)
  {
    if calls != [] {
      hide Sent, Pushed;
      var before, c := calls[..|calls| - 1], calls[|calls| - 1];
      NoneDropped(before, name);
      LastSent(calls, name);
      assert Received(before, name) + [] == Received(before, name);
      if c.Enqueue? && c.queue == name { PushedFits(Contents(Run(before), name), Item(c.now, c.payload)); }
    }
  }

  lemma PushedFits<T>(q: seq<Item<T>>, item: Item<T>)
    ensures |q| < 500 ==> Pushed(q, item) == q + [item]
  {
  }

  /** The first 500 items sent to a queue are all kept, however the dequeue calls fall between them. */
  lemma {:induction false} FirstItemsKept<T>(calls: seq<Call<T>>, name: string)
    requires |Sent(calls, name)| <= 500
    ensures Dropped(calls, name) == 0 && Sent(calls, name) == Received(calls, name) + Contents(Run(calls), name)
  {
    LosslessIffNoneDropped(calls, name);
    if calls != [] {
      hide Run, Contents, Received;
      var before := calls[..|calls| - 1];
      LastSent(calls, name);
      QueueHoldsLatest(before, name);
      FirstItemsKept(before, name);
    }
  }

  /** n dequeue calls in a row. */
  function Dequeues<T>(name: string, n: nat): seq<Call<T>> {
    if n == 0 then [] else Dequeues(name, n - 1) + [Call.Dequeue(name)]
  }

  lemma {:induction false} DequeueNext<T>(calls: seq<Call<T>>, name: string)
    requires Contents(Run(calls), name) != []
    ensures var q, later := Contents(Run(calls), name), calls + [Call.Dequeue(name)];
      Received(later, name) == Received(calls, name) + [q[0]] && Contents(Run(later), name) == q[1..]
  {
    assert (calls + [Call.Dequeue(name)])[..|calls|] == calls;
  }

  lemma TakeNext<T>(got: seq<T>, q: seq<T>, n: nat)
    requires 0 < n <= |q|
    ensures q[n - 1..] != [] && got + q[..n - 1] + [q[n - 1..][0]] == got + q[..n] && q[n - 1..][1..] == q[n..]
  {
  }

  /**
   What a peek shows is what dequeuing will bring: after any run the next n calls return the first n items
   in order and leave the rest.
   */
  lemma {:induction false} PeekForetells<T>(calls: seq<Call<T>>, name: string, n: nat)
    requires n <= |Contents(Run(calls), name)|
    ensures var q, later := Contents(Run(calls), name), calls + Dequeues(name, n);
      Received(later, name) == Received(calls, name) + q[..n] && Contents(Run(later), name) == q[n..]
  {
    hide Received, Run, Contents;
    var q := Contents(Run(calls), name);
    if n == 0 {
      assert calls + Dequeues(name, 0) == calls;
    } else {
      var before := calls + Dequeues(name, n - 1);
      PeekForetells(calls, name, n - 1);
      assert calls + Dequeues(name, n) == before + [Call.Dequeue(name)];
      hide Dequeues;
      TakeNext(Received(calls, name), q, n);
      DequeueNext(before, name);
    }
  }
}
